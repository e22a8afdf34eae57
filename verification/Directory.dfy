/** Directories that lie in their direct blocks: src/fs/dir.c. A directory is a map from names to
    entries, kept in slots of 24 bytes, 21 to a block. */
module Directory {
  import opened Machine

  const ENTRY_SIZE: nat := 24
  const PER_BLOCK: nat := 21
  const SLOTS: nat := 252

  datatype Kind = Unknown | Regular | Folder

  datatype Entry = Entry(name: string, ino: nat, kind: Kind)

  /** An entry of zero bytes */
  const EMPTY := Entry("", 0, Unknown)

  type Block = b: seq<Entry> | |b| == PER_BLOCK witness seq(PER_BLOCK, _ => EMPTY)

  function ZeroBlock(): Block {
    seq(PER_BLOCK, _ => EMPTY)
  }

  predicate Live(e: Entry) {
    e.kind != Unknown
  }

  predicate IsDots(n: string) {
    n == "." || n == ".."
  }

  /** "." and ".." */
  predicate Dots(e: Entry) {
    IsDots(e.name)
  }

  // ----- the slots of a directory, in the order of the code's loops -----

  function SlotAt(disk: map<nat, Block>, sectors: seq<nat>, p: nat): Entry
    requires |sectors| == DIRECT && p < SLOTS
  {
    var lba := sectors[p / PER_BLOCK];
    if lba != 0 && lba in disk then disk[lba][p % PER_BLOCK] else EMPTY
  }

  /** All 252 slots; a block that is not there counts as empty. */
  function Slots(disk: map<nat, Block>, sectors: seq<nat>): (s: seq<Entry>)
    requires |sectors| == DIRECT
    ensures |s| == SLOTS
  {
    seq(SLOTS, p requires 0 <= p < SLOTS => SlotAt(disk, sectors, p))
  }

  // ----- well-formed directories -----

  /** The blocks that are there are different ones, and the first is. */
  ghost predicate BlocksOk(disk: map<nat, Block>, sectors: seq<nat>) {
    && |sectors| == DIRECT && sectors[0] != 0
    && (forall i :: 0 <= i < DIRECT && sectors[i] != 0 ==> sectors[i] in disk)
    && (forall i, j :: 0 <= i < j < DIRECT && sectors[i] != 0 ==> sectors[i] != sectors[j])
  }

  /** Empty slots are zero; a live one has a name that no other has. */
  ghost predicate SlotsOk(s: seq<Entry>) {
    && (forall p :: 0 <= p < |s| ==> if Live(s[p]) then s[p].name != "" else s[p] == EMPTY)
    && (forall p, q :: 0 <= p < q < |s| && Live(s[p]) && Live(s[q]) ==> s[p].name != s[q].name)
  }

  /** "." is the first entry and ".." is there. */
  ghost predicate DotsOk(s: seq<Entry>) {
    && |s| > 0 && Live(s[0]) && s[0].name == "."
    && exists p :: 0 <= p < |s| && Live(s[p]) && s[p].name == ".."
  }

  /** The live entries, in order. */
  function Lives(s: seq<Entry>): (r: seq<Entry>)
    ensures |r| <= |s|
  {
    if s == [] then [] else
      var rest := Lives(s[..|s| - 1]);
      if Live(s[|s| - 1]) then rest + [s[|s| - 1]] else rest
  }

  ghost predicate DirOk(disk: map<nat, Block>, sectors: seq<nat>, size: nat) {
    && BlocksOk(disk, sectors)
    && var s := Slots(disk, sectors); SlotsOk(s) && DotsOk(s) && size == ENTRY_SIZE * |Lives(s)|
  }

  /** The map that a directory stands for. */
  function Table(s: seq<Entry>): map<string, Entry> {
    if s == [] then map[] else
      var rest, e := Table(s[..|s| - 1]), s[|s| - 1];
      if Live(e) then rest[e.name := e] else rest
  }

  // ----- counting -----

  lemma {:induction false} LivesConcat(a: seq<Entry>, b: seq<Entry>)
    ensures Lives(a + b) == Lives(a) + Lives(b)
  {
    if b == [] {
      assert a + b == a;
    } else {
      var n := |b| - 1;
      assert (a + b)[..|a + b| - 1] == a + b[..n];
      LivesConcat(a, b[..n]);
    }
  }

  /** Putting `e` into slot `q`: the live entries before and after it stay in order. */
  lemma LivesUpdate(s: seq<Entry>, q: nat, e: Entry)
    requires q < |s|
    ensures Lives(s) == Lives(s[..q]) + Lives([s[q]]) + Lives(s[q + 1..])
    ensures Lives(s[q := e]) == Lives(s[..q]) + Lives([e]) + Lives(s[q + 1..])
  {
    assert s == s[..q] + [s[q]] + s[q + 1..];
    LivesConcat(s[..q] + [s[q]], s[q + 1..]);
    LivesConcat(s[..q], [s[q]]);
    assert s[q := e] == s[..q] + [e] + s[q + 1..];
    LivesConcat(s[..q] + [e], s[q + 1..]);
    LivesConcat(s[..q], [e]);
  }

  lemma LivesOne(e: Entry)
    ensures Lives([e]) == if Live(e) then [e] else []
  {
    assert Lives([]) == [];
    assert [e][..0] == [];
  }

  lemma CountUpdate(s: seq<Entry>, q: nat, e: Entry)
    requires q < |s|
    ensures |Lives(s[q := e])| == |Lives(s)| - (if Live(s[q]) then 1 else 0) + if Live(e) then 1 else 0
  {
    LivesUpdate(s, q, e);
    LivesOne(e);
    LivesOne(s[q]);
  }

  /** The list of live entries holds each live slot's entry and nothing else, each once. */
  lemma {:induction false} LivesExact(s: seq<Entry>)
    requires SlotsOk(s)
    ensures forall e :: e in Lives(s) <==> Live(e) && e in s
    ensures forall i, j :: 0 <= i < j < |Lives(s)| ==> Lives(s)[i].name != Lives(s)[j].name
  {
    if s != [] {
      var n := |s| - 1;
      LivesExact(s[..n]);
      assert s == s[..n] + [s[n]];
      forall e | e in Lives(s[..n]) && Live(s[n]) ensures e.name != s[n].name {
        var p :| 0 <= p < n && s[p] == e;
      }
    }
  }

  // ----- writing one slot -----

  lemma SlotWritten(disk: map<nat, Block>, sectors: seq<nat>, b: nat, i: nat, e: Entry)
    requires BlocksOk(disk, sectors) && b < DIRECT && sectors[b] != 0 && i < PER_BLOCK
    ensures Slots(disk[sectors[b] := disk[sectors[b]][i := e]], sectors) == Slots(disk, sectors)[PER_BLOCK * b + i := e]
  {
    var disk' := disk[sectors[b] := disk[sectors[b]][i := e]];
    forall p: nat | p < SLOTS ensures SlotAt(disk', sectors, p) == Slots(disk, sectors)[PER_BLOCK * b + i := e][p] {
      assert p == PER_BLOCK * (p / PER_BLOCK) + p % PER_BLOCK;
    }
  }

  lemma BlockAdded(disk: map<nat, Block>, sectors: seq<nat>, b: nat, lba: nat, e: Entry)
    requires BlocksOk(disk, sectors) && b < DIRECT && sectors[b] == 0 && lba != 0 && lba !in sectors
    ensures BlocksOk(disk[lba := ZeroBlock()[0 := e]], sectors[b := lba])
    ensures Slots(disk[lba := ZeroBlock()[0 := e]], sectors[b := lba]) == Slots(disk, sectors)[PER_BLOCK * b := e]
  {
    var disk' := disk[lba := ZeroBlock()[0 := e]];
    var sectors' := sectors[b := lba];
    forall p: nat | p < SLOTS ensures SlotAt(disk', sectors', p) == Slots(disk, sectors)[PER_BLOCK * b := e][p] {
      assert p == PER_BLOCK * (p / PER_BLOCK) + p % PER_BLOCK;
    }
  }

  lemma {:induction false} TableHas(s: seq<Entry>, p: nat)
    requires SlotsOk(s) && p < |s| && Live(s[p])
    ensures s[p].name in Table(s) && Table(s)[s[p].name] == s[p]
  {
    var n := |s| - 1;
    if p < n {
      TableHas(s[..n], p);
    }
  }

  lemma {:induction false} TableFrom(s: seq<Entry>, n: string) returns (p: nat)
    requires n in Table(s)
    ensures p < |s| && Live(s[p]) && s[p].name == n && Table(s)[n] == s[p]
  {
    p := |s| - 1;
    if !(Live(s[p]) && s[p].name == n) {
      p := TableFrom(s[..p], n);
    }
  }

  lemma DotsStay(s: seq<Entry>, q: nat, e: Entry)
    requires DotsOk(s) && q < |s| && (Live(s[q]) ==> !Dots(s[q]))
    ensures DotsOk(s[q := e])
  {
    var p :| 0 <= p < |s| && Live(s[p]) && s[p].name == "..";
    assert s[q := e][p] == s[p];
  }

  lemma InsertSlots(s: seq<Entry>, q: nat, e: Entry)
    requires SlotsOk(s) && q < |s| && Live(e) && e.name != "" && e.name !in Table(s)
    ensures SlotsOk(s[q := e])
  {
    forall p: nat | p < |s| && Live(s[p]) ensures s[p].name != e.name {
      TableHas(s, p);
    }
  }

  /** Filling an empty slot with a new name adds it to the map. */
  lemma InsertRefines(s: seq<Entry>, q: nat, e: Entry)
    requires SlotsOk(s) && q < |s| && !Live(s[q]) && Live(e) && e.name != "" && e.name !in Table(s)
    ensures SlotsOk(s[q := e]) && Table(s[q := e]) == Table(s)[e.name := e]
  {
    var s' := s[q := e];
    var want := Table(s)[e.name := e];
    InsertSlots(s, q, e);
    forall n | n in Table(s') ensures n in want && want[n] == Table(s')[n] {
      var p := TableFrom(s', n);
      if p != q {
        TableHas(s, p);
      }
    }
    forall n | n in want ensures n in Table(s') {
      var p := q;
      if n != e.name {
        p := TableFrom(s, n);
      }
      TableHas(s', p);
    }
  }

  /** Clearing a slot takes its name out of the map. */
  lemma DeleteRefines(s: seq<Entry>, q: nat)
    requires SlotsOk(s) && q < |s| && Live(s[q])
    ensures SlotsOk(s[q := EMPTY]) && Table(s[q := EMPTY]) == Table(s) - {s[q].name}
  {
    var s' := s[q := EMPTY];
    var want := Table(s) - {s[q].name};
    forall n | n in Table(s') ensures n in want && want[n] == Table(s')[n] {
      var p := TableFrom(s', n);
      TableHas(s, p);
    }
    forall n | n in want ensures n in Table(s') {
      var p := TableFrom(s, n);
      TableHas(s', p);
    }
  }

  // ----- size and emptiness -----

  lemma {:induction false} TableSize(s: seq<Entry>)
    requires SlotsOk(s)
    ensures |Table(s)| == |Lives(s)|
  {
    if s != [] {
      var n := |s| - 1;
      TableSize(s[..n]);
      if Live(s[n]) {
        if s[n].name in Table(s[..n]) {
          var p := TableFrom(s[..n], s[n].name);
        }
        assert Table(s).Keys == Table(s[..n]).Keys + {s[n].name};
      }
    }
  }

  lemma SubsetOfSameSize<T>(a: set<T>, b: set<T>)
    requires a <= b && |a| == |b|
    ensures a == b
  {
    assert b == a + (b - a);
    assert |b - a| == |b| - |a|;
  }

  /** dir_is_empty compares the size with two entries; that is the case exactly when "." and
      ".." are all there is. */
  lemma EmptyIff(s: seq<Entry>)
    requires SlotsOk(s) && DotsOk(s)
    ensures ENTRY_SIZE * |Lives(s)| == 2 * ENTRY_SIZE <==> Table(s).Keys == {".", ".."}
  {
    TableSize(s);
    TableHas(s, 0);
    var p: nat :| p < |s| && Live(s[p]) && s[p].name == "..";
    TableHas(s, p);
    assert |{".", ".."}| == 2;
    assert |Table(s).Keys| == |Table(s)|;
    if |Lives(s)| == 2 {
      SubsetOfSameSize({".", ".."}, Table(s).Keys);
    }
  }

  // ----- inserting and deleting -----

  /** The first live entry of `s` that delete_dir_entry takes for inode `ino` */
  predicate Victim(s: seq<Entry>, q: nat, ino: nat) {
    q < |s| && Live(s[q]) && !Dots(s[q]) && s[q].ino == ino
  }

  ghost predicate FirstVictim(s: seq<Entry>, q: nat, ino: nat) {
    Victim(s, q, ino) && forall p: nat :: p < q ==> !Victim(s, p, ino)
  }

  ghost predicate FirstHole(s: seq<Entry>, q: nat) {
    q < |s| && !Live(s[q]) && forall p :: 0 <= p < q ==> Live(s[p])
  }

  /** The first empty slot was filled with `e`, and no block added but the one it is in. */
  ghost predicate Filled(s: seq<Entry>, s': seq<Entry>, sectors: seq<nat>, sectors': seq<nat>, e: Entry) {
    exists q: nat :: FirstHole(s, q) && s' == s[q := e] && SameBut(sectors, sectors', q / PER_BLOCK)
  }

  predicate SameBut(sectors: seq<nat>, sectors': seq<nat>, b: nat) {
    |sectors'| == |sectors| && forall i :: 0 <= i < |sectors| && i != b ==> sectors'[i] == sectors[i]
  }

  /** The first entry for inode `ino` was cleared, and its name left the map. */
  ghost predicate Removed(s: seq<Entry>, s': seq<Entry>, ino: nat) {
    exists q: nat :: FirstVictim(s, q, ino) && s' == s[q := EMPTY] && Table(s') == Table(s) - {s[q].name}
  }

  lemma InsertDone(s: seq<Entry>, q: nat, e: Entry)
    requires SlotsOk(s) && DotsOk(s) && q < |s| && !Live(s[q]) && (forall p :: 0 <= p < q ==> Live(s[p])) && Live(e) && e.name != ""
    ensures |Lives(s[q := e])| == |Lives(s)| + 1 && DotsOk(s[q := e]) && FirstHole(s, q)
    ensures e.name !in Table(s) ==> SlotsOk(s[q := e]) && Table(s[q := e]) == Table(s)[e.name := e]
  {
    CountUpdate(s, q, e);
    DotsStay(s, q, e);
    if e.name !in Table(s) {
      InsertRefines(s, q, e);
    }
  }

  lemma DeleteDone(s: seq<Entry>, q: nat, ino: nat)
    requires SlotsOk(s) && DotsOk(s) && FirstVictim(s, q, ino)
    ensures |Lives(s[q := EMPTY])| == |Lives(s)| - 1 && DotsOk(s[q := EMPTY])
    ensures SlotsOk(s[q := EMPTY]) && Removed(s, s[q := EMPTY], ino)
  {
    CountUpdate(s, q, EMPTY);
    DotsStay(s, q, EMPTY);
    DeleteRefines(s, q);
  }

  lemma {:induction false} LivesNone(s: seq<Entry>)
    requires forall p :: 0 <= p < |s| ==> !Live(s[p])
    ensures Lives(s) == []
  {
    if s != [] {
      LivesNone(s[..|s| - 1]);
    }
  }

  /** The slots of block `b` */
  lemma BlockSlots(disk: map<nat, Block>, sectors: seq<nat>, b: nat)
    requires BlocksOk(disk, sectors) && b < DIRECT
    ensures forall k :: PER_BLOCK * b <= k < PER_BLOCK * b + PER_BLOCK ==>
      Slots(disk, sectors)[k] == if sectors[b] != 0 then disk[sectors[b]][k - PER_BLOCK * b] else EMPTY
  {
  }

  lemma BlockVictims(disk: map<nat, Block>, sectors: seq<nat>, b: nat, ino: nat)
    requires BlocksOk(disk, sectors) && b < DIRECT
    requires sectors[b] != 0 ==> forall i: nat :: i < PER_BLOCK ==> !Victim(disk[sectors[b]], i, ino)
    ensures forall p: nat :: PER_BLOCK * b <= p < PER_BLOCK * b + PER_BLOCK ==> !Victim(Slots(disk, sectors), p, ino)
  {
    forall p: nat | PER_BLOCK * b <= p < PER_BLOCK * b + PER_BLOCK ensures !Victim(Slots(disk, sectors), p, ino) {
      var i := p - PER_BLOCK * b;
      assert sectors[b] != 0 ==> !Victim(disk[sectors[b]], i, ino);
    }
  }

  lemma VictimIsFirst(disk: map<nat, Block>, sectors: seq<nat>, b: nat, i: nat, ino: nat)
    requires BlocksOk(disk, sectors) && b < DIRECT && sectors[b] != 0 && Victim(disk[sectors[b]], i, ino)
    requires forall p: nat :: p < PER_BLOCK * b ==> !Victim(Slots(disk, sectors), p, ino)
    requires forall j: nat :: j < i ==> !Victim(disk[sectors[b]], j, ino)
    ensures FirstVictim(Slots(disk, sectors), PER_BLOCK * b + i, ino)
  {
    BlockSlots(disk, sectors, b);
    forall p: nat | p < PER_BLOCK * b + i ensures !Victim(Slots(disk, sectors), p, ino) {
      assert p >= PER_BLOCK * b ==> !Victim(disk[sectors[b]], p - PER_BLOCK * b, ino);
    }
  }

  /** The number of live entries before slot `p` */
  ghost function Before(s: seq<Entry>, p: nat): nat
    requires p <= |s|
  {
    |Lives(s[..p])|
  }

  ghost predicate KthLive(s: seq<Entry>, k: nat, e: Entry) {
    k < |Lives(s)| && Lives(s)[k] == e
  }

  lemma BeforeEnds(s: seq<Entry>)
    ensures Before(s, 0) == 0 && Before(s, |s|) == |Lives(s)|
  {
    assert s[..0] == [] && s[..|s|] == s;
  }

  class Dir {
    var size: nat
    var sectors: seq<nat>
    var pose: nat
    var disk: map<nat, Block>

    constructor (size: nat, sectors: seq<nat>, disk: map<nat, Block>)
      ensures this.size == size && this.sectors == sectors && this.disk == disk && pose == 0
    {
      this.size, this.sectors, this.disk, pose := size, sectors, disk, 0;
    }

    ghost predicate Valid()
      reads this
    {
      DirOk(disk, sectors, size)
    }

    ghost function View(): seq<Entry>
      requires |sectors| == DIRECT
      reads this
    {
      Slots(disk, sectors)
    }

    /** search_dir_entry */
    method Search(name: string) returns (r: Option<Entry>)
      requires Valid()
      ensures name != "" ==> r == if name in Table(View()) then Some(Table(View())[name]) else None
      ensures name == "" && r.Some? ==> r == Some(EMPTY)
    {
      var b := 0;
      while b < DIRECT
        invariant 0 <= b <= DIRECT
        invariant name != "" ==> forall p :: 0 <= p < PER_BLOCK * b ==> View()[p].name != name
      {
        BlockSlots(disk, sectors, b);
        if sectors[b] != 0 {
          var i := FindName(disk[sectors[b]], name);
          if i < PER_BLOCK {
            var p := PER_BLOCK * b + i;
            assert View()[p] == disk[sectors[b]][i];
            if name != "" {
              TableHas(View(), p);
            }
            return Some(disk[sectors[b]][i]);
          }
        }
        b := b + 1;
      }
      if name != "" && name in Table(View()) {
        ghost var p := TableFrom(View(), name);
      }
      return None;
    }

    /** The inner loop of search_dir_entry; PER_BLOCK when no slot has the name */
    method FindName(block: Block, name: string) returns (i: nat)
      ensures i <= PER_BLOCK && (i < PER_BLOCK ==> block[i].name == name) && forall j :: 0 <= j < i ==> block[j].name != name
    {
      i := 0;
      while i < PER_BLOCK && block[i].name != name
        invariant 0 <= i <= PER_BLOCK && forall j :: 0 <= j < i ==> block[j].name != name
      {
        i := i + 1;
      }
    }

    /** sync_dir_entry, with `lba` the block that block_bitmap_alloc would give. Not `ok`: the
        direct blocks are full and the code goes on to an indirect one. */
    method Insert(e: Entry, lba: nat) returns (ok: bool)
      requires Valid() && Live(e) && e.name != "" && lba != 0 && lba !in sectors
      modifies this
      ensures pose == old(pose) && BlocksOk(disk, sectors)
      ensures !ok ==> unchanged(this) && forall p :: 0 <= p < SLOTS ==> Live(View()[p])
      ensures ok ==> size == old(size) + ENTRY_SIZE && Filled(old(View()), View(), old(sectors), sectors, e)
      ensures ok ==> forall i :: 0 <= i < DIRECT && old(sectors)[i] != 0 ==> sectors[i] == old(sectors)[i]
      ensures ok && e.name !in old(Table(View())) ==> Valid() && Table(View()) == old(Table(View()))[e.name := e]
    {
      assert size % ENTRY_SIZE == 0;
      var b, i := FindPlace();
      ok := b < DIRECT;
      if ok {
        Add(b, i, lba, e);
      }
    }

    /** The entry goes into the first hole */
    method Add(b: nat, i: nat, lba: nat, e: Entry)
      requires Valid() && Live(e) && e.name != "" && lba != 0 && lba !in sectors
      requires b < DIRECT && i < PER_BLOCK && (sectors[b] == 0 ==> i == 0) && FirstHole(View(), PER_BLOCK * b + i)
      modifies this`sectors, this`disk, this`size
      ensures BlocksOk(disk, sectors) && size == old(size) + ENTRY_SIZE && Filled(old(View()), View(), old(sectors), sectors, e)
      ensures forall i :: 0 <= i < DIRECT && old(sectors)[i] != 0 ==> sectors[i] == old(sectors)[i]
      ensures e.name !in old(Table(View())) ==> Valid() && Table(View()) == old(Table(View()))[e.name := e]
    {
      ghost var s := View();
      Place(b, i, lba, e);
      InsertDone(s, PER_BLOCK * b + i, e);
    }

    /** The search of sync_dir_entry for a slot: the first hole, or the start of the first block
        that is not there */
    method FindPlace() returns (b: nat, i: nat)
      requires BlocksOk(disk, sectors)
      ensures b <= DIRECT && i < PER_BLOCK && (b == DIRECT || sectors[b] == 0 ==> i == 0)
      ensures b < DIRECT ==> !Live(View()[PER_BLOCK * b + i])
      ensures forall p :: 0 <= p < PER_BLOCK * b + i ==> Live(View()[p])
    {
      b := 0;
      while b < DIRECT
        invariant 0 <= b <= DIRECT && forall p :: 0 <= p < PER_BLOCK * b ==> Live(View()[p])
      {
        BlockSlots(disk, sectors, b);
        if sectors[b] == 0 {
          return b, 0;
        }
        i := FindHole(disk[sectors[b]]);
        if i < PER_BLOCK {
          return;
        }
        b := b + 1;
      }
      return b, 0;
    }

    /** The entry goes into slot `i` of block `b`, or starts a new block */
    method Place(b: nat, i: nat, lba: nat, e: Entry)
      requires BlocksOk(disk, sectors) && b < DIRECT && i < PER_BLOCK && lba != 0 && lba !in sectors && (sectors[b] == 0 ==> i == 0)
      modifies this`sectors, this`disk, this`size
      ensures sectors == if old(sectors)[b] == 0 then old(sectors)[b := lba] else old(sectors)
      ensures size == old(size) + ENTRY_SIZE && BlocksOk(disk, sectors) && View() == old(View())[PER_BLOCK * b + i := e]
    {
      if sectors[b] == 0 {
        BlockAdded(disk, sectors, b, lba, e);
        sectors := sectors[b := lba];
        disk := disk[lba := ZeroBlock()[0 := e]];
      } else {
        SlotWritten(disk, sectors, b, i, e);
        disk := disk[sectors[b] := disk[sectors[b]][i := e]];
      }
      size := size + ENTRY_SIZE;
    }

    method ClearSlot(b: nat, i: nat)
      requires BlocksOk(disk, sectors) && b < DIRECT && sectors[b] != 0 && i < PER_BLOCK && size >= ENTRY_SIZE
      modifies this`disk, this`size
      ensures size == old(size) - ENTRY_SIZE && BlocksOk(disk, sectors) && View() == old(View())[PER_BLOCK * b + i := EMPTY]
    {
      SlotWritten(disk, sectors, b, i, EMPTY);
      disk := disk[sectors[b] := disk[sectors[b]][i := EMPTY]];
      size := size - ENTRY_SIZE;
    }

    method FindHole(block: Block) returns (i: nat)
      ensures i <= PER_BLOCK && (i < PER_BLOCK ==> !Live(block[i])) && forall j :: 0 <= j < i ==> Live(block[j])
    {
      i := 0;
      while i < PER_BLOCK && Live(block[i])
        invariant 0 <= i <= PER_BLOCK && forall j :: 0 <= j < i ==> Live(block[j])
      {
        i := i + 1;
      }
    }

    /** delete_dir_entry. "." has been seen by the time an entry is found, so that the branch
        which gives a block back is never taken. */
    method Delete(ino: nat) returns (found: bool)
      requires Valid()
      modifies this
      ensures Valid() && sectors == old(sectors) && pose == old(pose)
      ensures !found ==> unchanged(this) && forall p: nat :: !Victim(View(), p, ino)
      ensures found ==> size == old(size) - ENTRY_SIZE && Removed(old(View()), View(), ino)
    {
      ghost var s := View();
      var b, i := FindEntry(ino);
      if b == DIRECT {
        return false;
      }
      DeleteDone(s, PER_BLOCK * b + i, ino);
      ClearSlot(b, i);
      return true;
    }

    /** The search of delete_dir_entry, block by block */
    method FindEntry(ino: nat) returns (b: nat, i: nat)
      requires BlocksOk(disk, sectors) && DotsOk(View())
      ensures b <= DIRECT && (b < DIRECT ==> i < PER_BLOCK && sectors[b] != 0 && FirstVictim(View(), PER_BLOCK * b + i, ino))
      ensures b == DIRECT ==> forall p: nat :: !Victim(View(), p, ino)
    {
      b, i := 0, 0;
      var isFirst := false;
      while b < DIRECT
        invariant 0 <= b <= DIRECT && (b > 0 ==> isFirst)
        invariant forall p: nat :: p < PER_BLOCK * b ==> !Victim(Slots(disk, sectors), p, ino)
      {
        BlockSlots(disk, sectors, b);
        if sectors[b] != 0 {
          var cnt;
          i, cnt, isFirst := FindVictim(disk[sectors[b]], ino, isFirst);
          if i < PER_BLOCK {
            assert !(cnt == 1 && !isFirst);
            VictimIsFirst(disk, sectors, b, i, ino);
            return;
          }
        }
        BlockVictims(disk, sectors, b, ino);
        b := b + 1;
      }
    }

    /** The inner loop of delete_dir_entry */
    method FindVictim(block: Block, ino: nat, seen: bool) returns (i: nat, cnt: nat, isFirst: bool)
      ensures i <= PER_BLOCK && (i < PER_BLOCK ==> Victim(block, i, ino)) && forall j: nat :: j < i ==> !Victim(block, j, ino)
      ensures seen || (Live(block[0]) && block[0].name == ".") ==> isFirst
      ensures i < PER_BLOCK ==> 1 <= cnt <= i + 1
    {
      i, cnt, isFirst := 0, 0, seen;
      while i < PER_BLOCK
        invariant 0 <= i <= PER_BLOCK && cnt <= i && forall j: nat :: j < i ==> !Victim(block, j, ino)
        invariant seen || (i > 0 && Live(block[0]) && block[0].name == ".") ==> isFirst
      {
        if Live(block[i]) {
          if block[i].name == "." {
            isFirst := true;
          } else if block[i].name != ".." {
            cnt := cnt + 1;
            if block[i].ino == ino {
              return;
            }
          }
        }
        i := i + 1;
      }
    }

    /** dir_read: the entry at position `pose`, or none when all have been read */
    method DirRead() returns (r: Option<Entry>)
      requires Valid() && pose % ENTRY_SIZE == 0
      modifies this`pose
      ensures old(pose) >= size ==> r == None && pose == old(pose)
      ensures old(pose) < size ==> r == Some(Lives(View())[old(pose) / ENTRY_SIZE]) && pose == old(pose) + ENTRY_SIZE
    {
      if pose >= size {
        return None;
      }
      r := FindLive(pose, pose / ENTRY_SIZE);
      pose := pose + ENTRY_SIZE;
    }

    /** The loop of dir_read over the blocks, looking for live entry `k` */
    method FindLive(at: nat, ghost k: nat) returns (r: Option<Entry>)
      requires BlocksOk(disk, sectors) && at == ENTRY_SIZE * k && k < |Lives(View())|
      ensures r.Some? && KthLive(View(), k, r.value)
    {
      ghost var s := View();
      BeforeEnds(s);
      var b, cur := 0, 0;
      while b < DIRECT
        invariant 0 <= b <= DIRECT && cur == ENTRY_SIZE * Before(s, PER_BLOCK * b) && Before(s, PER_BLOCK * b) <= k
      {
        BlockRead(disk, sectors, b);
        if sectors[b] != 0 {
          r, cur := ReadBlock(disk[sectors[b]], at, cur, s, PER_BLOCK * b, k);
          if r.Some? {
            return;
          }
        }
        b := b + 1;
      }
    }

    /** The inner loop of dir_read, on the block at slot `base`, looking for live entry `k` */
    method ReadBlock(block: Block, at: nat, cur0: nat, ghost s: seq<Entry>, ghost base: nat, ghost k: nat) returns (r: Option<Entry>, cur: nat)
      requires base + PER_BLOCK <= |s| && forall i :: 0 <= i < PER_BLOCK ==> s[base + i] == block[i]
      requires at == ENTRY_SIZE * k && cur0 == ENTRY_SIZE * Before(s, base) <= at
      ensures r.None? ==> cur == ENTRY_SIZE * Before(s, base + PER_BLOCK) <= at
      ensures r.Some? ==> KthLive(s, k, r.value)
    {
      ghost var done := Before(s, base);
      var i := 0;
      cur := cur0;
      while i < PER_BLOCK
        invariant 0 <= i <= PER_BLOCK && cur == ENTRY_SIZE * done && done <= k && done == Before(s, base + i)
      {
        var e := block[i];
        assert e == s[base + i];
        LivesNext(s, base + i);
        if Live(e) {
          if cur < at {
            cur := cur + ENTRY_SIZE;
            done := done + 1;
          } else {
            assert cur == at;
            return Some(e), cur;
          }
        }
        i := i + 1;
      }
      return None, cur;
    }

    /** sys_rewinddir, and then sys_readdir until it has no more: every live entry once, in order */
    method ReadAll() returns (all: seq<Entry>)
      requires Valid()
      modifies this`pose
      ensures all == Lives(View()) && forall e :: e in all <==> Live(e) && e in View()
      ensures forall i, j :: 0 <= i < j < |all| ==> all[i].name != all[j].name
    {
      pose, all := 0, [];
      var more := true;
      while more
        invariant pose == ENTRY_SIZE * |all| && |all| <= |Lives(View())| && all == Lives(View())[..|all|]
        invariant !more ==> |all| == |Lives(View())|
        decreases |Lives(View())| - |all|, more
      {
        var r := DirRead();
        if r.Some? {
          all := all + [r.value];
        } else {
          more := false;
        }
      }
      LivesExact(View());
    }

    /** dir_remove, as far as its ASSERTs go */
    method DirRemove() returns (halted: bool)
      requires Valid()
      ensures halted <==> !Removable(sectors, View())
    {
      EmptyIff(View());
      var b := 1;
      while b < DIRECT
        invariant 1 <= b <= DIRECT && forall i :: 1 <= i < b ==> sectors[i] == 0
      {
        if sectors[b] != 0 {
          return true;
        }
        b := b + 1;
      }
      return size != 2 * ENTRY_SIZE;
    }
  }

  /** Only "." and ".." are left, and there never was a second block. */
  ghost predicate Removable(sectors: seq<nat>, s: seq<Entry>)
    requires |sectors| == DIRECT
  {
    (forall i :: 1 <= i < DIRECT ==> sectors[i] == 0) && Table(s).Keys == {".", ".."}
  }

  lemma BlockRead(disk: map<nat, Block>, sectors: seq<nat>, b: nat)
    requires BlocksOk(disk, sectors) && b < DIRECT
    ensures var s := Slots(disk, sectors); sectors[b] == 0 ==> Before(s, PER_BLOCK * b + PER_BLOCK) == Before(s, PER_BLOCK * b)
    ensures sectors[b] != 0 ==> forall i :: 0 <= i < PER_BLOCK ==> Slots(disk, sectors)[PER_BLOCK * b + i] == disk[sectors[b]][i]
  {
    if sectors[b] == 0 {
      SkipBlock(disk, sectors, b);
    } else {
      BlockSlots(disk, sectors, b);
    }
  }

  lemma SkipBlock(disk: map<nat, Block>, sectors: seq<nat>, b: nat)
    requires BlocksOk(disk, sectors) && b < DIRECT && sectors[b] == 0
    ensures Before(Slots(disk, sectors), PER_BLOCK * (b + 1)) == Before(Slots(disk, sectors), PER_BLOCK * b)
  {
    var s := Slots(disk, sectors);
    BlockSlots(disk, sectors, b);
    var rest := s[PER_BLOCK * b..PER_BLOCK * (b + 1)];
    assert s[..PER_BLOCK * (b + 1)] == s[..PER_BLOCK * b] + rest;
    LivesConcat(s[..PER_BLOCK * b], rest);
    LivesNone(rest);
  }

  lemma LivesNext(s: seq<Entry>, p: nat)
    requires p < |s|
    ensures Before(s, p + 1) == Before(s, p) + if Live(s[p]) then 1 else 0
    ensures Live(s[p]) ==> KthLive(s, Before(s, p), s[p])
  {
    assert s[..p + 1][..p] == s[..p];
    assert s == s[..p + 1] + s[p + 1..];
    LivesConcat(s[..p + 1], s[p + 1..]);
  }
}
