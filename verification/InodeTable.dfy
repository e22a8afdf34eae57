/** Inodes on the disk and in the cache of open inodes: src/fs/inode.c. */
module InodeTable {
  import opened Machine
  import opened Sectors

  const INODE_SIZE: nat := 76
  const INODE_WORDS: nat := 19
  const TABLE_SECTORS: nat := 608

  /** The fields that outlive an opening */
  datatype Inode = Inode(no: nat, size: nat, sectors: seq<nat>)

  predicate InodeOk(x: Inode) {
    x.no < U32 && x.size < U32 && |x.sectors| == 13 && forall i :: 0 <= i < 13 ==> x.sectors[i] < U32
  }

  // ----- the bytes of an inode -----

  /** The structure in words: i_no, i_size, i_open_cnt, write_deny, i_sectors, inode_tag. The
      fields that mean something in memory only are cleared. */
  function ToWords(x: Inode): (ws: seq<nat>)
    requires InodeOk(x)
    ensures |ws| == INODE_WORDS && forall i :: 0 <= i < INODE_WORDS ==> ws[i] < U32
  {
    [x.no, x.size, 0, 0] + x.sectors + [0, 0]
  }

  function OfWords(ws: seq<nat>): Inode
    requires |ws| == INODE_WORDS
  {
    Inode(ws[0], ws[1], ws[4..17])
  }

  function BytesFrom(ws: seq<nat>): (bs: seq<byte>)
    requires |ws| == INODE_WORDS
    ensures |bs| == INODE_SIZE
  {
    seq(INODE_SIZE, k requires 0 <= k < INODE_SIZE => ByteOf(ws[k / 4], k % 4))
  }

  function WordsIn(bs: seq<byte>): (ws: seq<nat>)
    requires |bs| == INODE_SIZE
    ensures |ws| == INODE_WORDS
  {
    seq(INODE_WORDS, i requires 0 <= i < INODE_WORDS => WordOf(bs[4 * i], bs[4 * i + 1], bs[4 * i + 2], bs[4 * i + 3]))
  }

  lemma WordAt(ws: seq<nat>, bs: seq<byte>, i: nat)
    requires |ws| == INODE_WORDS && bs == BytesFrom(ws) && i < INODE_WORDS && ws[i] < U32
    ensures WordsIn(bs)[i] == ws[i]
  {
    assert bs[4 * i] == ByteOf(ws[i], 0) && bs[4 * i + 1] == ByteOf(ws[i], 1);
    assert bs[4 * i + 2] == ByteOf(ws[i], 2) && bs[4 * i + 3] == ByteOf(ws[i], 3);
    WordRoundTrip(ws[i]);
  }

  lemma WordsBack(ws: seq<nat>, bs: seq<byte>)
    requires |ws| == INODE_WORDS && bs == BytesFrom(ws) && forall i :: 0 <= i < INODE_WORDS ==> ws[i] < U32
    ensures WordsIn(bs) == ws
  {
    forall i | 0 <= i < INODE_WORDS ensures WordsIn(bs)[i] == ws[i] {
      WordAt(ws, bs, i);
    }
  }

  function Encode(x: Inode): (bs: seq<byte>)
    requires InodeOk(x)
    ensures |bs| == INODE_SIZE
  {
    BytesFrom(ToWords(x))
  }

  function Decode(bs: seq<byte>): Inode
    requires |bs| == INODE_SIZE
  {
    OfWords(WordsIn(bs))
  }

  lemma RoundTrip(x: Inode)
    requires InodeOk(x)
    ensures Decode(Encode(x)) == x
  {
    WordsBack(ToWords(x), Encode(x));
    assert ToWords(x)[4..17] == x.sectors;
  }

  /** Where the fields of struct inode lie: i_no at 0, i_size at 4, i_sectors from 16 on, and the
      fields for memory only, at 8, 12, 68 and 72, are zero. */
  lemma FieldsAt(x: Inode, i: nat)
    requires InodeOk(x) && i < 13
    ensures WordsIn(Encode(x))[0] == x.no && WordsIn(Encode(x))[1] == x.size && WordsIn(Encode(x))[4 + i] == x.sectors[i]
    ensures forall k :: k in {2, 3, 17, 18} ==> WordsIn(Encode(x))[k] == 0
  {
    WordsBack(ToWords(x), Encode(x));
    FieldWords(x, WordsIn(Encode(x)), i);
  }

  lemma FieldWords(x: Inode, ws: seq<nat>, i: nat)
    requires InodeOk(x) && ws == ToWords(x) && i < 13
    ensures ws[0] == x.no && ws[1] == x.size && ws[4 + i] == x.sectors[i] && forall k :: k in {2, 3, 17, 18} ==> ws[k] == 0
  {
  }

  // ----- the table -----

  predicate TableOk(disk: Disk, table: nat) {
    table + TABLE_SECTORS <= |disk|
  }

  /** Byte `j` of the inode table, which starts at sector `table` */
  function TableByte(disk: Disk, table: nat, j: nat): byte
    requires TableOk(disk, table) && j < BLOCK_SIZE * TABLE_SECTORS
  {
    disk[table + j / BLOCK_SIZE][j % BLOCK_SIZE]
  }

  function SlotBytes(disk: Disk, table: nat, no: nat): (bs: seq<byte>)
    requires TableOk(disk, table) && no < MAX_INODES
    ensures |bs| == INODE_SIZE
  {
    seq<byte>(INODE_SIZE, k requires 0 <= k < INODE_SIZE => TableByte(disk, table, INODE_SIZE * no + k))
  }

  /** The inode that the table holds under a number */
  function Stored(disk: Disk, table: nat, no: nat): Inode
    requires TableOk(disk, table) && no < MAX_INODES
  {
    Decode(SlotBytes(disk, table, no))
  }

  /** locate_inode */
  datatype Position = Position(twoSectors: bool, lba: nat, off: nat)

  function Locate(table: nat, no: nat): (p: Position)
    requires no < MAX_INODES
    ensures BLOCK_SIZE * (p.lba - table) + p.off == INODE_SIZE * no && p.off < BLOCK_SIZE && table <= p.lba
    ensures p.twoSectors <==> p.off + INODE_SIZE > BLOCK_SIZE
    ensures p.lba - table + (if p.twoSectors then 2 else 1) <= TABLE_SECTORS
  {
    var bytes := no * INODE_SIZE;
    var off := bytes % BLOCK_SIZE;
    Position(BLOCK_SIZE - off < INODE_SIZE, table + bytes / BLOCK_SIZE, off)
  }

  function NewByte(disk: Disk, table: nat, no: nat, bs: seq<byte>, j: nat): byte
    requires TableOk(disk, table) && j < BLOCK_SIZE * TABLE_SECTORS && |bs| == INODE_SIZE
  {
    if INODE_SIZE * no <= j < INODE_SIZE * no + INODE_SIZE then bs[j - INODE_SIZE * no] else TableByte(disk, table, j)
  }

  /** Exactly the bytes of one slot were replaced. */
  ghost predicate SlotReplaced(disk: Disk, disk': Disk, table: nat, no: nat, bs: seq<byte>)
    requires TableOk(disk, table) && no < MAX_INODES && |bs| == INODE_SIZE
  {
    && |disk'| == |disk|
    && (forall lba: nat :: lba < |disk| && !(table <= lba < table + TABLE_SECTORS) ==> disk'[lba] == disk[lba])
    && (forall j: nat :: j < BLOCK_SIZE * TABLE_SECTORS ==> TableByte(disk', table, j) == NewByte(disk, table, no, bs, j))
  }

  /** After replacing one slot, that slot reads as what was written and every other inode as before. */
  lemma ReplacedStored(disk: Disk, disk': Disk, table: nat, no: nat, x: Inode, m: nat)
    requires TableOk(disk, table) && no < MAX_INODES && m < MAX_INODES && InodeOk(x)
    requires SlotReplaced(disk, disk', table, no, Encode(x))
    ensures m != no ==> SlotBytes(disk', table, m) == SlotBytes(disk, table, m)
    ensures Stored(disk', table, m) == if m == no then x else Stored(disk, table, m)
  {
    forall k: nat | k < INODE_SIZE
      ensures SlotBytes(disk', table, m)[k] == if m == no then Encode(x)[k] else SlotBytes(disk, table, m)[k]
    {
      var j := INODE_SIZE * m + k;
      assert j < BLOCK_SIZE * TABLE_SECTORS;
      assert TableByte(disk', table, j) == SlotBytes(disk', table, m)[k];
    }
    if m == no {
      assert SlotBytes(disk', table, m) == Encode(x);
      RoundTrip(x);
    } else {
      assert SlotBytes(disk', table, m) == SlotBytes(disk, table, m);
    }
  }

  function Patch(buf: seq<byte>, off: nat, bs: seq<byte>): (r: seq<byte>)
    requires off + |bs| <= |buf|
    ensures |r| == |buf| && forall k :: 0 <= k < |buf| ==> r[k] == if off <= k < off + |bs| then bs[k - off] else buf[k]
  {
    buf[..off] + bs + buf[off + |bs|..]
  }

  lemma PatchedOne(disk: Disk, table: nat, no: nat, bs: seq<byte>)
    requires TableOk(disk, table) && no < MAX_INODES && |bs| == INODE_SIZE && !Locate(table, no).twoSectors
    ensures var p := Locate(table, no); SlotReplaced(disk, disk[p.lba := Patch(disk[p.lba], p.off, bs)], table, no, bs)
  {
    var p := Locate(table, no);
    var disk' := disk[p.lba := Patch(disk[p.lba], p.off, bs)];
    forall j: nat | j < BLOCK_SIZE * TABLE_SECTORS ensures TableByte(disk', table, j) == NewByte(disk, table, no, bs, j) {
      var lba, k := table + j / BLOCK_SIZE, j % BLOCK_SIZE;
      assert j == BLOCK_SIZE * (lba - table) + k;
    }
  }

  function TwoSectors(a: Sector, b: Sector): (r: seq<byte>)
    ensures |r| == 2 * BLOCK_SIZE && r[..BLOCK_SIZE] == a && r[BLOCK_SIZE..] == b
  {
    var s: seq<byte> := a;
    s + b
  }

  lemma PatchedTwo(disk: Disk, table: nat, no: nat, bs: seq<byte>, buf: seq<byte>)
    requires TableOk(disk, table) && no < MAX_INODES && |bs| == INODE_SIZE && Locate(table, no).twoSectors
    requires var p := Locate(table, no); buf == Patch(TwoSectors(disk[p.lba], disk[p.lba + 1]), p.off, bs)
    ensures var p := Locate(table, no); SlotReplaced(disk, disk[p.lba := buf[..BLOCK_SIZE]][p.lba + 1 := buf[BLOCK_SIZE..]], table, no, bs)
  {
    var p := Locate(table, no);
    var disk' := disk[p.lba := buf[..BLOCK_SIZE]][p.lba + 1 := buf[BLOCK_SIZE..]];
    forall j: nat | j < BLOCK_SIZE * TABLE_SECTORS ensures TableByte(disk', table, j) == NewByte(disk, table, no, bs, j) {
      var lba, k := table + j / BLOCK_SIZE, j % BLOCK_SIZE;
      assert j == BLOCK_SIZE * (lba - table) + k;
      if lba == p.lba {
        assert disk'[lba][k] == buf[k];
      } else if lba == p.lba + 1 {
        assert disk'[lba][k] == buf[BLOCK_SIZE + k];
      }
    }
  }

  /** The number that inode_sync keeps in 8 bits */
  function Narrow(no: nat): (r: nat)
    ensures r < 256 && (r == no <==> no < 256)
  {
    no % 256
  }

  /** The table holds `x` under its narrowed number, and all else as before. */
  ghost predicate Synced(disk: Disk, disk': Disk, table: nat, x: Inode)
    requires TableOk(disk, table)
  {
    TableOk(disk', table) &&
    forall m :: 0 <= m < MAX_INODES ==> Stored(disk', table, m) == if m == Narrow(x.no) then x else Stored(disk, table, m)
  }

  lemma SameIff(now: Inode, before: Inode, x: Inode, written: bool)
    requires if written then now == x else now == before
    ensures now == x <==> written || before == x
  {
  }

  /** After inode_sync an uncached opening finds the inode if and only if its number is below
      256, unless the table held it already; from 256 on another inode is overwritten. */
  lemma SyncRightIff(disk: Disk, disk': Disk, table: nat, x: Inode)
    requires TableOk(disk, table) && InodeOk(x) && x.no < MAX_INODES && Synced(disk, disk', table, x)
    ensures Stored(disk', table, x.no) == x <==> x.no < 256 || Stored(disk, table, x.no) == x
    ensures x.no >= 256 ==> Narrow(x.no) != x.no && Stored(disk', table, Narrow(x.no)) == x
  {
    var n := Narrow(x.no);
    var now, before := Stored(disk', table, x.no), Stored(disk, table, x.no);
    assert Stored(disk', table, n) == x;
    assert n != x.no ==> now == before;
    SameIff(now, before, x, x.no < 256);
  }

  const NO_INODE := Inode(0, 0, seq(13, _ => 0))

  /** A deleted inode is all zero bytes. */
  lemma DeletedIsZero(k: nat)
    requires k < INODE_SIZE
    ensures Encode(NO_INODE)[k] == 0
  {
    assert ToWords(NO_INODE)[k / 4] == 0;
  }

  // ----- the cache -----

  datatype Cached = Cached(inode: Inode, openCnt: nat)

  /** One copy per number, and its count is the number of openings not yet closed. */
  ghost predicate CacheOk(open: seq<Cached>, handles: multiset<nat>) {
    && (forall i, j :: 0 <= i < j < |open| ==> open[i].inode.no != open[j].inode.no)
    && (forall i :: 0 <= i < |open| ==> open[i].openCnt == handles[open[i].inode.no] && open[i].openCnt > 0)
    && (forall no :: no in handles ==> IsOpen(open, no))
  }

  ghost predicate IsOpen(open: seq<Cached>, no: nat) {
    exists i :: 0 <= i < |open| && open[i].inode.no == no
  }

  /** The copy of `x` has one opening more. */
  ghost predicate Reopened(open: seq<Cached>, open': seq<Cached>, x: Inode) {
    exists i :: ReopenedAt(open, open', i, x)
  }

  predicate ReopenedAt(open: seq<Cached>, open': seq<Cached>, i: int, x: Inode) {
    0 <= i < |open| && open[i].inode == x && open' == open[i := Cached(x, open[i].openCnt + 1)]
  }

  /** The copy for `no` has one opening less, or is gone if that was the last; all other copies
      stay, in order. */
  ghost predicate Reclosed(open: seq<Cached>, open': seq<Cached>, no: nat) {
    exists i :: ReclosedAt(open, open', i, no)
  }

  predicate ReclosedAt(open: seq<Cached>, open': seq<Cached>, i: int, no: nat) {
    && 0 <= i < |open| && open[i].inode.no == no
    && open' == if open[i].openCnt <= 1 then open[..i] + open[i + 1..] else open[i := Cached(open[i].inode, open[i].openCnt - 1)]
  }

  lemma OpenedAgain(open: seq<Cached>, handles: multiset<nat>, i: nat)
    requires CacheOk(open, handles) && i < |open|
    ensures CacheOk(open[i := open[i].(openCnt := open[i].openCnt + 1)], handles + multiset{open[i].inode.no})
  {
    var open' := open[i := open[i].(openCnt := open[i].openCnt + 1)];
    var handles' := handles + multiset{open[i].inode.no};
    forall no | no in handles' ensures IsOpen(open', no) {
      assert no in handles;
      var k :| 0 <= k < |open| && open[k].inode.no == no;
      assert open'[k].inode.no == no;
    }
  }

  lemma OpenedFirst(open: seq<Cached>, handles: multiset<nat>, x: Inode)
    requires CacheOk(open, handles) && !IsOpen(open, x.no)
    ensures CacheOk([Cached(x, 1)] + open, handles + multiset{x.no})
  {
    var open' := [Cached(x, 1)] + open;
    assert x.no !in handles;
    forall no | no in handles + multiset{x.no} ensures IsOpen(open', no) {
      if no == x.no {
        assert open'[0].inode.no == no;
      } else {
        var k :| 0 <= k < |open| && open[k].inode.no == no;
        assert open'[k + 1].inode.no == no;
      }
    }
  }

  /** A copy read from the disk keeps the cache right if and only if it carries the number it
      was asked for by. */
  lemma OpenedFirstIff(open: seq<Cached>, handles: multiset<nat>, x: Inode, no: nat)
    requires CacheOk(open, handles) && !IsOpen(open, no)
    ensures CacheOk([Cached(x, 1)] + open, handles + multiset{no}) <==> x.no == no
  {
    var open' := [Cached(x, 1)] + open;
    if x.no == no {
      OpenedFirst(open, handles, x);
    } else {
      assert forall i :: 0 <= i < |open| ==> open[i].inode.no != no;
      assert !IsOpen(open', no);
      assert no in handles + multiset{no};
    }
  }

  lemma ClosedOnce(open: seq<Cached>, handles: multiset<nat>, i: nat)
    requires CacheOk(open, handles) && i < |open|
    ensures var no := open[i].inode.no; open[i].openCnt > 1 ==>
      CacheOk(open[i := open[i].(openCnt := open[i].openCnt - 1)], handles - multiset{no})
  {
    var open' := open[i := open[i].(openCnt := open[i].openCnt - 1)];
    var handles' := handles - multiset{open[i].inode.no};
    forall no | no in handles' ensures IsOpen(open', no) {
      assert no in handles;
      var k :| 0 <= k < |open| && open[k].inode.no == no;
      assert open'[k].inode.no == no;
    }
  }

  lemma ClosedLast(open: seq<Cached>, handles: multiset<nat>, i: nat)
    requires CacheOk(open, handles) && i < |open| && open[i].openCnt == 1
    ensures CacheOk(open[..i] + open[i + 1..], handles - multiset{open[i].inode.no})
    ensures !IsOpen(open[..i] + open[i + 1..], open[i].inode.no)
  {
    var open' := open[..i] + open[i + 1..];
    var handles' := handles - multiset{open[i].inode.no};
    forall no | no in handles' ensures IsOpen(open', no) {
      assert no in handles && no != open[i].inode.no;
      var k :| 0 <= k < |open| && open[k].inode.no == no;
      assert open'[if k < i then k else k - 1].inode.no == no;
    }
  }

  class Inodes {
    const table: nat
    var disk: Disk
    var open: seq<Cached>
    ghost var handles: multiset<nat>

    constructor (table: nat, disk: Disk)
      requires TableOk(disk, table)
      ensures Valid() && this.table == table && this.disk == disk && open == [] && handles == multiset{}
    {
      this.table, this.disk, open, handles := table, disk, [], multiset{};
    }

    ghost predicate Valid()
      reads this
    {
      TableOk(disk, table) && CacheOk(open, handles)
    }

    method WriteSlot(no: nat, bs: seq<byte>)
      requires TableOk(disk, table) && no < MAX_INODES && |bs| == INODE_SIZE
      modifies this`disk
      ensures TableOk(disk, table) && SlotReplaced(old(disk), disk, table, no, bs)
    {
      var p := Locate(table, no);
      if p.twoSectors {
        var buf := Patch(TwoSectors(disk[p.lba], disk[p.lba + 1]), p.off, bs);
        PatchedTwo(disk, table, no, bs, buf);
        disk := disk[p.lba := buf[..BLOCK_SIZE]][p.lba + 1 := buf[BLOCK_SIZE..]];
      } else {
        PatchedOne(disk, table, no, bs);
        disk := disk[p.lba := Patch(disk[p.lba], p.off, bs)];
      }
    }

    /** inode_sync: the slot of the narrowed number is replaced, and no other inode's bytes are */
    method InodeSync(x: Inode)
      requires TableOk(disk, table) && InodeOk(x)
      modifies this`disk
      ensures TableOk(disk, table) && SlotReplaced(old(disk), disk, table, Narrow(x.no), Encode(x))
      ensures Synced(old(disk), disk, table, x)
    {
      WriteSlot(Narrow(x.no), Encode(x));
      forall m | 0 <= m < MAX_INODES ensures Stored(disk, table, m) == if m == Narrow(x.no) then x else old(Stored(disk, table, m)) {
        ReplacedStored(old(disk), disk, table, Narrow(x.no), x, m);
      }
    }

    /** inode_delete: the slot becomes zero; its number is not narrowed */
    method InodeDelete(no: nat) returns (halted: bool)
      requires TableOk(disk, table)
      modifies this`disk
      ensures halted <==> no >= MAX_INODES
      ensures TableOk(disk, table)
      ensures !halted ==> forall m :: 0 <= m < MAX_INODES ==> Stored(disk, table, m) == if m == no then NO_INODE else old(Stored(disk, table, m))
    {
      if !(no < MAX_INODES) {
        return true;
      }
      WriteSlot(no, Encode(NO_INODE));
      forall m | 0 <= m < MAX_INODES ensures Stored(disk, table, m) == if m == no then NO_INODE else old(Stored(disk, table, m)) {
        ReplacedStored(old(disk), disk, table, no, NO_INODE, m);
      }
      return false;
    }

    method Find(no: nat) returns (i: nat)
      ensures i <= |open| && (i < |open| ==> open[i].inode.no == no) && (i == |open| ==> !IsOpen(open, no))
    {
      i := 0;
      while i < |open| && open[i].inode.no != no
        invariant 0 <= i <= |open| && forall j :: 0 <= j < i ==> open[j].inode.no != no
      {
        i := i + 1;
      }
    }

    /** inode_open: the cached copy if there is one, else the one on the disk */
    method InodeOpen(no: nat) returns (r: Outcome<Inode>)
      requires Valid()
      modifies this`open, this`handles
      ensures r.Halt? <==> no >= MAX_INODES && !IsOpen(old(open), no)
      ensures r.Halt? ==> unchanged(this)
      ensures r.Done? ==> handles == old(handles) + multiset{no} && TableOk(disk, table)
      ensures r.Done? ==> (CacheOk(open, handles) <==> IsOpen(old(open), no) || Stored(disk, table, no).no == no)
      ensures r.Done? && IsOpen(old(open), no) ==> r.value.no == no
      ensures r.Done? && !IsOpen(old(open), no) ==> r.value == Stored(disk, table, no) && open == [Cached(r.value, 1)] + old(open)
      ensures r.Done? && IsOpen(old(open), no) ==> Reopened(old(open), open, r.value)
    {
      var i := Find(no);
      if i < |open| {
        Reopen(i);
        return Done(open[i].inode);
      }
      if !(no < MAX_INODES) {
        return Halt;
      }
      var x := ReadSlot(no);
      OpenedFirstIff(open, handles, x, no);
      open := [Cached(x, 1)] + open;
      handles := handles + multiset{no};
      return Done(x);
    }

    method Reopen(i: nat)
      requires Valid() && i < |open|
      modifies this`open, this`handles
      ensures Valid() && handles == old(handles) + multiset{old(open)[i].inode.no}
      ensures open == old(open)[i := Cached(old(open)[i].inode, old(open)[i].openCnt + 1)] && Reopened(old(open), open, open[i].inode)
    {
      OpenedAgain(open, handles, i);
      handles := handles + multiset{open[i].inode.no};
      open := open[i := open[i].(openCnt := open[i].openCnt + 1)];
      assert ReopenedAt(old(open), open, i, open[i].inode);
    }

    method ReadSlot(no: nat) returns (x: Inode)
      requires TableOk(disk, table) && no < MAX_INODES
      ensures x == Stored(disk, table, no)
    {
      var p := Locate(table, no);
      var buf: seq<byte> := if p.twoSectors then TwoSectors(disk[p.lba], disk[p.lba + 1]) else disk[p.lba];
      SlotRead(disk, table, no, buf);
      return Decode(buf[p.off..p.off + INODE_SIZE]);
    }

    /** inode_close: the last closing drops the copy */
    method InodeClose(no: nat)
      requires Valid() && no in handles
      modifies this`open, this`handles
      ensures Valid() && handles == old(handles) - multiset{no}
      ensures IsOpen(open, no) <==> old(handles)[no] > 1
      ensures Reclosed(old(open), open, no)
    {
      assert IsOpen(open, no);
      var i := Find(no);
      CloseAt(i);
    }

    method CloseAt(i: nat)
      requires Valid() && i < |open|
      modifies this`open, this`handles
      ensures Valid() && handles == old(handles) - multiset{old(open)[i].inode.no}
      ensures IsOpen(open, old(open)[i].inode.no) <==> old(open)[i].openCnt > 1
      ensures ReclosedAt(old(open), open, i, old(open)[i].inode.no)
    {
      ghost var no := open[i].inode.no;
      if open[i].openCnt - 1 == 0 {
        ClosedLast(open, handles, i);
        open := open[..i] + open[i + 1..];
      } else {
        ClosedOnce(open, handles, i);
        open := open[i := open[i].(openCnt := open[i].openCnt - 1)];
        assert open[i].inode.no == no;
      }
      handles := handles - multiset{no};
    }

    method SyncOwn(x: Inode)
      requires TableOk(disk, table) && InodeOk(x) && x.no < 256
      modifies this`disk
      ensures TableOk(disk, table) && Stored(disk, table, x.no) == x
    {
      InodeSync(x);
      SyncRightIff(old(disk), disk, table, x);
    }

    /** An inode that is synced, closed for the last time and opened again comes back with the
        same fields, if its number fits in 8 bits. */
    method SyncCloseOpen(x: Inode) returns (r: Outcome<Inode>)
      requires Valid() && InodeOk(x) && x.no < 256 && handles[x.no] == 1
      modifies this
      ensures Valid() && r == Done(x) && handles == old(handles)
    {
      SyncOwn(x);
      InodeClose(x.no);
      r := InodeOpen(x.no);
    }
  }

  lemma SlotRead(disk: Disk, table: nat, no: nat, buf: seq<byte>)
    requires TableOk(disk, table) && no < MAX_INODES
    requires var p := Locate(table, no); buf == if p.twoSectors then TwoSectors(disk[p.lba], disk[p.lba + 1]) else disk[p.lba]
    ensures var off := Locate(table, no).off; off + INODE_SIZE <= |buf| && buf[off..off + INODE_SIZE] == SlotBytes(disk, table, no)
  {
    var p := Locate(table, no);
    forall k: nat | k < INODE_SIZE ensures buf[p.off + k] == SlotBytes(disk, table, no)[k] {
      var j := INODE_SIZE * no + k;
      assert j == BLOCK_SIZE * (p.lba - table) + p.off + k;
      assert SlotBytes(disk, table, no)[k] == TableByte(disk, table, j);
      if p.off + k < BLOCK_SIZE {
        assert j / BLOCK_SIZE == p.lba - table && j % BLOCK_SIZE == p.off + k;
        assert p.twoSectors ==> buf[..BLOCK_SIZE][p.off + k] == disk[p.lba][p.off + k];
      } else {
        assert j / BLOCK_SIZE == p.lba - table + 1 && j % BLOCK_SIZE == p.off + k - BLOCK_SIZE;
        assert buf[BLOCK_SIZE..][p.off + k - BLOCK_SIZE] == disk[p.lba + 1][p.off + k - BLOCK_SIZE];
      }
    }
  }
}
