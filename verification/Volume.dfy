/** All regular files of a partition together: who owns which block, and what the files hold,
    over every run of creations, writes and releases. */
module Volume {
  import opened Machine
  import opened Sectors
  import opened Files

  /** An inode; `blocks` are the blocks that its entries map. */
  datatype Node = Node(size: nat, sectors: seq<nat>, blocks: seq<nat>)

  /** `rest` are the allocated blocks that belong to no file: those of directories, and the
      ones that failed writes and releases of the longest files leave behind. */
  datatype Vol = Vol(disk: Disk, bits: seq<bool>, files: map<nat, Node>, rest: set<nat>)

  function Own(nd: Node): set<nat> {
    Owned(At(nd.sectors, DIRECT), nd.blocks)
  }

  predicate OwnedBy(v: Vol, f: nat, lba: nat) {
    f in v.files && lba in Own(v.files[f])
  }

  ghost predicate NodeOk(ds: nat, disk: Disk, bits: seq<bool>, nd: Node) {
    FileOk(ds, disk, bits, nd.sectors, nd.blocks) && SizeOk(nd.size, nd.blocks)
  }

  ghost predicate FilesOk(ds: nat, v: Vol) {
    forall f :: f in v.files ==> NodeOk(ds, v.disk, v.bits, v.files[f])
  }

  /** No block has two owners. */
  ghost predicate OneOwner(v: Vol) {
    forall f, g, lba :: OwnedBy(v, f, lba) && OwnedBy(v, g, lba) ==> f == g
  }

  ghost predicate RestOk(ds: nat, v: Vol) {
    forall lba :: lba in v.rest ==> Used(ds, |v.disk|, v.bits, lba) && forall f :: !OwnedBy(v, f, lba)
  }

  ghost predicate HasOwner(v: Vol, lba: nat) {
    lba in v.rest || exists f :: OwnedBy(v, f, lba)
  }

  /** Every allocated block has an owner. */
  ghost predicate NoLeak(ds: nat, v: Vol) {
    forall lba: nat :: Used(ds, |v.disk|, v.bits, lba) ==> HasOwner(v, lba)
  }

  ghost predicate Inv(ds: nat, v: Vol) {
    Geometry(ds, |v.disk|, v.bits) && FilesOk(ds, v) && OneOwner(v) && RestOk(ds, v) && NoLeak(ds, v)
  }

  /** What the files hold, by inode number. */
  function Holding(v: Vol): map<nat, seq<byte>> {
    map f | f in v.files :: Content(v.disk, v.files[f].blocks, v.files[f].size)
  }

  // ----- steps -----

  datatype Step = Create(no: nat) | Write(no: nat, data: seq<byte>) | FailedWrite | Release(no: nat)

  function NewNode(): Node {
    Node(0, seq(DIRECT + 1, _ => 0), [])
  }

  /** A write that came back with its count, as Partition.FileWrite promises it */
  ghost predicate Wrote(ds: nat, v: Vol, v': Vol, no: nat, data: seq<byte>) {
    && no in v.files && no in v'.files && v'.files == v.files[no := v'.files[no]] && v'.rest == v.rest
    && var a, b := v.files[no], v'.files[no];
    && Geometry(ds, |v'.disk|, v'.bits) && NodeOk(ds, v'.disk, v'.bits, b)
    && Extended(ds, v.disk, v.bits, At(a.sectors, DIRECT), a.blocks, v'.disk, v'.bits, At(b.sectors, DIRECT), b.blocks)
    && Content(v'.disk, b.blocks, b.size) == Content(v.disk, a.blocks, a.size) + data
  }

  /** A write that came back with -1: at most one block went missing */
  ghost predicate WriteFailed(ds: nat, v: Vol, v': Vol) {
    && v'.disk == v.disk && v'.files == v.files && Geometry(ds, |v.disk|, v'.bits)
    && (v'.bits == v.bits || OneLost(ds, |v.disk|, v.bits, v'.bits))
    && v'.rest == v.rest + Marked(ds, v.bits, v'.bits)
  }

  /** The blocks marked between two states of the map */
  function Marked(ds: nat, bits: seq<bool>, bits': seq<bool>): set<nat> {
    set i | 0 <= i < |bits| && i < |bits'| && bits'[i] && !bits[i] :: ds + i
  }

  /** inode_release of a file, as Partition.InodeRelease promises it */
  ghost predicate ReleaseDone(ds: nat, v: Vol, v': Vol, no: nat) {
    && no in v.files && v'.disk == v.disk && v'.files == v.files - {no}
    && var nd := v.files[no]; var gone := Owned(At(nd.sectors, DIRECT), Released(nd.blocks));
    && Cleared(ds, v.bits, v'.bits, gone) && v'.rest == v.rest + (Own(nd) - gone)
  }

  ghost predicate Next(ds: nat, v: Vol, step: Step, v': Vol) {
    match step
    case Create(no) => no !in v.files && v' == v.(files := v.files[no := NewNode()])
    case Write(no, data) => Wrote(ds, v, v', no, data)
    case FailedWrite => WriteFailed(ds, v, v')
    case Release(no) => ReleaseDone(ds, v, v', no)
  }

  /** What a step means for the bytes. */
  function Effect(a: map<nat, seq<byte>>, step: Step): map<nat, seq<byte>> {
    match step
    case Create(no) => a[no := []]
    case Write(no, data) => if no in a then a[no := a[no] + data] else a
    case FailedWrite => a
    case Release(no) => a - {no}
  }

  // ----- a write -----

  /** The blocks that a growing file takes or writes are nobody else's. */
  lemma OthersApart(ds: nat, v: Vol, v': Vol, no: nat, data: seq<byte>, lba: nat)
    requires Inv(ds, v) && Wrote(ds, v, v', no, data) && lba in Own(v'.files[no])
    ensures lba !in v.rest && forall g :: g != no ==> !OwnedBy(v, g, lba)
  {
    if lba in Own(v.files[no]) {
      assert OwnedBy(v, no, lba);
    } else {
      assert Free(ds, |v.disk|, v.bits, lba);
      forall g | g != no ensures !OwnedBy(v, g, lba) {
        assert g in v.files ==> NodeOk(ds, v.disk, v.bits, v.files[g]);
      }
    }
  }

  /** A file none of whose blocks were written keeps its mapping and its contents. */
  lemma NodeKept(ds: nat, disk: Disk, bits: seq<bool>, disk': Disk, bits': seq<bool>, nd: Node, own: set<nat>)
    requires NodeOk(ds, disk, bits, nd) && DiskKept(disk, disk', own) && Own(nd) !! own && |bits'| == |bits|
    requires forall lba :: lba in Own(nd) && Used(ds, |disk|, bits, lba) ==> Used(ds, |disk|, bits', lba)
    ensures NodeOk(ds, disk', bits', nd) && Content(disk', nd.blocks, nd.size) == Content(disk, nd.blocks, nd.size)
  {
    var table := nd.sectors[DIRECT];
    forall b | b in nd.blocks ensures b !in own {
      assert b in Own(nd);
    }
    ContentKept(disk, disk', nd.blocks, nd.blocks, nd.size, own);
    if table != 0 {
      assert table in Own(nd);
    }
  }

  lemma WriteKeepsOther(ds: nat, v: Vol, v': Vol, no: nat, data: seq<byte>, g: nat)
    requires Inv(ds, v) && Wrote(ds, v, v', no, data) && g in v.files && g != no
    ensures v'.files[g] == v.files[g] && NodeOk(ds, v'.disk, v'.bits, v.files[g])
    ensures Content(v'.disk, v.files[g].blocks, v.files[g].size) == Content(v.disk, v.files[g].blocks, v.files[g].size)
  {
    var own := Own(v'.files[no]);
    forall lba | lba in Own(v.files[g]) ensures lba !in own {
      if lba in own {
        OthersApart(ds, v, v', no, data, lba);
        assert OwnedBy(v, g, lba);
      }
    }
    NodeKept(ds, v.disk, v.bits, v'.disk, v'.bits, v.files[g], own);
  }

  lemma WriteOwners(ds: nat, v: Vol, v': Vol, no: nat, data: seq<byte>)
    requires Inv(ds, v) && Wrote(ds, v, v', no, data)
    ensures OneOwner(v') && RestOk(ds, v')
  {
    forall f, g, lba | OwnedBy(v', f, lba) && OwnedBy(v', g, lba) ensures f == g {
      if f == no || g == no {
        OthersApart(ds, v, v', no, data, lba);
      }
      assert f != no ==> OwnedBy(v, f, lba);
      assert g != no ==> OwnedBy(v, g, lba);
    }
    forall lba | lba in v'.rest ensures Used(ds, |v'.disk|, v'.bits, lba) && forall f :: !OwnedBy(v', f, lba) {
      assert Used(ds, |v.disk|, v.bits, lba);
      forall f ensures !OwnedBy(v', f, lba) {
        if OwnedBy(v', f, lba) {
          assert !OwnedBy(v, f, lba);
          OthersApart(ds, v, v', no, data, lba);
        }
      }
    }
  }

  lemma WriteNoLeak(ds: nat, v: Vol, v': Vol, no: nat, data: seq<byte>)
    requires Inv(ds, v) && Wrote(ds, v, v', no, data)
    ensures NoLeak(ds, v')
  {
    forall lba: nat | Used(ds, |v'.disk|, v'.bits, lba) ensures HasOwner(v', lba) {
      if lba in Own(v'.files[no]) {
        assert OwnedBy(v', no, lba);
      } else {
        assert v.bits[lba - ds];
        assert HasOwner(v, lba);
        if lba !in v.rest {
          var f :| OwnedBy(v, f, lba);
          assert OwnedBy(v', f, lba);
        }
      }
    }
  }

  lemma WriteInv(ds: nat, v: Vol, v': Vol, no: nat, data: seq<byte>)
    requires Inv(ds, v) && Wrote(ds, v, v', no, data)
    ensures Inv(ds, v') && Holding(v') == Effect(Holding(v), Write(no, data))
  {
    WriteOwners(ds, v, v', no, data);
    WriteNoLeak(ds, v, v', no, data);
    forall g | g in v.files && g != no ensures NodeOk(ds, v'.disk, v'.bits, v'.files[g]) && Holding(v')[g] == Holding(v)[g] {
      WriteKeepsOther(ds, v, v', no, data, g);
    }
  }

  // ----- the other steps -----

  lemma CreateInv(ds: nat, v: Vol, no: nat)
    requires Inv(ds, v) && no !in v.files
    ensures var v' := v.(files := v.files[no := NewNode()]); Inv(ds, v') && Holding(v') == Effect(Holding(v), Create(no))
  {
    var v' := v.(files := v.files[no := NewNode()]);
    assert Own(NewNode()) == {};
    forall f, lba ensures OwnedBy(v', f, lba) <==> OwnedBy(v, f, lba) {
    }
    forall lba: nat | Used(ds, |v'.disk|, v'.bits, lba) ensures HasOwner(v', lba) {
      assert HasOwner(v, lba);
      if f :| OwnedBy(v, f, lba) {
        assert OwnedBy(v', f, lba);
      }
    }
  }

  lemma FailedWriteInv(ds: nat, v: Vol, v': Vol)
    requires Inv(ds, v) && WriteFailed(ds, v, v')
    ensures Inv(ds, v') && Holding(v') == Effect(Holding(v), FailedWrite)
  {
    forall f, lba ensures OwnedBy(v', f, lba) <==> OwnedBy(v, f, lba) {
    }
    forall f | f in v'.files ensures NodeOk(ds, v'.disk, v'.bits, v'.files[f]) {
      NodeKept(ds, v.disk, v.bits, v'.disk, v'.bits, v.files[f], {});
    }
    forall lba | lba in v'.rest ensures Used(ds, |v'.disk|, v'.bits, lba) && forall f :: !OwnedBy(v', f, lba) {
      if lba in v.rest {
        assert Used(ds, |v.disk|, v.bits, lba);
      } else {
        NewlyMarked(ds, v, v', lba);
      }
    }
    forall lba: nat | Used(ds, |v'.disk|, v'.bits, lba) ensures HasOwner(v', lba) {
      if v.bits[lba - ds] {
        assert HasOwner(v, lba);
        if f :| OwnedBy(v, f, lba) {
          assert OwnedBy(v', f, lba);
        }
      } else {
        assert ds + (lba - ds) in Marked(ds, v.bits, v'.bits);
      }
    }
  }

  lemma NewlyMarked(ds: nat, v: Vol, v': Vol, lba: nat)
    requires Inv(ds, v) && WriteFailed(ds, v, v') && lba in Marked(ds, v.bits, v'.bits)
    ensures Used(ds, |v'.disk|, v'.bits, lba) && forall f :: !OwnedBy(v', f, lba)
  {
    forall f ensures !OwnedBy(v', f, lba) {
      assert f in v.files ==> NodeOk(ds, v.disk, v.bits, v.files[f]);
    }
  }

  /** What the release of a file clears belonged to it alone. */
  lemma GoneApart(ds: nat, v: Vol, v': Vol, no: nat, lba: nat)
    requires Inv(ds, v) && ReleaseDone(ds, v, v', no)
    requires lba in Owned(At(v.files[no].sectors, DIRECT), Released(v.files[no].blocks))
    ensures lba in Own(v.files[no]) && lba !in v.rest && Used(ds, |v.disk|, v.bits, lba) && forall f :: f != no ==> !OwnedBy(v, f, lba)
  {
    assert NodeOk(ds, v.disk, v.bits, v.files[no]);
    assert OwnedBy(v, no, lba);
  }

  lemma ReleaseFilesOk(ds: nat, v: Vol, v': Vol, no: nat)
    requires Inv(ds, v) && ReleaseDone(ds, v, v', no)
    ensures FilesOk(ds, v')
  {
    var nd := v.files[no];
    var gone := Owned(At(nd.sectors, DIRECT), Released(nd.blocks));
    forall f | f in v'.files ensures NodeOk(ds, v'.disk, v'.bits, v'.files[f]) {
      forall lba | lba in Own(v.files[f]) && Used(ds, |v.disk|, v.bits, lba) ensures Used(ds, |v.disk|, v'.bits, lba) {
        assert OwnedBy(v, f, lba);
        if lba in gone {
          GoneApart(ds, v, v', no, lba);
        }
      }
      NodeKept(ds, v.disk, v.bits, v'.disk, v'.bits, v.files[f], {});
    }
  }

  lemma ReleaseGeometry(ds: nat, v: Vol, v': Vol, no: nat)
    requires Inv(ds, v) && ReleaseDone(ds, v, v', no)
    ensures Geometry(ds, |v'.disk|, v'.bits)
  {
    var gone := Owned(At(v.files[no].sectors, DIRECT), Released(v.files[no].blocks));
    if ds in gone {
      GoneApart(ds, v, v', no, ds);
    }
    forall i | 0 <= i < |v'.bits| && !v'.bits[i] ensures ds + i < |v.disk| {
      if ds + i in gone {
        GoneApart(ds, v, v', no, ds + i);
      }
    }
  }

  lemma ReleaseOwners(ds: nat, v: Vol, v': Vol, no: nat)
    requires Inv(ds, v) && ReleaseDone(ds, v, v', no)
    ensures OneOwner(v') && RestOk(ds, v') && NoLeak(ds, v')
  {
    var nd := v.files[no];
    var gone := Owned(At(nd.sectors, DIRECT), Released(nd.blocks));
    assert NodeOk(ds, v.disk, v.bits, nd);
    forall f, lba ensures OwnedBy(v', f, lba) <==> f != no && OwnedBy(v, f, lba) {
    }
    forall lba | lba in v'.rest ensures Used(ds, |v'.disk|, v'.bits, lba) && forall f :: !OwnedBy(v', f, lba) {
      if lba in v.rest {
        if lba in gone {
          GoneApart(ds, v, v', no, lba);
        }
        assert Used(ds, |v.disk|, v.bits, lba);
      } else {
        assert OwnedBy(v, no, lba);
      }
    }
    forall lba: nat | Used(ds, |v'.disk|, v'.bits, lba) ensures HasOwner(v', lba) {
      assert lba == ds + (lba - ds);
      assert Used(ds, |v.disk|, v.bits, lba) && lba !in gone;
      assert HasOwner(v, lba);
      if lba !in v'.rest {
        var f :| OwnedBy(v, f, lba);
        assert OwnedBy(v', f, lba);
      }
    }
  }

  lemma ReleaseInv(ds: nat, v: Vol, v': Vol, no: nat)
    requires Inv(ds, v) && ReleaseDone(ds, v, v', no)
    ensures Inv(ds, v') && Holding(v') == Effect(Holding(v), Release(no))
  {
    ReleaseFilesOk(ds, v, v', no);
    ReleaseGeometry(ds, v, v', no);
    ReleaseOwners(ds, v, v', no);
  }

  /** The release of a file of at most 139 blocks leaves nothing behind; that of a file of 140
      blocks leaves one. */
  lemma ReleaseConserves(ds: nat, v: Vol, v': Vol, no: nat)
    requires Inv(ds, v) && ReleaseDone(ds, v, v', no)
    ensures v'.rest == v.rest <==> |v.files[no].blocks| <= READ_LIMIT
    ensures |v.files[no].blocks| > READ_LIMIT ==> v'.rest == v.rest + {v.files[no].blocks[READ_LIMIT]}
  {
    var nd := v.files[no];
    assert NodeOk(ds, v.disk, v.bits, nd);
    ReleasesAllIff(ds, |v.disk|, v.bits, nd.sectors[DIRECT], nd.blocks);
    if |nd.blocks| > READ_LIMIT {
      assert OwnedBy(v, no, nd.blocks[READ_LIMIT]);
    }
  }

  // ----- runs -----

  lemma StepInv(ds: nat, v: Vol, step: Step, v': Vol)
    requires Inv(ds, v) && Next(ds, v, step, v')
    ensures Inv(ds, v') && Holding(v') == Effect(Holding(v), step)
  {
    match step
    case Create(no) => CreateInv(ds, v, no);
    case Write(no, data) => WriteInv(ds, v, v', no, data);
    case FailedWrite => FailedWriteInv(ds, v, v');
    case Release(no) => ReleaseInv(ds, v, v', no);
  }

  ghost predicate IsRun(ds: nat, vs: seq<Vol>, steps: seq<Step>) {
    |vs| == |steps| + 1 && forall i :: 0 <= i < |steps| ==> Next(ds, vs[i], steps[i], vs[i + 1])
  }

  /** The bytes after the first `k` steps */
  function Effects(a: map<nat, seq<byte>>, steps: seq<Step>, k: nat): map<nat, seq<byte>>
    requires k <= |steps|
  {
    if k == 0 then a else Effect(Effects(a, steps, k - 1), steps[k - 1])
  }

  /** Over every run each allocated block keeps exactly one owner, and the files hold what
      appending, creating and deleting byte sequences gives. */
  lemma {:induction false} RunsRefine(ds: nat, vs: seq<Vol>, steps: seq<Step>, k: nat)
    requires IsRun(ds, vs, steps) && Inv(ds, vs[0]) && k <= |steps|
    ensures Inv(ds, vs[k]) && Holding(vs[k]) == Effects(Holding(vs[0]), steps, k)
  {
    if k > 0 {
      RunsRefine(ds, vs, steps, k - 1);
      StepInv(ds, vs[k - 1], steps[k - 1], vs[k]);
    }
  }

  // ----- blocks that get lost -----

  /** A failed write that took a block, or the release of a file of 140 blocks */
  predicate Loses(v: Vol, step: Step, v': Vol) {
    match step
    case FailedWrite => v'.bits != v.bits
    case Release(no) => no in v.files && |v.files[no].blocks| > READ_LIMIT
    case _ => false
  }

  lemma MarkedOne(ds: nat, bits: seq<bool>, lba: nat)
    requires ds <= lba < ds + |bits| && !bits[lba - ds]
    ensures Marked(ds, bits, bits[lba - ds := true]) == {lba} && bits[lba - ds := true] != bits
  {
    assert bits[lba - ds := true][lba - ds];
    assert ds + (lba - ds) in Marked(ds, bits, bits[lba - ds := true]);
  }

  lemma FailedRest(ds: nat, v: Vol, v': Vol)
    requires RestOk(ds, v) && WriteFailed(ds, v, v')
    ensures v.rest <= v'.rest && |v'.rest| == |v.rest| + if v'.bits != v.bits then 1 else 0
  {
    if v'.bits == v.bits {
      assert Marked(ds, v.bits, v'.bits) == {};
      assert v'.rest == v.rest;
    } else {
      var lba: nat :| Free(ds, |v.disk|, v.bits, lba) && v'.bits == v.bits[lba - ds := true];
      MarkedOne(ds, v.bits, lba);
      assert lba !in v.rest;
    }
  }

  lemma ReleaseRest(ds: nat, v: Vol, v': Vol, no: nat)
    requires Inv(ds, v) && ReleaseDone(ds, v, v', no)
    ensures v.rest <= v'.rest && |v'.rest| == |v.rest| + if |v.files[no].blocks| > READ_LIMIT then 1 else 0
  {
    ReleaseConserves(ds, v, v', no);
    if |v.files[no].blocks| > READ_LIMIT {
      var last := v.files[no].blocks[READ_LIMIT];
      assert OwnedBy(v, no, last);
      assert last !in v.rest;
    }
  }

  /** A step adds nothing to the blocks without a file, or loses exactly one more. */
  lemma StepRest(ds: nat, v: Vol, step: Step, v': Vol)
    requires Inv(ds, v) && Next(ds, v, step, v')
    ensures v.rest <= v'.rest && |v'.rest| == |v.rest| + if Loses(v, step, v') then 1 else 0
  {
    match step
    case Create(no) =>
    case Write(no, data) =>
    case FailedWrite => FailedRest(ds, v, v');
    case Release(no) => ReleaseRest(ds, v, v', no);
  }

  predicate LosesAt(vs: seq<Vol>, steps: seq<Step>, i: nat) {
    i < |steps| && i + 1 < |vs| && Loses(vs[i], steps[i], vs[i + 1])
  }

  /** How many of the first `k` steps of a run lose a block */
  function Losses(vs: seq<Vol>, steps: seq<Step>, k: nat): nat {
    if k == 0 then 0 else Losses(vs, steps, k - 1) + if LosesAt(vs, steps, k - 1) then 1 else 0
  }

  lemma RunInv(ds: nat, vs: seq<Vol>, steps: seq<Step>, k: nat)
    requires IsRun(ds, vs, steps) && Inv(ds, vs[0]) && k <= |steps|
    ensures Inv(ds, vs[k])
  {
    RunsRefine(ds, vs, steps, k);
  }

  predicate RestAt(vs: seq<Vol>, steps: seq<Step>, i: nat) {
    i + 1 < |vs| && vs[i].rest <= vs[i + 1].rest && |vs[i + 1].rest| == |vs[i].rest| + if LosesAt(vs, steps, i) then 1 else 0
  }

  lemma RestStep(ds: nat, vs: seq<Vol>, steps: seq<Step>, i: nat)
    requires IsRun(ds, vs, steps) && Inv(ds, vs[0]) && i < |steps|
    ensures RestAt(vs, steps, i)
  {
    RunInv(ds, vs, steps, i);
    StepRest(ds, vs[i], steps[i], vs[i + 1]);
  }

  lemma {:induction false} RestGrows(vs: seq<Vol>, steps: seq<Step>, k: nat)
    requires |vs| == |steps| + 1 && k <= |steps| && forall i: nat :: i < |steps| ==> RestAt(vs, steps, i)
    ensures vs[0].rest <= vs[k].rest && |vs[k].rest| == |vs[0].rest| + Losses(vs, steps, k)
  {
    if k > 0 {
      RestGrows(vs, steps, k - 1);
      assert RestAt(vs, steps, k - 1);
    }
  }

  lemma {:induction false} NoLossesIff(vs: seq<Vol>, steps: seq<Step>, k: nat)
    ensures Losses(vs, steps, k) == 0 <==> forall i: nat :: i < k ==> !LosesAt(vs, steps, i)
  {
    if k > 0 {
      NoLossesIff(vs, steps, k - 1);
    }
  }

  /** Over every run the allocated blocks without a file grow by exactly one block for each
      step that loses one; they stay the same if and only if there is no such step. */
  lemma RunLosses(ds: nat, vs: seq<Vol>, steps: seq<Step>)
    requires IsRun(ds, vs, steps) && Inv(ds, vs[0])
    ensures vs[0].rest <= vs[|steps|].rest && |vs[|steps|].rest| == |vs[0].rest| + Losses(vs, steps, |steps|)
    ensures vs[|steps|].rest == vs[0].rest <==> forall i: nat :: i < |steps| ==> !LosesAt(vs, steps, i)
  {
    forall i: nat | i < |steps| ensures RestAt(vs, steps, i) {
      RestStep(ds, vs, steps, i);
    }
    RestGrows(vs, steps, |steps|);
    NoLossesIff(vs, steps, |steps|);
    if vs[|steps|].rest != vs[0].rest {
      GrownSet(vs[0].rest, vs[|steps|].rest);
    }
  }

  lemma GrownSet(a: set<nat>, b: set<nat>)
    requires a <= b && a != b
    ensures |a| < |b|
  {
    assert b == a + (b - a);
    assert |b| == |a| + |b - a|;
  }

  // ----- the code takes these steps -----

  /** The partition and the inode of file `no` are in the state `v`. */
  ghost predicate Shows(p: Partition, inode: Inode, v: Vol, no: nat)
    reads p, inode
  {
    v.disk == p.disk && v.bits == p.bits && no in v.files && v.files[no].size == inode.size && v.files[no].sectors == inode.sectors
  }

  /** file_write is a step of the model, whether it comes back with its count or with -1. */
  method WriteFile(p: Partition, f: File, data: seq<byte>, no: nat, ghost v: Vol) returns (r: Outcome<int>, ghost v': Vol)
    requires Inv(p.ds, v) && Shows(p, f.inode, v, no) && |data| < U32 && !RunsOff(f.inode.size, |data|)
    modifies p, f, f.inode
    ensures r.Done? ==> Next(p.ds, v, if r.value == -1 then FailedWrite else Write(no, data), v')
    ensures r.Done? ==> Shows(p, f.inode, v', no) && Inv(p.ds, v')
  {
    ghost var nd := v.files[no];
    assert NodeOk(p.ds, v.disk, v.bits, nd);
    ghost var bs;
    r, bs := p.FileWrite(f, data, nd.blocks);
    v' := v;
    if r.Done? {
      if r.value == -1 {
        v' := v.(bits := p.bits, rest := v.rest + Marked(p.ds, v.bits, p.bits));
        FailedWriteInv(p.ds, v, v');
      } else {
        v' := v.(disk := p.disk, bits := p.bits, files := v.files[no := Node(f.inode.size, f.inode.sectors, bs)]);
        WriteInv(p.ds, v, v', no, data);
      }
    }
  }

  /** So is inode_release. */
  method ReleaseFile(p: Partition, inode: Inode, no: nat, ghost v: Vol) returns (ghost v': Vol)
    requires Inv(p.ds, v) && Shows(p, inode, v, no)
    modifies p
    ensures Next(p.ds, v, Release(no), v') && Inv(p.ds, v') && v'.disk == p.disk && v'.bits == p.bits
  {
    ghost var nd := v.files[no];
    assert NodeOk(p.ds, v.disk, v.bits, nd);
    p.InodeRelease(inode, nd.blocks);
    ghost var gone := Owned(At(nd.sectors, DIRECT), Released(nd.blocks));
    v' := v.(bits := p.bits, files := v.files - {no}, rest := v.rest + (Own(nd) - gone));
    ReleaseInv(p.ds, v, v', no);
  }
}
