/** Every run of insertions into and deletions from a directory. */
module DirectoryRuns {
  import opened Machine
  import opened Directory

  datatype Image = Image(disk: map<nat, Block>, sectors: seq<nat>, size: nat)

  datatype Step = Add(e: Entry) | Remove(ino: nat)

  ghost predicate Ok(d: Image) {
    DirOk(d.disk, d.sectors, d.size) && NoAlias(Names(d))
  }

  /** The map that the directory stands for */
  function Names(d: Image): map<string, Entry>
    requires |d.sectors| == DIRECT
  {
    Table(Slots(d.disk, d.sectors))
  }

  /** Two names never stand for one inode, apart from "." and "..". */
  ghost predicate NoAlias(t: map<string, Entry>) {
    forall m, n :: m in t && n in t && !IsDots(m) && !IsDots(n) && t[m].ino == t[n].ino ==> m == n
  }

  /** Blocks are never given back. */
  ghost predicate SectorsKept(sectors: seq<nat>, sectors': seq<nat>) {
    |sectors| == |sectors'| == DIRECT && forall i :: 0 <= i < DIRECT && sectors[i] != 0 ==> sectors'[i] == sectors[i]
  }

  /** A new name for a new inode, as the callers of sync_dir_entry check it */
  ghost predicate NewEntry(t: map<string, Entry>, e: Entry) {
    Live(e) && e.name != "" && e.name !in t && !IsDots(e.name) && forall n :: n in t && !IsDots(n) ==> t[n].ino != e.ino
  }

  /** What Dir.Insert and Dir.Delete promise */
  ghost predicate Next(d: Image, step: Step, d': Image)
    requires |d.sectors| == DIRECT
  {
    && BlocksOk(d'.disk, d'.sectors) && SectorsKept(d.sectors, d'.sectors)
    && match step
       case Add(e) =>
         NewEntry(Names(d), e) && d'.size == d.size + ENTRY_SIZE && Filled(Slots(d.disk, d.sectors), Slots(d'.disk, d'.sectors), d.sectors, d'.sectors, e)
       case Remove(ino) =>
         d'.sectors == d.sectors && d'.size == d.size - ENTRY_SIZE && Removed(Slots(d.disk, d.sectors), Slots(d'.disk, d'.sectors), ino)
  }

  /** What a step means for the map */
  function Effect(t: map<string, Entry>, step: Step): map<string, Entry> {
    match step
    case Add(e) => t[e.name := e]
    case Remove(ino) => map n | n in t && (IsDots(n) || t[n].ino != ino) :: t[n]
  }

  /** The map after the first `k` steps */
  function Effects(t: map<string, Entry>, steps: seq<Step>, k: nat): map<string, Entry>
    requires k <= |steps|
  {
    if k == 0 then t else Effect(Effects(t, steps, k - 1), steps[k - 1])
  }

  lemma AddStep(d: Image, e: Entry, d': Image)
    requires Ok(d) && Next(d, Add(e), d')
    ensures Ok(d') && Names(d') == Effect(Names(d), Add(e))
  {
    var s := Slots(d.disk, d.sectors);
    var q: nat :| FirstHole(s, q) && Slots(d'.disk, d'.sectors) == s[q := e] && SameBut(d.sectors, d'.sectors, q / PER_BLOCK);
    InsertDone(s, q, e);
  }

  lemma RemoveStep(d: Image, ino: nat, d': Image)
    requires Ok(d) && Next(d, Remove(ino), d')
    ensures Ok(d') && Names(d') == Effect(Names(d), Remove(ino))
  {
    var s := Slots(d.disk, d.sectors);
    var q: nat :| FirstVictim(s, q, ino) && Slots(d'.disk, d'.sectors) == s[q := EMPTY] && Table(s[q := EMPTY]) == Table(s) - {s[q].name};
    DeleteDone(s, q, ino);
    TableHas(s, q);
    assert forall n :: n in Names(d') <==> n in Effect(Names(d), Remove(ino));
  }

  lemma StepRefines(d: Image, step: Step, d': Image)
    requires Ok(d) && Next(d, step, d')
    ensures Ok(d') && Names(d') == Effect(Names(d), step)
  {
    match step
    case Add(e) => AddStep(d, e, d');
    case Remove(ino) => RemoveStep(d, ino, d');
  }

  ghost predicate IsRun(ds: seq<Image>, steps: seq<Step>) {
    |ds| == |steps| + 1 && (forall i :: 0 <= i < |ds| ==> |ds[i].sectors| == DIRECT) &&
    forall i :: 0 <= i < |steps| ==> Next(ds[i], steps[i], ds[i + 1])
  }

  /** Over every run the directory stays well formed, with its size the number of live entries
      times 24, and stands for the map that the same insertions and deletions give. */
  lemma {:induction false} RunsRefine(ds: seq<Image>, steps: seq<Step>, k: nat)
    requires IsRun(ds, steps) && Ok(ds[0]) && k <= |steps|
    ensures Ok(ds[k]) && Names(ds[k]) == Effects(Names(ds[0]), steps, k)
  {
    if k > 0 {
      RunsRefine(ds, steps, k - 1);
      StepRefines(ds[k - 1], steps[k - 1], ds[k]);
    }
  }

  lemma {:induction false} RunKeepsBlocks(ds: seq<Image>, steps: seq<Step>, j: nat, k: nat)
    requires IsRun(ds, steps) && j <= k <= |steps|
    ensures SectorsKept(ds[j].sectors, ds[k].sectors)
    decreases k
  {
    if j < k {
      RunKeepsBlocks(ds, steps, j, k - 1);
      assert Next(ds[k - 1], steps[k - 1], ds[k - 1 + 1]);
    }
  }

  lemma ManyNeedBlocks(d: Image)
    requires Ok(d) && |Names(d)| > PER_BLOCK
    ensures exists i :: 1 <= i < DIRECT && d.sectors[i] != 0
  {
    var s := Slots(d.disk, d.sectors);
    TableSize(s);
    if forall i :: 1 <= i < DIRECT ==> d.sectors[i] == 0 {
      var rest := s[PER_BLOCK..];
      forall p | 0 <= p < |rest| ensures !Live(rest[p]) {
        assert rest[p] == s[PER_BLOCK + p];
        assert 1 <= (PER_BLOCK + p) / PER_BLOCK < DIRECT;
      }
      LivesNone(rest);
      assert s == s[..PER_BLOCK] + rest;
      LivesConcat(s[..PER_BLOCK], rest);
    }
  }

  /** There is no block but the first. */
  predicate OneBlock(d: Image) {
    forall i :: 1 <= i < |d.sectors| ==> d.sectors[i] == 0
  }

  /** A second block is opened only when the first is full. */
  lemma StepOneBlock(d: Image, step: Step, d': Image)
    requires Ok(d) && Next(d, step, d') && OneBlock(d) && |Names(d')| <= PER_BLOCK
    ensures OneBlock(d')
  {
    StepRefines(d, step, d');
    if step.Add? {
      var s, s' := Slots(d.disk, d.sectors), Slots(d'.disk, d'.sectors);
      var q: nat :| FirstHole(s, q) && s' == s[q := step.e] && SameBut(d.sectors, d'.sectors, q / PER_BLOCK);
      if q >= PER_BLOCK {
        TableSize(s');
        ManyLive(s', q);
      }
    }
  }

  lemma ManyLive(s: seq<Entry>, q: nat)
    requires PER_BLOCK <= q < |s| && forall p :: 0 <= p <= q ==> Live(s[p])
    ensures |Lives(s)| > PER_BLOCK
  {
    var first, rest := s[..q + 1], s[q + 1..];
    assert s == first + rest;
    LivesConcat(first, rest);
    AllLive(first);
  }

  lemma RunStepOneBlock(ds: seq<Image>, steps: seq<Step>, k: nat)
    requires IsRun(ds, steps) && Ok(ds[0]) && k < |steps| && OneBlock(ds[k]) && |Names(ds[k + 1])| <= PER_BLOCK
    ensures OneBlock(ds[k + 1])
  {
    RunsRefine(ds, steps, k);
    StepOneBlock(ds[k], steps[k], ds[k + 1]);
  }

  lemma {:induction false} StaysOneBlock(ds: seq<Image>, steps: seq<Step>, k: nat)
    requires IsRun(ds, steps) && Ok(ds[0]) && OneBlock(ds[0]) && k <= |steps| && forall i :: 0 <= i <= k ==> |Names(ds[i])| <= PER_BLOCK
    ensures OneBlock(ds[k])
  {
    if k > 0 {
      StaysOneBlock(ds, steps, k - 1);
      RunStepOneBlock(ds, steps, k - 1);
    }
  }

  /** A directory that had more entries than one block holds, at any time, cannot be removed any
      more, even when it is empty again: dir_remove halts. */
  lemma NeverRemovable(ds: seq<Image>, steps: seq<Step>, j: nat)
    requires IsRun(ds, steps) && Ok(ds[0]) && j <= |steps| && |Names(ds[j])| > PER_BLOCK
    ensures !OneBlock(ds[|steps|])
  {
    RunsRefine(ds, steps, j);
    ManyNeedBlocks(ds[j]);
    RunKeepsBlocks(ds, steps, j, |steps|);
  }

  /** A directory that starts in one block, as sys_mkdir makes it, can be removed if and only if
      it is empty and never had more entries than one block holds. */
  lemma RemovableIff(ds: seq<Image>, steps: seq<Step>)
    requires IsRun(ds, steps) && Ok(ds[0]) && OneBlock(ds[0])
    ensures Removable(ds[|steps|].sectors, Slots(ds[|steps|].disk, ds[|steps|].sectors)) <==>
      Names(ds[|steps|]).Keys == {".", ".."} && forall k :: 0 <= k <= |steps| ==> |Names(ds[k])| <= PER_BLOCK
  {
    if forall k :: 0 <= k <= |steps| ==> |Names(ds[k])| <= PER_BLOCK {
      StaysOneBlock(ds, steps, |steps|);
    } else {
      var j: nat :| j <= |steps| && |Names(ds[j])| > PER_BLOCK;
      NeverRemovable(ds, steps, j);
    }
  }

  // ----- the code takes these steps -----

  ghost function Shown(d: Dir): Image
    reads d
  {
    Image(d.disk, d.sectors, d.size)
  }

  /** sync_dir_entry of a new entry is a step of the model, as long as a direct slot is free. */
  method InsertEntry(d: Dir, e: Entry, lba: nat) returns (ok: bool)
    requires Ok(Shown(d)) && NewEntry(Names(Shown(d)), e) && lba != 0 && lba !in d.sectors
    modifies d
    ensures |d.sectors| == DIRECT && Ok(Shown(d))
    ensures if ok then Next(old(Shown(d)), Add(e), Shown(d)) else Shown(d) == old(Shown(d)) && |Names(Shown(d))| == SLOTS
  {
    ghost var before := Shown(d);
    ok := d.Insert(e, lba);
    if ok {
      AddStep(before, e, Shown(d));
    } else {
      AllLive(d.View());
      TableSize(d.View());
    }
  }

  /** So is delete_dir_entry, and it fails only if no name but "." and ".." has the inode. */
  method DeleteEntry(d: Dir, ino: nat) returns (found: bool)
    requires Ok(Shown(d))
    modifies d
    ensures |d.sectors| == DIRECT && Ok(Shown(d))
    ensures found ==> Next(old(Shown(d)), Remove(ino), Shown(d))
    ensures !found ==> Shown(d) == old(Shown(d)) && Effect(Names(Shown(d)), Remove(ino)) == Names(Shown(d))
  {
    ghost var before := Shown(d);
    found := d.Delete(ino);
    if found {
      RemoveStep(before, ino, Shown(d));
    } else {
      NoVictim(d.View(), ino);
    }
  }

  lemma {:induction false} AllLive(s: seq<Entry>)
    requires forall p :: 0 <= p < |s| ==> Live(s[p])
    ensures |Lives(s)| == |s|
  {
    if s != [] {
      AllLive(s[..|s| - 1]);
    }
  }

  lemma NoVictim(s: seq<Entry>, ino: nat)
    requires forall p: nat :: !Victim(s, p, ino)
    ensures Effect(Table(s), Remove(ino)) == Table(s)
  {
    forall n | n in Table(s) ensures IsDots(n) || Table(s)[n].ino != ino {
      var p := TableFrom(s, n);
      assert !Victim(s, p, ino);
    }
  }
}
