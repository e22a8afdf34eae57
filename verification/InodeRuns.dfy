/** Every run of opens and closes of inodes: src/fs/inode.c. */
module InodeRuns {
  import opened Machine
  import opened Sectors
  import opened InodeTable

  datatype State = State(disk: Disk, open: seq<Cached>, handles: multiset<nat>)

  datatype Step = Open(no: nat) | Close(no: nat)

  /** What Inodes.InodeOpen and Inodes.InodeClose promise. Between two of them the disk may be
      written. A slot on the disk carries its own number. */
  ghost predicate Next(table: nat, s: State, step: Step, s': State) {
    match step
    case Open(no) =>
      && s'.handles == s.handles + multiset{no}
      && if IsOpen(s.open, no) then exists x: Inode :: x.no == no && Reopened(s.open, s'.open, x)
         else no < MAX_INODES && TableOk(s.disk, table) && Stored(s.disk, table, no).no == no && s'.open == [Cached(Stored(s.disk, table, no), 1)] + s.open
    case Close(no) => no in s.handles && s'.handles == s.handles - multiset{no} && Reclosed(s.open, s'.open, no)
  }

  /** The cache has the copy `x`. */
  ghost predicate Has(open: seq<Cached>, x: Inode) {
    exists i :: 0 <= i < |open| && open[i].inode == x
  }

  lemma ReopenKeeps(open: seq<Cached>, handles: multiset<nat>, open': seq<Cached>, i: nat, y: Inode, x: Inode)
    requires CacheOk(open, handles) && ReopenedAt(open, open', i, y)
    ensures CacheOk(open', handles + multiset{y.no}) && (Has(open, x) ==> Has(open', x))
  {
    OpenedAgain(open, handles, i);
    assert open' == open[i := open[i].(openCnt := open[i].openCnt + 1)];
    if k :| 0 <= k < |open| && open[k].inode == x {
      assert open'[k].inode == x;
    }
  }

  lemma FirstOpenKeeps(open: seq<Cached>, handles: multiset<nat>, y: Inode, x: Inode)
    requires CacheOk(open, handles) && !IsOpen(open, y.no)
    ensures CacheOk([Cached(y, 1)] + open, handles + multiset{y.no}) && (Has(open, x) ==> Has([Cached(y, 1)] + open, x))
  {
    OpenedFirst(open, handles, y);
    if k :| 0 <= k < |open| && open[k].inode == x {
      assert ([Cached(y, 1)] + open)[k + 1].inode == x;
    }
  }

  lemma OpenKeeps(table: nat, s: State, no: nat, s': State, x: Inode)
    requires CacheOk(s.open, s.handles) && Next(table, s, Open(no), s')
    ensures CacheOk(s'.open, s'.handles)
    ensures Has(s.open, x) ==> Has(s'.open, x)
  {
    if IsOpen(s.open, no) {
      var y: Inode :| y.no == no && Reopened(s.open, s'.open, y);
      var i :| ReopenedAt(s.open, s'.open, i, y);
      ReopenKeeps(s.open, s.handles, s'.open, i, y, x);
    } else {
      FirstOpenKeeps(s.open, s.handles, Stored(s.disk, table, no), x);
    }
  }

  lemma ReclosedOk(open: seq<Cached>, handles: multiset<nat>, open': seq<Cached>, i: nat, no: nat)
    requires CacheOk(open, handles) && ReclosedAt(open, open', i, no)
    ensures CacheOk(open', handles - multiset{no})
  {
    if open[i].openCnt == 1 {
      ClosedLast(open, handles, i);
    } else {
      ClosedOnce(open, handles, i);
      assert open' == open[i := open[i].(openCnt := open[i].openCnt - 1)];
    }
  }

  lemma ReclosedHas(open: seq<Cached>, handles: multiset<nat>, open': seq<Cached>, i: nat, no: nat, x: Inode)
    requires CacheOk(open, handles) && ReclosedAt(open, open', i, no) && Has(open, x) && x.no in handles - multiset{no}
    ensures Has(open', x)
  {
    var k :| 0 <= k < |open| && open[k].inode == x;
    assert k == i ==> open[i].openCnt > 1;
    var k' := if open[i].openCnt <= 1 && k > i then k - 1 else k;
    assert open'[k'].inode == x;
  }

  lemma CloseKeeps(s: State, no: nat, s': State, x: Inode)
    requires CacheOk(s.open, s.handles) && s'.handles == s.handles - multiset{no} && Reclosed(s.open, s'.open, no)
    ensures CacheOk(s'.open, s'.handles)
    ensures Has(s.open, x) && x.no in s'.handles ==> Has(s'.open, x)
  {
    var i :| ReclosedAt(s.open, s'.open, i, no);
    ReclosedOk(s.open, s.handles, s'.open, i, no);
    if Has(s.open, x) && x.no in s'.handles {
      ReclosedHas(s.open, s.handles, s'.open, i, no, x);
    }
  }

  ghost predicate IsRun(table: nat, ss: seq<State>, steps: seq<Step>) {
    |ss| == |steps| + 1 && forall i :: 0 <= i < |steps| ==> RunStep(table, ss[i], steps[i], ss[i + 1])
  }

  /** The disk may have changed before the step. */
  ghost predicate RunStep(table: nat, s: State, step: Step, s': State) {
    exists disk: Disk :: Next(table, s.(disk := disk), step, s')
  }

  lemma StepKeeps(table: nat, s: State, step: Step, s': State, x: Inode)
    requires CacheOk(s.open, s.handles) && RunStep(table, s, step, s')
    ensures CacheOk(s'.open, s'.handles)
    ensures Has(s.open, x) && x.no in s'.handles ==> Has(s'.open, x)
  {
    var disk: Disk :| Next(table, s.(disk := disk), step, s');
    match step
    case Open(no) => OpenKeeps(table, s.(disk := disk), no, s', x);
    case Close(no) => CloseKeeps(s.(disk := disk), no, s', x);
  }

  /** As long as an inode is open somewhere, its copy stays the same, whatever is opened, closed
      and written to the disk meanwhile. */
  lemma {:induction false} CopyStays(table: nat, ss: seq<State>, steps: seq<Step>, j: nat, x: Inode)
    requires IsRun(table, ss, steps) && CacheOk(ss[0].open, ss[0].handles) && Has(ss[0].open, x) && j <= |steps|
    requires forall i :: 0 <= i <= j ==> x.no in ss[i].handles
    ensures CacheOk(ss[j].open, ss[j].handles) && Has(ss[j].open, x)
  {
    if j > 0 {
      CopyStays(table, ss, steps, j - 1, x);
      assert RunStep(table, ss[j - 1], steps[j - 1], ss[j - 1 + 1]);
      StepKeeps(table, ss[j - 1], steps[j - 1], ss[j], x);
    }
  }

  /** The only copy for its number */
  lemma OneCopy(open: seq<Cached>, handles: multiset<nat>, x: Inode, y: Inode)
    requires CacheOk(open, handles) && Has(open, x) && Has(open, y) && x.no == y.no
    ensures x == y
  {
    var i :| 0 <= i < |open| && open[i].inode == x;
    var k :| 0 <= k < |open| && open[k].inode == y;
    assert i == k;
  }

  // ----- the code takes these steps -----

  ghost function Shown(p: Inodes): State
    reads p
  {
    State(p.disk, p.open, p.handles)
  }

  /** inode_open: between the first open and the last close it gives the same fields every time. */
  method OpenAgain(p: Inodes, no: nat, ghost x: Inode) returns (r: Outcome<Inode>)
    requires p.Valid() && (no < MAX_INODES ==> Stored(p.disk, p.table, no).no == no)
    modifies p
    ensures r.Done? ==> p.Valid() && Next(p.table, old(Shown(p)), Open(no), Shown(p)) && r.value.no == no && Has(p.open, r.value)
    ensures Has(old(p.open), x) && x.no == no ==> r == Done(x)
  {
    r := p.InodeOpen(no);
    if r.Done? {
      assert IsOpen(old(p.open), no) ==> Reopened(old(p.open), p.open, r.value);
      HasAfterOpen(old(p.open), p.open, r.value);
    }
    if Has(old(p.open), x) && x.no == no {
      OpenOf(old(p.open), x);
      OneCopy(old(p.open), old(p.handles), x, r.value);
    }
  }

  lemma OpenOf(open: seq<Cached>, x: Inode)
    requires Has(open, x)
    ensures IsOpen(open, x.no)
  {
    var i :| 0 <= i < |open| && open[i].inode == x;
    assert open[i].inode.no == x.no;
  }

  lemma HasAfterOpen(open: seq<Cached>, open': seq<Cached>, x: Inode)
    requires Reopened(open, open', x) || open' == [Cached(x, 1)] + open
    ensures Has(open', x) && (Reopened(open, open', x) ==> Has(open, x))
  {
    if Reopened(open, open', x) {
      var i :| ReopenedAt(open, open', i, x);
      assert open'[i].inode == x;
    } else {
      assert open'[0].inode == x;
    }
  }

  method CloseOnce(p: Inodes, no: nat)
    requires p.Valid() && no in p.handles
    modifies p
    ensures p.Valid() && Next(p.table, old(Shown(p)), Close(no), Shown(p))
  {
    p.InodeClose(no);
  }
}
