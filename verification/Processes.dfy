/** The process table under fork, wait and exit: src/user/wait_exit.c, the pid pool and
    pid_to_thread of src/kernel/thread.c, and what sys_fork does to the table. */
module Processes {
  import opened Machine
  import opened Bitmap

  /** A PCB, by its address. */
  type Tid = nat

  /** The part of a thread's status that wait and exit look at: TASK_WAITING, TASK_HANGING,
      or anything else. */
  datatype Life = Alive | InWait | Zombie

  /** `user` is pgdir != NULL. `leaving` holds inside sys_exit after the children were given
      away. `born` tells apart the processes that use one PCB page, or one pid, in turn. */
  datatype Proc = Proc(pid: int, ppid: int, exitStatus: int, life: Life, user: bool, leaving: bool, born: nat)

  /** One status handed out by sys_wait: whose, what, and to which pid. */
  datatype Collect = Collect(born: nat, status: int, to: int)

  /** `exits` and `collected` are the history of calls of sys_exit and of successful sys_wait. */
  datatype Table = Table(procs: map<Tid, Proc>, all: seq<Tid>, pidBits: seq<bool>, init: Tid, nextBorn: nat,
                         exits: map<nat, int>, collected: seq<Collect>)

  const MAX_PIDS := 1024
  const INIT_PID := 1

  /** The value an int8_t takes when an int32_t is assigned to it. */
  function Int8(x: int): (r: int)
    ensures -128 <= r <= 127 && (r - x) % 256 == 0
    ensures r == x <==> -128 <= x <= 127
  {
    var m := x % 256;
    if m < 128 then m else m - 256
  }

  // ----- the invariant -----

  /** A process that may still have children: it has not called sys_exit. */
  predicate CanParent(p: Proc) {
    p.user && !p.leaving && p.life != Zombie
  }

  /** `u` is the process a parent_pid names. */
  predicate Names(procs: map<Tid, Proc>, ppid: int, u: Tid) {
    u in procs && procs[u].pid == ppid && CanParent(procs[u])
  }

  ghost predicate HasParent(procs: map<Tid, Proc>, ppid: int) {
    exists u :: Names(procs, ppid, u)
  }

  predicate ProcOk(pidBits: seq<bool>, nextBorn: nat, exits: map<nat, int>, p: Proc) {
    1 <= p.pid <= |pidBits| && pidBits[p.pid - 1] && p.born < nextBorn &&
    (p.ppid != -1 ==> p.user) && (!p.user ==> p.life == Alive && !p.leaving) && (p.leaving ==> p.life != InWait) &&
    (p.leaving || p.life == Zombie <==> p.born in exits) && (p.born in exits ==> p.ppid != -1) &&
    (p.born in exits ==> p.exitStatus == Int8(exits[p.born]))
  }

  ghost predicate PidsDistinct(procs: map<Tid, Proc>) {
    forall t, u :: t in procs && u in procs && (procs[t].pid == procs[u].pid || procs[t].born == procs[u].born) ==> t == u
  }

  ghost predicate ParentLives(procs: map<Tid, Proc>, t: Tid) {
    t in procs && procs[t].ppid != -1 ==> HasParent(procs, procs[t].ppid)
  }

  ghost predicate ParentsLive(procs: map<Tid, Proc>) {
    forall t :: ParentLives(procs, t)
  }

  ghost predicate InitOk(procs: map<Tid, Proc>, init: Tid) {
    Names(procs, INIT_PID, init) && procs[init].ppid == -1
  }

  predicate Sleeps(p: Proc) {
    p.life == InWait && p.pid != INIT_PID
  }

  /** No process but init sleeps in sys_wait while a child of its is ready to be collected. */
  ghost predicate NoLostExit(procs: map<Tid, Proc>) {
    forall t, u :: t in procs && u in procs && Sleeps(procs[t]) && procs[u].life == Zombie ==> procs[u].ppid != procs[t].pid
  }

  /** Everything handed out was passed to sys_exit by a process that is gone, each once. */
  ghost predicate CollectedOk(procs: map<Tid, Proc>, exits: map<nat, int>, log: seq<Collect>) {
    (forall i :: 0 <= i < |log| ==>
      && log[i].born in exits && log[i].status == Int8(exits[log[i].born])
      && (forall t :: t in procs ==> procs[t].born != log[i].born)) &&
    (forall i, j :: 0 <= i < j < |log| ==> log[i].born != log[j].born)
  }

  ghost predicate InTable(procs: map<Tid, Proc>, b: nat) {
    exists t :: t in procs && procs[t].born == b
  }

  ghost predicate InLog(log: seq<Collect>, b: nat) {
    exists i :: 0 <= i < |log| && log[i].born == b
  }

  /** Nothing passed to sys_exit is lost: its process is still in the table or was collected. */
  ghost predicate ExitsKept(procs: map<Tid, Proc>, exits: map<nat, int>, log: seq<Collect>, nextBorn: nat) {
    (forall b :: b in exits ==> b < nextBorn) && forall b :: ExitKept(procs, exits, log, b)
  }

  ghost predicate ExitKept(procs: map<Tid, Proc>, exits: map<nat, int>, log: seq<Collect>, b: nat) {
    b in exits ==> InTable(procs, b) || InLog(log, b)
  }

  ghost predicate ListOk(all: seq<Tid>, procs: map<Tid, Proc>) {
    Distinct(all) && forall t :: t in all <==> t in procs
  }

  ghost predicate RowsOk(procs: map<Tid, Proc>, pidBits: seq<bool>, nextBorn: nat, exits: map<nat, int>) {
    forall t :: t in procs ==> ProcOk(pidBits, nextBorn, exits, procs[t])
  }

  ghost predicate Inv(s: Table) {
    |s.pidBits| == MAX_PIDS && ListOk(s.all, s.procs) && RowsOk(s.procs, s.pidBits, s.nextBorn, s.exits) &&
    PidsDistinct(s.procs) && ParentsLive(s.procs) && InitOk(s.procs, s.init) && NoLostExit(s.procs) &&
    CollectedOk(s.procs, s.exits, s.collected) && ExitsKept(s.procs, s.exits, s.collected, s.nextBorn)
  }

  // ----- transitions -----

  /** A new row: sys_fork for `parent.Some?`, thread_start or process_execute otherwise.
      allocate_pid takes the lowest clear bit, and stops the machine when there is none. */
  ghost function AddRow(s: Table, child: Tid, parent: Option<Tid>, user: bool): (r: Outcome<Table>)
    requires parent.Some? ==> parent.value in s.procs
  {
    var bit := FirstClear(s.pidBits);
    if bit == -1 then Halt
    else
      var ppid := if parent.Some? then s.procs[parent.value].pid else -1;
      Done(s.(procs := s.procs[child := Proc(bit + 1, ppid, 0, Alive, user, false, s.nextBorn)], all := s.all + [child],
              pidBits := s.pidBits[bit := true], nextBorn := s.nextBorn + 1))
  }

  /** sys_fork that gives up for want of memory has already taken a pid and keeps it. */
  ghost function LeakPid(s: Table): Outcome<Table> {
    var bit := FirstClear(s.pidBits);
    if bit == -1 then Halt else Done(s.(pidBits := s.pidBits[bit := true]))
  }

  predicate IsChild(procs: map<Tid, Proc>, t: Tid, ppid: int) {
    t in procs && procs[t].ppid == ppid
  }

  predicate IsHangingChild(procs: map<Tid, Proc>, t: Tid, ppid: int) {
    t in procs && procs[t].life == Zombie && procs[t].ppid == ppid
  }

  /** thread_exit: the row, the list entry and the pid go. */
  function DropRow(s: Table, t: Tid): Table
    requires t in s.procs && 1 <= s.procs[t].pid <= |s.pidBits|
  {
    s.(procs := s.procs - {t}, all := Without(s.all, t), pidBits := s.pidBits[s.procs[t].pid - 1 := false])
  }

  /** sys_wait of `me` finds the hanging child `t`. */
  function Collected(s: Table, me: Tid, t: Tid): Table
    requires me in s.procs && t in s.procs && 1 <= s.procs[t].pid <= |s.pidBits|
  {
    DropRow(s, t).(collected := s.collected + [Collect(s.procs[t].born, s.procs[t].exitStatus, s.procs[me].pid)])
  }

  function SetLife(s: Table, t: Tid, life: Life): Table
    requires t in s.procs
  {
    s.(procs := s.procs[t := s.procs[t].(life := life)])
  }

  /** init_adopt_a_child, for every thread on the list */
  function Adopted(procs: map<Tid, Proc>, pid: int): (r: map<Tid, Proc>)
    ensures r.Keys == procs.Keys
    ensures forall t :: t in procs ==> r[t] == if procs[t].ppid == pid then procs[t].(ppid := INIT_PID) else procs[t]
  {
    map t | t in procs :: if procs[t].ppid == pid then procs[t].(ppid := INIT_PID) else procs[t]
  }

  /** sys_exit up to the release of resources. A thread without a parent panics. */
  function ExitStart(s: Table, me: Tid, status: int): Outcome<Table>
    requires me in s.procs
  {
    var p := s.procs[me];
    if p.ppid == -1 then Halt
    else
      var procs := s.procs[me := p.(exitStatus := Int8(status), leaving := true)];
      Done(s.(procs := Adopted(procs, p.pid), exits := s.exits[p.born := status]))
  }

  /** The rest of sys_exit: wake a parent that waits, then hang. */
  function ExitFinish(s: Table, me: Tid, parent: Tid): Table
    requires me in s.procs && parent in s.procs
  {
    var s1 := if s.procs[parent].life == InWait then SetLife(s, parent, Alive) else s;
    SetLife(s1, me, Zombie)
  }

  // ----- every transition keeps the invariant -----

  lemma AddRowRows(s: Table, child: Tid, p: Proc)
    requires RowsOk(s.procs, s.pidBits, s.nextBorn, s.exits) && PidsDistinct(s.procs) && NoLostExit(s.procs) && child !in s.procs
    requires 1 <= p.pid <= |s.pidBits| && !s.pidBits[p.pid - 1] && p.life == Alive && p.born == s.nextBorn && s.nextBorn !in s.exits
    requires ProcOk(s.pidBits[p.pid - 1 := true], s.nextBorn + 1, s.exits, p)
    ensures RowsOk(s.procs[child := p], s.pidBits[p.pid - 1 := true], s.nextBorn + 1, s.exits)
    ensures PidsDistinct(s.procs[child := p]) && NoLostExit(s.procs[child := p])
  {
    forall t | t in s.procs
      ensures ProcOk(s.pidBits[p.pid - 1 := true], s.nextBorn + 1, s.exits, s.procs[t]) && s.procs[t].pid != p.pid && s.procs[t].born != p.born
    {
      assert ProcOk(s.pidBits, s.nextBorn, s.exits, s.procs[t]);
    }
  }

  lemma AddRowParents(procs: map<Tid, Proc>, child: Tid, p: Proc)
    requires ParentsLive(procs) && child !in procs && (p.ppid != -1 ==> HasParent(procs, p.ppid))
    ensures ParentsLive(procs[child := p])
  {
    var procs' := procs[child := p];
    forall t ensures ParentLives(procs', t) {
      if t in procs' && procs'[t].ppid != -1 {
        assert t != child ==> ParentLives(procs, t);
        var u :| Names(procs, procs'[t].ppid, u);
        assert Names(procs', procs'[t].ppid, u);
      }
    }
  }

  /** The history when rows come, change or go, but none whose exit is on record goes. */
  lemma LogKept(s: Table, procs: map<Tid, Proc>, nextBorn: nat)
    requires CollectedOk(s.procs, s.exits, s.collected) && ExitsKept(s.procs, s.exits, s.collected, s.nextBorn) && nextBorn >= s.nextBorn
    requires forall t :: t in s.procs && s.procs[t].born in s.exits ==> t in procs && procs[t].born == s.procs[t].born
    requires forall t :: t in procs ==> (t in s.procs && procs[t].born == s.procs[t].born) || procs[t].born >= s.nextBorn
    ensures CollectedOk(procs, s.exits, s.collected) && ExitsKept(procs, s.exits, s.collected, nextBorn)
  {
    forall b ensures ExitKept(procs, s.exits, s.collected, b) {
      assert ExitKept(s.procs, s.exits, s.collected, b);
      if b in s.exits && InTable(s.procs, b) {
        var t :| t in s.procs && s.procs[t].born == b;
        assert procs[t].born == b;
      }
    }
  }

  lemma AddRowInv(s: Table, child: Tid, parent: Option<Tid>, user: bool)
    requires Inv(s) && child !in s.procs
    requires parent.Some? ==> parent.value in s.procs && CanParent(s.procs[parent.value]) && user
    ensures AddRow(s, child, parent, user).Done? ==> Inv(AddRow(s, child, parent, user).value)
  {
    if AddRow(s, child, parent, user).Done? {
      var s' := AddRow(s, child, parent, user).value;
      var p := s'.procs[child];
      DistinctAppend(s.all, child);
      if parent.Some? { assert Names(s.procs, p.ppid, parent.value); }
      AddRowParents(s.procs, child, p);
      LogKept(s, s'.procs, s'.nextBorn);
      AddRowRows(s, child, p);
    }
  }

  lemma LeakPidInv(s: Table)
    requires Inv(s)
    ensures LeakPid(s).Done? ==> Inv(LeakPid(s).value)
  {
    var bit := FirstClear(s.pidBits);
    if bit != -1 {
      forall t | t in s.procs ensures ProcOk(s.pidBits[bit := true], s.nextBorn, s.exits, s.procs[t]) {
        assert ProcOk(s.pidBits, s.nextBorn, s.exits, s.procs[t]);
      }
    }
  }

  /** A process that has left, or a kernel thread, is nobody's parent. */
  lemma Childless(s: Table, t: Tid)
    requires Inv(s) && t in s.procs && !CanParent(s.procs[t])
    ensures forall u :: u in s.procs ==> s.procs[u].ppid != s.procs[t].pid
  {
    assert ProcOk(s.pidBits, s.nextBorn, s.exits, s.procs[t]);
    forall u | u in s.procs ensures s.procs[u].ppid != s.procs[t].pid {
      assert ParentLives(s.procs, u);
    }
  }

  lemma DropParents(procs: map<Tid, Proc>, t: Tid)
    requires ParentsLive(procs) && t in procs && forall u :: u in procs ==> procs[u].ppid != procs[t].pid
    ensures ParentsLive(procs - {t})
  {
    var procs' := procs - {t};
    forall u ensures ParentLives(procs', u) {
      if u in procs' && procs'[u].ppid != -1 {
        assert ParentLives(procs, u);
        var v :| Names(procs, procs[u].ppid, v);
        assert Names(procs', procs'[u].ppid, v);
      }
    }
  }

  lemma DropRows(s: Table, t: Tid)
    requires RowsOk(s.procs, s.pidBits, s.nextBorn, s.exits) && PidsDistinct(s.procs) && NoLostExit(s.procs) && ListOk(s.all, s.procs)
    requires t in s.procs
    ensures 1 <= s.procs[t].pid <= |s.pidBits|
    ensures var s' := DropRow(s, t);
      RowsOk(s'.procs, s'.pidBits, s'.nextBorn, s'.exits) && PidsDistinct(s'.procs) && NoLostExit(s'.procs) && ListOk(s'.all, s'.procs)
  {
    assert ProcOk(s.pidBits, s.nextBorn, s.exits, s.procs[t]);
    var s' := DropRow(s, t);
    DistinctWithout(s.all, t);
    forall u | u in s'.procs ensures ProcOk(s'.pidBits, s'.nextBorn, s'.exits, s'.procs[u]) {
      assert ProcOk(s.pidBits, s.nextBorn, s.exits, s.procs[u]);
    }
  }

  lemma CollectedLog(s: Table, t: Tid, c: Collect)
    requires CollectedOk(s.procs, s.exits, s.collected) && ExitsKept(s.procs, s.exits, s.collected, s.nextBorn)
    requires PidsDistinct(s.procs) && t in s.procs
    requires c.born == s.procs[t].born && c.born in s.exits && c.status == Int8(s.exits[c.born])
    ensures CollectedOk(s.procs - {t}, s.exits, s.collected + [c])
    ensures ExitsKept(s.procs - {t}, s.exits, s.collected + [c], s.nextBorn)
  {
    var log := s.collected + [c];
    assert log[|s.collected|] == c;
    forall b ensures ExitKept(s.procs - {t}, s.exits, log, b) {
      assert ExitKept(s.procs, s.exits, s.collected, b);
      if b in s.exits && InLog(s.collected, b) {
        var i :| 0 <= i < |s.collected| && s.collected[i].born == b;
        assert log[i].born == b;
      } else if b in s.exits && b != c.born {
        var u :| u in s.procs && s.procs[u].born == b;
        assert u in s.procs - {t};
      }
    }
  }

  lemma CollectedInv(s: Table, me: Tid, t: Tid)
    requires Inv(s) && me in s.procs && IsHangingChild(s.procs, t, s.procs[me].pid)
    ensures 1 <= s.procs[t].pid <= |s.pidBits| && Inv(Collected(s, me, t))
  {
    DropRows(s, t);
    Childless(s, t);
    DropParents(s.procs, t);
    assert ProcOk(s.pidBits, s.nextBorn, s.exits, s.procs[t]);
    CollectedLog(s, t, Collect(s.procs[t].born, s.procs[t].exitStatus, s.procs[me].pid));
  }

  /** thread_exit of a kernel thread by itself. */
  lemma DropKernelInv(s: Table, t: Tid)
    requires Inv(s) && t in s.procs && !s.procs[t].user
    ensures 1 <= s.procs[t].pid <= |s.pidBits| && Inv(DropRow(s, t))
  {
    DropRows(s, t);
    Childless(s, t);
    DropParents(s.procs, t);
    assert ProcOk(s.pidBits, s.nextBorn, s.exits, s.procs[t]);
    LogKept(s, s.procs - {t}, s.nextBorn);
  }

  /** sys_wait of a process that has children but no hanging one puts it to sleep. */
  lemma SleepInv(s: Table, me: Tid)
    requires Inv(s) && me in s.procs && CanParent(s.procs[me])
    requires forall t :: t in s.procs ==> !IsHangingChild(s.procs, t, s.procs[me].pid)
    ensures Inv(SetLife(s, me, InWait))
  {
    assert ProcOk(s.pidBits, s.nextBorn, s.exits, s.procs[me]);
    SetLifeInv(s, me, InWait);
    var procs := SetLife(s, me, InWait).procs;
    forall t, u | t in procs && u in procs && Sleeps(procs[t]) && procs[u].life == Zombie
      ensures procs[u].ppid != procs[t].pid
    {
      assert !IsHangingChild(s.procs, u, s.procs[me].pid);
    }
  }

  /** Everything but NoLostExit, when only the life of one process changes. */
  lemma SetLifeInv(s: Table, t: Tid, life: Life)
    requires Inv(s) && t in s.procs && (CanParent(s.procs[t]) ==> life != Zombie)
    requires ProcOk(s.pidBits, s.nextBorn, s.exits, s.procs[t].(life := life))
    ensures var s' := SetLife(s, t, life);
      && RowsOk(s'.procs, s'.pidBits, s'.nextBorn, s'.exits) && PidsDistinct(s'.procs) && ParentsLive(s'.procs)
      && InitOk(s'.procs, s'.init) && ListOk(s'.all, s'.procs)
      && CollectedOk(s'.procs, s'.exits, s'.collected) && ExitsKept(s'.procs, s'.exits, s'.collected, s'.nextBorn)
  {
    var s' := SetLife(s, t, life);
    SameParents(s.procs, s'.procs);
    LogKept(s, s'.procs, s'.nextBorn);
    forall u | u in s'.procs ensures ProcOk(s'.pidBits, s'.nextBorn, s'.exits, s'.procs[u]) {
      assert ProcOk(s.pidBits, s.nextBorn, s.exits, s.procs[u]);
    }
  }

  lemma SameParents(procs: map<Tid, Proc>, procs': map<Tid, Proc>)
    requires ParentsLive(procs) && procs'.Keys == procs.Keys
    requires forall t :: t in procs ==> procs'[t].pid == procs[t].pid && procs'[t].ppid == procs[t].ppid
    requires forall t :: t in procs && CanParent(procs[t]) ==> CanParent(procs'[t])
    ensures ParentsLive(procs')
  {
    forall t ensures ParentLives(procs', t) {
      if t in procs' && procs'[t].ppid != -1 {
        assert ParentLives(procs, t);
        var u :| Names(procs, procs[t].ppid, u);
        assert Names(procs', procs'[t].ppid, u);
      }
    }
  }

  lemma ExitStartRows(s: Table, me: Tid, status: int)
    requires Inv(s) && me in s.procs && CanParent(s.procs[me]) && s.procs[me].life == Alive && s.procs[me].ppid != -1
    ensures var s' := ExitStart(s, me, status).value; RowsOk(s'.procs, s'.pidBits, s'.nextBorn, s'.exits)
  {
    var s' := ExitStart(s, me, status).value;
    forall u | u in s'.procs ensures ProcOk(s'.pidBits, s'.nextBorn, s'.exits, s'.procs[u]) {
      assert ProcOk(s.pidBits, s.nextBorn, s.exits, s.procs[u]);
      assert u != me ==> s.procs[u].born != s.procs[me].born;
    }
  }

  lemma AdoptedKeeps(procs: map<Tid, Proc>, me: Tid, p: Proc)
    requires PidsDistinct(procs) && NoLostExit(procs) && me in procs
    requires p.pid == procs[me].pid && p.born == procs[me].born && p.life == procs[me].life == Alive
    ensures PidsDistinct(Adopted(procs[me := p], p.pid)) && NoLostExit(Adopted(procs[me := p], p.pid))
  {
  }

  lemma ExitStartParents(s: Table, me: Tid, status: int)
    requires Inv(s) && me in s.procs && CanParent(s.procs[me]) && s.procs[me].life == Alive && s.procs[me].ppid != -1
    ensures var s' := ExitStart(s, me, status).value; ParentsLive(s'.procs) && InitOk(s'.procs, s'.init)
  {
    var s' := ExitStart(s, me, status).value;
    assert ProcOk(s.pidBits, s.nextBorn, s.exits, s.procs[me]);
    assert Names(s'.procs, INIT_PID, s.init);
    forall t ensures ParentLives(s'.procs, t) {
      if t in s'.procs && s'.procs[t].ppid != -1 && s.procs[t].ppid != s.procs[me].pid {
        assert ParentLives(s.procs, t);
        var u :| Names(s.procs, s.procs[t].ppid, u);
        assert Names(s'.procs, s'.procs[t].ppid, u);
      }
    }
  }

  lemma ExitStartLog(s: Table, me: Tid, status: int)
    requires Inv(s) && me in s.procs && CanParent(s.procs[me]) && s.procs[me].life == Alive && s.procs[me].ppid != -1
    ensures var s' := ExitStart(s, me, status).value;
      CollectedOk(s'.procs, s'.exits, s'.collected) && ExitsKept(s'.procs, s'.exits, s'.collected, s'.nextBorn)
  {
    var s' := ExitStart(s, me, status).value;
    assert ProcOk(s.pidBits, s.nextBorn, s.exits, s.procs[me]);
    LogKept(s, s'.procs, s.nextBorn);
    forall b ensures ExitKept(s'.procs, s'.exits, s'.collected, b) {
      assert ExitKept(s'.procs, s.exits, s.collected, b);
      if b == s.procs[me].born { assert s'.procs[me].born == b; }
    }
  }

  lemma ExitStartInv(s: Table, me: Tid, status: int)
    requires Inv(s) && me in s.procs && CanParent(s.procs[me]) && s.procs[me].life == Alive
    ensures ExitStart(s, me, status).Done? ==> Inv(ExitStart(s, me, status).value)
  {
    if s.procs[me].ppid != -1 {
      ExitStartRows(s, me, status);
      AdoptedKeeps(s.procs, me, s.procs[me].(exitStatus := Int8(status), leaving := true));
      ExitStartParents(s, me, status);
      ExitStartLog(s, me, status);
    }
  }

  lemma WakeParentInv(s: Table, parent: Tid)
    requires Inv(s) && parent in s.procs && CanParent(s.procs[parent])
    ensures Inv(SetLife(s, parent, Alive))
  {
    assert ProcOk(s.pidBits, s.nextBorn, s.exits, s.procs[parent]);
    SetLifeInv(s, parent, Alive);
  }

  lemma HangNoLostExit(procs: map<Tid, Proc>, me: Tid)
    requires NoLostExit(procs) && me in procs
    requires forall t :: t in procs && Sleeps(procs[t]) ==> procs[t].pid != procs[me].ppid
    ensures NoLostExit(procs[me := procs[me].(life := Zombie)])
  {
  }

  lemma HangInv(s: Table, me: Tid)
    requires Inv(s) && me in s.procs && s.procs[me].leaving
    requires forall t :: t in s.procs && Sleeps(s.procs[t]) ==> s.procs[t].pid != s.procs[me].ppid
    ensures Inv(SetLife(s, me, Zombie))
  {
    assert ProcOk(s.pidBits, s.nextBorn, s.exits, s.procs[me]);
    HangNoLostExit(s.procs, me);
    SetLifeInv(s, me, Zombie);
  }

  lemma ExitFinishInv(s: Table, me: Tid, parent: Tid)
    requires Inv(s) && me in s.procs && s.procs[me].leaving && Names(s.procs, s.procs[me].ppid, parent)
    ensures Inv(ExitFinish(s, me, parent))
  {
    var s1 := s;
    if s.procs[parent].life == InWait {
      WakeParentInv(s, parent);
      s1 := SetLife(s, parent, Alive);
    }
    HangInv(s1, me);
  }

  // ----- runs -----

  /** The system calls of a process `me` that is on the processor, and what kernel threads
      do to the table. */
  datatype Step =
    | Fork(me: Tid, child: Tid)
    | ForkFails(me: Tid)
    | Wait(me: Tid)
    | Exit(me: Tid, status: int)
    | ExitRest(me: Tid)
    | StartThread(t: Tid)
    | EndThread(t: Tid)

  ghost predicate Enabled(s: Table, step: Step) {
    match step
    case Fork(me, child) => me in s.procs && CanParent(s.procs[me]) && s.procs[me].life == Alive && child !in s.procs
    case ForkFails(me) => me in s.procs && CanParent(s.procs[me]) && s.procs[me].life == Alive
    case Wait(me) => me in s.procs && CanParent(s.procs[me]) && s.procs[me].life == Alive
    case Exit(me, _) => me in s.procs && CanParent(s.procs[me]) && s.procs[me].life == Alive
    case ExitRest(me) => me in s.procs && s.procs[me].leaving && s.procs[me].life == Alive
    case StartThread(t) => t !in s.procs
    case EndThread(t) => t in s.procs && !s.procs[t].user
  }

  /** The first thread on the list that satisfies a test (list_traversal). */
  function FirstSuch(all: seq<Tid>, test: Tid -> bool): (r: Option<Tid>)
    ensures r == None ==> forall t :: t in all ==> !test(t)
    ensures r.Some? ==> r.value in all && test(r.value)
  {
    if all == [] then None
    else if test(all[0]) then Some(all[0])
    else
      assert forall t :: t in all ==> t == all[0] || t in all[1..];
      FirstSuch(all[1..], test)
  }

  function HangingChild(s: Table, me: Tid): (r: Option<Tid>)
    requires me in s.procs
    ensures r.Some? ==> r.value in s.all && IsHangingChild(s.procs, r.value, s.procs[me].pid)
    ensures r == None ==> forall t :: t in s.all ==> !IsHangingChild(s.procs, t, s.procs[me].pid)
  {
    FirstSuch(s.all, (t: Tid) => IsHangingChild(s.procs, t, s.procs[me].pid))
  }

  function AnyChild(s: Table, me: Tid): (r: Option<Tid>)
    requires me in s.procs
    ensures r.Some? ==> IsChild(s.procs, r.value, s.procs[me].pid)
    ensures r == None ==> forall t :: t in s.all ==> !IsChild(s.procs, t, s.procs[me].pid)
  {
    FirstSuch(s.all, (t: Tid) => IsChild(s.procs, t, s.procs[me].pid))
  }

  /** pid_to_thread */
  function PidToThread(s: Table, pid: int): (r: Option<Tid>)
    ensures r.Some? ==> r.value in s.procs && s.procs[r.value].pid == pid
    ensures r == None ==> forall t :: t in s.all && t in s.procs ==> s.procs[t].pid != pid
  {
    FirstSuch(s.all, (t: Tid) => t in s.procs && s.procs[t].pid == pid)
  }

  /** Every pid has a bit. */
  predicate PidsInMap(procs: map<Tid, Proc>, pidBits: seq<bool>) {
    forall t :: t in procs ==> 1 <= procs[t].pid <= |pidBits|
  }

  /** One pass of the loop of sys_wait. */
  function WaitPass(s: Table, me: Tid): Table
    requires me in s.procs && PidsInMap(s.procs, s.pidBits)
  {
    match HangingChild(s, me)
    case Some(t) => Collected(s, me, t)
    case None => if AnyChild(s, me).Some? then SetLife(s, me, InWait) else s
  }

  lemma ParentFound(s: Table, me: Tid)
    requires Inv(s) && me in s.procs && s.procs[me].leaving
    ensures var p := PidToThread(s, s.procs[me].ppid); p.Some? && Names(s.procs, s.procs[me].ppid, p.value)
  {
    assert ProcOk(s.pidBits, s.nextBorn, s.exits, s.procs[me]);
    assert ParentLives(s.procs, me);
    var u :| Names(s.procs, s.procs[me].ppid, u);
    assert u in s.all;
  }

  lemma WaitInv(s: Table, me: Tid)
    requires Inv(s) && me in s.procs && CanParent(s.procs[me])
    ensures PidsInMap(s.procs, s.pidBits) && Inv(WaitPass(s, me))
  {
    forall t | t in s.procs ensures 1 <= s.procs[t].pid <= |s.pidBits| {
      assert ProcOk(s.pidBits, s.nextBorn, s.exits, s.procs[t]);
    }
    match HangingChild(s, me)
    case Some(t) => CollectedInv(s, me, t);
    case None => if AnyChild(s, me).Some? { SleepInv(s, me); }
  }

  /** A step gives a new table, or stops the machine at an ASSERT or PANIC. */
  ghost function Next(s: Table, step: Step): (r: Outcome<Table>)
    requires Inv(s) && Enabled(s, step)
    ensures r.Done? ==> Inv(r.value)
  {
    match step
    case Fork(me, child) => AddRowInv(s, child, Some(me), true); AddRow(s, child, Some(me), true)
    case ForkFails(_) => LeakPidInv(s); LeakPid(s)
    case Wait(me) => WaitInv(s, me); Done(WaitPass(s, me))
    case Exit(me, status) => ExitStartInv(s, me, status); ExitStart(s, me, status)
    case ExitRest(me) =>
      ParentFound(s, me);
      ExitFinishInv(s, me, PidToThread(s, s.procs[me].ppid).value);
      Done(ExitFinish(s, me, PidToThread(s, s.procs[me].ppid).value))
    case StartThread(t) => AddRowInv(s, t, None, false); AddRow(s, t, None, false)
    case EndThread(t) => DropKernelInv(s, t); Done(DropRow(s, t))
  }

  /** The table when the scheduler first runs: init is a user process with pid 1 and no
      parent, everything else is a kernel thread, nobody has exited. */
  ghost predicate Boot(s: Table) {
    |s.pidBits| == MAX_PIDS && ListOk(s.all, s.procs) && PidsDistinct(s.procs) && s.exits == map[] && s.collected == [] &&
    s.init in s.procs && s.procs[s.init].pid == INIT_PID && s.procs[s.init].user &&
    forall t :: t in s.procs ==>
      && s.procs[t].ppid == -1 && s.procs[t].life == Alive && !s.procs[t].leaving && s.procs[t].born < s.nextBorn
      && 1 <= s.procs[t].pid <= MAX_PIDS && s.pidBits[s.procs[t].pid - 1]
  }

  ghost predicate StepTo(s: Table, step: Step, s': Table)
    requires Inv(s)
  {
    Enabled(s, step) && Next(s, step) == Done(s')
  }

  /** A booted table, or a run and one step more */
  ghost predicate IsRun(trace: seq<Table>, steps: seq<Step>) {
    |trace| == |steps| + 1 &&
    if steps == [] then Boot(trace[0])
    else
      var n := |steps| - 1;
      IsRun(trace[..n + 1], steps[..n]) && (Inv(trace[n]) ==> StepTo(trace[n], steps[n], trace[n + 1]))
  }

  lemma BootInv(s: Table)
    requires Boot(s)
    ensures Inv(s)
  {
    assert Names(s.procs, INIT_PID, s.init);
  }

  lemma StepInv(s: Table, step: Step, s': Table)
    requires Inv(s) && StepTo(s, step, s')
    ensures Inv(s')
  {
  }

  lemma {:induction false} LastInv(trace: seq<Table>, steps: seq<Step>)
    requires IsRun(trace, steps)
    ensures Inv(trace[|steps|])
  {
    var n := |steps|;
    if n == 0 {
      BootInv(trace[0]);
    } else {
      LastInv(trace[..n], steps[..n - 1]);
      StepInv(trace[n - 1], steps[n - 1], trace[n]);
    }
  }

  lemma {:induction false} RunInv(trace: seq<Table>, steps: seq<Step>, i: nat)
    requires IsRun(trace, steps) && i < |trace|
    ensures Inv(trace[i])
  {
    if i == |steps| {
      LastInv(trace, steps);
    } else {
      RunInv(trace[..|steps|], steps[..|steps| - 1], i);
    }
  }

  /** Over every run: live pids are distinct, a parent pid names a process that has not
      exited, and nobody but init sleeps through the exit of a child. */
  lemma RunsAreSafe(trace: seq<Table>, steps: seq<Step>, i: nat, t: Tid, u: Tid)
    requires IsRun(trace, steps) && i < |trace| && t in trace[i].procs && u in trace[i].procs
    ensures trace[i].procs[t].pid == trace[i].procs[u].pid ==> t == u
    ensures trace[i].procs[t].ppid != -1 ==> HasParent(trace[i].procs, trace[i].procs[t].ppid)
    ensures trace[i].procs[t].life == InWait && trace[i].procs[t].pid != INIT_PID && trace[i].procs[u].life == Zombie ==>
              trace[i].procs[u].ppid != trace[i].procs[t].pid
  {
    RunInv(trace, steps, i);
    assert ParentLives(trace[i].procs, t);
  }

  /** Each exit status is handed out at most once, as the low byte of what was passed to
      sys_exit; and an exit that was not handed out has its process still in the table. */
  lemma CollectedExactlyOnce(trace: seq<Table>, steps: seq<Step>, i: nat, b: nat)
    requires IsRun(trace, steps) && i < |trace| && b in trace[i].exits
    ensures InLog(trace[i].collected, b) <==> !InTable(trace[i].procs, b)
    ensures forall j, k :: 0 <= j < k < |trace[i].collected| ==> trace[i].collected[j].born != trace[i].collected[k].born
    ensures forall j :: 0 <= j < |trace[i].collected| && trace[i].collected[j].born == b ==>
              trace[i].collected[j].status == Int8(trace[i].exits[b])
  {
    RunInv(trace, steps, i);
    assert ExitKept(trace[i].procs, trace[i].exits, trace[i].collected, b);
  }

  /** What sys_wait hands out, it hands to the process that is the parent at that moment. */
  lemma CollectedByParent(s: Table, me: Tid)
    requires Inv(s) && Enabled(s, Wait(me)) && HangingChild(s, me).Some?
    ensures var t := HangingChild(s, me).value; var s' := Next(s, Wait(me)).value;
      && s.procs[t].ppid == s.procs[me].pid
      && s'.collected == s.collected + [Collect(s.procs[t].born, Int8(s.exits[s.procs[t].born]), s.procs[me].pid)]
      && t !in s'.procs && t !in s'.all && !s'.pidBits[s.procs[t].pid - 1]
  {
    var t := HangingChild(s, me).value;
    assert ProcOk(s.pidBits, s.nextBorn, s.exits, s.procs[t]);
    WaitInv(s, me);
  }

  // ----- init is the exception -----

  ghost predicate InitSleepsThrough(procs: map<Tid, Proc>, init: Tid)
    requires init in procs
  {
    procs[init].life == InWait && HangsFor(procs, INIT_PID)
  }

  ghost predicate HangsFor(procs: map<Tid, Proc>, pid: int) {
    exists u :: IsHangingChild(procs, u, pid)
  }

  lemma AdoptedHangs(procs: map<Tid, Proc>, pid: int)
    ensures HangsFor(Adopted(procs, pid), INIT_PID) <==> HangsFor(procs, INIT_PID) || HangsFor(procs, pid)
  {
    var procs' := Adopted(procs, pid);
    forall u ensures IsHangingChild(procs', u, INIT_PID) <==> IsHangingChild(procs, u, INIT_PID) || IsHangingChild(procs, u, pid) {
    }
    if HangsFor(procs, INIT_PID) {
      var u :| IsHangingChild(procs, u, INIT_PID);
      assert IsHangingChild(procs', u, INIT_PID);
    }
    if HangsFor(procs, pid) {
      var u :| IsHangingChild(procs, u, pid);
      assert IsHangingChild(procs', u, INIT_PID);
    }
  }

  lemma SameHangs(procs: map<Tid, Proc>, me: Tid, p: Proc, pid: int)
    requires me in procs && p.ppid == procs[me].ppid && p.life == procs[me].life
    ensures HangsFor(procs[me := p], pid) <==> HangsFor(procs, pid)
  {
    forall u ensures IsHangingChild(procs[me := p], u, pid) <==> IsHangingChild(procs, u, pid) { }
    if HangsFor(procs, pid) {
      var u :| IsHangingChild(procs, u, pid);
      assert IsHangingChild(procs[me := p], u, pid);
    }
    if HangsFor(procs[me := p], pid) {
      var u :| IsHangingChild(procs[me := p], u, pid);
      assert IsHangingChild(procs, u, pid);
    }
  }

  /** The first half of sys_exit leaves init asleep above a child that hangs exactly when
      init waits and either did so already or inherits such a child. */
  lemma AdoptionAndInit(s: Table, me: Tid, status: int)
    requires me in s.procs && s.init in s.procs && me != s.init && s.procs[me].ppid != -1
    ensures var s' := ExitStart(s, me, status).value;
      InitSleepsThrough(s'.procs, s'.init) <==>
        InitSleepsThrough(s.procs, s.init) || (s.procs[s.init].life == InWait && HangsFor(s.procs, s.procs[me].pid))
  {
    var p := s.procs[me].(exitStatus := Int8(status), leaving := true);
    AdoptedHangs(s.procs[me := p], s.procs[me].pid);
    SameHangs(s.procs, me, p, INIT_PID);
    SameHangs(s.procs, me, p, s.procs[me].pid);
  }

  /** The second half never does: a waiting init that is the parent is woken. */
  lemma FinishAndInit(s: Table, me: Tid, parent: Tid)
    requires me in s.procs && s.init in s.procs && me != s.init && parent in s.procs && s.procs[parent].pid == s.procs[me].ppid
    requires s.procs[parent].pid == INIT_PID ==> parent == s.init
    ensures var s' := ExitFinish(s, me, parent); InitSleepsThrough(s'.procs, s'.init) ==> InitSleepsThrough(s.procs, s.init)
  {
    var s' := ExitFinish(s, me, parent);
    if InitSleepsThrough(s'.procs, s'.init) {
      var u :| IsHangingChild(s'.procs, u, INIT_PID);
      assert IsHangingChild(s.procs, u, INIT_PID);
    }
  }

  // ----- the code -----

  lemma FirstSuchAt(all: seq<Tid>, test: Tid -> bool, i: nat)
    requires i < |all| && test(all[i]) && forall k :: 0 <= k < i ==> !test(all[k])
    ensures FirstSuch(all, test) == Some(all[i])
  {
    if i > 0 {
      assert !test(all[0]);
      FirstSuchAt(all[1..], test, i - 1);
    }
  }

  /** thread_all_list and the PCBs on it, walked by list_traversal and changed in place. */
  class ThreadList {
    var procs: map<Tid, Proc>
    var all: seq<Tid>
    var pidBits: seq<bool>

    constructor (s: Table)
      ensures Shows(s)
    {
      procs, all, pidBits := s.procs, s.all, s.pidBits;
    }

    ghost predicate Shows(s: Table)
      reads this
    {
      procs == s.procs && all == s.all && pidBits == s.pidBits
    }

    /** list_traversal with the callback `test` */
    method Traverse(test: Tid -> bool) returns (r: Option<Tid>)
      ensures r == FirstSuch(all, test)
    {
      var i := 0;
      while i < |all|
        invariant 0 <= i <= |all| && forall k :: 0 <= k < i ==> !test(all[k])
      {
        if test(all[i]) {
          FirstSuchAt(all, test, i);
          return Some(all[i]);
        }
        i := i + 1;
      }
      return None;
    }

    /** list_traversal with the callback init_adopt_a_child, which never stops it */
    method AdoptChildren(pid: int)
      requires ListOk(all, procs)
      modifies this`procs
      ensures procs == Adopted(old(procs), pid)
    {
      ghost var to := Adopted(procs, pid);
      var i := 0;
      while i < |all|
        invariant 0 <= i <= |all| && procs.Keys == old(procs).Keys
        invariant forall k :: 0 <= k < |all| ==> procs[all[k]] == if k < i then to[all[k]] else old(procs)[all[k]]
      {
        var t := all[i];
        if procs[t].ppid == pid {
          procs := procs[t := procs[t].(ppid := INIT_PID)];
        }
        i := i + 1;
      }
      forall t | t in procs ensures procs[t] == to[t] {
        assert t in all;
      }
    }

    /** sys_exit up to the release of resources; a caller without a parent panics */
    method SysExit(s: Table, me: Tid, status: int) returns (halted: bool)
      requires Inv(s) && Shows(s) && me in procs
      modifies this`procs
      ensures halted <==> ExitStart(s, me, status).Halt?
      ensures !halted ==> ExitStart(s, me, status) == Done(s.(procs := procs, exits := s.exits[s.procs[me].born := status]))
    {
      if procs[me].ppid == -1 {
        return true;
      }
      procs := procs[me := procs[me].(exitStatus := Int8(status), leaving := true)];
      AdoptChildren(procs[me].pid);
      return false;
    }

    /** One pass of sys_wait: a child is reaped, and its status is the answer; or the caller goes
        to sleep for one; or there is none */
    method SysWait(s: Table, me: Tid) returns (reaped: Option<Tid>, status: int, sleeps: bool)
      requires PidsInMap(s.procs, s.pidBits) && ListOk(s.all, s.procs) && Shows(s) && me in procs
      modifies this
      ensures reaped == HangingChild(s, me) && (reaped.Some? ==> status == s.procs[reaped.value].exitStatus)
      ensures sleeps <==> reaped == None && exists t :: IsChild(s.procs, t, s.procs[me].pid)
      ensures Shows(WaitPass(s, me))
      ensures WaitPass(s, me).collected == s.collected + if reaped.Some? then [Collect(s.procs[reaped.value].born, status, s.procs[me].pid)] else []
    {
      var pid, rows := procs[me].pid, procs;
      reaped := Traverse((t: Tid) => IsHangingChild(rows, t, pid));
      status, sleeps := 0, false;
      if reaped.Some? {
        status := procs[reaped.value].exitStatus;
        ThreadExit(reaped.value);
      } else {
        var child := Traverse((t: Tid) => IsChild(rows, t, pid));
        if child.Some? {
          sleeps := true;
          procs := procs[me := procs[me].(life := InWait)];
        }
      }
    }

    /** What thread_exit does to the table */
    method ThreadExit(t: Tid)
      requires t in procs && 1 <= procs[t].pid <= |pidBits|
      modifies this
      ensures procs == old(procs) - {t} && all == Without(old(all), t) && pidBits == old(pidBits)[old(procs)[t].pid - 1 := false]
    {
      all := Without(all, t);
      pidBits := pidBits[procs[t].pid - 1 := false];
      procs := procs - {t};
    }
  }
}
