/** The process table on top of the scheduler: every fork, wait and exit is also a move
    between scheduler lists, and the two views of a thread never drift apart. */
module Tasks {
  import opened Machine
  import S = Scheduler
  import P = Processes

  datatype Sys = Sys(sched: S.State, table: P.Table)

  function LifeOf(st: S.Status): P.Life {
    match st
    case Waiting => P.InWait
    case Hanging => P.Zombie
    case _ => P.Alive
  }

  /** The same threads on both sides, in the same stage of life; the idle thread is a kernel thread. */
  ghost predicate Linked(sched: S.State, table: P.Table) {
    table.procs.Keys == sched.threads.Keys &&
    (forall t :: t in sched.threads ==> table.procs[t].life == LifeOf(sched.threads[t].status)) &&
    sched.idle in table.procs && !table.procs[sched.idle].user
  }

  ghost predicate Inv(s: Sys) {
    S.Inv(s.sched) && P.Inv(s.table) && Linked(s.sched, s.table)
  }

  /** A move of the scheduler, or a system call of the running thread. */
  datatype Step =
    | Sched(step: S.Step)
    | Fork(child: nat)
    | ForkFails
    | Wait
    | Exit(status: int)
    | ExitRest
    | StartThread(t: nat, priority: nat)
    | EndThread

  /** What the rest of the kernel does to the lists: it blocks and unblocks with TASK_BLOCKED
      only, and threads come and go through the other steps. */
  predicate Plain(sched: S.State, e: S.Step) {
    match e
    case TickStep => true
    case YieldStep => true
    case BlockStep(st) => st == S.Blocked
    case UnblockStep(t) => t in sched.threads && sched.threads[t].status == S.Blocked
    case DownStep(_) => true
    case UpStep(_) => true
    case _ => false
  }

  /** Nobody comes, goes, starts to wait or hang, or stops. */
  ghost predicate Keeps(sched: S.State, sched': S.State) {
    sched'.idle == sched.idle && sched'.threads.Keys == sched.threads.Keys && S.Calm(sched, sched', {})
  }

  lemma KeepsLinked(sched: S.State, sched': S.State, table: P.Table)
    requires Linked(sched, table) && Keeps(sched, sched')
    ensures Linked(sched', table)
  {
  }

  lemma BlockKeeps(sched: S.State)
    requires S.Inv(sched)
    ensures Keeps(sched, S.Block(sched, S.Blocked))
  {
    S.BlockFrame(sched, S.Blocked);
    S.BlockCalm(sched, S.Blocked);
  }

  lemma DownKeeps(sched: S.State, m: S.SemId)
    requires S.Inv(sched) && m in sched.semas && sched.cur != sched.idle
    ensures Keeps(sched, S.Down(sched, m))
  {
    S.DownFrame(sched, m);
    S.DownCalm(sched, m);
  }

  lemma UpKeeps(sched: S.State, m: S.SemId)
    requires S.Inv(sched) && m in sched.semas
    ensures S.SemaOk(sched, m) && Keeps(sched, S.Up(sched, m))
  {
    assert S.SemaOk(sched, m);
  }

  lemma PlainKeeps(sched: S.State, e: S.Step)
    requires S.Inv(sched) && S.Enabled(sched, e) && Plain(sched, e)
    ensures Keeps(sched, S.Next(sched, e))
  {
    match e
    case TickStep => S.TickFrame(sched); S.TickCalm(sched);
    case YieldStep => S.YieldFrame(sched); S.YieldCalm(sched);
    case BlockStep(st) => BlockKeeps(sched);
    case UnblockStep(t) =>
    case DownStep(m) => DownKeeps(sched, m);
    case UpStep(m) => UpKeeps(sched, m);
  }

  // ----- the system calls -----

  ghost predicate Rowless(table: P.Table, table': P.Table, t: nat) {
    table'.procs.Keys == table.procs.Keys - {t} && forall u :: u in table'.procs ==> table'.procs[u] == table.procs[u]
  }

  lemma SpawnLinked(sched: S.State, table: P.Table, table': P.Table, t: nat, priority: nat)
    requires Linked(sched, table) && t !in sched.threads && table'.procs.Keys == table.procs.Keys + {t}
    requires table'.procs[t].life == P.Alive && forall u :: u in table.procs ==> table'.procs[u] == table.procs[u]
    ensures Linked(S.Spawn(sched, t, priority), table')
  {
  }

  lemma GoneLinked(sched: S.State, sched': S.State, table: P.Table, table': P.Table, t: nat)
    requires Linked(sched, table) && t != sched.idle && sched'.idle == sched.idle
    requires sched'.threads.Keys == sched.threads.Keys - {t} && S.Calm(sched, sched', {t}) && Rowless(table, table', t)
    ensures Linked(sched', table')
  {
  }

  lemma LifeLinked(sched: S.State, sched': S.State, table: P.Table, t: nat, life: P.Life)
    requires Linked(sched, table) && t in table.procs && sched'.idle == sched.idle && sched'.threads.Keys == sched.threads.Keys
    requires S.Calm(sched, sched', {t}) && LifeOf(sched'.threads[t].status) == life
    ensures Linked(sched', P.SetLife(table, t, life))
  {
  }

  /** The lists after one pass of sys_wait: a hanging child is reaped, or the caller sleeps
      for one, or nothing happens. */
  ghost function WaitSched(s: Sys): S.State
    requires S.Inv(s.sched) && s.sched.cur in s.table.procs
  {
    match P.HangingChild(s.table, s.sched.cur)
    case Some(t) => S.Reap(s.sched, t)
    case None => if P.AnyChild(s.table, s.sched.cur).Some? then S.Block(s.sched, S.Waiting) else s.sched
  }

  lemma ReapWorks(sched: S.State, table: P.Table, table': P.Table, t: nat)
    requires S.Inv(sched) && Linked(sched, table) && t in table.procs && table.procs[t].life == P.Zombie && Rowless(table, table', t)
    ensures S.Inv(S.Reap(sched, t)) && Linked(S.Reap(sched, t), table')
  {
    assert sched.threads[t].status == S.Hanging;
    S.ReapInv(sched, t);
    GoneLinked(sched, S.Reap(sched, t), table, table', t);
  }

  lemma SleepWorks(sched: S.State, table: P.Table, st: S.Status)
    requires S.Inv(sched) && Linked(sched, table) && sched.threads[sched.cur].downOn == None && table.procs[sched.cur].user
    requires st == S.Waiting || st == S.Hanging
    ensures S.Inv(S.Block(sched, st)) && Linked(S.Block(sched, st), P.SetLife(table, sched.cur, LifeOf(st)))
  {
    S.BlockInv(sched, st);
    S.BlockFrame(sched, st);
    S.BlockCalm(sched, st);
    LifeLinked(sched, S.Block(sched, st), table, sched.cur, LifeOf(st));
  }

  lemma WakeWorks(sched: S.State, table: P.Table, t: nat)
    requires S.Inv(sched) && Linked(sched, table) && t in table.procs && table.procs[t].life == P.InWait
    ensures S.Inv(S.Wake(sched, t)) && Linked(S.Wake(sched, t), P.SetLife(table, t, P.Alive))
  {
    assert sched.threads[t].status == S.Waiting;
    assert S.ThreadOk(sched, sched.threads[t]);
    S.WakeInv(sched, t);
    LifeLinked(sched, S.Wake(sched, t), table, t, P.Alive);
  }

  lemma WaitWorks(s: Sys, table': P.Table)
    requires S.Inv(s.sched) && Linked(s.sched, s.table) && s.sched.threads[s.sched.cur].downOn == None && s.table.procs[s.sched.cur].user
    requires match P.HangingChild(s.table, s.sched.cur)
             case Some(t) => Rowless(s.table, table', t)
             case None => table' == if P.AnyChild(s.table, s.sched.cur).Some? then P.SetLife(s.table, s.sched.cur, P.InWait) else s.table
    ensures S.Inv(WaitSched(s)) && Linked(WaitSched(s), table')
  {
    match P.HangingChild(s.table, s.sched.cur)
    case Some(t) => ReapWorks(s.sched, s.table, table', t);
    case None => if P.AnyChild(s.table, s.sched.cur).Some? { SleepWorks(s.sched, s.table, S.Waiting); }
  }

  /** The lists after the second half of sys_exit. */
  ghost function ExitSched(s: Sys, parent: nat): S.State
    requires S.Inv(s.sched) && parent in s.sched.threads && parent != s.sched.cur
  {
    var sched := if s.sched.threads[parent].status == S.Waiting then S.Wake(s.sched, parent) else s.sched;
    S.Block(sched, S.Hanging)
  }

  lemma ExitWorks(s: Sys, parent: nat)
    requires S.Inv(s.sched) && Linked(s.sched, s.table) && s.sched.threads[s.sched.cur].downOn == None
    requires s.table.procs[s.sched.cur].user && parent in s.table.procs && parent != s.sched.cur
    ensures S.Inv(ExitSched(s, parent)) && Linked(ExitSched(s, parent), P.ExitFinish(s.table, s.sched.cur, parent))
  {
    if s.sched.threads[parent].status == S.Waiting {
      WakeWorks(s.sched, s.table, parent);
      SleepWorks(S.Wake(s.sched, parent), P.SetLife(s.table, parent, P.Alive), S.Hanging);
    } else {
      SleepWorks(s.sched, s.table, S.Hanging);
    }
  }

  /** sys_fork and thread_start put the new thread on the ready list; thread_exit(cur, true)
      takes a kernel thread off the processor. */
  lemma SpawnWorks(sched: S.State, table: P.Table, child: nat, parent: Option<nat>, user: bool, priority: nat)
    requires S.Inv(sched) && Linked(sched, table) && child !in table.procs && (parent.Some? ==> parent.value in table.procs)
    requires P.AddRow(table, child, parent, user).Done?
    ensures S.Inv(S.Spawn(sched, child, priority))
    ensures Linked(S.Spawn(sched, child, priority), P.AddRow(table, child, parent, user).value)
  {
    S.SpawnInv(sched, child, priority);
    SpawnLinked(sched, table, P.AddRow(table, child, parent, user).value, child, priority);
  }

  lemma ExitSelfKeeps(sched: S.State)
    requires S.Inv(sched) && sched.cur != sched.idle
    ensures S.ExitSelf(sched).idle == sched.idle && S.ExitSelf(sched).threads.Keys == sched.threads.Keys - {sched.cur}
    ensures S.Calm(sched, S.ExitSelf(sched), {sched.cur})
  {
    var s1 := sched.(threads := sched.threads - {sched.cur});
    S.PickNextFrame(s1);
    S.PickNextCalm(s1);
  }

  lemma EndWorks(sched: S.State, table: P.Table, table': P.Table)
    requires S.Inv(sched) && Linked(sched, table) && sched.cur != sched.idle && sched.threads[sched.cur].downOn == None
    requires Rowless(table, table', sched.cur)
    ensures S.Inv(S.ExitSelf(sched)) && Linked(S.ExitSelf(sched), table')
  {
    S.ExitSelfInv(sched);
    ExitSelfKeeps(sched);
    GoneLinked(sched, S.ExitSelf(sched), table, table', sched.cur);
  }

  lemma ExitStartLinked(sched: S.State, table: P.Table, status: int)
    requires Linked(sched, table) && sched.cur in table.procs && P.ExitStart(table, sched.cur, status).Done?
    ensures Linked(sched, P.ExitStart(table, sched.cur, status).value)
  {
  }

  // ----- steps of the whole system -----

  /** A system call can be made: the thread on the processor is outside sema_down and does
      what the table lets it do. */
  ghost predicate MayCall(s: Sys, call: P.Step)
    requires Inv(s)
  {
    s.sched.threads[s.sched.cur].downOn == None && P.Enabled(s.table, call)
  }

  ghost predicate ListMove(s: Sys, e: S.Step, s': Sys)
    requires Inv(s)
  {
    S.Enabled(s.sched, e) && Plain(s.sched, e) && s' == Sys(S.Next(s.sched, e), s.table)
  }

  lemma ListMoveInv(s: Sys, e: S.Step, s': Sys)
    requires Inv(s) && ListMove(s, e, s')
    ensures Inv(s')
  {
    PlainKeeps(s.sched, e);
    KeepsLinked(s.sched, s'.sched, s.table);
  }

  /** sys_fork and thread_start, unless the pid pool is empty and the machine stops. */
  ghost predicate SpawnMove(s: Sys, t: nat, parent: Option<nat>, priority: nat, s': Sys)
    requires Inv(s)
  {
    t !in s.table.procs &&
    (parent.Some? ==> parent == Some(s.sched.cur) && P.CanParent(s.table.procs[s.sched.cur])) &&
    P.AddRow(s.table, t, parent, parent.Some?) == Done(s'.table) && s'.sched == S.Spawn(s.sched, t, priority)
  }

  lemma SpawnMoveInv(s: Sys, t: nat, parent: Option<nat>, priority: nat, s': Sys)
    requires Inv(s) && SpawnMove(s, t, parent, priority, s')
    ensures Inv(s')
  {
    P.AddRowInv(s.table, t, parent, parent.Some?);
    SpawnWorks(s.sched, s.table, t, parent, parent.Some?, priority);
  }

  ghost predicate WaitMove(s: Sys, s': Sys)
    requires Inv(s)
  {
    MayCall(s, P.Wait(s.sched.cur)) && (P.WaitInv(s.table, s.sched.cur); s' == Sys(WaitSched(s), P.WaitPass(s.table, s.sched.cur)))
  }

  lemma WaitMoveInv(s: Sys, s': Sys)
    requires Inv(s) && WaitMove(s, s')
    ensures Inv(s')
  {
    P.WaitInv(s.table, s.sched.cur);
    WaitWorks(s, s'.table);
  }

  ghost predicate ExitMove(s: Sys, status: int, s': Sys)
    requires Inv(s)
  {
    MayCall(s, P.Exit(s.sched.cur, status)) && P.ExitStart(s.table, s.sched.cur, status) == Done(s'.table) && s'.sched == s.sched
  }

  lemma ExitMoveInv(s: Sys, status: int, s': Sys)
    requires Inv(s) && ExitMove(s, status, s')
    ensures Inv(s')
  {
    P.ExitStartInv(s.table, s.sched.cur, status);
    ExitStartLinked(s.sched, s.table, status);
  }

  /** The second half of sys_exit always finds its parent, and never itself. */
  lemma ExitParent(s: Sys)
    requires Inv(s) && s.table.procs[s.sched.cur].leaving
    ensures var parent := P.PidToThread(s.table, s.table.procs[s.sched.cur].ppid);
      && parent.Some? && parent.value != s.sched.cur && P.Names(s.table.procs, s.table.procs[s.sched.cur].ppid, parent.value)
      && s.table.procs[s.sched.cur].user
  {
    P.ParentFound(s.table, s.sched.cur);
    assert P.ProcOk(s.table.pidBits, s.table.nextBorn, s.table.exits, s.table.procs[s.sched.cur]);
  }

  ghost predicate HangMove(s: Sys, s': Sys)
    requires Inv(s)
  {
    MayCall(s, P.ExitRest(s.sched.cur)) &&
    (ExitParent(s);
     var parent := P.PidToThread(s.table, s.table.procs[s.sched.cur].ppid).value;
     s' == Sys(ExitSched(s, parent), P.ExitFinish(s.table, s.sched.cur, parent)))
  }

  lemma HangMoveInv(s: Sys, s': Sys)
    requires Inv(s) && HangMove(s, s')
    ensures Inv(s')
  {
    HangAllowed(s.table, s.sched.cur);
    ExitParent(s);
    var parent := P.PidToThread(s.table, s.table.procs[s.sched.cur].ppid).value;
    P.ExitFinishInv(s.table, s.sched.cur, parent);
    ExitWorks(s, parent);
  }

  lemma HangAllowed(table: P.Table, t: nat)
    requires P.Enabled(table, P.ExitRest(t))
    ensures t in table.procs && table.procs[t].leaving && table.procs[t].life == P.Alive
  {
  }

  ghost predicate EndMove(s: Sys, s': Sys)
    requires Inv(s)
  {
    MayCall(s, P.EndThread(s.sched.cur)) && s.sched.cur != s.sched.idle &&
    (P.DropKernelInv(s.table, s.sched.cur); s' == Sys(S.ExitSelf(s.sched), P.DropRow(s.table, s.sched.cur)))
  }

  lemma EndMoveInv(s: Sys, s': Sys)
    requires Inv(s) && EndMove(s, s')
    ensures Inv(s')
  {
    EndAllowed(s.table, s.sched.cur);
    P.DropKernelInv(s.table, s.sched.cur);
    DropIsRowless(s.table, s.sched.cur);
    EndWorks(s.sched, s.table, P.DropRow(s.table, s.sched.cur));
  }

  lemma EndAllowed(table: P.Table, t: nat)
    requires P.Enabled(table, P.EndThread(t))
    ensures t in table.procs && !table.procs[t].user
  {
  }

  lemma DropIsRowless(table: P.Table, t: nat)
    requires t in table.procs && 1 <= table.procs[t].pid <= |table.pidBits|
    ensures Rowless(table, P.DropRow(table, t), t)
  {
  }

  ghost predicate LeakMove(s: Sys, s': Sys)
    requires Inv(s)
  {
    P.LeakPid(s.table) == Done(s'.table) && s'.sched == s.sched
  }

  lemma LeakMoveInv(s: Sys, s': Sys)
    requires Inv(s) && LeakMove(s, s')
    ensures Inv(s')
  {
    P.LeakPidInv(s.table);
  }

  /** One step: a move between lists, or a call of the running thread that changes the table
      and the lists together. A call that fails an ASSERT or panics leads nowhere. */
  ghost predicate StepTo(s: Sys, step: Step, s': Sys)
    requires Inv(s)
  {
    match step
    case Sched(e) => ListMove(s, e, s')
    case Fork(child) => MayCall(s, P.Fork(s.sched.cur, child)) && SpawnMove(s, child, Some(s.sched.cur), s.sched.threads[s.sched.cur].priority, s')
    case ForkFails => MayCall(s, P.ForkFails(s.sched.cur)) && LeakMove(s, s')
    case Wait => WaitMove(s, s')
    case Exit(status) => ExitMove(s, status, s')
    case ExitRest => HangMove(s, s')
    case StartThread(t, priority) => SpawnMove(s, t, None, priority, s')
    case EndThread => EndMove(s, s')
  }

  lemma StepInv(s: Sys, step: Step, s': Sys)
    requires Inv(s) && StepTo(s, step, s')
    ensures Inv(s')
  {
    match step
    case Sched(e) => ListMoveInv(s, e, s');
    case Fork(child) => SpawnMoveInv(s, child, Some(s.sched.cur), s.sched.threads[s.sched.cur].priority, s');
    case StartThread(t, priority) => SpawnMoveInv(s, t, None, priority, s');
    case ForkFails => LeakMoveInv(s, s');
    case Wait => WaitMoveInv(s, s');
    case Exit(status) => ExitMoveInv(s, status, s');
    case ExitRest => HangMoveInv(s, s');
    case EndThread => EndMoveInv(s, s');
  }

  // ----- runs -----

  ghost predicate Boot(s: Sys) {
    S.Boot(s.sched) && P.Boot(s.table) && Linked(s.sched, s.table)
  }

  ghost predicate IsRun(trace: seq<Sys>, steps: seq<Step>) {
    |trace| == |steps| + 1 && Boot(trace[0]) &&
    forall i :: 0 <= i < |steps| ==> Inv(trace[i]) ==> StepTo(trace[i], steps[i], trace[i + 1])
  }

  lemma BootInv(s: Sys)
    requires Boot(s)
    ensures Inv(s)
  {
    S.RunInv([s.sched], [], 0);
    P.BootInv(s.table);
  }

  lemma {:induction false} RunInv(trace: seq<Sys>, steps: seq<Step>, i: nat)
    requires IsRun(trace, steps) && i < |trace|
    ensures Inv(trace[i])
  {
    if i == 0 {
      BootInv(trace[0]);
    } else {
      RunInv(trace, steps, i - 1);
      assert StepTo(trace[i - 1], steps[i - 1], trace[i - 1 + 1]);
      StepInv(trace[i - 1], steps[i - 1], trace[i]);
    }
  }

  /** In every run of timer ticks, semaphore operations, forks, waits and exits: a process
      other than init that is WAITING has no HANGING child, a parent pid names a thread that
      is not HANGING, and a HANGING thread is on no list and off the processor. */
  lemma WholeSystemSafe(trace: seq<Sys>, steps: seq<Step>, i: nat, t: nat, u: nat)
    requires IsRun(trace, steps) && i < |trace| && t in trace[i].table.procs && u in trace[i].table.procs
    ensures t in trace[i].sched.threads && u in trace[i].sched.threads
    ensures var s := trace[i];
      && (s.sched.threads[t].status == S.Waiting && s.table.procs[t].pid != P.INIT_PID && s.sched.threads[u].status == S.Hanging ==>
            s.table.procs[u].ppid != s.table.procs[t].pid)
      && (s.sched.threads[t].status == S.Hanging ==>
            t != s.sched.cur && t !in s.sched.ready && s.table.procs[u].ppid != s.table.procs[t].pid)
  {
    RunInv(trace, steps, i);
    Safe(trace[i], t, u);
  }

  lemma Safe(s: Sys, t: nat, u: nat)
    requires Inv(s) && t in s.table.procs && u in s.table.procs
    ensures s.sched.threads[t].status == S.Waiting && s.table.procs[t].pid != P.INIT_PID && s.sched.threads[u].status == S.Hanging ==>
              s.table.procs[u].ppid != s.table.procs[t].pid
    ensures s.sched.threads[t].status == S.Hanging ==>
              t != s.sched.cur && t !in s.sched.ready && s.table.procs[u].ppid != s.table.procs[t].pid
  {
    if s.sched.threads[t].status == S.Hanging {
      P.Childless(s.table, t);
    }
    if s.sched.threads[t].status == S.Waiting && s.table.procs[t].pid != P.INIT_PID && s.sched.threads[u].status == S.Hanging {
      assert P.Sleeps(s.table.procs[t]) && s.table.procs[u].life == P.Zombie;
    }
  }
}
