/** src/kernel/thread.c and the semaphores of src/kernel/sync.c, as transitions between
    states. A transition is the code between two points where interrupts are on, or the
    code up to a context switch; a context switch is a change of `cur`. */
module Scheduler {
  import opened Machine

  /** A PCB, by its address. */
  type Tid = nat
  type SemId = nat

  /** TASK_DIED has no value here: a thread that died has left every list. */
  datatype Status = Running | Ready | Blocked | Waiting | Hanging

  /** `downOn` is the thread's program point: Some(m) from the moment it went to sleep in
      sema_down(m) until that call has taken the semaphore. */
  datatype Thread = Thread(status: Status, priority: nat, ticks: nat, downOn: Option<SemId>)

  datatype Sema = Sema(value: nat, waiters: seq<Tid>)

  datatype State = State(threads: map<Tid, Thread>, ready: seq<Tid>, cur: Tid, idle: Tid, semas: map<SemId, Sema>)

  predicate Asleep(st: Status) {
    st == Blocked || st == Waiting || st == Hanging
  }

  // ----- transitions -----

  function SetStatus(s: State, t: Tid, st: Status): State
    requires t in s.threads
  {
    s.(threads := s.threads[t := s.threads[t].(status := st)])
  }

  /** thread_unblock */
  function Wake(s: State, t: Tid): State
    requires t in s.threads
  {
    SetStatus(s.(ready := [t] + s.ready), t, Ready)
  }

  ghost predicate ReadyKnown(s: State) {
    s.idle in s.threads && forall t :: t in s.ready ==> t in s.threads
  }

  /** The second half of schedule: take the head of the ready list, or idle. */
  ghost function PickNext(s: State): State
    requires ReadyKnown(s)
  {
    var s1 := if s.ready == [] then Wake(s, s.idle) else s;
    SetStatus(s1.(ready := s1.ready[1..], cur := s1.ready[0]), s1.ready[0], Running)
  }

  /** The first half of schedule: a thread that is still RUNNING goes to the tail. */
  function Preempt(s: State): State
    requires s.cur in s.threads
  {
    var th := s.threads[s.cur];
    if th.status == Running
    then s.(ready := s.ready + [s.cur],
            threads := s.threads[s.cur := th.(status := Ready, ticks := th.priority)])
    else s
  }

  ghost function Rescheduled(s: State): State
    requires s.cur in s.threads && ReadyKnown(s)
  {
    PickNext(Preempt(s))
  }

  /** intr_timer_handler */
  ghost function Tick(s: State): State
    requires s.cur in s.threads && ReadyKnown(s)
  {
    var th := s.threads[s.cur];
    if th.ticks == 0 then Rescheduled(s) else s.(threads := s.threads[s.cur := th.(ticks := th.ticks - 1)])
  }

  /** thread_yield, which keeps the remaining ticks */
  ghost function Yield(s: State): State
    requires s.cur in s.threads && ReadyKnown(s)
  {
    PickNext(SetStatus(s.(ready := s.ready + [s.cur]), s.cur, Ready))
  }

  /** thread_block */
  ghost function Block(s: State, st: Status): State
    requires s.cur in s.threads && ReadyKnown(s)
  {
    PickNext(SetStatus(s, s.cur, st))
  }

  /** The state in which sema_down calls thread_block. */
  function Enqueue(s: State, m: SemId): State
    requires s.cur in s.threads && m in s.semas
  {
    var q := s.semas[m];
    s.(semas := s.semas[m := q.(waiters := q.waiters + [s.cur])],
       threads := s.threads[s.cur := s.threads[s.cur].(downOn := Some(m))])
  }

  /** The state in which sema_down returns. */
  function Take(s: State, m: SemId): State
    requires s.cur in s.threads && m in s.semas
  {
    s.(semas := s.semas[m := s.semas[m].(value := 0)],
       threads := s.threads[s.cur := s.threads[s.cur].(downOn := None)])
  }

  /** One pass of sema_down: from a test of `value` to a sleep or to the return. */
  ghost function Down(s: State, m: SemId): State
    requires s.cur in s.threads && ReadyKnown(s) && m in s.semas
  {
    if s.semas[m].value == 0 then Block(Enqueue(s, m), Blocked) else Take(s, m)
  }

  /** sema_up */
  function Up(s: State, m: SemId): State
    requires m in s.semas && forall t :: t in s.semas[m].waiters ==> t in s.threads
  {
    var q := s.semas[m];
    if q.waiters == [] then s.(semas := s.semas[m := q.(value := q.value + 1)])
    else Wake(s.(semas := s.semas[m := Sema(q.value + 1, q.waiters[1..])]), q.waiters[0])
  }

  /** thread_start, and the end of sys_fork: a new thread at the tail of the ready list */
  function Spawn(s: State, t: Tid, priority: nat): State {
    s.(threads := s.threads[t := Thread(Ready, priority, priority, None)], ready := s.ready + [t])
  }

  /** thread_exit(cur, true) */
  ghost function ExitSelf(s: State): State
    requires ReadyKnown(s) && s.idle != s.cur && s.cur !in s.ready
  {
    PickNext(s.(threads := s.threads - {s.cur}))
  }

  /** thread_exit(t, false) */
  function Reap(s: State, t: Tid): State {
    s.(threads := s.threads - {t}, ready := Without(s.ready, t))
  }

  // ----- the invariant -----

  ghost predicate ReadyExact(s: State) {
    Distinct(s.ready) && forall t :: t in s.ready <==> t in s.threads && s.threads[t].status == Ready
  }

  /** A thread that will test `m` again: it is inside sema_down(m) and can run. */
  ghost predicate HasRetester(s: State, m: SemId) {
    exists t :: t in s.threads && Retests(s.threads[t], m)
  }

  predicate Retests(th: Thread, m: SemId) {
    th.downOn == Some(m) && (th.status == Ready || th.status == Running)
  }

  ghost predicate SemaOk(s: State, m: SemId)
    requires m in s.semas
  {
    var q := s.semas[m];
    q.value <= 1 && Distinct(q.waiters) &&
    (forall t :: t in q.waiters <==> t in s.threads && s.threads[t].status == Blocked && s.threads[t].downOn == Some(m)) &&
    (q.value == 1 && q.waiters != [] ==> HasRetester(s, m))
  }

  ghost predicate ThreadOk(s: State, th: Thread) {
    th.downOn.Some? ==> th.downOn.value in s.semas && th.status != Waiting && th.status != Hanging
  }

  ghost predicate IdleOk(s: State) {
    s.idle in s.threads && s.threads[s.idle].downOn == None &&
    s.threads[s.idle].status != Waiting && s.threads[s.idle].status != Hanging
  }

  /** Everything but who is on the processor. */
  ghost predicate Consistent(s: State) {
    ReadyExact(s) && IdleOk(s) &&
    (forall m :: m in s.semas ==> SemaOk(s, m)) &&
    (forall t :: t in s.threads ==> ThreadOk(s, s.threads[t]))
  }

  ghost predicate NoneRunning(s: State) {
    forall t :: t in s.threads ==> s.threads[t].status != Running
  }

  ghost predicate Inv(s: State) {
    Consistent(s) && s.cur in s.threads &&
    forall t :: t in s.threads ==> (s.threads[t].status == Running <==> t == s.cur)
  }

  // ----- every transition keeps the invariant -----

  lemma WakeConsistent(s: State, t: Tid)
    requires Consistent(s) && t in s.threads && Asleep(s.threads[t].status) && s.threads[t].downOn == None
    ensures Consistent(Wake(s, t))
  {
    var s' := Wake(s, t);
    DistinctPush(s.ready, t);
    forall m | m in s'.semas ensures SemaOk(s', m) {
      KeepsSema(s, s', m);
    }
  }

  /** A transition that leaves semaphore `m` and the threads inside sema_down(m) alone, up
      to a change among RUNNING and READY. */
  lemma KeepsSema(s: State, s': State, m: SemId)
    requires m in s.semas && m in s'.semas && s.semas[m] == s'.semas[m] && SemaOk(s, m)
    requires forall t :: t in s.threads && s.threads[t].downOn == Some(m) ==>
               t in s'.threads && s'.threads[t].downOn == Some(m) &&
               (s.threads[t].status == s'.threads[t].status || (Retests(s.threads[t], m) && Retests(s'.threads[t], m)))
    requires forall t :: t in s'.threads && s'.threads[t].downOn == Some(m) ==>
               t in s.threads && s.threads[t].downOn == Some(m)
    ensures SemaOk(s', m)
  {
    if s.semas[m].value == 1 && s.semas[m].waiters != [] {
      var t :| t in s.threads && Retests(s.threads[t], m);
      assert Retests(s'.threads[t], m);
    }
  }

  lemma DispatchInv(s: State)
    requires Consistent(s) && NoneRunning(s) && s.ready != []
    ensures Inv(PickNext(s))
  {
    DistinctPop(s.ready);
    var next := s.ready[0];
    assert s.threads[next].status == Ready;
    var s' := PickNext(s);
    forall m | m in s'.semas ensures SemaOk(s', m) {
      KeepsSema(s, s', m);
    }
  }

  lemma PickNextInv(s: State)
    requires Consistent(s) && NoneRunning(s)
    ensures Inv(PickNext(s))
    ensures PickNext(s).semas == s.semas && PickNext(s).idle == s.idle && PickNext(s).threads.Keys == s.threads.Keys
    ensures forall t :: t in s.threads ==> PickNext(s).threads[t].downOn == s.threads[t].downOn
    ensures forall t :: t in s.threads ==>
              (PickNext(s).threads[t].status == Waiting <==> s.threads[t].status == Waiting) &&
              (PickNext(s).threads[t].status == Hanging <==> s.threads[t].status == Hanging)
  {
    if s.ready == [] {
      assert s.idle !in s.ready;
      WakeConsistent(s, s.idle);
      DispatchInv(Wake(s, s.idle));
    } else {
      DispatchInv(s);
      assert s.threads[s.ready[0]].status == Ready;
    }
  }

  lemma ScheduleInv(s: State)
    requires Inv(s)
    ensures Inv(Rescheduled(s))
  {
    var s1 := Preempt(s);
    DistinctAppend(s.ready, s.cur);
    forall m | m in s1.semas ensures SemaOk(s1, m) {
      KeepsSema(s, s1, m);
    }
    PickNextInv(s1);
  }

  lemma TickInv(s: State)
    requires Inv(s)
    ensures Inv(Tick(s))
  {
    if s.threads[s.cur].ticks == 0 {
      ScheduleInv(s);
    } else {
      var s' := Tick(s);
      forall m | m in s'.semas ensures SemaOk(s', m) {
        KeepsSema(s, s', m);
      }
    }
  }

  lemma YieldInv(s: State)
    requires Inv(s)
    ensures Inv(Yield(s))
  {
    var s1 := SetStatus(s.(ready := s.ready + [s.cur]), s.cur, Ready);
    DistinctAppend(s.ready, s.cur);
    forall m | m in s1.semas ensures SemaOk(s1, m) {
      KeepsSema(s, s1, m);
    }
    PickNextInv(s1);
  }

  lemma BlockInv(s: State, st: Status)
    requires Inv(s) && Asleep(st) && s.threads[s.cur].downOn == None && (s.cur == s.idle ==> st == Blocked)
    ensures Inv(Block(s, st))
  {
    var s1 := SetStatus(s, s.cur, st);
    forall m | m in s1.semas ensures SemaOk(s1, m) {
      KeepsSema(s, s1, m);
    }
    PickNextInv(s1);
  }

  lemma WakeInv(s: State, t: Tid)
    requires Inv(s) && t in s.threads && Asleep(s.threads[t].status) && s.threads[t].downOn == None
    ensures Inv(Wake(s, t))
  {
    WakeConsistent(s, t);
  }

  lemma SleepInv(s: State, m: SemId)
    requires Inv(s) && m in s.semas && s.cur != s.idle && s.semas[m].value == 0
    requires s.threads[s.cur].downOn == None || s.threads[s.cur].downOn == Some(m)
    ensures Inv(Block(Enqueue(s, m), Blocked))
  {
    var s1 := SetStatus(Enqueue(s, m), s.cur, Blocked);
    DistinctAppend(s.semas[m].waiters, s.cur);
    forall k | k in s1.semas ensures SemaOk(s1, k) {
      if k != m {
        KeepsSema(s, s1, k);
      } else {
        assert s1.semas[m].waiters == s.semas[m].waiters + [s.cur];
      }
    }
    PickNextInv(s1);
  }

  lemma TakeInv(s: State, m: SemId)
    requires Inv(s) && m in s.semas
    requires s.threads[s.cur].downOn == None || s.threads[s.cur].downOn == Some(m)
    ensures Inv(Take(s, m))
  {
    var s' := Take(s, m);
    forall k | k in s'.semas ensures SemaOk(s', k) {
      if k != m { KeepsSema(s, s', k); }
    }
  }

  lemma DownInv(s: State, m: SemId)
    requires Inv(s) && m in s.semas && s.cur != s.idle
    requires s.threads[s.cur].downOn == None || s.threads[s.cur].downOn == Some(m)
    ensures Inv(Down(s, m))
  {
    if s.semas[m].value == 0 { SleepInv(s, m); } else { TakeInv(s, m); }
  }

  lemma UpInv(s: State, m: SemId)
    requires Inv(s) && m in s.semas && s.semas[m].value == 0
    ensures Inv(Up(s, m))
  {
    var s' := Up(s, m);
    var q := s.semas[m];
    if q.waiters != [] {
      var t := q.waiters[0];
      DistinctPop(q.waiters);
      DistinctPush(s.ready, t);
      assert Retests(s'.threads[t], m);
    }
    forall k | k in s'.semas ensures SemaOk(s', k) {
      if k != m { KeepsSema(s, s', k); }
    }
  }

  lemma SpawnInv(s: State, t: Tid, priority: nat)
    requires Inv(s) && t !in s.threads
    ensures Inv(Spawn(s, t, priority))
  {
    var s' := Spawn(s, t, priority);
    DistinctAppend(s.ready, t);
    forall m | m in s'.semas ensures SemaOk(s', m) {
      KeepsSema(s, s', m);
    }
  }

  lemma ExitSelfInv(s: State)
    requires Inv(s) && s.cur != s.idle && s.threads[s.cur].downOn == None
    ensures Inv(ExitSelf(s))
  {
    var s1 := s.(threads := s.threads - {s.cur});
    forall m | m in s1.semas ensures SemaOk(s1, m) {
      KeepsSema(s, s1, m);
    }
    PickNextInv(s1);
  }

  lemma ReapInv(s: State, t: Tid)
    requires Inv(s) && t in s.threads && t != s.cur && t != s.idle && s.threads[t].downOn == None
    ensures Inv(Reap(s, t))
  {
    var s' := Reap(s, t);
    DistinctWithout(s.ready, t);
    forall m | m in s'.semas ensures SemaOk(s', m) {
      KeepsSema(s, s', m);
    }
  }

  // ----- what transitions leave alone -----

  /** From `s` to `s'` no thread appears or goes, no semaphore outside `touched` changes
      value, and no thread outside `moved` enters or leaves sema_down. */
  ghost predicate Frame(s: State, s': State, touched: set<SemId>, moved: set<Tid>) {
    s'.idle == s.idle && s'.semas.Keys == s.semas.Keys && s'.threads.Keys == s.threads.Keys &&
    (forall m :: m in s.semas && m !in touched ==> s'.semas[m].value == s.semas[m].value) &&
    (forall t :: t in s.threads && t !in moved ==> s'.threads[t].downOn == s.threads[t].downOn)
  }

  lemma PickNextFrame(s: State)
    requires ReadyKnown(s)
    ensures Frame(s, PickNext(s), {}, {})
  {
  }

  lemma TickFrame(s: State)
    requires s.cur in s.threads && ReadyKnown(s)
    ensures Frame(s, Tick(s), {}, {})
  {
    if s.threads[s.cur].ticks == 0 {
      PickNextFrame(Preempt(s));
    }
  }

  lemma YieldFrame(s: State)
    requires s.cur in s.threads && ReadyKnown(s)
    ensures Frame(s, Yield(s), {}, {})
  {
    PickNextFrame(SetStatus(s.(ready := s.ready + [s.cur]), s.cur, Ready));
  }

  lemma BlockFrame(s: State, st: Status)
    requires s.cur in s.threads && ReadyKnown(s)
    ensures Frame(s, Block(s, st), {}, {})
  {
    PickNextFrame(SetStatus(s, s.cur, st));
  }

  lemma DownFrame(s: State, m: SemId)
    requires s.cur in s.threads && ReadyKnown(s) && m in s.semas
    ensures Frame(s, Down(s, m), {m}, {s.cur})
    ensures Down(s, m).semas[m].value == 0
    ensures Down(s, m).threads[s.cur].downOn == if s.semas[m].value == 0 then Some(m) else None
  {
    if s.semas[m].value == 0 {
      PickNextFrame(SetStatus(Enqueue(s, m), s.cur, Blocked));
    }
  }

  lemma UpFrame(s: State, m: SemId)
    requires m in s.semas && forall t :: t in s.semas[m].waiters ==> t in s.threads
    ensures Frame(s, Up(s, m), {m}, {})
    ensures Up(s, m).semas[m].value == s.semas[m].value + 1
  {
  }

  /** From `s` to `s'` no thread outside `but` enters or leaves WAITING or HANGING. */
  ghost predicate Calm(s: State, s': State, but: set<Tid>) {
    forall t :: t in s.threads && t in s'.threads && t !in but ==>
      (s'.threads[t].status == Waiting <==> s.threads[t].status == Waiting) &&
      (s'.threads[t].status == Hanging <==> s.threads[t].status == Hanging)
  }

  lemma PickNextCalm(s: State)
    requires ReadyExact(s) && IdleOk(s)
    ensures Calm(s, PickNext(s), {})
  {
    if s.ready != [] {
      assert s.ready[0] in s.ready;
    }
  }

  lemma TickCalm(s: State)
    requires Inv(s)
    ensures Calm(s, Tick(s), {})
  {
    if s.threads[s.cur].ticks == 0 {
      DistinctAppend(s.ready, s.cur);
      PickNextCalm(Preempt(s));
    }
  }

  lemma YieldCalm(s: State)
    requires Inv(s)
    ensures Calm(s, Yield(s), {})
  {
    DistinctAppend(s.ready, s.cur);
    PickNextCalm(SetStatus(s.(ready := s.ready + [s.cur]), s.cur, Ready));
  }

  lemma BlockCalm(s: State, st: Status)
    requires Inv(s) && Asleep(st) && (s.cur == s.idle ==> st == Blocked)
    ensures Calm(s, Block(s, st), {s.cur})
    ensures Block(s, st).threads[s.cur].status == st || (st == Blocked && s.cur == s.idle)
  {
    PickNextCalm(SetStatus(s, s.cur, st));
  }

  lemma DownCalm(s: State, m: SemId)
    requires Inv(s) && m in s.semas && s.cur != s.idle
    ensures Calm(s, Down(s, m), {})
  {
    if s.semas[m].value == 0 {
      PickNextCalm(SetStatus(Enqueue(s, m), s.cur, Blocked));
    }
  }

  // ----- runs -----

  datatype Step =
    | TickStep
    | YieldStep
    | BlockStep(stat: Status)
    | UnblockStep(t: Tid)
    | DownStep(m: SemId)
    | UpStep(m: SemId)
    | SpawnStep(t: Tid, priority: nat)
    | ExitStep
    | ReapStep(t: Tid)

  /** What the code around the scheduler may do next. The timer may strike whenever a thread
      runs. A thread inside sema_down does nothing but test again. thread_unblock is for a
      sleeper that is on no waiter list, sema_up for a semaphore that is down, and the idle
      thread only ever blocks. */
  ghost predicate Enabled(s: State, step: Step)
    requires Inv(s)
  {
    var free := s.threads[s.cur].downOn == None;
    match step
    case TickStep => true
    case YieldStep => free
    case BlockStep(st) => free && Asleep(st) && (s.cur == s.idle ==> st == Blocked)
    case UnblockStep(t) => t in s.threads && Asleep(s.threads[t].status) && s.threads[t].downOn == None
    case DownStep(m) => m in s.semas && s.cur != s.idle && (free || s.threads[s.cur].downOn == Some(m))
    case UpStep(m) => m in s.semas && s.semas[m].value == 0
    case SpawnStep(t, _) => free && t !in s.threads
    case ExitStep => free && s.cur != s.idle
    case ReapStep(t) => free && t in s.threads && t != s.cur && t != s.idle && s.threads[t].downOn == None
  }

  ghost function Next(s: State, step: Step): (s': State)
    requires Inv(s) && Enabled(s, step)
    ensures Inv(s')
  {
    match step
    case TickStep => TickInv(s); Tick(s)
    case YieldStep => YieldInv(s); Yield(s)
    case BlockStep(st) => BlockInv(s, st); Block(s, st)
    case UnblockStep(t) => WakeInv(s, t); Wake(s, t)
    case DownStep(m) => DownInv(s, m); Down(s, m)
    case UpStep(m) => UpInv(s, m); Up(s, m)
    case SpawnStep(t, priority) => SpawnInv(s, t, priority); Spawn(s, t, priority)
    case ExitStep => ExitSelfInv(s); ExitSelf(s)
    case ReapStep(t) => ReapInv(s, t); Reap(s, t)
  }

  /** thread_init: init and idle are ready, main runs, every semaphore is fresh. */
  ghost predicate Boot(s: State) {
    s.cur in s.threads && s.idle in s.threads && s.cur != s.idle &&
    Distinct(s.ready) && (forall t :: t in s.ready <==> t in s.threads && t != s.cur) &&
    (forall t :: t in s.threads ==>
      s.threads[t].downOn == None && s.threads[t].status == if t == s.cur then Running else Ready) &&
    (forall m :: m in s.semas ==> s.semas[m].value <= 1 && s.semas[m].waiters == [])
  }

  /** The states of a run are `trace`, its transitions `steps`. */
  ghost predicate IsRun(trace: seq<State>, steps: seq<Step>) {
    |trace| == |steps| + 1 && Boot(trace[0]) &&
    forall i :: 0 <= i < |steps| ==> Inv(trace[i]) ==> Enabled(trace[i], steps[i]) && trace[i + 1] == Next(trace[i], steps[i])
  }

  lemma {:induction false} RunInv(trace: seq<State>, steps: seq<Step>, i: nat)
    requires IsRun(trace, steps) && i < |trace|
    ensures Inv(trace[i])
  {
    if i > 0 {
      RunInv(trace, steps, i - 1);
      assert trace[i - 1 + 1] == Next(trace[i - 1], steps[i - 1]);
    } else {
      assert forall m :: m in trace[0].semas ==> SemaOk(trace[0], m);
    }
  }

  /** In every state of every run exactly one thread is RUNNING, the ready list names
      exactly the READY threads and each once, nobody is on two lists, and idle can be
      dispatched when nothing else can. */
  lemma RunsAreSafe(trace: seq<State>, steps: seq<Step>, i: nat)
    requires IsRun(trace, steps) && i < |trace|
    ensures var s := trace[i];
      && s.cur in s.threads && (forall t :: t in s.threads ==> (s.threads[t].status == Running <==> t == s.cur))
      && ReadyExact(s)
      && (forall m, t :: m in s.semas && t in s.semas[m].waiters ==> t !in s.ready && t != s.cur)
      && (forall m, k, t :: m in s.semas && k in s.semas && t in s.semas[m].waiters && t in s.semas[k].waiters ==> m == k)
      && s.idle in s.threads && (s.ready == [] && s.cur != s.idle ==> s.threads[s.idle].status == Blocked)
  {
    RunInv(trace, steps, i);
    var s := trace[i];
    forall m, t | m in s.semas && t in s.semas[m].waiters
      ensures t !in s.ready && t != s.cur && t in s.threads && s.threads[t].downOn == Some(m)
    {
      assert SemaOk(s, m);
    }
  }

  /** No wakeup is lost: while a semaphore is up and threads sleep on it, some thread that
      has already left the waiter list can run and will test it again. */
  lemma NoLostWakeup(trace: seq<State>, steps: seq<Step>, i: nat, m: SemId)
    requires IsRun(trace, steps) && i < |trace| && m in trace[i].semas
    requires trace[i].semas[m].value == 1 && trace[i].semas[m].waiters != []
    ensures exists t :: t in trace[i].threads && t !in trace[i].semas[m].waiters && trace[i].threads[t].downOn == Some(m)
                        && (t in trace[i].ready || t == trace[i].cur)
  {
    RunInv(trace, steps, i);
    assert SemaOk(trace[i], m);
    var t :| t in trace[i].threads && Retests(trace[i].threads[t], m);
    assert t !in trace[i].semas[m].waiters;
  }

  // ----- the code -----

  /** The global lists and the running thread, changed in place. Each `assert` on its own
      line is an ASSERT of the source. */
  class Kernel {
    var threads: map<Tid, Thread>
    var ready: seq<Tid>
    var cur: Tid
    var idle: Tid
    var semas: map<SemId, Sema>

    ghost function View(): State
      reads this
    {
      State(threads, ready, cur, idle, semas)
    }

    constructor (s: State)
      ensures View() == s
    {
      threads, ready, cur, idle, semas := s.threads, s.ready, s.cur, s.idle, s.semas;
    }

    /** schedule, called with the current thread RUNNING, gone to a list, or asleep */
    method Schedule()
      requires ReadyExact(View()) && IdleOk(View()) && cur in threads
      requires forall t :: t in threads && t != cur ==> threads[t].status != Running
      modifies this
      ensures View() == Rescheduled(old(View()))
    {
      if threads[cur].status == Running {
        assert cur !in ready;
        ready := ready + [cur];
        threads := threads[cur := threads[cur].(status := Ready, ticks := threads[cur].priority)];
      }
      if ready == [] {
        ThreadUnblock(idle);
      }
      assert ready != [];
      var next := ready[0];
      ready := ready[1..];
      threads := threads[next := threads[next].(status := Running)];
      cur := next;
    }

    method ThreadUnblock(t: Tid)
      requires t in threads && Asleep(threads[t].status) && t !in ready
      modifies this
      ensures View() == Wake(old(View()), t)
    {
      assert threads[t].status == Blocked || threads[t].status == Hanging || threads[t].status == Waiting;
      if threads[t].status != Ready {
        assert t !in ready;
        ready := [t] + ready;
        threads := threads[t := threads[t].(status := Ready)];
      }
    }

    method TimerTick()
      requires Inv(View())
      modifies this
      ensures View() == Tick(old(View())) && Inv(View())
    {
      TickInv(View());
      if threads[cur].ticks == 0 {
        Schedule();
      } else {
        threads := threads[cur := threads[cur].(ticks := threads[cur].ticks - 1)];
      }
    }

    method ThreadYield()
      requires Inv(View())
      modifies this
      ensures View() == Yield(old(View())) && Inv(View())
    {
      YieldInv(View());
      assert cur !in ready;
      DistinctAppend(ready, cur);
      ready := ready + [cur];
      threads := threads[cur := threads[cur].(status := Ready)];
      Schedule();
    }

    method ThreadBlock(stat: Status)
      requires ReadyExact(View()) && IdleOk(View()) && cur in threads && cur !in ready
      requires forall t :: t in threads && t != cur ==> threads[t].status != Running
      requires Asleep(stat) && (cur == idle ==> stat == Blocked)
      modifies this
      ensures View() == Block(old(View()), stat)
    {
      assert stat == Blocked || stat == Hanging || stat == Waiting;
      threads := threads[cur := threads[cur].(status := stat)];
      Schedule();
    }

    /** One pass of sema_down; `taken` says whether the call returned or went to sleep. */
    method SemaDown(m: SemId) returns (taken: bool)
      requires Inv(View()) && Enabled(View(), DownStep(m))
      modifies this
      ensures View() == Down(old(View()), m) && Inv(View())
      ensures taken == (old(semas[m].value) == 1)
    {
      DownInv(View(), m);
      taken := semas[m].value != 0;
      if !taken {
        assert cur !in semas[m].waiters;
        semas := semas[m := semas[m].(waiters := semas[m].waiters + [cur])];
        threads := threads[cur := threads[cur].(downOn := Some(m))];
        ThreadBlock(Blocked);
      } else {
        semas := semas[m := semas[m].(value := semas[m].value - 1)];
        assert semas[m].value == 0;
        threads := threads[cur := threads[cur].(downOn := None)];
      }
    }

    method SemaUp(m: SemId)
      requires Inv(View()) && Enabled(View(), UpStep(m))
      modifies this
      ensures View() == Up(old(View()), m) && Inv(View())
    {
      UpInv(View(), m);
      assert semas[m].value == 0;
      if semas[m].waiters != [] {
        var t := semas[m].waiters[0];
        semas := semas[m := semas[m].(waiters := semas[m].waiters[1..])];
        ThreadUnblock(t);
      }
      semas := semas[m := semas[m].(value := semas[m].value + 1)];
      assert semas[m].value == 1;
    }

    /** thread_exit */
    method ThreadExit(t: Tid, needSchedule: bool)
      requires Inv(View())
      requires if needSchedule then t == cur && Enabled(View(), ExitStep) else Enabled(View(), ReapStep(t))
      modifies this
      ensures View() == (if needSchedule then ExitSelf(old(View())) else Reap(old(View()), t)) && Inv(View())
    {
      if needSchedule { ExitSelfInv(View()); } else { ReapInv(View(), t); }
      if t in ready {
        ready := Without(ready, t);
      }
      WithoutAbsent(ready, t);
      threads := threads - {t};
      if needSchedule {
        // schedule finds the dead thread neither RUNNING nor on a list
        if ready == [] {
          ThreadUnblock(idle);
        }
        assert ready != [];
        cur := ready[0];
        ready := ready[1..];
        threads := threads[cur := threads[cur].(status := Running)];
      }
    }
  }

  lemma {:induction false} WithoutAbsent(s: seq<Tid>, t: Tid)
    requires t !in s
    ensures Without(s, t) == s
  {
    if s != [] {
      WithoutAbsent(s[1..], t);
      assert s == [s[0]] + s[1..];
    }
  }
}
