/** The order in which threads get the processor: src/kernel/thread.c and src/kernel/sync.c. The
    ready list is a queue, except that a woken thread goes to its head. */
module RoundRobin {
  import opened Machine
  import opened Scheduler

  // ----- what single steps do to the lists -----

  /** Nothing but the list, the running thread and these two threads' entries changed. */
  ghost predicate OnlyThese(s: State, s': State, a: Tid, b: Tid) {
    s'.semas == s.semas && s'.idle == s.idle && s'.threads.Keys == s.threads.Keys &&
    forall t :: t in s.threads && t != a && t != b ==> s'.threads[t] == s.threads[t]
  }

  /** A tick at the end of a time slice: the next thread runs, the old one goes to the tail with
      a new slice. */
  lemma TickRotates(s: State)
    requires Inv(s) && s.threads[s.cur].ticks == 0 && s.ready != []
    ensures var s' := Tick(s); var th, next := s.threads[s.cur], s.ready[0];
      && s'.cur == next && s'.ready == s.ready[1..] + [s.cur] && OnlyThese(s, s', s.cur, next) && next in s.threads && next != s.cur
      && s'.threads[s.cur] == th.(status := Ready, ticks := th.priority)
      && s'.threads[next] == s.threads[next].(status := Running)
  {
    assert s.ready[0] in s.ready;
  }

  /** With nobody else ready the same thread gets a new slice; in the middle of a slice it only
      loses a tick. */
  lemma TickStays(s: State)
    requires Inv(s) && (s.threads[s.cur].ticks > 0 || s.ready == [])
    ensures var s' := Tick(s); var th := s.threads[s.cur];
      && s'.cur == s.cur && s'.ready == s.ready && OnlyThese(s, s', s.cur, s.cur)
      && s'.threads[s.cur] == th.(ticks := if th.ticks > 0 then th.ticks - 1 else th.priority)
  {
    if s.threads[s.cur].ticks == 0 {
      assert Preempt(s).ready == [s.cur];
      assert Tick(s).ready == [];
    }
  }

  /** Yielding: as at the end of a slice, but the old slice goes on later. */
  lemma YieldRotates(s: State)
    requires Inv(s)
    ensures var s' := Yield(s); var all := s.ready + [s.cur];
      && s'.cur == all[0] && s'.ready == all[1..] && OnlyThese(s, s', s.cur, all[0]) && all[0] in s.threads
      && (s.ready != [] ==> s'.threads[s.cur] == s.threads[s.cur].(status := Ready))
      && s'.threads[all[0]] == s.threads[all[0]].(status := Running)
  {
    if s.ready != [] {
      assert s.ready[0] in s.ready;
    }
  }

  /** Blocking: the next ready thread runs, and idle when there is none. */
  lemma BlockDispatches(s: State, stat: Status)
    requires Inv(s) && Asleep(stat) && s.threads[s.cur].downOn == None && (s.cur == s.idle ==> stat == Blocked)
    ensures var s' := Block(s, stat);
      && (s.ready != [] ==> s'.cur == s.ready[0] && s'.ready == s.ready[1..] && OnlyThese(s, s', s.cur, s.ready[0]))
      && (s.ready != [] ==> s.cur in s'.threads && s'.threads[s.cur] == s.threads[s.cur].(status := stat))
      && (s.ready == [] ==> s'.cur == s.idle && s'.ready == [] && OnlyThese(s, s', s.cur, s.idle))
  {
    if s.ready != [] {
      assert s.ready[0] in s.ready;
    }
  }

  /** A woken thread comes first; nothing else changes. */
  lemma WakeFirst(s: State, t: Tid)
    requires t in s.threads
    ensures Wake(s, t) == s.(ready := [t] + s.ready, threads := s.threads[t := s.threads[t].(status := Ready)])
  {
  }

  /** sema_up wakes the thread that has waited longest, and sema_down waits behind all others. */
  lemma WaitersQueue(s: State, m: SemId)
    requires Inv(s) && m in s.semas
    ensures s.semas[m].value == 0 && s.semas[m].waiters != [] ==>
      && Up(s, m).ready == [s.semas[m].waiters[0]] + s.ready && Up(s, m).semas[m] == Sema(1, s.semas[m].waiters[1..])
      && Up(s, m).cur == s.cur
    ensures s.semas[m].value == 0 && s.semas[m].waiters == [] ==> Up(s, m).ready == s.ready && Up(s, m).semas[m] == Sema(1, []) && Up(s, m).cur == s.cur
    ensures s.semas[m].value == 0 ==> m in Down(s, m).semas && Down(s, m).semas[m] == Sema(0, s.semas[m].waiters + [s.cur])
    ensures s.semas[m].value == 1 ==> Down(s, m).semas[m] == Sema(0, s.semas[m].waiters) && Down(s, m).ready == s.ready && Down(s, m).cur == s.cur
  {
    assert SemaOk(s, m);
  }

  /** A new thread comes last; a thread that is reaped leaves its place to those behind it, and
      one that ends itself leaves the processor to the first. */
  lemma ComeAndGo(s: State, t: Tid, priority: nat)
    requires Inv(s)
    ensures Spawn(s, t, priority).ready == s.ready + [t] && Spawn(s, t, priority).cur == s.cur
    ensures Spawn(s, t, priority).threads == s.threads[t := Thread(Ready, priority, priority, None)]
    ensures Reap(s, t).ready == Without(s.ready, t) && Reap(s, t).cur == s.cur && Reap(s, t).threads == s.threads - {t}
    ensures s.cur != s.idle && s.ready != [] ==> ExitSelf(s).cur == s.ready[0] && ExitSelf(s).ready == s.ready[1..]
  {
  }

  // ----- places in the list -----

  function IndexOf(list: seq<Tid>, t: Tid): (k: nat)
    requires t in list
    ensures k < |list| && list[k] == t && forall j :: 0 <= j < k ==> list[j] != t
  {
    if list[0] == t then 0 else 1 + IndexOf(list[1..], t)
  }

  lemma IndexIs(list: seq<Tid>, t: Tid, k: nat)
    requires k < |list| && list[k] == t && forall j :: 0 <= j < k ==> list[j] != t
    ensures IndexOf(list, t) == k
  {
    var i := IndexOf(list, t);
    assert i <= k && k <= i;
  }

  lemma IndexAppend(list: seq<Tid>, u: Tid, t: Tid)
    requires t in list
    ensures IndexOf(list + [u], t) == IndexOf(list, t)
  {
    IndexIs(list + [u], t, IndexOf(list, t));
  }

  lemma IndexPush(list: seq<Tid>, u: Tid, t: Tid)
    requires t in list && u != t
    ensures IndexOf([u] + list, t) == IndexOf(list, t) + 1
  {
    IndexIs([u] + list, t, IndexOf(list, t) + 1);
  }

  lemma IndexPop(list: seq<Tid>, t: Tid)
    requires t in list && list[0] != t
    ensures t in list[1..] && IndexOf(list[1..], t) == IndexOf(list, t) - 1
  {
    var k := IndexOf(list, t);
    assert list[1..][k - 1] == t;
    IndexIs(list[1..], t, k - 1);
  }

  lemma {:induction false} IndexWithout(list: seq<Tid>, u: Tid, t: Tid)
    requires t in list && u != t
    ensures t in Without(list, u) && IndexOf(Without(list, u), t) <= IndexOf(list, t)
  {
    if list[0] != t {
      IndexPop(list, t);
      IndexWithout(list[1..], u, t);
      if list[0] != u {
        IndexPush(Without(list[1..], u), list[0], t);
      }
    } else {
      IndexIs(Without(list, u), t, 0);
    }
  }

  // ----- who waits for whom -----

  /** The step takes the processor from the running thread. */
  predicate Dispatches(s: State, step: Step) {
    match step
    case TickStep => s.cur in s.threads && s.threads[s.cur].ticks == 0
    case YieldStep => true
    case BlockStep(_) => true
    case DownStep(m) => m in s.semas && s.semas[m].value == 0
    case ExitStep => true
    case _ => false
  }

  /** The step puts a thread before all others. */
  predicate Wakes(s: State, step: Step) {
    match step
    case UnblockStep(_) => true
    case UpStep(m) => m in s.semas && s.semas[m].waiters != []
    case _ => false
  }

  /** A ready thread that stays ready moves up by one at every dispatch, back by one at every
      wakeup, and never otherwise back; if it is first, a dispatch brings it to the processor. */
  ghost predicate InOrder(s: State, step: Step, s': State, t: Tid)
    requires t in s.ready
  {
    if t in s'.ready then
      IndexOf(s'.ready, t) + (if Dispatches(s, step) then 1 else 0) <= IndexOf(s.ready, t) + (if Wakes(s, step) then 1 else 0)
    else s'.cur == t || step == ReapStep(t)
  }

  lemma TickInOrder(s: State, t: Tid)
    requires Inv(s) && t in s.ready
    ensures InOrder(s, TickStep, Tick(s), t)
  {
    if s.threads[s.cur].ticks == 0 {
      TickRotates(s);
      if t != s.ready[0] {
        IndexPop(s.ready, t);
        IndexAppend(s.ready[1..], s.cur, t);
      }
    } else {
      TickStays(s);
    }
  }

  lemma YieldInOrder(s: State, t: Tid)
    requires Inv(s) && t in s.ready
    ensures InOrder(s, YieldStep, Yield(s), t)
  {
    YieldRotates(s);
    assert (s.ready + [s.cur])[1..] == s.ready[1..] + [s.cur];
    if t != s.ready[0] {
      IndexPop(s.ready, t);
      IndexAppend(s.ready[1..], s.cur, t);
    }
  }

  /** The head of the list goes to the processor. */
  lemma HeadInOrder(s: State, step: Step, s': State, t: Tid)
    requires Distinct(s.ready) && t in s.ready && s'.cur == s.ready[0] && s'.ready == s.ready[1..]
    ensures InOrder(s, step, s', t)
  {
    DistinctPop(s.ready);
    if t != s.ready[0] {
      IndexPop(s.ready, t);
    }
  }

  lemma DownInOrder(s: State, m: SemId, t: Tid)
    requires Inv(s) && Enabled(s, DownStep(m)) && t in s.ready
    ensures InOrder(s, DownStep(m), Down(s, m), t)
  {
    WaitersQueue(s, m);
    assert SemaOk(s, m);
    if s.semas[m].value == 0 {
      HeadInOrder(s, DownStep(m), Down(s, m), t);
    }
  }

  lemma UpInOrder(s: State, m: SemId, t: Tid)
    requires Inv(s) && Enabled(s, UpStep(m)) && t in s.ready
    ensures InOrder(s, UpStep(m), Up(s, m), t)
  {
    WaitersQueue(s, m);
    if s.semas[m].waiters != [] {
      assert SemaOk(s, m) && s.semas[m].waiters[0] in s.semas[m].waiters;
      IndexPush(s.ready, s.semas[m].waiters[0], t);
    }
  }

  lemma StepInOrder(s: State, step: Step, t: Tid)
    requires Inv(s) && Enabled(s, step) && t in s.ready
    ensures InOrder(s, step, Next(s, step), t)
  {
    match step
    case TickStep => TickInOrder(s, t);
    case YieldStep => YieldInOrder(s, t);
    case BlockStep(st) => BlockDispatches(s, st); HeadInOrder(s, step, Block(s, st), t);
    case UnblockStep(u) => IndexPush(s.ready, u, t);
    case DownStep(m) => DownInOrder(s, m, t);
    case UpStep(m) => UpInOrder(s, m, t);
    case SpawnStep(u, priority) => IndexAppend(s.ready, u, t);
    case ExitStep => ComeAndGo(s, t, 0); HeadInOrder(s, step, ExitSelf(s), t);
    case ReapStep(u) => if u != t { IndexWithout(s.ready, u, t); }
  }

  // ----- runs -----

  /** Dispatches and wakeups in the steps from `i` to `j` */
  function DispatchCount(trace: seq<State>, steps: seq<Step>, i: nat, j: nat): nat
    requires i <= j <= |steps| < |trace|
  {
    if i == j then 0 else DispatchCount(trace, steps, i, j - 1) + if Dispatches(trace[j - 1], steps[j - 1]) then 1 else 0
  }

  function WakeCount(trace: seq<State>, steps: seq<Step>, i: nat, j: nat): nat
    requires i <= j <= |steps| < |trace|
  {
    if i == j then 0 else WakeCount(trace, steps, i, j - 1) + if Wakes(trace[j - 1], steps[j - 1]) then 1 else 0
  }

  /** Step `n` brought thread `t` to the processor, or reaped it. */
  predicate ServedAt(trace: seq<State>, steps: seq<Step>, n: nat, t: Tid) {
    n < |steps| && n + 1 < |trace| && (trace[n + 1].cur == t || steps[n] == ReapStep(t))
  }

  ghost predicate Served(trace: seq<State>, steps: seq<Step>, i: nat, j: nat, t: Tid) {
    exists n: nat :: i <= n < j && ServedAt(trace, steps, n, t)
  }

  lemma RunStepInOrder(trace: seq<State>, steps: seq<Step>, j: nat, t: Tid)
    requires IsRun(trace, steps) && j < |steps| && t in trace[j].ready
    ensures InOrder(trace[j], steps[j], trace[j + 1], t)
  {
    RunInv(trace, steps, j);
    var s, step, s' := trace[j], steps[j], trace[j + 1];
    assert Enabled(s, step);
    assert s' == Next(s, step);
    StepInOrder(s, step, t);
  }

  lemma {:induction false} PlaceInRun(trace: seq<State>, steps: seq<Step>, i: nat, j: nat, t: Tid)
    requires IsRun(trace, steps) && i <= j <= |steps| && t in trace[i].ready && forall n: nat :: i <= n < j ==> !ServedAt(trace, steps, n, t)
    ensures t in trace[j].ready
    ensures IndexOf(trace[j].ready, t) + DispatchCount(trace, steps, i, j) <= IndexOf(trace[i].ready, t) + WakeCount(trace, steps, i, j)
  {
    if i < j {
      PlaceInRun(trace, steps, i, j - 1, t);
      RunStepInOrder(trace, steps, j - 1, t);
      assert !ServedAt(trace, steps, j - 1, t);
    }
  }

  /** In every run, a thread at place k of the ready list gets the processor after at most k + 1
      dispatches, and one more for each wakeup that comes in between. */
  lemma ServedInRun(trace: seq<State>, steps: seq<Step>, i: nat, j: nat, t: Tid)
    requires IsRun(trace, steps) && i <= j <= |steps| && t in trace[i].ready
    requires DispatchCount(trace, steps, i, j) > IndexOf(trace[i].ready, t) + WakeCount(trace, steps, i, j)
    ensures Served(trace, steps, i, j, t)
  {
    if !Served(trace, steps, i, j, t) {
      PlaceInRun(trace, steps, i, j, t);
    }
  }

  lemma {:induction false} NoWakes(trace: seq<State>, steps: seq<Step>, i: nat, j: nat)
    requires i <= j <= |steps| < |trace| && forall n :: i <= n < j ==> steps[n].TickStep? || steps[n].YieldStep?
    ensures WakeCount(trace, steps, i, j) == 0
  {
    if i < j {
      NoWakes(trace, steps, i, j - 1);
    }
  }

  /** Among threads that only use up their slices and yield, the one at place k runs after at most
      k + 1 of them. */
  lemma RoundRobinTurns(trace: seq<State>, steps: seq<Step>, i: nat, j: nat, t: Tid)
    requires IsRun(trace, steps) && i <= j <= |steps| && t in trace[i].ready
    requires forall n :: i <= n < j ==> steps[n].TickStep? || steps[n].YieldStep?
    requires DispatchCount(trace, steps, i, j) >= IndexOf(trace[i].ready, t) + 1
    ensures exists n :: i < n <= j && trace[n].cur == t
  {
    NoWakes(trace, steps, i, j);
    ServedInRun(trace, steps, i, j, t);
    var n: nat :| i <= n < j && ServedAt(trace, steps, n, t);
    assert steps[n] != ReapStep(t) && trace[n + 1].cur == t;
  }
}
