/** Producers and consumers on one queue of src/device/ioqueue.c, under every interleaving. The
    calls run with interrupts off, so that a thread is switched away only where it sleeps: in
    ioq_wait, or in sema_down inside lock_acquire. A step runs from one such point to the next. */
module IoProtocol {
  import opened Machine
  import opened IoQueue

  type Tid = nat

  datatype Op = Put(ch: char) | Get

  /** A thread outside the queue; asleep in lock_acquire, because its test failed while another
      thread had the lock; woken there by sema_up, and about to look at the semaphore again;
      asleep in ioq_wait with the lock; or woken there, with lock_release still to come. */
  datatype Phase = Outside | Locking(op: Op) | Relocking(op: Op) | Asleep(op: Op) | Woken(op: Op)

  /** `sleepers` are the waiters of the lock's semaphore; `put` and `taken` are all characters
      that ever went in and came out. */
  datatype Queue = Queue(contents: seq<char>, lock: Option<Tid>, sleepers: seq<Tid>, producer: Option<Tid>, consumer: Option<Tid>,
                         phases: map<Tid, Phase>, put: seq<char>, taken: seq<char>)

  /** A call of ioq_put_char or ioq_get_char; a thread woken in lock_acquire goes on; a thread
      woken in ioq_wait goes on. */
  datatype Step = Call(t: Tid, op: Op) | Lock(t: Tid) | Resume(t: Tid)

  function Start(ts: set<Tid>): Queue {
    Queue([], None, [], None, None, map t | t in ts :: Outside, [], [])
  }

  /** The test at the head of the loop lets the operation through. */
  predicate MayTry(q: Queue, op: Op) {
    if op.Put? then |q.contents| < CAPACITY else q.contents != []
  }

  function Waiter(q: Queue, op: Op): Option<Tid> {
    if op.Put? then q.producer else q.consumer
  }

  function WithWaiter(q: Queue, op: Op, w: Option<Tid>): Queue {
    if op.Put? then q.(producer := w) else q.(consumer := w)
  }

  function At(q: Queue, t: Tid, p: Phase): Queue {
    q.(phases := q.phases[t := p])
  }

  function Opposite(op: Op): Op {
    if op.Put? then Get else Put('x')
  }

  /** The character goes into or out of the ring */
  function Move(q: Queue, op: Op): Queue
    requires MayTry(q, op)
  {
    match op
    case Put(ch) => q.(contents := q.contents + [ch], put := q.put + [ch])
    case Get => q.(contents := q.contents[1..], taken := q.taken + [q.contents[0]])
  }

  /** wakeup of the other side's waiter */
  function WakeOther(q: Queue, op: Op): Queue {
    var w := Waiter(q, Opposite(op));
    if w.Some? && w.value in q.phases && q.phases[w.value].Asleep?
    then At(WithWaiter(q, Opposite(op), None), w.value, Woken(q.phases[w.value].op)) else q
  }

  /** lock_acquire with the lock free, and ioq_wait */
  function Sleep(q: Queue, t: Tid, op: Op): Queue {
    At(WithWaiter(q.(lock := Some(t)), op, Some(t)), t, Asleep(op))
  }

  /** From the test on: the operation, or to sleep in ioq_wait, or to sleep for the lock */
  function Attempt(q: Queue, t: Tid, op: Op): Queue {
    if MayTry(q, op) then WakeOther(At(Move(q, op), t, Outside), op)
    else if q.lock == None then Sleep(q, t, op)
    else At(q.(sleepers := q.sleepers + [t]), t, Locking(op))
  }

  /** lock_release: its sema_up wakes the first sleeper */
  function Unlock(q: Queue): Queue {
    var free := q.(lock := None);
    if q.sleepers != [] && q.sleepers[0] in q.phases && q.phases[q.sleepers[0]].Locking?
    then At(free.(sleepers := q.sleepers[1..]), q.sleepers[0], Relocking(q.phases[q.sleepers[0]].op)) else free
  }

  predicate Enabled(q: Queue, step: Step) {
    step.t in q.phases && match step
    case Call(t, _) => q.phases[t].Outside?
    case Lock(t) => q.phases[t].Relocking?
    case Resume(t) => q.phases[t].Woken?
  }

  function Next(q: Queue, step: Step): Queue
    requires Enabled(q, step)
  {
    match step
    case Call(t, op) => Attempt(q, t, op)
    case Lock(t) =>
      var op := q.phases[t].op;
      if q.lock == None then Sleep(q, t, op) else At(q.(sleepers := q.sleepers + [t]), t, Locking(op))
    case Resume(t) => Attempt(Unlock(q), t, q.phases[t].op)
  }

  // ----- what every run keeps -----

  /** Who sleeps in ioq_wait, or has just been woken there, has the lock. */
  ghost predicate LockOk(q: Queue) {
    && (forall t :: t in q.phases && (q.phases[t].Asleep? || q.phases[t].Woken?) ==> q.lock == Some(t))
    && (q.lock.Some? ==> q.lock.value in q.phases && (q.phases[q.lock.value].Asleep? || q.phases[q.lock.value].Woken?))
  }

  ghost predicate SleepersOk(q: Queue) {
    Distinct(q.sleepers) && forall t :: t in q.sleepers <==> t in q.phases && q.phases[t].Locking?
  }

  /** A recorded waiter is the one that sleeps, on its side. */
  ghost predicate WaiterOk(q: Queue, op: Op) {
    var w := Waiter(q, op);
    && (w.Some? ==> w.value in q.phases && q.phases[w.value].Asleep? && q.phases[w.value].op.Put? == op.Put?)
    && (forall t :: t in q.phases && q.phases[t].Asleep? && q.phases[t].op.Put? == op.Put? ==> w == Some(t))
  }

  predicate FifoOk(q: Queue) {
    q.put == q.taken + q.contents && |q.contents| <= CAPACITY
  }

  /** Who sleeps where */
  ghost predicate RolesOk(q: Queue) {
    LockOk(q) && SleepersOk(q) && WaiterOk(q, Put('x')) && WaiterOk(q, Get)
  }

  ghost predicate Inv(q: Queue) {
    RolesOk(q) && FifoOk(q)
  }

  lemma MoveFifo(q: Queue, op: Op)
    requires FifoOk(q) && MayTry(q, op)
    ensures FifoOk(Move(q, op))
  {
  }

  lemma QueueUp(q: Queue, t: Tid, op: Op)
    requires Inv(q) && t in q.phases && (q.phases[t].Outside? || q.phases[t].Relocking?)
    ensures Inv(At(q.(sleepers := q.sleepers + [t]), t, Locking(op)))
  {
    DistinctAppend(q.sleepers, t);
  }

  lemma SleepInv(q: Queue, t: Tid, op: Op)
    requires Inv(q) && t in q.phases && (q.phases[t].Outside? || q.phases[t].Relocking?) && q.lock == None
    ensures Inv(Sleep(q, t, op))
  {
  }

  lemma AttemptInv(q: Queue, t: Tid, op: Op)
    requires Inv(q) && t in q.phases && q.phases[t].Outside?
    ensures Inv(Attempt(q, t, op))
  {
    if MayTry(q, op) {
      MoveFifo(q, op);
    } else if q.lock == None {
      SleepInv(q, t, op);
    } else {
      QueueUp(q, t, op);
    }
  }

  /** The thread that releases the lock counts as outside until its test. */
  lemma UnlockInv(q: Queue, t: Tid)
    requires Inv(q) && t in q.phases && q.phases[t].Woken?
    ensures Inv(At(Unlock(q), t, Outside)) && t in Unlock(q).phases && Unlock(q).phases[t] == q.phases[t]
  {
    if q.sleepers != [] {
      DistinctPop(q.sleepers);
    }
  }

  /** Where the thread stood before makes no difference to the attempt. */
  lemma AttemptFrom(q: Queue, t: Tid, op: Op, p: Phase)
    requires t in q.phases && !(Waiter(q, Opposite(op)) == Some(t))
    ensures Attempt(At(q, t, p), t, op) == Attempt(q, t, op)
  {
    assert q.phases[t := p][t := Outside] == q.phases[t := Outside];
    assert q.phases[t := p][t := Asleep(op)] == q.phases[t := Asleep(op)];
    assert q.phases[t := p][t := Locking(op)] == q.phases[t := Locking(op)];
  }

  lemma ResumeInv(q: Queue, t: Tid)
    requires Inv(q) && t in q.phases && q.phases[t].Woken?
    ensures Inv(Next(q, Resume(t)))
  {
    UnlockInv(q, t);
    var op := q.phases[t].op;
    AttemptFrom(Unlock(q), t, op, Outside);
    AttemptInv(At(Unlock(q), t, Outside), t, op);
  }

  lemma StepInv(q: Queue, step: Step)
    requires Inv(q) && Enabled(q, step)
    ensures Inv(Next(q, step))
  {
    match step
    case Call(t, op) => AttemptInv(q, t, op);
    case Lock(t) => if q.lock == None { SleepInv(q, t, q.phases[t].op); } else { QueueUp(q, t, q.phases[t].op); }
    case Resume(t) => ResumeInv(q, t);
  }

  ghost predicate IsRun(qs: seq<Queue>, steps: seq<Step>) {
    |qs| == |steps| + 1 && forall i :: 0 <= i < |steps| ==> Enabled(qs[i], steps[i]) && qs[i + 1] == Next(qs[i], steps[i])
  }

  lemma {:induction false} RunInv(qs: seq<Queue>, steps: seq<Step>, k: nat, ts: set<Tid>)
    requires IsRun(qs, steps) && qs[0] == Start(ts) && k <= |steps|
    ensures Inv(qs[k])
  {
    if k > 0 {
      RunInv(qs, steps, k - 1, ts);
      StepInv(qs[k - 1], steps[k - 1]);
    }
  }

  /** In every run the characters taken are a prefix of those put, in order, and what is
      missing is what the ring holds. When the lock is free, or about to be released, no waiter
      is recorded, so that the ASSERT of ioq_wait holds, and a recorded waiter is asleep, so that the ASSERT
      of thread_unblock does. */
  lemma RunsAreSafe(qs: seq<Queue>, steps: seq<Step>, k: nat, ts: set<Tid>)
    requires IsRun(qs, steps) && qs[0] == Start(ts) && k <= |steps|
    ensures var q := qs[k];
      && q.taken <= q.put && q.put == q.taken + q.contents && |q.contents| <= CAPACITY
      && (q.lock == None || (exists t :: Enabled(q, Resume(t))) ==> q.producer == None && q.consumer == None)
      && (q.consumer.Some? ==> q.consumer.value in q.phases && q.phases[q.consumer.value] == Asleep(Get))
      && (q.producer.Some? ==> q.producer.value in q.phases && q.phases[q.producer.value].Asleep? && q.consumer == None)
  {
    RunInv(qs, steps, k, ts);
  }

  /** The lock's semaphore is a queue: its release wakes who waited longest, and who finds the lock
      taken waits behind all others. */
  lemma SleepersQueue(q: Queue, t: Tid, op: Op)
    requires Inv(q) && t in q.phases
    ensures q.sleepers != [] ==> Unlock(q).sleepers == q.sleepers[1..] && q.sleepers[0] in Unlock(q).phases && Unlock(q).phases[q.sleepers[0]].Relocking?
    ensures Unlock(q).lock == None && (q.sleepers == [] ==> Unlock(q).phases == q.phases)
    ensures !MayTry(q, op) && q.lock.Some? ==> Attempt(q, t, op).sleepers == q.sleepers + [t] && Attempt(q, t, op).lock == q.lock
    ensures !MayTry(q, op) && q.lock == None ==> Attempt(q, t, op).lock == Some(t) && Attempt(q, t, op).sleepers == q.sleepers
  {
  }

  // ----- sleeping although there is something to do -----

  /** A thread sleeps in ioq_wait although its test would now let it through. */
  ghost predicate Oversleeps(q: Queue) {
    exists t :: OversleepsAt(q, t)
  }

  predicate OversleepsAt(q: Queue, t: Tid) {
    t in q.phases && q.phases[t].Asleep? && MayTry(q, q.phases[t].op)
  }

  /** A thread that waited for the lock gets it, and goes to sleep without testing again. */
  predicate BlindLock(q: Queue, step: Step) {
    Enabled(q, step) && step.Lock? && q.lock == None && MayTry(q, q.phases[step.t].op)
  }

  lemma BlindLockOversleeps(q: Queue, step: Step)
    requires BlindLock(q, step)
    ensures Oversleeps(Next(q, step))
  {
    assert OversleepsAt(Next(q, step), step.t);
  }

  lemma AttemptAwake(q: Queue, t: Tid, op: Op)
    requires Inv(q) && !Oversleeps(q) && t in q.phases && q.phases[t].Outside?
    ensures !Oversleeps(Attempt(q, t, op))
  {
    var q' := Attempt(q, t, op);
    forall u ensures !OversleepsAt(q', u) {
      assert !OversleepsAt(q, u);
    }
  }

  lemma UnlockAwake(q: Queue, t: Tid)
    requires Inv(q) && !Oversleeps(q) && t in q.phases && q.phases[t].Woken?
    ensures !Oversleeps(At(Unlock(q), t, Outside))
  {
    forall u ensures !OversleepsAt(At(Unlock(q), t, Outside), u) {
      assert !OversleepsAt(q, u);
    }
  }

  /** No other step leads there. */
  lemma StepAwake(q: Queue, step: Step)
    requires Inv(q) && !Oversleeps(q) && Enabled(q, step) && !BlindLock(q, step)
    ensures !Oversleeps(Next(q, step))
  {
    match step
    case Call(t, op) => AttemptAwake(q, t, op);
    case Lock(t) =>
      forall u ensures !OversleepsAt(Next(q, step), u) {
        assert !OversleepsAt(q, u);
      }
    case Resume(t) =>
      var op := q.phases[t].op;
      UnlockInv(q, t);
      UnlockAwake(q, t);
      AttemptFrom(Unlock(q), t, op, Outside);
      AttemptAwake(At(Unlock(q), t, Outside), t, op);
  }

  ghost predicate SomeOversleeps(qs: seq<Queue>) {
    exists k :: 0 <= k < |qs| && Oversleeps(qs[k])
  }

  ghost predicate SomeBlindLock(qs: seq<Queue>, steps: seq<Step>) {
    exists k :: 0 <= k < |steps| && k < |qs| && BlindLock(qs[k], steps[k])
  }

  lemma {:induction false} AwakeUntil(qs: seq<Queue>, steps: seq<Step>, k: nat, ts: set<Tid>)
    requires IsRun(qs, steps) && qs[0] == Start(ts) && k <= |steps| && !SomeBlindLock(qs, steps)
    ensures !Oversleeps(qs[k])
  {
    if k > 0 {
      AwakeUntil(qs, steps, k - 1, ts);
      RunInv(qs, steps, k - 1, ts);
      assert !BlindLock(qs[k - 1], steps[k - 1]);
      StepAwake(qs[k - 1], steps[k - 1]);
    }
  }

  /** A thread ever sleeps although its test would let it through if and only if some thread
      that waited for the lock gets it at a moment when it could go on. */
  lemma OversleepsIff(qs: seq<Queue>, steps: seq<Step>, ts: set<Tid>)
    requires IsRun(qs, steps) && qs[0] == Start(ts)
    ensures SomeOversleeps(qs) <==> SomeBlindLock(qs, steps)
  {
    if SomeOversleeps(qs) {
      var k :| 0 <= k < |qs| && Oversleeps(qs[k]);
      if !SomeBlindLock(qs, steps) {
        AwakeUntil(qs, steps, k, ts);
      }
    }
    if SomeBlindLock(qs, steps) {
      var k :| 0 <= k < |steps| && BlindLock(qs[k], steps[k]);
      BlindLockOversleeps(qs[k], steps[k]);
      assert Oversleeps(qs[k + 1]);
    }
  }

  // ----- a way of use where it does not happen -----

  /** Thread `c` alone takes characters out, and the ring has not been full. */
  predicate OneConsumer(steps: seq<Step>, qs: seq<Queue>, c: Tid) {
    (forall i :: 0 <= i < |steps| && steps[i].Call? && steps[i].op.Get? ==> steps[i].t == c) &&
    (forall i :: 0 <= i < |steps| && steps[i].Call? && steps[i].op.Put? ==> steps[i].t != c) &&
    (forall i :: 0 <= i < |qs| ==> |qs[i].contents| < CAPACITY)
  }

  /** Everybody else is outside, and `c` never waits for the lock. */
  ghost predicate OnlyConsumerIn(q: Queue, c: Tid) {
    && (forall t :: t in q.phases && t != c ==> q.phases[t].Outside?)
    && (c in q.phases ==> q.phases[c].Outside? || q.phases[c] == Asleep(Get) || q.phases[c] == Woken(Get))
  }

  lemma OneConsumerStep(q: Queue, step: Step, c: Tid)
    requires Inv(q) && OnlyConsumerIn(q, c) && Enabled(q, step) && |q.contents| < CAPACITY
    requires step.Call? ==> (step.op.Get? <==> step.t == c)
    ensures OnlyConsumerIn(Next(q, step), c)
  {
  }

  lemma {:induction false} OneConsumerKept(qs: seq<Queue>, steps: seq<Step>, k: nat, ts: set<Tid>, c: Tid)
    requires IsRun(qs, steps) && qs[0] == Start(ts) && k <= |steps| && OneConsumer(steps, qs, c)
    ensures OnlyConsumerIn(qs[k], c)
  {
    if k > 0 {
      OneConsumerKept(qs, steps, k - 1, ts, c);
      RunInv(qs, steps, k - 1, ts);
      OneConsumerStep(qs[k - 1], steps[k - 1], c);
    }
  }

  /** With one consumer and a ring that never fills, nobody oversleeps. */
  lemma OneConsumerIsFine(qs: seq<Queue>, steps: seq<Step>, ts: set<Tid>, c: Tid)
    requires IsRun(qs, steps) && qs[0] == Start(ts) && OneConsumer(steps, qs, c)
    ensures !SomeOversleeps(qs)
  {
    if SomeBlindLock(qs, steps) {
      var k :| 0 <= k < |steps| && BlindLock(qs[k], steps[k]);
      OneConsumerKept(qs, steps, k, ts, c);
    }
    OversleepsIff(qs, steps, ts);
  }

  // ----- a run where it does -----

  lemma Extend(qs: seq<Queue>, steps: seq<Step>, step: Step, q: Queue) returns (qs': seq<Queue>, steps': seq<Step>)
    requires IsRun(qs, steps) && Enabled(qs[|steps|], step) && q == Next(qs[|steps|], step)
    ensures IsRun(qs', steps') && qs'[0] == qs[0] && |steps'| == |steps| + 1 && qs'[|steps'|] == q
  {
    qs', steps' := qs + [q], steps + [step];
    forall i | 0 <= i < |steps'| ensures Enabled(qs'[i], steps'[i]) && qs'[i + 1] == Next(qs'[i], steps'[i]) {
      assert i < |steps| ==> qs'[i] == qs[i] && qs'[i + 1] == qs[i + 1] && steps'[i] == steps[i];
    }
  }

  function Three(a: Phase, b: Phase, c: Phase): map<Tid, Phase> {
    map[1 := a, 2 := b, 3 := c]
  }

  /** One consumer asleep with the lock, a second one asleep for the lock */
  lemma TwoConsumers() returns (qs: seq<Queue>, steps: seq<Step>)
    ensures IsRun(qs, steps) && qs[0] == Start({1, 2, 3})
    ensures qs[|steps|] == Queue([], Some(1), [2], None, Some(1), Three(Asleep(Get), Locking(Get), Outside), [], [])
  {
    assert Start({1, 2, 3}).phases == Three(Outside, Outside, Outside);
    qs, steps := [Start({1, 2, 3})], [];
    qs, steps := Extend(qs, steps, Call(1, Get), Queue([], Some(1), [], None, Some(1), Three(Asleep(Get), Outside, Outside), [], []));
    qs, steps := Extend(qs, steps, Call(2, Get), Queue([], Some(1), [2], None, Some(1), Three(Asleep(Get), Locking(Get), Outside), [], []));
  }

  /** Two characters arrive, and the first consumer is woken */
  lemma TwoCharacters() returns (qs: seq<Queue>, steps: seq<Step>)
    ensures IsRun(qs, steps) && qs[0] == Start({1, 2, 3})
    ensures qs[|steps|] == Queue(['a', 'b'], Some(1), [2], None, None, Three(Woken(Get), Locking(Get), Outside), ['a', 'b'], [])
  {
    qs, steps := TwoConsumers();
    qs, steps := Extend(qs, steps, Call(3, Put('a')),
      Queue(['a'], Some(1), [2], None, None, Three(Woken(Get), Locking(Get), Outside), ['a'], []));
    qs, steps := Extend(qs, steps, Call(3, Put('b')),
      Queue(['a', 'b'], Some(1), [2], None, None, Three(Woken(Get), Locking(Get), Outside), ['a', 'b'], []));
  }

  /** It takes one and leaves, and the second consumer sleeps on above the other one while nobody
      else is at the queue. */
  lemma SleeperDespiteData() returns (qs: seq<Queue>, steps: seq<Step>)
    ensures IsRun(qs, steps) && qs[0] == Start({1, 2, 3}) && Oversleeps(qs[|steps|])
    ensures qs[|steps|].contents == ['b'] && qs[|steps|].phases == Three(Outside, Asleep(Get), Outside)
  {
    qs, steps := TwoCharacters();
    qs, steps := Extend(qs, steps, Resume(1),
      Queue(['b'], None, [], None, None, Three(Outside, Relocking(Get), Outside), ['a', 'b'], ['a']));
    qs, steps := Extend(qs, steps, Lock(2),
      Queue(['b'], Some(2), [], None, Some(2), Three(Outside, Asleep(Get), Outside), ['a', 'b'], ['a']));
    assert OversleepsAt(qs[|steps|], 2);
  }
}
