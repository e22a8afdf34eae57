/** lock_acquire and lock_release of src/kernel/sync.c. Neither turns interrupts off, so a
    thread may lose the processor between any two of their assignments: each assignment and
    each test is a transition of its own here, on top of the scheduler's transitions. */
module Locks {
  import opened Machine
  import opened Scheduler

  /** Where a thread stands in lock_acquire: at the holder test, at the nesting branch, in
      sema_down, and before the two assignments that follow it. */
  datatype AcquirePoint = AtTest | AtBump | AtDown | AtSetHolder | AtSetRepeat

  /** Where a thread stands in lock_release. */
  datatype ReleasePoint = AtCheck | AtClearHolder | AtClearRepeat | AtUp

  datatype Op = Outside | Acquire(l: SemId, acq: AcquirePoint) | Release(l: SemId, rel: ReleasePoint)

  /** `depth` counts, per lock, the calls of lock_acquire that returned and are not yet
      matched by a returned lock_release. */
  datatype Client = Client(op: Op, depth: map<SemId, nat>)

  /** holder and holder_repeat_nr; the semaphore of lock `l` is semaphore `l`. */
  datatype Lock = Lock(holder: Option<Tid>, repeat: nat)

  /** `owner` is a history variable: who took the semaphore of a lock and has not put it back. */
  datatype System = System(sched: State, locks: map<SemId, Lock>, clients: map<Tid, Client>, owner: map<SemId, Option<Tid>>)

  function Depth(c: Client, l: SemId): nat {
    if l in c.depth then c.depth[l] else 0
  }

  /** Between a successful sema_down on `l` and the matching sema_up. */
  predicate InRegion(c: Client, l: SemId) {
    Depth(c, l) >= 1 || c.op == Acquire(l, AtSetHolder) || c.op == Acquire(l, AtSetRepeat)
  }

  // ----- the invariant -----

  /** What the two fields of a lock hold while `t`, at program point `c`, owns it. */
  predicate FieldsOk(k: Lock, l: SemId, t: Tid, c: Client) {
    var d := Depth(c, l);
    if c.op == Acquire(l, AtSetHolder) then d == 0 && k == Lock(None, 0)
    else if c.op == Acquire(l, AtSetRepeat) then d == 0 && k == Lock(Some(t), 0)
    else if c.op == Release(l, AtClearHolder) then d == 1 && k == Lock(Some(t), 1)
    else if c.op == Release(l, AtClearRepeat) then d == 1 && k == Lock(None, 1)
    else if c.op == Release(l, AtUp) then d == 1 && k == Lock(None, 0)
    else d >= 1 && k == Lock(Some(t), d)
  }

  ghost predicate LockOk(s: System, l: SemId)
    requires l in s.locks && l in s.owner && l in s.sched.semas
  {
    (s.owner[l] == None <==> s.sched.semas[l].value == 1) &&
    (forall t :: t in s.clients && InRegion(s.clients[t], l) ==> s.owner[l] == Some(t)) &&
    (s.owner[l] == None ==> s.locks[l] == Lock(None, 0)) &&
    (s.owner[l].Some? ==>
      && s.owner[l].value in s.clients
      && FieldsOk(s.locks[l], l, s.owner[l].value, s.clients[s.owner[l].value]))
  }

  predicate ClientOk(locks: set<SemId>, c: Client, downOn: Option<SemId>) {
    match c.op
    case Outside => downOn.Some? ==> downOn.value !in locks
    case Acquire(l, AtDown) => l in locks && (downOn == None || downOn == Some(l)) && Depth(c, l) == 0
    case Acquire(l, AtBump) => l in locks && downOn == None && Depth(c, l) >= 1
    case Acquire(l, _) => l in locks && downOn == None
    case Release(l, _) => l in locks && downOn == None && Depth(c, l) >= 1
  }

  ghost predicate Shape(s: System) {
    s.locks.Keys == s.owner.Keys && s.locks.Keys <= s.sched.semas.Keys && s.clients.Keys == s.sched.threads.Keys &&
    s.sched.idle in s.clients && s.clients[s.sched.idle].op == Outside
  }

  ghost predicate LocksOk(s: System)
    requires Shape(s)
  {
    forall l :: l in s.locks ==> LockOk(s, l)
  }

  ghost predicate ClientsOk(s: System)
    requires Shape(s)
  {
    forall t :: t in s.clients ==> ClientOk(s.locks.Keys, s.clients[t], s.sched.threads[t].downOn)
  }

  /** The part of the invariant that is about locks. */
  ghost predicate Layer(s: System) {
    Shape(s) && LocksOk(s) && ClientsOk(s)
  }

  ghost predicate Inv(s: System) {
    Scheduler.Inv(s.sched) && Layer(s)
  }

  // ----- transitions -----

  datatype Step =
    | Env(step: Scheduler.Step)
    | StartAcquire(l: SemId)
    | StartRelease(l: SemId)
    | Advance

  ghost predicate HoldsNothing(s: System, t: Tid)
    requires t in s.clients
  {
    s.clients[t].op == Outside && forall l :: Depth(s.clients[t], l) == 0
  }

  /** The rest of the kernel: it touches no lock's semaphore directly, a thread inside a lock
      call does nothing else, and a thread that goes away holds no lock. The timer, and a
      wakeup or sema_up from an interrupt handler, may come at any point. */
  ghost predicate EnvEnabled(s: System, step: Scheduler.Step)
    requires Inv(s)
  {
    Scheduler.Enabled(s.sched, step) &&
    match step
    case TickStep => true
    case UnblockStep(_) => true
    case UpStep(m) => m !in s.locks
    case DownStep(m) => m !in s.locks && s.clients[s.sched.cur].op == Outside
    case ExitStep => HoldsNothing(s, s.sched.cur)
    case ReapStep(t) => s.clients[s.sched.cur].op == Outside && HoldsNothing(s, t)
    case _ => s.clients[s.sched.cur].op == Outside
  }

  ghost predicate Enabled(s: System, step: Step)
    requires Inv(s)
  {
    var me := s.clients[s.sched.cur];
    match step
    case Env(e) => EnvEnabled(s, e)
    case StartAcquire(l) => l in s.locks && me.op == Outside && s.sched.threads[s.sched.cur].downOn == None && s.sched.cur != s.sched.idle
    // the idle thread calls neither; the ASSERT at the head of lock_release is the caller's duty: it must hold the lock
    case StartRelease(l) => l in s.locks && me.op == Outside && s.sched.threads[s.sched.cur].downOn == None && s.sched.cur != s.sched.idle && Depth(me, l) >= 1
    case Advance => me.op != Outside
  }

  function Me(s: System, c: Client): System {
    s.(clients := s.clients[s.sched.cur := c])
  }

  ghost function EnvNext(s: System, step: Scheduler.Step): System
    requires Inv(s) && EnvEnabled(s, step)
  {
    var s1 := s.(sched := Scheduler.Next(s.sched, step));
    match step
    case SpawnStep(t, _) => s1.(clients := s.clients[t := Client(Outside, map[])])
    case ExitStep => s1.(clients := s.clients - {s.sched.cur})
    case ReapStep(t) => s1.(clients := s.clients - {t})
    case _ => s1
  }

  /** Each ASSERT of the two calls, at the statement where the running thread meets it. */
  ghost predicate AssertsHold(s: System)
    requires Inv(s)
  {
    match s.clients[s.sched.cur].op
    case Acquire(l, AtDown) => s.sched.cur !in s.sched.semas[l].waiters
    case Acquire(l, AtSetRepeat) => s.locks[l].repeat == 0
    case Release(l, AtCheck) => s.locks[l].holder == Some(s.sched.cur) && s.locks[l].repeat >= 1
    case Release(l, AtClearHolder) => s.locks[l].repeat == 1
    case Release(l, AtUp) => s.sched.semas[l].value == 0
    case _ => true
  }

  // ----- preservation -----

  /** `l` is untouched by a transition, and its owner keeps its place in the protocol. */
  lemma KeepsLock(s: System, s': System, l: SemId)
    requires l in s.locks && l in s.owner && l in s.sched.semas && LockOk(s, l)
    requires l in s'.locks && l in s'.owner && l in s'.sched.semas
    requires s'.locks[l] == s.locks[l] && s'.owner[l] == s.owner[l] && s'.sched.semas[l].value == s.sched.semas[l].value
    requires forall u :: u in s'.clients && InRegion(s'.clients[u], l) ==> u in s.clients && InRegion(s.clients[u], l)
    requires s.owner[l].Some? ==>
               && s.owner[l].value in s.clients
               && s.owner[l].value in s'.clients
               && SamePlace(s.clients[s.owner[l].value], s'.clients[s.owner[l].value], l)
    ensures LockOk(s', l)
  {
  }

  /** As far as the fields of lock `l` are concerned the two program points are the same. */
  predicate SamePlace(c: Client, c': Client, l: SemId) {
    Depth(c, l) == Depth(c', l) && (c.op == c'.op || (!Changes(c.op, l) && !Changes(c'.op, l)))
  }

  /** At the statements of lock `l` between which its fields change. */
  predicate Changes(op: Op, l: SemId) {
    op == Acquire(l, AtSetHolder) || op == Acquire(l, AtSetRepeat) ||
    op == Release(l, AtClearHolder) || op == Release(l, AtClearRepeat) || op == Release(l, AtUp)
  }

  /** Scheduler transitions that touch no lock's semaphore and no thread in a lock call. */
  lemma QuietLayer(s: System, sched': State, touched: set<SemId>, moved: set<Tid>)
    requires Layer(s) && Frame(s.sched, sched', touched, moved) && touched !! s.locks.Keys
    requires forall t :: t in moved && t in s.clients ==>
               s.clients[t].op == Outside && (sched'.threads[t].downOn.Some? ==> sched'.threads[t].downOn.value !in s.locks)
    ensures Layer(s.(sched := sched'))
  {
    var s' := s.(sched := sched');
    forall l | l in s'.locks ensures LockOk(s', l) {
      KeepsLock(s, s', l);
    }
  }

  lemma SpawnLayer(s: System, sched': State, t: Tid)
    requires Layer(s) && t !in s.clients && sched'.threads.Keys == s.sched.threads.Keys + {t}
    requires sched'.semas == s.sched.semas && sched'.idle == s.sched.idle && sched'.threads[t].downOn == None
    requires forall u :: u in s.sched.threads ==> sched'.threads[u] == s.sched.threads[u]
    ensures Layer(s.(sched := sched', clients := s.clients[t := Client(Outside, map[])]))
  {
    var s' := s.(sched := sched', clients := s.clients[t := Client(Outside, map[])]);
    forall l | l in s'.locks ensures LockOk(s', l) {
      KeepsLock(s, s', l);
    }
  }

  lemma GoneLayer(s: System, sched': State, t: Tid)
    requires Layer(s) && t in s.clients && t != s.sched.idle && HoldsNothing(s, t)
    requires sched'.threads.Keys == s.sched.threads.Keys - {t} && sched'.semas == s.sched.semas && sched'.idle == s.sched.idle
    requires forall u :: u in sched'.threads ==> sched'.threads[u].downOn == s.sched.threads[u].downOn
    ensures Layer(s.(sched := sched', clients := s.clients - {t}))
  {
    var s' := s.(sched := sched', clients := s.clients - {t});
    forall l | l in s'.locks ensures LockOk(s', l) {
      KeepsLock(s, s', l);
    }
  }

  lemma EnvQuiet(s: System, step: Scheduler.Step)
    requires Inv(s) && EnvEnabled(s, step) && (step.TickStep? || step.YieldStep? || step.BlockStep? || step.UnblockStep?)
    ensures Layer(EnvNext(s, step))
  {
    var sched := s.sched;
    match step {
      case TickStep => TickFrame(sched);
      case YieldStep => YieldFrame(sched);
      case BlockStep(st) => BlockFrame(sched, st);
      case UnblockStep(_) =>
    }
    QuietLayer(s, Scheduler.Next(sched, step), {}, {});
  }

  lemma EnvSema(s: System, step: Scheduler.Step)
    requires Inv(s) && EnvEnabled(s, step) && (step.DownStep? || step.UpStep?)
    ensures Layer(EnvNext(s, step))
  {
    var sched := s.sched;
    if step.DownStep? {
      DownFrame(sched, step.m);
      QuietLayer(s, Down(sched, step.m), {step.m}, {sched.cur});
    } else {
      assert SemaOk(sched, step.m);
      UpFrame(sched, step.m);
      QuietLayer(s, Up(sched, step.m), {step.m}, {});
    }
  }

  lemma EnvExit(s: System)
    requires Inv(s) && EnvEnabled(s, ExitStep)
    ensures Layer(EnvNext(s, ExitStep))
  {
    var s1 := s.sched.(threads := s.sched.threads - {s.sched.cur});
    assert ReadyKnown(s1);
    PickNextFrame(s1);
    assert PickNext(s1).semas == s1.semas;
    GoneLayer(s, PickNext(s1), s.sched.cur);
  }

  lemma EnvInv(s: System, step: Scheduler.Step)
    requires Inv(s) && EnvEnabled(s, step)
    ensures Inv(EnvNext(s, step))
  {
    match step
    case DownStep(_) => EnvSema(s, step);
    case UpStep(_) => EnvSema(s, step);
    case SpawnStep(t, _) => SpawnLayer(s, Scheduler.Next(s.sched, step), t);
    case ExitStep => EnvExit(s);
    case ReapStep(t) => GoneLayer(s, Scheduler.Next(s.sched, step), t);
    case _ => EnvQuiet(s, step);
  }

  /** Both program points are outside or in a call on `l`, and only the depth on `l` differs. */
  predicate LocalTo(c: Client, c': Client, l: SemId) {
    (c.op == Outside || c.op.l == l) && (c'.op == Outside || c'.op.l == l) &&
    (c'.depth == c.depth || c'.depth == c.depth[l := Depth(c', l)])
  }

  lemma LocalSamePlace(c: Client, c': Client, l: SemId, m: SemId)
    requires LocalTo(c, c', l) && m != l
    ensures SamePlace(c, c', m) && (InRegion(c, m) <==> InRegion(c', m))
  {
  }

  /** Any other lock, when thread `t` does a statement on `l`. */
  lemma OtherLock(s: System, s': System, l: SemId, t: Tid, c: Client, m: SemId)
    requires t in s.clients && s'.clients == s.clients[t := c] && LocalTo(s.clients[t], c, l)
    requires m != l && m in s.locks && m in s.owner && m in s.sched.semas && LockOk(s, m)
    requires m in s'.locks && m in s'.owner && m in s'.sched.semas
    requires s'.locks[m] == s.locks[m] && s'.owner[m] == s.owner[m] && s'.sched.semas[m].value == s.sched.semas[m].value
    ensures LockOk(s', m)
  {
    LocalSamePlace(s.clients[t], c, l, m);
    KeepsLock(s, s', m);
  }

  lemma LocalClients(s: System, s': System, l: SemId, t: Tid, c: Client)
    requires Layer(s) && Shape(s') && s'.locks.Keys == s.locks.Keys
    requires t in s.clients && s'.clients == s.clients[t := c] && Frame(s.sched, s'.sched, {l}, {t})
    requires ClientOk(s.locks.Keys, c, s'.sched.threads[t].downOn)
    ensures ClientsOk(s')
  {
    forall u | u in s'.clients
      ensures ClientOk(s'.locks.Keys, s'.clients[u], s'.sched.threads[u].downOn)
    {
      assert ClientOk(s.locks.Keys, s.clients[u], s.sched.threads[u].downOn);
    }
  }

  lemma LocalLocks(s: System, s': System, l: SemId, t: Tid, c: Client)
    requires Layer(s) && t in s.clients && t != s.sched.idle && l in s.locks
    requires s'.clients == s.clients[t := c] && LocalTo(s.clients[t], c, l) && Frame(s.sched, s'.sched, {l}, {t})
    requires l in s'.locks && s'.locks == s.locks[l := s'.locks[l]]
    requires l in s'.owner && s'.owner == s.owner[l := s'.owner[l]]
    requires Shape(s') && LockOk(s', l)
    ensures LocksOk(s')
  {
    forall m | m in s'.locks ensures LockOk(s', m) {
      if m != l { OtherLock(s, s', l, t, c, m); }
    }
  }

  lemma LocalShape(s: System, s': System, l: SemId, t: Tid, c: Client)
    requires Layer(s) && t in s.clients && t != s.sched.idle && l in s.locks
    requires s'.clients == s.clients[t := c] && LocalTo(s.clients[t], c, l) && Frame(s.sched, s'.sched, {l}, {t})
    requires l in s'.locks && s'.locks == s.locks[l := s'.locks[l]]
    requires l in s'.owner && s'.owner == s.owner[l := s'.owner[l]]
    ensures Shape(s') && s'.locks.Keys == s.locks.Keys
  {
    assert s'.locks.Keys == s.locks.Keys && s'.owner.Keys == s.owner.Keys;
  }

  /** Thread `t` does a statement on lock `l`: what is left to check is `l` and `t`. */
  lemma LocalLayer(s: System, s': System, l: SemId, t: Tid, c: Client)
    requires Layer(s) && t in s.clients && t != s.sched.idle && l in s.locks
    requires s'.clients == s.clients[t := c] && LocalTo(s.clients[t], c, l) && Frame(s.sched, s'.sched, {l}, {t})
    requires l in s'.locks && s'.locks == s.locks[l := s'.locks[l]]
    requires l in s'.owner && s'.owner == s.owner[l := s'.owner[l]]
    requires l in s'.sched.semas && LockOk(s', l) && t in s'.sched.threads && ClientOk(s.locks.Keys, c, s'.sched.threads[t].downOn)
    ensures Layer(s')
  {
    LocalShape(s, s', l, t, c);
    LocalLocks(s, s', l, t, c);
    LocalClients(s, s', l, t, c);
  }

  /** The owner of `l` executes a statement on the fields of `l`. */
  lemma FieldLock(s: System, s': System, l: SemId, t: Tid, c: Client, k: Lock)
    requires l in s.locks && l in s.owner && l in s.sched.semas && LockOk(s, l) && s.owner[l] == Some(t) && t in s.clients
    requires s' == s.(clients := s.clients[t := c], locks := s.locks[l := k]) && FieldsOk(k, l, t, c)
    ensures LockOk(s', l)
  {
  }

  lemma FieldLayer(s: System, l: SemId, t: Tid, c: Client, k: Lock)
    requires Layer(s) && t in s.clients && t != s.sched.idle && l in s.locks && s.owner[l] == Some(t)
    requires FieldsOk(k, l, t, c) && ClientOk(s.locks.Keys, c, s.sched.threads[t].downOn) && LocalTo(s.clients[t], c, l)
    ensures Layer(s.(clients := s.clients[t := c], locks := s.locks[l := k]))
  {
    var s' := s.(clients := s.clients[t := c], locks := s.locks[l := k]);
    FieldLock(s, s', l, t, c, k);
    assert s'.owner == s.owner[l := s.owner[l]];
    LocalLayer(s, s', l, t, c);
  }

  /** The semaphore of `l` changes hands: nobody's before and `t`'s after, or the reverse. */
  lemma OwnerLock(s: System, s': System, l: SemId, t: Tid, c: Client, o: Option<Tid>)
    requires l in s.locks && l in s.owner && l in s.sched.semas && LockOk(s, l) && t in s.clients && l in s'.sched.semas
    requires s' == s.(clients := s.clients[t := c], sched := s'.sched, owner := s.owner[l := o])
    requires s.locks[l] == Lock(None, 0)
    requires if o == None then s.owner[l] == Some(t) && s'.sched.semas[l].value == 1 && !InRegion(c, l)
             else o == Some(t) && s.owner[l] == None && s'.sched.semas[l].value == 0 && FieldsOk(Lock(None, 0), l, t, c)
    ensures LockOk(s', l)
  {
  }

  lemma OwnerLayer(s: System, sched': State, l: SemId, t: Tid, c: Client, o: Option<Tid>)
    requires Layer(s) && t in s.clients && t != s.sched.idle && l in s.locks
    requires Frame(s.sched, sched', {l}, {t})
    requires s.locks[l] == Lock(None, 0) && ClientOk(s.locks.Keys, c, sched'.threads[t].downOn) && LocalTo(s.clients[t], c, l)
    requires if o == None then s.owner[l] == Some(t) && sched'.semas[l].value == 1 && !InRegion(c, l)
             else o == Some(t) && s.owner[l] == None && sched'.semas[l].value == 0 && FieldsOk(Lock(None, 0), l, t, c)
    ensures Layer(s.(clients := s.clients[t := c], sched := sched', owner := s.owner[l := o]))
  {
    var s' := s.(clients := s.clients[t := c], sched := sched', owner := s.owner[l := o]);
    OwnerLock(s, s', l, t, c, o);
    assert s'.locks == s.locks[l := s.locks[l]];
    LocalLayer(s, s', l, t, c);
  }

  /** A thread moves to another program point without touching a field. */
  lemma PlaceLock(s: System, s': System, t: Tid, c: Client, l: SemId)
    requires t in s.clients && s' == s.(clients := s.clients[t := c]) && SamePlace(s.clients[t], c, l)
    requires l in s.locks && l in s.owner && l in s.sched.semas && LockOk(s, l)
    ensures LockOk(s', l)
  {
  }

  lemma PlaceLayer(s: System, t: Tid, c: Client, l: SemId)
    requires Layer(s) && t in s.clients && t != s.sched.idle && l in s.locks
    requires ClientOk(s.locks.Keys, c, s.sched.threads[t].downOn)
    requires LocalTo(s.clients[t], c, l) && SamePlace(s.clients[t], c, l)
    ensures Layer(s.(clients := s.clients[t := c]))
  {
    var s' := s.(clients := s.clients[t := c]);
    PlaceLock(s, s', t, c, l);
    assert s'.locks == s.locks[l := s.locks[l]] && s'.owner == s.owner[l := s.owner[l]];
    LocalLayer(s, s', l, t, c);
  }

  /** Changing only the current thread's program point, at the start of a call. */
  lemma StartLayer(s: System, t: Tid, op: Op)
    requires Layer(s) && t in s.clients && s.clients[t].op == Outside && s.sched.threads[t].downOn == None && t == s.sched.cur
    requires match op
             case Acquire(l, AtTest) => l in s.locks && t != s.sched.idle
             case Release(l, AtCheck) => l in s.locks && t != s.sched.idle && Depth(s.clients[t], l) >= 1
             case _ => false
    ensures Layer(Me(s, s.clients[t].(op := op)))
  {
    PlaceLayer(s, t, s.clients[t].(op := op), op.l);
  }

  /** sema_down goes to sleep. */
  lemma SleepLayer(s: System, sched': State, l: SemId, t: Tid)
    requires Layer(s) && t in s.clients && l in s.locks && s.clients[t].op == Acquire(l, AtDown)
    requires Frame(s.sched, sched', {l}, {t}) && sched'.semas[l].value == 0 == s.sched.semas[l].value
    requires sched'.threads[t].downOn == Some(l)
    ensures Layer(s.(sched := sched'))
  {
    var s' := s.(sched := sched');
    var c := s.clients[t];
    assert s.clients == s.clients[t := c] && s.locks == s.locks[l := s.locks[l]] && s.owner == s.owner[l := s.owner[l]];
    assert LockOk(s', l) by { assert LockOk(s, l); }
    LocalLayer(s, s', l, t, c);
  }

  lemma AcquireTest(s: System, l: SemId, t: Tid, at: AcquirePoint)
    requires Layer(s) && t in s.clients && t != s.sched.idle && s.clients[t].op == Acquire(l, AtTest)
    requires at == if s.locks[l].holder == Some(t) then AtBump else AtDown
    ensures Layer(s.(clients := s.clients[t := s.clients[t].(op := Acquire(l, at))]))
  {
    assert s.locks[l].holder == Some(t) <==> Depth(s.clients[t], l) >= 1 by { assert LockOk(s, l); }
    PlaceLayer(s, t, s.clients[t].(op := Acquire(l, at)), l);
  }

  lemma AcquireBump(s: System, l: SemId, t: Tid, d: nat)
    requires Layer(s) && t in s.clients && t != s.sched.idle && s.clients[t].op == Acquire(l, AtBump) && Depth(s.clients[t], l) == d
    ensures Layer(s.(clients := s.clients[t := Client(Outside, s.clients[t].depth[l := d + 1])],
                     locks := s.locks[l := s.locks[l].(repeat := s.locks[l].repeat + 1)]))
  {
    assert s.owner[l] == Some(t) && s.locks[l] == Lock(Some(t), d) by { assert LockOk(s, l); }
    assert s.locks[l].(repeat := s.locks[l].repeat + 1) == Lock(Some(t), d + 1);
    FieldLayer(s, l, t, Client(Outside, s.clients[t].depth[l := d + 1]), Lock(Some(t), d + 1));
  }

  lemma AcquireSetHolder(s: System, l: SemId, t: Tid)
    requires Layer(s) && t in s.clients && t != s.sched.idle && s.clients[t].op == Acquire(l, AtSetHolder)
    ensures Layer(s.(clients := s.clients[t := s.clients[t].(op := Acquire(l, AtSetRepeat))],
                     locks := s.locks[l := s.locks[l].(holder := Some(t))]))
  {
    assert s.owner[l] == Some(t) && s.locks[l] == Lock(None, 0) && Depth(s.clients[t], l) == 0 by { assert LockOk(s, l); }
    FieldLayer(s, l, t, s.clients[t].(op := Acquire(l, AtSetRepeat)), Lock(Some(t), 0));
  }

  lemma AcquireSetRepeat(s: System, l: SemId, t: Tid)
    requires Layer(s) && t in s.clients && t != s.sched.idle && s.clients[t].op == Acquire(l, AtSetRepeat)
    ensures Layer(s.(clients := s.clients[t := Client(Outside, s.clients[t].depth[l := 1])],
                     locks := s.locks[l := s.locks[l].(repeat := 1)]))
  {
    assert s.owner[l] == Some(t) && s.locks[l] == Lock(Some(t), 0) by { assert LockOk(s, l); }
    FieldLayer(s, l, t, Client(Outside, s.clients[t].depth[l := 1]), Lock(Some(t), 1));
  }

  /** sema_down in lock_acquire takes the semaphore. */
  lemma AcquireTake(s: System, sched': State, l: SemId, t: Tid)
    requires Layer(s) && t in s.clients && t != s.sched.idle && s.clients[t].op == Acquire(l, AtDown)
    requires Frame(s.sched, sched', {l}, {t}) && sched'.semas[l].value == 0 && s.sched.semas[l].value == 1
    requires sched'.threads[t].downOn == None
    ensures Layer(s.(sched := sched', clients := s.clients[t := s.clients[t].(op := Acquire(l, AtSetHolder))],
                     owner := s.owner[l := Some(t)]))
  {
    assert LockOk(s, l);
    OwnerLayer(s, sched', l, t, s.clients[t].(op := Acquire(l, AtSetHolder)), Some(t));
  }

  lemma ReleaseNested(s: System, l: SemId, t: Tid, d: nat)
    requires Layer(s) && t in s.clients && t != s.sched.idle && s.clients[t].op == Release(l, AtCheck)
    requires Depth(s.clients[t], l) == d && s.locks[l].repeat > 1
    ensures s.locks[l].repeat == d
    ensures Layer(s.(clients := s.clients[t := Client(Outside, s.clients[t].depth[l := d - 1])],
                     locks := s.locks[l := s.locks[l].(repeat := s.locks[l].repeat - 1)]))
  {
    assert s.owner[l] == Some(t) && s.locks[l] == Lock(Some(t), d) by { assert LockOk(s, l); }
    FieldLayer(s, l, t, Client(Outside, s.clients[t].depth[l := d - 1]), Lock(Some(t), d - 1));
  }

  lemma ReleaseLast(s: System, l: SemId, t: Tid)
    requires Layer(s) && t in s.clients && t != s.sched.idle && s.clients[t].op == Release(l, AtCheck) && s.locks[l].repeat <= 1
    ensures Layer(s.(clients := s.clients[t := s.clients[t].(op := Release(l, AtClearHolder))]))
  {
    var c := s.clients[t].(op := Release(l, AtClearHolder));
    assert s.owner[l] == Some(t) && s.locks[l] == Lock(Some(t), 1) && Depth(c, l) == 1 by { assert LockOk(s, l); }
    FieldLayer(s, l, t, c, s.locks[l]);
    assert s.locks == s.locks[l := s.locks[l]];
  }

  lemma ReleaseClearHolder(s: System, l: SemId, t: Tid)
    requires Layer(s) && t in s.clients && t != s.sched.idle && s.clients[t].op == Release(l, AtClearHolder)
    ensures Layer(s.(clients := s.clients[t := s.clients[t].(op := Release(l, AtClearRepeat))],
                     locks := s.locks[l := s.locks[l].(holder := None)]))
  {
    var c := s.clients[t].(op := Release(l, AtClearRepeat));
    assert s.owner[l] == Some(t) && s.locks[l] == Lock(Some(t), 1) && Depth(c, l) == 1 by { assert LockOk(s, l); }
    FieldLayer(s, l, t, c, Lock(None, 1));
  }

  lemma ReleaseClearRepeat(s: System, l: SemId, t: Tid)
    requires Layer(s) && t in s.clients && t != s.sched.idle && s.clients[t].op == Release(l, AtClearRepeat)
    ensures Layer(s.(clients := s.clients[t := s.clients[t].(op := Release(l, AtUp))],
                     locks := s.locks[l := s.locks[l].(repeat := 0)]))
  {
    var c := s.clients[t].(op := Release(l, AtUp));
    assert s.owner[l] == Some(t) && s.locks[l] == Lock(None, 1) && Depth(c, l) == 1 by { assert LockOk(s, l); }
    FieldLayer(s, l, t, c, Lock(None, 0));
  }

  /** sema_up in lock_release gives the semaphore back. */
  lemma ReleaseGive(s: System, sched': State, l: SemId, t: Tid)
    requires Layer(s) && t in s.clients && t != s.sched.idle && s.clients[t].op == Release(l, AtUp)
    requires Frame(s.sched, sched', {l}, {}) && sched'.semas[l].value == 1
    ensures Layer(s.(sched := sched', clients := s.clients[t := Client(Outside, s.clients[t].depth[l := 0])],
                     owner := s.owner[l := None]))
  {
    assert LockOk(s, l);
    OwnerLayer(s, sched', l, t, Client(Outside, s.clients[t].depth[l := 0]), None);
  }

  /** The test at the head of lock_acquire: a nested call, or one that goes on to sema_down. */
  ghost function AcquireHead(s: System, l: SemId, t: Tid): (s': System)
    requires Layer(s) && t in s.clients && t != s.sched.idle && s.clients[t].op == Acquire(l, AtTest)
    ensures Layer(s') && s'.sched == s.sched
  {
    var at := if s.locks[l].holder == Some(t) then AtBump else AtDown;
    AcquireTest(s, l, t, at);
    s.(clients := s.clients[t := s.clients[t].(op := Acquire(l, at))])
  }

  /** The rest of a nested call. */
  ghost function AcquireNested(s: System, l: SemId, t: Tid): (s': System)
    requires Layer(s) && t in s.clients && t != s.sched.idle && s.clients[t].op == Acquire(l, AtBump)
    ensures Layer(s') && s'.sched == s.sched
  {
    var d := Depth(s.clients[t], l);
    AcquireBump(s, l, t, d);
    s.(clients := s.clients[t := Client(Outside, s.clients[t].depth[l := d + 1])],
       locks := s.locks[l := s.locks[l].(repeat := s.locks[l].repeat + 1)])
  }

  /** The two assignments after sema_down. */
  ghost function AcquireTail(s: System, l: SemId, at: AcquirePoint, t: Tid): (s': System)
    requires Layer(s) && t in s.clients && t != s.sched.idle && s.clients[t].op == Acquire(l, at) && (at == AtSetHolder || at == AtSetRepeat)
    ensures Layer(s') && s'.sched == s.sched
  {
    var me := s.clients[t];
    var k := s.locks[l];
    if at == AtSetHolder then
      AcquireSetHolder(s, l, t);
      s.(clients := s.clients[t := me.(op := Acquire(l, AtSetRepeat))], locks := s.locks[l := k.(holder := Some(t))])
    else
      AcquireSetRepeat(s, l, t);
      s.(clients := s.clients[t := Client(Outside, me.depth[l := 1])], locks := s.locks[l := k.(repeat := 1)])
  }

  /** sema_down in lock_acquire. */
  ghost function AcquireDown(s: System, l: SemId): (s': System)
    requires Inv(s) && s.clients[s.sched.cur].op == Acquire(l, AtDown)
    ensures Inv(s')
  {
    var t := s.sched.cur;
    DownInv(s.sched, l);
    DownFrame(s.sched, l);
    assert SemaOk(s.sched, l);
    if s.sched.semas[l].value == 0 then
      SleepLayer(s, Down(s.sched, l), l, t);
      s.(sched := Down(s.sched, l))
    else
      AcquireTake(s, Down(s.sched, l), l, t);
      s.(sched := Down(s.sched, l), clients := s.clients[t := s.clients[t].(op := Acquire(l, AtSetHolder))],
         owner := s.owner[l := Some(t)])
  }

  /** The next statement of lock_release: a test or an assignment. */
  ghost function ReleaseText(s: System, l: SemId, at: ReleasePoint, t: Tid): (s': System)
    requires Layer(s) && t in s.clients && t != s.sched.idle && s.clients[t].op == Release(l, at) && at != AtUp
    ensures Layer(s') && s'.sched == s.sched
  {
    var me := s.clients[t];
    var k := s.locks[l];
    match at
    case AtCheck =>
      if k.repeat > 1 then
        ReleaseNested(s, l, t, Depth(me, l));
        s.(clients := s.clients[t := Client(Outside, me.depth[l := Depth(me, l) - 1])], locks := s.locks[l := k.(repeat := k.repeat - 1)])
      else
        ReleaseLast(s, l, t);
        s.(clients := s.clients[t := me.(op := Release(l, AtClearHolder))])
    case AtClearHolder =>
      ReleaseClearHolder(s, l, t);
      s.(clients := s.clients[t := me.(op := Release(l, AtClearRepeat))], locks := s.locks[l := k.(holder := None)])
    case AtClearRepeat =>
      ReleaseClearRepeat(s, l, t);
      s.(clients := s.clients[t := me.(op := Release(l, AtUp))], locks := s.locks[l := k.(repeat := 0)])
  }

  /** sema_up in lock_release. */
  ghost function ReleaseUp(s: System, l: SemId): (s': System)
    requires Inv(s) && s.clients[s.sched.cur].op == Release(l, AtUp)
    ensures Inv(s')
  {
    var t := s.sched.cur;
    assert SemaOk(s.sched, l);
    InsideCall(s, t, l);
    UpInv(s.sched, l);
    UpFrame(s.sched, l);
    ReleaseGive(s, Up(s.sched, l), l, t);
    s.(sched := Up(s.sched, l), clients := s.clients[t := Client(Outside, s.clients[t].depth[l := 0])], owner := s.owner[l := None])
  }

  ghost function Next(s: System, step: Step): (s': System)
    requires Inv(s) && Enabled(s, step)
    ensures Inv(s')
  {
    var t := s.sched.cur;
    match step
    case Env(e) => EnvInv(s, e); EnvNext(s, e)
    case StartAcquire(l) => StartLayer(s, t, Acquire(l, AtTest)); Me(s, s.clients[t].(op := Acquire(l, AtTest)))
    case StartRelease(l) => StartLayer(s, t, Release(l, AtCheck)); Me(s, s.clients[t].(op := Release(l, AtCheck)))
    case Advance =>
      match s.clients[t].op
      case Acquire(l, at) =>
        if at == AtDown then AcquireDown(s, l)
        else if at == AtTest then AcquireHead(s, l, t)
        else if at == AtBump then AcquireNested(s, l, t)
        else AcquireTail(s, l, at, t)
      case Release(l, at) => if at == AtUp then ReleaseUp(s, l) else ReleaseText(s, l, at, t)
  }

  // ----- runs -----

  /** lock_init on every lock of a freshly booted machine. */
  ghost predicate Boot(s: System) {
    Scheduler.Boot(s.sched) && Shape(s) &&
    (forall l :: l in s.locks ==> s.locks[l] == Lock(None, 0) && s.owner[l] == None && s.sched.semas[l].value == 1) &&
    (forall t :: t in s.clients ==> s.clients[t] == Client(Outside, map[]))
  }

  /** A booted machine, or a run and one step more */
  ghost predicate IsRun(trace: seq<System>, steps: seq<Step>) {
    |trace| == |steps| + 1 &&
    if steps == [] then Boot(trace[0])
    else
      var n := |steps| - 1;
      IsRun(trace[..n + 1], steps[..n]) && (Inv(trace[n]) ==> StepTo(trace[n], steps[n], trace[n + 1]))
  }

  ghost predicate StepTo(s: System, step: Step, s': System)
    requires Inv(s)
  {
    Enabled(s, step) && s' == Next(s, step)
  }

  lemma BootInv(s: System)
    requires Boot(s)
    ensures Inv(s)
  {
    Scheduler.RunInv([s.sched], [], 0);
    assert forall l :: l in s.locks ==> LockOk(s, l);
  }

  lemma StepInv(s: System, step: Step, s': System)
    requires Inv(s) && StepTo(s, step, s')
    ensures Inv(s')
  {
  }

  lemma {:induction false} LastInv(trace: seq<System>, steps: seq<Step>)
    requires IsRun(trace, steps)
    ensures Inv(trace[|steps|])
  {
    var n := |steps|;
    if n == 0 {
      BootInv(trace[0]);
    } else {
      LastInv(trace[..n], steps[..n - 1]);
      StepInv(trace[n - 1], steps[n - 1], trace[n]);
    }
  }

  lemma {:induction false} RunInv(trace: seq<System>, steps: seq<Step>, i: nat)
    requires IsRun(trace, steps) && i < |trace|
    ensures Inv(trace[i])
  {
    if i == |steps| {
      LastInv(trace, steps);
    } else {
      RunInv(trace[..|steps|], steps[..|steps| - 1], i);
    }
  }

  lemma Extend(trace: seq<System>, steps: seq<Step>, last: System, step: Step, s: System) returns (trace': seq<System>, steps': seq<Step>)
    requires IsRun(trace, steps) && last == trace[|steps|] && (Inv(last) ==> StepTo(last, step, s))
    ensures IsRun(trace', steps') && trace'[|steps'|] == s
  {
    trace', steps' := trace + [s], steps + [step];
    assert trace'[..|steps| + 1] == trace && steps'[..|steps|] == steps;
    assert trace'[|steps|] == last;
  }

  /** A machine with one lock, 7, and one thread besides the idle one: where that thread stands,
      and the value of the lock's semaphore */
  function Small(op: Op, value: nat, owner: Option<Tid>): System {
    var threads := map[0 := Thread(Running, 31, 31, None), 1 := Thread(Ready, 10, 10, None)];
    System(State(threads, [1], 0, 1, map[7 := Sema(value, [])]), map[7 := Lock(None, 0)],
           map[0 := Client(op, map[]), 1 := Client(Outside, map[])], map[7 := owner])
  }

  lemma SmallBoots()
    ensures Boot(Small(Outside, 1, None))
  {
    assert Small(Outside, 1, None).sched.ready[0] == 1;
  }

  lemma SmallStarts()
    ensures Inv(Small(Outside, 1, None)) ==> StepTo(Small(Outside, 1, None), StartAcquire(7), Small(Acquire(7, AtTest), 1, None))
  {
  }

  lemma SmallTests()
    ensures Inv(Small(Acquire(7, AtTest), 1, None)) ==> StepTo(Small(Acquire(7, AtTest), 1, None), Advance, Small(Acquire(7, AtDown), 1, None))
  {
  }

  lemma SmallTakes()
    ensures Inv(Small(Acquire(7, AtDown), 1, None)) ==> StepTo(Small(Acquire(7, AtDown), 1, None), Advance, Small(Acquire(7, AtSetHolder), 0, Some(0)))
  {
    if Inv(Small(Acquire(7, AtDown), 1, None)) {
      var sched := Small(Acquire(7, AtDown), 1, None).sched;
      assert Down(sched, 7) == Take(sched, 7);
      assert Take(sched, 7).threads == sched.threads;
    }
  }

  /** A run that brings a thread into the lock */
  lemma SomeRun() returns (trace: seq<System>, steps: seq<Step>)
    ensures IsRun(trace, steps) && var s := trace[|steps|]; 7 in s.locks && 0 in s.clients && InRegion(s.clients[0], 7)
  {
    SmallBoots();
    trace, steps := [Small(Outside, 1, None)], [];
    SmallStarts();
    trace, steps := Extend(trace, steps, Small(Outside, 1, None), StartAcquire(7), Small(Acquire(7, AtTest), 1, None));
    SmallTests();
    trace, steps := Extend(trace, steps, Small(Acquire(7, AtTest), 1, None), Advance, Small(Acquire(7, AtDown), 1, None));
    SmallTakes();
    trace, steps := Extend(trace, steps, Small(Acquire(7, AtDown), 1, None), Advance, Small(Acquire(7, AtSetHolder), 0, Some(0)));
  }

  /** Under every interleaving at most one thread is between its sema_down and its sema_up
      on a lock, a recorded holder is that thread, and the semaphore is down meanwhile. */
  lemma MutualExclusion(trace: seq<System>, steps: seq<Step>, i: nat, l: SemId, t: Tid, u: Tid)
    requires IsRun(trace, steps) && i < |trace|
    requires var s := trace[i]; l in s.locks && t in s.clients && u in s.clients && InRegion(s.clients[t], l)
    ensures InRegion(trace[i].clients[u], l) ==> t == u
    ensures trace[i].locks[l].holder == Some(u) ==> t == u
    ensures l in trace[i].sched.semas && trace[i].sched.semas[l].value == 0
  {
    RunInv(trace, steps, i);
    assert LockOk(trace[i], l) && SemaOk(trace[i].sched, l);
  }

  /** A thread outside the two calls is recorded as the holder exactly when it holds the
      lock, and then holder_repeat_nr is its nesting depth. */
  lemma RepeatIsDepth(trace: seq<System>, steps: seq<Step>, i: nat, l: SemId, t: Tid)
    requires IsRun(trace, steps) && i < |trace|
    requires l in trace[i].locks && t in trace[i].clients && trace[i].clients[t].op == Outside
    ensures trace[i].locks[l].holder == Some(t) <==> Depth(trace[i].clients[t], l) >= 1
    ensures trace[i].locks[l].holder == Some(t) ==> trace[i].locks[l].repeat == Depth(trace[i].clients[t], l)
  {
    RunInv(trace, steps, i);
    assert LockOk(trace[i], l);
  }

  /** A lock is free in all three of its fields exactly when nobody is inside. */
  lemma FreeMeansFree(trace: seq<System>, steps: seq<Step>, i: nat, l: SemId)
    requires IsRun(trace, steps) && i < |trace| && l in trace[i].locks && l in trace[i].sched.semas
    ensures trace[i].sched.semas[l].value <= 1
    ensures trace[i].sched.semas[l].value == 1 <==> forall t :: t in trace[i].clients ==> !InRegion(trace[i].clients[t], l)
    ensures trace[i].sched.semas[l].value == 1 ==> trace[i].locks[l] == Lock(None, 0)
  {
    RunInv(trace, steps, i);
    assert LockOk(trace[i], l) && SemaOk(trace[i].sched, l);
  }

  /** No ASSERT of lock_acquire, lock_release, or the semaphore calls inside them fails. */
  lemma AssertsNeverFail(trace: seq<System>, steps: seq<Step>, i: nat)
    requires IsRun(trace, steps) && i < |trace|
    ensures Inv(trace[i]) && AssertsHold(trace[i])
  {
    RunInv(trace, steps, i);
    AssertsHoldHere(trace[i]);
  }

  lemma AssertsHoldHere(s: System)
    requires Inv(s)
    ensures AssertsHold(s)
  {
    var t := s.sched.cur;
    match s.clients[t].op
    case Acquire(l, AtDown) => assert t !in s.sched.semas[l].waiters by { assert SemaOk(s.sched, l); }
    case Acquire(l, AtSetRepeat) => InsideCall(s, t, l);
    case Release(l, _) => InsideCall(s, t, l);
    case _ =>
  }

  /** A thread that is inside the lock and in a call on it meets the fields it expects. */
  lemma InsideCall(s: System, t: Tid, l: SemId)
    requires Layer(s) && t in s.clients && l in s.locks && InRegion(s.clients[t], l) && s.sched.semas[l].value <= 1
    ensures FieldsOk(s.locks[l], l, t, s.clients[t]) && s.sched.semas[l].value == 0
  {
    assert LockOk(s, l);
  }
}
