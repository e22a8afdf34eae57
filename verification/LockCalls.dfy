/** What the statements of lock_acquire and lock_release (src/kernel/sync.c:56-78) do to the
    calling thread: a call that comes back has changed its nesting depth by exactly one. */
module LockCalls {
  import opened Machine
  import opened Scheduler
  import L = Locks

  /** The call on lock `l` came back, with the depth in that lock changed by one. */
  predicate CameBack(c: L.Client, c': L.Client) {
    c'.op == L.Outside &&
    match c.op
    case Acquire(k, _) => c'.depth == c.depth[k := L.Depth(c, k) + 1]
    case Release(k, _) => L.Depth(c, k) >= 1 && c'.depth == c.depth[k := L.Depth(c, k) - 1]
    case Outside => false
  }

  /** The call goes on at another place. */
  predicate GoesOn(c: L.Client, c': L.Client, op: L.Op) {
    op != L.Outside && c' == c.(op := op)
  }

  /** Only the running thread moved. */
  predicate OnlyMoves(s: L.System, s': L.System, t: Tid) {
    t in s.clients && t in s'.clients && s'.clients == s.clients[t := s'.clients[t]]
  }

  lemma AcquireTested(s: L.System, l: SemId, t: Tid)
    requires L.Layer(s) && t in s.clients && t != s.sched.idle && s.clients[t].op == L.Acquire(l, L.AtTest)
    ensures var s' := L.AcquireHead(s, l, t);
      && OnlyMoves(s, s', t)
      && GoesOn(s.clients[t], s'.clients[t], if L.Depth(s.clients[t], l) >= 1 then L.Acquire(l, L.AtBump) else L.Acquire(l, L.AtDown))
  {
    assert L.LockOk(s, l);
  }

  /** A nested acquisition comes back at once. */
  lemma AcquireNestedReturns(s: L.System, l: SemId, t: Tid)
    requires L.Layer(s) && t in s.clients && t != s.sched.idle && s.clients[t].op == L.Acquire(l, L.AtBump)
    ensures var s' := L.AcquireNested(s, l, t); OnlyMoves(s, s', t) && CameBack(s.clients[t], s'.clients[t])
  {
  }

  /** A first acquisition comes back after its last assignment. */
  lemma AcquireReturns(s: L.System, l: SemId, t: Tid)
    requires L.Layer(s) && t in s.clients && t != s.sched.idle && s.clients[t].op == L.Acquire(l, L.AtSetRepeat)
    ensures var s' := L.AcquireTail(s, l, L.AtSetRepeat, t); OnlyMoves(s, s', t) && CameBack(s.clients[t], s'.clients[t])
  {
    assert L.ClientOk(s.locks.Keys, s.clients[t], s.sched.threads[t].downOn);
    assert L.LockOk(s, l) && L.InRegion(s.clients[t], l);
  }

  /** A nested release comes back at once; the last one goes on to give the lock up. */
  lemma ReleaseNestedReturns(s: L.System, l: SemId, t: Tid)
    requires L.Layer(s) && t in s.clients && t != s.sched.idle && s.clients[t].op == L.Release(l, L.AtCheck) && L.Depth(s.clients[t], l) > 1
    requires s.locks[l].repeat > 1
    ensures var s' := L.ReleaseText(s, l, L.AtCheck, t); OnlyMoves(s, s', t) && CameBack(s.clients[t], s'.clients[t])
  {
  }

  lemma ReleaseLastGoesOn(s: L.System, l: SemId, t: Tid)
    requires L.Layer(s) && t in s.clients && t != s.sched.idle && s.clients[t].op == L.Release(l, L.AtCheck) && s.locks[l].repeat <= 1
    ensures var s' := L.ReleaseText(s, l, L.AtCheck, t);
      OnlyMoves(s, s', t) && GoesOn(s.clients[t], s'.clients[t], L.Release(l, L.AtClearHolder))
  {
  }

  /** Which of the two it is, the nesting depth says. */
  lemma NestedIff(s: L.System, l: SemId, t: Tid)
    requires L.Layer(s) && t in s.clients && l in s.locks && s.clients[t].op == L.Release(l, L.AtCheck)
    ensures s.locks[l].repeat > 1 <==> L.Depth(s.clients[t], l) > 1
    ensures s.locks[l] == L.Lock(Some(t), L.Depth(s.clients[t], l))
  {
    assert L.ClientOk(s.locks.Keys, s.clients[t], s.sched.threads[t].downOn);
    assert L.LockOk(s, l) && L.InRegion(s.clients[t], l);
  }

  /** The last release comes back with its sema_up. */
  lemma ReleaseReturns(s: L.System, l: SemId)
    requires L.Inv(s) && s.clients[s.sched.cur].op == L.Release(l, L.AtUp) && L.Depth(s.clients[s.sched.cur], l) == 1
    ensures var s' := L.ReleaseUp(s, l); OnlyMoves(s, s', s.sched.cur) && CameBack(s.clients[s.sched.cur], s'.clients[s.sched.cur])
  {
  }
}
