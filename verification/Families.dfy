/** What fork, wait and exit do to the process table, step by step and over runs: src/user/fork.c
    and src/user/wait_exit.c. */
module Families {
  import opened Machine
  import opened Bitmap
  import opened Processes

  /** A child of the caller with a pid nobody has, and nobody else changed. */
  lemma ForkMakesChild(s: Table, me: Tid, child: Tid, s': Table)
    requires Inv(s) && Enabled(s, Fork(me, child)) && Next(s, Fork(me, child)) == Done(s')
    ensures child in s'.procs && var p := s'.procs[child];
      && p.ppid == s.procs[me].pid && p.life == Alive && p.user && !p.leaving && s'.all == s.all + [child]
      && (forall t :: t in s.procs ==> s.procs[t].pid != p.pid && s.procs[t].born != p.born)
    ensures s'.procs.Keys == s.procs.Keys + {child} && (forall t :: t in s.procs ==> s'.procs[t] == s.procs[t])
    ensures s'.exits == s.exits && s'.collected == s.collected
  {
    forall t | t in s.procs ensures s.procs[t].pid != s'.procs[child].pid && s.procs[t].born != s'.procs[child].born {
      assert ProcOk(s.pidBits, s.nextBorn, s.exits, s.procs[t]);
    }
  }

  /** The first half of an exit: the status passed is recorded, the children are init's, and
      nobody else changed. */
  lemma ExitGivesAway(s: Table, me: Tid, status: int, s': Table)
    requires Inv(s) && Enabled(s, Exit(me, status)) && Next(s, Exit(me, status)) == Done(s')
    ensures s'.exits == s.exits[s.procs[me].born := status] && s.procs[me].born !in s.exits
    ensures s'.procs.Keys == s.procs.Keys && s'.procs[me].leaving && s'.procs[me].exitStatus == Int8(status)
    ensures forall t :: t in s.procs && t != me ==>
      s'.procs[t] == s.procs[t].(ppid := if s.procs[t].ppid == s.procs[me].pid then INIT_PID else s.procs[t].ppid)
    ensures s'.all == s.all && s'.collected == s.collected
  {
    assert ProcOk(s.pidBits, s.nextBorn, s.exits, s.procs[me]);
  }

  /** The second half: the process hangs, its parent is awake, and nobody else changed. */
  lemma ExitHangs(s: Table, me: Tid, s': Table)
    requires Inv(s) && Enabled(s, ExitRest(me)) && Next(s, ExitRest(me)) == Done(s')
    ensures exists parent :: Names(s.procs, s.procs[me].ppid, parent) && HungUp(s, me, parent, s')
  {
    ParentFound(s, me);
    var parent := PidToThread(s, s.procs[me].ppid).value;
    assert parent != me;
    FinishIsHungUp(s, me, parent);
  }

  ghost predicate HungUp(s: Table, me: Tid, parent: Tid, s': Table)
    requires me in s.procs && parent in s.procs
  {
    && s'.procs.Keys == s.procs.Keys && s'.procs[me] == s.procs[me].(life := Zombie)
    && s'.procs[parent] == (if s.procs[parent].life == InWait then s.procs[parent].(life := Alive) else s.procs[parent])
    && (forall t :: t in s.procs && t != me && t != parent ==> s'.procs[t] == s.procs[t])
    && s'.exits == s.exits && s'.collected == s.collected && s'.all == s.all
  }

  lemma FinishIsHungUp(s: Table, me: Tid, parent: Tid)
    requires me in s.procs && parent in s.procs && parent != me
    ensures HungUp(s, me, parent, ExitFinish(s, me, parent))
  {
  }

  /** Without a hanging child, sys_wait sleeps if there is a child at all, and changes nothing
      else. */
  lemma WaitSleeps(s: Table, me: Tid, s': Table)
    requires Inv(s) && Enabled(s, Wait(me)) && Next(s, Wait(me)) == Done(s')
    requires forall t :: t in s.procs && s.procs[t].ppid == s.procs[me].pid ==> s.procs[t].life != Zombie
    ensures s' == if exists t :: IsChild(s.procs, t, s.procs[me].pid) then s.(procs := s.procs[me := s.procs[me].(life := InWait)]) else s
  {
    WaitInv(s, me);
    assert HangingChild(s, me) == None;
    if t :| IsChild(s.procs, t, s.procs[me].pid) {
      assert t in s.all;
    }
  }

  // ----- the status on its way -----

  lemma ExitsKeep(s: Table, step: Step, s': Table)
    requires Inv(s) && StepTo(s, step, s')
    ensures forall b :: b in s.exits ==> b in s'.exits && s'.exits[b] == s.exits[b]
  {
    if step.Exit? {
      ExitGivesAway(s, step.me, step.status, s');
    }
  }

  lemma {:induction false} RunSteps(trace: seq<Table>, steps: seq<Step>, i: nat)
    requires IsRun(trace, steps) && i < |steps|
    ensures Inv(trace[i]) && StepTo(trace[i], steps[i], trace[i + 1])
  {
    RunInv(trace, steps, i);
    var n := |steps| - 1;
    if i < n {
      RunSteps(trace[..n + 1], steps[..n], i);
    }
  }

  lemma ExitAt(trace: seq<Table>, steps: seq<Step>, i: nat, me: Tid, status: int)
    requires IsRun(trace, steps) && i < |steps| && steps[i] == Exit(me, status)
    ensures me in trace[i].procs && var b := trace[i].procs[me].born; b in trace[i + 1].exits && trace[i + 1].exits[b] == status
  {
    RunSteps(trace, steps, i);
    ExitGivesAway(trace[i], me, status, trace[i + 1]);
  }

  lemma ExitsKeepAt(trace: seq<Table>, steps: seq<Step>, k: nat, b: nat)
    requires IsRun(trace, steps) && k < |steps| && b in trace[k].exits
    ensures b in trace[k + 1].exits && trace[k + 1].exits[b] == trace[k].exits[b]
  {
    RunSteps(trace, steps, k);
    ExitsKeep(trace[k], steps[k], trace[k + 1]);
  }

  lemma {:induction false} StatusKept(trace: seq<Table>, steps: seq<Step>, i: nat, k: nat, me: Tid, status: int)
    requires IsRun(trace, steps) && i < k <= |steps| && steps[i] == Exit(me, status)
    ensures me in trace[i].procs && var b := trace[i].procs[me].born; b in trace[k].exits && trace[k].exits[b] == status
  {
    if k == i + 1 {
      ExitAt(trace, steps, i, me, status);
    } else {
      StatusKept(trace, steps, i, k - 1, me, status);
      ExitsKeepAt(trace, steps, k - 1, trace[i].procs[me].born);
    }
  }

  /** Over every run: what a process passed to sys_exit is what sys_wait hands out for it, cut to
      8 bits, and it is handed out if and only if the process has left the table. */
  lemma StatusArrives(trace: seq<Table>, steps: seq<Step>, i: nat, k: nat, me: Tid, status: int)
    requires IsRun(trace, steps) && i < k <= |steps| && steps[i] == Exit(me, status)
    ensures me in trace[i].procs && var b := trace[i].procs[me].born;
      && (InLog(trace[k].collected, b) <==> !InTable(trace[k].procs, b))
      && forall j :: 0 <= j < |trace[k].collected| && trace[k].collected[j].born == b ==> trace[k].collected[j].status == Int8(status)
  {
    StatusKept(trace, steps, i, k, me, status);
    CollectedExactlyOnce(trace, steps, k, trace[i].procs[me].born);
  }
}
