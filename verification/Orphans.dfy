/** A run of the process table after which init is asleep above a child that hangs: its child
    forks, the grandchild exits, init waits, and the child exits without having waited. */
module Orphans {
  import opened Machine
  import opened Bitmap
  import opened Processes

  /** The first `n` pids are taken. */
  function Pids(n: nat): seq<bool> {
    seq(MAX_PIDS, i => i < n)
  }

  /** The table with these processes at PCBs 0 (init), 1 and 2 */
  function Family(procs: map<Tid, Proc>, all: seq<Tid>, exits: map<nat, int>): Table {
    Table(procs, all, Pids(|all|), 0, |all|, exits, [])
  }

  function Init(life: Life): Proc {
    Proc(1, -1, 0, life, true, false, 0)
  }

  function Child(): Proc {
    Proc(2, 1, 0, Alive, true, false, 1)
  }

  function Grandchild(status: int, life: Life, leaving: bool): Proc {
    Proc(3, 2, status, life, true, leaving, 2)
  }

  function Booted(): Table {
    Family(map[0 := Init(Alive)], [0], map[])
  }

  function Forked(): Table {
    Family(map[0 := Init(Alive), 1 := Child()], [0, 1], map[])
  }

  function ForkedTwice(): Table {
    Family(map[0 := Init(Alive), 1 := Child(), 2 := Grandchild(0, Alive, false)], [0, 1, 2], map[])
  }

  function Leaving(): Table {
    Family(map[0 := Init(Alive), 1 := Child(), 2 := Grandchild(7, Alive, true)], [0, 1, 2], map[2 := 7])
  }

  function Hanging(): Table {
    Family(map[0 := Init(Alive), 1 := Child(), 2 := Grandchild(7, Zombie, true)], [0, 1, 2], map[2 := 7])
  }

  function Waiting(): Table {
    Family(map[0 := Init(InWait), 1 := Child(), 2 := Grandchild(7, Zombie, true)], [0, 1, 2], map[2 := 7])
  }

  lemma BootedBoots()
    ensures Boot(Booted())
  {
    assert Booted().all[0] == 0;
  }

  lemma NextPid(n: nat)
    requires n < MAX_PIDS
    ensures FirstClear(Pids(n)) == n && Pids(n)[n := true] == Pids(n + 1)
  {
    assert !Pids(n)[n] && IsFirstClear(Pids(n), n);
    var r := FirstClear(Pids(n));
    assert r != -1;
    assert r <= n && n <= r;
  }

  lemma ForkStep()
    ensures AddRow(Booted(), 1, Some(0), true) == Done(Forked())
  {
    NextPid(1);
    assert Booted().all + [1] == Forked().all;
  }

  lemma SecondForkStep()
    ensures AddRow(Forked(), 2, Some(1), true) == Done(ForkedTwice())
  {
    NextPid(2);
    assert Forked().all + [2] == ForkedTwice().all;
  }

  lemma ExitStep()
    ensures ExitStart(ForkedTwice(), 2, 7) == Done(Leaving())
  {
    assert Adopted(ForkedTwice().procs[2 := Grandchild(7, Alive, true)], 3) == Leaving().procs;
  }

  lemma HangStep()
    ensures PidToThread(Leaving(), 2) == Some(1) && ExitFinish(Leaving(), 2, 1) == Hanging()
  {
    var all := Leaving().all;
    assert all[0] == 0 && all[1] == 1 && all[2] == 2;
    FirstSuchAt(all, (t: Tid) => t in Leaving().procs && Leaving().procs[t].pid == 2, 1);
    assert Leaving().procs[2 := Grandchild(7, Zombie, true)] == Hanging().procs;
  }

  lemma WaitStep()
    ensures HangingChild(Hanging(), 0) == None && AnyChild(Hanging(), 0).Some? && SetLife(Hanging(), 0, InWait) == Waiting()
  {
    assert 1 in Hanging().all by { assert Hanging().all[1] == 1; }
    assert IsChild(Hanging().procs, 1, 1);
    assert Hanging().procs[0 := Init(InWait)] == Waiting().procs;
  }

  lemma Extend(trace: seq<Table>, steps: seq<Step>, step: Step, s: Table) returns (trace': seq<Table>, steps': seq<Step>)
    requires IsRun(trace, steps) && Inv(trace[|steps|]) && StepTo(trace[|steps|], step, s)
    ensures IsRun(trace', steps') && trace'[0] == trace[0] && trace'[|steps'|] == s && Inv(s) && steps' == steps + [step]
  {
    trace', steps' := trace + [s], steps + [step];
    assert trace'[..|steps| + 1] == trace && steps'[..|steps|] == steps;
    StepInv(trace[|steps|], step, s);
  }

  lemma ReachBooted() returns (trace: seq<Table>, steps: seq<Step>)
    ensures IsRun(trace, steps) && trace[0] == Booted() == trace[|steps|] && Inv(Booted())
  {
    BootedBoots();
    trace, steps := [Booted()], [];
    RunInv(trace, steps, 0);
  }

  lemma ReachForked() returns (trace: seq<Table>, steps: seq<Step>)
    ensures IsRun(trace, steps) && trace[0] == Booted() && trace[|steps|] == Forked() && Inv(Forked())
  {
    trace, steps := ReachBooted();
    ForkStep();
    trace, steps := Extend(trace, steps, Fork(0, 1), Forked());
  }

  lemma ReachForkedTwice() returns (trace: seq<Table>, steps: seq<Step>)
    ensures IsRun(trace, steps) && trace[0] == Booted() && trace[|steps|] == ForkedTwice() && Inv(ForkedTwice())
  {
    trace, steps := ReachForked();
    SecondForkStep();
    trace, steps := Extend(trace, steps, Fork(1, 2), ForkedTwice());
  }

  lemma ReachLeaving() returns (trace: seq<Table>, steps: seq<Step>)
    ensures IsRun(trace, steps) && trace[0] == Booted() && trace[|steps|] == Leaving() && Inv(Leaving())
  {
    trace, steps := ReachForkedTwice();
    ExitStep();
    trace, steps := Extend(trace, steps, Exit(2, 7), Leaving());
  }

  lemma ReachHanging() returns (trace: seq<Table>, steps: seq<Step>)
    ensures IsRun(trace, steps) && trace[0] == Booted() && trace[|steps|] == Hanging() && Inv(Hanging())
  {
    trace, steps := ReachLeaving();
    HangStep();
    trace, steps := Extend(trace, steps, ExitRest(2), Hanging());
  }

  /** init waits for its child, whose own child hangs uncollected. */
  lemma ReachWaiting() returns (trace: seq<Table>, steps: seq<Step>)
    ensures IsRun(trace, steps) && trace[0] == Booted() && trace[|steps|] == Waiting() && Inv(Waiting())
  {
    trace, steps := ReachHanging();
    WaitStep();
    trace, steps := Extend(trace, steps, Wait(0), Waiting());
  }

  /** A run from a booted table after which init sleeps through the exit of a child. */
  lemma InitCanSleepThrough(status: int) returns (trace: seq<Table>, steps: seq<Step>)
    ensures IsRun(trace, steps) && trace[0] == Booted()
    ensures var s := trace[|steps|]; s.init in s.procs && InitSleepsThrough(s.procs, s.init)
  {
    trace, steps := ReachWaiting();
    AdoptionAndInit(Waiting(), 1, status);
    assert IsHangingChild(Waiting().procs, 2, 2);
    trace, steps := Extend(trace, steps, Exit(1, status), ExitStart(Waiting(), 1, status).value);
  }
}
