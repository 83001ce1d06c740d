/**
 Two runs of the process machine, step by step from the start, to states in which `sys_exit`
 and `sys_wait` fall short.
 */
module ExitExamples {
  import opened Limits
  import opened Lifecycle
  import opened LifecycleSafety
  import opened ExitAndWait

  const FREE := Proc(Empty, 0, 0, 0, InUser)
  const TTYD := Proc(Ready, 0, 1, 0, InUser)  // process 1

  /** Five slots that may be in use, and the rest of the table. */
  function Five(a: Proc, b: Proc, c: Proc, d: Proc): (procs: seq<Proc>)
    ensures |procs| == PROC_MAX
  {
    [a, TTYD, b, c, d] + seq(PROC_MAX - 5, _ => FREE)
  }

  function Live(pid: int, father: int): Proc { Proc(Ready, father, pid, 0, InUser) }

  function Waits(pid: int, father: int): Proc { Proc(Waiting, father, pid, 0, InWait) }

  function Hangs(pid: int, father: int): Proc { Proc(Hanging, father, pid, 0, InExit) }

  /** The scan picks `next` and finds no dead process on the way. */
  ghost predicate Picks(procs: seq<Proc>, current: int, next: int) {
    && |procs| == PROC_MAX && IsSlot(next) && procs[next].stat == Ready
    && forall j {:trigger procs[j]} :: IsSlot(j) && Position(current, j) < Position(current, next) ==>
         procs[j].stat != Ready && procs[j].stat != Dead
  }

  lemma Switched(s: Sys, next: int)
    requires IsSlot(s.current) && |s.procs| == PROC_MAX && 0 <= s.ticks < 100 && Switches(s) &&
             Picks(s.procs, s.current, next)
    ensures TimerRel(s, Sys(s.procs, next, s.ticks + 1))
  {
  }

  /** A run, and one step more. */
  lemma OneMore(ss: seq<Sys>, steps: seq<Step>, step: Step, s: Sys)
    requires Run(ss, steps) && Next(ss[|steps|], step, s)
    ensures Run(ss + [s], steps + [step]) && (ss + [s])[|steps + [step]|] == s
  {
    forall k | 0 <= k < |steps + [step]| ensures Next((ss + [s])[k], (steps + [step])[k], (ss + [s])[k + 1]) {
      if k < |steps| { assert Next(ss[k], steps[k], ss[k + 1]); }
    }
  }

  /** The clock ticks and the process goes on. */
  lemma Spin(ss: seq<Sys>, steps: seq<Step>)
    requires Run(ss, steps)
    requires var s := ss[|steps|];
             && IsSlot(s.current) && |s.procs| == PROC_MAX && 0 <= s.ticks < 100 && (s.ticks + 1) % 4 != 0
             && s.procs[s.current].stat == Ready && s.procs[s.current].place == InUser
    ensures var s := ss[|steps|]; var t := s.(ticks := s.ticks + 1);
            Run(ss + [t], steps + [Tick]) && (ss + [t])[|steps + [Tick]|] == t
  {
    var s := ss[|steps|];
    OneMore(ss, steps, Tick, s.(ticks := s.ticks + 1));
  }

  /** The clock ticks and the next process is picked. */
  lemma SwitchTo(ss: seq<Sys>, steps: seq<Step>, next: int)
    requires Run(ss, steps)
    requires var s := ss[|steps|];
             && IsSlot(s.current) && |s.procs| == PROC_MAX && 0 <= s.ticks < 100 && (s.ticks + 1) % 4 == 0
             && s.procs[s.current].place == InUser && Picks(s.procs, s.current, next)
    ensures var s := ss[|steps|]; var t := Sys(s.procs, next, s.ticks + 1);
            Run(ss + [t], steps + [Tick]) && (ss + [t])[|steps + [Tick]|] == t
  {
    var s := ss[|steps|];
    Switched(s, next);
    OneMore(ss, steps, Tick, Sys(s.procs, next, s.ticks + 1));
  }

  /** Process 0 forks 2 and waits; 2 runs, forks 3 and waits; 3 runs. */
  lemma ThreeRuns() returns (ss: seq<Sys>, steps: seq<Step>)
    ensures Run(ss, steps) && ss[|steps|] == Sys(Five(Waits(0, 0), Waits(2, 0), Live(3, 2), FREE), 3, 5)
  {
    ss, steps := TwoRuns();
    var s := ss[|steps|];
    var t := Sys(Five(Waits(0, 0), Live(2, 0), Live(3, 2), FREE), 2, 4);
    assert t.procs == s.procs[3 := s.procs[2].(pid := 3, father := 2)];
    OneMore(ss, steps, Fork(3), t);
    ss, steps := ss + [t], steps + [Fork(3)];
    assert Blocked(t, Waiting, InWait).procs == Five(Waits(0, 0), Waits(2, 0), Live(3, 2), FREE);
    assert IsChild(t.procs, 2, 3);
    Switched(Blocked(t, Waiting, InWait), 3);
    var u := Sys(Five(Waits(0, 0), Waits(2, 0), Live(3, 2), FREE), 3, 5);
    OneMore(ss, steps, Wait(Blocks), u);
    ss, steps := ss + [u], steps + [Wait(Blocks)];
  }

  lemma TwoRuns() returns (ss: seq<Sys>, steps: seq<Step>)
    ensures Run(ss, steps) && ss[|steps|] == Sys(Five(Waits(0, 0), Live(2, 0), FREE, FREE), 2, 4)
  {
    var r := Sys(Five(Live(0, 0), FREE, FREE, FREE), 0, 2);
    ss, steps := [r], [];
    assert Run(ss, steps);
    var s := Sys(Five(Live(0, 0), Live(2, 0), FREE, FREE), 0, 2);
    assert s.procs == r.procs[2 := r.procs[0].(pid := 2, father := 0)];
    OneMore(ss, steps, Fork(2), s);
    ss, steps := ss + [s], steps + [Fork(2)];
    assert Blocked(s, Waiting, InWait).procs == Five(Waits(0, 0), Live(2, 0), FREE, FREE);
    assert IsChild(s.procs, 0, 2);
    Switched(Blocked(s, Waiting, InWait), 1);
    var t := Sys(Five(Waits(0, 0), Live(2, 0), FREE, FREE), 1, 3);
    OneMore(ss, steps, Wait(Blocks), t);
    ss, steps := ss + [t], steps + [Wait(Blocks)];
    SwitchTo(ss, steps, 2);
    ss, steps := ss + [Sys(t.procs, 2, 4)], steps + [Tick];
  }

  // ----- process 0 misses a child -----

  /** Process 0 waits, and so does 2; process 3, a child of 2, is about to exit and has a child 4
      that hangs. */
  function OrphanAboutToPass(): Sys {
    Sys(Five(Waits(0, 0), Waits(2, 0), Live(3, 2), Hangs(4, 3)), 3, 12)
  }

  /** Process 3 forks 4, which exits as soon as it runs. */
  lemma FourHangs() returns (ss: seq<Sys>, steps: seq<Step>)
    ensures Run(ss, steps) && ss[|steps|] == Sys(Five(Waits(0, 0), Waits(2, 0), Live(3, 2), Hangs(4, 3)), 1, 9)
  {
    ss, steps := ThreeRuns();
    var s := ss[|steps|];
    var t := Sys(Five(Waits(0, 0), Waits(2, 0), Live(3, 2), Live(4, 3)), 3, 5);
    assert t.procs == s.procs[4 := s.procs[3].(pid := 4, father := 3)];
    OneMore(ss, steps, Fork(4), t);
    ss, steps := ss + [t], steps + [Fork(4)];
    Spin(ss, steps);
    ss, steps := ss + [t.(ticks := 6)], steps + [Tick];
    Spin(ss, steps);
    ss, steps := ss + [t.(ticks := 7)], steps + [Tick];
    SwitchTo(ss, steps, 4);
    var u := Sys(t.procs, 4, 8);
    ss, steps := ss + [u], steps + [Tick];
    var w := Sys(Five(Waits(0, 0), Waits(2, 0), Live(3, 2), Hangs(4, 3)), 4, 8);
    assert Exiting(u) == w by { assert Exiting(u).procs == w.procs; }
    Switched(w, 1);
    OneMore(ss, steps, Exit, Sys(w.procs, 1, 9));
    ss, steps := ss + [Sys(w.procs, 1, 9)], steps + [Exit];
  }

  lemma OrphanReached() returns (ss: seq<Sys>, steps: seq<Step>)
    ensures Run(ss, steps) && ss[|steps|] == OrphanAboutToPass()
  {
    ss, steps := FourHangs();
    var s := ss[|steps|];
    Spin(ss, steps);
    ss, steps := ss + [s.(ticks := 10)], steps + [Tick];
    Spin(ss, steps);
    ss, steps := ss + [s.(ticks := 11)], steps + [Tick];
    SwitchTo(ss, steps, 3);
    ss, steps := ss + [OrphanAboutToPass()], steps + [Tick];
  }

  /** So it does happen: in a run from the start process 0 comes to wait for a child that has
      exited already. */
  lemma ZeroCanMissAChild(s': Sys) returns (ss: seq<Sys>, steps: seq<Step>)
    requires ExitRel(OrphanAboutToPass(), s')
    ensures Run(ss, steps) && ss[|steps|] == OrphanAboutToPass()
    ensures Run(ss + [s'], steps + [Exit]) && ZeroWaitsInVain(s'.procs)
  {
    ss, steps := OrphanReached();
    OneMore(ss, steps, Exit, s');
    RunKeepsInv(ss, steps, |steps|);
    assert HangingChild(OrphanAboutToPass().procs, 3, 4);
    forall i | HangingChild(OrphanAboutToPass().procs, 0, i) ensures false {}
    ZeroMissesExactlyOrphans(OrphanAboutToPass(), s');
  }

  // ----- a slot that still names its father -----

  /** Process 2 has been told of its only child, whose slot no scan has passed yet. */
  function ChildReported(): Sys {
    Sys(Five(Waits(0, 0), Live(2, 0), Proc(Dead, 2, 3, 0, InExit), FREE), 2, 8)
  }

  lemma ReportReached() returns (ss: seq<Sys>, steps: seq<Step>)
    ensures Run(ss, steps) && ss[|steps|] == ChildReported()
  {
    ss, steps := ThreeRuns();
    var s := ss[|steps|];
    var t := Sys(Five(Waits(0, 0), Proc(Ready, 0, 2, 0, InWait), Hangs(3, 2), FREE), 3, 5);
    assert Exiting(s) == t by { assert Exiting(s).procs == t.procs; }
    Switched(t, 1);
    var u := Sys(t.procs, 1, 6);
    OneMore(ss, steps, Exit, u);
    ss, steps := ss + [u], steps + [Exit];
    Spin(ss, steps);
    ss, steps := ss + [u.(ticks := 7)], steps + [Tick];
    SwitchTo(ss, steps, 2);
    var w := Sys(u.procs, 2, 8);
    ss, steps := ss + [w], steps + [Tick];
    assert ChildReported() == Resumed(w.(procs := w.procs[3 := w.procs[3].(stat := Dead)])) by {
      assert ChildReported().procs == Resumed(w.(procs := w.procs[3 := w.procs[3].(stat := Dead)])).procs;
    }
    assert HangingChild(w.procs, 2, 3);
    OneMore(ss, steps, Wait(Reported(3)), ChildReported());
    ss, steps := ss + [ChildReported()], steps + [Wait(Reported(3))];
  }

  /** Its next wait does not return -1: it blocks, though there is no child to wait for. */
  lemma StaleSlotBlocks(o: Outcome, s': Sys) returns (ss: seq<Sys>, steps: seq<Step>)
    requires WaitRel(ChildReported(), o, s')
    ensures Run(ss, steps) && ss[|steps|] == ChildReported() && Run(ss + [s'], steps + [Wait(o)])
    ensures !HasRealChild(ChildReported().procs, 2) && o == Blocks
  {
    ss, steps := ReportReached();
    OneMore(ss, steps, Wait(o), s');
    assert StaleSlot(ChildReported().procs, 2, 3);
    MinusOneExactly(ChildReported(), o, s');
  }
}
