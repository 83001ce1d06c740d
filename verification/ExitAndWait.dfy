/**
 What runs of the process machine say about `sys_exit` and `sys_wait`: who is woken, which
 exits are reported to whom, and where the two calls fall short.
 */
module ExitAndWait {
  import opened Limits
  import opened Lifecycle
  import opened LifecycleSafety

  // ----- wake-ups -----

  /** In every state of every run, a father other than process 0 that waits has no child that
      hangs: no exit is missed. */
  lemma NoLostWakeUp(ss: seq<Sys>, steps: seq<Step>, n: nat, p: int)
    requires Run(ss, steps) && n <= |steps| && 0 < p < PROC_MAX
    ensures |ss[n].procs| == PROC_MAX
    ensures ss[n].procs[p].stat == Waiting ==> !HasHangingChild(ss[n].procs, p)
  {
    RunKeepsInv(ss, steps, n);
    assert Noticed(ss[n].procs, p);
  }

  /** Nor is a wake-up spurious: a wait that goes on after its yield reports a child at once. */
  lemma WokenWaitReports(ss: seq<Sys>, steps: seq<Step>, k: nat)
    requires Run(ss, steps) && k < |steps| && steps[k].Wait?
    requires 0 <= ss[k].current < |ss[k].procs| && ss[k].procs[ss[k].current].place == InWait
    ensures steps[k].o.Reported?
  {
    RunKeepsInv(ss, steps, k);
    assert Noticed(ss[k].procs, ss[k].current);
    assert Next(ss[k], steps[k], ss[k + 1]);
  }

  /** Process 0 waits while one of its children hangs. */
  ghost predicate ZeroWaitsInVain(procs: seq<Proc>) {
    |procs| == PROC_MAX && procs[0].stat == Waiting && HasHangingChild(procs, 0)
  }

  /** An exit makes process 0 miss a child exactly when 0 waits, the process that exits is
      not its child, and leaves it a child that hangs. */
  lemma ZeroMissesExactlyOrphans(s: Sys, s': Sys)
    requires Inv(s) && CanCall(s) && s.current != 0 && ExitRel(s, s') && !ZeroWaitsInVain(s.procs)
    ensures ZeroWaitsInVain(s'.procs) <==>
            s.procs[0].stat == Waiting && s.procs[s.current].father != 0 && HasHangingChild(s.procs, s.current)
  {
    var t := Exiting(s);
    ExitingSettled(s);
    ExitingSlot(s, 0);
    forall i | IsSlot(i) ensures s'.procs[i] == t.procs[i] || s'.procs[i] == Passed(t.procs[i]) {}
    SameHangingChildren(t.procs, s'.procs, 0);
    forall i | IsSlot(i) ensures HangingChild(t.procs, 0, i) <==>
        i != 0 && if i == s.current then s.procs[i].father == 0
                  else HangingChild(s.procs, 0, i) || HangingChild(s.procs, s.current, i)
    {
      ExitingSlot(s, i);
      assert FatherAlive(s.procs, i);
    }
    assert HangingChild(t.procs, 0, s.current) <==> s.procs[s.current].father == 0;
    if i :| HangingChild(s.procs, s.current, i) {
      assert HangingChild(t.procs, 0, i);
    }
  }

  // ----- the answer -1 -----

  /** A child of `p` that has not been reported. */
  predicate RealChild(procs: seq<Proc>, p: int, i: int) {
    IsChild(procs, p, i) && procs[i].stat != Empty && procs[i].stat != Dead
  }

  /** A slot that is no longer in use but still names `p`. */
  predicate StaleSlot(procs: seq<Proc>, p: int, i: int) {
    IsChild(procs, p, i) && (procs[i].stat == Empty || procs[i].stat == Dead)
  }

  ghost predicate HasRealChild(procs: seq<Proc>, p: int) {
    exists i :: RealChild(procs, p, i)
  }

  ghost predicate HasStaleSlot(procs: seq<Proc>, p: int) {
    exists i :: StaleSlot(procs, p, i)
  }

  /** The answer -1 means there is no child; but a process without children gets it only if no
      unused slot still names it, and blocks otherwise. */
  lemma MinusOneExactly(s: Sys, o: Outcome, s': Sys)
    requires IsSlot(s.current) && WaitRel(s, o, s')
    ensures o.NoChild? <==> !HasRealChild(s.procs, s.current) && !HasStaleSlot(s.procs, s.current)
    ensures !HasRealChild(s.procs, s.current) && HasStaleSlot(s.procs, s.current) ==> o == Blocks
  {
    if i :| IsChild(s.procs, s.current, i) {
      assert RealChild(s.procs, s.current, i) || StaleSlot(s.procs, s.current, i);
    }
    if i :| RealChild(s.procs, s.current, i) { assert IsChild(s.procs, s.current, i); }
    if i :| StaleSlot(s.procs, s.current, i) { assert IsChild(s.procs, s.current, i); }
    if i :| HangingChild(s.procs, s.current, i) { assert RealChild(s.procs, s.current, i); }
  }

  /** A slot of a step that ends with a yield. */
  lemma YieldSlot(s: Sys, s': Sys, i: int)
    requires TimerRel(s, s') && IsSlot(i)
    ensures |s'.procs| == PROC_MAX && (s'.procs[i] == s.procs[i] || s'.procs[i] == Passed(s.procs[i]))
  {
  }

  /** What a step leaves of a slot: its father, unless it is forked or orphaned. */
  lemma FatherAfter(s: Sys, step: Step, s': Sys, i: int)
    requires Inv(s) && Next(s, step, s') && IsSlot(i)
    ensures |s'.procs| == PROC_MAX
    ensures s'.procs[i].father == s.procs[i].father
            || s'.procs[i].father == 0
            || (step == Fork(i) && s'.procs[i].father == s.current)
  {
    match step
    case Exit => ExitingSlot(s, i); YieldSlot(Exiting(s), s', i);
    case Wait(o) =>
      if o.Blocks? { YieldSlot(Blocked(s, Waiting, InWait), s', i); }
    case Read => YieldSlot(Blocked(s, WaitingInput, InRead), s', i);
    case Tick => YieldSlot(s, s', i);
    case _ =>
  }

  /** A process that waits without a child goes on waiting, whatever happens. */
  lemma ChildlessKeepsWaiting(s: Sys, step: Step, s': Sys, p: int)
    requires Inv(s) && Next(s, step, s') && 0 < p < PROC_MAX
    requires s.procs[p].stat == Waiting && !HasRealChild(s.procs, p)
    ensures |s'.procs| == PROC_MAX && s'.procs[p].stat == Waiting && !HasRealChild(s'.procs, p)
  {
    StatsFollow(s, step, s', p);
    NextKeepsInv(s, step, s');
    if i :| RealChild(s'.procs, p, i) {
      FatherAfter(s, step, s', i);
      StatsFollow(s, step, s', i);
      assert RealChild(s.procs, p, i);
      assert false;
    }
    if step == Exit && s.procs[s.current].father == p {
      assert FatherAlive(s.procs, s.current);
      assert RealChild(s.procs, p, s.current);
      assert false;
    }
  }

  /** So a wait that blocks on a stale slot never returns. */
  lemma {:induction false} ChildlessWaitNeverReturns(ss: seq<Sys>, steps: seq<Step>, p: int, k: nat, n: nat)
    requires Run(ss, steps) && k <= n <= |steps| && 0 < p < PROC_MAX
    requires |ss[k].procs| == PROC_MAX && ss[k].procs[p].stat == Waiting && !HasRealChild(ss[k].procs, p)
    ensures |ss[n].procs| == PROC_MAX && ss[n].procs[p].stat == Waiting && !HasRealChild(ss[n].procs, p)
  {
    if k < n {
      ChildlessWaitNeverReturns(ss, steps, p, k, n - 1);
      RunKeepsInv(ss, steps, n - 1);
      assert Next(ss[n - 1], steps[n - 1], ss[n - 1 + 1]);
      ChildlessKeepsWaiting(ss[n - 1], steps[n - 1], ss[n], p);
    }
  }

  // ----- the life of a slot -----

  /** The changes of state there are, and the step each takes. */
  ghost predicate Follows(s: Sys, step: Step, i: int, b: Stat)
    requires 0 <= i < |s.procs|
  {
    var a := s.procs[i].stat;
    || (a == b && step != Fork(i) && step != Wait(Reported(i)) && !(step == Exit && s.current == i))
    || (a == Empty && b == Ready && step == Fork(i))
    || (a == Ready && b == WaitingInput && step == Read && s.current == i)
    || (a == WaitingInput && b == Ready && step == Wake(s.procs[i].tty))
    || (a == Ready && b == Waiting && step == Wait(Blocks) && s.current == i)
    || (a == Waiting && b == Ready && step == Exit && 0 <= s.current < |s.procs| && s.procs[s.current].father == i)
    || (a == Ready && b == Hanging && step == Exit && s.current == i)
    || (a == Hanging && b == Dead && step == Wait(Reported(i)) && s.procs[i].father == s.current)
    || (a == Dead && b == Empty && (step == Tick || step == Exit || step == Wait(Blocks) || step == Read))
  }

  /** A slot goes from empty to ready by a fork, from hanging to dead when its father at that
      time is told, and from dead to empty when a scan passes it. */
  lemma StatsFollow(s: Sys, step: Step, s': Sys, i: int)
    requires Inv(s) && Next(s, step, s') && IsSlot(i)
    ensures |s'.procs| == PROC_MAX && Follows(s, step, i, s'.procs[i].stat)
  {
    assert Consistent(s.procs, i);
    match step
    case Tick => YieldSlot(s, s', i);
    case Exit => ExitingSlot(s, i); YieldSlot(Exiting(s), s', i);
    case Wait(o) =>
      match o {
        case Reported(c) =>
          assert HangingChild(s.procs, s.current, c);
        case NoChild =>
        case Blocks => YieldSlot(Blocked(s, Waiting, InWait), s', i);
      }
    case Read => YieldSlot(Blocked(s, WaitingInput, InRead), s', i);
    case _ =>
  }

  /** How often process `i` exits in the first `n` steps. */
  ghost function Exits(ss: seq<Sys>, steps: seq<Step>, i: int, n: nat): nat
    requires n <= |steps| <= |ss|
  {
    if n == 0 then 0
    else Exits(ss, steps, i, n - 1) + if steps[n - 1] == Exit && ss[n - 1].current == i then 1 else 0
  }

  /** How often a wait reports it. */
  ghost function Reports(steps: seq<Step>, i: int, n: nat): nat
    requires n <= |steps|
  {
    if n == 0 then 0 else Reports(steps, i, n - 1) + if steps[n - 1] == Wait(Reported(i)) then 1 else 0
  }

  /** Every exit is reported by at most one wait, and the one not yet reported is the process
      that hangs in the slot. */
  lemma {:induction false} ExitsPairWithReports(ss: seq<Sys>, steps: seq<Step>, i: int, n: nat)
    requires Run(ss, steps) && n <= |steps| && IsSlot(i)
    ensures |ss[n].procs| == PROC_MAX
    ensures Exits(ss, steps, i, n) == Reports(steps, i, n) + if ss[n].procs[i].stat == Hanging then 1 else 0
  {
    if n == 0 {
      assert ss[0].procs[i].stat != Hanging;
    } else {
      ExitsPairWithReports(ss, steps, i, n - 1);
      RunKeepsInv(ss, steps, n - 1);
      assert Next(ss[n - 1], steps[n - 1], ss[n - 1 + 1]);
      StatsFollow(ss[n - 1], steps[n - 1], ss[n], i);
    }
  }

  /** After its exit a process does not live, let alone run, until a fork reuses its slot. */
  lemma {:induction false} ExitedRunsOnlyAfterFork(ss: seq<Sys>, steps: seq<Step>, i: int, k: nat, n: nat)
    requires Run(ss, steps) && k <= n <= |steps| && IsSlot(i)
    requires |ss[k].procs| == |ss[n].procs| == PROC_MAX
    requires !Alive(ss[k].procs[i]) && Alive(ss[n].procs[i])
    ensures exists j :: k <= j < n && steps[j] == Fork(i)
  {
    RunKeepsInv(ss, steps, n - 1);
    assert Next(ss[n - 1], steps[n - 1], ss[n - 1 + 1]);
    StatsFollow(ss[n - 1], steps[n - 1], ss[n], i);
    if Alive(ss[n - 1].procs[i]) {
      ExitedRunsOnlyAfterFork(ss, steps, i, k, n - 1);
    }
  }

  /** The process that runs, and the father of any slot, has not exited. */
  lemma FathersLive(ss: seq<Sys>, steps: seq<Step>, n: nat, i: int)
    requires Run(ss, steps) && n <= |steps| && IsSlot(i)
    ensures |ss[n].procs| == PROC_MAX && IsSlot(ss[n].procs[i].father) && IsSlot(ss[n].current)
    ensures Alive(ss[n].procs[ss[n].procs[i].father]) && Alive(ss[n].procs[ss[n].current])
  {
    RunKeepsInv(ss, steps, n);
    assert FatherAlive(ss[n].procs, i);
  }

  /** A process that takes over a slot inherits no children with it. */
  lemma ReusedSlotHasNoChildren(ss: seq<Sys>, steps: seq<Step>, k: nat)
    requires Run(ss, steps) && k < |steps| && steps[k].Fork? && steps[k].r != -1
    ensures !HasChild(ss[k].procs, steps[k].r) && !HasChild(ss[k + 1].procs, steps[k].r)
  {
    RunKeepsInv(ss, steps, k);
    assert Next(ss[k], steps[k], ss[k + 1]);
    ForkedChildren(ss[k], steps[k].r, ss[k + 1], steps[k].r);
  }
}
