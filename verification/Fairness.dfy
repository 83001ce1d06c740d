/**
 Round robin: how long a ready process can be kept from the processor.
 */
module Fairness {
  import opened Limits
  import opened Lifecycle
  import opened LifecycleSafety
  import opened ExitAndWait

  /** Does the step end with a timer interrupt, from the clock or from a yield? */
  predicate IsTimerEvent(step: Step) {
    step == Tick || step == Exit || step == Read || step == Wait(Blocks)
  }

  /** Does it call `schedule`? */
  predicate CallsSchedule(s: Sys, step: Step) {
    IsTimerEvent(step) && (step == Tick && IsSlot(s.current) && |s.procs| == PROC_MAX ==> Switches(s))
  }

  /** The calls of `schedule` in steps `k` to `n`. */
  ghost function Calls(ss: seq<Sys>, steps: seq<Step>, k: nat, n: nat): nat
    requires k <= n <= |steps| <= |ss|
  {
    if n == k then 0 else Calls(ss, steps, k, n - 1) + if CallsSchedule(ss[n - 1], steps[n - 1]) then 1 else 0
  }

  /** The timer interrupts in steps `k` to `n`. */
  ghost function Events(steps: seq<Step>, k: nat, n: nat): nat
    requires k <= n <= |steps|
  {
    if n == k then 0 else Events(steps, k, n - 1) + if IsTimerEvent(steps[n - 1]) then 1 else 0
  }

  /** Process `p` is ready in states `k` to `n`. */
  ghost predicate StaysReady(ss: seq<Sys>, p: int, k: nat, n: nat) {
    forall j :: k <= j <= n < |ss| ==> 0 <= p < |ss[j].procs| && ss[j].procs[p].stat == Ready
  }

  lemma ScheduleComesCloser(procs: seq<Proc>, current: int, procs': seq<Proc>, next: int, p: int)
    requires Scheduled(procs, current, procs', next) && IsSlot(current) && IsSlot(p) && procs[p].stat == Ready
    requires next != p
    ensures 0 <= Position(next, p) < Position(current, p) < PROC_MAX
  {
  }

  /** A call of `schedule` that picks another process brings the scan closer to `p`; a step
      without one leaves it where it is. */
  lemma StepComesCloser(s: Sys, step: Step, s': Sys, p: int)
    requires Inv(s) && Next(s, step, s') && IsSlot(p) && s.procs[p].stat == Ready
    requires |s'.procs| == PROC_MAX && s'.procs[p].stat == Ready
    requires CallsSchedule(s, step) ==> s'.current != p
    ensures if CallsSchedule(s, step) then 0 <= Position(s'.current, p) < Position(s.current, p)
            else s'.current == s.current
  {
    if CallsSchedule(s, step) {
      StatsFollow(s, step, s', p);
      match step
      case Tick => ScheduleComesCloser(s.procs, s.current, s'.procs, s'.current, p);
      case Exit =>
        ExitingSlot(s, s.current);
        ExitingSlot(s, p);
        ScheduleComesCloser(Exiting(s).procs, s.current, s'.procs, s'.current, p);
      case Wait(o) => ScheduleComesCloser(Blocked(s, Waiting, InWait).procs, s.current, s'.procs, s'.current, p);
      case Read => ScheduleComesCloser(Blocked(s, WaitingInput, InRead).procs, s.current, s'.procs, s'.current, p);
    }
  }

  /** Step `j` calls `schedule` only if it brings the scan closer to `p`. */
  ghost predicate Closer(ss: seq<Sys>, steps: seq<Step>, p: int, j: int) {
    && 0 <= j < |steps| < |ss|
    && Position(ss[j + 1].current, p) + (if CallsSchedule(ss[j], steps[j]) then 1 else 0) <= Position(ss[j].current, p)
  }

  lemma RunComesCloser(ss: seq<Sys>, steps: seq<Step>, p: int, j: nat)
    requires Run(ss, steps) && j < |steps| && IsSlot(p) && StaysReady(ss, p, j, j + 1)
    requires CallsSchedule(ss[j], steps[j]) ==> ss[j + 1].current != p
    ensures Closer(ss, steps, p, j)
  {
    RunKeepsInv(ss, steps, j);
    assert Next(ss[j], steps[j], ss[j + 1]);
    NextKeepsInv(ss[j], steps[j], ss[j + 1]);
    StepComesCloser(ss[j], steps[j], ss[j + 1], p);
  }

  /** The cyclic distance from the current process to `p` pays for every call of `schedule`. */
  lemma {:induction false} CallsBounded(ss: seq<Sys>, steps: seq<Step>, p: int, k: nat, n: nat)
    requires k <= n <= |steps| < |ss| && forall j :: k <= j < n ==> Closer(ss, steps, p, j)
    ensures Calls(ss, steps, k, n) + Position(ss[n].current, p) <= Position(ss[k].current, p)
  {
    if k < n {
      CallsBounded(ss, steps, p, k, n - 1);
      assert Closer(ss, steps, p, n - 1);
    }
  }

  /** A process that stays ready is picked within 32 calls of `schedule`, whatever the others do. */
  lemma PickedWithin32Calls(ss: seq<Sys>, steps: seq<Step>, p: int, k: nat, n: nat)
    requires Run(ss, steps) && k <= n <= |steps| && IsSlot(p) && StaysReady(ss, p, k, n)
    requires Calls(ss, steps, k, n) >= PROC_MAX
    ensures exists j :: k < j <= n && CallsSchedule(ss[j - 1], steps[j - 1]) && ss[j].current == p
  {
    if forall j :: k < j <= n && CallsSchedule(ss[j - 1], steps[j - 1]) ==> ss[j].current != p {
      forall j | k <= j < n ensures Closer(ss, steps, p, j) {
        assert CallsSchedule(ss[j + 1 - 1], steps[j + 1 - 1]) ==> ss[j + 1].current != p;
        RunComesCloser(ss, steps, p, j);
      }
      CallsBounded(ss, steps, p, k, n);
      RunKeepsInv(ss, steps, k);
      RunKeepsInv(ss, steps, n);
    }
  }

  /** The tick counter advances with every timer interrupt, and wraps. */
  lemma TicksAdvance(s: Sys, step: Step, s': Sys)
    requires Inv(s) && Next(s, step, s')
    ensures s'.ticks == if IsTimerEvent(step) then (s.ticks + 1) % TICK_WRAP else s.ticks
  {
  }

  /** The wrap is a multiple of four. */
  lemma WrapKeepsPhase(t: int)
    requires 0 <= t < TICK_WRAP
    ensures (t + 1) % TICK_WRAP % 4 == (t % 4 + 1) % 4
  {
  }

  /** One timer interrupt moves the phase of the counter, or calls `schedule`, or both. */
  ghost predicate PhaseMoves(ss: seq<Sys>, steps: seq<Step>, j: int) {
    && 0 <= j < |steps| < |ss|
    && 4 * (if CallsSchedule(ss[j], steps[j]) then 1 else 0) + ss[j + 1].ticks % 4
       >= (if IsTimerEvent(steps[j]) then 1 else 0) + ss[j].ticks % 4
  }

  lemma PhaseAdvances(ss: seq<Sys>, steps: seq<Step>, j: nat)
    requires Run(ss, steps) && j < |steps|
    ensures PhaseMoves(ss, steps, j)
  {
    RunKeepsInv(ss, steps, j);
    assert Next(ss[j], steps[j], ss[j + 1]);
    TicksAdvance(ss[j], steps[j], ss[j + 1]);
    WrapKeepsPhase(ss[j].ticks);
  }

  /** At least one timer interrupt in four calls `schedule`, across the wrap of the counter too. */
  lemma {:induction false} CallsPerEvents(ss: seq<Sys>, steps: seq<Step>, k: nat, n: nat)
    requires k <= n <= |steps| < |ss| && forall j :: k <= j < n ==> PhaseMoves(ss, steps, j)
    ensures 4 * Calls(ss, steps, k, n) + ss[n].ticks % 4 >= Events(steps, k, n) + ss[k].ticks % 4
  {
    if k < n {
      CallsPerEvents(ss, steps, k, n - 1);
      assert PhaseMoves(ss, steps, n - 1);
    }
  }

  /** ... and hence within 128 timer interrupts. */
  lemma PickedWithin128Ticks(ss: seq<Sys>, steps: seq<Step>, p: int, k: nat, n: nat)
    requires Run(ss, steps) && k <= n <= |steps| && IsSlot(p) && StaysReady(ss, p, k, n)
    requires Events(steps, k, n) >= 4 * PROC_MAX
    ensures exists j :: k < j <= n && CallsSchedule(ss[j - 1], steps[j - 1]) && ss[j].current == p
  {
    forall j | k <= j < n ensures PhaseMoves(ss, steps, j) {
      PhaseAdvances(ss, steps, j);
    }
    CallsPerEvents(ss, steps, k, n);
    PickedWithin32Calls(ss, steps, p, k, n);
  }
}
