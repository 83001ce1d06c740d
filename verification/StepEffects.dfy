/**
 What each step of the process machine does, field by field and slot by slot, said without the
 functions its relations are made of; and what that comes to over runs: dead slots are reaped,
 children keep their terminal, readers are woken.
 */
module StepEffects {
  import opened Limits
  import opened Lifecycle
  import opened LifecycleSafety
  import opened ExitAndWait
  import opened Fairness

  /** How many slots a scan from the one after `current` has seen before it comes to slot `j`. */
  function Ahead(current: int, j: int): int {
    (j - current - 1) % 32
  }

  /** The steps in which the timer handler calls `schedule`: every yield, and every fourth tick. */
  predicate Scans(s: Sys, step: Step) {
    step == Exit || step == Read || step == Wait(Blocks) || (step == Tick && (s.ticks + 1) % 0x1_0000_0000 % 4 == 0)
  }

  lemma AheadIsPosition(current: int, j: int)
    requires IsSlot(current) && IsSlot(j)
    ensures Position(current, j) == Ahead(current, j)
  {
  }

  lemma ScansAreCalls(s: Sys, step: Step, s': Sys)
    requires Inv(s) && Next(s, step, s')
    ensures Scans(s, step) <==> CallsSchedule(s, step)
  {
  }

  // ----- who runs next -----

  /** The process that runs is the first ready one after slot `current`. */
  ghost predicate RunsFirst(current: int, s': Sys) {
    && |s'.procs| == 32 && 0 <= s'.current < 32 && s'.procs[s'.current].stat == Ready
    && forall j {:trigger s'.procs[j]} :: 0 <= j < 32 && Ahead(current, j) < Ahead(current, s'.current) ==>
         s'.procs[j].stat != Ready
  }

  /** A scan picks it; without a scan the process goes on. */
  lemma CurrentAfter(s: Sys, step: Step, s': Sys)
    requires Inv(s) && Next(s, step, s')
    ensures |s'.procs| == 32 && 0 <= s'.current < 32 && s'.procs[s'.current].stat == Ready
    ensures if Scans(s, step) then RunsFirst(s.current, s') else s'.current == s.current
    ensures s'.ticks == if Scans(s, step) || step == Tick then (s.ticks + 1) % 0x1_0000_0000 else s.ticks
  {
    NextKeepsInv(s, step, s');
    if Scans(s, step) {
      ScansFrom(s, step, s');
      ScanPicks(Scanned(s, step), s');
    } else {
      NobodyScans(s, step, s');
    }
  }

  /** The state a scan starts from. */
  function Scanned(s: Sys, step: Step): Sys
    requires IsSlot(s.current) && |s.procs| == PROC_MAX && IsSlot(s.procs[s.current].father)
  {
    match step
    case Exit => Exiting(s)
    case Wait(_) => Blocked(s, Waiting, InWait)
    case Read => Blocked(s, WaitingInput, InRead)
    case _ => s
  }

  lemma ScansFrom(s: Sys, step: Step, s': Sys)
    requires Inv(s) && Next(s, step, s') && Scans(s, step)
    ensures IsSlot(s.procs[s.current].father)
    ensures var t := Scanned(s, step);
            && TimerRel(t, s') && |t.procs| == 32 && t.current == s.current && t.ticks == s.ticks
            && ((t.ticks + 1) % 0x1_0000_0000 % 4 == 0 || t.procs[t.current].stat != Ready)
  {
    assert FatherAlive(s.procs, s.current);
    if step == Exit { ExitingSlot(s, s.current); }
  }

  lemma NobodyScans(s: Sys, step: Step, s': Sys)
    requires Inv(s) && Next(s, step, s') && !Scans(s, step)
    ensures s'.current == s.current && s'.ticks == if step == Tick then (s.ticks + 1) % 0x1_0000_0000 else s.ticks
    ensures step == Tick ==> s'.procs == s.procs
  {
  }

  lemma ScanPicks(t: Sys, s': Sys)
    requires TimerRel(t, s') && IsSlot(s'.current)
    requires |t.procs| == 32 && ((t.ticks + 1) % 0x1_0000_0000 % 4 == 0 || t.procs[t.current].stat != Ready)
    ensures |s'.procs| == 32 && s'.ticks == (t.ticks + 1) % 0x1_0000_0000 && RunsFirst(t.current, s')
  {
    forall j | IsSlot(j) && Ahead(t.current, j) < Ahead(t.current, s'.current) ensures s'.procs[j].stat != Ready {
      AheadIsPosition(t.current, j);
      AheadIsPosition(t.current, s'.current);
    }
  }

  // ----- the fields of a slot -----

  /** The slot a timer handler that scans leaves: dead slots it passes are empty, all else stays. */
  lemma ScannedSlot(t: Sys, s': Sys, i: int)
    requires TimerRel(t, s') && IsSlot(i) && IsSlot(s'.current)
    requires |t.procs| == 32 && ((t.ticks + 1) % 0x1_0000_0000 % 4 == 0 || t.procs[t.current].stat != Ready)
    ensures |s'.procs| == 32
    ensures s'.procs[i] == if t.procs[i].stat == Dead && Ahead(t.current, i) < Ahead(t.current, s'.current)
                           then t.procs[i].(stat := Empty) else t.procs[i]
  {
    AheadIsPosition(t.current, i);
    AheadIsPosition(t.current, s'.current);
  }

  /** Who a slot is: pid and terminal change by a fork of the slot, and by its own `SetTty`. */
  lemma IdentityAfter(s: Sys, step: Step, s': Sys, i: int)
    requires Inv(s) && Next(s, step, s') && 0 <= i < 32
    ensures |s'.procs| == 32
    ensures s'.procs[i].pid == if step == Fork(i) then i else s.procs[i].pid
    ensures s'.procs[i].tty == if step == Fork(i) then s.procs[s.current].tty
                               else if step.SetTty? && i == s.current then step.tty else s.procs[i].tty
  {
    match step
    case Exit => ExitingSlot(s, i); YieldSlot(Exiting(s), s', i); ExitingTty(s, i);
    case Wait(o) =>
      if o.Blocks? { YieldSlot(Blocked(s, Waiting, InWait), s', i); }
    case Read => YieldSlot(Blocked(s, WaitingInput, InRead), s', i);
    case Tick => YieldSlot(s, s', i);
    case _ =>
  }

  lemma ExitingTty(s: Sys, i: int)
    requires Inv(s) && s.current != 0 && IsSlot(i) && IsSlot(s.procs[s.current].father)
    ensures |Exiting(s).procs| == PROC_MAX && Exiting(s).procs[i].tty == s.procs[i].tty
  {
  }

  /** Whose child it is: a fork names the process that forks, an exit hands its children to 0. */
  lemma FatherBecomes(s: Sys, step: Step, s': Sys, i: int)
    requires Inv(s) && Next(s, step, s') && 0 <= i < 32
    ensures |s'.procs| == 32
    ensures s'.procs[i].father == if step == Fork(i) then s.current
                                  else if step == Exit && i != s.current && s.procs[i].father == s.current then 0
                                  else s.procs[i].father
  {
    match step
    case Exit => ExitingSlot(s, i); YieldSlot(Exiting(s), s', i);
    case Wait(o) =>
      if o.Blocks? { YieldSlot(Blocked(s, Waiting, InWait), s', i); }
    case Read => YieldSlot(Blocked(s, WaitingInput, InRead), s', i);
    case Tick => YieldSlot(s, s', i);
    case _ =>
  }

  /** The slot is dead and the scan of the step passes it. */
  predicate Reaps(s: Sys, step: Step, s': Sys, i: int)
    requires 0 <= i < |s.procs|
  {
    s.procs[i].stat == Dead && Scans(s, step) && Ahead(s.current, i) < Ahead(s.current, s'.current)
  }

  /** Its state, whatever the step. */
  lemma StatAfter(s: Sys, step: Step, s': Sys, i: int)
    requires Inv(s) && Next(s, step, s') && 0 <= i < 32
    ensures |s'.procs| == 32
    ensures var x, y := s.procs[i], s'.procs[i];
            y.stat == if step == Fork(i) then Ready
                      else if step == Exit && i == s.current then Hanging
                      else if step == Exit && i == s.procs[s.current].father && x.stat == Waiting then Ready
                      else if step == Wait(Reported(i)) then Dead
                      else if step == Wait(Blocks) && i == s.current then Waiting
                      else if step == Read && i == s.current then WaitingInput
                      else if step.Wake? && x.stat == WaitingInput && x.tty == step.tty then Ready
                      else if Reaps(s, step, s', i) then Empty
                      else x.stat
  {
    if Scans(s, step) { StatAfterScan(s, step, s', i); } else { StatAfterCall(s, step, s', i); }
  }

  lemma StatAfterScan(s: Sys, step: Step, s': Sys, i: int)
    requires Inv(s) && Next(s, step, s') && 0 <= i < 32 && Scans(s, step)
    ensures |s'.procs| == 32
    ensures s'.procs[i].stat ==
            if step == Exit && i == s.current then Hanging
            else if step == Exit && i == s.procs[s.current].father && s.procs[i].stat == Waiting then Ready
            else if step == Wait(Blocks) && i == s.current then Waiting
            else if step == Read && i == s.current then WaitingInput
            else if Reaps(s, step, s', i) then Empty
            else s.procs[i].stat
  {
    NextKeepsInv(s, step, s');
    ScansFrom(s, step, s');
    ScannedSlot(Scanned(s, step), s', i);
    ScannedStat(s, step, i);
  }

  lemma StatAfterCall(s: Sys, step: Step, s': Sys, i: int)
    requires Inv(s) && Next(s, step, s') && 0 <= i < 32 && !Scans(s, step)
    ensures |s'.procs| == 32
    ensures s'.procs[i].stat ==
            if step == Fork(i) then Ready
            else if step == Wait(Reported(i)) then Dead
            else if step.Wake? && s.procs[i].stat == WaitingInput && s.procs[i].tty == step.tty then Ready
            else s.procs[i].stat
  {
    assert Consistent(s.procs, i);
    NobodyScans(s, step, s');
  }

  lemma ScannedStat(s: Sys, step: Step, i: int)
    requires Inv(s) && Scans(s, step) && 0 <= i < 32 && IsSlot(s.procs[s.current].father) &&
             (step == Exit ==> s.current != 0)
    ensures |Scanned(s, step).procs| == 32
    ensures Scanned(s, step).procs[i].stat ==
            if step == Exit && i == s.current then Hanging
            else if step == Exit && i == s.procs[s.current].father && s.procs[i].stat == Waiting then Ready
            else if step == Wait(Blocks) && i == s.current then Waiting
            else if step == Read && i == s.current then WaitingInput
            else s.procs[i].stat
  {
    if step == Exit { ExitingSlot(s, i); }
  }

  /** Where it goes on: a child starts in user code, and a call that blocks says where. */
  lemma PlaceAfter(s: Sys, step: Step, s': Sys, i: int)
    requires Inv(s) && Next(s, step, s') && 0 <= i < 32
    ensures |s'.procs| == 32
    ensures s'.procs[i].place ==
            if step == Fork(i) then InUser
            else if i != s.current then s.procs[i].place
            else if step == Exit then InExit
            else if step == Wait(Blocks) then InWait
            else if step == Read then InRead
            else if step.Wait? || step == ReadOn then InUser
            else s.procs[i].place
  {
    match step
    case Exit => ExitingSlot(s, i); YieldSlot(Exiting(s), s', i);
    case Wait(o) =>
      if o.Blocks? { YieldSlot(Blocked(s, Waiting, InWait), s', i); }
    case Read => YieldSlot(Blocked(s, WaitingInput, InRead), s', i);
    case Tick => YieldSlot(s, s', i);
    case _ =>
  }

  // ----- what the calls answer -----

  /** fork answers the lowest empty slot, or -1 if there is none. */
  lemma ForkAnswers(s: Sys, r: int, s': Sys)
    requires Inv(s) && Next(s, Fork(r), s')
    ensures r == -1 <==> forall j :: 0 <= j < 32 ==> s.procs[j].stat != Empty
    ensures r != -1 ==> 0 <= r < 32 && s.procs[r].stat == Empty && forall j :: 0 <= j < r ==> s.procs[j].stat != Empty
  {
  }

  /** wait answers the lowest slot that names the process and hangs, -1 if no other slot names
      it, and blocks otherwise. */
  lemma WaitAnswers(s: Sys, o: Outcome, s': Sys)
    requires Inv(s) && Next(s, Wait(o), s')
    ensures match o
            case Reported(c) =>
              && 0 <= c < 32 && c != s.current && s.procs[c].father == s.current && s.procs[c].stat == Hanging
              && s.procs[c].pid == c
              && forall i :: 0 <= i < c && i != s.current && s.procs[i].father == s.current ==>
                     s.procs[i].stat != Hanging
            case NoChild => forall i :: 0 <= i < 32 && i != s.current ==> s.procs[i].father != s.current
            case Blocks =>
              && (exists i :: 0 <= i < 32 && i != s.current && s.procs[i].father == s.current)
              && forall i :: 0 <= i < 32 && i != s.current && s.procs[i].father == s.current ==>
                     s.procs[i].stat != Hanging
  {
    match o
    case Reported(c) =>
      assert HangingChild(s.procs, s.current, c) && Consistent(s.procs, c);
      forall i | 0 <= i < c && i != s.current && s.procs[i].father == s.current ensures s.procs[i].stat != Hanging {
        assert !HangingChild(s.procs, s.current, i);
      }
    case NoChild =>
      forall i | 0 <= i < 32 && i != s.current ensures s.procs[i].father != s.current {
        assert !IsChild(s.procs, s.current, i);
      }
    case Blocks =>
      var i :| IsChild(s.procs, s.current, i);
      forall i | 0 <= i < 32 && i != s.current && s.procs[i].father == s.current ensures s.procs[i].stat != Hanging {
        assert !HangingChild(s.procs, s.current, i);
      }
  }

  // ----- over runs: dead slots -----

  /** A dead slot that a call of `schedule` does not pass comes closer. */
  lemma DeadComesCloser(s: Sys, step: Step, s': Sys, j: int)
    requires Inv(s) && Next(s, step, s') && IsSlot(j) && s.procs[j].stat == Dead
    ensures |s'.procs| == PROC_MAX && IsSlot(s'.current) && (s'.procs[j].stat == Dead || s'.procs[j].stat == Empty)
    ensures s'.procs[j].stat == Dead ==>
              Position(s'.current, j) + (if CallsSchedule(s, step) then 1 else 0) <= Position(s.current, j)
  {
    StatAfter(s, step, s', j);
    CurrentAfter(s, step, s');
    ScansAreCalls(s, step, s');
    assert Consistent(s.procs, j);
    if step == Wait(Reported(j)) { WaitAnswers(s, step.o, s'); }
    if step == Fork(j) { ForkAnswers(s, j, s'); }
    if s'.procs[j].stat == Dead {
      AheadIsPosition(s.current, j);
      AheadIsPosition(s'.current, j);
    }
  }

  /** A slot that is dead and never empty is dead throughout. */
  lemma {:induction false} StaysDead(ss: seq<Sys>, steps: seq<Step>, j: int, k: nat, n: nat)
    requires Run(ss, steps) && k <= n <= |steps| && IsSlot(j) && |ss[k].procs| == PROC_MAX &&
             ss[k].procs[j].stat == Dead
    requires forall m :: k < m <= n ==> |ss[m].procs| == PROC_MAX && ss[m].procs[j].stat != Empty
    ensures |ss[n].procs| == PROC_MAX && ss[n].procs[j].stat == Dead
  {
    if k < n {
      StaysDead(ss, steps, j, k, n - 1);
      RunKeepsInv(ss, steps, n - 1);
      assert Next(ss[n - 1], steps[n - 1], ss[n - 1 + 1]);
      DeadComesCloser(ss[n - 1], steps[n - 1], ss[n], j);
    }
  }

  /** The slot of a process whose exit has been reported is empty within 32 calls of `schedule` ... */
  lemma EmptyWithin32Calls(ss: seq<Sys>, steps: seq<Step>, j: int, k: nat, n: nat)
    requires Run(ss, steps) && k <= n <= |steps| && IsSlot(j) && |ss[k].procs| == PROC_MAX &&
             ss[k].procs[j].stat == Dead
    requires Calls(ss, steps, k, n) >= 32
    ensures exists m :: k < m <= n && |ss[m].procs| == PROC_MAX && ss[m].procs[j].stat == Empty
  {
    if forall m :: k < m <= n ==> |ss[m].procs| == PROC_MAX && ss[m].procs[j].stat != Empty {
      forall m | k <= m < n ensures Closer(ss, steps, j, m) {
        StaysDead(ss, steps, j, k, m);
        StaysDead(ss, steps, j, k, m + 1);
        RunKeepsInv(ss, steps, m);
        assert Next(ss[m], steps[m], ss[m + 1]);
        DeadComesCloser(ss[m], steps[m], ss[m + 1], j);
      }
      CallsBounded(ss, steps, j, k, n);
      RunKeepsInv(ss, steps, k);
      RunKeepsInv(ss, steps, n);
    } else {
      var m :| k < m <= n && !(|ss[m].procs| == PROC_MAX && ss[m].procs[j].stat != Empty);
      RunKeepsInv(ss, steps, m);
    }
  }

  /** ... and hence within 128 timer interrupts. */
  lemma EmptyWithin128Ticks(ss: seq<Sys>, steps: seq<Step>, j: int, k: nat, n: nat)
    requires Run(ss, steps) && k <= n <= |steps| && IsSlot(j) && |ss[k].procs| == PROC_MAX &&
             ss[k].procs[j].stat == Dead
    requires Events(steps, k, n) >= 128
    ensures exists m :: k < m <= n && |ss[m].procs| == PROC_MAX && ss[m].procs[j].stat == Empty
  {
    forall m | k <= m < n ensures PhaseMoves(ss, steps, m) { PhaseAdvances(ss, steps, m); }
    CallsPerEvents(ss, steps, k, n);
    EmptyWithin32Calls(ss, steps, j, k, n);
  }

  // ----- over runs: terminals -----

  /** Step `m` gives slot `i` another terminal, or to another process. */
  predicate TakesTerminal(ss: seq<Sys>, steps: seq<Step>, i: int, m: int) {
    0 <= m < |steps| <= |ss| && (steps[m] == Fork(i) || (steps[m].SetTty? && ss[m].current == i))
  }

  lemma {:induction false} TerminalStays(ss: seq<Sys>, steps: seq<Step>, i: int, k: nat, n: nat)
    requires Run(ss, steps) && k <= n <= |steps| && IsSlot(i)
    requires forall m :: k <= m < n ==> !TakesTerminal(ss, steps, i, m)
    ensures |ss[k].procs| == |ss[n].procs| == PROC_MAX && ss[n].procs[i].tty == ss[k].procs[i].tty
  {
    RunKeepsInv(ss, steps, n);
    if k < n {
      TerminalStays(ss, steps, i, k, n - 1);
      RunKeepsInv(ss, steps, n - 1);
      assert Next(ss[n - 1], steps[n - 1], ss[n - 1 + 1]) && !TakesTerminal(ss, steps, i, n - 1);
      IdentityAfter(ss[n - 1], steps[n - 1], ss[n], i);
    }
  }

  /** A process that has not moved to another terminal has the one its parent had at the fork. */
  lemma TerminalInherited(ss: seq<Sys>, steps: seq<Step>, i: int, k: nat, n: nat)
    requires Run(ss, steps) && k < n <= |steps| && IsSlot(i) && steps[k] == Fork(i)
    requires forall m :: k < m < n ==> !TakesTerminal(ss, steps, i, m)
    ensures |ss[k].procs| == |ss[n].procs| == PROC_MAX && IsSlot(ss[k].current)
    ensures ss[n].procs[i].tty == ss[k].procs[ss[k].current].tty
  {
    RunKeepsInv(ss, steps, k);
    assert Next(ss[k], steps[k], ss[k + 1]);
    IdentityAfter(ss[k], steps[k], ss[k + 1], i);
    TerminalStays(ss, steps, i, k + 1, n);
  }

  // ----- over runs: readers -----

  /** Enter wakes exactly the readers of its terminal, and changes nothing else. */
  lemma WakeReaches(s: Sys, tty: int, s': Sys, i: int)
    requires Inv(s) && Next(s, Wake(tty), s') && 0 <= i < 32
    ensures |s'.procs| == 32 && s'.current == s.current && s'.ticks == s.ticks
    ensures s.procs[i].stat == WaitingInput ==> (s'.procs[i].stat == Ready <==> s.procs[i].tty == tty)
    ensures s.procs[i].stat != WaitingInput || s.procs[i].tty != tty ==> s'.procs[i] == s.procs[i]
    ensures s'.procs[i].(stat := s.procs[i].stat) == s.procs[i]
  {
  }

  predicate Reading(s: Sys, i: int, tty: int) {
    0 <= i < |s.procs| && s.procs[i].stat == WaitingInput && s.procs[i].tty == tty
  }

  /** A reader waits as long as Enter is not hit on its terminal ... */
  lemma {:induction false} ReaderWaits(ss: seq<Sys>, steps: seq<Step>, i: int, tty: int, k: nat, n: nat)
    requires Run(ss, steps) && k <= n <= |steps| && Reading(ss[k], i, tty)
    requires forall m :: k <= m < n ==> steps[m] != Wake(tty)
    ensures Reading(ss[n], i, tty)
  {
    if k < n {
      ReaderWaits(ss, steps, i, tty, k, n - 1);
      RunKeepsInv(ss, steps, n - 1);
      assert Next(ss[n - 1], steps[n - 1], ss[n - 1 + 1]);
      ReaderStays(ss[n - 1], steps[n - 1], ss[n], i, tty);
    }
  }

  lemma ReaderStays(s: Sys, step: Step, s': Sys, i: int, tty: int)
    requires Inv(s) && Next(s, step, s') && Reading(s, i, tty) && step != Wake(tty)
    ensures Reading(s', i, tty)
  {
    StatAfter(s, step, s', i);
    IdentityAfter(s, step, s', i);
    assert Consistent(s.procs, i) && s.procs[s.current].stat == Ready;
    if step == Wait(Reported(i)) { WaitAnswers(s, step.o, s'); }
    if step == Fork(i) { ForkAnswers(s, i, s'); }
  }

  /** ... and is ready after the first time it is. */
  lemma ReaderWakes(ss: seq<Sys>, steps: seq<Step>, i: int, tty: int, k: nat, n: nat)
    requires Run(ss, steps) && k <= n < |steps| && Reading(ss[k], i, tty)
    requires steps[n] == Wake(tty) && forall m :: k <= m < n ==> steps[m] != Wake(tty)
    ensures |ss[n + 1].procs| == PROC_MAX && 0 <= i < PROC_MAX && ss[n + 1].procs[i].stat == Ready
  {
    ReaderWaits(ss, steps, i, tty, k, n);
    RunKeepsInv(ss, steps, n);
    assert Next(ss[n], steps[n], ss[n + 1]);
    WakeReaches(ss[n], tty, ss[n + 1], i);
  }
}
