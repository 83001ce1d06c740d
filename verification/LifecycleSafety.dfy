/**
 What every run of the process machine keeps: the family tree stays alive, no exited child
 is missed by a father that waits, and each exit is reported at most once.
 */
module LifecycleSafety {
  import opened Limits
  import opened Lifecycle

  // ----- the invariant -----

  /** A process that has not exited. */
  predicate Alive(x: Proc) {
    x.stat == Ready || x.stat == WaitingInput || x.stat == Waiting
  }

  /** The state of a process says where it stopped, and its PCB which slot it is in. */
  predicate Consistent(procs: seq<Proc>, i: int)
    requires 0 <= i < |procs|
  {
    && (procs[i].stat != Empty ==> procs[i].pid == i)
    && match procs[i].stat
       case Ready => procs[i].place != InExit
       case WaitingInput => procs[i].place == InRead
       case Waiting => procs[i].place == InWait
       case Hanging => procs[i].place == InExit
       case Dead => procs[i].place == InExit
       case Empty => true
  }

  /** The father a slot names, even an unused one, has not exited. */
  predicate FatherAlive(procs: seq<Proc>, i: int)
    requires 0 <= i < |procs|
  {
    var f := procs[i].father;
    0 <= f < |procs| && Alive(procs[f]) && (f == i ==> i == 0)
  }

  /** A father that waits, unless it is process 0, has no child that hangs; one that has been
      woken has. */
  ghost predicate Noticed(procs: seq<Proc>, p: int)
    requires 0 <= p < |procs|
  {
    && (p != 0 && procs[p].stat == Waiting ==> !HasHangingChild(procs, p))
    && (procs[p].stat == Ready && procs[p].place == InWait ==> HasHangingChild(procs, p))
  }

  ghost predicate Bounded(s: Sys) {
    |s.procs| == PROC_MAX && IsSlot(s.current) && 0 <= s.ticks < TICK_WRAP
  }

  /** Processes 0 and 1 are there. */
  ghost predicate Founders(procs: seq<Proc>)
    requires |procs| == PROC_MAX
  {
    procs[DRIVER].stat == Ready && procs[DRIVER].place == InUser && Alive(procs[0]) && procs[0].father == 0
  }

  /** What holds between a process giving up the processor and the next one taking it. */
  ghost predicate Settled(s: Sys) {
    && Bounded(s) && Founders(s.procs)
    && (forall i :: IsSlot(i) ==> Consistent(s.procs, i))
    && (forall i :: IsSlot(i) ==> FatherAlive(s.procs, i))
    && (forall p :: IsSlot(p) ==> Noticed(s.procs, p))
  }

  ghost predicate Inv(s: Sys) {
    Settled(s) && s.procs[s.current].stat == Ready
  }

  lemma InitInv(s: Sys)
    requires Init(s)
    ensures Inv(s)
  {
  }

  // ----- each step keeps it -----

  /** A change of states that keeps who is alive, who hangs and who is whose father. */
  ghost predicate SameFamily(procs: seq<Proc>, procs': seq<Proc>) {
    && |procs'| == |procs|
    && forall i {:trigger procs'[i]} :: 0 <= i < |procs| ==>
         && procs'[i].father == procs[i].father
         && (Alive(procs'[i]) <==> Alive(procs[i]))
         && (procs'[i].stat == Hanging <==> procs[i].stat == Hanging)
  }

  lemma SameHangingChildren(procs: seq<Proc>, procs': seq<Proc>, p: int)
    requires SameFamily(procs, procs')
    ensures HasHangingChild(procs', p) <==> HasHangingChild(procs, p)
  {
    if i :| HangingChild(procs, p, i) { assert HangingChild(procs', p, i); }
    if i :| HangingChild(procs', p, i) { assert HangingChild(procs, p, i); }
  }

  /** Such a change keeps the invariant if each process that waits, or has been woken, did so before. */
  lemma SameFamilySettled(s: Sys, s': Sys)
    requires Settled(s) && Bounded(s') && Founders(s'.procs) && SameFamily(s.procs, s'.procs)
    requires forall i :: IsSlot(i) ==> Consistent(s'.procs, i)
    requires forall p {:trigger s'.procs[p]} :: IsSlot(p) ==>
               && (s'.procs[p].stat == Waiting ==> s.procs[p].stat == Waiting || !HasHangingChild(s.procs, p))
               && (s'.procs[p].stat == Ready && s'.procs[p].place == InWait ==>
                     s.procs[p].stat == Ready && s.procs[p].place == InWait)
    ensures Settled(s')
  {
    forall i | IsSlot(i) ensures FatherAlive(s'.procs, i) {
      assert FatherAlive(s.procs, i);
    }
    forall p | IsSlot(p) ensures Noticed(s'.procs, p) {
      assert Noticed(s.procs, p);
      SameHangingChildren(s.procs, s'.procs, p);
    }
  }

  lemma TimerKeeps(s: Sys, s': Sys)
    requires Settled(s) && TimerRel(s, s')
    ensures Inv(s')
  {
    forall i | IsSlot(i) ensures s'.procs[i] == s.procs[i] || s'.procs[i] == Passed(s.procs[i]) {}
    forall i | IsSlot(i) ensures Consistent(s'.procs, i) { assert Consistent(s.procs, i); }
    SameFamilySettled(s, s');
  }

  /** A new process has no children, and is nobody's hanging child. */
  lemma ForkedChildren(s: Sys, r: int, s': Sys, p: int)
    requires Settled(s) && ForkRel(s, r, s') && r != -1 && s.procs[s.current].stat == Ready && IsSlot(p)
    ensures p != r ==> (HasHangingChild(s'.procs, p) <==> HasHangingChild(s.procs, p))
    ensures !HasChild(s.procs, r) && !HasChild(s'.procs, r)
  {
    if i :| HangingChild(s.procs, p, i) { assert HangingChild(s'.procs, p, i); }
    if i :| HangingChild(s'.procs, p, i) { assert HangingChild(s.procs, p, i); }
    forall i | IsSlot(i) ensures s.procs[i].father != r { assert FatherAlive(s.procs, i); }
  }

  lemma ForkKeeps(s: Sys, r: int, s': Sys)
    requires Inv(s) && CanCall(s) && ForkRel(s, r, s')
    ensures Inv(s')
  {
    if r != -1 {
      assert Consistent(s.procs, s.current);
      forall i | IsSlot(i) ensures Consistent(s'.procs, i) { assert Consistent(s.procs, i); }
      forall i | IsSlot(i) ensures FatherAlive(s'.procs, i) { assert FatherAlive(s.procs, i); }
      forall p | IsSlot(p) ensures Noticed(s'.procs, p) {
        assert Noticed(s.procs, p);
        ForkedChildren(s, r, s', p);
      }
    }
  }

  /** What an exit does to a slot. */
  lemma ExitingSlot(s: Sys, i: int)
    requires Inv(s) && s.current != 0 && IsSlot(i)
    ensures IsSlot(s.procs[s.current].father) && s.procs[s.current].father != s.current
    ensures var x, y, f := s.procs[i], Exiting(s).procs[i], s.procs[s.current].father;
            && |Exiting(s).procs| == PROC_MAX
            && y.father == (if x.father == s.current && i != s.current then 0 else x.father)
            && y.stat == (if i == s.current then Hanging else if i == f && x.stat == Waiting then Ready else x.stat)
            && y.place == (if i == s.current then InExit else x.place) && y.pid == x.pid
  {
    assert FatherAlive(s.procs, s.current);
  }

  /** The children of a process that is not the one that exits. */
  lemma ExitingChildren(s: Sys, p: int)
    requires Inv(s) && s.current != 0 && p != s.current && IsSlot(s.procs[s.current].father)
    ensures HasHangingChild(s.procs, p) ==> HasHangingChild(Exiting(s).procs, p)
    ensures p == s.procs[s.current].father ==> HasHangingChild(Exiting(s).procs, p)
    ensures p != 0 && p != s.procs[s.current].father && HasHangingChild(Exiting(s).procs, p) ==>
              HasHangingChild(s.procs, p)
  {
    var procs := Exiting(s).procs;
    if i :| HangingChild(s.procs, p, i) {
      ExitingSlot(s, i);
      assert HangingChild(procs, p, i);
    }
    if p == s.procs[s.current].father {
      ExitingSlot(s, s.current);
      assert HangingChild(procs, p, s.current);
    }
    if p != 0 && p != s.procs[s.current].father {
      if i :| HangingChild(procs, p, i) {
        ExitingSlot(s, i);
        assert HangingChild(s.procs, p, i);
      }
    }
  }

  lemma ExitingSettled(s: Sys)
    requires Inv(s) && CanCall(s) && s.current != 0
    ensures IsSlot(s.procs[s.current].father) && Settled(Exiting(s))
  {
    var procs := Exiting(s).procs;
    ExitingSlot(s, 0);
    ExitingSlot(s, DRIVER);
    forall i | IsSlot(i) ensures Consistent(procs, i) {
      assert Consistent(s.procs, i);
      ExitingSlot(s, i);
    }
    forall i | IsSlot(i) ensures FatherAlive(procs, i) {
      assert FatherAlive(s.procs, i);
      ExitingSlot(s, i);
      ExitingSlot(s, procs[i].father);
    }
    forall p | IsSlot(p) ensures Noticed(procs, p) {
      assert Noticed(s.procs, p);
      ExitingSlot(s, p);
      if p != s.current { ExitingChildren(s, p); }
    }
  }

  /** The process stops, at a place that fits its new state, and does not wait in vain. */
  lemma BlockedSettled(s: Sys, st: Stat, at: Place)
    requires Inv(s) && s.current != DRIVER
    requires (st == Waiting && at == InWait && !HasHangingChild(s.procs, s.current)) ||
             (st == WaitingInput && at == InRead)
    ensures Settled(Blocked(s, st, at))
  {
    forall i | IsSlot(i) ensures Consistent(Blocked(s, st, at).procs, i) { assert Consistent(s.procs, i); }
    SameFamilySettled(s, Blocked(s, st, at));
  }

  lemma ResumedKeeps(s: Sys)
    requires Inv(s)
    ensures Inv(Resumed(s))
  {
    forall i | IsSlot(i) ensures Consistent(Resumed(s).procs, i) { assert Consistent(s.procs, i); }
    SameFamilySettled(s, Resumed(s));
  }

  /** Reporting a child takes it from its father, and from nobody else. */
  lemma ReportedChildren(s: Sys, c: int, s': Sys, p: int)
    requires WaitRel(s, Reported(c), s')
    ensures p != s.current ==> (HasHangingChild(s'.procs, p) <==> HasHangingChild(s.procs, p))
    ensures HasHangingChild(s'.procs, p) ==> HasHangingChild(s.procs, p)
  {
    if p != s.current {
      if i :| HangingChild(s.procs, p, i) { assert HangingChild(s'.procs, p, i); }
    }
    if i :| HangingChild(s'.procs, p, i) { assert HangingChild(s.procs, p, i); }
  }

  lemma ReportedKeeps(s: Sys, c: int, s': Sys)
    requires Inv(s) && WaitRel(s, Reported(c), s')
    ensures Inv(s')
  {
    assert HangingChild(s.procs, s.current, c);
    forall i | IsSlot(i) ensures Consistent(s'.procs, i) { assert Consistent(s.procs, i); }
    forall i | IsSlot(i) ensures FatherAlive(s'.procs, i) { assert FatherAlive(s.procs, i); }
    forall p | IsSlot(p) ensures Noticed(s'.procs, p) {
      assert Noticed(s.procs, p);
      ReportedChildren(s, c, s', p);
    }
  }

  lemma WakeKeeps(s: Sys, tty: int)
    requires Inv(s)
    ensures Inv(s.(procs := Woken(s.procs, tty)))
  {
    var s' := s.(procs := Woken(s.procs, tty));
    forall i | IsSlot(i) ensures Consistent(s'.procs, i) { assert Consistent(s.procs, i); }
    forall i | IsSlot(i) && s'.procs[i] != s.procs[i]
      ensures s'.procs[i].place == InRead
    {
      assert Consistent(s.procs, i);
    }
    SameFamilySettled(s, s');
  }

  lemma SetTtyKeeps(s: Sys, tty: int)
    requires Inv(s)
    ensures Inv(s.(procs := s.procs[s.current := s.procs[s.current].(tty := tty)]))
  {
    var s' := s.(procs := s.procs[s.current := s.procs[s.current].(tty := tty)]);
    forall i | IsSlot(i) ensures Consistent(s'.procs, i) { assert Consistent(s.procs, i); }
    SameFamilySettled(s, s');
  }

  lemma WaitKeeps(s: Sys, o: Outcome, s': Sys)
    requires Inv(s) && s.current != DRIVER && WaitRel(s, o, s')
    ensures Inv(s')
  {
    match o
    case Reported(c) => ReportedKeeps(s, c, s');
    case NoChild => ResumedKeeps(s);
    case Blocks =>
      BlockedSettled(s, Waiting, InWait);
      TimerKeeps(Blocked(s, Waiting, InWait), s');
  }

  lemma NextKeepsInv(s: Sys, step: Step, s': Sys)
    requires Inv(s) && Next(s, step, s')
    ensures Inv(s')
  {
    match step
    case Tick => TimerKeeps(s, s');
    case Fork(r) => ForkKeeps(s, r, s');
    case Exit =>
      ExitingSettled(s);
      TimerKeeps(Exiting(s), s');
    case Wait(o) => WaitKeeps(s, o, s');
    case Read =>
      BlockedSettled(s, WaitingInput, InRead);
      TimerKeeps(Blocked(s, WaitingInput, InRead), s');
    case ReadOn => ResumedKeeps(s);
    case Wake(tty) => WakeKeeps(s, tty);
    case SetTty(tty) => SetTtyKeeps(s, tty);
  }

  lemma {:induction false} RunKeepsInv(ss: seq<Sys>, steps: seq<Step>, n: nat)
    requires Run(ss, steps) && n <= |steps|
    ensures Inv(ss[n])
  {
    if n == 0 {
      InitInv(ss[0]);
    } else {
      RunKeepsInv(ss, steps, n - 1);
      assert Next(ss[n - 1], steps[n - 1], ss[n - 1 + 1]);
      NextKeepsInv(ss[n - 1], steps[n - 1], ss[n]);
    }
  }
}
