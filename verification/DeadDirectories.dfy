/**
 What becomes of the page directory of a process whose exit has been reported: the scan that
 passes its slot gives the frame back, and it does so soon.
 */
module DeadDirectories {
  import opened Limits
  import L = Lifecycle
  import S = LifecycleSafety
  import F = Fairness
  import T = StepEffects
  import C = Cow
  import opened Kernel

  /** Does the step call `schedule`? */
  predicate Scans(k: Machine, step: Step) {
    step.Process? && T.Scans(k.sys, step.call)
  }

  predicate IsTimerEvent(step: Step) {
    step.Process? && F.IsTimerEvent(step.call)
  }

  /** The calls of `schedule` in steps `k` to `n`. */
  ghost function ScanCount(ks: seq<Machine>, steps: seq<Step>, k: nat, n: nat): nat
    requires k <= n <= |steps| <= |ks|
  {
    if n == k then 0 else ScanCount(ks, steps, k, n - 1) + if Scans(ks[n - 1], steps[n - 1]) then 1 else 0
  }

  /** The timer interrupts. */
  ghost function EventCount(steps: seq<Step>, k: nat, n: nat): nat
    requires k <= n <= |steps|
  {
    if n == k then 0 else EventCount(steps, k, n - 1) + if IsTimerEvent(steps[n - 1]) then 1 else 0
  }

  /** Slot `j` is dead and its directory is frame `d`. */
  ghost predicate Holds(k: Machine, j: int, d: int) {
    && |k.sys.procs| == PROC_MAX && L.IsSlot(j) && k.sys.procs[j].stat == L.Dead
    && j in k.mem.dirs && k.mem.dirs[j] == d && d in k.mem.frames
  }

  /** The slot is empty, and the frame is free. */
  ghost predicate Freed(k: Machine, j: int, d: int) {
    && |k.sys.procs| == PROC_MAX && L.IsSlot(j) && k.sys.procs[j].stat == L.Empty
    && j !in k.mem.dirs && d !in k.mem.frames
  }

  lemma DeadHolds(k: Machine, j: int)
    requires Inv(k) && L.IsSlot(j) && k.sys.procs[j].stat == L.Dead
    ensures j in k.mem.dirs && Holds(k, j, k.mem.dirs[j])
  {
    assert C.HasRole(k.mem, C.Directory(j)) && C.FrameOf(k.mem, C.Directory(j)) == k.mem.dirs[j];
  }

  lemma ReapedDirectory(k: Machine, k': Machine, mid: C.Mem, j: int, d: int)
    requires Holds(k, j, d) && |k'.sys.procs| == PROC_MAX && j in mid.dirs && mid.dirs[j] == d
    requires k'.sys.procs[j].stat == L.Dead || k'.sys.procs[j].stat == L.Empty
    requires k'.mem == Reaped(mid, ReapedSlots(k.sys, k'.sys))
    ensures k'.sys.procs[j].stat == L.Empty ==> Freed(k', j, d)
    ensures k'.sys.procs[j].stat == L.Dead ==> j in k'.mem.dirs && k'.mem.dirs[j] == d
  {
  }

  /** A call of the processes keeps a dead slot and its directory, or empties the slot and frees
      the directory ... */
  lemma CallHoldsOrFrees(k: Machine, a: L.Step, k': Machine, j: int, d: int)
    requires Inv(k) && Next(k, Process(a), k') && Holds(k, j, d)
    ensures |k'.sys.procs| == PROC_MAX && (k'.sys.procs[j].stat == L.Dead || Freed(k', j, d))
    ensures k'.sys.procs[j].stat == L.Dead ==> j in k'.mem.dirs && k'.mem.dirs[j] == d
  {
    T.DeadComesCloser(k.sys, a, k'.sys, j);
    if a.Exit? {
      var mid :| C.DropRel(k.mem, k.sys.current, mid) && k'.mem == Reaped(mid, ReapedSlots(k.sys, k'.sys));
      assert mid.dirs == k.mem.dirs;
      ReapedDirectory(k, k', mid, j, d);
    } else if a.Fork? {
      NobodyReaped(k.sys, a.r, k'.sys);
    } else {
      ReapedDirectory(k, k', k.mem, j, d);
    }
  }

  /** ... and touching memory keeps both. */
  lemma HoldsOrFreed(k: Machine, step: Step, k': Machine, j: int, d: int)
    requires Inv(k) && Next(k, step, k') && Holds(k, j, d)
    ensures Holds(k', j, d) || Freed(k', j, d)
  {
    NextKeepsInv(k, step, k');
    match step
    case Memory(a) => AccessKeepsOthers(k.mem, a, k'.mem, k.sys.current); DeadHolds(k', j);
    case Process(a) =>
      CallHoldsOrFrees(k, a, k', j, d);
      if k'.sys.procs[j].stat == L.Dead { DeadHolds(k', j); }
  }

  /** While the slot is dead each scan comes closer to it, and every fourth timer interrupt scans. */
  lemma CallWaitsLittle(s: L.Sys, a: L.Step, s': L.Sys, j: int)
    requires S.Inv(s) && L.Next(s, a, s') && L.IsSlot(j) && |s'.procs| == PROC_MAX
    requires s.procs[j].stat == s'.procs[j].stat == L.Dead
    ensures L.Position(s'.current, j) + (if T.Scans(s, a) then 1 else 0) <= L.Position(s.current, j)
    ensures 4 * (if T.Scans(s, a) then 1 else 0) + s'.ticks % 4 >= (if F.IsTimerEvent(a) then 1 else 0) + s.ticks % 4
  {
    T.DeadComesCloser(s, a, s', j);
    T.ScansAreCalls(s, a, s');
    F.TicksAdvance(s, a, s');
    F.WrapKeepsPhase(s.ticks);
  }

  /** So far the slot has been dead, and the distance to it has paid for every scan. */
  ghost predicate Waiting(ks: seq<Machine>, steps: seq<Step>, j: int, d: int, k: nat, m: nat) {
    && k <= m <= |steps| < |ks| && Holds(ks[m], j, d)
    && ScanCount(ks, steps, k, m) + L.Position(ks[m].sys.current, j) <= L.Position(ks[k].sys.current, j)
    && 4 * ScanCount(ks, steps, k, m) + ks[m].sys.ticks % 4 >= EventCount(steps, k, m) + ks[k].sys.ticks % 4
  }

  lemma WaitsOn(ks: seq<Machine>, steps: seq<Step>, j: int, d: int, k: nat, m: nat)
    requires Run(ks, steps) && m < |steps| && Waiting(ks, steps, j, d, k, m)
    ensures Waiting(ks, steps, j, d, k, m + 1) || Freed(ks[m + 1], j, d)
  {
    RunKeepsInv(ks, steps, m);
    assert Next(ks[m], steps[m], ks[m + 1]);
    HoldsOrFreed(ks[m], steps[m], ks[m + 1], j, d);
    if Holds(ks[m + 1], j, d) && steps[m].Process? {
      CallWaitsLittle(ks[m].sys, steps[m].call, ks[m + 1].sys, j);
    }
  }

  lemma NotForLong(ks: seq<Machine>, steps: seq<Step>, j: int, d: int, k: nat, n: nat)
    requires Run(ks, steps) && Waiting(ks, steps, j, d, k, n)
    ensures ScanCount(ks, steps, k, n) < 32 && EventCount(steps, k, n) < 128
  {
    RunKeepsInv(ks, steps, k);
    RunKeepsInv(ks, steps, n);
  }

  lemma {:induction false} FreedLater(ks: seq<Machine>, steps: seq<Step>, j: int, d: int, k: nat, m: nat, n: nat)
    returns (f: nat)
    requires Run(ks, steps) && Waiting(ks, steps, j, d, k, m) && m <= n <= |steps|
    requires ScanCount(ks, steps, k, n) >= 32 || EventCount(steps, k, n) >= 128
    ensures m < f <= n && Freed(ks[f], j, d)
    decreases n - m
  {
    if m == n {
      NotForLong(ks, steps, j, d, k, n);
    } else {
      WaitsOn(ks, steps, j, d, k, m);
      if Freed(ks[m + 1], j, d) { f := m + 1; } else { f := FreedLater(ks, steps, j, d, k, m + 1, n); }
    }
  }

  lemma StartsWaiting(ks: seq<Machine>, steps: seq<Step>, j: int, k: nat)
    requires Run(ks, steps) && k <= |steps| && L.IsSlot(j)
    requires |ks[k].sys.procs| == PROC_MAX && ks[k].sys.procs[j].stat == L.Dead
    ensures j in ks[k].mem.dirs && Waiting(ks, steps, j, ks[k].mem.dirs[j], k, k)
  {
    RunKeepsInv(ks, steps, k);
    DeadHolds(ks[k], j);
  }

  /** Within 32 calls of `schedule`, or 128 timer interrupts, the slot of a process whose exit has
      been reported is empty and the frame of its directory free for the next fork. */
  lemma DirectoryFreed(ks: seq<Machine>, steps: seq<Step>, j: int, k: nat, n: nat) returns (m: nat)
    requires Run(ks, steps) && k <= n <= |steps| && L.IsSlot(j)
    requires |ks[k].sys.procs| == PROC_MAX && ks[k].sys.procs[j].stat == L.Dead
    requires ScanCount(ks, steps, k, n) >= 32 || EventCount(steps, k, n) >= 128
    ensures j in ks[k].mem.dirs && k < m <= n && Freed(ks[m], j, ks[k].mem.dirs[j])
  {
    StartsWaiting(ks, steps, j, k);
    m := FreedLater(ks, steps, j, ks[k].mem.dirs[j], k, k, n);
  }
}
