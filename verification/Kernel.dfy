/**
 Processes and memory together: which page-table frames are in use at every point where a
 process can be switched, and whose they are.
 */
module Kernel {
  import opened Limits
  import opened MapLemmas
  import L = Lifecycle
  import S = LifecycleSafety
  import E = ExitAndWait
  import C = Cow
  import R = CowRefinement

  datatype Machine = Machine(sys: L.Sys, mem: C.Mem)

  datatype Step =
    | Process(call: L.Step)// a system call, a tick or a wake
    | Memory(access: C.Step)// the current process touches, reads or writes memory, or drops it in exec

  /** The slots a scan turned from dead to empty. */
  ghost function ReapedSlots(s: L.Sys, s': L.Sys): (r: set<int>)
    requires |s.procs| == |s'.procs| == PROC_MAX
    ensures forall i :: i in r <==> L.IsSlot(i) && s.procs[i].stat == L.Dead && s'.procs[i].stat == L.Empty
  {
    set i | 0 <= i < PROC_MAX && s.procs[i].stat == L.Dead && s'.procs[i].stat == L.Empty
  }

  ghost function Directories(m: C.Mem, r: set<int>): (f: set<int>)
    ensures forall p :: p in r && p in m.dirs ==> m.dirs[p] in f
    ensures forall d :: d in f ==> exists p :: p in r && p in m.dirs && m.dirs[p] == d
  {
    set p | p in r && p in m.dirs :: m.dirs[p]
  }

  /** The memory after `sys_free_page_frame` for the directories of a set of processes. */
  ghost function Reaped(m: C.Mem, r: set<int>): C.Mem {
    m.(dirs := m.dirs - r, tabs := m.tabs - r, frames := m.frames - Directories(m, r), spaces := m.spaces - r)
  }

  /** What a step of the processes does to memory. */
  ghost predicate Effect(s: L.Sys, step: L.Step, s': L.Sys, m: C.Mem, m': C.Mem)
    requires |s.procs| == |s'.procs| == PROC_MAX
  {
    match step
    case Fork(r) => if r == -1 then m' == m else C.ForkRel(m, s.current, r, m')
    case Exit => exists mid :: C.DropRel(m, s.current, mid) && m' == Reaped(mid, ReapedSlots(s, s'))
    case _ => m' == Reaped(m, ReapedSlots(s, s'))
  }

  /** The memory steps process `p` can take in user code, or in exec. */
  predicate ByProcess(step: C.Step, p: int) {
    match step
    case FirstTouch(q, v, page) => q == p
    case WriteFault(q, v) => q == p
    case Load(q, v, offset, b) => q == p
    case Store(q, v, offset, b) => q == p
    case Drop(q) => q == p
    case _ => false
  }

  ghost predicate Next(k: Machine, step: Step, k': Machine) {
    match step
    case Process(a) =>
      && L.Next(k.sys, a, k'.sys) && |k.sys.procs| == |k'.sys.procs| == PROC_MAX
      && Effect(k.sys, a, k'.sys, k.mem, k'.mem)
    case Memory(a) =>
      k'.sys == k.sys && L.CanCall(k.sys) && ByProcess(a, k.sys.current) && C.Next(k.mem, a, k'.mem)
  }

  /** `main`: paging is on, process 0 has a directory, process 1 uses the kernel's. */
  ghost predicate Init(k: Machine) {
    L.Init(k.sys) && exists m :: C.Init(m) && C.SpawnRel(m, 0, k.mem)
  }

  ghost predicate Run(ks: seq<Machine>, steps: seq<Step>) {
    && |ks| == |steps| + 1 && Init(ks[0])
    && forall n {:trigger steps[n]} :: 0 <= n < |steps| ==> Next(ks[n], steps[n], ks[n + 1])
  }

  // ----- the invariant -----

  /** Exactly the slots in use have a directory, except the driver's, and an exited process has
      no tables left. */
  ghost predicate Matches(s: L.Sys, m: C.Mem)
    requires |s.procs| == PROC_MAX
  {
    && (forall i :: L.IsSlot(i) ==> (i in m.dirs <==> s.procs[i].stat != L.Empty && i != L.DRIVER))
    && (forall i :: i in m.tabs && L.IsSlot(i) && !S.Alive(s.procs[i]) ==> m.tabs[i] == map[])
  }

  ghost predicate Inv(k: Machine) {
    S.Inv(k.sys) && C.Inv(k.mem) && Matches(k.sys, k.mem)
  }

  lemma InitInv(k: Machine)
    requires Init(k)
    ensures Inv(k)
  {
    var m :| C.Init(m) && C.SpawnRel(m, 0, k.mem);
    S.InitInv(k.sys);
    R.InitInv(m);
    R.NextKeepsInv(m, C.Spawn(0), k.mem);
  }

  /** Freeing the directories one at a time. */
  lemma {:induction false} ReapedKeepsInv(m: C.Mem, r: set<int>)
    requires C.Inv(m) && forall p :: p in r ==> p in m.tabs && m.tabs[p] == map[]
    ensures C.Inv(Reaped(m, r))
  {
    if r == {} {
      assert Reaped(m, {}) == m;
    } else {
      var p := AnyMember(r);
      var rest := r - {p};
      ReapedKeepsInv(m, rest);
      ReapOne(m, rest, p);
      assert rest + {p} == r;
    }
  }

  /** ... is a `Reap` step each. */
  lemma ReapOneMore(m: C.Mem, rest: set<int>, p: int)
    requires p !in rest && p in m.dirs && p in m.tabs && m.tabs[p] == map[]
    ensures C.ReapRel(Reaped(m, rest), p, Reaped(m, rest + {p}))
  {
    var a, b := Reaped(m, rest), Reaped(m, rest + {p});
    assert b.dirs == a.dirs - {p} && b.tabs == a.tabs - {p} && b.spaces == a.spaces - {p};
    assert Directories(m, rest + {p}) == Directories(m, rest) + {m.dirs[p]};
    assert b.frames == a.frames - {a.dirs[p]};
  }

  lemma ReapOne(m: C.Mem, rest: set<int>, p: int)
    requires m.dirs.Keys == m.tabs.Keys && C.Inv(Reaped(m, rest)) && p !in rest && p in m.tabs && m.tabs[p] == map[]
    ensures C.Inv(Reaped(m, rest + {p}))
  {
    ReapOneMore(m, rest, p);
    R.NextKeepsInv(Reaped(m, rest), C.Reap(p), Reaped(m, rest + {p}));
  }

  /** What a step of the processes does to a slot, as far as memory is concerned. */
  lemma SlotsFollow(s: L.Sys, step: L.Step, s': L.Sys, i: int)
    requires S.Inv(s) && L.Next(s, step, s') && L.IsSlot(i)
    ensures |s'.procs| == PROC_MAX
    ensures s'.procs[i].stat == L.Empty <==>
            (s.procs[i].stat == L.Empty && step != L.Fork(i)) || i in ReapedSlots(s, s')
    ensures !S.Alive(s'.procs[i]) <==>
            (!S.Alive(s.procs[i]) && step != L.Fork(i)) || (step == L.Exit && i == s.current)
  {
    E.StatsFollow(s, step, s', i);
  }

  lemma NobodyReaped(s: L.Sys, r: int, s': L.Sys)
    requires S.Inv(s) && L.ForkRel(s, r, s')
    ensures |s'.procs| == PROC_MAX && ReapedSlots(s, s') == {}
  {
  }

  lemma ForkMatches(k: Machine, r: int, k': Machine)
    requires Inv(k) && Next(k, Process(L.Fork(r)), k')
    ensures Matches(k'.sys, k'.mem)
  {
    NobodyReaped(k.sys, r, k'.sys);
    forall i | L.IsSlot(i) ensures i in k'.mem.dirs <==> k'.sys.procs[i].stat != L.Empty && i != L.DRIVER {
      SlotsFollow(k.sys, L.Fork(r), k'.sys, i);
    }
    forall i | i in k'.mem.tabs && L.IsSlot(i) && !S.Alive(k'.sys.procs[i]) ensures k'.mem.tabs[i] == map[] {
      SlotsFollow(k.sys, L.Fork(r), k'.sys, i);
    }
  }

  /** Dead processes have no tables, so their directories can go. */
  lemma ReapedMatches(s: L.Sys, step: L.Step, s': L.Sys, m: C.Mem)
    requires S.Inv(s) && L.Next(s, step, s') && C.Inv(m) && !step.Fork?
    requires forall i :: L.IsSlot(i) ==> (i in m.dirs <==> s.procs[i].stat != L.Empty && i != L.DRIVER)
    requires forall i :: i in m.tabs && L.IsSlot(i) && (!S.Alive(s.procs[i]) || (step == L.Exit && i == s.current)) ==>
               m.tabs[i] == map[]
    ensures |s'.procs| == PROC_MAX && Matches(s', Reaped(m, ReapedSlots(s, s'))) && C.Inv(Reaped(m, ReapedSlots(s, s')))
  {
    forall i | L.IsSlot(i)
      ensures |s'.procs| == PROC_MAX
      ensures s'.procs[i].stat == L.Empty <==> s.procs[i].stat == L.Empty || i in ReapedSlots(s, s')
      ensures !S.Alive(s'.procs[i]) <==> !S.Alive(s.procs[i]) || (step == L.Exit && i == s.current)
    {
      SlotsFollow(s, step, s', i);
    }
    assert |s'.procs| == PROC_MAX by { SlotsFollow(s, step, s', 0); }
    var r := ReapedSlots(s, s');
    forall p | p in r ensures p in m.tabs && m.tabs[p] == map[] {
      assert p in m.dirs;
    }
    ReapedKeepsInv(m, r);
  }

  lemma DropMatches(k: Machine, mid: C.Mem)
    requires Inv(k) && C.DropRel(k.mem, k.sys.current, mid)
    ensures C.Inv(mid)
    ensures forall i :: L.IsSlot(i) ==> (i in mid.dirs <==> k.sys.procs[i].stat != L.Empty && i != L.DRIVER)
    ensures forall i :: i in mid.tabs && L.IsSlot(i) && (!S.Alive(k.sys.procs[i]) || i == k.sys.current) ==>
              mid.tabs[i] == map[]
  {
    R.NextKeepsInv(k.mem, C.Drop(k.sys.current), mid);
  }

  lemma ExitKeepsInv(k: Machine, k': Machine)
    requires Inv(k) && Next(k, Process(L.Exit), k')
    ensures Inv(k')
  {
    var mid :| C.DropRel(k.mem, k.sys.current, mid) && k'.mem == Reaped(mid, ReapedSlots(k.sys, k'.sys));
    DropMatches(k, mid);
    ReapedMatches(k.sys, L.Exit, k'.sys, mid);
    S.NextKeepsInv(k.sys, L.Exit, k'.sys);
  }

  /** Touching and dropping memory leaves the directories alone, and the tables of others. */
  lemma AccessKeepsOthers(m: C.Mem, a: C.Step, m': C.Mem, p: int)
    requires C.Next(m, a, m') && ByProcess(a, p)
    ensures m'.dirs == m.dirs
    ensures forall i :: i in m'.tabs && i != p ==> i in m.tabs && m'.tabs[i] == m.tabs[i]
  {
  }

  lemma MemoryKeepsInv(k: Machine, a: C.Step, k': Machine)
    requires Inv(k) && Next(k, Memory(a), k')
    ensures Inv(k')
  {
    AccessKeepsOthers(k.mem, a, k'.mem, k.sys.current);
    R.NextKeepsInv(k.mem, a, k'.mem);
  }

  lemma NextKeepsInv(k: Machine, step: Step, k': Machine)
    requires Inv(k) && Next(k, step, k')
    ensures Inv(k')
  {
    match step
    case Memory(a) => MemoryKeepsInv(k, a, k');
    case Process(a) =>
      if a.Exit? {
        ExitKeepsInv(k, k');
      } else if a.Fork? {
        S.NextKeepsInv(k.sys, a, k'.sys);
        ForkMatches(k, a.r, k');
        if a.r != -1 { R.NextKeepsInv(k.mem, C.Fork(k.sys.current, a.r), k'.mem); }
      } else {
        S.NextKeepsInv(k.sys, a, k'.sys);
        ReapedMatches(k.sys, a, k'.sys, k.mem);
      }
  }

  lemma {:induction false} RunKeepsInv(ks: seq<Machine>, steps: seq<Step>, n: nat)
    requires Run(ks, steps) && n <= |steps|
    ensures Inv(ks[n])
  {
    if n == 0 {
      InitInv(ks[0]);
    } else {
      RunKeepsInv(ks, steps, n - 1);
      assert Next(ks[n - 1], steps[n - 1], ks[n - 1 + 1]);
      NextKeepsInv(ks[n - 1], steps[n - 1], ks[n]);
    }
  }

  // ----- what it means -----

  /** The frames that serve process `i`: its directory and its tables. */
  ghost function FramesOf(m: C.Mem, i: int): set<int> {
    (if i in m.dirs then {m.dirs[i]} else {}) + (if i in m.tabs then C.TableFrames(m.tabs[i]) else {})
  }

  /** At every point of every run a bit of `page_bitmap` is set iff the frame is one of the
      kernel's three, or serves a slot in use that is not the driver's. */
  lemma FramesConserved(ks: seq<Machine>, steps: seq<Step>, n: nat, f: int)
    requires Run(ks, steps) && n <= |steps|
    ensures |ks[n].sys.procs| == PROC_MAX
    ensures f in ks[n].mem.frames <==>
            || 0 <= f < C.KERNEL_FRAMES
            || exists i :: L.IsSlot(i) && i != L.DRIVER && ks[n].sys.procs[i].stat != L.Empty &&
                        f in FramesOf(ks[n].mem, i)
  {
    RunKeepsInv(ks, steps, n);
    var m := ks[n].mem;
    if f in m.frames && !(0 <= f < C.KERNEL_FRAMES) {
      var r :| C.Serves(m, r, f);
      match r
      case Directory(p) => assert f in FramesOf(m, p);
      case Table(p, i) =>
        assert p in m.dirs && m.tabs[p][i] in C.TableFrames(m.tabs[p]);
        assert f in FramesOf(m, p);
    }
    if i :| L.IsSlot(i) && f in FramesOf(m, i) {
      var r := RoleOf(m, i, f);
    }
  }

  /** The role a frame of process `p` plays. */
  lemma RoleOf(m: C.Mem, p: int, f: int) returns (r: C.Role)
    requires C.Inv(m) && f in FramesOf(m, p)
    ensures C.Serves(m, r, f) && r.p == p && f >= C.KERNEL_FRAMES
  {
    if p in m.dirs && f == m.dirs[p] {
      r := C.Directory(p);
    } else {
      var t :| t in m.tabs[p] && m.tabs[p][t] == f;
      r := C.Table(p, t);
    }
    assert C.HasRole(m, r) && C.FrameOf(m, r) == f;
  }

  /** No two processes share a frame, and none uses one of the kernel's. */
  lemma FramesApart(ks: seq<Machine>, steps: seq<Step>, n: nat, i: int, j: int)
    requires Run(ks, steps) && n <= |steps| && i != j
    ensures FramesOf(ks[n].mem, i) !! FramesOf(ks[n].mem, j)
    ensures forall f :: f in FramesOf(ks[n].mem, i) ==> f >= C.KERNEL_FRAMES
  {
    RunKeepsInv(ks, steps, n);
    var m := ks[n].mem;
    forall f | f in FramesOf(m, i) ensures f !in FramesOf(m, j) && f >= C.KERNEL_FRAMES {
      var r := RoleOf(m, i, f);
      if f in FramesOf(m, j) {
        var s := RoleOf(m, j, f);
        assert false;
      }
    }
  }

  /** A slot that is forked, exits, is waited for and reaped gives back every frame it took: if
      it is empty at two points of a run, and the other processes have the same frames at both,
      so has the pool. */
  lemma CycleLosesNoFrame(ks: seq<Machine>, steps: seq<Step>, k: nat, n: nat, r: int)
    requires Run(ks, steps) && k <= n <= |steps| && L.IsSlot(r)
    requires |ks[k].sys.procs| == |ks[n].sys.procs| == PROC_MAX
    requires ks[k].sys.procs[r].stat == ks[n].sys.procs[r].stat == L.Empty
    requires forall i :: L.IsSlot(i) && i != r ==> FramesOf(ks[n].mem, i) == FramesOf(ks[k].mem, i)
    requires forall i :: L.IsSlot(i) && i != r ==>
               (ks[n].sys.procs[i].stat == L.Empty <==> ks[k].sys.procs[i].stat == L.Empty)
    ensures ks[n].mem.frames == ks[k].mem.frames
  {
    forall f ensures f in ks[n].mem.frames <==> f in ks[k].mem.frames {
      FramesConserved(ks, steps, n, f);
      FramesConserved(ks, steps, k, f);
    }
  }

  /** The frame CR3 points at while a process runs. */
  ghost function Cr3(k: Machine): int {
    if k.sys.current in k.mem.dirs then k.mem.dirs[k.sys.current] else 0
  }

  /** The directory in CR3 is in use, and no step frees it, not even the scan that is about to
      switch to another one. */
  lemma Cr3NeverFreed(ks: seq<Machine>, steps: seq<Step>, n: nat)
    requires Run(ks, steps) && n < |steps|
    ensures Cr3(ks[n]) in ks[n].mem.frames && Cr3(ks[n]) in ks[n + 1].mem.frames
    ensures Cr3(ks[n + 1]) in ks[n + 1].mem.frames
  {
    RunKeepsInv(ks, steps, n);
    RunKeepsInv(ks, steps, n + 1);
    InUse(ks[n]);
    InUse(ks[n + 1]);
    assert Next(ks[n], steps[n], ks[n + 1]);
    DirectoryStays(ks[n], steps[n], ks[n + 1]);
    HasDirectory(ks[n + 1], ks[n].sys.current);
  }

  lemma HasDirectory(k: Machine, p: int)
    requires Inv(k)
    ensures (if p in k.mem.dirs then k.mem.dirs[p] else 0) in k.mem.frames
  {
    if p in k.mem.dirs {
      assert C.HasRole(k.mem, C.Directory(p)) && C.FrameOf(k.mem, C.Directory(p)) == k.mem.dirs[p];
    }
  }

  lemma InUse(k: Machine)
    requires Inv(k)
    ensures Cr3(k) in k.mem.frames
  {
    HasDirectory(k, k.sys.current);
  }

  /** The process a step starts from keeps its directory through it. */
  lemma DirectoryStays(k: Machine, step: Step, k': Machine)
    requires Inv(k) && Next(k, step, k')
    ensures k.sys.current in k.mem.dirs ==>
              k.sys.current in k'.mem.dirs && k'.mem.dirs[k.sys.current] == k.mem.dirs[k.sys.current]
  {
    match step
    case Memory(a) => AccessKeepsOthers(k.mem, a, k'.mem, k.sys.current);
    case Process(a) =>
      assert k.sys.current !in ReapedSlots(k.sys, k'.sys);
      if a.Exit? {
        var mid :| C.DropRel(k.mem, k.sys.current, mid) && k'.mem == Reaped(mid, ReapedSlots(k.sys, k'.sys));
        assert mid.dirs == k.mem.dirs;
      } else if a.Fork? {
        assert k.sys.procs[k.sys.current].stat == L.Ready;
      }
  }

  // ----- what the processes see -----

  /** The step of a kernel whose fork copies every page at once: `e` is the private memory of
      each process. */
  ghost predicate EagerNext(s: L.Sys, step: Step, s': L.Sys, e: C.Eager, e': C.Eager)
    requires |s.procs| == |s'.procs| == PROC_MAX
  {
    match step
    case Memory(a) => C.EagerNext(e, a, e')
    case Process(Fork(r)) => if r == -1 then e' == e else C.EagerNext(e, C.Fork(s.current, r), e')
    case Process(Exit) =>
      exists mid :: C.EagerNext(e, C.Drop(s.current), mid) && e' == mid - ReapedSlots(s, s')
    case Process(_) => e' == e - ReapedSlots(s, s')
  }

  lemma ReapedView(m: C.Mem, r: set<int>)
    ensures C.View(Reaped(m, r)) == C.View(m) - r
  {
    var v, w := C.View(Reaped(m, r)), C.View(m) - r;
    assert v.Keys == w.Keys;
    forall p | p in v ensures v[p] == w[p] {}
  }

  lemma StepRefines(k: Machine, step: Step, k': Machine)
    requires Inv(k) && Next(k, step, k')
    ensures |k.sys.procs| == |k'.sys.procs| == PROC_MAX
    ensures EagerNext(k.sys, step, k'.sys, C.View(k.mem), C.View(k'.mem))
  {
    match step
    case Memory(a) => R.StepRefines(k.mem, a, k'.mem);
    case Process(a) =>
      if a.Fork? {
        if a.r != -1 { R.StepRefines(k.mem, C.Fork(k.sys.current, a.r), k'.mem); }
      } else if a.Exit? {
        var mid :| C.DropRel(k.mem, k.sys.current, mid) && k'.mem == Reaped(mid, ReapedSlots(k.sys, k'.sys));
        R.StepRefines(k.mem, C.Drop(k.sys.current), mid);
        ReapedView(mid, ReapedSlots(k.sys, k'.sys));
      } else {
        ReapedView(k.mem, ReapedSlots(k.sys, k'.sys));
      }
  }

  /** In every run of the whole kernel, each step changes what the processes see exactly as if
      fork had copied every page. */
  lemma KernelRefinesEagerCopy(ks: seq<Machine>, steps: seq<Step>, n: nat)
    requires Run(ks, steps) && n < |steps|
    ensures |ks[n].sys.procs| == |ks[n + 1].sys.procs| == PROC_MAX
    ensures EagerNext(ks[n].sys, steps[n], ks[n + 1].sys, C.View(ks[n].mem), C.View(ks[n + 1].mem))
  {
    RunKeepsInv(ks, steps, n);
    assert Next(ks[n], steps[n], ks[n + 1]);
    StepRefines(ks[n], steps[n], ks[n + 1]);
  }

  /** After a fork the child sees what its parent sees, and nobody sees a change. */
  lemma ForkSees(k: Machine, r: int, k': Machine)
    requires Inv(k) && Next(k, Process(L.Fork(r)), k') && r != -1
    ensures var p, e, e' := k.sys.current, C.View(k.mem), C.View(k'.mem);
            && p in e && r in e' && r !in e && e'[r].pages == e[p].pages
            && forall q :: q in e ==> q in e' && e'[q].pages == e[q].pages
  {
    StepRefines(k, Process(L.Fork(r)), k');
    CopySees(C.View(k.mem), k.sys.current, r, C.View(k'.mem));
  }

  lemma CopySees(e: C.Eager, p: int, r: int, e': C.Eager)
    requires C.EagerNext(e, C.Fork(p, r), e')
    ensures p in e && r in e' && r !in e && e'[r].pages == e[p].pages
    ensures forall q :: q in e ==> q in e' && e'[q].pages == e[q].pages
  {
  }

  /** After an exit the process sees nothing, if its directory is still there, and nobody else a
      change, but for dead processes whose directories are gone. */
  lemma ExitSees(k: Machine, k': Machine)
    requires Inv(k) && Next(k, Process(L.Exit), k')
    ensures var p, e, e' := k.sys.current, C.View(k.mem), C.View(k'.mem);
            && (p in e' ==> e'[p].pages == map[])
            && forall q :: q in e && q != p ==>
                 && (q in e' || (0 <= q < |k.sys.procs| && k.sys.procs[q].stat == L.Dead))
                 && (q in e' ==> e'[q].pages == e[q].pages)
  {
    StepRefines(k, Process(L.Exit), k');
    DropSees(C.View(k.mem), k.sys.current, ReapedSlots(k.sys, k'.sys), C.View(k'.mem));
  }

  lemma DropSees(e: C.Eager, p: int, reaped: set<int>, e': C.Eager)
    requires exists mid :: C.EagerNext(e, C.Drop(p), mid) && e' == mid - reaped
    ensures p in e' ==> e'[p].pages == map[]
    ensures forall q :: q in e && q != p ==> (q in e' || q in reaped) && (q in e' ==> e'[q].pages == e[q].pages)
  {
  }
}
