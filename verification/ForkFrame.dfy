/**
 The kernel stacks of proc/proc.c, one page per process with its PCB on top: the frame
 `sys_fork` fabricates for the child, and the two instruction sequences that consume it
 (`resume` in sys/int.asm and `syscall_resume` in sys/syscall.asm).
 */
module ForkFrame {
  import opened Limits
  import opened CStrings

  const STACKS := 0xc0500000  // PROC_KSTACK_TABLE_START
  const STACK_BYTES := 0x1000
  const STACK_WORDS := 1024
  const PCB := 994            // words below the PCB: (0x1000 - sizeof(pcb_t)) / 4
  const FRAME_WORDS := 19     // isr_param_t
  const KERNEL_WORDS := 17    // ... without esp and ss
  const KERNEL_CODE := 0x8
  const KERNEL_DATA := 0x10
  const WORD_WRAP := 0x1_0000_0000

  // Words of the PCB, after its saved frame.
  const KSTKTOP := PCB + 19
  const PDE := PCB + 24
  const FATHER := PCB + 27
  const PRIVILEGE := PCB + 28
  const PID := PCB + 29

  // Words of a saved frame.
  const EBP := 6
  const EAX := 11

  /** The registers a return to user or kernel code sets. */
  datatype Regs = Regs(gs: int, fs: int, es: int, ds: int, edi: int, esi: int, ebp: int, ebx: int, edx: int, ecx: int,
                       eax: int, eip: int, cs: int, eflags: int, esp: int, ss: int)

  /** The address of word `i` of the stack of process `p`. */
  function AddrOf(p: int, i: int): int {
    STACKS + STACK_BYTES * p + 4 * i
  }

  function WordOf(addr: int): int {
    (addr - STACKS) / 4
  }

  predicate InStacks(addr: int) {
    STACKS <= addr < STACKS + STACK_BYTES * PROC_MAX && addr % 4 == 0
  }

  /** `isr_param_t stk`: kernel data segments, zeros, and a return to `syscall_resume`. */
  function Fabricated(syscallResume: int): (s: seq<int>)
    ensures |s| == KERNEL_WORDS
  {
    [KERNEL_DATA, KERNEL_DATA, KERNEL_DATA, KERNEL_DATA, 0, 0, 0, 0, 0, 0, 0, 0, 0, 0,
     syscallResume, KERNEL_CODE, 0x202]
  }

  /** A frame that leaves room for the fabricated one and ends below the fields of the PCB. */
  predicate GoodFrame(p: int, f: int) {
    0 <= p < PROC_MAX && KERNEL_WORDS <= f <= PCB
  }

  /** Word `i` of the stack of process `p`. */
  function Cell(words: seq<int>, p: int, i: int): int
    requires |words| == STACK_WORDS * PROC_MAX && 0 <= p < PROC_MAX && 0 <= i < STACK_WORDS
  {
    words[STACK_WORDS * p + i]
  }

  /** Word `i` of the child's stack after `sys_fork`. */
  function ChildWord(was: seq<int>, p: int, q: int, f: int, pde: int, syscallResume: int, i: int): int
    requires |was| == STACK_WORDS * PROC_MAX && GoodFrame(p, f) && 0 <= q < PROC_MAX && 0 <= i < STACK_WORDS
  {
    if f - KERNEL_WORDS <= i < f then Fabricated(syscallResume)[i - (f - KERNEL_WORDS)]
    else if i == f + EBP && Cell(was, p, PRIVILEGE) == 0 then (Cell(was, p, i) + STACK_BYTES * (q - p)) % WORD_WRAP
    else if i == KSTKTOP then AddrOf(q, f - KERNEL_WORDS)
    else if i == PDE then pde
    else if i == FATHER then p
    else if i == PID then q
    else Cell(was, p, i)
  }

  /** The stacks after `sys_fork` from process `p` to `q`, with the parent's frame at word `f`. */
  ghost predicate StackForked(was: seq<int>, now: seq<int>, p: int, q: int, f: int, pde: int, syscallResume: int) {
    && |was| == |now| == STACK_WORDS * PROC_MAX && GoodFrame(p, f) && 0 <= q < PROC_MAX
    && (forall i :: 0 <= i < STACK_WORDS ==> Cell(now, q, i) == ChildWord(was, p, q, f, pde, syscallResume, i))
    && (forall s, i :: 0 <= s < PROC_MAX && s != q && 0 <= i < STACK_WORDS ==> Cell(now, s, i) == Cell(was, s, i))
  }

  /** A frame lies at word `f` of the stack of process `p`. */
  predicate IsFrame(p: int, f: int) {
    0 <= p < PROC_MAX && 0 <= f && f + FRAME_WORDS <= STACK_WORDS
  }

  /** The registers `syscall_resume` sets from that frame: all but eax, and the stack pointer,
      which user code gets from the frame and kernel code keeps. */
  function Restored(words: seq<int>, p: int, f: int, eax: int, ss: int): Regs
    requires |words| == STACK_WORDS * PROC_MAX && IsFrame(p, f)
  {
    var user := Cell(words, p, f + 15) % 4 != 0;
    Regs(Cell(words, p, f), Cell(words, p, f + 1), Cell(words, p, f + 2), Cell(words, p, f + 3), Cell(words, p, f + 4),
         Cell(words, p, f + 5), Cell(words, p, f + EBP), Cell(words, p, f + 8), Cell(words, p, f + 9),
         Cell(words, p, f + 10), eax, Cell(words, p, f + 14), Cell(words, p, f + 15), Cell(words, p, f + 16),
         if user then Cell(words, p, f + 17) else AddrOf(p, f + KERNEL_WORDS),
         if user then Cell(words, p, f + 18) else ss)
  }

  /** The words of a saved frame, in the order of `isr_param_t`. */
  lemma FrameLayout(words: seq<int>, p: int, f: int, eax: int, ss: int)
    requires |words| == STACK_WORDS * PROC_MAX && IsFrame(p, f)
    ensures var r := Restored(words, p, f, eax, ss);
            && r.gs == Cell(words, p, f) && r.fs == Cell(words, p, f + 1) && r.es == Cell(words, p, f + 2)
            && r.ds == Cell(words, p, f + 3) && r.edi == Cell(words, p, f + 4) && r.esi == Cell(words, p, f + 5)
            && r.ebp == Cell(words, p, f + 6) && r.ebx == Cell(words, p, f + 8) && r.edx == Cell(words, p, f + 9)
            && r.ecx == Cell(words, p, f + 10) && r.eip == Cell(words, p, f + 14) && r.cs == Cell(words, p, f + 15)
            && r.eflags == Cell(words, p, f + 16)
            && (r.cs % 4 != 0 ==> r.esp == Cell(words, p, f + 17) && r.ss == Cell(words, p, f + 18))
            && (r.cs % 4 == 0 ==> r.esp == 0xc050_0000 + 0x1000 * p + 4 * (f + 17) && r.ss == ss)
  {
  }

  /** The child's frame lies where the parent's does, in the other stack. */
  lemma FrameMoves(param: int, p: int, q: int, f: int)
    requires InStacks(param) && f == WordOf(param) - STACK_WORDS * p && GoodFrame(p, f) && 0 <= q < PROC_MAX
    ensures var newParam := param + STACK_BYTES * (q - p);
            && newParam == AddrOf(q, f)
            && WordOf(newParam) == STACK_WORDS * q + f
            && WordOf(newParam - 4 * KERNEL_WORDS) == STACK_WORDS * q + f - KERNEL_WORDS
  {
    assert param == STACKS + 4 * WordOf(param);
  }

  /** Word `w` lies in the stack of process `q`. */
  predicate InStack(q: int, w: int) {
    STACK_WORDS * q <= w < STACK_WORDS * q + STACK_WORDS
  }

  lemma StacksApart(p: int, q: int, i: int)
    requires p != q && 0 <= i < STACK_WORDS
    ensures !InStack(q, STACK_WORDS * p + i)
  {
    if p < q {
      assert STACK_WORDS * p + STACK_WORDS <= STACK_WORDS * q;
    } else {
      assert STACK_WORDS * q + STACK_WORDS <= STACK_WORDS * p;
    }
  }

  ghost predicate StackCopied(was: seq<int>, now: seq<int>, p: int, q: int) {
    && |was| == |now| == STACK_WORDS * PROC_MAX && 0 <= p < PROC_MAX && 0 <= q < PROC_MAX
    && forall w {:trigger now[w]} :: 0 <= w < |now| ==>
         now[w] == if InStack(q, w) then was[w + STACK_WORDS * (p - q)] else was[w]
  }

  ghost predicate PcbFilled(was: seq<int>, now: seq<int>, p: int, q: int, pde: int, kstktop: int) {
    && |was| == |now| == STACK_WORDS * PROC_MAX
    && forall w {:trigger now[w]} :: 0 <= w < |now| ==>
         now[w] == if w == STACK_WORDS * q + PID then q
                   else if w == STACK_WORDS * q + FATHER then p
                   else if w == STACK_WORDS * q + PDE then pde
                   else if w == STACK_WORDS * q + KSTKTOP then kstktop else was[w]
  }

  ghost predicate FrameStored(was: seq<int>, now: seq<int>, at: int, stk: seq<int>) {
    && |was| == |now|
    && forall w {:trigger now[w]} :: 0 <= w < |now| ==> now[w] == if at <= w < at + |stk| then stk[w - at] else was[w]
  }

  ghost predicate EbpShifted(was: seq<int>, now: seq<int>, p: int, q: int, at: int) {
    && |was| == |now| == STACK_WORDS * PROC_MAX && 0 <= q < PROC_MAX
    && forall w {:trigger now[w]} :: 0 <= w < |now| ==>
         now[w] == if w == at && Cell(was, q, PRIVILEGE) == 0
                   then (was[w] + STACK_BYTES * (q - p)) % WORD_WRAP else was[w]
  }

  /** The four stores of `sys_fork`, one after the other. */
  lemma ForkComposed(w0: seq<int>, w1: seq<int>, w2: seq<int>, w3: seq<int>, w4: seq<int>,
                     p: int, q: int, f: int, pde: int, syscallResume: int)
    requires GoodFrame(p, f) && p != q && StackCopied(w0, w1, p, q)
    requires PcbFilled(w1, w2, p, q, pde, AddrOf(q, f - KERNEL_WORDS))
    requires FrameStored(w2, w3, STACK_WORDS * q + f - KERNEL_WORDS, Fabricated(syscallResume))
    requires EbpShifted(w3, w4, p, q, STACK_WORDS * q + f + EBP)
    ensures StackForked(w0, w4, p, q, f, pde, syscallResume)
  {
    assert Cell(w3, q, PRIVILEGE) == Cell(w0, p, PRIVILEGE);
    forall i | 0 <= i < STACK_WORDS ensures Cell(w4, q, i) == ChildWord(w0, p, q, f, pde, syscallResume, i) {
      assert InStack(q, STACK_WORDS * q + i);
    }
    forall s, i | 0 <= s < PROC_MAX && s != q && 0 <= i < STACK_WORDS ensures Cell(w4, s, i) == Cell(w0, s, i) {
      StacksApart(s, q, i);
      assert w1[STACK_WORDS * s + i] == w0[STACK_WORDS * s + i];
    }
  }

  // ----- an interrupt frame -----

  /** The words `iret` takes. */
  function Return(r: Regs): seq<int> {
    [r.eip, r.cs, r.eflags] + if r.cs % 4 != 0 then [r.esp, r.ss] else []
  }

  /** The words `pusha` pushes; the stack pointer among them is not used again. */
  function General(r: Regs): seq<int> {
    [r.edi, r.esi, r.ebp, r.esp, r.ebx, r.edx, r.ecx, r.eax]
  }

  function Segments(r: Regs): seq<int> {
    [r.gs, r.fs, r.es, r.ds]
  }

  /** The stack segment after the gate. */
  function KernelSs(r: Regs): int {
    if r.cs % 4 != 0 then KERNEL_DATA else r.ss
  }

  /** Registers that differ from `r` only in what the gate itself changes. */
  predicate SameGeneral(r: Regs, x: Regs) {
    x.(esp := r.esp, cs := r.cs, ss := r.ss) == r
  }

  /** The stacks after an interrupt of process `p`, whose frame is at word `f`: what `resume`
      restores from it is what was interrupted, and no other stack has changed. */
  ghost predicate Interrupted(was: seq<int>, now: seq<int>, p: int, f: int, r: Regs) {
    && |was| == |now| == STACK_WORDS * PROC_MAX && IsFrame(p, f) && Cell(now, p, KSTKTOP) == AddrOf(p, f)
    && Restored(now, p, f, Cell(now, p, f + EAX), KernelSs(r)) == r
    && (forall s, i :: 0 <= s < PROC_MAX && s != p && 0 <= i < STACK_WORDS ==> Cell(now, s, i) == Cell(was, s, i))
  }

  lemma FrameSaved(was: seq<int>, mid: seq<int>, now: seq<int>, p: int, t: int, frame: seq<int>, r: Regs, x: Regs,
                   y: Regs, num: int, err: int, esp: int)
    requires |was| == STACK_WORDS * PROC_MAX && 0 <= p < PROC_MAX && KERNEL_WORDS + 2 < t <= KSTKTOP
    requires SameGeneral(r, x) && SameGeneral(r, y) && frame == Segments(y) + (General(x) + ([num, err] + Return(r)))
    requires r.cs % 4 == 0 ==> r.esp == AddrOf(p, t)
    requires mid == Put(was, STACK_WORDS * p + t - |frame|, frame)
    requires esp == STACKS + 4 * (STACK_WORDS * p + t - |frame|) && now == mid[STACK_WORDS * p + KSTKTOP := esp]
    ensures Interrupted(was, now, p, t - |frame|, r)
  {
    var f := t - |frame|;
    forall i | 0 <= i < |frame| ensures Cell(now, p, f + i) == frame[i] {
      assert now[STACK_WORDS * p + (f + i)] == mid[STACK_WORDS * p + f + i];
    }
    forall s, i | 0 <= s < PROC_MAX && s != p && 0 <= i < STACK_WORDS ensures Cell(now, s, i) == Cell(was, s, i) {
      StacksApart(s, p, i);
    }
  }

  class KernelStacks {
    const words: array<int>  // the stacks of all processes, from STACKS
    ghost var cells: seq<int>  // their contents
    var r: Regs

    ghost predicate Valid()
      reads this, words
    {
      && words.Length == |cells| == STACK_WORDS * PROC_MAX
      && forall w {:trigger words[w]} :: 0 <= w < words.Length ==> words[w] == cells[w]
    }

    constructor (contents: seq<int>, r: Regs)
      requires |contents| == STACK_WORDS * PROC_MAX
      ensures Valid() && fresh(words) && cells == contents && this.r == r
    {
      words := new int[STACK_WORDS * PROC_MAX](i requires 0 <= i < |contents| => contents[i]);
      cells := contents;
      this.r := r;
    }

    // ----- sys_fork -----

    /** The `memcpy` of the parent's stack to the child's. */
    method CopyStack(p: int, q: int)
      requires Valid() && 0 <= p < PROC_MAX && 0 <= q < PROC_MAX && p != q
      modifies `cells, words
      ensures Valid()
      ensures StackCopied(old(cells), cells, p, q)
    {
      for j := 0 to STACK_WORDS
        invariant Valid()
        invariant forall w {:trigger cells[w]} :: 0 <= w < |cells| ==>
                    cells[w] == if STACK_WORDS * q <= w < STACK_WORDS * q + j
                                then old(cells)[w + STACK_WORDS * (p - q)] else old(cells)[w]
      {
        StacksApart(p, q, j);
        words[STACK_WORDS * q + j] := words[STACK_WORDS * p + j];
        cells := cells[STACK_WORDS * q + j := words[STACK_WORDS * q + j]];
      }
    }

    /** The `memcpy` of the fabricated frame to word `at`. */
    method StoreFrame(at: int, stk: seq<int>)
      requires Valid() && |stk| == KERNEL_WORDS && 0 <= at && at + KERNEL_WORDS <= STACK_WORDS * PROC_MAX
      modifies `cells, words
      ensures Valid()
      ensures FrameStored(old(cells), cells, at, stk)
    {
      for j := 0 to KERNEL_WORDS
        invariant Valid()
        invariant forall w {:trigger cells[w]} :: 0 <= w < |cells| ==>
                    cells[w] == if at <= w < at + j then stk[w - at] else old(cells)[w]
      {
        words[at + j] := stk[j];
        cells := cells[at + j := stk[j]];
      }
    }

    method Store(w: int, v: int)
      requires Valid() && 0 <= w < STACK_WORDS * PROC_MAX
      modifies `cells, words
      ensures Valid() && cells == old(cells)[w := v]
    {
      words[w] := v;
      cells := cells[w := v];
    }

    /** The PCB of the child. */
    method FillPcb(p: int, q: int, pde: int, kstktop: int)
      requires Valid() && 0 <= q < PROC_MAX
      modifies `cells, words
      ensures Valid()
      ensures PcbFilled(old(cells), cells, p, q, pde, kstktop)
    {
      Store(STACK_WORDS * q + PID, q);
      Store(STACK_WORDS * q + FATHER, p);
      Store(STACK_WORDS * q + PDE, pde);
      Store(STACK_WORDS * q + KSTKTOP, kstktop);
    }

    /** The frame pointer of a process forked in kernel mode moves to its own stack. */
    method ShiftEbp(p: int, q: int, ebp: int)
      requires Valid() && 0 <= p < PROC_MAX && 0 <= q < PROC_MAX && 0 <= ebp < STACK_WORDS * PROC_MAX
      modifies `cells, words
      ensures Valid()
      ensures EbpShifted(old(cells), cells, p, q, ebp)
    {
      if words[STACK_WORDS * q + PRIVILEGE] == 0 {
        Store(ebp, (words[ebp] + STACK_BYTES * (q - p)) % WORD_WRAP);
      }
    }

    /** What `sys_fork` does to the kernel stacks, for the frame at `param`; `pde` is the
        directory `sys_copy_pages` enters. */
    method Fork(p: int, q: int, param: int, pde: int, syscallResume: int)
      requires Valid() && 0 <= q < PROC_MAX && p != q
      requires InStacks(param) && GoodFrame(p, WordOf(param) - STACK_WORDS * p)
      modifies `cells, words
      ensures Valid()
      ensures StackForked(old(cells), cells, p, q, WordOf(param) - STACK_WORDS * p, pde, syscallResume)
    {
      ghost var w0, f := cells, WordOf(param) - STACK_WORDS * p;
      FrameMoves(param, p, q, f);
      var newParam := param + STACK_BYTES * (q - p);
      var newesp := newParam - 4 * FRAME_WORDS + 8;
      var at, ebp := WordOf(newesp), WordOf(newParam) + EBP;
      assert at == STACK_WORDS * q + f - KERNEL_WORDS && ebp == STACK_WORDS * q + f + EBP;
      CopyStack(p, q);
      ghost var w1 := cells;
      FillPcb(p, q, pde, newesp);
      ghost var w2 := cells;
      StoreFrame(at, Fabricated(syscallResume));
      ghost var w3 := cells;
      ShiftEbp(p, q, ebp);
      ForkComposed(w0, w1, w2, w3, cells, p, q, f, pde, syscallResume);
    }

    // ----- common_handler -----

    /** One push of a run of pushes that started below word `top`. */
    method Push(v: int, ghost w0: seq<int>, ghost top: int, ghost done: seq<int>) returns (ghost done': seq<int>)
      requires Valid() && 0 < top - |done| && top <= STACK_WORDS * PROC_MAX && r.esp == STACKS + 4 * (top - |done|)
      requires |w0| == STACK_WORDS * PROC_MAX && cells == Put(w0, top - |done|, done)
      modifies `cells, `r, words
      ensures Valid() && done' == [v] + done && r == old(r).(esp := old(r.esp) - 4)
      ensures cells == Put(w0, top - |done'|, done')
    {
      r := r.(esp := r.esp - 4);
      Store(WordOf(r.esp), v);
      done' := [v] + done;
      assert cells == Put(w0, top - |done'|, done');
    }

    /** What the processor and the stub push: a return to user code needs the stack pointer too,
        and the stack is then the one the TSS names. */
    method EnterGate(esp0: int, num: int, err: int, ghost top: int) returns (ghost done: seq<int>)
      requires Valid() && KERNEL_WORDS + 2 < top <= STACK_WORDS * PROC_MAX
      requires STACKS + 4 * top == if r.cs % 4 != 0 then esp0 else r.esp
      modifies `cells, `r, words
      ensures Valid() && done == [num, err] + Return(old(r)) && cells == Put(old(cells), top - |done|, done)
      ensures r == old(r).(esp := STACKS + 4 * (top - |done|), cs := KERNEL_CODE, ss := KernelSs(old(r)))
    {
      ghost var w0 := cells;
      var cs := r.cs;
      done := SwitchStack(esp0, top);
      r := r.(cs := KERNEL_CODE);
      done := Push(r.eflags, w0, top, done);
      done := Push(cs, w0, top, done);
      done := Push(r.eip, w0, top, done);
      done := Push(err, w0, top, done);
      done := Push(num, w0, top, done);
    }

    /** From user code the processor switches to the kernel stack and saves the user's. */
    method SwitchStack(esp0: int, ghost top: int) returns (ghost done: seq<int>)
      requires Valid() && KERNEL_WORDS + 2 < top <= STACK_WORDS * PROC_MAX
      requires STACKS + 4 * top == if r.cs % 4 != 0 then esp0 else r.esp
      modifies `cells, `r, words
      ensures Valid() && done == (if old(r).cs % 4 != 0 then [old(r).esp, old(r).ss] else [])
      ensures r == old(r).(esp := STACKS + 4 * (top - |done|), ss := KernelSs(old(r)))
      ensures cells == Put(old(cells), top - |done|, done)
    {
      ghost var w0 := cells;
      var esp, ss := r.esp, r.ss;
      done := [];
      assert cells == Put(w0, top, done);
      if r.cs % 4 != 0 {
        r := r.(esp := esp0, ss := KERNEL_DATA);
        done := Push(ss, w0, top, done);
        done := Push(esp, w0, top, done);
      }
    }

    /** `pusha`. */
    method SaveGeneral(ghost w0: seq<int>, ghost top: int, ghost below: seq<int>) returns (ghost done: seq<int>)
      requires Valid() && 8 < top - |below| && top <= STACK_WORDS * PROC_MAX && r.esp == STACKS + 4 * (top - |below|)
      requires |w0| == STACK_WORDS * PROC_MAX && cells == Put(w0, top - |below|, below)
      modifies `cells, `r, words
      ensures Valid() && done == General(old(r)) + below
      ensures r == old(r).(esp := STACKS + 4 * (top - |done|)) && cells == Put(w0, top - |done|, done)
    {
      var esp := r.esp;
      done := Push4(r.eax, r.ecx, r.edx, r.ebx, w0, top, below);
      done := Push4(esp, r.ebp, r.esi, r.edi, w0, top, done);
    }

    method Push4(a: int, b: int, c: int, d: int, ghost w0: seq<int>, ghost top: int, ghost below: seq<int>)
      returns (ghost done: seq<int>)
      requires Valid() && 4 < top - |below| && top <= STACK_WORDS * PROC_MAX && r.esp == STACKS + 4 * (top - |below|)
      requires |w0| == STACK_WORDS * PROC_MAX && cells == Put(w0, top - |below|, below)
      modifies `cells, `r, words
      ensures Valid() && done == [d, c, b, a] + below && r == old(r).(esp := STACKS + 4 * (top - |done|))
      ensures cells == Put(w0, top - |done|, done)
    {
      done := Push(a, w0, top, below);
      done := Push(b, w0, top, done);
      done := Push(c, w0, top, done);
      done := Push(d, w0, top, done);
    }

    /** The segment pushes of `common_handler`, which then uses the kernel's data segment. */
    method SaveSegments(ghost w0: seq<int>, ghost top: int, ghost below: seq<int>) returns (ghost done: seq<int>)
      requires Valid() && 4 < top - |below| && top <= STACK_WORDS * PROC_MAX && r.esp == STACKS + 4 * (top - |below|)
      requires |w0| == STACK_WORDS * PROC_MAX && cells == Put(w0, top - |below|, below)
      modifies `cells, `r, words
      ensures Valid() && done == Segments(old(r)) + below
      ensures r == old(r).(esp := STACKS + 4 * (top - |done|), ds := KERNEL_DATA, es := KERNEL_DATA)
      ensures cells == Put(w0, top - |done|, done)
    {
      done := Push4(r.ds, r.es, r.fs, r.gs, w0, top, below);
      r := r.(ds := KERNEL_DATA, es := KERNEL_DATA);
    }

    /** An interrupt of process `current`, up to the call of its handler: the frame is on the
        stack of the process and `kstktop` points at it. */
    method Interrupt(current: int, esp0: int, num: int, err: int, ghost t: int) returns (ghost f: int)
      requires Valid() && 0 <= current < PROC_MAX && KERNEL_WORDS + 2 < t <= KSTKTOP
      requires AddrOf(current, t) == if r.cs % 4 != 0 then esp0 else r.esp
      modifies `cells, `r, words
      ensures Valid() && IsFrame(current, f)
      ensures Interrupted(old(cells), cells, current, f, old(r))
      ensures r.ss == KernelSs(old(r))
    {
      ghost var was, regs, top := cells, r, STACK_WORDS * current + t;
      ghost var back := EnterGate(esp0, num, err, top);
      ghost var x := r;
      ghost var general := SaveGeneral(was, top, back);
      ghost var y := r;
      ghost var frame := SaveSegments(was, top, general);
      ghost var mid := cells;
      f := t - |frame|;
      Store(STACK_WORDS * current + KSTKTOP, r.esp);
      FrameSaved(was, mid, cells, current, t, frame, regs, x, y, num, err, r.esp);
    }

    // ----- resume and syscall_resume -----

    method Pop() returns (v: int)
      requires Valid() && InStacks(r.esp)
      modifies `r
      ensures v == cells[WordOf(old(r.esp))] && r == old(r).(esp := old(r.esp) + 4)
    {
      v := words[WordOf(r.esp)];
      r := r.(esp := r.esp + 4);
    }

    /** `iret`: a return to user code also pops the stack pointer. */
    method Iret()
      requires Valid() && InStacks(r.esp) && InStacks(r.esp + 16)
      modifies `r
      ensures var w := WordOf(old(r.esp));
              r == old(r).(eip := cells[w], cs := cells[w + 1], eflags := cells[w + 2],
                           esp := if cells[w + 1] % 4 != 0 then cells[w + 3] else old(r.esp) + 12,
                           ss := if cells[w + 1] % 4 != 0 then cells[w + 4] else old(r.ss))
    {
      var eip := Pop();
      var cs := Pop();
      var eflags := Pop();
      if cs % 4 != 0 {
        var esp := Pop();
        var ss := Pop();
        r := r.(esp := esp, ss := ss);
      }
      r := r.(eip := eip, cs := cs, eflags := eflags);
    }

    /** The four segment pops both sequences start with. */
    method PopSegments()
      requires Valid() && InStacks(r.esp) && InStacks(r.esp + 12)
      modifies `r
      ensures var w := WordOf(old(r.esp));
              r == old(r).(gs := cells[w], fs := cells[w + 1], es := cells[w + 2], ds := cells[w + 3],
                           esp := old(r.esp) + 16)
    {
      var gs := Pop();
      var fs := Pop();
      var es := Pop();
      var ds := Pop();
      r := r.(gs := gs, fs := fs, es := es, ds := ds);
    }

    /** `popa`, and the pops of `syscall_resume` up to ecx: the saved stack pointer is skipped. */
    method PopGeneral()
      requires Valid() && InStacks(r.esp) && InStacks(r.esp + 24)
      modifies `r
      ensures var w := WordOf(old(r.esp));
              r == old(r).(edi := cells[w], esi := cells[w + 1], ebp := cells[w + 2], ebx := cells[w + 4],
                           edx := cells[w + 5], ecx := cells[w + 6], esp := old(r.esp) + 28)
    {
      var edi := Pop();
      var esi := Pop();
      var ebp := Pop();
      var _ := Pop();
      var ebx := Pop();
      var edx := Pop();
      var ecx := Pop();
      r := r.(edi := edi, esi := esi, ebp := ebp, ebx := ebx, edx := edx, ecx := ecx);
    }

    /** `resume`: the whole frame, eax too. */
    method Resume(current: int, ghost f: int)
      requires Valid() && IsFrame(current, f)
      requires Cell(cells, current, KSTKTOP) == AddrOf(current, f)
      modifies `r
      ensures r == Restored(cells, current, f, Cell(cells, current, f + EAX), old(r.ss))
    {
      r := r.(esp := words[STACK_WORDS * current + KSTKTOP]);
      PopSegments();
      PopGeneral();
      var eax := Pop();
      r := r.(eax := eax);
      r := r.(esp := r.esp + 8);
      Iret();
    }

    /** `syscall_resume`: the frame but for eax, which holds the result of the call. */
    method SyscallResume(ghost p: int, ghost f: int)
      requires Valid() && IsFrame(p, f) && r.esp == AddrOf(p, f)
      modifies `r
      ensures r == Restored(cells, p, f, old(r.eax), old(r.ss))
    {
      PopSegments();
      PopGeneral();
      r := r.(esp := r.esp + 12);
      Iret();
    }
  }

  // ----- parent and child return alike -----

  /** The child's first return lands in `syscall_resume`, in kernel mode, with eax 0 and the
      stack pointer at the copy of the parent's frame. */
  lemma ChildResumes(was: seq<int>, now: seq<int>, p: int, q: int, f: int, pde: int, syscallResume: int, ss: int)
    requires StackForked(was, now, p, q, f, pde, syscallResume)
    ensures Cell(now, q, KSTKTOP) == AddrOf(q, f - KERNEL_WORDS)
    ensures var first := Restored(now, q, f - KERNEL_WORDS, Cell(now, q, f - KERNEL_WORDS + EAX), ss);
            && first.eip == syscallResume && first.cs == KERNEL_CODE && first.eax == 0
            && first.esp == AddrOf(q, f) && first.ss == ss
  {
    forall i | 0 <= i < KERNEL_WORDS ensures Cell(now, q, f - KERNEL_WORDS + i) == Fabricated(syscallResume)[i] {}
  }

  /** Every register the child returns with is the parent's, but eax; in kernel mode ebp and
      esp point into the child's stack where the parent's point into its own. */
  lemma ChildReturnsLikeParent(was: seq<int>, now: seq<int>, p: int, q: int, f: int, pde: int, syscallResume: int,
                               eax: int, ss: int)
    requires StackForked(was, now, p, q, f, pde, syscallResume) && p != q
    requires Cell(was, p, PRIVILEGE) == 0 <==> Cell(was, p, f + 15) % 4 == 0
    ensures var parent := Restored(now, p, f, eax, ss);
            var child := Restored(now, q, f, 0, ss);
            var shift := STACK_BYTES * (q - p);
            && parent == Restored(was, p, f, eax, ss)
            && child == if parent.cs % 4 != 0 then parent.(eax := 0)
                        else parent.(eax := 0, ebp := (parent.ebp + shift) % WORD_WRAP, esp := parent.esp + shift)
  {
    forall i | f <= i < f + FRAME_WORDS ensures Cell(now, p, i) == Cell(was, p, i) {}
    forall i | f <= i < f + FRAME_WORDS
      ensures Cell(now, q, i) == if i == f + EBP && Cell(was, p, PRIVILEGE) == 0
                                 then (Cell(was, p, i) + STACK_BYTES * (q - p)) % WORD_WRAP else Cell(was, p, i)
    {
    }
  }

  /** The round trip, on the machine: after the fork the child's `resume` and `syscall_resume`
      leave it where the parent's `syscall_resume` leaves the parent, with 0 for the child's pid. */
  method ChildReturns(k: KernelStacks, p: int, q: int, param: int, pde: int, syscallResume: int)
    requires k.Valid() && 0 <= q < PROC_MAX && p != q
    requires InStacks(param) && GoodFrame(p, WordOf(param) - STACK_WORDS * p)
    requires k.cells[STACK_WORDS * p + PRIVILEGE] == 0 <==> k.cells[WordOf(param) + 15] % 4 == 0
    modifies k`r, k`cells, k.words
    ensures var parent := Restored(old(k.cells), p, WordOf(param) - STACK_WORDS * p, q, old(k.r.ss));
            var shift := STACK_BYTES * (q - p);
            k.r == if parent.cs % 4 != 0 then parent.(eax := 0)
                   else parent.(eax := 0, ebp := (parent.ebp + shift) % WORD_WRAP, esp := parent.esp + shift)
  {
    ghost var was, f := k.cells, WordOf(param) - STACK_WORDS * p;
    assert k.cells[WordOf(param) + 15] == Cell(was, p, f + 15);
    k.Fork(p, q, param, pde, syscallResume);
    ChildResumes(was, k.cells, p, q, f, pde, syscallResume, k.r.ss);
    k.Resume(q, f - KERNEL_WORDS);
    k.SyscallResume(q, f);
    ChildReturnsLikeParent(was, k.cells, p, q, f, pde, syscallResume, q, old(k.r.ss));
  }

  /** An interrupt that comes back to the process it interrupted restores every register,
      whatever its handler leaves in them. */
  method InterruptReturns(k: KernelStacks, current: int, esp0: int, num: int, err: int, left: Regs, ghost t: int)
    requires k.Valid() && 0 <= current < PROC_MAX && KERNEL_WORDS + 2 < t <= KSTKTOP
    requires AddrOf(current, t) == if k.r.cs % 4 != 0 then esp0 else k.r.esp
    modifies k`r, k`cells, k.words
    ensures k.r == old(k.r)
  {
    ghost var f := k.Interrupt(current, esp0, num, err, t);
    k.r := left.(ss := k.r.ss);
    k.Resume(current, f);
  }
}
