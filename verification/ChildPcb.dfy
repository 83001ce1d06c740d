/**
 The PCB `sys_fork` leaves on top of the child's kernel stack, word by word, and the process table
 it amounts to.
 */
module ChildPcb {
  import opened ForkFrame
  import L = Lifecycle
  import S = LifecycleSafety

  /** The child's PCB is its parent's, descriptors, terminal, state and privilege included, but for
      the pid, the father, the directory and the top of its kernel stack; no other stack changes. */
  lemma ChildWords(was: seq<int>, now: seq<int>, p: int, q: int, f: int, pde: int, syscallResume: int)
    requires StackForked(was, now, p, q, f, pde, syscallResume)
    ensures |was| == |now| == 32 * 1024 && 0 <= p < 32 && 0 <= q < 32
    ensures Cell(now, q, 1023) == q && Cell(now, q, 1021) == p && Cell(now, q, 1018) == pde
    ensures Cell(now, q, 1013) == 0xc050_0000 + 0x1000 * q + 4 * (f - 17)
    ensures forall i :: 1014 <= i < 1018 ==> Cell(now, q, i) == Cell(was, p, i)
    ensures forall i :: i == 1019 || i == 1020 || i == 1022 ==> Cell(now, q, i) == Cell(was, p, i)
    ensures forall r, i :: 0 <= r < 32 && r != q && 0 <= i < 1024 ==> Cell(now, r, i) == Cell(was, r, i)
  {
  }

  /** The number of a state in proc/proc.h. */
  function Code(st: L.Stat): int {
    match st
    case Empty => 0
    case Ready => 1
    case WaitingInput => 2
    case Waiting => 3
    case Hanging => 4
    case Dead => 5
  }

  /** The PCB words of slot `i` say what the process table does. */
  ghost predicate Holds(words: seq<int>, i: int, x: L.Proc) {
    && |words| == 32 * 1024 && 0 <= i < 32
    && Cell(words, i, 1023) == x.pid && Cell(words, i, 1021) == x.father
    && Cell(words, i, 1020) == Code(x.stat) && Cell(words, i, 1019) == x.tty
  }

  /** So the stacks `sys_fork` leaves hold the process table it leaves. */
  lemma TableHeld(s: L.Sys, r: int, s': L.Sys, was: seq<int>, now: seq<int>, f: int, pde: int, syscallResume: int,
                  i: int)
    requires S.Inv(s) && L.Next(s, L.Fork(r), s') && r != -1 && L.IsSlot(i)
    requires StackForked(was, now, s.current, r, f, pde, syscallResume)
    requires Holds(was, i, s.procs[i]) && Holds(was, s.current, s.procs[s.current])
    ensures |s'.procs| == 32 && Holds(now, i, s'.procs[i])
  {
    ChildWords(was, now, s.current, r, f, pde, syscallResume);
  }
}
