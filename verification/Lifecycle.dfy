/**
 Processes as a protocol: the states of proc/proc.c, the scan of proc/schedule.c, the tick
 of sys/timer.c and the input block and wake of io/tty.c. Every gate is an interrupt gate,
 so a system call runs in one step up to its `int $0x20`, and the step that yields ends
 with the process the scan picks.
 */
module Lifecycle {

  import opened Limits
  const TICK_WRAP := 0x1_0000_0000
  const DRIVER := 1  // the process that runs tty_driver

  datatype Stat = Empty | Ready | WaitingInput | Waiting | Hanging | Dead

  /** Where a process goes on when it is next scheduled: in user code, or after the yield of
      `sys_wait`, `sys_exit` or `sys_std_read`. It is what its saved kernel stack says. */
  datatype Place = InUser | InWait | InExit | InRead

  datatype Proc = Proc(stat: Stat, father: int, pid: int, tty: int, place: Place)

  datatype Sys = Sys(procs: seq<Proc>, current: int, ticks: int)

  predicate IsSlot(i: int) { 0 <= i < PROC_MAX }

  // ----- schedule -----

  /** How many slots the scan from `current + 1` passes before it comes to slot `j`. */
  function Position(current: int, j: int): int {
    if j > current then j - current - 1 else j - current - 1 + PROC_MAX
  }

  /** A slot the scan passes: a dead process becomes an empty slot. */
  function Passed(x: Proc): Proc {
    if x.stat.Dead? then x.(stat := Empty) else x
  }

  /** `schedule`: the nearest ready process after the current one runs, and the slots on the
      way to it are passed. */
  ghost predicate Scheduled(procs: seq<Proc>, current: int, procs': seq<Proc>, next: int) {
    && |procs| == |procs'| == PROC_MAX
    && IsSlot(next) && procs[next].stat == Ready
    && (forall j {:trigger procs[j]} :: IsSlot(j) && Position(current, j) < Position(current, next) ==>
          procs[j].stat != Ready)
    && (forall j {:trigger procs'[j]} :: IsSlot(j) ==>
          procs'[j] == if Position(current, j) < Position(current, next) then Passed(procs[j]) else procs[j])
  }

  /** Does this timer interrupt call `schedule`? */
  predicate Switches(s: Sys)
    requires IsSlot(s.current) && |s.procs| == PROC_MAX
  {
    (s.ticks + 1) % TICK_WRAP % 4 == 0 || s.procs[s.current].stat != Ready
  }

  /** `timer_handler`, from the clock or from `int $0x20`. */
  ghost predicate TimerRel(s: Sys, s': Sys) {
    && IsSlot(s.current) && |s.procs| == PROC_MAX
    && s'.ticks == (s.ticks + 1) % TICK_WRAP
    && if Switches(s) then Scheduled(s.procs, s.current, s'.procs, s'.current)
       else s'.procs == s.procs && s'.current == s.current
  }

  // ----- the system calls -----

  /** `sys_fork`: the first empty slot gets a copy of the PCB, or there is none. */
  ghost predicate ForkRel(s: Sys, r: int, s': Sys) {
    && IsSlot(s.current) && |s.procs| == PROC_MAX
    && if r == -1 then (forall j :: IsSlot(j) ==> s.procs[j].stat != Empty) && s' == s
       else && IsSlot(r) && s.procs[r].stat == Empty && (forall j :: 0 <= j < r ==> s.procs[j].stat != Empty)
            && s' == s.(procs := s.procs[r := s.procs[s.current].(pid := r, father := s.current)])
  }

  /** The children of `p`, whatever their state, become children of process 0. */
  function Orphaned(procs: seq<Proc>, p: int): (r: seq<Proc>)
    ensures |r| == |procs|
  {
    seq(|procs|, (i: nat) requires i < |procs| =>
      if procs[i].father == p && i != p then procs[i].(father := 0) else procs[i])
  }

  /** `sys_exit` up to its yield: a waiting father is made ready; the process hangs. */
  function Exiting(s: Sys): Sys
    requires IsSlot(s.current) && |s.procs| == PROC_MAX && IsSlot(s.procs[s.current].father)
  {
    var f := s.procs[s.current].father;
    var procs := Orphaned(s.procs, s.current);
    var procs := if procs[f].stat == Waiting then procs[f := procs[f].(stat := Ready)] else procs;
    s.(procs := procs[s.current := procs[s.current].(stat := Hanging, place := InExit)])
  }

  ghost predicate ExitRel(s: Sys, s': Sys) {
    && IsSlot(s.current) && |s.procs| == PROC_MAX && IsSlot(s.procs[s.current].father)
    && TimerRel(Exiting(s), s')
  }

  datatype Outcome = Reported(child: int) | NoChild | Blocks

  predicate IsChild(procs: seq<Proc>, p: int, i: int) {
    0 <= i < |procs| && procs[i].father == p && i != p
  }

  ghost predicate HasChild(procs: seq<Proc>, p: int) {
    exists i :: IsChild(procs, p, i)
  }

  /** Child `i` of `p` has exited and not been reported. */
  predicate HangingChild(procs: seq<Proc>, p: int, i: int) {
    IsChild(procs, p, i) && procs[i].stat == Hanging
  }

  ghost predicate HasHangingChild(procs: seq<Proc>, p: int) {
    exists i :: HangingChild(procs, p, i)
  }

  /** The process blocks in state `st` and will go on at `at`. */
  function Blocked(s: Sys, st: Stat, at: Place): Sys
    requires 0 <= s.current < |s.procs|
  {
    s.(procs := s.procs[s.current := s.procs[s.current].(stat := st, place := at)])
  }

  function Resumed(s: Sys): Sys
    requires 0 <= s.current < |s.procs|
  {
    s.(procs := s.procs[s.current := s.procs[s.current].(place := InUser)])
  }

  /** One turn of the loop of `sys_wait`. */
  ghost predicate WaitRel(s: Sys, o: Outcome, s': Sys) {
    && IsSlot(s.current) && |s.procs| == PROC_MAX
    && match o
       case Reported(c) =>
         && HangingChild(s.procs, s.current, c) && (forall i :: 0 <= i < c ==> !HangingChild(s.procs, s.current, i))
         && s' == Resumed(s.(procs := s.procs[c := s.procs[c].(stat := Dead)]))
       case NoChild => !HasChild(s.procs, s.current) && s' == Resumed(s)
       case Blocks =>
         && HasChild(s.procs, s.current) && !HasHangingChild(s.procs, s.current)
         && TimerRel(Blocked(s, Waiting, InWait), s')
  }

  /** `sys_std_read` up to its yield. */
  ghost predicate ReadRel(s: Sys, s': Sys) {
    && IsSlot(s.current) && |s.procs| == PROC_MAX
    && TimerRel(Blocked(s, WaitingInput, InRead), s')
  }

  /** The enter key: every process that waits for input of terminal `tty` is ready. */
  function Woken(procs: seq<Proc>, tty: int): (r: seq<Proc>)
    ensures |r| == |procs|
  {
    seq(|procs|, (i: nat) requires i < |procs| =>
      if procs[i].stat == WaitingInput && procs[i].tty == tty then procs[i].(stat := Ready) else procs[i])
  }

  // ----- the machine -----

  datatype Step =
    | Tick                 // the clock, while the current process runs user code
    | Fork(r: int)         // sys_fork returns r
    | Exit
    | Wait(o: Outcome)     // a turn of the loop of sys_wait
    | Read                 // sys_std_read blocks
    | ReadOn               // ... and goes on
    | Wake(tty: int)       // tty_driver sees the enter key
    | SetTty(tty: int)     // init_start gives its child the other terminal

  /** The current process is a user process in user code: it can make a system call. */
  predicate CanCall(s: Sys) {
    IsSlot(s.current) && |s.procs| == PROC_MAX && s.current != DRIVER && s.procs[s.current].place == InUser
  }

  ghost predicate Next(s: Sys, step: Step, s': Sys) {
    match step
    case Tick => IsSlot(s.current) && |s.procs| == PROC_MAX && s.procs[s.current].place == InUser && TimerRel(s, s')
    case Fork(r) => CanCall(s) && ForkRel(s, r, s')
    case Exit => CanCall(s) && s.current != 0 && ExitRel(s, s')
    case Wait(o) =>
      && IsSlot(s.current) && |s.procs| == PROC_MAX
      && (s.procs[s.current].place == InWait || CanCall(s)) && WaitRel(s, o, s')
    case Read => CanCall(s) && ReadRel(s, s')
    case ReadOn => IsSlot(s.current) && |s.procs| == PROC_MAX && s.procs[s.current].place == InRead && s' == Resumed(s)
    case Wake(tty) => s.current == DRIVER && s' == s.(procs := Woken(s.procs, tty))
    case SetTty(tty) =>
      CanCall(s) && s' == s.(procs := s.procs[s.current := s.procs[s.current].(tty := tty)])
  }

  ghost predicate Run(ss: seq<Sys>, steps: seq<Step>) {
    && |ss| == |steps| + 1 && Init(ss[0])
    && forall k {:trigger steps[k]} :: 0 <= k < |steps| ==> Next(ss[k], steps[k], ss[k + 1])
  }

  /** What `main` sets up: processes 0 and 1, and the first call of `schedule` has picked 0.
      Unused PCBs name process 0 as their father. */
  ghost predicate Init(s: Sys) {
    && |s.procs| == PROC_MAX && s.current == 0 && 0 <= s.ticks < TICK_WRAP
    && (forall i :: IsSlot(i) ==> s.procs[i].father == 0)
    && (forall i :: 0 <= i < 2 ==> s.procs[i].stat == Ready && s.procs[i].place == InUser && s.procs[i].pid == i)
    && (forall i :: 2 <= i < PROC_MAX ==> s.procs[i].stat == Empty)
  }
}
