/**
 proc/proc.c, proc/schedule.c and sys/timer.c over the table they update.
 */
module ProcessTable {
  import opened Limits
  import opened Lifecycle

  class Processes {
    const table: array<Proc>
    var current: int  // -1 before the first call of schedule
    var ticks: int

    ghost predicate Valid()
      reads this, table
    {
      table.Length == PROC_MAX && -1 <= current < PROC_MAX && 0 <= ticks < TICK_WRAP
    }

    ghost function State(): Sys
      reads this, table
    {
      Sys(table[..], current, ticks)
    }

    /** `init_proc`: empty slots, whose other fields are whatever the memory holds. */
    constructor (pcbs: seq<Proc>)
      requires |pcbs| == PROC_MAX
      ensures Valid() && fresh(table) && current == -1 && ticks == 0
      ensures forall i :: IsSlot(i) ==> table[i] == pcbs[i].(stat := Empty)
    {
      table := new Proc[PROC_MAX](i requires 0 <= i < |pcbs| => pcbs[i].(stat := Empty));
      current := -1;
      ticks := 0;
    }

    /** `schedule`. */
    method Schedule()
      requires Valid() && exists j :: IsSlot(j) && table[j].stat == Ready
      modifies `current, table
      ensures Valid()
      ensures Scheduled(old(table[..]), old(current), table[..], current)
    {
      ghost var was := table[..];
      ghost var target :| IsSlot(target) && table[target].stat == Ready;
      ghost var n := 0;
      var i := current + 1;
      while true
        invariant 0 <= i <= PROC_MAX && current == old(current)
        invariant 0 <= n <= Position(current, target) < PROC_MAX
        invariant n == Position(current, if i == PROC_MAX then 0 else i)
        invariant forall j :: IsSlot(j) ==> table[j] == if Position(current, j) < n then Passed(was[j]) else was[j]
        invariant forall j :: IsSlot(j) && Position(current, j) < n ==> was[j].stat != Ready
        decreases PROC_MAX - n
      {
        if i >= PROC_MAX { i := 0; }
        if table[i].stat == Ready {
          current := i;
          return;
        } else if table[i].stat == Dead {
          table[i] := table[i].(stat := Empty);
        }
        assert was[target].stat == Ready;
        i, n := i + 1, n + 1;
      }
    }

    /** `timer_handler`. */
    method TimerHandler()
      requires Valid() && current >= 0 && exists j :: IsSlot(j) && table[j].stat == Ready
      modifies this, table
      ensures Valid() && TimerRel(old(State()), State())
    {
      ticks := (ticks + 1) % TICK_WRAP;
      if ticks % 4 == 0 || table[current].stat != Ready {
        Schedule();
      }
    }

    /** `sys_setup_kernel_process`, for the fields of this model. */
    method SetupKernelProcess(pid: int, tty: int)
      requires Valid() && IsSlot(pid)
      modifies table
      ensures Valid() && State() == old(State()).(procs := old(table[..])[pid := Proc(Ready, 0, pid, tty, InUser)])
    {
      table[pid] := Proc(Ready, 0, pid, tty, InUser);
    }

    /** `sys_fork`. */
    method SysFork() returns (r: int)
      requires Valid() && current >= 0
      modifies table
      ensures Valid() && ForkRel(old(State()), r, State())
    {
      var newpid := 0;
      while newpid < PROC_MAX && table[newpid].stat != Empty
        invariant 0 <= newpid <= PROC_MAX
        invariant forall j :: 0 <= j < newpid ==> table[j].stat != Empty
      {
        newpid := newpid + 1;
      }
      if newpid == PROC_MAX { return -1; }
      table[newpid] := table[current];
      table[newpid] := table[newpid].(pid := newpid);
      table[newpid] := table[newpid].(father := current);
      return newpid;
    }

    /** The loop of `sys_exit` that gives the children to process 0. */
    method Orphan()
      requires Valid() && current >= 0
      modifies table
      ensures Valid() && table[..] == Orphaned(old(table[..]), current)
    {
      ghost var was := table[..];
      for i := 0 to PROC_MAX
        invariant forall j :: IsSlot(j) ==> table[j] == if j < i then Orphaned(was, current)[j] else was[j]
      {
        if table[i].father == current && i != current {
          table[i] := table[i].(father := 0);
        }
      }
    }

    /** `sys_exit`; its last yield does not come back. */
    method SysExit()
      requires Valid() && current >= 0 && IsSlot(table[current].father) && table[current].father != current
      requires exists j :: IsSlot(j) && j != current && table[j].stat == Ready
      modifies this, table
      ensures Valid() && ExitRel(old(State()), State())
    {
      ghost var other :| IsSlot(other) && other != current && table[other].stat == Ready;
      ghost var s := State();
      var f := table[current].father;
      Orphan();
      if table[f].stat == Waiting {
        table[f] := table[f].(stat := Ready);
      }
      table[current] := table[current].(stat := Hanging, place := InExit);
      assert State() == Exiting(s);
      assert table[other].stat == Ready;
      TimerHandler();
    }

    /** One turn of the loop of `sys_wait`: the pid of an exited child, -1 for no child, and
        otherwise the process has blocked. */
    method SysWait() returns (o: Outcome, r: int)
      requires Valid() && current >= 0
      requires exists j :: IsSlot(j) && j != current && table[j].stat == Ready
      modifies this, table
      ensures Valid() && WaitRel(old(State()), o, State())
      ensures o.Reported? ==> r == old(table[o.child]).pid
      ensures o.NoChild? ==> r == -1
    {
      ghost var other :| IsSlot(other) && other != current && table[other].stat == Ready;
      ghost var was := table[..];
      var f := false;
      for i := 0 to PROC_MAX
        invariant table[..] == was && State() == old(State())
        invariant f <==> exists j :: 0 <= j < i && IsChild(was, current, j)
        invariant forall j :: 0 <= j < i ==> !HangingChild(was, current, j)
      {
        if table[i].father == current && i != current {
          assert IsChild(was, current, i);
          f := true;
          if table[i].stat == Hanging {
            table[i] := table[i].(stat := Dead);
            o, r := Reported(i), table[i].pid;
            table[current] := table[current].(place := InUser);
            return;
          }
        }
      }
      r := -1;
      if !f {
        o := NoChild;
        table[current] := table[current].(place := InUser);
      } else {
        o := Blocks;
        table[current] := table[current].(stat := Waiting, place := InWait);
        assert State() == Blocked(old(State()), Waiting, InWait);
        assert table[other].stat == Ready;
        TimerHandler();
      }
    }

    /** `sys_std_read` up to its yield. */
    method SysStdRead()
      requires Valid() && current >= 0
      requires exists j :: IsSlot(j) && j != current && table[j].stat == Ready
      modifies this, table
      ensures Valid() && ReadRel(old(State()), State())
    {
      ghost var other :| IsSlot(other) && other != current && table[other].stat == Ready;
      table[current] := table[current].(stat := WaitingInput, place := InRead);
      assert State() == Blocked(old(State()), WaitingInput, InRead);
      assert table[other].stat == Ready;
      TimerHandler();
    }

    /** The wake loop of `tty_driver`'s enter key. */
    method WakeReaders(tty: int)
      requires Valid()
      modifies table
      ensures Valid() && State() == old(State()).(procs := Woken(old(table[..]), tty))
    {
      ghost var was := table[..];
      for i := 0 to PROC_MAX
        invariant forall j :: IsSlot(j) ==> table[j] == if j < i then Woken(was, tty)[j] else was[j]
      {
        if table[i].stat == WaitingInput && table[i].tty == tty {
          table[i] := table[i].(stat := Ready);
        }
      }
      assert table[..] == Woken(was, tty);
    }
  }

  /** `main`: the table is set up and the first call of `schedule` picks process 0. */
  method Boot(pcbs: seq<Proc>, tty: int) returns (p: Processes)
    requires |pcbs| == PROC_MAX && forall i :: IsSlot(i) ==> pcbs[i].father == 0
    ensures fresh(p) && fresh(p.table) && p.Valid() && Init(p.State())
  {
    p := new Processes(pcbs);
    p.SetupKernelProcess(0, tty);
    ghost var s0 := p.State();
    p.SetupKernelProcess(DRIVER, tty);
    ghost var s := p.State();
    assert p.table[0] == s.procs[0] && s.procs[0] == s0.procs[0];
    p.Schedule();
    assert Position(-1, 0) == 0 && s.procs[0].stat == Ready;
    assert forall i :: IsSlot(i) ==> p.State().procs[i] == p.table[i];
  }
}
