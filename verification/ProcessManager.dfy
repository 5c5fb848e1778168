/** The process manager of `process.c` with its table updated in place, proved against the transition system. */
module ProcessManager {
  import opened Machine
  import opened Scheduler

  class Manager {
    const table: array<Process>
    var current: nat
    var count: byte
    var nextPid: nat
    const stacks: nat

    ghost function St(): (s: State)
      reads this, table
    {
      State(table[..], current, count, nextPid, stacks)
    }

    constructor (stacks: nat)
      ensures St() == Init(stacks) && fresh(table)
    {
      table := new Process[MAX_PROCESSES](_ => Process(0, 0, Unused, 128, 0, 0, 0));
      current, count, nextPid := 0, 1, 1;
      this.stacks := stacks;
      new;
      table[0] := Process(0, 0, Running, 0, TIME_SLICE, stacks, 0);
      assert table[..] == Init(stacks).table;
    }

    /** The two-part scan for an unused slot. */
    method ChoosePid() returns (pid: nat)
      requires WellFormed(St())
      modifies this`nextPid
      ensures (pid, nextPid) == AllocatePid(old(St()))
    {
      ghost var s := St();
      pid := nextPid;
      while pid < MAX_PROCESSES
        invariant nextPid <= pid <= MAX_PROCESSES && nextPid == s.nextPid
        invariant FirstUnused(s.table, nextPid, MAX_PROCESSES) == FirstUnused(s.table, pid, MAX_PROCESSES)
      {
        if table[pid].state == Unused {
          nextPid := pid + 1;
          if nextPid >= MAX_PROCESSES {
            nextPid := 1;
          }
          return;
        }
        pid := pid + 1;
      }
      pid := 1;
      while pid < nextPid
        invariant 1 <= pid <= nextPid
        invariant FirstUnused(s.table, 1, nextPid) == FirstUnused(s.table, pid, nextPid)
      {
        if table[pid].state == Unused {
          return;
        }
        pid := pid + 1;
      }
      pid := 0;
    }

    method Spawn(priority: byte) returns (r: int)
      requires WellFormed(St())
      modifies this, table
      ensures (St(), r) == SpawnStep(old(St()), priority)
    {
      var pid := ChoosePid();
      if pid == 0 || pid >= MAX_PROCESSES {
        return -1;
      }
      table[pid] := Process(pid, current, Ready, priority, TIME_SLICE, stacks + pid * STACK_SIZE, 0);
      count := (count + 1) % 0x100;
      r := pid;
    }

    /** The round-robin scan: it stops at the first ready slot after the current one, whatever its priority. */
    method FindNextSlot() returns (k: nat)
      requires WellFormed(St())
      ensures k == FindNext(St())
    {
      ghost var s := St();
      var nextPid := (current + 1) % MAX_PROCESSES;
      var best, bestPriority := -1, 256;
      var i := 0;
      while i < MAX_PROCESSES
        invariant 0 <= i <= MAX_PROCESSES && best == -1 && bestPriority == 256
        invariant NoneReady(s, i)
      {
        var check := (nextPid + i) % MAX_PROCESSES;
        assert check == SlotAfter(current, i + 1);
        if table[check].state == Ready && table[check].priority < bestPriority {
          FirstReady(s, i + 1);
          return check;
        }
        i := i + 1;
      }
      if table[current].state == Ready {
        NothingReady(s);
        return current;
      }
      NothingReady(s);
      k := 0;
    }

    method Schedule()
      requires WellFormed(St())
      modifies this, table
      ensures St() == ScheduleStep(old(St()))
    {
      var next := FindNextSlot();
      if table[current].pid != 0 && table[current].state == Running {
        table[current] := table[current].(state := Ready);
      }
      current := table[next].pid;
      table[next] := table[next].(state := Running, ticks := TIME_SLICE);
    }

    method Exit(code: int)
      requires WellFormed(St())
      modifies this, table
      ensures St() == ExitStep(old(St()), code)
    {
      table[current] := table[current].(exitCode := code, state := Terminated);
      count := (count + 0xFF) % 0x100;
      Schedule();
    }

    method Kill(pid: nat) returns (r: int)
      requires WellFormed(St())
      modifies this, table
      ensures (St(), r) == KillStep(old(St()), pid)
    {
      if pid >= MAX_PROCESSES || table[pid].state == Unused || pid == 0 {
        return -1;
      }
      table[pid] := table[pid].(exitCode := -1, state := Terminated);
      if count > 0 {
        count := count - 1;
      }
      if current == pid {
        Schedule();
      }
      r := 0;
    }

    method Tick()
      requires WellFormed(St())
      modifies this, table
      ensures St() == TickStep(old(St()))
    {
      if table[current].ticks > 0 {
        table[current] := table[current].(ticks := table[current].ticks - 1);
      }
      assert table[..] == old(table[..])[current := table[current]];
      if table[current].ticks == 0 {
        Schedule();
      }
    }
  }
}
