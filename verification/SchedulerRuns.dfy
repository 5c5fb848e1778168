/** What holds over every run of the scheduler from `process_init`. */
module SchedulerRuns {
  import opened Machine
  import opened Scheduler

  // ---------- Steps, cut at the call of the scheduler ----------

  /** Whether a step calls `process_schedule`. */
  predicate Calls(s: State, step: Step)
    requires WellFormed(s)
  {
    match step
    case Spawn(_) => false
    case Exit(_) => true
    case Kill(pid) => Killable(s, pid) && s.current == pid
    case Schedule => true
    case Tick => s.table[s.current].ticks <= 1
  }

  /** The state in which a step calls the scheduler, or ends if it does not. */
  function Pause(s: State, step: Step): (t: State)
    requires WellFormed(s)
  {
    match step
    case Spawn(priority) => SpawnStep(s, priority).0
    case Exit(code) => Exited(s, code)
    case Kill(pid) => if Killable(s, pid) then Killed(s, pid) else s
    case Schedule => s
    case Tick => Ticked(s)
  }

  lemma NextIsPauseThenSchedule(s: State, step: Step)
    requires WellFormed(s)
    ensures WellFormed(Pause(s, step))
    ensures Next(s, step) == if Calls(s, step) then ScheduleStep(Pause(s, step)) else Pause(s, step)
  {
  }

  lemma PauseOk(s: State, step: Step)
    requires Inv(s)
    ensures var t := Pause(s, step);
            && t.current == s.current && t.stacks == s.stacks
            && if Calls(s, step) then Paused(t) else Inv(t)
  {
    var t := Pause(s, step);
    NextIsPauseThenSchedule(s, step);
    forall i | 0 <= i < MAX_PROCESSES
      ensures if Calls(s, step) then SlotPaused(t.table[i], i, t.current, t.stacks)
              else SlotOk(t.table[i], i, t.current, t.stacks)
    {
      assert SlotOk(s.table[i], i, s.current, s.stacks);
    }
  }

  // ---------- Invariant over every run ----------

  function Run(s: State, steps: seq<Step>): (t: State)
    requires Inv(s)
    ensures Inv(t)
  {
    if steps == [] then s
    else
      var before := Run(s, steps[..|steps| - 1]);
      StepInv(before, steps[|steps| - 1]);
      Next(before, steps[|steps| - 1])
  }

  /** Every step keeps the invariant, ended processes stay ended, and only a spawn takes an unused slot. */
  lemma StepInv(s: State, step: Step)
    requires Inv(s)
    ensures Inv(Next(s, step))
    ensures Next(s, step).stacks == s.stacks
    ensures forall i :: 0 < i < MAX_PROCESSES && s.table[i].state == Terminated ==>
              Next(s, step).table[i].state == Terminated
    ensures !step.Spawn? ==> forall i :: 0 <= i < MAX_PROCESSES ==>
              (Next(s, step).table[i].state == Unused <==> s.table[i].state == Unused)
    ensures !step.Spawn? ==> Next(s, step).nextPid == s.nextPid
  {
    NextIsPauseThenSchedule(s, step);
    PauseOk(s, step);
    var t := Pause(s, step);
    if Calls(s, step) {
      ScheduleInv(t);
      ScheduledSlots(t);
    }
    forall i | 0 <= i < MAX_PROCESSES
      ensures i > 0 && s.table[i].state == Terminated ==> Next(s, step).table[i].state == Terminated
      ensures !step.Spawn? ==> (Next(s, step).table[i].state == Unused <==> s.table[i].state == Unused)
    {
      assert SlotOk(s.table[i], i, s.current, s.stacks);
    }
  }

  /** The slot of an ended process, its exit code included, changes only if it is killed again. */
  lemma EndedSlotFrozen(s: State, step: Step, i: nat)
    requires Inv(s) && 0 < i < MAX_PROCESSES && s.table[i].state == Terminated && step != Kill(i)
    ensures |Next(s, step).table| == MAX_PROCESSES && Next(s, step).table[i] == s.table[i]
  {
    NextIsPauseThenSchedule(s, step);
    PauseOk(s, step);
    assert SlotOk(s.table[i], i, s.current, s.stacks);
    if Calls(s, step) {
      ScheduledSlots(Pause(s, step));
    }
  }

  /** Over every run without a further kill of it, an ended process and its exit code stay as they are. */
  lemma {:induction false} EndedForEver(s: State, steps: seq<Step>, i: nat)
    requires Inv(s) && 0 < i < MAX_PROCESSES && s.table[i].state == Terminated && Kill(i) !in steps
    ensures Run(s, steps).table[i] == s.table[i]
  {
    if steps != [] {
      var n := |steps| - 1;
      EndedForEver(s, steps[..n], i);
      EndedSlotFrozen(Run(s, steps[..n]), steps[n], i);
    }
  }

  /** A process ends by its own exit, with the code it gives, or by a kill, with -1; no other step ends one. */
  lemma EndsOnlyBy(s: State, step: Step, i: nat)
    requires Inv(s) && 0 < i < MAX_PROCESSES && s.table[i].state != Terminated
    ensures var t := Next(s, step);
            && |t.table| == MAX_PROCESSES
            && (t.table[i].state == Terminated <==>
                  (step.Exit? && s.current == i) || (step == Kill(i) && s.table[i].state != Unused))
            && (t.table[i].state == Terminated ==> t.table[i].exitCode == if step.Exit? then step.code else -1)
  {
    NextIsPauseThenSchedule(s, step);
    PauseOk(s, step);
    assert SlotOk(s.table[i], i, s.current, s.stacks);
    if Calls(s, step) {
      ScheduledSlots(Pause(s, step));
    }
  }

  /** A successful spawn makes its slot ready for the current process, with a full slice, and touches no other. */
  lemma SpawnTouches(s: State, priority: byte)
    requires Inv(s)
    ensures var (t, pid) := SpawnStep(s, priority);
            && |t.table| == MAX_PROCESSES && t.current == s.current
            && (pid != -1 ==>
                  && 0 < pid < MAX_PROCESSES && s.table[pid].state == Unused
                  && t.table[pid] ==
                     Process(pid, s.current, Ready, priority, TIME_SLICE, s.stacks + pid * STACK_SIZE, 0))
            && (forall i :: 0 <= i < MAX_PROCESSES && i != pid ==> t.table[i] == s.table[i])
  {
  }

  /**
   What a kill answers: zero exactly if its target, which is not the kernel's slot, has ended;
   otherwise nothing has happened.
   */
  lemma KillAnswers(s: State, pid: nat)
    requires Inv(s)
    ensures var (t, r) := KillStep(s, pid);
            && |t.table| == MAX_PROCESSES && (r == 0 || r == -1)
            && (r == 0 <==> 0 < pid < 32 && t.table[pid].state == Terminated)
            && (r == -1 ==> t == s)
  {
    if Killable(s, pid) {
      EndedSlot(s, pid);
    }
  }

  lemma EndedSlot(s: State, pid: nat)
    requires Inv(s) && Killable(s, pid)
    ensures WellFormed(Next(s, Kill(pid))) && Next(s, Kill(pid)).table[pid].state == Terminated
  {
    StepInv(s, Kill(pid));
    if s.table[pid].state != Terminated {
      EndsOnlyBy(s, Kill(pid), pid);
    }
  }

  // ---------- Time slices ----------

  function Ticks(k: nat): (steps: seq<Step>)
    ensures |steps| == k
  {
    seq(k, _ => Tick)
  }

  /** The state with `k` ticks of the current slice used. */
  function Used(s: State, k: nat): (t: State)
    requires WellFormed(s) && k <= s.table[s.current].ticks
  {
    s.(table := s.table[s.current := s.table[s.current].(ticks := s.table[s.current].ticks - k)])
  }

  lemma UsedOneMore(s: State, k: nat)
    requires WellFormed(s) && 0 < k < s.table[s.current].ticks
    ensures WellFormed(Used(s, k - 1)) && Next(Used(s, k - 1), Tick) == Used(s, k)
  {
    var u := Used(s, k - 1);
    assert Ticked(u).table == Used(s, k).table;
  }

  lemma RunOneMore(s: State, before: seq<Step>, step: Step, steps: seq<Step>)
    requires Inv(s) && steps == before + [step]
    ensures Run(s, steps) == Next(Run(s, before), step)
  {
    assert steps[..|steps| - 1] == before;
  }

  /** Ticks within the slice do nothing else. */
  lemma {:induction false} TicksRun(s: State, k: nat)
    requires Inv(s) && k < s.table[s.current].ticks
    ensures Run(s, Ticks(k)) == Used(s, k)
  {
    if k == 0 {
      assert s.table[s.current := s.table[s.current]] == s.table;
    } else {
      TicksRun(s, k - 1);
      UsedOneMore(s, k);
      RunOneMore(s, Ticks(k - 1), Tick, Ticks(k));
    }
  }

  /**
   A process that is dispatched keeps the processor for nine ticks, and the tenth hands it to
   the ready process nearest after it, or to the kernel's slot if none is ready.
   */
  lemma RunsTenTicks(s: State, step: Step, k: nat)
    requires Inv(s) && Calls(s, step) && Inv(Next(s, step)) && k < 10
    ensures Run(Next(s, step), Ticks(k)).current == Next(s, step).current
    ensures Run(Next(s, step), Ticks(10)).current == FindNext(Next(s, step))
  {
    var t := Next(s, step);
    NextIsPauseThenSchedule(s, step);
    PauseOk(s, step);
    ScheduledSlots(Pause(s, step));
    assert t.table[t.current].ticks == 10;
    TicksRun(t, k);
    TicksRun(t, 9);
    LastTick(t, Used(t, 9));
    assert Ticks(10)[..9] == Ticks(9);
  }

  lemma LastTick(t: State, u: State)
    requires Inv(t) && t.table[t.current].ticks == 10 && u == Used(t, 9)
    ensures TickStep(u).current == FindNext(t)
  {
    var v := Ticked(u);
    assert Paused(v) by {
      forall i | 0 <= i < MAX_PROCESSES ensures SlotPaused(v.table[i], i, v.current, v.stacks) {
        assert SlotOk(t.table[i], i, t.current, t.stacks);
      }
    }
    ScheduledSlots(v);
    PrioritiesIgnored(t, v);
  }

  // ---------- Starvation freedom ----------

  lemma DistanceShrinks(c: nat, d: nat, p: nat)
    requires c < MAX_PROCESSES && p < MAX_PROCESSES && 1 <= d < Distance(c, p)
    ensures Distance(SlotAfter(c, d), p) == Distance(c, p) - d
  {
  }

  /** The slot chosen is `p` or lies strictly before it on the way round. */
  lemma FindNextTowards(s: State, p: nat)
    requires WellFormed(s) && p < MAX_PROCESSES && s.table[p].state == Ready
    ensures FindNext(s) == p || Distance(FindNext(s), p) < Distance(s.current, p)
  {
    var d := ReadyDistance(s, 1);
    assert s.table[SlotAfter(s.current, Distance(s.current, p))].state == Ready;
    if d < Distance(s.current, p) {
      DistanceShrinks(s.current, d, p);
    }
  }

  /** Scheduling dispatches a ready slot or brings the current slot strictly closer to it. */
  lemma ScheduleTowards(s: State, p: nat)
    requires Paused(s) && p < MAX_PROCESSES && s.table[p].state == Ready
    ensures var t := ScheduleStep(s);
            && t.current < MAX_PROCESSES && |t.table| == MAX_PROCESSES
            && (|| t.current == p
                || (t.table[p].state == Ready && Distance(t.current, p) < Distance(s.current, p)))
  {
    ScheduledSlots(s);
    FindNextTowards(s, p);
    assert SlotPaused(s.table[p], p, s.current, s.stacks);
  }

  /** Timer ticks that `p` may still have to wait: whole slices up to the slot before it, and the current one. */
  function TicksToWait(s: State, p: nat): (n: nat)
    requires Inv(s) && p < MAX_PROCESSES
  {
    TIME_SLICE * (Distance(s.current, p) - 1) + s.table[s.current].ticks
  }

  lemma PauseKeepsReady(s: State, step: Step, p: nat)
    requires Inv(s) && p < MAX_PROCESSES && s.table[p].state == Ready && step != Kill(p)
    ensures Pause(s, step).current == s.current && |Pause(s, step).table| == MAX_PROCESSES
    ensures Pause(s, step).table[p].state == Ready
    ensures !Calls(s, step) ==>
              Pause(s, step).table[s.current].ticks == s.table[s.current].ticks - if step.Tick? then 1 else 0
  {
    assert SlotOk(s.table[s.current], s.current, s.current, s.stacks);
    PauseOk(s, step);
  }

  /** No step but its own kill takes a ready process further from dispatch, and each tick or call brings it closer. */
  lemma StepTowards(s: State, step: Step, p: nat)
    requires Inv(s) && p < MAX_PROCESSES && s.table[p].state == Ready && step != Kill(p)
    ensures var t := Next(s, step);
            && Inv(t)
            && (|| t.current == p
                || (&& t.table[p].state == Ready
                    && Distance(t.current, p) + (if Calls(s, step) then 1 else 0) <= Distance(s.current, p)
                    && TicksToWait(t, p) + (if step.Tick? then 1 else 0) <= TicksToWait(s, p)))
  {
    var u, t := Pause(s, step), Next(s, step);
    StepInv(s, step);
    NextIsPauseThenSchedule(s, step);
    PauseOk(s, step);
    PauseKeepsReady(s, step, p);
    assert SlotOk(s.table[s.current], s.current, s.current, s.stacks);
    assert SlotOk(t.table[t.current], t.current, t.current, t.stacks);
    if Calls(s, step) {
      ScheduleTowards(u, p);
      ScheduledSlots(u);
    }
  }

  /** The calls of the scheduler in a run. */
  function CallCount(s: State, steps: seq<Step>): (n: nat)
    requires Inv(s)
  {
    if steps == [] then 0
    else
      var n := |steps| - 1;
      CallCount(s, steps[..n]) + if Calls(Run(s, steps[..n]), steps[n]) then 1 else 0
  }

  function TickCount(steps: seq<Step>): (n: nat) {
    if steps == [] then 0
    else TickCount(steps[..|steps| - 1]) + if steps[|steps| - 1].Tick? then 1 else 0
  }

  /** Slot `p` is current at some point of the run. */
  ghost predicate Dispatched(s: State, steps: seq<Step>, p: nat)
    requires Inv(s)
  {
    exists k :: 0 <= k <= |steps| && Run(s, steps[..k]).current == p
  }

  lemma {:induction false} WaitingShrinks(s: State, steps: seq<Step>, p: nat)
    requires Inv(s) && p < MAX_PROCESSES && s.table[p].state == Ready && Kill(p) !in steps
    ensures || Dispatched(s, steps, p)
            || (var t := Run(s, steps);
                && t.table[p].state == Ready
                && Distance(t.current, p) + CallCount(s, steps) <= Distance(s.current, p)
                && TicksToWait(t, p) + TickCount(steps) <= TicksToWait(s, p))
  {
    if steps != [] {
      var n := |steps| - 1;
      WaitingShrinks(s, steps[..n], p);
      if Dispatched(s, steps[..n], p) {
        var k :| 0 <= k <= n && Run(s, steps[..n][..k]).current == p;
        assert steps[..n][..k] == steps[..k];
      } else {
        StepTowards(Run(s, steps[..n]), steps[n], p);
        assert steps[..n + 1] == steps;
        if Run(s, steps).current == p {
          assert Run(s, steps[..n + 1]).current == p;
        }
      }
    }
  }

  /**
   Starvation freedom: in every run, whatever else is spawned, ends or is killed, a
   ready process that is not killed is dispatched within 31 calls of the scheduler and
   within 310 timer ticks.
   */
  lemma DispatchedInTime(s: State, steps: seq<Step>, p: nat)
    requires Inv(s) && p < MAX_PROCESSES && s.table[p].state == Ready && Kill(p) !in steps
    requires CallCount(s, steps) >= 31 || TickCount(steps) >= 310
    ensures Dispatched(s, steps, p)
  {
    WaitingShrinks(s, steps, p);
    var t := Run(s, steps);
    assert SlotOk(s.table[p], p, s.current, s.stacks);
    assert SlotOk(s.table[s.current], s.current, s.current, s.stacks);
    assert SlotOk(t.table[t.current], t.current, t.current, t.stacks);
  }

  /**
   So every process that is spawned and not killed gets to run: within 31 calls of the
   scheduler and within 310 timer ticks of its spawn, from any reachable state.  That the
   state after the spawn satisfies the invariant is `StepInv`.
   */
  lemma SpawnedIsDispatched(s: State, priority: byte, t: State, steps: seq<Step>, p: nat)
    requires Inv(s) && Inv(t) && (t, p as int) == SpawnStep(s, priority) && Kill(p) !in steps
    requires CallCount(t, steps) >= 31 || TickCount(steps) >= 310
    ensures Dispatched(t, steps, p)
  {
    SpawnTouches(s, priority);
    DispatchedInTime(t, steps, p);
  }

  /** The choice does not look at priorities: tables that agree on states yield the same slot. */
  lemma PrioritiesIgnored(s: State, t: State)
    requires WellFormed(s) && WellFormed(t) && s.current == t.current
    requires forall i :: 0 <= i < MAX_PROCESSES ==> s.table[i].state == t.table[i].state
    ensures FindNext(s) == FindNext(t)
  {
  }

  /** From initialisation: priority 1 comes before priority 200, and the process of priority 200 runs first. */
  lemma LowPriorityFirst(stacks: nat)
    ensures Inv(Init(stacks)) && Run(Init(stacks), [Spawn(200), Spawn(1), Schedule]).current == 1
  {
    FirstSpawnedFirst(Init(stacks), [Spawn(200), Spawn(1), Schedule]);
  }

  lemma FirstSpawnedFirst(s: State, steps: seq<Step>)
    requires Inv(s) && s.current == 0 && s.nextPid == 1 && s.table[1].state == s.table[2].state == Unused
    requires steps == [Spawn(200), Spawn(1), Schedule]
    ensures Run(s, steps).current == 1
  {
    var s1, s2 := Run(s, steps[..1]), Run(s, steps[..2]);
    assert steps[..0] == [] && steps[..3] == steps;
    RunStep(s, steps, 0);
    assert s1.table[1].state == Ready && s1.current == 0 && s1.nextPid == 2 && s1.table[2].state == Unused;
    RunStep(s, steps, 1);
    assert s2.table[1].state == Ready && s2.current == 0;
    RunStep(s, steps, 2);
    NextIsNearest(s2);
    ScheduledSlots(s2);
  }

  // ---------- Process identifiers ----------

  /** Exactly the slots `0..used` are in use, and the search for a pid starts after them. */
  ghost predicate PidsInOrder(s: State, used: nat)
    requires WellFormed(s)
  {
    && used < MAX_PROCESSES
    && (forall i :: 0 <= i < MAX_PROCESSES ==> (s.table[i].state == Unused <==> i > used))
    && s.nextPid == if used == MAX_PROCESSES - 1 then 1 else used + 1
  }

  function SpawnResults(s: State, steps: seq<Step>): (r: seq<int>)
    requires Inv(s)
  {
    if steps == [] then []
    else
      var n := |steps| - 1;
      var before := SpawnResults(s, steps[..n]);
      if steps[n].Spawn? then before + [SpawnStep(Run(s, steps[..n]), steps[n].priority).1] else before
  }

  lemma SpawnInOrder(s: State, priority: byte, used: nat)
    requires Inv(s) && PidsInOrder(s, used)
    ensures var (t, pid) := SpawnStep(s, priority);
            && WellFormed(t)
            && pid == (if used < MAX_PROCESSES - 1 then used + 1 else -1)
            && PidsInOrder(t, if used < MAX_PROCESSES - 1 then used + 1 else used)
  {
  }

  /**
   Slots are never given back: over every run from `process_init`, whatever exits and
   kills it has, the spawns return 1, 2, .., 31 in this order and then fail for ever.
   */
  lemma {:induction false} SpawnsReturnInOrder(stacks: nat, steps: seq<Step>)
    ensures Inv(Init(stacks))
    ensures var s := Init(stacks);
            var r := SpawnResults(s, steps);
            && (forall k :: 0 <= k < |r| ==> r[k] == if k < MAX_PROCESSES - 1 then k + 1 else -1)
            && PidsInOrder(Run(s, steps), if |r| < MAX_PROCESSES - 1 then |r| else MAX_PROCESSES - 1)
  {
    InitInv(stacks);
    var s := Init(stacks);
    if steps != [] {
      var n := |steps| - 1;
      SpawnsReturnInOrder(stacks, steps[..n]);
      var before, r := Run(s, steps[..n]), SpawnResults(s, steps[..n]);
      var used := if |r| < MAX_PROCESSES - 1 then |r| else MAX_PROCESSES - 1;
      StepInv(before, steps[n]);
      if steps[n].Spawn? {
        SpawnInOrder(before, steps[n].priority, used);
      }
    }
  }

  /** In every reachable state the stacks of slots in use are disjoint and inside the stack area. */
  lemma StacksDisjoint(s: State, i: nat, j: nat)
    requires Inv(s) && i < j < MAX_PROCESSES
    requires s.table[i].state != Unused && s.table[j].state != Unused
    ensures s.stacks <= s.table[i].stackBase
    ensures s.table[i].stackBase + 4096 <= s.table[j].stackBase
    ensures s.table[j].stackBase + 4096 <= s.stacks + 32 * 4096
  {
  }

  // ---------- The process count ----------

  predicate IsLive(p: Process) {
    p.state == Ready || p.state == Running
  }

  function LiveCount(table: seq<Process>): (n: nat) {
    if table == [] then 0 else LiveCount(table[..|table| - 1]) + if IsLive(table[|table| - 1]) then 1 else 0
  }

  lemma {:induction false} LiveUpdate(table: seq<Process>, i: nat, p: Process)
    requires i < |table|
    ensures LiveCount(table[i := p]) ==
            LiveCount(table) - (if IsLive(table[i]) then 1 else 0) + if IsLive(p) then 1 else 0
  {
    var n := |table| - 1;
    if i < n {
      assert table[i := p][..n] == table[..n][i := p];
      LiveUpdate(table[..n], i, p);
    } else {
      assert table[i := p][..n] == table[..n];
    }
  }

  lemma {:induction false} LiveBounds(table: seq<Process>, i: nat)
    requires i < |table|
    ensures LiveCount(table) <= |table|
    ensures IsLive(table[i]) ==> LiveCount(table) >= 1
    ensures !IsLive(table[i]) ==> LiveCount(table) < |table|
  {
    var n := |table| - 1;
    if n > 0 {
      LiveBounds(table[..n], if i < n then i else n - 1);
    }
  }

  /** `g_process_count` is the number of processes that are ready or running. */
  predicate Exact(s: State) {
    s.count == LiveCount(s.table)
  }

  /**
   The steps that make the count wrong: a kill of a process that has already ended,
   and a dispatch of the kernel's slot, for want of a ready process, after the kernel
   has exited.
   */
  predicate Miscounts(s: State, step: Step)
    requires WellFormed(s)
  {
    || (step.Kill? && Killable(s, step.pid) && s.table[step.pid].state == Terminated)
    || (&& Calls(s, step) && !AnyReady(s)
        && (s.table[0].state == Terminated || (step.Exit? && s.current == 0)))
  }

  lemma ScheduleLive(s: State)
    requires Paused(s)
    ensures LiveCount(ScheduleStep(s).table) ==
            LiveCount(s.table) + if !AnyReady(s) && s.table[0].state == Terminated then 1 else 0
  {
    var next, cur := FindNext(s), s.table[s.current];
    assert SlotPaused(cur, s.current, s.current, s.stacks);
    assert SlotPaused(s.table[next], next, s.current, s.stacks);
    assert SlotPaused(s.table[0], 0, s.current, s.stacks);
    var demoted := if cur.pid != 0 && cur.state == Running then s.table[s.current := cur.(state := Ready)] else s.table;
    if cur.pid != 0 && cur.state == Running {
      LiveUpdate(s.table, s.current, cur.(state := Ready));
    }
    LiveUpdate(demoted, next, demoted[next].(state := Running, ticks := TIME_SLICE));
  }

  lemma SpawnLive(s: State, priority: byte)
    requires Inv(s) && Exact(s)
    ensures Exact(SpawnStep(s, priority).0)
  {
    var pid, t := AllocatePid(s).0, SpawnStep(s, priority).0;
    if pid != 0 {
      LiveBounds(s.table, pid);
      LiveUpdate(s.table, pid, t.table[pid]);
    }
  }

  lemma ExitLive(s: State, code: int)
    requires Inv(s) && Exact(s)
    ensures Exact(Exited(s, code))
  {
    assert SlotOk(s.table[s.current], s.current, s.current, s.stacks);
    LiveBounds(s.table, s.current);
    LiveUpdate(s.table, s.current, s.table[s.current].(exitCode := code, state := Terminated));
  }

  lemma KillLive(s: State, pid: nat)
    requires Inv(s) && Exact(s) && Killable(s, pid)
    ensures var t := Killed(s, pid);
            t.count == LiveCount(t.table) - if s.table[pid].state == Terminated then 1 else 0
  {
    assert SlotOk(s.table[s.current], s.current, s.current, s.stacks);
    assert SlotOk(s.table[pid], pid, s.current, s.stacks);
    LiveBounds(s.table, s.current);
    LiveUpdate(s.table, pid, s.table[pid].(exitCode := -1, state := Terminated));
  }

  lemma TickLive(s: State)
    requires Inv(s) && Exact(s)
    ensures Exact(Ticked(s))
  {
    assert SlotOk(s.table[s.current], s.current, s.current, s.stacks);
    LiveUpdate(s.table, s.current, s.table[s.current].(ticks := s.table[s.current].ticks - 1));
  }

  /**
   Where a step stands when it calls the scheduler, the count is short by one only after a kill
   of an ended process.
   */
  lemma PauseLive(s: State, step: Step)
    requires Inv(s) && Exact(s)
    ensures var t := Pause(s, step);
            t.count == (LiveCount(t.table) -
                        if step.Kill? && Killable(s, step.pid) && s.table[step.pid].state == Terminated then 1 else 0)
  {
    match step {
      case Spawn(priority) => SpawnLive(s, priority);
      case Exit(code) => ExitLive(s, code);
      case Kill(pid) =>
        if Killable(s, pid) {
          KillLive(s, pid);
        }
      case Schedule =>
      case Tick => TickLive(s);
    }
  }

  lemma PauseKeepsAnyReady(s: State, step: Step)
    requires Inv(s) && Calls(s, step)
    ensures WellFormed(Pause(s, step))
    ensures AnyReady(Pause(s, step)) <==> AnyReady(s)
    ensures Pause(s, step).table[0].state == Terminated <==>
              s.table[0].state == Terminated || (step.Exit? && s.current == 0)
  {
    assert SlotOk(s.table[s.current], s.current, s.current, s.stacks);
    assert SlotOk(s.table[0], 0, s.current, s.stacks);
    var t := Pause(s, step);
    assert forall i :: 0 <= i < MAX_PROCESSES && i != s.current ==> t.table[i] == s.table[i];
    assert t.table[s.current].state != Ready;
  }

  /** From an exact count, a step leaves it exact if and only if it is not one of those. */
  lemma ExactIff(s: State, step: Step)
    requires Inv(s) && Exact(s)
    ensures Exact(Next(s, step)) <==> !Miscounts(s, step)
  {
    NextIsPauseThenSchedule(s, step);
    PauseOk(s, step);
    PauseLive(s, step);
    if Calls(s, step) {
      PauseKeepsAnyReady(s, step);
      ScheduleLive(Pause(s, step));
      assert SlotOk(s.table[s.current], s.current, s.current, s.stacks);
    }
  }

  ghost predicate AlwaysExact(s: State, steps: seq<Step>)
    requires Inv(s)
  {
    forall n :: 0 <= n <= |steps| ==> Exact(Run(s, steps[..n]))
  }

  ghost predicate NeverMiscounts(s: State, steps: seq<Step>)
    requires Inv(s)
  {
    forall n :: 0 <= n < |steps| ==> !Miscounts(Run(s, steps[..n]), steps[n])
  }

  lemma RunStep(s: State, steps: seq<Step>, n: nat)
    requires Inv(s) && n < |steps|
    ensures Run(s, steps[..n + 1]) == Next(Run(s, steps[..n]), steps[n])
  {
    assert steps[..n + 1][..n] == steps[..n];
  }

  lemma {:induction false} CleanPrefixIsExact(s: State, steps: seq<Step>, n: nat)
    requires Inv(s) && Exact(s) && NeverMiscounts(s, steps) && n <= |steps|
    ensures Exact(Run(s, steps[..n]))
  {
    if n > 0 {
      CleanPrefixIsExact(s, steps, n - 1);
      RunStep(s, steps, n - 1);
      ExactIff(Run(s, steps[..n - 1]), steps[n - 1]);
    }
  }

  /** Over a whole run from an exact count, it is exact at every moment if and only if no step is one of those. */
  lemma ExactRunsIff(s: State, steps: seq<Step>)
    requires Inv(s) && Exact(s)
    ensures AlwaysExact(s, steps) <==> NeverMiscounts(s, steps)
  {
    if NeverMiscounts(s, steps) {
      forall n | 0 <= n <= |steps| ensures Exact(Run(s, steps[..n])) {
        CleanPrefixIsExact(s, steps, n);
      }
    }
    if AlwaysExact(s, steps) {
      forall n | 0 <= n < |steps| ensures !Miscounts(Run(s, steps[..n]), steps[n]) {
        assert Exact(Run(s, steps[..n])) && Exact(Run(s, steps[..n + 1]));
        RunStep(s, steps, n);
        ExactIff(Run(s, steps[..n]), steps[n]);
      }
    }
  }

  lemma InitExact(stacks: nat)
    ensures Inv(Init(stacks)) && Exact(Init(stacks))
  {
    LiveInit(Init(stacks).table);
  }

  /** From initialisation: a process is spawned and killed twice, and the count is one too low. */
  lemma SecondKillMiscounts(stacks: nat)
    ensures Inv(Init(stacks)) && !Exact(Run(Init(stacks), [Spawn(0), Kill(1), Kill(1)]))
  {
    InitExact(stacks);
    SecondKillOf(Init(stacks), [Spawn(0), Kill(1), Kill(1)]);
  }

  lemma SecondKillOf(s: State, steps: seq<Step>)
    requires Inv(s) && Exact(s) && s.current == 0 && s.nextPid == 1 && s.table[1].state == Unused
    requires steps == [Spawn(0), Kill(1), Kill(1)]
    ensures !Exact(Run(s, steps))
  {
    var s1, s2 := Run(s, steps[..1]), Run(s, steps[..2]);
    assert steps[..0] == [] && steps[..3] == steps;
    RunStep(s, steps, 0);
    ExactIff(s, Spawn(0));
    assert s1.table[1].state == Ready && s1.current == 0;
    RunStep(s, steps, 1);
    ExactIff(s1, Kill(1));
    assert s2.table[1].state == Terminated;
    RunStep(s, steps, 2);
    ExactIff(s2, Kill(1));
  }

  /** From initialisation: the kernel exits, is dispatched again for want of another process, and is not counted. */
  lemma KernelExitMiscounts(stacks: nat, code: int)
    ensures Inv(Init(stacks)) && !Exact(Next(Init(stacks), Exit(code)))
  {
    InitExact(stacks);
    ExactIff(Init(stacks), Exit(code));
  }

  /** No exit by pid 0, and no kill of a process that has already ended. */
  ghost predicate CleanRun(s: State, steps: seq<Step>)
    requires Inv(s)
  {
    forall n :: 0 <= n < |steps| ==>
      var t := Run(s, steps[..n]);
      && (steps[n].Exit? ==> t.current != 0)
      && (steps[n].Kill? && Killable(t, steps[n].pid) ==> t.table[steps[n].pid].state != Terminated)
  }

  /** Over every clean run from `process_init` the count is exact and the kernel stays running. */
  lemma {:induction false} CleanRunsAreExact(stacks: nat, steps: seq<Step>)
    requires Inv(Init(stacks)) && CleanRun(Init(stacks), steps)
    ensures var t := Run(Init(stacks), steps); Exact(t) && t.table[0].state == Running
  {
    var s := Init(stacks);
    if steps == [] {
      LiveInit(s.table);
    } else {
      var n := |steps| - 1;
      assert CleanRun(s, steps[..n]) by {
        assert forall k :: 0 <= k < n ==> steps[..n][..k] == steps[..k];
      }
      CleanRunsAreExact(stacks, steps[..n]);
      var before := Run(s, steps[..n]);
      ExactIff(before, steps[n]);
      KernelStaysRunning(before, steps[n]);
    }
  }

  lemma KernelStaysRunning(s: State, step: Step)
    requires Inv(s) && s.table[0].state == Running && !(step.Exit? && s.current == 0)
    ensures |Next(s, step).table| == MAX_PROCESSES && Next(s, step).table[0].state == Running
  {
    NextIsPauseThenSchedule(s, step);
    PauseOk(s, step);
    if Calls(s, step) {
      PauseKeepsAnyReady(s, step);
      ScheduledSlots(Pause(s, step));
      assert SlotPaused(Pause(s, step).table[0], 0, s.current, s.stacks);
    }
  }

  lemma {:induction false} LiveInit(table: seq<Process>)
    requires table != [] && table[0].state == Running
    requires forall i :: 0 < i < |table| ==> table[i].state == Unused
    ensures LiveCount(table) == 1
  {
    if |table| > 1 {
      LiveInit(table[..|table| - 1]);
    }
  }
}
