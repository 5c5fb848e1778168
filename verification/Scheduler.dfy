/**
 The process table and scheduler of `process.c` as a transition system: spawn, exit,
 kill, schedule and tick are atomic steps on a table of 32 slots.
 */
module Scheduler {
  import opened Machine

  const MAX_PROCESSES := 32
  const STACK_SIZE := 4096
  const TIME_SLICE := 10

  datatype ProcState = Unused | Ready | Running | Blocked | Terminated

  datatype Process = Process(pid: nat, parent: nat, state: ProcState, priority: byte, ticks: byte,
                             stackBase: nat, exitCode: int)

  /** The scheduler's globals; `count` is an 8-bit counter and `stacks` the address of the stack area. */
  datatype State = State(table: seq<Process>, current: nat, count: byte, nextPid: nat, stacks: nat)

  datatype Step =
    | Spawn(priority: byte)
    | Exit(code: int)
    | Kill(pid: nat)
    | Schedule
    | Tick

  predicate WellFormed(s: State) {
    |s.table| == MAX_PROCESSES && s.current < MAX_PROCESSES && 1 <= s.nextPid < MAX_PROCESSES
  }

  function Init(stacks: nat): (s: State)
    ensures WellFormed(s)
  {
    var blank := Process(0, 0, Unused, 128, 0, 0, 0);
    var kernel := Process(0, 0, Running, 0, TIME_SLICE, stacks, 0);
    State([kernel] + seq(MAX_PROCESSES - 1, _ => blank), 0, 1, 1, stacks)
  }

  // ---------- The steps ----------

  /** The least unused slot in `lo..hi`, or `hi`. */
  function FirstUnused(table: seq<Process>, lo: nat, hi: nat): (k: nat)
    requires lo <= hi <= |table|
    ensures lo <= k <= hi
    ensures k < hi ==> table[k].state == Unused
    ensures forall i :: lo <= i < k ==> table[i].state != Unused
    decreases hi - lo
  {
    if lo == hi || table[lo].state == Unused then lo else FirstUnused(table, lo + 1, hi)
  }

  /** The pid that allocation chooses, 0 if there is none, and the next search start. */
  function AllocatePid(s: State): (r: (nat, nat))
    requires WellFormed(s)
    ensures r.0 < MAX_PROCESSES && 1 <= r.1 < MAX_PROCESSES
    ensures r.0 == 0 <==> forall i :: 1 <= i < MAX_PROCESSES ==> s.table[i].state != Unused
    ensures r.0 != 0 ==> s.table[r.0].state == Unused
    ensures r.0 >= s.nextPid ==> forall i :: s.nextPid <= i < r.0 ==> s.table[i].state != Unused
    ensures 0 < r.0 < s.nextPid ==>
              forall i :: 1 <= i < r.0 || s.nextPid <= i < MAX_PROCESSES ==> s.table[i].state != Unused
  {
    var k := FirstUnused(s.table, s.nextPid, MAX_PROCESSES);
    if k < MAX_PROCESSES then (k, if k + 1 >= MAX_PROCESSES then 1 else k + 1)
    else
      var j := FirstUnused(s.table, 1, s.nextPid);
      (if j < s.nextPid then j else 0, s.nextPid)
  }

  function SpawnStep(s: State, priority: byte): (r: (State, int))
    requires WellFormed(s)
  {
    var (pid, next) := AllocatePid(s);
    if pid == 0 then (s.(nextPid := next), -1 as int)
    else
      var p := Process(pid, s.current, Ready, priority, TIME_SLICE, s.stacks + pid * STACK_SIZE, 0);
      (s.(table := s.table[pid := p], count := (s.count + 1) % 0x100, nextPid := next), pid as int)
  }

  /** The slot that is `d` places after the current one, cyclically. */
  function SlotAfter(current: nat, d: nat): (k: nat)
    ensures k < MAX_PROCESSES
  {
    (current + d) % MAX_PROCESSES
  }

  /** The least distance `>= d` at which a ready slot lies, or `MAX_PROCESSES + 1`. */
  function ReadyDistance(s: State, d: nat): (k: nat)
    requires WellFormed(s) && d <= MAX_PROCESSES + 1
    ensures d <= k <= MAX_PROCESSES + 1
    ensures k <= MAX_PROCESSES ==> s.table[SlotAfter(s.current, k)].state == Ready
    ensures forall i :: d <= i < k ==> s.table[SlotAfter(s.current, i)].state != Ready
    decreases |s.table| + 1 - d
  {
    if d > MAX_PROCESSES || s.table[SlotAfter(s.current, d)].state == Ready then d else ReadyDistance(s, d + 1)
  }

  predicate AnyReady(s: State)
    requires WellFormed(s)
  {
    exists i :: 0 <= i < MAX_PROCESSES && s.table[i].state == Ready
  }

  /** How far slot `p` lies after slot `c`, cyclically: 1..32. */
  function Distance(c: nat, p: nat): (d: nat)
    requires c < MAX_PROCESSES && p < MAX_PROCESSES
    ensures 1 <= d <= MAX_PROCESSES && SlotAfter(c, d) == p
  {
    if p > c then p - c else p + MAX_PROCESSES - c
  }

  /** The slot that `process_find_next` returns: the first ready one after the current, else the kernel's. */
  function FindNext(s: State): (k: nat)
    requires WellFormed(s)
    ensures k < MAX_PROCESSES
    ensures s.table[k].state == Ready || (k == 0 && !AnyReady(s))
  {
    var d := ReadyDistance(s, 1);
    assert d > MAX_PROCESSES ==> !AnyReady(s) by {
      if i :| 0 <= i < MAX_PROCESSES && s.table[i].state == Ready {
        assert SlotAfter(s.current, Distance(s.current, i)) == i;
      }
    }
    if d <= MAX_PROCESSES then SlotAfter(s.current, d)
    else if s.table[s.current].state == Ready then s.current
    else 0
  }

  /** None of the first `n` slots after the current one is ready. */
  ghost predicate NoneReady(s: State, n: nat)
    requires WellFormed(s)
  {
    forall d :: 1 <= d <= n ==> s.table[SlotAfter(s.current, d)].state != Ready
  }

  lemma FirstReady(s: State, d: nat)
    requires WellFormed(s) && 1 <= d <= MAX_PROCESSES && NoneReady(s, d - 1)
    requires s.table[SlotAfter(s.current, d)].state == Ready
    ensures FindNext(s) == SlotAfter(s.current, d)
  {
    assert ReadyDistance(s, 1) == d;
  }

  lemma NothingReady(s: State)
    requires WellFormed(s) && NoneReady(s, MAX_PROCESSES)
    ensures s.table[s.current].state != Ready && FindNext(s) == 0
  {
    assert SlotAfter(s.current, MAX_PROCESSES) == s.current;
    assert ReadyDistance(s, 1) == MAX_PROCESSES + 1;
  }

  /**
   The slot chosen is the ready one nearest after the current slot, and the kernel's if
   none is ready.  The scan comes back to the current slot itself, so the fallback to that
   one when the scan finds nothing is never taken.
   */
  lemma NextIsNearest(s: State)
    requires WellFormed(s)
    ensures !AnyReady(s) ==> FindNext(s) == 0
    ensures AnyReady(s) ==>
              && s.table[FindNext(s)].state == Ready
              && forall p :: 0 <= p < MAX_PROCESSES && s.table[p].state == Ready ==>
                   Distance(s.current, FindNext(s)) <= Distance(s.current, p)
    ensures ReadyDistance(s, 1) > MAX_PROCESSES ==> s.table[s.current].state != Ready
  {
    var d := ReadyDistance(s, 1);
    assert SlotAfter(s.current, MAX_PROCESSES) == s.current;
    forall p | 0 <= p < MAX_PROCESSES && s.table[p].state == Ready
      ensures d <= Distance(s.current, p)
    {
      assert SlotAfter(s.current, Distance(s.current, p)) == p;
    }
    if AnyReady(s) {
      DistanceOfSlot(s.current, d);
    }
  }

  lemma DistanceOfSlot(c: nat, d: nat)
    requires c < MAX_PROCESSES && 1 <= d <= MAX_PROCESSES
    ensures Distance(c, SlotAfter(c, d)) == d
  {
  }

  function ScheduleStep(s: State): (r: State)
    requires WellFormed(s)
  {
    var next := FindNext(s);
    var cur := s.table[s.current];
    var demoted := if cur.pid != 0 && cur.state == Running then s.table[s.current := cur.(state := Ready)] else s.table;
    s.(current := demoted[next].pid,
       table := demoted[next := demoted[next].(state := Running, ticks := TIME_SLICE)])
  }

  /** The current process ended; its 8-bit count goes down without a guard. */
  function Exited(s: State, code: int): (r: State)
    requires WellFormed(s)
  {
    var p := s.table[s.current].(exitCode := code, state := Terminated);
    s.(table := s.table[s.current := p], count := (s.count + 0xFF) % 0x100)
  }

  function ExitStep(s: State, code: int): (r: State)
    requires WellFormed(s)
  {
    ScheduleStep(Exited(s, code))
  }

  /** Whether a kill has a target: a used slot that is not the kernel's. */
  predicate Killable(s: State, pid: nat)
    requires WellFormed(s)
  {
    0 < pid < MAX_PROCESSES && s.table[pid].state != Unused
  }

  function Killed(s: State, pid: nat): (r: State)
    requires WellFormed(s) && Killable(s, pid)
  {
    s.(table := s.table[pid := s.table[pid].(exitCode := -1, state := Terminated)],
       count := if s.count > 0 then s.count - 1 else 0)
  }

  function KillStep(s: State, pid: nat): (r: (State, int))
    requires WellFormed(s)
  {
    if !Killable(s, pid) then (s, -1)
    else (if s.current == pid then ScheduleStep(Killed(s, pid)) else Killed(s, pid), 0)
  }

  /** The current process has used one tick of its slice. */
  function Ticked(s: State): (r: State)
    requires WellFormed(s)
  {
    var p := s.table[s.current];
    s.(table := s.table[s.current := p.(ticks := if p.ticks > 0 then p.ticks - 1 else 0)])
  }

  function TickStep(s: State): (r: State)
    requires WellFormed(s)
  {
    var t := Ticked(s);
    if t.table[s.current].ticks == 0 then ScheduleStep(t) else t
  }

  function Next(s: State, step: Step): (r: State)
    requires WellFormed(s)
  {
    match step
    case Spawn(priority) => SpawnStep(s, priority).0
    case Exit(code) => ExitStep(s, code)
    case Kill(pid) => KillStep(s, pid).0
    case Schedule => ScheduleStep(s)
    case Tick => TickStep(s)
  }

  // ---------- The invariant ----------

  /** What a slot looks like at rest, with `current` the running slot. */
  ghost predicate SlotOk(p: Process, i: nat, current: nat, stacks: nat) {
    && p.state != Blocked
    && (p.state != Unused ==> p.pid == i && p.stackBase == stacks + i * STACK_SIZE)
    && (i == current ==> p.state == Running && 1 <= p.ticks <= TIME_SLICE)
    && (i != current && i != 0 ==> p.state != Running)
    && (i == 0 ==> p.state == Running || p.state == Terminated)
  }

  ghost predicate Inv(s: State) {
    && WellFormed(s)
    && (forall i :: 0 <= i < MAX_PROCESSES ==> SlotOk(s.table[i], i, s.current, s.stacks))
  }

  /** As at rest, but the current slot's slice may be spent or its process may have ended. */
  ghost predicate SlotPaused(p: Process, i: nat, current: nat, stacks: nat) {
    && p.state != Blocked
    && (p.state != Unused ==> p.pid == i && p.stackBase == stacks + i * STACK_SIZE)
    && (i == current ==> p.state == Running || p.state == Terminated)
    && (i != current && i != 0 ==> p.state != Running)
    && (i == 0 ==> p.state == Running || p.state == Terminated)
  }

  ghost predicate Paused(s: State) {
    && WellFormed(s)
    && (forall i :: 0 <= i < MAX_PROCESSES ==> SlotPaused(s.table[i], i, s.current, s.stacks))
  }

  lemma InitInv(stacks: nat)
    ensures Inv(Init(stacks))
  {
  }

  /** The effect of scheduling, slot by slot. */
  lemma ScheduledSlots(s: State)
    requires Paused(s)
    ensures var t, next := ScheduleStep(s), FindNext(s);
            && t.current == next && t.nextPid == s.nextPid && t.count == s.count && t.stacks == s.stacks
            && |t.table| == MAX_PROCESSES
            && (next != s.current || next == 0)
            && t.table[next] == s.table[next].(state := Running, ticks := TIME_SLICE)
            && (forall i :: 0 <= i < MAX_PROCESSES && i != next && i != s.current ==> t.table[i] == s.table[i])
            && (s.current != next ==>
                  t.table[s.current] == s.table[s.current].(
                    state := if s.current != 0 && s.table[s.current].state == Running then Ready
                             else s.table[s.current].state))
  {
  }

  lemma ScheduleInv(s: State)
    requires Paused(s)
    ensures Inv(ScheduleStep(s))
  {
    ScheduledSlots(s);
    var t := ScheduleStep(s);
    forall i | 0 <= i < MAX_PROCESSES ensures SlotOk(t.table[i], i, t.current, t.stacks) {
      assert SlotPaused(s.table[i], i, s.current, s.stacks);
    }
  }
}
