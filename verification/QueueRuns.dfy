/** What holds over every run of creations, destructions, sends, receives and other allocations. */
module QueueRuns {
  import opened Machine
  import opened Queues

  /** One call; `Happens` speaks of good tables only, and the theorems show that there are no others. */
  ghost predicate Step(w: World, e: Call, w': World) {
    Good(w) ==> Happens(w, e, w')
  }

  /** `worlds` are the states before, between and after the calls, the first of them good. */
  ghost predicate IsRun(worlds: seq<World>, calls: seq<Call>) {
    && |worlds| == |calls| + 1 && Good(worlds[0])
    && forall i :: 0 <= i < |calls| ==> Step(worlds[i], calls[i], worlds[i + 1])
  }

  /** The table stays good: at every moment queues in use have regions of their own in the heap. */
  lemma {:induction false} RunGood(worlds: seq<World>, calls: seq<Call>, i: nat)
    requires IsRun(worlds, calls) && i <= |calls|
    ensures Good(worlds[i])
  {
    if i > 0 {
      RunGood(worlds, calls, i - 1);
      assert Step(worlds[i - 1], calls[i - 1], worlds[i]);
      StepGood(worlds[i - 1], calls[i - 1], worlds[i]);
    }
  }

  lemma RunPrefix(worlds: seq<World>, calls: seq<Call>)
    requires IsRun(worlds, calls) && calls != []
    ensures var n := |calls| - 1;
            && IsRun(worlds[..n + 1], calls[..n])
            && Good(worlds[n]) && Happens(worlds[n], calls[n], worlds[n + 1]) && Good(worlds[n + 1])
  {
    var n := |calls| - 1;
    RunGood(worlds, calls, n);
    RunGood(worlds, calls, n + 1);
    assert Step(worlds[n], calls[n], worlds[n + 1]);
  }

  /** Whether slot `id` was given to a new queue in the run. */
  predicate Born(calls: seq<Call>, id: int) {
    exists i :: 0 <= i < |calls| && Creates(calls[i], id)
  }

  /** The bytes accepted for slot `id` since its last creation, end to end. */
  function Accepted(calls: seq<Call>, id: int): (s: seq<byte>) {
    if calls == [] then []
    else
      var n := |calls| - 1;
      if Creates(calls[n], id) then [] else Accepted(calls[..n], id) + Put(calls[n], id)
  }

  /** The bytes delivered from slot `id` since its last creation, end to end. */
  function Delivered(calls: seq<Call>, id: int): (s: seq<byte>) {
    if calls == [] then []
    else
      var n := |calls| - 1;
      if Creates(calls[n], id) then [] else Delivered(calls[..n], id) + Got(calls[n], id)
  }

  /** What slot `id` held when the accounts of its queue begin: nothing, unless the queue is older than the run. */
  ghost function Opening(w: World, calls: seq<Call>, id: int): (s: seq<byte>)
    requires Good(w)
  {
    if Born(calls, id) || !Live(w, id) then [] else Contents(w, id)
  }

  lemma BornStep(calls: seq<Call>, id: int)
    requires calls != [] && !Creates(calls[|calls| - 1], id)
    ensures Born(calls, id) <==> Born(calls[..|calls| - 1], id)
  {
    var n := |calls| - 1;
    if Born(calls, id) {
      var i :| 0 <= i < |calls| && Creates(calls[i], id);
      assert Creates(calls[..n][i], id);
    }
    if Born(calls[..n], id) {
      var i :| 0 <= i < n && Creates(calls[..n][i], id);
      assert Creates(calls[i], id);
    }
  }

  /**
   Every run of the five calls on any queues: what a queue held and has accepted since
   its creation is what it has delivered followed by what it holds, byte for byte,
   whatever happened to the other queues and to the heap in between.
   */
  lemma {:induction false} FirstInFirstOut(worlds: seq<World>, calls: seq<Call>, id: int)
    requires IsRun(worlds, calls)
    ensures Good(worlds[|calls|])
    ensures Live(worlds[|calls|], id) ==>
              Opening(worlds[0], calls, id) + Accepted(calls, id)
              == Delivered(calls, id) + Contents(worlds[|calls|], id)
  {
    if calls != [] {
      var n := |calls| - 1;
      var w, e, w' := worlds[n], calls[n], worlds[n + 1];
      RunPrefix(worlds, calls);
      if Live(w', id) {
        StepContents(w, e, w', id);
        if Creates(e, id) {
          assert Born(calls, id);
        } else {
          FirstInFirstOut(worlds[..n + 1], calls[..n], id);
          BornStep(calls, id);
          Reassociate(Opening(worlds[0], calls, id), Accepted(calls[..n], id), Put(e, id),
                      Delivered(calls[..n], id), Contents(w, id), Got(e, id), Contents(w', id));
        }
      }
    }
  }

  lemma Reassociate(c: Bytes, a: Bytes, put: Bytes, d: Bytes, x: Bytes, got: Bytes, y: Bytes)
    requires c + a == d + x && x + put == got + y
    ensures c + (a + put) == (d + got) + y
  {
    assert c + (a + put) == (c + a) + put;
    assert (d + x) + put == d + (x + put);
    assert d + (got + y) == (d + got) + y;
  }

  /** In a run that starts without queues, a queue has received exactly what was sent to it, less what it holds. */
  lemma FromNothing(worlds: seq<World>, calls: seq<Call>, id: int)
    requires IsRun(worlds, calls) && forall i :: 0 <= i < MAX_QUEUES ==> !worlds[0].queues[i].inUse
    ensures Good(worlds[|calls|])
    ensures Live(worlds[|calls|], id) ==>
              Accepted(calls, id) == Delivered(calls, id) + Contents(worlds[|calls|], id)
  {
    FirstInFirstOut(worlds, calls, id);
    assert [] + Accepted(calls, id) == Accepted(calls, id);
  }

  // ---------- Bounded queues ----------

  /** A bounded queue of bytes, and what a caller can know: the queues, and the room left on the heap. */
  datatype Bounded = Bounded(capacity: nat, contents: Bytes)
  datatype Spec = Spec(room: int, queues: seq<Option<Bounded>>)

  predicate InUse(s: Spec, id: int) {
    0 <= id < |s.queues| && s.queues[id].Some?
  }

  function Fewer(a: nat, b: nat): (n: nat) {
    if a < b then a else b
  }

  /** What each call does to the bounded queues, and answers. */
  ghost predicate SpecStep(s: Spec, e: Call, s': Spec) {
    match e
    case Allocated(size, region) =>
      if size < s.room then region == Some(0x30_0000 - s.room) && s' == s.(room := s.room - size)
      else region == None && s' == s
    case Created(size, id) =>
      if id == -1 then s' == s && (size >= s.room || forall i :: 0 <= i < |s.queues| ==> InUse(s, i))
      else
        && size < s.room && 0 <= id < |s.queues| && !InUse(s, id) && (forall i :: 0 <= i < id ==> InUse(s, i))
        && s' == Spec(s.room - size, s.queues[id := Some(Bounded(size, []))])
    case Destroyed(id, ok) =>
      && (ok <==> InUse(s, id))
      && s' == if InUse(s, id) then s.(queues := s.queues[id := None]) else s
    case Sent(id, data, ok) =>
      && (ok <==> InUse(s, id) && |s.queues[id].value.contents| + |data| <= s.queues[id].value.capacity)
      && s' == if ok && InUse(s, id) then Filled(s, id, s.queues[id].value.contents + data) else s
    case Received(id, max, r, bytes) =>
      if !InUse(s, id) then r == -1 && bytes == [] && s' == s
      else
        var c := s.queues[id].value.contents;
        && bytes == c[..Fewer(max, |c|)] && r == |bytes|
        && s' == Filled(s, id, c[Fewer(max, |c|)..])
  }

  function Filled(s: Spec, id: int, contents: Bytes): (s': Spec)
    requires InUse(s, id)
  {
    s.(queues := s.queues[id := Some(s.queues[id].value.(contents := contents))])
  }

  /** What the heap, the pointer and the table stand for. */
  ghost function View(w: World): (s: Spec)
    requires Good(w)
  {
    Spec(0x30_0000 - w.ptr, seq(32, i requires 0 <= i < 32 => ViewOf(w, i)))
  }

  ghost function ViewOf(w: World, i: nat): (q: Option<Bounded>)
    requires Good(w) && i < 32
  {
    if Live(w, i) then Some(Bounded(w.queues[i].maxSize, Contents(w, i))) else None
  }

  lemma ViewAt(w: World, w': World, id: nat, q: Option<Bounded>)
    requires Good(w) && Good(w') && id < 32 && ViewOf(w', id) == q
    requires forall i :: 0 <= i < 32 && i != id ==> ViewOf(w', i) == ViewOf(w, i)
    ensures View(w').queues == View(w).queues[id := q]
  {
  }

  /** The call is about queue `about`: every other queue shows as before. */
  lemma OthersShow(w: World, about: int, w': World)
    requires Good(w) && Good(w') && OthersKept(w.heap, w.queues, w'.heap, w'.queues, about)
    requires forall i :: 0 <= i < 32 && i != about ==> w'.queues[i].inUse == w.queues[i].inUse
    ensures forall i :: 0 <= i < 32 && i != about ==> ViewOf(w', i) == ViewOf(w, i)
  {
    forall i | 0 <= i < 32 && i != about ensures ViewOf(w', i) == ViewOf(w, i) {
      if Live(w, i) {
        KeptContents(w, about, w', i);
      }
    }
  }

  lemma SendRefines(w: World, id: int, data: Bytes, ok: bool, w': World)
    requires Good(w) && Happens(w, Sent(id, data, ok), w') && Good(w')
    ensures SpecStep(View(w), Sent(id, data, ok), View(w'))
  {
    if ok {
      SentGood(w, id, data, w');
      OthersShow(w, id, w');
      ViewAt(w, w', id, Some(Bounded(w.queues[id].maxSize, Contents(w, id) + data)));
    }
  }

  lemma RecvRefines(w: World, id: int, max: uint32, r: int, bytes: Bytes, w': World)
    requires Good(w) && Happens(w, Received(id, max, r, bytes), w') && Good(w')
    ensures SpecStep(View(w), Received(id, max, r, bytes), View(w'))
  {
    if Live(w, id) {
      ReceivedGood(w, id, max, r, bytes, w');
      OthersShow(w, id, w');
      var c := Contents(w, id);
      assert bytes == c[..|bytes|] && Contents(w', id) == c[|bytes|..];
      ViewAt(w, w', id, Some(Bounded(w.queues[id].maxSize, Contents(w', id))));
    }
  }

  lemma CreateRefines(w: World, size: uint32, id: int, w': World)
    requires Good(w) && Happens(w, Created(size, id), w') && Good(w')
    ensures SpecStep(View(w), Created(size, id), View(w'))
  {
    if id != -1 {
      CreatedGood(w, size, id, w');
      OthersShow(w, id, w');
      ViewAt(w, w', id, Some(Bounded(size, [])));
    }
  }

  lemma DestroyRefines(w: World, id: int, ok: bool, w': World)
    requires Good(w) && Happens(w, Destroyed(id, ok), w') && Good(w')
    ensures SpecStep(View(w), Destroyed(id, ok), View(w'))
  {
    if ok {
      OthersShow(w, id, w');
      ViewAt(w, w', id, None);
    }
  }

  /** Every call on the rings, in place on one heap, is the call on the bounded queues, with the same answer. */
  lemma StepRefines(w: World, e: Call, w': World)
    requires Good(w) && Happens(w, e, w')
    ensures Good(w') && SpecStep(View(w), e, View(w'))
  {
    StepGood(w, e, w');
    match e
    case Allocated(_, _) =>
      SameQueues(w, w');
    case Created(size, id) => CreateRefines(w, size, id, w');
    case Destroyed(id, ok) => DestroyRefines(w, id, ok, w');
    case Sent(id, data, ok) => SendRefines(w, id, data, ok, w');
    case Received(id, max, r, bytes) => RecvRefines(w, id, max, r, bytes, w');
  }

  lemma SameQueues(w: World, w': World)
    requires Good(w) && Good(w') && w'.heap == w.heap && w'.queues == w.queues
    ensures View(w').queues == View(w).queues
  {
    forall i | 0 <= i < 32 ensures ViewOf(w', i) == ViewOf(w, i) {
    }
  }

  /** So every run of the five calls is, call by call and answer by answer, a run of bounded queues. */
  lemma RunRefines(worlds: seq<World>, calls: seq<Call>, i: nat)
    requires IsRun(worlds, calls) && i < |calls|
    ensures Good(worlds[i]) && Good(worlds[i + 1]) && SpecStep(View(worlds[i]), calls[i], View(worlds[i + 1]))
  {
    RunGood(worlds, calls, i);
    assert Step(worlds[i], calls[i], worlds[i + 1]);
    StepRefines(worlds[i], calls[i], worlds[i + 1]);
  }

  /** A receive of as much as there is leaves the queue empty: everything accepted has been delivered. */
  lemma DrainedIsDelivered(worlds: seq<World>, calls: seq<Call>, id: int, max: uint32, r: int, bytes: Bytes)
    requires IsRun(worlds, calls) && forall i :: 0 <= i < 32 ==> !worlds[0].queues[i].inUse
    requires calls != [] && calls[|calls| - 1] == Received(id, max, r, bytes)
    requires var n := |calls| - 1; Good(worlds[n]) && Live(worlds[n], id) && max >= |Contents(worlds[n], id)|
    ensures Accepted(calls, id) == Delivered(calls, id)
  {
    var n := |calls| - 1;
    RunRefines(worlds, calls, n);
    FromNothing(worlds, calls, id);
    var w, w' := worlds[n], worlds[n + 1];
    assert ViewOf(w, id) == View(w).queues[id] && ViewOf(w', id) == View(w').queues[id];
    assert Live(w', id) && Contents(w', id) == [];
    assert Delivered(calls, id) + [] == Delivered(calls, id);
  }

  // ---------- The heap ----------

  lemma {:induction false} PointerGrows(worlds: seq<World>, calls: seq<Call>, i: nat, k: nat)
    requires IsRun(worlds, calls) && i <= k <= |calls|
    ensures worlds[i].ptr <= worlds[k].ptr
    decreases k
  {
    if i < k {
      PointerGrows(worlds, calls, i, k - 1);
      RunRefines(worlds, calls, k - 1);
    }
  }

  /** The region that a call has handed out: its start and its length. */
  function Granted(e: Call, ptr: int): (g: Option<(int, int)>) {
    match e
    case Allocated(size, region) => if region.Some? then Some((region.value as int, size as int)) else None
    case Created(size, id) => if id != -1 then Some((ptr, size as int)) else None
    case _ => None
  }

  /** Over every run the regions handed out lie inside the heap, one behind the other. */
  lemma GrantsApart(worlds: seq<World>, calls: seq<Call>, i: nat, k: nat)
    requires IsRun(worlds, calls) && i < k < |calls|
    requires Granted(calls[i], worlds[i].ptr).Some? && Granted(calls[k], worlds[k].ptr).Some?
    ensures var first, second := Granted(calls[i], worlds[i].ptr).value, Granted(calls[k], worlds[k].ptr).value;
            && 0x20_0000 <= first.0 && first.0 + first.1 <= second.0 && second.0 + second.1 < 0x30_0000
  {
    RunRefines(worlds, calls, i);
    RunRefines(worlds, calls, k);
    PointerGrows(worlds, calls, i + 1, k);
  }
}
