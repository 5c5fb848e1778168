/**
 The message queues of `ipc.c` over the bump allocator of `memory.c`: buffers are
 regions of one heap, and the table of queues is updated in place.
 */
module Queues {
  import opened Machine
  import opened Memory
  import Ring

  const HEAP_START := 0x20_0000
  const HEAP_SIZE := 0x10_0000
  const HEAP_END := HEAP_START + HEAP_SIZE
  const MAX_QUEUES := 32

  // ---------- The allocator ----------

  /** The region handed out and the pointer afterwards, with 32-bit pointer arithmetic. */
  function Malloc(ptr: uint32, size: uint32): (r: (Option<uint32>, uint32)) {
    if (ptr + size) % U32 >= HEAP_END then (None, ptr) else (Some(ptr), (ptr + size) % U32)
  }

  /** A granted region lies inside the heap, and the pointer moves past it, exactly when the sum does not wrap. */
  lemma GrantInsideIff(ptr: uint32, size: uint32)
    requires HEAP_START <= ptr < HEAP_END && Malloc(ptr, size).0.Some?
    ensures ptr + size <= HEAP_END <==> ptr + size < U32
    ensures Malloc(ptr, size).1 == ptr + size <==> ptr + size < U32
  {
  }

  /**
   A request of 4 GB less 16 bytes wraps: it is granted, moves the pointer back, and the next
   grant overlaps the last one.
   */
  lemma WrappedGrantOverlaps(ptr: uint32)
    requires HEAP_START + 32 <= ptr < HEAP_END
    ensures var (first, p1) := Malloc(ptr - 16, 16);
            var (_, p2) := Malloc(p1, U32 - 16);
            var (second, _) := Malloc(p2, 16);
            first.Some? && second == first
  {
  }

  // ---------- The table ----------

  /** A slot of the table; `buffer` is the address of its region. */
  datatype Queue = Queue(inUse: bool, buffer: nat, front: nat, rear: nat, size: nat, maxSize: nat)

  predicate Disjoint(p: Queue, q: Queue) {
    p.buffer + p.maxSize <= q.buffer || q.buffer + q.maxSize <= p.buffer
  }

  /** The queue's region lies in the part of the heap already handed out. */
  predicate Placed(q: Queue, ptr: nat) {
    HEAP_START <= q.buffer && q.buffer + q.maxSize <= ptr < HEAP_END
  }

  type Heap = h: seq<byte> | |h| == HEAP_SIZE witness seq(HEAP_SIZE, _ => 0)

  predicate InBounds(q: Queue) {
    HEAP_START <= q.buffer && q.buffer + q.maxSize <= HEAP_END
  }

  /** The bytes of a queue's buffer. */
  function Region(heap: Heap, q: Queue): (s: seq<byte>)
    ensures InBounds(q) ==> |s| == q.maxSize
  {
    if InBounds(q) then heap[q.buffer - HEAP_START..q.buffer - HEAP_START + q.maxSize] else []
  }

  /** The ring that a slot holds. */
  function RingOf(heap: Heap, q: Queue): (r: Ring.Ring) {
    Ring.Ring(Region(heap, q), q.front, q.rear, q.size)
  }

  /** The heap is unchanged outside the queue's region. */
  predicate KeptOutside(heap: Heap, heap': Heap, q: Queue) {
    forall k :: 0 <= k < HEAP_SIZE && !(q.buffer <= HEAP_START + k < q.buffer + q.maxSize) ==> heap'[k] == heap[k]
  }

  lemma RegionSlice(heap: Heap, q: Queue, i: nat, j: nat, lo: nat, hi: nat)
    requires InBounds(q) && i <= j <= q.maxSize
    requires lo == q.buffer - HEAP_START + i && hi == q.buffer - HEAP_START + j
    ensures heap[lo..hi] == Region(heap, q)[i..j]
  {
    assert forall k :: i <= k < j ==> heap[lo + (k - i)] == Region(heap, q)[k];
  }

  lemma RegionOverwrite(heap: Heap, q: Queue, at: nat, d: seq<byte>)
    requires InBounds(q) && at + |d| <= q.maxSize
    ensures Region(Overwrite(heap, q.buffer - HEAP_START + at, d), q) == Overwrite(Region(heap, q), at, d)
  {
    var base := q.buffer - HEAP_START;
    var heap' := Overwrite(heap, base + at, d);
    var old', new' := Region(heap, q), Region(heap', q);
    forall k | 0 <= k < q.maxSize ensures new'[k] == Overwrite(old', at, d)[k] {
      assert new'[k] == heap'[base + k] && old'[k] == heap[base + k];
    }
  }

  lemma OverwriteKeeps(heap: Heap, q: Queue, at: nat, d: seq<byte>)
    requires InBounds(q) && at + |d| <= q.maxSize
    ensures KeptOutside(heap, Overwrite(heap, q.buffer - HEAP_START + at, d), q)
  {
  }

  /** Regions of queues in use are placed, apart from one another, and hold valid rings. */
  ghost predicate TableOk(heap: Heap, ptr: nat, queues: seq<Queue>) {
    && |queues| == MAX_QUEUES && HEAP_START <= ptr < HEAP_END
    && (forall i :: 0 <= i < MAX_QUEUES && queues[i].inUse ==>
          Placed(queues[i], ptr) && Ring.Valid(RingOf(heap, queues[i])))
    && (forall i, j :: 0 <= i < j < MAX_QUEUES && queues[i].inUse && queues[j].inUse ==> Disjoint(queues[i], queues[j]))
  }

  /** The other queues in use hold the same rings before and after. */
  ghost predicate OthersKept(heap: Heap, queues: seq<Queue>, heap': Heap, queues': seq<Queue>, id: int)
    requires |queues| == |queues'| == MAX_QUEUES
  {
    forall i :: 0 <= i < MAX_QUEUES && i != id && queues[i].inUse ==>
      queues'[i] == queues[i] && RingOf(heap', queues[i]) == RingOf(heap, queues[i])
  }

  /** Changes confined to one queue's region and indices leave a good table and the other queues alone. */
  lemma LocalChange(heap: Heap, heap': Heap, ptr: nat, queues: seq<Queue>, id: nat, q: Queue)
    requires TableOk(heap, ptr, queues) && id < MAX_QUEUES && queues[id].inUse && q.inUse
    requires q.buffer == queues[id].buffer && q.maxSize == queues[id].maxSize
    requires KeptOutside(heap, heap', q)
    requires Ring.Valid(RingOf(heap', q))
    ensures TableOk(heap', ptr, queues[id := q])
    ensures OthersKept(heap, queues, heap', queues[id := q], id)
  {
    forall i | 0 <= i < MAX_QUEUES && i != id && queues[i].inUse
      ensures Region(heap', queues[i]) == Region(heap, queues[i])
    {
      assert Disjoint(queues[i], queues[id]);
    }
    var qs := queues[id := q];
    forall i, j | 0 <= i < j < MAX_QUEUES && qs[i].inUse && qs[j].inUse ensures Disjoint(qs[i], qs[j]) {
      assert Disjoint(queues[i], queues[j]);
    }
  }

  /** A region taken from the heap pointer on is apart from every other. */
  lemma NewQueue(heap: Heap, ptr: nat, queues: seq<Queue>, id: nat, size: nat)
    requires TableOk(heap, ptr, queues) && id < MAX_QUEUES && !queues[id].inUse
    requires ptr + size < HEAP_END
    ensures TableOk(heap, ptr + size, queues[id := Queue(true, ptr, 0, 0, 0, size)])
    ensures OthersKept(heap, queues, heap, queues[id := Queue(true, ptr, 0, 0, 0, size)], id)
    ensures Ring.Valid(RingOf(heap, Queue(true, ptr, 0, 0, 0, size)))
    ensures Ring.Contents(RingOf(heap, Queue(true, ptr, 0, 0, 0, size))) == []
  {
    var q := Queue(true, ptr, 0, 0, 0, size);
    var qs := queues[id := q];
    assert Ring.Valid(RingOf(heap, q));
    forall i, j | 0 <= i < j < MAX_QUEUES && qs[i].inUse && qs[j].inUse ensures Disjoint(qs[i], qs[j]) {
      if i != id && j != id {
        assert Disjoint(queues[i], queues[j]);
      } else if i != id {
        assert Placed(queues[i], ptr);
      } else {
        assert Placed(queues[j], ptr);
      }
    }
  }

  /** The indices after `n` bytes are sent. */
  function AfterSend(q: Queue, n: nat): (q': Queue)
    requires q.rear < q.maxSize && n <= q.maxSize
  {
    q.(rear := Ring.Advance(q.rear, n, q.maxSize), size := q.size + n)
  }

  /** The indices after `n` bytes are received. */
  function AfterRecv(q: Queue, n: nat): (q': Queue)
    requires q.front < q.maxSize && n <= q.size <= q.maxSize
  {
    q.(front := Ring.Advance(q.front, n, q.maxSize), size := q.size - n)
  }

  /** The region depends on where the buffer is and how long it is. */
  lemma SameRegion(heap: Heap, q: Queue, q': Queue)
    requires q'.buffer == q.buffer && q'.maxSize == q.maxSize
    ensures Region(heap, q') == Region(heap, q)
  {
  }

  lemma SendIsRingSend(heap: Heap, heap': Heap, q: Queue, data: seq<byte>)
    requires InBounds(q) && Ring.Valid(RingOf(heap, q)) && q.size + |data| <= q.maxSize
    requires q.rear < q.maxSize && Region(heap', q) == Ring.Write(Region(heap, q), q.rear, data)
    ensures RingOf(heap', AfterSend(q, |data|)) == Ring.Send(RingOf(heap, q), data).0
    ensures Ring.Send(RingOf(heap, q), data).1
    ensures Ring.Valid(RingOf(heap', AfterSend(q, |data|)))
  {
    var r := RingOf(heap, q);
    SameRegion(heap', q, AfterSend(q, |data|));
    Ring.SendFits(r, data);
    Ring.SendValid(r, data);
  }

  lemma RecvIsRingRecv(heap: Heap, q: Queue, max: nat, n: nat)
    requires InBounds(q) && Ring.Valid(RingOf(heap, q)) && q.size > 0
    requires n == if max < q.size then max else q.size
    ensures RingOf(heap, AfterRecv(q, n)) == Ring.Recv(RingOf(heap, q), max).0
    ensures Ring.ReadOut(Region(heap, q), q.front, n) == Ring.Recv(RingOf(heap, q), max).1
    ensures Ring.Valid(RingOf(heap, AfterRecv(q, n)))
    ensures |Ring.ReadOut(Region(heap, q), q.front, n)| == n
  {
    assert RingOf(heap, AfterRecv(q, n)) == Ring.Recv(RingOf(heap, q), max).0;
    Ring.RecvValid(RingOf(heap, q), max);
    Ring.ReceivedAt(RingOf(heap, q), n, 0);
  }

  // ---------- One call ----------

  /** The heap, the allocator's pointer and the table. */
  datatype World = World(heap: Heap, ptr: nat, queues: seq<Queue>)

  ghost predicate Good(w: World) {
    TableOk(w.heap, w.ptr, w.queues)
  }

  predicate Live(w: World, id: int)
    requires |w.queues| == MAX_QUEUES
  {
    0 <= id < MAX_QUEUES && w.queues[id].inUse
  }

  ghost function Contents(w: World, id: int): (s: seq<byte>)
    requires Good(w) && Live(w, id)
  {
    Ring.Contents(RingOf(w.heap, w.queues[id]))
  }

  /** A call with its result, as its caller sees them. */
  datatype Call =
    | Allocated(size: uint32, region: Option<uint32>)
    | Created(size: uint32, id: int)
    | Destroyed(id: int, ok: bool)
    | Sent(id: int, data: seq<byte>, ok: bool)
    | Received(id: int, max: uint32, r: int, bytes: seq<byte>)

  /** `id` is the least free slot. */
  predicate LeastFree(queues: seq<Queue>, id: int)
    requires |queues| == MAX_QUEUES
  {
    0 <= id < MAX_QUEUES && !queues[id].inUse && forall i :: 0 <= i < id ==> queues[i].inUse
  }

  predicate Full(queues: seq<Queue>)
    requires |queues| == MAX_QUEUES
  {
    forall i :: 0 <= i < MAX_QUEUES ==> queues[i].inUse
  }

  /** What the caller of a send owes: a size sum within 32 bits, and bytes to send if the queue can hold none. */
  predicate Sendable(q: Queue, data: seq<byte>) {
    q.size + |data| < U32 && (q.maxSize == 0 ==> data != [])
  }

  /** Whether the code lets a send of `n` bytes pass, with its 32-bit sum. */
  predicate PassesGuard(q: Queue, n: uint32) {
    (q.size + n) % U32 <= q.maxSize
  }

  /** A request that passes the guard of a send fits if and only if the 32-bit sum does not wrap. */
  lemma GuardedSendFitsIff(q: Queue, n: uint32)
    requires q.size <= q.maxSize < U32 && PassesGuard(q, n)
    ensures q.size + n <= q.maxSize <==> q.size + n < U32
  {
  }

  /** A good queue of 16 bytes that holds one lets 2^32 - 1 more pass. */
  lemma WrappedSendPasses(heap: Heap)
    ensures var q := Queue(true, HEAP_START, 0, 1, 1, 16);
            && InBounds(q) && Ring.Valid(RingOf(heap, q))
            && PassesGuard(q, U32 - 1) && q.size + (U32 - 1) > q.maxSize
  {
  }

  function Taken(q: Queue, max: uint32): (n: nat) {
    if max < q.size then max else q.size
  }

  /** An accepted send: the data is in the queue's region from `rear` on, and nothing else has changed. */
  ghost predicate Stores(w: World, id: nat, data: seq<byte>, w': World)
    requires Good(w) && Live(w, id)
  {
    var q := w.queues[id];
    && InBounds(q) && q.rear < q.maxSize && |data| <= q.maxSize
    && w'.ptr == w.ptr && w'.queues == w.queues[id := AfterSend(q, |data|)]
    && KeptOutside(w.heap, w'.heap, q)
    && Region(w'.heap, q) == Ring.Write(Region(w.heap, q), q.rear, data)
  }

  /** A receive from a queue that is not empty: the bytes are those of its region from `front` on. */
  ghost predicate Fetches(w: World, id: nat, n: nat, bytes: seq<byte>, w': World)
    requires Good(w) && Live(w, id)
  {
    var q := w.queues[id];
    && InBounds(q) && q.front < q.maxSize && n <= q.size <= q.maxSize
    && bytes == Ring.ReadOut(Region(w.heap, q), q.front, n)
    && w' == w.(queues := w.queues[id := AfterRecv(q, n)])
  }

  /** The five calls.  A request that wraps the heap pointer is no step of this relation. */
  ghost predicate Happens(w: World, e: Call, w': World)
    requires Good(w)
  {
    match e
    case Allocated(size, region) =>
      w.ptr + size < U32 && (region, w'.ptr) == Malloc(w.ptr, size) && w' == w.(ptr := w'.ptr)
    case Created(size, id) =>
      && w.ptr + size < U32
      && if id == -1 then w' == w && (Full(w.queues) || w.ptr + size >= HEAP_END)
         else
           && LeastFree(w.queues, id) && w.ptr + size < HEAP_END
           && w' == World(w.heap, w.ptr + size, w.queues[id := Queue(true, w.ptr, 0, 0, 0, size)])
    case Destroyed(id, ok) =>
      ok == Live(w, id) && w' == if ok then w.(queues := w.queues[id := w.queues[id].(inUse := false)]) else w
    case Sent(id, data, ok) =>
      if !Live(w, id) then !ok && w' == w
      else
        var q := w.queues[id];
        && Sendable(q, data) && (ok <==> q.size + |data| <= q.maxSize)
        && if ok then Stores(w, id, data, w') else w' == w
    case Received(id, max, r, bytes) =>
      if !Live(w, id) then r == -1 && bytes == [] && w' == w
      else
        && r == |bytes| == Taken(w.queues[id], max)
        && if w.queues[id].size == 0 then w' == w else Fetches(w, id, r, bytes, w')
  }

  lemma StoresGood(w: World, id: nat, data: seq<byte>, w': World)
    requires Good(w) && Live(w, id) && Stores(w, id, data, w') && w.queues[id].size + |data| <= w.queues[id].maxSize
    ensures Good(w') && OthersKept(w.heap, w.queues, w'.heap, w'.queues, id)
    ensures Live(w', id) && Contents(w', id) == Contents(w, id) + data
  {
    var q := w.queues[id];
    SendIsRingSend(w.heap, w'.heap, q, data);
    LocalChange(w.heap, w'.heap, w.ptr, w.queues, id, AfterSend(q, |data|));
    Ring.SendAppends(RingOf(w.heap, q), data);
  }

  lemma FetchesGood(w: World, id: nat, max: uint32, bytes: seq<byte>, w': World)
    requires Good(w) && Live(w, id) && w.queues[id].size > 0
    requires Fetches(w, id, Taken(w.queues[id], max), bytes, w')
    ensures Good(w') && OthersKept(w.heap, w.queues, w'.heap, w'.queues, id)
    ensures Live(w', id) && Contents(w, id) == bytes + Contents(w', id)
  {
    var q, n := w.queues[id], Taken(w.queues[id], max);
    RecvIsRingRecv(w.heap, q, max, n);
    LocalChange(w.heap, w.heap, w.ptr, w.queues, id, AfterRecv(q, n));
    Ring.RecvTakes(RingOf(w.heap, q), max);
  }

  lemma DestroyedGood(w: World, id: int)
    requires Good(w) && Live(w, id)
    ensures Good(w.(queues := w.queues[id := w.queues[id].(inUse := false)]))
  {
    var qs := w.queues[id := w.queues[id].(inUse := false)];
    forall i, j | 0 <= i < j < MAX_QUEUES && qs[i].inUse && qs[j].inUse ensures Disjoint(qs[i], qs[j]) {
      assert Disjoint(w.queues[i], w.queues[j]);
    }
  }

  lemma CreatedGood(w: World, size: uint32, id: int, w': World)
    requires Good(w) && Happens(w, Created(size, id), w') && id != -1
    ensures Good(w') && OthersKept(w.heap, w.queues, w'.heap, w'.queues, id)
    ensures Live(w', id) && Contents(w', id) == []
  {
    NewQueue(w.heap, w.ptr, w.queues, id, size);
  }

  lemma SentGood(w: World, id: int, data: seq<byte>, w': World)
    requires Good(w) && Happens(w, Sent(id, data, true), w')
    ensures Good(w') && OthersKept(w.heap, w.queues, w'.heap, w'.queues, id)
    ensures Live(w, id) && Live(w', id) && Contents(w', id) == Contents(w, id) + data
  {
    StoresGood(w, id, data, w');
  }

  lemma ReceivedGood(w: World, id: int, max: uint32, r: int, bytes: seq<byte>, w': World)
    requires Good(w) && Happens(w, Received(id, max, r, bytes), w') && Live(w, id)
    ensures Good(w') && OthersKept(w.heap, w.queues, w'.heap, w'.queues, id)
    ensures Live(w', id) && Contents(w, id) == bytes + Contents(w', id)
  {
    if w.queues[id].size > 0 {
      FetchesGood(w, id, max, bytes, w');
    } else {
      assert bytes + Contents(w', id) == Contents(w', id);
    }
  }

  /** Every call keeps the table good: regions of queues in use lie apart, in the heap, and hold rings. */
  lemma StepGood(w: World, e: Call, w': World)
    requires Good(w) && Happens(w, e, w')
    ensures Good(w')
  {
    match e
    case Allocated(_, _) =>
    case Created(size, id) =>
      if id != -1 {
        CreatedGood(w, size, id, w');
      }
    case Destroyed(id, ok) =>
      if ok {
        DestroyedGood(w, id);
      }
    case Sent(id, data, ok) =>
      if ok {
        SentGood(w, id, data, w');
      }
    case Received(id, max, r, bytes) =>
      if Live(w, id) {
        ReceivedGood(w, id, max, r, bytes, w');
      }
  }

  /** The bytes that a call puts into queue `id`, as its caller sees them. */
  function Put(e: Call, id: int): (s: seq<byte>) {
    if e.Sent? && e.id == id && e.ok then e.data else []
  }

  /** The bytes that a call takes out of queue `id`. */
  function Got(e: Call, id: int): (s: seq<byte>) {
    if e.Received? && e.id == id then e.bytes else []
  }

  predicate Creates(e: Call, id: int) {
    e.Created? && e.id == id
  }

  /** A queue that the call is not about holds what it held. */
  lemma KeptContents(w: World, about: int, w': World, id: int)
    requires Good(w) && Good(w') && Live(w, id) && id != about
    requires OthersKept(w.heap, w.queues, w'.heap, w'.queues, about)
    ensures Live(w', id) && Contents(w', id) == Contents(w, id)
  {
    assert w'.queues[id] == w.queues[id];
  }

  /** What a call puts into queue `id` is the new end of its contents, what it takes out was their beginning. */
  ghost predicate Balanced(w: World, e: Call, w': World, id: int)
    requires Good(w) && Good(w') && Live(w', id)
  {
    Live(w, id) && Contents(w, id) + Put(e, id) == Got(e, id) + Contents(w', id)
  }

  lemma UnmovedBalanced(w: World, e: Call, w': World, id: int)
    requires Good(w) && Good(w') && Live(w', id) && Live(w, id) && Contents(w', id) == Contents(w, id)
    requires Put(e, id) == [] && Got(e, id) == []
    ensures Balanced(w, e, w', id)
  {
    assert Contents(w, id) + [] == [] + Contents(w, id);
  }

  lemma SentBalanced(w: World, e: Call, w': World, id: int)
    requires Good(w) && e.Sent? && e.ok && Happens(w, e, w') && Good(w') && Live(w', id)
    ensures Balanced(w, e, w', id)
  {
    SentGood(w, e.id, e.data, w');
    if id == e.id {
      assert [] + Contents(w', id) == Contents(w', id);
    } else {
      KeptContents(w, e.id, w', id);
      UnmovedBalanced(w, e, w', id);
    }
  }

  lemma ReceivedBalanced(w: World, e: Call, w': World, id: int)
    requires Good(w) && e.Received? && Live(w, e.id) && Happens(w, e, w') && Good(w') && Live(w', id)
    ensures Balanced(w, e, w', id)
  {
    ReceivedGood(w, e.id, e.max, e.r, e.bytes, w');
    if id == e.id {
      assert Contents(w, id) + [] == Contents(w, id);
    } else {
      KeptContents(w, e.id, w', id);
      UnmovedBalanced(w, e, w', id);
    }
  }

  lemma CreatedBalanced(w: World, e: Call, w': World, id: int)
    requires Good(w) && e.Created? && e.id != id && Happens(w, e, w') && Good(w') && Live(w', id)
    ensures Balanced(w, e, w', id)
  {
    assert w'.heap == w.heap && w'.queues[id] == w.queues[id];
    UnmovedBalanced(w, e, w', id);
  }

  /** What a call does to the queue in slot `id`: creation empties it, and any other call moves its own bytes only. */
  lemma StepContents(w: World, e: Call, w': World, id: int)
    requires Good(w) && Happens(w, e, w') && Good(w') && Live(w', id)
    ensures Creates(e, id) ==> Contents(w', id) == []
    ensures !Creates(e, id) ==> Balanced(w, e, w', id)
  {
    if e.Created? {
      if e.id == id {
        CreatedGood(w, e.size, id, w');
      } else {
        CreatedBalanced(w, e, w', id);
      }
    } else if e.Sent? && e.ok {
      SentBalanced(w, e, w', id);
    } else if e.Received? && Live(w, e.id) {
      ReceivedBalanced(w, e, w', id);
    } else {
      assert w'.heap == w.heap && w'.queues[id] == w.queues[id];
      UnmovedBalanced(w, e, w', id);
    }
  }

  lemma LiveQueue(w: World, id: nat)
    requires Good(w) && Live(w, id)
    ensures var q := w.queues[id];
            InBounds(q) && q.size <= q.maxSize && (q.maxSize > 0 ==> q.front < q.maxSize && q.rear < q.maxSize)
  {
    assert Ring.Valid(RingOf(w.heap, w.queues[id]));
  }

  /** Writing the data into the region and moving the indices is an accepted send. */
  lemma SendHappens(w: World, id: nat, q: Queue, data: seq<byte>, heap': Heap)
    requires Good(w) && Live(w, id) && q == w.queues[id] && Sendable(q, data) && q.size + |data| <= q.maxSize
    requires InBounds(q) && q.rear < q.maxSize
    requires KeptOutside(w.heap, heap', q) && Region(heap', q) == Ring.Write(Region(w.heap, q), q.rear, data)
    ensures var w' := World(heap', w.ptr, w.queues[id := AfterSend(q, |data|)]);
            Happens(w, Sent(id, data, true), w') && Good(w')
  {
    var w' := World(heap', w.ptr, w.queues[id := AfterSend(q, |data|)]);
    assert Stores(w, id, data, w');
    StoresGood(w, id, data, w');
  }

  /** Taking the least free slot and a granted region is a creation. */
  lemma CreationHappens(w: World, size: uint32, id: nat)
    requires Good(w) && LeastFree(w.queues, id) && w.ptr + size < HEAP_END
    ensures var w' := World(w.heap, w.ptr + size, w.queues[id := Queue(true, w.ptr, 0, 0, 0, size)]);
            Happens(w, Created(size, id), w') && Good(w')
  {
    NewQueue(w.heap, w.ptr, w.queues, id, size);
  }

  /** Without a free slot, or without room on the heap, creation changes nothing. */
  lemma CreationRefused(w: World, size: uint32)
    requires Good(w) && (Full(w.queues) || Malloc(w.ptr, size).0.None?)
    ensures w.ptr + size < U32 ==> Happens(w, Created(size, -1), w)
  {
  }

  /** A send to no queue, or of more than fits, changes nothing. */
  lemma RefusalHappens(w: World, id: int, data: seq<byte>)
    requires Good(w)
    requires Live(w, id) ==> Sendable(w.queues[id], data) && w.queues[id].size + |data| > w.queues[id].maxSize
    ensures Happens(w, Sent(id, data, false), w)
  {
  }

  // ---------- The table in place ----------

  class QueueTable {
    const heap: array<byte>
    var heapPtr: uint32
    const queues: array<Queue>

    ghost predicate Valid()
      reads this, heap, queues
    {
      heap.Length == HEAP_SIZE && TableOk(heap[..], heapPtr, queues[..])
    }

    ghost function Now(): (w: World)
      requires heap.Length == HEAP_SIZE
      reads this, heap, queues
    {
      World(heap[..], heapPtr, queues[..])
    }

    predicate IsLive(id: int)
      requires queues.Length == MAX_QUEUES
      reads queues
    {
      0 <= id < MAX_QUEUES && queues[id].inUse
    }

    constructor ()
      ensures Valid() && fresh(heap) && fresh(queues) && heapPtr == HEAP_START
      ensures forall i :: 0 <= i < MAX_QUEUES ==> !queues[i].inUse
    {
      heap := new byte[HEAP_SIZE];
      heapPtr := HEAP_START;
      queues := new Queue[MAX_QUEUES](_ => Queue(false, 0, 0, 0, 0, 0));
    }

    /** The allocator: a region from the heap pointer on, if the 32-bit sum stays below the end. */
    method Grant(size: uint32) returns (p: Option<uint32>)
      modifies this`heapPtr
      ensures (p, heapPtr) == Malloc(old(heapPtr), size)
    {
      p := None;
      if (heapPtr + size) % U32 < HEAP_END {
        p := Some(heapPtr);
        heapPtr := (heapPtr + size) % U32;
      }
    }

    /** Any other user of the allocator leaves every queue alone, unless its request wraps the pointer. */
    method Allocate(size: uint32) returns (p: Option<uint32>)
      requires Valid()
      modifies this`heapPtr
      ensures (p, heapPtr) == Malloc(old(heapPtr), size)
      ensures old(heapPtr) + size < U32 ==> Valid() && Happens(old(Now()), Allocated(size, p), Now())
    {
      ghost var w := Now();
      p := Grant(size);
      assert Now() == w.(ptr := heapPtr);
      if w.ptr + size < U32 {
        StepGood(w, Allocated(size, p), Now());
      }
    }

    /** Creates an empty queue on the least free slot, with a region of its own unless the request wraps the pointer. */
    method Create(size: uint32) returns (id: int)
      requires Valid()
      modifies this`heapPtr, queues
      ensures id == -1 <==> Full(old(queues[..])) || Malloc(old(heapPtr), size).0.None?
      ensures id == -1 ==> queues[..] == old(queues[..]) && heapPtr == old(heapPtr)
      ensures id != -1 ==>
                && LeastFree(old(queues[..]), id) && heapPtr == (old(heapPtr) + size) % U32
                && queues[..] == old(queues[..])[id := Queue(true, old(heapPtr), 0, 0, 0, size)]
      ensures old(heapPtr) + size < U32 ==> Valid() && Happens(old(Now()), Created(size, id), Now())
    {
      ghost var w := Now();
      var slot := FindSlot();
      if slot == MAX_QUEUES {
        CreationRefused(w, size);
        return -1;
      }
      var ok := Install(slot, size);
      if !ok {
        CreationRefused(w, size);
        return -1;
      }
      id := slot;
      if w.ptr + size < U32 {
        CreationHappens(w, size, id);
        assert Now() == World(w.heap, w.ptr + size, w.queues[id := Queue(true, w.ptr, 0, 0, 0, size)]);
      }
    }

    /** Fills a slot with a new queue on a region from the allocator. */
    method Install(slot: nat, size: uint32) returns (ok: bool)
      requires slot < queues.Length
      modifies this`heapPtr, queues
      ensures ok == Malloc(old(heapPtr), size).0.Some? && heapPtr == Malloc(old(heapPtr), size).1
      ensures queues[..] == if ok then old(queues[..])[slot := Queue(true, old(heapPtr), 0, 0, 0, size)]
                            else old(queues[..])
    {
      var buffer := Grant(size);
      ok := buffer.Some?;
      if ok {
        queues[slot] := Queue(true, buffer.value, 0, 0, 0, size);
      }
    }

    /** The scan for a free slot. */
    method FindSlot() returns (slot: nat)
      requires queues.Length == MAX_QUEUES
      ensures if slot == MAX_QUEUES then Full(queues[..]) else LeastFree(queues[..], slot)
    {
      slot := 0;
      while slot < MAX_QUEUES && queues[slot].inUse
        invariant 0 <= slot <= MAX_QUEUES
        invariant forall i :: 0 <= i < slot ==> queues[i].inUse
      {
        slot := slot + 1;
      }
    }

    method Destroy(id: int) returns (r: int)
      requires Valid()
      modifies queues
      ensures r == 0 || r == -1
      ensures Valid() && Happens(old(Now()), Destroyed(id, r == 0), Now())
    {
      if !IsLive(id) {
        return -1;
      }
      ghost var w := Now();
      queues[id] := queues[id].(inUse := false);
      assert queues[..] == w.queues[id := w.queues[id].(inUse := false)];
      r := 0;
      StepGood(w, Destroyed(id, true), Now());
    }

    method CopyPart(q: Queue, at: nat, d: seq<byte>)
      requires heap.Length == HEAP_SIZE && InBounds(q) && at + |d| <= q.maxSize
      modifies heap
      ensures Region(heap[..], q) == Overwrite(old(Region(heap[..], q)), at, d)
      ensures KeptOutside(old(heap[..]), heap[..], q)
    {
      RegionOverwrite(heap[..], q, at, d);
      OverwriteKeeps(heap[..], q, at, d);
      Memcpy(heap, q.buffer - HEAP_START + at, d);
    }

    /** Copies into a queue's region, in one part or two. */
    method CopyIn(q: Queue, data: seq<byte>)
      requires heap.Length == HEAP_SIZE && InBounds(q) && q.rear <= q.maxSize && |data| <= q.maxSize
      modifies heap
      ensures Region(heap[..], q) == Ring.Write(old(Region(heap[..], q)), q.rear, data)
      ensures KeptOutside(old(heap[..]), heap[..], q)
    {
      var space := q.maxSize - q.rear;
      if |data| <= space {
        CopyPart(q, q.rear, data);
      } else {
        CopyPart(q, q.rear, data[..space]);
        CopyPart(q, 0, data[space..]);
      }
    }

    /** Copies out of a queue's region, in one part or two. */
    method CopyOut(q: Queue, n: nat) returns (data: seq<byte>)
      requires heap.Length == HEAP_SIZE && InBounds(q) && q.front <= q.maxSize && n <= q.maxSize
      ensures data == Ring.ReadOut(Region(heap[..], q), q.front, n)
    {
      var space := q.maxSize - q.front;
      if n <= space {
        data := CopySlice(q, q.front, q.front + n);
      } else {
        var first := CopySlice(q, q.front, q.maxSize);
        var second := CopySlice(q, 0, n - space);
        data := first + second;
      }
    }

    method CopySlice(q: Queue, i: nat, j: nat) returns (data: seq<byte>)
      requires heap.Length == HEAP_SIZE && InBounds(q) && i <= j <= q.maxSize
      ensures data == Region(heap[..], q)[i..j]
    {
      var base := q.buffer - HEAP_START;
      data := heap[base + i..base + j];
      RegionSlice(heap[..], q, i, j, base + i, base + j);
    }

    /** Takes the data of a send that fits. */
    method Accept(id: nat, data: seq<byte>)
      requires Valid() && IsLive(id) && Sendable(queues[id], data) && queues[id].size + |data| <= queues[id].maxSize
      modifies heap, queues
      ensures Valid() && Happens(old(Now()), Sent(id, data, true), Now())
    {
      var q := queues[id];
      ghost var w := Now();
      LiveQueue(w, id);
      CopyIn(q, data);
      SendHappens(w, id, q, data, heap[..]);
      queues[id] := AfterSend(q, |data|);
      assert queues[..] == w.queues[id := AfterSend(q, |data|)];
    }

    /** Sends to a queue, all of the data or none of it. */
    method Send(id: int, data: seq<byte>) returns (r: int)
      requires Valid()
      requires IsLive(id) ==> Sendable(queues[id], data)
      modifies heap, queues
      ensures r == 0 || r == -1
      ensures Valid() && Happens(old(Now()), Sent(id, data, r == 0), Now())
    {
      if !IsLive(id) || !PassesGuard(queues[id], |data|) {
        RefusalHappens(Now(), id, data);
        return -1;
      }
      Accept(id, data);
      r := 0;
    }

    /** Receives from a queue: as many bytes as asked for, or all there are. */
    method Recv(id: int, max: uint32) returns (r: int, data: seq<byte>)
      requires Valid()
      modifies queues
      ensures Valid() && Happens(old(Now()), Received(id, max, r, data), Now())
    {
      if !IsLive(id) {
        return -1, [];
      }
      var q := queues[id];
      if q.size == 0 {
        return 0, [];
      }
      ghost var w := Now();
      var n := if max < q.size then max else q.size;
      data := CopyOut(q, n);
      RecvIsRingRecv(w.heap, q, max, n);
      queues[id] := AfterRecv(q, n);
      assert queues[..] == w.queues[id := AfterRecv(q, n)];
      r := n;
      assert Fetches(w, id, n, data, Now());
      StepGood(w, Received(id, max, r, data), Now());
    }
  }
}
