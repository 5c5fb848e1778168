/**
 The open-file operations of `filesystem.c` on one descriptor: what a call of
 `fs_read` or `fs_seek` may do, and what whole runs of them return.
 */
module FileReader {
  import opened Machine
  import opened Chain

  type Name16 = n: seq<byte> | |n| == 16 witness seq(16, _ => 0)

  datatype File = File(inUse: bool, start: uint16, cluster: uint16, size: uint32, position: uint32,
                       attributes: byte, name: Name16)

  // ---------- One read ----------

  /** The length of one chunk, with the code's 32-bit addition. */
  function ChunkLength(position: uint32, size: uint32, remaining: uint16): (n: int) {
    var toEnd := SECTOR_BYTES - position % SECTOR_BYTES;
    var capped := if toEnd > remaining then remaining else toEnd;
    if (position + capped) % U32 > size then size - position else capped
  }

  /**
   The chunk is the least of the three bounds except in the last 512 bytes of the
   32-bit range, when the request reaches the top of it: there the sum wraps to zero
   and the chunk runs past the end of the file.
   */
  lemma ChunkIsLeastBound(position: uint32, size: uint32, remaining: uint16)
    requires position < size && remaining > 0
    ensures 0 < ChunkLength(position, size, remaining) <= remaining
    ensures ChunkLength(position, size, remaining) <= SECTOR_BYTES - position % SECTOR_BYTES
    ensures position + ChunkLength(position, size, remaining) <= size
            <==> !(position >= U32 - SECTOR_BYTES && position + remaining >= U32)
    ensures position + ChunkLength(position, size, remaining) < size ==>
              || ChunkLength(position, size, remaining) == remaining
              || (position + ChunkLength(position, size, remaining)) % SECTOR_BYTES == 0
  {
  }

  /** The request reaches the top of the 32-bit range in a file that does. */
  predicate Wraps(f: File, count: uint16) {
    f.position < f.size && f.size > U32 - SECTOR_BYTES && f.position + count >= U32
  }

  /** Where a read of `count` bytes is stopped: at the end of the file, which a read that wraps steps over. */
  function Limit(f: File, count: uint16): (n: nat) {
    if Wraps(f, count) then f.position + count + 1 else f.size
  }

  /** How many links the reader has followed after `n` bytes from offset `o` of a sector. */
  function LinksFollowed(o: nat, n: nat, atEnd: bool): (k: nat) {
    if atEnd && n > 0 then (o + n - 1) / SECTOR_BYTES else (o + n) / SECTOR_BYTES
  }

  /** The cluster a descriptor rests on after `n` bytes of a read that began at `f0`. */
  function RestCluster(vol: Volume, f0: File, count: uint16, n: nat): (c: uint16) {
    Walk(vol.next, f0.cluster,
         LinksFollowed(f0.position % SECTOR_BYTES, n, f0.position + n >= Limit(f0, count)))
  }

  /** A read of `count` bytes from `f0` can stand after `n` bytes: within its limit, and between sectors if it wraps. */
  predicate Reached(f0: File, count: uint16, n: nat) {
    && n <= count
    && (n > 0 ==> f0.position + n <= Limit(f0, count))
    && (Wraps(f0, count) && 0 < n < count ==> (f0.position + n) % SECTOR_BYTES == 0)
  }

  /** After `n` bytes the read can go on by a chunk of `m` bytes of the sector it stands in. */
  predicate Advances(f0: File, count: uint16, n: nat, m: nat) {
    && Reached(f0, count, n) && f0.position + n < Limit(f0, count)
    && m > 0 && (f0.position + n) % SECTOR_BYTES + m <= SECTOR_BYTES
    && Reached(f0, count, n + m)
  }

  /** The descriptor after `n` bytes of a read of `count` bytes that began at `f0`. */
  function At(vol: Volume, f0: File, count: uint16, n: nat): (f: File) {
    f0.(position := (f0.position + n) % U32, cluster := RestCluster(vol, f0, count, n))
  }

  /** `f` and `bytes` are where a read that began at `f0` stands after `|bytes|` bytes of its stream. */
  ghost predicate Progress(vol: Volume, f0: File, count: uint16, f: File, bytes: seq<byte>) {
    var n := |bytes|;
    && Reached(f0, count, n)
    && f == At(vol, f0, count, n)
    && bytes == Stream(vol, f0.cluster, f0.position % SECTOR_BYTES, n)
  }

  /** After `n` bytes the read stands on a sector boundary, and the chain has no link to cross it. */
  ghost predicate Stuck(vol: Volume, f0: File, n: nat) {
    var o := f0.position % SECTOR_BYTES;
    && n > 0 && (o + n) % SECTOR_BYTES == 0
    && vol.next(Walk(vol.next, f0.cluster, (o + n) / SECTOR_BYTES - 1)) >= CLUSTER_MAX
  }

  /** The read was not stuck anywhere before its `n`-th byte. */
  ghost predicate Clear(vol: Volume, f0: File, n: nat) {
    forall k :: 0 < k < n ==> !Stuck(vol, f0, k)
  }

  /**
   What a read of `count` bytes may do to a descriptor.  It returns a prefix of the
   stream from its current cluster; it falls short only on a disk fault, at the end of
   the file, or at the first sector boundary where the chain has ended.
   */
  ghost predicate ReadOutcome(vol: Volume, f: File, count: uint16, f': File, bytes: seq<byte>, faulted: bool) {
    && Progress(vol, f, count, f', bytes)
    && Clear(vol, f, |bytes|)
    && (!faulted && |bytes| < count && f.position + |bytes| < Limit(f, count) ==> Stuck(vol, f, |bytes|))
  }

  /** The loop's comparison of the wrapped position with the size is one of the bytes read with the limit. */
  lemma GuardMeetsLimit(f0: File, count: uint16, n: nat)
    requires Reached(f0, count, n)
    ensures (f0.position + n) % U32 < f0.size <==> f0.position + n < Limit(f0, count)
  {
  }

  /** Positions wrap at a multiple of the sector length. */
  lemma PositionsAgree(p: nat, m: nat)
    ensures (p % U32 + m) % U32 == (p + m) % U32
    ensures p % U32 % SECTOR_BYTES == p % SECTOR_BYTES
  {
    var q, r := p / U32, p % U32;
    assert p + m == U32 * q + (r + m);
    assert (r + m) / U32 + q == (p + m) / U32;
    assert p == SECTOR_BYTES * (8388608 * q) + r;
  }

  /** A read that wraps is never cut at the end of the file. */
  lemma WrappingChunk(f0: File, count: uint16, n: nat, p: uint32)
    requires n < count && Reached(f0, count, n) && Wraps(f0, count)
    requires p == (f0.position + n) % U32
    ensures ChunkLength(p, f0.size, count - n) ==
            var toEnd := SECTOR_BYTES - p % SECTOR_BYTES;
            if toEnd > count - n then count - n else toEnd
  {
    if f0.position + n < U32 {
      assert p == f0.position + n;
    } else {
      assert p == f0.position + n - U32;
    }
  }

  lemma FillsSector(p: nat, m: nat)
    requires p % SECTOR_BYTES + m == SECTOR_BYTES
    ensures (p + m) % SECTOR_BYTES == 0
  {
  }

  lemma WrappingChunkAdvances(f0: File, count: uint16, n: nat, p: uint32)
    requires n < count && Reached(f0, count, n) && Wraps(f0, count)
    requires p == (f0.position + n) % U32
    ensures var m := ChunkLength(p, f0.size, count - n);
            m >= 0 && Advances(f0, count, n, m)
  {
    WrappingChunk(f0, count, n, p);
    PositionsAgree(f0.position + n, 0);
    var m := ChunkLength(p, f0.size, count - n);
    if m < count - n {
      FillsSector(f0.position + n, m);
    }
  }

  /** A chunk stays within the sector, the request and the limit. */
  lemma ChunkMeetsLimit(f0: File, count: uint16, n: nat, p: uint32)
    requires n < count && Reached(f0, count, n)
    requires p == (f0.position + n) % U32 < f0.size
    ensures var m := ChunkLength(p, f0.size, count - n);
            m >= 0 && Advances(f0, count, n, m)
  {
    if Wraps(f0, count) {
      WrappingChunkAdvances(f0, count, n, p);
    } else {
      assert p == f0.position + n;
      ChunkIsLeastBound(p, f0.size, count - n);
    }
  }

  /** A chunk within one sector is a piece of the stream. */
  lemma ChunkOfStream(vol: Volume, c: uint16, p: nat, m: nat)
    requires p % SECTOR_BYTES + m <= SECTOR_BYTES
    ensures SectorOf(vol, Walk(vol.next, c, p / SECTOR_BYTES))[p % SECTOR_BYTES..p % SECTOR_BYTES + m]
            == Stream(vol, c, p, m)
  {
    var sector, o := SectorOf(vol, Walk(vol.next, c, p / SECTOR_BYTES)), p % SECTOR_BYTES;
    forall j | 0 <= j < m ensures sector[o..o + m][j] == Stream(vol, c, p, m)[j] {
      assert (p + j) / SECTOR_BYTES == p / SECTOR_BYTES && (p + j) % SECTOR_BYTES == o + j;
    }
  }

  /** The descriptor after a chunk of `m` bytes: on a sector boundary short of the end it follows a link. */
  function AfterChunk(vol: Volume, f: File, m: nat): (f': File) {
    var p := (f.position + m) % U32;
    f.(position := p,
       cluster := if p % SECTOR_BYTES == 0 && p < f.size then Follow(vol.next, f.cluster) else f.cluster)
  }

  lemma ClusterInReach(vol: Volume, f0: File, count: uint16, n: nat)
    requires f0.position + n < Limit(f0, count)
    ensures RestCluster(vol, f0, count, n)
            == Walk(vol.next, f0.cluster, (f0.position % SECTOR_BYTES + n) / SECTOR_BYTES)
  {
  }

  lemma RestAfterChunk(vol: Volume, f0: File, count: uint16, n: nat, m: nat)
    requires Advances(f0, count, n, m)
    ensures RestCluster(vol, f0, count, n + m) ==
            var c := RestCluster(vol, f0, count, n);
            if (f0.position + n + m) % SECTOR_BYTES == 0 && f0.position + n + m < Limit(f0, count)
            then Follow(vol.next, c) else c
  {
    var o := f0.position % SECTOR_BYTES;
    var k := (o + n) / SECTOR_BYTES;
    OffsetsAlign(f0.position, n);
    OffsetsAlign(f0.position, n + m);
    LinksAdvance(o, n, m);
    assert Walk(vol.next, f0.cluster, k + 1) == Follow(vol.next, Walk(vol.next, f0.cluster, k));
  }

  lemma BytesAfterChunk(vol: Volume, c: uint16, o: nat, n: nat, s: nat, m: nat, total: nat)
    requires s == (o + n) % SECTOR_BYTES && s + m <= SECTOR_BYTES && total == n + m
    ensures Stream(vol, c, o, n) + SectorOf(vol, Walk(vol.next, c, (o + n) / SECTOR_BYTES))[s..s + m]
            == Stream(vol, c, o, total)
  {
    ChunkOfStream(vol, c, o + n, m);
    StreamSplit(vol, c, o, n, o + n, m, total);
  }

  /** What the loop sees of the position, in terms of the bytes read. */
  lemma TurnPositions(f0: File, count: uint16, n: nat, m: nat)
    requires Advances(f0, count, n, m)
    ensures var p := (f0.position + n) % U32;
            var p' := (p + m) % U32;
            && p % SECTOR_BYTES == (f0.position + n) % SECTOR_BYTES
            && p' == (f0.position + (n + m)) % U32
            && p' % SECTOR_BYTES == (f0.position + n + m) % SECTOR_BYTES
            && (p' < f0.size <==> f0.position + n + m < Limit(f0, count))
  {
    PositionsAgree(f0.position + n, m);
    PositionsAgree(f0.position + n + m, 0);
    GuardMeetsLimit(f0, count, n + m);
    assert f0.position + (n + m) == f0.position + n + m;
  }

  /** One turn of the read loop moves the descriptor on by its chunk. */
  lemma AtStep(vol: Volume, f0: File, count: uint16, n: nat, m: nat)
    requires Advances(f0, count, n, m)
    ensures AfterChunk(vol, At(vol, f0, count, n), m) == At(vol, f0, count, n + m)
  {
    TurnPositions(f0, count, n, m);
    RestAfterChunk(vol, f0, count, n, m);
  }

  /** The bytes of its chunk are the next ones of the stream. */
  lemma BytesStep(vol: Volume, f0: File, count: uint16, n: nat, s: nat, m: nat)
    requires Advances(f0, count, n, m) && s == (f0.position + n) % U32 % SECTOR_BYTES && s + m <= SECTOR_BYTES
    ensures var o := f0.position % SECTOR_BYTES;
            Stream(vol, f0.cluster, o, n) + SectorOf(vol, RestCluster(vol, f0, count, n))[s..s + m]
            == Stream(vol, f0.cluster, o, n + m)
  {
    PositionsAgree(f0.position + n, 0);
    OffsetsAlign(f0.position, n);
    ClusterInReach(vol, f0, count, n);
    BytesAfterChunk(vol, f0.cluster, f0.position % SECTOR_BYTES, n, s, m, n + m);
  }

  /** One turn of the read loop appends a chunk of the stream. */
  lemma ProgressStep(vol: Volume, f0: File, count: uint16, f: File, bytes: seq<byte>, chunk: seq<byte>)
    requires Progress(vol, f0, count, f, bytes) && Advances(f0, count, |bytes|, |chunk|)
    requires var o := f.position % SECTOR_BYTES;
             o + |chunk| <= SECTOR_BYTES && chunk == SectorOf(vol, f.cluster)[o..o + |chunk|]
    ensures Progress(vol, f0, count, AfterChunk(vol, f, |chunk|), bytes + chunk)
  {
    var n, m := |bytes|, |chunk|;
    BytesStep(vol, f0, count, n, f.position % SECTOR_BYTES, m);
    AtStep(vol, f0, count, n, m);
    assert |bytes + chunk| == n + m;
  }

  /** Within a chunk the read is not stuck. */
  lemma ClearInChunk(vol: Volume, f0: File, count: uint16, n: nat, m: nat)
    requires Advances(f0, count, n, m)
    requires Clear(vol, f0, n) && !StuckBelow(vol, f0, count, n)
    ensures Clear(vol, f0, n + m)
  {
    forall k | n < k < n + m ensures !Stuck(vol, f0, k) {
      InsideSector(f0.position, n, k - n);
      OffsetsAlign(f0.position, k);
      assert f0.position + n + (k - n) == f0.position + k;
    }
  }

  /** Behind a chunk the read is stuck only on a boundary with an end mark behind that. */
  lemma StuckAfterChunk(vol: Volume, f0: File, count: uint16, n: nat, m: nat)
    requires Advances(f0, count, n, m)
    ensures Stuck(vol, f0, n + m) <==>
              && (f0.position + n + m) % SECTOR_BYTES == 0
              && vol.next(RestCluster(vol, f0, count, n)) >= CLUSTER_MAX
  {
    OffsetsAlign(f0.position, n);
    OffsetsAlign(f0.position, n + m);
    LinksAdvance(f0.position % SECTOR_BYTES, n, m);
    ClusterInReach(vol, f0, count, n);
  }

  /** The loop's test for the end of the chain says whether the read is stuck below the limit. */
  lemma TurnEnds(vol: Volume, f0: File, count: uint16, n: nat, m: nat)
    requires Advances(f0, count, n, m)
    ensures var p := At(vol, f0, count, n + m).position;
            p % SECTOR_BYTES == 0 && p < f0.size && vol.next(RestCluster(vol, f0, count, n)) >= CLUSTER_MAX
            <==> StuckBelow(vol, f0, count, n + m)
  {
    TurnPositions(f0, count, n, m);
    StuckAfterChunk(vol, f0, count, n, m);
  }

  ghost predicate StuckBelow(vol: Volume, f0: File, count: uint16, n: nat) {
    f0.position + n < Limit(f0, count) && Stuck(vol, f0, n)
  }

  /** The state of the read loop between two turns. */
  ghost predicate Going(vol: Volume, f0: File, count: uint16, f: File, bytes: seq<byte>, ended: bool) {
    && Progress(vol, f0, count, f, bytes) && Clear(vol, f0, |bytes|)
    && (ended <==> StuckBelow(vol, f0, count, |bytes|))
  }

  /** One turn of the read loop, as the loop takes it: it ends where it is stuck below the limit. */
  lemma ReadTurn(vol: Volume, f0: File, count: uint16, f: File, bytes: seq<byte>, chunk: seq<byte>, ended: bool)
    requires |bytes| < count && Going(vol, f0, count, f, bytes, false) && f.position < f.size
    requires |chunk| == ChunkLength(f.position, f.size, count - |bytes|)
    requires var o := f.position % SECTOR_BYTES;
             o + |chunk| <= SECTOR_BYTES && chunk == SectorOf(vol, f.cluster)[o..o + |chunk|]
    requires var p := AfterChunk(vol, f, |chunk|).position;
             ended <==> p % SECTOR_BYTES == 0 && p < f.size && vol.next(f.cluster) >= CLUSTER_MAX
    ensures Going(vol, f0, count, AfterChunk(vol, f, |chunk|), bytes + chunk, ended)
  {
    var n, m := |bytes|, |chunk|;
    ChunkMeetsLimit(f0, count, n, f.position);
    ProgressStep(vol, f0, count, f, bytes, chunk);
    ClearInChunk(vol, f0, count, n, m);
    TurnEnds(vol, f0, count, n, m);
    assert |bytes + chunk| == n + m;
  }

  lemma ReadStarts(vol: Volume, f0: File, count: uint16)
    ensures Going(vol, f0, count, f0, [], false)
  {
    assert Walk(vol.next, f0.cluster, 0) == f0.cluster;
  }

  /** What the loop leaves behind is an outcome of the read. */
  lemma ReadFinishes(vol: Volume, f0: File, count: uint16, f: File, bytes: seq<byte>, faulted: bool, ended: bool)
    requires Going(vol, f0, count, f, bytes, ended)
    requires |bytes| == count || f.position >= f.size || faulted || ended
    ensures ReadOutcome(vol, f0, count, f, bytes, faulted)
  {
    GuardMeetsLimit(f0, count, |bytes|);
  }

  /** A read of `count` bytes stops after `k` of them. */
  ghost predicate Stops(vol: Volume, f: File, count: uint16, k: nat) {
    k == count || f.position + k >= Limit(f, count) || Stuck(vol, f, k)
  }

  /** On any chain a read without a fault is exactly as long as the first place where it stops. */
  lemma ReadLength(vol: Volume, f: File, count: uint16, f': File, bytes: seq<byte>)
    requires ReadOutcome(vol, f, count, f', bytes, false)
    ensures Stops(vol, f, count, |bytes|)
    ensures forall k :: 0 <= k < |bytes| ==> !Stops(vol, f, count, k)
  {
  }

  lemma InsideSector(o: nat, n: nat, d: nat)
    requires 0 < d && (o + n) % SECTOR_BYTES + d < SECTOR_BYTES
    ensures (o + n + d) % SECTOR_BYTES != 0
  {
  }

  lemma OffsetsAlign(p: nat, n: nat)
    ensures (p + n) % SECTOR_BYTES == (p % SECTOR_BYTES + n) % SECTOR_BYTES
  {
  }

  lemma LinksAdvance(o: nat, n: nat, m: nat)
    requires m > 0 && (o + n) % SECTOR_BYTES + m <= SECTOR_BYTES
    ensures (o + n + m - 1) / SECTOR_BYTES == (o + n) / SECTOR_BYTES
    ensures (o + n + m) / SECTOR_BYTES ==
            (o + n) / SECTOR_BYTES + if (o + n + m) % SECTOR_BYTES == 0 then 1 else 0
  {
  }

  // ---------- One seek ----------

  /** The links `fs_seek` follows: one for every 512 bytes or part of them. */
  function SeekHops(offset: nat): (k: nat) {
    (offset + (SECTOR_BYTES - 1)) / SECTOR_BYTES
  }

  lemma HopBounds(offset: nat)
    ensures SECTOR_BYTES * SeekHops(offset) >= offset
    ensures offset > 0 ==> SeekHops(offset) > 0 && SECTOR_BYTES * (SeekHops(offset) - 1) < offset
  {
  }

  /** After `h` turns of the seek loop its 32-bit counter has reached the offset, or the chain has no further link. */
  predicate SeekStops(next: Link, c: uint16, offset: uint32, h: nat) {
    (SECTOR_BYTES * h) % U32 >= offset || next(Walk(next, c, h)) >= CLUSTER_MAX
  }

  /** The seek loop ends. */
  ghost predicate SeekEnds(next: Link, c: uint16, offset: uint32) {
    exists h: nat :: SeekStops(next, c, offset, h)
  }

  /**
   The seek loop ends for an offset below the last 512 bytes of the 32-bit range, and
   for one in them exactly if the chain is shorter than the offset: otherwise the chain is
   a circle, and the counter wraps to zero without ever reaching the offset.
   */
  lemma SeekEndsIff(next: Link, c: uint16, offset: uint32)
    ensures SeekEnds(next, c, offset) <==>
              offset <= U32 - SECTOR_BYTES || !Linked(next, c, SeekHops(offset))
  {
    if offset <= U32 - SECTOR_BYTES {
      assert SeekStops(next, c, offset, SeekHops(offset));
    } else if Linked(next, c, SeekHops(offset)) {
      forall h: nat ensures !SeekStops(next, c, offset, h) {
        CounterStaysBelow(offset, h);
        LinkedForEver(next, c, h);
      }
    } else {
      var h :| 0 <= h < SeekHops(offset) && next(Walk(next, c, h)) >= CLUSTER_MAX;
      assert SeekStops(next, c, offset, h);
    }
  }

  lemma CounterStaysBelow(offset: uint32, h: nat)
    requires offset > U32 - SECTOR_BYTES
    ensures (SECTOR_BYTES * h) % U32 < offset
  {
  }

  /** A file of the greatest size whose one cluster links to itself: a seek to its end never returns. */
  lemma SeekLoopsForEver(next: Link)
    requires next(2) == 2
    ensures !SeekEnds(next, 2, U32 - 1)
  {
    forall h: nat ensures next(Walk(next, 2, h)) < CLUSTER_MAX {
      WalkStays(next, 2, h);
    }
    SeekEndsIff(next, 2, U32 - 1);
  }

  lemma {:induction false} WalkStays(next: Link, c: uint16, h: nat)
    requires next(c) == c
    ensures Walk(next, c, h) == c
  {
    if h > 0 {
      WalkStays(next, c, h - 1);
    }
  }

  /** The state of the seek loop after `h` turns. */
  predicate Seeking(next: Link, c: uint16, offset: uint32, h: nat, pos: int, cluster: uint16) {
    && h <= SeekHops(offset) && pos == SECTOR_BYTES * h
    && cluster == Walk(next, c, h) && Linked(next, c, h)
  }

  /** One turn of the seek loop: its counter does not wrap in a loop that ends. */
  lemma SeekTurn(next: Link, c: uint16, offset: uint32, h: nat, pos: int, cluster: uint16)
    requires Seeking(next, c, offset, h, pos, cluster) && pos < offset
    requires SeekEnds(next, c, offset) && next(cluster) < CLUSTER_MAX
    ensures Seeking(next, c, offset, h + 1, (pos + SECTOR_BYTES) % U32, next(cluster))
  {
    HopBounds(offset);
    SeekEndsIff(next, c, offset);
  }

  /** An end mark short of the offset leaves the seek where it stands. */
  lemma SeekFails(next: Link, c: uint16, offset: uint32, h: nat, pos: int, cluster: uint16)
    requires Seeking(next, c, offset, h, pos, cluster) && pos < offset && next(cluster) >= CLUSTER_MAX
    ensures cluster == Walk(next, c, SeekHops(offset)) && !Linked(next, c, SeekHops(offset))
  {
    HopBounds(offset);
    assert h < SeekHops(offset);
    WalkPastEnd(next, c, h, SeekHops(offset) - h);
  }

  lemma SeekFinishes(next: Link, c: uint16, offset: uint32, h: nat, pos: int, cluster: uint16)
    requires Seeking(next, c, offset, h, pos, cluster) && pos >= offset
    ensures cluster == Walk(next, c, SeekHops(offset)) && Linked(next, c, SeekHops(offset))
  {
    HopBounds(offset);
    assert h == SeekHops(offset);
  }

  /** What a seek that returns may do to a descriptor. */
  ghost predicate SeekOutcome(vol: Volume, f: File, offset: uint32, f': File, ok: bool) {
    if offset > f.size then f' == f && !ok
    else
      && SeekEnds(vol.next, f.start, offset)
      && f' == f.(position := offset, cluster := Walk(vol.next, f.start, SeekHops(offset)))
      && (ok <==> Linked(vol.next, f.start, SeekHops(offset)))
  }

  // ---------- Runs ----------

  datatype Event =
    | Read(count: uint16, bytes: seq<byte>, faulted: bool)
    | Seek(offset: uint32, ok: bool)

  ghost predicate Step(vol: Volume, f: File, e: Event, f': File) {
    match e
    case Read(count, bytes, faulted) => ReadOutcome(vol, f, count, f', bytes, faulted)
    case Seek(offset, ok) => SeekOutcome(vol, f, offset, f', ok)
  }

  /** `states` are the descriptor's states before, between and after the calls. */
  ghost predicate IsRun(vol: Volume, states: seq<File>, events: seq<Event>) {
    && |states| == |events| + 1
    && forall i :: 0 <= i < |events| ==> Step(vol, states[i], events[i], states[i + 1])
  }

  predicate AllReads(events: seq<Event>) {
    forall i :: 0 <= i < |events| ==> events[i].Read?
  }

  lemma RunPrefix(vol: Volume, states: seq<File>, events: seq<Event>)
    requires IsRun(vol, states, events) && events != []
    ensures IsRun(vol, states[..|events|], events[..|events| - 1])
    ensures Step(vol, states[|events| - 1], events[|events| - 1], states[|events|])
  {
  }

  predicate IsOpened(f: File, start: uint16, size: uint32) {
    f.inUse && f.start == f.cluster == start && f.size == size && f.position == 0
  }

  /** The bytes that a run of reads returns, end to end. */
  function Returned(events: seq<Event>): (s: seq<byte>) {
    if events == [] then []
    else
      var e := events[|events| - 1];
      Returned(events[..|events| - 1]) + if e.Read? then e.bytes else []
  }

  /**
   How far into its stream a run has come: reads go on from where they are, a seek within the
   file moves to its offset.
   */
  function StreamOffset(events: seq<Event>, size: uint32): (p: nat) {
    if events == [] then 0
    else
      var before := StreamOffset(events[..|events| - 1], size);
      match events[|events| - 1]
      case Read(_, bytes, _) => before + |bytes|
      case Seek(offset, _) => if offset <= size then offset else before
  }

  /** The descriptor stands at byte `p` of its stream: its cluster holds that byte, at the offset of its position. */
  predicate Standing(vol: Volume, f: File, p: nat) {
    && f.position <= f.size
    && (f.position < f.size ==>
          f.position % SECTOR_BYTES == p % SECTOR_BYTES && f.cluster == Walk(vol.next, f.start, p / SECTOR_BYTES))
  }

  /**
   The descriptor stands where its position says: the position is `p` in 32 bits.  In a file
   that cannot wrap, `p` is the position itself.
   */
  predicate Synced(vol: Volume, f: File, p: nat) {
    && f.position == p % U32 && f.position <= f.size
    && (f.position < f.size ==> f.cluster == Walk(vol.next, f.start, p / SECTOR_BYTES))
    && (f.size <= U32 - SECTOR_BYTES ==> p <= f.size)
  }

  lemma SyncedStands(vol: Volume, f: File, p: nat)
    requires Synced(vol, f, p)
    ensures Standing(vol, f, p)
  {
    PositionsAgree(p, 0);
  }

  lemma SyncedPosition(vol: Volume, f: File, p: nat)
    requires Synced(vol, f, p) && f.size <= U32 - SECTOR_BYTES
    ensures f.position == p <= f.size
  {
  }

  lemma PositionAfterRead(f: File, count: uint16, n: nat)
    requires Reached(f, count, n) && f.position <= f.size
    ensures (f.position + n) % U32 <= f.size
    ensures f.size <= U32 - SECTOR_BYTES ==> f.position + n <= f.size
  {
  }

  /** From wherever it stands, a read returns the stream's bytes and stands behind them. */
  lemma ReadFromStanding(vol: Volume, f: File, p: nat, count: uint16, f': File, bytes: seq<byte>, faulted: bool)
    requires Standing(vol, f, p) && ReadOutcome(vol, f, count, f', bytes, faulted)
    ensures Standing(vol, f', p + |bytes|) && f'.start == f.start && f'.size == f.size
    ensures bytes == Stream(vol, f.start, p, |bytes|)
  {
    var n := |bytes|;
    PositionAfterRead(f, count, n);
    if f.position < f.size {
      StreamFromWalk(vol, f.start, p / SECTOR_BYTES, p % SECTOR_BYTES, p, n);
      GuardMeetsLimit(f, count, n);
      LandsAfterRead(vol.next, f.start, p, n);
      OffsetAfterRead(f.position, p, n);
    }
  }

  lemma OffsetAfterRead(position: nat, p: nat, n: nat)
    requires position % SECTOR_BYTES == p % SECTOR_BYTES
    ensures (position + n) % U32 % SECTOR_BYTES == (p + n) % SECTOR_BYTES
  {
    PositionsAgree(position + n, 0);
    OffsetsAlign(position, n);
    OffsetsAlign(p, n);
  }

  /** From a synchronised descriptor a read returns the stream's bytes at its place and stays synchronised. */
  lemma ReadFromSynced(vol: Volume, f: File, p: nat, count: uint16, f': File, bytes: seq<byte>, faulted: bool)
    requires Synced(vol, f, p) && ReadOutcome(vol, f, count, f', bytes, faulted)
    ensures Synced(vol, f', p + |bytes|) && f'.start == f.start && f'.size == f.size
    ensures bytes == Stream(vol, f.start, p, |bytes|)
  {
    SyncedStands(vol, f, p);
    ReadFromStanding(vol, f, p, count, f', bytes, faulted);
    PositionAfterRead(f, count, |bytes|);
    PositionsAgree(p, |bytes|);
  }

  lemma LandsAfterRead(next: Link, start: uint16, p: nat, n: nat)
    ensures Walk(next, Walk(next, start, p / SECTOR_BYTES), (p % SECTOR_BYTES + n) / SECTOR_BYTES)
            == Walk(next, start, (p + n) / SECTOR_BYTES)
  {
    WalkOn(next, start, p / SECTOR_BYTES, (p % SECTOR_BYTES + n) / SECTOR_BYTES);
    assert p / SECTOR_BYTES + (p % SECTOR_BYTES + n) / SECTOR_BYTES == (p + n) / SECTOR_BYTES;
  }

  /**
   Every run of reads of any sizes after an open, disk faults included and on any
   volume: the bytes returned are a prefix of the stream, and the descriptor stands behind them.
   */
  lemma {:induction false} ReadsReturnPrefix(vol: Volume, start: uint16, size: uint32,
                                             states: seq<File>, events: seq<Event>)
    requires IsRun(vol, states, events) && IsOpened(states[0], start, size)
    requires AllReads(events)
    ensures var f := states[|events|];
            && f.start == start && f.size == size && Synced(vol, f, |Returned(events)|)
            && Returned(events) == Stream(vol, start, 0, |Returned(events)|)
  {
    if events != [] {
      var n := |events| - 1;
      RunPrefix(vol, states, events);
      ReadsReturnPrefix(vol, start, size, states[..n + 1], events[..n]);
      OneMoreRead(vol, start, states[n], events[n], states[n + 1], Returned(events[..n]));
    }
  }

  lemma OneMoreRead(vol: Volume, start: uint16, f: File, e: Event, f': File, before: seq<byte>)
    requires e.Read? && Step(vol, f, e, f')
    requires f.start == start && Synced(vol, f, |before|) && before == Stream(vol, start, 0, |before|)
    ensures f'.start == start && f'.size == f.size && Synced(vol, f', |before + e.bytes|)
    ensures before + e.bytes == Stream(vol, start, 0, |before + e.bytes|)
  {
    ReadFromSynced(vol, f, |before|, e.count, f', e.bytes, e.faulted);
    StreamSplit(vol, start, 0, |before|, |before|, |e.bytes|, |before + e.bytes|);
  }

  /**
   On a chain that covers the file, the bytes are the concatenation of its clusters, cut at
   the position.  Only a file that reaches into the last 512 bytes of the 32-bit range can be
   read past its end.
   */
  lemma ReadsReturnFile(vol: Volume, cs: seq<uint16>, size: uint32, states: seq<File>, events: seq<Event>)
    requires IsChain(vol.next, cs) && size <= SECTOR_BYTES * |cs|
    requires IsRun(vol, states, events) && IsOpened(states[0], cs[0], size)
    requires AllReads(events)
    ensures size <= U32 - SECTOR_BYTES ==> states[|events|].position == |Returned(events)| <= size
    ensures |Returned(events)| <= SECTOR_BYTES * |cs| ==>
              Returned(events) == Concatenation(vol, cs)[..|Returned(events)|]
  {
    ReadsReturnPrefix(vol, cs[0], size, states, events);
    if size <= U32 - SECTOR_BYTES {
      SyncedPosition(vol, states[|events|], |Returned(events)|);
    }
    if |Returned(events)| <= SECTOR_BYTES * |cs| {
      StreamIsConcatenation(vol, cs, |Returned(events)|);
    }
  }

  /** Without a fault and short of the chain's end, a read stops at the end of the file exactly if it does not wrap. */
  lemma ReadStopsAtEndIff(vol: Volume, f: File, count: uint16, f': File, bytes: seq<byte>)
    requires f.position <= f.size && ReadOutcome(vol, f, count, f', bytes, false)
    requires !Stuck(vol, f, |bytes|)
    ensures f.position + |bytes| <= f.size <==> !Wraps(f, count)
    ensures Wraps(f, count) ==> |bytes| == count && f.position + |bytes| >= U32
  {
  }

  /**
   A file of 2^32 - 1 bytes whose cluster links to itself, read from 511 bytes before its end:
   a read of 1000 bytes returns them all.
   */
  lemma WrappingReadRunsPast(vol: Volume, f: File, f1: File, ok: bool, f2: File, bytes: seq<byte>)
    requires vol.next(2) == 2 && IsOpened(f, 2, U32 - 1)
    requires SeekOutcome(vol, f, U32 - SECTOR_BYTES, f1, ok)
    requires ReadOutcome(vol, f1, 1000, f2, bytes, false)
    ensures f1.size - f1.position == 511 && |bytes| == 1000
  {
    WalkStays(vol.next, 2, SeekHops(U32 - SECTOR_BYTES));
    WalkStays(vol.next, 2, (f1.position % SECTOR_BYTES + |bytes|) / SECTOR_BYTES);
    if |bytes| >= SECTOR_BYTES {
      WalkStays(vol.next, 2, (f1.position % SECTOR_BYTES + |bytes|) / SECTOR_BYTES - 1);
    }
    ReadStopsAtEndIff(vol, f1, 1000, f2, bytes);
  }

  /** A covering chain has a link behind every sector but the last of the file. */
  lemma NotStuckInside(vol: Volume, cs: seq<uint16>, f: File, n: nat)
    requires IsChain(vol.next, cs) && f.start == cs[0] && f.size <= SECTOR_BYTES * |cs|
    requires f.cluster == Walk(vol.next, f.start, f.position / SECTOR_BYTES)
    requires f.position + n < f.size
    ensures !Stuck(vol, f, n)
  {
    var q, o := f.position / SECTOR_BYTES, f.position % SECTOR_BYTES;
    ChainIsLinked(vol.next, cs);
    if o + n >= SECTOR_BYTES {
      WalkOn(vol.next, f.start, q, (o + n) / SECTOR_BYTES - 1);
    }
  }

  /** Without a fault, a read on a covering chain returns all it can. */
  lemma ReadIsFull(vol: Volume, cs: seq<uint16>, f: File, count: uint16, f': File, bytes: seq<byte>)
    requires IsChain(vol.next, cs) && f.start == cs[0] && f.size <= SECTOR_BYTES * |cs|
    requires Synced(vol, f, f.position) && !Wraps(f, count) && ReadOutcome(vol, f, count, f', bytes, false)
    ensures |bytes| == if count <= f.size - f.position then count else f.size - f.position
  {
    if f.position + |bytes| < f.size {
      NotStuckInside(vol, cs, f, |bytes|);
    }
  }

  /** A read without a fault that returns nothing although something was asked for stands at the end of the file. */
  lemma EmptyReadAtEnd(vol: Volume, f: File, count: uint16, f': File)
    requires count > 0 && ReadOutcome(vol, f, count, f', [], false)
    ensures f.position >= f.size && f' == f
  {
    assert At(vol, f, count, 0) == f;
  }

  lemma EmptyReadEnds(vol: Volume, f: File, count: uint16, f': File, p: nat)
    requires count > 0 && ReadOutcome(vol, f, count, f', [], false) && Synced(vol, f, p)
    ensures p % U32 == f.size
    ensures f.size <= U32 - SECTOR_BYTES ==> p == f.size
  {
    EmptyReadAtEnd(vol, f, count, f');
  }

  /**
   Reading on until a read without a fault returns nothing yields, on any volume, the stream
   up to the file's size: exactly, or to the next place with that number in 32 bits if the
   file can be read past its end.
   */
  lemma ReadUntilEmpty(vol: Volume, start: uint16, size: uint32, states: seq<File>, events: seq<Event>)
    requires IsRun(vol, states, events) && IsOpened(states[0], start, size)
    requires AllReads(events) && events != []
    requires var e := events[|events| - 1]; e.count > 0 && e.bytes == [] && !e.faulted
    ensures Returned(events) == Stream(vol, start, 0, |Returned(events)|)
    ensures |Returned(events)| % U32 == size
    ensures size <= U32 - SECTOR_BYTES ==> |Returned(events)| == size
  {
    var n := |events| - 1;
    RunPrefix(vol, states, events);
    ReadsReturnPrefix(vol, start, size, states[..n + 1], events[..n]);
    EmptyReadEnds(vol, states[n], events[n].count, states[n + 1], |Returned(events[..n])|);
    assert Returned(events) == Returned(events[..n]) + [];
  }

  /**
   `s` is what a file of `size` bytes on a complete chain reads as: its clusters cut to the
   size exactly if they cover it.
   */
  ghost predicate ReadsAs(vol: Volume, cs: seq<uint16>, size: uint32, s: seq<byte>)
    requires cs != []
  {
    var covered := SECTOR_BYTES * |cs|;
    && (s <= Concatenation(vol, cs) <==> size <= covered)
    && (size <= covered ==> s == Concatenation(vol, cs)[..size])
    && (size > covered ==>
          |s| > covered && s == Concatenation(vol, cs) + Stream(vol, cs[|cs| - 1], 0, |s| - covered))
  }

  lemma StreamReadsAs(vol: Volume, cs: seq<uint16>, size: uint32, s: seq<byte>)
    requires Complete(vol.next, cs) && s == Stream(vol, cs[0], 0, |s|)
    requires |s| % U32 == size && (size <= U32 - SECTOR_BYTES ==> |s| == size)
    ensures ReadsAs(vol, cs, size, s)
  {
    CompleteIsAcyclic(vol.next, cs);
    AcyclicChainBound(vol.next, cs);
    StreamAgreesIff(vol, cs, s);
    assert |s| >= size;
  }

  /**
   So a file read to the end on a complete chain is the concatenation of its clusters cut to
   the size exactly if they cover it; otherwise the last cluster follows, over and over.
   */
  lemma WholeFileIffCovered(vol: Volume, cs: seq<uint16>, size: uint32, states: seq<File>, events: seq<Event>)
    requires Complete(vol.next, cs)
    requires IsRun(vol, states, events) && IsOpened(states[0], cs[0], size)
    requires AllReads(events) && events != []
    requires var e := events[|events| - 1]; e.count > 0 && e.bytes == [] && !e.faulted
    ensures ReadsAs(vol, cs, size, Returned(events))
  {
    ReadUntilEmpty(vol, cs[0], size, states, events);
    StreamReadsAs(vol, cs, size, Returned(events));
  }

  /** On a complete chain a read from byte `p` is stuck on the boundaries behind the last cluster. */
  lemma StuckOnChain(vol: Volume, cs: seq<uint16>, f: File, p: nat, k: nat)
    requires Complete(vol.next, cs)
    requires f.start == cs[0] && Synced(vol, f, p) && f.position < f.size
    ensures Stuck(vol, f, k) <==> k > 0 && (p + k) % SECTOR_BYTES == 0 && (p + k) / SECTOR_BYTES >= |cs|
  {
    var q, o, last := p / SECTOR_BYTES, p % SECTOR_BYTES, |cs| - 1;
    PositionsAgree(p, 0);
    OffsetsAlign(p, k);
    if o + k >= SECTOR_BYTES {
      var i := q + ((o + k) / SECTOR_BYTES - 1);
      assert (p + k) / SECTOR_BYTES == i + 1;
      WalkOn(vol.next, cs[0], q, (o + k) / SECTOR_BYTES - 1);
      WalkOnChain(vol.next, cs, last);
      if i < last {
        WalkOnChain(vol.next, cs, i);
      } else {
        WalkPastEnd(vol.next, cs[0], last, i - last);
      }
    }
  }

  /** The bytes from `p` to the first boundary behind it where a chain of `length` clusters has ended. */
  function ChainRoom(length: nat, p: nat): (n: nat)
    ensures n > 0
  {
    var q := p / SECTOR_BYTES;
    SECTOR_BYTES * (if q < length then length else q + 1) - p
  }

  lemma RoomIsFirst(length: nat, p: nat, k: nat)
    requires k > 0
    ensures (p + k) % SECTOR_BYTES == 0 && (p + k) / SECTOR_BYTES >= length ==> k >= ChainRoom(length, p)
    ensures k == ChainRoom(length, p) ==> (p + k) % SECTOR_BYTES == 0 && (p + k) / SECTOR_BYTES >= length
  {
  }

  function Least(a: int, b: int): (m: int) {
    if a < b then a else b
  }

  /**
   The exact length of a read without a fault on a complete chain: the request, the rest of the
   file or of the chain.
   */
  lemma ReadLengthOnChain(vol: Volume, cs: seq<uint16>, f: File, p: nat, count: uint16, f': File, bytes: seq<byte>)
    requires Complete(vol.next, cs)
    requires f.start == cs[0] && Synced(vol, f, p) && ReadOutcome(vol, f, count, f', bytes, false)
    ensures |bytes| == Least(count, Least(Limit(f, count) - f.position, ChainRoom(|cs|, p)))
  {
    ReadLength(vol, f, count, f', bytes);
    if f.position < f.size {
      var n, room := |bytes|, ChainRoom(|cs|, p);
      StuckOnChain(vol, cs, f, p, room);
      RoomIsFirst(|cs|, p, room);
      assert Stops(vol, f, count, room);
      if n > 0 {
        StuckOnChain(vol, cs, f, p, n);
        RoomIsFirst(|cs|, p, n);
      }
    }
  }

  /** A file of 1024 bytes on one cluster: the second read returns the first sector once more. */
  lemma ShortChainRereads(vol: Volume, c: uint16, f: File, f1: File, first: seq<byte>, f2: File, second: seq<byte>)
    requires vol.next(c) >= CLUSTER_MAX && IsOpened(f, c, 1024)
    requires ReadOutcome(vol, f, 1024, f1, first, false) && ReadOutcome(vol, f1, 1024, f2, second, false)
    ensures first == SectorOf(vol, c) && second == SectorOf(vol, c) && f2.position == f2.size
  {
    assert Walk(vol.next, c, 0) == c;
    assert Walk(vol.next, c, 1) == c;
    assert Synced(vol, f, 0);
    ReadLengthOnChain(vol, [c], f, 0, 1024, f1, first);
    ReadFromSynced(vol, f, 0, 1024, f1, first, false);
    ReadLengthOnChain(vol, [c], f1, SECTOR_BYTES, 1024, f2, second);
    ReadFromSynced(vol, f1, SECTOR_BYTES, 1024, f2, second, false);
    ChunkOfStream(vol, c, 0, SECTOR_BYTES);
    ChunkOfStream(vol, c, SECTOR_BYTES, SECTOR_BYTES);
  }

  /** A file that an acyclic chain covers is far too small for its positions to wrap. */
  lemma AcyclicFileFits(vol: Volume, cs: seq<uint16>, size: uint32)
    requires IsChain(vol.next, cs) && Acyclic(cs) && size <= SECTOR_BYTES * |cs|
    ensures size <= 2093568 <= U32 - SECTOR_BYTES
  {
    AcyclicChainBound(vol.next, cs);
  }

  // ---------- Seeking ----------

  /**
   On any volume, the read after a seek within the file returns the bytes at the offset if it
   is aligned, and those one cluster later if it is not.
   */
  lemma ReadAfterSeek(vol: Volume, f: File, offset: uint32, f1: File, ok: bool,
                      count: uint16, f2: File, bytes: seq<byte>, faulted: bool)
    requires offset <= f.size && SeekOutcome(vol, f, offset, f1, ok)
    requires ReadOutcome(vol, f1, count, f2, bytes, faulted)
    ensures bytes == Stream(vol, f.start, if offset % SECTOR_BYTES == 0 then offset else offset + SECTOR_BYTES, |bytes|)
  {
    var k, o := SeekHops(offset), offset % SECTOR_BYTES;
    HopsLand(offset);
    StreamFromWalk(vol, f.start, k, o, if o == 0 then offset else offset + SECTOR_BYTES, |bytes|);
  }

  lemma HopsLand(offset: nat)
    ensures SECTOR_BYTES * SeekHops(offset) + offset % SECTOR_BYTES
            == if offset % SECTOR_BYTES == 0 then offset else offset + SECTOR_BYTES
    ensures SeekHops(offset) == offset / SECTOR_BYTES + if offset % SECTOR_BYTES == 0 then 0 else 1
  {
  }

  /** Where a seek leads: to its offset if that is aligned, and one sector further if it is not. */
  function SeekPlace(offset: nat): (p: nat) {
    if offset % SECTOR_BYTES == 0 then offset else offset + SECTOR_BYTES
  }

  lemma SeekStands(vol: Volume, f: File, offset: uint32, f': File, ok: bool)
    requires offset <= f.size && SeekOutcome(vol, f, offset, f', ok)
    ensures Standing(vol, f', SeekPlace(offset)) && f'.start == f.start && f'.size == f.size
  {
    HopsLand(offset);
  }

  /** Where the calls of a run have led: reads go on from where they are, a seek within the file leads to its place. */
  function Place(events: seq<Event>, size: uint32): (p: nat) {
    if events == [] then 0
    else
      var before := Place(events[..|events| - 1], size);
      match events[|events| - 1]
      case Read(_, bytes, _) => before + |bytes|
      case Seek(offset, _) => if offset <= size then SeekPlace(offset) else before
  }

  lemma {:induction false} RunStands(vol: Volume, start: uint16, size: uint32, states: seq<File>, events: seq<Event>)
    requires IsRun(vol, states, events) && IsOpened(states[0], start, size)
    ensures var f := states[|events|];
            f.start == start && f.size == size && Standing(vol, f, Place(events, size))
  {
    if events != [] {
      var n := |events| - 1;
      RunPrefix(vol, states, events);
      RunStands(vol, start, size, states[..n + 1], events[..n]);
      StandingStep(vol, states[n], Place(events[..n], size), events[n], states[n + 1]);
    }
  }

  lemma StandingStep(vol: Volume, f: File, p: nat, e: Event, f': File)
    requires Standing(vol, f, p) && Step(vol, f, e, f')
    ensures f'.start == f.start && f'.size == f.size
    ensures e.Read? ==> Standing(vol, f', p + |e.bytes|) && e.bytes == Stream(vol, f.start, p, |e.bytes|)
    ensures e.Seek? ==> Standing(vol, f', if e.offset <= f.size then SeekPlace(e.offset) else p)
  {
    match e
    case Read(count, bytes, faulted) => ReadFromStanding(vol, f, p, count, f', bytes, faulted);
    case Seek(offset, ok) =>
      if offset <= f.size {
        SeekStands(vol, f, offset, f', ok);
      }
  }

  /**
   Any interleaving of reads and of seeks to any offsets, from an open and on any volume: every
   read returns the stream from the place to which the calls before it have led.
   */
  lemma EveryReadReturns(vol: Volume, start: uint16, size: uint32, states: seq<File>, events: seq<Event>, i: nat)
    requires IsRun(vol, states, events) && IsOpened(states[0], start, size) && i < |events| && events[i].Read?
    ensures events[i].bytes == Stream(vol, start, Place(events[..i], size), |events[i].bytes|)
  {
    RunStands(vol, start, size, states[..i + 1], events[..i]);
    assert Step(vol, states[i], events[i], states[i + 1]);
    StandingStep(vol, states[i], Place(events[..i], size), events[i], states[i + 1]);
  }

  /**
   On a complete chain, whether or not it covers the file, a seek within the file succeeds
   exactly up to the start of the last cluster.  It leaves the descriptor synchronised exactly
   when the offset is the file's end, is aligned, or does not lie before the last cluster.
   */
  lemma SeekSyncedIff(vol: Volume, cs: seq<uint16>, f: File, offset: uint32, f': File, ok: bool)
    requires Complete(vol.next, cs) && f.start == cs[0] && offset <= f.size
    requires SeekOutcome(vol, f, offset, f', ok)
    ensures ok <==> offset <= SECTOR_BYTES * (|cs| - 1)
    ensures Synced(vol, f', offset) <==>
              offset == f.size || offset % SECTOR_BYTES == 0 || offset / SECTOR_BYTES >= |cs| - 1
    ensures ok && Synced(vol, f', offset) <==>
              offset <= SECTOR_BYTES * (|cs| - 1) && (offset == f.size || offset % SECTOR_BYTES == 0)
  {
    var q, k := offset / SECTOR_BYTES, SeekHops(offset);
    CompleteIsAcyclic(vol.next, cs);
    HopsLand(offset);
    LinkedIff(vol.next, cs, k);
    WalkOnComplete(vol.next, cs, q);
    WalkOnComplete(vol.next, cs, k);
  }

  /** A seek to an aligned offset, or to the end of the file or beyond, keeps a descriptor synchronised. */
  lemma AlignedSeekKeepsSynced(vol: Volume, f: File, p: nat, offset: uint32, f': File, ok: bool)
    requires Synced(vol, f, p) && SeekOutcome(vol, f, offset, f', ok)
    requires offset % SECTOR_BYTES == 0 || offset >= f.size
    ensures Synced(vol, f', if offset <= f.size then offset else p) && f'.start == f.start && f'.size == f.size
  {
    HopsLand(offset);
  }

  /** Every seek of a run goes to an aligned offset, or to the end of the file or beyond. */
  predicate AlignedSeeks(events: seq<Event>, size: uint32) {
    forall i :: 0 <= i < |events| && events[i].Seek? ==>
      events[i].offset % SECTOR_BYTES == 0 || events[i].offset >= size
  }

  lemma SyncedStep(vol: Volume, f: File, p: nat, e: Event, f': File)
    requires Synced(vol, f, p) && Step(vol, f, e, f')
    requires e.Seek? ==> e.offset % SECTOR_BYTES == 0 || e.offset >= f.size
    ensures f'.start == f.start && f'.size == f.size
    ensures e.Read? ==> Synced(vol, f', p + |e.bytes|) && e.bytes == Stream(vol, f.start, p, |e.bytes|)
    ensures e.Seek? ==> Synced(vol, f', if e.offset <= f.size then e.offset else p)
  {
    match e
    case Read(count, bytes, faulted) => ReadFromSynced(vol, f, p, count, f', bytes, faulted);
    case Seek(offset, ok) => AlignedSeekKeepsSynced(vol, f, p, offset, f', ok);
  }

  /** Reads and aligned seeks, in any order, keep a descriptor at the place of its stream that the run has come to. */
  lemma {:induction false} InterleavedSynced(vol: Volume, start: uint16, size: uint32,
                                             states: seq<File>, events: seq<Event>)
    requires IsRun(vol, states, events) && IsOpened(states[0], start, size) && AlignedSeeks(events, size)
    ensures var f := states[|events|];
            f.start == start && f.size == size && Synced(vol, f, StreamOffset(events, size))
  {
    if events != [] {
      var n := |events| - 1;
      RunPrefix(vol, states, events);
      InterleavedSynced(vol, start, size, states[..n + 1], events[..n]);
      SyncedStep(vol, states[n], StreamOffset(events[..n], size), events[n], states[n + 1]);
    }
  }

  /**
   Any interleaving of reads and aligned seeks, from an open and on any volume: every read
   returns the stream's bytes from where the run has come to.
   */
  lemma InterleavedReads(vol: Volume, start: uint16, size: uint32, states: seq<File>, events: seq<Event>, i: nat)
    requires IsRun(vol, states, events) && IsOpened(states[0], start, size) && AlignedSeeks(events, size)
    requires i < |events| && events[i].Read?
    ensures events[i].bytes == Stream(vol, start, StreamOffset(events[..i], size), |events[i].bytes|)
    ensures states[i].position == StreamOffset(events[..i], size) % U32
    ensures size <= U32 - SECTOR_BYTES ==> states[i].position == StreamOffset(events[..i], size)
  {
    var p := StreamOffset(events[..i], size);
    InterleavedSynced(vol, start, size, states[..i + 1], events[..i]);
    assert Step(vol, states[i], events[i], states[i + 1]);
    SyncedStep(vol, states[i], p, events[i], states[i + 1]);
    if size <= U32 - SECTOR_BYTES {
      SyncedPosition(vol, states[i], p);
    }
  }

  /** Two clusters, 2 and then 3, holding ones and twos. */
  function TwoClusters(): (vol: Volume) {
    Volume((c: uint16) => if c == 2 then 3 else 0xFFF,
           (lba: uint32) => if lba == ClusterToLba(2) then seq(SECTOR_BYTES, _ => 1) else seq(SECTOR_BYTES, _ => 2))
  }

  /**
   An unaligned seek misreads: byte 100 of a two-cluster file is a one, and a seek there
   followed by a read returns a two.
   */
  lemma UnalignedSeekMisreads(f: File, f1: File, ok: bool, f2: File, bytes: seq<byte>)
    requires IsOpened(f, 2, 1024) && SeekOutcome(TwoClusters(), f, 100, f1, ok)
    requires ReadOutcome(TwoClusters(), f1, 1, f2, bytes, false)
    ensures ok && bytes == [2] && Stream(TwoClusters(), 2, 100, 1) == [1]
  {
    var vol := TwoClusters();
    ReadAfterSeek(vol, f, 100, f1, ok, 1, f2, bytes, false);
    assert Walk(vol.next, 2, 0) == 2;
    assert Walk(vol.next, 2, 1) == 3;
    assert SeekHops(100) == 1;
    assert SectorOf(vol, 2)[100] == 1;
    assert SectorOf(vol, 3)[100] == 2;
    assert ByteAt(vol, 2, 100) == 1;
    assert ByteAt(vol, 2, 612) == 2;
  }
}
