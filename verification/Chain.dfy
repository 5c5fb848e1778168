/**
 Cluster chains and the byte streams along them, over any link table: the table is
 abstracted to a function from a cluster to its entry.
 */
module Chain {
  import opened Machine

  const SECTOR_BYTES := 512
  const ROOT_DIR_SECTOR := 19
  const DATA_START_SECTOR := 33
  const CLUSTER_MAX := 0xFF8
  /** There are as many clusters as 16-bit numbers. */
  const CLUSTERS := 0x10000

  type Link = uint16 -> uint16
  type Sector = s: seq<byte> | |s| == SECTOR_BYTES witness seq(SECTOR_BYTES, _ => 0)

  /** A mounted volume: the link table and the sectors of the disk. */
  datatype Volume = Volume(next: Link, disk: uint32 -> Sector)

  function ClusterToLba(cluster: uint16): (lba: uint32) {
    if cluster < 2 then ROOT_DIR_SECTOR else DATA_START_SECTOR + (cluster - 2)
  }

  // ---------- Walking a chain ----------

  /** Where the reader goes from `c` when it crosses a sector boundary: it stays put at an end mark. */
  function Follow(next: Link, c: uint16): (d: uint16) {
    if next(c) >= CLUSTER_MAX then c else next(c)
  }

  function Walk(next: Link, c: uint16, k: nat): (d: uint16) {
    if k == 0 then c else Follow(next, Walk(next, c, k - 1))
  }

  /** The chain from `c` has at least `k` links. */
  predicate Linked(next: Link, c: uint16, k: nat) {
    forall i :: 0 <= i < k ==> next(Walk(next, c, i)) < CLUSTER_MAX
  }

  /** `cs` lists clusters that the table links one to the next. */
  predicate IsChain(next: Link, cs: seq<uint16>) {
    && cs != []
    && forall i :: 0 <= i < |cs| - 1 ==> next(cs[i]) < CLUSTER_MAX && cs[i + 1] == next(cs[i])
  }

  /** `cs` is a chain up to its end mark. */
  predicate Complete(next: Link, cs: seq<uint16>) {
    IsChain(next, cs) && next(cs[|cs| - 1]) >= CLUSTER_MAX
  }

  predicate Acyclic(cs: seq<uint16>) {
    forall i, j :: 0 <= i < j < |cs| ==> cs[i] != cs[j]
  }

  lemma {:induction false} WalkOn(next: Link, c: uint16, i: nat, j: nat)
    ensures Walk(next, Walk(next, c, i), j) == Walk(next, c, i + j)
  {
    if j > 0 {
      WalkOn(next, c, i, j - 1);
    }
  }

  /** Tables that agree on the first `n` clusters of a chain walk it alike. */
  lemma {:induction false} SameWalk(next: Link, next': Link, c: uint16, n: nat)
    requires forall i :: 0 <= i < n ==> next'(Walk(next, c, i)) == next(Walk(next, c, i))
    ensures forall i :: 0 <= i <= n ==> Walk(next', c, i) == Walk(next, c, i)
  {
    if n > 0 {
      SameWalk(next, next', c, n - 1);
    }
  }

  lemma {:induction false} WalkOnChain(next: Link, cs: seq<uint16>, i: nat)
    requires IsChain(next, cs) && i < |cs|
    ensures Walk(next, cs[0], i) == cs[i]
  {
    if i > 0 {
      WalkOnChain(next, cs, i - 1);
    }
  }

  lemma ChainIsLinked(next: Link, cs: seq<uint16>)
    requires IsChain(next, cs)
    ensures Linked(next, cs[0], |cs| - 1)
  {
    forall i | 0 <= i < |cs| - 1 ensures next(Walk(next, cs[0], i)) < CLUSTER_MAX {
      WalkOnChain(next, cs, i);
    }
  }

  lemma {:induction false} WalkPastEnd(next: Link, c: uint16, m: nat, j: nat)
    requires next(Walk(next, c, m)) >= CLUSTER_MAX
    ensures Walk(next, c, m + j) == Walk(next, c, m)
  {
    if j > 0 {
      WalkPastEnd(next, c, m, j - 1);
    }
  }

  /** Where a walk along a complete chain stands: it stays on the last cluster. */
  lemma WalkOnComplete(next: Link, cs: seq<uint16>, i: nat)
    requires Complete(next, cs)
    ensures Walk(next, cs[0], i) == if i < |cs| then cs[i] else cs[|cs| - 1]
  {
    var last := |cs| - 1;
    if i <= last {
      WalkOnChain(next, cs, i);
    } else {
      WalkOnChain(next, cs, last);
      WalkPastEnd(next, cs[0], last, i - last);
    }
  }

  /** A complete chain has as many links as it has clusters behind the first. */
  lemma LinkedIff(next: Link, cs: seq<uint16>, k: nat)
    requires Complete(next, cs)
    ensures Linked(next, cs[0], k) <==> k <= |cs| - 1
  {
    ChainIsLinked(next, cs);
    WalkOnChain(next, cs, |cs| - 1);
  }

  /** A chain without repetition is at most 4089 clusters long: all but its first are 12-bit links. */
  lemma AcyclicChainBound(next: Link, cs: seq<uint16>)
    requires IsChain(next, cs) && Acyclic(cs)
    ensures |cs| <= 4089
  {
    var tail := cs[1..];
    forall i | 0 <= i < |tail| ensures tail[i] < CLUSTER_MAX {
      assert cs[i + 1] == next(cs[i]);
    }
    DistinctBound(tail, CLUSTER_MAX);
  }

  lemma {:induction false} DistinctBound(s: seq<uint16>, n: nat)
    requires Acyclic(s) && forall i :: 0 <= i < |s| ==> s[i] < n
    ensures |s| <= n
  {
    if s != [] {
      assert s[0] < n;
      if k :| 0 <= k < |s| && s[k] == n - 1 {
        DistinctBound(s[..k] + s[k + 1..], n - 1);
      } else {
        DistinctBound(s, n - 1);
      }
    }
  }

  lemma {:induction false} SameTail(next: Link, cs: seq<uint16>, i: nat, j: nat, k: nat)
    requires IsChain(next, cs) && i < j && j + k < |cs| && cs[i] == cs[j]
    ensures cs[i + k] == cs[j + k]
  {
    if k > 0 {
      SameTail(next, cs, i, j, k - 1);
      assert cs[i + (k - 1) + 1] == next(cs[i + (k - 1)]) && cs[j + (k - 1) + 1] == next(cs[j + (k - 1)]);
    }
  }

  /** A chain with an end does not come back to any of its clusters. */
  lemma CompleteIsAcyclic(next: Link, cs: seq<uint16>)
    requires Complete(next, cs)
    ensures Acyclic(cs)
  {
    forall i, j | 0 <= i < j < |cs| ensures cs[i] != cs[j] {
      var k := |cs| - 1 - j;
      assert next(cs[i + k]) < CLUSTER_MAX;
      if cs[i] == cs[j] {
        SameTail(next, cs, i, j, k);
      }
    }
  }

  /** A walk that has come back to a cluster never leaves the ones before that. */
  lemma {:induction false} WalkReturns(next: Link, c: uint16, i: nat, j: nat, h: nat)
    requires i < j && Walk(next, c, i) == Walk(next, c, j)
    ensures exists k :: 0 <= k < j && Walk(next, c, h) == Walk(next, c, k)
  {
    if h >= j {
      WalkOn(next, c, i, h - j);
      WalkOn(next, c, j, h - j);
      WalkReturns(next, c, i, j, h - (j - i));
    }
  }

  /** A chain with as many links as there are clusters goes round in a circle, so it has no end. */
  lemma LinkedForEver(next: Link, c: uint16, h: nat)
    requires Linked(next, c, CLUSTERS)
    ensures next(Walk(next, c, h)) < CLUSTER_MAX
  {
    var walked := seq<uint16>(CLUSTERS + 1, i requires 0 <= i <= CLUSTERS => Walk(next, c, i));
    assert !Acyclic(walked) by {
      if Acyclic(walked) {
        DistinctBound(walked, CLUSTERS);
      }
    }
    var i, j :| 0 <= i < j < |walked| && walked[i] == walked[j];
    WalkReturns(next, c, i, j, h);
  }

  // ---------- Contents ----------

  function SectorOf(vol: Volume, c: uint16): (s: Sector) {
    vol.disk(ClusterToLba(c))
  }

  /** Byte `p` of the stream that starts at cluster `c`. */
  function ByteAt(vol: Volume, c: uint16, p: nat): (b: byte) {
    SectorOf(vol, Walk(vol.next, c, p / SECTOR_BYTES))[p % SECTOR_BYTES]
  }

  /** The `n` bytes of that stream from position `from` on. */
  function Stream(vol: Volume, c: uint16, from: nat, n: nat): (s: seq<byte>)
    ensures |s| == n
  {
    seq<byte>(n, j requires 0 <= j < n => ByteAt(vol, c, from + j))
  }

  lemma StreamSplit(vol: Volume, c: uint16, from: nat, m: nat, mid: nat, n: nat, total: nat)
    requires mid == from + m && total == m + n
    ensures Stream(vol, c, from, m) + Stream(vol, c, mid, n) == Stream(vol, c, from, total)
  {
  }

  /** The stream from the `q`-th cluster on is the stream from byte `512 q` on. */
  lemma StreamFromWalk(vol: Volume, c: uint16, q: nat, o: nat, p: nat, n: nat)
    requires p == SECTOR_BYTES * q + o
    ensures Stream(vol, Walk(vol.next, c, q), o, n) == Stream(vol, c, p, n)
  {
    forall j | 0 <= j < n
      ensures Stream(vol, Walk(vol.next, c, q), o, n)[j] == Stream(vol, c, p, n)[j]
    {
      assert (p + j) / SECTOR_BYTES == q + (o + j) / SECTOR_BYTES && (p + j) % SECTOR_BYTES == (o + j) % SECTOR_BYTES;
      WalkOn(vol.next, c, q, (o + j) / SECTOR_BYTES);
      assert ByteAt(vol, Walk(vol.next, c, q), o + j) == ByteAt(vol, c, p + j);
    }
  }

  /** The sectors of the clusters listed, one after another. */
  function Concatenation(vol: Volume, cs: seq<uint16>): (s: seq<byte>)
    ensures |s| == SECTOR_BYTES * |cs|
  {
    if cs == [] then [] else SectorOf(vol, cs[0]) + Concatenation(vol, cs[1..])
  }

  lemma {:induction false} ConcatenationAt(vol: Volume, cs: seq<uint16>, p: nat)
    requires p < SECTOR_BYTES * |cs|
    ensures Concatenation(vol, cs)[p] == SectorOf(vol, cs[p / SECTOR_BYTES])[p % SECTOR_BYTES]
  {
    if p >= SECTOR_BYTES {
      ConcatenationAt(vol, cs[1..], p - SECTOR_BYTES);
    }
  }

  /** Where the chain covers the file, its stream is the concatenation of its clusters cut to its size. */
  lemma StreamIsConcatenation(vol: Volume, cs: seq<uint16>, size: nat)
    requires IsChain(vol.next, cs) && size <= SECTOR_BYTES * |cs|
    ensures Stream(vol, cs[0], 0, size) == Concatenation(vol, cs)[..size]
  {
    forall p | 0 <= p < size
      ensures Stream(vol, cs[0], 0, size)[p] == Concatenation(vol, cs)[p]
    {
      ConcatenationAt(vol, cs, p);
      WalkOnChain(vol.next, cs, p / SECTOR_BYTES);
    }
  }

  /** Past the end of a chain the stream repeats the last cluster. */
  lemma ShortChainRepeats(vol: Volume, cs: seq<uint16>, p: nat)
    requires Complete(vol.next, cs)
    requires p >= SECTOR_BYTES * |cs|
    ensures ByteAt(vol, cs[0], p) == SectorOf(vol, cs[|cs| - 1])[p % SECTOR_BYTES]
  {
    var m := |cs| - 1;
    WalkOnChain(vol.next, cs, m);
    WalkPastEnd(vol.next, cs[0], m, p / SECTOR_BYTES - m);
  }

  /** A stream longer than its chain is the whole chain, and then its last cluster over and over. */
  lemma StreamPastChain(vol: Volume, cs: seq<uint16>, size: nat)
    requires Complete(vol.next, cs)
    requires size >= SECTOR_BYTES * |cs|
    ensures Stream(vol, cs[0], 0, size)
            == Concatenation(vol, cs) + Stream(vol, cs[|cs| - 1], 0, size - SECTOR_BYTES * |cs|)
  {
    var m := |cs|;
    var covered := SECTOR_BYTES * m;
    var n := size - covered;
    assert Stream(vol, cs[0], covered, n) == Stream(vol, cs[m - 1], 0, n) by {
      WalkOnChain(vol.next, cs, m - 1);
      WalkPastEnd(vol.next, cs[0], m - 1, 1);
      StreamFromWalk(vol, cs[0], m, 0, covered, n);
    }
    assert Stream(vol, cs[0], 0, covered) == Concatenation(vol, cs) by {
      StreamIsConcatenation(vol, cs, covered);
    }
    StreamSplit(vol, cs[0], 0, covered, covered, n, size);
  }

  /** A prefix of a complete chain's stream agrees with its clusters exactly as far as they go. */
  lemma StreamAgreesIff(vol: Volume, cs: seq<uint16>, s: seq<byte>)
    requires Complete(vol.next, cs) && s == Stream(vol, cs[0], 0, |s|)
    ensures s <= Concatenation(vol, cs) <==> |s| <= SECTOR_BYTES * |cs|
    ensures |s| <= SECTOR_BYTES * |cs| ==> s == Concatenation(vol, cs)[..|s|]
    ensures |s| > SECTOR_BYTES * |cs| ==>
              s == Concatenation(vol, cs) + Stream(vol, cs[|cs| - 1], 0, |s| - SECTOR_BYTES * |cs|)
  {
    if |s| <= SECTOR_BYTES * |cs| {
      StreamIsConcatenation(vol, cs, |s|);
    } else {
      StreamPastChain(vol, cs, |s|);
    }
  }
}
