/** The byte ring behind a message queue of `ipc.c`, with its two-part copies, as a value. */
module Ring {
  import opened Machine
  import opened Memory

  /** A ring over `buf`: `size` bytes from `front` on, with `rear` the next place to write. */
  datatype Ring = Ring(buf: seq<byte>, front: nat, rear: nat, size: nat)

  predicate Valid(r: Ring) {
    && r.size <= |r.buf| < U32
    && (if |r.buf| == 0 then r.front == r.rear == 0
        else r.front < |r.buf| && r.rear == Wrap(r.front + r.size, |r.buf|))
  }

  /** The index of a position below `2 max`: what `% max` makes of it. */
  function Wrap(x: nat, max: nat): (k: nat) {
    if x < max then x else x - max
  }

  /** The queue's bytes in order of arrival. */
  function Contents(r: Ring): (s: seq<byte>)
    requires Valid(r)
    ensures |s| == r.size
  {
    seq<byte>(r.size, i requires 0 <= i < r.size => r.buf[Wrap(r.front + i, |r.buf|)])
  }

  /** `data` written from `rear` on, split at the end of the buffer. */
  function Write(buf: seq<byte>, rear: nat, data: seq<byte>): (r: seq<byte>)
    requires rear <= |buf| && |data| <= |buf|
  {
    var space := |buf| - rear;
    if |data| <= space then Overwrite(buf, rear, data)
    else Overwrite(Overwrite(buf, rear, data[..space]), 0, data[space..])
  }

  /** `n` bytes from `front` on, joined across the end of the buffer. */
  function ReadOut(buf: seq<byte>, front: nat, n: nat): (s: seq<byte>)
    requires front <= |buf| && n <= |buf|
  {
    var space := |buf| - front;
    if n <= space then buf[front..front + n] else buf[front..] + buf[..n - space]
  }

  /** The position `n` places after `p`. */
  function Advance(p: nat, n: nat, max: nat): (q: nat)
    requires max > 0 && p < max && n <= max
  {
    if n <= max - p then (p + n) % max else n - (max - p)
  }

  /** A send is refused if it does not fit; on an empty buffer the code divides by zero when nothing is sent. */
  function Send(r: Ring, data: seq<byte>): (result: (Ring, bool))
    requires Valid(r) && r.size + |data| < U32
    requires |r.buf| == 0 ==> data != []
  {
    if r.size + |data| > |r.buf| then (r, false)
    else
      (r.(buf := Write(r.buf, r.rear, data), rear := Advance(r.rear, |data|, |r.buf|), size := r.size + |data|), true)
  }

  lemma SendFits(r: Ring, data: seq<byte>)
    requires Valid(r) && r.size + |data| <= |r.buf| && |r.buf| > 0
    ensures Send(r, data) ==
            (Ring(Write(r.buf, r.rear, data), r.front, Advance(r.rear, |data|, |r.buf|), r.size + |data|), true)
  {
  }

  function Recv(r: Ring, max: nat): (result: (Ring, seq<byte>))
    requires Valid(r)
  {
    if r.size == 0 then (r, [])
    else
      var n := if max < r.size then max else r.size;
      (r.(front := Advance(r.front, n, |r.buf|), size := r.size - n), ReadOut(r.buf, r.front, n))
  }

  // ---------- Refinement of a byte stream ----------

  lemma WrapIsModulo(x: nat, max: nat)
    requires 0 < max && x < 2 * max
    ensures Wrap(x, max) == x % max < max
  {
  }

  lemma AdvanceWraps(p: nat, n: nat, max: nat)
    requires p < max && n <= max
    ensures Advance(p, n, max) == Wrap(p + n, max) < max
  {
    WrapIsModulo(p + n, max);
  }

  lemma ContentsAt(r: Ring, i: nat)
    requires Valid(r) && i < r.size
    ensures Wrap(r.front + i, |r.buf|) < |r.buf|
    ensures Contents(r)[i] == r.buf[Wrap(r.front + i, |r.buf|)]
  {
  }

  lemma WriteLength(buf: seq<byte>, rear: nat, data: seq<byte>)
    requires rear <= |buf| && |data| <= |buf|
    ensures |Write(buf, rear, data)| == |buf|
  {
  }

  lemma WrittenFirst(buf: seq<byte>, rear: nat, data: seq<byte>, j: nat)
    requires rear < |buf| && |data| <= |buf| && j < |data| && rear + j < |buf|
    ensures |Write(buf, rear, data)| == |buf|
    ensures Write(buf, rear, data)[rear + j] == data[j]
  {
    var space := |buf| - rear;
    if |data| > space {
      var half := Overwrite(buf, rear, data[..space]);
      assert half[rear + j] == data[..space][j];
      assert Overwrite(half, 0, data[space..])[rear + j] == half[rear + j];
    }
  }

  lemma WrittenSecond(buf: seq<byte>, rear: nat, data: seq<byte>, j: nat)
    requires rear < |buf| && |data| <= |buf| && j < |data| && rear + j >= |buf|
    ensures |Write(buf, rear, data)| == |buf|
    ensures Write(buf, rear, data)[rear + j - |buf|] == data[j]
  {
    var space := |buf| - rear;
    var half := Overwrite(buf, rear, data[..space]);
    assert Overwrite(half, 0, data[space..])[j - space] == data[space..][j - space];
  }

  /** The `j`-th byte written is the `j`-th after `rear`. */
  lemma WrittenAt(buf: seq<byte>, rear: nat, data: seq<byte>, j: nat)
    requires rear < |buf| && |data| <= |buf| && j < |data|
    ensures |Write(buf, rear, data)| == |buf|
    ensures Write(buf, rear, data)[Wrap(rear + j, |buf|)] == data[j]
  {
    if rear + j < |buf| {
      WrittenFirst(buf, rear, data, j);
    } else {
      WrittenSecond(buf, rear, data, j);
    }
  }

  /** A place before `rear`, or too far after it, keeps its byte. */
  lemma KeptAt(buf: seq<byte>, rear: nat, data: seq<byte>, k: nat)
    requires rear < |buf| && |data| <= |buf| && k < |buf|
    requires (k < rear || k >= rear + |data|) && k + |buf| >= rear + |data|
    ensures |Write(buf, rear, data)| == |buf|
    ensures Write(buf, rear, data)[k] == buf[k]
  {
  }

  lemma SendValid(r: Ring, data: seq<byte>)
    requires Valid(r) && r.size + |data| < U32 && (|r.buf| == 0 ==> data != [])
    ensures Valid(Send(r, data).0) && |Send(r, data).0.buf| == |r.buf|
  {
    if r.size + |data| <= |r.buf| {
      WriteLength(r.buf, r.rear, data);
      AdvanceWraps(r.rear, |data|, |r.buf|);
    }
  }

  /** Bytes already queued stay where they are. */
  lemma QueuedStay(r: Ring, data: seq<byte>, i: nat)
    requires Valid(r) && r.size + |data| <= |r.buf| && i < r.size
    ensures var k := Wrap(r.front + i, |r.buf|);
            && |Write(r.buf, r.rear, data)| == |r.buf| && k < |r.buf|
            && Write(r.buf, r.rear, data)[k] == r.buf[k]
  {
    KeptAt(r.buf, r.rear, data, Wrap(r.front + i, |r.buf|));
  }

  /** New bytes follow the queued ones. */
  lemma NewFollow(r: Ring, data: seq<byte>, j: nat)
    requires Valid(r) && r.size + |data| <= |r.buf| && j < |data|
    ensures var k := Wrap(r.front + r.size + j, |r.buf|);
            && |Write(r.buf, r.rear, data)| == |r.buf| && k < |r.buf|
            && Write(r.buf, r.rear, data)[k] == data[j]
  {
    WrittenAt(r.buf, r.rear, data, j);
  }

  lemma SentAt(r: Ring, data: seq<byte>, i: nat)
    requires Valid(r) && r.size + |data| <= |r.buf| && 0 < |r.buf| && i < r.size + |data|
    requires Valid(Send(r, data).0)
    ensures Contents(Send(r, data).0)[i] == if i < r.size then Contents(r)[i] else data[i - r.size]
  {
    ContentsAt(Send(r, data).0, i);
    if i < r.size {
      ContentsAt(r, i);
      QueuedStay(r, data, i);
    } else {
      NewFollow(r, data, i - r.size);
    }
  }

  /** An accepted send appends its bytes; a refused one changes nothing, and only a full ring refuses. */
  lemma SendAppends(r: Ring, data: seq<byte>)
    requires Valid(r) && r.size + |data| < U32 && (|r.buf| == 0 ==> data != [])
    ensures Valid(Send(r, data).0)
    ensures Send(r, data).1 <==> |Contents(r)| + |data| <= |r.buf|
    ensures Contents(Send(r, data).0) == if Send(r, data).1 then Contents(r) + data else Contents(r)
  {
    SendValid(r, data);
    if Send(r, data).1 {
      var r' := Send(r, data).0;
      forall i | 0 <= i < r.size + |data| ensures Contents(r')[i] == (Contents(r) + data)[i] {
        SentAt(r, data, i);
      }
    }
  }

  lemma RecvValid(r: Ring, max: nat)
    requires Valid(r)
    ensures Valid(Recv(r, max).0)
  {
    if r.size > 0 {
      AdvanceWraps(r.front, if max < r.size then max else r.size, |r.buf|);
    }
  }

  lemma ReceivedAt(r: Ring, n: nat, i: nat)
    requires Valid(r) && n <= r.size && i < r.size
    ensures |ReadOut(r.buf, r.front, n)| == n
    ensures i < n ==> ReadOut(r.buf, r.front, n)[i] == Contents(r)[i]
  {
    ContentsAt(r, i);
  }

  lemma LeftAt(r: Ring, n: nat, r': Ring, i: nat)
    requires Valid(r) && n <= i < r.size && Valid(r')
    requires r' == r.(front := Advance(r.front, n, |r.buf|), size := r.size - n)
    ensures Contents(r')[i - n] == Contents(r)[i]
  {
    AdvanceWraps(r.front, n, |r.buf|);
    ContentsAt(r, i);
    ContentsAt(r', i - n);
  }

  /** A receive takes bytes from the front, as many as asked for or all there are. */
  lemma RecvTakes(r: Ring, max: nat)
    requires Valid(r)
    ensures Valid(Recv(r, max).0)
    ensures |Recv(r, max).1| == if max < r.size then max else r.size
    ensures Contents(r) == Recv(r, max).1 + Contents(Recv(r, max).0)
  {
    RecvValid(r, max);
    if r.size > 0 {
      var n := if max < r.size then max else r.size;
      var r', bytes := Recv(r, max).0, Recv(r, max).1;
      ReceivedAt(r, n, 0);
      forall i | 0 <= i < r.size ensures Contents(r)[i] == (bytes + Contents(r'))[i] {
        if i < n {
          ReceivedAt(r, n, i);
        } else {
          LeftAt(r, n, r', i);
        }
      }
    }
  }
}
