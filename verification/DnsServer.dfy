/** The codec loops of `dns.c` over their buffers, and the reply that `dns_poll` builds. */
module DnsServer {
  import opened Machine
  import opened Strings
  import opened DnsName
  import Memory

  const HEADER_BYTES := 12
  const BUFFER_BYTES := 512

  // ---------- Decoding ----------

  lemma {:induction false} JoinAppend(labels: seq<Bytes>, l: Bytes)
    ensures Join(labels + [l]) == if labels == [] then l else Join(labels) + [DOT] + l
  {
    if |labels| > 0 {
      assert (labels + [l])[1..] == labels[1..] + [l];
      JoinAppend(labels[1..], l);
      if |labels| == 1 {
        assert labels[1..] == [];
      } else {
        assert labels[0] + [DOT] + (Join(labels[1..]) + [DOT] + l) == Join(labels) + [DOT] + l;
      }
    }
  }

  /** The labels read so far put before those still to come. */
  function Prepend(done: seq<Bytes>, rest: Option<seq<Bytes>>): (r: Option<seq<Bytes>>) {
    if rest.None? then None else Some(done + rest.value)
  }

  lemma JoinGrows(a: seq<Bytes>, l: Bytes, more: seq<Bytes>)
    requires more == a + [l]
    ensures |Join(more)| >= |Join(a)|
  {
    JoinAppend(a, l);
  }

  lemma {:induction false} JoinLength(a: seq<Bytes>, b: seq<Bytes>, all: seq<Bytes>)
    requires all == a + b
    ensures |Join(all)| >= |Join(a)|
    decreases |b|
  {
    if b == [] {
      assert all == a;
    } else {
      var more := a + [b[0]];
      JoinGrows(a, b[0], more);
      assert all == more + b[1..];
      JoinLength(more, b[1..], all);
    }
  }

  /** A label that the bound refuses rules out every way on. */
  lemma TooLong(done: seq<Bytes>, l: Bytes, rest: seq<Bytes>, outlen: int)
    requires |Join(done)| + |l| + 1 >= outlen && |l| > 0 && Proper(done)
    ensures !Fits(done + [l] + rest, outlen)
  {
    JoinAppend(done, l);
    JoinLength(done + [l], rest, done + [l] + rest);
    if done != [] {
      assert (done + [l] + rest)[0] == done[0];
    } else {
      assert (done + [l] + rest)[0] == l;
    }
  }

  /** A buffer at a non-zero length byte holds a label and what follows, or is cut short. */
  lemma ParseLabel(b: Bytes, n: int)
    requires b != [] && b[0] == n && n != 0
    ensures 1 + n > |b| ==> Parse(b) == None
    ensures 1 + n <= |b| ==> Parse(b) == Prepend([b[1..1 + n]], Parse(b[1 + n..]))
  {
  }

  lemma PrependTwice(a: seq<Bytes>, b: seq<Bytes>, rest: Option<seq<Bytes>>)
    ensures Prepend(a, Prepend(b, rest)) == Prepend(a + b, rest)
  {
    if rest.Some? {
      assert a + (b + rest.value) == (a + b) + rest.value;
    }
  }

  /** One turn of the loop reads one label. */
  lemma ParseTurn(buf: Bytes, pos: nat, n: int, done: seq<Bytes>)
    requires pos < |buf| && buf[pos] == n && n != 0
    requires Parse(buf) == Prepend(done, Parse(buf[pos..]))
    ensures pos + 1 + n > |buf| ==> Parse(buf) == None
    ensures pos + 1 + n <= |buf| ==>
              Parse(buf) == Prepend(done + [buf[pos + 1..pos + 1 + n]], Parse(buf[pos + 1 + n..]))
  {
    var b := buf[pos..];
    ParseLabel(b, n);
    if pos + 1 + n <= |buf| {
      assert b[1..1 + n] == buf[pos + 1..pos + 1 + n] && b[1 + n..] == buf[pos + 1 + n..];
      PrependTwice(done, [b[1..1 + n]], Parse(b[1 + n..]));
    }
  }

  /** Copies up to `len` bytes of `buf` from `pos` on to `out` from `o` on, as far as `buf` goes. */
  method CopyLabel(buf: Bytes, pos: nat, len: nat, out: array<byte>, o: nat) returns (n: nat)
    requires pos <= |buf| && o + len <= out.Length
    modifies out
    ensures n == if pos + len <= |buf| then len else |buf| - pos
    ensures out[..o + n] == old(out[..o]) + buf[pos..pos + n]
  {
    n := 0;
    while n < len && pos + n < |buf|
      invariant 0 <= n <= len && pos + n <= |buf|
      invariant out[..o + n] == old(out[..o]) + buf[pos..pos + n]
    {
      out[o + n] := buf[pos + n];
      n := n + 1;
    }
  }

  /** The labels `done` have been read from what stands before `pos`. */
  ghost predicate Consumed(buf: Bytes, pos: nat, done: seq<Bytes>) {
    && pos <= |buf| && Proper(done)
    && Parse(buf) == Prepend(done, Parse(buf[pos..]))
    && buf[..pos] == Body(done)
  }

  /** `name` joins the labels `done`, within the bound. */
  ghost predicate Spelled(done: seq<Bytes>, name: Bytes, outlen: nat) {
    && name == Join(done) && |name| < outlen && Fits(done, outlen)
    && (name == [] <==> done == [])
  }

  /** The decoding loop stands at `pos`; `name` joins the labels `done` read before it. */
  ghost predicate Reading(buf: Bytes, pos: nat, done: seq<Bytes>, name: Bytes, outlen: nat) {
    Consumed(buf, pos, done) && Spelled(done, name, outlen)
  }

  /** A label that is cut short or does not fit makes the whole name unreadable. */
  lemma ReadingRefused(buf: Bytes, pos: nat, n: int, done: seq<Bytes>, name: Bytes, outlen: nat)
    requires Reading(buf, pos, done, name, outlen) && pos < |buf| && buf[pos] == n && n != 0
    requires |name| + n + 1 >= outlen || pos + 1 + n > |buf|
    ensures Decoded(buf, outlen) == None
  {
    ParseTurn(buf, pos, n, done);
    if pos + 1 + n <= |buf| {
      var rest := Parse(buf[pos + 1 + n..]);
      if rest.Some? {
        TooLong(done, buf[pos + 1..pos + 1 + n], rest.value, outlen);
      }
    }
  }

  lemma BodyTurn(buf: Bytes, pos: nat, n: int, done: seq<Bytes>, after: nat, l: Bytes)
    requires after == pos + 1 + n <= |buf| && 0 < n < 0x100 && buf[pos] == n && buf[..pos] == Body(done)
    requires l == buf[pos + 1..after]
    ensures buf[..after] == Body(done + [l])
  {
    BodyOneMore(done, l);
    assert buf[..after] == buf[..pos] + ([n] + l);
  }

  /** The name with one label more. */
  function Extend(name: Bytes, l: Bytes): (s: Bytes) {
    if name == [] then l else name + [DOT] + l
  }

  lemma ConsumedTurn(buf: Bytes, pos: nat, n: int, done: seq<Bytes>, after: nat, l: Bytes, done': seq<Bytes>)
    requires Consumed(buf, pos, done) && pos < |buf| && buf[pos] == n && n != 0
    requires after == pos + 1 + n <= |buf| && l == buf[pos + 1..after] && done' == done + [l]
    ensures Consumed(buf, after, done')
  {
    ParseTurn(buf, pos, n, done);
    BodyTurn(buf, pos, n, done, after, l);
  }

  lemma SpelledTurn(done: seq<Bytes>, name: Bytes, outlen: nat, l: Bytes, done': seq<Bytes>, name': Bytes)
    requires Spelled(done, name, outlen) && l != [] && |name| + |l| + 1 < outlen
    requires done' == done + [l] && name' == Extend(name, l)
    ensures Spelled(done', name', outlen)
  {
    JoinAppend(done, l);
    assert done != [] ==> done'[0] == done[0];
  }

  lemma ReadingTurn(buf: Bytes, pos: nat, n: int, done: seq<Bytes>, name: Bytes, outlen: nat,
                    after: nat, l: Bytes, done': seq<Bytes>, name': Bytes)
    requires Reading(buf, pos, done, name, outlen) && pos < |buf| && buf[pos] == n && n != 0
    requires |name| + n + 1 < outlen && after == pos + 1 + n <= |buf|
    requires l == buf[pos + 1..after] && done' == done + [l] && name' == Extend(name, l)
    ensures Reading(buf, after, done', name', outlen)
  {
    ConsumedTurn(buf, pos, n, done, after, l, done');
    SpelledTurn(done, name, outlen, l, done', name');
  }

  lemma ReadingStart(buf: Bytes, outlen: nat)
    requires outlen > 0
    ensures Reading(buf, 0, [], [], outlen)
  {
    assert buf[0..] == buf;
    if Parse(buf).Some? {
      assert [] + Parse(buf).value == Parse(buf).value;
    }
  }

  lemma ReadingDone(buf: Bytes, pos: nat, done: seq<Bytes>, name: Bytes, outlen: nat)
    requires Reading(buf, pos, done, name, outlen)
    ensures pos == |buf| ==> Decoded(buf, outlen) == None
    ensures pos < |buf| && buf[pos] == 0 ==>
              && Decoded(buf, outlen) == Some(done) && buf[..pos + 1] == Wire(done)
              && Dotted(done) == if name == [] then [DOT] else name
  {
    if pos < |buf| && buf[pos] == 0 {
      assert done + [] == done;
      assert buf[..pos + 1] == buf[..pos] + [0];
    }
  }

  /** Appends the label at `pos` to the name in `out`; -1 if it does not fit or is cut short. */
  method DecodeLabel(buf: Bytes, pos: nat, out: array<byte>, ghost name: Bytes, o: nat) returns (o': int)
    requires pos < |buf| && o == |name| <= out.Length && out[..o] == name
    modifies out
    ensures o' == -1 <==> o + buf[pos] + 1 >= out.Length || pos + 1 + buf[pos] > |buf|
    ensures o' != -1 ==>
              var name' := Extend(name, buf[pos + 1..pos + 1 + buf[pos]]);
              o' == |name'| <= out.Length && out[..o'] == name'
  {
    var len: int := buf[pos];
    if o + len + 1 >= out.Length {
      return -1;
    }
    o' := o;
    if o' != 0 {
      out[o'] := DOT;
      o' := o' + 1;
    }
    ghost var base := out[..o'];
    assert base == if name == [] then [] else name + [DOT];
    var n := CopyLabel(buf, pos + 1, len, out, o');
    if n < len {
      return -1;
    }
    o' := o' + n;
    assert out[..o'] == base + buf[pos + 1..pos + 1 + len];
  }

  /** One turn of the decoding loop: the label at `pos` is read and spelled, or the whole name is refused. */
  method ReadLabel(buf: Bytes, pos: nat, out: array<byte>, o: nat, ghost done: seq<Bytes>, ghost name: Bytes)
    returns (after: nat, o': int, ghost l: Bytes)
    requires pos < |buf| && buf[pos] != 0 && Reading(buf, pos, done, name, out.Length)
    requires o == |name| && out[..o] == name
    modifies out
    ensures o' == -1 ==> Decoded(buf, out.Length) == None
    ensures o' != -1 ==>
              && pos < after <= |buf| && Reading(buf, after, done + [l], Extend(name, l), out.Length)
              && o' == |Extend(name, l)| && out[..o'] == Extend(name, l)
  {
    after, l := pos, [];
    o' := DecodeLabel(buf, pos, out, name, o);
    if o' == -1 {
      ReadingRefused(buf, pos, buf[pos], done, name, out.Length);
    } else {
      after := pos + 1 + buf[pos] as int;
      l := buf[pos + 1..after];
      ReadingTurn(buf, pos, buf[pos], done, name, out.Length, after, l, done + [l], Extend(name, l));
    }
  }

  /** Ends the name: the root is written as a dot, and a NUL follows. */
  method FinishName(out: array<byte>, ghost name: Bytes, o: nat)
    requires 2 <= out.Length && o == |name| < out.Length && out[..o] == name
    modifies out
    ensures var dotted := if name == [] then [DOT] else name;
            |dotted| < out.Length && out[..|dotted|] == dotted && out[|dotted|] == 0
  {
    if o == 0 {
      out[0] := DOT;
      out[1] := 0;
    } else {
      out[o] := 0;
    }
  }

  /** Decodes into `out`, which gets the dotted name and a NUL; returns the bytes read, or -1. */
  method DecodeQname(buf: Bytes, out: array<byte>) returns (r: int)
    requires out.Length >= 2
    modifies out
    ensures Decoded(buf, out.Length) == None ==> r == -1
    ensures Decoded(buf, out.Length).Some? ==>
              var labels := Decoded(buf, out.Length).value;
              && r == |Wire(labels)| <= |buf| && buf[..r] == Wire(labels)
              && |Dotted(labels)| < out.Length
              && out[..|Dotted(labels)|] == Dotted(labels) && out[|Dotted(labels)|] == 0
  {
    var pos, o := 0, 0;
    ghost var done: seq<Bytes>, name: Bytes := [], [];
    ReadingStart(buf, out.Length);
    while pos < |buf|
      invariant 0 <= pos && Reading(buf, pos, done, name, out.Length)
      invariant o == |name| && out[..o] == name
      decreases |buf| - pos
    {
      if buf[pos] == 0 {
        ReadingDone(buf, pos, done, name, out.Length);
        FinishName(out, name, o);
        return pos + 1;
      }
      ghost var l;
      pos, o, l := ReadLabel(buf, pos, out, o, done, name);
      if o == -1 {
        return -1;
      }
      done, name := done + [l], Extend(name, l);
    }
    ReadingDone(buf, pos, done, name, out.Length);
    r := -1;
  }

  // ---------- Encoding ----------

  /** The encoding loop stands at `start`; `w` is the wire form of the labels `done` before it. */
  ghost predicate Writing(s: Bytes, start: nat, done: seq<Bytes>, w: Bytes) {
    start <= |s| && Labels(s) == done + Labels(s[start..]) && w == Body(done)
  }

  lemma WritingStart(s: Bytes)
    ensures Writing(s, 0, [], [])
  {
  }

  lemma WritingTurn(s: Bytes, start: nat, done: seq<Bytes>, w: Bytes, dot: nat, after: nat, l: Bytes)
    requires Writing(s, start, done, w) && start < dot == start + FirstDot(s[start..]) <= |s|
    requires l == s[start..dot] && after == if dot < |s| then dot + 1 else dot
    ensures Writing(s, after, done + [l], w + Prefixed(l))
  {
    LabelsTurn(s, start, dot, after, l);
    assert done + ([l] + Labels(s[after..])) == (done + [l]) + Labels(s[after..]);
    BodyOneMore(done, l);
  }

  lemma LabelsTurn(s: Bytes, start: nat, dot: nat, after: nat, l: Bytes)
    requires start <= |s| && start < dot == start + FirstDot(s[start..]) <= |s|
    requires l == s[start..dot] && after == if dot < |s| then dot + 1 else dot
    ensures Labels(s[start..]) == [l] + Labels(s[after..])
  {
    var t := s[start..];
    assert t[..dot - start] == l;
    assert Rest(t) == s[after..];
  }

  lemma BodyOneMore(done: seq<Bytes>, l: Bytes)
    ensures Body(done + [l]) == Body(done) + Prefixed(l)
  {
    var one: seq<Bytes> := [l];
    assert one[1..] == [];
    BodyAppend(done, one);
  }

  /** What has been written is a part of the whole, and the whole if no label follows. */
  lemma WritingDone(s: Bytes, start: nat, done: seq<Bytes>, w: Bytes)
    requires Writing(s, start, done, w)
    ensures |Body(Labels(s))| >= |w|
    ensures FirstDot(s[start..]) == 0 ==> Body(Labels(s)) == w
  {
    BodyAppend(done, Labels(s[start..]));
    if FirstDot(s[start..]) == 0 {
      assert Labels(s[start..]) == [];
      assert done + [] == done;
    }
  }

  /** The scan for the end of a label. */
  method FindDot(s: Bytes, start: nat) returns (dot: nat)
    requires start <= |s|
    ensures dot == start + FirstDot(s[start..]) <= |s|
  {
    dot := start;
    while dot < |s| && s[dot] != DOT
      invariant start <= dot <= |s|
      invariant start + FirstDot(s[start..]) == dot + FirstDot(s[dot..])
    {
      assert s[dot..][1..] == s[dot + 1..];
      dot := dot + 1;
    }
  }

  /** Writes a length byte and a label after what stands before `at`, up to `end`. */
  method EncodeLabel(l: Bytes, out: array<byte>, at: nat, end: nat)
    requires end == at + 1 + |l| <= out.Length
    modifies out
    ensures out[..end] == old(out[..at]) + Prefixed(l)
  {
    out[at] := |l| % 0x100;
    ghost var first := out[..at + 1];
    assert first == old(out[..at]) + [|l| % 0x100];
    var n := CopyLabel(l, 0, |l|, out, at + 1);
    assert out[..end] == first + l;
  }

  lemma Associate(a: Bytes, b: Bytes, c: Bytes)
    ensures (a + b) + c == a + (b + c)
  {
  }

  /** How a turn of the encoding loop ends. */
  datatype Turn = More | Last | Full

  /** One turn of the loop at `start`: a label that is not empty and fits is written after what stands before `end`. */
  method EncodeTurn(s: Bytes, start: nat, out: array<byte>, end: nat, ghost done: seq<Bytes>, ghost w: Bytes)
    returns (after: nat, end': nat, turn: Turn, ghost l: Bytes)
    requires start < |s| && end <= out.Length && Writing(s, start, done, w)
    modifies out
    ensures turn.More? ==>
              && start < after && end' <= out.Length && Writing(s, after, done + [l], w + Prefixed(l))
              && end' == end + |Prefixed(l)| && out[..end'] == old(out[..end]) + Prefixed(l)
    ensures turn.Last? ==> w == Body(Labels(s)) && out[..end] == old(out[..end])
    ensures turn.Full? ==> |Body(Labels(s))| - |w| >= out.Length - end
  {
    var dot := FindDot(s, start);
    after, end', l := start, end, [];
    if dot == start {
      WritingDone(s, start, done, w);
      return after, end', Last, l;
    }
    var piece := s[start..dot];
    l := piece;
    after := if dot < |s| then dot + 1 else dot;
    WritingTurn(s, start, done, w, dot, after, l);
    end' := end + 1 + (dot - start);
    WritingDone(s, after, done + [l], w + Prefixed(l));
    if end' >= out.Length {
      return after, end', Full, l;
    }
    EncodeLabel(piece, out, end, end');
    turn := More;
  }

  /** The loop of the encoder: the labels without the terminator. */
  method EncodeLabels(s: Bytes, out: array<byte>, at: nat) returns (o: int)
    requires at <= out.Length
    modifies out
    ensures o == -1 ==> |Body(Labels(s))| >= out.Length - at
    ensures o != -1 ==>
              && o == |Body(Labels(s))| <= out.Length - at
              && out[..at + o] == old(out[..at]) + Body(Labels(s))
  {
    var start, end, turn := 0, at, More;
    ghost var done: seq<Bytes>, w: Bytes, base := [], [], out[..at];
    WritingStart(s);
    while start < |s| && turn.More?
      invariant turn.More? ==> Writing(s, start, done, w)
      invariant turn.Last? ==> w == Body(Labels(s))
      invariant !turn.Full? ==> end == at + |w| <= out.Length && out[..end] == base + w
      invariant turn.Full? ==> |Body(Labels(s))| >= out.Length - at
      decreases |s| - start, turn.More?
    {
      ghost var l;
      var after, end';
      after, end', turn, l := EncodeTurn(s, start, out, end, done, w);
      if turn.More? {
        Associate(base, w, Prefixed(l));
        start, end, done, w := after, end', done + [l], w + Prefixed(l);
      }
    }
    if turn.More? {
      WritingDone(s, start, done, w);
    }
    o := if turn.Full? then -1 else end - at;
  }

  /** Encodes the C string `s` into `out` from index `at` on; returns the bytes written, or -1. */
  method EncodeQname(s: Bytes, out: array<byte>, at: nat) returns (r: int)
    requires at <= out.Length
    modifies out
    ensures r == if |Wire(Labels(s))| <= out.Length - at then |Wire(Labels(s))| else -1
    ensures r != -1 ==> out[..at + r] == old(out[..at]) + Wire(Labels(s))
  {
    var o := EncodeLabels(s, out, at);
    if o == -1 || o >= out.Length - at {
      return -1;
    }
    ghost var before := out[..at + o];
    out[at + o] := 0;
    r := o + 1;
    assert out[..at + r] == before + [0];
    assert old(out[..at]) + Wire(Labels(s)) == before + [0];
  }

  // ---------- The reply ----------

  /** The C string that the decoded name buffer holds. */
  function NameOf(labels: seq<Bytes>): (s: Bytes) {
    CString(Dotted(labels))
  }

  function ToLower(c: byte): (r: byte) {
    if 0x41 <= c <= 0x5A then c + 32 else c
  }

  function Lowered(s: Bytes): (r: Bytes)
    ensures |r| == |s|
  {
    seq<byte>(|s|, i requires 0 <= i < |s| => ToLower(s[i]))
  }

  /** "vlsos" and "vlsos.local". */
  const SHORT_NAME: Bytes := [0x76, 0x6C, 0x73, 0x6F, 0x73]
  const LONG_NAME: Bytes := [0x76, 0x6C, 0x73, 0x6F, 0x73, 0x2E, 0x6C, 0x6F, 0x63, 0x61, 0x6C]

  predicate IsOurs(s: Bytes) {
    Lowered(s) == SHORT_NAME || Lowered(s) == LONG_NAME
  }

  /** Type A, class IN. */
  predicate IsAddressQuery(tail: Bytes) {
    tail == [0, 1, 0, 1]
  }

  /** The fixed part of the answer: type, class, a TTL of 300, and the address with its length. */
  function AnswerTail(ip: Bytes): (s: Bytes) {
    [0x00, 0x01, 0x00, 0x01, 0x00, 0x00, 0x01, 0x2C, 0x00, 0x04] + ip
  }

  /** A query that gets a reply: a header, a readable name, and a type and class after it. */
  predicate Answerable(query: Bytes) {
    && |query| >= HEADER_BYTES
    && var labels := Decoded(query[HEADER_BYTES..], MAX_QNAME);
    && labels.Some?
    && HEADER_BYTES + |Wire(labels.value)| + 4 <= |query|
  }

  function QueryLabels(query: Bytes): (labels: seq<Bytes>)
    requires Answerable(query)
  {
    Decoded(query[HEADER_BYTES..], MAX_QNAME).value
  }

  /** The type and class of the first question. */
  function QueryTail(query: Bytes): (t: Bytes)
    requires Answerable(query)
  {
    var pos := HEADER_BYTES + |Wire(QueryLabels(query))|;
    query[pos..pos + 4]
  }

  /** A message in parts: a 12-byte header, a name of proper labels, its type and class, and anything behind them. */
  predicate Asks(query: Bytes, header: Bytes, labels: seq<Bytes>, tail: Bytes, rest: Bytes) {
    query == header + (Wire(labels) + (tail + rest)) && |header| == 12 && |tail| == 4 && Proper(labels)
  }

  /** A message in parts is answered exactly if its dotted name leaves room in 256 bytes, and is read as those parts. */
  lemma AnswersIff(query: Bytes, header: Bytes, labels: seq<Bytes>, tail: Bytes, rest: Bytes)
    requires Asks(query, header, labels, tail, rest)
    ensures Answerable(query) <==> Fits(labels, 256)
    ensures Answerable(query) ==> QueryLabels(query) == labels && QueryTail(query) == tail
  {
    var w := Wire(labels);
    assert query[12..] == w + (tail + rest);
    ParseOfWire(labels, tail + rest);
    assert query[12 + |w|..12 + |w| + 4] == tail;
  }

  lemma InParts(query: Bytes, w: Bytes, e: nat)
    requires 12 + |w| == e && e + 4 <= |query| && w <= query[12..]
    ensures query == query[..12] + (w + (query[e..e + 4] + query[e + 4..]))
  {
    assert query[12..e] == w;
    assert query[e..] == query[e..e + 4] + query[e + 4..];
    assert query[12..] == query[12..e] + query[e..];
  }

  /** And only such messages are answered. */
  lemma AnsweredAsks(query: Bytes) returns (header: Bytes, labels: seq<Bytes>, tail: Bytes, rest: Bytes)
    requires Answerable(query)
    ensures Asks(query, header, labels, tail, rest) && Fits(labels, 256)
  {
    labels := QueryLabels(query);
    var e := 12 + |Wire(labels)|;
    header, tail, rest := query[..12], query[e..e + 4], query[e + 4..];
    WireOfParse(query[12..]);
    InParts(query, Wire(labels), e);
  }

  /** The question echoed, and an answer if it asks for our address. */
  function QuestionAndAnswer(name: Bytes, tail: Bytes, ip: Bytes): (s: Bytes) {
    var question := Wire(Labels(name)) + tail;
    if IsAddressQuery(tail) && IsOurs(name) then question + (Wire(Labels(name)) + AnswerTail(ip)) else question
  }

  /** What the reply holds after its header. */
  function ReplyBody(query: Bytes, ip: Bytes): (s: Bytes)
    requires Answerable(query)
  {
    QuestionAndAnswer(NameOf(QueryLabels(query)), QueryTail(query), ip)
  }

  /** A 16-bit field as a receiver reads it: section 2.3.2 of RFC 1035 puts the high byte first. */
  function Network16(s: Bytes, at: nat): (v: int)
    requires at + 1 < |s|
  {
    0x100 * (s[at] as int) + s[at + 1]
  }

  const RESPONSE := 0x8000
  const NAME_ERROR := 3
  const NOT_IMPLEMENTED := 4

  function ReplyCode(name: Bytes, tail: Bytes): (code: uint16) {
    if !IsAddressQuery(tail) then NOT_IMPLEMENTED else if !IsOurs(name) then NAME_ERROR else 0
  }

  function AnswerCount(name: Bytes, tail: Bytes): (n: uint16) {
    if IsAddressQuery(tail) && IsOurs(name) then 1 else 0
  }

  /** The header as the code stores it: the query's id and question count, and 16-bit fields with the low byte first. */
  function Header(query: Bytes, flags: uint16, answers: uint16): (h: Bytes)
    requires |query| >= HEADER_BYTES
    ensures |h| == HEADER_BYTES
  {
    [query[0], query[1], flags % 0x100, flags / 0x100, query[4], query[5],
     answers % 0x100, answers / 0x100, 0, 0, 0, 0]
  }

  /** The header of the reply: the response mark with its code, and the number of answers. */
  function ReplyHeader(query: Bytes): (h: Bytes)
    requires Answerable(query)
    ensures |h| == HEADER_BYTES
  {
    var name, tail := NameOf(QueryLabels(query)), QueryTail(query);
    Header(query, RESPONSE + ReplyCode(name, tail), AnswerCount(name, tail))
  }

  lemma FieldsSwapped(query: Bytes, code: uint16, answers: uint16)
    requires |query| >= HEADER_BYTES && code < 0x10 && answers < 0x100
    ensures var h := Header(query, RESPONSE + code, answers);
            Network16(h, 2) == 0x100 * code + 0x80 && Network16(h, 6) == 0x100 * answers
  {
    var h := Header(query, RESPONSE + code, answers);
    assert h[2] == code && h[3] == 0x80 && h[6] == answers && h[7] == 0;
  }

  /**
   The flags and the answer count are stored without the swap to network byte order, so
   no reply ever carries the response mark or an error code where a receiver looks for
   them (section 4.1.1 of RFC 1035), and one answer is announced as 256.
   */
  lemma HeaderMisread(query: Bytes)
    requires Answerable(query)
    ensures var h := ReplyHeader(query);
            && Network16(h, 2) < RESPONSE && Network16(h, 2) % 0x10 == 0
            && Network16(h, 6) == 0x100 * AnswerCount(NameOf(QueryLabels(query)), QueryTail(query))
  {
    var name, tail := NameOf(QueryLabels(query)), QueryTail(query);
    FieldsSwapped(query, ReplyCode(name, tail), AnswerCount(name, tail));
  }

  /** `s` spells `t`, a string in lower case, in whatever case. */
  predicate Spells(s: Bytes, t: string) {
    && |s| == |t|
    && forall i :: 0 <= i < |s| ==> s[i] == t[i] as int || ('a' <= t[i] <= 'z' && s[i] == t[i] as int - 32)
  }

  /** This host answers to its two names, in whatever case, and to no other. */
  lemma OursIff(s: Bytes)
    ensures IsOurs(s) <==> Spells(s, "vlsos") || Spells(s, "vlsos.local")
  {
    SpellsLowered(s, SHORT_NAME, "vlsos");
    SpellsLowered(s, LONG_NAME, "vlsos.local");
  }

  lemma SpellsLowered(s: Bytes, name: Bytes, t: string)
    requires |name| == |t|
    requires forall i :: 0 <= i < |t| ==> name[i] == t[i] as int && (t[i] == '.' || 'a' <= t[i] <= 'z')
    ensures Lowered(s) == name <==> Spells(s, t)
  {
    if Lowered(s) == name {
      forall i | 0 <= i < |s| ensures s[i] == t[i] as int || ('a' <= t[i] <= 'z' && s[i] == t[i] as int - 32) {
        assert Lowered(s)[i] == ToLower(s[i]);
      }
    }
    if Spells(s, t) {
      forall i | 0 <= i < |s| ensures Lowered(s)[i] == name[i] {
      }
    }
  }

  /** The query asks for an address of the Internet (type 1, class 1 of section 3.2 of RFC 1035). */
  predicate AsksAddress(query: Bytes)
    requires Answerable(query)
  {
    Network16(QueryTail(query), 0) == 1 && Network16(QueryTail(query), 2) == 1
  }

  predicate AsksForUs(query: Bytes)
    requires Answerable(query)
  {
    var name := NameOf(QueryLabels(query));
    AsksAddress(query) && (Spells(name, "vlsos") || Spells(name, "vlsos.local"))
  }

  lemma AsksIff(query: Bytes)
    requires Answerable(query)
    ensures IsAddressQuery(QueryTail(query)) <==> AsksAddress(query)
    ensures IsAddressQuery(QueryTail(query)) && IsOurs(NameOf(QueryLabels(query))) <==> AsksForUs(query)
  {
    OursIff(NameOf(QueryLabels(query)));
    var tail := QueryTail(query);
    assert |tail| == 4;
    if AsksAddress(query) {
      assert tail == [0, 1, 0, 1];
    }
  }

  /**
   The header of every reply, as stored: the query's id and question count; response code 0 with
   one answer if the query asks for this host, 3 if it asks for another address, 4 if it does not
   ask for an address; and no further records.
   */
  lemma HeaderStates(query: Bytes)
    requires Answerable(query)
    ensures var h := ReplyHeader(query);
            && h[0] == query[0] && h[1] == query[1] && h[4] == query[4] && h[5] == query[5] && h[3] == 0x80
            && h[2] == (if AsksForUs(query) then 0 else if AsksAddress(query) then 3 else 4)
            && h[6] == (if AsksForUs(query) then 1 else 0) && h[7] == 0
            && h[8] == h[9] == h[10] == h[11] == 0
  {
    AsksIff(query);
    var name, tail := NameOf(QueryLabels(query)), QueryTail(query);
    StoredHeader(query, ReplyCode(name, tail), AnswerCount(name, tail));
  }

  lemma StoredHeader(query: Bytes, code: uint16, answers: uint16)
    requires |query| >= HEADER_BYTES && code < 0x10 && answers < 0x100
    ensures var h := Header(query, RESPONSE + code, answers);
            && h[0] == query[0] && h[1] == query[1] && h[4] == query[4] && h[5] == query[5]
            && h[2] == code && h[3] == 0x80 && h[6] == answers && h[7] == 0
            && h[8] == h[9] == h[10] == h[11] == 0
  {
  }

  /** A record as a receiver reads it at `at`, behind its name: type, class, time to live, length and data. */
  predicate IsRecord(msg: Bytes, at: nat, rtype: int, class_: int, ttl: int, data: Bytes) {
    && at + 10 + |data| == |msg|
    && Network16(msg, at) == rtype && Network16(msg, at + 2) == class_
    && 0x1_0000 * Network16(msg, at + 4) + Network16(msg, at + 6) == ttl
    && Network16(msg, at + 8) == |data| && msg[at + 10..] == data
  }

  lemma AnswerIsRecord(before: Bytes, ip: Bytes)
    requires |ip| == 4
    ensures IsRecord(before + AnswerTail(ip), |before|, 1, 1, 300, ip)
  {
    var msg, at := before + AnswerTail(ip), |before|;
    forall i | 0 <= i < 10 ensures msg[at + i] == AnswerTail(ip)[i] {
    }
    assert msg[at + 10..] == ip;
  }

  /** `body` reads as a question under a name of `labels`, with its type and class, and holds nothing else. */
  predicate IsQuestion(body: Bytes, labels: seq<Bytes>, tail: Bytes) {
    && Parse(body) == Some(labels)
    && |body| == |Wire(labels)| + 4 && body[|Wire(labels)|..] == tail
  }

  /** `body` reads as such a question, and then one record under the same name. */
  predicate IsAnswered(body: Bytes, labels: seq<Bytes>, tail: Bytes, rtype: int, class_: int, ttl: int, data: Bytes) {
    var w := |Wire(labels)|;
    && |body| >= w + 4 && IsQuestion(body[..w + 4], labels, tail)
    && Parse(body[w + 4..]) == Some(labels) && IsRecord(body[w + 4..], w, rtype, class_, ttl, data)
  }

  lemma QuestionReads(labels: seq<Bytes>, tail: Bytes)
    requires Proper(labels) && |tail| == 4
    ensures IsQuestion(Wire(labels) + tail, labels, tail)
  {
    ParseOfWire(labels, tail);
  }

  lemma RecordReads(labels: seq<Bytes>, question: Bytes, tail: Bytes, ip: Bytes, body: Bytes)
    requires Proper(labels) && |tail| == |ip| == 4 && question == Wire(labels) + tail
    requires body == question + (Wire(labels) + AnswerTail(ip))
    ensures IsAnswered(body, labels, tail, 1, 1, 300, ip)
  {
    QuestionReads(labels, tail);
    assert body[..|Wire(labels)| + 4] == question;
    assert body[|Wire(labels)| + 4..] == Wire(labels) + AnswerTail(ip);
    ParseOfWire(labels, AnswerTail(ip));
    AnswerIsRecord(Wire(labels), ip);
  }

  /**
   A query for this host's address is answered: the body reads as the question, and then a
   record of type 1 and class 1 under the same name, to live 300 seconds, with the address.
   Every other reply is the question alone.
   */
  lemma AnswerReads(query: Bytes, ip: Bytes)
    requires Answerable(query) && |ip| == 4
    ensures var labels := Labels(NameOf(QueryLabels(query)));
            if AsksForUs(query) then IsAnswered(ReplyBody(query, ip), labels, QueryTail(query), 1, 1, 300, ip)
            else IsQuestion(ReplyBody(query, ip), labels, QueryTail(query))
  {
    var name, tail := NameOf(QueryLabels(query)), QueryTail(query);
    BeforeShort(Dotted(QueryLabels(query)), 0);
    LabelsShape(name);
    AsksIff(query);
    if AsksForUs(query) {
      RecordReads(Labels(name), Wire(Labels(name)) + tail, tail, ip, ReplyBody(query, ip));
    } else {
      QuestionReads(Labels(name), tail);
    }
  }

  lemma BeforeShort(s: Bytes, stop: byte)
    ensures |Before(s, stop)| <= |s|
  {
  }

  /** The reply never outgrows its 512-byte buffer. */
  lemma ReplyFits(query: Bytes, ip: Bytes)
    requires Answerable(query) && |ip| == 4
    ensures |Wire(Labels(NameOf(QueryLabels(query))))| <= 257
    ensures 12 + |ReplyBody(query, ip)| <= 512
  {
    var labels := QueryLabels(query);
    var name := NameOf(labels);
    BeforeShort(Dotted(labels), 0);
    WireLength(name);
  }

  /** A question without dots or NULs in its labels is echoed byte for byte, and only such a question is. */
  lemma QuestionEchoedIff(query: Bytes)
    requires Answerable(query)
    ensures var labels := QueryLabels(query);
            Wire(Labels(NameOf(labels))) <= query[HEADER_BYTES..] && |Wire(Labels(NameOf(labels)))| == |Wire(labels)|
            <==> Free(labels, DOT) && Free(labels, 0)
  {
    var labels, q := QueryLabels(query), query[HEADER_BYTES..];
    WireOfParse(q);
    EncodeOfDecodeIff(labels);
    var w, w' := Wire(labels), Wire(Labels(NameOf(labels)));
    if w' <= q && |w'| == |w| {
      assert w' == q[..|w|] == w;
    }
  }

  /** Writes `d` at index `at`, after what stands before it. */
  method Put(out: array<byte>, at: nat, d: Bytes) returns (end: nat)
    requires at + |d| <= out.Length
    modifies out
    ensures end == at + |d| && out[..end] == old(out[..at]) + d
  {
    Memory.Memcpy(out, at, d);
    end := at + |d|;
  }

  /** Decodes the question's name; the bytes it takes and its C string, or -1. */
  method ReadName(query: Bytes) returns (consumed: int, name: Bytes)
    requires |query| >= HEADER_BYTES
    ensures consumed == -1 <==> Decoded(query[HEADER_BYTES..], MAX_QNAME) == None
    ensures consumed != -1 ==>
              var labels := Decoded(query[HEADER_BYTES..], MAX_QNAME).value;
              consumed == |Wire(labels)| && name == NameOf(labels)
  {
    var qname := new byte[MAX_QNAME];
    consumed := DecodeQname(query[HEADER_BYTES..], qname);
    if consumed == -1 {
      return -1, [];
    }
    name := CString(qname[..]);
    BufferHolds(qname[..], Dotted(Decoded(query[HEADER_BYTES..], MAX_QNAME).value));
  }

  /** Writes a name and what follows it after what stands before `at`. */
  method PutNamed(out: array<byte>, at: nat, name: Bytes, d: Bytes) returns (end: nat)
    requires at + |Wire(Labels(name))| + |d| <= out.Length
    modifies out
    ensures end == at + |Wire(Labels(name))| + |d|
    ensures out[..end] == old(out[..at]) + (Wire(Labels(name)) + d)
  {
    ghost var before := out[..at];
    var n := EncodeQname(name, out, at);
    end := Put(out, at + n, d);
    Associate(before, Wire(Labels(name)), d);
  }

  /** The name, and the type and class, of a query that gets a reply. */
  method ReadQuestion(query: Bytes) returns (r: Option<(Bytes, Bytes)>)
    ensures r.Some? <==> Answerable(query)
    ensures r.Some? ==> r.value == (NameOf(QueryLabels(query)), QueryTail(query))
  {
    if |query| < HEADER_BYTES {
      return None;
    }
    var consumed, name := ReadName(query);
    if consumed < 0 || HEADER_BYTES + consumed + 4 > |query| {
      return None;
    }
    r := Some((name, query[HEADER_BYTES + consumed..HEADER_BYTES + consumed + 4]));
  }

  /** Builds the reply in a 512-byte buffer and returns its length, or -1; every write stays inside. */
  method Reply(query: Bytes, ip: Bytes) returns (resp: array<byte>, len: int)
    requires |query| <= BUFFER_BYTES && |ip| == 4
    ensures fresh(resp) && resp.Length == BUFFER_BYTES
    ensures len == -1 <==> !Answerable(query)
    ensures len != -1 ==>
              && len == HEADER_BYTES + |ReplyBody(query, ip)| <= BUFFER_BYTES
              && resp[..len] == ReplyHeader(query) + ReplyBody(query, ip)
  {
    resp := new byte[BUFFER_BYTES](_ => 0);
    var question := ReadQuestion(query);
    if question.None? {
      return resp, -1;
    }
    var name, tail := question.value.0, question.value.1;
    ReplyFits(query, ip);
    len := WriteBody(resp, name, tail, ip);
    ghost var rest := resp[HEADER_BYTES..];
    assert rest[..len - HEADER_BYTES] == ReplyBody(query, ip);
    WriteHeader(resp, query, RESPONSE + ReplyCode(name, tail), AnswerCount(name, tail));
    HeaderAndBody(resp[..], len, ReplyHeader(query), rest);
  }

  lemma HeaderAndBody(out: Bytes, len: int, header: Bytes, rest: Bytes)
    requires |out| == |header| + |rest| && |header| <= len <= |out|
    requires out[..|header|] == header && out[|header|..] == rest
    ensures out[..len] == header + rest[..len - |header|]
  {
  }

  method WriteHeader(resp: array<byte>, query: Bytes, flags: uint16, answers: uint16)
    requires resp.Length >= HEADER_BYTES && |query| >= HEADER_BYTES
    modifies resp
    ensures resp[..HEADER_BYTES] == Header(query, flags, answers)
    ensures resp[HEADER_BYTES..] == old(resp[HEADER_BYTES..])
  {
    resp[0], resp[1], resp[2], resp[3] := query[0], query[1], flags % 0x100, flags / 0x100;
    resp[4], resp[5], resp[6], resp[7] := query[4], query[5], answers % 0x100, answers / 0x100;
    resp[8], resp[9], resp[10], resp[11] := 0, 0, 0, 0;
  }

  method WriteBody(resp: array<byte>, name: Bytes, tail: Bytes, ip: Bytes) returns (len: nat)
    requires HEADER_BYTES + |QuestionAndAnswer(name, tail, ip)| <= resp.Length
    modifies resp
    ensures len == HEADER_BYTES + |QuestionAndAnswer(name, tail, ip)|
    ensures resp[HEADER_BYTES..len] == QuestionAndAnswer(name, tail, ip)
  {
    ghost var header := resp[..HEADER_BYTES];
    len := PutNamed(resp, HEADER_BYTES, name, tail);
    if IsAddressQuery(tail) && IsOurs(name) {
      len := PutNamed(resp, len, name, AnswerTail(ip));
      Associate(header, Wire(Labels(name)) + tail, Wire(Labels(name)) + AnswerTail(ip));
    }
    assert resp[..len] == header + QuestionAndAnswer(name, tail, ip);
  }
}
