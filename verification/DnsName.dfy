/**
 The domain-name codec of `dns.c`: the wire form of section 3.1 of RFC 1035, without
 the compression of section 4.1.4, and the dotted form.
 */
module DnsName {
  import opened Machine
  import opened Strings

  const MAX_QNAME := 256

  // ---------- The two forms of a list of labels ----------

  /** A label with its length, which is cut to a byte, before it. */
  function Prefixed(l: Bytes): (w: Bytes)
    ensures |w| == |l| + 1
  {
    [|l| % 0x100] + l
  }

  /** The wire form without its terminator. */
  function Body(labels: seq<Bytes>): (w: Bytes) {
    if labels == [] then [] else Prefixed(labels[0]) + Body(labels[1..])
  }

  function Wire(labels: seq<Bytes>): (w: Bytes) {
    Body(labels) + [0]
  }

  /** The labels joined by dots. */
  function Join(labels: seq<Bytes>): (s: Bytes) {
    if labels == [] then [] else if |labels| == 1 then labels[0] else labels[0] + [DOT] + Join(labels[1..])
  }

  /** The dotted name: the root is written as a single dot. */
  function Dotted(labels: seq<Bytes>): (s: Bytes) {
    if labels == [] then [DOT] else Join(labels)
  }

  /** Labels that a length byte can announce. */
  predicate Proper(labels: seq<Bytes>) {
    forall i :: 0 <= i < |labels| ==> 0 < |labels[i]| < 0x100
  }

  // ---------- Reading ----------

  /** The labels that a buffer starts with, if they are all there. */
  function Parse(buf: Bytes): (r: Option<seq<Bytes>>)
    ensures r.Some? ==> Proper(r.value)
  {
    if buf == [] then None
    else if buf[0] == 0 then Some([])
    else if 1 + buf[0] > |buf| then None
    else
      var rest := Parse(buf[1 + buf[0]..]);
      if rest.None? then None else Some([buf[1..1 + buf[0]]] + rest.value)
  }

  /** The output bound: a first label needs room for a dot it does not get. */
  predicate Fits(labels: seq<Bytes>, outlen: int) {
    labels == [] || (|Join(labels)| < outlen && |labels[0]| + 1 < outlen)
  }

  /** What decoding yields: the labels, if they are all there and their dotted form fits. */
  function Decoded(buf: Bytes, outlen: int): (r: Option<seq<Bytes>>) {
    var labels := Parse(buf);
    if labels.Some? && Fits(labels.value, outlen) then labels else None
  }

  // ---------- Writing ----------

  /** The index of the first dot, or the length. */
  function FirstDot(s: Bytes): (d: nat)
    ensures d <= |s|
  {
    |Before(s, DOT)|
  }

  lemma FirstDotIsDot(s: Bytes)
    ensures var d := FirstDot(s); DOT !in s[..d] && (d < |s| ==> s[d] == DOT)
  {
    BeforeFree(s, DOT);
  }

  /** The labels of a dotted name up to its first empty one. */
  function Labels(s: Bytes): (labels: seq<Bytes>)
    decreases |s|
  {
    var d := FirstDot(s);
    if d == 0 then [] else [s[..d]] + Labels(Rest(s))
  }

  /** What follows the first dot of a name. */
  function Rest(s: Bytes): (r: Bytes)
    ensures s != [] ==> |r| < |s|
  {
    var d := FirstDot(s);
    if d < |s| then s[d + 1..] else []
  }

  // ---------- Wire form and labels ----------

  lemma {:induction false} BodyAppend(a: seq<Bytes>, b: seq<Bytes>)
    ensures Body(a + b) == Body(a) + Body(b)
  {
    if a == [] {
      assert a + b == b;
    } else {
      assert (a + b)[1..] == a[1..] + b;
      BodyAppend(a[1..], b);
    }
  }

  /** Reading inverts writing, whatever follows. */
  lemma {:induction false} ParseOfWire(labels: seq<Bytes>, rest: Bytes)
    requires Proper(labels)
    ensures Parse(Wire(labels) + rest) == Some(labels)
  {
    var w := Wire(labels) + rest;
    if labels == [] {
      assert w[0] == 0;
    } else {
      var l, n := labels[0], |labels[0]|;
      assert w == [n] + l + (Wire(labels[1..]) + rest);
      assert w[0] == n && w[1..1 + n] == l && w[1 + n..] == Wire(labels[1..]) + rest;
      ParseOfWire(labels[1..], rest);
      assert [l] + labels[1..] == labels;
    }
  }

  /** Writing inverts reading: what was read is the wire form of what it yielded. */
  lemma {:induction false} WireOfParse(buf: Bytes)
    requires Parse(buf).Some?
    ensures Wire(Parse(buf).value) <= buf
    decreases |buf|
  {
    if buf[0] != 0 {
      var n := buf[0];
      WireOfParse(buf[1 + n..]);
      assert buf == [n] + buf[1..1 + n] + buf[1 + n..];
    }
  }

  /** Proper labels are determined by their wire form. */
  lemma WireInjective(a: seq<Bytes>, b: seq<Bytes>)
    requires Proper(a) && Proper(b) && Wire(a) == Wire(b)
    ensures a == b
  {
    ParseOfWire(a, []);
    ParseOfWire(b, []);
    assert Wire(a) + [] == Wire(b) + [];
  }

  // ---------- Dotted form and labels ----------

  predicate Free(labels: seq<Bytes>, c: byte) {
    forall i :: 0 <= i < |labels| ==> c !in labels[i]
  }

  lemma FirstDotOf(l: Bytes, s: Bytes)
    requires DOT !in l
    ensures FirstDot(l + [DOT] + s) == |l| && FirstDot(l) == |l|
  {
    BeforeAppend(l, s, DOT);
  }

  /** Labels without dots survive being joined and split. */
  lemma {:induction false} LabelsOfJoin(labels: seq<Bytes>)
    requires Proper(labels) && Free(labels, DOT)
    ensures Labels(Join(labels)) == labels
  {
    if labels != [] {
      var l, rest := labels[0], labels[1..];
      FirstDotOf(l, Join(rest));
      if rest == [] {
        assert Join(labels) == l && l[..|l|] == l;
        assert Labels([]) == [];
      } else {
        var s := Join(labels);
        assert s[..|l|] == l && s[|l| + 1..] == Join(rest);
        LabelsOfJoin(rest);
      }
    }
  }

  /** The labels split off a name are non-empty pieces of it without dots. */
  lemma {:induction false} LabelsShape(s: Bytes)
    ensures Free(Labels(s), DOT)
    ensures forall i :: 0 <= i < |Labels(s)| ==> 0 < |Labels(s)[i]| <= |s|
    ensures 0 !in s ==> Free(Labels(s), 0)
    decreases |s|
  {
    var d := FirstDot(s);
    FirstDotIsDot(s);
    if d > 0 {
      LabelsShape(Rest(s));
    }
  }

  /** The encoded form is at most two bytes longer than the name. */
  lemma {:induction false} WireLength(s: Bytes)
    ensures |Body(Labels(s))| <= |s| + 1
    ensures |Wire(Labels(s))| <= |s| + 2
    decreases |s|
  {
    var d := FirstDot(s);
    if d > 0 {
      WireLength(Rest(s));
      assert Labels(s)[1..] == Labels(Rest(s));
      if d == |s| {
        assert Labels([]) == [];
      }
    }
  }

  // ---------- Round trips ----------

  lemma {:induction false} JoinFree(labels: seq<Bytes>, c: byte)
    requires Free(labels, c) && c != DOT
    ensures c !in Join(labels)
  {
    if |labels| > 1 {
      JoinFree(labels[1..], c);
    }
  }

  lemma ParsePrefixed(l: Bytes, n: int, more: Bytes)
    requires n == |l| % 0x100 && n != 0 && Parse(Prefixed(l) + more).Some?
    ensures var read := Parse(Prefixed(l) + more).value;
            read != [] && read[0] == l[..n] && (n == |l| ==> Parse(more) == Some(read[1..]))
  {
    var w := Prefixed(l) + more;
    assert w[0] == n && w[1..1 + n] == l[..n];
    assert n == |l| ==> w[1 + n..] == more;
  }

  /** The first label as it is read back from the wire form: the part of it that its length byte tells. */
  lemma ParseFirst(labels: seq<Bytes>, rest: Bytes, read: seq<Bytes>, d: nat, n: nat)
    requires labels != [] && Parse(Wire(labels) + rest) == Some(read)
    requires d == |labels[0]| && n == d % 0x100
    ensures n == 0 ==> read == []
    ensures n > 0 ==> read != [] && read[0] == labels[0][..n]
    ensures 0 < n == d ==> Parse(Wire(labels[1..]) + rest) == Some(read[1..])
  {
    var l, more := labels[0], Wire(labels[1..]) + rest;
    assert Wire(labels) + rest == Prefixed(l) + more;
    if n != 0 {
      ParsePrefixed(l, n, more);
    }
  }

  /** A name that the labels read spell goes on behind its first label as they do. */
  lemma SpelledOn(s: Bytes, d: nat, read: seq<Bytes>)
    requires s <= Join(read) && read != [] && d < |s| && read[0] == s[..d] && s[d] == DOT
    ensures s[d + 1..] <= Join(read[1..])
  {
    assert |Join(read)| > d;
    assert Join(read)[d + 1..] == Join(read[1..]);
  }

  /**
   A piece of the first label would be followed by a dot or by nothing, so what spells the name
   has the label whole.
   */
  lemma SpelledWhole(s: Bytes, d: nat, n: nat, read: seq<Bytes>)
    requires s <= Join(read) && n <= d <= |s| && d > 0 && DOT !in s[..d]
    requires n == 0 ==> read == []
    requires n > 0 ==> read != [] && read[0] == s[..n]
    ensures n == d
  {
    forall i | 0 <= i < d ensures s[i] != DOT {
      assert s[i] in s[..d];
    }
    assert n > 0 ==> |Join(read)| == n || Join(read)[n] == DOT;
  }

  lemma LabelsTail(s: Bytes)
    requires FirstDot(s) > 0
    ensures Labels(s) != [] && Labels(s)[0] == s[..FirstDot(s)] && Labels(s)[1..] == Labels(Rest(s))
  {
  }

  /** If the labels read spell the name, the first of them is its first label. */
  lemma FirstLabelWhole(s: Bytes, labels: seq<Bytes>, rest: Bytes, read: seq<Bytes>, d: nat)
    requires d == FirstDot(s) > 0 && labels != [] && labels[0] == s[..d]
    requires Parse(Wire(labels) + rest) == Some(read) && s <= Join(read)
    ensures d < 0x100 && read != [] && read[0] == s[..d]
    ensures Parse(Wire(labels[1..]) + rest) == Some(read[1..])
  {
    var n := d % 0x100;
    ParseFirst(labels, rest, read, d, n);
    FirstDotIsDot(s);
    assert n <= d && labels[0][..n] == s[..n];
    SpelledWhole(s, d, n, read);
  }

  /** And the others spell the rest. */
  lemma FirstLabelRead(s: Bytes, rest: Bytes, read: seq<Bytes>)
    requires FirstDot(s) > 0
    requires Parse(Wire(Labels(s)) + rest) == Some(read) && s <= Join(read)
    ensures FirstDot(s) < 0x100 && read != []
    ensures Parse(Wire(Labels(Rest(s))) + rest) == Some(read[1..]) && Rest(s) <= Join(read[1..])
  {
    var d := FirstDot(s);
    LabelsTail(s);
    FirstLabelWhole(s, Labels(s), rest, read, d);
    if d < |s| {
      FirstDotIsDot(s);
      SpelledOn(s, d, read);
    }
  }

  /**
   A label whose length byte was cut is not read back: if the labels read from a name's wire
   form spell the name, or more than it, then all its labels had at most 255 bytes.
   */
  lemma {:induction false} ReadLabelsAreProper(s: Bytes, rest: Bytes, read: seq<Bytes>)
    requires Parse(Wire(Labels(s)) + rest) == Some(read) && s <= Join(read)
    ensures Proper(Labels(s))
    decreases |s|
  {
    if FirstDot(s) > 0 {
      FirstLabelRead(s, rest, read);
      ReadLabelsAreProper(Rest(s), rest, read[1..]);
    }
  }

  /**
   Encoding what was decoded gives back the bytes read, root included, if and only if no
   label holds a dot or a NUL.
   */
  lemma EncodeOfDecodeIff(labels: seq<Bytes>)
    requires Proper(labels)
    ensures Wire(Labels(CString(Dotted(labels)))) == Wire(labels) <==> Free(labels, DOT) && Free(labels, 0)
  {
    var s := CString(Dotted(labels));
    LabelsShape(s);
    if Wire(Labels(s)) == Wire(labels) {
      ParseOfWire(labels, []);
      if labels != [] {
        ReadLabelsAreProper(s, [], labels);
        WireInjective(Labels(s), labels);
      }
    }
    if Free(labels, DOT) && Free(labels, 0) {
      JoinFree(labels, 0);
      BeforeAppend(Dotted(labels), [], 0);
      LabelsOfJoin(labels);
    }
  }

  /** The one label "a.b" does not come back. */
  lemma DottedLabelSplits(labels: seq<Bytes>)
    requires labels == [[0x61, DOT, 0x62]]
    ensures Proper(labels) && Wire(Labels(CString(Dotted(labels)))) != Wire(labels)
  {
    assert labels[0][1] == DOT;
    EncodeOfDecodeIff(labels);
  }

  /** A name without empty labels: no dot at either end, and no two in a row. */
  predicate Canonical(s: Bytes) {
    && s != [] && s[0] != DOT && s[|s| - 1] != DOT
    && forall i :: 0 <= i < |s| - 1 ==> s[i] != DOT || s[i + 1] != DOT
  }

  lemma {:induction false} JoinOfLabels(s: Bytes)
    requires Canonical(s)
    ensures Labels(s) != [] && Join(Labels(s)) == s
    decreases |s|
  {
    var d := FirstDot(s);
    FirstDotIsDot(s);
    assert d > 0;
    if d == |s| {
      assert s[..d] == s;
      assert Labels(s) == [s] + Labels([]);
    } else {
      var rest := s[d + 1..];
      assert s == s[..d] + [DOT] + rest;
      CanonicalRest(s, d);
      JoinOfLabels(rest);
      assert Labels(s) == [s[..d]] + Labels(rest);
      assert Labels(s)[1..] == Labels(rest);
    }
  }

  lemma CanonicalRest(s: Bytes, d: nat)
    requires Canonical(s) && d < |s| && s[d] == DOT
    ensures Canonical(s[d + 1..])
  {
  }

  lemma {:induction false} JoinIsCanonical(labels: seq<Bytes>)
    requires labels != [] && Free(labels, DOT) && forall i :: 0 <= i < |labels| ==> labels[i] != []
    ensures Canonical(Join(labels))
  {
    var l := labels[0];
    assert l[0] in l && l[|l| - 1] in l;
    if |labels| == 1 {
      assert forall i :: 0 <= i < |l| ==> l[i] in l;
    } else {
      JoinIsCanonical(labels[1..]);
      var s, rest := Join(labels), Join(labels[1..]);
      forall i | 0 <= i < |s| - 1 ensures s[i] != DOT || s[i + 1] != DOT {
        if i < |l| {
          assert s[i] == l[i] && l[i] in l;
        } else if i > |l| {
          assert s[i] == rest[i - |l| - 1] && s[i + 1] == rest[i - |l|];
        } else {
          assert s[i + 1] == rest[0];
        }
      }
      assert s[0] == l[0] && s[|s| - 1] == rest[|rest| - 1];
    }
  }

  /** Splitting a name and joining it again gives it back exactly if it is the root or canonical. */
  lemma DottedOfLabelsIff(s: Bytes)
    ensures Dotted(Labels(s)) == s <==> s == [DOT] || Canonical(s)
  {
    LabelsShape(s);
    if s == [DOT] {
      assert FirstDot(s) == 0;
    }
    if Canonical(s) {
      JoinOfLabels(s);
    }
    if Dotted(Labels(s)) == s && Labels(s) != [] {
      JoinIsCanonical(Labels(s));
    }
  }

  /**
   Decoding what was encoded, into a buffer of any length, gives the name back if and only
   if it is the root or canonical, each of its labels has a length that fits its byte, and
   the decoder finds room for it.
   */
  lemma DecodeOfEncodeIff(s: Bytes, rest: Bytes, outlen: int)
    requires 0 !in s
    ensures var d := Decoded(Wire(Labels(s)) + rest, outlen);
            d.Some? && Dotted(d.value) == s
            <==> (s == [DOT] || Canonical(s)) && Proper(Labels(s)) && Fits(Labels(s), outlen)
  {
    var d := Decoded(Wire(Labels(s)) + rest, outlen);
    DottedOfLabelsIff(s);
    if d.Some? && Dotted(d.value) == s {
      if d.value == [] {
        assert Labels(s) == [];
      } else {
        ReadLabelsAreProper(s, rest, d.value);
        ParseOfWire(Labels(s), rest);
      }
    }
    if Proper(Labels(s)) {
      ParseOfWire(Labels(s), rest);
    }
  }

  lemma LabelsOfOne(l: Bytes)
    requires l != [] && DOT !in l
    ensures Labels(l) == [l] && Join([l]) == l
  {
    FirstDotOf(l, []);
    assert l[..|l|] == l;
    assert Labels([]) == [];
  }

  /** A label of 255 bytes, the longest there is, is refused for the 256-byte name buffer, which would hold it. */
  lemma LongestLabelRefused(l: Bytes, rest: Bytes)
    requires |l| == 255 && DOT !in l
    ensures Parse(Wire(Labels(l)) + rest) == Some([l]) && |Dotted([l])| < MAX_QNAME
    ensures Decoded(Wire(Labels(l)) + rest, MAX_QNAME) == None
    ensures Decoded(Wire(Labels(l)) + rest, MAX_QNAME + 1) == Some([l])
  {
    LabelsOfOne(l);
    ParseOfWire([l], rest);
  }

  /** A label of 256 bytes gets a length byte of zero, and the name reads as the root. */
  lemma OverlongLabelIsRoot(l: Bytes, rest: Bytes, outlen: int)
    requires |l| == 256 && DOT !in l
    ensures Decoded(Wire(Labels(l)) + rest, outlen) == Some([])
  {
    LabelsOfOne(l);
    assert (Wire([l]) + rest)[0] == 0;
  }
}
