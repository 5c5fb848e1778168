/** C strings, and the comparison of `string.c`. */
module Strings {
  import opened Machine

  /** The bytes of `s` before the first one equal to `stop`. */
  function Before(s: seq<byte>, stop: byte): (r: seq<byte>)
    ensures |r| <= |s| && r == s[..|r|]
    ensures |r| < |s| ==> s[|r|] == stop
  {
    if s == [] || s[0] == stop then [] else [s[0]] + Before(s[1..], stop)
  }

  lemma {:induction false} BeforeFree(s: seq<byte>, stop: byte)
    ensures stop !in Before(s, stop)
  {
    if s != [] && s[0] != stop {
      BeforeFree(s[1..], stop);
    }
  }

  /** The C string that a NUL-terminated buffer holds. */
  function CString(s: seq<byte>): (r: seq<byte>)
    ensures 0 !in r
  {
    BeforeFree(s, 0);
    Before(s, 0)
  }

  const DOT := 0x2E

  function SignedChar(b: byte): (v: int) {
    if b < 0x80 then b else b - 0x100
  }

  /** The first character of a C string, its terminator if it is empty. */
  function First(s: seq<byte>): (v: int) {
    if s == [] then 0 else SignedChar(s[0])
  }

  /** How far two C strings are apart at the first place where they differ. */
  function Difference(s: seq<byte>, t: seq<byte>): (d: int)
    requires 0 !in s && 0 !in t
    ensures d == 0 <==> s == t
  {
    if s == [] || t == [] || s[0] != t[0] then First(s) - First(t)
    else
      assert s == [s[0]] + s[1..] && t == [t[0]] + t[1..];
      Difference(s[1..], t[1..])
  }

  /** A byte read as a signed character: the number of eight bits in two's complement. */
  lemma SignedCharIs(b: byte)
    ensures -128 <= SignedChar(b) <= 127 && (SignedChar(b) - b) % 256 == 0
  {
  }

  /** `s` comes before `t` in the order of the dictionary: at the first difference it has ended or is smaller. */
  predicate Precedes(s: seq<byte>, t: seq<byte>) {
    exists i :: 0 <= i <= |s| && PrecedesAt(s, t, i)
  }

  predicate PrecedesAt(s: seq<byte>, t: seq<byte>, i: nat)
    requires i <= |s|
  {
    i < |t| && s[..i] == t[..i] && (i == |s| || s[i] < t[i])
  }

  predicate Ascii(s: seq<byte>) {
    forall i :: 0 <= i < |s| ==> 0 < s[i] < 0x80
  }

  /** On ASCII strings the comparison is negative exactly if the first comes before the second. */
  lemma {:induction false} DifferenceOrders(s: seq<byte>, t: seq<byte>)
    requires Ascii(s) && Ascii(t)
    ensures 0 !in s && 0 !in t && (Difference(s, t) < 0 <==> Precedes(s, t))
  {
    if s != [] && t != [] && s[0] == t[0] {
      DifferenceOrders(s[1..], t[1..]);
      PrecedesTail(s, t);
    } else if t != [] && (s == [] || s[0] < t[0]) {
      assert PrecedesAt(s, t, 0);
    }
  }

  lemma PrecedesTail(s: seq<byte>, t: seq<byte>)
    requires s != [] && t != [] && s[0] == t[0]
    ensures Precedes(s, t) <==> Precedes(s[1..], t[1..])
  {
    if i :| 0 <= i <= |s| && PrecedesAt(s, t, i) {
      assert s[1..][..i - 1] == s[..i][1..] && t[1..][..i - 1] == t[..i][1..];
      assert PrecedesAt(s[1..], t[1..], i - 1);
    }
    if i :| 0 <= i <= |s[1..]| && PrecedesAt(s[1..], t[1..], i) {
      assert s[..i + 1] == [s[0]] + s[1..][..i] && t[..i + 1] == [t[0]] + t[1..][..i];
      assert PrecedesAt(s, t, i + 1);
    }
  }

  /** Where a buffer holds its terminator, and where it does not. */
  lemma TerminatorAt(s: seq<byte>, i: nat)
    requires 0 in s && i <= |CString(s)|
    ensures i < |s|
    ensures s[i] == 0 <==> CString(s)[i..] == []
    ensures s[i] == 0 || CString(s)[i..][0] == s[i]
  {
    var c := CString(s);
    assert c == s[..|c|];
    assert |c| < |s| by {
      assert |c| == |s| ==> c == s;
    }
  }

  /** `strcmp` is the difference of the two C strings, so zero exactly when they are equal. */
  method Strcmp(s: seq<byte>, t: seq<byte>) returns (r: int)
    requires 0 in s && 0 in t
    ensures r == Difference(CString(s), CString(t))
    ensures r == 0 <==> CString(s) == CString(t)
  {
    var i := 0;
    ghost var cs, ct := CString(s), CString(t);
    assert cs[0..] == cs && ct[0..] == ct;
    TerminatorAt(s, 0);
    TerminatorAt(t, 0);
    while s[i] != 0 && s[i] == t[i]
      invariant 0 <= i <= |cs| && i <= |ct| && i < |s| && i < |t|
      invariant Difference(cs, ct) == Difference(cs[i..], ct[i..])
      decreases |s| - i
    {
      TerminatorAt(s, i);
      TerminatorAt(t, i);
      assert cs[i..][1..] == cs[i + 1..] && ct[i..][1..] == ct[i + 1..];
      i := i + 1;
      TerminatorAt(s, i);
      TerminatorAt(t, i);
    }
    TerminatorAt(s, i);
    TerminatorAt(t, i);
    r := SignedChar(s[i]) - SignedChar(t[i]);
  }

  /** A string cut or padded with NULs to `n` bytes. */
  function Filled(s: seq<byte>, n: nat): (r: seq<byte>)
    ensures |r| == n
  {
    if |s| >= n then s[..n] else s + seq(n - |s|, _ => 0)
  }

  /** A field of `n` bytes holds a string shorter than that, and the terminator behind it. */
  lemma FilledHolds(s: seq<byte>, n: nat, t: seq<byte>)
    requires |s| < n && 0 !in s
    ensures CString(Filled(s, n) + t) == s
  {
    var rest := seq<byte>(n - |s| - 1, _ => 0) + t;
    assert Filled(s, n) + t == s + [0] + rest;
    BeforeAppend(s, rest, 0);
  }

  /**
   `strncpy` writes the first `n` bytes of the destination: the source, cut or padded, and no
   terminator of its own.
   */
  method Strncpy(dest: seq<byte>, src: seq<byte>, n: nat) returns (r: seq<byte>)
    requires n <= |dest| && 0 in src
    ensures r == Filled(CString(src), n) + dest[n..]
  {
    r := dest;
    var i := 0;
    ghost var c := CString(src);
    TerminatorAt(src, 0);
    while i < n && src[i] != 0
      invariant 0 <= i <= n && i <= |c| && i < |src|
      invariant |r| == |dest| && r[..i] == c[..i] && r[i..] == dest[i..]
    {
      TerminatorAt(src, i);
      r := r[i := src[i]];
      i := i + 1;
      assert r[..i] == c[..i - 1] + [c[i - 1]] && r[i..] == dest[i..];
      TerminatorAt(src, i);
    }
    TerminatorAt(src, i);
    assert i < n ==> c == c[..i];
    ghost var copied := i;
    while i < n
      invariant copied <= i <= n
      invariant |r| == |dest| && r[i..] == dest[i..]
      invariant r[..i] == c[..copied] + seq(i - copied, _ => 0)
    {
      ghost var before := r[..i];
      r := r[i := 0];
      i := i + 1;
      assert r[..i] == before + [0] && r[i..] == dest[i..];
    }
    assert r == r[..n] + r[n..];
  }

  lemma {:induction false} BeforeAppend(s: seq<byte>, t: seq<byte>, stop: byte)
    requires stop !in s
    ensures Before(s + [stop] + t, stop) == s
    ensures Before(s, stop) == s
  {
    if s == [] {
      assert s + [stop] + t == [stop] + t;
    } else {
      assert (s + [stop] + t)[1..] == s[1..] + [stop] + t;
      BeforeAppend(s[1..], t, stop);
    }
  }

  lemma {:induction false} BeforeCut(s: seq<byte>, t: seq<byte>, stop: byte)
    ensures Before(s + [stop] + t, stop) == Before(s, stop)
  {
    if s == [] {
      assert s + [stop] + t == [stop] + t;
    } else {
      assert (s + [stop] + t)[1..] == s[1..] + [stop] + t;
      BeforeCut(s[1..], t, stop);
    }
  }

  /** A buffer with a string and a NUL behind it holds that string as C reads it. */
  lemma BufferHolds(buffer: seq<byte>, s: seq<byte>)
    requires |s| < |buffer| && buffer[..|s|] == s && buffer[|s|] == 0
    ensures 0 in buffer && CString(buffer) == CString(s)
  {
    assert buffer == s + [0] + buffer[|s| + 1..];
    BeforeCut(s, buffer[|s| + 1..], 0);
  }
}
