/** Number printing and parsing of `string.c`, on ASCII bytes. */
module Numbers {
  import opened Machine

  const ZERO := 0x30
  const LOWER_A := 0x61
  const MINUS := 0x2D
  const PLUS := 0x2B
  const INT_MAX := 0x7FFF_FFFF
  const INT_MIN := -0x8000_0000
  const SCRATCH_BYTES := 33

  /** What a signed 32-bit register holds of a result: the machine wraps where C leaves overflow open. */
  function Signed32(x: int): (v: int)
    ensures INT_MIN <= v <= INT_MAX
    ensures INT_MIN <= x <= INT_MAX ==> v == x
  {
    (x - INT_MIN) % U32 + INT_MIN
  }

  /** Wrapping now or later makes no difference. */
  lemma WrapLater(x: int, y: int, k: int)
    requires y == Signed32(x)
    ensures Signed32(10 * y + k) == Signed32(10 * x + k)
    ensures Signed32(-y) == Signed32(-x)
  {
    var q := (x - INT_MIN) / U32;
    assert x == y + U32 * q;
    ShiftWraps(10 * y + k, 10 * q);
    ShiftWraps(-y, -q);
  }

  lemma ShiftWraps(x: int, q: int)
    ensures Signed32(x + U32 * q) == Signed32(x)
  {
    var z := x - INT_MIN;
    var d := z / U32;
    assert z + U32 * q == U32 * (d + q) + z % U32;
    assert (z + U32 * q) / U32 == d + q;
  }

  // ---------- Digits and what they denote ----------

  function DigitChar(d: int): (c: byte)
    requires 0 <= d < 36
  {
    if d < 10 then ZERO + d else LOWER_A + d - 10
  }

  function DigitValue(c: byte): (d: int) {
    if c < LOWER_A then c - ZERO else c - LOWER_A + 10
  }

  /** The number that a string of digits denotes in a base. */
  function Value(s: Bytes, base: int): (v: int) {
    if s == [] then 0 else Value(s[..|s| - 1], base) * base + DigitValue(s[|s| - 1])
  }

  /** The digits of `n`, most significant first; none for zero. */
  function Digits(n: nat, base: nat): (s: Bytes)
    requires 2 <= base <= 36
  {
    if n == 0 then [] else
      QuotientSmaller(n, base);
      Digits(n / base, base) + [DigitChar(n % base)]
  }

  lemma QuotientSmaller(n: nat, base: nat)
    requires n > 0 && base >= 2
    ensures 0 <= n / base < n && 0 <= n % base < base && n == n / base * base + n % base
    ensures n / base <= n / 2
  {
    var q := n / base;
    assert n == base * q + n % base;
    TwiceBelow(base, q);
  }

  lemma TwiceBelow(base: nat, q: nat)
    requires base >= 2
    ensures base * q >= 2 * q
  {
  }

  /** The text of a number: a sign, and its digits without leading zeros, or a single zero. */
  function Text(value: int, base: nat): (s: Bytes)
    requires 2 <= base <= 36
  {
    if value < 0 then [MINUS] + Digits(-value, base)
    else if value == 0 then [ZERO]
    else Digits(value, base)
  }

  predicate AreDigits(s: Bytes, base: int) {
    forall i :: 0 <= i < |s| ==> exists d :: 0 <= d < base && d < 36 && s[i] == DigitChar(d)
  }

  /** The digits denote the number, and do not begin with a zero. */
  lemma {:induction false} DigitsDenote(n: nat, base: nat)
    requires 2 <= base <= 36
    ensures Value(Digits(n, base), base) == n
    ensures AreDigits(Digits(n, base), base)
    ensures n > 0 ==> Digits(n, base) != [] && Digits(n, base)[0] != ZERO
  {
    if n > 0 {
      QuotientSmaller(n, base);
      DigitsDenote(n / base, base);
      var s := Digits(n, base);
      assert s[..|s| - 1] == Digits(n / base, base);
    }
  }

  /** The number of binary digits bounds the number of digits in any base. */
  lemma {:induction false} DigitsLength(n: nat, base: nat, k: nat)
    requires 2 <= base <= 36 && n < Power2(k)
    ensures |Digits(n, base)| <= k
  {
    if n > 0 {
      QuotientSmaller(n, base);
      DigitsLength(n / base, base, k - 1);
    }
  }

  function Power2(k: nat): (p: nat)
    ensures p >= 1
  {
    if k == 0 then 1 else 2 * Power2(k - 1)
  }

  lemma Power2Of31()
    ensures Power2(31) == 0x8000_0000
  {
    assert Power2(8) == 0x100;
    assert Power2(16) == 0x1_0000;
    assert Power2(24) == 0x100_0000;
  }

  /** Every 32-bit number but the least prints in at most 31 digits, so the scratch buffer suffices. */
  lemma DigitsFitScratch(n: nat, base: nat)
    requires 2 <= base <= 36 && n <= INT_MAX
    ensures |Digits(n, base)| <= 31 < 33 == SCRATCH_BYTES
  {
    Power2Of31();
    DigitsLength(n, base, 31);
  }

  // ---------- Printing ----------

  function Reversed(s: Bytes): (r: Bytes)
    ensures |r| == |s|
  {
    if s == [] then [] else [s[|s| - 1]] + Reversed(s[..|s| - 1])
  }

  lemma ReversedPrefix(s: Bytes, i: nat)
    requires i < |s|
    ensures Reversed(s[..i + 1]) == [s[i]] + Reversed(s[..i])
  {
    assert s[..i + 1][..i] == s[..i];
  }

  /** Fills the scratch buffer with the digits of `n`, least significant first. */
  method FillScratch(n: nat, base: nat, scratch: array<byte>) returns (len: nat)
    requires 2 <= base <= 36 && n <= INT_MAX && scratch.Length == SCRATCH_BYTES
    modifies scratch
    ensures len <= SCRATCH_BYTES && Reversed(scratch[..len]) == Digits(n, base)
  {
    DigitsFitScratch(n, base);
    var value := n;
    len := 0;
    while value > 0
      invariant 0 <= value && len <= SCRATCH_BYTES
      invariant Digits(n, base) == Digits(value, base) + Reversed(scratch[..len])
      decreases value
    {
      QuotientSmaller(value, base);
      ghost var before := scratch[..len];
      scratch[len] := DigitChar(value % base);
      assert scratch[..len + 1][..len] == before;
      len := len + 1;
      value := value / base;
    }
  }

  lemma MoveOne(a: Bytes, c: byte, b: Bytes, a': Bytes)
    requires a' == a + [c]
    ensures a' + b == a + ([c] + b)
  {
  }

  /** Appends the digits of `n` to what stands in `str` before `p`. */
  method EmitDigits(n: nat, base: nat, str: array<byte>, p: nat) returns (end: nat)
    requires 2 <= base <= 36 && n <= INT_MAX && p + |Digits(n, base)| <= str.Length
    modifies str
    ensures end == p + |Digits(n, base)| && str[..end] == old(str[..p]) + Digits(n, base)
  {
    var scratch := new byte[SCRATCH_BYTES];
    var len := FillScratch(n, base, scratch);
    ghost var digits, front := Digits(n, base), str[..p];
    var i := len;
    end := p;
    while i > 0
      invariant 0 <= i <= len && end == p + (len - i)
      invariant str[..end] + Reversed(scratch[..i]) == front + digits
    {
      i := i - 1;
      ReversedPrefix(scratch[..], i);
      assert scratch[..][..i + 1] == scratch[..i + 1] && scratch[..][..i] == scratch[..i];
      ghost var before := str[..end];
      str[end] := scratch[i];
      end := end + 1;
      MoveOne(before, scratch[i], Reversed(scratch[..i]), str[..end]);
    }
    assert Reversed(scratch[..0]) == [];
  }

  /** What `itoa` writes.  The least number stays negative when its sign is turned, and gets no digits. */
  function Printed(value: int, base: nat): (s: Bytes)
    requires 2 <= base <= 36
  {
    if value == INT_MIN then [MINUS] else Text(value, base)
  }

  /** Every 32-bit number but the least is printed right. */
  lemma PrintedRightIff(value: int, base: nat)
    requires 2 <= base <= 36 && INT_MIN <= value <= INT_MAX
    ensures Printed(value, base) == Text(value, base) <==> value != INT_MIN
  {
    if value == INT_MIN {
      DigitsDenote(-value, base);
    }
  }

  /**
   Prints a number into `str`, with a NUL after it; a base out of range leaves `str` alone.
   C defines every step exactly if the number is not the least, whose negation does not fit.
   */
  method Itoa(value: int, str: array<byte>, base: int) returns (ghost defined: bool)
    requires INT_MIN <= value <= INT_MAX
    requires 2 <= base <= 36 ==> |Printed(value, base)| < str.Length
    modifies str
    ensures !(2 <= base <= 36) ==> str[..] == old(str[..])
    ensures 2 <= base <= 36 ==>
              str[..|Printed(value, base)|] == Printed(value, base) && str[|Printed(value, base)|] == 0
    ensures defined <==> !(2 <= base <= 36) || value != INT_MIN
  {
    defined := true;
    if base < 2 || base > 36 {
      return;
    }
    var p, v := 0, value;
    if v < 0 {
      str[0] := MINUS;
      defined := InRange(-v);
      p, v := 1, Signed32(-v);
    }
    ghost var front := str[..p];
    assert front == if value < 0 then [MINUS] else [];
    if v == 0 {
      str[p] := ZERO;
      p := p + 1;
    } else if v > 0 {
      p := EmitDigits(v, base, str, p);
    }
    assert str[..p] == Printed(value, base);
    str[p] := 0;
  }

  // ---------- Parsing ----------

  predicate IsSpace(c: byte) {
    c == 0x20 || c == 0x09 || c == 0x0A || c == 0x0D || c == 0x0C || c == 0x0B
  }

  predicate IsDigit(c: byte) {
    0x30 <= c <= 0x39
  }

  /** The index after the spaces from `i` on. */
  function AfterSpaces(s: Bytes, i: nat): (j: nat)
    requires i <= |s|
    ensures i <= j <= |s|
    decreases |s| - i
  {
    if i < |s| && IsSpace(s[i]) then AfterSpaces(s, i + 1) else i
  }

  /** The index after the decimal digits from `i` on. */
  function AfterDigits(s: Bytes, i: nat): (j: nat)
    requires i <= |s|
    ensures i <= j <= |s|
    decreases |s| - i
  {
    if i < |s| && IsDigit(s[i]) then AfterDigits(s, i + 1) else i
  }

  /** Whether a sign stands behind the spaces. */
  predicate Signed(s: Bytes) {
    var i := AfterSpaces(s, 0);
    i < |s| && (s[i] == MINUS || s[i] == PLUS)
  }

  predicate Negative(s: Bytes) {
    Signed(s) && s[AfterSpaces(s, 0)] == MINUS
  }

  /** The digits that `atoi` reads: those behind the spaces and a sign. */
  function ReadDigits(s: Bytes): (digits: Bytes) {
    var j := AfterSpaces(s, 0) + if Signed(s) then 1 else 0;
    s[j..AfterDigits(s, j)]
  }

  /** The number that `atoi` reads. */
  function Read(s: Bytes): (v: int) {
    var magnitude := Value(ReadDigits(s), 10);
    if Negative(s) then -magnitude else magnitude
  }

  predicate AllDigits(s: Bytes) {
    forall i :: 0 <= i < |s| ==> IsDigit(s[i])
  }

  /** No sum of the digit loop over `digits` leaves the range of `int`. */
  ghost predicate SumsFit(digits: Bytes) {
    forall k :: 0 <= k < |digits| ==> 10 * Value(digits[..k], 10) + (digits[k] - ZERO) <= INT_MAX
  }

  /** One digit more. */
  lemma ValueStep(digits: Bytes, k: nat)
    requires AllDigits(digits) && k < |digits|
    ensures Value(digits[..k + 1], 10) == 10 * Value(digits[..k], 10) + (digits[k] - ZERO)
  {
    assert digits[..k + 1][..k] == digits[..k];
  }

  lemma {:induction false} ValueGrows(digits: Bytes, j: nat, k: nat)
    requires AllDigits(digits) && j <= k <= |digits|
    ensures 0 <= Value(digits[..j], 10) <= Value(digits[..k], 10)
    decreases k
  {
    if k > 0 {
      ValueStep(digits, k - 1);
      ValueGrows(digits, if j < k then j else k - 1, k - 1);
    }
  }

  /** The sums of the loop all fit exactly if the last one, the number itself, does. */
  lemma SumsFitIff(digits: Bytes)
    requires AllDigits(digits)
    ensures SumsFit(digits) <==> Value(digits, 10) <= INT_MAX
  {
    var n := |digits|;
    assert digits[..n] == digits;
    if Value(digits, 10) <= INT_MAX {
      forall k | 0 <= k < n ensures 10 * Value(digits[..k], 10) + (digits[k] - ZERO) <= INT_MAX {
        ValueStep(digits, k);
        ValueGrows(digits, k + 1, n);
      }
    }
    if SumsFit(digits) && n > 0 {
      ValueStep(digits, n - 1);
    }
  }

  /** Whether the loop goes on without overflow is decided by its next sum. */
  lemma SumsFitStep(digits: Bytes, k: nat)
    requires AllDigits(digits) && k < |digits|
    ensures SumsFit(digits[..k + 1]) <==>
              SumsFit(digits[..k]) && 10 * Value(digits[..k], 10) + (digits[k] - ZERO) <= INT_MAX
  {
    var more, less := digits[..k + 1], digits[..k];
    forall i | 0 <= i <= k ensures more[..i] == digits[..i] && more[i] == digits[i] {
    }
    forall i | 0 <= i < k ensures less[..i] == digits[..i] && less[i] == digits[i] {
    }
    if SumsFit(more) {
      assert 10 * Value(more[..k], 10) + (more[k] - ZERO) <= INT_MAX;
      forall i | 0 <= i < k ensures 10 * Value(less[..i], 10) + (less[i] - ZERO) <= INT_MAX {
        assert 10 * Value(more[..i], 10) + (more[i] - ZERO) <= INT_MAX;
      }
    }
    if SumsFit(less) && 10 * Value(less, 10) + (digits[k] - ZERO) <= INT_MAX {
      forall i | 0 <= i <= k ensures 10 * Value(more[..i], 10) + (more[i] - ZERO) <= INT_MAX {
        if i < k {
          assert 10 * Value(less[..i], 10) + (less[i] - ZERO) <= INT_MAX;
        }
      }
    }
  }

  lemma {:induction false} DigitRun(s: Bytes, j: nat, k: nat)
    requires j <= |s| && j <= k <= AfterDigits(s, j)
    ensures AfterDigits(s, k) == AfterDigits(s, j)
    ensures forall i :: j <= i < k ==> IsDigit(s[i])
    decreases k - j
  {
    if j < k {
      DigitRun(s, j + 1, k);
    }
  }

  lemma ReadDigitsAreDigits(s: Bytes)
    ensures AllDigits(ReadDigits(s))
  {
    var j := AfterSpaces(s, 0) + if Signed(s) then 1 else 0;
    DigitRun(s, j, AfterDigits(s, j));
  }

  /** For which strings no sum overflows: exactly those that spell a number other than the least that fits an `int`. */
  lemma NoOverflowIff(s: Bytes)
    ensures SumsFit(ReadDigits(s)) <==> -INT_MAX <= Read(s) <= INT_MAX
  {
    var digits := ReadDigits(s);
    ReadDigitsAreDigits(s);
    SumsFitIff(digits);
    ValueGrows(digits, 0, |digits|);
    assert digits[..|digits|] == digits;
  }

  predicate InRange(x: int) {
    INT_MIN <= x <= INT_MAX
  }

  /** The state of the digit loop after `k` digits; `defined` says that C has defined every result so far. */
  ghost predicate Parsing(digits: Bytes, k: nat, result: int, defined: bool) {
    && k <= |digits| && result == Signed32(Value(digits[..k], 10))
    && (defined <==> SumsFit(digits[..k]))
    && (defined ==> result == Value(digits[..k], 10))
  }

  lemma ParsingTurn(digits: Bytes, k: nat, result: int, defined: bool, d: int, result': int, defined': bool)
    requires AllDigits(digits) && Parsing(digits, k, result, defined) && k < |digits| && d == digits[k] - ZERO
    requires result' == Signed32(result * 10 + d)
    requires defined' == (defined && InRange(result * 10) && InRange(result * 10 + d))
    ensures Parsing(digits, k + 1, result', defined')
  {
    ValueStep(digits, k);
    ValueGrows(digits, 0, k);
    SumsFitStep(digits, k);
    WrapLater(Value(digits[..k], 10), result, d);
    assert 0 <= d <= 9;
  }

  lemma ParsingStart(digits: Bytes)
    ensures Parsing(digits, 0, 0, true)
  {
    assert digits[..0] == [];
  }

  lemma ParsingDone(digits: Bytes, result: int, defined: bool)
    requires Parsing(digits, |digits|, result, defined)
    ensures result == Signed32(Value(digits, 10)) && (defined <==> SumsFit(digits))
    ensures defined ==> result == Value(digits, 10)
  {
    assert digits[..|digits|] == digits;
  }

  /** A digit before the end of the digits is one of them. */
  lemma DigitAt(s: Bytes, j: nat, i: nat, e: nat, digits: Bytes)
    requires j <= i < |s| && IsDigit(s[i]) && AfterDigits(s, i) == e && digits == s[j..e]
    ensures i < e && AfterDigits(s, i + 1) == e && i - j < |digits| && digits[i - j] == s[i]
  {
  }

  /** Reads the digits from `j` on, in 32 bits. */
  method ParseDigits(s: Bytes, j: nat) returns (result: int, ghost defined: bool)
    requires j <= |s|
    ensures result == Signed32(Value(s[j..AfterDigits(s, j)], 10))
    ensures defined <==> SumsFit(s[j..AfterDigits(s, j)])
    ensures defined ==> result == Value(s[j..AfterDigits(s, j)], 10)
  {
    ghost var e := AfterDigits(s, j);
    ghost var digits := s[j..e];
    DigitRun(s, j, e);
    assert AllDigits(digits);
    ParsingStart(digits);
    var i := j;
    result, defined := 0, true;
    while i < |s| && IsDigit(s[i])
      invariant j <= i <= e && AfterDigits(s, i) == e
      invariant Parsing(digits, i - j, result, defined)
      decreases |s| - i
    {
      var d := s[i] - ZERO;
      ghost var before, defined' := result, defined && InRange(result * 10) && InRange(result * 10 + d);
      result := Signed32(result * 10 + d);
      DigitAt(s, j, i, e, digits);
      ParsingTurn(digits, i - j, before, defined, d, result, defined');
      defined := defined';
      i := i + 1;
    }
    ParsingDone(digits, result, defined);
  }

  /**
   Parses the C string `s`: the number it spells, in 32 bits.  C defines every step of it, and
   the result is the number itself, exactly if the number fits an `int` and is not the least.
   */
  method Atoi(s: Bytes) returns (r: int, ghost defined: bool)
    ensures r == Signed32(Read(s))
    ensures defined <==> -INT_MAX <= Read(s) <= INT_MAX
    ensures defined ==> r == Read(s)
  {
    var i := 0;
    while i < |s| && IsSpace(s[i])
      invariant 0 <= i <= |s| && AfterSpaces(s, i) == AfterSpaces(s, 0)
    {
      i := i + 1;
    }
    var sign := 1;
    if i < |s| && s[i] == MINUS {
      sign := -1;
      i := i + 1;
    } else if i < |s| && s[i] == PLUS {
      i := i + 1;
    }
    var result;
    result, defined := ParseDigits(s, i);
    ghost var digits := ReadDigits(s);
    assert digits == s[i..AfterDigits(s, i)];
    assert sign == if Negative(s) then -1 else 1;
    SignApplied(s, result, defined, sign);
    defined := defined && InRange(result * sign);
    r := Signed32(result * sign);
  }

  lemma SignApplied(s: Bytes, result: int, defined: bool, sign: int)
    requires sign == if Negative(s) then -1 else 1
    requires result == Signed32(Value(ReadDigits(s), 10))
    requires (defined <==> SumsFit(ReadDigits(s))) && (defined ==> result == Value(ReadDigits(s), 10))
    ensures Signed32(result * sign) == Signed32(Read(s))
    ensures defined && InRange(result * sign) <==> -INT_MAX <= Read(s) <= INT_MAX
    ensures defined ==> result * sign == Read(s)
  {
    NoOverflowIff(s);
    WrapLater(Value(ReadDigits(s), 10), result, 0);
  }

  // ---------- What is read ----------

  /** The six white-space characters: space, and tab to carriage return. */
  predicate White(c: byte) {
    c == 0x20 || 0x09 <= c <= 0x0D
  }

  lemma {:induction false} SpacesSkipped(spaces: Bytes, rest: Bytes, i: nat)
    requires i <= |spaces| && forall k :: 0 <= k < |spaces| ==> White(spaces[k])
    requires rest == [] || !White(rest[0])
    ensures AfterSpaces(spaces + rest, i) == |spaces|
    decreases |spaces| - i
  {
    if i < |spaces| {
      SpacesSkipped(spaces, rest, i + 1);
    }
  }

  lemma {:induction false} DigitsTaken(before: Bytes, digits: Bytes, rest: Bytes, i: nat)
    requires i <= |digits| && AllDigits(digits) && (rest == [] || !IsDigit(rest[0]))
    ensures AfterDigits(before + digits + rest, |before| + i) == |before + digits|
    decreases |digits| - i
  {
    var s := before + digits + rest;
    if i < |digits| {
      assert s[|before| + i] == digits[i];
      DigitsTaken(before, digits, rest, i + 1);
    }
  }

  /** The sign that stands behind the spaces, if there is one. */
  lemma SignAt(s: Bytes, n: nat)
    requires AfterSpaces(s, 0) == n
    ensures Signed(s) <==> n < |s| && (s[n] == '+' as int || s[n] == '-' as int)
    ensures Negative(s) <==> n < |s| && s[n] == '-' as int
  {
  }

  lemma ReadAt(s: Bytes, j: nat, e: nat, digits: Bytes)
    requires j == AfterSpaces(s, 0) + (if Signed(s) then 1 else 0) && e == AfterDigits(s, j) && s[j..e] == digits
    ensures Read(s) == if Negative(s) then -Value(digits, 10) else Value(digits, 10)
  {
  }

  /**
   The number in a string: behind white space, an optional sign and digits, up to the first
   character that is no digit.
   */
  lemma ReadOfShape(spaces: Bytes, sign: Bytes, digits: Bytes, rest: Bytes)
    requires forall k :: 0 <= k < |spaces| ==> White(spaces[k])
    requires sign == [] || sign == ['+' as int] || sign == ['-' as int]
    requires AllDigits(digits) && (rest == [] || !IsDigit(rest[0]))
    requires sign + digits == [] && rest != [] ==> !White(rest[0]) && rest[0] != '+' as int && rest[0] != '-' as int
    ensures Read(spaces + sign + digits + rest)
            == if sign == ['-' as int] then -Value(digits, 10) else Value(digits, 10)
  {
    var s, behind, before, n := spaces + sign + digits + rest, sign + digits + rest, spaces + sign, |spaces|;
    assert s == spaces + behind && s == before + digits + rest;
    FirstBehind(sign, digits, rest, behind);
    SpacesSkipped(spaces, behind, 0);
    SignAt(s, n);
    assert n < |s| ==> s[n] == behind[0];
    DigitsTaken(before, digits, rest, 0);
    ReadAt(s, |before|, |before + digits|, digits);
  }

  lemma FirstBehind(sign: Bytes, digits: Bytes, rest: Bytes, behind: Bytes)
    requires behind == sign + digits + rest && AllDigits(digits)
    requires sign == [] || sign == ['+' as int] || sign == ['-' as int]
    requires sign + digits == [] && rest != [] ==> !White(rest[0]) && rest[0] != '+' as int && rest[0] != '-' as int
    ensures behind != [] ==> !White(behind[0])
    ensures sign == ['+' as int] <==> behind != [] && behind[0] == '+' as int
    ensures sign == ['-' as int] <==> behind != [] && behind[0] == '-' as int
  {
    if sign == [] && digits != [] {
      assert behind[0] == digits[0];
    } else if sign == [] && rest != [] {
      assert behind[0] == rest[0];
    }
  }

  /** The digits are those of the alphabet, in order. */
  lemma DigitAlphabet(d: nat)
    requires d < 36
    ensures DigitChar(d) == "0123456789abcdefghijklmnopqrstuvwxyz"[d] as int
    ensures DigitValue(DigitChar(d)) == d
  {
  }

  /** The text of a number in any base: a minus sign exactly if it is negative, and digits that denote it. */
  lemma TextDenotes(v: int, base: nat)
    requires 2 <= base <= 36
    ensures var s := Text(v, base);
            && s != [] && (s[0] == '-' as int <==> v < 0)
            && (v < 0 ==> Value(s[1..], base) == -v) && (v >= 0 ==> Value(s, base) == v)
            && (s[0] == '0' as int ==> v == 0)
  {
    var n := if v < 0 then -v else v;
    DigitsDenote(n, base);
    NoMinus(Digits(n, base), base);
    if v < 0 {
      assert Text(v, base)[1..] == Digits(n, base);
    } else if v == 0 {
      assert Value([ZERO][..0], base) == 0;
    }
  }

  // ---------- Round trip ----------

  lemma {:induction false} AfterAllDigits(s: Bytes, i: nat)
    requires i <= |s| && forall k :: i <= k < |s| ==> IsDigit(s[k])
    ensures AfterDigits(s, i) == |s|
    decreases |s| - i
  {
    if i < |s| {
      AfterAllDigits(s, i + 1);
    }
  }

  lemma ReadOfDigits(s: Bytes)
    requires s != [] && AllDigits(s)
    ensures ReadDigits(s) == s && Read(s) == Value(s, 10)
  {
    AfterAllDigits(s, 0);
    assert AfterSpaces(s, 0) == 0 && !Signed(s);
    assert s[0..|s|] == s;
  }

  lemma ReadOfSigned(s: Bytes, t: Bytes)
    requires s != [] && AllDigits(s) && t == [MINUS] + s
    ensures ReadDigits(t) == s && Read(t) == -Value(s, 10)
  {
    AfterAllDigits(t, 1);
    assert AfterSpaces(t, 0) == 0 && Negative(t);
    assert t[1..|t|] == s;
  }

  lemma DecimalDigits(s: Bytes, base: nat)
    requires base == 10 && AreDigits(s, base)
    ensures AllDigits(s)
  {
  }

  /** Parsing inverts printing in base ten, for every number. */
  lemma ReadOfText(v: int)
    ensures Read(Text(v, 10)) == v
  {
    var base: nat := 10;
    ReadOfTextIn(v, base);
  }

  lemma ReadOfTextIn(v: int, base: nat)
    requires base == 10
    ensures Read(Text(v, base)) == v
  {
    if v == 0 {
      ReadOfDigits([ZERO]);
      assert Value([ZERO], 10) == 0;
    } else {
      var n := if v < 0 then -v else v;
      DigitsDenote(n, base);
      DecimalDigits(Digits(n, base), base);
      if v < 0 {
        ReadOfSigned(Digits(n, base), Text(v, base));
      } else {
        ReadOfDigits(Digits(n, base));
      }
    }
  }

  /**
   Printing a 32-bit number in base ten and parsing it again gives it back, without overflow
   in any sum of the parser, exactly if it is not the least.
   */
  lemma RoundTripIff(v: int)
    requires INT_MIN <= v <= INT_MAX
    ensures SumsFit(ReadDigits(Printed(v, 10))) && Read(Printed(v, 10)) == v <==> v != INT_MIN
  {
    ReadOfText(v);
    NoOverflowIff(Printed(v, 10));
    if v == INT_MIN {
      BareSign([MINUS]);
    }
  }

  lemma BareSign(s: Bytes)
    requires s == [MINUS]
    ensures Read(s) == 0
  {
    assert AfterSpaces(s, 0) == 0 && Signed(s);
    assert AfterDigits(s, 1) == 1;
    assert ReadDigits(s) == [];
  }

  /** "-2147483648" spells the least number; the last sum of the loop is 2147483648 and overflows. */
  lemma LeastOverflows(s: Bytes)
    requires s == [MINUS, 0x32, 0x31, 0x34, 0x37, 0x34, 0x38, 0x33, 0x36, 0x34, 0x38]
    ensures Read(s) == INT_MIN && !SumsFit(ReadDigits(s))
  {
    var digits := s[1..];
    assert AllDigits(digits);
    assert s == [MINUS] + digits;
    ReadOfSigned(digits, s);
    LeastDigits(digits);
    SumsFitIff(digits);
  }

  lemma FiveDigits(digits: Bytes, k: nat)
    requires AllDigits(digits) && k + 5 <= |digits|
    ensures Value(digits[..k + 5], 10) ==
            100000 * Value(digits[..k], 10) + 10000 * (digits[k] - ZERO) + 1000 * (digits[k + 1] - ZERO)
            + 100 * (digits[k + 2] - ZERO) + 10 * (digits[k + 3] - ZERO) + (digits[k + 4] - ZERO)
  {
    ValueStep(digits, k);
    ValueStep(digits, k + 1);
    ValueStep(digits, k + 2);
    ValueStep(digits, k + 3);
    ValueStep(digits, k + 4);
  }

  lemma LeastDigits(digits: Bytes)
    requires digits == [0x32, 0x31, 0x34, 0x37, 0x34, 0x38, 0x33, 0x36, 0x34, 0x38]
    ensures Value(digits, 10) == 2147483648
  {
    assert digits[..0] == [] && digits[..10] == digits;
    FiveDigits(digits, 0);
    FiveDigits(digits, 5);
  }

  /** Numbers that print alike in a base are equal. */
  lemma TextInjective(v: int, w: int, base: nat)
    requires 2 <= base <= 36 && Text(v, base) == Text(w, base)
    ensures v == w
  {
    var n, m := if v < 0 then -v else v, if w < 0 then -w else w;
    DigitsDenote(n, base);
    DigitsDenote(m, base);
    NoMinus(Digits(n, base), base);
    NoMinus(Digits(m, base), base);
    if v < 0 && w < 0 {
      assert Digits(n, base) == Text(v, base)[1..];
      assert Digits(m, base) == Text(w, base)[1..];
    }
  }

  lemma NoMinus(s: Bytes, base: nat)
    requires AreDigits(s, base)
    ensures s != [] ==> s[0] != MINUS
  {
  }
}
