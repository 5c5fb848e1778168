/**
 The Internet checksum of `net.c`: an unsigned 32-bit accumulator over the words of
 a buffer, a carry-folding loop, and a complement.  The reference is the
 one's-complement sum of sections 1 and 2 of RFC 1071.
 */
module Checksum {
  import opened Machine

  // ---------- The code's arithmetic ----------

  /** Exchanges the two bytes of a word. */
  function Htons(v: uint16): (r: uint16) {
    (v % 0x100) * 0x100 + v / 0x100
  }

  lemma HtonsTwice(v: uint16)
    ensures Htons(Htons(v)) == v
  {
    var hi, lo := v / 0x100, v % 0x100;
    assert Htons(v) / 0x100 == lo && Htons(v) % 0x100 == hi;
  }

  lemma HtonsComplement(v: uint16)
    ensures Htons(0xFFFF - v) == 0xFFFF - Htons(v)
  {
    var hi, lo := v / 0x100, v % 0x100;
    assert 0xFFFF - v == 0x100 * (0xFF - hi) + (0xFF - lo);
    assert (0xFFFF - v) / 0x100 == 0xFF - hi && (0xFFFF - v) % 0x100 == 0xFF - lo;
  }

  /** The accumulator after the words `ws`, with unsigned 32-bit wrap-around. */
  function Sum32(ws: seq<uint16>): (s: uint32) {
    if ws == [] then 0 else (Sum32(ws[..|ws| - 1]) + ws[|ws| - 1]) % U32
  }

  /** The words the code adds: a little-endian load followed by a byte swap. */
  function LoadedWords(data: seq<byte>): (ws: seq<uint16>)
    ensures |ws| == |data| / 2
  {
    seq(|data| / 2, i requires 0 <= i < |data| / 2 => Htons(Load16(data, 2 * i)))
  }

  /** The accumulator before folding; an odd last byte is added as a low byte. */
  function Accumulated(data: seq<byte>): (s: uint32) {
    var s := Sum32(LoadedWords(data));
    if |data| % 2 == 1 then (s + data[|data| - 1]) % U32 else s
  }

  /** One round of the carry loop. */
  function FoldOnce(s: uint32): (r: uint32) {
    s % 0x1_0000 + s / 0x1_0000
  }

  lemma FoldOnceBounds(s: uint32)
    requires s > 0xFFFF
    ensures 0 < FoldOnce(s) < s
    ensures FoldOnce(s) <= 0x1_FFFE
    ensures s <= 0x1_FFFE ==> FoldOnce(s) <= 0xFFFF
  {
  }

  lemma FoldOnceKeepsResidue(s: uint32)
    requires s > 0xFFFF
    ensures Norm(FoldOnce(s)) == Norm(s)
  {
    FoldOnceBounds(s);
    SameResidue(s - 1, FoldOnce(s) - 1, s / 0x1_0000);
  }

  /** The carry loop: it ends within two rounds, in the residue's representative. */
  method FoldCarries(s: uint32) returns (r: uint16, ghost rounds: nat)
    ensures r == Norm(s)
    ensures rounds <= 2
  {
    var sum := s;
    rounds := 0;
    while sum / 0x1_0000 != 0
      invariant Norm(sum) == Norm(s)
      invariant rounds <= 2
      invariant rounds == 1 ==> sum <= 0x1_FFFE
      invariant rounds == 2 ==> sum <= 0xFFFF
      decreases sum
    {
      FoldOnceBounds(sum);
      FoldOnceKeepsResidue(sum);
      sum := FoldOnce(sum);
      rounds := rounds + 1;
    }
    r := sum;
  }

  /** What `net_checksum` returns, as a function of the buffer. */
  function NetChecksum(data: seq<byte>): (c: uint16) {
    0xFFFF - Norm(Accumulated(data))
  }

  method ComputeChecksum(data: seq<byte>) returns (c: uint16, ghost rounds: nat)
    ensures c == NetChecksum(data)
    ensures rounds <= 2
  {
    var sum: uint32 := 0;
    var i := 0;
    ghost var ws := LoadedWords(data);
    while i < |data| / 2
      invariant 0 <= i <= |data| / 2
      invariant sum == Sum32(ws[..i])
    {
      assert ws[..i + 1][..i] == ws[..i];
      sum := (sum + Htons(Load16(data, 2 * i))) % U32;
      i := i + 1;
    }
    assert ws[..i] == ws;
    if |data| % 2 == 1 {
      sum := (sum + data[|data| - 1]) % U32;
    }
    var folded;
    folded, rounds := FoldCarries(sum);
    c := 0xFFFF - folded;
  }

  // ---------- The reference: RFC 1071 ----------

  /** One's-complement addition: the carry out of the top goes back in at the bottom. */
  function OnesAdd(a: uint16, b: uint16): (r: uint16) {
    if a + b > 0xFFFF then a + b - 0xFFFF else a + b
  }

  function OnesSum(ws: seq<uint16>): (s: uint16) {
    if ws == [] then 0 else OnesAdd(OnesSum(ws[..|ws| - 1]), ws[|ws| - 1])
  }

  function BigEndian(hi: int, lo: int): (w: int) {
    0x100 * hi + lo
  }

  /** The buffer as big-endian words, an odd last byte padded on the right with zero. */
  function RfcWords(data: seq<byte>): (ws: seq<uint16>)
    ensures |ws| == (|data| + 1) / 2
  {
    seq((|data| + 1) / 2, i requires 0 <= i < (|data| + 1) / 2 =>
      BigEndian(data[2 * i], if 2 * i + 1 < |data| then data[2 * i + 1] else 0))
  }

  function RfcChecksum(data: seq<byte>): (c: uint16) {
    0xFFFF - OnesSum(RfcWords(data))
  }

  // ---------- Plain sums and their residues ----------

  function Sum(ws: seq<uint16>): (s: nat) {
    if ws == [] then 0 else Sum(ws[..|ws| - 1]) + ws[|ws| - 1]
  }

  /** The representative of `s` modulo 65535 that carry folding ends in: 0 only for 0. */
  function Norm(s: nat): (r: uint16)
    ensures r % 0xFFFF == s % 0xFFFF
    ensures r == 0 <==> s == 0
  {
    if s == 0 then 0 else (s - 1) % 0xFFFF + 1
  }

  /** Two sums fold to the same word exactly when they agree modulo 65535 and on being zero. */
  lemma NormEqual(s: nat, t: nat)
    ensures Norm(s) == Norm(t) <==> s % 0xFFFF == t % 0xFFFF && (s == 0 <==> t == 0)
  {
  }

  lemma OnesAddIsNorm(s: nat, w: uint16)
    ensures OnesAdd(Norm(s), w) == Norm(s + w)
  {
    if s != 0 {
      var q, r := (s - 1) / 0xFFFF, (s - 1) % 0xFFFF;
      assert s + w - 1 == 0xFFFF * q + (r + w);
    }
  }

  lemma {:induction false} OnesSumIsNorm(ws: seq<uint16>)
    ensures OnesSum(ws) == Norm(Sum(ws))
  {
    if ws != [] {
      OnesSumIsNorm(ws[..|ws| - 1]);
      OnesAddIsNorm(Sum(ws[..|ws| - 1]), ws[|ws| - 1]);
    }
  }

  lemma {:induction false} Sum32Wraps(ws: seq<uint16>)
    ensures Sum32(ws) == Sum(ws) % U32
  {
    if ws != [] {
      Sum32Wraps(ws[..|ws| - 1]);
    }
  }

  lemma {:induction false} SumBound(ws: seq<uint16>)
    ensures Sum(ws) <= 0xFFFF * |ws|
  {
    if ws != [] {
      SumBound(ws[..|ws| - 1]);
    }
  }

  lemma {:induction false} SumUpdate(ws: seq<uint16>, k: nat, v: uint16)
    requires k < |ws|
    ensures Sum(ws[k := v]) == Sum(ws) - ws[k] + v
  {
    var n := |ws| - 1;
    if k == n {
      assert ws[k := v][..n] == ws[..n];
    } else {
      assert ws[k := v][..n] == ws[..n][k := v];
      SumUpdate(ws[..n], k, v);
    }
  }

  lemma LoadIsBigEndian(data: seq<byte>, off: nat)
    requires off + 1 < |data|
    ensures Htons(Load16(data, off)) == BigEndian(data[off], data[off + 1])
  {
  }

  /** The words loaded are the RFC's big-endian words, an odd last byte aside. */
  lemma LoadedAreRfcWords(data: seq<byte>)
    ensures LoadedWords(data) == RfcWords(data)[..|data| / 2]
  {
    forall i | 0 <= i < |data| / 2 ensures LoadedWords(data)[i] == RfcWords(data)[i] {
      LoadIsBigEndian(data, 2 * i);
    }
  }

  // ---------- Agreement with the RFC ----------

  lemma Sum32Exact(ws: seq<uint16>)
    requires |ws| <= 65537
    ensures Sum32(ws) == Sum(ws)
    ensures |ws| <= 65536 ==> Sum(ws) + 0xFF < U32
  {
    Sum32Wraps(ws);
    SumBound(ws);
  }

  /** What the code adds up: the words, and an odd last byte. */
  function Total(data: seq<byte>): (s: nat) {
    Sum(LoadedWords(data)) + if |data| % 2 == 1 then data[|data| - 1] else 0
  }

  /** Up to 65537 words the accumulator holds the true sum. */
  lemma NoOverflow(data: seq<byte>)
    requires |data| <= 2 * 65537
    ensures Accumulated(data) == Total(data)
  {
    Sum32Exact(LoadedWords(data));
  }

  /** Even-length buffers of at most 65537 words get the RFC's checksum. */
  lemma EvenAgreesWithRfc(data: seq<byte>)
    requires |data| % 2 == 0 && |data| <= 2 * 65537
    ensures NetChecksum(data) == RfcChecksum(data)
  {
    NoOverflow(data);
    RfcTotal(data);
  }

  /** An odd-length buffer gets the RFC's checksum exactly when its last byte is zero. */
  lemma OddAgreesIffLastZero(data: seq<byte>)
    requires |data| % 2 == 1 && |data| <= 2 * 65537
    ensures NetChecksum(data) == RfcChecksum(data) <==> data[|data| - 1] == 0
  {
    NoOverflow(data);
    RfcTotal(data);
    TailResidue(Sum(LoadedWords(data)), LastByte(data));
  }

  /** A single byte 1: the code adds 1, the RFC 0x0100. */
  lemma OddByteDisagrees(data: seq<byte>)
    requires data == [1]
    ensures NetChecksum(data) == 0xFFFE && RfcChecksum(data) == 0xFEFF
  {
    NoOverflow(data);
    RfcTotal(data);
    assert LoadedWords(data) == [];
  }

  lemma TailResidue(s: nat, b: nat)
    requires b < 0x100
    ensures Norm(s + b) == Norm(s + 0x100 * b) <==> b == 0
  {
  }

  /** The odd last byte, which the RFC takes as a high byte and the code as a low one. */
  function LastByte(data: seq<byte>): (b: int) {
    if |data| % 2 == 1 then data[|data| - 1] else 0
  }

  lemma RfcSum(data: seq<byte>, ws: seq<uint16>)
    requires ws == RfcWords(data)
    ensures Sum(ws) == Total(data) + 0xFF * LastByte(data)
  {
    LoadedAreRfcWords(data);
    if |data| % 2 == 1 {
      assert ws[..|ws| - 1] == LoadedWords(data);
      assert ws[|ws| - 1] == 0x100 * LastByte(data);
    } else {
      assert ws == LoadedWords(data);
    }
  }

  lemma RfcTotal(data: seq<byte>)
    ensures RfcChecksum(data) == 0xFFFF - Norm(Total(data) + 0xFF * LastByte(data))
  {
    RfcSum(data, RfcWords(data));
    OnesSumIsNorm(RfcWords(data));
  }

  lemma WrappedResidue(s: nat, x: nat)
    ensures (s % U32) % 0xFFFF == (s + x) % 0xFFFF <==> (s / U32 + x) % 0xFFFF == 0
  {
    var q, r := s / U32, s % U32;
    assert s + x == r + (q + x) + 0xFFFF * (65537 * q);
    SameResidue(s + x, r + (q + x), 65537 * q);
    ResidueOfSum(r, q + x);
  }

  lemma ResidueOfSum(r: nat, y: nat)
    ensures (r + y) % 0xFFFF == r % 0xFFFF <==> y % 0xFFFF == 0
  {
  }

  /**
   The exact condition, for every buffer: what the accumulator has lost by wrapping and what
   the odd byte has lost by its place cancel modulo 65535, and no sum but zero has wrapped to zero.
   */
  lemma AgreesIff(data: seq<byte>)
    ensures NetChecksum(data) == RfcChecksum(data) <==>
              && (Total(data) / U32 + 0xFF * LastByte(data)) % 0xFFFF == 0
              && (Total(data) % U32 == 0 ==> Total(data) == 0)
  {
    AccumulatedWraps(data);
    RfcTotal(data);
    NormsAgreeIff(Total(data), 0xFF * LastByte(data));
  }

  lemma NormsAgreeIff(s: nat, x: nat)
    requires s == 0 ==> x == 0
    ensures Norm(s % U32) == Norm(s + x) <==> (s / U32 + x) % 0xFFFF == 0 && (s % U32 == 0 ==> s == 0)
  {
    NormEqual(s % U32, s + x);
    WrappedResidue(s, x);
  }

  /** `n` words of all ones followed by `m` zero words. */
  function Saturated(n: nat, m: nat): (data: seq<byte>)
    ensures |data| == 2 * n + 2 * m
  {
    seq(2 * n, _ => 0xFF) + seq(2 * m, _ => 0)
  }

  lemma {:induction false} SumSaturated(ws: seq<uint16>, n: nat)
    requires n <= |ws|
    requires forall k :: 0 <= k < |ws| ==> ws[k] == if k < n then 0xFFFF else 0
    ensures Sum(ws) == 0xFFFF * n
  {
    if ws != [] {
      SumSaturated(ws[..|ws| - 1], if n == |ws| then n - 1 else n);
    }
  }

  /** The bound is exact: for even lengths, RFC agreement on every buffer holds up to 65537 words and no further. */
  lemma AgreementBoundIsExact(n: nat)
    ensures (forall data: seq<byte> :: |data| == 2 * n ==> NetChecksum(data) == RfcChecksum(data))
            <==> n <= 65537
  {
    if n <= 65537 {
      forall data: seq<byte> | |data| == 2 * n ensures NetChecksum(data) == RfcChecksum(data) {
        EvenAgreesWithRfc(data);
      }
    } else {
      var full: nat := 65538;
      SaturatedSums(full, n - full);
      OverflowDisagrees(Saturated(full, n - full));
    }
  }

  lemma SaturatedSums(n: nat, m: nat)
    ensures Sum(LoadedWords(Saturated(n, m))) == 0xFFFF * n
  {
    var data := Saturated(n, m);
    forall k | 0 <= k < n + m
      ensures LoadedWords(data)[k] == if k < n then 0xFFFF else 0
    {
      assert Load16(data, 2 * k) == if k < n then 0xFFFF else 0;
    }
    SumSaturated(LoadedWords(data), n);
  }

  lemma OverflowResidues(s: nat)
    requires s == 0xFFFF * 65538
    ensures s % U32 == 65534 && Norm(65534) == 65534 && Norm(s) == 0xFFFF
  {
  }

  lemma OverflowDisagrees(data: seq<byte>)
    requires |data| % 2 == 0
    requires Sum(LoadedWords(data)) == 0xFFFF * 65538
    ensures NetChecksum(data) == 1 && RfcChecksum(data) == 0
  {
    var ws := LoadedWords(data);
    assert RfcWords(data) == ws by { LoadedAreRfcWords(data); }
    Sum32Wraps(ws);
    OnesSumIsNorm(ws);
    OverflowResidues(Sum(ws));
  }

  // ---------- Self-verification ----------

  /** The accumulator is the true sum in 32 bits. */
  lemma AccumulatedWraps(data: seq<byte>)
    ensures Accumulated(data) == Total(data) % U32
  {
    Sum32Wraps(LoadedWords(data));
    if |data| % 2 == 1 {
      WrapThenAdd(Sum(LoadedWords(data)), data[|data| - 1]);
    }
  }

  lemma WrapThenAdd(s: nat, v: nat)
    ensures (s % U32 + v) % U32 == (s + v) % U32
  {
    assert s + v == U32 * (s / U32) + (s % U32 + v);
    assert (s + v) / U32 == s / U32 + (s % U32 + v) / U32;
  }

  lemma WordsAfterStore(data: seq<byte>, k: nat, v: uint16)
    requires 2 * k + 1 < |data|
    ensures LoadedWords(Store16(data, 2 * k, v)) == LoadedWords(data)[k := Htons(v)]
    ensures data[2 * k] == data[2 * k + 1] == 0 ==> LoadedWords(data)[k] == 0
  {
  }

  lemma SumAfterUpdate(ws: seq<uint16>, vs: seq<uint16>, k: nat, v: uint16)
    requires k < |ws| && vs == ws[k := v] && ws[k] == 0
    ensures Sum(vs) == Sum(ws) + v
  {
    SumUpdate(ws, k, v);
  }

  /** Storing `v` over a zero field adds the swapped `v` to the accumulator. */
  lemma AccumulatedAfterStore(data: seq<byte>, off: nat, v: uint16, h: uint16)
    requires off % 2 == 0 && off + 1 < |data| && data[off] == data[off + 1] == 0 && h == Htons(v)
    ensures Accumulated(Store16(data, off, v)) == (Accumulated(data) + h) % U32
  {
    var d := Store16(data, off, v);
    TotalAfterStore(data, off / 2, v, off, d);
    AccumulatedWraps(data);
    AccumulatedWraps(d);
    WrapThenAdd(Total(data), Htons(v));
  }

  lemma TotalAfterStore(data: seq<byte>, k: nat, v: uint16, off: nat, d: seq<byte>)
    requires off == 2 * k && off + 1 < |data| && d == Store16(data, off, v) && data[off] == data[off + 1] == 0
    ensures Total(d) == Total(data) + Htons(v)
  {
    var ws, vs := LoadedWords(data), LoadedWords(d);
    WordsAfterStore(data, k, v);
    SumAfterUpdate(ws, vs, k, Htons(v));
    assert |data| % 2 == 1 ==> d[|data| - 1] == data[|data| - 1];
  }

  lemma NormOfMultiple(m: nat)
    requires m > 0
    ensures Norm(0xFFFF * m) == 0xFFFF
  {
    assert 0xFFFF * m - 1 == 0xFFFF * (m - 1) + 0xFFFE;
  }

  /** Adding the complement of the folded sum fills the sum up to a multiple of 65535, which 32 bits hold. */
  lemma ComplementFills(s: uint32, c: uint16)
    requires c == 0xFFFF - Norm(s)
    ensures s + c < U32 && Norm((s + c) % U32) == 0xFFFF
  {
    var m := if s == 0 then 1 else (s - 1) / 0xFFFF + 1;
    assert s + c == 0xFFFF * m && m <= 65537;
    NormOfMultiple(m);
  }

  /** A checksum stored in network order over the zeroed field makes the buffer verify, whatever its length. */
  lemma SelfVerifies(data: seq<byte>, off: nat)
    requires off % 2 == 0 && off + 1 < |data| && data[off] == data[off + 1] == 0
    ensures NetChecksum(Store16(data, off, Htons(NetChecksum(data)))) == 0
  {
    var c := NetChecksum(data);
    ComplementFills(Accumulated(data), c);
    HtonsTwice(c);
    AccumulatedAfterStore(data, off, Htons(c), c);
  }

  /** `s + c` folds to all ones exactly when `c` is the complement of folded `s`, up to the two zeros. */
  lemma NormComplement(s: nat, c: uint16)
    ensures Norm(s + c) == 0xFFFF <==>
            c == 0xFFFF - Norm(s) || (Norm(s) == 0xFFFF && c == 0xFFFF)
  {
  }

  /** In 32 bits a word added to `s` folds it to all ones exactly if it is the complement: a sum that wraps does not. */
  lemma FillsIff(s: uint32, h: uint16)
    requires Norm(s) == 0xFFFF ==> h != 0xFFFF
    ensures Norm((s + h) % U32) == 0xFFFF <==> h == 0xFFFF - Norm(s)
  {
    ComplementFills(s, 0xFFFF - Norm(s));
    if s + h < U32 {
      NormComplement(s, h);
    } else {
      assert (s + h) % U32 == s + h - U32 < 0xFFFF;
      NormOfWord((s + h) % U32);
    }
  }

  /**
   The senders in ip.c, icmp.c and tcp.c store the result without a byte swap.  The
   packet, of whatever length, then verifies exactly when the two bytes of the checksum are equal.
   */
  lemma HostOrderVerifiesIff(data: seq<byte>, off: nat)
    requires off % 2 == 0 && off + 1 < |data| && data[off] == data[off + 1] == 0
    ensures NetChecksum(Store16(data, off, NetChecksum(data))) == 0
            <==> NetChecksum(data) / 0x100 == NetChecksum(data) % 0x100
  {
    var c := NetChecksum(data);
    AccumulatedAfterStore(data, off, c, Htons(c));
    FillsIff(Accumulated(data), Htons(c));
  }

  /** A zero field and the word 1: the checksum is 0xFFFE, and stored without the swap it does not verify. */
  lemma HostOrderFails(data: seq<byte>)
    requires data == [0, 0, 0, 1]
    ensures NetChecksum(data) == 0xFFFE && NetChecksum(Store16(data, 0, NetChecksum(data))) != 0
  {
    var ws := LoadedWords(data);
    assert ws == [0, 1];
    var first := ws[..|ws| - 1];
    assert first == [0] && first[..|first| - 1] == [];
    assert Sum32(first) == 0;
    assert Sum32(ws) == 1;
    HostOrderVerifiesIff(data, 0);
  }

  // ---------- Symmetries ----------

  lemma {:induction false} SumRemove(ws: seq<uint16>, k: nat)
    requires k < |ws|
    ensures Sum(ws) == Sum(ws[..k] + ws[k + 1..]) + ws[k]
  {
    var n := |ws| - 1;
    var rest := ws[..k] + ws[k + 1..];
    if k == n {
      assert rest == ws[..n];
    } else {
      SumRemove(ws[..n], k);
      assert ws[..n][..k] == ws[..k] && ws[..n][k + 1..] == ws[k + 1..n];
      assert rest[..n - 1] == ws[..k] + ws[k + 1..n];
      assert rest[n - 1] == ws[n];
    }
  }

  /** Taking one occurrence out of a sequence takes it out of its multiset. */
  lemma RemovedOne(vs: seq<uint16>, k: nat, rest: seq<uint16>)
    requires k < |vs| && rest == vs[..k] + vs[k + 1..]
    ensures multiset(rest) == multiset(vs) - multiset{vs[k]}
  {
    assert vs == vs[..k] + [vs[k]] + vs[k + 1..];
    assert multiset(vs) == multiset(rest) + multiset{vs[k]};
  }

  lemma {:induction false} SumPermuted(ws: seq<uint16>, vs: seq<uint16>)
    requires multiset(ws) == multiset(vs)
    ensures Sum(ws) == Sum(vs)
    decreases |ws|
  {
    if ws == [] {
      assert |vs| == |multiset(vs)| == 0;
    } else {
      var n := |ws| - 1;
      var w := ws[n];
      assert w in multiset(vs);
      var k :| 0 <= k < |vs| && vs[k] == w;
      var rest := vs[..k] + vs[k + 1..];
      RemovedOne(vs, k, rest);
      assert ws[..n] == ws[..n] + ws[n + 1..];
      RemovedOne(ws, n, ws[..n]);
      SumPermuted(ws[..n], rest);
      SumRemove(vs, k);
    }
  }

  /** Reordering the words of a buffer of any even length leaves the checksum unchanged. */
  lemma PermutationInvariant(data: seq<byte>, other: seq<byte>)
    requires |data| % 2 == 0 && |other| % 2 == 0
    requires multiset(LoadedWords(data)) == multiset(LoadedWords(other))
    ensures NetChecksum(data) == NetChecksum(other)
  {
    SumPermuted(LoadedWords(data), LoadedWords(other));
    Sum32Wraps(LoadedWords(data));
    Sum32Wraps(LoadedWords(other));
  }

  /** The buffer with the two bytes of every word exchanged. */
  function SwapWords(data: seq<byte>): (r: seq<byte>)
    requires |data| % 2 == 0
    ensures |r| == |data|
  {
    seq(|data|, i requires 0 <= i < |data| => if i % 2 == 0 then data[i + 1] else data[i - 1])
  }

  lemma {:induction false} SumSwapped(ws: seq<uint16>, vs: seq<uint16>) returns (q: nat)
    requires |ws| == |vs| && forall k :: 0 <= k < |ws| ==> vs[k] == Htons(ws[k])
    ensures Sum(vs) + 0xFFFF * q == 0x100 * Sum(ws)
    ensures Sum(vs) == 0 <==> Sum(ws) == 0
  {
    if ws == [] {
      q := 0;
    } else {
      var n := |ws| - 1;
      q := SumSwapped(ws[..n], vs[..n]);
      q := q + ws[n] / 0x100;
      HtonsResidue(ws[n]);
    }
  }

  lemma HtonsResidue(v: uint16)
    ensures Htons(v) + 0xFFFF * (v / 0x100) == 0x100 * v as int
    ensures Htons(v) == 0 <==> v == 0
  {
  }

  /** Byte order independence (section 2 of RFC 1071): swapping every word swaps the checksum. */
  lemma ByteOrderIndependent(data: seq<byte>)
    requires |data| % 2 == 0 && |data| <= 2 * 65537
    ensures NetChecksum(SwapWords(data)) == Htons(NetChecksum(data))
  {
    var ws, vs := LoadedWords(data), LoadedWords(SwapWords(data));
    SwappedLoads(data);
    var q := SumSwapped(ws, vs);
    SameResidue(0x100 * Sum(ws), Sum(vs), q);
    Sum32Exact(ws);
    Sum32Exact(vs);
    SwappedWhen(data, Sum(ws), Sum(vs));
  }

  /** The swap law for two accumulators `s` and `t`, before and after the exchange. */
  lemma SwappedWhen(data: seq<byte>, s: uint32, t: uint32)
    requires |data| % 2 == 0
    requires s == Sum32(LoadedWords(data)) && t == Sum32(LoadedWords(SwapWords(data)))
    ensures NetChecksum(SwapWords(data)) == Htons(NetChecksum(data)) <==>
              t % 0xFFFF == (0x100 * s) % 0xFFFF && (t == 0 <==> s == 0)
  {
    NormSwapped(s, t);
  }

  lemma SwappedWraps(s: nat, t: nat, q: nat)
    requires t + 0xFFFF * q == 0x100 * s
    ensures (t % U32) % 0xFFFF == (0x100 * (s % U32)) % 0xFFFF <==>
              (t / U32) % 0xFFFF == (0x100 * (s / U32)) % 0xFFFF
  {
    var a, b, r, u := s / U32, t / U32, s % U32, t % U32;
    var k := q + 65537 * b - 0x100 * 65537 * a;
    assert u + b + 0xFFFF * k == 0x100 * r + 0x100 * a;
    ResiduesBalance(u, b, 0x100 * r, 0x100 * a, k);
  }

  lemma ResiduesBalance(u: int, b: int, x: int, y: int, k: int)
    requires u + b + 0xFFFF * k == x + y
    ensures u % 0xFFFF == x % 0xFFFF <==> b % 0xFFFF == y % 0xFFFF
  {
  }

  /** The exact condition, for every even length: both accumulators have lost alike, and are zero together. */
  lemma ByteOrderIff(data: seq<byte>)
    requires |data| % 2 == 0
    ensures var s, t := Sum(LoadedWords(data)), Sum(LoadedWords(SwapWords(data)));
            NetChecksum(SwapWords(data)) == Htons(NetChecksum(data)) <==>
              && (t / U32) % 0xFFFF == (0x100 * (s / U32)) % 0xFFFF
              && (t % U32 == 0 <==> s % U32 == 0)
  {
    var ws, vs := LoadedWords(data), LoadedWords(SwapWords(data));
    SwappedLoads(data);
    var q := SumSwapped(ws, vs);
    Sum32Wraps(ws);
    Sum32Wraps(vs);
    SwappedWhen(data, Sum32(ws), Sum32(vs));
    SwappedWraps(Sum(ws), Sum(vs), q);
  }

  /** `n` words of all ones, two words 0xFF00 and `m` zero words. */
  function Skewed(n: nat, m: nat): (data: seq<byte>)
    ensures |data| == 2 * (n + 2 + m)
  {
    seq(2 * n, _ => 0xFF) + [0xFF, 0, 0xFF, 0] + seq(2 * m, _ => 0)
  }

  lemma {:induction false} SumSkewed(ws: seq<uint16>, n: nat, w: uint16)
    requires n + 2 <= |ws|
    requires forall k :: 0 <= k < |ws| ==> ws[k] == if k < n then 0xFFFF else if k < n + 2 then w else 0
    ensures Sum(ws) == 0xFFFF * n + 2 * w
  {
    var last := |ws| - 1;
    if |ws| > n + 2 {
      SumSkewed(ws[..last], n, w);
    } else {
      assert ws[..last][..last - 1] == ws[..n];
      SumSaturated(ws[..n], n);
    }
  }

  /** The bound is exact here too: the swap law holds on every buffer up to 65537 words and no further. */
  lemma ByteOrderBoundIsExact(n: nat)
    ensures (forall data: seq<byte> :: |data| == 2 * n ==> NetChecksum(SwapWords(data)) == Htons(NetChecksum(data)))
            <==> n <= 65537
  {
    if n <= 65537 {
      forall data: seq<byte> | |data| == 2 * n
        ensures NetChecksum(SwapWords(data)) == Htons(NetChecksum(data))
      {
        ByteOrderIndependent(data);
      }
    } else {
      var full: nat := 65536;
      SkewedDisagrees(full, n - 2 - full);
    }
  }

  lemma SkewedWord(n: nat, m: nat, k: nat)
    requires k < n + 2 + m
    ensures LoadedWords(Skewed(n, m))[k] == if k < n then 0xFFFF else if k < n + 2 then 0xFF00 else 0
  {
    var data := Skewed(n, m);
    LoadIsBigEndian(data, 2 * k);
    assert data[2 * k] == if k < n + 2 then 0xFF else 0;
    assert data[2 * k + 1] == if k < n then 0xFF else 0;
  }

  lemma SkewedSums(n: nat, m: nat) returns (s: nat, t: nat)
    ensures s == 0xFFFF * n + 2 * 0xFF00 && t == 0xFFFF * n + 2 * 0x00FF
    ensures |Skewed(n, m)| % 2 == 0 && s == Sum(LoadedWords(Skewed(n, m)))
    ensures t == Sum(LoadedWords(SwapWords(Skewed(n, m))))
  {
    var ws, vs := LoadedWords(Skewed(n, m)), LoadedWords(SwapWords(Skewed(n, m)));
    SwappedLoads(Skewed(n, m));
    forall k | 0 <= k < |ws| ensures ws[k] == if k < n then 0xFFFF else if k < n + 2 then 0xFF00 else 0 {
      SkewedWord(n, m, k);
    }
    SumSkewed(ws, n, 0xFF00);
    SwappedSkew(ws, vs, n);
    SumSkewed(vs, n, 0x00FF);
    s, t := Sum(ws), Sum(vs);
  }

  lemma SwappedSkew(ws: seq<uint16>, vs: seq<uint16>, n: nat)
    requires |vs| == |ws| && forall k :: 0 <= k < |ws| ==> vs[k] == Htons(ws[k])
    requires forall k :: 0 <= k < |ws| ==> ws[k] == if k < n then 0xFFFF else if k < n + 2 then 0xFF00 else 0
    ensures forall k :: 0 <= k < |vs| ==> vs[k] == if k < n then 0xFFFF else if k < n + 2 then 0x00FF else 0
  {
  }

  lemma SkewedDisagrees(n: nat, m: nat)
    requires n == 65536
    ensures NetChecksum(SwapWords(Skewed(n, m))) != Htons(NetChecksum(Skewed(n, m)))
  {
    var s, t := SkewedSums(n, m);
    OneSumWraps(Skewed(n, m), s, t);
  }

  lemma OneSumWraps(data: seq<byte>, s: nat, t: nat)
    requires |data| % 2 == 0 && s == Sum(LoadedWords(data)) && t == Sum(LoadedWords(SwapWords(data)))
    requires t < U32 < s < 2 * U32
    ensures NetChecksum(SwapWords(data)) != Htons(NetChecksum(data))
  {
    assert s / U32 == 1 && t / U32 == 0;
    ByteOrderIff(data);
  }

  lemma SwappedLoads(data: seq<byte>)
    requires |data| % 2 == 0
    ensures forall k :: 0 <= k < |data| / 2 ==>
              LoadedWords(SwapWords(data))[k] == Htons(LoadedWords(data)[k])
  {
    var d := SwapWords(data);
    forall k | 0 <= k < |data| / 2
      ensures LoadedWords(d)[k] == Htons(LoadedWords(data)[k])
    {
      assert d[2 * k] == data[2 * k + 1] && d[2 * k + 1] == data[2 * k];
      LoadIsBigEndian(d, 2 * k);
      HtonsTwice(Load16(data, 2 * k));
    }
  }

  /** Swapping the bytes of a word multiplies it by 256 modulo 65535. */
  lemma SwapMultiplies(s: nat)
    ensures (0x100 * s) % 0xFFFF == Htons(Norm(s)) % 0xFFFF
  {
    var n: int, h: int := Norm(s), Htons(Norm(s));
    var k := if s == 0 then 0 else (s - 1) / 0xFFFF;
    assert s == n + 0xFFFF * k;
    SameResidue(0x100 * s, h, n / 0x100 + 0x100 * k);
  }

  lemma NormSwapped(s: nat, t: nat)
    ensures 0xFFFF - Norm(t) == Htons(0xFFFF - Norm(s)) <==>
              t % 0xFFFF == (0x100 * s) % 0xFFFF && (t == 0 <==> s == 0)
  {
    var h: int := Htons(Norm(s));
    SwapMultiplies(s);
    HtonsResidue(Norm(s));
    NormEqual(t, h);
    NormOfWord(h);
    HtonsComplement(Norm(s));
  }

  lemma NormOfWord(h: nat)
    requires h <= 0xFFFF
    ensures Norm(h) == h
  {
  }

  lemma SameResidue(x: nat, h: nat, q: nat)
    requires x == h + 0xFFFF * q
    ensures x % 0xFFFF == h % 0xFFFF
  {
  }
}
