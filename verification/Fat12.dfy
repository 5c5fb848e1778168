/**
 The FAT12 table of `filesystem.c`: 12-bit entries packed 1.5 bytes apart in a
 4608-byte cache, so that two neighbouring entries share their middle byte.
 */
module Fat12 {
  import opened Machine

  const FAT_BYTES := 4608
  /** Entries 0..3071 lie inside the cache. */
  const FAT_ENTRIES := 3072
  const CLUSTER_FREE := 0x000
  const CLUSTER_EOF := 0xFFF
  /** The one 32-bit cluster number whose entry starts on the last byte of the cache. */
  const STRADDLING_CLUSTER := 2863314602

  type Fat = f: seq<byte> | |f| == FAT_BYTES witness seq(FAT_BYTES, _ => 0)

  function EntryOffset(cluster: uint32): (off: uint32) {
    (cluster + cluster / 2) % U32
  }

  /**
   A 16-bit access at an offset that passes the guard stays inside the cache for
   every 32-bit cluster but one: without wrap-around no offset is 2 modulo 3, and the
   last byte of the cache is.
   */
  lemma GuardedAccessInside(cluster: uint32)
    requires EntryOffset(cluster) < FAT_BYTES
    ensures EntryOffset(cluster) + 1 < FAT_BYTES <==> cluster != STRADDLING_CLUSTER
  {
  }

  lemma OffsetBelow(cluster: uint32)
    requires cluster < FAT_ENTRIES
    ensures EntryOffset(cluster) == 3 * (cluster / 2) + cluster % 2
    ensures EntryOffset(cluster) + 1 < FAT_BYTES
  {
  }

  /** The entry of `cluster`; a cluster past the cache reads as end of chain. */
  function GetNext(fat: Fat, cluster: uint32): (next: uint16)
    requires cluster != STRADDLING_CLUSTER
    ensures next <= 0xFFF
  {
    var off := EntryOffset(cluster);
    if off >= FAT_BYTES then CLUSTER_EOF
    else
      GuardedAccessInside(cluster);
      var value := Load16(fat, off);
      if cluster % 2 == 1 then value / 0x10 % 0x1000 else value % 0x1000
  }

  /** The cache after an entry is set; the write is not guarded, so the cluster must be one the cache holds. */
  function SetNext(fat: Fat, cluster: uint32, next: uint32): (r: Fat)
    requires cluster < FAT_ENTRIES
  {
    OffsetBelow(cluster);
    var off := EntryOffset(cluster);
    var value := Load16(fat, off);
    Store16(fat, off,
            if cluster % 2 == 1 then value % 0x10 + 0x10 * (next % 0x1000)
            else 0x1000 * (value / 0x1000) + next % 0x1000)
  }

  // ---------- The packing, byte by byte ----------

  function High(b: int): int { b / 0x10 }

  function Low(b: int): int { b % 0x10 }

  lemma Nibbles(q: int, x: int)
    requires 0 <= x < 0x10
    ensures High(x + 0x10 * q) == q && Low(x + 0x10 * q) == x
  {
  }

  /** Entry `2h + i`, which shares byte `3h + 1` with its neighbour. */
  function Entry(fat: Fat, h: nat, i: nat): int
    requires 2 * h < FAT_ENTRIES && i < 2
  {
    if i == 0 then fat[3 * h] + 0x100 * Low(fat[3 * h + 1])
    else High(fat[3 * h + 1]) + 0x10 * fat[3 * h + 2] as int
  }

  lemma GetEven(fat: Fat, h: nat)
    requires 2 * h < FAT_ENTRIES
    ensures GetNext(fat, 2 * h) == Entry(fat, h, 0)
  {
    OffsetBelow(2 * h);
    var b: int := fat[3 * h + 1];
    assert b == 0x10 * High(b) + Low(b);
  }

  lemma GetOdd(fat: Fat, h: nat)
    requires 2 * h < FAT_ENTRIES
    ensures GetNext(fat, 2 * h + 1) == Entry(fat, h, 1)
  {
    OffsetBelow(2 * h + 1);
    var b: int, m: int := fat[3 * h + 1], fat[3 * h + 2];
    assert b + 0x100 * m == 0x10 * (High(b) + 0x10 * m) + Low(b);
  }

  lemma GetIsEntry(fat: Fat, d: uint32)
    requires d < FAT_ENTRIES
    ensures GetNext(fat, d) == Entry(fat, d / 2, d % 2)
  {
    if d % 2 == 0 { GetEven(fat, d / 2); } else { GetOdd(fat, d / 2); }
  }

  /** `r` is `fat` with the three bytes of pair `h` replaced. */
  predicate PairWritten(fat: Fat, r: Fat, h: nat, a: int, b: int, m: int)
    requires 2 * h < FAT_ENTRIES
  {
    && r[3 * h] == a && r[3 * h + 1] == b && r[3 * h + 2] == m
    && forall k :: 0 <= k < FAT_BYTES && (k < 3 * h || k > 3 * h + 2) ==> r[k] == fat[k]
  }

  lemma SetEven(fat: Fat, h: nat, v: uint32)
    requires 2 * h < FAT_ENTRIES
    ensures var n := v % 0x1000;
            PairWritten(fat, SetNext(fat, 2 * h, v), h,
                        n % 0x100, n / 0x100 + 0x10 * High(fat[3 * h + 1]), fat[3 * h + 2])
  {
    OffsetBelow(2 * h);
    var a: int, b: int, n := fat[3 * h], fat[3 * h + 1], v % 0x1000;
    assert a + 0x100 * b == 0x1000 * High(b) + (a + 0x100 * Low(b));
    assert (a + 0x100 * b) / 0x1000 == High(b);
    assert 0x1000 * High(b) + n == 0x100 * (0x10 * High(b) + n / 0x100) + n % 0x100;
  }

  lemma SetOdd(fat: Fat, h: nat, v: uint32)
    requires 2 * h < FAT_ENTRIES
    ensures var n := v % 0x1000;
            PairWritten(fat, SetNext(fat, 2 * h + 1, v), h,
                        fat[3 * h], Low(fat[3 * h + 1]) + 0x10 * (n % 0x10), n / 0x10)
  {
    OffsetBelow(2 * h + 1);
    var b: int, m: int, n := fat[3 * h + 1], fat[3 * h + 2], v % 0x1000;
    assert b + 0x100 * m == 0x10 * (High(b) + 0x10 * m) + Low(b);
    assert (b + 0x100 * m) % 0x10 == Low(b);
    assert Low(b) + 0x10 * n == 0x100 * (n / 0x10) + (Low(b) + 0x10 * (n % 0x10));
  }

  lemma EntryAfterEven(fat: Fat, r: Fat, h: nat, n: nat, k: nat, j: nat)
    requires 2 * h < FAT_ENTRIES && 2 * k < FAT_ENTRIES && j < 2 && n < 0x1000
    requires PairWritten(fat, r, h, n % 0x100, n / 0x100 + 0x10 * High(fat[3 * h + 1]), fat[3 * h + 2])
    ensures Entry(r, k, j) == if h == k && j == 0 then n else Entry(fat, k, j)
  {
    Nibbles(High(fat[3 * h + 1]), n / 0x100);
  }

  lemma EntryAfterOdd(fat: Fat, r: Fat, h: nat, n: nat, k: nat, j: nat)
    requires 2 * h < FAT_ENTRIES && 2 * k < FAT_ENTRIES && j < 2 && n < 0x1000
    requires PairWritten(fat, r, h, fat[3 * h], Low(fat[3 * h + 1]) + 0x10 * (n % 0x10), n / 0x10)
    ensures Entry(r, k, j) == if h == k && j == 1 then n else Entry(fat, k, j)
  {
  }

  lemma EntryAfterSet(fat: Fat, c: uint32, v: uint32, k: nat, j: nat)
    requires c < FAT_ENTRIES && 2 * k < FAT_ENTRIES && j < 2
    ensures Entry(SetNext(fat, c, v), k, j)
            == if c / 2 == k && c % 2 == j then v % 0x1000 else Entry(fat, k, j)
  {
    var h := c / 2;
    if c % 2 == 0 {
      SetEven(fat, h, v);
      EntryAfterEven(fat, SetNext(fat, c, v), h, v % 0x1000, k, j);
    } else {
      SetOdd(fat, h, v);
      EntryAfterOdd(fat, SetNext(fat, c, v), h, v % 0x1000, k, j);
    }
  }

  /** Packing: the entry written reads back as its low 12 bits, and no other entry changes. */
  lemma SetThenGet(fat: Fat, c: uint32, v: uint32, d: uint32)
    requires c < FAT_ENTRIES && d + d / 2 < U32
    ensures GetNext(SetNext(fat, c, v), d) == if d == c then v % 0x1000 else GetNext(fat, d)
  {
    if d < FAT_ENTRIES {
      EntryAfterSet(fat, c, v, d / 2, d % 2);
      GetIsEntry(fat, d);
      GetIsEntry(SetNext(fat, c, v), d);
    }
  }

  // ---------- The table as a string of half-bytes ----------

  function Nibble(fat: Fat, k: nat): (x: int)
    requires k < 2 * FAT_BYTES
  {
    if k % 2 == 0 then fat[k / 2] % 0x10 else fat[k / 2] / 0x10
  }

  /**
   Without a case split: an entry is three half-bytes in a row, the low one first; behind the
   cache is the end mark.
   */
  lemma GetIsTwelveBits(fat: Fat, c: uint16)
    ensures c < 3072 ==>
              GetNext(fat, c) == Nibble(fat, 3 * c) + 0x10 * Nibble(fat, 3 * c + 1) + 0x100 * Nibble(fat, 3 * c + 2)
    ensures c >= 3072 ==> GetNext(fat, c) == 0xFFF
  {
    if c < 3072 {
      var h := c / 2;
      GetIsEntry(fat, c);
      if c % 2 == 0 {
        assert 3 * c == 2 * (3 * h);
      } else {
        assert 3 * c == 2 * (3 * h + 1) + 1;
      }
    }
  }
}
