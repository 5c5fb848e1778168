/** The ARP cache of `arp.c`, and the history it answers for. */
module Arp {
  import opened Machine

  const CACHE_ENTRIES := 32

  type Ip = uint32
  type Mac = n: int | 0 <= n < 0x1_0000_0000_0000

  const BROADCAST: Mac := 0xFFFF_FFFF_FFFF

  datatype Binding = Binding(ip: Ip, mac: Mac)

  // ---------- What a history promises ----------

  /** The addresses of a history in the order they were first seen. */
  function FirstSeen(h: seq<Binding>): (ips: seq<Ip>)
    ensures forall b <- h :: b.ip in ips
    ensures forall ip <- ips :: exists b :: b in h && b.ip == ip
    ensures forall i, j :: 0 <= i < j < |ips| ==> ips[i] != ips[j]
  {
    if h == [] then []
    else
      var before, ip := FirstSeen(h[..|h| - 1]), h[|h| - 1].ip;
      assert h == h[..|h| - 1] + [h[|h| - 1]];
      if ip in before then before else before + [ip]
  }

  /** The station most recently learned for an address of the history. */
  function Latest(h: seq<Binding>, ip: Ip): (mac: Mac)
    requires exists b :: b in h && b.ip == ip
  {
    if h[|h| - 1].ip == ip then h[|h| - 1].mac
    else
      assert h == h[..|h| - 1] + [h[|h| - 1]];
      Latest(h[..|h| - 1], ip)
  }

  /** The cache lists the addresses in `ips` as long as there is room. */
  predicate Lists(cache: seq<Binding>, ips: seq<Ip>) {
    && |cache| == (if |ips| <= CACHE_ENTRIES then |ips| else CACHE_ENTRIES)
    && forall i :: 0 <= i < |cache| ==> cache[i].ip == ips[i]
  }

  /** The cache holds the first 32 addresses seen, in that order, each with its latest station. */
  ghost predicate Answers(cache: seq<Binding>, h: seq<Binding>) {
    && Lists(cache, FirstSeen(h))
    && forall i :: 0 <= i < |cache| ==> cache[i].ip in FirstSeen(h) && cache[i].mac == Latest(h, cache[i].ip)
  }

  // ---------- The cache ----------

  /** The index of an address, or the length. */
  function IndexOf(cache: seq<Binding>, ip: Ip): (i: nat)
    ensures i <= |cache|
    ensures i < |cache| ==> cache[i].ip == ip
    ensures forall k :: 0 <= k < i ==> cache[k].ip != ip
  {
    if cache == [] || cache[0].ip == ip then 0 else 1 + IndexOf(cache[1..], ip)
  }

  function Learned(cache: seq<Binding>, b: Binding): (r: seq<Binding>) {
    var i := IndexOf(cache, b.ip);
    if i < |cache| then cache[i := b]
    else if |cache| < CACHE_ENTRIES then cache + [b]
    else cache
  }

  function Found(cache: seq<Binding>, ip: Ip): (mac: Mac) {
    var i := IndexOf(cache, ip);
    if i < |cache| then cache[i].mac else BROADCAST
  }

  function LearnAll(h: seq<Binding>): (cache: seq<Binding>) {
    if h == [] then [] else Learned(LearnAll(h[..|h| - 1]), h[|h| - 1])
  }

  /** One more binding: which addresses are seen, and what is latest. */
  lemma OneMore(h: seq<Binding>, b: Binding, ip: Ip)
    ensures FirstSeen(h + [b]) == if b.ip in FirstSeen(h) then FirstSeen(h) else FirstSeen(h) + [b.ip]
    ensures ip in FirstSeen(h) || ip == b.ip ==> ip in FirstSeen(h + [b])
    ensures ip == b.ip ==> Latest(h + [b], ip) == b.mac
    ensures ip != b.ip && ip in FirstSeen(h) ==> Latest(h + [b], ip) == Latest(h, ip)
  {
  }

  lemma ListsOneMore(cache: seq<Binding>, ips: seq<Ip>, b: Binding)
    requires Lists(cache, ips)
    ensures Lists(Learned(cache, b), if b.ip in ips then ips else ips + [b.ip])
  {
  }

  /** A cache that answers for a history answers for it with one more binding learned. */
  lemma LearnKeeps(cache: seq<Binding>, h: seq<Binding>, b: Binding)
    requires Answers(cache, h)
    ensures Answers(Learned(cache, b), h + [b])
  {
    var h', cache' := h + [b], Learned(cache, b);
    ListsOneMore(cache, FirstSeen(h), b);
    OneMore(h, b, b.ip);
    forall k | 0 <= k < |cache'|
      ensures cache'[k].ip in FirstSeen(h') && cache'[k].mac == Latest(h', cache'[k].ip)
    {
      assert cache'[k] == b || (k < |cache| && cache'[k] == cache[k] && cache[k].ip != b.ip);
      OneMore(h, b, cache'[k].ip);
    }
  }

  /** After any history of learning, the cache answers for it. */
  lemma {:induction false} CacheAnswers(h: seq<Binding>)
    ensures Answers(LearnAll(h), h)
  {
    if h != [] {
      var n := |h| - 1;
      CacheAnswers(h[..n]);
      LearnKeeps(LearnAll(h[..n]), h[..n], h[n]);
      assert h[..n] + [h[n]] == h;
    }
  }

  /** One of the first 32 addresses of the history. */
  predicate Early(h: seq<Binding>, ip: Ip) {
    exists k :: 0 <= k < 32 && k < |FirstSeen(h)| && FirstSeen(h)[k] == ip
  }

  /** So lookup returns the latest station of each of the first 32 addresses, and broadcast for every other. */
  lemma LookupAnswers(h: seq<Binding>, ip: Ip)
    ensures Early(h, ip) ==> ip in FirstSeen(h) && Found(LearnAll(h), ip) == Latest(h, ip)
    ensures !Early(h, ip) ==> Found(LearnAll(h), ip) == 0xFFFF_FFFF_FFFF
  {
    CacheAnswers(h);
    var cache := LearnAll(h);
    if k :| 0 <= k < 32 && k < |FirstSeen(h)| && FirstSeen(h)[k] == ip {
      assert cache[k].ip == ip;
    }
  }

  // ---------- The table ----------

  datatype Entry = Entry(ip: Ip, mac: Mac, valid: bool)

  function BindingsOf(entries: seq<Entry>): (s: seq<Binding>)
    ensures |s| == |entries|
  {
    seq(|entries|, i requires 0 <= i < |entries| => Binding(entries[i].ip, entries[i].mac))
  }

  class Cache {
    const table: array<Entry>
    var count: nat

    ghost predicate Valid()
      reads this, table
    {
      && table.Length == CACHE_ENTRIES && count <= CACHE_ENTRIES
      && forall i :: 0 <= i < count ==> table[i].valid
    }

    ghost function Bindings(): (s: seq<Binding>)
      requires Valid()
      reads this, table
      ensures |s| == count
    {
      BindingsOf(table[..count])
    }

    constructor ()
      ensures Valid() && Bindings() == [] && fresh(table)
    {
      table := new Entry[CACHE_ENTRIES](_ => Entry(0, 0, false));
      count := 0;
    }

    method Learn(ip: Ip, mac: Mac)
      requires Valid()
      modifies this, table
      ensures Valid() && Bindings() == Learned(old(Bindings()), Binding(ip, mac))
    {
      ghost var before := Bindings();
      var i := 0;
      while i < count
        invariant 0 <= i <= count && count == old(count) && Valid() && Bindings() == before
        invariant forall k :: 0 <= k < i ==> before[k].ip != ip
      {
        assert before[i] == Binding(table[i].ip, table[i].mac);
        if table[i].ip == ip {
          assert IndexOf(before, ip) == i;
          table[i] := Entry(ip, mac, true);
          assert Bindings() == before[i := Binding(ip, mac)];
          return;
        }
        i := i + 1;
      }
      assert IndexOf(before, ip) == |before|;
      if count < CACHE_ENTRIES {
        table[count] := Entry(ip, mac, true);
        count := count + 1;
        assert Bindings() == before + [Binding(ip, mac)];
      }
    }

    /** Lookup; for an unknown address it calls for a request, `asked`, and answers broadcast. */
    method Lookup(ip: Ip) returns (mac: Mac, asked: Option<Ip>)
      requires Valid()
      ensures mac == Found(Bindings(), ip)
      ensures asked == if exists k :: 0 <= k < |Bindings()| && Bindings()[k].ip == ip then None else Some(ip)
    {
      var i := 0;
      while i < count
        invariant 0 <= i <= count
        invariant forall k :: 0 <= k < i ==> Bindings()[k].ip != ip
      {
        assert Bindings()[i] == Binding(table[i].ip, table[i].mac);
        if table[i].valid && table[i].ip == ip {
          assert IndexOf(Bindings(), ip) == i;
          return table[i].mac, None;
        }
        i := i + 1;
      }
      assert IndexOf(Bindings(), ip) == |Bindings()|;
      mac, asked := BROADCAST, Some(ip);
    }
  }
}
