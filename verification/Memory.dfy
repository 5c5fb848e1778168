/** The byte copy of `memory.c`. */
module Memory {
  import opened Machine

  /** `dest` with `src` written over it from index `at` on. */
  function Overwrite(dest: seq<byte>, at: nat, src: seq<byte>): (r: seq<byte>)
    requires at + |src| <= |dest|
    ensures |r| == |dest|
    ensures forall k :: 0 <= k < |dest| ==> r[k] == if at <= k < at + |src| then src[k - at] else dest[k]
  {
    dest[..at] + src + dest[at + |src|..]
  }

  lemma OverwriteParts(dest: seq<byte>, at: nat, src: seq<byte>, end: nat)
    requires end == at + |src| <= |dest|
    ensures Overwrite(dest, at, src)[..end] == dest[..at] + src
    ensures Overwrite(dest, at, src)[end..] == dest[end..]
  {
  }

  method Memcpy(dest: array<byte>, at: nat, src: seq<byte>)
    requires at + |src| <= dest.Length
    modifies dest
    ensures dest[..] == Overwrite(old(dest[..]), at, src)
  {
    var i := 0;
    while i < |src|
      invariant 0 <= i <= |src|
      invariant forall k :: 0 <= k < dest.Length ==>
                  dest[k] == if at <= k < at + i then src[k - at] else old(dest[k])
    {
      dest[at + i] := src[i];
      i := i + 1;
    }
  }
}
