/** memcpy and what it leaves in its destination. */
module Memory {
  import opened Bytes

  /** s with the cells from at on replaced by src: one memcpy. */
  function Splice(s: seq<byte>, at: nat, src: seq<byte>): (t: seq<byte>)
    requires at + |src| <= |s|
    ensures |t| == |s|
  {
    s[..at] + src + s[at + |src|..]
  }

  method Memcpy(dst: array<byte>, at: nat, src: seq<byte>)
    requires at + |src| <= dst.Length
    modifies dst
    ensures dst[..] == Splice(old(dst[..]), at, src)
  {
    ghost var was := dst[..];
    for k := 0 to |src|
      invariant dst[..] == Splice(was, at, src[..k])
    {
      dst[at + k] := src[k];
    }
    assert src[..|src|] == src;
  }

  lemma SplicePair(s: seq<byte>, a: seq<byte>, b: seq<byte>)
    requires |a| + |b| <= |s|
    ensures Splice(Splice(s, 0, a), |a|, b) == Splice(s, 0, a + b)
    ensures b == [] ==> Splice(s, 0, a) == Splice(s, 0, a + b)
    ensures Splice(s, 0, []) == s
  {
    assert b == [] ==> a + b == a;
  }

  lemma SpliceRead(s: seq<byte>, at: nat, src: seq<byte>)
    requires at + |src| <= |s|
    ensures Splice(s, at, src)[at..at + |src|] == src
  {
  }

  lemma SpliceOther(s: seq<byte>, at: nat, src: seq<byte>, lo: nat, hi: nat)
    requires at + |src| <= |s| && lo <= hi <= |s| && (hi <= at || at + |src| <= lo)
    ensures Splice(s, at, src)[lo..hi] == s[lo..hi]
  {
  }

  lemma SpliceOutside(s: seq<byte>, at: nat, src: seq<byte>, p: nat)
    requires at + |src| <= |s| && p < |s| && (p < at || at + |src| <= p)
    ensures Splice(s, at, src)[p] == s[p]
  {
  }

  /** A memcpy that stays in the first n cells, seen from those cells. */
  lemma SplicePrefix(s: seq<byte>, at: nat, src: seq<byte>, n: nat)
    requires at + |src| <= n <= |s|
    ensures Splice(s, at, src)[..n] == Splice(s[..n], at, src)
  {
  }

  /** One memcpy, and a second one right behind it unless it would be empty. */
  method CopyOut(out: array<byte>, head: seq<byte>, tail: seq<byte>)
    requires |head| + |tail| <= out.Length
    modifies out
    ensures out[..] == Splice(old(out[..]), 0, head + tail)
  {
    SplicePair(out[..], head, tail);
    Memcpy(out, 0, head);
    if tail != [] {
      Memcpy(out, |head|, tail);
    }
  }
}
