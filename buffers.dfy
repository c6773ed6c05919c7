/** Contiguous buffers: writing a run of values over part of a buffer (memcpy into a
    slice) and filling a buffer with one value (std::fill). */
module Buffers {

  /** s with t written over it from position off on. */
  function Splice<T>(s: seq<T>, off: nat, t: seq<T>): (r: seq<T>)
    requires off + |t| <= |s|
    ensures |r| == |s|
    ensures r[off..off + |t|] == t
    ensures forall x :: 0 <= x < |s| && !(off <= x < off + |t|) ==> r[x] == s[x]
  {
    s[..off] + t + s[off + |t|..]
  }

  /** A splice over the whole buffer replaces it. */
  lemma SpliceWhole<T>(s: seq<T>, t: seq<T>)
    requires |t| == |s|
    ensures Splice(s, 0, t) == t
  {
    assert Splice(s, 0, t) == Splice(s, 0, t)[0..|t|];
  }

  /** A buffer that holds t from off on and agrees with s everywhere else is s spliced with t. */
  lemma SplicePointwise<T>(s: seq<T>, r: seq<T>, off: nat, t: seq<T>)
    requires off + |t| <= |s| && |r| == |s|
    requires forall k :: 0 <= k < |t| ==> r[off + k] == t[k]
    requires forall x :: 0 <= x < |s| && !(off <= x < off + |t|) ==> r[x] == s[x]
    ensures r == Splice(s, off, t)
  {
    forall x | 0 <= x < |s|
      ensures r[x] == Splice(s, off, t)[x]
    {
      if off <= x < off + |t| {
        assert Splice(s, off, t)[off..off + |t|][x - off] == t[x - off];
      }
    }
  }

  /** memcpy(dst + off, src, |src|). */
  method CopyInto<T>(dst: array<T>, off: nat, src: seq<T>)
    requires off + |src| <= dst.Length
    modifies dst
    ensures dst[..] == Splice(old(dst[..]), off, src)
  {
    var k := 0;
    while k < |src|
      invariant 0 <= k <= |src|
      invariant forall x :: 0 <= x < dst.Length ==>
                  dst[x] == if off <= x < off + k then src[x - off] else old(dst[x])
    {
      dst[off + k] := src[k];
      k := k + 1;
    }
    SplicePointwise(old(dst[..]), dst[..], off, src);
  }

  /** std::fill(dst.begin(), dst.end(), v). */
  method Fill<T>(dst: array<T>, v: T)
    modifies dst
    ensures dst[..] == seq(dst.Length, _ => v)
  {
    var k := 0;
    while k < dst.Length
      invariant 0 <= k <= dst.Length
      invariant forall x :: 0 <= x < k ==> dst[x] == v
    {
      dst[k] := v;
      k := k + 1;
    }
  }
}
