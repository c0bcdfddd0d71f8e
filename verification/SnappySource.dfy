/** The scatter-gather reader: a byte stream cut into fragments. */
module SnappySource {
  import opened Bytes

  function Concat(frags: seq<seq<byte>>): (s: seq<byte>) {
    if frags == [] then [] else frags[0] + Concat(frags[1..])
  }

  /** An empty fragment reads as end of input, so only a stream that is empty
      as a whole may have one. */
  ghost predicate GoodFragments(frags: seq<seq<byte>>) {
    |frags| >= 1 && (|frags| > 1 ==> forall i :: 0 <= i < |frags| ==> frags[i] != [])
  }

  class Source {
    const frags: seq<seq<byte>>
    var curvec: nat
    var curoff: nat

    /** Everything not skipped yet, and the part of it in the current fragment. */
    ghost var remaining: seq<byte>
    ghost var current: seq<byte>

    ghost predicate Valid()
      reads this
      ensures Valid() ==> current <= remaining && (current == [] ==> remaining == [])
    {
      GoodFragments(frags) && curvec < |frags| && curoff <= |frags[curvec]| &&
      (curoff == |frags[curvec]| ==> curvec == |frags| - 1) &&
      current == frags[curvec][curoff..] &&
      remaining == current + Concat(frags[curvec + 1..])
    }

    constructor (fragments: seq<seq<byte>>)
      requires GoodFragments(fragments)
      ensures Valid() && frags == fragments && remaining == Concat(fragments)
    {
      frags := fragments;
      curvec, curoff := 0, 0;
      remaining, current := Concat(fragments), fragments[0];
      new;
      assert frags[0][0..] == frags[0];
    }

    /** The unread part of the current fragment; empty only at the end. */
    method Peek() returns (p: seq<byte>)
      requires Valid()
      ensures p == current
    {
      if curvec < |frags| {
        var iv := frags[curvec];
        if curoff < |iv| {
          return iv[curoff..];
        }
      }
      return [];
    }

    method Skip(n: nat)
      requires Valid() && n <= |current|
      modifies this
      ensures Valid() && remaining == old(remaining)[n..]
    {
      remaining, current := remaining[n..], current[n..];
      var iv := frags[curvec];
      curoff := curoff + n;
      assert remaining == current + Concat(frags[curvec + 1..]);
      if curoff >= |iv| && curvec + 1 < |frags| {
        assert frags[curvec + 1..][0] == frags[curvec + 1];
        assert frags[curvec + 1..][1..] == frags[curvec + 2..];
        curoff := 0;
        curvec := curvec + 1;
        current := frags[curvec];
        assert frags[curvec][0..] == frags[curvec];
      }
    }
  }
}
