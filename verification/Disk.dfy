/** The flat file of the B-tree: bytes, big-endian words, and what a write changes. */
module Disk {
  import opened Bytes

  type Disk = seq<byte>

  const WORD := 8

  /** The number whose bytes, most significant first, are `s`. */
  function FromBE(s: seq<byte>): (v: nat)
    ensures v < Pow256(|s|)
    decreases |s|, 1
  {
    if s == [] then 0 else FromBELast(s)
  }

  function FromBELast(s: seq<byte>): (v: nat)
    requires s != []
    ensures v < Pow256(|s|)
    decreases |s|, 0
  {
    FromBE(s[..|s| - 1]) * 256 + s[|s| - 1]
  }

  function ToBE(v: nat, k: nat): (s: seq<byte>)
    ensures |s| == k
  {
    if k == 0 then [] else ToBE(v / 256, k - 1) + [v % 256]
  }

  lemma {:induction false} FromToBE(v: nat, k: nat)
    requires v < Pow256(k)
    ensures FromBE(ToBE(v, k)) == v
  {
    if k > 0 {
      FromToBE(v / 256, k - 1);
      assert ToBE(v, k)[..k - 1] == ToBE(v / 256, k - 1);
    }
  }

  /** The most significant byte comes first. */
  lemma {:induction false} ByteBE(v: nat, k: nat, i: nat)
    requires i < k
    ensures ToBE(v, k)[i] == v / Pow256(k - 1 - i) % 0x100
  {
    if i == k - 1 {
      assert Pow256(0) == 1;
    } else {
      ByteBE(v / 0x100, k - 1, i);
      ModScale(v % 0x100, v / 0x100, Pow256(k - 2 - i));
    }
  }

  /** The 64-bit word at offset `a`. */
  function Word(d: Disk, a: nat): (v: nat)
    requires a + 8 <= |d|
  {
    FromBE(d[a..a + 8])
  }

  ghost predicate Fits(v: nat) {
    v < 0x1_0000_0000_0000_0000
  }

  lemma Pow256Eight()
    ensures Pow256(8) == 0x1_0000_0000_0000_0000
  {
    Pow256Values();
    assert Pow256(6) == 0x1_0000 * Pow256(4);
    assert Pow256(8) == 0x1_0000 * Pow256(6);
  }

  /** The file after `bytes` have been written at `a`. */
  function Patch(d: Disk, a: nat, bytes: seq<byte>): (r: Disk)
    requires a + |bytes| <= |d|
    ensures |r| == |d|
  {
    d[..a] + bytes + d[a + |bytes|..]
  }

  function PatchWord(d: Disk, a: nat, v: nat): (r: Disk)
    requires a + 8 <= |d|
    ensures |r| == |d|
  {
    Patch(d, a, ToBE(v, 8))
  }

  lemma PatchAt(d: Disk, a: nat, bytes: seq<byte>)
    requires a + |bytes| <= |d|
    ensures Patch(d, a, bytes)[a..a + |bytes|] == bytes
  {
  }

  lemma PatchAway(d: Disk, a: nat, bytes: seq<byte>, lo: nat, hi: nat)
    requires a + |bytes| <= |d| && lo <= hi <= |d|
    requires hi <= a || a + |bytes| <= lo
    ensures Patch(d, a, bytes)[lo..hi] == d[lo..hi]
  {
  }

  lemma WordPatched(d: Disk, a: nat, v: nat)
    requires a + 8 <= |d| && Fits(v)
    ensures Word(PatchWord(d, a, v), a) == v
  {
    PatchAt(d, a, ToBE(v, 8));
    Pow256Eight();
    FromToBE(v, 8);
  }

  lemma WordAway(d: Disk, a: nat, v: nat, b: nat)
    requires a + 8 <= |d| && b + 8 <= |d|
    requires b + 8 <= a || a + 8 <= b
    ensures Word(PatchWord(d, a, v), b) == Word(d, b)
  {
    PatchAway(d, a, ToBE(v, 8), b, b + 8);
  }

  lemma WordUntouched(d: Disk, a: nat, bytes: seq<byte>, b: nat)
    requires a + |bytes| <= |d| && b + 8 <= |d|
    requires b + 8 <= a || a + |bytes| <= b
    ensures Word(Patch(d, a, bytes), b) == Word(d, b)
  {
    PatchAway(d, a, bytes, b, b + 8);
  }

  lemma SubSlice(d: Disk, lo: nat, hi: nat, a: nat, b: nat)
    requires lo <= a <= b <= hi <= |d|
    ensures d[lo..hi][a - lo..b - lo] == d[a..b]
  {
    forall k | 0 <= k < b - a
      ensures d[lo..hi][a - lo..b - lo][k] == d[a..b][k]
    {
      assert d[lo..hi][a - lo + k] == d[a + k];
    }
  }
}
