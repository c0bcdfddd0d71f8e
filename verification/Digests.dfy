/**
 MD5 and SHA-1 as they take a message piece by piece. What they do to a block of 64 bytes
 is a parameter; the subject is which blocks they are given.
 */
module Digests {
  import opened Bytes

  type Words4 = w: seq<u32> | |w| == 4 witness [0, 0, 0, 0]
  type Words5 = w: seq<u32> | |w| == 5 witness [0, 0, 0, 0, 0]

  const BLOCK := 64
  const BITS := 0x1_0000_0000_0000_0000

  /** The blocks of s, one after the other. */
  function Fold<H>(p: (H, seq<byte>) -> H, h: H, s: seq<byte>): (r: H)
    requires |s| % BLOCK == 0
    decreases |s|
  {
    if s == [] then h else Fold(p, p(h, s[..BLOCK]), s[BLOCK..])
  }

  lemma {:induction false} FoldConcat<H>(p: (H, seq<byte>) -> H, h: H, s: seq<byte>, t: seq<byte>)
    requires |s| % BLOCK == 0 && |t| % BLOCK == 0
    ensures |s + t| % BLOCK == 0 && Fold(p, h, s + t) == Fold(p, Fold(p, h, s), t)
    decreases |s|
  {
    if s == [] {
      assert s + t == t;
    } else {
      FoldConcat(p, p(h, s[..BLOCK]), s[BLOCK..], t);
      assert (s + t)[..BLOCK] == s[..BLOCK] && (s + t)[BLOCK..] == s[BLOCK..] + t;
    }
  }

  lemma FoldOne<H>(p: (H, seq<byte>) -> H, h: H, b: seq<byte>)
    requires |b| == BLOCK
    ensures Fold(p, h, b) == p(h, b)
  {
    assert b[..BLOCK] == b && b[BLOCK..] == [];
  }

  /** One block more of a message. */
  lemma FoldMore<H>(p: (H, seq<byte>) -> H, h: H, m: seq<byte>, i: nat)
    requires i % BLOCK == 0 && i + BLOCK <= |m|
    ensures (i + BLOCK) % BLOCK == 0 && Fold(p, h, m[..i + BLOCK]) == p(Fold(p, h, m[..i]), m[i..i + BLOCK])
  {
    assert m[..i + BLOCK] == m[..i] + m[i..i + BLOCK];
    FoldConcat(p, h, m[..i], m[i..i + BLOCK]);
    FoldOne(p, Fold(p, h, m[..i]), m[i..i + BLOCK]);
  }

  /** How much of a message makes whole blocks. */
  function Whole(n: nat): (w: nat)
    ensures w <= n < w + BLOCK && w % BLOCK == 0
  {
    n / BLOCK * BLOCK
  }

  function Zeros(n: nat): (s: seq<byte>)
    ensures |s| == n && forall i :: 0 <= i < n ==> s[i] == 0
  {
    seq(n, _ => 0)
  }

  /** Zeros behind the bit 1, up to 56 bytes into a block. */
  function ZerosNeeded(n: nat): (k: nat)
    ensures k < BLOCK && (n + 1 + k) % BLOCK == 56
  {
    (119 - n % BLOCK) % BLOCK
  }

  /** They are as few as can be. */
  lemma FewestZeros(n: nat, k: nat)
    requires (n + 1 + k) % BLOCK == 56
    ensures ZerosNeeded(n) <= k
  {
  }

  /** A message, the bit 1, zeros, and its length in eight bytes. */
  function Padded(m: seq<byte>, length: seq<byte>): (s: seq<byte>)
    requires |length| == 8
    ensures |s| % BLOCK == 0
  {
    m + ([0x80] + Zeros(ZerosNeeded(|m|))) + length
  }

  /** The state after a message: its whole blocks, and what is left of it. */
  ghost predicate Taken<H>(p: (H, seq<byte>) -> H, start: H, m: seq<byte>, h: H, b: seq<byte>) {
    var w := Whole(|m|);
    |b| == BLOCK && h == Fold(p, start, m[..w]) && b[..|m| - w] == m[w..]
  }

  lemma TakenAll<H>(p: (H, seq<byte>) -> H, start: H, m: seq<byte>, h: H, b: seq<byte>)
    requires Taken(p, start, m, h, b) && |m| % BLOCK == 0
    ensures h == Fold(p, start, m)
  {
    assert Whole(|m|) == |m| && m[..|m|] == m;
  }

  // ------------------------------------------------------------------
  // MD5
  // ------------------------------------------------------------------

  const MD5_START: Words4 := [0x67452301, 0xefcdab89, 0x98badcfe, 0x10325476]

  /** Section 3.2 of RFC 1321: the length in bits, low-order byte first. */
  function Md5Padded(m: seq<byte>): (s: seq<byte>)
    ensures |s| % BLOCK == 0
  {
    Padded(m, ToLE(8 * |m| % BITS, 8))
  }

  /** Section 3.5: the words, low-order byte first. */
  function Md5Output(h: Words4): (s: seq<byte>)
    ensures |s| == 16
  {
    ToLE(h[0], 4) + ToLE(h[1], 4) + ToLE(h[2], 4) + ToLE(h[3], 4)
  }

  /** The start of section 3.3, in bytes. */
  lemma Md5Starts()
    ensures Md5Output(MD5_START) ==
      [0x01, 0x23, 0x45, 0x67, 0x89, 0xab, 0xcd, 0xef, 0xfe, 0xdc, 0xba, 0x98, 0x76, 0x54, 0x32, 0x10]
  {
    hide ToLE;
    FourBytesLE(0x67452301, 0x01, 0x23, 0x45, 0x67);
    FourBytesLE(0xefcdab89, 0x89, 0xab, 0xcd, 0xef);
    FourBytesLE(0x98badcfe, 0xfe, 0xdc, 0xba, 0x98);
    FourBytesLE(0x10325476, 0x76, 0x54, 0x32, 0x10);
  }

  /** A padded message: the message, the bit 1, zeros, and at its end the number of bits, the
      low-order byte first. */
  lemma Md5PaddedParts(m: seq<byte>)
    ensures var s := Md5Padded(m);
      |s| >= |m| + 9 && s[..|m|] == m && s[|m|] == 0x80 &&
      (forall i :: |m| < i < |s| - 8 ==> s[i] == 0) && FromLE(s[|s| - 8..]) == 8 * |m| % BITS
  {
    var s, length := Md5Padded(m), ToLE(8 * |m| % BITS, 8);
    assert s[|s| - 8..] == length;
    Pow256Values();
    assert Pow256(8) == BITS by { assert Pow256(6) == 0x1_0000 * Pow256(4); }
    FromToLE(8 * |m| % BITS, 8);
    PaddedZeros(m, length);
  }

  lemma PaddedZeros(m: seq<byte>, length: seq<byte>)
    requires |length| == 8
    ensures var s := Padded(m, length);
      |s| >= |m| + 9 && s[..|m|] == m && s[|m|] == 0x80 &&
      forall i :: |m| < i < |s| - 8 ==> s[i] == 0
  {
    var s, z := Padded(m, length), Zeros(ZerosNeeded(|m|));
    forall i | |m| < i < |s| - 8
      ensures s[i] == 0
    {
      assert s[i] == z[i - |m| - 1];
    }
  }

  lemma OutputByte(h: Words4, i: nat)
    requires i < 16
    ensures Md5Output(h)[i] == h[i / 4] / Pow256(i % 4) % 0x100
  {
    Pow256Values();
    LEByte(h[i / 4], 4, i % 4);
  }

  lemma {:induction false} LEByte(v: nat, k: nat, i: nat)
    requires i < k
    ensures ToLE(v, k)[i] == v / Pow256(i) % 0x100
  {
    if i > 0 {
      LEByte(v / 0x100, k - 1, i - 1);
      DivTwice(v, Pow256(i - 1));
    }
  }

  lemma DivTwice(v: nat, p: nat)
    requires p > 0
    ensures v / 0x100 / p == v / (0x100 * p)
  {
    var q := v / 0x100 / p;
    DivMod(v, 0x100);
    DivMod(v / 0x100, p);
    assert q * (0x100 * p) == 0x100 * (q * p);
    ModUnique(v, 0x100 * p, q, v - q * (0x100 * p));
  }

  ghost function Value(count: seq<u32>): (v: nat)
    requires |count| == 2
  {
    var low: nat, high: nat := count[0], count[1];
    low + 0x1_0000_0000 * high
  }

  /** The place in the block, from the low word of the length. */
  lemma OffsetIs(count: seq<u32>, n: nat)
    requires |count| == 2 && Value(count) == 8 * n % BITS
    ensures count[0] / 8 % BLOCK == n % BLOCK
  {
  }

  lemma CountBytes(count: seq<u32>, i: nat)
    requires |count| == 2 && i < 8
    ensures ToLE(Value(count), 8)[i] == count[i / 4] / Pow256(i % 4) % 0x100
  {
    LEByte(Value(count), 8, i);
    Pow256Values();
    if i >= 4 { HighByte(count, i - 4); } else { LowByte(count, i); }
  }

  lemma LowByte(count: seq<u32>, i: nat)
    requires |count| == 2 && i < 4
    ensures Value(count) / Pow256(i) % 0x100 == count[0] / Pow256(i) % 0x100
  {
    Pow256Values();
    var low: nat, high: nat := count[0], count[1];
    if i == 0 {
      LowPart(low, high, 1, 0x100_0000);
    } else if i == 1 {
      LowPart(low, high, 0x100, 0x1_0000);
    } else if i == 2 {
      LowPart(low, high, 0x1_0000, 0x100);
    } else {
      LowPart(low, high, 0x100_0000, 1);
    }
  }

  lemma LowPart(low: nat, high: nat, d: nat, k: nat)
    requires d > 0 && d * (0x100 * k) == 0x1_0000_0000
    ensures (low + 0x1_0000_0000 * high) / d % 0x100 == low / d % 0x100
  {
    var q := 0x100 * k * high;
    assert d * q == 0x1_0000_0000 * high;
    DivMod(low, d);
    assert (low / d + q) * d == low / d * d + d * q;
    ModUnique(low + 0x1_0000_0000 * high, d, low / d + q, low % d);
    assert q == k * high * 0x100;
    DivMod(low / d, 0x100);
    ModUnique(low / d + q, 0x100, low / d / 0x100 + k * high, low / d % 0x100);
  }

  lemma HighByte(count: seq<u32>, i: nat)
    requires |count| == 2 && i < 4
    ensures Value(count) / Pow256(i + 4) % 0x100 == count[1] / Pow256(i) % 0x100
  {
    Pow256Values();
    assert Pow256(i + 4) == 0x1_0000_0000 * Pow256(i) by { assert Pow256(7) == 0x1_0000_0000 * Pow256(3); }
    assert Value(count) / 0x1_0000_0000 == count[1];
    DivProduct(Value(count), 0x1_0000_0000, Pow256(i));
  }

  lemma DivParts(v: nat, a: nat, p: nat, d: nat, r: nat, q: nat, e: nat)
    requires a > 0 && p > 0 && v == d * a + r && r < a && d == q * p + e && e < p
    ensures a * p > 0 && v / (a * p) == q
  {
    MulAtLeast(a, p);
    assert (q * p + e) * a == q * (a * p) + e * a by { Regroup(q, p, e, a); }
    assert e * a + r < a * p by { MulAtLeast(p - e, a); assert (p - e) * a == a * p - e * a; }
    ModUnique(v, a * p, q, e * a + r);
  }

  lemma Regroup(q: nat, p: nat, e: nat, a: nat)
    ensures (q * p + e) * a == q * (a * p) + e * a
  {
    assert q * p * a == q * (a * p);
  }

  lemma DivProduct(v: nat, a: nat, p: nat)
    requires a > 0 && p > 0
    ensures a * p > 0 && v / a / p == v / (a * p)
  {
    DivMod(v, a);
    DivMod(v / a, p);
    DivParts(v, a, p, v / a, v % a, v / a / p, v / a % p);
  }

  /** The two halves of a sum of lengths. */
  lemma CountParts(low0: nat, high0: nat, n: nat)
    requires low0 < 0x1_0000_0000 && high0 < 0x1_0000_0000 && n < 0x8000_0000
    ensures var nbits := 8 * n % 0x1_0000_0000;
      var low, high := (low0 + nbits) % 0x1_0000_0000, (high0 + n / 0x2000_0000) % 0x1_0000_0000;
      (low0 + 0x1_0000_0000 * high0 + 8 * n) % BITS ==
        low + 0x1_0000_0000 * (if low < nbits then (high + 1) % 0x1_0000_0000 else high)
  {
    var h, l := n / 0x2000_0000, 8 * (n % 0x2000_0000);
    DivMod(n, 0x2000_0000);
    ModUnique(8 * n, 0x1_0000_0000, h, l);
    CarryParts(low0, high0, l, h);
  }

  lemma CarryParts(low0: nat, high0: nat, l: nat, h: nat)
    requires low0 < 0x1_0000_0000 && high0 < 0x1_0000_0000 && l < 0x1_0000_0000 && h < 4
    ensures var low, high := (low0 + l) % 0x1_0000_0000, (high0 + h) % 0x1_0000_0000;
      (low0 + 0x1_0000_0000 * high0 + l + 0x1_0000_0000 * h) % BITS ==
        low + 0x1_0000_0000 * (if low < l then (high + 1) % 0x1_0000_0000 else high)
  {
    var carry := if low0 + l >= 0x1_0000_0000 then 1 else 0;
    var low := low0 + l - carry * 0x1_0000_0000;
    ModUnique(low0 + l, 0x1_0000_0000, carry, low);
    var over := if high0 + h >= 0x1_0000_0000 then 1 else 0;
    var high := high0 + h - over * 0x1_0000_0000;
    ModUnique(high0 + h, 0x1_0000_0000, over, high);
    var top := if high + carry >= 0x1_0000_0000 then 1 else 0;
    ModUnique(high + carry, 0x1_0000_0000, top, high + carry - top * 0x1_0000_0000);
    ModUnique(low0 + 0x1_0000_0000 * high0 + l + 0x1_0000_0000 * h, BITS, over + top,
      low + 0x1_0000_0000 * (high + carry - top * 0x1_0000_0000));
  }

  class Md5 {
    const process: (Words4, seq<byte>) -> Words4
    var count: seq<u32>     // the number of bits: low word, high word
    var abcd: Words4
    const buf: array<byte>
    ghost var message: seq<byte>

    ghost predicate Valid()
      reads this, buf
    {
      |count| == 2 && Value(count) == 8 * |message| % BITS && Taken(process, MD5_START, message, abcd, buf[..])
    }

    constructor (process: (Words4, seq<byte>) -> Words4)
      ensures Valid() && message == [] && this.process == process && fresh(buf)
    {
      this.process, count, abcd, buf, message := process, [0, 0], MD5_START, new byte[BLOCK], [];
    }

    /** Adds to the length, with a carry from the low word. */
    method Count(n: nat)
      requires |count| == 2 && n < 0x8000_0000
      modifies this`count
      ensures |count| == 2 && Value(count) == (old(Value(count)) + 8 * n) % BITS
    {
      var nbits: u32 := 8 * n % 0x1_0000_0000;
      var high: u32 := (count[1] + n / 0x2000_0000) % 0x1_0000_0000;
      var low: u32 := (count[0] + nbits) % 0x1_0000_0000;
      CountParts(count[0], count[1], n);
      if low < nbits { high := (high + 1) % 0x1_0000_0000; }
      count := [low, high];
    }

    /** `memcpy` into the block. */
    method Fill(offset: nat, data: seq<byte>)
      requires offset + |data| <= buf.Length
      modifies buf
      ensures buf[..] == old(buf[..offset]) + data + old(buf[offset + |data|..])
    {
      forall k | offset <= k < offset + |data| {
        buf[k] := data[k - offset];
      }
    }

    /** `md5_append`: whatever pieces a message comes in, the state is that of all of it. */
    method Append(data: seq<byte>)
      requires Valid() && |data| < 0x8000_0000
      modifies this, buf
      ensures Valid() && message == old(message) + data
    {
      var left, p: nat := |data|, 0;
      var offset := count[0] / 8 % BLOCK;
      OffsetIs(count, |message|);
      if left == 0 {
        assert message + data == message;
        return;
      }
      Count(left);
      LongerCount(|message|, |data|);
      ghost var m, all := message, message + data;
      message := all;
      if offset > 0 {
        var copy: nat := if offset + left > BLOCK then BLOCK - offset else left;
        ghost var b := buf[..];
        Fill(offset, data[..copy]);
        if offset + copy < BLOCK {
          PartTaken(process, MD5_START, m, abcd, b, data, buf[..]);
          return;
        }
        FilledTaken(process, MD5_START, m, abcd, b, data, copy, buf[..]);
        p, left := copy, left - copy;
        abcd := process(abcd, buf[..]);
      } else {
        NoneLeft(process, MD5_START, m, abcd, buf[..], data);
      }
      Blocks(data, p, |m| + p);
    }

    /** The full blocks of the data, and what is left of it. */
    method Blocks(data: seq<byte>, p0: nat, ghost i0: nat)
      requires p0 <= |data| && i0 % BLOCK == 0 && i0 + |data| - p0 == |message| && message[i0..] == data[p0..]
      requires |count| == 2 && Value(count) == 8 * |message| % BITS &&
        abcd == Fold(process, MD5_START, message[..i0]) && buf.Length == BLOCK
      modifies this`abcd, buf
      ensures Valid()
    {
      var p: nat, left: nat := p0, |data| - p0;
      ghost var i: nat := i0;
      while left >= BLOCK
        invariant p + left == |data| && i % BLOCK == 0 && i + left == |message| && message[i..] == data[p..]
        invariant abcd == Fold(process, MD5_START, message[..i])
      {
        FoldMore(process, MD5_START, message, i);
        SameParts(message, i, data, p);
        abcd := process(abcd, data[p..p + BLOCK]);
        p, left, i := p + BLOCK, left - BLOCK, i + BLOCK;
      }
      if left > 0 { Fill(0, data[p..]); }
      RestTaken(process, MD5_START, message, i, abcd, buf[..]);
    }

    /** `md5_finish`: the digest of exactly the padded message. */
    method Finish() returns (digest: seq<byte>)
      requires Valid()
      modifies this, buf
      ensures digest == Md5Output(Fold(process, MD5_START, Md5Padded(old(message))))
    {
      hide Taken;
      var length := [];
      var i := 0;
      while i < 8
        invariant i <= 8 && |length| == i && Valid() && message == old(message) && forall k :: 0 <= k < i ==>
          length[k] == ToLE(Value(count), 8)[k]
      {
        CountBytes(count, i);
        length := length + [count[i / 4] / Pow256(i % 4) % 0x100];
        i := i + 1;
      }
      OffsetIs(count, |message|);
      ghost var m := message;
      var padding: nat := (55 - count[0] / 8) % 0x1_0000_0000 % BLOCK + 1;
      PaddingIs(count[0] / 8, |message|);
      Append([0x80] + Zeros(padding - 1));
      Append(length);
      assert length == ToLE(8 * |m| % BITS, 8);
      assert message == Md5Padded(m);
      TakenAll(process, MD5_START, message, abcd, buf[..]);
      ghost var h := abcd;
      digest, i := [], 0;
      while i < 16
        invariant i <= 16 && |digest| == i && abcd == h && forall k :: 0 <= k < i ==> digest[k] == Md5Output(abcd)[k]
      {
        OutputByte(abcd, i);
        digest := digest + [abcd[i / 4] / Pow256(i % 4) % 0x100];
        i := i + 1;
      }
    }
  }

  lemma LongerCount(m: nat, n: nat)
    ensures (8 * m % BITS + 8 * n) % BITS == 8 * (m + n) % BITS
  {
  }

  /** The number of padding bytes, worked out in 32 bits. */
  lemma PaddingIs(x: nat, n: nat)
    requires x < 0x2000_0000 && x % BLOCK == n % BLOCK
    ensures (55 - x) % 0x1_0000_0000 % BLOCK == ZerosNeeded(n)
  {
    var q, r := x / BLOCK, x % BLOCK;
    DivMod(x, BLOCK);
    ModUnique(119 - r, BLOCK, if r <= 55 then 1 else 0, if r <= 55 then 55 - r else 119 - r);
    var y := if x <= 55 then 55 - x else 55 - x + 0x1_0000_0000;
    ModUnique(55 - x, 0x1_0000_0000, if x <= 55 then 0 else -1, y);
    if x <= 55 {
      ModUnique(x, BLOCK, 0, x);
      ModUnique(y, BLOCK, 0, y);
    } else if r <= 55 {
      ModUnique(y, BLOCK, 0x400_0000 - q, 55 - r);
    } else {
      ModUnique(y, BLOCK, 0x400_0000 - q - 1, 119 - r);
    }
  }

  /** The buffer is filled further, but not up. */
  lemma PartTaken<H>(p: (H, seq<byte>) -> H, start: H, m: seq<byte>, h: H, b: seq<byte>, data: seq<byte>, b2: seq<byte>)
    requires Taken(p, start, m, h, b) && |m| % BLOCK + |data| < BLOCK
    requires b2 == b[..|m| % BLOCK] + data + b[|m| % BLOCK + |data|..]
    ensures Taken(p, start, m + data, h, b2)
  {
    var w, all := Whole(|m|), m + data;
    assert Whole(|all|) == w && all[..w] == m[..w] && all[w..] == m[w..] + data;
    assert b2[..|all| - w] == b[..|m| - w] + data;
  }

  /** The buffer is filled up, and processed. */
  lemma FilledTaken<H>(p: (H, seq<byte>) -> H, start: H, m: seq<byte>, h: H, b: seq<byte>, data: seq<byte>, copy: nat,
        b2: seq<byte>)
    requires Taken(p, start, m, h, b) && |m| % BLOCK + copy == BLOCK && copy <= |data|
    requires b2 == b[..|m| % BLOCK] + data[..copy] + b[BLOCK..]
    ensures (|m| + copy) % BLOCK == 0 && p(h, b2) == Fold(p, start, (m + data)[..|m| + copy]) &&
      (m + data)[|m| + copy..] == data[copy..]
  {
    var w, all := Whole(|m|), m + data;
    Across(m, data, w, copy);
    assert b2 == m[w..] + data[..copy];
    FoldMore(p, start, all, w);
  }

  lemma Across(m: seq<byte>, data: seq<byte>, w: nat, copy: nat)
    requires w <= |m| && copy <= |data|
    ensures (m + data)[..w] == m[..w] && (m + data)[w..|m| + copy] == m[w..] + data[..copy] &&
      (m + data)[|m| + copy..] == data[copy..]
  {
  }

  lemma NoneLeft<H>(p: (H, seq<byte>) -> H, start: H, m: seq<byte>, h: H, b: seq<byte>, data: seq<byte>)
    requires Taken(p, start, m, h, b) && |m| % BLOCK == 0
    ensures h == Fold(p, start, (m + data)[..|m|]) && (m + data)[|m|..] == data[0..]
  {
    TakenAll(p, start, m, h, b);
    assert (m + data)[..|m|] == m;
  }

  lemma RestTaken<H>(p: (H, seq<byte>) -> H, start: H, m: seq<byte>, i: nat, h: H, b: seq<byte>)
    requires i % BLOCK == 0 && i <= |m| < i + BLOCK == i + |b| && h == Fold(p, start, m[..i]) && b[..|m| - i] == m[i..]
    ensures Taken(p, start, m, h, b)
  {
    assert Whole(|m|) == i;
  }

  lemma SameParts(m: seq<byte>, i: nat, data: seq<byte>, p: nat)
    requires i + BLOCK <= |m| && p + BLOCK <= |data| && m[i..] == data[p..]
    ensures m[i..i + BLOCK] == data[p..p + BLOCK] && m[i + BLOCK..] == data[p + BLOCK..]
  {
    assert m[i..][..BLOCK] == m[i..i + BLOCK] && data[p..][..BLOCK] == data[p..p + BLOCK];
    assert m[i..][BLOCK..] == m[i + BLOCK..] && data[p..][BLOCK..] == data[p + BLOCK..];
  }

  // ------------------------------------------------------------------
  // SHA-1
  // ------------------------------------------------------------------

  const SHA1_START: Words5 := [0x67452301, 0xEFCDAB89, 0x98BADCFE, 0x10325476, 0xC3D2E1F0]

  /** Eight bytes, the high-order one first. */
  function BigEndian8(v: nat): (s: seq<byte>)
    ensures |s| == 8
  {
    seq(8, i requires 0 <= i < 8 => v / Pow256(7 - i) % 0x100)
  }

  /** Section 4 of FIPS PUB 180-1. */
  function Sha1Padded(m: seq<byte>): (s: seq<byte>)
    ensures |s| % BLOCK == 0
  {
    Padded(m, BigEndian8(8 * |m|))
  }

  /** The start of section 7: that of MD5, and one word more. */
  lemma Sha1Starts()
    ensures SHA1_START[..4] == MD5_START && ToLE(SHA1_START[4], 4) == [0xF0, 0xE1, 0xD2, 0xC3]
  {
    FourBytesLE(0xC3D2E1F0, 0xF0, 0xE1, 0xD2, 0xC3);
  }

  /** The same bytes from the last one to the first. */
  function Backwards(b: seq<byte>): (r: seq<byte>)
    ensures |r| == |b| && forall i :: 0 <= i < |r| ==> r[i] == b[|b| - 1 - i]
  {
    seq(|b|, i requires 0 <= i < |b| => b[|b| - 1 - i])
  }

  lemma BigEndianReads(v: nat)
    requires v < BITS
    ensures FromLE(Backwards(BigEndian8(v))) == v
  {
    var b := Backwards(BigEndian8(v));
    forall i | 0 <= i < 8
      ensures b[i] == ToLE(v, 8)[i]
    {
      LEByte(v, 8, i);
    }
    assert b == ToLE(v, 8);
    Pow256Values();
    assert Pow256(8) == BITS by { assert Pow256(6) == 0x1_0000 * Pow256(4); }
    FromToLE(v, 8);
  }

  /** The same for SHA-1, with the high-order byte of the number of bits first. */
  lemma Sha1PaddedParts(m: seq<byte>)
    requires 8 * |m| < BITS
    ensures var s := Sha1Padded(m);
      |s| >= |m| + 9 && s[..|m|] == m && s[|m|] == 0x80 && (forall i :: |m| < i < |s| - 8 ==> s[i] == 0) &&
      FromLE(Backwards(s[|s| - 8..])) == 8 * |m|
  {
    var s, length := Sha1Padded(m), BigEndian8(8 * |m|);
    assert s[|s| - 8..] == length;
    PaddedZeros(m, length);
    BigEndianReads(8 * |m|);
  }

  class Sha1 {
    const process: (Words5, seq<byte>) -> Words5
    var lengthLow: u32
    var lengthHigh: u32
    const block: array<byte>
    var index: nat
    var digest: Words5
    var computed: bool
    var corrupted: bool
    ghost var message: seq<byte>

    /** The message is being taken in. */
    ghost predicate Going()
      reads this, block
    {
      !computed && !corrupted && index == |message| % BLOCK && Taken(process, SHA1_START, message, digest, block[..]) &&
      Value([lengthLow, lengthHigh]) == 8 * |message| < BITS
    }

    ghost predicate Valid()
      reads this, block
    {
      block.Length == BLOCK && (!computed && !corrupted ==> Going()) &&
      (computed && !corrupted ==> digest == Fold(process, SHA1_START, Sha1Padded(message)))
    }

    constructor (process: (Words5, seq<byte>) -> Words5)
      ensures Valid() && message == [] && !computed && !corrupted && this.process == process && fresh(block)
    {
      this.process, lengthLow, lengthHigh, block, index := process, 0, 0, new byte[BLOCK], 0;
      digest, computed, corrupted, message := SHA1_START, false, false, [];
    }

    /** Adds to the length; the context is spoilt when it wraps around. */
    method AddEightBits(ghost bits: nat)
      requires !corrupted && Value([lengthLow, lengthHigh]) == bits < BITS && bits % 8 == 0
      modifies this`lengthLow, this`lengthHigh, this`corrupted
      ensures corrupted == (bits + 8 >= BITS) && (!corrupted ==> Value([lengthLow, lengthHigh]) == bits + 8)
    {
      EightMore(lengthLow, lengthHigh, bits);
      lengthLow := (lengthLow + 8) % 0x1_0000_0000;
      if lengthLow == 0 {
        lengthHigh := (lengthHigh + 1) % 0x1_0000_0000;
        if lengthHigh == 0 { corrupted := true; }
      }
    }

    method ProcessBlock()
      requires block.Length == BLOCK
      modifies this`digest, this`index
      ensures digest == process(old(digest), block[..]) && index == 0
    {
      digest := process(digest, block[..]);
      index := 0;
    }

    method InputByte(c: byte)
      requires Valid() && !computed && !corrupted
      modifies this, block
      ensures Valid() && !computed && corrupted == (8 * (|old(message)| + 1) >= BITS)
      ensures !corrupted ==> message == old(message) + [c]
    {
      hide Value, Taken;
      assert block.Length == BLOCK && index == |message| % BLOCK;
      hide Value, Taken, Fold, Sha1Padded;
      ghost var b, m := block[..], message;
      NextIndex(|m|);
      PutByte(c);
      AddEightBits(8 * |m|);
      message := m + [c];
      if index == BLOCK {
        LastByte(process, SHA1_START, m, digest, b, c, block[..]);
        ProcessBlock();
      } else {
        PartTaken(process, SHA1_START, m, digest, b, [c], block[..]);
      }
    }

    method PutByte(c: byte)
      requires index < block.Length
      modifies this`index, block
      ensures index == old(index) + 1 && block[..] == old(block[..index]) + [c] + old(block[index + 1..])
    {
      ghost var b := block[..];
      block[index] := c;
      index := index + 1;
      assert block[..] == b[..index - 1] + [c] + b[index..];
    }

    /** `SHA1Input`: the context is spoilt by input behind the end, and by too much of it. */
    method Input(data: seq<byte>)
      requires Valid()
      modifies this, block
      ensures Valid() && computed == old(computed)
      ensures corrupted == (old(corrupted) || (data != [] && (old(computed) || 8 * |old(message) + data| >= BITS)))
      ensures !corrupted ==> message == old(message) + data
    {
      if |data| == 0 {
        assert message + data == message;
        return;
      }
      if computed || corrupted {
        corrupted := true;
        return;
      }
      var i := 0;
      assert message + data[..0] == message;
      while i < |data| && !corrupted
        invariant i <= |data| && Valid() && !computed
        invariant corrupted == (i > 0 && 8 * |old(message) + data[..i]| >= BITS)
        invariant !corrupted ==> message == old(message) + data[..i]
      {
        InputByte(data[i]);
        assert old(message) + data[..i] + [data[i]] == old(message) + data[..i + 1];
        i := i + 1;
      }
      if !corrupted { assert data[..i] == data; }
    }

    /** Zeros, up to a place in the block. */
    method ZerosUpTo(n: nat)
      requires index <= n <= block.Length
      modifies this`index, block
      ensures index == n && block[..] == old(block[..index]) + Zeros(n - old(index)) + old(block[n..])
    {
      ghost var i0 := index;
      while index < n
        invariant i0 <= index <= n && forall k :: 0 <= k < block.Length ==>
          block[k] == if i0 <= k < index then 0 else old(block[k])
      {
        block[index] := 0;
        index := index + 1;
      }
    }

    /** The bit 1 and zeros, where the length still fits behind them. */
    method PadShort(ghost rest: seq<byte>)
      requires block.Length == BLOCK && index == |rest| <= 55 && block[..index] == rest
      modifies this`index, block
      ensures block[..56] == rest + [0x80] + Zeros(55 - |rest|)
    {
      block[index] := 0x80;
      index := index + 1;
      assert block[..index] == rest + [0x80];
      ZerosUpTo(56);
    }

    /** Where it does not, the block is filled up, and another one is begun. */
    method PadLong(ghost rest: seq<byte>)
      requires block.Length == BLOCK && 55 < index == |rest| < BLOCK && block[..index] == rest
      modifies this`index, this`digest, block
      ensures digest == process(old(digest), rest + [0x80] + Zeros(BLOCK - |rest| - 1)) && block[..56] == Zeros(56)
    {
      block[index] := 0x80;
      index := index + 1;
      assert block[..index] == rest + [0x80];
      ZerosUpTo(BLOCK);
      assert block[..] == rest + [0x80] + Zeros(BLOCK - |rest| - 1);
      ProcessBlock();
      ZerosUpTo(56);
    }

    /** `SHA1PadMessage`. */
    method PadMessage()
      requires Valid() && !computed && !corrupted
      modifies this, block
      ensures message == old(message) && digest == Fold(process, SHA1_START, Sha1Padded(message))
      ensures computed == old(computed) && corrupted == old(corrupted)
    {
      hide Sha1Padded, BigEndian8, Fold, Value;
      ghost var m, h, rest := message, digest, message[Whole(|message|)..];
      assert block[..index] == rest && |rest| == index;
      if index > 55 {
        TwoBlocks(process, SHA1_START, m, h);
        PadLong(rest);
      } else {
        OneBlock(process, SHA1_START, m, h);
        PadShort(rest);
      }
      PutLength(8 * |m|);
      ProcessBlock();
    }

    /** The length, in the last eight bytes. */
    method PutLength(ghost bits: nat)
      requires block.Length == BLOCK && Value([lengthLow, lengthHigh]) == bits
      modifies block
      ensures block[..] == old(block[..56]) + BigEndian8(bits)
    {
      var low: nat, high: nat := lengthLow, lengthHigh;
      LengthBytes(low, high, bits);
      block[56], block[57], block[58], block[59] :=
        high / 0x100_0000 % 0x100, high / 0x1_0000 % 0x100, high / 0x100 % 0x100, high % 0x100;
      block[60], block[61], block[62], block[63] :=
        low / 0x100_0000 % 0x100, low / 0x1_0000 % 0x100, low / 0x100 % 0x100, low % 0x100;
    }

    /** `SHA1Result`: the digest of exactly the padded message, once and for all. */
    method Result() returns (ok: bool)
      requires Valid()
      modifies this, block
      ensures Valid() && ok == !old(corrupted) && message == old(message) && corrupted == old(corrupted)
      ensures ok ==> computed && digest == Fold(process, SHA1_START, Sha1Padded(message))
    {
      if corrupted { return false; }
      if !computed {
        PadMessage();
        computed := true;
      }
      ok := true;
    }
  }

  lemma NextIndex(n: nat)
    ensures (n + 1) % BLOCK == if n % BLOCK + 1 == BLOCK then 0 else n % BLOCK + 1
  {
  }

  /** The byte that fills the block, which is then processed. */
  lemma LastByte<H>(p: (H, seq<byte>) -> H, start: H, m: seq<byte>, h: H, b: seq<byte>, c: byte, b2: seq<byte>)
    requires Taken(p, start, m, h, b) && |m| % BLOCK + 1 == BLOCK && b2 == b[..|m| % BLOCK] + [c] + b[BLOCK..]
    ensures Taken(p, start, m + [c], p(h, b2), b2)
  {
    FilledTaken(p, start, m, h, b, [c], 1, b2);
    assert (m + [c])[..|m| + 1] == m + [c];
    RestTaken(p, start, m + [c], |m| + 1, p(h, b2), b2);
  }

  lemma EightMore(low: u32, high: u32, bits: nat)
    requires Value([low, high]) == bits < BITS && bits % 8 == 0
    ensures low < 0xffff_fff8 ==> (low + 8) % 0x1_0000_0000 == low + 8 && bits + 8 < BITS
    ensures low >= 0xffff_fff8 ==> low == 0xffff_fff8 && (low + 8) % 0x1_0000_0000 == 0
    ensures low >= 0xffff_fff8 ==> (high == 0xffff_ffff <==> bits + 8 >= BITS)
    ensures (high + 1) % 0x1_0000_0000 == if high == 0xffff_ffff then 0 else high + 1
  {
    var l: nat, h: nat := low, high;
    assert bits == l + 0x1_0000_0000 * h;
    assert l % 8 == 0;
  }

  lemma LengthBytes(low: u32, high: u32, v: nat)
    requires Value([low, high]) == v
    ensures BigEndian8(v) == [high / 0x100_0000 % 0x100, high / 0x1_0000 % 0x100, high / 0x100 % 0x100, high % 0x100,
                              low / 0x100_0000 % 0x100, low / 0x1_0000 % 0x100, low / 0x100 % 0x100, low % 0x100]
  {
    Pow256Values();
    HighByte([low, high], 3);
    HighByte([low, high], 2);
    HighByte([low, high], 1);
    HighByte([low, high], 0);
    LowByte([low, high], 3);
    LowByte([low, high], 2);
    LowByte([low, high], 1);
    LowByte([low, high], 0);
  }

  /** The padding fits the block that the message ends in. */
  lemma OneBlock<H>(p: (H, seq<byte>) -> H, start: H, m: seq<byte>, h: H)
    requires |m| % BLOCK <= 55 && h == Fold(p, start, m[..Whole(|m|)])
    ensures var rest := m[Whole(|m|)..];
      Fold(p, start, Sha1Padded(m)) == p(h, rest + [0x80] + Zeros(55 - |rest|) + BigEndian8(8 * |m|))
  {
    var w, length := Whole(|m|), BigEndian8(8 * |m|);
    var b := m[w..] + [0x80] + Zeros(55 - |m[w..]|) + length;
    assert Sha1Padded(m) == m[..w] + b;
    FoldConcat(p, start, m[..w], b);
    FoldOne(p, h, b);
  }

  /** The padding runs into another block. */
  lemma TwoBlocks<H>(p: (H, seq<byte>) -> H, start: H, m: seq<byte>, h: H)
    requires |m| % BLOCK > 55 && h == Fold(p, start, m[..Whole(|m|)])
    ensures var rest := m[Whole(|m|)..];
      Fold(p, start, Sha1Padded(m)) == p(p(h, rest + [0x80] + Zeros(BLOCK - |rest| - 1)),
        Zeros(56) + BigEndian8(8 * |m|))
  {
    hide Fold;
    var w, length := Whole(|m|), BigEndian8(8 * |m|);
    var a, b := m[w..] + [0x80] + Zeros(BLOCK - |m[w..]| - 1), Zeros(56) + length;
    assert Sha1Padded(m) == m[..w] + a + b;
    FoldConcat(p, start, m[..w] + a, b);
    FoldConcat(p, start, m[..w], a);
    FoldOne(p, h, a);
    FoldOne(p, p(h, a), b);
  }
}
