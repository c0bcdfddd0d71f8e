/** Bytes, and the little-endian words that the C code loads and stores. */
module Bytes {
  type byte = x: int | 0 <= x < 256
  type u16 = x: int | 0 <= x < 0x1_0000
  type u32 = x: int | 0 <= x < 0x1_0000_0000

  datatype Option<+T> = None | Some(value: T)

  function Min(a: int, b: int): int {
    if a < b then a else b
  }

  function One(b: bool): (n: nat) {
    if b then 1 else 0
  }

  function InsertAt<A>(s: seq<A>, i: nat, x: A): (r: seq<A>)
    requires i <= |s|
    ensures |r| == |s| + 1
  {
    s[..i] + [x] + s[i..]
  }

  function Pow256(k: nat): (p: nat)
    ensures p > 0
  {
    if k == 0 then 1 else 256 * Pow256(k - 1)
  }

  lemma Assoc(a: seq<byte>, b: seq<byte>, c: seq<byte>)
    ensures a + (b + c) == a + b + c
  {
  }

  /** The number whose bytes, least significant first, are `s`. */
  function FromLE(s: seq<byte>): (v: nat)
    ensures v < Pow256(|s|)
  {
    if s == [] then 0 else s[0] + 256 * FromLE(s[1..])
  }

  /** The `k` low-order bytes of `v`, least significant first. */
  function ToLE(v: nat, k: nat): (s: seq<byte>)
    ensures |s| == k
  {
    if k == 0 then [] else [v % 256] + ToLE(v / 256, k - 1)
  }

  /** The bytes of a number: the first one, and those of the rest. */
  lemma FirstLE(b: byte, v: nat, k: nat)
    ensures ToLE(b + 0x100 * v, k + 1) == [b] + ToLE(v, k)
  {
  }

  /** The bytes of a 32-bit word, one by one. */
  lemma FourBytesLE(v: nat, a: byte, b: byte, c: byte, d: byte)
    requires v == a + 0x100 * (b + 0x100 * (c + 0x100 * d))
    ensures ToLE(v, 4) == [a, b, c, d]
  {
    FirstLE(a, b + 0x100 * (c + 0x100 * d), 3);
    FirstLE(b, c + 0x100 * d, 2);
    FirstLE(c, d, 1);
    FirstLE(d, 0, 0);
  }

  lemma {:induction false} FromToLE(v: nat, k: nat)
    requires v < Pow256(k)
    ensures FromLE(ToLE(v, k)) == v
  {
    if k > 0 {
      FromToLE(v / 256, k - 1);
      assert ToLE(v, k)[1..] == ToLE(v / 256, k - 1);
    }
  }

  lemma Pow256Values()
    ensures Pow256(0) == 1 && Pow256(1) == 0x100 && Pow256(2) == 0x1_0000
    ensures Pow256(3) == 0x100_0000 && Pow256(4) == 0x1_0000_0000
  {
    assert Pow256(3) == 256 * Pow256(2);
  }

  lemma {:induction false} LEBelow(s: seq<byte>, k: nat)
    requires k <= |s|
    ensures FromLE(s) % Pow256(k) == FromLE(s[..k])
  {
    if k > 0 {
      LEBelow(s[1..], k - 1);
      assert s[..k][1..] == s[1..][..k - 1];
      ModScale(s[0], FromLE(s[1..]), Pow256(k - 1));
    }
  }

  lemma {:induction false} LEAbove(s: seq<byte>, k: nat)
    requires k <= |s|
    ensures FromLE(s) / Pow256(k) == FromLE(s[k..])
  {
    if k == 0 {
      assert s[0..] == s;
    } else {
      LEAbove(s[1..], k - 1);
      assert s[1..][k - 1..] == s[k..];
      ModScale(s[0], FromLE(s[1..]), Pow256(k - 1));
    }
  }

  lemma ModScale(b: byte, v: nat, p: nat)
    requires p > 0
    ensures (b + 256 * v) % (256 * p) == b + 256 * (v % p)
    ensures (b + 256 * v) / (256 * p) == v / p
  {
    var q, r := v / p, v % p;
    DivMod(v, p);
    assert 256 * v == 256 * (q * p) + 256 * r;
    assert 256 * (q * p) == q * (256 * p);
    ModUnique(b + 256 * v, 256 * p, q, b + 256 * r);
  }

  lemma DivMod(x: int, d: nat)
    requires d > 0
    ensures x == x / d * d + x % d
  {
  }

  lemma ModUnique(x: int, d: nat, q: int, r: nat)
    requires r < d && x == q * d + r
    ensures x % d == r && x / d == q
  {
    DivMod(x, d);
    var k := q - x / d;
    assert k * d == q * d - x / d * d;
    MulAtLeast(k, d);
  }

  lemma MulAtLeast(a: int, d: int)
    requires d >= 0
    ensures a >= 1 ==> a * d >= d
    ensures a <= -1 ==> a * d <= -d
  {
    if a >= 1 {
      assert a * d == (a - 1) * d + d;
    } else if a <= -1 {
      assert a * d == (a + 1) * d - d;
    }
  }

  /** An unaligned 32-bit little-endian load. */
  function Load32(s: seq<byte>, i: nat): (v: u32)
    requires i + 4 <= |s|
  {
    var b0: int, b1: int, b2: int, b3: int := s[i], s[i + 1], s[i + 2], s[i + 3];
    b0 + 0x100 * b1 + 0x1_0000 * b2 + 0x100_0000 * b3
  }

  lemma Load32IsLE(s: seq<byte>, i: nat)
    requires i + 4 <= |s|
    ensures Load32(s, i) == FromLE(s[i..i + 4])
  {
    LESlice(s, i, 4);
    LESlice(s, i + 1, 3);
    LESlice(s, i + 2, 2);
    LESlice(s, i + 3, 1);
    assert s[i + 4..i + 4] == [];
  }

  lemma LESlice(s: seq<byte>, i: nat, k: nat)
    requires k >= 1 && i + k <= |s|
    ensures FromLE(s[i..i + k]) == s[i] + 256 * FromLE(s[i + 1..i + k])
  {
    assert s[i..i + k][1..] == s[i + 1..i + k];
  }

  /** Two loads agree exactly when the four bytes do. */
  lemma Load32Injective(s: seq<byte>, i: nat, j: nat)
    requires i + 4 <= |s| && j + 4 <= |s|
    ensures Load32(s, i) == Load32(s, j) <==> s[i..i + 4] == s[j..j + 4]
  {
    Load32IsLE(s, i);
    Load32IsLE(s, j);
    if Load32(s, i) == Load32(s, j) {
      LEInjective(s[i..i + 4], s[j..j + 4]);
    }
  }

  lemma {:induction false} LEInjective(s: seq<byte>, t: seq<byte>)
    requires |s| == |t| && FromLE(s) == FromLE(t)
    ensures s == t
  {
    if s != [] {
      LEInjective(s[1..], t[1..]);
      assert s == [s[0]] + s[1..];
      assert t == [t[0]] + t[1..];
    }
  }

  /** Masking a 32-bit load down to its `k` low-order bytes reads just those bytes. */
  lemma MaskedLoad(s: seq<byte>, i: nat, k: nat)
    requires k <= 4 && i + 4 <= |s|
    ensures Load32(s, i) % Pow256(k) == FromLE(s[i..i + k])
  {
    Load32IsLE(s, i);
    var word := s[i..i + 4];
    LEBelow(word, k);
    assert word[..k] == s[i..i + k];
  }
}
