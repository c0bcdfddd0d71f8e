/** Literals and copies, as byte sequences and as they are written into the output. */
module SnappyEmit {
  import opened Bytes
  import opened SnappyFormat

  const BLOCK_SIZE := 65536
  const INPUT_MARGIN_BYTES := 15

  function MaxCompressedLength(n: nat): (m: nat) {
    32 + n + n / 6
  }

  // ------------------------------------------------------------------
  // Encoders, as byte sequences
  // ------------------------------------------------------------------

  /** How many bytes `n` takes when written least significant byte first. */
  function ByteCount(n: nat): (k: nat)
    ensures n < Pow256(k)
  {
    if n == 0 then 0 else 1 + ByteCount(n / 256)
  }

  function LiteralHeader(len: nat): (s: seq<byte>)
    requires 1 <= len <= 0x1_0000_0000
    ensures |s| == if len <= 60 then 1 else 1 + ByteCount(len - 1)
  {
    if len <= 60 then [4 * (len - 1)]
    else
      ByteCountAtMost(len - 1, 4);
      [4 * (59 + ByteCount(len - 1))] + ToLE(len - 1, ByteCount(len - 1))
  }

  lemma {:induction false} ByteCountAtMost(n: nat, k: nat)
    requires n < Pow256(k)
    ensures ByteCount(n) <= k
  {
    if n > 0 {
      ByteCountAtMost(n / 256, k - 1);
    }
  }

  lemma {:induction false} ByteCountBounds(n: nat)
    requires 0 < n < 0x1_0000_0000
    ensures 1 <= ByteCount(n) <= 4
    ensures n < 0x100 ==> ByteCount(n) == 1
    ensures n < 0x1_0000 ==> ByteCount(n) <= 2
  {
    Pow256Values();
    ByteCountAtMost(n, 4);
    if n < 0x100 { ByteCountAtMost(n, 1); }
    if n < 0x1_0000 { ByteCountAtMost(n, 2); }
  }

  lemma ShortLiteralParses(bytes: seq<byte>)
    requires 1 <= |bytes| <= 60
    ensures var s := [4 * (|bytes| - 1)] + bytes;
      ParseElement(s) == Some(Parsed(Literal(bytes), |s|))
  {
    var s := [4 * (|bytes| - 1)] + bytes;
    assert s[1..1 + |bytes|] == bytes;
  }

  lemma LongLiteralParses(bytes: seq<byte>, k: nat)
    requires 60 < |bytes| <= 0xffff_ffff && 1 <= k <= 4 && |bytes| - 1 < Pow256(k)
    ensures var s := [4 * (59 + k)] + ToLE(|bytes| - 1, k) + bytes;
      ParseElement(s) == Some(Parsed(Literal(bytes), |s|))
  {
    var tag: byte := 4 * (59 + k);
    var s := [tag] + ToLE(|bytes| - 1, k) + bytes;
    assert TrailerSize(tag) == k;
    assert s[1..1 + k] == ToLE(|bytes| - 1, k);
    FromToLE(|bytes| - 1, k);
    assert s[1 + k..1 + k + |bytes|] == bytes;
  }

  /** A literal's header announces exactly the bytes that follow it. */
  lemma LiteralParses(bytes: seq<byte>)
    requires 1 <= |bytes| <= 0xffff_ffff
    ensures var s := LiteralHeader(|bytes|) + bytes;
      ParseElement(s) == Some(Parsed(Literal(bytes), |s|))
  {
    if |bytes| <= 60 {
      ShortLiteralParses(bytes);
    } else {
      ByteCountBounds(|bytes| - 1);
      LongLiteralParses(bytes, ByteCount(|bytes| - 1));
    }
  }

  lemma LiteralExpands(bytes: seq<byte>, out: seq<byte>)
    requires 1 <= |bytes| <= 0xffff_ffff
    ensures Expand(LiteralHeader(|bytes|) + bytes, out) == Some(out + bytes)
  {
    LiteralParses(bytes);
    ExpandElement(LiteralHeader(|bytes|) + bytes, Literal(bytes), out);
  }

  /** A copy of 4 to 64 bytes in two or three bytes. */
  function CopyCode(offset: nat, len: nat): (s: seq<byte>)
    requires 4 <= len <= 64 && offset < 65536
    ensures |s| == if len < 12 && offset < 2048 then 2 else 3
  {
    if len < 12 && offset < 2048 then
      [1 + 4 * (len - 4) + 32 * (offset / 256), offset % 256]
    else
      [2 + 4 * (len - 1), offset % 256, offset / 256]
  }

  lemma CopyParses(offset: nat, len: nat)
    requires 4 <= len <= 64 && offset < 65536
    ensures ParseElement(CopyCode(offset, len)) == Some(Parsed(Copy(offset, len), |CopyCode(offset, len)|))
  {
    if len < 12 && offset < 2048 {
      ShortCopyParses(offset, len);
    } else {
      LongCopyParses(offset, len);
    }
  }

  lemma ShortCopyParses(offset: nat, len: nat)
    requires 4 <= len < 12 && offset < 2048
    ensures ParseElement([1 + 4 * (len - 4) + 32 * (offset / 256), offset % 256]) ==
      Some(Parsed(Copy(offset, len), 2))
  {
    var tag: byte := 1 + 4 * (len - 4) + 32 * (offset / 256);
    var s: seq<byte> := [tag, offset % 256];
    assert tag % 4 == 1 && tag / 4 % 8 == len - 4 && tag / 32 == offset / 256;
    assert s[1..2] == [offset % 256];
    assert [offset % 256][1..] == [];
  }

  lemma LongCopyParses(offset: nat, len: nat)
    requires 4 <= len <= 64 && offset < 65536
    ensures ParseElement([2 + 4 * (len - 1), offset % 256, offset / 256]) ==
      Some(Parsed(Copy(offset, len), 3))
  {
    var tag: byte := 2 + 4 * (len - 1);
    var s: seq<byte> := [tag, offset % 256, offset / 256];
    assert tag % 4 == 2 && tag / 4 == len - 1;
    assert s[1..3] == [offset % 256, offset / 256];
    LEPair(offset % 256, offset / 256);
  }

  lemma LEPair(a: byte, b: byte)
    ensures FromLE([a, b]) == a + 256 * b
  {
    assert [a, b][1..] == [b];
    assert [b][1..] == [];
    assert FromLE([b]) == b;
  }

  lemma CopyExpands(offset: nat, len: nat, out: seq<byte>)
    requires 4 <= len <= 64 && offset < 65536 && 1 <= offset <= |out|
    ensures Expand(CopyCode(offset, len), out) == Some(CopyForward(out, offset, len))
  {
    CopyParses(offset, len);
    ExpandElement(CopyCode(offset, len), Copy(offset, len), out);
  }

  /** A match of any length, as copies of 64, perhaps one of 60, and the rest. */
  function CopyCodes(offset: nat, len: nat): (s: seq<byte>)
    requires 4 <= len && offset < 65536
    ensures |s| <= len - 1
    decreases len
  {
    if len >= 68 then CopyCode(offset, 64) + CopyCodes(offset, len - 64)
    else if len > 64 then CopyCode(offset, 60) + CopyCodes(offset, len - 60)
    else CopyCode(offset, len)
  }

  lemma {:induction false} CopyForwardSum(out: seq<byte>, offset: nat, m: nat, n: nat)
    requires 1 <= offset <= |out|
    ensures CopyForward(CopyForward(out, offset, m), offset, n) == CopyForward(out, offset, m + n)
    decreases m
  {
    if m > 0 {
      CopyForwardSum(out + [out[|out| - offset]], offset, m - 1, n);
    }
  }

  lemma CopyCodesMore(offset: nat, m: nat, n: nat, codes: seq<byte>, out: seq<byte>)
    requires 4 <= m <= 64 && offset < 65536 && 1 <= offset <= |out|
    requires Expand(codes, CopyForward(out, offset, m)) == Some(CopyForward(CopyForward(out, offset, m), offset, n))
    ensures Expand(CopyCode(offset, m) + codes, out) == Some(CopyForward(out, offset, m + n))
  {
    CopyExpands(offset, m, out);
    CopyForwardSum(out, offset, m, n);
    ExpandConcat(CopyCode(offset, m), codes, out);
  }

  lemma {:induction false} CopyCodesExpand(offset: nat, len: nat, out: seq<byte>)
    requires 4 <= len && offset < 65536 && 1 <= offset <= |out|
    ensures Expand(CopyCodes(offset, len), out) == Some(CopyForward(out, offset, len))
    decreases len
  {
    if len > 64 {
      var m := if len >= 68 then 64 else 60;
      CopyCodesExpand(offset, len - m, CopyForward(out, offset, m));
      CopyCodesMore(offset, m, len - m, CopyCodes(offset, len - m), out);
    } else {
      CopyExpands(offset, len, out);
    }
  }

  // ------------------------------------------------------------------
  // Emitting into the output buffer
  // ------------------------------------------------------------------

  /** Writes `bytes` at `op`. */
  method Store(out: array<byte>, op: nat, bytes: seq<byte>)
    requires op + |bytes| <= out.Length
    modifies out
    ensures out[op..op + |bytes|] == bytes
    ensures forall k :: 0 <= k < out.Length && !(op <= k < op + |bytes|) ==> out[k] == old(out[k])
  {
    forall k | op <= k < op + |bytes| {
      out[k] := bytes[k - op];
    }
  }

  /** One more digit of `left` in front of the rest. */
  lemma NextDigit(digits: seq<byte>, left: nat, all: seq<byte>)
    requires left > 0 && digits + ToLE(left, ByteCount(left)) == all
    ensures digits + [left % 256] + ToLE(left / 256, ByteCount(left / 256)) == all
    ensures ByteCount(left) == 1 + ByteCount(left / 256)
  {
    Assoc(digits, [left % 256], ToLE(left / 256, ByteCount(left / 256)));
  }

  /** Writes the bytes of n, as many as it has, least significant first. */
  method EmitDigits(out: array<byte>, at: nat, n: nat, ghost all: seq<byte>) returns (count: nat)
    requires all == ToLE(n, ByteCount(n)) && at + |all| <= out.Length
    modifies out
    ensures count == |all| && out[at..at + count] == all
    ensures forall k :: 0 <= k < out.Length && !(at <= k < at + count) ==> out[k] == old(out[k])
  {
    var left: nat := n;
    count := 0;
    ghost var digits: seq<byte> := [];
    while left > 0
      invariant |digits| == count && count + ByteCount(left) == |all|
      invariant out[at..at + count] == digits && digits + ToLE(left, ByteCount(left)) == all
      invariant forall k :: 0 <= k < out.Length && !(at <= k < at + count) ==> out[k] == old(out[k])
    {
      NextDigit(digits, left, all);
      digits := digits + [left % 256];
      out[at + count] := left % 256;
      left := left / 256;
      count := count + 1;
    }
  }

  /** The header of a literal whose length does not fit the tag byte. */
  method EmitLongHeader(out: array<byte>, op: nat, n: nat) returns (r: nat)
    requires 60 <= n < 0x1_0000_0000 && op + 1 + ByteCount(n) <= out.Length
    modifies out
    ensures r == op + 1 + ByteCount(n) && out[op..r] == LiteralHeader(n + 1)
    ensures forall k :: 0 <= k < out.Length && !(op <= k < r) ==> out[k] == old(out[k])
  {
    ByteCountBounds(n);
    var count := EmitDigits(out, op + 1, n, ToLE(n, ByteCount(n)));
    out[op] := 4 * (59 + count);
    r := op + 1 + count;
    SplitRange(out[..], op, op + 1, r);
    assert out[op..op + 1] == [out[op]];
  }

  method EmitHeader(out: array<byte>, op: nat, len: nat) returns (r: nat)
    requires 1 <= len < 0x1_0000_0000 && op + |LiteralHeader(len)| <= out.Length
    modifies out
    ensures r == op + |LiteralHeader(len)| && out[op..r] == LiteralHeader(len)
    ensures forall k :: 0 <= k < out.Length && !(op <= k < r) ==> out[k] == old(out[k])
  {
    var n := len - 1;
    if n < 60 {
      out[op] := 4 * n;
      r := op + 1;
    } else {
      r := EmitLongHeader(out, op, n);
    }
  }

  /** The whole of the literal, byte for byte. */
  method StoreExact(out: array<byte>, ghost op: nat, r: nat, input: seq<byte>, from: nat, len: nat)
    requires op <= r && from + len <= |input| && r + len <= out.Length
    modifies out
    ensures out[op..r + len] == old(out[op..r]) + input[from..from + len]
    ensures forall k :: 0 <= k < op ==> out[k] == old(out[k])
  {
    Store(out, r, input[from..from + len]);
    SplitRange(out[..], op, r, r + len);
    assert out[op..r] == old(out[op..r]);
  }

  /** Two eight-byte moves, of which only `len` bytes count. */
  method StoreSixteen(out: array<byte>, ghost op: nat, r: nat, input: seq<byte>, from: nat, len: nat)
    requires op <= r && len <= 16 && from + 16 <= |input| && r + 16 <= out.Length
    modifies out
    ensures out[op..r + len] == old(out[op..r]) + input[from..from + len]
    ensures forall k :: 0 <= k < op ==> out[k] == old(out[k])
  {
    ghost var word := input[from..from + 16];
    Store(out, r, input[from..from + 16]);
    SplitRange(out[..], op, r, r + len);
    ShortenSlice(word, input, from, len);
    StoredPrefix(out[..], r, word, len);
    assert out[op..r] == old(out[op..r]);
  }

  /** A literal. On the fast path sixteen bytes are stored whatever the length. */
  method EmitLiteral(out: array<byte>, op: nat, input: seq<byte>, from: nat, len: nat, allowFastPath: bool)
      returns (r: nat)
    requires 1 <= len < 0x1_0000_0000 && from + len <= |input|
    requires op + |LiteralHeader(len)| + len <= out.Length
    requires allowFastPath ==> from + 16 <= |input| && op + 17 <= out.Length
    modifies out
    ensures r == op + |LiteralHeader(len)| + len
    ensures out[op..r] == LiteralHeader(len) + input[from..from + len]
    ensures forall k :: 0 <= k < op ==> out[k] == old(out[k])
  {
    r := EmitHeader(out, op, len);
    if allowFastPath && len <= 16 {
      StoreSixteen(out, op, r, input, from, len);
    } else {
      StoreExact(out, op, r, input, from, len);
    }
    r := r + len;
  }

  lemma SplitRange(s: seq<byte>, i: nat, j: nat, k: nat)
    requires i <= j <= k <= |s|
    ensures s[i..k] == s[i..j] + s[j..k]
  {
  }

  lemma StoredPrefix(s: seq<byte>, r: nat, word: seq<byte>, n: nat)
    requires n <= |word| && r + |word| <= |s| && s[r..r + |word|] == word
    ensures s[r..r + n] == word[..n]
  {
    forall k | 0 <= k < n
      ensures s[r..r + n][k] == word[..n][k]
    {
      assert s[r..r + |word|][k] == word[k];
    }
  }

  lemma ShortenSlice(word: seq<byte>, s: seq<byte>, i: nat, n: nat)
    requires n <= 16 == |word| && i + 16 <= |s| && word == s[i..i + 16]
    ensures word[..n] == s[i..i + n]
  {
  }

  method EmitCopyLessThan64(out: array<byte>, op: nat, offset: nat, len: nat) returns (r: nat)
    requires 4 <= len <= 64 && offset < 65536
    requires op + |CopyCode(offset, len)| <= out.Length
    modifies out
    ensures r == op + |CopyCode(offset, len)| && out[op..r] == CopyCode(offset, len)
    ensures forall k :: 0 <= k < out.Length && !(op <= k < r) ==> out[k] == old(out[k])
  {
    if len < 12 && offset < 2048 {
      var lenMinus4 := len - 4;
      out[op] := 1 + 4 * lenMinus4 + 32 * (offset / 256);
      out[op + 1] := offset % 256;
      r := op + 2;
    } else {
      out[op] := 2 + 4 * (len - 1);
      out[op + 1] := offset % 256;
      out[op + 2] := offset / 256;
      r := op + 3;
    }
  }

  /** A whole match. */
  method EmitCopy(out: array<byte>, op: nat, offset: nat, len: nat) returns (r: nat)
    requires 4 <= len && offset < 65536 && op + |CopyCodes(offset, len)| <= out.Length
    modifies out
    ensures r == op + |CopyCodes(offset, len)| && out[op..r] == CopyCodes(offset, len)
    ensures forall k :: 0 <= k < op ==> out[k] == old(out[k])
  {
    var left := len;
    r := op;
    while left >= 68
      invariant 4 <= left <= len && op <= r && r + |CopyCodes(offset, left)| == op + |CopyCodes(offset, len)|
      invariant out[op..r] + CopyCodes(offset, left) == CopyCodes(offset, len)
      invariant forall k :: 0 <= k < op ==> out[k] == old(out[k])
    {
      Assoc(out[op..r], CopyCode(offset, 64), CopyCodes(offset, left - 64));
      r := EmitChunk(out, op, r, offset, 64);
      left := left - 64;
    }
    if left > 64 {
      Assoc(out[op..r], CopyCode(offset, 60), CopyCodes(offset, left - 60));
      r := EmitChunk(out, op, r, offset, 60);
      left := left - 60;
    }
    r := EmitChunk(out, op, r, offset, left);
  }

  /** Appends one copy code to what stands in `out[op..r]`. */
  method EmitChunk(out: array<byte>, ghost op: nat, r: nat, offset: nat, len: nat) returns (r': nat)
    requires 4 <= len <= 64 && offset < 65536 && op <= r
    requires r + |CopyCode(offset, len)| <= out.Length
    modifies out
    ensures r' == r + |CopyCode(offset, len)|
    ensures out[op..r'] == old(out[op..r]) + CopyCode(offset, len)
    ensures forall k :: 0 <= k < op ==> out[k] == old(out[k])
  {
    ghost var done := out[op..r];
    r' := EmitCopyLessThan64(out, r, offset, len);
    assert out[op..r] == done;
    assert out[op..r'] == out[op..r] + out[r..r'];
  }
}
