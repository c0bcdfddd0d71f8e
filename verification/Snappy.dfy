/** Whole streams: preamble, blocks, and the round trip. */
module Snappy {
  import opened Bytes
  import opened SnappyFormat
  import opened SnappySource
  import opened SnappyEmit
  import opened SnappyScript
  import opened SnappyCompress
  import SnappyDecompress

  // ------------------------------------------------------------------
  // The length preamble
  // ------------------------------------------------------------------

  function EncodeLength(v: nat): (s: seq<byte>)
    ensures s != []
  {
    if v < 128 then [v] else [v % 128 + 128] + EncodeLength(v / 128)
  }

  /** The largest value, plus one, that still fits after `k` bytes. */
  function LengthBound(k: nat): (b: nat)
    requires k < 5
  {
    if k == 0 then 0x1_0000_0000 else if k == 1 then 0x200_0000
    else if k == 2 then 0x4_0000 else if k == 3 then 0x800 else 0x10
  }

  lemma {:induction false} LengthRoundTrip(v: nat, k: nat, t: seq<byte>)
    requires k < 5 && v < LengthBound(k)
    ensures ParseLength(EncodeLength(v) + t, k) == Some((v, |EncodeLength(v)|))
    ensures |EncodeLength(v)| <= 5 - k
    decreases v
  {
    if v >= 128 {
      LengthRoundTrip(v / 128, k + 1, t);
      var s := EncodeLength(v) + t;
      assert s[0] == v % 128 + 128;
      assert s[1..] == EncodeLength(v / 128) + t;
    }
  }

  /** The unrolled encoder. */
  method VarintEncode32(v: u32) returns (s: seq<byte>)
    ensures s == EncodeLength(v)
  {
    var n: int := v;
    EncodeUnrolls(n);
    if n < 0x80 {
      s := [n];
    } else if n < 0x4000 {
      s := [n % 128 + 128, n / 0x80];
    } else if n < 0x20_0000 {
      s := [n % 128 + 128, n / 0x80 % 128 + 128, n / 0x4000];
    } else if n < 0x1000_0000 {
      s := [n % 128 + 128, n / 0x80 % 128 + 128, n / 0x4000 % 128 + 128, n / 0x20_0000];
    } else {
      s := [n % 128 + 128, n / 0x80 % 128 + 128, n / 0x4000 % 128 + 128, n / 0x20_0000 % 128 + 128,
            n / 0x1000_0000];
    }
  }

  lemma EncodeUnrolls(v: nat)
    ensures v >= 0x80 ==> EncodeLength(v) == [v % 128 + 128] + EncodeLength(v / 0x80)
    ensures v >= 0x4000 ==> EncodeLength(v / 0x80) == [v / 0x80 % 128 + 128] + EncodeLength(v / 0x4000)
    ensures v >= 0x20_0000 ==>
      EncodeLength(v / 0x4000) == [v / 0x4000 % 128 + 128] + EncodeLength(v / 0x20_0000)
    ensures v >= 0x1000_0000 ==>
      EncodeLength(v / 0x20_0000) == [v / 0x20_0000 % 128 + 128] + EncodeLength(v / 0x1000_0000)
  {
    assert v / 0x80 / 128 == v / 0x4000;
    assert v / 0x4000 / 128 == v / 0x20_0000;
    assert v / 0x20_0000 / 128 == v / 0x1000_0000;
  }

  /** The length that callers use to size their buffer is parsed by other code
      than the one that decompression uses: it insists on a fifth byte below 16. */
  function VarintParse32(s: seq<byte>, k: nat): (r: Option<(nat, nat)>)
    requires k < 5
    decreases 5 - k
  {
    if s == [] then None
    else if s[0] < (if k == 4 then 16 else 128) then Some((s[0], 1))
    else if k == 4 then None
    else
      var rest := VarintParse32(s[1..], k + 1);
      if rest.None? then None else Some((s[0] % 128 + 128 * rest.value.0, 1 + rest.value.1))
  }

  /** Five bytes, the fifth between 16 and 127. */
  predicate Overlong(s: seq<byte>, k: nat)
    requires k < 5
    decreases 5 - k
  {
    s != [] && if k == 4 then 16 <= s[0] < 128 else s[0] >= 128 && Overlong(s[1..], k + 1)
  }

  /** The two parsers agree on every stream but those with an overlong preamble,
      which decompression truncates and the other parser rejects. */
  lemma {:induction false} ParsersAgree(s: seq<byte>, k: nat)
    requires k < 5
    ensures VarintParse32(s, k) == ParseLength(s, k) <==> !Overlong(s, k)
    ensures Overlong(s, k) ==> VarintParse32(s, k).None? && ParseLength(s, k).Some?
    decreases 5 - k
  {
    if s != [] && s[0] >= 128 && k < 4 {
      ParsersAgree(s[1..], k + 1);
    }
  }

  /** A preamble on which they differ: decompression takes it for the length 0. */
  lemma OverlongPreamble(rest: seq<byte>)
    ensures VarintParse32([0x80, 0x80, 0x80, 0x80, 0x10] + rest, 0) == None
    ensures ParseLength([0x80, 0x80, 0x80, 0x80, 0x10] + rest, 0) == Some((0, 5))
  {
    var s: seq<byte> := [0x80, 0x80, 0x80, 0x80, 0x10] + rest;
    assert s[1..][1..][1..][1..] == s[4..];
    ParsersAgree(s, 0);
  }

  /** A literal whose four length bytes are all 0xff should have 2^32 bytes; the
      decoder's 32-bit sum makes it empty, and accepts it. */
  lemma WrappedLiteralIsEmpty(rest: seq<byte>, out: seq<byte>)
    ensures Expand([0xfc, 0xff, 0xff, 0xff, 0xff] + rest, out) == Expand(rest, out)
  {
    hide Expand;
    var s: seq<byte> := [0xfc, 0xff, 0xff, 0xff, 0xff] + rest;
    var four: seq<byte> := [0xff, 0xff, 0xff, 0xff];
    assert s[1..5] == four;
    Load32IsLE(four, 0);
    assert four[0..4] == four;
    assert s[5..5] == [] && out + [] == out;
    assert s[5..] == rest;
    ExpandStep(s, out);
  }

  /** Only that one length wraps. */
  lemma LiteralLengthWraps(c: byte, trailer: seq<byte>)
    requires c % 4 == 0 && |trailer| == TrailerSize(c)
    ensures LiteralLength(c, FromLE(trailer)) == (if c / 4 < 60 then c / 4 else FromLE(trailer)) + 1
      <==> !(c == 0xfc && FromLE(trailer) == 0xffff_ffff)
  {
    Pow256Values();
    if c / 4 >= 60 && c != 0xfc {
      assert |trailer| <= 3;
      assert FromLE(trailer) < Pow256(|trailer|) <= 0x100_0000;
    }
  }

  // ------------------------------------------------------------------
  // Compressing a fragmented input, block by block
  // ------------------------------------------------------------------

  /** Copies the next `n` input bytes together when no fragment holds them all. */
  method GatherBlock(reader: Source, scratch: array<byte>, n: nat) returns (block: seq<byte>)
    requires reader.Valid() && n <= |reader.remaining| && n <= scratch.Length
    modifies reader, scratch
    ensures reader.Valid()
    ensures block == old(reader.remaining)[..n] && reader.remaining == old(reader.remaining)[n..]
  {
    var bytesRead := 0;
    ghost var all := reader.remaining;
    while bytesRead < n
      invariant reader.Valid() && bytesRead <= n
      invariant scratch[..bytesRead] == all[..bytesRead] && reader.remaining == all[bytesRead..]
      decreases n - bytesRead
    {
      var fragment := reader.Peek();
      var m := Min(|fragment|, n - bytesRead);
      GatherPart(all, bytesRead, m);
      ghost var done := scratch[..bytesRead];
      forall k | bytesRead <= k < bytesRead + m {
        scratch[k] := fragment[k - bytesRead];
      }
      assert scratch[..bytesRead + m] == done + fragment[..m];
      reader.Skip(m);
      bytesRead := bytesRead + m;
    }
    block := scratch[..n];
  }

  lemma GatherPart(all: seq<byte>, i: nat, m: nat)
    requires i + m <= |all|
    ensures all[..i] + all[i..][..m] == all[..i + m]
    ensures all[i..][m..] == all[i + m..]
  {
  }

  /** The next block, straight from the fragment when it is long enough. */
  method NextBlock(reader: Source, scratch: array<byte>, n: nat) returns (block: seq<byte>)
    requires reader.Valid() && n <= |reader.remaining| && n <= scratch.Length
    modifies reader, scratch
    ensures reader.Valid()
    ensures block == old(reader.remaining)[..n] && reader.remaining == old(reader.remaining)[n..]
  {
    var fragment := reader.Peek();
    if |fragment| >= n {
      block := fragment[..n];
      reader.Skip(n);
    } else {
      block := GatherBlock(reader, scratch, n);
    }
  }

  /** The smallest table size that the input fills, and a table zeroed that far. */
  method GetHashTable(table: array<u16>, inputSize: nat) returns (size: nat)
    requires table.Length == 0x4000
    modifies table
    ensures TableSize(size) && size == TableSizeFor(inputSize) && forall k :: 0 <= k < size ==> table[k] == 0
  {
    size := 256;
    while size < 0x4000 && size < inputSize
      invariant TableSize(size) && (size == 256 || size / 2 < inputSize)
      decreases 0x4000 - size
    {
      size := 2 * size;
    }
    forall k | 0 <= k < size {
      table[k] := 0;
    }
  }

  /** The least table size that holds n entries; the greatest there is, if none does. */
  function TableSizeFor(n: nat): (size: nat)
    ensures TableSize(size) && (size < n ==> size == 0x4000) && (size > 0x100 ==> size / 2 < n)
  {
    if n <= 0x100 then 0x100 else if n <= 0x200 then 0x200 else if n <= 0x400 then 0x400 else if n <= 0x800 then 0x800
    else if n <= 0x1000 then 0x1000 else if n <= 0x2000 then 0x2000 else 0x4000
  }

  /** What a text is compressed to, block by block. */
  function BlocksCode(text: seq<byte>, hash: Hash): (s: seq<byte>)
    decreases |text|
  {
    if text == [] then []
    else
      var n := Min(|text|, BLOCK_SIZE);
      BlockCode(text[..n], hash, TableSizeFor(n)) + BlocksCode(text[n..], hash)
  }

  function Compressed(text: seq<byte>, hash: Hash): (s: seq<byte>) {
    EncodeLength(|text|) + BlocksCode(text, hash)
  }

  ghost predicate GoodHash(hash: Hash) {
    forall x: u32, size: nat :: TableSize(size) ==> hash(x, size) < size
  }

  /** The library's own hash function, whatever it is on sizes that no table has. */
  lemma OwnHashIsGood(hash: Hash)
    requires forall x: u32, size: nat :: TableSize(size) ==> hash(x, size) == HashBytes(x, size)
    ensures GoodHash(hash)
  {
    forall x: u32, size: nat | TableSize(size)
      ensures hash(x, size) < size
    {
      assert hash(x, size) == HashBytes(x, size);
    }
  }

  /** Compressed so far: preamble, then blocks that expand to the text up to `c`. */
  ghost predicate CompressedTo(out: seq<byte>, p: nat, op: nat, text: seq<byte>, c: nat) {
    p <= op <= |out| && c <= |text| && p <= 5 &&
    out[..p] == EncodeLength(|text|) && Expand(out[p..op], []) == Some(text[..c]) &&
    6 * (op - p) <= 7 * c + (if c == |text| then 18 else 0)
  }

  lemma CompressedMore(a: seq<byte>, b: seq<byte>, p: nat, op: nat, r: nat, text: seq<byte>, c: nat, m: nat)
    requires CompressedTo(a, p, op, text, c) && 0 < m && c + m <= |text|
    requires |a| == |b| && op <= r <= |b| && b[..op] == a[..op]
    requires Expand(b[op..r], text[..c]) == Some(text[..c] + text[c..][..m])
    requires 60 * (r - op - m - 3) <= m && (c + m < |text| ==> m == BLOCK_SIZE)
    ensures CompressedTo(b, p, r, text, c + m)
  {
    GatherPart(text, c, m);
    assert a[..op][..p] == a[..p] && b[..op][..p] == b[..p];
    assert a[..op][p..] == a[p..op] && b[..op][p..] == b[p..op];
    ExpandConcat(b[p..op], b[op..r], []);
    SplitRange(b, p, op, r);
  }

  /** The buffer has room for the next block, overshooting stores included. */
  lemma RoomLeft(out: seq<byte>, p: nat, op: nat, text: seq<byte>, c: nat, m: nat)
    requires CompressedTo(out, p, op, text, c) && 0 < m && c + m <= |text|
    requires |out| >= MaxCompressedLength(|text|)
    ensures op + Room(m) <= |out|
    ensures text[c..][m..] == text[c + m..]
  {
  }

  lemma CompressedAll(out: seq<byte>, p: nat, op: nat, text: seq<byte>)
    requires CompressedTo(out, p, op, text, |text|) && |text| < 0x8000_0000
    ensures Decode(out[..op]) == Some(text)
    ensures op <= MaxCompressedLength(|text|)
  {
    LengthRoundTrip(|text|, 0, out[p..op]);
    assert out[..op] == out[..p] + out[p..op];
    assert out[..op][p..] == out[p..op];
    assert text[..|text|] == text;
  }

  /** Compression: `hash` may be any function into the table's range. */
  method Compress(frags: seq<seq<byte>>, out: array<byte>, hash: Hash) returns (written: nat)
    requires GoodFragments(frags) && |Concat(frags)| < 0x8000_0000 && GoodHash(hash)
    requires out.Length >= MaxCompressedLength(|Concat(frags)|)
    modifies out
    ensures written <= MaxCompressedLength(|Concat(frags)|) <= out.Length &&
      out[..written] == Compressed(Concat(frags), hash)
    ensures Decode(out[..written]) == Some(Concat(frags))
  {
    hide CompressedTo, BlocksCode, Decode, EncodeLength, Concat;
    var reader := new Source(frags);
    ghost var text := Concat(frags);
    var left: nat := TotalLength(frags);
    var scratch, table := new byte[BLOCK_SIZE], new u16[0x4000];
    var op: nat := EmitPreamble(out, left, text);
    CompressedRoom(out[..], op, op, text, 0);
    ghost var p: nat, c: nat := op, 0;
    assert text[0..] == text;
    while left > 0
      invariant reader.Valid() && 0 <= left && c + left == |text| && reader.remaining == text[c..]
      invariant CompressedTo(out[..], p, op, text, c)
      invariant op <= out.Length && out[..op] + BlocksCode(text[c..], hash) == Compressed(text, hash)
    {
      var n;
      op, n := CompressNext(reader, scratch, table, out, op, left, hash, p, text, c);
      CompressedRoom(out[..], p, op, text, c + n);
      left := left - n;
      c := c + n;
    }
    CompressedAll(out[..], p, op, text);
    assert out[..][..op] == out[..op];
    BlocksDone(hash);
    assert text[c..] == [] && out[..op] + [] == out[..op];
    written := op;
  }

  /** Fetches and compresses the next block. */
  method CompressNext(reader: Source, scratch: array<byte>, table: array<u16>, out: array<byte>, op0: nat,
      left: nat, hash: Hash, ghost p: nat, ghost text: seq<byte>, ghost c: nat)
      returns (op: nat, n: nat)
    requires reader.Valid() && 0 < left && c + left == |text| && reader.remaining == text[c..]
    requires scratch.Length == BLOCK_SIZE && scratch != out && table.Length == 0x4000 && GoodHash(hash)
    requires out.Length >= MaxCompressedLength(|text|) && CompressedTo(out[..], p, op0, text, c)
    modifies reader, scratch, table, out
    ensures reader.Valid() && 0 < n <= left && reader.remaining == text[c + n..]
    ensures CompressedTo(out[..], p, op, text, c + n)
    ensures out[..op] + BlocksCode(text[c + n..], hash) == old(out[..op0]) + BlocksCode(text[c..], hash)
  {
    n := Min(left, BLOCK_SIZE);
    var block := NextBlock(reader, scratch, n);
    RoomLeft(out[..], p, op0, text, c, n);
    ghost var before := out[..];
    op := CompressBlock(block, out, op0, table, hash, text[..c]);
    CompressedMore(before, out[..], p, op0, op, text, c, n);
    BlocksStep(before, out[..], op0, op, text, c, n, hash);
  }

  lemma BlocksDone(hash: Hash)
    ensures BlocksCode([], hash) == []
  {
  }

  lemma CompressedRoom(out: seq<byte>, p: nat, op: nat, text: seq<byte>, c: nat)
    requires CompressedTo(out, p, op, text, c)
    ensures p <= op <= |out|
  {
  }

  lemma BlocksStep(a: seq<byte>, b: seq<byte>, op: nat, r: nat, text: seq<byte>, c: nat, n: nat, hash: Hash)
    requires c < |text| && n == Min(|text| - c, BLOCK_SIZE) && op <= r <= |b| == |a| && b[..op] == a[..op]
    requires b[op..r] == BlockCode(text[c..][..n], hash, TableSizeFor(n))
    ensures b[..r] + BlocksCode(text[c + n..], hash) == a[..op] + BlocksCode(text[c..], hash)
  {
    hide BlockCode;
    assert text[c..][n..] == text[c + n..];
    assert b[..r] == b[..op] + b[op..r];
    Assoc(a[..op], b[op..r], BlocksCode(text[c + n..], hash));
  }

  method EmitPreamble(out: array<byte>, n: u32, ghost text: seq<byte>) returns (op: nat)
    requires n == |text| && out.Length >= 5
    modifies out
    ensures CompressedTo(out[..], op, op, text, 0) && out[..op] == EncodeLength(n)
  {
    LengthRoundTrip(n, 0, []);
    var preamble := VarintEncode32(n);
    Store(out, 0, preamble);
    op := |preamble|;
    assert out[..][..op] == out[0..op] && out[..][op..op] == [] && text[..0] == [];
  }

  method CompressBlock(block: seq<byte>, out: array<byte>, op0: nat, table: array<u16>,
      hash: Hash, ghost pre: seq<byte>) returns (op: nat)
    requires 0 < |block| <= BLOCK_SIZE && op0 + Room(|block|) <= out.Length
    requires table.Length == 0x4000 && GoodHash(hash)
    modifies out, table
    ensures op0 <= op <= out.Length && Expand(out[op0..op], pre) == Some(pre + block)
    ensures out[op0..op] == BlockCode(block, hash, TableSizeFor(|block|))
    ensures 60 * (op - op0 - |block| - 3) <= |block|
    ensures forall k :: 0 <= k < op0 ==> out[k] == old(out[k])
  {
    var size := GetHashTable(table, |block|);
    op := CompressFragment(block, out, op0, table, size, hash, pre);
  }

  method TotalLength(frags: seq<seq<byte>>) returns (n: nat)
    ensures n == |Concat(frags)|
  {
    n := 0;
    var i := 0;
    assert frags[0..] == frags;
    while i < |frags|
      invariant i <= |frags| && n + |Concat(frags[i..])| == |Concat(frags)|
    {
      assert frags[i..][1..] == frags[i + 1..];
      n := n + |frags[i]|;
      i := i + 1;
    }
  }

  /** How the input is cut into fragments makes no difference to the compressed bytes. */
  method CutsDoNotMatter(f: seq<seq<byte>>, a: array<byte>, g: seq<seq<byte>>, b: array<byte>, hash: Hash)
      returns (m: nat, n: nat)
    requires GoodFragments(f) && GoodFragments(g) && Concat(f) == Concat(g) && |Concat(f)| < 0x8000_0000 &&
      GoodHash(hash)
    requires a != b && a.Length >= MaxCompressedLength(|Concat(f)|) && b.Length >= MaxCompressedLength(|Concat(f)|)
    modifies a, b
    ensures m == n <= a.Length && n <= b.Length && a[..m] == b[..n]
  {
    m := Compress(f, a, hash);
    n := Compress(g, b, hash);
    assert |a[..m]| == |b[..n]|;
  }

  /** The point of the library: what was compressed comes back, whatever the
      hash function and however the input was cut into fragments. */
  method RoundTrip(frags: seq<seq<byte>>, hash: Hash, back: array<byte>) returns (ok: bool)
    requires GoodFragments(frags) && |Concat(frags)| < 0x8000_0000 && GoodHash(hash)
    requires back.Length >= |Concat(frags)|
    modifies back
    ensures ok && back[..|Concat(frags)|] == Concat(frags)
  {
    var n := TotalLength(frags);
    var out := new byte[MaxCompressedLength(n)];
    var written := Compress(frags, out, hash);
    var stream := [out[..written]];
    assert Concat(stream[1..]) == [] && Concat(stream) == out[..written];
    DecodedLength(out[..written]);
    ok := SnappyDecompress.Uncompress(stream, back, 0xffff_ffff);
  }

  lemma DecodedLength(s: seq<byte>)
    requires Decode(s).Some?
    ensures ParseLength(s, 0).Some? && ParseLength(s, 0).value.0 == |Decode(s).value|
  {
  }
}
