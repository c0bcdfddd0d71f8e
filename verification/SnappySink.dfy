/** Compressing into an output that is spread over several buffers. */
module SnappySink {
  import opened Bytes
  import opened SnappyFormat
  import opened SnappySource
  import opened SnappyEmit
  import opened SnappyScript
  import opened SnappyCompress
  import opened Snappy

  function TotalRoom(bs: seq<array<byte>>): (n: nat) {
    if bs == [] then 0 else TotalRoom(bs[..|bs| - 1]) + bs[|bs| - 1].Length
  }

  /** Everything in the buffers. */
  ghost function Filled(bs: seq<array<byte>>): (s: seq<byte>)
    reads set b | b in bs
    ensures |s| == TotalRoom(bs)
  {
    if bs == [] then [] else Filled(bs[..|bs| - 1]) + bs[|bs| - 1][..]
  }

  lemma Longer(before: seq<byte>, data: seq<byte>, n: nat, m: nat)
    requires n + m <= |data|
    ensures before + data[..n] + data[n..][..m] == before + data[..n + m]
  {
    assert data[..n] + data[n..][..m] == data[..n + m];
  }

  class Sink {
    const bufs: seq<array<byte>>
    var curvec: nat
    var curoff: nat
    var written: nat

    /** The current place lies in one of the buffers, which are distinct. */
    ghost predicate Placed()
      reads this
    {
      (forall i, j :: 0 <= i < j < |bufs| ==> bufs[i] != bufs[j]) && curvec < |bufs| && curoff <= bufs[curvec].Length
    }

    ghost predicate Valid()
      reads this, set b | b in bufs
    {
      Placed() && written == |Output()|
    }

    /** The bytes written so far: all buffers up to the current one are full. */
    ghost function Output(): (s: seq<byte>)
      reads this, set b | b in bufs
      requires Placed()
    {
      Filled(bufs[..curvec]) + bufs[curvec][..curoff]
    }

    constructor (bufs: seq<array<byte>>)
      requires bufs != [] && forall i, j :: 0 <= i < j < |bufs| ==> bufs[i] != bufs[j]
      ensures Valid() && this.bufs == bufs && Output() == []
    {
      this.bufs, curvec, curoff, written := bufs, 0, 0, 0;
      new;
      assert bufs[..0] == [] && bufs[0][..0] == [];
    }

    /** `memcpy` to the current place, which lies in buffer v at offset at. */
    method Copy(v: nat, at: nat, data: seq<byte>)
      requires v < |bufs| && at + |data| <= bufs[v].Length
      requires forall i, j :: 0 <= i < j < |bufs| ==> bufs[i] != bufs[j]
      modifies bufs[v]
      ensures bufs[v][..at + |data|] == old(bufs[v][..at]) + data && Filled(bufs[..v]) == old(Filled(bufs[..v]))
    {
      var b := bufs[v];
      assert forall i :: 0 <= i < v ==> bufs[..v][i] != b;
      forall k | at <= k < at + |data| {
        b[k] := data[k - at];
      }
    }

    /** Goes on in the next buffer, as the current one is full. */
    method Spill(rest: seq<byte>) returns (nlen: nat)
      requires Placed() && curoff == bufs[curvec].Length && rest != [] && |Output()| + |rest| <= TotalRoom(bufs)
      modifies this`curvec, this`curoff, set b | b in bufs
      ensures Placed() && curvec == old(curvec) + 1 && nlen <= |rest| && (nlen < |rest| ==>
        curoff == bufs[curvec].Length)
      ensures Output() == old(Output()) + rest[..nlen]
    {
      FullBuffer();
      curvec := curvec + 1;
      nlen := Min(bufs[curvec].Length, |rest|);
      Copy(curvec, 0, rest[..nlen]);
      curoff := nlen;
    }

    lemma FullBuffer()
      requires Placed() && curoff == bufs[curvec].Length
      ensures Filled(bufs[..curvec + 1]) == Output() && (|Output()| < TotalRoom(bufs) ==> curvec + 1 < |bufs|)
    {
      assert bufs[..curvec + 1][..curvec] == bufs[..curvec] && bufs[curvec][..] == bufs[curvec][..curoff];
      if curvec + 1 == |bufs| { assert bufs[..curvec + 1] == bufs; }
    }

    /** What fits the current buffer. */
    method Begin(data: seq<byte>) returns (nlen: nat)
      requires Placed()
      modifies this`curoff, set b | b in bufs
      ensures Placed() && nlen <= |data| && (nlen < |data| ==> curoff == bufs[curvec].Length)
      ensures Output() == old(Output()) + data[..nlen]
    {
      nlen := Min(bufs[curvec].Length - curoff, |data|);
      Copy(curvec, curoff, data[..nlen]);
      Assoc(old(Filled(bufs[..curvec])), old(bufs[curvec][..curoff]), data[..nlen]);
      curoff := curoff + nlen;
    }

    /** `append`: goes on in the next buffers when the current one is full. */
    method Append(data: seq<byte>)
      requires Valid() && |Output()| + |data| <= TotalRoom(bufs)
      modifies this, set b | b in bufs
      ensures Valid() && Output() == old(Output()) + data
    {
      ghost var before := Output();
      var n := Begin(data);
      written := written + |data|;
      while n < |data|
        invariant Placed() && n <= |data| && Output() == before + data[..n] && written == |before| + |data|
        invariant n < |data| ==> curoff == bufs[curvec].Length
        decreases |data| - n, |bufs| - curvec
      {
        var m := Spill(data[n..]);
        Longer(before, data, n, m);
        n := n + m;
      }
      assert data[..n] == data;
    }

    /** Whether the current buffer has room for n bytes in one piece. (The place of the buffer is
        compared with the buffer's length, which at worst makes the scratch buffer used.) */
    method Peek(n: nat) returns (ok: bool)
      requires Valid()
      ensures ok ==> n <= bufs[curvec].Length - curoff
    {
      ok := curvec < bufs[curvec].Length && bufs[curvec].Length - curoff >= n;
    }

    /** `append` of bytes that are in their place already. */
    method Advance(n: nat)
      requires Valid() && curoff + n <= bufs[curvec].Length
      modifies this
      ensures Valid() && curvec == old(curvec) && curoff == old(curoff) + n
      ensures Output() == old(Output()) + bufs[curvec][old(curoff)..curoff]
    {
      written := written + n;
      curoff := curoff + n;
      assert bufs[curvec][..curoff] == bufs[curvec][..old(curoff)] + bufs[curvec][old(curoff)..curoff];
    }
  }

  /** Compresses a block in its place, or in the scratch buffer if that is not in one piece. */
  method SinkBlock(block: seq<byte>, sink: Sink, scratchOutput: array<byte>, table: array<u16>, hash: Hash,
      ghost pre: seq<byte>)
    requires sink.Valid() && 0 < |block| <= BLOCK_SIZE && table.Length == 0x4000 && GoodHash(hash)
    requires scratchOutput !in sink.bufs && scratchOutput.Length >= MaxCompressedLength(BLOCK_SIZE)
    requires |sink.Output()| + |BlockCode(block, hash, TableSizeFor(|block|))| <= TotalRoom(sink.bufs)
    modifies sink, scratchOutput, table, set b | b in sink.bufs
    ensures sink.Valid() && sink.Output() == old(sink.Output()) + BlockCode(block, hash, TableSizeFor(|block|))
    ensures Expand(BlockCode(block, hash, TableSizeFor(|block|)), pre) == Some(pre + block)
  {
    hide BlockCode, Expand, HashFits, GoodHash;
    RoomEnough(|block|);
    var direct := sink.Peek(MaxCompressedLength(|block|));
    if direct {
      DirectBlock(block, sink, table, hash, pre);
    } else {
      var op := CompressBlock(block, scratchOutput, 0, table, hash, pre);
      sink.Append(scratchOutput[0..op]);
    }
  }

  lemma RoomEnough(n: nat)
    requires n <= BLOCK_SIZE
    ensures Room(n) <= MaxCompressedLength(n) <= MaxCompressedLength(BLOCK_SIZE)
  {
  }

  method DirectBlock(block: seq<byte>, sink: Sink, table: array<u16>, hash: Hash, ghost pre: seq<byte>)
    requires sink.Valid() && 0 < |block| <= BLOCK_SIZE && table.Length == 0x4000 && GoodHash(hash)
    requires sink.curoff + Room(|block|) <= sink.bufs[sink.curvec].Length
    modifies sink, table, sink.bufs[sink.curvec]
    ensures sink.Valid() && sink.Output() == old(sink.Output()) + BlockCode(block, hash, TableSizeFor(|block|))
    ensures Expand(BlockCode(block, hash, TableSizeFor(|block|)), pre) == Some(pre + block)
  {
    hide BlockCode, Expand, HashFits, GoodHash;
    var dest, at := sink.bufs[sink.curvec], sink.curoff;
    var op := CompressBlock(block, dest, at, table, hash, pre);
    assert forall i :: 0 <= i < sink.curvec ==> sink.bufs[..sink.curvec][i] != dest;
    assert dest[..at] == old(dest[..at]);
    sink.Advance(op - at);
  }

  /** `snappy_compress_iov`: whatever buffers the output is spread over, they hold the same bytes
      as a single one would, and no more room is needed than there are bytes. */
  method CompressIov(frags: seq<seq<byte>>, sink: Sink, hash: Hash)
    requires GoodFragments(frags) && |Concat(frags)| < 0x8000_0000 && GoodHash(hash)
    requires sink.Valid() && sink.Output() == [] && |Compressed(Concat(frags), hash)| <= TotalRoom(sink.bufs)
    modifies sink, set b | b in sink.bufs
    ensures sink.Valid() && sink.Output() == Compressed(Concat(frags), hash)
    ensures Decode(sink.Output()) == Some(Concat(frags))
  {
    hide BlocksCode, Decode, EncodeLength, Concat, GoodHash, Expand, BlockCode, Coded, Filled, TotalRoom;
    var reader := new Source(frags);
    var left: nat := TotalLength(frags);
    var preamble := VarintEncode32(left);
    ghost var text := Concat(frags);
    assert |preamble| <= |Compressed(text, hash)|;
    sink.Append(preamble);
    assert [] + preamble == preamble && preamble + [] == preamble;
    ghost var code := SinkBlocks(reader, sink, left, hash, text);
    AllCoded(code, text, hash);
  }

  /** The blocks, one after the other. */
  method SinkBlocks(reader: Source, sink: Sink, left0: nat, hash: Hash, ghost text: seq<byte>)
    returns (ghost code: seq<byte>)
    requires reader.Valid() && left0 == |text| && reader.remaining == text && sink.Valid() && GoodHash(hash)
    requires sink.Output() == EncodeLength(|text|) && |Compressed(text, hash)| <= TotalRoom(sink.bufs)
    modifies reader, sink, set b | b in sink.bufs
    ensures sink.Valid() && sink.Output() == EncodeLength(|text|) + code && Coded(code, text, |text|, hash)
  {
    hide BlocksCode, Decode, EncodeLength, Concat, GoodHash, Expand, BlockCode, Coded, Filled, TotalRoom;
    var scratch, table := new byte[BLOCK_SIZE], new u16[0x4000];
    var scratchOutput := new byte[MaxCompressedLength(BLOCK_SIZE)];
    var left := left0;
    ghost var c: nat := 0;
    code := [];
    StartCode(text, hash);
    assert EncodeLength(|text|) + [] == EncodeLength(|text|) && text[0..] == text;
    while left > 0
      invariant reader.Valid() && c + left == |text| && reader.remaining == text[c..] && sink.Valid()
      invariant sink.Output() == EncodeLength(|text|) + code && Coded(code, text, c, hash)
      decreases left
    {
      var n;
      n, code := SinkNext(reader, scratch, scratchOutput, table, sink, left, hash, text, c, code);
      c, left := c + n, left - n;
    }
  }

  /** Fetches the next block and compresses it into the sink. */
  method SinkNext(reader: Source, scratch: array<byte>, scratchOutput: array<byte>, table: array<u16>, sink: Sink,
      left: nat, hash: Hash, ghost text: seq<byte>, ghost c: nat, ghost code: seq<byte>)
    returns (n: nat, ghost code2: seq<byte>)
    requires reader.Valid() && 0 < left && c + left == |text| && reader.remaining == text[c..] && sink.Valid()
    requires scratch.Length == BLOCK_SIZE && table.Length == 0x4000 && GoodHash(hash)
    requires scratchOutput !in sink.bufs && scratchOutput.Length >= MaxCompressedLength(BLOCK_SIZE)
    requires scratch !in sink.bufs
    requires sink.Output() == EncodeLength(|text|) + code && Coded(code, text, c, hash)
    requires |Compressed(text, hash)| <= TotalRoom(sink.bufs)
    modifies reader, scratch, scratchOutput, table, sink, set b | b in sink.bufs
    ensures reader.Valid() && 0 < n <= left && reader.remaining == text[c + n..] && sink.Valid()
    ensures sink.Output() == EncodeLength(|text|) + code2 && Coded(code2, text, c + n, hash)
  {
    hide BlocksCode, EncodeLength, Concat, GoodHash, Expand, BlockCode, Coded, Filled;
    n := Min(left, BLOCK_SIZE);
    var block := NextBlock(reader, scratch, n);
    NextCode(code, text, c, n, hash);
    SinkBlock(block, sink, scratchOutput, table, hash, text[..c]);
    ghost var more := BlockCode(block, hash, TableSizeFor(n));
    CodeMore(code, text, c, n, hash);
    Assoc(EncodeLength(|text|), code, more);
    code2 := code + more;
  }

  /** The code of the text up to `c`. */
  ghost predicate Coded(code: seq<byte>, text: seq<byte>, c: nat, hash: Hash) {
    c <= |text| && Expand(code, []) == Some(text[..c]) && code + BlocksCode(text[c..], hash) == BlocksCode(text, hash)
  }

  lemma StartCode(text: seq<byte>, hash: Hash)
    ensures Coded([], text, 0, hash)
  {
    assert text[0..] == text && text[..0] == [];
  }

  lemma NextCode(code: seq<byte>, text: seq<byte>, c: nat, n: nat, hash: Hash)
    requires Coded(code, text, c, hash) && c < |text| && n == Min(|text| - c, BLOCK_SIZE)
    ensures |code| + |BlockCode(text[c..][..n], hash, TableSizeFor(n))| <= |BlocksCode(text, hash)|
  {
  }

  lemma CodeMore(code: seq<byte>, text: seq<byte>, c: nat, n: nat, hash: Hash)
    requires Coded(code, text, c, hash) && c < |text| && n == Min(|text| - c, BLOCK_SIZE)
    requires Expand(BlockCode(text[c..][..n], hash, TableSizeFor(n)), text[..c]) == Some(text[..c] + text[c..][..n])
    ensures Coded(code + BlockCode(text[c..][..n], hash, TableSizeFor(n)), text, c + n, hash)
  {
    var more := BlockCode(text[c..][..n], hash, TableSizeFor(n));
    GatherPart(text, c, n);
    ExpandConcat(code, more, []);
    Assoc(code, more, BlocksCode(text[c + n..], hash));
  }

  lemma AllCoded(code: seq<byte>, text: seq<byte>, hash: Hash)
    requires Coded(code, text, |text|, hash) && |text| < 0x8000_0000
    ensures EncodeLength(|text|) + code == Compressed(text, hash)
    ensures Decode(EncodeLength(|text|) + code) == Some(text)
  {
    BlocksDone(hash);
    assert text[|text|..] == [] && text[..|text|] == text && code + [] == code;
    LengthRoundTrip(|text|, 0, code);
    assert (EncodeLength(|text|) + code)[|EncodeLength(|text|)|..] == code;
  }
}
