/** The table-driven decompressor, reading fragments and writing a flat buffer. */
module SnappyDecompress {
  import opened Bytes
  import opened SnappyFormat
  import opened SnappySource
  import opened SnappyTable
  import opened SnappyWriter

  const WORDMASK: seq<u32> := [0, 0xff, 0xffff, 0xff_ffff, 0xffff_ffff]

  /** What is left to do once a literal has `n` bytes to go. */
  ghost function AfterLiteral(s: seq<byte>, n: nat, out: seq<byte>): (r: Option<seq<byte>>)
    ensures r.Some? ==> |out| + n <= |r.value|
  {
    if |s| < n then None else Expand(s[n..], out + s[..n])
  }

  lemma AfterLiteralPart(s: seq<byte>, n: nat, m: nat, out: seq<byte>)
    requires m <= n && m <= |s|
    ensures AfterLiteral(s, n, out) == AfterLiteral(s[m..], n - m, out + s[..m])
  {
    if n <= |s| {
      assert s[m..][n - m..] == s[n..];
      assert out + s[..n] == out + s[..m] + s[m..][..n - m];
    }
  }

  lemma AfterLiteralDone(s: seq<byte>, out: seq<byte>)
    ensures AfterLiteral(s, 0, out) == Expand(s, out)
  {
    assert s[0..] == s && out + s[..0] == out;
  }

  lemma ParseLiteral(s: seq<byte>, k: nat, n: nat)
    requires s != [] && s[0] % 4 == 0
    requires k == TrailerSize(s[0]) && 1 + k <= |s|
    requires n == LiteralLength(s[0], FromLE(s[1..1 + k]))
    ensures ParseElement(s) == if |s| < 1 + k + n then None
      else Some(Parsed(Literal(s[1 + k..1 + k + n]), 1 + k + n))
  {
  }

  lemma ExpandLiteral(s: seq<byte>, out: seq<byte>, k: nat, n: nat)
    requires s != [] && s[0] % 4 == 0
    requires k == TrailerSize(s[0]) && 1 + k <= |s|
    requires n == LiteralLength(s[0], FromLE(s[1..1 + k]))
    ensures Expand(s, out) == AfterLiteral(s[1 + k..], n, out)
  {
    ParseLiteral(s, k, n);
    ExpandStep(s, out);
    if 1 + k + n <= |s| {
      assert s[1 + k..][..n] == s[1 + k..1 + k + n];
      assert s[1 + k..][n..] == s[1 + k + n..];
    }
  }

  lemma ExpandCopy(s: seq<byte>, out: seq<byte>)
    requires s != [] && s[0] % 4 != 0
    requires var k := TrailerSize(s[0]); 1 + k <= |s|
    ensures var k := TrailerSize(s[0]); var e := CopyOf(s[0], FromLE(s[1..1 + k]));
      1 <= e.length <= 64 &&
      Expand(s, out) == if 1 <= e.offset <= |out|
        then Expand(s[1 + k..], CopyForward(out, e.offset, e.length)) else None
  {
    var k := TrailerSize(s[0]);
    ExpandStep(s, out);
  }

  lemma ConcatEmptyPrefix(s: seq<byte>, i: nat, t: seq<byte>, n: nat)
    requires i <= |s| && n <= |t|
    ensures s[i..i] + t[n..] == t[n..]
  {
  }

  lemma WholePrefix(p: seq<byte>, t: seq<byte>)
    requires p <= t
    ensures p[0..|p|] + t[|p|..] == t
  {
  }

  lemma TakeMore(taken: seq<byte>, left: seq<byte>, n: nat)
    requires n <= |left|
    ensures taken + left[..n] + left[n..] == taken + left
  {
  }

  lemma TakeNone(a: seq<byte>, n: nat, t: seq<byte>)
    requires n <= |a|
    ensures a[0..n] + t[0..] == a[..n] + t
  {
  }

  lemma BufferedPart(buf: seq<byte>, ip: nat, ipLimit: nat, m: nat, later: seq<byte>)
    requires ip + m <= ipLimit <= |buf|
    ensures (buf[ip..ipLimit] + later)[..m] == buf[ip..ip + m]
    ensures (buf[ip..ipLimit] + later)[m..] == buf[ip + m..ipLimit] + later
  {
  }

  lemma BehindTag(c: byte, rest: seq<byte>, k: nat)
    requires k <= |rest|
    ensures ([c] + rest)[1..1 + k] == rest[..k] && ([c] + rest)[1 + k..] == rest[k..]
  {
  }

  /** What a literal's tag byte leaves to be done. */
  lemma LiteralAfterTag(c: byte, rest: seq<byte>, out: seq<byte>)
    requires c % 4 == 0 && TrailerSize(c) <= |rest|
    ensures var k := TrailerSize(c); var n := LiteralLength(c, FromLE(rest[..k]));
      Expand([c] + rest, out) == AfterLiteral(rest[k..], n, out)
    ensures c / 4 + 1 <= 16 && c / 4 + 1 <= |rest| ==>
      Expand([c] + rest, out) == Expand(rest[c / 4 + 1..], out + rest[..c / 4 + 1])
  {
    var k := TrailerSize(c);
    BehindTag(c, rest, k);
    ExpandLiteral([c] + rest, out, k, LiteralLength(c, FromLE(rest[..k])));
    if c / 4 + 1 <= 16 {
      assert rest[0..] == rest;
    }
  }

  lemma CopyAfterTag(c: byte, rest: seq<byte>, out: seq<byte>)
    requires c % 4 != 0 && TrailerSize(c) <= |rest|
    ensures var k := TrailerSize(c); var e := CopyOf(c, FromLE(rest[..k]));
      1 <= e.length <= 64 &&
      Expand([c] + rest, out) == if 1 <= e.offset <= |out|
        then Expand(rest[k..], CopyForward(out, e.offset, e.length)) else None
  {
    hide *;
    var k := TrailerSize(c);
    BehindTag(c, rest, k);
    ExpandCopy([c] + rest, out);
  }

  /** The output can no longer come out at exactly `limit` bytes. */
  ghost predicate Hopeless(goal: Option<seq<byte>>, limit: nat) {
    goal.None? || |goal.value| > limit
  }

  class Decompressor {
    const reader: Source
    const scratch: array<byte>
    var buf: seq<byte>    // the fragment or scratch bytes that ip points into
    var ip: nat
    var ipLimit: nat
    var peeked: nat
    var eof: bool

    constructor (source: Source)
      requires source.Valid()
      ensures reader == source && fresh(scratch) && Valid() && !eof && ip == ipLimit
      ensures Rest() == source.remaining && peeked == 0
    {
      reader := source;
      scratch := new byte[5];
      buf, ip, ipLimit, peeked, eof := [], 0, 0, 0, false;
      new;
      assert Rest() == source.remaining;
    }

    ghost predicate Valid()
      reads this, reader
    {
      reader.Valid() && scratch.Length == 5 &&
      ip <= ipLimit <= |buf| && peeked <= |reader.current|
    }

    /** The stream from the read position on. */
    ghost function Rest(): (s: seq<byte>)
      requires Valid()
      reads this, reader
    {
      buf[ip..ipLimit] + reader.remaining[peeked..]
    }

    /** A whole tag is buffered, and a 32-bit load after the tag byte is safe. */
    ghost predicate Ready()
      reads this, reader
    {
      Valid() && !eof && ip < ipLimit && ip + 5 <= |buf| &&
      1 + TrailerSize(buf[ip]) <= ipLimit - ip
    }

    /** Fetches a new fragment when the buffered one is used up. */
    method NextFragment() returns (ok: bool)
      requires Valid() && ip == ipLimit
      modifies this`buf, this`ip, this`ipLimit, this`peeked, reader
      ensures Valid() && Rest() == old(Rest())
      ensures ok <==> Rest() != []
      ensures ok ==> ip < ipLimit == |buf|
    {
      ConcatEmptyPrefix(buf, ip, reader.remaining, peeked);
      reader.Skip(peeked);
      var p := reader.Peek();
      peeked := |p|;
      buf, ip, ipLimit := p, 0, |p|;
      WholePrefix(p, reader.remaining);
      return |p| != 0;
    }

    method FillScratch(from: nat, bytes: seq<byte>)
      requires from + |bytes| <= scratch.Length
      modifies scratch
      ensures scratch[..from + |bytes|] == old(scratch[..from]) + bytes
    {
      forall k | from <= k < from + |bytes| {
        scratch[k] := bytes[k - from];
      }
    }

    /** Moves the buffered tail into scratch, and takes `needed` bytes in all,
        from as many fragments as it takes. */
    method Stitch(needed: nat) returns (ok: bool)
      requires Valid() && ipLimit - ip < needed <= 5
      modifies this`buf, this`ip, this`ipLimit, this`peeked, reader, scratch
      ensures Valid()
      ensures ok <==> needed <= |old(Rest())|
      ensures ok ==> Rest() == old(Rest()) && ip == 0 && ipLimit == needed && |buf| == 5
    {
      hide Concat;
      FillScratch(0, buf[ip..ipLimit]);
      reader.Skip(peeked);
      peeked := 0;
      ok := Gather(ipLimit - ip, needed);
      if ok {
        TakeNone(scratch[..], needed, reader.remaining);
        buf, ip, ipLimit := scratch[..], 0, needed;
      }
    }

    /** Adds up to `needed - n` bytes of the current fragment to scratch. */
    method GatherSome(n: nat, needed: nat) returns (m: nat)
      requires reader.Valid() && scratch.Length == 5 && n < needed <= 5
      modifies reader, scratch
      ensures reader.Valid() && n <= m <= needed
      ensures m == n ==> old(reader.remaining) == []
      ensures |old(reader.remaining)| >= m - n
      ensures scratch[..m] == old(scratch[..n]) + old(reader.remaining)[..m - n]
      ensures reader.remaining == old(reader.remaining)[m - n..]
    {
      var src := reader.Peek();
      if |src| == 0 {
        return n;
      }
      var toAdd := Min(needed - n, |src|);
      assert src[..toAdd] == reader.remaining[..toAdd];
      FillScratch(n, src[..toAdd]);
      reader.Skip(toAdd);
      return n + toAdd;
    }

    /** Fills scratch from `nbuf` to `needed` bytes, one fragment after another. */
    method Gather(nbuf: nat, needed: nat) returns (ok: bool)
      requires reader.Valid() && scratch.Length == 5 && nbuf <= needed <= 5
      modifies reader, scratch
      ensures reader.Valid()
      ensures ok <==> needed <= nbuf + |old(reader.remaining)|
      ensures ok ==> scratch[..needed] + reader.remaining == old(scratch[..nbuf]) + old(reader.remaining)
    {
      var n := nbuf;
      ghost var got, left := scratch[..nbuf], reader.remaining;
      ghost var all := got + left;
      while n < needed
        invariant reader.Valid() && n <= needed
        invariant scratch[..n] == got && reader.remaining == left
        invariant got + left == all && |got| == n
      {
        var m := GatherSome(n, needed);
        if m == n {
          return false;
        }
        TakeMore(got, left, m - n);
        got, left := got + left[..m - n], left[m - n..];
        n := m;
      }
      return true;
    }

    /** Makes sure that a whole tag can be read at ip. */
    method RefillTag() returns (ok: bool)
      requires Valid() && !eof
      modifies this`buf, this`ip, this`ipLimit, this`peeked, this`eof, reader, scratch
      ensures Valid()
      ensures ok ==> Ready() && Rest() == old(Rest())
      ensures !ok && eof ==> old(Rest()) == []
      ensures !ok && !eof ==> old(Rest()) != [] && |old(Rest())| < 1 + TrailerSize(old(Rest())[0])
    {
      if ip == ipLimit {
        var more := NextFragment();
        if !more {
          eof := true;
          return false;
        }
      }
      var c := buf[ip];
      TableFields(c, 0);
      var needed := Entry(c) / 0x800 + 1;
      var nbuf := ipLimit - ip;
      assert Rest()[0] == c;
      if nbuf < needed {
        ok := Stitch(needed);
        assert ok ==> buf[ip..ipLimit][0] == c;
      } else if nbuf < 5 {
        MoveToScratch();
        return true;
      } else {
        return true;
      }
    }

    /** Short of five bytes: decode from scratch, where a load cannot overrun. */
    method MoveToScratch()
      requires Valid() && 0 < ipLimit - ip < 5
      modifies this`buf, this`ip, this`ipLimit, this`peeked, reader, scratch
      ensures Valid() && Rest() == old(Rest()) && |buf| == 5
      ensures ip == 0 && ipLimit == old(ipLimit - ip) && buf[0] == old(buf[ip])
    {
      ghost var unread, later := buf[ip..ipLimit], reader.remaining[peeked..];
      var nbuf := ipLimit - ip;
      FillScratch(0, buf[ip..ipLimit]);
      reader.Skip(peeked);
      peeked := 0;
      buf, ip, ipLimit := scratch[..], 0, nbuf;
      assert buf[ip..ipLimit] == unread;
      assert reader.remaining[0..] == later;
    }

    /** Appends the next `m` buffered bytes to the output. */
    method AppendBuffered(w: Writer, m: nat) returns (ok: bool)
      requires Valid() && w.Valid() && w.out != scratch && m <= ipLimit - ip
      modifies this`ip, w`op, w.out
      ensures Valid() && w.Valid() && w.opLimit == old(w.opLimit)
      ensures |Rest()| <= |old(Rest())|
      ensures forall k :: w.opLimit <= k < w.out.Length ==> w.out[k] == old(w.out[k])
      ensures ok ==> ip == old(ip) + m && Rest() == old(Rest())[m..]
      ensures ok ==> w.Written() == old(w.Written()) + old(Rest())[..m]
      ensures !ok ==> |old(w.Written())| + m > w.opLimit
    {
      hide Concat;
      BufferedPart(buf, ip, ipLimit, m, reader.remaining[peeked..]);
      ok := w.Append(buf[ip..ip + m]);
      if ok {
        ip := ip + m;
      }
    }

    /** The copying half of a literal that the fast path did not take. */
    method AppendLiteral(w: Writer, length: nat, ghost goal: Option<seq<byte>>) returns (ok: bool)
      requires Valid() && !eof && w.Valid() && w.out != scratch
      requires AfterLiteral(Rest(), length, w.Written()) == goal
      modifies this`buf, this`ip, this`ipLimit, this`peeked, reader, w`op, w.out
      ensures Valid() && w.Valid() && w.opLimit == old(w.opLimit)
      ensures |Rest()| <= |old(Rest())|
      ensures forall k :: w.opLimit <= k < w.out.Length ==> w.out[k] == old(w.out[k])
      ensures ok ==> AfterLiteral(Rest(), 0, w.Written()) == goal
      ensures !ok ==> Hopeless(goal, w.opLimit)
    {
      var n: nat := length;
      ok := true;
      while ok && ipLimit - ip < n
        invariant Valid() && w.Valid() && w.opLimit == old(w.opLimit)
        invariant |Rest()| <= |old(Rest())|
        invariant ok ==> AfterLiteral(Rest(), n, w.Written()) == goal
        invariant !ok ==> Hopeless(goal, w.opLimit)
        invariant forall k :: w.opLimit <= k < w.out.Length ==> w.out[k] == old(w.out[k])
        decreases ok, n, if ipLimit == ip then 1 else 0
      {
        var avail := ipLimit - ip;
        ok := LiteralChunk(w, avail, n, goal);
        n := n - avail;
        if ok {
          ok := NextFragment();
        }
      }
      if ok {
        ok := LiteralChunk(w, n, n, goal);
      }
    }

    /** Appends the next `m` of the `n` bytes that a literal still has to give. */
    method LiteralChunk(w: Writer, m: nat, n: nat, ghost goal: Option<seq<byte>>) returns (ok: bool)
      requires Valid() && w.Valid() && w.out != scratch && m <= ipLimit - ip && m <= n
      requires AfterLiteral(Rest(), n, w.Written()) == goal
      modifies this`ip, w`op, w.out
      ensures Valid() && w.Valid() && w.opLimit == old(w.opLimit)
      ensures |Rest()| <= |old(Rest())|
      ensures forall k :: w.opLimit <= k < w.out.Length ==> w.out[k] == old(w.out[k])
      ensures ok ==> ip == old(ip) + m && AfterLiteral(Rest(), n - m, w.Written()) == goal
      ensures !ok ==> Hopeless(goal, w.opLimit)
    {
      AfterLiteralPart(Rest(), n, m, w.Written());
      ok := AppendBuffered(w, m);
    }

    /** The sixteen-byte store, when both sides have the room. */
    method FastLiteral(w: Writer, n: nat) returns (ok: bool)
      requires Valid() && w.Valid() && w.out != scratch && n > 0
      modifies this`ip, w`op, w.out
      ensures Valid() && w.Valid() && w.opLimit == old(w.opLimit)
      ensures forall k :: w.opLimit <= k < w.out.Length ==> w.out[k] == old(w.out[k])
      ensures ok ==> n <= 16 && n <= |old(Rest())| && Rest() == old(Rest())[n..]
      ensures ok ==> w.Written() == old(w.Written()) + old(Rest())[..n]
      ensures !ok ==> w.Written() == old(w.Written()) && ip == old(ip)
    {
      ok := w.TryFastAppend(buf, ip, ipLimit - ip, n);
      if ok {
        BufferedPart(buf, ip, ipLimit, n, reader.remaining[peeked..]);
        ip := ip + n;
      }
    }

    /** Reads the `k` bytes after the tag with one masked 32-bit load. */
    method ReadTrailer(k: nat) returns (trailer: nat)
      requires Valid() && k <= 4 && k <= ipLimit - ip && ip + 4 <= |buf|
      modifies this`ip
      ensures Valid() && ip == old(ip) + k
      ensures trailer == FromLE(old(Rest())[..k])
      ensures Rest() == old(Rest())[k..]
    {
      var mask: int := WORDMASK[k];
      trailer := Load32(buf, ip) % (mask + 1);
      Pow256Values();
      MaskedLoad(buf, ip, k);
      BufferedPart(buf, ip, ipLimit, k, reader.remaining[peeked..]);
      ip := ip + k;
    }

    /** The tag byte itself. */
    method ReadTag() returns (c: byte)
      requires Ready()
      modifies this`ip
      ensures Valid() && ip == old(ip) + 1 && c == old(buf[ip])
      ensures old(Rest()) == [c] + Rest() && TrailerSize(c) <= ipLimit - ip && ip + 4 <= |buf|
    {
      c := buf[ip];
      BufferedPart(buf, ip, ipLimit, 1, reader.remaining[peeked..]);
      ip := ip + 1;
    }

    method DecodeLiteral(w: Writer, c: byte, ghost goal: Option<seq<byte>>) returns (ok: bool)
      requires Valid() && !eof && w.Valid() && w.out != scratch
      requires c % 4 == 0 && TrailerSize(c) <= ipLimit - ip && ip + 4 <= |buf|
      requires Expand([c] + Rest(), w.Written()) == goal
      modifies this`buf, this`ip, this`ipLimit, this`peeked, reader, w`op, w.out
      ensures Valid() && w.Valid() && w.opLimit == old(w.opLimit)
      ensures |Rest()| <= |old(Rest())|
      ensures forall k :: w.opLimit <= k < w.out.Length ==> w.out[k] == old(w.out[k])
      ensures ok ==> Expand(Rest(), w.Written()) == goal
      ensures !ok ==> Hopeless(goal, w.opLimit)
    {
      hide Concat, ParseElement;
      var literalLength := c / 4 + 1;
      LiteralAfterTag(c, Rest(), w.Written());
      ok := FastLiteral(w, literalLength);
      if !ok {
        if literalLength >= 61 {
          var trailer := ReadTrailer(literalLength - 60);
          literalLength := (trailer + 1) % 0x1_0000_0000;
        } else {
          assert Rest()[0..] == Rest();
        }
        ok := FinishLiteral(w, literalLength, goal);
      }
    }

    method FinishLiteral(w: Writer, length: nat, ghost goal: Option<seq<byte>>) returns (ok: bool)
      requires Valid() && !eof && w.Valid() && w.out != scratch
      requires AfterLiteral(Rest(), length, w.Written()) == goal
      modifies this`buf, this`ip, this`ipLimit, this`peeked, reader, w`op, w.out
      ensures Valid() && w.Valid() && w.opLimit == old(w.opLimit)
      ensures |Rest()| <= |old(Rest())|
      ensures forall k :: w.opLimit <= k < w.out.Length ==> w.out[k] == old(w.out[k])
      ensures ok ==> Expand(Rest(), w.Written()) == goal
      ensures !ok ==> Hopeless(goal, w.opLimit)
    {
      ok := AppendLiteral(w, length, goal);
      AfterLiteralDone(Rest(), w.Written());
    }

    /** Distance and length of a copy, by way of the table. */
    method ReadCopy(c: byte) returns (offset: u32, length: nat)
      requires Valid() && c % 4 != 0 && TrailerSize(c) <= ipLimit - ip && ip + 4 <= |buf|
      modifies this`ip
      ensures Valid() && Rest() == old(Rest())[TrailerSize(c)..]
      ensures Copy(offset, length) == CopyOf(c, FromLE(old(Rest())[..TrailerSize(c)]))
    {
      var entry := Entry(c);
      TableFields(c, 0);
      var trailer := ReadTrailer(entry / 0x800);
      TableFields(c, trailer);
      Pow256Values();
      length := entry % 0x100;
      offset := entry / 0x100 % 8 * 0x100 + trailer;
    }

    method DecodeCopy(w: Writer, c: byte, ghost goal: Option<seq<byte>>) returns (ok: bool)
      requires Valid() && !eof && w.Valid() && w.out != scratch
      requires c % 4 != 0 && TrailerSize(c) <= ipLimit - ip && ip + 4 <= |buf|
      requires Expand([c] + Rest(), w.Written()) == goal
      modifies this`ip, w`op, w.out
      ensures Valid() && w.Valid() && w.opLimit == old(w.opLimit)
      ensures |Rest()| <= |old(Rest())|
      ensures forall k :: w.opLimit <= k < w.out.Length ==> w.out[k] == old(w.out[k])
      ensures ok ==> Expand(Rest(), w.Written()) == goal
      ensures !ok ==> Hopeless(goal, w.opLimit)
    {
      CopyAfterTag(c, Rest(), w.Written());
      var offset, length := ReadCopy(c);
      ok := w.AppendFromSelf(offset, length);
    }

    /** One element of the stream. */
    method DecodeTag(w: Writer, ghost goal: Option<seq<byte>>) returns (ok: bool)
      requires Ready() && w.Valid() && w.out != scratch
      requires Expand(Rest(), w.Written()) == goal
      modifies this`buf, this`ip, this`ipLimit, this`peeked, reader, w`op, w.out
      ensures Valid() && w.Valid() && w.opLimit == old(w.opLimit)
      ensures |Rest()| < |old(Rest())|
      ensures forall k :: w.opLimit <= k < w.out.Length ==> w.out[k] == old(w.out[k])
      ensures ok ==> Expand(Rest(), w.Written()) == goal
      ensures !ok ==> Hopeless(goal, w.opLimit)
    {
      var c := ReadTag();
      if c % 4 == 0 {
        ok := DecodeLiteral(w, c, goal);
      } else {
        ok := DecodeCopy(w, c, goal);
      }
    }

    /** Refills when fewer than five bytes are buffered. */
    method MaybeRefill() returns (ok: bool)
      requires Valid() && !eof
      modifies this`buf, this`ip, this`ipLimit, this`peeked, this`eof, reader, scratch
      ensures Valid()
      ensures ok ==> Ready() && Rest() == old(Rest())
      ensures !ok && eof ==> old(Rest()) == []
      ensures !ok && !eof ==> old(Rest()) != [] && |old(Rest())| < 1 + TrailerSize(old(Rest())[0])
    {
      ok := true;
      if ipLimit - ip < 5 {
        ok := RefillTag();
      }
    }

    /** Decodes element after element until the stream ends or is found bad. */
    method DecompressAllTags(w: Writer, ghost goal: Option<seq<byte>>)
      requires Valid() && !eof && ip == ipLimit && w.Valid() && w.out != scratch
      requires Expand(Rest(), w.Written()) == goal
      modifies this`buf, this`ip, this`ipLimit, this`peeked, this`eof, reader, scratch, w`op, w.out
      ensures Valid() && w.Valid() && w.opLimit == old(w.opLimit)
      ensures forall k :: w.opLimit <= k < w.out.Length ==> w.out[k] == old(w.out[k])
      ensures eof ==> goal == Some(w.Written())
      ensures !eof ==> Hopeless(goal, w.opLimit)
    {
      hide Valid;
      RefillVerdict(Rest(), w.Written());
      var ok := MaybeRefill();
      if !ok { return; }
      while true
        invariant Ready() && w.Valid() && w.opLimit == old(w.opLimit)
        invariant forall k :: w.opLimit <= k < w.out.Length ==> w.out[k] == old(w.out[k])
        invariant Expand(Rest(), w.Written()) == goal
        decreases |Rest()|
      {
        RefillVerdict(Rest(), w.Written());
        ok := MaybeRefill();
        if !ok { return; }
        ok := DecodeTag(w, goal);
        if !ok { return; }
        RefillVerdict(Rest(), w.Written());
        ok := MaybeRefill();
        if !ok { return; }
      }
    }

    /** The length preamble, a byte at a time straight from the reader. */
    method ReadUncompressedLength() returns (ok: bool, result: u32)
      requires Valid() && ip == ipLimit && peeked == 0
      modifies reader
      ensures Valid()
      ensures ok <==> ParseLength(old(Rest()), 0).Some?
      ensures ok ==> var p := ParseLength(old(Rest()), 0).value;
        result == p.0 && Rest() == old(Rest())[p.1..]
    {
      hide Concat, GoodFragments;
      ghost var all := Rest();
      ConcatEmptyPrefix(buf, ip, reader.remaining, peeked);
      result := 0;
      var shift := 0;
      ghost var k: nat := 0;
      ResumeStart(all);
      while true
        invariant Valid() && ip == ipLimit && peeked == 0
        invariant shift == 7 * k && LengthSoFar(all, reader.remaining, result, k)
        decreases 5 - k
      {
        if shift >= 32 {
          return false, result;
        }
        ghost var left := reader.remaining;
        var more, c := ReadByte();
        if !more {
          return false, result;
        }
        LengthByte(all, left, result, k);
        // the bits are disjoint from those of result, so that or-ing adds
        result := result + ShiftLeft(c % 128, shift);
        k := k + 1;
        if c < 128 {
          ConcatEmptyPrefix(buf, ip, reader.remaining, peeked);
          return true, result;
        }
        shift := shift + 7;
      }
    }

    method ReadByte() returns (ok: bool, c: byte)
      requires reader.Valid()
      modifies reader
      ensures reader.Valid()
      ensures ok <==> old(reader.remaining) != []
      ensures ok ==> c == old(reader.remaining)[0] && reader.remaining == old(reader.remaining)[1..]
    {
      var p := reader.Peek();
      if |p| == 0 {
        return false, 0;
      }
      reader.Skip(1);
      return true, p[0];
    }
  }

  /** What shifting left by 7 * `k` multiplies by. */
  function Pow128(k: nat): (p: nat)
    ensures p > 0
  {
    if k == 0 then 1 else 128 * Pow128(k - 1)
  }

  /** The whole preamble, given the sum of its first `k` bytes and the rest. */
  ghost function Resume(acc: nat, k: nat, rest: Option<(nat, nat)>): (r: Option<(nat, nat)>) {
    if rest.None? then None else Some((acc + Pow128(k) * rest.value.0, k + rest.value.1))
  }

  /** What the byte at `k` contributes: the fifth one loses the bits beyond 32. */
  function Bits(c: byte, k: nat): nat {
    if k == 4 then c % 16 else c % 128
  }

  /** One more byte in front. */
  function Longer(bits: nat, rest: Option<(nat, nat)>): Option<(nat, nat)> {
    if rest.None? then None else Some((bits + 128 * rest.value.0, 1 + rest.value.1))
  }

  lemma ResumeStart(s: seq<byte>)
    ensures ParseLength(s, 0) == Resume(0, 0, ParseLength(s[0..], 0))
  {
    assert s[0..] == s;
  }

  lemma Pow128Values()
    ensures Pow128(0) == 1 && Pow128(1) == 0x80 && Pow128(2) == 0x4000 && Pow128(3) == 0x20_0000
    ensures Pow128(4) == 0x1000_0000 && Pow128(5) == 0x8_0000_0000
  {
    assert Pow128(2) == 128 * Pow128(1);
    assert Pow128(3) == 128 * Pow128(2);
    assert Pow128(4) == 128 * Pow128(3);
  }

  /** A 32-bit left shift by a multiple of seven. */
  function ShiftLeft(b: nat, shift: nat): (v: u32) {
    b * Pow128(shift / 7) % 0x1_0000_0000
  }

  /** `acc` holds the bits of the first `k` bytes of `all`; `left` is the rest. */
  ghost predicate LengthSoFar(all: seq<byte>, left: seq<byte>, acc: nat, k: nat) {
    k <= 5 && k <= |all| && left == all[k..] && (k < 5 ==> acc < Pow128(k)) &&
    ParseLength(all, 0) == Resume(acc, k, ParseLength(left, k))
  }

  /** One more byte of the preamble. */
  lemma LengthByte(all: seq<byte>, left: seq<byte>, acc: nat, k: nat)
    requires LengthSoFar(all, left, acc, k) && left != [] && k < 5
    ensures var add := ShiftLeft(left[0] % 128, 7 * k);
      acc + add < 0x1_0000_0000 &&
      (left[0] >= 128 ==> LengthSoFar(all, left[1..], acc + add, k + 1)) &&
      (left[0] < 128 ==> ParseLength(all, 0) == Some((acc + add, k + 1)) && left[1..] == all[k + 1..])
  {
    hide Resume, ParseLength, Pow128, ShiftLeft, Bits;
    ByteAdds(left[0], acc, k);
    ResumeStep(left, acc, k);
    assert left[1..] == all[k + 1..];
  }

  lemma ResumeStep(s: seq<byte>, acc: nat, k: nat)
    requires s != [] && k < 5
    ensures var sum := acc + Bits(s[0], k) * Pow128(k);
      Resume(acc, k, ParseLength(s, k)) ==
        if s[0] < 128 then Some((sum, k + 1)) else Resume(sum, k + 1, ParseLength(s[1..], k + 1))
  {
    hide *;
    ParseStep(s, k);
    ResumeLast(acc, k, Bits(s[0], k));
    ResumeMore(acc, k, Bits(s[0], k), ParseLength(s[1..], k + 1));
  }

  /** A preamble of one more byte, and of more than one. */
  lemma ResumeLast(acc: nat, k: nat, bits: nat)
    ensures Resume(acc, k, Some((bits, 1))) == Some((acc + bits * Pow128(k), k + 1))
  {
  }

  /** The first byte of a preamble, and the rest. */
  lemma ParseStep(s: seq<byte>, k: nat)
    requires s != [] && k < 5
    ensures ParseLength(s, k) ==
      if s[0] < 128 then Some((Bits(s[0], k), 1)) else Longer(Bits(s[0], k), ParseLength(s[1..], k + 1))
  {
  }

  /** What one byte adds stays within 32 bits and above what is there. */
  lemma ByteAdds(c: byte, acc: nat, k: nat)
    requires k < 5 && acc < Pow128(k)
    ensures ShiftLeft(c % 128, 7 * k) == Bits(c, k) * Pow128(k)
    ensures acc + Bits(c, k) * Pow128(k) < 0x1_0000_0000
    ensures k < 4 ==> acc + Bits(c, k) * Pow128(k) < Pow128(k + 1)
  {
    ShiftTruncates(c % 128, k);
    AddFits(acc, Bits(c, k), k);
    assert 7 * k / 7 == k && c % 128 % 16 == c % 16;
  }

  lemma ResumeMore(acc: nat, k: nat, bits: nat, rest: Option<(nat, nat)>)
    ensures Resume(acc, k, Longer(bits, rest)) == Resume(acc + bits * Pow128(k), k + 1, rest)
  {
    if rest.Some? {
      Distribute(Pow128(k), bits, rest.value.0);
    }
  }

  lemma Distribute(p: nat, b: nat, v: nat)
    ensures p * (b + 128 * v) == b * p + 128 * p * v
  {
    assert p * (128 * v) == 128 * p * v;
  }

  lemma AddFits(acc: nat, bits: nat, k: nat)
    requires k < 5 && acc < Pow128(k) && bits < if k == 4 then 16 else 128
    ensures acc + bits * Pow128(k) < 0x1_0000_0000
    ensures k < 4 ==> acc + bits * Pow128(k) < Pow128(k + 1)
  {
    Pow128Values();
  }

  lemma ShiftTruncates(b: nat, k: nat)
    requires b < 128 && k < 5
    ensures b * Pow128(k) % 0x1_0000_0000 == (if k == 4 then b % 16 else b) * Pow128(k)
  {
    Pow128Values();
    if k == 4 {
      ModUnique(b * 0x1000_0000, 0x1_0000_0000, b / 16, b % 16 * 0x1000_0000);
    }
  }

  /** A refill fails at the end of the stream or inside a truncated tag. */
  lemma RefillVerdict(rest: seq<byte>, out: seq<byte>)
    ensures rest == [] ==> Expand(rest, out) == Some(out)
    ensures rest != [] && |rest| < 1 + TrailerSize(rest[0]) ==> Expand(rest, out) == None
  {
    if rest != [] {
      ExpandStep(rest, out);
    }
  }

  /** Decompression of a fragmented stream. The buffer must hold the announced
      length; nothing beyond that length is written, whatever the stream. */
  method Uncompress(frags: seq<seq<byte>>, buffer: array<byte>, maxLen: u32) returns (ok: bool)
    requires GoodFragments(frags)
    requires var p := ParseLength(Concat(frags), 0);
      p.Some? && p.value.0 <= maxLen ==> p.value.0 <= buffer.Length
    modifies buffer
    ensures ok <==> Decode(Concat(frags)).Some? && |Decode(Concat(frags)).value| <= maxLen
    ensures ok ==> var out := Decode(Concat(frags)).value;
      |out| <= buffer.Length && buffer[..|out|] == out
    ensures var p := ParseLength(Concat(frags), 0);
      forall k :: 0 <= k < buffer.Length && (p.Some? ==> p.value.0 <= k) ==> buffer[k] == old(buffer[k])
  {
    var reader := new Source(frags);
    var w := new Writer(buffer);
    var d := new Decompressor(reader);
    ghost var all := d.Rest();
    var len;
    ok, len := d.ReadUncompressedLength();
    if !ok || len > maxLen {
      return false;
    }
    w.SetExpectedLength(len);
    ghost var goal := Expand(d.Rest(), w.Written());
    assert w.Written() == [];
    d.DecompressAllTags(w, goal);
    reader.Skip(d.peeked);
    ok := d.eof && w.op == w.opLimit;
  }

  /** However two streams of the same bytes are cut, they decompress alike. */
  method FragmentsDoNotMatter(f: seq<seq<byte>>, a: array<byte>, g: seq<seq<byte>>, b: array<byte>)
      returns (okA: bool, okB: bool)
    requires GoodFragments(f) && GoodFragments(g) && Concat(f) == Concat(g) && a != b
    requires var p := ParseLength(Concat(f), 0);
      p.Some? ==> p.value.0 <= a.Length && p.value.0 <= b.Length
    modifies a, b
    ensures okA == okB
    ensures okA ==> var p := ParseLength(Concat(f), 0); p.Some? && a[..p.value.0] == b[..p.value.0]
  {
    okA := Uncompress(f, a, 0xffff_ffff);
    okB := Uncompress(g, b, 0xffff_ffff);
  }
}
