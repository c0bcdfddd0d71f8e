/**
 The Snappy stream as a format: a reference decoder that knows nothing of
 buffers, hash tables, lookup tables or fragments. The compressor and the
 decompressor are both proved against it.
 */
module SnappyFormat {
  import opened Bytes

  datatype Element = Literal(bytes: seq<byte>) | Copy(offset: nat, length: nat)

  /** An element and the number of stream bytes that encode it. */
  datatype Parsed = Parsed(element: Element, size: nat)

  /** Bytes that follow the tag byte before any literal data. */
  function TrailerSize(c: byte): (k: nat)
    ensures k <= 4
  {
    if c % 4 == 0 then (if c / 4 < 60 then 0 else c / 4 - 59)
    else if c % 4 == 1 then 1
    else if c % 4 == 2 then 2
    else 4
  }

  /** The length of the literal that a tag announces. Four length bytes of
      0xff wrap to zero, as the 32-bit addition of the decoder does. */
  function LiteralLength(c: byte, trailer: nat): (n: nat) {
    if c / 4 < 60 then c / 4 + 1 else (trailer + 1) % 0x1_0000_0000
  }

  function CopyOf(c: byte, trailer: nat): Element
    requires c % 4 != 0
  {
    if c % 4 == 1 then Copy(c / 32 * 256 + trailer, 4 + c / 4 % 8)
    else Copy(trailer, 1 + c / 4)
  }

  /** The element at the front of `s`, when all of it is there. */
  function ParseElement(s: seq<byte>): (p: Option<Parsed>)
    requires s != []
    ensures p.Some? ==> 1 <= p.value.size <= |s|
  {
    var c, k := s[0], TrailerSize(s[0]);
    if |s| < 1 + k then None else
    var trailer := FromLE(s[1..1 + k]);
    if c % 4 != 0 then Some(Parsed(CopyOf(c, trailer), 1 + k))
    else
      var n := LiteralLength(c, trailer);
      if |s| < 1 + k + n then None
      else Some(Parsed(Literal(s[1 + k..1 + k + n]), 1 + k + n))
  }

  /** Appending `length` bytes, each a repeat of the byte `offset` back: the
      copied range may run into bytes this very copy produces. */
  function CopyForward(out: seq<byte>, offset: nat, length: nat): (r: seq<byte>)
    requires 1 <= offset <= |out|
    ensures |r| == |out| + length && r[..|out|] == out
    decreases length
  {
    if length == 0 then out
    else CopyForward(out + [out[|out| - offset]], offset, length - 1)
  }

  function ApplyElement(e: Element, out: seq<byte>): (r: Option<seq<byte>>)
    ensures r.Some? ==> |out| <= |r.value| && r.value[..|out|] == out
  {
    match e
    case Literal(bytes) => Some(out + bytes)
    case Copy(offset, length) =>
      if 1 <= offset <= |out| then Some(CopyForward(out, offset, length)) else None
  }

  /** Expands the elements of `s`, appending to `out`. */
  function Expand(s: seq<byte>, out: seq<byte>): (r: Option<seq<byte>>)
    ensures r.Some? ==> |out| <= |r.value|
    decreases |s|, 1
  {
    if s == [] then Some(out) else ExpandFirst(s, out)
  }

  /** The first element, then the others. */
  function ExpandFirst(s: seq<byte>, out: seq<byte>): (r: Option<seq<byte>>)
    requires s != []
    ensures r.Some? ==> |out| <= |r.value|
    decreases |s|, 0
  {
    var p := ParseElement(s);
    if p.None? then None else
    var o := ApplyElement(p.value.element, out);
    if o.None? then None else Expand(s[p.value.size..], o.value)
  }

  /** The length preamble: seven bits a byte, at most five bytes, of which the
      last contributes only the four bits that fit into 32. */
  function ParseLength(s: seq<byte>, k: nat): (r: Option<(nat, nat)>)
    requires k <= 5
    ensures r.Some? ==> 1 <= r.value.1 <= |s|
    decreases 5 - k
  {
    if k == 5 || s == [] then None else
    var bits := if k == 4 then s[0] % 16 else s[0] % 128;
    if s[0] < 128 then Some((bits, 1)) else
    var rest := ParseLength(s[1..], k + 1);
    if rest.None? then None else Some((bits + 128 * rest.value.0, 1 + rest.value.1))
  }

  /** The meaning of a whole compressed stream. */
  function Decode(s: seq<byte>): (r: Option<seq<byte>>) {
    var len := ParseLength(s, 0);
    if len.None? then None else
    var out := Expand(s[len.value.1..], []);
    if out.Some? && |out.value| == len.value.0 then out else None
  }

  // ------------------------------------------------------------------
  // Expansion is compositional
  // ------------------------------------------------------------------

  /** More input after an element does not change it. */
  lemma ParsePrefix(s: seq<byte>, t: seq<byte>)
    requires s != [] && ParseElement(s).Some?
    ensures ParseElement(s + t) == ParseElement(s)
  {
    var k := TrailerSize(s[0]);
    assert (s + t)[0] == s[0];
    SlicePrefix(s, t, 1, 1 + k);
    if s[0] % 4 == 0 {
      var n := LiteralLength(s[0], FromLE(s[1..1 + k]));
      SlicePrefix(s, t, 1 + k, 1 + k + n);
    }
  }

  lemma SlicePrefix(s: seq<byte>, t: seq<byte>, i: nat, j: nat)
    requires i <= j <= |s|
    ensures (s + t)[i..j] == s[i..j]
  {
  }

  lemma ExpandStep(s: seq<byte>, out: seq<byte>)
    requires s != []
    ensures var p := ParseElement(s);
      Expand(s, out) == if p.None? then None else
        var o := ApplyElement(p.value.element, out);
        if o.None? then None else Expand(s[p.value.size..], o.value)
  {
  }

  /** Expanding a concatenation is expanding the parts in turn. */
  lemma {:induction false} ExpandConcat(s: seq<byte>, t: seq<byte>, out: seq<byte>)
    requires Expand(s, out).Some?
    ensures Expand(s + t, out) == Expand(t, Expand(s, out).value)
    decreases |s|
  {
    if s == [] {
      assert s + t == t;
    } else {
      ExpandStep(s, out);
      var p := ParseElement(s).value;
      var o := ApplyElement(p.element, out).value;
      assert (s + t)[p.size..] == s[p.size..] + t;
      ExpandConcat(s[p.size..], t, o);
      ParsePrefix(s, t);
      ExpandStep(s + t, out);
    }
  }

  /** One element, and nothing else. */
  lemma ExpandElement(s: seq<byte>, e: Element, out: seq<byte>)
    requires s != [] && ParseElement(s) == Some(Parsed(e, |s|))
    ensures Expand(s, out) == ApplyElement(e, out)
  {
    ExpandStep(s, out);
    assert s[|s|..] == [];
  }

  /** What a forward copy holds: the `offset` bytes before it, repeated. */
  lemma {:induction false} CopyForwardRepeats(out: seq<byte>, offset: nat, length: nat, j: nat)
    requires 1 <= offset <= |out| && j < length
    ensures CopyForward(out, offset, length)[|out| + j] == out[|out| - offset + j % offset]
    decreases length
  {
    var next := out + [out[|out| - offset]];
    var r := CopyForward(next, offset, length - 1);
    assert CopyForward(out, offset, length) == r;
    if j == 0 {
      assert r[..|next|][|out|] == next[|out|];
    } else {
      CopyForwardRepeats(next, offset, length - 1, j - 1);
      ModStep(j, offset);
    }
  }

  lemma ModStep(j: nat, d: nat)
    requires j > 0 && d > 0
    ensures j % d == if (j - 1) % d == d - 1 then 0 else (j - 1) % d + 1
  {
    var q, r := (j - 1) / d, (j - 1) % d;
    assert j - 1 == q * d + r;
    if r == d - 1 {
      assert j == (q + 1) * d;
      ModUnique(j, d, q + 1, 0);
    } else {
      ModUnique(j, d, q, r + 1);
    }
  }

  /** A copy of a true match continues the text being matched. */
  lemma {:induction false} CopyOfMatch(text: seq<byte>, pre: seq<byte>, from: nat, at: nat, length: nat)
    requires from < at && at + length <= |text|
    requires text[from..from + length] == text[at..at + length]
    ensures CopyForward(pre + text[..at], at - from, length) == pre + text[..at + length]
    decreases length
  {
    if length > 0 {
      var out := pre + text[..at];
      assert text[from] == text[from..from + length][0] == text[at..at + length][0] == text[at];
      assert out[|out| - (at - from)] == text[from];
      assert out + [text[at]] == pre + text[..at + 1];
      assert text[from + 1..from + length] == text[from..from + length][1..];
      assert text[at + 1..at + length] == text[at..at + length][1..];
      CopyOfMatch(text, pre, from + 1, at + 1, length - 1);
    }
  }
}
