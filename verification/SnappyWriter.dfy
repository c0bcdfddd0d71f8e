/**
 The decompressor's output side: a flat buffer that is written with eight-byte
 stores which may run past the bytes they are meant to produce.
 */
module SnappyWriter {
  import opened Bytes
  import opened SnappyFormat

  const COPY_OVERFLOW := 10

  /** An eight-byte load followed by an eight-byte store. */
  method UnalignedCopy64(a: array<byte>, src: nat, dst: nat)
    requires src + 8 <= a.Length && dst + 8 <= a.Length
    modifies a
    ensures forall k :: dst <= k < dst + 8 ==> a[k] == old(a[src + (k - dst)])
    ensures forall k :: 0 <= k < a.Length && !(dst <= k < dst + 8) ==> a[k] == old(a[k])
  {
    var word := a[src..src + 8];
    forall k | dst <= k < dst + 8 {
      a[k] := word[k - dst];
    }
  }

  lemma ModAdd(g: nat, j: nat, d: nat)
    requires d > 0 && g % d == 0
    ensures (g + j) % d == j % d
  {
    DivMod(g, d);
    DivMod(j, d);
    assert (g / d + j / d) * d == g / d * d + j / d * d;
    ModUnique(g + j, d, g / d + j / d, j % d);
  }

  /** A shorter copy is a prefix of a longer one. */
  lemma {:induction false} CopyForwardPrefix(out: seq<byte>, d: nat, m: nat, n: nat)
    requires 1 <= d <= |out| && m <= n
    ensures CopyForward(out, d, n)[..|out| + m] == CopyForward(out, d, m)
    decreases m
  {
    if m > 0 {
      CopyForwardPrefix(out + [out[|out| - d]], d, m - 1, n - 1);
    }
  }

  /** A forward copy repeats itself at every multiple of its distance. */
  lemma CopyForwardPeriodic(out: seq<byte>, d: nat, n: nat, k: nat, g: nat)
    requires 1 <= d <= |out| <= k < |out| + n
    requires d <= g && g % d == 0 && g + |out| - d <= k
    ensures CopyForward(out, d, n)[k] == CopyForward(out, d, n)[k - g]
  {
    var r := CopyForward(out, d, n);
    CopyForwardRepeats(out, d, n, k - |out|);
    if k - g >= |out| {
      CopyForwardRepeats(out, d, n, k - g - |out|);
      ModAdd(g, k - g - |out|, d);
    } else {
      assert r[k - g] == r[..|out|][k - g];
      ModLastPeriod(g, d, k - |out|);
    }
  }

  lemma ModLastPeriod(g: nat, d: nat, j: nat)
    requires 0 < d <= g && g % d == 0 && g - d <= j < g
    ensures j % d == j - (g - d)
  {
    DivMod(g, d);
    assert g - d == (g / d - 1) * d;
    ModUnique(j, d, g / d - 1, j - (g - d));
  }

  /** `a` agrees with the first `to` bytes of the finished copy. */
  ghost predicate Agrees(a: seq<byte>, to: nat, out: seq<byte>, d: nat, n: nat)
    requires 1 <= d <= |out|
  {
    to <= |a| && to <= |out| + n && a[..to] == CopyForward(out, d, n)[..to]
  }

  /** Moving one word from a whole number of periods back extends the agreement. */
  lemma WordStep(a: seq<byte>, b: seq<byte>, op: nat, w: nat, g: nat, out: seq<byte>, d: nat, n: nat)
    requires 1 <= d <= |out| <= op && Agrees(a, op, out, d, n)
    requires |a| == |b| && op + w <= |b| && op + w <= |out| + n
    requires w <= g && d <= g <= op - |out| + d && g % d == 0
    requires forall k :: 0 <= k < op ==> b[k] == a[k]
    requires forall k :: op <= k < op + w ==> b[k] == a[k - g]
    ensures Agrees(b, op + w, out, d, n)
  {
    var r := CopyForward(out, d, n);
    forall k | 0 <= k < op + w
      ensures b[k] == r[k]
    {
      if k < op {
        assert a[..op][k] == r[..op][k];
      } else {
        assert a[..op][k - g] == r[..op][k - g];
        CopyForwardPeriodic(out, d, n, k, g);
      }
    }
  }

  lemma AgreesAtEnd(a: seq<byte>, to: nat, out: seq<byte>, d: nat, n: nat, len: nat)
    requires 1 <= d <= |out| && Agrees(a, to, out, d, n) && |out| + len <= to
    ensures a[..|out| + len] == CopyForward(out, d, len)
  {
    CopyForwardPrefix(out, d, len, n);
    assert a[..|out| + len] == a[..to][..|out| + len];
  }

  /** One byte at a time, so that a copy can feed on what it has just written. */
  method IncrementalCopy(a: array<byte>, src: nat, op: nat, len: nat)
    requires src < op && len > 0 && op + len <= a.Length
    modifies a
    ensures a[..op + len] == CopyForward(old(a[..op]), op - src, len)
    ensures forall k :: op + len <= k < a.Length ==> a[k] == old(a[k])
  {
    ghost var out, d := a[..op], op - src;
    ModUnique(d, d, 1, 0);
    assert CopyForward(out, d, len)[..op] == out;
    var i := 0;
    while i < len
      invariant 0 <= i <= len
      invariant Agrees(a[..], op + i, out, d, len)
      invariant forall k :: op + len <= k < a.Length ==> a[k] == old(a[k])
    {
      ghost var before := a[..];
      a[op + i] := a[src + i];
      WordStep(before, a[..], op + i, 1, d, out, d, len);
      i := i + 1;
    }
    AgreesAtEnd(a[..], op + len, out, d, len, len);
    assert a[..][..op + len] == a[..op + len];
  }

  /** First half of the fast copy: eight-byte moves that double the pattern
      until source and destination are at least a word apart. */
  method WidenGap(a: array<byte>, src: nat, op0: nat, len0: nat, ghost n: nat) returns (op: nat)
    requires src < op0 && len0 > 0 && op0 + len0 + COPY_OVERFLOW <= a.Length && n >= len0 + 16
    modifies a
    ensures op0 <= op && 8 <= op - src && (op - src) % (op0 - src) == 0
    ensures op - op0 <= 9
    ensures op <= a.Length && Agrees(a[..], op, old(a[..op0]), op0 - src, n)
    ensures forall k :: op0 + len0 + COPY_OVERFLOW <= k < a.Length ==> a[k] == old(a[k])
  {
    op := op0;
    ghost var out, d := a[..op0], op0 - src;
    ModUnique(d, d, 1, 0);
    assert CopyForward(out, d, n)[..op0] == out;
    while op - src < 8
      invariant op0 <= op <= a.Length
      invariant op - src == d || (op - src == 2 * d && d < 8) || (op - src == 4 * d && d < 4) ||
        (op - src == 8 * d && d < 2)
      invariant (op - src) % d == 0
      invariant Agrees(a[..], op, out, d, n)
      invariant forall k :: op0 + len0 + COPY_OVERFLOW <= k < a.Length ==> a[k] == old(a[k])
      decreases 8 - (op - src)
    {
      ghost var before := a[..];
      ghost var g := op - src;
      UnalignedCopy64(a, src, op);
      WordStep(before, a[..], op, g, g, out, d, n);
      ModAdd(g, g, d);
      op := op + (op - src);
    }
  }

  /** Second half: plain eight-byte moves over a gap of a word or more. */
  method CopyWords(a: array<byte>, src0: nat, op1: nat, len1: int, ghost out: seq<byte>, ghost d: nat, ghost n: nat)
    requires 1 <= d <= |out| <= op1 && Agrees(a[..], op1, out, d, n)
    requires op1 <= a.Length && (len1 > 0 ==> op1 + len1 + 7 <= a.Length && op1 + len1 + 8 <= |out| + n)
    requires src0 <= op1 - 8 && d <= op1 - src0 && (op1 - src0) % d == 0 && src0 + d == |out|
    requires |out| <= op1 + len1
    modifies a
    ensures a[..op1 + len1] == CopyForward(out, d, op1 + len1 - |out|)
    ensures forall k :: 0 <= k < a.Length && op1 + len1 + 7 <= k && op1 <= k ==> a[k] == old(a[k])
  {
    var src, op, len := src0, op1, len1;
    ghost var g := op - src;
    while len > 0
      invariant op - src == g && op1 <= op <= a.Length && op + len == op1 + len1
      invariant len1 > 0 ==> op < op1 + len1 + 8
      invariant Agrees(a[..], op, out, d, n)
      invariant forall k :: 0 <= k < a.Length && op1 + len1 + 7 <= k && op1 <= k ==> a[k] == old(a[k])
    {
      ghost var before := a[..];
      UnalignedCopy64(a, src, op);
      WordStep(before, a[..], op, 8, g, out, d, n);
      src := src + 8;
      op := op + 8;
      len := len - 8;
    }
    AgreesAtEnd(a[..], op, out, d, n, op1 + len1 - |out|);
    assert a[..op1 + len1] == a[..][..op1 + len1];
  }

  /** The fast copy leaves the bytes of the slow copy and writes at most ten
      bytes beyond them. */
  method IncrementalCopyFastPath(a: array<byte>, src: nat, op0: nat, len: nat)
    requires src < op0 && len > 0 && op0 + len + COPY_OVERFLOW <= a.Length
    modifies a
    ensures a[..op0 + len] == CopyForward(old(a[..op0]), op0 - src, len)
    ensures forall k :: op0 + len + COPY_OVERFLOW <= k < a.Length ==> a[k] == old(a[k])
  {
    ghost var out := a[..op0];
    var op := WidenGap(a, src, op0, len, len + 16);
    CopyWords(a, src, op, len - (op - op0), out, op0 - src, len + 16);
  }

  /** The copy of at most sixteen bytes: two eight-byte moves, whatever the length. */
  method CopyTwoWords(a: array<byte>, src: nat, op: nat, len: nat)
    requires src + 8 <= op && len <= 16 && op + 16 <= a.Length
    modifies a
    ensures a[..op + len] == CopyForward(old(a[..op]), op - src, len)
    ensures forall k :: op + 16 <= k < a.Length ==> a[k] == old(a[k])
  {
    ghost var start, before := a[..op], a[..];
    UnalignedCopy64(a, src, op);
    ghost var middle := a[..];
    UnalignedCopy64(a, src + 8, op + 8);
    TwoWords(before, middle, a[..], op, op - src, start, len, len + 16);
    assert a[..][..op + len] == a[..op + len];
  }

  lemma TwoWords(a: seq<byte>, b: seq<byte>, c: seq<byte>, op: nat, d: nat, start: seq<byte>, len: nat, n: nat)
    requires 8 <= d <= op && len <= 16 <= n && |a| == |b| == |c| && op + 16 <= |a| && start == a[..op]
    requires forall k :: 0 <= k < op ==> b[k] == a[k]
    requires forall k :: op <= k < op + 8 ==> b[k] == a[k - d]
    requires forall k :: 0 <= k < op + 8 ==> c[k] == b[k]
    requires forall k :: op + 8 <= k < op + 16 ==> c[k] == b[k - d]
    ensures c[..op + len] == CopyForward(start, d, len)
  {
    ModUnique(d, d, 1, 0);
    assert CopyForward(start, d, n)[..op] == start;
    WordStep(a, b, op, 8, d, start, d, n);
    WordStep(b, c, op + 8, 8, d, start, d, n);
    AgreesAtEnd(c, op + 16, start, d, n, len);
  }

  /** The three copies of a back-reference, chosen by length, distance and the
      room that is left; they all mean the same. */
  method CopyBack(a: array<byte>, op: nat, offset: nat, len: nat, spaceLeft: nat) returns (ok: bool)
    requires 1 <= offset <= op && 1 <= len && op + spaceLeft <= a.Length
    modifies a
    ensures ok <==> len <= spaceLeft
    ensures ok ==> a[..op + len] == CopyForward(old(a[..op]), offset, len)
    ensures !ok ==> a[..] == old(a[..])
    ensures forall k :: op + spaceLeft <= k < a.Length ==> a[k] == old(a[k])
  {
    if len <= 16 && offset >= 8 && spaceLeft >= 16 {
      CopyTwoWords(a, op - offset, op, len);
    } else if spaceLeft >= len + COPY_OVERFLOW {
      IncrementalCopyFastPath(a, op - offset, op, len);
    } else {
      if spaceLeft < len {
        return false;
      }
      IncrementalCopy(a, op - offset, op, len);
    }
    return true;
  }

  class Writer {
    const out: array<byte>
    var op: nat
    var opLimit: nat

    constructor (buffer: array<byte>)
      ensures out == buffer && op == 0 && opLimit == 0
    {
      out, op, opLimit := buffer, 0, 0;
    }

    ghost predicate Valid()
      reads this
    {
      op <= opLimit <= out.Length && opLimit < 0x1_0000_0000
    }

    ghost function Written(): (s: seq<byte>)
      requires Valid()
      reads this, out
    {
      out[..op]
    }

    method SetExpectedLength(len: u32)
      requires op == 0 && len <= out.Length
      modifies this`opLimit
      ensures Valid() && opLimit == len
    {
      opLimit := op + len;
    }

    /** Back-reference: one of three copies, which all mean the same. */
    method AppendFromSelf(offset: u32, len: nat) returns (ok: bool)
      requires Valid() && 1 <= len <= 64
      modifies this`op, out
      ensures Valid() && opLimit == old(opLimit)
      ensures ok <==> 1 <= offset <= old(op) && old(op) + len <= opLimit
      ensures Written() == if ok then CopyForward(old(Written()), offset, len) else old(Written())
      ensures forall k :: opLimit <= k < out.Length ==> out[k] == old(out[k])
    {
      var spaceLeft := opLimit - op;
      // offset - 1 is unsigned: for a zero offset it wraps to the largest value
      var offsetMinusOne := if offset == 0 then 0xffff_ffff else offset - 1;
      if op <= offsetMinusOne {
        return false;
      }
      ok := CopyBack(out, op, offset, len, spaceLeft);
      if ok {
        op := op + len;
      }
    }

    method Append(bytes: seq<byte>) returns (ok: bool)
      requires Valid()
      modifies this`op, out
      ensures Valid() && opLimit == old(opLimit)
      ensures ok <==> old(op) + |bytes| <= opLimit
      ensures Written() == if ok then old(Written()) + bytes else old(Written())
      ensures forall k :: opLimit <= k < out.Length ==> out[k] == old(out[k])
    {
      if opLimit - op < |bytes| {
        return false;
      }
      forall k | op <= k < op + |bytes| {
        out[k] := bytes[k - op];
      }
      op := op + |bytes|;
      return true;
    }

    /** The literal's fast path: sixteen bytes are stored although only `len`
        of them count. `input[ip..]` are the bytes still in the read buffer. */
    method TryFastAppend(input: seq<byte>, ip: nat, available: nat, len: nat) returns (ok: bool)
      requires Valid() && ip + available <= |input| && len > 0
      modifies this`op, out
      ensures Valid() && opLimit == old(opLimit)
      ensures ok ==> len <= 16 <= available && old(op) + len <= opLimit
      ensures ok ==> Written() == old(Written()) + input[ip..ip + len]
      ensures !ok ==> Written() == old(Written())
      ensures forall k :: opLimit <= k < out.Length ==> out[k] == old(out[k])
    {
      if len <= 16 && available >= 16 && opLimit - op >= 16 {
        forall k | op <= k < op + 16 {
          out[k] := input[ip + (k - op)];
        }
        op := op + len;
        return true;
      }
      return false;
    }
  }
}
