/** A ring buffer: a queue of bytes that forgets its oldest ones when it overflows. */
module Ringbuf {
  import opened Bytes

  /** The last n elements, or all of them if there are fewer. */
  function Last<A>(s: seq<A>, n: nat): (r: seq<A>)
    ensures |r| == if |s| < n then |s| else n
  {
    if |s| < n then s else s[|s| - n..]
  }

  /** The offset i places behind `at`, and the one j places before it. */
  function Ahead(at: nat, i: nat, size: nat): (p: nat)
    requires at < size && i < size
    ensures p < size
  {
    if at + i < size then at + i else at + i - size
  }

  function Back(at: nat, j: nat, size: nat): (p: nat)
    requires at < size && 1 <= j <= size
    ensures p < size
  {
    if j <= at then at - j else at + size - j
  }

  lemma WrapOnce(x: nat, size: nat)
    requires x < 2 * size
    ensures x % size == if x < size then x else x - size
  {
    if x >= size { ModUnique(x, size, 1, x - size); }
  }

  /** The n bytes from tail on. */
  ghost function Window(b: seq<byte>, tail: nat, n: nat): (s: seq<byte>)
    requires tail < |b| && n < |b|
    ensures |s| == n
  {
    seq(n, i requires 0 <= i < n => b[Ahead(tail, i, |b|)])
  }

  /** The bytes before `head` are the last ones of `history`, as many as there is room for. */
  ghost predicate Ends(b: seq<byte>, head: nat, history: seq<byte>)
    requires head < |b|
  {
    forall j :: 1 <= j <= |history| && j <= |b| ==> b[Back(head, j, |b|)] == history[|history| - j]
  }

  function Used(head: nat, tail: nat, size: nat): (n: nat)
    requires head < size && tail < size
    ensures n < size
  {
    if head >= tail then head - tail else head + size - tail
  }

  lemma WindowEnds(b: seq<byte>, head: nat, tail: nat)
    requires head < |b| && tail < |b|
    ensures Ends(b, head, Window(b, tail, Used(head, tail, |b|)))
  {
    var n := Used(head, tail, |b|);
    forall j | 1 <= j <= n
      ensures b[Back(head, j, |b|)] == Window(b, tail, n)[n - j]
    {
      assert Ahead(tail, n - j, |b|) == Back(head, j, |b|);
    }
  }

  lemma EndsWindow(b: seq<byte>, head: nat, tail: nat, history: seq<byte>)
    requires head < |b| && tail < |b| && Ends(b, head, history) && Used(head, tail, |b|) <= |history|
    ensures Window(b, tail, Used(head, tail, |b|)) == Last(history, Used(head, tail, |b|))
  {
    var n := Used(head, tail, |b|);
    forall i | 0 <= i < n
      ensures Window(b, tail, n)[i] == Last(history, n)[i]
    {
      assert Ahead(tail, i, |b|) == Back(head, n - i, |b|);
    }
  }

  /** `head` moved by n, back to the start at the end of the buffer. */
  function Moved(at: nat, n: nat, size: nat): (p: nat)
    requires at + n <= size && at < size
    ensures p < size
  {
    if at + n == size then 0 else at + n
  }

  /** Bytes written at the head become the last ones. */
  lemma EndsMore(b: seq<byte>, b2: seq<byte>, head: nat, history: seq<byte>, x: seq<byte>)
    requires head < |b| == |b2| && head + |x| <= |b| && Ends(b, head, history)
    requires forall k :: 0 <= k < |b| ==> b2[k] == if head <= k < head + |x| then x[k - head] else b[k]
    ensures Ends(b2, Moved(head, |x|, |b|), history + x)
  {
    var head2, all := Moved(head, |x|, |b|), history + x;
    forall j | 1 <= j <= |all| && j <= |b|
      ensures b2[Back(head2, j, |b|)] == all[|all| - j]
    {
      if j > |x| {
        assert Back(head2, j, |b|) == Back(head, j - |x|, |b|);
        assert all[|all| - j] == history[|history| - (j - |x|)];
      }
    }
  }

  /** The n bytes from the tail on are the first ones. */
  lemma WindowFront(b: seq<byte>, tail: nat, used: nat, n: nat)
    requires tail < |b| && n <= used < |b| && tail + n <= |b|
    ensures Window(b, tail, used)[..n] == b[tail..tail + n]
    ensures Window(b, tail, used)[n..] == Window(b, Moved(tail, n, |b|), used - n)
  {
    forall i | n <= i < used
      ensures Window(b, tail, used)[i] == Window(b, Moved(tail, n, |b|), used - n)[i - n]
    {
      assert Ahead(tail, i, |b|) == Ahead(Moved(tail, n, |b|), i - n, |b|);
    }
  }

  /** Bytes of the queue that lie side by side. */
  lemma WindowPart(b: seq<byte>, tail: nat, used: nat, offset: nat, start: nat, n: nat)
    requires tail < |b| && offset < used < |b| && start == Ahead(tail, offset, |b|)
    requires offset + n <= used && start + n <= |b|
    ensures Window(b, tail, used)[offset..offset + n] == b[start..start + n]
  {
    forall i | offset <= i < offset + n
      ensures Window(b, tail, used)[i] == b[i - offset + start]
    {
      assert Ahead(tail, i, |b|) == i - offset + start;
    }
  }

  /** The first byte that is c, or the end: `memchr`. */
  method Memchr(s: seq<byte>, c: byte) returns (i: nat)
    ensures i <= |s| && (i < |s| ==> s[i] == c) && forall k :: 0 <= k < i ==> s[k] != c
  {
    i := 0;
    while i < |s| && s[i] != c
      invariant i <= |s| && forall k :: 0 <= k < i ==> s[k] != c
    {
      i := i + 1;
    }
  }

  /** Once the bytes written fill the queue, it does not matter how many more there are. */
  lemma LastOfRun(s: seq<byte>, c: byte, m: nat, n: nat, cap: nat)
    requires cap <= m <= n
    ensures Last(s + seq(m, _ => c), cap) == Last(s + seq(n, _ => c), cap)
  {
  }

  lemma NextPart(before: seq<byte>, all: seq<byte>, i: nat, n: nat)
    requires i + n <= |all|
    ensures before + all[..i] + all[i..][..n] == before + all[..i + n] && all[i..][n..] == all[i + n..]
  {
    assert all[..i] + all[i..][..n] == all[..i + n];
  }

  /** A buffer copied into itself uses as many bytes as before, so that the assertion at the
      end of `ringbuf_copy` holds if and only if nothing is copied. */
  lemma SelfCopyAsserts(head: nat, tail: nat, size: nat, count: nat)
    requires head < size && tail < size && count <= Used(head, tail, size)
    ensures count + Used(Ahead(head, count, size), Ahead(tail, count, size), size) == Used(head, tail, size) <==>
      count == 0
  {
  }

  class RingBuf {
    const buf: array<byte>
    var head: nat
    var tail: nat

    ghost predicate Valid()
      reads this, buf
    {
      0 < buf.Length && head < buf.Length && tail < buf.Length
    }

    /** The queue, its oldest byte first. */
    ghost function Contents(): (s: seq<byte>)
      reads this, buf
      requires Valid()
    {
      Window(buf[..], tail, Used(head, tail, buf.Length))
    }

    constructor (capacity: nat)
      ensures Valid() && fresh(buf) && buf.Length == capacity + 1 && Contents() == []
    {
      buf := new byte[capacity + 1];
      head, tail := 0, 0;
    }

    method Reset()
      requires Valid()
      modifies this
      ensures Valid() && Contents() == []
    {
      head, tail := 0, 0;
    }

    function BytesFree(): (n: nat)
      reads this, buf
      requires Valid()
      ensures n == buf.Length - 1 - |Contents()|
    {
      if head >= tail then buf.Length - 1 - (head - tail) else tail - head - 1
    }

    function BytesUsed(): (n: nat)
      reads this, buf
      requires Valid()
      ensures n == |Contents()|
    {
      buf.Length - 1 - BytesFree()
    }

    /** The place after p. */
    function NextP(p: nat): (q: nat)
      reads this, buf
      requires Valid() && p < buf.Length
      ensures q == Moved(p, 1, buf.Length)
    {
      WrapOnce(p + 1, buf.Length);
      (p + 1) % buf.Length
    }

    /** One `memcpy` or `memset` at the head, up to the end of the buffer at most. */
    method Put(x: seq<byte>, ghost history: seq<byte>)
      requires Valid() && head + |x| <= buf.Length && Ends(buf[..], head, history)
      modifies this`head, buf
      ensures Valid() && head == Moved(old(head), |x|, buf.Length) && Ends(buf[..], head, history + x)
    {
      ghost var b := buf[..];
      forall k | head <= k < head + |x| {
        buf[k] := x[k - head];
      }
      EndsMore(b, buf[..], head, history, x);
      head := head + |x|;
      if head == buf.Length { head := 0; }
    }

    /** Behind the last byte written: an overflow leaves the buffer full. */
    method FixTail(overflow: bool, ghost before: seq<byte>, ghost x: seq<byte>)
      requires Valid() && Ends(buf[..], head, before + x) && overflow == (|before| + |x| > buf.Length - 1)
      requires !overflow ==> Used(head, tail, buf.Length) == |before| + |x|
      modifies this`tail
      ensures Valid() && Contents() == Last(before + x, buf.Length - 1)
    {
      if overflow {
        tail := NextP(head);
      }
      EndsWindow(buf[..], head, tail, before + x);
    }

    /** `ringbuf_memset`. */
    method Memset(c: byte, len: nat) returns (nwritten: nat)
      requires Valid()
      modifies this, buf
      ensures Valid() && nwritten == Min(len, buf.Length)
      ensures Contents() == Last(old(Contents()) + seq(len, _ => c), buf.Length - 1)
    {
      nwritten := 0;
      var count: nat := Min(len, buf.Length);
      var overflow := count > BytesFree();
      ghost var before, start, x := Contents(), tail, [];
      WindowEnds(buf[..], head, tail);
      assert before + x == before;
      while nwritten != count
        invariant Valid() && nwritten <= count && tail == start && x == seq(nwritten, _ => c)
        invariant Ends(buf[..], head, before + x) && Distance(head, start, |before| + nwritten)
        decreases count - nwritten
      {
        var n: nat := Min(buf.Length - head, count - nwritten);
        ghost var run := seq(n, _ => c);
        DistanceMore(head, start, |before| + nwritten, n);
        Put(seq(n, _ => c), before + x);
        assert before + x + run == before + (x + run);
        x := x + run;
        nwritten := nwritten + n;
      }
      FixTail(overflow, before, x);
      if len > buf.Length { LastOfRun(before, c, count, len, buf.Length - 1); }
    }

    /** The head is n bytes ahead of the tail, perhaps a number of times around. */
    ghost predicate Distance(at: nat, from: nat, n: nat)
      reads this, buf
      requires Valid() && at < buf.Length && from < buf.Length
    {
      n < buf.Length ==> Used(at, from, buf.Length) == n
    }

    lemma DistanceMore(at: nat, from: nat, n: nat, k: nat)
      requires Valid() && at < buf.Length && from < buf.Length && at + k <= buf.Length && Distance(at, from, n)
      ensures Distance(Moved(at, k, buf.Length), from, n + k)
    {
    }

    /** `ringbuf_memcpy_into`: the queue keeps the last bytes of what it held and what comes. */
    method MemcpyInto(src: seq<byte>, count: nat)
      requires Valid() && count <= |src|
      modifies this, buf
      ensures Valid() && Contents() == Last(old(Contents()) + src[..count], buf.Length - 1)
    {
      var overflow := count > BytesFree();
      var nread := 0;
      ghost var before, start := Contents(), tail;
      WindowEnds(buf[..], head, tail);
      assert before + src[..0] == before;
      while nread != count
        invariant Valid() && nread <= count && tail == start
        invariant Ends(buf[..], head, before + src[..nread]) && Distance(head, start, |before| + nread)
        decreases count - nread
      {
        var n: nat := Min(buf.Length - head, count - nread);
        DistanceMore(head, start, |before| + nread, n);
        Put(src[nread..nread + n], before + src[..nread]);
        assert before + src[..nread] + src[nread..nread + n] == before + src[..nread + n];
        nread := nread + n;
      }
      FixTail(overflow, before, src[..count]);
    }

    /** One `memcpy` from the tail. */
    method Get(n: nat) returns (x: seq<byte>)
      requires Valid() && tail + n <= buf.Length && n <= |Contents()|
      modifies this`tail
      ensures Valid() && x == old(Contents())[..n] && Contents() == old(Contents())[n..]
      ensures tail == Moved(old(tail), n, buf.Length)
    {
      WindowFront(buf[..], tail, Used(head, tail, buf.Length), n);
      x := buf[tail..tail + n];
      tail := tail + n;
      if tail == buf.Length { tail := 0; }
    }

    /** `ringbuf_memcpy_from`: takes exactly the front of the queue, or nothing. */
    method MemcpyFrom(dst: array<byte>, count: nat) returns (ok: bool)
      requires Valid() && dst != buf && count <= dst.Length
      modifies this, dst
      ensures Valid() && ok == (count <= |old(Contents())|) && buf[..] == old(buf[..])
      ensures !ok ==> Contents() == old(Contents()) && dst[..] == old(dst[..])
      ensures ok ==> dst[..count] == old(Contents())[..count] && Contents() == old(Contents())[count..]
      ensures dst[count..] == old(dst[count..])
    {
      if count > BytesUsed() { return false; }
      var nwritten := 0;
      ghost var before := Contents();
      while nwritten != count
        invariant Valid() && nwritten <= count && buf[..] == old(buf[..])
        invariant dst[..nwritten] == before[..nwritten] && Contents() == before[nwritten..]
        invariant dst[count..] == old(dst[count..])
        decreases count - nwritten
      {
        var n: nat := Min(buf.Length - tail, count - nwritten);
        ghost var done := dst[..nwritten];
        var x := Get(n);
        forall k | nwritten <= k < nwritten + n {
          dst[k] := x[k - nwritten];
        }
        assert dst[..nwritten + n] == done + x;
        assert before[..nwritten] + before[nwritten..][..n] == before[..nwritten + n];
        nwritten := nwritten + n;
      }
      ok := true;
    }

    /** One `memcpy` from the tail of this buffer to the head of the other. */
    method CopyChunk(dst: RingBuf, n: nat, ghost history: seq<byte>)
      requires Valid() && dst.Valid() && dst != this && dst.buf != buf && tail + n <= buf.Length && n <= |Contents()|
      requires dst.head + n <= dst.buf.Length && Ends(dst.buf[..], dst.head, history)
      modifies this`tail, dst`head, dst.buf
      ensures Valid() && dst.Valid() && Contents() == old(Contents())[n..]
      ensures dst.head == Moved(old(dst.head), n, dst.buf.Length)
      ensures Ends(dst.buf[..], dst.head, history + old(Contents())[..n])
    {
      hide Window, Ends;
      var x := Get(n);
      dst.Put(x, history);
    }

    /** `ringbuf_copy`, between distinct buffers: see `SelfCopyAsserts`. */
    method CopyTo(dst: RingBuf, count: nat) returns (ok: bool)
      requires Valid() && dst.Valid() && dst != this && dst.buf != buf
      modifies this, dst, dst.buf
      ensures Valid() && dst.Valid() && ok == (count <= |old(Contents())|)
      ensures !ok ==> Contents() == old(Contents()) && dst.Contents() == old(dst.Contents())
      ensures ok ==> Contents() == old(Contents())[count..]
      ensures ok ==> dst.Contents() == Last(old(dst.Contents()) + old(Contents())[..count], dst.buf.Length - 1)
    {
      hide Window, Ends, Last, Used, Back, BytesUsed;
      if count > BytesUsed() { return false; }
      var overflow := count > dst.BytesFree();
      var ncopied := 0;
      ghost var all, before, start := Contents(), dst.Contents(), dst.tail;
      WindowEnds(dst.buf[..], dst.head, dst.tail);
      assert before + all[..0] == before;
      while ncopied != count
        invariant Valid() && dst.Valid() && ncopied <= count && dst.tail == start && Contents() == all[ncopied..]
        invariant Ends(dst.buf[..], dst.head, before + all[..ncopied]) &&
          dst.Distance(dst.head, start, |before| + ncopied)
        decreases count - ncopied
      {
        var nsrc: nat := Min(buf.Length - tail, count - ncopied);
        var n: nat := Min(dst.buf.Length - dst.head, nsrc);
        dst.DistanceMore(dst.head, start, |before| + ncopied, n);
        CopyChunk(dst, n, before + all[..ncopied]);
        NextPart(before, all, ncopied, n);
        ncopied := ncopied + n;
      }
      dst.FixTail(overflow, before, all[..count]);
      ok := true;
    }

    /** `ringbuf_findchr`: the first place of c at or behind `offset`, else the end. */
    method FindChr(c: byte, offset: nat) returns (i: nat)
      requires Valid()
      ensures i <= |Contents()| && (i < |Contents()| ==> offset <= i && Contents()[i] == c)
      ensures forall k :: offset <= k < i ==> Contents()[k] != c
      decreases |Contents()| - offset
    {
      var used := BytesUsed();
      if offset >= used { return used; }
      WrapOnce(tail + offset, buf.Length);
      var start := (tail + offset) % buf.Length;
      var n: nat := Min(buf.Length - start, used - offset);
      var found := Memchr(buf[start..start + n], c);
      ghost var part := Contents()[offset..offset + n];
      WindowPart(buf[..], tail, used, offset, start, n);
      assert part == buf[start..start + n];
      assert forall k :: offset <= k < offset + n ==> Contents()[k] == part[k - offset];
      if found < n { return offset + found; }
      i := FindChr(c, offset + n);
    }
  }
}
