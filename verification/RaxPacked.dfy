/**
 A radix tree node as the bytes it is packed into: edge bytes, child pointers, and
 the value of a key. Adding and removing a child move these parts about in place.
 */
module RaxPacked {
  import opened Bytes
  import opened RaxModel
  import opened RaxChange

  const PTR := 8

  /** A pointer or a value as it lies in memory. */
  type Cell = c: seq<byte> | |c| == 8 witness seq(8, _ => 0)

  /** A node that is not compressed; no value for a key that has the null pointer. */
  datatype Packed = Packed(data: seq<byte>, kids: seq<Cell>, value: Option<Cell>)

  function Flat(cells: seq<Cell>): (s: seq<byte>)
    ensures |s| == PTR * |cells|
  {
    if cells == [] then [] else cells[0] + Flat(cells[1..])
  }

  function ValueBytes(v: Option<Cell>): (s: seq<byte>)
    ensures |s| == if v.Some? then PTR else 0
  {
    match v
    case None => []
    case Some(c) => c
  }

  /** The bytes behind the header. */
  function Layout(n: Packed): (s: seq<byte>)
    ensures |s| == |n.data| + PTR * |n.kids| + |ValueBytes(n.value)|
  {
    n.data + Flat(n.kids) + ValueBytes(n.value)
  }

  /** The buffer holds the node, and perhaps more bytes than it needs. */
  ghost predicate Holds(buf: array<byte>, n: Packed)
    reads buf
  {
    |n.data| == |n.kids| && |Layout(n)| <= buf.Length && buf[..|Layout(n)|] == Layout(n)
  }

  lemma {:induction false} FlatConcat(a: seq<Cell>, b: seq<Cell>)
    ensures Flat(a + b) == Flat(a) + Flat(b)
  {
    if a == [] {
      assert a + b == b;
    } else {
      FlatConcat(a[1..], b);
      assert (a + b)[0] == a[0] && (a + b)[1..] == a[1..] + b;
      Assoc(a[0], Flat(a[1..]), Flat(b));
    }
  }

  lemma FlatSplit(cells: seq<Cell>, i: nat)
    requires i <= |cells|
    ensures Flat(cells) == Flat(cells[..i]) + Flat(cells[i..])
  {
    FlatConcat(cells[..i], cells[i..]);
    assert cells[..i] + cells[i..] == cells;
  }

  lemma FlatHead(cells: seq<Cell>, i: nat)
    requires i < |cells|
    ensures Flat(cells[i..]) == cells[i] + Flat(cells[i + 1..])
  {
    var b := cells[i..];
    assert b[0] == cells[i] && b[1..] == cells[i + 1..];
  }

  /** The cell at index i lies at a multiple of eight bytes. */
  lemma FlatAt(cells: seq<Cell>, i: nat)
    requires i < |cells|
    ensures Flat(cells)[PTR * i..PTR * i + PTR] == cells[i]
  {
    FlatSplit(cells, i);
    FlatHead(cells, i);
    var a, c, z := Flat(cells[..i]), cells[i], Flat(cells[i + 1..]);
    assert Flat(cells) == a + c + z;
    Middle(a, c, z);
  }

  lemma Middle(a: seq<byte>, c: seq<byte>, z: seq<byte>)
    ensures (a + c + z)[|a|..|a| + |c|] == c
  {
  }

  /** Only the n bytes from dst on have changed. */
  ghost predicate Only(b: seq<byte>, b2: seq<byte>, dst: nat, n: nat) {
    dst + n <= |b| == |b2| && forall k :: 0 <= k < |b| && !(dst <= k < dst + n) ==> b2[k] == b[k]
  }

  /** `memmove`: n bytes from src to dst, which may overlap. */
  method Memmove(buf: array<byte>, dst: nat, src: nat, n: nat)
    requires dst + n <= buf.Length && src + n <= buf.Length
    modifies buf
    ensures buf[..][dst..dst + n] == old(buf[..])[src..src + n] && Only(old(buf[..]), buf[..], dst, n)
  {
    forall k | dst <= k < dst + n {
      buf[k] := buf[k - dst + src];
    }
  }

  method Memcpy(buf: array<byte>, dst: nat, bytes: seq<byte>)
    requires dst + |bytes| <= buf.Length
    modifies buf
    ensures Part(buf[..], dst, bytes) && Only(old(buf[..]), buf[..], dst, |bytes|)
  {
    forall k | dst <= k < dst + |bytes| {
      buf[k] := bytes[k - dst];
    }
  }

  // ------------------------------------------------------------------
  // Parts of a buffer
  // ------------------------------------------------------------------

  /** `s` lies at offset a. */
  ghost predicate Part(b: seq<byte>, a: nat, s: seq<byte>) {
    a + |s| <= |b| && b[a..a + |s|] == s
  }

  /** A part that a write does not touch. */
  lemma PartKept(b: seq<byte>, b2: seq<byte>, a: nat, s: seq<byte>, dst: nat, n: nat)
    requires Part(b, a, s) && Only(b, b2, dst, n) && (a + |s| <= dst || dst + n <= a)
    ensures Part(b2, a, s)
  {
    forall k | a <= k < a + |s|
      ensures b2[k] == s[k - a]
    {
      assert b[a..a + |s|][k - a] == s[k - a];
    }
    assert |b2[a..a + |s|]| == |s|;
    forall k | 0 <= k < |s|
      ensures b2[a..a + |s|][k] == s[k]
    {
      assert b2[a..a + |s|][k] == b2[a + k];
    }
  }

  /** A part is clear of the bytes from at on. */
  ghost predicate Clear(part: nat, size: nat, at: nat, len: nat)
  {
    part + size <= at || at + len <= part
  }

  /** Three parts that a write does not touch. */
  lemma ThreeKept(b: seq<byte>, b2: seq<byte>, at: nat, len: nat, a: nat, s: seq<byte>, c: nat, t: seq<byte>,
                  e: nat, u: seq<byte>)
    requires Only(b, b2, at, len) && Part(b, a, s) && Part(b, c, t) && Part(b, e, u)
    requires Clear(a, |s|, at, len) && Clear(c, |t|, at, len) && Clear(e, |u|, at, len)
    ensures Part(b2, a, s) && Part(b2, c, t) && Part(b2, e, u)
  {
    PartKept(b, b2, a, s, at, len);
    PartKept(b, b2, c, t, at, len);
    PartKept(b, b2, e, u, at, len);
  }

  /** Four parts that a write does not touch. */
  lemma FourKept(b: seq<byte>, b2: seq<byte>, at: nat, len: nat, a: nat, s: seq<byte>, c: nat, t: seq<byte>,
                 e: nat, u: seq<byte>, g: nat, v: seq<byte>)
    requires Only(b, b2, at, len) && Part(b, a, s) && Part(b, c, t) && Part(b, e, u) && Part(b, g, v)
    requires Clear(a, |s|, at, len) && Clear(c, |t|, at, len) && Clear(e, |u|, at, len) && Clear(g, |v|, at, len)
    ensures Part(b2, a, s) && Part(b2, c, t) && Part(b2, e, u) && Part(b2, g, v)
  {
    ThreeKept(b, b2, at, len, a, s, c, t, e, u);
    PartKept(b, b2, g, v, at, len);
  }

  /** Two adjoining parts are one. */
  lemma PartJoin(b: seq<byte>, a: nat, s: seq<byte>, t: seq<byte>)
    requires Part(b, a, s) && Part(b, a + |s|, t)
    ensures Part(b, a, s + t)
  {
    assert b[a..a + |s| + |t|] == b[a..a + |s|] + b[a + |s|..a + |s| + |t|];
  }

  /** And the other way round. */
  lemma PartSplit(b: seq<byte>, a: nat, s: seq<byte>, t: seq<byte>)
    requires Part(b, a, s + t)
    ensures Part(b, a, s) && Part(b, a + |s|, t)
  {
    var w := b[a..a + |s + t|];
    assert w[..|s|] == s && w[|s|..] == t;
    assert b[a..a + |s|] == w[..|s|];
    assert b[a + |s|..a + |s| + |t|] == w[|s|..];
  }

  /** A part that has been moved. */
  lemma PartMoved(b: seq<byte>, b2: seq<byte>, src: nat, dst: nat, s: seq<byte>)
    requires Part(b, src, s) && dst + |s| <= |b2| && b2[dst..dst + |s|] == b[src..src + |s|]
    ensures Part(b2, dst, s)
  {
  }

  // ------------------------------------------------------------------
  // Adding a child
  // ------------------------------------------------------------------

  /** The five parts of a node around child index i: bytes and pointers before it, and
      behind, and the value. */
  ghost predicate Parts(b: seq<byte>, n: Packed, i: nat, atD1: nat, atD2: nat, atP1: nat, atP2: nat, atV: nat)
    requires i <= |n.data| == |n.kids|
  {
    Part(b, atD1, n.data[..i]) && Part(b, atD2, n.data[i..]) && Part(b, atP1, Flat(n.kids[..i])) &&
    Part(b, atP2, Flat(n.kids[i..])) && Part(b, atV, ValueBytes(n.value))
  }

  lemma LayoutParts(b: seq<byte>, n: Packed, i: nat, size: nat)
    requires Part(b, 0, Layout(n)) && i <= |n.data| == |n.kids| == size
    ensures Parts(b, n, i, 0, i, size, size + PTR * i, size + PTR * size)
  {
    var d, p, v := n.data, Flat(n.kids), ValueBytes(n.value);
    PartSplit(b, 0, d + p, v);
    PartSplit(b, 0, d, p);
    FlatSplit(n.kids, i);
    PartSplit(b, size, Flat(n.kids[..i]), Flat(n.kids[i..]));
    assert d == d[..i] + d[i..];
    PartSplit(b, 0, d[..i], d[i..]);
  }

  /** The parts in their places make the node with a child more. */
  lemma PartsAdded(b: seq<byte>, n: Packed, i: nat, c: byte, child: Cell)
    requires |n.data| == |n.kids| && i <= |n.data|
    requires var size := |n.data|;
      Parts(b, n, i, 0, i + 1, size + 1, size + 1 + PTR * i + PTR, size + 1 + PTR * (size + 1)) &&
      Part(b, i, [c]) && Part(b, size + 1 + PTR * i, child)
    ensures Part(b, 0, Layout(Packed(InsertAt(n.data, i, c), InsertAt(n.kids, i, child), n.value)))
  {
    var size, m := |n.data|, Packed(InsertAt(n.data, i, c), InsertAt(n.kids, i, child), n.value);
    var d1, d2, p1, p2 := n.data[..i], n.data[i..], Flat(n.kids[..i]), Flat(n.kids[i..]);
    ThreeJoin(b, 0, d1, [c], d2);
    ThreeJoin(b, size + 1, p1, child, p2);
    FlatInserted(n.kids, i, child);
    ThreeJoin(b, 0, m.data, Flat(m.kids), ValueBytes(n.value));
  }

  lemma ThreeJoin(b: seq<byte>, a: nat, s: seq<byte>, t: seq<byte>, u: seq<byte>)
    requires Part(b, a, s) && Part(b, a + |s|, t) && Part(b, a + |s| + |t|, u)
    ensures Part(b, a, s + t + u)
  {
    PartJoin(b, a, s, t);
    PartJoin(b, a, s + t, u);
  }

  lemma FlatInserted(cells: seq<Cell>, i: nat, c: Cell)
    requires i <= |cells|
    ensures Flat(InsertAt(cells, i, c)) == Flat(cells[..i]) + c + Flat(cells[i..])
  {
    FlatConcat(cells[..i] + [c], cells[i..]);
    FlatConcat(cells[..i], [c]);
    assert [c][1..] == [] && Flat([c]) == c + Flat([c][1..]);
  }

  /** Index of the first edge byte greater than c. */
  method PlaceOf(buf: array<byte>, size: nat, c: byte) returns (pos: nat)
    requires size <= buf.Length && Ascending(buf[..size]) && c !in buf[..size]
    ensures pos <= size && IsPlace(buf[..size], c, pos)
  {
    pos := 0;
    while pos < size
      invariant 0 <= pos <= size && forall i :: 0 <= i < pos ==> buf[..size][i] < c
    {
      if buf[pos] > c { break; }
      assert buf[..size][pos] == buf[pos];
      pos := pos + 1;
    }
    if pos < size { assert buf[..size][pos] == buf[pos]; }
  }

  /** The value, moved to the end. */
  lemma ValueMoved(b: seq<byte>, b2: seq<byte>, n: Packed, i: nat, size: nat)
    requires i <= |n.data| == |n.kids| == size && n.value.Some?
    requires Parts(b, n, i, 0, i, size, size + PTR * i, size + PTR * size)
    requires var (src, dst) := (size + PTR * size, size + 1 + PTR * (size + 1));
      Only(b, b2, dst, PTR) && b2[dst..dst + PTR] == b[src..src + PTR]
    ensures Parts(b2, n, i, 0, i, size, size + PTR * i, size + 1 + PTR * (size + 1))
  {
    var dst := size + 1 + PTR * (size + 1);
    PartMoved(b, b2, size + PTR * size, dst, ValueBytes(n.value));
    FourKept(b, b2, dst, PTR, 0, n.data[..i], i, n.data[i..], size, Flat(n.kids[..i]), size + PTR * i,
      Flat(n.kids[i..]));
  }

  /** The pointers behind the place, moved by a byte and a pointer. */
  lemma PointersMoved(b: seq<byte>, b2: seq<byte>, n: Packed, i: nat, size: nat, src: nat, dst: nat, len: nat)
    requires i <= |n.data| == |n.kids| == size && src == size + PTR * i && dst == src + 1 + PTR &&
      len == PTR * (size - i)
    requires Parts(b, n, i, 0, i, size, src, size + 1 + PTR * (size + 1))
    requires Only(b, b2, dst, len) && src + len <= |b| && b2[dst..dst + len] == b[src..src + len]
    ensures Parts(b2, n, i, 0, i, size, dst, size + 1 + PTR * (size + 1))
  {
    PartMoved(b, b2, src, dst, Flat(n.kids[i..]));
    var v := size + 1 + PTR * (size + 1);
    FourKept(b, b2, dst, len, 0, n.data[..i], i, n.data[i..], size, Flat(n.kids[..i]), v, ValueBytes(n.value));
  }

  /** The bytes behind the place and the pointers before it, moved by one byte. */
  lemma BytesMoved(b: seq<byte>, b2: seq<byte>, n: Packed, i: nat, size: nat, at: nat, len: nat)
    requires i <= |n.data| == |n.kids| == size && at == size + 1 + PTR * i + PTR && len == size - i + PTR * i
    requires Parts(b, n, i, 0, i, size, at, size + 1 + PTR * (size + 1))
    requires Only(b, b2, i + 1, len) && i + len <= |b| && b2[i + 1..i + 1 + len] == b[i..i + len]
    ensures Parts(b2, n, i, 0, i + 1, size + 1, at, size + 1 + PTR * (size + 1))
  {
    var d2, p1 := n.data[i..], Flat(n.kids[..i]);
    PartJoin(b, i, d2, p1);
    PartMoved(b, b2, i, i + 1, d2 + p1);
    PartSplit(b2, i + 1, d2, p1);
    PartKept(b, b2, 0, n.data[..i], i + 1, len);
    PartKept(b, b2, at, Flat(n.kids[i..]), i + 1, len);
    PartKept(b, b2, size + 1 + PTR * (size + 1), ValueBytes(n.value), i + 1, len);
  }

  /** A write that is clear of all five parts. */
  lemma PartsKept(b: seq<byte>, b2: seq<byte>, n: Packed, i: nat, d2: nat, p1: nat, p2: nat, v: nat, at: nat, len: nat)
    requires i <= |n.data| == |n.kids| && Only(b, b2, at, len) && Parts(b, n, i, 0, d2, p1, p2, v)
    requires Clear(0, i, at, len) && Clear(d2, |n.data| - i, at, len) && Clear(p1, |Flat(n.kids[..i])|, at, len)
    requires Clear(p2, |Flat(n.kids[i..])|, at, len) && Clear(v, |ValueBytes(n.value)|, at, len)
    ensures Parts(b2, n, i, 0, d2, p1, p2, v)
  {
    FourKept(b, b2, at, len, 0, n.data[..i], d2, n.data[i..], p1, Flat(n.kids[..i]), p2, Flat(n.kids[i..]));
    PartKept(b, b2, v, ValueBytes(n.value), at, len);
  }

  /** A write into the gap that the moves have left. */
  lemma GapWritten(b: seq<byte>, b2: seq<byte>, n: Packed, i: nat, size: nat, at: nat, len: nat)
    requires i <= |n.data| == |n.kids| == size && Only(b, b2, at, len)
    requires (at == i && len == 1) || (at == size + 1 + PTR * i && len == PTR)
    requires Parts(b, n, i, 0, i + 1, size + 1, size + 1 + PTR * i + PTR, size + 1 + PTR * (size + 1))
    ensures Parts(b2, n, i, 0, i + 1, size + 1, size + 1 + PTR * i + PTR, size + 1 + PTR * (size + 1))
  {
    assert |Flat(n.kids[..i])| == PTR * i && |Flat(n.kids[i..])| == PTR * (size - i);
    PartsKept(b, b2, n, i, i + 1, size + 1, size + 1 + PTR * i + PTR, size + 1 + PTR * (size + 1), at, len);
  }

  /** Adds an edge byte and its child where the order of the bytes puts them. */
  method AddChild(buf: array<byte>, size: nat, hasValue: bool, c: byte, child: Cell, ghost n: Packed) returns (pos: nat)
    requires Holds(buf, n) && size == |n.data| && hasValue == n.value.Some?
    requires Ascending(n.data) && c !in n.data && |Layout(n)| + PTR + 1 <= buf.Length
    modifies buf
    ensures pos <= |n.data| && IsPlace(n.data, c, pos)
    ensures Holds(buf, Packed(InsertAt(n.data, pos, c), InsertAt(n.kids, pos, child), n.value))
  {
    HoldsData(buf, n);
    pos := PlaceOf(buf, size, c);
    MakeRoom(buf, size, hasValue, pos, n);
    WriteChild(buf, size, pos, c, child, n);
  }

  lemma HoldsData(buf: array<byte>, n: Packed)
    requires Holds(buf, n)
    ensures buf[..|n.data|] == n.data && Part(buf[..], 0, Layout(n))
  {
    assert buf[..][..|Layout(n)|] == buf[..|Layout(n)|];
    assert buf[..|Layout(n)|][..|n.data|] == n.data;
    assert buf[..|n.data|] == buf[..|Layout(n)|][..|n.data|];
  }

  /** Where the parts of a node are while a child is being added: D2, P1, P2 and V are
      the offsets of the bytes behind the place, of the pointers before and behind it,
      and of the value. */
  ghost predicate Placed(buf: array<byte>, n: Packed, i: nat, atD2: nat, atP1: nat, atP2: nat, atV: nat)
    reads buf
  {
    i <= |n.data| == |n.kids| && |Layout(n)| + PTR + 1 <= buf.Length && Parts(buf[..], n, i, 0, atD2, atP1, atP2, atV)
  }

  method MoveValue(buf: array<byte>, size: nat, hasValue: bool, pos: nat, ghost n: Packed)
    requires size == |n.data| && hasValue == n.value.Some? &&
      Placed(buf, n, pos, pos, size, size + PTR * pos, size + PTR * size)
    modifies buf
    ensures Placed(buf, n, pos, pos, size, size + PTR * pos, size + 1 + PTR * (size + 1))
  {
    hide Layout;
    if hasValue {
      ghost var b := buf[..];
      Memmove(buf, size + PTR * size + 1 + PTR, size + PTR * size, PTR);
      ValueMoved(b, buf[..], n, pos, size);
    }
  }

  method MovePointers(buf: array<byte>, size: nat, pos: nat, ghost n: Packed)
    requires size == |n.data| && Placed(buf, n, pos, pos, size, size + PTR * pos, size + 1 + PTR * (size + 1))
    modifies buf
    ensures Placed(buf, n, pos, pos, size, size + 1 + PTR * pos + PTR, size + 1 + PTR * (size + 1))
  {
    hide Parts;
    ghost var b := buf[..];
    var src := size + PTR * pos;
    Memmove(buf, src + 1 + PTR, src, PTR * (size - pos));
    assert src + 1 + PTR == size + 1 + PTR * pos + PTR;
    PointersMoved(b, buf[..], n, pos, size, src, src + 1 + PTR, PTR * (size - pos));
  }

  method MoveBytes(buf: array<byte>, size: nat, pos: nat, ghost n: Packed)
    requires size == |n.data|
    requires Placed(buf, n, pos, pos, size, size + 1 + PTR * pos + PTR, size + 1 + PTR * (size + 1))
    modifies buf
    ensures Placed(buf, n, pos, pos + 1, size + 1, size + 1 + PTR * pos + PTR, size + 1 + PTR * (size + 1))
  {
    hide Parts;
    ghost var b := buf[..];
    Memmove(buf, pos + 1, pos, size - pos + PTR * pos);
    BytesMoved(b, buf[..], n, pos, size, size + 1 + PTR * pos + PTR, size - pos + PTR * pos);
  }

  /** Makes room: for the value, for the pointers behind the place, for the bytes behind it. */
  method MakeRoom(buf: array<byte>, size: nat, hasValue: bool, pos: nat, ghost n: Packed)
    requires Holds(buf, n) && size == |n.data| && hasValue == n.value.Some? && pos <= size &&
      |Layout(n)| + PTR + 1 <= buf.Length
    modifies buf
    ensures Placed(buf, n, pos, pos + 1, size + 1, size + 1 + PTR * pos + PTR, size + 1 + PTR * (size + 1))
  {
    HoldsData(buf, n);
    LayoutParts(buf[..], n, pos, size);
    MoveValue(buf, size, hasValue, pos, n);
    MovePointers(buf, size, pos, n);
    MoveBytes(buf, size, pos, n);
  }

  method WriteByte(buf: array<byte>, size: nat, pos: nat, c: byte, ghost n: Packed)
    requires size == |n.data|
    requires Placed(buf, n, pos, pos + 1, size + 1, size + 1 + PTR * pos + PTR, size + 1 + PTR * (size + 1))
    modifies buf
    ensures Placed(buf, n, pos, pos + 1, size + 1, size + 1 + PTR * pos + PTR, size + 1 + PTR * (size + 1))
    ensures Part(buf[..], pos, [c])
  {
    ghost var b := buf[..];
    buf[pos] := c;
    GapWritten(b, buf[..], n, pos, size, pos, 1);
  }

  /** Fills the gaps with the edge byte and the pointer. */
  method WriteChild(buf: array<byte>, size: nat, pos: nat, c: byte, child: Cell, ghost n: Packed)
    requires size == |n.data|
    requires Placed(buf, n, pos, pos + 1, size + 1, size + 1 + PTR * pos + PTR, size + 1 + PTR * (size + 1))
    modifies buf
    ensures Holds(buf, Packed(InsertAt(n.data, pos, c), InsertAt(n.kids, pos, child), n.value))
  {
    WriteByte(buf, size, pos, c, n);
    ghost var b := buf[..];
    var field := size + 1 + PTR * pos;
    Memcpy(buf, field, child);
    FieldWritten(b, buf[..], n, pos, size, c, child);
    HoldsFrom(buf, Packed(InsertAt(n.data, pos, c), InsertAt(n.kids, pos, child), n.value));
  }

  lemma FieldWritten(b: seq<byte>, b2: seq<byte>, n: Packed, i: nat, size: nat, c: byte, child: Cell)
    requires i <= |n.data| == |n.kids| == size && Part(b, i, [c])
    requires Parts(b, n, i, 0, i + 1, size + 1, size + 1 + PTR * i + PTR, size + 1 + PTR * (size + 1))
    requires Only(b, b2, size + 1 + PTR * i, PTR) && Part(b2, size + 1 + PTR * i, child)
    ensures Part(b2, 0, Layout(Packed(InsertAt(n.data, i, c), InsertAt(n.kids, i, child), n.value)))
  {
    GapWritten(b, b2, n, i, size, size + 1 + PTR * i, PTR);
    PartKept(b, b2, i, [c], size + 1 + PTR * i, PTR);
    PartsAdded(b2, n, i, c, child);
  }

  lemma HoldsFrom(buf: array<byte>, m: Packed)
    requires |m.data| == |m.kids| && Part(buf[..], 0, Layout(m))
    ensures Holds(buf, m)
  {
    assert buf[..|Layout(m)|] == buf[..][..|Layout(m)|];
  }

  // ------------------------------------------------------------------
  // Removing a child
  // ------------------------------------------------------------------

  ghost function Removed(n: Packed, j: nat): (m: Packed)
    requires j < |n.data| == |n.kids|
  {
    Packed(RemoveAt(n.data, j), RemoveAt(n.kids, j), n.value)
  }

  /** Before, at and behind child j. */
  ghost predicate Pieces(b: seq<byte>, n: Packed, j: nat, atD2: nat, atP1: nat, atP2: nat)
    requires j < |n.data| == |n.kids|
  {
    Part(b, 0, n.data[..j]) && Part(b, atD2, n.data[j + 1..]) && Part(b, atP1, Flat(n.kids[..j])) &&
    Part(b, atP2, Flat(n.kids[j + 1..]) + ValueBytes(n.value))
  }

  lemma LayoutPieces(b: seq<byte>, n: Packed, j: nat, size: nat)
    requires Part(b, 0, Layout(n)) && j < |n.data| == |n.kids| == size
    ensures Pieces(b, n, j, j + 1, size, size + PTR * j + PTR)
    ensures Part(b, size + PTR * j, n.kids[j])
  {
    hide Part;
    LayoutParts(b, n, j, size);
    assert n.data[j..] == [n.data[j]] + n.data[j + 1..];
    PartSplit(b, j, [n.data[j]], n.data[j + 1..]);
    FlatHead(n.kids, j);
    PartSplit(b, size + PTR * j, n.kids[j], Flat(n.kids[j + 1..]));
    PartJoin(b, size + PTR * j + PTR, Flat(n.kids[j + 1..]), ValueBytes(n.value));
  }

  lemma PiecesLayout(b: seq<byte>, n: Packed, j: nat, size: nat)
    requires j < |n.data| == |n.kids| == size && Pieces(b, n, j, j, size - 1, size - 1 + PTR * j)
    ensures Part(b, 0, Layout(Removed(n, j)))
  {
    var d1, d2, p1, p2, v := n.data[..j], n.data[j + 1..], Flat(n.kids[..j]), Flat(n.kids[j + 1..]),
      ValueBytes(n.value);
    PartJoin(b, 0, d1, d2);
    PartJoin(b, size - 1, p1, p2 + v);
    PartJoin(b, 0, d1 + d2, p1 + (p2 + v));
    FlatConcat(n.kids[..j], n.kids[j + 1..]);
    assert d1 + d2 + (p1 + (p2 + v)) == Layout(Removed(n, j));
  }

  /** The edge bytes behind child j, moved down by one. */
  lemma EdgesClosed(b: seq<byte>, b2: seq<byte>, n: Packed, j: nat, size: nat, len: nat)
    requires j < |n.data| == |n.kids| == size && len == size - j - 1
    requires Pieces(b, n, j, j + 1, size, size + PTR * j + PTR) && Only(b, b2, j, len) &&
      b2[j..j + len] == b[j + 1..j + 1 + len]
    ensures Pieces(b2, n, j, j, size, size + PTR * j + PTR)
  {
    var tail := Flat(n.kids[j + 1..]) + ValueBytes(n.value);
    PartMoved(b, b2, j + 1, j, n.data[j + 1..]);
    ThreeKept(b, b2, j, len, 0, n.data[..j], size, Flat(n.kids[..j]), size + PTR * j + PTR, tail);
  }

  /** The pointers before it, moved down by one byte. */
  lemma PointersClosed(b: seq<byte>, b2: seq<byte>, n: Packed, j: nat, size: nat, len: nat)
    requires j < |n.data| == |n.kids| == size && len == PTR * j
    requires Pieces(b, n, j, j, size, size + PTR * j + PTR)
    requires Only(b, b2, size - 1, len) && b2[size - 1..size - 1 + len] == b[size..size + len]
    ensures Pieces(b2, n, j, j, size - 1, size + PTR * j + PTR)
  {
    var tail := Flat(n.kids[j + 1..]) + ValueBytes(n.value);
    PartMoved(b, b2, size, size - 1, Flat(n.kids[..j]));
    ThreeKept(b, b2, size - 1, len, 0, n.data[..j], j, n.data[j + 1..], size + PTR * j + PTR, tail);
  }

  /** The pointers behind it and the value, moved down by a byte and a pointer. */
  lemma TailClosed(b: seq<byte>, b2: seq<byte>, n: Packed, j: nat, size: nat, src: nat, dst: nat, len: nat)
    requires j < |n.data| == |n.kids| == size && src == size + PTR * j + PTR && dst == size - 1 + PTR * j
    requires len == |Flat(n.kids[j + 1..]) + ValueBytes(n.value)|
    requires Pieces(b, n, j, j, size - 1, src) && Only(b, b2, dst, len) && b2[dst..dst + len] == b[src..src + len]
    ensures Pieces(b2, n, j, j, size - 1, dst)
  {
    PartMoved(b, b2, src, dst, Flat(n.kids[j + 1..]) + ValueBytes(n.value));
    ThreeKept(b, b2, dst, len, 0, n.data[..j], j, n.data[j + 1..], size - 1, Flat(n.kids[..j]));
  }

  lemma PointerAt(buf: array<byte>, n: Packed, j: nat, size: nat)
    requires Holds(buf, n) && j < |n.kids| == size
    ensures size + PTR * j + PTR <= buf.Length && buf[size + PTR * j..size + PTR * j + PTR] == n.kids[j]
  {
    HoldsData(buf, n);
    LayoutPieces(buf[..], n, j, size);
    assert buf[size + PTR * j..size + PTR * j + PTR] == buf[..][size + PTR * j..size + PTR * j + PTR];
  }

  /** The index of the first pointer equal to `child`. */
  method FindPointer(buf: array<byte>, size: nat, child: Cell, ghost n: Packed) returns (j: nat)
    requires Holds(buf, n) && size == |n.data| && child in n.kids
    ensures j < size && n.kids[j] == child && forall i :: 0 <= i < j ==> n.kids[i] != child
  {
    j := 0;
    PointerAt(buf, n, 0, size);
    while buf[size + PTR * j..size + PTR * j + PTR] != child
      invariant j < size && size + PTR * j + PTR <= buf.Length
      invariant buf[size + PTR * j..size + PTR * j + PTR] == n.kids[j]
      invariant forall i :: 0 <= i < j ==> n.kids[i] != child
      decreases size - j
    {
      j := j + 1;
      PointerAt(buf, n, j, size);
    }
  }

  /** The bytes of a compressed node: its run, its only child, its value. */
  ghost predicate HoldsRun(buf: array<byte>, run: seq<byte>, child: Cell, value: Option<Cell>)
    reads buf
  {
    var all := run + child + ValueBytes(value);
    |all| <= buf.Length && buf[..|all|] == all
  }

  /** A compressed node that loses its child has no edges left; its value moves to the front. */
  method RemoveOnlyChild(buf: array<byte>, size: nat, hasValue: bool, ghost run: seq<byte>, ghost child: Cell,
      ghost value: Option<Cell>)
    requires HoldsRun(buf, run, child, value) && size == |run| && hasValue == value.Some?
    modifies buf
    ensures Holds(buf, Packed([], [], value))
  {
    if hasValue {
      ghost var all := run + child + ValueBytes(value);
      var data := buf[size + PTR..size + PTR + PTR];
      assert data == all[size + PTR..];
      forall k | 0 <= k < PTR {
        buf[k] := data[k];
      }
      assert buf[..PTR] == data;
    }
    assert Layout(Packed([], [], value)) == ValueBytes(value);
  }

  /** Removes a child and its edge byte. */
  method RemoveChild(buf: array<byte>, size: nat, hasValue: bool, child: Cell, ghost n: Packed) returns (j: nat)
    requires Holds(buf, n) && size == |n.data| && hasValue == n.value.Some? && child in n.kids
    modifies buf
    ensures j < |n.data| && n.kids[j] == child && (forall i :: 0 <= i < j ==> n.kids[i] != child)
    ensures Holds(buf, Removed(n, j))
  {
    j := FindPointer(buf, size, child, n);
    HoldsData(buf, n);
    CloseGaps(buf, size, hasValue, j, n);
    HoldsFrom(buf, Removed(n, j));
  }

  method CloseGaps(buf: array<byte>, size: nat, hasValue: bool, j: nat, ghost n: Packed)
    requires j < |n.data| == |n.kids| == size && hasValue == n.value.Some? && Part(buf[..], 0, Layout(n))
    modifies buf
    ensures Part(buf[..], 0, Layout(Removed(n, j)))
  {
    LayoutPieces(buf[..], n, j, size);
    var taillen := size - j - 1;
    ghost var b0 := buf[..];
    Memmove(buf, j, j + 1, taillen);
    ghost var b1 := buf[..];
    EdgesClosed(b0, b1, n, j, size, taillen);
    ClosePointers(buf, size, j, n);
    CloseTail(buf, size, hasValue, j, n);
    PiecesLayout(buf[..], n, j, size);
  }

  method CloseTail(buf: array<byte>, size: nat, hasValue: bool, j: nat, ghost n: Packed)
    requires j < |n.data| == |n.kids| == size && hasValue == n.value.Some?
    requires Pieces(buf[..], n, j, j, size - 1, size + PTR * j + PTR)
    modifies buf
    ensures Pieces(buf[..], n, j, j, size - 1, size - 1 + PTR * j)
  {
    hide Part;
    ghost var b := buf[..];
    var taillen := size - j - 1;
    var valuelen := if hasValue then PTR else 0;
    var src, dst := size + PTR * j + PTR, size + PTR * j - 1;
    var len := PTR * taillen + valuelen;
    TailLength(b, n, j, size, src, len);
    Memmove(buf, dst, src, len);
    TailClosed(b, buf[..], n, j, size, src, dst, len);
  }

  lemma TailLength(b: seq<byte>, n: Packed, j: nat, size: nat, src: nat, len: nat)
    requires j < |n.data| == |n.kids| == size && Part(b, src, Flat(n.kids[j + 1..]) + ValueBytes(n.value))
    requires len == PTR * (size - j - 1) + if n.value.Some? then PTR else 0
    ensures len == |Flat(n.kids[j + 1..]) + ValueBytes(n.value)| && src + len <= |b|
  {
  }

  method ClosePointers(buf: array<byte>, size: nat, j: nat, ghost n: Packed)
    requires j < |n.data| == |n.kids| == size && Pieces(buf[..], n, j, j, size, size + PTR * j + PTR)
    modifies buf
    ensures Pieces(buf[..], n, j, j, size - 1, size + PTR * j + PTR)
  {
    ghost var b := buf[..];
    var taillen := size - j - 1;
    Memmove(buf, size - 1, size, PTR * (size - taillen - 1));
    PointersClosed(b, buf[..], n, j, size, PTR * j);
  }

  // ------------------------------------------------------------------
  // What the two do to the pairs of bytes and children
  // ------------------------------------------------------------------

  /** The child at an edge byte. */
  function ChildAt(n: Packed, b: byte): (r: Option<Cell>) {
    var j := Find(n.data, b);
    if j < |n.kids| then Some(n.kids[j]) else None
  }

  /** Adding a child adds one pair, and keeps order, every other pair and the value. */
  lemma AddedPairs(n: Packed, c: byte, pos: nat, child: Cell, b: byte)
    requires |n.data| == |n.kids| && Ascending(n.data) && IsPlace(n.data, c, pos)
    ensures var m := Packed(InsertAt(n.data, pos, c), InsertAt(n.kids, pos, child), n.value);
      Ascending(m.data) && ChildAt(m, b) == if b == c then Some(child) else ChildAt(n, b)
  {
    InsertAscending(n.data, c, pos);
    FindInserted(n.data, c, pos, b);
  }

  /** Removing a child removes one pair, and keeps order, every other pair and the value. */
  lemma RemovedPairs(n: Packed, j: nat, b: byte)
    requires j < |n.data| == |n.kids| && Ascending(n.data)
    ensures Ascending(Removed(n, j).data)
    ensures ChildAt(Removed(n, j), b) == if b == n.data[j] then None else ChildAt(n, b)
  {
    RemoveAscending(n.data, j);
    FindRemoved(n.data, j, b);
  }

  /** Removing the child just added gives the node back. */
  lemma RemoveUndoesAdd(n: Packed, c: byte, pos: nat, child: Cell)
    requires |n.data| == |n.kids| && pos <= |n.data|
    ensures Removed(Packed(InsertAt(n.data, pos, c), InsertAt(n.kids, pos, child), n.value), pos) == n
  {
    assert RemoveAt(InsertAt(n.data, pos, c), pos) == n.data;
    assert RemoveAt(InsertAt(n.kids, pos, child), pos) == n.kids;
  }
}
