/** MessagePack objects as `cmp` lays them out: a marker byte, and what follows it. */
module CmpFormat {
  import opened Bytes

  datatype Type =
    | PositiveFixnum | FixMap | FixArray | FixStr | Nil | Boolean
    | Bin8 | Bin16 | Bin32 | Ext8 | Ext16 | Ext32 | Float | Double
    | UInt8 | UInt16 | UInt32 | UInt64 | SInt8 | SInt16 | SInt32 | SInt64
    | FixExt1 | FixExt2 | FixExt4 | FixExt8 | FixExt16
    | Str8 | Str16 | Str32 | Array16 | Array32 | Map16 | Map32 | NegativeFixnum

  /** The field of the union that the type of an object selects. */
  datatype Data = Unsigned(u: nat) | Signed(s: int) | Flag(b: bool) | Raw(bytes: seq<byte>) | Size(n: nat) |
    Ext(tag: int, size: nat)

  datatype Object = Object(kind: Type, data: Data)

  datatype Error = NoError | InputValueTooLarge | TypeMarkerReading | DataReading | ExtTypeReading | InvalidType |
    LengthReading

  // ------------------------------------------------------------------
  // Words
  // ------------------------------------------------------------------

  function Reversed(s: seq<byte>): (r: seq<byte>)
    ensures |r| == |s| && forall i :: 0 <= i < |s| ==> r[i] == s[|s| - 1 - i]
  {
    seq(|s|, i requires 0 <= i < |s| => s[|s| - 1 - i])
  }

  /** The bytes of `v` on a little-endian machine, swapped. */
  function Swapped(v: nat, k: nat): (s: seq<byte>)
    ensures |s| == k
  {
    Reversed(ToLE(v, k))
  }

  function Unswapped(s: seq<byte>): (v: nat)
    ensures v < Pow256(|s|)
  {
    FromLE(Reversed(s))
  }

  lemma SwapTwice(s: seq<byte>)
    ensures Reversed(Reversed(s)) == s
  {
  }

  lemma WordRoundTrip(v: nat, k: nat)
    requires v < Pow256(k)
    ensures Unswapped(Swapped(v, k)) == v
  {
    SwapTwice(ToLE(v, k));
    FromToLE(v, k);
  }

  /** Two's complement in k bytes. */
  function Complement(v: int, k: nat): (u: nat)
    requires 0 <= 2 * v + Pow256(k) < 2 * Pow256(k)
    ensures u < Pow256(k)
  {
    if v < 0 then v + Pow256(k) else v
  }

  function Uncomplement(u: nat, k: nat): (v: int) {
    if 2 * u >= Pow256(k) then u - Pow256(k) else u
  }

  // ------------------------------------------------------------------
  // Types
  // ------------------------------------------------------------------

  /** The type that a marker byte announces. */
  function TypeOf(m: byte): (t: Option<Type>) {
    if m <= 0x7F then Some(PositiveFixnum)
    else if m <= 0x8F then Some(FixMap)
    else if m <= 0x9F then Some(FixArray)
    else if m <= 0xBF then Some(FixStr)
    else if m >= 0xE0 then Some(NegativeFixnum)
    else match m
      case 0xC0 => Some(Nil)
      case 0xC2 => Some(Boolean)
      case 0xC3 => Some(Boolean)
      case 0xC4 => Some(Bin8)
      case 0xC5 => Some(Bin16)
      case 0xC6 => Some(Bin32)
      case 0xC7 => Some(Ext8)
      case 0xC8 => Some(Ext16)
      case 0xC9 => Some(Ext32)
      case 0xCA => Some(Float)
      case 0xCB => Some(Double)
      case 0xCC => Some(UInt8)
      case 0xCD => Some(UInt16)
      case 0xCE => Some(UInt32)
      case 0xCF => Some(UInt64)
      case 0xD0 => Some(SInt8)
      case 0xD1 => Some(SInt16)
      case 0xD2 => Some(SInt32)
      case 0xD3 => Some(SInt64)
      case 0xD4 => Some(FixExt1)
      case 0xD5 => Some(FixExt2)
      case 0xD6 => Some(FixExt4)
      case 0xD7 => Some(FixExt8)
      case 0xD8 => Some(FixExt16)
      case 0xD9 => Some(Str8)
      case 0xDA => Some(Str16)
      case 0xDB => Some(Str32)
      case 0xDC => Some(Array16)
      case 0xDD => Some(Array32)
      case 0xDE => Some(Map16)
      case 0xDF => Some(Map32)
      case _ => None
  }

  /** The marker of a type; the least one where the marker also holds a value. */
  function Marker(t: Type): (m: byte) {
    match t
    case PositiveFixnum => 0x00
    case FixMap => 0x80
    case FixArray => 0x90
    case FixStr => 0xA0
    case Nil => 0xC0
    case Boolean => 0xC2
    case Bin8 => 0xC4
    case Bin16 => 0xC5
    case Bin32 => 0xC6
    case Ext8 => 0xC7
    case Ext16 => 0xC8
    case Ext32 => 0xC9
    case Float => 0xCA
    case Double => 0xCB
    case UInt8 => 0xCC
    case UInt16 => 0xCD
    case UInt32 => 0xCE
    case UInt64 => 0xCF
    case SInt8 => 0xD0
    case SInt16 => 0xD1
    case SInt32 => 0xD2
    case SInt64 => 0xD3
    case FixExt1 => 0xD4
    case FixExt2 => 0xD5
    case FixExt4 => 0xD6
    case FixExt8 => 0xD7
    case FixExt16 => 0xD8
    case Str8 => 0xD9
    case Str16 => 0xDA
    case Str32 => 0xDB
    case Array16 => 0xDC
    case Array32 => 0xDD
    case Map16 => 0xDE
    case Map32 => 0xDF
    case NegativeFixnum => 0xE0
  }

  /** How the objects of a type are laid out behind the marker. */
  datatype Shape =
    | Low                      // the marker is the number, from 0
    | High                     // the marker is the number, below 0
    | Null
    | Truth
    | Natural(k: nat)          // a number of k bytes
    | Whole(k: nat)            // with a sign
    | Floating(k: nat)
    | Short(limit: nat)        // the marker holds a size
    | Long(w: nat, e: Error)   // a size of w bytes; e if it is missing
    | ShortExt(n: nat)         // a tag; n bytes of payload
    | LongExt(w: nat)          // a size of w bytes and a tag

  function ShapeOf(t: Type): (h: Shape) {
    match t
    case PositiveFixnum => Low
    case NegativeFixnum => High
    case Nil => Null
    case Boolean => Truth
    case UInt8 => Natural(1)
    case UInt16 => Natural(2)
    case UInt32 => Natural(4)
    case UInt64 => Natural(8)
    case SInt8 => Whole(1)
    case SInt16 => Whole(2)
    case SInt32 => Whole(4)
    case SInt64 => Whole(8)
    case Float => Floating(4)
    case Double => Floating(8)
    case FixMap | FixArray => Short(0xF)
    case FixStr => Short(0x1F)
    case Bin8 => Long(1, LengthReading)
    case Bin16 => Long(2, LengthReading)
    case Bin32 => Long(4, LengthReading)
    case Str8 => Long(1, DataReading)
    case Str16 | Array16 | Map16 => Long(2, DataReading)
    case Str32 | Array32 | Map32 => Long(4, DataReading)
    case FixExt1 => ShortExt(1)
    case FixExt2 => ShortExt(2)
    case FixExt4 => ShortExt(4)
    case FixExt8 => ShortExt(8)
    case FixExt16 => ShortExt(16)
    case Ext8 => LongExt(1)
    case Ext16 => LongExt(2)
    case Ext32 => LongExt(4)
  }

  predicate IsArray(t: Type) {
    t == FixArray || t == Array16 || t == Array32
  }

  predicate IsMap(t: Type) {
    t == FixMap || t == Map16 || t == Map32
  }

  // ------------------------------------------------------------------
  // Objects
  // ------------------------------------------------------------------

  /** What the C types allow: the union's field for the type, within its width. */
  predicate Typed(h: Shape, d: Data) {
    match h
    case Low | Null => d.Unsigned? && d.u < 0x100
    case High => d.Signed? && -0x80 <= d.s < 0x80
    case Truth => d.Flag?
    case Natural(k) => d.Unsigned? && d.u < Pow256(k)
    case Whole(k) => d.Signed? && 0 <= 2 * d.s + Pow256(k) < 2 * Pow256(k)
    case Floating(k) => d.Raw? && |d.bytes| == k
    case Short(_) | Long(_, _) => d.Size? && d.n < 0x1_0000_0000
    case ShortExt(_) | LongExt(_) => d.Ext? && -0x80 <= d.tag < 0x80 && d.size < 0x1_0000_0000
  }

  /** What the format can hold. */
  predicate Fits(h: Shape, d: Data) {
    Typed(h, d) &&
    match h
    case Low => d.u <= 0x7F
    case High => -32 <= d.s <= -1
    case Null => d.u == 0
    case Short(limit) => d.n <= limit
    case Long(w, _) => d.n < Pow256(w)
    case ShortExt(n) => d.size == n
    case LongExt(w) => d.size < Pow256(w)
    case _ => true
  }

  predicate WellTyped(o: Object) {
    Typed(ShapeOf(o.kind), o.data)
  }

  predicate InRange(o: Object) {
    Fits(ShapeOf(o.kind), o.data)
  }

  /** The marker byte of an object, from that of its type. */
  function First(h: Shape, base: byte, d: Data): (m: int)
    requires Fits(h, d)
  {
    match h
    case Low => d.u
    case High => d.s + 0x100
    case Truth => if d.b then base + 1 else base
    case Short(_) => base + d.n
    case _ => base
  }

  /** What follows the marker: a number, or size and tag. */
  function Body(h: Shape, d: Data): (s: seq<byte>)
    requires Fits(h, d)
  {
    match h
    case Natural(k) => Swapped(d.u, k)
    case Whole(k) => Swapped(Complement(d.s, k), k)
    case Floating(k) => Reversed(d.bytes)
    case Long(w, _) => Swapped(d.n, w)
    case ShortExt(_) => [SignedByte(d.tag)]
    case LongExt(w) => Swapped(d.size, w) + [SignedByte(d.tag)]
    case _ => []
  }

  /** The byte of an 8-bit signed number, and back. */
  function SignedByte(v: int): (b: byte)
    requires -0x80 <= v < 0x80
  {
    if v < 0 then v + 0x100 else v
  }

  function ByteSigned(b: byte): (v: int)
    ensures -0x80 <= v < 0x80
  {
    if b >= 0x80 then b - 0x100 else b
  }

  /** Markers that hold a value stay within those of their type. */
  lemma MarkerTells(t: Type, d: Data)
    requires Fits(ShapeOf(t), d)
    ensures 0 <= First(ShapeOf(t), Marker(t), d) < 0x100
    ensures TypeOf(First(ShapeOf(t), Marker(t), d)) == Some(t)
    ensures ShapeOf(t).Short? ==> Marker(t) % (ShapeOf(t).limit + 1) == 0
    ensures ShapeOf(t).Truth? ==> Marker(t) == 0xC2
  {
    hide Pow256;
  }

  /** The encoding of an object. */
  function Header(o: Object): (s: seq<byte>)
    requires InRange(o)
    ensures |s| >= 1
  {
    MarkerTells(o.kind, o.data);
    [First(ShapeOf(o.kind), Marker(o.kind), o.data)] + Body(ShapeOf(o.kind), o.data)
  }

  // ------------------------------------------------------------------
  // Reading
  // ------------------------------------------------------------------

  datatype SizeRead = SizeIs(n: nat, rest: seq<byte>) | NoSize(error: Error)

  function SizeField(w: nat, e: Error, s: seq<byte>): (r: SizeRead)
    ensures r.SizeIs? ==> |r.rest| <= |s|
  {
    if |s| < w then NoSize(e) else SizeIs(Unswapped(s[..w]), s[w..])
  }

  /** The size behind marker m: of the payload, or the number of elements. */
  function ReadSize(h: Shape, m: byte, s: seq<byte>): (r: SizeRead)
    ensures r.SizeIs? ==> |r.rest| <= |s|
  {
    match h
    case Natural(k) => SizeIs(k, s)
    case Whole(k) => SizeIs(k, s)
    case Floating(k) => SizeIs(k, s)
    case Short(limit) => SizeIs(m % (limit + 1), s)
    case Long(w, e) => SizeField(w, e, s)
    case ShortExt(n) => SizeIs(n, s)
    case LongExt(w) => SizeField(w, LengthReading, s)
    case _ => SizeIs(0, s)
  }

  datatype DataRead = Got(d: Data, rest: seq<byte>) | Failed(error: Error)

  function ReadTag(size: nat, s: seq<byte>): (r: DataRead) {
    if s == [] then Failed(ExtTypeReading) else Got(Ext(ByteSigned(s[0]), size), s[1..])
  }

  /** The data of an object whose marker m has been read. */
  function ReadData(h: Shape, m: byte, s: seq<byte>): (r: DataRead) {
    match h
    case Low => Got(Unsigned(m), s)
    case High => Got(Signed(ByteSigned(m)), s)
    case Null => Got(Unsigned(0), s)
    case Truth => Got(Flag(m == 0xC3), s)
    case Natural(k) => if |s| < k then Failed(DataReading) else Got(Unsigned(Unswapped(s[..k])), s[k..])
    case Whole(k) => if |s| < k then Failed(DataReading) else Got(Signed(Uncomplement(Unswapped(s[..k]), k)), s[k..])
    case Floating(k) => if |s| < k then Failed(DataReading) else Got(Raw(Reversed(s[..k])), s[k..])
    case ShortExt(n) => ReadTag(n, s)
    case Short(_) | Long(_, _) | LongExt(_) =>
      match ReadSize(h, m, s)
      case NoSize(e) => Failed(e)
      case SizeIs(n, rest) => if h.LongExt? then ReadTag(n, rest) else Got(Size(n), rest)
  }

  datatype ObjectRead = Read(o: Object, rest: seq<byte>) | NoObject(error: Error)

  function ReadMarked(t: Type, m: byte, s: seq<byte>): (r: ObjectRead) {
    match ReadData(ShapeOf(t), m, s)
    case Failed(e) => NoObject(e)
    case Got(d, rest) => Read(Object(t, d), rest)
  }

  function ReadObject(s: seq<byte>): (r: ObjectRead) {
    if s == [] then NoObject(TypeMarkerReading)
    else
      match TypeOf(s[0])
      case None => NoObject(InvalidType)
      case Some(t) => ReadMarked(t, s[0], s[1..])
  }

  // ------------------------------------------------------------------
  // Round trip
  // ------------------------------------------------------------------

  lemma Leading(a: seq<byte>, b: seq<byte>)
    ensures (a + b)[..|a|] == a && (a + b)[|a|..] == b
  {
  }

  lemma TagRoundTrip(size: nat, tag: int, rest: seq<byte>)
    requires -0x80 <= tag < 0x80
    ensures ReadTag(size, [SignedByte(tag)] + rest) == Got(Ext(tag, size), rest)
  {
    Leading([SignedByte(tag)], rest);
  }

  lemma SizeRoundTrip(w: nat, e: Error, n: nat, rest: seq<byte>)
    requires n < Pow256(w)
    ensures SizeField(w, e, Swapped(n, w) + rest) == SizeIs(n, rest)
  {
    Leading(Swapped(n, w), rest);
    WordRoundTrip(n, w);
  }

  lemma LongExtRoundTrip(w: nat, m: byte, d: Data, rest: seq<byte>)
    requires Fits(LongExt(w), d)
    ensures ReadData(LongExt(w), m, Body(LongExt(w), d) + rest) == Got(d, rest)
  {
    TagRoundTrip(d.size, d.tag, rest);
    SizeRoundTrip(w, LengthReading, d.size, [SignedByte(d.tag)] + rest);
    assert Body(LongExt(w), d) + rest == Swapped(d.size, w) + ([SignedByte(d.tag)] + rest);
  }

  lemma ModBase(base: nat, n: nat, k: nat)
    requires n < k && base % k == 0
    ensures (base + n) % k == n
  {
    DivMod(base, k);
    ModUnique(base + n, k, base / k, n);
  }

  /** Data of every shape. */
  lemma DataRoundTrip(h: Shape, base: byte, d: Data, rest: seq<byte>)
    requires Fits(h, d) && 0 <= First(h, base, d) < 0x100
    requires (h.Short? ==> base % (h.limit + 1) == 0) && (h.Truth? ==> base == 0xC2)
    ensures ReadData(h, First(h, base, d), Body(h, d) + rest) == Got(d, rest)
  {
    Leading(Body(h, d), rest);
    match h
    case Natural(k) => WordRoundTrip(d.u, k);
    case Whole(k) => WordRoundTrip(Complement(d.s, k), k);
    case Floating(k) => SwapTwice(d.bytes);
    case Short(limit) => ModBase(base, d.n, limit + 1);
    case Long(w, e) => SizeRoundTrip(w, e, d.n, rest);
    case ShortExt(n) => TagRoundTrip(d.size, d.tag, rest);
    case LongExt(w) => LongExtRoundTrip(w, base, d, rest);
    case _ =>
  }

  lemma MarkedRoundTrip(t: Type, m: byte, d: Data, rest: seq<byte>)
    requires Fits(ShapeOf(t), d) && m == First(ShapeOf(t), Marker(t), d)
    ensures ReadMarked(t, m, Body(ShapeOf(t), d) + rest) == Read(Object(t, d), rest)
  {
    MarkerTells(t, d);
    DataRoundTrip(ShapeOf(t), Marker(t), d, rest);
  }

  /** Reading gives back an object that its format can hold, and leaves what follows. */
  lemma ObjectRoundTrip(o: Object, rest: seq<byte>)
    requires InRange(o)
    ensures ReadObject(Header(o) + rest) == Read(o, rest)
  {
    var m, b := First(ShapeOf(o.kind), Marker(o.kind), o.data), Body(ShapeOf(o.kind), o.data);
    MarkerTells(o.kind, o.data);
    MarkedRoundTrip(o.kind, m, o.data, rest);
    Behind(m, b, rest);
  }

  lemma Behind(m: byte, b: seq<byte>, rest: seq<byte>)
    ensures ([m] + b + rest)[0] == m && ([m] + b + rest)[1..] == b + rest
  {
  }

  // ------------------------------------------------------------------
  // Nothing else is read
  // ------------------------------------------------------------------

  lemma {:induction false} ToFromLE(s: seq<byte>)
    ensures ToLE(FromLE(s), |s|) == s
  {
    if s != [] {
      ToFromLE(s[1..]);
      FirstLE(s[0], FromLE(s[1..]), |s| - 1);
      assert s == [s[0]] + s[1..];
    }
  }

  lemma WordReadBack(s: seq<byte>, k: nat)
    requires k <= |s|
    ensures Unswapped(s[..k]) < Pow256(k) && Swapped(Unswapped(s[..k]), k) + s[k..] == s
  {
    ToFromLE(Reversed(s[..k]));
    SwapTwice(s[..k]);
    assert s == s[..k] + s[k..];
  }

  lemma SignReadBack(u: nat, k: nat)
    requires u < Pow256(k)
    ensures var v := Uncomplement(u, k);
      0 <= 2 * v + Pow256(k) < 2 * Pow256(k) && Complement(v, k) == u
  {
  }

  /** A marker that holds no value is that of its type. */
  lemma MarkerRead(m: byte)
    requires TypeOf(m).Some?
    ensures var (t, h) := (TypeOf(m).value, ShapeOf(TypeOf(m).value));
      match h
      case Low => m <= 0x7F
      case High => m >= 0xE0
      case Truth => m == 0xC2 || m == 0xC3
      case Short(limit) => m == Marker(t) + m % (limit + 1)
      case _ => m == Marker(t)
  {
    if 0xC0 <= m < 0xE0 { TableRead(m); }
  }

  lemma TableRead(m: byte)
    requires 0xC0 <= m < 0xE0 && TypeOf(m).Some?
    ensures var (t, h) := (TypeOf(m).value, ShapeOf(TypeOf(m).value));
      if h.Truth? then m == 0xC2 || m == 0xC3 else m == Marker(t) && !h.Low? && !h.High? && !h.Short?
  {
  }

  /** How much a marker calls for behind it. */
  function Extent(h: Shape): (n: nat) {
    match h
    case Natural(k) => k
    case Whole(k) => k
    case Floating(k) => k
    case Long(w, _) => w
    case ShortExt(_) => 1
    case LongExt(w) => w + 1
    case _ => 0
  }

  /** The sizes that there are. */
  predicate Narrow(h: Shape) {
    match h
    case Long(w, _) => w <= 4
    case LongExt(w) => w <= 4
    case ShortExt(n) => n <= 16
    case Short(limit) => limit < 0x100
    case _ => true
  }

  lemma TagReadBack(size: nat, s: seq<byte>)
    requires s != []
    ensures ReadTag(size, s) == Got(Ext(ByteSigned(s[0]), size), s[1..])
    ensures [SignedByte(ByteSigned(s[0]))] + s[1..] == s
  {
  }

  lemma LongExtReadBack(w: nat, m: byte, s: seq<byte>)
    requires w <= 4 && |s| >= w + 1
    ensures var r := ReadData(LongExt(w), m, s);
      r.Got? && Fits(LongExt(w), r.d) && Body(LongExt(w), r.d) + r.rest == s
  {
    Pow256Values();
    WordReadBack(s, w);
    TagReadBack(Unswapped(s[..w]), s[w..]);
    Assoc(Swapped(Unswapped(s[..w]), w), [SignedByte(ByteSigned(s[w]))], s[w + 1..]);
    assert s[w..][1..] == s[w + 1..] && s[w..][0] == s[w];
  }

  /** Data is read if there is enough of it, and is then what its encoding stands for. */
  lemma DataReadBack(t: Type, m: byte, s: seq<byte>)
    requires TypeOf(m) == Some(t)
    ensures var (h, r) := (ShapeOf(t), ReadData(ShapeOf(t), m, s));
      (r.Got? <==> |s| >= Extent(h)) &&
      (r.Got? ==> Fits(h, r.d) && First(h, Marker(t), r.d) == m && Body(h, r.d) + r.rest == s)
  {
    MarkerRead(m);
    ShapeReadBack(ShapeOf(t), Marker(t), m, s) by { AreNarrow(t); }
  }

  lemma AreNarrow(t: Type)
    ensures Narrow(ShapeOf(t))
  {
  }

  lemma ShapeReadBack(h: Shape, base: byte, m: byte, s: seq<byte>)
    requires Narrow(h)
    requires match h
      case Low => m <= 0x7F
      case High => m >= 0xE0
      case Truth => base == 0xC2 && (m == 0xC2 || m == 0xC3)
      case Short(limit) => m == base + m % (limit + 1)
      case _ => m == base
    ensures var r := ReadData(h, m, s);
      (r.Got? <==> |s| >= Extent(h)) &&
      (r.Got? ==> Fits(h, r.d) && First(h, base, r.d) == m && Body(h, r.d) + r.rest == s)
  {
    hide Swapped, Unswapped, Pow256, Complement, Uncomplement, Reversed;
    match h
    case Natural(k) => if |s| >= k { WordReadBack(s, k); }
    case Whole(k) => if |s| >= k { WordReadBack(s, k); SignReadBack(Unswapped(s[..k]), k); }
    case Floating(k) => if |s| >= k { SwapTwice(s[..k]); }
    case Long(w, _) => if |s| >= w { Pow256Values(); WordReadBack(s, w); }
    case ShortExt(n) => if s != [] { TagReadBack(n, s); }
    case LongExt(w) => if |s| > w { LongExtReadBack(w, m, s); }
    case _ => assert [] + s == s;
  }

  /** What is read is in range, and its encoding is what has been consumed. */
  lemma ReadsBack(s: seq<byte>)
    requires ReadObject(s).Read?
    ensures InRange(ReadObject(s).o) && Header(ReadObject(s).o) + ReadObject(s).rest == s
  {
    hide ReadData, Fits, First, Body, TypeOf;
    var t := TypeOf(s[0]).value;
    DataReadBack(t, s[0], s[1..]);
    var r := ReadData(ShapeOf(t), s[0], s[1..]);
    Assoc([s[0]], Body(ShapeOf(t), r.d), r.rest);
    assert [s[0]] + s[1..] == s;
  }

  /** A stream is refused if and only if it is empty, starts with the one byte that is no
      marker, or ends before all is there that its marker calls for. */
  lemma RefusedExactly(s: seq<byte>)
    ensures ReadObject(s).NoObject? <==>
      s == [] || s[0] == 0xC1 || (TypeOf(s[0]).Some? && |s| <= Extent(ShapeOf(TypeOf(s[0]).value)))
    ensures ReadObject(s) == NoObject(TypeMarkerReading) <==> s == []
    ensures ReadObject(s) == NoObject(InvalidType) <==> s != [] && s[0] == 0xC1
  {
    if s != [] {
      OneInvalid(s[0]);
      if TypeOf(s[0]).Some? {
        hide ReadData, TypeOf;
        DataReadBack(TypeOf(s[0]).value, s[0], s[1..]);
        OtherErrors(ShapeOf(TypeOf(s[0]).value), s[0], s[1..]);
      }
    }
  }

  lemma OneInvalid(m: byte)
    ensures TypeOf(m).None? <==> m == 0xC1
  {
  }

  lemma OtherErrors(h: Shape, m: byte, s: seq<byte>)
    requires h.Long? ==> h.e == DataReading || h.e == LengthReading
    ensures ReadData(h, m, s).Failed? ==> ReadData(h, m, s).error in {DataReading, LengthReading, ExtTypeReading}
  {
  }

  /** Words are sent with the most significant byte first. */
  lemma WordOnTheWire(a: byte, b: byte, c: byte, d: byte)
    ensures var n := 0x100_0000 * a + 0x1_0000 * b + 0x100 * c + d;
      0 <= n < Pow256(4) == 0x1_0000_0000 && Swapped(n, 4) == [a, b, c, d]
  {
    Pow256Values();
    FourBytesLE(0x100_0000 * a + 0x1_0000 * b + 0x100 * c + d, d, c, b, a);
  }

  lemma NumberOnTheWire(a: byte, b: byte, c: byte, d: byte)
    ensures var o := Object(UInt32, Unsigned(0x100_0000 * a + 0x1_0000 * b + 0x100 * c + d));
      InRange(o) && Header(o) == [0xCE, a, b, c, d]
  {
    hide Swapped, Pow256;
    WordOnTheWire(a, b, c, d);
  }

  lemma SizesOnTheWire(a: byte, b: byte, c: byte, d: byte, t: Type, m: byte)
    requires (t, m) in {(Bin32, 0xC6), (Str32, 0xDB), (Array32, 0xDD), (Map32, 0xDF)}
    ensures var o := Object(t, Size(0x100_0000 * a + 0x1_0000 * b + 0x100 * c + d));
      InRange(o) && Header(o) == [m, a, b, c, d]
  {
    hide Swapped, Pow256;
    WordOnTheWire(a, b, c, d);
  }

  lemma ExtOnTheWire(a: byte, b: byte, c: byte, d: byte, tag: int)
    requires -0x80 <= tag < 0x80
    ensures var o := Object(Ext32, Ext(tag, 0x100_0000 * a + 0x1_0000 * b + 0x100 * c + d));
      InRange(o) && Header(o) == [0xC9, a, b, c, d, if tag < 0 then 0x100 + tag else tag]
  {
    hide Swapped, Pow256;
    WordOnTheWire(a, b, c, d);
  }

  lemma FloatOnTheWire(a: byte, b: byte, c: byte, d: byte)
    ensures var o := Object(Float, Raw([d, c, b, a]));
      InRange(o) && Header(o) == [0xCA, a, b, c, d]
  {
    assert Reversed([d, c, b, a]) == [a, b, c, d];
  }

  /** Small values are held by the marker itself. */
  lemma SmallOnTheWire(n: nat, b: bool)
    requires n < 16
    ensures InRange(Object(PositiveFixnum, Unsigned(n))) && Header(Object(PositiveFixnum, Unsigned(n))) == [n]
    ensures InRange(Object(NegativeFixnum, Signed(-1 - n)))
    ensures Header(Object(NegativeFixnum, Signed(-1 - n))) == [0xFF - n]
    ensures InRange(Object(FixMap, Size(n))) && Header(Object(FixMap, Size(n))) == [0x80 + n]
    ensures InRange(Object(FixArray, Size(n))) && Header(Object(FixArray, Size(n))) == [0x90 + n]
    ensures InRange(Object(FixStr, Size(n))) && Header(Object(FixStr, Size(n))) == [0xA0 + n]
    ensures InRange(Object(Boolean, Flag(b))) && Header(Object(Boolean, Flag(b))) == [if b then 0xC3 else 0xC2]
  {
  }

  /** The formats of growing width have their markers in a row. */
  lemma NumbersInRows(j: nat)
    requires j < 4
    ensures var (u, v, w) := ([UInt8, UInt16, UInt32, UInt64][j], [SInt8, SInt16, SInt32, SInt64][j], [1, 2, 4, 8][j]);
      Marker(u) == 0xCC + j && ShapeOf(u) == Natural(w) && Marker(v) == 0xD0 + j && ShapeOf(v) == Whole(w)
  {
  }

  lemma SizesInRows(j: nat)
    requires j < 3
    ensures var (b, s, w) := ([Bin8, Bin16, Bin32][j], [Str8, Str16, Str32][j], [1, 2, 4][j]);
      Marker(b) == 0xC4 + j && ShapeOf(b) == Long(w, LengthReading) &&
      Marker(s) == 0xD9 + j && ShapeOf(s) == Long(w, DataReading)
  {
  }

  lemma ExtsInRows(j: nat)
    requires j < 5
    ensures var (t, n) := ([FixExt1, FixExt2, FixExt4, FixExt8, FixExt16][j], [1, 2, 4, 8, 16][j]);
      Marker(t) == 0xD4 + j && ShapeOf(t) == ShortExt(n)
    ensures j < 3 ==>
      Marker([Ext8, Ext16, Ext32][j]) == 0xC7 + j && ShapeOf([Ext8, Ext16, Ext32][j]) == LongExt([1, 2, 4][j])
  {
  }

  // ------------------------------------------------------------------
  // Writing
  // ------------------------------------------------------------------

  /** What the writer makes of the data: sizes are cut to the width of their field. */
  function Cut(h: Shape, d: Data): (c: Data)
    requires Typed(h, d)
  {
    match h
    case Null => Unsigned(0)
    case Short(_) => Size(d.n % 0x100)
    case Long(w, _) => Size(d.n % Pow256(w))
    case ShortExt(n) => Ext(d.tag, n)
    case LongExt(w) => Ext(d.tag, d.size % Pow256(w))
    case _ => d
  }

  /** The writer takes the object. */
  predicate Accepted(h: Shape, d: Data)
    requires Typed(h, d)
  {
    match h
    case Low => d.u <= 0x7F
    case High => -32 <= d.s <= -1
    case Short(limit) => d.n % 0x100 <= limit
    case _ => true
  }

  lemma CutFits(h: Shape, d: Data)
    requires Typed(h, d) && Accepted(h, d)
    requires match h
      case Short(limit) => limit < 0x100
      case Long(w, _) => w <= 4
      case LongExt(w) => w <= 4
      case ShortExt(n) => n <= 16
      case _ => true
    ensures Fits(h, Cut(h, d)) && (Cut(h, d) == d <==> Fits(h, d))
  {
    Pow256Values();
    match h
    case Short(limit) => if d.n <= limit { ModSmall(d.n, 0x100); }
    case Long(w, _) => Cutting(d.n, w);
    case LongExt(w) => Cutting(d.size, w);
    case _ =>
  }

  lemma ModSmall(n: nat, k: nat)
    requires n < k
    ensures n % k == n
  {
  }

  lemma Cutting(n: nat, w: nat)
    requires n < 0x1_0000_0000 && w <= 4
    ensures n % Pow256(w) < Pow256(w) <= 0x1_0000_0000 && (n % Pow256(w) == n <==> n < Pow256(w))
  {
    Pow256Values();
    if n < Pow256(w) { ModSmall(n, Pow256(w)); }
  }

  /** The bytes that the writer sends, if it takes the object. */
  function Written(o: Object): (s: Option<seq<byte>>)
    requires WellTyped(o)
  {
    var h := ShapeOf(o.kind);
    if Accepted(h, o.data) then
      CutFits(h, o.data);
      Some(Header(Object(o.kind, Cut(h, o.data))))
    else None
  }

  /** An array of 256 elements written in the shortest format is an empty array. */
  lemma CutToNothing(rest: seq<byte>)
    ensures var o := Object(FixArray, Size(0x100));
      WellTyped(o) && Written(o) == Some(Header(Object(FixArray, Size(0)))) &&
      ReadObject(Header(Object(FixArray, Size(0))) + rest) == Read(Object(FixArray, Size(0)), rest)
  {
    ObjectRoundTrip(Object(FixArray, Size(0)), rest);
  }

  /** Reading gives back what was written exactly when the format can hold it. */
  lemma RoundTripExactly(o: Object, rest: seq<byte>)
    requires WellTyped(o)
    ensures (Written(o).Some? && ReadObject(Written(o).value + rest) == Read(o, rest)) <==> InRange(o)
  {
    var h := ShapeOf(o.kind);
    if Accepted(h, o.data) {
      CutFits(h, o.data);
      ObjectRoundTrip(Object(o.kind, Cut(h, o.data)), rest);
    }
  }
}
