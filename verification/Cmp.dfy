/**
 The MessagePack reader and writer over a stream in memory: the callbacks of the C
 context read from, skip in, and append to a byte sequence.
 */
module Cmp {
  import opened Bytes
  import opened CmpFormat
  import opened CmpSkip

  // ------------------------------------------------------------------
  // Integers
  // ------------------------------------------------------------------

  const INT64_LIMIT := 0x8000_0000_0000_0000

  /** The `s8` field of the union, whichever field has been set. */
  function AsS8(d: Data): (v: int) {
    match d
    case Unsigned(u) => ByteSigned(u % 0x100)
    case Signed(s) => s
    case _ => 0
  }

  /** Its wider fields. */
  function AsUnsigned(d: Data): (v: nat) {
    match d
    case Unsigned(u) => u
    case _ => 0
  }

  function AsSigned(d: Data): (v: int) {
    match d
    case Signed(s) => s
    case _ => 0
  }

  /** The number that an object holds, if it is one that a signed 64-bit word can hold. */
  function IntegerOf(o: Object): (r: Option<int>) {
    match o.kind
    case PositiveFixnum | NegativeFixnum | SInt8 => Some(AsS8(o.data))
    case UInt8 | UInt16 | UInt32 => Some(AsUnsigned(o.data))
    case SInt16 | SInt32 | SInt64 => Some(AsSigned(o.data))
    case UInt64 => if AsUnsigned(o.data) < INT64_LIMIT then Some(AsUnsigned(o.data)) else None
    case _ => None
  }

  /** The object that `cmp_write_integer` chooses for d. */
  function IntegerObject(d: int): (o: Object) {
    if d >= 0 then
      Object(if d <= 0x7F then PositiveFixnum else if d <= 0xFF then UInt8 else if d <= 0xFFFF then UInt16
             else if d <= 0xFFFF_FFFF then UInt32 else UInt64, Unsigned(d))
    else
      Object(if d >= -32 then NegativeFixnum else if d >= -0x80 then SInt8 else if d >= -0x8000 then SInt16
             else if d >= -0x8000_0000 then SInt32 else SInt64, Signed(d))
  }

  lemma Pow256Eight()
    ensures Pow256(8) == 0x1_0000_0000_0000_0000
  {
    Pow256Values();
    assert Pow256(6) == 0x1_0000 * Pow256(4);
    assert Pow256(8) == 0x1_0000 * Pow256(6);
  }

  lemma IntegerFits(d: int)
    requires -INT64_LIMIT <= d < INT64_LIMIT
    ensures InRange(IntegerObject(d)) && IntegerOf(IntegerObject(d)) == Some(d)
  {
    Pow256Values();
    Pow256Eight();
  }

  /** Every 64-bit integer is read back as it was written. */
  lemma IntegerRoundTrip(d: int, rest: seq<byte>)
    requires -INT64_LIMIT <= d < INT64_LIMIT
    ensures InRange(IntegerObject(d)) && ReadObject(Header(IntegerObject(d)) + rest) == Read(IntegerObject(d), rest)
    ensures IntegerOf(IntegerObject(d)) == Some(d)
  {
    IntegerFits(d);
    ObjectRoundTrip(IntegerObject(d), rest);
  }

  /** Objects of the unsigned formats for d >= 0, of the signed ones for d < 0. */
  predicate HoldsInteger(o: Object, d: int) {
    InRange(o) &&
    if d >= 0 then (o.kind == PositiveFixnum || ShapeOf(o.kind).Natural?) && o.data == Unsigned(d)
    else (o.kind == NegativeFixnum || ShapeOf(o.kind).Whole?) && o.data == Signed(d)
  }

  /** No format among those for its sign holds d in fewer bytes. */
  lemma ShortestInteger(d: int, o: Object)
    requires -INT64_LIMIT <= d < INT64_LIMIT && HoldsInteger(o, d)
    ensures HoldsInteger(IntegerObject(d), d) && |Header(IntegerObject(d))| <= |Header(o)|
  {
    IntegerFits(d);
    Pow256Values();
    Pow256Eight();
  }

  // ------------------------------------------------------------------
  // The context
  // ------------------------------------------------------------------

  class Context {
    var error: Error
    var data: seq<byte>
    var pos: nat

    ghost predicate Valid()
      reads this
    {
      pos <= |data|
    }

    /** What has not been read yet. */
    ghost function Rest(): (s: seq<byte>)
      reads this
      requires Valid()
    {
      data[pos..]
    }

    constructor (bytes: seq<byte>)
      ensures Valid() && data == bytes && Rest() == bytes && error == NoError
    {
      error, data, pos := NoError, bytes, 0;
    }

    /** The writer callback. */
    method Append(bytes: seq<byte>)
      requires Valid()
      modifies this`data
      ensures Valid() && data == old(data) + bytes && Rest() == old(Rest()) + bytes
    {
      data := data + bytes;
    }

    /** The reader callback: all of the k bytes, or none. */
    method Take(k: nat) returns (ok: bool, bytes: seq<byte>)
      requires Valid()
      modifies this`pos
      ensures Valid() && ok == (k <= |old(Rest())|)
      ensures ok ==> bytes == old(Rest())[..k] && Rest() == old(Rest())[k..]
      ensures !ok ==> bytes == [] && pos == old(pos)
    {
      if |data| - pos < k { return false, []; }
      bytes := data[pos..pos + k];
      pos := pos + k;
      ok := true;
    }

    /** Skips by reading byte after byte, as there is no skip callback; what it returns is
        of no interest to its caller. */
    method SkipBytes(count: nat)
      requires Valid()
      modifies this`pos
      ensures Valid() && Rest() == Drop(old(Rest()), count)
    {
      var i := 0;
      ghost var s := Rest();
      while i < count
        invariant i <= count && i <= |s| && Valid() && Rest() == s[i..]
      {
        var ok, floor := Take(1);
        if !ok { return; }
        i := i + 1;
      }
    }

    // ----------------------------------------------------------------
    // Reading
    // ----------------------------------------------------------------

    method ReadTypeMarker() returns (ok: bool, m: byte)
      requires Valid()
      modifies this`pos, this`error
      ensures Valid() && ok == (old(Rest()) != [])
      ensures ok ==> m == old(Rest())[0] && Rest() == old(Rest())[1..] && error == old(error)
      ensures !ok ==> error == TypeMarkerReading
    {
      var bytes;
      ok, bytes := Take(1);
      if !ok {
        error := TypeMarkerReading;
        return false, 0;
      }
      m := bytes[0];
    }

    /** A size of w bytes. */
    method ReadSizeField(w: nat, e: Error) returns (ok: bool, size: nat)
      requires Valid()
      modifies this`pos, this`error
      ensures Valid() && TellsSize(SizeField(w, e, old(Rest())), ok, size) && (ok ==> error == old(error))
    {
      var bytes;
      ok, bytes := Take(w);
      if !ok {
        error := e;
        return false, 0;
      }
      size := Unswapped(bytes);
    }

    /** The outcome of reading a size. */
    ghost predicate TellsSize(r: SizeRead, ok: bool, size: nat)
      reads this
      requires Valid()
    {
      match r
      case SizeIs(n, rest) => ok && size == n && Rest() == rest
      case NoSize(e) => !ok && error == e
    }

    method ReadTypeSize(m: byte, t: Type) returns (ok: bool, size: nat)
      requires Valid() && TypeOf(m) == Some(t)
      modifies this`pos, this`error
      ensures Valid() && TellsSize(ReadSize(ShapeOf(t), m, old(Rest())), ok, size) && (ok ==> error == old(error))
    {
      hide TypeOf;
      match t
      case PositiveFixnum | NegativeFixnum | Nil | Boolean => return true, 0;
      case FixMap | FixArray => return true, m % 0x10;
      case FixStr => return true, m % 0x20;
      case Bin8 | Ext8 => ok, size := ReadSizeField(1, LengthReading);
      case Bin16 | Ext16 => ok, size := ReadSizeField(2, LengthReading);
      case Bin32 | Ext32 => ok, size := ReadSizeField(4, LengthReading);
      case Str8 => ok, size := ReadSizeField(1, DataReading);
      case Str16 | Array16 | Map16 => ok, size := ReadSizeField(2, DataReading);
      case Str32 | Array32 | Map32 => ok, size := ReadSizeField(4, DataReading);
      case UInt8 | SInt8 | FixExt1 => return true, 1;
      case UInt16 | SInt16 | FixExt2 => return true, 2;
      case UInt32 | SInt32 | Float | FixExt4 => return true, 4;
      case UInt64 | SInt64 | Double | FixExt8 => return true, 8;
      case FixExt16 => return true, 16;
    }

    /** The outcome of reading the data of an object. */
    ghost predicate TellsData(r: DataRead, ok: bool, d: Data)
      reads this
      requires Valid()
    {
      match r
      case Got(e, rest) => ok && d == e && Rest() == rest
      case Failed(e) => !ok && error == e
    }

    method ReadNumber(k: nat) returns (ok: bool, bytes: seq<byte>)
      requires Valid()
      modifies this`pos, this`error
      ensures Valid() && ok == (k <= |old(Rest())|) && (ok ==> error == old(error))
      ensures if ok then bytes == old(Rest())[..k] && Rest() == old(Rest())[k..] else error == DataReading
    {
      ok, bytes := Take(k);
      if !ok { error := DataReading; }
    }

    method ReadUnsigned(k: nat) returns (ok: bool, d: Data)
      requires Valid()
      modifies this`pos, this`error
      ensures Valid() && TellsData(ReadData(Natural(k), 0, old(Rest())), ok, d) && (ok ==> error == old(error))
    {
      var bytes;
      ok, bytes := ReadNumber(k);
      d := Unsigned(Unswapped(bytes));
    }

    method ReadSigned(k: nat) returns (ok: bool, d: Data)
      requires Valid()
      modifies this`pos, this`error
      ensures Valid() && TellsData(ReadData(Whole(k), 0, old(Rest())), ok, d) && (ok ==> error == old(error))
    {
      var bytes;
      ok, bytes := ReadNumber(k);
      d := Signed(Uncomplement(Unswapped(bytes), k));
    }

    /** The bytes of a floating-point number, turned round for this machine. */
    method ReadReal(k: nat) returns (ok: bool, d: Data)
      requires Valid()
      modifies this`pos, this`error
      ensures Valid() && TellsData(ReadData(Floating(k), 0, old(Rest())), ok, d) && (ok ==> error == old(error))
    {
      var bytes;
      ok, bytes := ReadNumber(k);
      d := Raw(Reversed(bytes));
    }

    method ReadTagByte(size: nat) returns (ok: bool, d: Data)
      requires Valid()
      modifies this`pos, this`error
      ensures Valid() && TellsData(ReadTag(size, old(Rest())), ok, d) && (ok ==> error == old(error))
    {
      var bytes;
      ok, bytes := Take(1);
      if !ok {
        error := ExtTypeReading;
        return false, Flag(false);
      }
      d := Ext(ByteSigned(bytes[0]), size);
    }

    method ReadLongExt(m: byte, t: Type) returns (ok: bool, d: Data)
      requires Valid() && TypeOf(m) == Some(t) && ShapeOf(t).LongExt?
      modifies this`pos, this`error
      ensures Valid() && TellsData(ReadData(ShapeOf(t), m, old(Rest())), ok, d) && (ok ==> error == old(error))
    {
      hide TypeOf, ShapeOf;
      var size;
      ok, size := ReadTypeSize(m, t);
      if !ok { return false, Flag(false); }
      ok, d := ReadTagByte(size);
    }

    method ReadSized(m: byte, t: Type) returns (ok: bool, d: Data)
      requires Valid() && TypeOf(m) == Some(t) && (ShapeOf(t).Short? || ShapeOf(t).Long?)
      modifies this`pos, this`error
      ensures Valid() && TellsData(ReadData(ShapeOf(t), m, old(Rest())), ok, d) && (ok ==> error == old(error))
    {
      hide TypeOf, ShapeOf;
      var size;
      ok, size := ReadTypeSize(m, t);
      d := Size(size);
    }

    method ReadObjData(m: byte, t: Type) returns (ok: bool, d: Data)
      requires Valid() && TypeOf(m) == Some(t)
      modifies this`pos, this`error
      ensures Valid() && TellsData(ReadData(ShapeOf(t), m, old(Rest())), ok, d) && (ok ==> error == old(error))
    {
      hide TypeOf, ReadSize;
      match t
      case PositiveFixnum => return true, Unsigned(m);
      case NegativeFixnum => return true, Signed(ByteSigned(m));
      case Nil => return true, Unsigned(0);
      case Boolean => return true, Flag(m == 0xC3);
      case UInt8 => ok, d := ReadUnsigned(1);
      case UInt16 => ok, d := ReadUnsigned(2);
      case UInt32 => ok, d := ReadUnsigned(4);
      case UInt64 => ok, d := ReadUnsigned(8);
      case SInt8 => ok, d := ReadSigned(1);
      case SInt16 => ok, d := ReadSigned(2);
      case SInt32 => ok, d := ReadSigned(4);
      case SInt64 => ok, d := ReadSigned(8);
      case Float => ok, d := ReadReal(4);
      case Double => ok, d := ReadReal(8);
      case FixExt1 => ok, d := ReadTagByte(1);
      case FixExt2 => ok, d := ReadTagByte(2);
      case FixExt4 => ok, d := ReadTagByte(4);
      case FixExt8 => ok, d := ReadTagByte(8);
      case FixExt16 => ok, d := ReadTagByte(16);
      case Ext8 | Ext16 | Ext32 => ok, d := ReadLongExt(m, t);
      case _ => ok, d := ReadSized(m, t);
    }

    /** The outcome of reading an object. */
    ghost predicate TellsObject(r: ObjectRead, ok: bool, o: Object)
      reads this
      requires Valid()
    {
      match r
      case Read(p, rest) => ok && o == p && Rest() == rest
      case NoObject(e) => !ok && error == e
    }

    method ReadAnObject() returns (ok: bool, o: Object)
      requires Valid()
      modifies this`pos, this`error
      ensures Valid() && TellsObject(ReadObject(old(Rest())), ok, o) && (ok ==> error == old(error))
    {
      var m, d;
      o := Object(Nil, Unsigned(0));
      ok, m := ReadTypeMarker();
      if !ok { return; }
      hide TypeOf, ShapeOf, ReadData;
      match TypeOf(m)
      case None =>
        error := InvalidType;
        ok := false;
      case Some(t) =>
        ok, d := ReadObjData(m, t);
        o := Object(t, d);
    }

    /** `cmp_read_integer`. */
    method ReadInteger() returns (ok: bool, d: int)
      requires Valid()
      modifies this`pos, this`error
      ensures Valid()
      ensures match ReadObject(old(Rest())) {
        case NoObject(e) => !ok && error == e
        case Read(o, rest) => Rest() == rest && ok == IntegerOf(o).Some? &&
          if ok then d == IntegerOf(o).value else error == InvalidType
      }
    {
      var o;
      hide ReadObject;
      ok, o := ReadAnObject();
      if !ok { return false, 0; }
      match o.kind {
        case PositiveFixnum | NegativeFixnum | SInt8 => return true, AsS8(o.data);
        case UInt8 | UInt16 | UInt32 => return true, AsUnsigned(o.data);
        case SInt16 | SInt32 | SInt64 => return true, AsSigned(o.data);
        case UInt64 => if AsUnsigned(o.data) <= 9223372036854775807 { return true, AsUnsigned(o.data); }
        case _ =>
      }
      error := InvalidType;
      return false, 0;
    }

    // ----------------------------------------------------------------
    // Writing
    // ----------------------------------------------------------------

    /** A marker that is a value by itself; the writers of fixed values refuse one out of range. */
    method WriteFixed(value: int, ok0: bool) returns (ok: bool)
      requires Valid() && (ok0 ==> 0 <= value < 0x100)
      modifies this`data, this`error
      ensures Valid() && ok == ok0 && Rest() == old(Rest()) + if ok then [value] else []
      ensures if ok then data == old(data) + [value] && error == old(error)
        else data == old(data) && error == InputValueTooLarge
    {
      if !ok0 {
        error := InputValueTooLarge;
        return false;
      }
      Append([value]);
      ok := true;
    }

    /** A marker and the bytes of a number, swapped for the stream: for the widths that `be16`,
        `be32` and `be64` serve, for single bytes, and for floating-point numbers. */
    method WriteMarked(m: byte, native: seq<byte>)
      requires Valid()
      modifies this`data
      ensures Valid() && data == old(data) + ([m] + Reversed(native))
    {
      Append([m]);
      var swapped := SwapBytes(native);
      Append(swapped);
      Assoc(old(data), [m], swapped);
    }

    /** The outcome of writing an object, from what had been written before. */
    ghost predicate Sent(o: Object, before: seq<byte>, ok: bool)
      reads this
      requires WellTyped(o)
    {
      match Written(o)
      case None => !ok && data == before && error == InputValueTooLarge
      case Some(bytes) => ok && data == before + bytes
    }

    /** A size in the marker; the C code first cuts the size to a byte. */
    method WriteShort(o: Object, m: byte, limit: nat) returns (ok: bool)
      requires Valid() && WellTyped(o) && ShapeOf(o.kind) == Short(limit) && m == Marker(o.kind) && m + limit < 0x100
      modifies this`data, this`error
      ensures Valid() && Sent(o, old(data), ok)
    {
      WrittenShort(o, limit);
      hide Written, ShapeOf, Marker;
      var size := o.data.n % 0x100;
      ok := WriteFixed(m + size, size <= limit);
    }

    /** A size of w bytes, cut to that width. */
    method WriteLong(o: Object, m: byte, w: nat, ghost e: Error) returns (ok: bool)
      requires Valid() && WellTyped(o) && ShapeOf(o.kind) == Long(w, e) && m == Marker(o.kind)
      modifies this`data, this`error
      ensures Valid() && Sent(o, old(data), ok)
    {
      WrittenLong(o, w, e);
      hide Written, ShapeOf, Marker;
      WriteMarked(m, ToLE(o.data.n % Pow256(w), w));
      ok := true;
    }

    /** A size of w bytes, cut to that width, and a tag. */
    method WriteLongExt(o: Object, m: byte, w: nat) returns (ok: bool)
      requires Valid() && WellTyped(o) && ShapeOf(o.kind) == LongExt(w) && m == Marker(o.kind)
      modifies this`data, this`error
      ensures Valid() && Sent(o, old(data), ok)
    {
      WrittenLongExt(o, w);
      hide Written, ShapeOf, Marker;
      var size := o.data.size % Pow256(w);
      WriteMarked(m, ToLE(size, w));
      Append([SignedByte(o.data.tag)]);
      Assoc(old(data), [m] + Swapped(size, w), [SignedByte(o.data.tag)]);
      Assoc([m], Swapped(size, w), [SignedByte(o.data.tag)]);
      ok := true;
    }

    method WriteShortExt(o: Object, m: byte, ghost n: nat) returns (ok: bool)
      requires Valid() && WellTyped(o) && ShapeOf(o.kind) == ShortExt(n) && m == Marker(o.kind)
      modifies this`data, this`error
      ensures Valid() && Sent(o, old(data), ok)
    {
      WrittenShortExt(o, n);
      hide Written, ShapeOf, Marker;
      Append([m]);
      Append([SignedByte(o.data.tag)]);
      Assoc(old(data), [m], [SignedByte(o.data.tag)]);
      ok := true;
    }

    method WriteUnsigned(o: Object, m: byte, k: nat) returns (ok: bool)
      requires Valid() && WellTyped(o) && ShapeOf(o.kind) == Natural(k) && m == Marker(o.kind)
      modifies this`data, this`error
      ensures Valid() && Sent(o, old(data), ok)
    {
      WrittenNumber(o, ToLE(o.data.u, k));
      hide Written, ShapeOf, Marker;
      WriteMarked(m, ToLE(o.data.u, k));
      ok := true;
    }

    method WriteSigned(o: Object, m: byte, k: nat) returns (ok: bool)
      requires Valid() && WellTyped(o) && ShapeOf(o.kind) == Whole(k) && m == Marker(o.kind)
      modifies this`data, this`error
      ensures Valid() && Sent(o, old(data), ok)
    {
      WrittenNumber(o, ToLE(Complement(o.data.s, k), k));
      hide Written, ShapeOf, Marker;
      WriteMarked(m, ToLE(Complement(o.data.s, k), k));
      ok := true;
    }

    method WriteReal(o: Object, m: byte, ghost k: nat) returns (ok: bool)
      requires Valid() && WellTyped(o) && ShapeOf(o.kind) == Floating(k) && m == Marker(o.kind)
      modifies this`data, this`error
      ensures Valid() && Sent(o, old(data), ok)
    {
      WrittenNumber(o, o.data.bytes);
      hide Written, ShapeOf, Marker;
      WriteMarked(m, o.data.bytes);
      ok := true;
    }

    /** Fixnums, nil and booleans: one byte, if the writer takes the value. */
    method WriteSingle(o: Object) returns (ok: bool)
      requires Valid() && WellTyped(o)
      requires o.kind == PositiveFixnum || o.kind == NegativeFixnum || o.kind == Nil || o.kind == Boolean
      modifies this`data, this`error
      ensures Valid() && Sent(o, old(data), ok)
    {
      if Accepted(ShapeOf(o.kind), o.data) { Plainly(o); }
      match o.kind
      case PositiveFixnum => ok := WriteFixed(o.data.u, o.data.u <= 0x7F);
      case NegativeFixnum => ok := WriteFixed(o.data.s + 0x100, -32 <= o.data.s <= -1);
      case Nil => ok := WriteFixed(0xC0, true);
      case Boolean => ok := WriteFixed(if o.data.b then 0xC3 else 0xC2, true);
    }

    /** `cmp_write_object`. */
    method WriteObject(o: Object) returns (ok: bool)
      requires Valid() && WellTyped(o)
      modifies this`data, this`error
      ensures Valid() && Sent(o, old(data), ok)
    {
      hide Written, Typed, Sent;
      match o.kind
      case PositiveFixnum | NegativeFixnum | Nil | Boolean => ok := WriteSingle(o);
      case FixMap => ok := WriteShort(o, 0x80, 0xF);
      case FixArray => ok := WriteShort(o, 0x90, 0xF);
      case FixStr => ok := WriteShort(o, 0xA0, 0x1F);
      case Bin8 => ok := WriteLong(o, 0xC4, 1, LengthReading);
      case Bin16 => ok := WriteLong(o, 0xC5, 2, LengthReading);
      case Bin32 => ok := WriteLong(o, 0xC6, 4, LengthReading);
      case Ext8 => ok := WriteLongExt(o, 0xC7, 1);
      case Ext16 => ok := WriteLongExt(o, 0xC8, 2);
      case Ext32 => ok := WriteLongExt(o, 0xC9, 4);
      case Float => ok := WriteReal(o, 0xCA, 4);
      case Double => ok := WriteReal(o, 0xCB, 8);
      case UInt8 => ok := WriteUnsigned(o, 0xCC, 1);
      case UInt16 => ok := WriteUnsigned(o, 0xCD, 2);
      case UInt32 => ok := WriteUnsigned(o, 0xCE, 4);
      case UInt64 => ok := WriteUnsigned(o, 0xCF, 8);
      case SInt8 => ok := WriteSigned(o, 0xD0, 1);
      case SInt16 => ok := WriteSigned(o, 0xD1, 2);
      case SInt32 => ok := WriteSigned(o, 0xD2, 4);
      case SInt64 => ok := WriteSigned(o, 0xD3, 8);
      case FixExt1 => ok := WriteShortExt(o, 0xD4, 1);
      case FixExt2 => ok := WriteShortExt(o, 0xD5, 2);
      case FixExt4 => ok := WriteShortExt(o, 0xD6, 4);
      case FixExt8 => ok := WriteShortExt(o, 0xD7, 8);
      case FixExt16 => ok := WriteShortExt(o, 0xD8, 16);
      case Str8 => ok := WriteLong(o, 0xD9, 1, DataReading);
      case Str16 => ok := WriteLong(o, 0xDA, 2, DataReading);
      case Str32 => ok := WriteLong(o, 0xDB, 4, DataReading);
      case Array16 => ok := WriteLong(o, 0xDC, 2, DataReading);
      case Array32 => ok := WriteLong(o, 0xDD, 4, DataReading);
      case Map16 => ok := WriteLong(o, 0xDE, 2, DataReading);
      case Map32 => ok := WriteLong(o, 0xDF, 4, DataReading);
    }

    /** `cmp_write_uinteger`. */
    method WriteUInteger(u: nat) returns (ok: bool)
      requires Valid() && u < 2 * INT64_LIMIT
      modifies this`data, this`error
      ensures Valid() && InRange(IntegerObject(u)) && ok && data == old(data) + Header(IntegerObject(u))
    {
      UnsignedFits(u);
      SentWhole(IntegerObject(u));
      if u <= 0x7F { ok := WriteSingle(Object(PositiveFixnum, Unsigned(u))); }
      else if u <= 0xFF { ok := WriteUnsigned(Object(UInt8, Unsigned(u)), 0xCC, 1); }
      else if u <= 0xFFFF { ok := WriteUnsigned(Object(UInt16, Unsigned(u)), 0xCD, 2); }
      else if u <= 0xFFFF_FFFF { ok := WriteUnsigned(Object(UInt32, Unsigned(u)), 0xCE, 4); }
      else { ok := WriteUnsigned(Object(UInt64, Unsigned(u)), 0xCF, 8); }
    }

    /** `cmp_write_integer`. */
    method WriteInteger(d: int) returns (ok: bool)
      requires Valid() && -INT64_LIMIT <= d < INT64_LIMIT
      modifies this`data, this`error
      ensures Valid() && InRange(IntegerObject(d)) && ok && data == old(data) + Header(IntegerObject(d))
    {
      IntegerFits(d);
      SentWhole(IntegerObject(d));
      if d >= 0 { ok := WriteUInteger(d); }
      else if d >= -32 { ok := WriteSingle(Object(NegativeFixnum, Signed(d))); }
      else if d >= -128 { ok := WriteSigned(Object(SInt8, Signed(d)), 0xD0, 1); }
      else if d >= -32768 { ok := WriteSigned(Object(SInt16, Signed(d)), 0xD1, 2); }
      else if d >= -2147483647 - 1 { ok := WriteSigned(Object(SInt32, Signed(d)), 0xD2, 4); }
      else { ok := WriteSigned(Object(SInt64, Signed(d)), 0xD3, 8); }
    }

    // ----------------------------------------------------------------
    // Skipping
    // ----------------------------------------------------------------

    /** One round of the loop: a marker and its size, and the bytes of what is no container. */
    method SkipRound() returns (ok: bool, kids: nat)
      requires Valid()
      modifies this`pos, this`error
      ensures Valid()
      ensures match OneRound(old(Rest())) {
        case Broken(e) => !ok && error == e
        case Round(k, rest) => ok && kids == k && Rest() == rest
      }
    {
      var m, size;
      kids := 0;
      ok, m := ReadTypeMarker();
      if !ok { return; }
      hide TypeOf, ShapeOf, ReadSize;
      match TypeOf(m)
      case None =>
        error := InvalidType;
        ok := false;
      case Some(t) =>
        ok, size := ReadTypeSize(m, t);
        if !ok { return; }
        if IsArray(t) {
          kids := size;
        } else if IsMap(t) {
          kids := 2 * size;
        } else {
          SkipBytes(SkipSize(ShapeOf(t), size));
        }
    }

    /** `cmp_skip_object_no_limit`. */
    method SkipObjectNoLimit() returns (ok: bool)
      requires Valid()
      modifies this`pos, this`error
      ensures Valid()
      ensures match SkipFrom(old(Rest()), 1) {
        case Stuck(e) => !ok && error == e
        case Done(rest) => ok && Rest() == rest
      }
    {
      hide OneRound;
      var elementCount := 1;
      ghost var whole := SkipFrom(Rest(), 1);
      while elementCount != 0
        invariant Valid() && elementCount >= 0 && SkipFrom(Rest(), elementCount) == whole
        decreases |Rest()|
      {
        var kids;
        ghost var s := Rest();
        ok, kids := SkipRound();
        if !ok {
          SkipStuck(s, elementCount, error);
          return;
        }
        SkipStep(s, elementCount, kids, Rest());
        elementCount := (elementCount - 1 + kids) % COUNT_LIMIT;
      }
      ok := true;
    }
  }

  lemma UnsignedFits(u: nat)
    requires u < 2 * INT64_LIMIT
    ensures InRange(IntegerObject(u))
  {
    Pow256Values();
    Pow256Eight();
  }

  /** What the format can hold is sent as it is. */
  lemma SentWhole(o: Object)
    requires InRange(o)
    ensures WellTyped(o) && Written(o) == Some(Header(o))
  {
    InRangeAccepted(ShapeOf(o.kind), o.data);
    CutFits(ShapeOf(o.kind), o.data);
  }

  lemma InRangeAccepted(h: Shape, d: Data)
    requires Fits(h, d) && (h.Short? ==> h.limit < 0x100)
    ensures Accepted(h, d)
  {
  }

  // ------------------------------------------------------------------
  // What the writer sends, shape by shape
  // ------------------------------------------------------------------

  lemma WrittenShort(o: Object, limit: nat)
    requires WellTyped(o) && ShapeOf(o.kind) == Short(limit)
    ensures var n := o.data.n % 0x100; Written(o) == if n <= limit then Some([Marker(o.kind) + n]) else None
  {
    var n := o.data.n % 0x100;
    if n <= limit {
      Plainly(o);
      assert [Marker(o.kind) + n] + [] == [Marker(o.kind) + n];
    }
  }

  lemma WrittenLong(o: Object, w: nat, e: Error)
    requires WellTyped(o) && ShapeOf(o.kind) == Long(w, e)
    ensures Written(o) == Some([Marker(o.kind)] + Swapped(o.data.n % Pow256(w), w))
  {
    Plainly(o);
  }

  lemma WrittenLongExt(o: Object, w: nat)
    requires WellTyped(o) && ShapeOf(o.kind) == LongExt(w)
    ensures Written(o) == Some([Marker(o.kind)] + (Swapped(o.data.size % Pow256(w), w) + [SignedByte(o.data.tag)]))
  {
    Plainly(o);
  }

  lemma WrittenShortExt(o: Object, n: nat)
    requires WellTyped(o) && ShapeOf(o.kind) == ShortExt(n)
    ensures Written(o) == Some([Marker(o.kind)] + [SignedByte(o.data.tag)])
  {
    Plainly(o);
  }

  lemma WrittenNumber(o: Object, native: seq<byte>)
    requires WellTyped(o)
    requires match ShapeOf(o.kind) {
      case Natural(k) => native == ToLE(o.data.u, k)
      case Whole(k) => native == ToLE(Complement(o.data.s, k), k)
      case Floating(_) => native == o.data.bytes
      case _ => false
    }
    ensures Written(o) == Some([Marker(o.kind)] + Reversed(native))
  {
    Plainly(o);
  }

  /** An object that is accepted is written as the header of what its fields can hold. */
  lemma Plainly(o: Object)
    requires WellTyped(o) && Accepted(ShapeOf(o.kind), o.data)
    ensures var h, d := ShapeOf(o.kind), Cut(ShapeOf(o.kind), o.data);
      Fits(h, d) && 0 <= First(h, Marker(o.kind), d) < 0x100 &&
        Written(o) == Some([First(h, Marker(o.kind), d)] + Body(h, d))
  {
    CutFits(ShapeOf(o.kind), o.data);
    MarkerTells(o.kind, Cut(ShapeOf(o.kind), o.data));
  }

  /** Swaps the bytes of a word. */
  method SwapBytes(bytes: seq<byte>) returns (swapped: seq<byte>)
    ensures swapped == Reversed(bytes)
  {
    swapped := [];
    var i := 0;
    while i < |bytes|
      invariant |swapped| == i <= |bytes| && forall k :: 0 <= k < i ==> swapped[k] == bytes[|bytes| - 1 - k]
    {
      swapped := swapped + [bytes[|bytes| - i - 1]];
      i := i + 1;
    }
  }
}
