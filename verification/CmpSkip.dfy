/** Skipping a MessagePack value: the loop that counts elements, and what it is to skip. */
module CmpSkip {
  import opened Bytes
  import opened CmpFormat

  const WORD_LIMIT := 0x1_0000_0000
  const COUNT_LIMIT := 0x1_0000_0000_0000_0000

  datatype Skipped = Done(rest: seq<byte>) | Stuck(error: Error)

  /** All but the first k bytes, as far as there are any. */
  function Drop(s: seq<byte>, k: nat): (r: seq<byte>)
    ensures |r| <= |s|
  {
    if k <= |s| then s[k..] else []
  }

  predicate IsContainer(t: Type) {
    IsArray(t) || IsMap(t)
  }

  /** How many values follow a marker with size n. */
  function KidCount(t: Type, n: nat): (k: nat) {
    if IsArray(t) then n else if IsMap(t) then 2 * n else 0
  }

  /** How many bytes are skipped behind a size n: a tag as well, unless n is 0. */
  function SkipSize(h: Shape, n: nat): (k: nat) {
    if n != 0 && (h.ShortExt? || h.LongExt?) then (n + 1) % WORD_LIMIT else n
  }

  /** One round of the loop: a head and its payload are behind, `kids` values follow. */
  datatype Round = Round(kids: nat, rest: seq<byte>) | Broken(error: Error)

  function OneRound(s: seq<byte>): (r: Round)
    ensures r.Round? ==> |r.rest| < |s|
  {
    if s == [] then Broken(TypeMarkerReading)
    else
      match TypeOf(s[0])
      case None => Broken(InvalidType)
      case Some(t) => RoundOf(t, ShapeOf(t), s[0], s[1..])
  }

  function RoundOf(t: Type, h: Shape, m: byte, s: seq<byte>): (r: Round)
    ensures r.Round? ==> |r.rest| <= |s|
  {
    match ReadSize(h, m, s)
    case NoSize(e) => Broken(e)
    case SizeIs(n, rest) => if IsContainer(t) then Round(KidCount(t, n), rest) else Round(0, Drop(rest, SkipSize(h, n)))
  }

  /** The loop, with `count` values still to be skipped. */
  function SkipFrom(s: seq<byte>, count: nat): (r: Skipped)
    decreases |s|
  {
    if count == 0 then Done(s)
    else
      match OneRound(s)
      case Broken(e) => Stuck(e)
      case Round(kids, rest) => SkipFrom(rest, (count - 1 + kids) % COUNT_LIMIT)
  }

  // ------------------------------------------------------------------
  // Nested values
  // ------------------------------------------------------------------

  /** An object with its payload and its elements; those of a map are keys and values in turn. */
  datatype Value = Value(head: Object, payload: seq<byte>, kids: seq<Value>)

  function PayloadSize(o: Object): (n: nat)
    requires InRange(o)
  {
    match ShapeOf(o.kind)
    case Short(_) | Long(_, _) => if IsContainer(o.kind) then 0 else o.data.n
    case ShortExt(_) | LongExt(_) => o.data.size
    case _ => 0
  }

  function ElementCount(o: Object): (n: nat)
    requires InRange(o)
  {
    if IsContainer(o.kind) then KidCount(o.kind, o.data.n) else 0
  }

  ghost predicate Valid(v: Value) {
    InRange(v.head) && |v.payload| == PayloadSize(v.head) && |v.kids| == ElementCount(v.head) &&
    forall i :: 0 <= i < |v.kids| ==> Valid(v.kids[i])
  }

  /** The pieces one after the other. */
  function Flat(pieces: seq<seq<byte>>): (s: seq<byte>) {
    if pieces == [] then [] else pieces[0] + Flat(pieces[1..])
  }

  ghost function Encode(v: Value): (s: seq<byte>)
    requires Valid(v)
    ensures |s| >= 1
    decreases v, 0
  {
    Header(v.head) + v.payload + Flat(Codes(v.kids))
  }

  ghost function Codes(vs: seq<Value>): (c: seq<seq<byte>>)
    requires forall i :: 0 <= i < |vs| ==> Valid(vs[i])
    ensures |c| == |vs| && forall i :: 0 <= i < |c| ==> |c[i]| >= 1
    decreases vs, 1
  {
    seq(|vs|, i requires 0 <= i < |vs| => Encode(vs[i]))
  }

  /** No extension whose size is 0, or whose size and tag together are 2^32 bytes. */
  ghost predicate Plain(v: Value)
    requires Valid(v)
  {
    PlainHead(v.head) && forall i :: 0 <= i < |v.kids| ==> Plain(v.kids[i])
  }

  predicate PlainHead(o: Object)
    requires InRange(o)
  {
    o.data.Ext? ==> 0 < o.data.size < WORD_LIMIT - 1
  }

  lemma {:induction false} FlatConcat(a: seq<seq<byte>>, b: seq<seq<byte>>)
    ensures Flat(a + b) == Flat(a) + Flat(b)
  {
    if a == [] {
      assert a + b == b;
    } else {
      FlatConcat(a[1..], b);
      assert (a + b)[0] == a[0] && (a + b)[1..] == a[1..] + b;
      Assoc(a[0], Flat(a[1..]), Flat(b));
    }
  }

  lemma {:induction false} FlatLong(pieces: seq<seq<byte>>)
    requires forall i :: 0 <= i < |pieces| ==> |pieces[i]| >= 1
    ensures |Flat(pieces)| >= |pieces|
  {
    if pieces != [] { FlatLong(pieces[1..]); }
  }

  lemma CodesConcat(a: seq<Value>, b: seq<Value>)
    requires forall i :: 0 <= i < |a| ==> Valid(a[i])
    requires forall i :: 0 <= i < |b| ==> Valid(b[i])
    ensures (forall i :: 0 <= i < |a + b| ==> Valid((a + b)[i])) &&
      Flat(Codes(a + b)) == Flat(Codes(a)) + Flat(Codes(b))
  {
    hide Encode, Valid, Flat;
    FlatConcat(Codes(a), Codes(b));
    assert Codes(a + b) == Codes(a) + Codes(b);
  }

  /** What one round of the loop does with a head and its payload. */
  lemma HeadRead(h: Shape, m: byte, base: byte, d: Data, rest: seq<byte>)
    requires Fits(h, d) && m == First(h, base, d) && (h.Short? ==> base % (h.limit + 1) == 0)
    ensures (h.Short? || h.Long?) ==> ReadSize(h, m, Body(h, d) + rest) == SizeIs(d.n, rest)
    ensures (h.ShortExt? || h.LongExt?) ==>
      ReadSize(h, m, Body(h, d) + rest) == SizeIs(d.size, [SignedByte(d.tag)] + rest)
    ensures !h.Short? && !h.Long? && !h.ShortExt? && !h.LongExt? ==>
      ReadSize(h, m, Body(h, d) + rest) == SizeIs(|Body(h, d)|, Body(h, d) + rest)
  {
    match h
    case Short(limit) =>
      ModBase(base, d.n, limit + 1);
      assert Body(h, d) + rest == rest;
    case Long(w, e) => SizeRoundTrip(w, e, d.n, rest);
    case LongExt(w) =>
      SizeRoundTrip(w, LengthReading, d.size, [SignedByte(d.tag)] + rest);
      assert Body(h, d) + rest == Swapped(d.size, w) + ([SignedByte(d.tag)] + rest);
    case _ =>
  }

  lemma DropLeading(a: seq<byte>, b: seq<byte>)
    ensures Drop(a + b, |a|) == b
  {
  }

  /** Behind a head that is no container, the payload is skipped and no more, unless it is
      an extension of size 0, or of the greatest size. */
  lemma LeafSkipped(o: Object, payload: seq<byte>, rest: seq<byte>)
    requires InRange(o) && |payload| == PayloadSize(o) && !IsContainer(o.kind)
    ensures OneRound(Header(o) + payload + rest) ==
      Round(0, if PlainHead(o) then rest else [SignedByte(o.data.tag)] + payload + rest)
  {
    var h, base, d := ShapeOf(o.kind), Marker(o.kind), o.data;
    MarkerTells(o.kind, d);
    LeafRest(o.kind, h, First(h, base, d), base, d, payload, rest);
    HeadFirst(First(h, base, d), Body(h, d), payload, rest);
  }

  lemma HeadFirst(m: byte, body: seq<byte>, payload: seq<byte>, rest: seq<byte>)
    ensures [m] + body + payload + rest == [m] + (body + (payload + rest))
  {
  }

  lemma LeafRest(t: Type, h: Shape, m: byte, base: byte, d: Data, payload: seq<byte>, rest: seq<byte>)
    requires Fits(h, d) && m == First(h, base, d) && (h.Short? ==> base % (h.limit + 1) == 0) && !IsContainer(t)
    requires |payload| == if h.Short? || h.Long? then d.n else if d.Ext? then d.size else 0
    ensures RoundOf(t, h, m, Body(h, d) + (payload + rest)) ==
      Round(0, if d.Ext? && !(0 < d.size < WORD_LIMIT - 1) then [SignedByte(d.tag)] + payload + rest else rest)
  {
    hide First, Swapped, Reversed, Complement, SizeField;
    HeadRead(h, m, base, d, payload + rest);
    if h.Short? || h.Long? {
      DropLeading(payload, rest);
    } else if h.ShortExt? || h.LongExt? {
      ExtRest(d.tag, d.size, payload, rest);
    } else {
      DropLeading(Body(h, d), payload + rest);
      assert payload + rest == rest;
    }
  }

  lemma ExtRest(tag: int, size: nat, payload: seq<byte>, rest: seq<byte>)
    requires -0x80 <= tag < 0x80 && |payload| == size < WORD_LIMIT
    ensures Drop([SignedByte(tag)] + (payload + rest), if size != 0 then (size + 1) % WORD_LIMIT else 0) ==
      if 0 < size < WORD_LIMIT - 1 then rest else [SignedByte(tag)] + payload + rest
  {
    DropLeading([SignedByte(tag)] + payload, rest);
    assert [SignedByte(tag)] + (payload + rest) == [SignedByte(tag)] + payload + rest;
  }

  lemma ContainerSkipped(o: Object, rest: seq<byte>)
    requires InRange(o) && IsContainer(o.kind)
    ensures OneRound(Header(o) + rest) == Round(ElementCount(o), rest)
  {
    var h, base, d := ShapeOf(o.kind), Marker(o.kind), o.data;
    MarkerTells(o.kind, d);
    HeadRead(h, First(h, base, d), base, d, rest);
    HeadFirst(First(h, base, d), Body(h, d), [], rest);
    assert [] + rest == rest && Header(o) + [] == Header(o);
  }

  /** What a round leaves of a value and what follows it. */
  lemma ValueRound(v: Value, rest: seq<byte>)
    requires Valid(v) && Plain(v)
    ensures OneRound(Header(v.head) + v.payload + rest) == Round(|v.kids|, rest)
  {
    if IsContainer(v.head.kind) {
      ContainerSkipped(v.head, rest);
      assert Header(v.head) + v.payload == Header(v.head);
    } else {
      LeafSkipped(v.head, v.payload, rest);
    }
  }

  /** One round, and the rest of the loop. */
  lemma SkipStep(s: seq<byte>, n: nat, kids: nat, rest: seq<byte>)
    requires n > 0 && OneRound(s) == Round(kids, rest)
    ensures SkipFrom(s, n) == SkipFrom(rest, (n - 1 + kids) % COUNT_LIMIT)
  {
    hide OneRound;
  }

  lemma SkipStuck(s: seq<byte>, n: nat, e: Error)
    requires n > 0 && OneRound(s) == Broken(e)
    ensures SkipFrom(s, n) == Stuck(e)
  {
    hide OneRound;
  }

  /** As many values as are to be skipped are skipped exactly. */
  lemma {:induction false} SkipsAll(vs: seq<Value>, rest: seq<byte>)
    requires forall i :: 0 <= i < |vs| ==> Valid(vs[i]) && Plain(vs[i])
    requires |Flat(Codes(vs))| < COUNT_LIMIT
    ensures SkipFrom(Flat(Codes(vs)) + rest, |vs|) == Done(rest)
    decreases |Flat(Codes(vs))|
  {
    hide OneRound, InRange, PlainHead, PayloadSize, ElementCount, Header, Encode;
    if vs == [] {
      assert Flat(Codes(vs)) + rest == rest;
    } else {
      var v, next := vs[0], vs[0].kids + vs[1..];
      AfterRound(vs, rest);
      SkipsAll(next, rest);
      var s, after := Flat(Codes(vs)) + rest, Flat(Codes(next)) + rest;
      ValueRound(v, after);
      SkipStep(s, |vs|, |v.kids|, after);
      FlatLong(Codes(next));
      assert (|vs| - 1 + |v.kids|) % COUNT_LIMIT == |next|;
    }
  }

  lemma AfterRound(vs: seq<Value>, rest: seq<byte>)
    requires vs != [] && forall i :: 0 <= i < |vs| ==> Valid(vs[i]) && Plain(vs[i])
    ensures var next := vs[0].kids + vs[1..];
      (forall i :: 0 <= i < |next| ==> Valid(next[i]) && Plain(next[i])) && |Flat(Codes(next))| < |Flat(Codes(vs))| &&
      Flat(Codes(vs)) + rest == Header(vs[0].head) + vs[0].payload + (Flat(Codes(next)) + rest)
  {
    hide InRange, PlainHead, PayloadSize, ElementCount, Header;
    var v, others := vs[0], vs[1..];
    CodesConcat(v.kids, others);
    FirstCode(vs);
    Regroup(Header(v.head), v.payload, Flat(Codes(v.kids)), Flat(Codes(others)), rest);
  }

  lemma FirstCode(vs: seq<Value>)
    requires vs != [] && forall i :: 0 <= i < |vs| ==> Valid(vs[i])
    ensures Flat(Codes(vs)) == Encode(vs[0]) + Flat(Codes(vs[1..]))
  {
    hide Encode, Valid, Codes;
    CodesFirst(vs);
    FlatFirst(Codes(vs));
  }

  lemma CodesFirst(vs: seq<Value>)
    requires vs != [] && forall i :: 0 <= i < |vs| ==> Valid(vs[i])
    ensures Codes(vs)[0] == Encode(vs[0]) && Codes(vs)[1..] == Codes(vs[1..])
  {
    hide Encode, Valid;
  }

  lemma FlatFirst(pieces: seq<seq<byte>>)
    requires pieces != []
    ensures Flat(pieces) == pieces[0] + Flat(pieces[1..])
  {
  }

  lemma Regroup(a: seq<byte>, b: seq<byte>, c: seq<byte>, d: seq<byte>, e: seq<byte>)
    ensures a + b + c + d + e == a + b + (c + d + e)
  {
  }

  /** The loop skips a nested value exactly, whatever follows it. */
  lemma SkipsExactly(v: Value, rest: seq<byte>)
    requires Valid(v) && Plain(v) && |Encode(v)| < COUNT_LIMIT
    ensures SkipFrom(Encode(v) + rest, 1) == Done(rest)
  {
    OneCode(v);
    SkipsAll([v], rest);
  }

  lemma OneCode(v: Value)
    requires Valid(v)
    ensures Flat(Codes([v])) == Encode(v)
  {
    assert Codes([v])[1..] == [];
    assert Flat(Codes([v])) == Encode(v) + Flat(Codes([v])[1..]);
  }

  /** A value without elements is skipped exactly if and only if it is no extension of size
      0 or of the greatest size. */
  lemma LeafSkipsExactly(v: Value, rest: seq<byte>)
    requires Valid(v) && !IsContainer(v.head.kind)
    ensures SkipFrom(Encode(v) + rest, 1) == Done(rest) <==> PlainHead(v.head)
  {
    assert Codes(v.kids) == [] && Encode(v) == Header(v.head) + v.payload;
    LeafSkipped(v.head, v.payload, rest);
    var left := if PlainHead(v.head) then rest else [SignedByte(v.head.data.tag)] + v.payload + rest;
    SkipStep(Encode(v) + rest, 1, 0, left);
    if !PlainHead(v.head) {
      assert |[SignedByte(v.head.data.tag)] + v.payload + rest| > |rest|;
    }
  }

  /** An extension without payload leaves its tag behind. */
  lemma EmptyExtStays(rest: seq<byte>)
    ensures var v := Value(Object(Ext8, Ext(0, 0)), [], []);
      Valid(v) && !Plain(v) && SkipFrom(Encode(v) + rest, 1) == Done([0] + rest)
  {
    var o := Object(Ext8, Ext(0, 0));
    var v := Value(o, [], []);
    Pow256Values();
    LeafSkipped(o, [], rest);
    LeafCode(v);
    hide OneRound, Header, InRange;
    assert Header(o) + [] == Header(o) && [SignedByte(0)] + [] + rest == [0] + rest;
    SkipStep(Encode(v) + rest, 1, 0, [0] + rest);
  }

  /** Inside an array the tag left behind is taken for a value, and the array may still be
      skipped exactly: here the tag reads as a `bin8`, and the number behind it as its size. */
  lemma EmptyExtMayResume(v: Value, rest: seq<byte>)
    requires v == Value(Object(FixArray, Size(2)), [], [Value(EMPTY_EXT, [], []), Value(ZERO, [], [])])
    ensures Valid(v) && !Plain(v) && SkipFrom(Encode(v) + rest, 1) == Done(rest)
  {
    ExampleValid(v);
    ArrayCode(v, v.kids[0], v.kids[1], rest);
    ResumeRounds(v.head, Header(ZERO) + rest, rest);
  }

  const EMPTY_EXT := Object(Ext8, Ext(-60, 0))
  const ZERO := Object(PositiveFixnum, Unsigned(0))

  lemma ExampleValid(v: Value)
    requires v == Value(Object(FixArray, Size(2)), [], [Value(EMPTY_EXT, [], []), Value(ZERO, [], [])])
    ensures Valid(v) && !Plain(v) && InRange(EMPTY_EXT) && InRange(ZERO)
  {
    Pow256Values();
    assert v.kids[0].head == EMPTY_EXT && v.kids[1].head == ZERO;
    assert Valid(v.kids[0]) && Valid(v.kids[1]) && !Plain(v.kids[0]);
  }

  lemma ResumeRounds(a: Object, behind: seq<byte>, rest: seq<byte>)
    requires a == Object(FixArray, Size(2)) && InRange(a) && InRange(EMPTY_EXT) && InRange(ZERO) &&
      behind == Header(ZERO) + rest
    ensures SkipFrom(Header(a) + (Header(EMPTY_EXT) + [] + behind), 1) == Done(rest)
  {
    ContainerSkipped(a, Header(EMPTY_EXT) + [] + behind);
    LeafSkipped(EMPTY_EXT, [], behind);
    TagReadsAsBin(rest);
    assert ElementCount(a) == 2 && !PlainHead(EMPTY_EXT) && SignedByte(-60) == 0xC4;
    hide OneRound, Header, InRange;
    SkipStep(Header(a) + (Header(EMPTY_EXT) + [] + behind), 1, 2, Header(EMPTY_EXT) + [] + behind);
    SkipStep(Header(EMPTY_EXT) + [] + behind, 2, 0, [0xC4] + [] + behind);
    SkipStep([0xC4] + [] + behind, 1, 0, rest);
  }

  lemma LeafCode(v: Value)
    requires Valid(v) && v.payload == [] && v.kids == []
    ensures Encode(v) == Header(v.head)
  {
    assert Codes(v.kids) == [];
  }

  lemma Regrouped(a: seq<byte>, b: seq<byte>, c: seq<byte>, rest: seq<byte>)
    ensures a + [] + (b + c) + rest == a + (b + [] + (c + rest))
  {
  }

  lemma ArrayCode(v: Value, x: Value, y: Value, rest: seq<byte>)
    requires Valid(v) && v.kids == [x, y] && v.payload == x.payload == y.payload == [] && x.kids == y.kids == []
    ensures Valid(x) && Valid(y) && Encode(v) + rest == Header(v.head) + (Header(x.head) + [] + (Header(y.head) + rest))
  {
    var kids := [x, y];
    assert v.kids[0] == x && v.kids[1] == y && v.kids == kids;
    hide Valid, Header;
    assert kids[1..] == [y] && kids[0] == x && kids[1] == y;
    FirstCode(kids);
    OneCode(y);
    assert Codes([]) == [];
    LeafCode(x);
    LeafCode(y);
    Regrouped(Header(v.head), Header(x.head), Header(y.head), rest);
  }

  lemma TagReadsAsBin(rest: seq<byte>)
    ensures InRange(ZERO) && OneRound([0xC4] + [] + (Header(ZERO) + rest)) == Round(0, rest)
  {
    EmptyBin();
    hide *;
    var b := Object(Bin8, Size(0));
    LeafSkipped(b, [], rest);
    assert Header(b) + [] + rest == [0xC4] + [] + ([0] + rest);
  }

  lemma EmptyBin()
    ensures var b := Object(Bin8, Size(0));
      InRange(b) && PlainHead(b) && PayloadSize(b) == 0 && !IsContainer(Bin8) && Header(b) == [0xC4, 0]
    ensures InRange(ZERO) && Header(ZERO) == [0]
  {
    Pow256Values();
    assert ToLE(0, 1) == [0] + ToLE(0, 0);
    assert Swapped(0, 1) == [0];
  }

  // ------------------------------------------------------------------
  // The grammar
  // ------------------------------------------------------------------

  /** One value, by recursive descent. */
  function SkipOne(s: seq<byte>): (r: Skipped)
    ensures r.Done? ==> |r.rest| < |s|
    decreases |s|, 0
  {
    match OneRound(s)
    case Broken(e) => Stuck(e)
    case Round(kids, rest) => SkipMany(rest, kids)
  }

  function SkipMany(s: seq<byte>, n: nat): (r: Skipped)
    ensures r.Done? ==> |r.rest| <= |s|
    decreases |s|, 1, n
  {
    if n == 0 then Done(s)
    else
      match SkipOne(s)
      case Stuck(e) => Stuck(e)
      case Done(rest) => SkipMany(rest, n - 1)
  }

  lemma {:induction false} ManyAndMore(s: seq<byte>, a: nat, b: nat)
    ensures SkipMany(s, a + b) == match SkipMany(s, a) case Stuck(e) => Stuck(e) case Done(rest) => SkipMany(rest, b)
    decreases a
  {
    hide OneRound;
    if a > 0 && SkipOne(s).Done? {
      ManyAndMore(SkipOne(s).rest, a - 1, b);
    }
  }

  /** The count of the loop stays below 2^64 in every round. */
  ghost predicate NeverWraps(s: seq<byte>, count: nat)
    decreases |s|
  {
    count > 0 && OneRound(s).Round? ==>
      var r := OneRound(s);
      count - 1 + r.kids < COUNT_LIMIT && NeverWraps(r.rest, count - 1 + r.kids)
  }

  /** On every stream, right or wrong, the loop does what recursive descent does if and only
      if it fails or its count never wraps around. */
  lemma LoopIsGrammar(s: seq<byte>, count: nat)
    requires count < COUNT_LIMIT
    ensures SkipFrom(s, count) == SkipMany(s, count) <==> SkipFrom(s, count).Stuck? || NeverWraps(s, count)
  {
    hide OneRound;
    var lost := LoopLoses(s, count, 0);
    if SkipFrom(s, count).Done? { ManyShrinks(SkipFrom(s, count).rest, lost); }
  }

  /** What the loop leaves to be skipped when it ends: nothing, unless values have been lost
      by wrapping around. */
  lemma {:induction false} LoopLoses(s: seq<byte>, count: nat, lost: nat) returns (more: nat)
    requires count < COUNT_LIMIT
    ensures more >= lost && (SkipFrom(s, count).Done? ==> (more == lost <==> NeverWraps(s, count)))
    ensures SkipMany(s, count + lost) == match SkipFrom(s, count)
      case Stuck(e) => Stuck(e)
      case Done(rest) => SkipMany(rest, more)
    decreases |s|
  {
    hide OneRound;
    more := lost;
    if count > 0 {
      match OneRound(s)
      case Broken(e) =>
        SkipStuck(s, count, e);
        ManyStuck(s, count + lost, e);
      case Round(kids, rest) =>
        var next := count - 1 + kids;
        DivMod(next, COUNT_LIMIT);
        SkipStep(s, count, kids, rest);
        ManyStep(s, count + lost, kids, rest);
        more := LoopLoses(rest, next % COUNT_LIMIT, lost + next / COUNT_LIMIT * COUNT_LIMIT);
    }
  }

  lemma ManyShrinks(s: seq<byte>, n: nat)
    ensures SkipMany(s, n) == Done(s) <==> n == 0
  {
    hide OneRound;
  }

  /** Every five bytes of the stream announce fewer than 2^33 values, so that the count wraps
      on very long streams only. */
  lemma {:induction false} ShortNeverWraps(s: seq<byte>, count: nat)
    requires 5 * count + 2 * WORD_LIMIT * |s| < 5 * COUNT_LIMIT
    ensures NeverWraps(s, count)
    decreases |s|
  {
    hide OneRound;
    if count > 0 && OneRound(s).Round? {
      KidsBelow(s);
      ShortNeverWraps(OneRound(s).rest, count - 1 + OneRound(s).kids);
    }
  }

  lemma ManyStuck(s: seq<byte>, n: nat, e: Error)
    requires n > 0 && OneRound(s) == Broken(e)
    ensures SkipMany(s, n) == Stuck(e)
  {
    hide OneRound;
  }

  lemma ManyStep(s: seq<byte>, n: nat, kids: nat, rest: seq<byte>)
    requires n > 0 && OneRound(s) == Round(kids, rest)
    ensures SkipMany(s, n) == SkipMany(rest, n - 1 + kids)
  {
    hide OneRound;
    ManyAndMore(rest, kids, n - 1);
    assert SkipOne(s) == SkipMany(rest, kids);
  }

  lemma KidsBelow(s: seq<byte>)
    requires OneRound(s).Round?
    ensures 5 * OneRound(s).kids <= 2 * WORD_LIMIT * (|s| - |OneRound(s).rest|)
  {
    var t := TypeOf(s[0]).value;
    if IsContainer(t) { SizeBelow(t, s[0], s[1..]); }
  }

  lemma SizeBelow(t: Type, m: byte, s: seq<byte>)
    requires ReadSize(ShapeOf(t), m, s).SizeIs? && IsContainer(t)
    ensures var r := ReadSize(ShapeOf(t), m, s); 5 * r.n <= WORD_LIMIT * (1 + |s| - |r.rest|)
  {
    Pow256Values();
    assert ShapeOf(t).Long? ==> ShapeOf(t).w in {2, 4};
  }

  // ------------------------------------------------------------------
  // A count that wraps around
  // ------------------------------------------------------------------

  /** The largest map: each one adds 2^33 - 3 to the count. */
  const LARGEST_MAP := Object(Map32, Size(0xFFFF_FFFF))
  const MORE: nat := 0x1_FFFF_FFFD

  function Repeat(s: seq<byte>, n: nat): (r: seq<byte>) {
    if n == 0 then [] else s + Repeat(s, n - 1)
  }

  lemma MapAdds(count: nat, rest: seq<byte>)
    requires 0 < count < COUNT_LIMIT
    ensures InRange(LARGEST_MAP)
    ensures SkipFrom(Header(LARGEST_MAP) + rest, count) == SkipFrom(rest, (count + MORE) % COUNT_LIMIT)
    ensures NeverWraps(Header(LARGEST_MAP) + rest, count) <==>
      count + MORE < COUNT_LIMIT && NeverWraps(rest, count + MORE)
  {
    Pow256Values();
    ContainerSkipped(LARGEST_MAP, rest);
    var s := Header(LARGEST_MAP) + rest;
    assert OneRound(s) == Round(count + MORE - (count - 1), rest);
    hide *;
    SkipStep(s, count, MORE + 1, rest);
    NeverStep(s, count, MORE + 1, rest);
  }

  lemma NeverStep(s: seq<byte>, n: nat, kids: nat, rest: seq<byte>)
    requires n > 0 && OneRound(s) == Round(kids, rest)
    ensures NeverWraps(s, n) <==> n - 1 + kids < COUNT_LIMIT && NeverWraps(rest, n - 1 + kids)
  {
    hide OneRound;
  }

  lemma {:induction false} MapsAdd(n: nat, count: nat, rest: seq<byte>)
    requires 0 < count && count + n * MORE < COUNT_LIMIT && InRange(LARGEST_MAP)
    ensures SkipFrom(Repeat(Header(LARGEST_MAP), n) + rest, count) == SkipFrom(rest, count + n * MORE)
    ensures NeverWraps(Repeat(Header(LARGEST_MAP), n) + rest, count) <==> NeverWraps(rest, count + n * MORE)
    decreases n
  {
    hide Header, SkipFrom, NeverWraps;
    if n == 0 {
      assert [] + rest == rest;
    } else {
      var h, r := Header(LARGEST_MAP), Repeat(Header(LARGEST_MAP), n - 1);
      assert n * MORE == MORE + (n - 1) * MORE;
      Assoc(h, r, rest);
      MapAdds(count, r + rest);
      MapsAdd(n - 1, count + MORE, rest);
    }
  }

  lemma {:induction false} ZerosSkipped(n: nat)
    requires n < COUNT_LIMIT && InRange(ZERO)
    ensures SkipFrom(Repeat(Header(ZERO), n), n) == Done([])
  {
    hide OneRound, Header;
    if n > 0 {
      var rest := Repeat(Header(ZERO), n - 1);
      LeafSkipped(ZERO, [], rest);
      assert Header(ZERO) + [] + rest == Header(ZERO) + rest;
      SkipStep(Header(ZERO) + rest, n, 0, rest);
      ZerosSkipped(n - 1);
    }
  }

  /** 2^31 + 1 maps, each the first key of the one before, and as many zeros as the count then has
      wrapped around to: the loop takes that for a whole value. */
  lemma WrapShown(maps: nat, zeros: nat)
    requires maps == 0x8000_0000 && zeros == 0x7FFF_FFFE
    ensures InRange(LARGEST_MAP) && InRange(ZERO)
    ensures var s := Repeat(Header(LARGEST_MAP), maps) + (Header(LARGEST_MAP) + Repeat(Header(ZERO), zeros));
      SkipFrom(s, 1) == Done([]) && SkipMany(s, 1) != Done([])
  {
    Pow256Values();
    assert InRange(LARGEST_MAP) && InRange(ZERO);
    hide *;
    var rest := Repeat(Header(ZERO), zeros);
    var last := Header(LARGEST_MAP) + rest;
    MapsAdd(maps, 1, last);
    MapAdds(1 + maps * MORE, rest);
    ModUnique(1 + maps * MORE + MORE, COUNT_LIMIT, 1, zeros);
    ZerosSkipped(zeros);
    LoopIsGrammar(Repeat(Header(LARGEST_MAP), maps) + last, 1);
  }
}
