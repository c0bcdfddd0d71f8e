/** What insertion, replacement and splitting do to the tree as a value. */
module BTreeChange {
  import opened Bytes
  import opened Disk
  import opened BTreeModel

  const HALF := 3     // (MAX_KEYS - 1) / 2

  lemma InsertParts<T>(s: seq<T>, i: nat, x: T)
    requires i <= |s|
    ensures InsertAt(s, i, x)[..i] == s[..i] && InsertAt(s, i, x)[i] == x && InsertAt(s, i, x)[i + 1..] == s[i..]
    ensures s == s[..i] + s[i..]
  {
  }

  lemma NodeHoldsInsert(keys: seq<Key>, vals: seq<Val>, i: nat, key: Key, v: Val, e: Entry)
    requires i <= |keys| == |vals|
    ensures NodeHolds(InsertAt(keys, i, key), InsertAt(vals, i, v), e) ==
      NodeHolds(keys, vals, e) + One((key, v.bytes) == e)
  {
    InsertParts(keys, i, key);
    InsertParts(vals, i, v);
    NodeHoldsSplit(InsertAt(keys, i, key), InsertAt(vals, i, v), i, e);
    NodeHoldsConcat(keys[..i], vals[..i], keys[i..], vals[i..], e);
  }

  lemma ValUsesInsert(vals: seq<Val>, i: nat, v: Val, x: int)
    requires i <= |vals|
    ensures ValUses(InsertAt(vals, i, v), x) == ValUses(vals, x) + One(v.off - 8 == x)
  {
    InsertParts(vals, i, v);
    ValUsesSplit(InsertAt(vals, i, v), i, x);
    ValUsesConcat(vals[..i], vals[i..], x);
  }

  // ------------------------------------------------------------------
  // A new entry in a leaf
  // ------------------------------------------------------------------

  function WithEntry(t: DTree, off: nat, i: nat, key: Key, v: Val): (r: DTree)
    requires i <= |t.keys| == |t.vals|
  {
    Node(off, InsertAt(t.keys, i, key), InsertAt(t.vals, i, v), t.kids)
  }

  lemma EntryHolds(t: DTree, off: nat, i: nat, key: Key, v: Val, e: Entry)
    requires i <= |t.keys| == |t.vals|
    ensures Holds(WithEntry(t, off, i, key, v), e) == Holds(t, e) + One((key, v.bytes) == e)
  {
    NodeHoldsInsert(t.keys, t.vals, i, key, v, e);
  }

  lemma EntryUses(t: DTree, off: nat, i: nat, key: Key, v: Val, x: int)
    requires i <= |t.keys| == |t.vals|
    ensures Uses(WithEntry(t, off, i, key, v), x) + One(t.off - 8 == x) ==
      Uses(t, x) + One(off - 8 == x) + One(v.off - 8 == x)
  {
    ValUsesInsert(t.vals, i, v, x);
  }

  /** `i` is where `k` belongs: behind all smaller keys, before all greater ones. */
  ghost predicate IsRank(keys: seq<Key>, k: int, i: nat) {
    i <= |keys| &&
    (forall j :: 0 <= j < i ==> KeyNum(keys[j]) < k) &&
    (forall j :: i <= j < |keys| ==> k < KeyNum(keys[j]))
  }

  lemma InsertOrdered(keys: seq<Key>, lo: int, hi: int, i: nat, key: Key)
    requires KeysOrdered(keys, lo, hi) && IsRank(keys, KeyNum(key), i) && lo < KeyNum(key) < hi
    ensures KeysOrdered(InsertAt(keys, i, key), lo, hi)
  {
  }

  lemma EntryFormed(t: DTree, lo: int, hi: int, off: nat, i: nat, key: Key, v: Val)
    requires WellFormed(t, lo, hi, 0) && |t.keys| < MAX_KEYS && IsRank(t.keys, KeyNum(key), i) && lo < KeyNum(key) < hi
    ensures WellFormed(WithEntry(t, off, i, key, v), lo, hi, 0)
  {
    InsertOrdered(t.keys, lo, hi, i, key);
  }

  // ------------------------------------------------------------------
  // Another value for an entry
  // ------------------------------------------------------------------

  function WithVal(t: DTree, i: nat, v: Val): (r: DTree)
    requires i < |t.vals|
  {
    Node(t.off, t.keys, t.vals[i := v], t.kids)
  }

  lemma ValHolds(t: DTree, i: nat, v: Val, e: Entry)
    requires i < |t.keys| == |t.vals|
    ensures Holds(WithVal(t, i, v), e) + One((t.keys[i], t.vals[i].bytes) == e) ==
      Holds(t, e) + One((t.keys[i], v.bytes) == e)
  {
    var r := WithVal(t, i, v);
    NodeHoldsSplit(t.keys, t.vals, i, e);
    NodeHoldsSplit(t.keys, r.vals, i, e);
    assert r.vals[..i] == t.vals[..i] && r.vals[i + 1..] == t.vals[i + 1..];
  }

  lemma ValUsesChange(t: DTree, i: nat, v: Val, x: int)
    requires i < |t.vals|
    ensures Uses(WithVal(t, i, v), x) + One(t.vals[i].off - 8 == x) == Uses(t, x) + One(v.off - 8 == x)
  {
    var r := WithVal(t, i, v);
    ValUsesSplit(t.vals, i, x);
    ValUsesSplit(r.vals, i, x);
    assert r.vals[..i] == t.vals[..i] && r.vals[i + 1..] == t.vals[i + 1..];
  }

  lemma ValFormed(t: DTree, lo: int, hi: int, h: nat, i: nat, v: Val)
    requires WellFormed(t, lo, hi, h) && i < |t.vals|
    ensures WellFormed(WithVal(t, i, v), lo, hi, h)
  {
    var r := WithVal(t, i, v);
    forall j | 0 <= j < |r.kids| ensures KidFormed(r, lo, hi, h, j) { assert KidFormed(t, lo, hi, h, j); }
  }

  // ------------------------------------------------------------------
  // Splitting a full kid
  // ------------------------------------------------------------------

  function LeftPart(t: DTree, k: nat, off: nat): (r: DTree)
    requires k < |t.keys| == |t.vals| && (t.kids == [] || |t.kids| == |t.keys| + 1)
  {
    Node(off, t.keys[..k], t.vals[..k], if t.kids == [] then [] else t.kids[..k + 1])
  }

  function RightPart(t: DTree, k: nat, off: nat): (r: DTree)
    requires k < |t.keys| == |t.vals| && (t.kids == [] || |t.kids| == |t.keys| + 1)
  {
    Node(off, t.keys[k + 1..], t.vals[k + 1..], if t.kids == [] then [] else t.kids[k + 1..])
  }

  ghost predicate Splittable(par: DTree, i: nat) {
    i < |par.kids| == |par.keys| + 1 && |par.vals| == |par.keys| < MAX_KEYS && FullNode(par.kids[i])
  }

  ghost predicate FullNode(t: DTree) {
    |t.keys| == |t.vals| == MAX_KEYS && (t.kids == [] || |t.kids| == MAX_KEYS + 1)
  }

  /** The parent with kid i split in two and that kid's median key moved up. */
  ghost function SplitTree(par: DTree, i: nat, loff: nat, roff: nat, poff: nat): (r: DTree)
    requires Splittable(par, i)
  {
    var child := par.kids[i];
    Node(poff, InsertAt(par.keys, i, child.keys[HALF]), InsertAt(par.vals, i, child.vals[HALF]),
      par.kids[..i] + [LeftPart(child, HALF, loff), RightPart(child, HALF, roff)] + par.kids[i + 1..])
  }

  lemma PartsHold(t: DTree, k: nat, l: nat, r: nat, e: Entry)
    requires k < |t.keys| == |t.vals| && (t.kids == [] || |t.kids| == |t.keys| + 1)
    ensures Holds(t, e) ==
      Holds(LeftPart(t, k, l), e) + Holds(RightPart(t, k, r), e) + One((t.keys[k], t.vals[k].bytes) == e)
  {
    NodeHoldsSplit(t.keys, t.vals, k, e);
    if t.kids != [] {
      HoldsAllConcat(t.kids[..k + 1], t.kids[k + 1..], e);
      assert t.kids == t.kids[..k + 1] + t.kids[k + 1..];
    }
  }

  lemma PartsUse(t: DTree, k: nat, l: nat, r: nat, x: int)
    requires k < |t.keys| == |t.vals| && (t.kids == [] || |t.kids| == |t.keys| + 1)
    ensures Uses(t, x) + One(l - 8 == x) + One(r - 8 == x) ==
      Uses(LeftPart(t, k, l), x) + Uses(RightPart(t, k, r), x) + One(t.off - 8 == x) + One(t.vals[k].off - 8 == x)
  {
    ValUsesSplit(t.vals, k, x);
    if t.kids != [] {
      UsesAllConcat(t.kids[..k + 1], t.kids[k + 1..], x);
      assert t.kids == t.kids[..k + 1] + t.kids[k + 1..];
    }
  }

  lemma HoldsAllTwo(a: seq<DTree>, l: DTree, r: DTree, b: seq<DTree>, e: Entry)
    ensures HoldsAll(a + [l, r] + b, e) == HoldsAll(a, e) + Holds(l, e) + Holds(r, e) + HoldsAll(b, e)
  {
    HoldsAllConcat(a, [l, r] + b, e);
    assert a + [l, r] + b == a + ([l, r] + b);
    assert ([l, r] + b)[1..] == [r] + b && ([r] + b)[1..] == b;
  }

  lemma UsesAllTwo(a: seq<DTree>, l: DTree, r: DTree, b: seq<DTree>, x: int)
    ensures UsesAll(a + [l, r] + b, x) == UsesAll(a, x) + Uses(l, x) + Uses(r, x) + UsesAll(b, x)
  {
    UsesAllConcat(a, [l, r] + b, x);
    assert a + [l, r] + b == a + ([l, r] + b);
    assert ([l, r] + b)[1..] == [r] + b && ([r] + b)[1..] == b;
  }

  /** A split keeps all entries. */
  lemma SplitHolds(par: DTree, i: nat, l: nat, r: nat, p: nat, e: Entry)
    requires Splittable(par, i)
    ensures Holds(SplitTree(par, i, l, r, p), e) == Holds(par, e)
  {
    var child := par.kids[i];
    PartsHold(child, HALF, l, r, e);
    HoldsAllTwo(par.kids[..i], LeftPart(child, HALF, l), RightPart(child, HALF, r), par.kids[i + 1..], e);
    HoldsAllSplit(par.kids, i, e);
    NodeHoldsInsert(par.keys, par.vals, i, child.keys[HALF], child.vals[HALF], e);
  }

  /** It trades two nodes for three and keeps all values where they are. */
  lemma SplitUses(par: DTree, i: nat, l: nat, r: nat, p: nat, x: int)
    requires Splittable(par, i)
    ensures Uses(SplitTree(par, i, l, r, p), x) + One(par.off - 8 == x) + One(par.kids[i].off - 8 == x) ==
      Uses(par, x) + One(l - 8 == x) + One(r - 8 == x) + One(p - 8 == x)
  {
    var child := par.kids[i];
    PartsUse(child, HALF, l, r, x);
    UsesAllTwo(par.kids[..i], LeftPart(child, HALF, l), RightPart(child, HALF, r), par.kids[i + 1..], x);
    UsesAllSplit(par.kids, i, x);
    ValUsesInsert(par.vals, i, child.vals[HALF], x);
  }

  /** The empty node that a new root starts as, above the old root. */
  lemma HeadlessHolds(t: DTree, off: nat, e: Entry)
    ensures Holds(Node(off, [], [], [t]), e) == Holds(t, e)
  {
    assert HoldsAll([t], e) == Holds(t, e) + HoldsAll([t][1..], e);
  }

  lemma HeadlessUses(t: DTree, off: nat, x: int)
    ensures Uses(Node(off, [], [], [t]), x) == Uses(t, x) + One(off - 8 == x)
  {
    assert UsesAll([t], x) == Uses(t, x) + UsesAll([t][1..], x);
  }

  lemma LeftFormed(t: DTree, lo: int, hi: int, h: nat, k: nat, off: nat)
    requires WellFormed(t, lo, hi, h) && k < |t.keys|
    ensures WellFormed(LeftPart(t, k, off), lo, KeyNum(t.keys[k]), h)
  {
    var r := LeftPart(t, k, off);
    forall j | 0 <= j < |r.kids|
      ensures KidFormed(r, lo, KeyNum(t.keys[k]), h, j)
    {
      assert KidFormed(t, lo, hi, h, j);
    }
  }

  lemma RightFormed(t: DTree, lo: int, hi: int, h: nat, k: nat, off: nat)
    requires WellFormed(t, lo, hi, h) && k < |t.keys|
    ensures WellFormed(RightPart(t, k, off), KeyNum(t.keys[k]), hi, h)
  {
    var r := RightPart(t, k, off);
    forall j | 0 <= j < |r.kids|
      ensures KidFormed(r, KeyNum(t.keys[k]), hi, h, j)
    {
      assert KidFormed(t, lo, hi, h, k + 1 + j);
    }
  }

  lemma SplitRank(par: DTree, lo: int, hi: int, i: nat, k: int)
    requires KeysOrdered(par.keys, lo, hi) && i <= |par.keys| && Below(par, lo, i) < k < Above(par, hi, i)
    ensures IsRank(par.keys, k, i) && lo < k < hi
  {
  }

  lemma FormedKeys(t: DTree, lo: int, hi: int, h: nat)
    requires WellFormed(t, lo, hi, h)
    ensures KeysOrdered(t.keys, lo, hi)
  {
  }

  /** A split keeps order and balance. */
  lemma SplitFormed(par: DTree, lo: int, hi: int, h: nat, i: nat, l: nat, r: nat, p: nat)
    requires h > 0 && WellFormed(par, lo, hi, h) && Splittable(par, i)
    ensures WellFormed(SplitTree(par, i, l, r, p), lo, hi, h)
  {
    var child, s := par.kids[i], SplitTree(par, i, l, r, p);
    var median := child.keys[HALF];
    assert KidFormed(par, lo, hi, h, i);
    FormedKeys(child, Below(par, lo, i), Above(par, hi, i), h - 1);
    SplitRank(par, lo, hi, i, KeyNum(median));
    InsertOrdered(par.keys, lo, hi, i, median);
    LeftFormed(child, Below(par, lo, i), Above(par, hi, i), h - 1, HALF, l);
    RightFormed(child, Below(par, lo, i), Above(par, hi, i), h - 1, HALF, r);
    forall j | 0 <= j < |s.kids|
      ensures KidFormed(s, lo, hi, h, j)
    {
      SplitKid(par, lo, hi, h, i, l, r, p, j);
    }
  }

  lemma SplitKid(par: DTree, lo: int, hi: int, h: nat, i: nat, l: nat, r: nat, p: nat, j: nat)
    requires h > 0 && WellFormed(par, lo, hi, h) && Splittable(par, i) && j <= |par.kids|
    requires var k := KeyNum(par.kids[i].keys[HALF]);
      WellFormed(LeftPart(par.kids[i], HALF, l), Below(par, lo, i), k, h - 1) &&
      WellFormed(RightPart(par.kids[i], HALF, r), k, Above(par, hi, i), h - 1)
    ensures KidFormed(SplitTree(par, i, l, r, p), lo, hi, h, j)
  {
    var s := SplitTree(par, i, l, r, p);
    if j < i {
      assert KidFormed(par, lo, hi, h, j) && s.kids[j] == par.kids[j];
    } else if j > i + 1 {
      assert KidFormed(par, lo, hi, h, j - 1) && s.kids[j] == par.kids[j - 1];
    }
  }
}
