/**
 The B-tree as a value: its nodes with their place in the file, what it stores,
 and what replacing one subtree does to the whole.
 */
module BTreeModel {
  import opened Bytes
  import opened Disk

  const MAX_KEYS := 7
  const MIN_KEYS := 3      // (MAX_KEYS - 1) / 2, the half that a split leaves
  const KEY_LEN := 16

  type Key = k: seq<byte> | |k| == 16 witness seq(16, _ => 0)

  /** A value: where its bytes start in the file, and what they are. */
  datatype Val = Val(off: nat, bytes: seq<byte>)

  /** A node without kids is a leaf. */
  datatype DTree = Node(off: nat, keys: seq<Key>, vals: seq<Val>, kids: seq<DTree>)

  /** memcmp on whole keys is comparison of the numbers they spell. */
  function KeyNum(k: Key): (n: nat) {
    FromBE(k)
  }

  // ------------------------------------------------------------------
  // Entries and footprint, by counting
  // ------------------------------------------------------------------

  type Entry = (Key, seq<byte>)

  /** As many values as keys, and one kid more unless it is a leaf. */
  ghost predicate Shaped(t: DTree) {
    |t.keys| == |t.vals| && (t.kids == [] || |t.kids| == |t.keys| + 1) &&
    forall i :: 0 <= i < |t.kids| ==> Shaped(t.kids[i])
  }

  /** How often the tree stores entry `e`. */
  ghost function Holds(t: DTree, e: Entry): (n: nat)
    decreases t, 0
  {
    NodeHolds(t.keys, t.vals, e) + HoldsAll(t.kids, e)
  }

  ghost function NodeHolds(keys: seq<Key>, vals: seq<Val>, e: Entry): (n: nat) {
    if keys == [] || vals == [] then 0
    else One((keys[0], vals[0].bytes) == e) + NodeHolds(keys[1..], vals[1..], e)
  }

  ghost function HoldsAll(ts: seq<DTree>, e: Entry): (n: nat)
    decreases ts, 1
  {
    if ts == [] then 0 else Holds(ts[0], e) + HoldsAll(ts[1..], e)
  }

  /** How often the tree uses the chunk that starts at `x`: each node and each
      value has a chunk, whose size word precedes it. */
  ghost function Uses(t: DTree, x: int): (n: nat)
    decreases t, 0
  {
    One(t.off - 8 == x) + ValUses(t.vals, x) + UsesAll(t.kids, x)
  }

  ghost function ValUses(vals: seq<Val>, x: int): (n: nat) {
    if vals == [] then 0 else One(vals[0].off - 8 == x) + ValUses(vals[1..], x)
  }

  ghost function UsesAll(ts: seq<DTree>, x: int): (n: nat)
    decreases ts, 1
  {
    if ts == [] then 0 else Uses(ts[0], x) + UsesAll(ts[1..], x)
  }

  lemma {:induction false} UsesAllConcat(a: seq<DTree>, b: seq<DTree>, x: int)
    ensures UsesAll(a + b, x) == UsesAll(a, x) + UsesAll(b, x)
  {
    if a == [] {
      assert a + b == b;
    } else {
      UsesAllConcat(a[1..], b, x);
      assert (a + b)[1..] == a[1..] + b;
    }
  }

  lemma {:induction false} HoldsAllConcat(a: seq<DTree>, b: seq<DTree>, e: Entry)
    ensures HoldsAll(a + b, e) == HoldsAll(a, e) + HoldsAll(b, e)
  {
    if a == [] {
      assert a + b == b;
    } else {
      HoldsAllConcat(a[1..], b, e);
      assert (a + b)[1..] == a[1..] + b;
    }
  }

  lemma {:induction false} ValUsesConcat(a: seq<Val>, b: seq<Val>, x: int)
    ensures ValUses(a + b, x) == ValUses(a, x) + ValUses(b, x)
  {
    if a == [] {
      assert a + b == b;
    } else {
      ValUsesConcat(a[1..], b, x);
      assert (a + b)[1..] == a[1..] + b;
    }
  }

  lemma {:induction false} NodeHoldsConcat(ak: seq<Key>, av: seq<Val>, bk: seq<Key>, bv: seq<Val>, e: Entry)
    requires |ak| == |av| && |bk| == |bv|
    ensures NodeHolds(ak + bk, av + bv, e) == NodeHolds(ak, av, e) + NodeHolds(bk, bv, e)
  {
    if ak == [] {
      assert ak + bk == bk && av + bv == bv;
    } else {
      NodeHoldsConcat(ak[1..], av[1..], bk, bv, e);
      assert (ak + bk)[1..] == ak[1..] + bk;
      assert (av + bv)[1..] == av[1..] + bv;
    }
  }

  lemma UsesAllSplit(ts: seq<DTree>, i: nat, x: int)
    requires i < |ts|
    ensures UsesAll(ts, x) == UsesAll(ts[..i], x) + Uses(ts[i], x) + UsesAll(ts[i + 1..], x)
  {
    UsesAllConcat(ts[..i], ts[i..], x);
    assert ts == ts[..i] + ts[i..];
    assert ts[i..][1..] == ts[i + 1..];
  }

  lemma HoldsAllSplit(ts: seq<DTree>, i: nat, e: Entry)
    requires i < |ts|
    ensures HoldsAll(ts, e) == HoldsAll(ts[..i], e) + Holds(ts[i], e) + HoldsAll(ts[i + 1..], e)
  {
    HoldsAllConcat(ts[..i], ts[i..], e);
    assert ts == ts[..i] + ts[i..];
    assert ts[i..][1..] == ts[i + 1..];
  }

  lemma NodeHoldsSplit(keys: seq<Key>, vals: seq<Val>, i: nat, e: Entry)
    requires |keys| == |vals| && i < |keys|
    ensures NodeHolds(keys, vals, e) ==
      NodeHolds(keys[..i], vals[..i], e) + One((keys[i], vals[i].bytes) == e) +
      NodeHolds(keys[i + 1..], vals[i + 1..], e)
  {
    NodeHoldsConcat(keys[..i], vals[..i], keys[i..], vals[i..], e);
    assert keys == keys[..i] + keys[i..] && vals == vals[..i] + vals[i..];
    assert keys[i..][1..] == keys[i + 1..] && vals[i..][1..] == vals[i + 1..];
  }

  lemma ValUsesSplit(vals: seq<Val>, i: nat, x: int)
    requires i < |vals|
    ensures ValUses(vals, x) == ValUses(vals[..i], x) + One(vals[i].off - 8 == x) + ValUses(vals[i + 1..], x)
  {
    ValUsesConcat(vals[..i], vals[i..], x);
    assert vals == vals[..i] + vals[i..];
    assert vals[i..][1..] == vals[i + 1..];
  }

  // ------------------------------------------------------------------
  // Paths
  // ------------------------------------------------------------------

  ghost predicate HasPath(t: DTree, p: seq<nat>) {
    p != [] ==> p[0] < |t.kids| && HasPath(t.kids[p[0]], p[1..])
  }

  ghost function Sub(t: DTree, p: seq<nat>): (s: DTree)
    requires HasPath(t, p)
  {
    if p == [] then t else Sub(t.kids[p[0]], p[1..])
  }

  ghost function Replace(t: DTree, p: seq<nat>, s: DTree): (r: DTree)
    requires HasPath(t, p)
  {
    if p == [] then s
    else Node(t.off, t.keys, t.vals, t.kids[p[0] := Replace(t.kids[p[0]], p[1..], s)])
  }

  lemma {:induction false} ReplaceUses(t: DTree, p: seq<nat>, s: DTree, x: int)
    requires HasPath(t, p)
    ensures Uses(Replace(t, p, s), x) + Uses(Sub(t, p), x) == Uses(t, x) + Uses(s, x)
    decreases p
  {
    if p != [] {
      var i := p[0];
      var kids := t.kids[i := Replace(t.kids[i], p[1..], s)];
      ReplaceUses(t.kids[i], p[1..], s, x);
      UsesAllSplit(t.kids, i, x);
      UsesAllSplit(kids, i, x);
      assert kids[..i] == t.kids[..i] && kids[i + 1..] == t.kids[i + 1..];
    }
  }

  lemma {:induction false} ReplaceHolds(t: DTree, p: seq<nat>, s: DTree, e: Entry)
    requires HasPath(t, p)
    ensures Holds(Replace(t, p, s), e) + Holds(Sub(t, p), e) == Holds(t, e) + Holds(s, e)
    decreases p
  {
    if p != [] {
      var i := p[0];
      var kids := t.kids[i := Replace(t.kids[i], p[1..], s)];
      ReplaceHolds(t.kids[i], p[1..], s, e);
      HoldsAllSplit(t.kids, i, e);
      HoldsAllSplit(kids, i, e);
      assert kids[..i] == t.kids[..i] && kids[i + 1..] == t.kids[i + 1..];
    }
  }

  lemma {:induction false} PathStep(t: DTree, p: seq<nat>, i: nat)
    requires HasPath(t, p) && i < |Sub(t, p).kids|
    ensures HasPath(t, p + [i]) && Sub(t, p + [i]) == Sub(t, p).kids[i]
    decreases p
  {
    if p != [] {
      PathStep(t.kids[p[0]], p[1..], i);
      assert (p + [i])[1..] == p[1..] + [i];
    }
  }

  /** Replacing below is replacing the node whose kid changes. */
  lemma {:induction false} ReplaceStep(t: DTree, p: seq<nat>, i: nat, s: DTree)
    requires HasPath(t, p) && i < |Sub(t, p).kids|
    ensures HasPath(t, p + [i])
    ensures var n := Sub(t, p);
      Replace(t, p + [i], s) == Replace(t, p, Node(n.off, n.keys, n.vals, n.kids[i := s]))
    decreases p
  {
    PathStep(t, p, i);
    if p != [] {
      ReplaceStep(t.kids[p[0]], p[1..], i, s);
      assert (p + [i])[1..] == p[1..] + [i];
    } else {
      assert [i][1..] == [];
    }
  }

  // ------------------------------------------------------------------
  // Search order and balance
  // ------------------------------------------------------------------

  /** The open interval that kid `i` may take its keys from. */
  ghost function Below(t: DTree, lo: int, i: nat): (b: int)
    requires i <= |t.keys|
  {
    if i == 0 then lo else KeyNum(t.keys[i - 1])
  }

  ghost function Above(t: DTree, hi: int, i: nat): (b: int)
    requires i <= |t.keys|
  {
    if i == |t.keys| then hi else KeyNum(t.keys[i])
  }

  ghost predicate KeysOrdered(keys: seq<Key>, lo: int, hi: int) {
    (forall i :: 0 <= i < |keys| ==> lo < KeyNum(keys[i]) < hi) &&
    (forall i, j :: 0 <= i < j < |keys| ==> KeyNum(keys[i]) < KeyNum(keys[j]))
  }

  /** A search tree over (lo, hi) of height h, none of its nodes overfull, all
      but its own root at least half full. */
  ghost predicate WellFormed(t: DTree, lo: int, hi: int, h: nat) {
    |t.keys| == |t.vals| <= MAX_KEYS && KeysOrdered(t.keys, lo, hi) &&
    (if h == 0 then t.kids == [] else |t.kids| == |t.keys| + 1) &&
    (forall i :: 0 <= i < |t.kids| ==> KidFormed(t, lo, hi, h, i))
  }

  ghost predicate KidFormed(t: DTree, lo: int, hi: int, h: nat, i: nat)
    requires h > 0 && i < |t.kids| == |t.keys| + 1
  {
    MIN_KEYS <= |t.kids[i].keys| && WellFormed(t.kids[i], Below(t, lo, i), Above(t, hi, i), h - 1)
  }

  lemma {:induction false} FormedShaped(t: DTree, lo: int, hi: int, h: nat)
    requires WellFormed(t, lo, hi, h)
    ensures Shaped(t)
    decreases h
  {
    if h > 0 {
      forall i | 0 <= i < |t.kids|
        ensures Shaped(t.kids[i])
      {
        assert KidFormed(t, lo, hi, h, i);
        FormedShaped(t.kids[i], Below(t, lo, i), Above(t, hi, i), h - 1);
      }
    }
  }

  /** The interval of the subtree at a path. */
  ghost function Range(t: DTree, lo: int, hi: int, p: seq<nat>): (r: (int, int))
    requires HasPath(t, p) && Shaped(t)
  {
    if p == [] then (lo, hi)
    else Range(t.kids[p[0]], Below(t, lo, p[0]), Above(t, hi, p[0]), p[1..])
  }

  lemma {:induction false} SubFormed(t: DTree, lo: int, hi: int, h: nat, p: seq<nat>)
    requires WellFormed(t, lo, hi, h) && HasPath(t, p) && Shaped(t)
    ensures |p| <= h
    ensures var (l, u) := Range(t, lo, hi, p); WellFormed(Sub(t, p), l, u, h - |p|)
    ensures p != [] ==> |Sub(t, p).keys| >= MIN_KEYS
    decreases p
  {
    if p != [] {
      assert KidFormed(t, lo, hi, h, p[0]);
      SubFormed(t.kids[p[0]], Below(t, lo, p[0]), Above(t, hi, p[0]), h - 1, p[1..]);
      if p[1..] == [] { assert Sub(t, p) == t.kids[p[0]]; }
    }
  }

  lemma {:induction false} ReplaceFormed(t: DTree, lo: int, hi: int, h: nat, p: seq<nat>, s: DTree)
    requires WellFormed(t, lo, hi, h) && HasPath(t, p) && Shaped(t) && |p| <= h
    requires var (l, u) := Range(t, lo, hi, p); WellFormed(s, l, u, h - |p|)
    requires p != [] ==> |s.keys| >= MIN_KEYS
    ensures WellFormed(Replace(t, p, s), lo, hi, h)
    decreases p
  {
    if p != [] {
      var i := p[0];
      assert KidFormed(t, lo, hi, h, i);
      ReplaceFormed(t.kids[i], Below(t, lo, i), Above(t, hi, i), h - 1, p[1..], s);
      KidReplaced(t, lo, hi, h, i, Replace(t.kids[i], p[1..], s), Replace(t, p, s));
    }
  }

  lemma KidReplaced(t: DTree, lo: int, hi: int, h: nat, i: nat, k: DTree, r: DTree)
    requires h > 0 && WellFormed(t, lo, hi, h) && i < |t.kids| && |k.keys| >= MIN_KEYS
    requires WellFormed(k, Below(t, lo, i), Above(t, hi, i), h - 1) && r == Node(t.off, t.keys, t.vals, t.kids[i := k])
    ensures WellFormed(r, lo, hi, h)
  {
    forall j | 0 <= j < |r.kids|
      ensures KidFormed(r, lo, hi, h, j)
    {
      assert KidFormed(t, lo, hi, h, j);
    }
  }

  lemma {:induction false} RangeStep(t: DTree, lo: int, hi: int, p: seq<nat>, i: nat)
    requires HasPath(t, p) && Shaped(t) && i < |Sub(t, p).kids|
    ensures HasPath(t, p + [i]) && Shaped(Sub(t, p))
    ensures var (l, u) := Range(t, lo, hi, p);
      Range(t, lo, hi, p + [i]) == (Below(Sub(t, p), l, i), Above(Sub(t, p), u, i))
    decreases p
  {
    PathStep(t, p, i);
    if p != [] {
      RangeStep(t.kids[p[0]], Below(t, lo, p[0]), Above(t, hi, p[0]), p[1..], i);
      assert (p + [i])[1..] == p[1..] + [i];
    } else {
      assert [i][1..] == [];
    }
  }
}
