/** Why descending by key order finds an entry, and what each change means for the map. */
module BTreeSearch {
  import opened Bytes
  import opened Disk
  import opened BTreeModel
  import opened BTreeNode
  import opened BTreeChange
  import opened BTreeStates

  lemma {:induction false} NodeHoldsKey(keys: seq<Key>, vals: seq<Val>, e: Entry)
    requires |keys| == |vals| && NodeHolds(keys, vals, e) > 0
    ensures e.0 in keys
  {
    if (keys[0], vals[0].bytes) != e { NodeHoldsKey(keys[1..], vals[1..], e); }
  }

  lemma {:induction false} HoldsSome(ts: seq<DTree>, e: Entry) returns (i: nat)
    requires HoldsAll(ts, e) > 0
    ensures i < |ts| && Holds(ts[i], e) > 0
  {
    if Holds(ts[0], e) > 0 {
      i := 0;
    } else {
      i := HoldsSome(ts[1..], e);
      i := i + 1;
    }
  }

  lemma BelowFirst(t: DTree, lo: int, hi: int, i: nat)
    requires KeysOrdered(t.keys, lo, hi) && i <= |t.keys|
    ensures lo <= Below(t, lo, i) && Above(t, hi, i) <= hi
    ensures forall j :: 0 <= j < i ==> KeyNum(t.keys[j]) <= Below(t, lo, i)
    ensures forall j :: i <= j < |t.keys| ==> Above(t, hi, i) <= KeyNum(t.keys[j])
  {
  }

  /** A search tree stores only keys from its interval. */
  lemma {:induction false} HoldsInRange(t: DTree, lo: int, hi: int, h: nat, e: Entry)
    requires WellFormed(t, lo, hi, h) && Holds(t, e) > 0
    ensures lo < KeyNum(e.0) < hi
    decreases h
  {
    if NodeHolds(t.keys, t.vals, e) > 0 {
      NodeHoldsKey(t.keys, t.vals, e);
    } else {
      var i := HoldsSome(t.kids, e);
      assert KidFormed(t, lo, hi, h, i);
      HoldsInRange(t.kids[i], Below(t, lo, i), Above(t, hi, i), h - 1, e);
      BelowFirst(t, lo, hi, i);
    }
  }

  /** A key between two neighbours of a node can only be in the kid between them. */
  lemma KidHolds(t: DTree, lo: int, hi: int, h: nat, i: nat, e: Entry)
    requires h > 0 && WellFormed(t, lo, hi, h) && i < |t.kids| && Below(t, lo, i) < KeyNum(e.0) < Above(t, hi, i)
    ensures Holds(t, e) == Holds(t.kids[i], e)
  {
    BelowFirst(t, lo, hi, i);
    HoldsAllSplit(t.kids, i, e);
    if NodeHolds(t.keys, t.vals, e) > 0 { NodeHoldsKey(t.keys, t.vals, e); }
    if HoldsAll(t.kids[..i], e) > 0 {
      var j := HoldsSome(t.kids[..i], e);
      KidMisses(t, lo, hi, h, i, j, e);
    }
    if HoldsAll(t.kids[i + 1..], e) > 0 {
      var j := HoldsSome(t.kids[i + 1..], e);
      KidMisses(t, lo, hi, h, i, i + 1 + j, e);
    }
  }

  lemma KidMisses(t: DTree, lo: int, hi: int, h: nat, i: nat, j: nat, e: Entry)
    requires h > 0 && WellFormed(t, lo, hi, h) && i < |t.kids| && Below(t, lo, i) < KeyNum(e.0) < Above(t, hi, i)
    requires j < |t.kids| && j != i
    ensures Holds(t.kids[j], e) == 0
  {
    assert KidFormed(t, lo, hi, h, j);
    BelowFirst(t, lo, hi, i);
    if Holds(t.kids[j], e) > 0 {
      HoldsInRange(t.kids[j], Below(t, lo, j), Above(t, hi, j), h - 1, e);
    }
  }

  /** Where the search for a key has got to is where the key is, if anywhere. */
  lemma {:induction false} PathHolds(t: DTree, lo: int, hi: int, h: nat, p: seq<nat>, e: Entry)
    requires WellFormed(t, lo, hi, h) && HasPath(t, p) && Shaped(t)
    requires var (l, u) := Range(t, lo, hi, p); l < KeyNum(e.0) < u
    ensures lo < KeyNum(e.0) < hi && Holds(t, e) == Holds(Sub(t, p), e)
    decreases p
  {
    if p != [] {
      var i := p[0];
      assert KidFormed(t, lo, hi, h, i);
      PathHolds(t.kids[i], Below(t, lo, i), Above(t, hi, i), h - 1, p[1..], e);
      BelowFirst(t, lo, hi, i);
      KidHolds(t, lo, hi, h, i, e);
    }
  }

  /** The search for key number k has come to the node at path p. */
  ghost predicate Reached(t: DTree, h: nat, p: seq<nat>, k: int) {
    WellFormed(t, -1, Top(), h) && HasPath(t, p) && Shaped(t) &&
    var (l, u) := Range(t, -1, Top(), p); l < k < u
  }

  lemma ReachedRoot(t: DTree, h: nat, key: Key)
    requires WellFormed(t, -1, Top(), h)
    ensures Reached(t, h, [], KeyNum(key))
  {
    FormedShaped(t, -1, Top(), h);
  }

  /** What the node there looks like. */
  lemma ReachedNode(t: DTree, h: nat, p: seq<nat>, k: int)
    requires Reached(t, h, p, k)
    ensures |p| <= h && (|p| == h <==> Sub(t, p).kids == [])
    ensures |Sub(t, p).keys| == |Sub(t, p).vals| <= MAX_KEYS
    ensures Sub(t, p).kids != [] ==> |Sub(t, p).kids| == |Sub(t, p).keys| + 1
    ensures forall i, j :: 0 <= i < j < |Sub(t, p).keys| ==> KeyNum(Sub(t, p).keys[i]) < KeyNum(Sub(t, p).keys[j])
  {
    SubFormed(t, -1, Top(), h, p);
  }

  /** One step down. */
  lemma ReachedKid(t: DTree, h: nat, p: seq<nat>, k: int, i: nat)
    requires Reached(t, h, p, k) && Sub(t, p).kids != [] && IsRank(Sub(t, p).keys, k, i)
    ensures i < |Sub(t, p).kids| && HasPath(t, p + [i]) && Sub(t, p + [i]) == Sub(t, p).kids[i]
    ensures Reached(t, h, p + [i], k)
  {
    ReachedNode(t, h, p, k);
    PathStep(t, p, i);
    RangeStep(t, -1, Top(), p, i);
  }

  /** The entry found in a node that the search has come to is the map's. */
  lemma FoundEntry(t: DTree, h: nat, m: Content, p: seq<nat>, i: nat)
    requires Means(t, h, m) && HasPath(t, p) && i < |Sub(t, p).keys| == |Sub(t, p).vals|
    ensures Sub(t, p).keys[i] in m && m[Sub(t, p).keys[i]] == Sub(t, p).vals[i].bytes
  {
    var n := Sub(t, p);
    var e := (n.keys[i], n.vals[i].bytes);
    NodeHoldsSplit(n.keys, n.vals, i, e);
    SubHolds(t, p, e);
  }

  lemma {:induction false} SubHolds(t: DTree, p: seq<nat>, e: Entry)
    requires HasPath(t, p)
    ensures Holds(Sub(t, p), e) <= Holds(t, e)
    decreases p
  {
    if p != [] {
      SubHolds(t.kids[p[0]], p[1..], e);
      HoldsAllSplit(t.kids, p[0], e);
    }
  }

  /** A key that the leaf reached does not have is not in the map. */
  lemma MissingEntry(t: DTree, h: nat, m: Content, p: seq<nat>, key: Key, i: nat)
    requires Means(t, h, m) && Reached(t, h, p, KeyNum(key)) && Sub(t, p).kids == [] &&
      IsRank(Sub(t, p).keys, KeyNum(key), i)
    ensures key !in m
  {
    if key in m {
      var e := (key, m[key]);
      ReachedNode(t, h, p, KeyNum(key));
      PathHolds(t, -1, Top(), h, p, e);
      assert Holds(t, e) == 1;
      NodeHoldsKey(Sub(t, p).keys, Sub(t, p).vals, e);
    }
  }

  // ------------------------------------------------------------------
  // What the changes mean
  // ------------------------------------------------------------------

  /** A new entry in the leaf that the search has come to. */
  lemma InsertMeans(t: DTree, h: nat, m: Content, p: seq<nat>, key: Key, off: nat, i: nat, v: Val)
    requires Means(t, h, m) && Reached(t, h, p, KeyNum(key)) && Sub(t, p).kids == []
    requires |Sub(t, p).keys| < MAX_KEYS && |Sub(t, p).vals| == |Sub(t, p).keys| &&
      IsRank(Sub(t, p).keys, KeyNum(key), i)
    ensures Means(Replace(t, p, WithEntry(Sub(t, p), off, i, key, v)), h, m[key := v.bytes])
  {
    var s := WithEntry(Sub(t, p), off, i, key, v);
    ReachedNode(t, h, p, KeyNum(key));
    SubFormed(t, -1, Top(), h, p);
    var (l, u) := Range(t, -1, Top(), p);
    EntryFormed(Sub(t, p), l, u, off, i, key, v);
    ReplaceFormed(t, -1, Top(), h, p, s);
    MissingEntry(t, h, m, p, key, i);
    InsertStores(t, m, p, key, off, i, v);
  }

  lemma InsertStores(t: DTree, m: Content, p: seq<nat>, key: Key, off: nat, i: nat, v: Val)
    requires Stores(t, m) && key !in m && HasPath(t, p) && i <= |Sub(t, p).keys| == |Sub(t, p).vals|
    ensures Stores(Replace(t, p, WithEntry(Sub(t, p), off, i, key, v)), m[key := v.bytes])
  {
    var s := WithEntry(Sub(t, p), off, i, key, v);
    forall e: Entry
      ensures Holds(Replace(t, p, s), e) == One(e.0 in m[key := v.bytes] && m[key := v.bytes][e.0] == e.1)
    {
      ReplaceHolds(t, p, s, e);
      EntryHolds(Sub(t, p), off, i, key, v, e);
    }
  }

  /** Another value for an entry that the tree has. */
  lemma ReplaceMeans(t: DTree, h: nat, m: Content, p: seq<nat>, i: nat, v: Val)
    requires Means(t, h, m) && HasPath(t, p) && i < |Sub(t, p).keys| == |Sub(t, p).vals|
    ensures Means(Replace(t, p, WithVal(Sub(t, p), i, v)), h, m[Sub(t, p).keys[i] := v.bytes])
  {
    var s := WithVal(Sub(t, p), i, v);
    FormedShaped(t, -1, Top(), h);
    SubFormed(t, -1, Top(), h, p);
    var (l, u) := Range(t, -1, Top(), p);
    ValFormed(Sub(t, p), l, u, h - |p|, i, v);
    ReplaceFormed(t, -1, Top(), h, p, s);
    ReplaceStores(t, h, m, p, i, v);
  }

  lemma ReplaceStores(t: DTree, h: nat, m: Content, p: seq<nat>, i: nat, v: Val)
    requires Means(t, h, m) && HasPath(t, p) && i < |Sub(t, p).keys| == |Sub(t, p).vals|
    ensures Stores(Replace(t, p, WithVal(Sub(t, p), i, v)), m[Sub(t, p).keys[i] := v.bytes])
  {
    var key, s := Sub(t, p).keys[i], WithVal(Sub(t, p), i, v);
    FoundEntry(t, h, m, p, i);
    forall e: Entry
      ensures Holds(Replace(t, p, s), e) == One(e.0 in m[key := v.bytes] && m[key := v.bytes][e.0] == e.1)
    {
      ReplaceHolds(t, p, s, e);
      ValHolds(Sub(t, p), i, v, e);
    }
  }

  /** A split means nothing for the map. */
  lemma SplitMeans(t: DTree, h: nat, m: Content, p: seq<nat>, i: nat, l: nat, r: nat, q: nat)
    requires Means(t, h, m) && HasPath(t, p) && Splittable(Sub(t, p), i)
    ensures Means(Replace(t, p, SplitTree(Sub(t, p), i, l, r, q)), h, m)
  {
    var s := SplitTree(Sub(t, p), i, l, r, q);
    FormedShaped(t, -1, Top(), h);
    SubFormed(t, -1, Top(), h, p);
    var (lo, hi) := Range(t, -1, Top(), p);
    SplitFormed(Sub(t, p), lo, hi, h - |p|, i, l, r, q);
    ReplaceFormed(t, -1, Top(), h, p, s);
    forall e: Entry
      ensures Holds(Replace(t, p, s), e) == One(e.0 in m && m[e.0] == e.1)
    {
      ReplaceHolds(t, p, s, e);
      SplitHolds(Sub(t, p), i, l, r, q, e);
    }
  }

  /** Nor does a new root above a full one. */
  lemma SplitRootMeans(t: DTree, h: nat, m: Content, off: nat, l: nat, r: nat, q: nat)
    requires Means(t, h, m) && FullNode(t)
    ensures Means(SplitTree(Node(off, [], [], [t]), 0, l, r, q), h + 1, m)
  {
    var par := Node(off, [], [], [t]);
    assert KidFormed(par, -1, Top(), h + 1, 0);
    assert WellFormed(par, -1, Top(), h + 1);
    SplitFormed(par, -1, Top(), h + 1, 0, l, r, q);
    forall e: Entry
      ensures Holds(SplitTree(par, 0, l, r, q), e) == One(e.0 in m && m[e.0] == e.1)
    {
      SplitHolds(par, 0, l, r, q, e);
      HeadlessHolds(t, off, e);
    }
  }
}
