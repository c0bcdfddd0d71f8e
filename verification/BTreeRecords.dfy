/** The in-memory node operations, on all cells of a node, against the tree operations. */
module BTreeRecords {
  import opened Bytes
  import opened Disk
  import opened AllocatorModel
  import opened AllocatorSteps
  import opened AllocatorStates
  import opened BTreeModel
  import opened BTreeNode
  import opened BTreeDisk
  import opened BTreeChange
  import opened BTreeStates

  const ZERO_KEY: Key := seq(KEY_LEN, _ => 0)

  /** A fresh node: every byte zero. */
  function EmptyRec(): (n: NodeRec)
  {
    NodeRec(0, 0, seq(MAX_KEYS, _ => ZERO_KEY), seq(MAX_KEYS, _ => 0), seq(MAX_KEYS + 1, _ => 0))
  }

  /** Cells i up to k move up by one, and x is put at i. */
  function Shift<T>(s: seq<T>, i: nat, k: nat, x: T): (r: seq<T>)
    requires i <= k < |s|
    ensures |r| == |s|
  {
    s[..i] + [x] + s[i..k] + s[k + 1..]
  }

  lemma ShiftInserts<T>(s: seq<T>, i: nat, k: nat, x: T)
    requires i <= k < |s|
    ensures Shift(s, i, k, x)[..k + 1] == InsertAt(s[..k], i, x)
  {
  }

  /** The cells of a node that has been read all fit. */
  lemma ReadsWhole(b: seq<byte>, n: NodeRec)
    requires Reads(b, n)
    ensures Whole(n)
  {
    Pow256Eight();
    forall i | 0 <= i < MAX_KEYS
      ensures Fits(n.values[i])
    {
      assert ValCell(b, n, i);
    }
    forall i | 0 <= i <= MAX_KEYS
      ensures Fits(n.children[i])
    {
      assert KidCell(b, n, i);
    }
  }

  // ------------------------------------------------------------------
  // A key in a leaf
  // ------------------------------------------------------------------

  function InsertRec(n: NodeRec, i: nat, key: Key, valoff: nat): (r: NodeRec)
    requires i <= n.numkeys < MAX_KEYS == |n.keys| == |n.values|
  {
    NodeRec(n.numkeys + 1, n.isleaf, Shift(n.keys, i, n.numkeys, key), Shift(n.values, i, n.numkeys, valoff),
      n.children)
  }

  lemma InsertMatches(n: NodeRec, t: DTree, i: nat, key: Key, v: Val, off: nat)
    requires Matches(n, t) && t.kids == [] && i <= |t.keys| < MAX_KEYS && Whole(n) && Fits(v.off)
    ensures Matches(InsertRec(n, i, key, v.off), WithEntry(t, off, i, key, v)) && Whole(InsertRec(n, i, key, v.off))
  {
    ShiftInserts(n.keys, i, n.numkeys, key);
  }

  // ------------------------------------------------------------------
  // The halves of a full node
  // ------------------------------------------------------------------

  function LeftRec(n: NodeRec): (r: NodeRec)
    requires |n.keys| == MAX_KEYS && |n.values| == MAX_KEYS && |n.children| == MAX_KEYS + 1
  {
    var e := EmptyRec();
    NodeRec(HALF, n.isleaf, n.keys[..HALF] + e.keys[HALF..], n.values[..HALF] + e.values[HALF..],
      n.children[..HALF + 1] + e.children[HALF + 1..])
  }

  function RightRec(n: NodeRec): (r: NodeRec)
    requires |n.keys| == MAX_KEYS && |n.values| == MAX_KEYS && |n.children| == MAX_KEYS + 1
  {
    var e := EmptyRec();
    NodeRec(HALF, n.isleaf, n.keys[HALF + 1..2 * HALF + 1] + e.keys[HALF..],
      n.values[HALF + 1..2 * HALF + 1] + e.values[HALF..],
      n.children[HALF + 1..2 * HALF + 2] + e.children[HALF + 1..])
  }

  lemma LeftMatches(n: NodeRec, t: DTree, off: nat)
    requires Matches(n, t) && FullNode(t) && Whole(n)
    ensures Matches(LeftRec(n), LeftPart(t, HALF, off)) && Whole(LeftRec(n))
  {
    assert LeftRec(n).keys[..HALF] == n.keys[..HALF] == t.keys[..HALF];
  }

  lemma RightMatches(n: NodeRec, t: DTree, off: nat)
    requires Matches(n, t) && FullNode(t) && Whole(n)
    ensures Matches(RightRec(n), RightPart(t, HALF, off)) && Whole(RightRec(n))
  {
    assert RightRec(n).keys[..HALF] == n.keys[HALF + 1..] == t.keys[HALF + 1..];
  }

  // ------------------------------------------------------------------
  // The parent with the median
  // ------------------------------------------------------------------

  function ParentRec(n: NodeRec, i: nat, key: Key, valoff: nat, loff: nat, roff: nat): (r: NodeRec)
    requires i <= n.numkeys < MAX_KEYS == |n.keys| == |n.values| && |n.children| == MAX_KEYS + 1
  {
    NodeRec(n.numkeys + 1, n.isleaf, Shift(n.keys, i, n.numkeys, key), Shift(n.values, i, n.numkeys, valoff),
      Shift(n.children, i + 1, n.numkeys + 1, roff)[i := loff])
  }

  /** Like `Matches`, but for the pointer to kid i, which a new root does not have. */
  ghost predicate MatchesBut(n: NodeRec, t: DTree, i: nat) {
    |n.keys| == MAX_KEYS && |n.values| == MAX_KEYS && |n.children| == MAX_KEYS + 1 &&
    n.numkeys == |t.keys| == |t.vals| <= MAX_KEYS && n.isleaf == 0 && n.keys[..|t.keys|] == t.keys &&
    (forall j :: 0 <= j < |t.vals| ==> n.values[j] == t.vals[j].off) &&
    |t.kids| == |t.keys| + 1 && (forall j :: 0 <= j < |t.kids| && j != i ==> n.children[j] == t.kids[j].off)
  }

  lemma SplitKids(par: DTree, i: nat, l: nat, r: nat, q: nat, j: nat)
    requires Splittable(par, i) && j < |SplitTree(par, i, l, r, q).kids|
    ensures SplitTree(par, i, l, r, q).kids[j] ==
      if j < i then par.kids[j]
      else if j == i then LeftPart(par.kids[i], HALF, l)
      else if j == i + 1 then RightPart(par.kids[i], HALF, r)
      else par.kids[j - 1]
  {
  }

  lemma ParentKids(n: NodeRec, t: DTree, i: nat, key: Key, v: nat, l: nat, r: nat, p: nat, j: nat)
    requires MatchesBut(n, t, i) && Splittable(t, i) && j < |SplitTree(t, i, l, r, p).kids|
    ensures ParentRec(n, i, key, v, l, r).children[j] == SplitTree(t, i, l, r, p).kids[j].off
  {
    SplitKids(t, i, l, r, p, j);
  }

  lemma ParentWhole(n: NodeRec, t: DTree, i: nat, key: Key, v: nat, l: nat, r: nat)
    requires MatchesBut(n, t, i) && Splittable(t, i) && Whole(n) && Fits(l) && Fits(r) && Fits(v)
    ensures Whole(ParentRec(n, i, key, v, l, r))
  {
  }

  lemma ParentVals(n: NodeRec, t: DTree, i: nat, key: Key, v: Val, l: nat, r: nat)
    requires MatchesBut(n, t, i) && Splittable(t, i)
    ensures var m := ParentRec(n, i, key, v.off, l, r);
      m.keys[..|t.keys| + 1] == InsertAt(t.keys, i, key) &&
      forall j :: 0 <= j <= |t.vals| ==> m.values[j] == InsertAt(t.vals, i, v)[j].off
  {
    ShiftInserts(n.keys, i, n.numkeys, key);
  }

  lemma ParentMatches(n: NodeRec, t: DTree, i: nat, l: nat, r: nat, p: nat)
    requires MatchesBut(n, t, i) && Splittable(t, i) && Whole(n) && Fits(l) && Fits(r) && Fits(t.kids[i].vals[HALF].off)
    ensures var m := ParentRec(n, i, t.kids[i].keys[HALF], t.kids[i].vals[HALF].off, l, r);
      Matches(m, SplitTree(t, i, l, r, p)) && Whole(m)
  {
    var key, v := t.kids[i].keys[HALF], t.kids[i].vals[HALF];
    ParentWhole(n, t, i, key, v.off, l, r);
    ParentVals(n, t, i, key, v, l, r);
    forall j | 0 <= j < |SplitTree(t, i, l, r, p).kids|
      ensures ParentRec(n, i, key, v.off, l, r).children[j] == SplitTree(t, i, l, r, p).kids[j].off
    {
      ParentKids(n, t, i, key, v.off, l, r, p, j);
    }
  }

  // ------------------------------------------------------------------
  // Both together
  // ------------------------------------------------------------------

  /** All of the tree but the node at its root. */
  ghost predicate RestOnDisk(d: Disk, t: DTree) {
    (forall i :: 0 <= i < |t.vals| ==> ValOnDisk(d, t.vals[i])) &&
    forall i :: 0 <= i < |t.kids| ==> OnDisk(d, t.kids[i])
  }

  ghost predicate RestHoused(t: DTree, p: map<nat, nat>) {
    (forall i :: 0 <= i < |t.vals| ==> ValHoused(t.vals[i], p)) &&
    forall i :: 0 <= i < |t.kids| ==> Housed(t.kids[i], p)
  }

  lemma PartsOnDisk(d: Disk, t: DTree, l: nat, r: nat)
    requires OnDisk(d, t) && FullNode(t)
    requires NodeOnDisk(d, LeftPart(t, HALF, l)) && NodeOnDisk(d, RightPart(t, HALF, r))
    ensures OnDisk(d, LeftPart(t, HALF, l)) && OnDisk(d, RightPart(t, HALF, r)) && ValOnDisk(d, t.vals[HALF])
  {
  }

  lemma PartsHoused(t: DTree, p: map<nat, nat>, l: nat, r: nat)
    requires Housed(t, p) && FullNode(t) && NodeHoused(l, p) && NodeHoused(r, p)
    ensures Housed(LeftPart(t, HALF, l), p) && Housed(RightPart(t, HALF, r), p) && ValHoused(t.vals[HALF], p)
  {
  }

  lemma SplitOnDisk(d: Disk, par: DTree, i: nat, l: nat, r: nat, q: nat)
    requires Splittable(par, i) && RestOnDisk(d, par) && NodeOnDisk(d, SplitTree(par, i, l, r, q))
    requires NodeOnDisk(d, LeftPart(par.kids[i], HALF, l)) && NodeOnDisk(d, RightPart(par.kids[i], HALF, r))
    ensures OnDisk(d, SplitTree(par, i, l, r, q))
  {
    var s := SplitTree(par, i, l, r, q);
    PartsOnDisk(d, par.kids[i], l, r);
    forall j | 0 <= j < |s.vals| ensures ValOnDisk(d, s.vals[j]) {}
    forall j | 0 <= j < |s.kids|
      ensures OnDisk(d, s.kids[j])
    {
      SplitKids(par, i, l, r, q, j);
    }
  }

  lemma SplitHoused(par: DTree, p: map<nat, nat>, i: nat, l: nat, r: nat, q: nat)
    requires Splittable(par, i) && RestHoused(par, p) && NodeHoused(l, p) && NodeHoused(r, p) && NodeHoused(q, p)
    ensures Housed(SplitTree(par, i, l, r, q), p)
  {
    var s := SplitTree(par, i, l, r, q);
    PartsHoused(par.kids[i], p, l, r);
    forall j | 0 <= j < |s.kids|
      ensures Housed(s.kids[j], p)
    {
      SplitKids(par, i, l, r, q, j);
    }
  }
}
