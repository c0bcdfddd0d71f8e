/** The chunk accounts of the three changes: a leaf rewritten, a value replaced, a node split. */
module BTreeTrades {
  import opened Bytes
  import opened Disk
  import opened AllocatorModel
  import opened AllocatorSteps
  import opened AllocatorStates
  import opened BTreeModel
  import opened BTreeNode
  import opened BTreeDisk
  import opened BTreeChange
  import opened BTreeStates
  import opened BTreeSearch
  import opened BTreeRecords

  /** What the invariant says about the node at a path. */
  lemma SoundNode(s: State, t: DTree, x: set<nat>, h: nat, m: Content, p: seq<nat>)
    requires Sound(s, t, x, h, m) && HasPath(t, p)
    ensures Means(t, h, m) && OnDisk(s.file, Sub(t, p)) && Housed(Sub(t, p), InUse(s))
    ensures forall c: int :: Uses(Sub(t, p), c) <= One(c >= 0 && c in InUse(s) && c !in x)
  {
    OpenSound(s, t, x, h, m);
    SubOnDisk(t, p, s.file);
    SubHoused(t, p, InUse(s));
    forall c: int ensures Uses(Sub(t, p), c) <= One(c >= 0 && c in InUse(s) && c !in x) { SubUses(t, p, c); }
  }

  lemma ValueTrade(n: DTree, i: nat, v: Val, q: map<nat, nat>)
    requires i < |n.vals| && Housed(n, q) && ValHoused(v, q)
    ensures n.vals[i].off >= 8 && Trade(n, WithVal(n, i, v), q, {v.off - 8}, {n.vals[i].off - 8})
  {
    assert ValHoused(n.vals[i], q);
    forall c: int
      ensures Uses(WithVal(n, i, v), c) + One(Spare(c, {n.vals[i].off - 8}, q)) ==
        Uses(n, c) + One(Spare(c, {v.off - 8}, q))
    {
      ValUsesChange(n, i, v, c);
    }
  }

  lemma LeafTrade(n: DTree, off: nat, i: nat, key: Key, v: Val, q: map<nat, nat>)
    requires i <= |n.keys| == |n.vals| && NodeHoused(n.off, q) && NodeHoused(off, q) && ValHoused(v, q) && v.off != off
    ensures Trade(n, WithEntry(n, off, i, key, v), q, {v.off - 8, off - 8}, {n.off - 8})
  {
    forall c: int
      ensures Uses(WithEntry(n, off, i, key, v), c) + One(Spare(c, {n.off - 8}, q)) ==
        Uses(n, c) + One(Spare(c, {v.off - 8, off - 8}, q))
    {
      EntryUses(n, off, i, key, v, c);
    }
  }

  lemma LeafHoused(n: DTree, off: nat, i: nat, key: Key, v: Val, q: map<nat, nat>)
    requires i <= |n.keys| == |n.vals| && Housed(n, q) && n.kids == [] && NodeHoused(off, q) && ValHoused(v, q)
    ensures Housed(WithEntry(n, off, i, key, v), q)
  {
  }

  lemma LeafOnDisk(d: Disk, n: DTree, off: nat, i: nat, key: Key, v: Val, r: NodeRec)
    requires i <= |n.keys| == |n.vals| && OnDisk(d, n) && n.kids == [] && ValOnDisk(d, v)
    requires NodeBytes(d, off, r) && Matches(r, WithEntry(n, off, i, key, v))
    ensures OnDisk(d, WithEntry(n, off, i, key, v))
  {
  }

  // ------------------------------------------------------------------
  // Splits
  // ------------------------------------------------------------------

  /** `par` is the node at path `p`, or a fresh node in chunk-in-waiting `x` above the root. */
  ghost predicate Parent(t: DTree, p: seq<nat>, par: DTree, i: nat, x: set<nat>) {
    HasPath(t, p) && Splittable(par, i) && par.off >= 8 &&
    ((x == {} && par == Sub(t, p)) || (x == {par.off - 8} && p == [] && i == 0 && par == Node(par.off, [], [], [t])))
  }

  /** Chunks that a split leaves behind. */
  function Leftover(par: DTree, i: nat): (y: set<nat>)
    requires i < |par.kids| && par.off >= 8 && par.kids[i].off >= 8
  {
    {par.off - 8, par.kids[i].off - 8}
  }

  lemma ParentFacts(s: State, t: DTree, p: seq<nat>, par: DTree, i: nat, x: set<nat>, z: set<nat>, h: nat, m: Content)
    requires Sound(s, t, z, h, m) && Parent(t, p, par, i, x)
    ensures RestOnDisk(s.file, par) && RestHoused(par, InUse(s))
  {
    SoundNode(s, t, z, h, m, p);
  }

  lemma MedianFits(s: State, t: DTree, p: seq<nat>, par: DTree, i: nat, x: set<nat>, h: nat, m: Content)
    requires Good(s) && Sound(s, t, x, h, m) && Parent(t, p, par, i, x)
    ensures NodeOnDisk(s.file, par.kids[i]) && Fits(par.kids[i].vals[HALF].off)
  {
    ParentFacts(s, t, p, par, i, x, x, h, m);
    var v := par.kids[i].vals[HALF];
    assert Housed(par.kids[i], InUse(s));
    assert ValHoused(v, InUse(s));
    ChunkKnown(s, v.off - 8);
  }

  lemma ParentUses(t: DTree, p: seq<nat>, par: DTree, i: nat, x: set<nat>, c: int)
    requires Parent(t, p, par, i, x)
    ensures Uses(par, c) == Uses(Sub(t, p), c) + One(c >= 0 && c in x)
  {
    if x != {} { HeadlessUses(t, par.off, c); }
  }

  /** Parent and kid are different nodes. */
  lemma ParentApart(s: State, t: DTree, p: seq<nat>, par: DTree, i: nat, x: set<nat>, z: set<nat>, h: nat, m: Content)
    requires Sound(s, t, z, h, m) && Parent(t, p, par, i, x) && x <= z && NodeHoused(par.off, InUse(s))
    ensures par.kids[i].off >= 8 && par.kids[i].off != par.off
    ensures par.kids[i].off - 8 !in z && NodeHoused(par.kids[i].off, InUse(s))
    ensures par.off - 8 !in z - x
  {
    SoundNode(s, t, z, h, m, p);
    var c, d := par.kids[i].off - 8, par.off - 8;
    ParentUses(t, p, par, i, x, c);
    ParentUses(t, p, par, i, x, d);
    UsesParts(par, i, c);
    UsesParts(par, i, d);
  }

  lemma SplitTrade(t: DTree, p: seq<nat>, par: DTree, i: nat, x: set<nat>, q: map<nat, nat>, l: nat, r: nat, n: nat)
    requires Parent(t, p, par, i, x) && NodeHoused(par.off, q) && NodeHoused(par.kids[i].off, q)
    requires NodeHoused(l, q) && NodeHoused(r, q) && NodeHoused(n, q) && l != r && l != n && r != n
    requires par.kids[i].off != par.off && par.off !in {l, r, n} && x !! {l - 8, r - 8, n - 8}
    ensures Trade(Sub(t, p), SplitTree(par, i, l, r, n), q, x + {l - 8, r - 8, n - 8}, Leftover(par, i))
  {
    hide SplitTree;
    var s, x1 := SplitTree(par, i, l, r, n), x + {l - 8, r - 8, n - 8};
    forall c: int
      ensures Uses(s, c) + One(Spare(c, Leftover(par, i), q)) == Uses(Sub(t, p), c) + One(Spare(c, x1, q))
    {
      SplitUses(par, i, l, r, n, c);
      ParentUses(t, p, par, i, x, c);
      SpareThree(c, x, l - 8, r - 8, n - 8, q);
    }
  }

  lemma SpareThree(c: int, x: set<nat>, a: nat, b: nat, d: nat, q: map<nat, nat>)
    requires a in q && b in q && d in q && a != b && a != d && b != d && x !! {a, b, d}
    ensures One(Spare(c, x + {a, b, d}, q)) == One(Spare(c, x, q)) + One(a == c) + One(b == c) + One(d == c)
  {
  }

  ghost function NewHeight(h: nat, x: set<nat>): (h2: nat) {
    if x == {} then h else h + 1
  }

  lemma ParentMeans(t: DTree, h: nat, m: Content, p: seq<nat>, par: DTree, i: nat, x: set<nat>, l: nat, r: nat, n: nat)
    requires Means(t, h, m) && Parent(t, p, par, i, x)
    ensures Means(Replace(t, p, SplitTree(par, i, l, r, n)), NewHeight(h, x), m)
  {
    if x == {} {
      SplitMeans(t, h, m, p, i, l, r, n);
    } else {
      SplitRootMeans(t, h, m, par.off, l, r, n);
    }
  }
}
