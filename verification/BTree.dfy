/** The copy-on-write B-tree in its file. */
module BTree {
  import opened Bytes
  import opened Disk
  import opened AllocatorModel
  import opened AllocatorSteps
  import opened AllocatorStates
  import opened Allocator
  import opened BTreeModel
  import opened BTreeNode
  import opened BTreeDisk
  import opened BTreeChange
  import opened BTreeStates
  import opened BTreeSearch
  import opened BTreeRecords
  import opened BTreeTrades

  /** The child on the search path for k is full. */
  ghost predicate NextFull(n: DTree, k: int) {
    exists i: nat :: IsRank(n.keys, k, i) && i < |n.kids| && |n.kids[i].keys| == MAX_KEYS
  }

  /** An insertion may go through this node: it has room, or will not need it. */
  ghost predicate Ready(n: DTree, k: int) {
    |n.keys| < MAX_KEYS || (n.kids != [] && !NextFull(n, k))
  }

  /** How often the file may have to grow below a node at distance d from the leaves. */
  ghost function Need(d: nat, full: bool): (n: nat) {
    if full || d == 0 then 5 * d + 3 else 5 * d - 2
  }

  /** A full kid below a node that is ready for the key can be split. */
  lemma KidFull(t: DTree, h: nat, p: seq<nat>, k: int, i: nat)
    requires Reached(t, h, p, k) && Ready(Sub(t, p), k) && IsRank(Sub(t, p).keys, k, i) && Sub(t, p).off >= 8
    requires i < |Sub(t, p).kids| && |Sub(t, p).kids[i].keys| == MAX_KEYS
    ensures Parent(t, p, Sub(t, p), i, {}) && NextFull(Sub(t, p), k)
  {
    ReachedNode(t, h, p, k);
    ReachedKid(t, h, p, k, i);
    ReachedNode(t, h, p + [i], k);
  }

  lemma RootFull(t: DTree, h: nat)
    requires WellFormed(t, -1, Top(), h) && |t.keys| == MAX_KEYS
    ensures FullNode(t)
  {
  }

  lemma {:induction false} ReplacePath(t: DTree, lo: int, hi: int, p: seq<nat>, s: DTree)
    requires HasPath(t, p) && Shaped(t) && Shaped(Replace(t, p, s))
    ensures var r := Replace(t, p, s);
      HasPath(r, p) && Sub(r, p) == s && Range(r, lo, hi, p) == Range(t, lo, hi, p) && CellOf(r, p) == CellOf(t, p)
    decreases p
  {
    if p != [] {
      assert Shaped(Replace(t, p, s).kids[p[0]]);
      ReplacePath(t.kids[p[0]], Below(t, lo, p[0]), Above(t, hi, p[0]), p[1..], s);
    }
  }

  /** Replacing the node that the search has come to. */
  lemma ReplaceReached(t: DTree, h: nat, p: seq<nat>, s: DTree, k: int)
    requires Reached(t, h, p, k) && WellFormed(Replace(t, p, s), -1, Top(), h)
    ensures Reached(Replace(t, p, s), h, p, k) && Sub(Replace(t, p, s), p) == s
    ensures CellOf(Replace(t, p, s), p) == CellOf(t, p)
  {
    FormedShaped(Replace(t, p, s), -1, Top(), h);
    ReplacePath(t, -1, Top(), p, s);
  }

  lemma SplitRanks(par: DTree, i: nat, l: nat, r: nat, q: nat, k: int, j: nat)
    requires Splittable(par, i) && IsRank(par.keys, k, i) && j <= |par.keys| + 1 && (j < i || j > i + 1)
    ensures !IsRank(SplitTree(par, i, l, r, q).keys, k, j)
  {
    var keys, m := SplitTree(par, i, l, r, q).keys, par.kids[i].keys[HALF];
    if j < i {
      assert keys[j] == par.keys[j];
    } else {
      assert keys[j - 1] == par.keys[j - 2];
    }
  }

  /** Once split, the child on the path has room. */
  lemma SplitReady(par: DTree, i: nat, l: nat, r: nat, q: nat, k: int)
    requires Splittable(par, i) && IsRank(par.keys, k, i)
    ensures Ready(SplitTree(par, i, l, r, q), k) && !NextFull(SplitTree(par, i, l, r, q), k)
  {
    var s := SplitTree(par, i, l, r, q);
    forall j: nat | IsRank(s.keys, k, j) && j < |s.kids|
      ensures |s.kids[j].keys| != MAX_KEYS
    {
      if j < i || j > i + 1 { SplitRanks(par, i, l, r, q, k, j); }
      SplitKids(par, i, l, r, q, j);
    }
  }

  /** Appends big-endian words one by one. */
  method AppendWords(a: seq<byte>, ws: seq<nat>) returns (b: seq<byte>)
    ensures b == a + Words(ws)
  {
    b := a;
    var j := 0;
    while j < |ws|
      invariant 0 <= j <= |ws| && b == a + Words(ws[..j])
    {
      WordsStep(ws, j);
      b := b + ToBE(ws[j], 8);
      j := j + 1;
    }
    assert ws[..j] == ws;
  }

  /** The bytes of a node, built up front to back. */
  method EncodeNode(n: NodeRec, mark: u32) returns (b: seq<byte>)
    requires Whole(n)
    ensures b == Encode(n, mark)
  {
    b := ToBE(mark, 4) + ToBE(n.numkeys, 4) + ToBE(n.isleaf, 4) + ToBE(0, 4) + Flat(n.keys);
    b := AppendWords(b, n.values);
    b := AppendWords(b, n.children);
    b := b + ToBE(mark, 4);
  }

  lemma WordsStep(ws: seq<nat>, j: nat)
    requires j < |ws|
    ensures Words(ws[..j + 1]) == Words(ws[..j]) + ToBE(ws[j], 8)
  {
    assert ws[..j + 1][..j] == ws[..j];
  }

  /** The three nodes of a split are on disk. */
  ghost predicate SplitWritten(d: Disk, par: DTree, i: nat, l: nat, r: nat, n: nat)
    requires Splittable(par, i)
  {
    NodeOnDisk(d, LeftPart(par.kids[i], HALF, l)) && NodeOnDisk(d, RightPart(par.kids[i], HALF, r)) &&
    NodeOnDisk(d, SplitTree(par, i, l, r, n))
  }

  lemma MedianMatches(n: NodeRec, t: DTree)
    requires Matches(n, t) && FullNode(t)
    ensures n.keys[HALF] == t.keys[HALF] && n.values[HALF] == t.vals[HALF].off
  {
  }

  lemma SplitShown(d: Disk, child: NodeRec, parent: NodeRec, par: DTree, i: nat, l: nat, r: nat, n: nat)
    requires Splittable(par, i) && Matches(child, par.kids[i]) && Whole(child) && MatchesBut(parent, par, i) &&
      Whole(parent)
    requires Fits(l) && Fits(r) && Fits(par.kids[i].vals[HALF].off)
    requires NodeBytes(d, l, LeftRec(child)) && NodeBytes(d, r, RightRec(child))
    requires NodeBytes(d, n, ParentRec(parent, i, child.keys[HALF], child.values[HALF], l, r))
    ensures SplitWritten(d, par, i, l, r, n)
  {
    MedianMatches(child, par.kids[i]);
    LeftMatches(child, par.kids[i], l);
    RightMatches(child, par.kids[i], r);
    ParentMatches(parent, par, i, l, r, n);
  }

  /** Only the file counts, and which of its chunks are in use. */
  lemma Reopened(s: State, u: State, t: DTree, h: nat, m: Content)
    requires Sound(s, t, {}, h, m) && u.file == s.file && InUse(u) == InUse(s)
    ensures Sound(u, t, {}, h, m) && HEAP_START <= |s.file| && Word(s.file, HDR_ROOTPTR_POS) == t.off
  {
    OpenSound(s, t, {}, h, m);
    OpenSound(u, t, {}, h, m);
  }

  lemma NewTree(d: Disk, s: State, root: NodeRec, off: nat)
    requires NodeBytes(d, off, root) && root == EmptyRec().(isleaf := 1) && off >= 8 &&
      InUse(s) == map[off - 8 := NODE_EXP]
    requires SameBytes(d, s.file, InUse(s)) && HEAP_START <= |s.file| && Word(s.file, HDR_ROOTPTR_POS) == off
    ensures Sound(s, Node(off, [], [], []), {}, 0, map[])
  {
    var t := Node(off, [], [], []);
    assert Matches(root, t);
    NodeAgrees(d, s.file, t, InUse(s));
    assert Kept(s, t, {}) && Means(t, 0, map[]);
    OpenSound(s, t, {}, 0, map[]);
  }

  /** The node at an offset, or none when its two marks differ. */
  method ReadNode(d: Disk, off: nat) returns (r: Option<NodeRec>)
    requires off + NODE_SIZE <= |d|
    ensures r.Some? ==> NodeBytes(d, off, r.value)
    ensures r.None? ==> forall n :: !NodeBytes(d, off, n)
  {
    var b := d[off..off + NODE_SIZE];
    if b[..4] != b[END_POS..] {
      return None;
    }
    Pow256Values();
    var keys: seq<Key>, values: seq<nat>, children: seq<nat> := [], [], [];
    var j := 0;
    while j < MAX_KEYS
      invariant 0 <= j <= MAX_KEYS && |keys| == j
      invariant forall i :: 0 <= i < j ==> keys[i] == KeyAt(b, i)
    {
      keys := keys + [KeyAt(b, j)];
      j := j + 1;
    }
    j := 0;
    while j < MAX_KEYS
      invariant 0 <= j <= MAX_KEYS && |values| == j
      invariant forall i :: 0 <= i < j ==> values[i] == Word(b, VALS_POS + WORD * i)
    {
      values := values + [Word(b, VALS_POS + WORD * j)];
      j := j + 1;
    }
    j := 0;
    while j <= MAX_KEYS
      invariant 0 <= j <= MAX_KEYS + 1 && |children| == j
      invariant forall i :: 0 <= i < j ==> children[i] == Word(b, KIDS_POS + WORD * i)
    {
      children := children + [Word(b, KIDS_POS + WORD * j)];
      j := j + 1;
    }
    var n := NodeRec(FromBE(b[4..8]), FromBE(b[8..12]), keys, values, children);
    assert Reads(b, n);
    return Some(n);
  }

  /** Reads a node of a tree on disk. */
  method LoadNode(d: Disk, off: nat, ghost t: DTree) returns (n: NodeRec)
    requires NodeOnDisk(d, t) && off == t.off
    ensures NodeBytes(d, off, n) && Matches(n, t) && Whole(n)
  {
    ghost var m :| NodeBytes(d, t.off, m) && Matches(m, t);
    var r := ReadNode(d, off);
    n := r.value;
    ReadsUnique(d[off..off + NODE_SIZE], m, n);
    ReadsWhole(d[off..off + NODE_SIZE], n);
  }

  /** The first key of a node that is not less than the one sought. */
  method Scan(n: NodeRec, key: Key) returns (j: nat, found: bool)
    requires n.numkeys <= |n.keys|
    requires forall a, b :: 0 <= a < b < n.numkeys ==> KeyNum(n.keys[a]) < KeyNum(n.keys[b])
    ensures found ==> j < n.numkeys && n.keys[j] == key
    ensures !found ==> IsRank(n.keys[..n.numkeys], KeyNum(key), j)
  {
    var cmp := 1;
    j := 0;
    while j < n.numkeys
      invariant 0 <= j <= n.numkeys
      invariant forall i :: 0 <= i < j ==> KeyNum(n.keys[i]) < KeyNum(key)
    {
      cmp := CompareKeys(key, n.keys[j]);
      if cmp <= 0 { break; }
      j := j + 1;
    }
    found := j < n.numkeys && cmp == 0;
  }

  /** The search from a root pointer down: the offset of the value stored for a key. It is
      right on every disk that denotes a map, whatever state the allocator is in. */
  method FindOn(d: Disk, root: nat, key: Key, ghost m: Content, ghost t: DTree, ghost h: nat) returns (r: Option<nat>)
    requires DenotesBy(d, m, t, h) && root == Word(d, HDR_ROOTPTR_POS)
    ensures r.Some? <==> key in m
    ensures r.Some? ==> ValOnDisk(d, Val(r.value, m[key]))
  {
    var nptr := root;
    ghost var p: seq<nat> := [];
    ReachedRoot(t, h, key);
    while true
      invariant Reached(t, h, p, KeyNum(key)) && nptr == Sub(t, p).off && |p| <= h
      decreases h - |p|
    {
      ghost var u := Sub(t, p);
      SubOnDisk(t, p, d);
      SubTied(t, p);
      ReachedNode(t, h, p, KeyNum(key));
      var n := LoadNode(d, nptr, u);
      assert forall a :: 0 <= a < n.numkeys ==> n.keys[a] == u.keys[a];
      var j, found := Scan(n, key);
      if found {
        FoundEntry(t, h, m, p, j);
        assert ValOnDisk(d, u.vals[j]);
        return Some(n.values[j]);
      }
      assert n.keys[..n.numkeys] == u.keys;
      if n.isleaf != 0 || n.children[j] == 0 {
        MissingEntry(t, h, m, p, key, j);
        return None;
      }
      ReachedKid(t, h, p, KeyNum(key), j);
      nptr := n.children[j];
      p := p + [j];
      ReachedNode(t, h, p, KeyNum(key));
    }
  }

  class BTree {
    const store: Store
    var rootptr: nat
    var mark: u32

    /** The tree in the file, its height, and the map it stands for. */
    ghost var tree: DTree
    ghost var height: nat
    ghost var content: Content

    /** The tree is rooted in the file; `x` are chunks in use that are not its own. */
    ghost predicate Linked(x: set<nat>)
      reads this, store
    {
      store.Valid() && Sound(store.S(), tree, x, height, content) && rootptr == tree.off
    }

    ghost predicate Valid()
      reads this, store
    {
      Linked({})
    }

    /** A new file with an empty tree. */
    constructor (mark0: u32)
      ensures Valid() && content == map[] && fresh(this) && fresh(store)
    {
      store := new Store();
      rootptr, mark := 0, mark0;
      tree, height, content := Node(0, [], [], []), 0, map[];
      new;
      store.Refill(1);
      MakeRoot();
    }

    /** Opens a file, which may be what a crash has left: what it denotes is all in the file. */
    constructor Open(d: Disk, mark0: u32, ghost m: Content)
      requires Recovers(d, m)
      ensures Valid() && store.file == d && content == m && fresh(this) && fresh(store)
    {
      ghost var s, t, h :| RecoversBy(d, m, s, t, h);
      store := new Store.Open(d, s.meta);
      Reopened(s, s, t, h, m);
      rootptr, mark, tree, height, content := Word(d, HDR_ROOTPTR_POS), mark0, t, h, m;
      new;
      Reopened(s, store.S(), t, h, m);
    }

    /** The first node, an empty leaf. */
    method MakeRoot()
      requires store.Valid() && InUse(store.S()) == map[] && store.budget > 0
      modifies this, store
      ensures Valid() && content == map[]
    {
      hide InUse, Sound, LiveOf, Layout, SoundParts;
      NodeClass();
      var off := store.Alloc(NODE_SIZE, NODE_EXP);
      var root := EmptyRec().(isleaf := 1);
      WriteNode(root, off);
      ghost var s := store.S();
      ChunkKnown(s, off - 8);
      store.PWriteRoot(off);
      rootptr := off;
      tree, height, content := Node(off, [], [], []), 0, map[];
      NewTree(s.file, store.S(), root, off);
    }

    // ----------------------------------------------------------------
    // Nodes in memory and on disk
    // ----------------------------------------------------------------

    method WriteNode(n: NodeRec, off: nat)
      requires store.Valid() && Whole(n) && NodeHoused(off, InUse(store.S()))
      modifies this`mark, store`file, store`log
      ensures store.Valid() && InUse(store.S()) == InUse(old(store.S()))
      ensures Moves(old(store.S()), store.S(), Without(InUse(old(store.S())), off - 8))
      ensures NodeBytes(store.file, off, n)
    {
      mark := (mark as int + 1) % 0x1_0000_0000;
      var b := EncodeNode(n, mark);
      NodeRoundTrip(n, mark);
      Pow2Values();
      store.WritePayload(off - 8, off, b);
      PatchAt(old(store.file), off, b);
    }

    /** The last key that is not greater than the one sought. */
    method Seek(n: NodeRec, key: Key) returns (i: int, found: bool)
      requires n.numkeys <= |n.keys|
      requires forall a, b :: 0 <= a < b < n.numkeys ==> KeyNum(n.keys[a]) < KeyNum(n.keys[b])
      ensures found ==> 0 <= i < n.numkeys && n.keys[i] == key
      ensures !found ==> -1 <= i < n.numkeys && IsRank(n.keys[..n.numkeys], KeyNum(key), i + 1)
    {
      i, found := n.numkeys - 1, false;
      while true
        invariant -1 <= i < n.numkeys && !found
        invariant forall j :: i < j < n.numkeys ==> KeyNum(key) < KeyNum(n.keys[j])
        decreases i
      {
        if i < 0 { break; }
        var cmp := CompareKeys(key, n.keys[i]);
        if cmp == 0 {
          found := true;
          break;
        }
        if cmp >= 0 { break; }
        i := i - 1;
      }
    }

    // ----------------------------------------------------------------
    // Lookup
    // ----------------------------------------------------------------

    /** The offset of the value stored for a key. */
    method Find(key: Key) returns (r: Option<nat>)
      requires Valid()
      ensures r.Some? <==> key in content
      ensures r.Some? ==> ValOnDisk(store.file, Val(r.value, content[key]))
    {
      OpenSound(store.S(), tree, {}, height, content);
      HousedTied(tree, InUse(store.S()));
      r := FindOn(store.file, rootptr, key, content, tree, height);
    }

    // ----------------------------------------------------------------
    // Steps of an insertion
    // ----------------------------------------------------------------

    /** A chunk for a node. */
    method AllocNode(ghost x: set<nat>) returns (off: nat)
      requires Linked(x) && store.budget > 0
      modifies store
      ensures off >= 8 && Linked(x + {off - 8}) && Quiet(old(store.log), store.log, content)
      ensures off - 8 !in InUse(old(store.S())) && InUse(store.S()) == InUse(old(store.S()))[off - 8 := NODE_EXP]
      ensures store.budget == old(store.budget) - 1 && Moves(old(store.S()), store.S(), InUse(old(store.S())))
    {
      ghost var s := store.S();
      NodeClass();
      off := store.Alloc(NODE_SIZE, NODE_EXP);
      SoundAlloc(s, store.S(), tree, x, off - 8, NODE_EXP, height, content);
    }

    /** Fills the chunk of a node that is not linked yet. */
    method WriteSpare(n: NodeRec, off: nat, ghost x: set<nat>)
      requires Linked(x) && Whole(n) && NodeHoused(off, InUse(store.S())) && off - 8 in x
      modifies this`mark, store`file, store`log
      ensures Linked(x) && Quiet(old(store.log), store.log, content) && InUse(store.S()) == InUse(old(store.S()))
      ensures Moves(old(store.S()), store.S(), Without(InUse(old(store.S())), off - 8)) && NodeBytes(store.file, off, n)
    {
      ghost var s := store.S();
      WriteNode(n, off);
      SoundWrite(s, store.S(), tree, x, off - 8, height, content);
    }

    /** Gives back a chunk that the tree does not use. */
    method FreeSpare(off: nat, ghost e: nat, ghost x: set<nat>)
      requires Linked(x) && off >= 8 && off - 8 in x && off - 8 in InUse(store.S()) && InUse(store.S())[off - 8] == e
      requires e <= 19 && store.budget > 0
      modifies store
      ensures Linked(x - {off - 8}) && Quiet(old(store.log), store.log, content)
      ensures InUse(store.S()) == Without(InUse(old(store.S())), off - 8)
      ensures old(store.budget) - 1 <= store.budget
    {
      ghost var s := store.S();
      store.Free(off, e);
      SoundFree(s, store.S(), tree, x, off - 8, height, content);
    }

    /** Writes a value into a chunk of its own. */
    method StoreValue(val: seq<byte>, ghost e: nat) returns (off: nat)
      requires Valid() && store.budget > 0 && IsClass(|val|, e) && e <= 19
      modifies store
      ensures off >= 8 && Linked({off - 8}) && Quiet(old(store.log), store.log, content)
      ensures off - 8 !in InUse(old(store.S())) && off - 8 in InUse(store.S())
      ensures ValOnDisk(store.file, Val(off, val)) && ValHoused(Val(off, val), InUse(store.S()))
      ensures store.budget == old(store.budget) - 1
    {
      hide Sound, SoundParts;
      ghost var s := store.S();
      ClassFits(|val|, e);
      off := store.Alloc(|val|, e);
      ghost var t := store.S();
      assert {} + {off - 8} == {off - 8};
      SoundAlloc(s, t, tree, {}, off - 8, e, height, content);
      FillValue(val, off, e);
      QuietChain(s.log, t.log, store.log, content);
    }

    method FillValue(val: seq<byte>, off: nat, ghost e: nat)
      requires off >= 8 && Linked({off - 8}) && off - 8 in InUse(store.S()) && InUse(store.S())[off - 8] == e
      requires IsClass(|val|, e) && e <= 19 && off <= |store.file| && Word(store.file, off - 8) == |val|
      modifies store`file, store`log
      ensures Linked({off - 8}) && Quiet(old(store.log), store.log, content)
      ensures InUse(store.S()) == InUse(old(store.S()))
      ensures ValOnDisk(store.file, Val(off, val)) && ValHoused(Val(off, val), InUse(store.S()))
    {
      ghost var t := store.S();
      ClassFits(|val|, e);
      store.WritePayload(off - 8, off, val);
      PatchAt(t.file, off, val);
      WordUntouched(t.file, off, val, off - 8);
      SoundWrite(t, store.S(), tree, {off - 8}, off - 8, height, content);
    }

    /** Overwrites the pointer to the node at path `p`: the tree now has `r` there. */
    method Swing(off: nat, pointedby: nat, ghost p: seq<nat>, ghost r: DTree, ghost x: set<nat>, ghost y: set<nat>,
        ghost h: nat, ghost m: Content)
      requires Linked(x) && HasPath(tree, p) && pointedby == CellOf(tree, p) && off == r.off
      requires OnDisk(store.file, r) && Housed(r, InUse(store.S())) && Trade(Sub(tree, p), r, InUse(store.S()), x, y)
      requires Means(Replace(tree, p, r), h, m)
      modifies this`rootptr, this`tree, this`height, this`content, store`file, store`log
      ensures Linked(y) && tree == Replace(old(tree), p, r) && height == h && content == m
      ensures InUse(store.S()) == InUse(old(store.S())) && Quiet(old(store.log), store.log, m)
    {
      hide Uses;
      ghost var s := store.S();
      SoundSwing(s, tree, p, r, x, y, pointedby, height, content, h, m);
      store.PWriteWord(off, pointedby);
      if pointedby == HDR_ROOTPTR_POS {
        rootptr := off;
      }
      assert store.S() == Swung(s, pointedby, off);
      tree, height, content := Replace(tree, p, r), h, m;
    }

    // ----------------------------------------------------------------
    // A key that is there already
    // ----------------------------------------------------------------

    /** Overwrites value pointer i of the node at path `p`. */
    method SwingValue(nodeptr: nat, i: nat, off: nat, ghost p: seq<nat>, ghost v: Val)
      requires off >= 8 && Linked({off - 8}) && HasPath(tree, p) && nodeptr == Sub(tree, p).off && off == v.off
      requires i < |Sub(tree, p).keys| == |Sub(tree, p).vals| <= MAX_KEYS
      requires ValOnDisk(store.file, v) && ValHoused(v, InUse(store.S()))
      modifies this`tree, this`content, store`file, store`log
      ensures Sub(old(tree), p).vals[i].off >= 8 && Linked({Sub(old(tree), p).vals[i].off - 8})
      ensures content == old(content)[Sub(old(tree), p).keys[i] := v.bytes]
      ensures InUse(store.S()) == InUse(old(store.S())) && Quiet(old(store.log), store.log, content)
    {
      hide SoundParts, One, Replace, HasPath, Sound, Shape, HoldsAll, Quiet, IsClass, FromBE, ValHoused, LiveOf,
        Holds, Layout, Means;
      ghost var s, n := store.S(), Sub(tree, p);
      SoundNode(s, tree, {off - 8}, height, content, p);
      ValueTrade(n, i, v, InUse(s));
      ReplaceMeans(tree, height, content, p, i, v);
      ghost var y, m := {n.vals[i].off - 8}, content[n.keys[i] := v.bytes];
      SoundSwingVal(s, tree, p, i, v, {off - 8}, y, nodeptr + VALS_POS + WORD * i, height, content, m);
      store.PWriteWord(off, nodeptr + VALS_POS + WORD * i);
      assert store.S() == Swung(s, nodeptr + VALS_POS + WORD * i, off);
      RootStays(tree, p, WithVal(n, i, v));
      tree, content := Replace(tree, p, WithVal(n, i, v)), m;
    }

    /** Stores a value in place of the one of key i of the node at path `p`. */
    method ReplaceValue(nodeptr: nat, i: nat, oldvaloff: nat, val: seq<byte>, ghost e: nat, ghost p: seq<nat>)
      requires Valid() && store.budget >= 2 && IsClass(|val|, e) && e <= 19
      requires HasPath(tree, p) && nodeptr == Sub(tree, p).off
      requires i < |Sub(tree, p).keys| == |Sub(tree, p).vals| <= MAX_KEYS && oldvaloff == Sub(tree, p).vals[i].off
      modifies this`tree, this`content, store
      ensures Valid() && content == old(content)[Sub(old(tree), p).keys[i] := val]
      ensures Switch(old(store.log), store.log, old(content), content)
    {
      hide InUse;
      ghost var log0, m0 := store.log, content;
      var newvaloff := StoreValue(val, e);
      ghost var log1 := store.log;
      ghost var o := Sub(tree, p).vals[i];
      SoundNode(store.S(), tree, {newvaloff - 8}, height, content, p);
      assert ValHoused(o, InUse(store.S()));
      SwingValue(nodeptr, i, newvaloff, p, Val(newvaloff, val));
      ghost var log2 := store.log;
      FreeSpare(oldvaloff, InUse(store.S())[oldvaloff - 8], {oldvaloff - 8});
      assert {oldvaloff - 8} - {oldvaloff - 8} == {};
      QuietChain(log1, log2, store.log, content);
      SwitchHere(log0, log1, store.log, m0, content);
    }

    // ----------------------------------------------------------------
    // A new key in a leaf
    // ----------------------------------------------------------------

    /** The leaf's new version, with its new value, not linked yet. */
    method WriteLeaf(n: NodeRec, i: nat, key: Key, val: seq<byte>, ghost e: nat, ghost p: seq<nat>, ghost t: DTree)
      returns (newoff: nat, ghost v: Val)
      requires Valid() && store.budget >= 2 && IsClass(|val|, e) && e <= 19
      requires HasPath(tree, p) && t == Sub(tree, p) && Matches(n, t) && Whole(n)
      requires t.kids == [] && i <= |t.keys| == |t.vals| < MAX_KEYS
      modifies this`mark, store
      ensures v.bytes == val && v.off >= 8 && newoff >= 8 && v.off != newoff && Linked({v.off - 8, newoff - 8})
      ensures NodeHoused(newoff, InUse(store.S())) && ValHoused(v, InUse(store.S()))
      ensures OnDisk(store.file, WithEntry(t, newoff, i, key, v)) &&
        Housed(WithEntry(t, newoff, i, key, v), InUse(store.S()))
      ensures store.budget >= old(store.budget) - 2 && Quiet(old(store.log), store.log, content)
    {
      hide ValOnDisk, LiveOf;
      ghost var log0 := store.log;
      var valoff := StoreValue(val, e);
      v := Val(valoff, val);
      ghost var s1 := store.S();
      newoff := AllocNode({valoff - 8});
      ghost var s2 := store.S();
      ValMoves(s1, s2, v, InUse(s1));
      assert {valoff - 8} + {newoff - 8} == {valoff - 8, newoff - 8};
      ChunkKnown(s1, valoff - 8);
      FillLeaf(n, newoff, i, key, valoff, v, p, t);
      QuietChain(log0, s1.log, s2.log, content);
      QuietChain(log0, s2.log, store.log, content);
    }

    method FillLeaf(n: NodeRec, newoff: nat, i: nat, key: Key, valoff: nat, ghost v: Val, ghost p: seq<nat>,
          ghost t: DTree)
      requires v.off == valoff >= 8 && newoff >= 8 && v.off != newoff && Linked({v.off - 8, newoff - 8})
      requires NodeHoused(newoff, InUse(store.S())) && ValHoused(v, InUse(store.S())) && ValOnDisk(store.file, v) &&
        Fits(v.off)
      requires HasPath(tree, p) && t == Sub(tree, p) && Matches(n, t) && Whole(n)
      requires t.kids == [] && i <= |t.keys| == |t.vals| < MAX_KEYS
      modifies this`mark, store`file, store`log
      ensures Linked({v.off - 8, newoff - 8}) && Quiet(old(store.log), store.log, content)
      ensures InUse(store.S()) == InUse(old(store.S()))
      ensures OnDisk(store.file, WithEntry(t, newoff, i, key, v)) &&
        Housed(WithEntry(t, newoff, i, key, v), InUse(store.S()))
    {
      ghost var s, x := store.S(), {v.off - 8, newoff - 8};
      InsertMatches(n, t, i, key, v, newoff);
      WriteSpare(InsertRec(n, i, key, valoff), newoff, x);
      ValMoves(s, store.S(), v, Without(InUse(s), newoff - 8));
      SoundNode(store.S(), tree, x, height, content, p);
      LeafOnDisk(store.file, t, newoff, i, key, v, InsertRec(n, i, key, v.off));
      LeafHoused(t, newoff, i, key, v, InUse(store.S()));
    }

    /** Links the leaf's new version and gives the old one back. */
    method LinkLeaf(newoff: nat, nodeptr: nat, pointedby: nat, ghost i: nat, ghost key: Key, ghost v: Val,
        ghost p: seq<nat>, ghost t: DTree)
      requires v.off >= 8 && newoff >= 8 && v.off != newoff && Linked({v.off - 8, newoff - 8}) && store.budget > 0
      requires Reached(tree, height, p, KeyNum(key)) && t == Sub(tree, p) && nodeptr == t.off &&
        pointedby == CellOf(tree, p)
      requires t.kids == [] && |t.vals| == |t.keys| < MAX_KEYS && IsRank(t.keys, KeyNum(key), i)
      requires NodeHoused(newoff, InUse(store.S())) && ValHoused(v, InUse(store.S()))
      requires OnDisk(store.file, WithEntry(t, newoff, i, key, v)) &&
        Housed(WithEntry(t, newoff, i, key, v), InUse(store.S()))
      modifies this`rootptr, this`tree, this`height, this`content, store
      ensures Valid() && content == old(content)[key := v.bytes] && height == old(height)
      ensures Quiet(old(store.log), store.log, content)
    {
      hide Fits, Word, ListShape, ValHoused, FromBE, IsClass, WellFormed, Denotes, Pow256, KidFormed, InUse, Range,
        Housed;
      ghost var log1, x := store.log, {v.off - 8, newoff - 8};
      SoundNode(store.S(), tree, x, height, content, p);
      LeafTrade(t, newoff, i, key, v, InUse(store.S()));
      InsertMeans(tree, height, content, p, key, newoff, i, v);
      Swing(newoff, pointedby, p, WithEntry(t, newoff, i, key, v), x, {nodeptr - 8}, height, content[key := v.bytes]);
      ghost var log2 := store.log;
      FreeSpare(nodeptr, NODE_EXP, {nodeptr - 8});
      assert {nodeptr - 8} - {nodeptr - 8} == {};
      QuietChain(log1, log2, store.log, content);
    }

    /** Inserts a key into the leaf at path `p`, which has room. */
    method InsertLeaf(n: NodeRec, nodeptr: nat, pointedby: nat, i: nat, key: Key, val: seq<byte>, ghost e: nat,
          ghost p: seq<nat>)
      requires Valid() && store.budget >= 3 && IsClass(|val|, e) && e <= 19
      requires Reached(tree, height, p, KeyNum(key)) && nodeptr == Sub(tree, p).off && pointedby == CellOf(tree, p)
      requires Matches(n, Sub(tree, p)) && Whole(n) && Sub(tree, p).kids == [] && |Sub(tree, p).keys| < MAX_KEYS
      requires IsRank(Sub(tree, p).keys, KeyNum(key), i)
      modifies this, store
      ensures Valid() && key !in old(content) && content == old(content)[key := val] && height == old(height)
      ensures Switch(old(store.log), store.log, old(content), content)
    {
      ghost var log0, m0, t := store.log, content, Sub(tree, p);
      SoundNode(store.S(), tree, {}, height, content, p);
      ReachedNode(tree, height, p, KeyNum(key));
      MissingEntry(tree, height, content, p, key, i);
      var newoff;
      ghost var v;
      newoff, v := WriteLeaf(n, i, key, val, e, p, t);
      ghost var log1 := store.log;
      LinkLeaf(newoff, nodeptr, pointedby, i, key, v, p, t);
      SwitchHere(log0, log1, store.log, m0, content);
    }

    // ----------------------------------------------------------------
    // Splitting a full node
    // ----------------------------------------------------------------

    /** Chunks for the two halves of a node. */
    method AllocHalves(ghost x: set<nat>) returns (loff: nat, roff: nat)
      requires Linked(x) && store.budget >= 2
      modifies store
      ensures loff >= 8 && roff >= 8 && loff != roff && Linked(x + {loff - 8, roff - 8})
      ensures Quiet(old(store.log), store.log, content) && store.budget == old(store.budget) - 2
      ensures loff - 8 !in InUse(old(store.S())) && roff - 8 !in InUse(old(store.S()))
      ensures InUse(store.S()) == InUse(old(store.S()))[loff - 8 := NODE_EXP][roff - 8 := NODE_EXP]
    {
      ghost var log0 := store.log;
      loff := AllocNode(x);
      ghost var log1 := store.log;
      roff := AllocNode(x + {loff - 8});
      assert x + {loff - 8} + {roff - 8} == x + {loff - 8, roff - 8};
      QuietChain(log0, log1, store.log, content);
    }

    /** Writes the two halves of a node. */
    method WriteHalves(child: NodeRec, loff: nat, roff: nat, ghost x: set<nat>)
      requires Linked(x) && Whole(child) && Whole(LeftRec(child)) && Whole(RightRec(child))
      requires loff >= 8 && roff >= 8 && loff != roff && loff - 8 in x && roff - 8 in x
      requires NodeHoused(loff, InUse(store.S())) && NodeHoused(roff, InUse(store.S()))
      modifies this`mark, store`file, store`log
      ensures Linked(x) && Quiet(old(store.log), store.log, content) && InUse(store.S()) == InUse(old(store.S()))
      ensures NodeBytes(store.file, loff, LeftRec(child)) && NodeBytes(store.file, roff, RightRec(child))
    {
      ghost var log0 := store.log;
      WriteSpare(LeftRec(child), loff, x);
      ghost var s := store.S();
      WriteSpare(RightRec(child), roff, x);
      NodeMoves(s, store.S(), loff, LeftRec(child), Without(InUse(s), roff - 8));
      QuietChain(log0, s.log, store.log, content);
    }

    /** Both halves, in chunks of their own. */
    method MakeHalves(child: NodeRec, ghost t: DTree, ghost x: set<nat>) returns (loff: nat, roff: nat)
      requires Linked(x) && store.budget >= 2 && Matches(child, t) && Whole(child) && FullNode(t)
      modifies this`mark, store
      ensures loff >= 8 && roff >= 8 && loff != roff && Fits(loff) && Fits(roff) && Linked(x + {loff - 8, roff - 8})
      ensures Quiet(old(store.log), store.log, content) && store.budget == old(store.budget) - 2
      ensures loff - 8 !in InUse(old(store.S())) && roff - 8 !in InUse(old(store.S()))
      ensures InUse(store.S()) == InUse(old(store.S()))[loff - 8 := NODE_EXP][roff - 8 := NODE_EXP]
      ensures NodeBytes(store.file, loff, LeftRec(child)) && NodeBytes(store.file, roff, RightRec(child))
    {
      ghost var log0 := store.log;
      loff, roff := AllocHalves(x);
      ghost var log1 := store.log;
      LeftMatches(child, t, loff);
      RightMatches(child, t, roff);
      ChunkKnown(store.S(), loff - 8);
      ChunkKnown(store.S(), roff - 8);
      WriteHalves(child, loff, roff, x + {loff - 8, roff - 8});
      QuietChain(log0, log1, store.log, content);
    }

    /** Writes the new parent into a chunk of its own; the halves stay as they are. */
    method WriteParent(parent: NodeRec, loff: nat, roff: nat, ghost x: set<nat>, ghost l: NodeRec, ghost r: NodeRec)
      returns (poff: nat)
      requires Linked(x) && Whole(parent) && store.budget > 0
      requires NodeHoused(loff, InUse(store.S())) && NodeHoused(roff, InUse(store.S()))
      requires NodeBytes(store.file, loff, l) && NodeBytes(store.file, roff, r)
      modifies this`mark, store
      ensures poff >= 8 && poff != loff && poff != roff && Linked(x + {poff - 8})
      ensures Quiet(old(store.log), store.log, content) && store.budget == old(store.budget) - 1
      ensures poff - 8 !in InUse(old(store.S())) && InUse(store.S()) == InUse(old(store.S()))[poff - 8 := NODE_EXP]
      ensures NodeBytes(store.file, loff, l) && NodeBytes(store.file, roff, r) && NodeBytes(store.file, poff, parent)
    {
      hide LiveOf;
      ghost var s := store.S();
      poff := AllocNode(x);
      ghost var t := store.S();
      NodeMoves(s, t, loff, l, InUse(s));
      NodeMoves(s, t, roff, r, InUse(s));
      WriteSpare(parent, poff, x + {poff - 8});
      NodeMoves(t, store.S(), loff, l, Without(InUse(t), poff - 8));
      NodeMoves(t, store.S(), roff, r, Without(InUse(t), poff - 8));
      QuietChain(s.log, t.log, store.log, content);
    }

    /** Writes both halves and the new parent, none of them linked yet. */
    method WriteSplit(child: NodeRec, parent: NodeRec, i: nat, ghost p: seq<nat>, ghost par: DTree, ghost x: set<nat>)
      returns (loff: nat, roff: nat, poff: nat)
      requires Linked(x) && store.budget >= 3 && Parent(tree, p, par, i, x)
      requires Matches(child, par.kids[i]) && Whole(child) && MatchesBut(parent, par, i) && Whole(parent)
      requires Fits(par.kids[i].vals[HALF].off)
      modifies this`mark, store
      ensures loff >= 8 && roff >= 8 && poff >= 8 && loff != roff && poff != loff && poff != roff
      ensures Linked(x + {loff - 8, roff - 8, poff - 8}) && store.budget == old(store.budget) - 3
      ensures InUse(store.S()) ==
        InUse(old(store.S()))[loff - 8 := NODE_EXP][roff - 8 := NODE_EXP][poff - 8 := NODE_EXP]
      ensures {loff - 8, roff - 8, poff - 8} !! InUse(old(store.S())).Keys
      ensures Quiet(old(store.log), store.log, content) && SplitWritten(store.file, par, i, loff, roff, poff)
    {
      hide LiveOf, SplitTree, SplitWritten;
      ghost var log0, t := store.log, par.kids[i];
      loff, roff := MakeHalves(child, t, x);
      ghost var log1, x1 := store.log, x + {loff - 8, roff - 8};
      MedianMatches(child, t);
      ParentMatches(parent, par, i, loff, roff, 0);
      poff := WriteParent(ParentRec(parent, i, child.keys[HALF], child.values[HALF], loff, roff), loff, roff, x1,
        LeftRec(child), RightRec(child));
      assert x1 + {poff - 8} == x + {loff - 8, roff - 8, poff - 8};
      QuietChain(log0, log1, store.log, content);
      SplitShown(store.file, child, parent, par, i, loff, roff, poff);
    }

    /** Links a written split at path `p`. */
    method LinkSplit(pointedby: nat, loff: nat, roff: nat, poff: nat, ghost i: nat, ghost p: seq<nat>,
          ghost par: DTree, ghost x: set<nat>)
      requires Parent(tree, p, par, i, x) && pointedby == CellOf(tree, p) && NodeHoused(par.off, InUse(store.S()))
      requires loff >= 8 && roff >= 8 && poff >= 8 && loff != roff && poff != loff && poff != roff
      requires Linked(x + {loff - 8, roff - 8, poff - 8}) && SplitWritten(store.file, par, i, loff, roff, poff)
      requires NodeHoused(loff, InUse(store.S())) && NodeHoused(roff, InUse(store.S())) &&
        NodeHoused(poff, InUse(store.S()))
      requires x !! {loff - 8, roff - 8, poff - 8} && par.off !in {loff, roff, poff}
      modifies this`rootptr, this`tree, this`height, this`content, store`file, store`log
      ensures par.kids[i].off >= 8 && Linked(Leftover(par, i)) &&
        tree == Replace(old(tree), p, SplitTree(par, i, loff, roff, poff))
      ensures content == old(content) && height == NewHeight(old(height), x)
      ensures InUse(store.S()) == InUse(old(store.S())) && Quiet(old(store.log), store.log, content)
      ensures NodeHoused(par.kids[i].off, InUse(store.S())) && par.kids[i].off != par.off
    {
      ghost var s, z, q := store.S(), x + {loff - 8, roff - 8, poff - 8}, InUse(store.S());
      SoundNode(s, tree, z, height, content, []);
      ParentFacts(s, tree, p, par, i, x, z, height, content);
      ParentApart(s, tree, p, par, i, x, z, height, content);
      SplitOnDisk(store.file, par, i, loff, roff, poff);
      SplitHoused(par, q, i, loff, roff, poff);
      SplitTrade(tree, p, par, i, x, q, loff, roff, poff);
      ParentMeans(tree, height, content, p, par, i, x, loff, roff, poff);
      Swing(poff, pointedby, p, SplitTree(par, i, loff, roff, poff), z, Leftover(par, i), NewHeight(height, x),
        content);
    }

    /** Gives back the two nodes that a split has replaced. */
    method FreeOld(parentoff: nat, childoff: nat, ghost y: set<nat>)
      requires parentoff >= 8 && childoff >= 8 && parentoff != childoff && Linked(y) &&
        y == {parentoff - 8, childoff - 8}
      requires NodeHoused(parentoff, InUse(store.S())) && NodeHoused(childoff, InUse(store.S())) && store.budget >= 2
      modifies store
      ensures Valid() && Quiet(old(store.log), store.log, content) && store.budget >= old(store.budget) - 2
    {
      ghost var log0 := store.log;
      FreeSpare(parentoff, NODE_EXP, y);
      assert y - {parentoff - 8} == {childoff - 8};
      ghost var log1 := store.log;
      FreeSpare(childoff, NODE_EXP, {childoff - 8});
      assert {childoff - 8} - {childoff - 8} == {};
      QuietChain(log0, log1, store.log, content);
    }

    /** Writes a split and links it. */
    method PlaceSplit(child: NodeRec, parent: NodeRec, pointedby: nat, i: nat, ghost p: seq<nat>, ghost par: DTree,
          ghost x: set<nat>)
      returns (newparent: nat, ghost l: nat, ghost r: nat)
      requires Linked(x) && store.budget >= 5 && Parent(tree, p, par, i, x) && pointedby == CellOf(tree, p)
      requires Matches(child, par.kids[i]) && Whole(child) && MatchesBut(parent, par, i) && Whole(parent)
      requires NodeHoused(par.off, InUse(store.S())) && Fits(par.kids[i].vals[HALF].off)
      requires forall c :: c in x ==> c in InUse(store.S())
      modifies this, store
      ensures par.kids[i].off >= 8 && Linked(Leftover(par, i)) &&
        tree == Replace(old(tree), p, SplitTree(par, i, l, r, newparent))
      ensures content == old(content) && height == NewHeight(old(height), x)
      ensures Quiet(old(store.log), store.log, content) && store.budget >= old(store.budget) - 3
      ensures NodeHoused(par.off, InUse(store.S())) && NodeHoused(par.kids[i].off, InUse(store.S())) &&
        par.kids[i].off != par.off
    {
      ghost var log0 := store.log;
      var loff, roff, poff := WriteSplit(child, parent, i, p, par, x);
      ghost var log1 := store.log;
      LinkSplit(pointedby, loff, roff, poff, i, p, par, x);
      newparent, l, r := poff, loff, roff;
      QuietChain(log0, log1, store.log, content);
    }

    /** Splits full kid i of a node that is not full. The map stays as it is, in
        every state of the file on the way. */
    method SplitChild(pointedby: nat, parentoff: nat, i: nat, childoff: nat,
        ghost p: seq<nat>, ghost par: DTree, ghost x: set<nat>, ghost n: NodeRec)
      returns (newparent: nat, ghost l: nat, ghost r: nat)
      requires Linked(x) && store.budget >= 5 && Parent(tree, p, par, i, x)
      requires pointedby == CellOf(tree, p) && parentoff == par.off && childoff == par.kids[i].off
      requires NodeHoused(par.off, InUse(store.S())) && NodeBytes(store.file, par.off, n) && MatchesBut(n, par, i)
      modifies this, store
      ensures Valid() && tree == Replace(old(tree), p, SplitTree(par, i, l, r, newparent))
      ensures content == old(content) && height == NewHeight(old(height), x)
      ensures Quiet(old(store.log), store.log, content) && store.budget >= old(store.budget) - 5
    {
      hide Linked;
      ghost var log0 := store.log;
      var child, parent := LoadBoth(parentoff, i, childoff, p, par, x, n);
      newparent, l, r := PlaceSplit(child, parent, pointedby, i, p, par, x);
      ghost var log1 := store.log;
      FreeOld(parentoff, childoff, Leftover(par, i));
      QuietChain(log0, log1, store.log, content);
    }

    method LoadBoth(parentoff: nat, i: nat, childoff: nat, ghost p: seq<nat>, ghost par: DTree, ghost x: set<nat>,
          ghost n: NodeRec)
      returns (child: NodeRec, parent: NodeRec)
      requires Linked(x) && Parent(tree, p, par, i, x) && parentoff == par.off && childoff == par.kids[i].off
      requires NodeBytes(store.file, par.off, n) && MatchesBut(n, par, i)
      ensures Matches(child, par.kids[i]) && Whole(child) && MatchesBut(parent, par, i) && Whole(parent)
      ensures Fits(par.kids[i].vals[HALF].off)
    {
      MedianFits(store.S(), tree, p, par, i, x, height, content);
      parent := LoadParent(parentoff, n);
      child := LoadNode(store.file, childoff, par.kids[i]);
    }

    /** Reads back a node known to be there. */
    method LoadParent(off: nat, ghost m: NodeRec) returns (n: NodeRec)
      requires NodeBytes(store.file, off, m)
      ensures n == m && Whole(n)
    {
      var r := ReadNode(store.file, off);
      n := r.value;
      ReadsUnique(store.file[off..off + NODE_SIZE], m, n);
      ReadsWhole(store.file[off..off + NODE_SIZE], n);
    }

    // ----------------------------------------------------------------
    // Insertion
    // ----------------------------------------------------------------

    /**
     Stores a value for a key below the node at path `p`, which is ready for it.
     Fails, changing nothing in the map, when the key is there and `replace` is not set.
     */
    method AddNonfull(nodeptr: nat, pointedby: nat, key: Key, val: seq<byte>, replace: bool, ghost e: nat,
          ghost p: seq<nat>)
      returns (ok: bool)
      requires Valid() && IsClass(|val|, e) && e <= 19
      requires Reached(tree, height, p, KeyNum(key)) && |p| <= height
      requires store.budget >= Need(height - |p|, NextFull(Sub(tree, p), KeyNum(key)))
      requires nodeptr == Sub(tree, p).off && pointedby == CellOf(tree, p) && Ready(Sub(tree, p), KeyNum(key))
      modifies this, store
      ensures Valid() && height == old(height) && ok == (replace || key !in old(content))
      ensures content == if ok then old(content)[key := val] else old(content)
      ensures Switch(old(store.log), store.log, old(content), content)
      decreases height - |p|, if NextFull(Sub(tree, p), KeyNum(key)) then 1 else 0
    {
      hide Good, IsClass, HasPath, Switch, One, KeyNum, Range, Pow256, SwitchAt;
      ghost var s, t := store.S(), Sub(tree, p);
      SoundNode(s, tree, {}, height, content, p);
      ReachedNode(tree, height, p, KeyNum(key));
      var n := LoadNode(store.file, nodeptr, t);
      assert forall a :: 0 <= a < n.numkeys ==> n.keys[a] == t.keys[a];
      var i, found := Seek(n, key);
      if found {
        FoundEntry(tree, height, content, p, i);
        if !replace {
          NoSwitch(s.log, s.log, content);
          return false;
        }
        ReplaceValue(nodeptr, i, n.values[i], val, e, p);
        return true;
      }
      assert n.keys[..n.numkeys] == t.keys;
      if n.isleaf != 0 {
        InsertLeaf(n, nodeptr, pointedby, i + 1, key, val, e, p);
        return true;
      }
      i := i + 1;
      ok := Descend(n, nodeptr, pointedby, i, key, val, replace, e, p);
    }

    /** Goes on below kid i, after splitting it if it is full. */
    method Descend(n: NodeRec, nodeptr: nat, pointedby: nat, i: nat, key: Key, val: seq<byte>, replace: bool,
          ghost e: nat, ghost p: seq<nat>)
      returns (ok: bool)
      requires Valid() && IsClass(|val|, e) && e <= 19 && Reached(tree, height, p, KeyNum(key)) && |p| <= height
      requires store.budget >= Need(height - |p|, NextFull(Sub(tree, p), KeyNum(key)))
      requires nodeptr == Sub(tree, p).off && pointedby == CellOf(tree, p) && Ready(Sub(tree, p), KeyNum(key))
      requires Sub(tree, p).kids != [] && IsRank(Sub(tree, p).keys, KeyNum(key), i)
      requires NodeBytes(store.file, nodeptr, n) && Matches(n, Sub(tree, p))
      modifies this, store
      ensures Valid() && height == old(height) && ok == (replace || key !in old(content))
      ensures content == if ok then old(content)[key := val] else old(content)
      ensures Switch(old(store.log), store.log, old(content), content)
      decreases height - |p|, if NextFull(Sub(tree, p), KeyNum(key)) then 1 else 0, 0
    {
      hide Sound, Reads, NodeBytes, Below, KeyNum, Tuned, Pow256, Range, Whole, Shaped, Means, IsClass;
      ghost var s, t, k, m0 := store.S(), Sub(tree, p), KeyNum(key), content;
      SoundNode(s, tree, {}, height, content, p);
      ReachedNode(tree, height, p, k);
      ReachedKid(tree, height, p, k, i);
      var child := LoadNode(store.file, n.children[i], t.kids[i]);
      if child.numkeys == MAX_KEYS {
        assert NextFull(t, k);
        ghost var old_tree := tree;
        var newnode;
        ghost var l, r;
        KidFull(tree, height, p, k, i);
        newnode, l, r := SplitChild(pointedby, nodeptr, i, n.children[i], p, t, {}, n);
        SoundNode(store.S(), tree, {}, height, content, []);
        SplitReady(t, i, l, r, newnode, k);
        ReplaceReached(old_tree, height, p, SplitTree(t, i, l, r, newnode), k);
        ghost var log1 := store.log;
        ok := AddNonfull(newnode, pointedby, key, val, replace, e, p);
        QuietSwitch(s.log, log1, store.log, m0, content);
      } else {
        CellStep(tree, p, i);
        ok := AddNonfull(n.children[i], nodeptr + KIDS_POS + WORD * i, key, val, replace, e, p + [i]);
      }
    }

    /** Puts an empty node above a full root and splits that root. */
    method SplitRoot()
      requires Valid() && FullNode(tree) && store.budget >= 6
      modifies this, store
      ensures Valid() && content == old(content) && height == old(height) + 1 && store.budget >= old(store.budget) - 6
      ensures |tree.keys| < MAX_KEYS && Quiet(old(store.log), store.log, content)
    {
      hide Quiet, Linked;
      ghost var s := store.S();
      var off := AllocNode({});
      assert {} + {off - 8} == {off - 8};
      ghost var t := store.S();
      WriteSpare(EmptyRec(), off, {off - 8});
      ghost var u, par := store.S(), Node(off, [], [], [tree]);
      QuietChain(s.log, t.log, u.log, content);
      ghost var l, r;
      var newroot;
      newroot, l, r := SplitChild(HDR_ROOTPTR_POS, off, 0, rootptr, [], par, {off - 8}, EmptyRec());
      QuietChain(s.log, u.log, store.log, content);
    }

    ghost method Prepare(n: nat)
      requires Valid() && MayGrow(store.file, n)
      modifies store`budget
      ensures Valid() && store.budget == n && store.log == old(store.log) && store.file == old(store.file)
    {
      ghost var s := store.S();
      store.Refill(n);
      Reopened(s, store.S(), tree, height, content);
    }

    /** Insertion from the root down, which is split first when it is full. */
    method AddFromRoot(key: Key, val: seq<byte>, replace: bool, ghost e: nat) returns (ok: bool)
      requires Valid() && IsClass(|val|, e) && e <= 19 && store.budget >= 5 * height + 14
      modifies this, store
      ensures Valid() && height <= old(height) + 1 && ok == (replace || key !in old(content))
      ensures content == if ok then old(content)[key := val] else old(content)
      ensures Switch(old(store.log), store.log, old(content), content)
    {
      ghost var s, m0 := store.S(), content;
      SoundNode(s, tree, {}, height, content, []);
      var root := LoadNode(store.file, rootptr, tree);
      if root.numkeys == MAX_KEYS {
        RootFull(tree, height);
        SplitRoot();
      }
      ghost var log1 := store.log;
      SoundNode(store.S(), tree, {}, height, content, []);
      ReachedRoot(tree, height, key);
      ok := AddNonfull(rootptr, HDR_ROOTPTR_POS, key, val, replace, e, []);
      QuietSwitch(s.log, log1, store.log, m0, content);
    }

    /**
     Stores a value for a key. Fails when the key is there and `replace` is not
     set. If the machine stops after any of the writes, the file denotes either
     the map before or the map after.
     */
    method Add(key: Key, val: seq<byte>, replace: bool) returns (ok: bool)
      requires Valid() && |val| + 8 <= PREALLOC_SIZE && MayGrow(store.file, 5 * height + 14)
      modifies this, store
      ensures Valid() && height <= old(height) + 1 && ok == (replace || key !in old(content))
      ensures content == if ok then old(content)[key := val] else old(content)
      ensures Switch(old(store.log), store.log, old(content), content)
    {
      Prepare(5 * height + 14);
      Pow2Values();
      ghost var e := ClassOf(|val|, 19);
      ok := AddFromRoot(key, val, replace, e);
    }
  }
}
