/** When a tree lies on disk, which chunks house it, and what a write does to it. */
module BTreeDisk {
  import opened Bytes
  import opened Disk
  import opened AllocatorModel
  import opened AllocatorSteps
  import opened AllocatorStates
  import opened BTreeModel
  import opened BTreeNode

  const NODE_EXP := 9

  // ------------------------------------------------------------------
  // A tree on disk
  // ------------------------------------------------------------------

  /** The cells in use match the node `t`; the others may hold anything. */
  ghost predicate Matches(n: NodeRec, t: DTree) {
    |n.keys| == MAX_KEYS && |n.values| == MAX_KEYS && |n.children| == MAX_KEYS + 1 &&
    n.numkeys == |t.keys| == |t.vals| <= MAX_KEYS && (n.isleaf != 0 <==> t.kids == []) &&
    n.keys[..|t.keys|] == t.keys &&
    (forall i :: 0 <= i < |t.vals| ==> n.values[i] == t.vals[i].off) &&
    (t.kids != [] ==> |t.kids| == |t.keys| + 1) &&
    (forall i :: 0 <= i < |t.kids| ==> n.children[i] == t.kids[i].off)
  }

  ghost predicate NodeBytes(d: Disk, off: nat, n: NodeRec) {
    off + NODE_SIZE <= |d| && Reads(d[off..off + NODE_SIZE], n)
  }

  ghost predicate NodeOnDisk(d: Disk, t: DTree) {
    exists n :: NodeBytes(d, t.off, n) && Matches(n, t)
  }

  /** The value's bytes, and their number in the size word of its chunk. */
  ghost predicate ValOnDisk(d: Disk, v: Val) {
    8 <= v.off && v.off + |v.bytes| <= |d| && d[v.off..v.off + |v.bytes|] == v.bytes && Word(d, v.off - 8) == |v.bytes|
  }

  ghost predicate OnDisk(d: Disk, t: DTree) {
    NodeOnDisk(d, t) && (forall i :: 0 <= i < |t.vals| ==> ValOnDisk(d, t.vals[i])) &&
    forall i :: 0 <= i < |t.kids| ==> OnDisk(d, t.kids[i])
  }

  /** `e` has the bytes of the chunks `p` as in `d`. */
  ghost predicate SameBytes(d: Disk, e: Disk, p: map<nat, nat>) {
    forall c :: c in p ==> SameChunk(d, e, c, p[c])
  }

  /** At an offset of a disk there is at most one tree. */
  lemma {:induction false} OnDiskUnique(d: Disk, t: DTree, u: DTree)
    requires OnDisk(d, t) && OnDisk(d, u) && t.off == u.off
    ensures t == u
    decreases t
  {
    NodeUnique(d, t, u);
    forall i | 0 <= i < |t.vals|
      ensures t.vals[i] == u.vals[i]
    {
      assert ValOnDisk(d, t.vals[i]) && ValOnDisk(d, u.vals[i]);
    }
    forall i | 0 <= i < |t.kids|
      ensures t.kids[i] == u.kids[i]
    {
      OnDiskUnique(d, t.kids[i], u.kids[i]);
    }
  }

  lemma NodeUnique(d: Disk, t: DTree, u: DTree)
    requires NodeOnDisk(d, t) && NodeOnDisk(d, u) && t.off == u.off
    ensures t.keys == u.keys && |t.vals| == |u.vals| && |t.kids| == |u.kids|
    ensures forall i :: 0 <= i < |t.vals| ==> t.vals[i].off == u.vals[i].off
    ensures forall i :: 0 <= i < |t.kids| ==> t.kids[i].off == u.kids[i].off
  {
    var m :| NodeBytes(d, t.off, m) && Matches(m, t);
    var n :| NodeBytes(d, u.off, n) && Matches(n, u);
    ReadsUnique(d[t.off..t.off + NODE_SIZE], m, n);
  }

  // ------------------------------------------------------------------
  // The chunks that house it
  // ------------------------------------------------------------------

  ghost predicate NodeHoused(off: nat, p: map<nat, nat>) {
    8 <= off && off - 8 in p && p[off - 8] == NODE_EXP
  }

  ghost predicate ValHoused(v: Val, p: map<nat, nat>) {
    8 <= v.off && v.off - 8 in p && IsClass(|v.bytes|, p[v.off - 8]) && p[v.off - 8] <= 19
  }

  ghost predicate Housed(t: DTree, p: map<nat, nat>) {
    NodeHoused(t.off, p) && (forall i :: 0 <= i < |t.vals| ==> ValHoused(t.vals[i], p)) &&
    forall i :: 0 <= i < |t.kids| ==> Housed(t.kids[i], p)
  }

  /** No kid is at offset 0, where a null pointer would lead. */
  ghost predicate Tied(t: DTree) {
    forall i :: 0 <= i < |t.kids| ==> t.kids[i].off != 0 && Tied(t.kids[i])
  }

  lemma {:induction false} SubTied(t: DTree, p: seq<nat>)
    requires Tied(t) && HasPath(t, p)
    ensures Tied(Sub(t, p))
  {
    if p != [] { SubTied(t.kids[p[0]], p[1..]); }
  }

  lemma {:induction false} HousedTied(t: DTree, p: map<nat, nat>)
    requires Housed(t, p)
    ensures Tied(t)
  {
    forall i | 0 <= i < |t.kids|
      ensures t.kids[i].off != 0 && Tied(t.kids[i])
    {
      HousedTied(t.kids[i], p);
    }
  }

  lemma {:induction false} HousedWithin(t: DTree, p: map<nat, nat>, q: map<nat, nat>)
    requires Housed(t, p) && Within(p, q)
    ensures Housed(t, q)
  {
    forall i | 0 <= i < |t.vals| ensures ValHoused(t.vals[i], q) { assert ValHoused(t.vals[i], p); }
    forall i | 0 <= i < |t.kids| ensures Housed(t.kids[i], q) { HousedWithin(t.kids[i], p, q); }
  }

  /** Chunks that the tree does not use may go. */
  lemma {:induction false} HousedWithout(t: DTree, p: map<nat, nat>, c: nat)
    requires Housed(t, p) && Uses(t, c) == 0
    ensures Housed(t, Without(p, c))
  {
    forall i | 0 <= i < |t.vals|
      ensures ValHoused(t.vals[i], Without(p, c))
    {
      assert ValHoused(t.vals[i], p);
      ValUsesSplit(t.vals, i, c);
    }
    forall i | 0 <= i < |t.kids|
      ensures Housed(t.kids[i], Without(p, c))
    {
      UsesAllSplit(t.kids, i, c);
      HousedWithout(t.kids[i], p, c);
    }
  }

  /** Only the chunks that the tree uses count. */
  lemma {:induction false} HousedOn(t: DTree, p: map<nat, nat>, q: map<nat, nat>)
    requires Housed(t, p) && forall c :: c in p && Uses(t, c) > 0 ==> c in q && q[c] == p[c]
    ensures Housed(t, q)
  {
    forall i | 0 <= i < |t.vals|
      ensures ValHoused(t.vals[i], q)
    {
      assert ValHoused(t.vals[i], p);
      ValUsesSplit(t.vals, i, t.vals[i].off - 8);
    }
    forall i | 0 <= i < |t.kids|
      ensures Housed(t.kids[i], q)
    {
      forall c | c in p && Uses(t.kids[i], c) > 0
        ensures c in q && q[c] == p[c]
      {
        UsesAllSplit(t.kids, i, c);
      }
      HousedOn(t.kids[i], p, q);
    }
  }

  /** A tree uses no chunks but those it is housed in. */
  lemma {:induction false} UsesHoused(t: DTree, p: map<nat, nat>, c: int)
    requires Housed(t, p)
    ensures Uses(t, c) > 0 ==> c >= 0 && c in p
    decreases t, 0
  {
    if Uses(t, c) > 0 && t.off - 8 != c {
      if ValUses(t.vals, c) > 0 {
        var i := UsedVal(t.vals, c);
        assert ValHoused(t.vals[i], p);
      } else {
        UsesAllHoused(t.kids, p, c);
      }
    }
  }

  lemma {:induction false} UsesAllHoused(ts: seq<DTree>, p: map<nat, nat>, c: int)
    requires forall i :: 0 <= i < |ts| ==> Housed(ts[i], p)
    ensures UsesAll(ts, c) > 0 ==> c >= 0 && c in p
    decreases ts, 1
  {
    if ts != [] {
      UsesHoused(ts[0], p, c);
      UsesAllHoused(ts[1..], p, c);
    }
  }

  lemma {:induction false} UsedVal(vs: seq<Val>, c: int) returns (i: nat)
    requires ValUses(vs, c) > 0
    ensures i < |vs| && vs[i].off - 8 == c
  {
    if vs[0].off - 8 == c {
      i := 0;
    } else {
      i := UsedVal(vs[1..], c);
      i := i + 1;
    }
  }

  /** A tree is still on disk after writes that spare the chunks it is housed in. */
  lemma {:induction false} OnDiskAgrees(d: Disk, e: Disk, t: DTree, p: map<nat, nat>)
    requires OnDisk(d, t) && Housed(t, p) && SameBytes(d, e, p)
    ensures OnDisk(e, t)
  {
    NodeAgrees(d, e, t, p);
    forall i | 0 <= i < |t.vals|
      ensures ValOnDisk(e, t.vals[i])
    {
      ValAgrees(d, e, t.vals[i], p);
    }
    forall i | 0 <= i < |t.kids|
      ensures OnDisk(e, t.kids[i])
    {
      OnDiskAgrees(d, e, t.kids[i], p);
    }
  }

  lemma NodeAgrees(d: Disk, e: Disk, t: DTree, p: map<nat, nat>)
    requires NodeOnDisk(d, t) && NodeHoused(t.off, p) && SameBytes(d, e, p)
    ensures NodeOnDisk(e, t)
  {
    var n :| NodeBytes(d, t.off, n) && Matches(n, t);
    Pow2Values();
    BytesAgree(d, e, t.off - 8, p, t.off, NODE_SIZE);
    assert NodeBytes(e, t.off, n);
  }

  lemma ValAgrees(d: Disk, e: Disk, v: Val, p: map<nat, nat>)
    requires ValOnDisk(d, v) && ValHoused(v, p) && SameBytes(d, e, p)
    ensures ValOnDisk(e, v)
  {
    BytesAgree(d, e, v.off - 8, p, v.off, |v.bytes|);
    BytesAgree(d, e, v.off - 8, p, v.off - 8, 8);
  }

  lemma BytesAgree(d: Disk, e: Disk, c: nat, p: map<nat, nat>, a: nat, n: nat)
    requires SameBytes(d, e, p) && c in p && c <= a && a + n <= c + Pow2(p[c])
    ensures a + n <= |d| && a + n <= |e| && e[a..a + n] == d[a..a + n]
  {
    assert SameChunk(d, e, c, p[c]);
    SubSlice(d, c, c + Pow2(p[c]), a, a + n);
    SubSlice(e, c, c + Pow2(p[c]), a, a + n);
  }

  // ------------------------------------------------------------------
  // Changing a node in place
  // ------------------------------------------------------------------

  /** No chunk is used twice. */
  ghost predicate Unshared(t: DTree) {
    forall x: int :: Uses(t, x) <= 1
  }

  lemma UsesParts(t: DTree, i: nat, x: int)
    requires i < |t.kids|
    ensures Uses(t.kids[i], x) + One(t.off - 8 == x) + ValUses(t.vals, x) <= Uses(t, x)
    ensures forall j :: 0 <= j < |t.kids| && j != i ==> Uses(t.kids[i], x) + Uses(t.kids[j], x) <= Uses(t, x)
  {
    UsesAllSplit(t.kids, i, x);
    forall j | 0 <= j < |t.kids| && j != i
      ensures Uses(t.kids[i], x) + Uses(t.kids[j], x) <= Uses(t, x)
    {
      if j < i {
        UsesAllSplit(t.kids[..i], j, x);
      } else {
        UsesAllSplit(t.kids[i + 1..], j - i - 1, x);
        assert t.kids[i + 1..][j - i - 1] == t.kids[j];
      }
    }
  }

  lemma {:induction false} SubUses(t: DTree, p: seq<nat>, x: int)
    requires HasPath(t, p)
    ensures Uses(Sub(t, p), x) <= Uses(t, x)
    decreases p
  {
    if p != [] {
      SubUses(t.kids[p[0]], p[1..], x);
      UsesParts(t, p[0], x);
    }
  }

  lemma {:induction false} SubHoused(t: DTree, p: seq<nat>, q: map<nat, nat>)
    requires HasPath(t, p) && Housed(t, q)
    ensures Housed(Sub(t, p), q)
    decreases p
  {
    if p != [] { SubHoused(t.kids[p[0]], p[1..], q); }
  }

  lemma {:induction false} SubOnDisk(t: DTree, p: seq<nat>, d: Disk)
    requires HasPath(t, p) && OnDisk(d, t)
    ensures OnDisk(d, Sub(t, p))
    decreases p
  {
    if p != [] { SubOnDisk(t.kids[p[0]], p[1..], d); }
  }

  lemma {:induction false} ReplaceHoused(t: DTree, p: seq<nat>, s: DTree, q: map<nat, nat>)
    requires HasPath(t, p) && Housed(t, q) && Housed(s, q)
    ensures Housed(Replace(t, p, s), q)
    decreases p
  {
    if p != [] { ReplaceHoused(t.kids[p[0]], p[1..], s, q); }
  }

  /** Only the chunk of the node at path `p` has changed, and it now reads as `s`
      calls for: then the whole tree has `s` there. */
  lemma {:induction false} InPlace(d: Disk, e: Disk, t: DTree, p: seq<nat>, s: DTree, q: map<nat, nat>)
    requires OnDisk(d, t) && Housed(t, q) && HasPath(t, p) && s.off == Sub(t, p).off >= 8
    requires Uses(t, s.off - 8) == 1 && SameBytes(d, e, Without(q, s.off - 8)) && OnDisk(e, s)
    ensures OnDisk(e, Replace(t, p, s))
    decreases p
  {
    hide NodeOnDisk, ValUses;
    if p != [] {
      var i, c, r := p[0], s.off - 8, Replace(t, p, s);
      SubUses(t.kids[i], p[1..], c);
      UsesParts(t, i, c);
      InPlace(d, e, t.kids[i], p[1..], s, q);
      NodeSpared(d, e, t, q, c);
      NodeRenamed(e, t, r);
      forall j | 0 <= j < |r.kids|
        ensures OnDisk(e, r.kids[j])
      {
        if j != i {
          HousedWithout(t.kids[j], q, c);
          OnDiskAgrees(d, e, t.kids[j], Without(q, c));
        }
      }
    }
  }

  /** The node itself and its values keep their bytes. */
  lemma NodeSpared(d: Disk, e: Disk, t: DTree, q: map<nat, nat>, c: nat)
    requires OnDisk(d, t) && Housed(t, q) && SameBytes(d, e, Without(q, c))
    requires t.off - 8 != c && ValUses(t.vals, c) == 0
    ensures NodeOnDisk(e, t) && forall i :: 0 <= i < |t.vals| ==> ValOnDisk(e, t.vals[i])
  {
    NodeAgrees(d, e, t, Without(q, c));
    forall i | 0 <= i < |t.vals|
      ensures ValOnDisk(e, t.vals[i])
    {
      ValUsesSplit(t.vals, i, c);
      assert ValHoused(t.vals[i], q);
      ValAgrees(d, e, t.vals[i], Without(q, c));
    }
  }

  /** A kid that changes in place keeps its parent's pointer. */
  lemma NodeRenamed(d: Disk, t: DTree, r: DTree)
    requires NodeOnDisk(d, t) && r.off == t.off && r.keys == t.keys && r.vals == t.vals && |r.kids| == |t.kids|
    requires forall i :: 0 <= i < |t.kids| ==> r.kids[i].off == t.kids[i].off
    ensures NodeOnDisk(d, r)
  {
    var n :| NodeBytes(d, t.off, n) && Matches(n, t);
    assert Matches(n, r);
  }

  /** Where the file says which node is at path `p`: the root pointer, or a
      cell of the parent. */
  ghost function CellOf(t: DTree, p: seq<nat>): (a: nat)
    requires HasPath(t, p)
    decreases p
  {
    if p == [] then HDR_ROOTPTR_POS
    else if |p| == 1 then t.off + KIDS_POS + WORD * p[0]
    else CellOf(t.kids[p[0]], p[1..])
  }

  lemma {:induction false} CellStep(t: DTree, p: seq<nat>, i: nat)
    requires HasPath(t, p) && i < |Sub(t, p).kids|
    ensures HasPath(t, p + [i]) && CellOf(t, p + [i]) == Sub(t, p).off + KIDS_POS + WORD * i
    decreases p
  {
    PathStep(t, p, i);
    if p != [] {
      CellStep(t.kids[p[0]], p[1..], i);
      assert (p + [i])[1..] == p[1..] + [i];
    }
  }

  /** The parent of the node at a path other than []. */
  lemma {:induction false} PathInit(t: DTree, p: seq<nat>)
    requires HasPath(t, p) && p != []
    ensures var (q, i) := (p[..|p| - 1], p[|p| - 1]); HasPath(t, q) && i < |Sub(t, q).kids|
    decreases p
  {
    if |p| > 1 {
      PathInit(t.kids[p[0]], p[1..]);
      assert p[..|p| - 1][1..] == p[1..][..|p| - 2];
    }
  }

  /** The kid cell of a node on disk, overwritten. */
  lemma KidSwung(d: Disk, t: DTree, i: nat, s: DTree)
    requires NodeOnDisk(d, t) && i < |t.kids| && Fits(s.off)
    ensures t.off + NODE_SIZE <= |d|
    ensures NodeOnDisk(PatchWord(d, t.off + KIDS_POS + WORD * i, s.off), Node(t.off, t.keys, t.vals, t.kids[i := s]))
  {
    var n :| NodeBytes(d, t.off, n) && Matches(n, t);
    var e := PatchWord(d, t.off + KIDS_POS + WORD * i, s.off);
    KidCellWritten(d[t.off..t.off + NODE_SIZE], n, i, s.off);
    SlicePatch(d, t.off, KIDS_POS + WORD * i, s.off);
    assert NodeBytes(e, t.off, n.(children := n.children[i := s.off]));
  }

  /** The value cell of a node on disk, overwritten. */
  lemma ValSwung(d: Disk, t: DTree, i: nat, v: Val)
    requires NodeOnDisk(d, t) && i < |t.vals| && Fits(v.off)
    ensures t.off + NODE_SIZE <= |d|
    ensures NodeOnDisk(PatchWord(d, t.off + VALS_POS + WORD * i, v.off), Node(t.off, t.keys, t.vals[i := v], t.kids))
  {
    var n :| NodeBytes(d, t.off, n) && Matches(n, t);
    var e := PatchWord(d, t.off + VALS_POS + WORD * i, v.off);
    ValCellWritten(d[t.off..t.off + NODE_SIZE], n, i, v.off);
    SlicePatch(d, t.off, VALS_POS + WORD * i, v.off);
    assert NodeBytes(e, t.off, n.(values := n.values[i := v.off]));
  }
}
