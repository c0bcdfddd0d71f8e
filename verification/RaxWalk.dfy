/** Walking the tree: where a walk stops, and what that says about lookups. */
module RaxWalk {
  import opened Bytes
  import opened RaxModel
  import opened RaxHeap
  import opened RaxChange

  /** Addresses of the nodes above the one at path p, topmost first. */
  ghost function StackOf(t: Tree, p: seq<nat>): (st: seq<Ptr>)
    requires HasPath(t, p)
    ensures |st| == |p|
  {
    if p == [] then [] else [t.ptr] + StackOf(t.kids[p[0]], p[1..])
  }

  lemma {:induction false} StackStep(t: Tree, p: seq<nat>, i: nat)
    requires HasPath(t, p) && Sub(t, p).T? && i < |Sub(t, p).kids|
    ensures HasPath(t, p + [i]) && StackOf(t, p + [i]) == StackOf(t, p) + [Sub(t, p).ptr]
    decreases p
  {
    PathStep(t, p, i);
    if p != [] {
      StackStep(t.kids[p[0]], p[1..], i);
      assert (p + [i])[1..] == p[1..] + [i];
    } else {
      assert [i][1..] == [];
    }
  }

  /** The walk along s has come to the node at path p, by the first i bytes. */
  ghost predicate Reached(t: Tree, s: Str, p: seq<nat>, i: nat) {
    Shape(t) && HasPath(t, p) && Sub(t, p).T? && i <= |s| && Prefix(t, p) == s[..i]
  }

  /** The walk along s has stopped at the node at path p, after i bytes, j of them
      inside that node if it is compressed. */
  ghost predicate Stopped(t: Tree, s: Str, p: seq<nat>, i: nat, j: nat) {
    j <= i && Reached(t, s, p, i - j) && i <= |s| &&
    var n := Sub(t, p);
    if n.iscompr then j < |n.data| && n.data[..j] == s[i - j..i] && (i < |s| ==> s[i] != n.data[j])
    else j == 0 && (i < |s| ==> s[i] !in n.data)
  }

  lemma PrefixLen(a: Str, s: Str, i: nat)
    requires i <= |s| && a == s[..i]
    ensures |a| == i && a <= s && s[|a|..] == s[i..]
  {
  }

  lemma ReachedKid(t: Tree, s: Str, p: seq<nat>, i: nat, j: nat, e: nat)
    requires Reached(t, s, p, i) && j < |Sub(t, p).kids| && Shape(Sub(t, p)) && Sub(t, p).kids[j].T?
    requires e == i + |Edge(Sub(t, p), j)| <= |s| && Edge(Sub(t, p), j) == s[i..e]
    ensures Reached(t, s, p + [j], e) && Sub(t, p + [j]) == Sub(t, p).kids[j]
  {
    PathStep(t, p, j);
    PrefixStep(t, p, j);
    assert s[..i] + s[i..e] == s[..e];
  }

  /** A walk that has stopped knows whether s is a key. */
  lemma StoppedLookup(t: Tree, s: Str, p: seq<nat>, i: nat, j: nat)
    requires Stopped(t, s, p, i, j)
    ensures Lookup(t, s) == if i == |s| && j == 0 && Sub(t, p).iskey then Some(Sub(t, p).value) else None
  {
    var n := Sub(t, p);
    PrefixLen(Prefix(t, p), s, i - j);
    LookupSub(t, p, s);
    SubShape(t, p);
    var rest := s[i - j..];
    if i == |s| && j == 0 {
      assert rest == [];
    } else if n.iscompr {
      RunMisses(n.data, s, i - j, j);
    } else {
      assert rest[0] == s[i];
      MissesByte(n, rest);
    }
  }

  lemma RunMisses(data: Str, s: Str, at: nat, j: nat)
    requires j < |data| && at + j <= |s| && (at + j < |s| ==> s[at + j] != data[j])
    ensures !(data <= s[at..])
  {
    if at + j < |s| {
      assert s[at..][j] == s[at + j];
    }
  }

  lemma MissesByte(n: Tree, k: Str)
    requires n.T? && Shape(n) && !n.iscompr && k != [] && k[0] !in n.data
    ensures Lookup(n, k) == None
  {
  }

  /** The number of leading bytes of `data` that s has from position i on. */
  method MatchRun(data: Str, s: Str, i: nat) returns (j: nat)
    requires i <= |s|
    ensures j <= |data| && i + j <= |s| && data[..j] == s[i..i + j]
    ensures j < |data| && i + j < |s| ==> s[i + j] != data[j]
  {
    j := 0;
    while j < |data| && i + j < |s|
      invariant 0 <= j <= |data| && i + j <= |s| && data[..j] == s[i..i + j]
    {
      if data[j] != s[i + j] { break; }
      j := j + 1;
    }
  }

  /** The linear scan for an edge byte. */
  method FindByte(data: Str, c: byte) returns (j: nat)
    ensures j <= |data| && (j < |data| ==> data[j] == c) && (j == |data| ==> c !in data)
  {
    j := 0;
    while j < |data|
      invariant 0 <= j <= |data| && forall i :: 0 <= i < j ==> data[i] != c
    {
      if data[j] == c { break; }
      j := j + 1;
    }
  }

  // ------------------------------------------------------------------
  // Fresh addresses
  // ------------------------------------------------------------------

  lemma {:induction false} BoundOf(m: set<Ptr>) returns (b: Ptr)
    ensures forall c :: c in m ==> c < b
    decreases |m|
  {
    if m == {} {
      b := 0;
    } else {
      var x :| x in m;
      var a := BoundOf(m - {x});
      b := if a > x then a else x + 1;
      forall c | c in m ensures c < b { if c != x { assert c in m - {x}; } }
    }
  }

  /** Memory is never used up. */
  lemma FreshExists(mem: Mem)
    ensures exists q: Ptr :: q !in mem
  {
    var b := BoundOf(mem.Keys);
    assert b !in mem.Keys;
  }

  function Without(mem: Mem, q: Ptr): (m: Mem)
  {
    map c | c in mem && c != q :: mem[c]
  }

  lemma WithoutSize(mem: Mem, q: Ptr)
    requires q in mem
    ensures |Without(mem, q)| == |mem| - 1
  {
    assert Without(mem, q).Keys == mem.Keys - {q};
  }

  lemma WithSize(mem: Mem, q: Ptr, n: RaxNode)
    ensures |mem[q := n]| == |mem| + One(q !in mem)
  {
    assert mem[q := n].Keys == mem.Keys + {q};
  }

  /** The memory after a link has been set. */
  function LinkMem(mem: Mem, l: Link, q: Ptr): (m: Mem) {
    if l.Slot? && l.node in mem && l.index < |mem[l.node].kids|
    then mem[l.node := mem[l.node].(kids := mem[l.node].kids[l.index := q])]
    else mem
  }

  // ------------------------------------------------------------------
  // Grafts of one node
  // ------------------------------------------------------------------

  /** In a tidy tree a link points to its node. */
  lemma {:induction false} LinkPoints(mem: Mem, t: Tree, p: seq<nat>)
    requires Rep(mem, t) && HasPath(t, p) && p != []
    ensures var l := LinkOf(t, p);
      l.node in mem && l.index < |mem[l.node].kids| && mem[l.node].kids[l.index] == Sub(t, p).ptr
    decreases p
  {
    if |p| > 1 {
      LinkPoints(mem, t.kids[p[0]], p[1..]);
    } else {
      assert p[1..] == [] && Sub(t, p) == t.kids[p[0]];
    }
  }

  /** Leaving everything outside as it is leaves the link as it is. */
  lemma RegraftSame(mem: Mem, mem2: Mem, t: Tree, p: seq<nat>)
    requires Rep(mem, t) && HasPath(t, p) && forall c: Ptr :: Outside(t, p, c) && c in mem ==>
      c in mem2 && mem2[c] == mem[c]
    ensures Regrafted(mem, mem2, t, p, Sub(t, p).ptr)
  {
    if p != [] { LinkPoints(mem, t, p); }
  }

  /** Setting the link regrafts, whatever happens to the subtree's own nodes and to new ones. */
  lemma RegraftLink(mem: Mem, mem2: Mem, t: Tree, p: seq<nat>, q: Ptr)
    requires Rep(mem, t) && HasPath(t, p)
    requires forall c: Ptr :: Outside(t, p, c) && c in mem ==> c in mem2 && mem2[c] == LinkMem(mem, LinkOf(t, p), q)[c]
    ensures Regrafted(mem, mem2, t, p, q)
  {
    if p != [] { LinkPoints(mem, t, p); }
  }

  /** Nodes below n keep their content. */
  ghost predicate KeepsBelow(mem: Mem, mem2: Mem, n: Tree)
    requires n.T?
  {
    forall c: Ptr :: UsesAll(n.kids, c) > 0 && c in mem ==> c in mem2 && mem2[c] == mem[c]
  }

  lemma KidsRep(mem: Mem, mem2: Mem, n: Tree)
    requires n.T? && Rep(mem, n) && KeepsBelow(mem, mem2, n)
    ensures forall i :: 0 <= i < |n.kids| ==> Rep(mem2, n.kids[i])
  {
    forall i | 0 <= i < |n.kids|
      ensures Rep(mem2, n.kids[i])
    {
      forall c: Ptr | Uses(n.kids[i], c) > 0 && c in mem
        ensures c in mem2 && mem2[c] == mem[c]
      {
        UsesAllSplit(n.kids, i, c);
      }
      RepSame(mem, mem2, n.kids[i]);
    }
  }

  /** Addresses inside and outside a subtree. */
  lemma SubFacts(mem: Mem, t: Tree, p: seq<nat>)
    requires Tidy(mem, t) && HasPath(t, p) && Sub(t, p).T?
    ensures Rep(mem, Sub(t, p)) && Shape(Sub(t, p)) && Held(mem, Sub(t, p))
    ensures !Outside(t, p, Sub(t, p).ptr)
    ensures forall c: Ptr :: UsesAll(Sub(t, p).kids, c) > 0 ==> c != Sub(t, p).ptr && !Outside(t, p, c) && c in mem
    ensures forall c: Ptr :: Outside(t, p, c) ==> c in mem
    ensures p != [] ==> Outside(t, p, LinkOf(t, p).node)
  {
    SubRep(mem, t, p);
    SubShape(t, p);
    if p != [] { LinkAbove(t, p); }
    forall c: Ptr
      ensures UsesAll(Sub(t, p).kids, c) > 0 ==> c != Sub(t, p).ptr && !Outside(t, p, c) && c in mem
      ensures Outside(t, p, c) ==> c in mem
      ensures c == Sub(t, p).ptr ==> !Outside(t, p, c)
    {
      SubUses(t, p, c);
    }
  }

  /** In a tree whose leaves are keys no child is gone. */
  lemma KidThere(mem: Mem, t: Tree, p: seq<nat>, j: nat)
    requires Tidy(mem, t) && t.T? && KeyedBut(t, []) && HasPath(t, p) && Sub(t, p).T? && j < |Sub(t, p).kids|
    ensures Held(mem, Sub(t, p).kids[j]) && Keyed(Sub(t, p).kids[j])
  {
    PathStep(t, p, j);
    KeyedAt(t, p + [j]);
    SubRep(mem, t, p + [j]);
  }

  /** The node at p has been freed or rewritten, the nodes `extra` are new (or that
      node again), the link there points to q, and all else is as it was. */
  ghost predicate Rebuilt(mem: Mem, mem2: Mem, t: Tree, p: seq<nat>, q: Ptr, extra: set<Ptr>)
    requires HasPath(t, p)
  {
    (forall c: Ptr :: c in extra ==> c == Sub(t, p).ptr || c !in mem) &&
    (forall c: Ptr :: c in mem2 <==> c in extra || (c in mem && c != Sub(t, p).ptr)) &&
    (forall c: Ptr :: c in mem && c != Sub(t, p).ptr ==> mem2[c] == LinkMem(mem, LinkOf(t, p), q)[c])
  }

  lemma RebuiltKids(mem: Mem, mem2: Mem, t: Tree, p: seq<nat>, q: Ptr, extra: set<Ptr>)
    requires Tidy(mem, t) && HasPath(t, p) && Sub(t, p).T? && Rebuilt(mem, mem2, t, p, q, extra)
    ensures Regrafted(mem, mem2, t, p, q) && Shape(Sub(t, p))
    ensures forall i :: 0 <= i < |Sub(t, p).kids| ==> Rep(mem2, Sub(t, p).kids[i])
  {
    SubFacts(mem, t, p);
    RegraftLink(mem, mem2, t, p, q);
    KidsRep(mem, mem2, Sub(t, p));
  }

  /** Then the tree has `s` at p, if `s` is made of the new nodes and the old kids. */
  lemma RebuiltTree(mem: Mem, mem2: Mem, t: Tree, p: seq<nat>, s: Tree, extra: set<Ptr>)
    requires Tidy(mem, t) && HasPath(t, p) && Sub(t, p).T? && Rebuilt(mem, mem2, t, p, s.ptr, extra)
    requires Rep(mem2, s) && Shape(s) && forall c: Ptr :: Uses(s, c) == UsesAll(Sub(t, p).kids, c) + One(c in extra)
    ensures Tidy(mem2, Replace(t, p, s))
  {
    RebuiltKids(mem, mem2, t, p, s.ptr, extra);
    SubFacts(mem, t, p);
    Graft(mem, mem2, t, p, s);
  }

  /** The link there need not be set when the node stays where it is. */
  lemma LinkNoop(mem: Mem, t: Tree, p: seq<nat>)
    requires Rep(mem, t) && HasPath(t, p)
    ensures LinkMem(mem, LinkOf(t, p), Sub(t, p).ptr) == mem
  {
    if p != [] {
      LinkPoints(mem, t, p);
      var l := LinkOf(t, p);
      assert mem[l.node].kids[l.index := Sub(t, p).ptr] == mem[l.node].kids;
      assert mem[l.node := mem[l.node]] == mem;
    }
  }

  /** The node at p reallocated, linked again, and rewritten. */
  lemma MovedRebuilt(mem: Mem, mem2: Mem, t: Tree, p: seq<nat>, q: Ptr, m: RaxNode, m2: RaxNode)
    requires Tidy(mem, t) && HasPath(t, p) && Sub(t, p).T? && (q == Sub(t, p).ptr || q !in mem)
    requires mem2 == LinkMem(Without(mem, Sub(t, p).ptr)[q := m], LinkOf(t, p), q)[q := m2]
    ensures Rebuilt(mem, mem2, t, p, q, {q}) && mem2[q] == m2
  {
    SubFacts(mem, t, p);
    var h := Sub(t, p).ptr;
    forall c: Ptr | c in mem && c != h
      ensures c in mem2 && mem2[c] == LinkMem(mem, LinkOf(t, p), q)[c]
    {
    }
  }

  lemma KeptRebuilt(mem: Mem, t: Tree, p: seq<nat>, m2: RaxNode)
    requires Tidy(mem, t) && HasPath(t, p) && Sub(t, p).T?
    ensures Rebuilt(mem, mem[Sub(t, p).ptr := m2], t, p, Sub(t, p).ptr, {Sub(t, p).ptr})
  {
    SubFacts(mem, t, p);
    LinkNoop(mem, t, p);
  }

  /** A node that has been moved or rewritten, with the same kids. */
  lemma NodeRewritten(mem: Mem, mem2: Mem, t: Tree, p: seq<nat>, s: Tree)
    requires Tidy(mem, t) && HasPath(t, p) && Sub(t, p).T? && s.T? && s.kids == Sub(t, p).kids && Shape(s)
    requires Rebuilt(mem, mem2, t, p, s.ptr, {s.ptr}) && Fits(mem2[s.ptr], s)
    ensures Tidy(mem2, Replace(t, p, s))
  {
    RebuiltKids(mem, mem2, t, p, s.ptr, {s.ptr});
    RebuiltTree(mem, mem2, t, p, s, {s.ptr});
  }

  // ------------------------------------------------------------------
  // A node with a new child
  // ------------------------------------------------------------------

  /** The node at p reallocated, rewritten and linked again, next to a new node. */
  lemma GrownRebuilt(mem: Mem, mem2: Mem, t: Tree, p: seq<nat>, q: Ptr, m: RaxNode, child: Ptr, leaf: RaxNode)
    requires Tidy(mem, t) && HasPath(t, p) && Sub(t, p).T? && (q == Sub(t, p).ptr || q !in mem) && child !in mem &&
      q != child
    requires mem2 == LinkMem(Without(mem[child := leaf], Sub(t, p).ptr)[q := m], LinkOf(t, p), q)
    ensures Rebuilt(mem, mem2, t, p, q, {q, child}) && mem2[q] == m && mem2[child] == leaf
  {
    SubFacts(mem, t, p);
    var h := Sub(t, p).ptr;
    forall c: Ptr | c in mem && c != h
      ensures c in mem2 && mem2[c] == LinkMem(mem, LinkOf(t, p), q)[c]
    {
    }
  }

  lemma InsertUses(ts: seq<Tree>, i: nat, t: Tree, c: Ptr)
    requires i <= |ts|
    ensures UsesAll(InsertAt(ts, i, t), c) == UsesAll(ts, c) + Uses(t, c)
  {
    InsertParts(ts, i, t);
    UsesAllSplit(InsertAt(ts, i, t), i, c);
    UsesAllConcat(ts[..i], ts[i..], c);
  }

  lemma InsertParts(ts: seq<Tree>, i: nat, t: Tree)
    requires i <= |ts|
    ensures ts == ts[..i] + ts[i..] && InsertAt(ts, i, t)[i] == t
    ensures InsertAt(ts, i, t)[..i] == ts[..i] && InsertAt(ts, i, t)[i + 1..] == ts[i..]
  {
  }

  lemma LeafUses(q: Ptr, c: Ptr)
    ensures Uses(Leaf(q), c) == One(q == c)
  {
  }

  const LEAF := RaxNode(false, 0, false, [], [])

  lemma ChildFits(m: RaxNode, n: Tree, q: Ptr, c: byte, pos: nat, child: Ptr)
    requires Fits(m, n) && !n.iscompr && pos <= |n.data| == |n.kids|
    ensures Fits(m.(data := InsertAt(m.data, pos, c), kids := InsertAt(m.kids, pos, child)),
      WithChild(n, q, c, pos, Leaf(child)))
  {
  }

  lemma ChildAdded(mem: Mem, mem2: Mem, t: Tree, p: seq<nat>, q: Ptr, c: byte, pos: nat, child: Ptr, m: RaxNode)
    requires Tidy(mem, t) && HasPath(t, p) && Sub(t, p).T? && !Sub(t, p).iscompr && IsPlace(Sub(t, p).data, c, pos)
    requires |Sub(t, p).data| == |Sub(t, p).kids| && Rebuilt(mem, mem2, t, p, q, {q, child}) && q != child
    requires Fits(m, Sub(t, p)) && |m.data| == |m.kids| && mem2[child] == LEAF
    requires mem2[q] == m.(data := InsertAt(m.data, pos, c), kids := InsertAt(m.kids, pos, child))
    ensures Tidy(mem2, Replace(t, p, WithChild(Sub(t, p), q, c, pos, Leaf(child))))
  {
    var n := Sub(t, p);
    var s := WithChild(n, q, c, pos, Leaf(child));
    RebuiltKids(mem, mem2, t, p, q, {q, child});
    ChildFits(m, n, q, c, pos, child);
    WithChildLookup(n, q, c, pos, child);
    forall i | 0 <= i < |s.kids|
      ensures Rep(mem2, s.kids[i])
    {
      assert s.kids[i] == if i < pos then n.kids[i] else if i == pos then Leaf(child) else n.kids[i - 1];
    }
    forall x: Ptr
      ensures Uses(s, x) == UsesAll(n.kids, x) + One(x in {q, child})
    {
      InsertUses(n.kids, pos, Leaf(child), x);
      LeafUses(child, x);
    }
    RebuiltTree(mem, mem2, t, p, s, {q, child});
  }

  lemma ChainAdded(mem: Mem, mem2: Mem, t: Tree, p: seq<nat>, q: Ptr, str: Str, child: Ptr)
    requires Tidy(mem, t) && HasPath(t, p) && Sub(t, p).T? && Sub(t, p).kids == [] && |str| >= 2
    requires Rebuilt(mem, mem2, t, p, q, {q, child}) && q != child
    requires Fits(mem2[q], Chain(Sub(t, p), q, str, Leaf(child))) && mem2[child] == LEAF
    ensures Tidy(mem2, Replace(t, p, Chain(Sub(t, p), q, str, Leaf(child))))
  {
    var n := Sub(t, p);
    var s := Chain(n, q, str, Leaf(child));
    RebuiltKids(mem, mem2, t, p, q, {q, child});
    ChainLookup(n, q, str, child);
    forall x: Ptr
      ensures Uses(s, x) == UsesAll(n.kids, x) + One(x in {q, child})
    {
      LeafUses(child, x);
      assert UsesAll([Leaf(child)], x) == Uses(Leaf(child), x) + UsesAll([Leaf(child)][1..], x);
    }
    RebuiltTree(mem, mem2, t, p, s, {q, child});
  }

  // ------------------------------------------------------------------
  // Where an insertion goes on
  // ------------------------------------------------------------------

  /** An insertion of s has got to the node at p, by i bytes, and may add a child there. */
  ghost predicate Growing(t: Tree, m: Map, s: Str, p: seq<nat>, i: nat) {
    Reached(t, s, p, i) && Denotes(t, m) && KeyedBut(t, p) &&
    (i < |s| ==> !Sub(t, p).iscompr && s[i] !in Sub(t, p).data)
  }

  lemma GrowChild(t: Tree, m: Map, s: Str, p: seq<nat>, i: nat, q: Ptr, pos: nat, child: Ptr, r: Tree, p2: seq<nat>)
    requires Growing(t, m, s, p, i) && i < |s| && IsPlace(Sub(t, p).data, s[i], pos) &&
      |Sub(t, p).kids| == |Sub(t, p).data|
    requires r == Replace(t, p, WithChild(Sub(t, p), q, s[i], pos, Leaf(child))) && p2 == p + [pos]
    ensures Growing(r, m, s, p2, i + 1) && Sub(r, p2) == Leaf(child) && LinkOf(r, p2) == Slot(q, pos)
  {
    var n := Sub(t, p);
    var w := WithChild(n, q, s[i], pos, Leaf(child));
    SubShape(t, p);
    WithChildLookup(n, q, s[i], pos, child);
    ReplaceSame(t, p, w, m);
    KeyedBelow(t, p);
    InsertKeyed(n.kids, pos, Leaf(child));
    GrowInto(t, m, s, p, i, w, pos, i + 1);
  }

  lemma GrowChain(t: Tree, m: Map, s: Str, p: seq<nat>, i: nat, q: Ptr, e: nat, child: Ptr, r: Tree, p2: seq<nat>)
    requires Growing(t, m, s, p, i) && i + 2 <= e <= |s| && Sub(t, p).kids == []
    requires r == Replace(t, p, Chain(Sub(t, p), q, s[i..e], Leaf(child))) && p2 == p + [0]
    ensures Growing(r, m, s, p2, e) && Sub(r, p2) == Leaf(child) && LinkOf(r, p2) == Slot(q, 0)
  {
    var n := Sub(t, p);
    SubShape(t, p);
    ChainLookup(n, q, s[i..e], child);
    ReplaceSame(t, p, Chain(n, q, s[i..e], Leaf(child)), m);
    GrowInto(t, m, s, p, i, Chain(n, q, s[i..e], Leaf(child)), 0, e);
  }

  lemma InsertKeyed(ts: seq<Tree>, pos: nat, t: Tree)
    requires pos <= |ts| && forall i :: 0 <= i < |ts| ==> Keyed(ts[i])
    ensures forall x :: 0 <= x <= |ts| && x != pos ==> Keyed(InsertAt(ts, pos, t)[x])
  {
    forall x | 0 <= x <= |ts| && x != pos
      ensures Keyed(InsertAt(ts, pos, t)[x])
    {
      assert InsertAt(ts, pos, t)[x] == ts[if x < pos then x else x - 1];
    }
  }

  lemma KeyedBelow(t: Tree, p: seq<nat>)
    requires HasPath(t, p) && KeyedBut(t, p) && Sub(t, p).T?
    ensures forall i :: 0 <= i < |Sub(t, p).kids| ==> Keyed(Sub(t, p).kids[i])
    decreases p
  {
    if p != [] { KeyedBelow(t.kids[p[0]], p[1..]); }
  }

  /** `w` at p has a leaf as child `pos`, all its other kids have keys in their leaves. */
  lemma GrowInto(t: Tree, m: Map, s: Str, p: seq<nat>, i: nat, w: Tree, pos: nat, e: nat)
    requires Growing(t, m, s, p, i) && w.T? && Shape(w) && pos < |w.kids| && w.kids[pos] == Leaf(w.kids[pos].ptr)
    requires Denotes(Replace(t, p, w), m) && i <= e <= |s| && Edge(w, pos) == s[i..e]
    requires forall x :: 0 <= x < |w.kids| && x != pos ==> Keyed(w.kids[x])
    ensures var r := Replace(t, p, w);
      Growing(r, m, s, p + [pos], e) && Sub(r, p + [pos]) == w.kids[pos] && LinkOf(r, p + [pos]) == Slot(w.ptr, pos)
  {
    var r := Replace(t, p, w);
    ReplaceShape(t, p, w);
    PathStep(r, p, pos);
    PrefixStep(r, p, pos);
    LinkStep(r, p, pos);
    assert s[..i] + s[i..e] == s[..e];
    assert KeyedBut(w, [pos]) by { assert [pos][1..] == [] && KeyedBut(w.kids[pos], []); }
    KeyedStep(t, p, w, pos);
  }

  // ------------------------------------------------------------------
  // A node replaced by several new ones
  // ------------------------------------------------------------------

  /** `mem1` has the nodes of `mem`, and those in `extra` besides. */
  ghost predicate Extends(mem: Mem, mem1: Mem, extra: set<Ptr>) {
    (forall c: Ptr :: c in extra ==> c !in mem) &&
    (forall c: Ptr :: c in mem1 <==> c in mem || c in extra) &&
    (forall c: Ptr :: c in mem ==> mem1[c] == mem[c])
  }

  /** The link set to one of the new nodes, and the old node freed. */
  lemma ExtendedRebuilt(mem: Mem, mem1: Mem, mem2: Mem, t: Tree, p: seq<nat>, q: Ptr, extra: set<Ptr>)
    requires Tidy(mem, t) && HasPath(t, p) && Sub(t, p).T? && Extends(mem, mem1, extra)
    requires mem2 == Without(LinkMem(mem1, LinkOf(t, p), q), Sub(t, p).ptr)
    ensures Rebuilt(mem, mem2, t, p, q, extra) && forall c :: c in extra ==> mem2[c] == mem1[c]
  {
    SubFacts(mem, t, p);
  }

  lemma UsesOne(t: Tree, c: Ptr)
    ensures UsesAll([t], c) == Uses(t, c)
  {
    assert UsesAll([t], c) == Uses(t, c) + UsesAll([t][1..], c);
  }

  lemma RunUses(q: Ptr, iskey: bool, v: nat, data: Str, child: Tree, c: Ptr)
    ensures Uses(Run(q, iskey, v, data, child), c) == One(q == c) + Uses(child, c)
  {
    UsesOne(child, c);
  }

  lemma RunRep(mem: Mem, q: Ptr, iskey: bool, v: nat, data: Str, child: Tree)
    requires q in mem && mem[q] == RaxNode(iskey, v, |data| > 1, data, [child.ptr]) && Rep(mem, child)
    ensures Rep(mem, Run(q, iskey, v, data, child))
  {
  }

  /** The new nodes of a compressed node taken apart. */
  function ApartNodes(n: Tree, j: nat, trimmed: Ptr, split: Ptr, postfix: Ptr): (x: set<Ptr>)
    requires n.T?
  {
    {split} + (if j > 0 then {trimmed} else {}) + (if j + 1 < |n.data| then {postfix} else {})
  }

  ghost function PostfixPtr(n: Tree, j: nat, postfix: Ptr): (q: Ptr)
    requires n.T? && |n.kids| == 1
  {
    if j + 1 < |n.data| then postfix else n.kids[0].ptr
  }

  ghost predicate ApartBuilt(mem: Mem, n: Tree, m: RaxNode, j: nat, trimmed: Ptr, split: Ptr, postfix: Ptr)
    requires n.T? && |n.kids| == 1 && j < |n.data|
  {
    split in mem &&
    mem[split] == RaxNode(j == 0 && m.iskey, m.value, false, [n.data[j]], [PostfixPtr(n, j, postfix)]) &&
    (j > 0 ==> trimmed in mem && mem[trimmed] == RaxNode(m.iskey, m.value, j > 1, n.data[..j], [split])) &&
    (j + 1 < |n.data| ==>
      postfix in mem && mem[postfix] == RaxNode(false, 0, |n.data| - j - 1 > 1, n.data[j + 1..], [n.kids[0].ptr]))
  }

  lemma ApartRep(mem: Mem, n: Tree, m: RaxNode, j: nat, trimmed: Ptr, split: Ptr, postfix: Ptr)
    requires n.T? && Shape(n) && n.iscompr && j < |n.data| && Fits(m, n)
    requires Rep(mem, n.kids[0]) && ApartBuilt(mem, n, m, j, trimmed, split, postfix)
    ensures Rep(mem, Apart(n, j, trimmed, split, postfix))
  {
    var post := Postfix(n, j, postfix);
    if j + 1 < |n.data| { RunRep(mem, postfix, false, 0, n.data[j + 1..], n.kids[0]); }
    assert Rep(mem, post) && post.ptr == PostfixPtr(n, j, postfix);
    var s := T(split, j == 0 && n.iskey, n.value, false, [n.data[j]], [post]);
    assert Rep(mem, s);
  }

  lemma ApartUses(n: Tree, j: nat, trimmed: Ptr, split: Ptr, postfix: Ptr, c: Ptr)
    requires n.T? && Shape(n) && n.iscompr && j < |n.data|
    requires trimmed != split && trimmed != postfix && split != postfix
    ensures Uses(Apart(n, j, trimmed, split, postfix), c) ==
      UsesAll(n.kids, c) + One(c in ApartNodes(n, j, trimmed, split, postfix))
  {
    assert n.kids == [n.kids[0]];
    UsesOne(n.kids[0], c);
    var post := Postfix(n, j, postfix);
    if j + 1 < |n.data| { RunUses(postfix, false, 0, n.data[j + 1..], n.kids[0], c); }
    UsesOne(post, c);
    if j > 0 {
      RunUses(trimmed, n.iskey, n.value, n.data[..j], T(split, false, 0, false, [n.data[j]], [post]), c);
    }
  }

  lemma ApartTree(mem: Mem, mem2: Mem, t: Tree, p: seq<nat>, m: RaxNode, j: nat, trimmed: Ptr, split: Ptr, postfix: Ptr)
    requires Tidy(mem, t) && HasPath(t, p) && Sub(t, p).T? && Sub(t, p).iscompr && j < |Sub(t, p).data| &&
      Fits(m, Sub(t, p))
    requires trimmed != split && trimmed != postfix && split != postfix && Shape(Sub(t, p))
    requires ApartBuilt(mem2, Sub(t, p), m, j, trimmed, split, postfix)
    requires var q := if j == 0 then split else trimmed;
      Rebuilt(mem, mem2, t, p, q, ApartNodes(Sub(t, p), j, trimmed, split, postfix))
    ensures Tidy(mem2, Replace(t, p, Apart(Sub(t, p), j, trimmed, split, postfix)))
  {
    var n, extra := Sub(t, p), ApartNodes(Sub(t, p), j, trimmed, split, postfix);
    var s := Apart(n, j, trimmed, split, postfix);
    RebuiltKids(mem, mem2, t, p, s.ptr, extra);
    ApartRep(mem2, n, m, j, trimmed, split, postfix);
    ApartShape(n, j, trimmed, split, postfix);
    forall c: Ptr
      ensures Uses(s, c) == UsesAll(n.kids, c) + One(c in extra)
    {
      ApartUses(n, j, trimmed, split, postfix, c);
    }
    RebuiltTree(mem, mem2, t, p, s, extra);
  }

  /** Once the compressed node is apart, the insertion goes on at the split node. */
  lemma ApartGrowing(t: Tree, m: Map, s: Str, p: seq<nat>, i: nat, j: nat, trimmed: Ptr, split: Ptr, postfix: Ptr,
        r: Tree, p2: seq<nat>)
    requires t.T? && Stopped(t, s, p, i, j) && Sub(t, p).iscompr && i < |s| && Denotes(t, m) && KeyedBut(t, [])
    requires Shape(Sub(t, p)) && r == Replace(t, p, Apart(Sub(t, p), j, trimmed, split, postfix))
    requires p2 == if j == 0 then p else p + [0]
    ensures Growing(r, m, s, p2, i) && Sub(r, p2).ptr == split &&
      LinkOf(r, p2) == if j == 0 then LinkOf(t, p) else Slot(trimmed, 0)
  {
    hide Prefix;
    var n, w := Sub(t, p), Apart(Sub(t, p), j, trimmed, split, postfix);
    ApartShape(n, j, trimmed, split, postfix);
    ApartLookup(n, j, trimmed, split, postfix);
    ReplaceSame(t, p, w, m);
    ReplaceShape(t, p, w);
    KeyedAt(t, p);
    KeyedBelow(t, p);
    var post := Postfix(n, j, postfix);
    assert Keyed(post);
    if j == 0 {
      assert KeyedBut(w, []);
      KeyedReplace(t, p, w);
      ReplaceLink(t, p, w);
    } else {
      var sn := w.kids[0];
      assert KeyedBut(sn, []) && KeyedBut(w, [0]) by { assert [0][1..] == []; }
      KeyedStep(t, p, w, 0);
      PathStep(r, p, 0);
      PrefixStep(r, p, 0);
      LinkStep(r, p, 0);
      assert s[..i - j] + s[i - j..i] == s[..i];
    }
  }

  lemma {:induction false} ReplaceLink(t: Tree, p: seq<nat>, s: Tree)
    requires HasPath(t, p)
    ensures HasPath(Replace(t, p, s), p) && LinkOf(Replace(t, p, s), p) == LinkOf(t, p)
    ensures StackOf(Replace(t, p, s), p) == StackOf(t, p)
    decreases p
  {
    if p != [] { ReplaceLink(t.kids[p[0]], p[1..], s); }
  }

  /** The nodes have been built beside the old tree. */
  lemma BuiltApart(mem: Mem, memA: Mem, mem1: Mem, n: Tree, m: RaxNode, j: nat, trimmed: Ptr, split: Ptr, postfix: Ptr)
    requires n.T? && |n.kids| == 1 && j < |n.data| && Fits(m, n) && trimmed != split && trimmed != postfix &&
      split != postfix
    requires if j + 1 < |n.data| then postfix !in mem &&
        memA == mem[postfix := RaxNode(false, 0, |n.data| - j - 1 > 1, n.data[j + 1..], m.kids)] else memA == mem
    requires split !in memA && (j > 0 ==> trimmed !in memA)
    requires var sn := RaxNode(j == 0 && m.iskey, m.value, false, [n.data[j]], [PostfixPtr(n, j, postfix)]);
      mem1 == if j == 0 then memA[split := sn]
        else memA[split := sn][trimmed := RaxNode(m.iskey, m.value, j > 1, n.data[..j], [split])]
    ensures Extends(mem, mem1, ApartNodes(n, j, trimmed, split, postfix))
    ensures ApartBuilt(mem1, n, m, j, trimmed, split, postfix)
  {
    assert m.kids == [n.kids[0].ptr];
  }

  lemma BuiltStays(mem1: Mem, mem2: Mem, n: Tree, m: RaxNode, j: nat, trimmed: Ptr, split: Ptr, postfix: Ptr)
    requires n.T? && |n.kids| == 1 && j < |n.data| && ApartBuilt(mem1, n, m, j, trimmed, split, postfix)
    requires forall c :: c in ApartNodes(n, j, trimmed, split, postfix) ==> c in mem2 && mem2[c] == mem1[c]
    ensures ApartBuilt(mem2, n, m, j, trimmed, split, postfix)
  {
  }

  /** The whole of algorithm 1 in memory. */
  lemma ApartWhole(mem: Mem, mem1: Mem, mem2: Mem, t: Tree, p: seq<nat>, m: RaxNode, j: nat, top: Ptr, trimmed: Ptr,
        split: Ptr, postfix: Ptr)
    requires Tidy(mem, t) && HasPath(t, p) && Sub(t, p).T? && Sub(t, p).iscompr && j < |Sub(t, p).data| &&
      Fits(m, Sub(t, p))
    requires trimmed != split && trimmed != postfix && split != postfix && Shape(Sub(t, p))
    requires top == if j == 0 then split else trimmed
    requires Extends(mem, mem1, ApartNodes(Sub(t, p), j, trimmed, split, postfix))
    requires ApartBuilt(mem1, Sub(t, p), m, j, trimmed, split, postfix)
    requires mem2 == Without(LinkMem(mem1, LinkOf(t, p), top), Sub(t, p).ptr)
    ensures Tidy(mem2, Replace(t, p, Apart(Sub(t, p), j, trimmed, split, postfix)))
    ensures Apart(Sub(t, p), j, trimmed, split, postfix).ptr == top && Sub(t, p).ptr in LinkMem(mem1, LinkOf(t, p), top)
  {
    ExtendedRebuilt(mem, mem1, mem2, t, p, top, ApartNodes(Sub(t, p), j, trimmed, split, postfix));
    BuiltStays(mem1, mem2, Sub(t, p), m, j, trimmed, split, postfix);
    ApartTree(mem, mem2, t, p, m, j, trimmed, split, postfix);
    SubFacts(mem, t, p);
  }

  // ------------------------------------------------------------------
  // A compressed node broken in two
  // ------------------------------------------------------------------

  ghost predicate BrokenBuilt(mem: Mem, n: Tree, m: RaxNode, j: nat, trimmed: Ptr, postfix: Ptr, v: nat)
    requires n.T? && |n.kids| == 1 && j < |n.data|
  {
    trimmed in mem && mem[trimmed] == RaxNode(m.iskey, m.value, j > 1, n.data[..j], [postfix]) &&
    postfix in mem && mem[postfix] == RaxNode(true, v, |n.data| - j > 1, n.data[j..], [n.kids[0].ptr])
  }

  lemma BrokenTree(mem: Mem, mem2: Mem, t: Tree, p: seq<nat>, m: RaxNode, j: nat, trimmed: Ptr, postfix: Ptr, v: nat)
    requires Tidy(mem, t) && HasPath(t, p) && Sub(t, p).T? && Sub(t, p).iscompr && 1 <= j < |Sub(t, p).data| &&
      Fits(m, Sub(t, p))
    requires Shape(Sub(t, p)) && trimmed != postfix && BrokenBuilt(mem2, Sub(t, p), m, j, trimmed, postfix, v)
    requires Rebuilt(mem, mem2, t, p, trimmed, {trimmed, postfix})
    ensures Tidy(mem2, Replace(t, p, Broken(Sub(t, p), j, trimmed, postfix, true, v)))
  {
    var n, s := Sub(t, p), Broken(Sub(t, p), j, trimmed, postfix, true, v);
    RebuiltKids(mem, mem2, t, p, trimmed, {trimmed, postfix});
    RunRep(mem2, postfix, true, v, n.data[j..], n.kids[0]);
    var inner := Run(postfix, true, v, n.data[j..], n.kids[0]);
    assert Rep(mem2, inner);
    RunShape(postfix, true, v, n.data[j..], n.kids[0]);
    forall c: Ptr
      ensures Uses(s, c) == UsesAll(n.kids, c) + One(c in {trimmed, postfix})
    {
      assert n.kids == [n.kids[0]];
      UsesOne(n.kids[0], c);
      RunUses(postfix, true, v, n.data[j..], n.kids[0], c);
      RunUses(trimmed, n.iskey, n.value, n.data[..j], inner, c);
    }
    RebuiltTree(mem, mem2, t, p, s, {trimmed, postfix});
  }

  /** The whole of algorithm 2 in memory. */
  lemma BrokenWhole(mem: Mem, mem1: Mem, mem2: Mem, t: Tree, p: seq<nat>, m: RaxNode, j: nat, trimmed: Ptr,
        postfix: Ptr, v: nat)
    requires Tidy(mem, t) && HasPath(t, p) && Sub(t, p).T? && Sub(t, p).iscompr && 1 <= j < |Sub(t, p).data| &&
      Fits(m, Sub(t, p))
    requires Shape(Sub(t, p)) && trimmed != postfix && BrokenBuilt(mem1, Sub(t, p), m, j, trimmed, postfix, v)
    requires Extends(mem, mem1, {trimmed, postfix}) &&
      mem2 == Without(LinkMem(mem1, LinkOf(t, p), trimmed), Sub(t, p).ptr)
    ensures Tidy(mem2, Replace(t, p, Broken(Sub(t, p), j, trimmed, postfix, true, v)))
    ensures Sub(t, p).ptr in LinkMem(mem1, LinkOf(t, p), trimmed)
  {
    ExtendedRebuilt(mem, mem1, mem2, t, p, trimmed, {trimmed, postfix});
    BrokenTree(mem, mem2, t, p, m, j, trimmed, postfix, v);
    SubFacts(mem, t, p);
  }

  /** A node broken in two, with the lower part made a key afterwards. */
  lemma BrokenSteps(t: Tree, p: seq<nat>, j: nat, trimmed: Ptr, postfix: Ptr, v: nat)
    requires HasPath(t, p) && Sub(t, p).T? && |Sub(t, p).kids| == 1 && j <= |Sub(t, p).data|
    ensures var r := Replace(t, p, Broken(Sub(t, p), j, trimmed, postfix, false, 0));
      HasPath(r, p + [0]) && Sub(r, p + [0]) == Broken(Sub(t, p), j, trimmed, postfix, false, 0).kids[0] &&
      Replace(r, p + [0], WithKey(Sub(r, p + [0]), postfix, v)) ==
        Replace(t, p, Broken(Sub(t, p), j, trimmed, postfix, true, v))
  {
    var w, z := Broken(Sub(t, p), j, trimmed, postfix, false, 0), Broken(Sub(t, p), j, trimmed, postfix, true, v);
    var r := Replace(t, p, w);
    ReplaceTwice(t, p, w, z);
    PathStep(r, p, 0);
    var x := WithKey(w.kids[0], postfix, v);
    ReplaceStep(r, p, 0, x);
    assert w.kids[0 := x] == [x] == z.kids;
  }

  /** What algorithm 2 does to the map: the string ends where the node is broken. */
  lemma BrokenMeans(t: Tree, m: Map, s: Str, p: seq<nat>, j: nat, trimmed: Ptr, postfix: Ptr, v: nat)
    requires t.T? && Stopped(t, s, p, |s|, j) && Sub(t, p).iscompr && j > 0 && Denotes(t, m) && KeyedBut(t, [])
    requires |Sub(t, p).kids| == 1
    ensures Denotes(Replace(t, p, Broken(Sub(t, p), j, trimmed, postfix, true, v)), m[s := v]) && s !in m
    ensures KeyedBut(Replace(t, p, Broken(Sub(t, p), j, trimmed, postfix, true, v)), [])
  {
    var n, w := Sub(t, p), Broken(Sub(t, p), j, trimmed, postfix, false, 0);
    SubShape(t, p);
    StoppedLookup(t, s, p, |s|, j);
    BrokenLookup(n, j, trimmed, postfix);
    RunShape(postfix, false, 0, n.data[j..], n.kids[0]);
    RunShape(trimmed, n.iskey, n.value, n.data[..j], w.kids[0]);
    ReplaceSame(t, p, w, m);
    BrokenSteps(t, p, j, trimmed, postfix, v);
    BrokenPrefix(t, s, p, j, w);
    WithKeyLookup(w.kids[0], postfix, v);
    ReplaceRoot(Replace(t, p, w), p + [0], WithKey(w.kids[0], postfix, v), m, v);
    BrokenKeyed(t, p, j, trimmed, postfix, v);
  }

  lemma BrokenPrefix(t: Tree, s: Str, p: seq<nat>, j: nat, w: Tree)
    requires Stopped(t, s, p, |s|, j) && Sub(t, p).iscompr && j > 0
    requires w.T? && Shape(w) && |w.kids| == 1 && Edge(w, 0) == Sub(t, p).data[..j]
    ensures Shape(Replace(t, p, w)) && HasPath(Replace(t, p, w), p + [0]) && Prefix(Replace(t, p, w), p + [0]) == s
  {
    ReplaceShape(t, p, w);
    PrefixStep(Replace(t, p, w), p, 0);
    Halves(s, |s| - j);
  }

  lemma Halves(s: Str, i: nat)
    requires i <= |s|
    ensures s[..i] + s[i..|s|] == s
  {
  }

  lemma BrokenKeyed(t: Tree, p: seq<nat>, j: nat, trimmed: Ptr, postfix: Ptr, v: nat)
    requires t.T? && HasPath(t, p) && KeyedBut(t, []) && Sub(t, p).T? && |Sub(t, p).kids| == 1 && j < |Sub(t, p).data|
    ensures KeyedBut(Replace(t, p, Broken(Sub(t, p), j, trimmed, postfix, true, v)), [])
  {
    var s := Broken(Sub(t, p), j, trimmed, postfix, true, v);
    KeyedAt(t, p);
    KeyedBelow(t, p);
    assert Keyed(s.kids[0]) && Keyed(s) && KeyedBut(s, []);
    KeyedReplace(t, p, s);
    ReplaceSub(t, p, s);
    KeyedAll(Replace(t, p, s), p);
  }

  lemma {:induction false} ReplaceSub(t: Tree, p: seq<nat>, s: Tree)
    requires HasPath(t, p)
    ensures HasPath(Replace(t, p, s), p) && Sub(Replace(t, p, s), p) == s
    decreases p
  {
    if p != [] { ReplaceSub(t.kids[p[0]], p[1..], s); }
  }

  /** Making the node at path p a key with value v, for the string that leads there. */
  lemma StoreMeans(t: Tree, m: Map, p: seq<nat>, q: Ptr, v: nat)
    requires t.T? && Shape(t) && HasPath(t, p) && Sub(t, p).T? && Denotes(t, m) && KeyedBut(t, p)
    ensures Denotes(Replace(t, p, WithKey(Sub(t, p), q, v)), m[Prefix(t, p) := v])
    ensures KeyedBut(Replace(t, p, WithKey(Sub(t, p), q, v)), []) && Replace(t, p, WithKey(Sub(t, p), q, v)).T?
    ensures Sub(t, p).iskey <==> Prefix(t, p) in m
    ensures Sub(t, p).iskey ==> m[Prefix(t, p)] == Sub(t, p).value
  {
    var s := WithKey(Sub(t, p), q, v);
    SubShape(t, p);
    WithKeyLookup(Sub(t, p), q, v);
    ReplaceRoot(t, p, s, m, v);
    DenotesAt(t, p, m);
    KeyedBelow(t, p);
    KeyedReplace(t, p, s);
    ReplaceSub(t, p, s);
    KeyedAll(Replace(t, p, s), p);
  }

  lemma MapSize(m: Map, s: Str, v: nat)
    ensures |m[s := v]| == |m| + One(s !in m)
  {
    assert m[s := v].Keys == m.Keys + {s};
  }

  lemma MapLess(m: Map, s: Str)
    ensures |m - {s}| == |m| - One(s in m)
  {
    assert (m - {s}).Keys == m.Keys - {s};
  }
}
