/** The radix tree in memory: which nodes it occupies, and grafting a new subtree into it. */
module RaxHeap {
  import opened Bytes
  import opened RaxModel

  type Mem = map<Ptr, RaxNode>

  /** How often the tree occupies address c. */
  ghost function Uses(t: Tree, c: Ptr): (n: nat)
    decreases t, 0
  {
    if t.Gone? then 0 else One(t.ptr == c) + UsesAll(t.kids, c)
  }

  ghost function UsesAll(ts: seq<Tree>, c: Ptr): (n: nat)
    decreases ts, 1
  {
    if ts == [] then 0 else Uses(ts[0], c) + UsesAll(ts[1..], c)
  }

  lemma {:induction false} UsesAllConcat(a: seq<Tree>, b: seq<Tree>, c: Ptr)
    ensures UsesAll(a + b, c) == UsesAll(a, c) + UsesAll(b, c)
  {
    if a == [] {
      assert a + b == b;
    } else {
      UsesAllConcat(a[1..], b, c);
      assert (a + b)[1..] == a[1..] + b;
    }
  }

  lemma UsesAllSplit(ts: seq<Tree>, i: nat, c: Ptr)
    requires i < |ts|
    ensures UsesAll(ts, c) == UsesAll(ts[..i], c) + Uses(ts[i], c) + UsesAll(ts[i + 1..], c)
  {
    UsesAllConcat(ts[..i], ts[i..], c);
    assert ts == ts[..i] + ts[i..];
    assert ts[i..][1..] == ts[i + 1..];
  }

  lemma UsesKids(t: Tree, i: nat, j: nat, c: Ptr)
    requires t.T? && i < |t.kids| && j < |t.kids|
    ensures One(t.ptr == c) + Uses(t.kids[i], c) <= Uses(t, c)
    ensures i != j ==> One(t.ptr == c) + Uses(t.kids[i], c) + Uses(t.kids[j], c) <= Uses(t, c)
  {
    UsesAllSplit(t.kids, i, c);
    if j < i {
      UsesAllSplit(t.kids[..i], j, c);
    } else if i < j {
      UsesAllSplit(t.kids[i + 1..], j - i - 1, c);
      assert t.kids[i + 1..][j - i - 1] == t.kids[j];
    }
  }

  lemma {:induction false} SubUses(t: Tree, p: seq<nat>, c: Ptr)
    requires HasPath(t, p)
    ensures Uses(Sub(t, p), c) <= Uses(t, c)
    ensures p != [] ==> Uses(Sub(t, p), c) + One(t.ptr == c) <= Uses(t, c)
    decreases p
  {
    if p != [] {
      SubUses(t.kids[p[0]], p[1..], c);
      UsesKids(t, p[0], p[0], c);
    }
  }

  lemma {:induction false} ReplaceUses(t: Tree, p: seq<nat>, s: Tree, c: Ptr)
    requires HasPath(t, p)
    ensures Uses(Replace(t, p, s), c) + Uses(Sub(t, p), c) == Uses(t, c) + Uses(s, c)
    decreases p
  {
    if p != [] {
      var i := p[0];
      var kids := t.kids[i := Replace(t.kids[i], p[1..], s)];
      ReplaceUses(t.kids[i], p[1..], s, c);
      UsesAllSplit(t.kids, i, c);
      UsesAllSplit(kids, i, c);
      assert kids[..i] == t.kids[..i] && kids[i + 1..] == t.kids[i + 1..];
    }
  }

  // ------------------------------------------------------------------
  // A tree in memory
  // ------------------------------------------------------------------

  /** The node is as the tree has it; a value counts only in a key. */
  ghost predicate Fits(n: RaxNode, t: Tree) {
    t.T? && n.iskey == t.iskey && (t.iskey ==> n.value == t.value) && n.iscompr == t.iscompr && n.data == t.data &&
    |n.kids| == |t.kids| && forall i :: 0 <= i < |t.kids| ==> n.kids[i] == t.kids[i].ptr
  }

  ghost predicate Held(mem: Mem, t: Tree) {
    t.T? && t.ptr in mem && Fits(mem[t.ptr], t)
  }

  ghost predicate Rep(mem: Mem, t: Tree) {
    t.Gone? || (Held(mem, t) && forall i :: 0 <= i < |t.kids| ==> Rep(mem, t.kids[i]))
  }

  /** Memory holds the nodes of `t`, each once, and nothing else. */
  ghost predicate Tidy(mem: Mem, t: Tree) {
    Rep(mem, t) && Shape(t) && forall c: Ptr :: Uses(t, c) == One(c in mem)
  }

  /** `mem2` has the tree's nodes as in `mem`. */
  ghost predicate Spares(mem: Mem, mem2: Mem, t: Tree) {
    forall c: Ptr :: Uses(t, c) > 0 && c in mem ==> c in mem2 && mem2[c] == mem[c]
  }

  lemma {:induction false} RepSame(mem: Mem, mem2: Mem, t: Tree)
    requires Rep(mem, t) && Spares(mem, mem2, t)
    ensures Rep(mem2, t)
  {
    if t.T? {
      forall i | 0 <= i < |t.kids|
        ensures Rep(mem2, t.kids[i])
      {
        forall c: Ptr | Uses(t.kids[i], c) > 0 && c in mem
          ensures c in mem2 && mem2[c] == mem[c]
        {
          UsesKids(t, i, i, c);
        }
        RepSame(mem, mem2, t.kids[i]);
      }
    }
  }

  lemma {:induction false} SubRep(mem: Mem, t: Tree, p: seq<nat>)
    requires Rep(mem, t) && HasPath(t, p)
    ensures Rep(mem, Sub(t, p))
    decreases p
  {
    if p != [] { SubRep(mem, t.kids[p[0]], p[1..]); }
  }

  // ------------------------------------------------------------------
  // Links
  // ------------------------------------------------------------------

  /** Where a node's address is stored: the head pointer, or a slot of its parent. */
  datatype Link = Head | Slot(node: Ptr, index: nat)

  ghost function LinkOf(t: Tree, p: seq<nat>): (l: Link)
    requires HasPath(t, p)
    ensures l.Slot? <==> p != []
    decreases p
  {
    if p == [] then Head
    else if |p| == 1 then Slot(t.ptr, p[0])
    else LinkOf(t.kids[p[0]], p[1..])
  }

  lemma {:induction false} LinkStep(t: Tree, p: seq<nat>, i: nat)
    requires HasPath(t, p) && Sub(t, p).T? && i < |Sub(t, p).kids|
    ensures HasPath(t, p + [i]) && LinkOf(t, p + [i]) == Slot(Sub(t, p).ptr, i)
    decreases p
  {
    PathStep(t, p, i);
    if p != [] {
      LinkStep(t.kids[p[0]], p[1..], i);
      assert (p + [i])[1..] == p[1..] + [i];
    }
  }

  /** The node that holds the link lies above the node linked. */
  lemma {:induction false} LinkAbove(t: Tree, p: seq<nat>)
    requires HasPath(t, p) && p != []
    ensures LinkOf(t, p).Slot? && Uses(Sub(t, p), LinkOf(t, p).node) < Uses(t, LinkOf(t, p).node)
    decreases p
  {
    var i, c := p[0], LinkOf(t, p).node;
    if |p| == 1 {
      UsesKids(t, i, i, c);
      assert Sub(t, p) == t.kids[i];
    } else {
      LinkAbove(t.kids[i], p[1..]);
      UsesKids(t, i, i, c);
    }
  }

  /** Node n at address c, after the link has been set to q. */
  ghost function Relinked(n: RaxNode, c: Ptr, l: Link, q: Ptr): (m: RaxNode) {
    if l.Slot? && l.node == c && l.index < |n.kids| then n.(kids := n.kids[l.index := q]) else n
  }

  ghost predicate Outside(t: Tree, p: seq<nat>, c: Ptr)
    requires HasPath(t, p)
  {
    Uses(t, c) > Uses(Sub(t, p), c)
  }

  /** Outside the subtree at p, memory has only changed in that the link there points to q. */
  ghost predicate Regrafted(mem: Mem, mem2: Mem, t: Tree, p: seq<nat>, q: Ptr)
    requires HasPath(t, p)
  {
    forall c: Ptr :: Outside(t, p, c) && c in mem ==> c in mem2 && mem2[c] == Relinked(mem[c], c, LinkOf(t, p), q)
  }

  ghost predicate Unshared(t: Tree) {
    forall c: Ptr :: Uses(t, c) <= 1
  }

  lemma UnsharedKid(t: Tree, i: nat)
    requires t.T? && Unshared(t) && i < |t.kids|
    ensures Unshared(t.kids[i])
  {
    forall c: Ptr ensures Uses(t.kids[i], c) <= 1 { UsesKids(t, i, i, c); }
  }

  /** The other kids of a node on the path are as they were. */
  lemma OtherKid(mem: Mem, mem2: Mem, t: Tree, p: seq<nat>, q: Ptr, j: nat)
    requires Rep(mem, t) && HasPath(t, p) && p != [] && Unshared(t) && Regrafted(mem, mem2, t, p, q)
    requires j < |t.kids| && j != p[0]
    ensures Rep(mem2, t.kids[j])
  {
    var l := LinkOf(t, p).node;
    LinkAbove(t, p);
    SubUses(t.kids[p[0]], p[1..], l);
    UsesKids(t, p[0], j, l);
    LinkInKid(t, p);
    forall c: Ptr | Uses(t.kids[j], c) > 0 && c in mem
      ensures c in mem2 && mem2[c] == mem[c]
    {
      UsesKids(t, p[0], j, c);
      SubUses(t.kids[p[0]], p[1..], c);
      assert Outside(t, p, c);
    }
    RepSame(mem, mem2, t.kids[j]);
  }

  /** The link's node is the root, or in the kid that the path goes through. */
  lemma {:induction false} LinkInKid(t: Tree, p: seq<nat>)
    requires HasPath(t, p) && p != []
    ensures LinkOf(t, p).Slot? && (t.ptr == LinkOf(t, p).node || Uses(t.kids[p[0]], LinkOf(t, p).node) > 0)
    decreases p
  {
    if |p| > 1 {
      LinkInKid(t.kids[p[0]], p[1..]);
      var k := t.kids[p[0]];
      UsesKids(k, p[1..][0], p[1..][0], LinkOf(t, p).node);
    }
  }

  lemma {:induction false} GraftRep(mem: Mem, mem2: Mem, t: Tree, p: seq<nat>, s: Tree)
    requires Rep(mem, t) && HasPath(t, p) && Unshared(t)
    requires Regrafted(mem, mem2, t, p, s.ptr) && Rep(mem2, s)
    ensures Rep(mem2, Replace(t, p, s))
    decreases p
  {
    if p != [] {
      var i, r := p[0], Replace(t, p, s);
      GraftRoot(mem, mem2, t, p, s);
      GraftBelow(mem, mem2, t, p, s.ptr);
      UnsharedKid(t, i);
      GraftRep(mem, mem2, t.kids[i], p[1..], s);
      forall j | 0 <= j < |r.kids|
        ensures Rep(mem2, r.kids[j])
      {
        if j != i { OtherKid(mem, mem2, t, p, s.ptr, j); }
      }
    }
  }

  lemma GraftBelow(mem: Mem, mem2: Mem, t: Tree, p: seq<nat>, q: Ptr)
    requires HasPath(t, p) && p != [] && Unshared(t) && Regrafted(mem, mem2, t, p, q)
    ensures |p| > 1 ==> Regrafted(mem, mem2, t.kids[p[0]], p[1..], q)
    ensures |p| == 1 ==> forall c: Ptr :: !Outside(t.kids[p[0]], p[1..], c)
  {
    forall c: Ptr
      ensures Outside(t.kids[p[0]], p[1..], c) ==> Outside(t, p, c)
    {
      UsesKids(t, p[0], p[0], c);
    }
    if |p| == 1 { assert p[1..] == []; }
  }

  /** The root of a tree is linked from elsewhere than below it. */
  lemma GraftRoot(mem: Mem, mem2: Mem, t: Tree, p: seq<nat>, s: Tree)
    requires Rep(mem, t) && HasPath(t, p) && p != [] && Unshared(t) && Regrafted(mem, mem2, t, p, s.ptr)
    ensures Held(mem2, Replace(t, p, s))
  {
    SubUses(t, p, t.ptr);
    UsesKids(t, p[0], p[0], t.ptr);
    assert Outside(t, p, t.ptr);
    if |p| > 1 {
      LinkAbove(t.kids[p[0]], p[1..]);
      KeepsPtr(t.kids[p[0]], p[1..], s);
    } else {
      assert p[1..] == [];
    }
  }

  lemma KeepsPtr(t: Tree, p: seq<nat>, s: Tree)
    requires HasPath(t, p) && p != []
    ensures Replace(t, p, s).ptr == t.ptr
  {
  }

  /** The counts add up after `s` has come in for the subtree at p. */
  ghost predicate Balanced(t: Tree, o: Tree, s: Tree, mem2: Mem) {
    forall c: Ptr :: Uses(t, c) + Uses(s, c) == Uses(o, c) + One(c in mem2)
  }

  /** Grafting: the link at p points to a new subtree, which is in memory, and
      what is no longer needed has been freed. */
  lemma Graft(mem: Mem, mem2: Mem, t: Tree, p: seq<nat>, s: Tree)
    requires Tidy(mem, t) && HasPath(t, p) && Regrafted(mem, mem2, t, p, s.ptr)
    requires Rep(mem2, s) && Shape(s) && Balanced(t, Sub(t, p), s, mem2)
    ensures Tidy(mem2, Replace(t, p, s))
  {
    GraftRep(mem, mem2, t, p, s);
    ReplaceShape(t, p, s);
    forall c: Ptr ensures Uses(Replace(t, p, s), c) == One(c in mem2) { ReplaceUses(t, p, s, c); }
  }
}
