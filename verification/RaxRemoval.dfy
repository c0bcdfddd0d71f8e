/** What removal does: keys cleared, dead nodes reclaimed, chains merged. */
module RaxRemoval {
  import opened Bytes
  import opened RaxModel
  import opened RaxHeap
  import opened RaxChange
  import opened RaxWalk

  // ------------------------------------------------------------------
  // Up the path
  // ------------------------------------------------------------------

  /** The parent of the node at a path. */
  lemma {:induction false} LastStep(t: Tree, p: seq<nat>) returns (q: seq<nat>, i: nat)
    requires HasPath(t, p) && p != []
    ensures p == q + [i] && HasPath(t, q) && Sub(t, q).T? && i < |Sub(t, q).kids| && Sub(t, p) == Sub(t, q).kids[i]
    ensures StackOf(t, p) == StackOf(t, q) + [Sub(t, q).ptr] && LinkOf(t, p) == Slot(Sub(t, q).ptr, i)
    decreases p
  {
    if |p| == 1 {
      q, i := [], p[0];
      assert p == [] + [i] && p[1..] == [];
    } else {
      q, i := LastStep(t.kids[p[0]], p[1..]);
      q := [p[0]] + q;
      assert p == [p[0]] + p[1..];
      assert q[1..] + [i] == p[1..];
    }
    StackStep(t, q, i);
    LinkStep(t, q, i);
  }

  /** Only the root has the root's address. */
  lemma RootApart(mem: Mem, t: Tree, p: seq<nat>)
    requires Tidy(mem, t) && HasPath(t, p) && Sub(t, p).T?
    ensures Sub(t, p).ptr == t.ptr <==> p == []
  {
    if p != [] { SubUses(t, p, t.ptr); SubUses(t, p, Sub(t, p).ptr); }
  }

  // ------------------------------------------------------------------
  // Dead nodes
  // ------------------------------------------------------------------

  /** Every leaf is a key, leaving aside what hangs at q. */
  ghost predicate KeyedUpTo(t: Tree, q: seq<nat>)
    requires HasPath(t, q)
  {
    q != [] ==> (forall j :: 0 <= j < |t.kids| && j != q[0] ==> Keyed(t.kids[j])) && KeyedUpTo(t.kids[q[0]], q[1..])
  }

  lemma {:induction false} UpToBut(t: Tree, q: seq<nat>)
    requires HasPath(t, q)
    ensures KeyedBut(t, q) <==> KeyedUpTo(t, q) && KeyedBut(Sub(t, q), [])
    decreases q
  {
    if q != [] { UpToBut(t.kids[q[0]], q[1..]); }
  }

  lemma {:induction false} UpToReplace(t: Tree, q: seq<nat>, s: Tree)
    requires HasPath(t, q) && KeyedUpTo(t, q)
    ensures HasPath(Replace(t, q, s), q) && KeyedUpTo(Replace(t, q, s), q)
    decreases q
  {
    if q != [] { UpToReplace(t.kids[q[0]], q[1..], s); }
  }

  lemma {:induction false} UpToStep(t: Tree, q: seq<nat>, i: nat)
    requires HasPath(t, q) && Sub(t, q).T? && i < |Sub(t, q).kids| && HasPath(t, q + [i]) && KeyedUpTo(t, q + [i])
    ensures KeyedUpTo(t, q) && forall x :: 0 <= x < |Sub(t, q).kids| && x != i ==> Keyed(Sub(t, q).kids[x])
    decreases q
  {
    if q != [] {
      assert (q + [i])[1..] == q[1..] + [i];
      UpToStep(t.kids[q[0]], q[1..], i);
    } else {
      assert q + [i] == [i];
    }
  }

  ghost predicate Dead(n: Tree) {
    n.T? && !n.iskey && |n.kids| <= 1 && (n.kids != [] ==> n.kids[0].Gone?)
  }

  /** The node at path p stands for nothing; the rest of the tree is as it should be. */
  ghost predicate Dying(t: Tree, p: seq<nat>, m: Map) {
    t.T? && HasPath(t, p) && Shape(t) && Denotes(t, m) && KeyedUpTo(t, p) && Dead(Sub(t, p))
  }

  /** Child j of the node at path p has been freed, but is still linked. */
  ghost predicate Hanging(t: Tree, p: seq<nat>, j: nat, m: Map) {
    t.T? && HasPath(t, p) && Sub(t, p).T? && Shape(t) && Denotes(t, m) && KeyedUpTo(t, p) &&
    j < |Sub(t, p).kids| && Sub(t, p).kids[j].Gone? &&
    forall x :: 0 <= x < |Sub(t, p).kids| && x != j ==> Keyed(Sub(t, p).kids[x])
  }

  lemma ClearMeans(t: Tree, m: Map, p: seq<nat>, r: Tree, m2: Map)
    requires t.T? && Shape(t) && HasPath(t, p) && Sub(t, p).T? && Denotes(t, m) && KeyedBut(t, []) && Sub(t, p).iskey
    requires r == Replace(t, p, WithoutKey(Sub(t, p))) && m2 == m - {Prefix(t, p)}
    ensures Denotes(r, m2) && |m2| == |m| - 1 && Shape(r) && HasPath(r, p) && Sub(r, p) == WithoutKey(Sub(t, p))
    ensures r.T? && StackOf(r, p) == StackOf(t, p) && r.ptr == t.ptr
    ensures Sub(t, p).kids != [] ==> KeyedBut(r, [])
    ensures Sub(t, p).kids == [] ==> Dying(r, p, m2)
  {
    var s := WithoutKey(Sub(t, p));
    SubShape(t, p);
    WithoutKeyLookup(Sub(t, p));
    DenotesAt(t, p, m);
    MapLess(m, Prefix(t, p));
    RemoveRoot(t, p, s, m);
    ReplaceShape(t, p, s);
    KeyedAt(t, p);
    KeyedBelow(t, p);
    KeyedReplace(t, p, s);
    ReplaceLink(t, p, s);
    if s.kids != [] { KeyedAll(r, p); } else { UpToBut(r, p); }
  }

  /** Freeing a dead node leaves its parent with a hanging child. */
  lemma DieMeans(t: Tree, m: Map, p: seq<nat>, q: seq<nat>, i: nat, r: Tree)
    requires Dying(t, p, m) && p == q + [i] && HasPath(t, q) && Sub(t, q).T? && i < |Sub(t, q).kids|
    requires r == Replace(t, p, Gone(Sub(t, p).ptr))
    ensures Hanging(r, q, i, m) && Sub(r, q).kids[i] == Gone(Sub(t, p).ptr) && StackOf(r, q) == StackOf(t, q)
    ensures Sub(r, q).ptr == Sub(t, q).ptr && r.ptr == t.ptr
  {
    var g, n := Gone(Sub(t, p).ptr), Sub(t, q);
    DeadLookup(Sub(t, p), Sub(t, p).ptr);
    ReplaceSame(t, p, g, m);
    ReplaceShape(t, p, g);
    UpToStep(t, q, i);
    ReplaceStep(t, q, i, g);
    var w := T(n.ptr, n.iskey, n.value, n.iscompr, n.data, n.kids[i := g]);
    UpToReplace(t, q, w);
    ReplaceLink(t, q, w);
    ReplaceSub(t, q, w);
  }

  /** Unlinking the child that is gone makes the tree whole again, unless the node is
      left as a leaf that is no key, below the root. */
  lemma UnlinkMeans(t: Tree, m: Map, p: seq<nat>, j: nat, q: Ptr, r: Tree)
    requires Hanging(t, p, j, m) && Shape(Sub(t, p))
    requires r == Replace(t, p, Moved(WithoutChild(Sub(t, p), j), q))
    requires p == [] || Sub(t, p).iskey || |Sub(t, p).kids| > 1
    ensures Shape(r) && Denotes(r, m) && KeyedBut(r, []) && HasPath(r, p) &&
      Sub(r, p) == Moved(WithoutChild(Sub(t, p), j), q)
    ensures r.T? && StackOf(r, p) == StackOf(t, p)
  {
    var s := WithoutChild(Sub(t, p), j);
    var w := Moved(s, q);
    WithoutChildLookup(Sub(t, p), j);
    MovedSame(s, q);
    SameTrans(w, s, Sub(t, p));
    ReplaceSame(t, p, w, m);
    ReplaceShape(t, p, w);
    UpToReplace(t, p, w);
    ReplaceLink(t, p, w);
    assert KeyedBut(w, []) by { WithoutKeyed(Sub(t, p), j); }
    UpToBut(r, p);
    KeyedAll(r, p);
  }

  ghost function Moved(t: Tree, q: Ptr): (s: Tree)
    requires t.T?
  {
    T(q, t.iskey, t.value, t.iscompr, t.data, t.kids)
  }

  lemma WithoutKeyed(n: Tree, j: nat)
    requires n.T? && Shape(n) && j < |n.kids| && forall x :: 0 <= x < |n.kids| && x != j ==> Keyed(n.kids[x])
    ensures forall x :: 0 <= x < |WithoutChild(n, j).kids| ==> Keyed(WithoutChild(n, j).kids[x])
  {
    if !n.iscompr {
      forall x | 0 <= x < |WithoutChild(n, j).kids|
        ensures Keyed(WithoutChild(n, j).kids[x])
      {
        assert WithoutChild(n, j).kids[x] == n.kids[if x < j then x else x + 1];
      }
    }
  }

  // ------------------------------------------------------------------
  // In memory
  // ------------------------------------------------------------------

  /** Freeing a node whose kids are all gone. */
  lemma DieTree(mem: Mem, t: Tree, p: seq<nat>)
    requires Tidy(mem, t) && HasPath(t, p) && Dead(Sub(t, p))
    ensures Sub(t, p).ptr in mem && Tidy(Without(mem, Sub(t, p).ptr), Replace(t, p, Gone(Sub(t, p).ptr)))
  {
    var n := Sub(t, p);
    SubFacts(mem, t, p);
    RegraftSame(mem, Without(mem, n.ptr), t, p);
    forall c: Ptr
      ensures Uses(t, c) + Uses(Gone(n.ptr), c) == Uses(n, c) + One(c in Without(mem, n.ptr))
    {
      DeadUses(n, c);
    }
    Graft(mem, Without(mem, n.ptr), t, p, Gone(n.ptr));
  }

  lemma DeadUses(n: Tree, c: Ptr)
    requires Dead(n)
    ensures Uses(n, c) == One(n.ptr == c)
  {
    if n.kids != [] {
      assert n.kids == [n.kids[0]];
      UsesOne(n.kids[0], c);
    }
  }

  /** The node without its child j that is gone, wherever it has been moved to. */
  lemma UnlinkTree(mem: Mem, mem2: Mem, t: Tree, p: seq<nat>, j: nat, q: Ptr)
    requires Tidy(mem, t) && HasPath(t, p) && Sub(t, p).T? && Shape(Sub(t, p)) && j < |Sub(t, p).kids| &&
      Sub(t, p).kids[j].Gone?
    requires Rebuilt(mem, mem2, t, p, q, {q}) && Fits(mem2[q], Moved(WithoutChild(Sub(t, p), j), q))
    ensures Tidy(mem2, Replace(t, p, Moved(WithoutChild(Sub(t, p), j), q)))
  {
    var n, s := Sub(t, p), Moved(WithoutChild(Sub(t, p), j), q);
    RebuiltKids(mem, mem2, t, p, q, {q});
    WithoutChildLookup(n, j);
    forall x | 0 <= x < |s.kids|
      ensures Rep(mem2, s.kids[x])
    {
      assert s.kids[x] == n.kids[if x < j then x else x + 1];
    }
    forall c: Ptr
      ensures Uses(s, c) == UsesAll(n.kids, c) + One(c in {q})
    {
      WithoutUses(n, j, c);
    }
    RebuiltTree(mem, mem2, t, p, s, {q});
  }

  lemma WithoutUses(n: Tree, j: nat, c: Ptr)
    requires n.T? && Shape(n) && j < |n.kids| && n.kids[j].Gone?
    ensures UsesAll(WithoutChild(n, j).kids, c) == UsesAll(n.kids, c)
  {
    UsesAllSplit(n.kids, j, c);
    if n.iscompr {
      assert n.kids[..j] == [] && n.kids[j + 1..] == [];
    } else {
      UsesAllConcat(n.kids[..j], n.kids[j + 1..], c);
    }
  }

  // ------------------------------------------------------------------
  // Chains
  // ------------------------------------------------------------------

  /** The edge bytes along a chain of nodes that are no keys and have one child each. */
  ghost function ChainData(t: Tree): (d: Str) {
    if Passing(t) then t.data + ChainData(t.kids[0]) else []
  }

  /** The first node that is not in the chain. */
  ghost function ChainTail(t: Tree): (s: Tree) {
    if Passing(t) then ChainTail(t.kids[0]) else t
  }

  ghost function ChainNodes(t: Tree): (x: set<Ptr>) {
    if Passing(t) then {t.ptr} + ChainNodes(t.kids[0]) else {}
  }

  ghost function ChainLen(t: Tree): (n: nat) {
    if Passing(t) then 1 + ChainLen(t.kids[0]) else 0
  }

  lemma {:induction false} ChainSame(t: Tree, q: Ptr)
    requires Passing(t) && Shape(t)
    ensures |ChainData(t)| >= 1 && Shape(ChainTail(t))
    ensures SameLookup(Run(q, false, 0, ChainData(t), ChainTail(t)), t)
    decreases t
  {
    var kid := t.kids[0];
    assert t.kids == [kid];
    if Passing(kid) {
      ChainSame(kid, kid.ptr);
      var d, e := ChainData(kid), ChainTail(kid);
      RunBreak(q, false, 0, t.data + d, |t.data|, kid.ptr, 0, e);
      assert (t.data + d)[..|t.data|] == t.data && (t.data + d)[|t.data|..] == d;
      RunSame(q, false, 0, t.data, Run(kid.ptr, false, 0, d, e), kid);
      forall k: Str
        ensures Lookup(Run(q, false, 0, t.data + d, e), k) == Lookup(t, k)
      {
        assert Lookup(Run(q, false, 0, t.data, Run(kid.ptr, false, 0, d, e)), k) ==
          Lookup(Run(q, false, 0, t.data + d, e), k);
        assert Lookup(Run(q, false, 0, t.data, kid), k) == Lookup(t, k) by { RunIs(t, q, k); }
      }
    } else {
      assert t.data + [] == t.data;
      forall k: Str ensures Lookup(Run(q, false, 0, t.data, kid), k) == Lookup(t, k) { RunIs(t, q, k); }
    }
  }

  /** A link is a run. */
  lemma RunIs(t: Tree, q: Ptr, k: Str)
    requires Passing(t) && Shape(t)
    ensures Lookup(Run(q, false, 0, t.data, t.kids[0]), k) == Lookup(t, k)
  {
    assert t.kids == [t.kids[0]];
  }

  lemma {:induction false} ChainUses(t: Tree, c: Ptr)
    requires forall d: Ptr :: Uses(t, d) <= 1
    ensures Uses(t, c) == One(c in ChainNodes(t)) + Uses(ChainTail(t), c)
    decreases t
  {
    if Passing(t) {
      assert t.kids == [t.kids[0]];
      forall d: Ptr
        ensures Uses(t.kids[0], d) <= 1 && Uses(t, d) == One(t.ptr == d) + Uses(t.kids[0], d)
      {
        UsesOne(t.kids[0], d);
        assert Uses(t, d) <= 1;
      }
      ChainUses(t.kids[0], c);
      assert t.ptr in ChainNodes(t.kids[0]) ==> Uses(t.kids[0], t.ptr) > 0 by { ChainUses(t.kids[0], t.ptr); }
    }
  }

  lemma {:induction false} ChainKeyed(t: Tree)
    requires Passing(t) && forall i :: 0 <= i < |t.kids| ==> Keyed(t.kids[i])
    ensures Keyed(ChainTail(t))
    decreases t
  {
    if Passing(t.kids[0]) { ChainKeyed(t.kids[0]); }
  }

  /** Below every node with keyed leaves there is a key. */
  lemma {:induction false} SomeKey(t: Tree) returns (k: Str)
    requires Keyed(t) && Shape(t)
    ensures Lookup(t, k).Some?
  {
    if t.kids == [] {
      k := [];
    } else {
      var r := SomeKey(t.kids[0]);
      k := Edge(t, 0) + r;
      LookupKid(t, 0, k);
    }
  }

  /** A chain leads to a key. */
  lemma ChainKey(u: Tree) returns (k: Str)
    requires Passing(u) && Shape(u) && forall i :: 0 <= i < |u.kids| ==> Keyed(u.kids[i])
    ensures Lookup(u, k).Some? && |ChainData(u)| <= |k|
  {
    ChainKeyed(u);
    ChainSame(u, 0);
    var r := SomeKey(ChainTail(u));
    k := ChainData(u) + r;
    RunLookup(0, false, 0, ChainData(u), ChainTail(u), k);
    assert k[|ChainData(u)|..] == r;
  }

  /** A run is no longer than the longest key. */
  lemma {:induction false} ShortRuns(t: Tree, n: nat)
    requires t.T? && Shape(t) && (forall i :: 0 <= i < |t.kids| ==> Keyed(t.kids[i]))
    requires forall k: Str :: Lookup(t, k).Some? ==> |k| <= n
    ensures Narrow(t, n)
    decreases t
  {
    forall i | 0 <= i < |t.kids|
      ensures |Edge(t, i)| <= n && Narrow(t.kids[i], n)
    {
      forall k: Str | Lookup(t.kids[i], k).Some?
        ensures |Edge(t, i)| + |k| <= n
      {
        var all := Edge(t, i) + k;
        assert all[|Edge(t, i)|..] == k;
        LookupKid(t, i, all);
      }
      var some := SomeKey(t.kids[i]);
      ShortRuns(t.kids[i], n);
    }
    if t.iscompr { assert |Edge(t, 0)| <= n; }
  }

  lemma ShortNarrow(t: Tree, m: Map, n: nat)
    requires t.T? && Shape(t) && KeyedBut(t, []) && Denotes(t, m) && forall k :: k in m ==> |k| <= n
    ensures Narrow(t, n)
  {
    forall k: Str | Lookup(t, k).Some?
      ensures |k| <= n
    {
      DenotesFor(t, m, k);
    }
    ShortRuns(t, n);
  }

  // ------------------------------------------------------------------
  // The two loops over a chain
  // ------------------------------------------------------------------

  ghost function Sum(sizes: seq<nat>): (n: nat) {
    if sizes == [] then 0 else sizes[0] + Sum(sizes[1..])
  }

  /** What the first loop counts: as many nodes as fit `limit` bytes, given the bytes so far. */
  ghost function Counted(sizes: seq<nat>, sofar: nat, limit: nat): (n: nat) {
    if sizes == [] || sofar + sizes[0] > limit then sofar else Counted(sizes[1..], sofar + sizes[0], limit)
  }

  /** The first loop makes room for what the second one copies if and only if the whole chain
      fits a node: only the first stops at the limit. */
  lemma {:induction false} LoopsAgree(sizes: seq<nat>, sofar: nat, limit: nat)
    requires sofar <= limit && forall i :: 0 <= i < |sizes| ==> sizes[i] >= 1
    ensures Counted(sizes, sofar, limit) == sofar + Sum(sizes) <==> sofar + Sum(sizes) <= limit
    ensures Counted(sizes, sofar, limit) <= limit
    decreases |sizes|
  {
    if sizes != [] && sofar + sizes[0] <= limit {
      LoopsAgree(sizes[1..], sofar + sizes[0], limit);
    }
  }

  /** A chain on which they do not: the first counts two bytes, the second copies 2^29 + 1. */
  lemma LoopsDisagree()
    ensures var sizes := [1, 1, 0x1FFF_FFFF];
      Counted(sizes, 0, 0x1FFF_FFFF) == 2 && Sum(sizes) == 0x2000_0001
  {
    var sizes: seq<nat> := [1, 1, 0x1FFF_FFFF];
    assert sizes[1..] == [1, 0x1FFF_FFFF] && sizes[1..][1..] == [0x1FFF_FFFF] && sizes[1..][1..][1..] == [];
    assert Counted(sizes, 0, 0x1FFF_FFFF) == Counted(sizes[1..][1..], 2, 0x1FFF_FFFF);
    assert Sum(sizes) == 2 + Sum(sizes[1..][1..]);
  }

  /** The numbers of edge bytes along a chain. */
  ghost function ChainSizes(t: Tree): (s: seq<nat>) {
    if Passing(t) then [|t.data|] + ChainSizes(t.kids[0]) else []
  }

  lemma {:induction false} SumSizes(t: Tree)
    ensures Sum(ChainSizes(t)) == |ChainData(t)| && |ChainSizes(t)| == ChainLen(t)
    decreases t
  {
    if Passing(t) {
      SumSizes(t.kids[0]);
      assert ChainSizes(t)[1..] == ChainSizes(t.kids[0]);
    }
  }

  lemma {:induction false} SizesPositive(t: Tree)
    requires Shape(t)
    ensures forall i :: 0 <= i < |ChainSizes(t)| ==> ChainSizes(t)[i] >= 1
    decreases t
  {
    if Passing(t) { SizesPositive(t.kids[0]); }
  }

  /** The first loop over a chain counts the bytes that the second one copies if and only if
      they fit a node. */
  lemma LoopsMeet(u: Tree, n: nat)
    requires Shape(u)
    ensures Counted(ChainSizes(u), 0, n) == |ChainData(u)| <==> |ChainData(u)| <= n
  {
    SumSizes(u);
    SizesPositive(u);
    LoopsAgree(ChainSizes(u), 0, n);
  }

  lemma CountedMore(t: Tree, sofar: nat, limit: nat)
    requires Passing(t)
    ensures Counted(ChainSizes(t), sofar, limit) ==
      if sofar + |t.data| > limit then sofar else Counted(ChainSizes(t.kids[0]), sofar + |t.data|, limit)
  {
    assert ChainSizes(t)[1..] == ChainSizes(t.kids[0]);
  }

  /** So no chain is longer than the longest key. */
  lemma ChainShort(t: Tree, m: Map, p: seq<nat>, n: nat)
    requires Shape(t) && HasPath(t, p) && Passing(Sub(t, p)) && Denotes(t, m) && KeyedBut(t, p)
    requires forall k :: k in m ==> |k| <= n
    ensures |ChainData(Sub(t, p))| <= n
  {
    SubShape(t, p);
    KeyedBelow(t, p);
    var k := ChainKey(Sub(t, p));
    var all := Prefix(t, p) + k;
    LookupSub(t, p, all);
    assert all[|Prefix(t, p)|..] == k;
    assert all in m;
  }

  // ------------------------------------------------------------------
  // Finding the link again
  // ------------------------------------------------------------------

  /** Among the kids of the parent only one has the node's address. */
  lemma SlotUnique(mem: Mem, t: Tree, q: seq<nat>, i: nat, x: nat)
    requires Tidy(mem, t) && HasPath(t, q) && Sub(t, q).T? && i < |Sub(t, q).kids| && x < |Sub(t, q).kids|
    requires Sub(t, q).kids[i].T? && Sub(t, q).kids[x].T? && Sub(t, q).kids[x].ptr == Sub(t, q).kids[i].ptr
    ensures x == i
  {
    var n, c := Sub(t, q), Sub(t, q).kids[i].ptr;
    SubUses(t, q, c);
    UsesKids(n, i, x, c);
  }

  /** All kids along the path are there. */
  lemma {:induction false} UpToKids(t: Tree, q: seq<nat>, i: nat)
    requires HasPath(t, q) && Sub(t, q).T? && i < |Sub(t, q).kids| && HasPath(t, q + [i]) && KeyedUpTo(t, q + [i])
    requires Sub(t, q).kids[i].T?
    ensures forall x :: 0 <= x < |Sub(t, q).kids| ==> Sub(t, q).kids[x].T?
  {
    UpToStep(t, q, i);
  }

  /** The link that a scan of the parent finds is the node's. */
  lemma FoundLink(mem: Mem, t: Tree, p: seq<nat>, parent: Ptr, x: nat)
    requires Tidy(mem, t) && HasPath(t, p) && p != [] && Sub(t, p).T? && KeyedUpTo(t, p)
    requires parent == StackOf(t, p)[|p| - 1] && parent in mem && x < |mem[parent].kids| &&
      mem[parent].kids[x] == Sub(t, p).ptr
    ensures LinkOf(t, p) == Slot(parent, x)
  {
    var q, i := LastStep(t, p);
    SubFacts(mem, t, q);
    UpToKids(t, q, i);
    SlotUnique(mem, t, q, i, x);
  }

  lemma ParentHas(mem: Mem, t: Tree, p: seq<nat>)
    requires Tidy(mem, t) && HasPath(t, p) && p != []
    ensures StackOf(t, p)[|p| - 1] in mem && Sub(t, p).ptr in mem[StackOf(t, p)[|p| - 1]].kids
  {
    var q, i := LastStep(t, p);
    SubFacts(mem, t, q);
  }

  /** The child that is gone is found by its address, which no other child has. */
  lemma GoneIndex(mem: Mem, t: Tree, p: seq<nat>, j: nat, m: Map, x: nat)
    requires Tidy(mem, t) && Hanging(t, p, j, m) && Sub(t, p).kids[j].ptr !in mem
    requires Sub(t, p).ptr in mem && x < |mem[Sub(t, p).ptr].kids| &&
      mem[Sub(t, p).ptr].kids[x] == Sub(t, p).kids[j].ptr
    ensures x == j
  {
    SubFacts(mem, t, p);
    forall y | 0 <= y < |Sub(t, p).kids| && y != j
      ensures Sub(t, p).kids[y].ptr in mem
    {
      assert Keyed(Sub(t, p).kids[y]) && Rep(mem, Sub(t, p).kids[y]);
    }
  }

  /** The node without the edge and the address of child j. */
  function UnlinkNode(m: RaxNode, j: nat): (r: RaxNode)
    requires j < |m.kids| && (!m.iscompr ==> j < |m.data|)
  {
    if m.iscompr then m.(iscompr := false, data := [], kids := [])
    else m.(data := RemoveAt(m.data, j), kids := RemoveAt(m.kids, j))
  }

  lemma UnlinkFits(m: RaxNode, n: Tree, j: nat, q: Ptr)
    requires Fits(m, n) && Shape(n) && j < |n.kids|
    ensures Fits(UnlinkNode(m, j), Moved(WithoutChild(n, j), q))
  {
  }

  // ------------------------------------------------------------------
  // A chain merged into one node
  // ------------------------------------------------------------------

  function Minus(mem: Mem, x: set<Ptr>): (m: Mem) {
    map c | c in mem && c !in x :: mem[c]
  }

  /** A passing node with everything below it there. */
  ghost predicate Chained(mem: Mem, u: Tree) {
    Rep(mem, u) && Shape(u) && Passing(u) && Keyed(u.kids[0]) && Unshared(u)
  }

  lemma RepHeld(mem: Mem, t: Tree)
    requires Rep(mem, t) && t.T?
    ensures Held(mem, t)
  {
  }

  lemma ChainedKid(mem: Mem, u: Tree)
    requires Chained(mem, u)
    ensures Held(mem, u) && Held(mem, u.kids[0]) && Rep(mem, u.kids[0]) && Shape(u.kids[0]) && Unshared(u.kids[0])
    ensures Passing(u.kids[0]) ==> Chained(mem, u.kids[0])
    ensures forall c: Ptr :: Uses(u, c) == One(u.ptr == c) + Uses(u.kids[0], c)
  {
    UnsharedKid(u, 0);
    RepHeld(mem, u.kids[0]);
    assert u.kids == [u.kids[0]];
    forall c: Ptr ensures Uses(u, c) == One(u.ptr == c) + Uses(u.kids[0], c) { UsesOne(u.kids[0], c); }
  }

  /** One node of the chain freed. */
  lemma TakeStep(mem0: Mem, memA: Mem, memB: Mem, w: Tree, freed: set<Ptr>)
    requires Chained(memA, w) && memA == Minus(mem0, freed) && memB == Without(memA, w.ptr)
    ensures memB == Minus(mem0, freed + {w.ptr}) && Held(memB, w.kids[0])
    ensures Passing(w.kids[0]) ==> Chained(memB, w.kids[0])
  {
    var z := w.kids[0];
    ChainedKid(memA, w);
    assert Uses(w, w.ptr) <= 1;
    RepSame(memA, memB, z);
    RepHeld(memB, z);
  }

  lemma ChainLong(u: Tree)
    requires Passing(u) && Shape(u) && Passing(u.kids[0])
    ensures |ChainData(u)| >= 2 && |ChainData(u)| >= |u.data| + |u.kids[0].data|
  {
  }

  /** Tail and chain share nothing, and lie below the node. */
  lemma ChainFacts(mem: Mem, u: Tree)
    requires Chained(mem, u)
    ensures Rep(mem, ChainTail(u)) && Shape(ChainTail(u)) && Keyed(ChainTail(u))
    ensures forall c: Ptr :: Uses(u, c) == One(c in ChainNodes(u)) + Uses(ChainTail(u), c)
    decreases u
  {
    ChainedKid(mem, u);
    forall c: Ptr ensures Uses(u, c) == One(c in ChainNodes(u)) + Uses(ChainTail(u), c) { ChainUses(u, c); }
    if Passing(u.kids[0]) { ChainFacts(mem, u.kids[0]); }
  }

  /** In a tree whose leaves are keys, a passing node is the start of a chain. */
  lemma SubChained(mem: Mem, t: Tree, p: seq<nat>)
    requires Tidy(mem, t) && HasPath(t, p) && Passing(Sub(t, p)) && t.T? && KeyedBut(t, [])
    ensures Chained(mem, Sub(t, p)) && KeyedUpTo(t, p)
  {
    SubFacts(mem, t, p);
    KeyedAt(t, p);
    UpToBut(t, p);
    KeyedBelow(t, p);
    forall c: Ptr ensures Uses(Sub(t, p), c) <= 1 { SubUses(t, p, c); }
  }

  ghost function Merged(u: Tree, q: Ptr): (s: Tree) {
    Run(q, false, 0, ChainData(u), ChainTail(u))
  }

  lemma MergeRegrafts(mem: Mem, mem1: Mem, mem2: Mem, t: Tree, p: seq<nat>, q: Ptr, m: RaxNode)
    requires Tidy(mem, t) && HasPath(t, p) && Chained(mem, Sub(t, p)) && q !in mem
    requires mem1 == Minus(mem, ChainNodes(Sub(t, p)))[q := m] && mem2 == LinkMem(mem1, LinkOf(t, p), q)
    ensures Regrafted(mem, mem2, t, p, q) && q in mem2 && mem2[q] == m && Spares(mem, mem2, ChainTail(Sub(t, p)))
    ensures forall c: Ptr :: c in mem2 <==> c == q || (c in mem && c !in ChainNodes(Sub(t, p)))
  {
    hide ChainNodes, Rep, Outside;
    var u := Sub(t, p);
    ChainFacts(mem, u);
    SubFacts(mem, t, p);
    forall c: Ptr
      ensures Outside(t, p, c) ==> c !in ChainNodes(u) && Uses(ChainTail(u), c) == 0
      ensures Uses(ChainTail(u), c) > 0 ==> c !in ChainNodes(u) && !Outside(t, p, c)
    {
      assert Uses(u, c) == One(c in ChainNodes(u)) + Uses(ChainTail(u), c);
      assert Uses(t, c) <= 1;
    }
    RegraftLink(mem, mem2, t, p, q);
  }

  lemma MergeTree(mem: Mem, mem1: Mem, mem2: Mem, t: Tree, p: seq<nat>, q: Ptr)
    requires Tidy(mem, t) && HasPath(t, p) && Chained(mem, Sub(t, p)) && q !in mem && |ChainData(Sub(t, p))| >= 2
    requires mem1 == Minus(mem, ChainNodes(Sub(t, p)))
      [q := RaxNode(false, 0, true, ChainData(Sub(t, p)), [ChainTail(Sub(t, p)).ptr])]
    requires mem2 == LinkMem(mem1, LinkOf(t, p), q)
    ensures Tidy(mem2, Replace(t, p, Merged(Sub(t, p), q)))
  {
    var u := Sub(t, p);
    var s, m := Merged(u, q), RaxNode(false, 0, true, ChainData(u), [ChainTail(u).ptr]);
    ChainFacts(mem, u);
    MergeRegrafts(mem, mem1, mem2, t, p, q, m);
    RepSame(mem, mem2, ChainTail(u));
    RunRep(mem2, q, false, 0, ChainData(u), ChainTail(u));
    RunShape(q, false, 0, ChainData(u), ChainTail(u));
    forall c: Ptr
      ensures Uses(t, c) + Uses(s, c) == Uses(u, c) + One(c in mem2)
    {
      RunUses(q, false, 0, ChainData(u), ChainTail(u), c);
      SubUses(t, p, c);
    }
    Graft(mem, mem2, t, p, s);
  }

  lemma MergeMeans(mem: Mem, t: Tree, m: Map, p: seq<nat>, q: Ptr)
    requires Tidy(mem, t) && HasPath(t, p) && Chained(mem, Sub(t, p)) && Denotes(t, m) && t.T? && KeyedBut(t, [])
    ensures Denotes(Replace(t, p, Merged(Sub(t, p), q)), m) && KeyedBut(Replace(t, p, Merged(Sub(t, p), q)), [])
  {
    var u, s := Sub(t, p), Merged(Sub(t, p), q);
    ChainSame(u, q);
    ChainFacts(mem, u);
    RunShape(q, false, 0, ChainData(u), ChainTail(u));
    ReplaceSame(t, p, s, m);
    KeyedAt(t, p);
    UpToBut(t, p);
    UpToReplace(t, p, s);
    ReplaceSub(t, p, s);
    UpToBut(Replace(t, p, s), p);
    KeyedAll(Replace(t, p, s), p);
  }

  /** Memory while the chain is merged: the new node is there already. */
  lemma MinusWith(mem: Mem, x: set<Ptr>, q: Ptr, blank: RaxNode, m: RaxNode)
    requires q !in mem && q !in x
    ensures Minus(mem[q := blank], x)[q := m] == Minus(mem, x)[q := m]
    ensures q in Minus(mem[q := blank], x)
  {
  }

  /** A chain beside a new node is a chain. */
  lemma ChainedWith(mem: Mem, q: Ptr, m: RaxNode, u: Tree)
    requires Chained(mem, u) && q !in mem
    ensures Chained(mem[q := m], u) && q !in ChainNodes(u)
  {
    RepSame(mem, mem[q := m], u);
    ChainIn(mem, u);
  }

  lemma {:induction false} ChainIn(mem: Mem, u: Tree)
    requires Chained(mem, u)
    ensures forall c :: c in ChainNodes(u) ==> c in mem
    decreases u
  {
    ChainedKid(mem, u);
    if Passing(u.kids[0]) { ChainIn(mem, u.kids[0]); }
  }

  const BLANK := RaxNode(false, 0, true, [], [])

  ghost function MergedNode(u: Tree): (m: RaxNode) {
    RaxNode(false, 0, true, ChainData(u), [ChainTail(u).ptr])
  }

  /** The whole merge, in memory and in meaning. */
  lemma MergeWhole(mem: Mem, mem2: Mem, t: Tree, p: seq<nat>, q: Ptr, k: Map, r: Tree)
    requires Tidy(mem, t) && HasPath(t, p) && Chained(mem, Sub(t, p)) && q !in mem && |ChainData(Sub(t, p))| >= 2
    requires Denotes(t, k) && t.T? && KeyedBut(t, []) && r == Replace(t, p, Merged(Sub(t, p), q))
    requires mem2 == LinkMem(Minus(mem[q := BLANK], ChainNodes(Sub(t, p)))[q := MergedNode(Sub(t, p))], LinkOf(t, p), q)
    ensures Tidy(mem2, r) && Denotes(r, k) && KeyedBut(r, []) && r.T? && r.ptr == if p == [] then q else t.ptr
  {
    ChainedWith(mem, q, BLANK, Sub(t, p));
    MinusWith(mem, ChainNodes(Sub(t, p)), q, BLANK, MergedNode(Sub(t, p)));
    MergeTree(mem, Minus(mem, ChainNodes(Sub(t, p)))[q := MergedNode(Sub(t, p))], mem2, t, p, q);
    MergeMeans(mem, t, k, p, q);
  }
}
