/** How many nodes an insertion makes, and how the tree is kept short of nodes. */
module RaxTight {
  import opened Bytes
  import opened RaxModel
  import opened RaxHeap
  import opened RaxChange
  import opened RaxWalk
  import opened RaxRemoval

  // ------------------------------------------------------------------
  // Where a string leaves the tree
  // ------------------------------------------------------------------

  /** The node at which a string leaves the tree, what is left of it there, and how many bytes
      of the node's run it has. */
  datatype Stop = Stop(node: Tree, rest: Str, j: nat)

  function Common(data: Str, s: Str): (j: nat)
    ensures j <= |data| && j <= |s| && data[..j] == s[..j]
    ensures j < |data| && j < |s| ==> data[j] != s[j]
  {
    if data == [] || s == [] || data[0] != s[0] then 0 else 1 + Common(data[1..], s[1..])
  }

  ghost function StopOf(t: Tree, s: Str): (r: Stop) {
    if t.Gone? || s == [] then Stop(t, s, 0)
    else if t.iscompr then
      var j := Common(t.data, s);
      if j < |t.data| || |t.kids| != 1 then Stop(t, s[j..], j) else StopOf(t.kids[0], s[j..])
    else
      var j := Find(t.data, s[0]);
      if j < |t.kids| then StopOf(t.kids[j], s[1..]) else Stop(t, s, 0)
  }

  lemma CommonIs(data: Str, s: Str, j: nat)
    requires j <= |data| && j <= |s| && data[..j] == s[..j] && (j < |data| && j < |s| ==> data[j] != s[j])
    ensures Common(data, s) == j
  {
    var c := Common(data, s);
    if c < j {
      Shared(data, s, j, c);
      assert false;
    }
    if j < c {
      Shared(data, s, c, j);
      assert false;
    }
  }

  lemma Shared(data: Str, s: Str, j: nat, i: nat)
    requires i < j <= |data| && j <= |s| && data[..j] == s[..j]
    ensures data[i] == s[i]
  {
    assert data[..j][i] == s[..j][i];
  }

  lemma StopKid(t: Tree, j: nat, s: Str)
    requires t.T? && Shape(t) && j < |t.kids| && Edge(t, j) <= s
    ensures StopOf(t, s) == StopOf(t.kids[j], s[|Edge(t, j)|..])
  {
    if t.iscompr { CommonIs(t.data, s, |t.data|); } else { FindAt(t.data, j); }
  }

  lemma {:induction false} StopSub(t: Tree, p: seq<nat>, s: Str)
    requires HasPath(t, p) && Shape(t) && Prefix(t, p) <= s
    ensures StopOf(t, s) == StopOf(Sub(t, p), s[|Prefix(t, p)|..])
    decreases p
  {
    if p != [] {
      PrefixSplit(Edge(t, p[0]), Prefix(t.kids[p[0]], p[1..]), s);
      StopKid(t, p[0], s);
      StopSub(t.kids[p[0]], p[1..], s[|Edge(t, p[0])|..]);
    }
  }

  /** The walk stops where the string leaves the tree. */
  lemma StoppedAt(t: Tree, s: Str, p: seq<nat>, i: nat, j: nat)
    requires Stopped(t, s, p, i, j)
    ensures StopOf(t, s) == Stop(Sub(t, p), s[i..], j)
  {
    hide Prefix;
    var n, rest := Sub(t, p), s[i - j..];
    PrefixLen(Prefix(t, p), s, i - j);
    StopSub(t, p, s);
    SubShape(t, p);
    assert rest[j..] == s[i..];
    if n.iscompr {
      assert rest[..j] == s[i - j..i];
      if i < |s| { assert rest[j] == s[i]; }
      CommonIs(n.data, rest, j);
      if rest == [] { assert s[i..] == []; }
    } else if rest != [] {
      assert rest[0] == s[i];
    }
  }

  // ------------------------------------------------------------------
  // New nodes
  // ------------------------------------------------------------------

  /** How many runs n bytes make, of at most max bytes each. */
  function Runs(n: nat, max: nat): (r: nat)
    requires max > 0
  {
    (n + max - 1) / max
  }

  lemma RunsStep(n: nat, max: nat)
    requires max > 0
    ensures n > max ==> Runs(n, max) == 1 + Runs(n - max, max)
    ensures 0 < n <= max ==> Runs(n, max) == 1
    ensures Runs(0, max) == 0
  {
    if n > max {
      DivMod(n - 1, max);
      ModUnique(n + max - 1, max, (n - 1) / max + 1, (n - 1) % max);
    } else if n > 0 {
      ModUnique(n + max - 1, max, 1, n - 1);
    } else {
      ModUnique(max - 1, max, 0, max - 1);
    }
  }

  /** The nodes for n more bytes below a node. */
  function RestNodes(data: Str, n: nat, max: nat): (r: nat)
    requires max > 0
  {
    if n == 0 then 0 else if data == [] then Runs(n, max) else 1 + Runs(n - 1, max)
  }

  /** One node is made: for all the bytes that are left or as many as fit, or for one of them. */
  lemma RestStep(data: Str, n: nat, max: nat)
    requires max > 1 && n > 0
    ensures data == [] && n > 1 ==>
      RestNodes(data, n, max) == 1 + RestNodes([], n - (if n > max then max else n), max)
    ensures data != [] || n == 1 ==> RestNodes(data, n, max) == 1 + RestNodes([], n - 1, max)
  {
    RunsStep(n, max);
    RunsStep(n - 1, max);
    RunsStep(0, max);
  }

  /** How many nodes more there are once a string has been inserted that leaves the tree there. */
  ghost function NewNodes(stop: Stop, max: nat): (r: nat)
    requires max > 0 && stop.node.T?
  {
    if stop.rest == [] then One(stop.node.iscompr && stop.j > 0)
    else if stop.node.iscompr then
      One(stop.j > 0) + One(stop.j + 1 < |stop.node.data|) + 1 + Runs(|stop.rest| - 1, max)
    else RestNodes(stop.node.data, |stop.rest|, max)
  }

  /** A key that fits a run costs four nodes at the most, however long it is. */
  lemma FewNodes(stop: Stop, max: nat)
    requires max > 0 && stop.node.T? && |stop.rest| <= max
    ensures NewNodes(stop, max) <= 4
  {
    RunsStep(|stop.rest|, max);
    if stop.rest != [] { RunsStep(|stop.rest| - 1, max); }
  }

  // ------------------------------------------------------------------
  // Chains that have been merged
  // ------------------------------------------------------------------

  /** Two nodes in a row that are no keys and have one child each. */
  ghost predicate Pair(t: Tree) {
    Passing(t) && Passing(t.kids[0])
  }

  /** No two such nodes in a row: they would fit one node. */
  ghost predicate Tight(t: Tree) {
    t.T? ==> !Pair(t) && forall i :: 0 <= i < |t.kids| ==> Tight(t.kids[i])
  }

  ghost predicate KidsTight(t: Tree) {
    t.T? ==> forall i :: 0 <= i < |t.kids| ==> Tight(t.kids[i])
  }

  /** The node above the one at p is passing. */
  ghost predicate BelowPassing(t: Tree, p: seq<nat>)
    requires HasPath(t, p)
  {
    p != [] && if |p| == 1 then Passing(t) else BelowPassing(t.kids[p[0]], p[1..])
  }

  /** Tight, leaving aside the node at p and what hangs there. */
  ghost predicate TightUpTo(t: Tree, p: seq<nat>)
    requires HasPath(t, p)
  {
    p != [] ==>
      (forall j :: 0 <= j < |t.kids| && j != p[0] ==> Tight(t.kids[j])) && TightUpTo(t.kids[p[0]], p[1..]) &&
      (|p| > 1 ==> !Pair(t))
  }

  /** Tight, leaving aside the node at p. */
  ghost predicate TightBut(t: Tree, p: seq<nat>)
    requires HasPath(t, p)
  {
    TightUpTo(t, p) && KidsTight(Sub(t, p))
  }

  lemma {:induction false} TightAt(t: Tree, p: seq<nat>)
    requires HasPath(t, p)
    ensures Tight(t) <==> TightBut(t, p) && !Pair(Sub(t, p)) && !(BelowPassing(t, p) && Passing(Sub(t, p)))
    decreases p
  {
    if p != [] {
      TightAt(t.kids[p[0]], p[1..]);
      if |p| == 1 { assert p[1..] == [] && Sub(t, p) == t.kids[p[0]]; }
    }
  }

  lemma {:induction false} UpToReplaced(t: Tree, p: seq<nat>, s: Tree)
    requires HasPath(t, p)
    ensures HasPath(Replace(t, p, s), p) && (TightUpTo(Replace(t, p, s), p) <==> TightUpTo(t, p))
    ensures BelowPassing(Replace(t, p, s), p) <==> BelowPassing(t, p)
    decreases p
  {
    if p != [] {
      UpToReplaced(t.kids[p[0]], p[1..], s);
      PassingReplaced(t, p, s);
      var r := Replace(t, p, s);
      assert forall j :: 0 <= j < |t.kids| && j != p[0] ==> r.kids[j] == t.kids[j];
      if |p| > 1 {
        PassingReplaced(t.kids[p[0]], p[1..], s);
        assert r.kids[p[0]] == Replace(t.kids[p[0]], p[1..], s);
        assert Pair(r) <==> Pair(t);
      }
    }
  }

  lemma PassingReplaced(t: Tree, p: seq<nat>, s: Tree)
    requires HasPath(t, p) && p != []
    ensures Passing(Replace(t, p, s)) <==> Passing(t)
  {
  }

  lemma ReplacedBut(t: Tree, p: seq<nat>, s: Tree)
    requires HasPath(t, p)
    ensures HasPath(Replace(t, p, s), p) && (TightBut(Replace(t, p, s), p) <==> TightUpTo(t, p) && KidsTight(s))
    ensures BelowPassing(Replace(t, p, s), p) <==> BelowPassing(t, p)
  {
    UpToReplaced(t, p, s);
    ReplaceSub(t, p, s);
  }

  lemma {:induction false} UpToNext(t: Tree, p: seq<nat>, i: nat)
    requires HasPath(t, p) && Sub(t, p).T? && i < |Sub(t, p).kids|
    ensures HasPath(t, p + [i]) && (BelowPassing(t, p + [i]) <==> Passing(Sub(t, p)))
    ensures TightUpTo(t, p + [i]) <==>
      TightUpTo(t, p) && !(BelowPassing(t, p) && Passing(Sub(t, p))) &&
      forall x :: 0 <= x < |Sub(t, p).kids| && x != i ==> Tight(Sub(t, p).kids[x])
    decreases p
  {
    PathStep(t, p, i);
    if p != [] {
      assert (p + [i])[1..] == p[1..] + [i];
      UpToNext(t.kids[p[0]], p[1..], i);
      if |p| == 1 { assert p[1..] == [] && Sub(t, p) == t.kids[p[0]]; }
    } else {
      assert p + [i] == [i] && [i][1..] == [];
    }
  }

  // ------------------------------------------------------------------
  // Insertion
  // ------------------------------------------------------------------

  /** A key ends a chain. */
  lemma KeyTight(t: Tree, p: seq<nat>, q: Ptr, v: nat)
    requires HasPath(t, p) && Sub(t, p).T?
    ensures Tight(Replace(t, p, WithKey(Sub(t, p), q, v))) <==> TightBut(t, p)
  {
    var w := WithKey(Sub(t, p), q, v);
    ReplacedBut(t, p, w);
    ReplaceSub(t, p, w);
    TightAt(Replace(t, p, w), p);
  }

  lemma BrokenTight(t: Tree, p: seq<nat>, j: nat, trimmed: Ptr, postfix: Ptr, v: nat)
    requires HasPath(t, p) && Sub(t, p).T? && |Sub(t, p).kids| == 1 && j <= |Sub(t, p).data| && Tight(t)
    ensures Tight(Replace(t, p, Broken(Sub(t, p), j, trimmed, postfix, true, v)))
  {
    var w := Broken(Sub(t, p), j, trimmed, postfix, true, v);
    TightAt(t, p);
    ReplacedBut(t, p, w);
    ReplaceSub(t, p, w);
    assert Tight(w.kids[0]);
    TightAt(Replace(t, p, w), p);
  }

  /** A key with a run that leads to a passing node, taken apart before the end of the run: the
      rest of the run makes a second passing node. */
  ghost predicate Awkward(n: Tree, j: nat) {
    n.T? && n.iskey && n.iscompr && |n.kids| == 1 && j + 1 < |n.data| && Passing(n.kids[0])
  }

  lemma CannotBeAwkward(n: Tree, j: nat)
    requires n.T? && !n.iscompr
    ensures !Awkward(n, j)
  {
  }

  lemma ApartTight(t: Tree, p: seq<nat>, j: nat, trimmed: Ptr, split: Ptr, postfix: Ptr, r: Tree, p2: seq<nat>)
    requires HasPath(t, p) && Sub(t, p).T? && Sub(t, p).iscompr && |Sub(t, p).kids| == 1 && j < |Sub(t, p).data|
    requires r == Replace(t, p, Apart(Sub(t, p), j, trimmed, split, postfix))
    requires p2 == if j == 0 then p else p + [0]
    ensures HasPath(r, p2) && Sub(r, p2).T? && |Sub(r, p2).data| == 1
    ensures Tight(t) ==> (TightBut(r, p2) <==> !Awkward(Sub(t, p), j))
  {
    var n, w := Sub(t, p), Apart(Sub(t, p), j, trimmed, split, postfix);
    TightAt(t, p);
    ReplacedBut(t, p, w);
    ReplaceSub(t, p, w);
    var post := Postfix(n, j, postfix);
    assert Tight(t) ==> (Tight(post) <==> !Awkward(n, j));
    if j > 0 {
      UpToNext(r, p, 0);
      PathStep(r, p, 0);
      assert KidsTight(w.kids[0]) <==> Tight(post);
    }
  }

  /** A new child makes no pair here. */
  ghost predicate Roomy(t: Tree, p: seq<nat>)
    requires HasPath(t, p)
  {
    Sub(t, p).T? && (Sub(t, p).data != [] || Sub(t, p).iskey || !BelowPassing(t, p))
  }

  /** Where a walk stops at a node that is not compressed there is room: a leaf is a key, or the root. */
  lemma StoppedRoomy(t: Tree, p: seq<nat>)
    requires HasPath(t, p) && t.T? && KeyedBut(t, []) && Shape(t) && Sub(t, p).T?
    requires !Sub(t, p).iscompr
    ensures Roomy(t, p)
  {
    SubShape(t, p);
    KeyedAt(t, p);
  }

  /** The node at p with the leaf c added, at pos. */
  lemma LeafTight(t: Tree, p: seq<nat>, w: Tree, pos: nat, c: Ptr)
    requires HasPath(t, p) && Roomy(t, p) && w.T? && w.iskey == Sub(t, p).iskey
    requires pos < |w.kids| && w.kids[pos] == Leaf(c)
    requires |w.kids| == |Sub(t, p).kids| + 1 && (Sub(t, p).data == [] <==> Sub(t, p).kids == [])
    requires RemoveAt(w.kids, pos) == Sub(t, p).kids
    ensures var r := Replace(t, p, w);
      HasPath(r, p + [pos]) && Sub(r, p + [pos]) == Leaf(c) && (TightBut(r, p + [pos]) <==> TightBut(t, p)) &&
      (Sub(t, p).data != [] ==> Roomy(r, p + [pos]))
  {
    var r := Replace(t, p, w);
    ReplacedBut(t, p, w);
    UpToReplaced(t, p, w);
    ReplaceSub(t, p, w);
    UpToNext(r, p, pos);
    PathStep(r, p, pos);
    var kids := Sub(t, p).kids;
    forall x | 0 <= x < |w.kids| && x != pos
      ensures w.kids[x] == kids[if x < pos then x else x - 1]
    {
    }
    forall x | 0 <= x < |kids|
      ensures kids[x] == w.kids[if x < pos then x else x + 1]
    {
    }
  }

  lemma ChildTight(t: Tree, p: seq<nat>, q: Ptr, c: byte, pos: nat, child: Ptr)
    requires HasPath(t, p) && Roomy(t, p) && pos <= |Sub(t, p).data| == |Sub(t, p).kids|
    ensures var r := Replace(t, p, WithChild(Sub(t, p), q, c, pos, Leaf(child)));
      HasPath(r, p + [pos]) && Sub(r, p + [pos]) == Leaf(child) && (TightBut(r, p + [pos]) <==> TightBut(t, p)) &&
      (Sub(t, p).data != [] ==> Roomy(r, p + [pos]))
  {
    var w := WithChild(Sub(t, p), q, c, pos, Leaf(child));
    assert RemoveAt(w.kids, pos) == Sub(t, p).kids;
    LeafTight(t, p, w, pos, child);
  }

  lemma ChainTight(t: Tree, p: seq<nat>, q: Ptr, str: Str, child: Ptr)
    requires HasPath(t, p) && Roomy(t, p) && Sub(t, p).data == [] && Sub(t, p).kids == []
    ensures var r := Replace(t, p, Chain(Sub(t, p), q, str, Leaf(child)));
      HasPath(r, p + [0]) && Sub(r, p + [0]) == Leaf(child) && (TightBut(r, p + [0]) <==> TightBut(t, p))
  {
    var w := Chain(Sub(t, p), q, str, Leaf(child));
    assert RemoveAt(w.kids, 0) == Sub(t, p).kids;
    LeafTight(t, p, w, 0, child);
  }

  // ------------------------------------------------------------------
  // Removal
  // ------------------------------------------------------------------

  /** A key with a run, next to a passing node: once it is no key there are two in a row. */
  ghost predicate RoughAt(t: Tree, p: seq<nat>)
    requires HasPath(t, p)
  {
    var n := Sub(t, p);
    n.T? && n.iscompr && |n.kids| == 1 && (Passing(n.kids[0]) || BelowPassing(t, p))
  }

  /** The same of the node that a string leads to, with what is known of the node above. */
  ghost predicate Rough(t: Tree, s: Str, below: bool) {
    t.T? &&
    if s == [] then t.iscompr && |t.kids| == 1 && (Passing(t.kids[0]) || below)
    else if t.iscompr then |t.kids| == 1 && t.data <= s && Rough(t.kids[0], s[|t.data|..], Passing(t))
    else var j := Find(t.data, s[0]); j < |t.kids| && Rough(t.kids[j], s[1..], Passing(t))
  }

  lemma RoughKid(t: Tree, j: nat, s: Str, below: bool)
    requires t.T? && Shape(t) && j < |t.kids|
    ensures Rough(t, Edge(t, j) + s, below) <==> Rough(t.kids[j], s, Passing(t))
  {
    var k := Edge(t, j) + s;
    assert k[|Edge(t, j)|..] == s;
    if !t.iscompr { FindAt(t.data, j); }
  }

  lemma {:induction false} RoughThere(t: Tree, p: seq<nat>, below: bool)
    requires HasPath(t, p) && Shape(t)
    ensures p == [] ==> (Rough(t, Prefix(t, p), below) <==>
      t.T? && t.iscompr && |t.kids| == 1 && (Passing(t.kids[0]) || below))
    ensures p != [] ==> (Rough(t, Prefix(t, p), below) <==> RoughAt(t, p))
    decreases p
  {
    if p != [] {
      RoughKid(t, p[0], Prefix(t.kids[p[0]], p[1..]), below);
      RoughThere(t.kids[p[0]], p[1..], Passing(t));
      if |p| == 1 { assert p[1..] == [] && Sub(t, p) == t.kids[p[0]]; }
    }
  }

  lemma ClearTight(t: Tree, p: seq<nat>)
    requires HasPath(t, p) && Sub(t, p).T? && Tight(t) && Shape(t)
    ensures var r := Replace(t, p, WithoutKey(Sub(t, p)));
      HasPath(r, p) && TightBut(r, p) && (|Sub(t, p).data| > 1 ==> (Tight(r) <==> !RoughAt(t, p)))
  {
    var w := WithoutKey(Sub(t, p));
    SubShape(t, p);
    TightAt(t, p);
    ReplacedBut(t, p, w);
    ReplaceSub(t, p, w);
    TightAt(Replace(t, p, w), p);
  }

  /** The node may be left aside that has lost a child. */
  lemma DieTight(t: Tree, q: seq<nat>, i: nat, g: Ptr)
    requires HasPath(t, q) && Sub(t, q).T? && i < |Sub(t, q).kids| && HasPath(t, q + [i]) && TightBut(t, q + [i])
    ensures HasPath(Replace(t, q + [i], Gone(g)), q) && TightBut(Replace(t, q + [i], Gone(g)), q)
  {
    var n := Sub(t, q);
    UpToNext(t, q, i);
    ReplaceStep(t, q, i, Gone(g));
    ReplacedBut(t, q, T(n.ptr, n.iskey, n.value, n.iscompr, n.data, n.kids[i := Gone(g)]));
  }

  /** A dead node freed: memory, meaning, and chains. */
  lemma DieWhole(mem: Mem, t: Tree, m: Map, p: seq<nat>, q: seq<nat>, i: nat, r: Tree)
    requires Tidy(mem, t) && Dying(t, p, m) && p == q + [i] && HasPath(t, q) && Sub(t, q).T? && i < |Sub(t, q).kids|
    requires r == Replace(t, p, Gone(Sub(t, p).ptr))
    ensures Sub(t, p).ptr in mem && Tidy(Without(mem, Sub(t, p).ptr), r)
    ensures Hanging(r, q, i, m) && Sub(r, q).kids[i] == Gone(Sub(t, p).ptr) && StackOf(r, q) == StackOf(t, q)
    ensures Sub(r, q).ptr == Sub(t, q).ptr && r.ptr == t.ptr
    ensures TightBut(t, p) ==> TightBut(r, q)
  {
    hide Tidy, Shape, Hanging, TightBut, Sub, Replace, KeyedUpTo;
    DieTree(mem, t, p);
    DieMeans(t, m, p, q, i, r);
    if TightBut(t, p) { DieTight(t, q, i, Sub(t, p).ptr); }
  }

  lemma UnlinkTight(t: Tree, p: seq<nat>, j: nat, q: Ptr)
    requires HasPath(t, p) && Sub(t, p).T? && Shape(Sub(t, p)) && j < |Sub(t, p).kids| && TightBut(t, p)
    ensures var r := Replace(t, p, Moved(WithoutChild(Sub(t, p), j), q));
      HasPath(r, p) && TightBut(r, p) && (!Passing(Sub(r, p)) ==> Tight(r))
  {
    var w := Moved(WithoutChild(Sub(t, p), j), q);
    forall x | 0 <= x < |w.kids|
      ensures Tight(w.kids[x])
    {
      assert w.kids[x] == Sub(t, p).kids[if x < j then x else x + 1];
    }
    ReplacedBut(t, p, w);
    TightAt(Replace(t, p, w), p);
  }

  /** Tight, leaving aside the chain that starts at p. */
  ghost predicate TightAround(t: Tree, p: seq<nat>)
    requires HasPath(t, p)
  {
    TightUpTo(t, p) && Tight(ChainTail(Sub(t, p)))
  }

  lemma AroundNode(t: Tree, p: seq<nat>)
    requires HasPath(t, p) && Passing(Sub(t, p)) && TightBut(t, p)
    ensures TightAround(t, p)
  {
    TailTight(Sub(t, p).kids[0]);
  }

  lemma {:induction false} TailTight(t: Tree)
    requires Tight(t)
    ensures Tight(ChainTail(t))
    decreases t
  {
    if Passing(t) { TailTight(t.kids[0]); }
  }

  /** From a chain to one that starts further up. */
  lemma AroundUp(t: Tree, q: seq<nat>, i: nat)
    requires HasPath(t, q) && Passing(Sub(t, q)) && i < |Sub(t, q).kids|
    requires HasPath(t, q + [i]) && TightAround(t, q + [i])
    ensures TightAround(t, q)
  {
    UpToNext(t, q, i);
    PathStep(t, q, i);
  }

  /** A whole chain, merged or consisting of one node. */
  lemma MergeTight(t: Tree, p: seq<nat>, q: Ptr)
    requires HasPath(t, p) && Passing(Sub(t, p)) && TightAround(t, p) && !BelowPassing(t, p)
    ensures Tight(Replace(t, p, Merged(Sub(t, p), q)))
    ensures !Passing(Sub(t, p).kids[0]) ==> Tight(t)
  {
    hide Tight;
    var u, w := Sub(t, p), Merged(Sub(t, p), q);
    TailEnds(u);
    ReplacedBut(t, p, w);
    ReplaceSub(t, p, w);
    TightAt(Replace(t, p, w), p);
    TightAt(t, p);
  }

  lemma {:induction false} TailEnds(t: Tree)
    ensures !Passing(ChainTail(t))
    decreases t
  {
    if Passing(t) { TailEnds(t.kids[0]); }
  }

  // ------------------------------------------------------------------
  // Trees that do not stay tight
  // ------------------------------------------------------------------

  ghost function KeyLeaf(p: Ptr): (t: Tree) {
    T(p, true, 0, false, [], [])
  }

  /** The keys 0, and 01234 once 01235 has been removed: inserting 019 leaves the node for 3 above
      that for 4. */
  lemma AwkwardShown()
    ensures var t := T(1, true, 0, true, [0, 1, 2, 3], [T(2, false, 0, false, [4], [KeyLeaf(3)])]);
      Shape(t) && Tight(t) && Awkward(StopOf(t, [0, 1, 9]).node, StopOf(t, [0, 1, 9]).j)
  {
    var low := T(2, false, 0, false, [4], [KeyLeaf(3)]);
    var t := T(1, true, 0, true, [0, 1, 2, 3], [low]);
    assert Shape(KeyLeaf(3)) && Shape(low) && Shape(t);
    CommonIs(t.data, [0, 1, 9], 2);
  }

  /** The keys FOO and FOOBAR, the source's own example of a removal that makes one node of two
      ("FOO" above "BAR"): removing FOO leaves both. */
  lemma RoughShown()
    ensures var t := T(1, false, 0, true, [70, 79, 79], [T(2, true, 0, true, [66, 65, 82], [KeyLeaf(3)])]);
      Shape(t) && Tight(t) && Lookup(t, [70, 79, 79]).Some? && Rough(t, [70, 79, 79], false)
  {
    var low := T(2, true, 0, true, [66, 65, 82], [KeyLeaf(3)]);
    var t := T(1, false, 0, true, [70, 79, 79], [low]);
    assert Shape(KeyLeaf(3)) && Shape(low) && Shape(t);
    assert [70, 79, 79][3..] == [];
  }
}
