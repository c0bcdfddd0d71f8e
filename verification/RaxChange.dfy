/** The elementary changes to a radix tree, and what each means for lookups. */
module RaxChange {
  import opened Bytes
  import opened RaxModel

  // ------------------------------------------------------------------
  // Every leaf is a key
  // ------------------------------------------------------------------

  ghost predicate Keyed(t: Tree) {
    t.T? && (t.kids == [] ==> t.iskey) && forall i :: 0 <= i < |t.kids| ==> Keyed(t.kids[i])
  }

  /** Every leaf is a key, save perhaps the node at p itself. */
  ghost predicate KeyedBut(t: Tree, p: seq<nat>)
    requires HasPath(t, p)
  {
    if p == [] then t.Gone? || forall i :: 0 <= i < |t.kids| ==> Keyed(t.kids[i])
    else (forall j :: 0 <= j < |t.kids| && j != p[0] ==> Keyed(t.kids[j])) && KeyedBut(t.kids[p[0]], p[1..])
  }

  lemma {:induction false} KeyedAll(t: Tree, p: seq<nat>)
    requires HasPath(t, p) && KeyedBut(t, p) && (Keyed(Sub(t, p)) || p == [])
    ensures KeyedBut(t, [])
    ensures p != [] ==> Keyed(t)
    decreases p
  {
    if p != [] { KeyedAll(t.kids[p[0]], p[1..]); }
  }

  lemma {:induction false} KeyedAt(t: Tree, p: seq<nat>)
    requires HasPath(t, p) && KeyedBut(t, []) && t.T?
    ensures KeyedBut(t, p) && (p != [] ==> Keyed(Sub(t, p)))
    decreases p
  {
    if p != [] {
      assert KeyedBut(t.kids[p[0]], []);
      KeyedAt(t.kids[p[0]], p[1..]);
    }
  }

  lemma {:induction false} KeyedReplace(t: Tree, p: seq<nat>, s: Tree)
    requires HasPath(t, p) && KeyedBut(t, p) && KeyedBut(s, [])
    ensures HasPath(Replace(t, p, s), p) && KeyedBut(Replace(t, p, s), p)
    decreases p
  {
    if p != [] { KeyedReplace(t.kids[p[0]], p[1..], s); }
  }

  /** The exception moves down to a child. */
  lemma {:induction false} KeyedStep(t: Tree, p: seq<nat>, s: Tree, i: nat)
    requires HasPath(t, p) && KeyedBut(t, p) && HasPath(s, [i]) && KeyedBut(s, [i])
    ensures HasPath(Replace(t, p, s), p + [i]) && KeyedBut(Replace(t, p, s), p + [i])
    decreases p
  {
    if p != [] {
      KeyedStep(t.kids[p[0]], p[1..], s, i);
      assert (p + [i])[1..] == p[1..] + [i];
    } else {
      assert p + [i] == [i];
    }
  }

  // ------------------------------------------------------------------
  // Keys
  // ------------------------------------------------------------------

  /** The node, moved to q, as a key with a value. */
  ghost function WithKey(t: Tree, q: Ptr, v: nat): (s: Tree)
    requires t.T?
  {
    T(q, true, v, t.iscompr, t.data, t.kids)
  }

  lemma WithKeyLookup(t: Tree, q: Ptr, v: nat)
    requires t.T? && Shape(t)
    ensures Shape(WithKey(t, q, v)) && ChangedRoot(WithKey(t, q, v), t, Some(v))
  {
    forall k: Str ensures Lookup(WithKey(t, q, v), k) == if k == [] then Some(v) else Lookup(t, k) {}
  }

  ghost function WithoutKey(t: Tree): (s: Tree)
    requires t.T?
  {
    T(t.ptr, false, t.value, t.iscompr, t.data, t.kids)
  }

  lemma WithoutKeyLookup(t: Tree)
    requires t.T? && Shape(t)
    ensures Shape(WithoutKey(t)) && ChangedRoot(WithoutKey(t), t, None)
  {
    forall k: Str ensures Lookup(WithoutKey(t), k) == if k == [] then None else Lookup(t, k) {}
  }

  // ------------------------------------------------------------------
  // A new child
  // ------------------------------------------------------------------

  /** The index of the first edge byte greater than c. */
  ghost predicate IsPlace(data: Str, c: byte, pos: nat) {
    pos <= |data| && (forall i :: 0 <= i < pos ==> data[i] < c) && forall i :: pos <= i < |data| ==> c < data[i]
  }

  ghost function WithChild(t: Tree, q: Ptr, c: byte, pos: nat, child: Tree): (s: Tree)
    requires t.T? && pos <= |t.data| == |t.kids|
  {
    T(q, t.iskey, t.value, false, InsertAt(t.data, pos, c), InsertAt(t.kids, pos, child))
  }

  lemma InsertAscending(data: Str, c: byte, pos: nat)
    requires Ascending(data) && IsPlace(data, c, pos)
    ensures Ascending(InsertAt(data, pos, c))
  {
  }

  /** Inserting an edge byte moves no other edge away from its child. */
  lemma FindInserted(data: Str, c: byte, pos: nat, b: byte)
    requires Ascending(data) && IsPlace(data, c, pos)
    ensures b == c ==> Find(InsertAt(data, pos, c), b) == pos && Find(data, b) == |data|
    ensures b != c ==> Find(InsertAt(data, pos, c), b) == Find(data, b) + (if Find(data, b) < pos then 0 else 1)
  {
    var r := InsertAt(data, pos, c);
    InsertAscending(data, c, pos);
    var j := Find(data, b);
    if b == c {
      assert r[pos] == c;
      FindAt(r, pos);
    } else if j < |data| {
      var i := if j < pos then j else j + 1;
      assert r[i] == b;
      FindAt(r, i);
    } else {
      forall i | 0 <= i < |r|
        ensures r[i] != b
      {
        assert r[i] == if i < pos then data[i] else if i == pos then c else data[i - 1];
      }
    }
  }

  /** A childless non-key child changes no lookup. */
  lemma WithChildLookup(t: Tree, q: Ptr, c: byte, pos: nat, child: Ptr)
    requires t.T? && Shape(t) && !t.iscompr && IsPlace(t.data, c, pos)
    ensures Shape(WithChild(t, q, c, pos, Leaf(child))) && SameLookup(WithChild(t, q, c, pos, Leaf(child)), t)
  {
    var s := WithChild(t, q, c, pos, Leaf(child));
    InsertAscending(t.data, c, pos);
    assert Shape(s);
    forall k: Str
      ensures Lookup(s, k) == Lookup(t, k)
    {
      if k != [] { WithChildAt(t, q, c, pos, child, k, k[0]); }
    }
  }

  /** Lookup at a node that is not compressed, by the first byte. */
  lemma LookupFirst(t: Tree, k: Str, b: byte, j: nat)
    requires t.T? && Shape(t) && !t.iscompr && k != [] && k[0] == b && Find(t.data, b) == j
    ensures Lookup(t, k) == if j < |t.kids| then Lookup(t.kids[j], k[1..]) else None
  {
  }

  lemma LeafLookup(p: Ptr, k: Str)
    ensures Lookup(Leaf(p), k) == None
  {
  }

  lemma WithChildAt(t: Tree, q: Ptr, c: byte, pos: nat, child: Ptr, k: Str, b: byte)
    requires t.T? && Shape(t) && !t.iscompr && IsPlace(t.data, c, pos) && k != [] && k[0] == b
    requires Shape(WithChild(t, q, c, pos, Leaf(child)))
    ensures Lookup(WithChild(t, q, c, pos, Leaf(child)), k) == Lookup(t, k)
  {
    hide Find;
    var s := WithChild(t, q, c, pos, Leaf(child));
    FindInserted(t.data, c, pos, b);
    LookupFirst(t, k, b, Find(t.data, b));
    LookupFirst(s, k, b, Find(s.data, b));
    LeafLookup(child, k[1..]);
  }

  /** A node without children as a compressed node with one, childless, child. */
  ghost function Chain(t: Tree, q: Ptr, str: Str, child: Tree): (s: Tree)
    requires t.T?
  {
    T(q, t.iskey, t.value, true, str, [child])
  }

  lemma ChainLookup(t: Tree, q: Ptr, str: Str, child: Ptr)
    requires t.T? && Shape(t) && t.kids == [] && |str| >= 2
    ensures Shape(Chain(t, q, str, Leaf(child))) && SameLookup(Chain(t, q, str, Leaf(child)), t)
  {
    var s := Chain(t, q, str, Leaf(child));
    forall k: Str
      ensures Lookup(s, k) == Lookup(t, k)
    {
    }
  }

  // ------------------------------------------------------------------
  // Splitting a compressed node
  // ------------------------------------------------------------------

  /** A node with a run of edge bytes: compressed when there are at least two. */
  ghost function Run(q: Ptr, iskey: bool, value: nat, data: Str, child: Tree): (s: Tree) {
    T(q, iskey, value, |data| > 1, data, [child])
  }

  lemma RunShape(q: Ptr, iskey: bool, value: nat, data: Str, child: Tree)
    requires |data| >= 1 && Shape(child)
    ensures Shape(Run(q, iskey, value, data, child))
  {
  }

  lemma RunLookup(q: Ptr, iskey: bool, value: nat, data: Str, child: Tree, k: Str)
    requires |data| >= 1 && k != []
    ensures Lookup(Run(q, iskey, value, data, child), k) == if data <= k then Lookup(child, k[|data|..]) else None
  {
    if |data| == 1 { assert data == [data[0]]; }
  }

  /** A run may be broken in two anywhere, at a node that is not a key. */
  lemma RunBreak(q: Ptr, iskey: bool, value: nat, data: Str, i: nat, r: Ptr, v: nat, child: Tree)
    requires 1 <= i < |data|
    ensures SameLookup(Run(q, iskey, value, data[..i], Run(r, false, v, data[i..], child)),
      Run(q, iskey, value, data, child))
  {
    var a, b := data[..i], data[i..];
    forall k: Str
      ensures Lookup(Run(q, iskey, value, a, Run(r, false, v, b, child)), k) ==
        Lookup(Run(q, iskey, value, data, child), k)
    {
      if k != [] {
        assert a + b == data;
        PrefixSplit(a, b, k);
        RunLookup(q, iskey, value, a, Run(r, false, v, b, child), k);
        RunLookup(q, iskey, value, data, child, k);
        if a < k { RunLookup(r, false, v, b, child, k[i..]); }
      }
    }
  }

  lemma SameTrans(a: Tree, b: Tree, c: Tree)
    requires SameLookup(a, b) && SameLookup(b, c)
    ensures SameLookup(a, c)
  {
    forall k: Str ensures Lookup(a, k) == Lookup(c, k) { assert Lookup(a, k) == Lookup(b, k); }
  }

  /** Runs over trees with the same lookups have the same lookups. */
  lemma RunSame(q: Ptr, iskey: bool, value: nat, data: Str, child: Tree, other: Tree)
    requires |data| >= 1 && SameLookup(child, other)
    ensures SameLookup(Run(q, iskey, value, data, child), Run(q, iskey, value, data, other))
  {
    forall k: Str
      ensures Lookup(Run(q, iskey, value, data, child), k) == Lookup(Run(q, iskey, value, data, other), k)
    {
      if k != [] {
        RunLookup(q, iskey, value, data, child, k);
        RunLookup(q, iskey, value, data, other, k);
      }
    }
  }

  /** Where a node lies does not matter. */
  lemma MovedSame(t: Tree, q: Ptr)
    requires t.T?
    ensures SameLookup(T(q, t.iskey, t.value, t.iscompr, t.data, t.kids), t)
  {
    forall k: Str ensures Lookup(T(q, t.iskey, t.value, t.iscompr, t.data, t.kids), k) == Lookup(t, k) {}
  }

  /** What is left behind the byte that is split off. */
  ghost function Postfix(t: Tree, j: nat, q: Ptr): (s: Tree)
    requires t.T? && |t.kids| == 1 && j < |t.data|
  {
    if j + 1 == |t.data| then t.kids[0] else Run(q, false, 0, t.data[j + 1..], t.kids[0])
  }

  /** A compressed node taken apart at byte j: what is before, that byte alone, what is behind. */
  ghost function Apart(t: Tree, j: nat, trimmed: Ptr, split: Ptr, postfix: Ptr): (s: Tree)
    requires t.T? && |t.kids| == 1 && j < |t.data|
  {
    if j == 0 then T(split, t.iskey, t.value, false, [t.data[0]], [Postfix(t, 0, postfix)])
    else Run(trimmed, t.iskey, t.value, t.data[..j], T(split, false, 0, false, [t.data[j]], [Postfix(t, j, postfix)]))
  }

  lemma ApartShape(t: Tree, j: nat, trimmed: Ptr, split: Ptr, postfix: Ptr)
    requires t.T? && Shape(t) && t.iscompr && j < |t.data|
    ensures Shape(Apart(t, j, trimmed, split, postfix))
  {
  }

  /** The split byte and the postfix read like the rest of the run. */
  lemma SplitTail(t: Tree, j: nat, split: Ptr, postfix: Ptr)
    requires t.T? && Shape(t) && t.iscompr && j < |t.data|
    ensures SameLookup(T(split, false, 0, false, [t.data[j]], [Postfix(t, j, postfix)]),
      Run(split, false, 0, t.data[j..], t.kids[0]))
  {
    var d := t.data[j..];
    if j + 1 < |t.data| {
      assert d[..1] == [t.data[j]] && d[1..] == t.data[j + 1..];
      RunBreak(split, false, 0, d, 1, postfix, 0, t.kids[0]);
    } else {
      assert d == [t.data[j]];
    }
  }

  /** Taking a compressed node apart changes no lookup. */
  lemma ApartLookup(t: Tree, j: nat, trimmed: Ptr, split: Ptr, postfix: Ptr)
    requires t.T? && Shape(t) && t.iscompr && j < |t.data|
    ensures SameLookup(Apart(t, j, trimmed, split, postfix), t)
  {
    var s := T(split, false, 0, false, [t.data[j]], [Postfix(t, j, postfix)]);
    SplitTail(t, j, split, postfix);
    var whole := Run(t.ptr, t.iskey, t.value, t.data, t.kids[0]);
    assert whole == t by { assert t.kids == [t.kids[0]]; }
    if j == 0 {
      assert t.data[0..] == t.data;
      forall k: Str
        ensures Lookup(Apart(t, j, trimmed, split, postfix), k) == Lookup(t, k)
      {
        if k != [] {
          assert Lookup(s, k) == Lookup(Run(split, false, 0, t.data, t.kids[0]), k);
          RunLookup(split, false, 0, t.data, t.kids[0], k);
        }
      }
    } else {
      RunSame(trimmed, t.iskey, t.value, t.data[..j], s, Run(split, false, 0, t.data[j..], t.kids[0]));
      RunBreak(trimmed, t.iskey, t.value, t.data, j, split, 0, t.kids[0]);
      SameTrans(Apart(t, j, trimmed, split, postfix),
        Run(trimmed, t.iskey, t.value, t.data[..j], Run(split, false, 0, t.data[j..], t.kids[0])),
        Run(trimmed, t.iskey, t.value, t.data, t.kids[0]));
      MovedSame(t, trimmed);
      SameTrans(Apart(t, j, trimmed, split, postfix), Run(trimmed, t.iskey, t.value, t.data, t.kids[0]), t);
    }
  }

  /** A compressed node broken in two before byte j. */
  ghost function Broken(t: Tree, j: nat, trimmed: Ptr, postfix: Ptr, iskey: bool, v: nat): (s: Tree)
    requires t.T? && |t.kids| == 1 && j <= |t.data|
  {
    Run(trimmed, t.iskey, t.value, t.data[..j], Run(postfix, iskey, v, t.data[j..], t.kids[0]))
  }

  lemma BrokenLookup(t: Tree, j: nat, trimmed: Ptr, postfix: Ptr)
    requires t.T? && Shape(t) && t.iscompr && 1 <= j < |t.data|
    ensures SameLookup(Broken(t, j, trimmed, postfix, false, 0), t)
  {
    assert t.kids == [t.kids[0]];
    RunBreak(trimmed, t.iskey, t.value, t.data, j, postfix, 0, t.kids[0]);
    MovedSame(t, trimmed);
    SameTrans(Broken(t, j, trimmed, postfix, false, 0), Run(trimmed, t.iskey, t.value, t.data, t.kids[0]), t);
  }

  // ------------------------------------------------------------------
  // Losing a child
  // ------------------------------------------------------------------

  function RemoveAt<A>(s: seq<A>, i: nat): (r: seq<A>)
    requires i < |s|
    ensures |r| == |s| - 1
  {
    s[..i] + s[i + 1..]
  }

  ghost function WithoutChild(t: Tree, j: nat): (s: Tree)
    requires t.T? && Shape(t) && j < |t.kids|
  {
    if t.iscompr then T(t.ptr, t.iskey, t.value, false, [], [])
    else T(t.ptr, t.iskey, t.value, false, RemoveAt(t.data, j), RemoveAt(t.kids, j))
  }

  lemma RemoveAscending(data: Str, j: nat)
    requires Ascending(data) && j < |data|
    ensures Ascending(RemoveAt(data, j))
  {
  }

  lemma FindRemoved(data: Str, j: nat, b: byte)
    requires Ascending(data) && j < |data|
    ensures b == data[j] ==> Find(RemoveAt(data, j), b) == |data| - 1
    ensures b != data[j] ==> Find(RemoveAt(data, j), b) == Find(data, b) - (if Find(data, b) < j then 0 else 1)
  {
    var r, i := RemoveAt(data, j), Find(data, b);
    RemoveAscending(data, j);
    if b != data[j] && i < |data| {
      var x := if i < j then i else i - 1;
      assert r[x] == b;
      FindAt(r, x);
    } else {
      forall x | 0 <= x < |r|
        ensures r[x] != b
      {
        assert r[x] == if x < j then data[x] else data[x + 1];
      }
    }
  }

  /** A child that is gone stood for nothing. */
  lemma WithoutChildLookup(t: Tree, j: nat)
    requires t.T? && Shape(t) && j < |t.kids| && t.kids[j].Gone?
    ensures Shape(WithoutChild(t, j)) && SameLookup(WithoutChild(t, j), t)
  {
    var s := WithoutChild(t, j);
    if !t.iscompr { RemoveAscending(t.data, j); }
    assert Shape(s);
    forall k: Str
      ensures Lookup(s, k) == Lookup(t, k)
    {
      if k != [] && !t.iscompr { WithoutChildAt(t, j, k, k[0]); }
    }
  }

  lemma WithoutChildAt(t: Tree, j: nat, k: Str, b: byte)
    requires t.T? && Shape(t) && !t.iscompr && j < |t.kids| && t.kids[j].Gone? && k != [] && k[0] == b
    requires Shape(WithoutChild(t, j))
    ensures Lookup(WithoutChild(t, j), k) == Lookup(t, k)
  {
    var s := WithoutChild(t, j);
    FindRemoved(t.data, j, b);
    LookupFirst(t, k, b, Find(t.data, b));
    LookupFirst(s, k, b, Find(s.data, b));
    if b == t.data[j] { FindAt(t.data, j); }
  }

  /** A node that is not a key and has at most a gone child stands for nothing. */
  lemma DeadLookup(t: Tree, p: Ptr)
    requires t.T? && !t.iskey && |t.kids| <= 1 && (t.kids != [] ==> t.kids[0].Gone?)
    ensures SameLookup(Gone(p), t)
  {
    forall k: Str ensures Lookup(Gone(p), k) == Lookup(t, k) {}
  }

  // ------------------------------------------------------------------
  // The lengths of runs
  // ------------------------------------------------------------------

  /** No run is longer than n. */
  ghost predicate Narrow(t: Tree, n: nat) {
    t.T? ==> (t.iscompr ==> |t.data| <= n) && forall i :: 0 <= i < |t.kids| ==> Narrow(t.kids[i], n)
  }

  /** Other nodes have at most 256 edge bytes. */
  lemma {:induction false} AscendingShort(data: Str)
    requires Ascending(data)
    ensures |data| <= 256 && forall i :: 0 <= i < |data| ==> data[i] >= i
  {
    if data != [] {
      var n := |data| - 1;
      var s := data[..n];
      AscendingShort(s);
      assert forall i :: 0 <= i < n ==> s[i] == data[i];
      assert n > 0 ==> data[n - 1] < data[n];
      assert data[n] >= n;
    }
  }

  lemma {:induction false} NarrowSub(t: Tree, p: seq<nat>, n: nat)
    requires HasPath(t, p) && Narrow(t, n)
    ensures Narrow(Sub(t, p), n)
    decreases p
  {
    if p != [] { NarrowSub(t.kids[p[0]], p[1..], n); }
  }

  lemma {:induction false} NarrowReplace(t: Tree, p: seq<nat>, s: Tree, n: nat)
    requires HasPath(t, p) && Narrow(t, n) && Narrow(s, n)
    ensures Narrow(Replace(t, p, s), n)
    decreases p
  {
    if p != [] { NarrowReplace(t.kids[p[0]], p[1..], s, n); }
  }

  lemma NarrowApart(t: Tree, j: nat, trimmed: Ptr, split: Ptr, postfix: Ptr, n: nat)
    requires t.T? && t.iscompr && |t.kids| == 1 && j < |t.data| && Narrow(t, n)
    ensures Narrow(Apart(t, j, trimmed, split, postfix), n)
  {
  }

  lemma NarrowBroken(t: Tree, j: nat, trimmed: Ptr, postfix: Ptr, iskey: bool, v: nat, n: nat)
    requires t.T? && t.iscompr && |t.kids| == 1 && j <= |t.data| && Narrow(t, n)
    ensures Narrow(Broken(t, j, trimmed, postfix, iskey, v), n)
  {
  }

  lemma NarrowChild(t: Tree, q: Ptr, c: byte, pos: nat, child: Tree, n: nat)
    requires t.T? && pos <= |t.data| == |t.kids| && Narrow(t, n) && Narrow(child, n)
    ensures Narrow(WithChild(t, q, c, pos, child), n)
  {
    var s := WithChild(t, q, c, pos, child);
    forall i | 0 <= i < |s.kids|
      ensures Narrow(s.kids[i], n)
    {
      assert s.kids[i] == if i < pos then t.kids[i] else if i == pos then child else t.kids[i - 1];
    }
  }


  /** A node that is not a key and has exactly one child. */
  ghost predicate Passing(t: Tree) {
    t.T? && !t.iskey && |t.kids| == 1
  }
}
