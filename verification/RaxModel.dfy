/**
 The radix tree as a value: its nodes with their addresses, the partial function
 from strings it stands for, and what replacing a subtree does to both.
 */
module RaxModel {
  import opened Bytes

  type Str = seq<byte>

  /** An address; nothing more is assumed of it. */
  type Ptr = nat

  /** A node in memory: is it a key and with what value (0 is the null pointer),
      is it compressed, its edge bytes, and the addresses of its children. */
  datatype RaxNode = RaxNode(iskey: bool, value: nat, iscompr: bool, data: Str, kids: seq<Ptr>)

  /** A tree in memory. `Gone` is a node that has been freed while its parent still points to it. */
  datatype Tree =
    | Gone(ptr: Ptr)
    | T(ptr: Ptr, iskey: bool, value: nat, iscompr: bool, data: Str, kids: seq<Tree>)

  function Leaf(p: Ptr): (t: Tree) {
    T(p, false, 0, false, [], [])
  }

  // ------------------------------------------------------------------
  // What a tree stands for
  // ------------------------------------------------------------------

  /** Index of the first edge byte c, or the number of edge bytes. */
  function Find(data: Str, c: byte): (j: nat)
    ensures j <= |data| && (j < |data| ==> data[j] == c) && forall i :: 0 <= i < j ==> data[i] != c
  {
    if data == [] || data[0] == c then 0 else 1 + Find(data[1..], c)
  }

  /** The value stored for string k, if any. */
  ghost function Lookup(t: Tree, k: Str): (r: Option<nat>) {
    if t.Gone? then None
    else if k == [] then (if t.iskey then Some(t.value) else None)
    else if t.iscompr then (if |t.kids| == 1 && t.data <= k then Lookup(t.kids[0], k[|t.data|..]) else None)
    else var j := Find(t.data, k[0]); if j < |t.kids| then Lookup(t.kids[j], k[1..]) else None
  }

  /** Edge bytes ascend; a compressed node has one child and at least two edge bytes. */
  ghost predicate Shape(t: Tree) {
    t.Gone? ||
    ((if t.iscompr then |t.data| >= 2 && |t.kids| == 1 else |t.data| == |t.kids| && Ascending(t.data)) &&
     forall i :: 0 <= i < |t.kids| ==> Shape(t.kids[i]))
  }

  ghost predicate Ascending(data: Str) {
    forall i, j :: 0 <= i < j < |data| ==> data[i] < data[j]
  }

  type Map = map<Str, nat>

  ghost predicate Denotes(t: Tree, m: Map) {
    forall k: Str :: Lookup(t, k) == if k in m then Some(m[k]) else None
  }

  // ------------------------------------------------------------------
  // Paths
  // ------------------------------------------------------------------

  ghost predicate HasPath(t: Tree, p: seq<nat>) {
    p != [] ==> t.T? && p[0] < |t.kids| && HasPath(t.kids[p[0]], p[1..])
  }

  ghost function Sub(t: Tree, p: seq<nat>): (s: Tree)
    requires HasPath(t, p)
  {
    if p == [] then t else Sub(t.kids[p[0]], p[1..])
  }

  ghost function Replace(t: Tree, p: seq<nat>, s: Tree): (r: Tree)
    requires HasPath(t, p)
  {
    if p == [] then s
    else T(t.ptr, t.iskey, t.value, t.iscompr, t.data, t.kids[p[0] := Replace(t.kids[p[0]], p[1..], s)])
  }

  /** The bytes on the edge to child j. */
  ghost function Edge(t: Tree, j: nat): (e: Str)
    requires t.T? && Shape(t) && j < |t.kids|
    ensures |e| >= 1
  {
    if t.iscompr then t.data else [t.data[j]]
  }

  /** The string that leads to the node at path p. */
  ghost function Prefix(t: Tree, p: seq<nat>): (k: Str)
    requires HasPath(t, p) && Shape(t)
  {
    if p == [] then [] else Edge(t, p[0]) + Prefix(t.kids[p[0]], p[1..])
  }

  lemma FindAt(data: Str, j: nat)
    requires Ascending(data) && j < |data|
    ensures Find(data, data[j]) == j
  {
  }

  /** Which strings go by way of child j. */
  lemma LookupKid(t: Tree, j: nat, k: Str)
    requires t.T? && Shape(t) && j < |t.kids| && Edge(t, j) <= k
    ensures Lookup(t, k) == Lookup(t.kids[j], k[|Edge(t, j)|..])
  {
    if !t.iscompr { FindAt(t.data, j); }
  }

  /** A string that does not go by way of child j does not care about that child. */
  lemma LookupOther(t: Tree, j: nat, k: Str, s: Tree)
    requires t.T? && Shape(t) && j < |t.kids| && !(Edge(t, j) <= k)
    ensures Lookup(T(t.ptr, t.iskey, t.value, t.iscompr, t.data, t.kids[j := s]), k) == Lookup(t, k)
  {
    if !t.iscompr && k != [] {
      FindAt(t.data, j);
      assert [t.data[j]] <= k <==> t.data[j] == k[0];
    }
  }

  lemma PrefixSplit(a: Str, b: Str, k: Str)
    ensures a + b <= k <==> a <= k && b <= k[|a|..]
    ensures a + b <= k ==> k[|a + b|..] == k[|a|..][|b|..]
  {
    if a <= k && b <= k[|a|..] {
      assert k == a + k[|a|..];
    }
    if a + b <= k {
      assert (a + b)[..|a|] == a && (a + b)[|a|..] == b;
      assert k[..|a|] == k[..|a + b|][..|a|];
      assert k[|a|..][..|b|] == k[..|a + b|][|a|..];
    }
  }

  lemma {:induction false} LookupSub(t: Tree, p: seq<nat>, k: Str)
    requires HasPath(t, p) && Shape(t) && Prefix(t, p) <= k
    ensures Lookup(t, k) == Lookup(Sub(t, p), k[|Prefix(t, p)|..])
    decreases p
  {
    if p != [] {
      PrefixSplit(Edge(t, p[0]), Prefix(t.kids[p[0]], p[1..]), k);
      LookupKid(t, p[0], k);
      LookupSub(t.kids[p[0]], p[1..], k[|Edge(t, p[0])|..]);
    }
  }

  lemma {:induction false} ReplaceShape(t: Tree, p: seq<nat>, s: Tree)
    requires HasPath(t, p) && Shape(t) && Shape(s)
    ensures Shape(Replace(t, p, s)) && HasPath(Replace(t, p, s), p) && Sub(Replace(t, p, s), p) == s
    ensures Prefix(Replace(t, p, s), p) == Prefix(t, p)
    decreases p
  {
    if p != [] {
      ReplaceShape(t.kids[p[0]], p[1..], s);
      ShapeKid(t, p[0], Replace(t.kids[p[0]], p[1..], s));
    }
  }

  lemma ShapeKid(t: Tree, j: nat, s: Tree)
    requires t.T? && Shape(t) && j < |t.kids| && Shape(s)
    ensures Shape(T(t.ptr, t.iskey, t.value, t.iscompr, t.data, t.kids[j := s]))
  {
  }

  /** Replacing the subtree at p matters to exactly the strings that begin with its prefix. */
  lemma {:induction false} LookupReplace(t: Tree, p: seq<nat>, s: Tree, k: Str)
    requires HasPath(t, p) && Shape(t) && Shape(s)
    ensures Prefix(t, p) <= k ==> Lookup(Replace(t, p, s), k) == Lookup(s, k[|Prefix(t, p)|..])
    ensures !(Prefix(t, p) <= k) ==> Lookup(Replace(t, p, s), k) == Lookup(t, k)
    decreases p
  {
    if p == [] {
      assert k[0..] == k;
    } else {
      var j, kid := p[0], t.kids[p[0]];
      var r := Replace(t, p, s);
      PrefixSplit(Edge(t, j), Prefix(kid, p[1..]), k);
      if Edge(t, j) <= k {
        LookupReplace(kid, p[1..], s, k[|Edge(t, j)|..]);
        ReplaceShape(t, p, s);
        LookupKid(t, j, k);
        LookupKid(r, j, k);
      } else {
        LookupOther(t, j, k, Replace(kid, p[1..], s));
      }
    }
  }

  lemma {:induction false} PathStep(t: Tree, p: seq<nat>, i: nat)
    requires HasPath(t, p) && Sub(t, p).T? && i < |Sub(t, p).kids|
    ensures HasPath(t, p + [i]) && Sub(t, p + [i]) == Sub(t, p).kids[i]
    decreases p
  {
    if p != [] {
      PathStep(t.kids[p[0]], p[1..], i);
      assert (p + [i])[1..] == p[1..] + [i];
    } else {
      assert [i][1..] == [];
    }
  }

  lemma {:induction false} PrefixStep(t: Tree, p: seq<nat>, i: nat)
    requires HasPath(t, p) && Shape(t) && Sub(t, p).T? && i < |Sub(t, p).kids|
    ensures HasPath(t, p + [i]) && Shape(Sub(t, p)) && Prefix(t, p + [i]) == Prefix(t, p) + Edge(Sub(t, p), i)
    decreases p
  {
    PathStep(t, p, i);
    if p != [] {
      PrefixStep(t.kids[p[0]], p[1..], i);
      assert (p + [i])[1..] == p[1..] + [i];
    } else {
      assert [i][1..] == [];
    }
  }

  lemma {:induction false} SubShape(t: Tree, p: seq<nat>)
    requires HasPath(t, p) && Shape(t)
    ensures Shape(Sub(t, p))
    decreases p
  {
    if p != [] { SubShape(t.kids[p[0]], p[1..]); }
  }

  /** Replacing a replacement. */
  lemma {:induction false} ReplaceTwice(t: Tree, p: seq<nat>, s: Tree, r: Tree)
    requires HasPath(t, p)
    ensures HasPath(Replace(t, p, s), p) && Replace(Replace(t, p, s), p, r) == Replace(t, p, r)
    ensures Sub(Replace(t, p, s), p) == s
    decreases p
  {
    if p != [] { ReplaceTwice(t.kids[p[0]], p[1..], s, r); }
  }

  /** Replacing below is replacing the node whose child changes. */
  lemma {:induction false} ReplaceStep(t: Tree, p: seq<nat>, i: nat, s: Tree)
    requires HasPath(t, p) && Sub(t, p).T? && i < |Sub(t, p).kids|
    ensures HasPath(t, p + [i])
    ensures var n := Sub(t, p);
      Replace(t, p + [i], s) == Replace(t, p, T(n.ptr, n.iskey, n.value, n.iscompr, n.data, n.kids[i := s]))
    decreases p
  {
    PathStep(t, p, i);
    if p != [] {
      ReplaceStep(t.kids[p[0]], p[1..], i, s);
      assert (p + [i])[1..] == p[1..] + [i];
    } else {
      assert [i][1..] == [];
    }
  }

  // ------------------------------------------------------------------
  // Meaning-preserving replacements, and changes at one string
  // ------------------------------------------------------------------

  ghost predicate SameLookup(s: Tree, t: Tree) {
    forall k: Str :: Lookup(s, k) == Lookup(t, k)
  }

  lemma ReplaceSame(t: Tree, p: seq<nat>, s: Tree, m: Map)
    requires HasPath(t, p) && Shape(t) && Shape(s) && SameLookup(s, Sub(t, p)) && Denotes(t, m)
    ensures Denotes(Replace(t, p, s), m)
  {
    forall k: Str
      ensures Lookup(Replace(t, p, s), k) == Lookup(t, k)
    {
      LookupReplace(t, p, s, k);
      if Prefix(t, p) <= k { LookupSub(t, p, k); }
    }
  }

  /** `s` is `t` but for the value stored at its root. */
  ghost predicate ChangedRoot(s: Tree, t: Tree, v: Option<nat>) {
    forall k: Str :: Lookup(s, k) == if k == [] then v else Lookup(t, k)
  }

  lemma ReplaceRoot(t: Tree, p: seq<nat>, s: Tree, m: Map, v: nat)
    requires HasPath(t, p) && Shape(t) && Shape(s) && ChangedRoot(s, Sub(t, p), Some(v)) && Denotes(t, m)
    ensures Denotes(Replace(t, p, s), m[Prefix(t, p) := v])
  {
    hide Prefix;
    var x := Prefix(t, p);
    forall k: Str
      ensures Lookup(Replace(t, p, s), k) == if k in m[x := v] then Some(m[x := v][k]) else None
    {
      LookupReplace(t, p, s, k);
      if x <= k {
        LookupSub(t, p, k);
        assert k[|x|..] == [] <==> k == x by { if k[|x|..] == [] { assert k == x + k[|x|..]; } }
      }
    }
  }

  lemma RemoveRoot(t: Tree, p: seq<nat>, s: Tree, m: Map)
    requires HasPath(t, p) && Shape(t) && Shape(s) && ChangedRoot(s, Sub(t, p), None) && Denotes(t, m)
    ensures Denotes(Replace(t, p, s), m - {Prefix(t, p)})
  {
    hide Lookup;
    var x := Prefix(t, p);
    forall k: Str
      ensures Lookup(Replace(t, p, s), k) == if k in m - {x} then Some((m - {x})[k]) else None
    {
      LookupReplace(t, p, s, k);
      if x <= k {
        LookupSub(t, p, k);
        assert k[|x|..] == [] <==> k == x by { if k[|x|..] == [] { assert k == x + k[|x|..]; } }
      }
    }
  }

  lemma DenotesFor(t: Tree, m: Map, k: Str)
    requires Denotes(t, m)
    ensures k in m <==> Lookup(t, k).Some?
    ensures k in m ==> Lookup(t, k) == Some(m[k])
    ensures k !in m ==> m - {k} == m
  {
    assert Lookup(t, k) == if k in m then Some(m[k]) else None;
  }

  /** What the map says about the node at a path. */
  lemma DenotesAt(t: Tree, p: seq<nat>, m: Map)
    requires HasPath(t, p) && Shape(t) && Denotes(t, m) && Sub(t, p).T?
    ensures Prefix(t, p) in m <==> Sub(t, p).iskey
    ensures Sub(t, p).iskey ==> m[Prefix(t, p)] == Sub(t, p).value
  {
    LookupSub(t, p, Prefix(t, p));
  }
}
