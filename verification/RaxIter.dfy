/** The ordered iterator of the radix tree. */
module RaxIter {
  import opened Bytes
  import opened RaxModel
  import opened RaxHeap
  import opened RaxChange
  import opened RaxWalk
  import opened RaxRemoval
  import opened RaxOrder
  import opened Rax

  // ------------------------------------------------------------------
  // How much is left to visit
  // ------------------------------------------------------------------

  ghost function Size(t: Tree): (n: nat)
    decreases t, 0
  {
    if t.Gone? then 0 else 1 + SizeAll(t.kids)
  }

  ghost function SizeAll(ts: seq<Tree>): (n: nat)
    decreases ts, 1
  {
    if ts == [] then 0 else Size(ts[0]) + SizeAll(ts[1..])
  }

  /** The number of nodes visited after the subtree at p. */
  ghost function After(t: Tree, p: seq<nat>): (n: nat)
    requires HasPath(t, p)
  {
    if p == [] then 0 else SizeAll(t.kids[p[0] + 1..]) + After(t.kids[p[0]], p[1..])
  }

  /** The number of nodes visited after the node at p. */
  ghost function Rest(t: Tree, p: seq<nat>): (n: nat)
    requires HasPath(t, p)
  {
    if Sub(t, p).Gone? then After(t, p) else SizeAll(Sub(t, p).kids) + After(t, p)
  }

  lemma {:induction false} AfterStep(t: Tree, p: seq<nat>, i: nat)
    requires HasPath(t, p) && Sub(t, p).T? && i < |Sub(t, p).kids|
    ensures HasPath(t, p + [i]) && After(t, p + [i]) == SizeAll(Sub(t, p).kids[i + 1..]) + After(t, p)
    decreases p
  {
    PathStep(t, p, i);
    if p != [] {
      AfterStep(t.kids[p[0]], p[1..], i);
      assert (p + [i])[1..] == p[1..] + [i];
    } else {
      assert [i][1..] == [];
    }
  }

  lemma {:induction false} SizeDrop(ts: seq<Tree>, i: nat, j: nat)
    requires i <= j <= |ts|
    ensures SizeAll(ts[j..]) <= SizeAll(ts[i..])
    decreases j - i
  {
    if i < j {
      assert ts[i..][1..] == ts[i + 1..];
      SizeDrop(ts, i + 1, j);
    }
  }

  /** Child j, visited from somewhere before it, leaves less to visit. */
  lemma RestKid(t: Tree, p: seq<nat>, i: nat, j: nat)
    requires HasPath(t, p) && Sub(t, p).T? && i <= j < |Sub(t, p).kids| && Sub(t, p).kids[j].T?
    ensures HasPath(t, p + [j]) && Rest(t, p + [j]) < SizeAll(Sub(t, p).kids[i..]) + After(t, p)
  {
    AfterStep(t, p, j);
    PathStep(t, p, j);
    SizeDrop(Sub(t, p).kids, i, j);
    assert Sub(t, p).kids[j..][1..] == Sub(t, p).kids[j + 1..];
  }

  // ------------------------------------------------------------------
  // The iterator
  // ------------------------------------------------------------------

  /** What a step forward from `from` may find: what comes after it, or past all that
      begins with it when `noup` is set. */
  ghost predicate Ahead(noup: bool, from: Str, k: Str) {
    if noup then Past(from, k) else Less(from, k)
  }

  /** `key` is the first string of m ahead. */
  ghost predicate FirstAhead(m: Map, noup: bool, from: Str, key: Str) {
    key in m && Ahead(noup, from, key) && forall k :: k in m && Ahead(noup, from, k) ==> k == key || Less(key, k)
  }

  ghost predicate NoneAhead(m: Map, noup: bool, from: Str) {
    forall k :: k in m ==> !Ahead(noup, from, k)
  }

  /** A child of a node in a whole tree. */
  lemma ChildOf(mem: Mem, t: Tree, p: seq<nat>, j: nat, p2: seq<nat>)
    requires Tidy(mem, t) && t.T? && KeyedBut(t, []) && HasPath(t, p) && Sub(t, p).T? && j < |Sub(t, p).kids| &&
      p2 == p + [j]
    ensures Held(mem, Sub(t, p)) && Shape(Sub(t, p)) && |mem[Sub(t, p).ptr].kids| == |Sub(t, p).kids|
    ensures HasPath(t, p2) && Sub(t, p2) == Sub(t, p).kids[j] && Sub(t, p2).T? &&
      mem[Sub(t, p).ptr].kids[j] == Sub(t, p2).ptr && Held(mem, Sub(t, p2))
    ensures StackOf(t, p2) == StackOf(t, p) + [Sub(t, p).ptr] && Prefix(t, p2) == Prefix(t, p) + Edge(Sub(t, p), j)
    ensures Rest(t, p2) < SizeAll(Sub(t, p).kids) + After(t, p)
  {
    SubFacts(mem, t, p);
    KidThere(mem, t, p, j);
    PrefixStep(t, p, j);
    PathStep(t, p, j);
    StackStep(t, p, j);
    RestKid(t, p, 0, j);
    assert Sub(t, p).kids[0..] == Sub(t, p).kids;
  }

  lemma DownAll(t: Tree, m: Map, p: seq<nat>)
    requires HasPath(t, p) && Shape(t) && Sub(t, p).T? && Sub(t, p).kids != [] && Denotes(t, m)
    ensures HasPath(t, p + [0])
    ensures forall k :: k in m ==> (Less(Prefix(t, p), k) <==> k == Prefix(t, p + [0]) || Less(Prefix(t, p + [0]), k))
  {
    PathStep(t, p, 0);
    forall k | k in m
      ensures Less(Prefix(t, p), k) <==> k == Prefix(t, p + [0]) || Less(Prefix(t, p + [0]), k)
    {
      DenotesFor(t, m, k);
      DownStep(t, p, k);
    }
  }

  /** From past edge byte c of the node at p. */
  lemma SideAll(t: Tree, m: Map, p: seq<nat>, c: byte, i: nat)
    requires HasPath(t, p) && Shape(t) && Sub(t, p).T? && IsNext(Sub(t, p), c, i) && Denotes(t, m)
    ensures |Sub(t, p).data| == |Sub(t, p).kids|
    ensures i < |Sub(t, p).data| ==> HasPath(t, p + [i])
    ensures i < |Sub(t, p).data| ==> forall k :: k in m ==>
      (Past(Prefix(t, p) + [c], k) <==> k == Prefix(t, p + [i]) || Less(Prefix(t, p + [i]), k))
    ensures i == |Sub(t, p).data| ==> forall k :: k in m ==> (Past(Prefix(t, p) + [c], k) <==> Past(Prefix(t, p), k))
  {
    SubShape(t, p);
    if i < |Sub(t, p).data| { PathStep(t, p, i); }
    forall k | k in m
      ensures i < |Sub(t, p).data| ==> (Past(Prefix(t, p) + [c], k) <==>
        k == Prefix(t, p + [i]) || Less(Prefix(t, p + [i]), k))
      ensures i == |Sub(t, p).data| ==> (Past(Prefix(t, p) + [c], k) <==> Past(Prefix(t, p), k))
    {
      DenotesFor(t, m, k);
      SideStep(t, p, c, i, k);
    }
  }

  lemma RunAll(t: Tree, m: Map, p: seq<nat>)
    requires HasPath(t, p) && Shape(t) && Sub(t, p).T? && Sub(t, p).iscompr && Denotes(t, m)
    ensures forall k :: k in m ==> (Past(Prefix(t, p) + Sub(t, p).data, k) <==> Past(Prefix(t, p), k))
  {
    forall k | k in m
      ensures Past(Prefix(t, p) + Sub(t, p).data, k) <==> Past(Prefix(t, p), k)
    {
      DenotesFor(t, m, k);
      RunStep(t, p, k);
    }
  }

  lemma LeafAll(t: Tree, m: Map, p: seq<nat>)
    requires HasPath(t, p) && Shape(t) && Sub(t, p).T? && Sub(t, p).kids == [] && Denotes(t, m)
    ensures forall k :: k in m ==> (Less(Prefix(t, p), k) <==> Past(Prefix(t, p), k))
  {
    forall k | k in m
      ensures Less(Prefix(t, p), k) <==> Past(Prefix(t, p), k)
    {
      DenotesFor(t, m, k);
      LeafStep(t, p, k);
    }
  }

  lemma DropLast(a: Str, b: Str)
    requires b != []
    ensures (a + b)[..|a + b| - |b|] == a && (a + b)[|a + b| - 1] == b[|b| - 1]
  {
  }

  /** What follows the parent follows every one of its children. */
  lemma AfterKid(t: Tree, p: seq<nat>, i: nat, p2: seq<nat>)
    requires HasPath(t, p) && Sub(t, p).T? && i < |Sub(t, p).kids| && p2 == p + [i]
    ensures HasPath(t, p2) && After(t, p) <= After(t, p2)
    ensures forall j :: i < j < |Sub(t, p).kids| && Sub(t, p).kids[j].T? ==>
      HasPath(t, p + [j]) && Rest(t, p + [j]) < After(t, p2)
  {
    AfterStep(t, p, i);
    forall j | i < j < |Sub(t, p).kids| && Sub(t, p).kids[j].T?
      ensures HasPath(t, p + [j]) && Rest(t, p + [j]) < After(t, p2)
    {
      RestKid(t, p, i + 1, j);
    }
  }

  /** A later child leaves less to visit than what comes after an earlier one. */
  lemma SideRest(t: Tree, q: seq<nat>, n: Tree, was: nat, i: nat, c: byte, p0: seq<nat>)
    requires HasPath(t, q) && Sub(t, q) == n && n.T? && Shape(n) && !n.iscompr && p0 == q + [was]
    requires was < |n.data| && n.data[was] == c && i < |n.data| && c < n.data[i] && n.kids[i].T?
    ensures HasPath(t, p0) && HasPath(t, q + [i]) && Rest(t, q + [i]) < After(t, p0)
  {
    assert i > was;
    AfterKid(t, q, was, p0);
  }

  /** A tree with keys whose root is a leaf has the root for its key. */
  lemma HeadIsKey(t: Tree, m: Map)
    requires t.T? && Shape(t) && t.kids == [] && Denotes(t, m) && |m| > 0
    ensures t.iskey
  {
    assert |m.Keys| > 0;
    var k :| k in m.Keys;
    DenotesFor(t, m, k);
  }

  /** The node, and the step after it, at index x of a path. */
  lemma {:induction false} StackAt(t: Tree, p: seq<nat>, x: nat)
    requires HasPath(t, p) && Shape(t) && x < |p|
    ensures HasPath(t, p[..x]) && Sub(t, p[..x]).T? && StackOf(t, p)[x] == Sub(t, p[..x]).ptr
    ensures p[x] < |Sub(t, p[..x]).kids| && p[..x + 1] == p[..x] + [p[x]] && Shape(Sub(t, p[..x]))
    ensures x + 1 < |p| ==> HasPath(t, p[..x + 1]) && StackOf(t, p)[x + 1] == Sub(t, p[..x]).kids[p[x]].ptr
    decreases p
  {
    if x == 0 {
      assert p[..0] == [] && p[..1] == [p[0]];
      if |p| > 1 {
        assert HasPath(t.kids[p[0]], p[1..]) && p[1..] != [];
        PathStep(t, [], p[0]);
        assert [] + [p[0]] == [p[0]];
      }
    } else {
      StackAt(t.kids[p[0]], p[1..], x - 1);
      assert p[..x][1..] == p[1..][..x - 1] && p[..x + 1][1..] == p[1..][..x];
    }
  }

  lemma KeyStep(mem: Mem, t: Tree, p: seq<nat>, x: nat, st: seq<Ptr>)
    requires Tidy(mem, t) && HasPath(t, p) && x < |p| && Sub(t, p).T? && st == StackOf(t, p) + [Sub(t, p).ptr]
    ensures HasPath(t, p[..x]) && Sub(t, p[..x]).T? && Shape(Sub(t, p[..x])) && p[x] < |Sub(t, p[..x]).kids|
    ensures st[x] == Sub(t, p[..x]).ptr && st[x + 1] == Sub(t, p[..x]).kids[p[x]].ptr
    ensures HasPath(t, p[..x + 1]) && Prefix(t, p[..x + 1]) == Prefix(t, p[..x]) + Edge(Sub(t, p[..x]), p[x])
  {
    StackAt(t, p, x);
    PrefixStep(t, p[..x], p[x]);
    PathStep(t, p[..x], p[x]);
    if x + 1 == |p| { assert p[..x + 1] == p; }
  }

  /** What comes after the string sought, told by what is ahead of where the walk stopped. */
  lemma SeekAhead(t: Tree, m: Map, e: Str, p: seq<nat>, i: nat, j: nat, noup: bool, from: Str)
    requires Stopped(t, e, p, i, j) && Denotes(t, m)
    requires var (n, f) := (Sub(t, p), Prefix(t, p));
      if i < |e| && !n.iscompr then noup && from == f + [e[i]]
      else if i < |e| && n.data[j] < e[i] then noup && from == f + n.data
      else !noup && from == f
    ensures forall k :: k in m ==> (Less(e, k) <==> Ahead(noup, from, k))
  {
    forall k | k in m
      ensures Less(e, k) <==> Ahead(noup, from, k)
    {
      DenotesFor(t, m, k);
      SeekAheadOf(t, e, p, i, j, noup, from, k);
    }
  }

  lemma SeekAheadOf(t: Tree, e: Str, p: seq<nat>, i: nat, j: nat, noup: bool, from: Str, k: Str)
    requires Stopped(t, e, p, i, j) && IsKey(t, k)
    requires var (n, f) := (Sub(t, p), Prefix(t, p));
      if i < |e| && !n.iscompr then noup && from == f + [e[i]]
      else if i < |e| && n.data[j] < e[i] then noup && from == f + n.data
      else !noup && from == f
    ensures Less(e, k) <==> Ahead(noup, from, k)
  {
    var n, f := Sub(t, p), Prefix(t, p);
    SubShape(t, p);
    PrefixLen(f, e, i - j);
    var x := e[i - j..];
    assert e == f + x;
    if !n.iscompr {
      if i < |e| {
        assert x == [e[i]] + e[i + 1..];
        SeekByte(t, p, e[i], e[i + 1..], k);
      } else {
        assert x == [] && f + x == f;
      }
    } else {
      assert x[..j] == n.data[..j];
      if i < |e| {
        assert x[j] == e[i];
        if n.data[j] < e[i] {
          DiffersAt(n.data, x, j);
          SeekAfter(t, p, x, k);
        } else {
          DiffersAt(x, n.data, j);
          SeekBefore(t, p, x, k);
        }
      } else {
        assert x == n.data[..j];
        LessPrefix(x, n.data);
        SeekBefore(t, p, x, k);
      }
    }
  }

  /** What comes before the string sought, told by what is before `from`, where a step back
      starts; not if the string ends inside a node that is a key. */
  lemma SeekBehind(t: Tree, m: Map, e: Str, p: seq<nat>, i: nat, j: nat, from: Str)
    requires Stopped(t, e, p, i, j) && Denotes(t, m) && (i == |e| && j > 0 ==> !Sub(t, p).iskey)
    requires var (n, f) := (Sub(t, p), Prefix(t, p));
      if i == |e| then from == f
      else if !n.iscompr then from == f + [e[i]]
      else n.data[j] > e[i] && from == f + n.data
    ensures forall k :: k in m ==> (Less(k, e) <==> Less(k, from))
  {
    DenotesAt(t, p, m);
    if i < |e| && Sub(t, p).iscompr { RunBackAll(t, m, p); }
    forall k | k in m
      ensures Less(k, e) <==> Less(k, from)
    {
      DenotesFor(t, m, k);
      SeekBehindOf(t, e, p, i, j, k);
    }
  }

  /** The same where all below the node comes before the string sought. */
  lemma SeekAbove(t: Tree, m: Map, e: Str, p: seq<nat>, i: nat, j: nat)
    requires Stopped(t, e, p, i, j) && Denotes(t, m) && i < |e| && Sub(t, p).iscompr && Sub(t, p).data[j] < e[i]
    ensures forall k :: k in m ==> (Less(k, e) <==> UpTo(k, Prefix(t, p)))
  {
    forall k | k in m
      ensures Less(k, e) <==> UpTo(k, Prefix(t, p))
    {
      DenotesFor(t, m, k);
      SeekBehindOf(t, e, p, i, j, k);
    }
  }

  /** The key that a string ends inside of comes before it. */
  lemma SeekInside(t: Tree, m: Map, e: Str, p: seq<nat>, j: nat)
    requires Stopped(t, e, p, |e|, j) && Denotes(t, m) && j > 0 && Sub(t, p).iskey
    ensures Prefix(t, p) in m && Less(Prefix(t, p), e) && e !in m
  {
    DenotesAt(t, p, m);
    DenotesFor(t, m, e);
    StoppedLookup(t, e, p, |e|, j);
    LessPrefix(Prefix(t, p), e);
  }

  lemma SeekBehindOf(t: Tree, e: Str, p: seq<nat>, i: nat, j: nat, k: Str)
    requires Stopped(t, e, p, i, j) && IsKey(t, k)
    ensures var (n, f) := (Sub(t, p), Prefix(t, p));
      Less(k, e) <==>
        if !n.iscompr && i < |e| then Less(k, f + [e[i]])
        else if i < |e| && n.data[j] < e[i] then UpTo(k, f)
        else if i < |e| || j > 0 then k == f || Less(k, f)
        else Less(k, f)
  {
    var n, f := Sub(t, p), Prefix(t, p);
    SubShape(t, p);
    PrefixLen(f, e, i - j);
    var x := e[i - j..];
    assert e == f + x;
    if i == |e| && j == 0 {
      assert x == [] && f + x == f;
    } else if !n.iscompr {
      assert x == [e[i]] + e[i + 1..];
      SeekByteBack(t, p, e[i], e[i + 1..], k);
    } else {
      InRun(n.data, x, j);
      if i < |e| && n.data[j] < e[i] {
        assert x[j] == e[i];
        SeekAfterBack(t, p, x, k);
      } else {
        SeekBeforeBack(t, p, x, k);
      }
    }
  }

  /** A string that follows a run for j bytes is before it or past it by the next byte. */
  lemma InRun(data: Str, x: Str, j: nat)
    requires j < |data| && j <= |x| && x[..j] == data[..j] && (j < |x| ==> x[j] != data[j])
    ensures if j < |x| && data[j] < x[j] then Past(data, x) else Less(x, data)
  {
    if j == |x| {
      assert x[..j] == x;
      LessPrefix(x, data);
    } else if data[j] < x[j] {
      DiffersAt(data, x, j);
    } else {
      DiffersAt(x, data, j);
    }
  }

  /** `key` is the last string of m before `from`. */
  ghost predicate LastBehind(m: Map, from: Str, key: Str) {
    key in m && Less(key, from) && forall k :: k in m && Less(k, from) ==> k == key || Less(k, key)
  }

  lemma LastAll(t: Tree, m: Map, p: seq<nat>, p2: seq<nat>)
    requires HasPath(t, p) && Shape(t) && Sub(t, p).T? && Sub(t, p).kids != [] && Denotes(t, m)
    requires p2 == p + [|Sub(t, p).kids| - 1]
    ensures HasPath(t, p2) && forall k :: k in m ==> (UpTo(k, Prefix(t, p)) <==> UpTo(k, Prefix(t, p2)))
  {
    PathStep(t, p, |Sub(t, p).kids| - 1);
    forall k | k in m
      ensures UpTo(k, Prefix(t, p)) <==> UpTo(k, Prefix(t, p2))
    {
      DenotesFor(t, m, k);
      LastDown(t, p, k);
    }
  }

  lemma LastLeafAll(t: Tree, m: Map, p: seq<nat>)
    requires HasPath(t, p) && Shape(t) && Sub(t, p).T? && Sub(t, p).kids == [] && Denotes(t, m)
    ensures forall k :: k in m ==> (UpTo(k, Prefix(t, p)) <==> k == Prefix(t, p) || Less(k, Prefix(t, p)))
  {
    forall k | k in m
      ensures UpTo(k, Prefix(t, p)) <==> k == Prefix(t, p) || Less(k, Prefix(t, p))
    {
      DenotesFor(t, m, k);
      LastLeaf(t, p, k);
    }
  }

  lemma BackAll(t: Tree, m: Map, p: seq<nat>, c: byte, i: int)
    requires HasPath(t, p) && Shape(t) && Sub(t, p).T? && IsPrev(Sub(t, p), c, i) && Denotes(t, m)
    ensures i >= 0 ==> i < |Sub(t, p).kids| && HasPath(t, p + [i])
    ensures i >= 0 ==> forall k :: k in m ==> (Less(k, Prefix(t, p) + [c]) <==> UpTo(k, Prefix(t, p + [i])))
    ensures i < 0 ==> forall k :: k in m ==> (Less(k, Prefix(t, p) + [c]) <==>
      k == Prefix(t, p) || Less(k, Prefix(t, p)))
  {
    SubShape(t, p);
    if i >= 0 { PathStep(t, p, i); }
    forall k | k in m
      ensures i >= 0 ==> (Less(k, Prefix(t, p) + [c]) <==> UpTo(k, Prefix(t, p + [i])))
      ensures i < 0 ==> (Less(k, Prefix(t, p) + [c]) <==> k == Prefix(t, p) || Less(k, Prefix(t, p)))
    {
      DenotesFor(t, m, k);
      BackStep(t, p, c, i, k);
    }
  }

  lemma RunBackAll(t: Tree, m: Map, p: seq<nat>)
    requires HasPath(t, p) && Shape(t) && Sub(t, p).T? && Sub(t, p).iscompr && Denotes(t, m)
    ensures forall k :: k in m ==> (Less(k, Prefix(t, p) + Sub(t, p).data) <==>
      k == Prefix(t, p) || Less(k, Prefix(t, p)))
  {
    forall k | k in m
      ensures Less(k, Prefix(t, p) + Sub(t, p).data) <==> k == Prefix(t, p) || Less(k, Prefix(t, p))
    {
      DenotesFor(t, m, k);
      RunBack(t, p, k);
    }
  }

  ghost predicate NoneBehind(m: Map, from: Str) {
    forall k :: k in m ==> !Less(k, from)
  }

  datatype SeekOp = First | Last | Equal | Greater | GreaterEqual | Smaller | SmallerEqual

  ghost predicate Sought(op: SeekOp, e: Str, k: Str) {
    match op
    case First => true
    case Last => true
    case Equal => k == e
    case Greater => Less(e, k)
    case GreaterEqual => k == e || Less(e, k)
    case Smaller => Less(k, e)
    case SmallerEqual => k == e || Less(k, e)
  }

  predicate Backward(op: SeekOp) {
    op.Last? || op.Smaller? || op.SmallerEqual?
  }

  /** The iterator is at the end if nothing is sought, and else at the one of the elements
      sought that comes first in its direction. */
  ghost predicate SoughtFound(m: Map, op: SeekOp, e: Str, eof: bool, key: Str) {
    if eof then
      forall k :: k in m ==> !Sought(op, e, k)
    else
      key in m && Sought(op, e, key) &&
      forall k :: k in m && Sought(op, e, k) ==> k == key || (if Backward(op) then Less(k, key) else Less(key, k))
  }

  /** The seeks that pass over an element: backwards, from a string that is not sought
      itself and ends inside a node that is a key. */
  ghost predicate PassesOver(t: Tree, m: Map, op: SeekOp, e: Str) {
    (op.Smaller? || (op.SmallerEqual? && e !in m)) && EndsInside(t, e)
  }

  lemma NothingInside(t: Tree, m: Map, e: Str)
    requires Shape(t) && Denotes(t, m) && m.Keys == {}
    ensures !EndsInside(t, e)
  {
    if EndsInside(t, e) {
      var f := InsideKey(t, e);
      DenotesFor(t, m, f);
    }
  }

  /** Every string comes after the empty one, or is it. */
  lemma FirstOfAll(m: Map, e: Str, eof: bool, key: Str)
    requires SoughtFound(m, GreaterEqual, [], eof, key)
    ensures SoughtFound(m, First, e, eof, key)
  {
    forall k | k in m
      ensures Sought(GreaterEqual, [], k)
    {
    }
  }

  /** The keys "f" and "foobar", as insertion leaves them. */
  const RUN: Str := [111, 111, 98, 97, 114]
  const FOOBAR: Tree := T(0, false, 0, false, [102], [T(1, true, 1, true, RUN, [T(2, true, 2, false, [], [])])])
  const FOOBARMAP: Map := map[[102] := 1, [102] + RUN := 2]

  lemma FoobarLookup(k: Str)
    ensures Lookup(FOOBAR, k) == if k in FOOBARMAP then Some(FOOBARMAP[k]) else None
  {
    assert ([102] + RUN)[0] == 102 && ([102] + RUN)[1..] == RUN;
    if k != [] && k[0] == 102 {
      var rest := k[1..];
      assert k == [102] + rest;
      assert Lookup(FOOBAR, k) == Lookup(FOOBAR.kids[0], rest);
      if rest != [] && RUN <= rest {
        assert rest == RUN + rest[5..];
        assert Lookup(FOOBAR.kids[0], rest) == Lookup(FOOBAR.kids[0].kids[0], rest[5..]);
        if rest[5..] == [] { assert rest == RUN; }
      } else if rest == [] {
        assert k == [102];
      }
    }
  }

  /** Sought backwards from "foo", the key "f" is passed over. */
  lemma PassesOverF()
    ensures Shape(FOOBAR) && KeyedBut(FOOBAR, []) && Denotes(FOOBAR, FOOBARMAP)
    ensures [102] in FOOBARMAP && Sought(Smaller, [102, 111, 111], [102])
    ensures PassesOver(FOOBAR, FOOBARMAP, Smaller, [102, 111, 111])
  {
    var f := FOOBAR.kids[0];
    assert Shape(f.kids[0]) && Shape(f) && Keyed(f.kids[0]) && Keyed(f);
    forall k: Str
      ensures Lookup(FOOBAR, k) == if k in FOOBARMAP then Some(FOOBARMAP[k]) else None
    {
      FoobarLookup(k);
    }
    var foo: Str := [102, 111, 111];
    assert foo[1..] == [111, 111] == RUN[..2];
    assert Less([], [111, 111]);
    assert EndsInside(f, [111, 111]);
  }

  /** What is before a string is not the last before one that comes after it. */
  lemma PassedOver(m: Map, op: SeekOp, e: Str, f: Str, eof: bool, key: Str)
    requires op.Smaller? || op.SmallerEqual?
    requires f in m && Less(f, e) && if eof then NoneBehind(m, f) else LastBehind(m, f, key)
    ensures !SoughtFound(m, op, e, eof, key)
  {
    LessIrreflexive(f);
    if !eof && Less(f, key) { LessTransitive(f, key, f); }
  }

  /** The walk along e stops on a key exactly where e is one, and the node's string is e. */
  lemma StoppedHit(t: Tree, m: Map, e: Str, p: seq<nat>, i: nat, j: nat)
    requires Stopped(t, e, p, i, j) && Denotes(t, m)
    ensures Sub(t, p).T? && (!Sub(t, p).iscompr ==> j == 0)
    ensures e in m <==> i == |e| && j == 0 && Sub(t, p).iskey
    ensures e in m ==> Prefix(t, p) == e
    ensures HasPath(t, p) && Shape(t)
  {
    hide Lookup, Prefix;
    StoppedLookup(t, e, p, i, j);
    DenotesFor(t, m, e);
    assert e[..|e|] == e;
  }

  class Iterator {
    const rt: Rax
    var stack: seq<Ptr>
    var key: Str
    var node: Ptr
    var data: nat
    var eof: bool
    var justSeeked: bool

    /** Where the iterator is. */
    ghost var path: seq<nat>

    constructor (rt: Rax)
      requires rt.Valid()
      ensures this.rt == rt && eof && Valid() && fresh(this)
    {
      this.rt := rt;
      stack, key, node, data, eof, justSeeked, path := [], [], 0, 0, true, false, [];
    }

    /** The iterator stands at the node at `path`. */
    ghost predicate At()
      reads this, rt
    {
      HasPath(rt.tree, path) && Sub(rt.tree, path).T? && Shape(rt.tree) &&
      node == Sub(rt.tree, path).ptr && stack == StackOf(rt.tree, path)
    }

    /** And its key is the string of that node. */
    ghost predicate Placed()
      reads this, rt
    {
      At() && key == Prefix(rt.tree, path)
    }

    /** For a step that starts with the scan of the node's own children: its key goes
        on by a byte that the node does not have, or by its run. */
    ghost predicate Beside()
      reads this, rt
    {
      At() && var n := Sub(rt.tree, path);
      if n.iscompr then key == Prefix(rt.tree, path) + n.data
      else exists c :: c !in n.data && key == Prefix(rt.tree, path) + [c]
    }

    ghost predicate Valid()
      reads this, rt
    {
      rt.Valid() && (!eof ==> Placed() && Sub(rt.tree, path).iskey && data == Sub(rt.tree, path).value)
    }

    ghost function Bound(noup: bool, p: seq<nat>): (n: nat)
      requires HasPath(rt.tree, p) && Sub(rt.tree, p).T?
      reads rt
    {
      After(rt.tree, p) + if noup then SizeAll(Sub(rt.tree, p).kids) else 0
    }

    /** Down to child j, whose edge the key goes on by. */
    method Enter(j: nat)
      requires rt.Valid() && Placed() && j < |Sub(rt.tree, path).kids|
      modifies this`stack, this`key, this`node, this`path
      ensures Placed() && path == old(path) + [j] && Rest(rt.tree, path) < Bound(true, old(path))
      ensures Sub(rt.tree, path) == Sub(rt.tree, old(path)).kids[j] && Sub(rt.tree, path).T?
    {
      ghost var p2 := path + [j];
      ChildOf(rt.mem, rt.tree, path, j, p2);
      var n := rt.mem[node];
      stack := stack + [node];
      key := key + (if n.iscompr then n.data else [n.data[j]]);
      node := n.kids[j];
      path := p2;
    }

    /** Down to the first child. */
    method GoDeeper()
      requires rt.Valid() && Placed() && Sub(rt.tree, path).kids != []
      modifies this`stack, this`key, this`node, this`path
      ensures Placed() && Rest(rt.tree, path) < Rest(rt.tree, old(path))
      ensures forall k :: k in rt.content ==> (Less(old(key), k) <==> k == key || Less(key, k))
    {
      DownAll(rt.tree, rt.content, path);
      Enter(0);
    }

    /** The key goes on from the node by its run, or by one byte. */
    ghost predicate Leaning(c: byte)
      reads this, rt
    {
      At() && key == Prefix(rt.tree, path) + (if Sub(rt.tree, path).iscompr then Sub(rt.tree, path).data else [c])
    }

    /** Back to the parent, with the key as it is. */
    method PopParent() returns (prevchild: byte, ghost was: nat)
      requires rt.Valid() && Placed() && path != []
      modifies this`stack, this`node, this`path
      ensures Leaning(prevchild) && var n := Sub(rt.tree, path);
        was < |n.kids| && old(path) == path + [was] && (!n.iscompr ==> was < |n.data| && prevchild == n.data[was])
    {
      ghost var q, i := LastStep(rt.tree, path);
      ChildOf(rt.mem, rt.tree, q, i, path);
      DropLast(Prefix(rt.tree, q), Edge(Sub(rt.tree, q), i));
      prevchild := key[|key| - 1];
      node, stack := stack[|stack| - 1], stack[..|stack| - 1];
      path, was := q, i;
    }

    /** The byte that a step beside a node starts from. */
    method BesideByte() returns (prevchild: byte)
      requires rt.Valid() && Beside()
      ensures Leaning(prevchild) && (!Sub(rt.tree, path).iscompr ==> prevchild !in Sub(rt.tree, path).data)
    {
      SubFacts(rt.mem, rt.tree, path);
      ghost var n := Sub(rt.tree, path);
      if n.iscompr {
        DropLast(Prefix(rt.tree, path), n.data);
      } else {
        ghost var c :| c !in n.data && key == Prefix(rt.tree, path) + [c];
        DropLast(Prefix(rt.tree, path), [c]);
      }
      prevchild := key[|key| - 1];
    }

    /** The edge leaves the key. */
    method StripEdge(ghost c: byte)
      requires rt.Valid() && Leaning(c)
      modifies this`key
      ensures Placed()
    {
      SubFacts(rt.mem, rt.tree, path);
      DropLast(Prefix(rt.tree, path), if Sub(rt.tree, path).iscompr then Sub(rt.tree, path).data else [c]);
      var todel := if rt.mem[node].iscompr then |rt.mem[node].data| else 1;
      key := key[..|key| - todel];
    }

    /** Index of the first edge byte greater than c. */
    method ScanNext(data: Str, c: byte) returns (i: nat)
      ensures i <= |data| && (forall x :: 0 <= x < i ==> data[x] <= c) && (i < |data| ==> c < data[i])
    {
      i := 0;
      while i < |data|
        invariant 0 <= i <= |data| && forall x :: 0 <= x < i ==> data[x] <= c
      {
        if data[i] > c { break; }
        i := i + 1;
      }
    }

    /** From past the byte c of the node to its next greater child, if it has one.
        (With at most the one child that the key came from there is nothing to scan.) */
    method NextSibling(c: byte, least: nat) returns (found: bool, ghost i: nat)
      requires rt.Valid() && Placed() && !Sub(rt.tree, path).iscompr && least <= 1
      requires |Sub(rt.tree, path).data| <= least ==> forall x :: 0 <= x < |Sub(rt.tree, path).data| ==>
        Sub(rt.tree, path).data[x] <= c
      modifies this`stack, this`key, this`node, this`path
      ensures Placed() && (found ==> path == old(path) + [i] && NextAt(old(path), c, i))
      ensures found ==> forall k :: k in rt.content ==> (Past(old(key) + [c], k) <==> k == key || Less(key, k))
      ensures !found ==> path == old(path) && key == old(key)
      ensures !found ==> forall k :: k in rt.content ==> (Past(old(key) + [c], k) <==> Past(key, k))
    {
      SubFacts(rt.mem, rt.tree, path);
      var n := rt.mem[node];
      var pos := |n.data|;
      if |n.data| > least {
        pos := ScanNext(n.data, c);
      }
      i := pos;
      SideAll(rt.tree, rt.content, path, c, pos);
      if pos == |n.data| {
        return false, i;
      }
      Enter(pos);
      return true, i;
    }

    ghost predicate NextAt(p: seq<nat>, c: byte, i: nat)
      reads rt
    {
      HasPath(rt.tree, p) && Sub(rt.tree, p).T? && i < |Sub(rt.tree, p).kids| && i < |Sub(rt.tree, p).data| &&
      c < Sub(rt.tree, p).data[i] && Sub(rt.tree, p).kids[i].T?
    }

    /** From past the edge that the key goes on by, at the node itself. */
    method Sideways(c: byte, least: nat) returns (found: bool, ghost i: nat)
      requires rt.Valid() && Leaning(c) && least <= 1
      requires !Sub(rt.tree, path).iscompr && |Sub(rt.tree, path).data| <= least ==>
        forall x :: 0 <= x < |Sub(rt.tree, path).data| ==> Sub(rt.tree, path).data[x] <= c
      modifies this`stack, this`key, this`node, this`path
      ensures Placed() && (if found then path == old(path) + [i] && NextAt(old(path), c, i) else path == old(path))
      ensures found ==> !Sub(rt.tree, old(path)).iscompr
      ensures found ==> forall k :: k in rt.content ==> (Past(old(key), k) <==> k == key || Less(key, k))
      ensures !found ==> forall k :: k in rt.content ==> (Past(old(key), k) <==> Past(key, k))
    {
      SubFacts(rt.mem, rt.tree, path);
      StripEdge(c);
      if !rt.mem[node].iscompr {
        found, i := NextSibling(c, least);
      } else {
        RunAll(rt.tree, rt.content, path);
        found, i := false, 0;
      }
    }

    /** From the node's parent to the next greater child there, if any. */
    method TryParent() returns (found: bool)
      requires rt.Valid() && Placed() && path != []
      modifies this`stack, this`key, this`node, this`path
      ensures Placed() && (found ==> Rest(rt.tree, path) < After(rt.tree, old(path)))
      ensures !found ==> After(rt.tree, path) <= After(rt.tree, old(path)) && |path| < |old(path)|
      ensures found ==> forall k :: k in rt.content ==> (Past(old(key), k) <==> k == key || Less(key, k))
      ensures !found ==> forall k :: k in rt.content ==> (Past(old(key), k) <==> Past(key, k))
    {
      hide Denotes;
      var prevchild;
      ghost var was, i, p0 := 0, 0, path;
      prevchild, was := PopParent();
      AfterKid(rt.tree, path, was, p0);
      ghost var q, n := path, Sub(rt.tree, path);
      SubFacts(rt.mem, rt.tree, q);
      found, i := Sideways(prevchild, 1);
      if found {
        SideRest(rt.tree, q, n, was, i, prevchild, p0);
      }
    }

    /** From the node itself to its next greater child, if any. */
    method TryBeside() returns (found: bool)
      requires rt.Valid() && Beside()
      modifies this`stack, this`key, this`node, this`path
      ensures Placed() && (found ==> Rest(rt.tree, path) < Bound(true, old(path))) && (!found ==> path == old(path))
      ensures found ==> forall k :: k in rt.content ==> (Past(old(key), k) <==> k == key || Less(key, k))
      ensures !found ==> forall k :: k in rt.content ==> (Past(old(key), k) <==> Past(key, k))
    {
      var prevchild := BesideByte();
      ghost var i, q := 0, path;
      SubFacts(rt.mem, rt.tree, q);
      found, i := Sideways(prevchild, 0);
      if found {
        ChildOf(rt.mem, rt.tree, q, i, path);
      }
    }

    /** Up until there is a next greater child to go to. */
    method GoUp(noup0: bool) returns (found: bool)
      requires rt.Valid() && At() && if noup0 then Beside() else Placed()
      modifies this`stack, this`key, this`node, this`path
      ensures found ==> Placed() && Rest(rt.tree, path) < Bound(noup0, old(path))
      ensures found ==> forall k :: k in rt.content ==> (Past(old(key), k) <==> k == key || Less(key, k))
      ensures !found ==> forall k :: k in rt.content ==> !Past(old(key), k)
    {
      var noup := noup0;
      found := false;
      while noup || node != rt.head
        invariant At() && (if noup then Beside() else Placed()) && (noup ==> noup0 && path == old(path))
        invariant forall k :: k in rt.content ==> (Past(old(key), k) <==> Past(key, k))
        invariant Bound(noup, path) <= Bound(noup0, old(path))
        decreases |path| + One(noup)
      {
        RootApart(rt.mem, rt.tree, path);
        if noup {
          found := TryBeside();
        } else {
          found := TryParent();
        }
        if found { return; }
        noup := false;
      }
      RootApart(rt.mem, rt.tree, path);
    }

    /** One move of a step: down to the first child, or up and over to a sibling. */
    method Move(noup: bool) returns (found: bool)
      requires rt.Valid() && At() && if noup then Beside() else Placed()
      modifies this`stack, this`key, this`node, this`path
      ensures found ==> Placed() && Rest(rt.tree, path) < Bound(true, old(path))
      ensures found ==> forall k :: k in rt.content ==> (Ahead(noup, old(key), k) <==> k == key || Less(key, k))
      ensures !found ==> NoneAhead(rt.content, noup, old(key))
    {
      SubFacts(rt.mem, rt.tree, path);
      var children := if rt.mem[node].iscompr then 1 else |rt.mem[node].data|;
      if !noup && children > 0 {
        GoDeeper();
        found := true;
      } else {
        if !noup { LeafAll(rt.tree, rt.content, path); }
        found := GoUp(noup);
      }
    }

    /** Moves until a key is found. */
    method StepOn(noup0: bool) returns (found: bool)
      requires rt.Valid() && At() && if noup0 then Beside() else Placed()
      modifies this`stack, this`key, this`node, this`path
      ensures found ==> Placed() && Sub(rt.tree, path).iskey && FirstAhead(rt.content, noup0, old(key), key)
      ensures !found ==> NoneAhead(rt.content, noup0, old(key))
    {
      var noup := noup0;
      ghost var from := key;
      while true
        invariant At() && if noup then Beside() else Placed()
        invariant forall k :: k in rt.content ==> (Ahead(noup0, from, k) <==> Ahead(noup, key, k))
        decreases Bound(true, path)
      {
        found := Move(noup);
        if !found {
          return;
        }
        noup := false;
        SubFacts(rt.mem, rt.tree, path);
        DenotesAt(rt.tree, path, rt.content);
        if rt.mem[node].iskey {
          LessIrreflexive(key);
          return;
        }
      }
    }

    /** A step to the next key: what comes after the current one, or past it when the
        step starts beside a node. Without a next key the iterator is put back. */
    method NextStep(noup: bool)
      requires rt.Valid()
      requires !eof && !justSeeked ==> At() && if noup then Beside() else Placed()
      requires !eof && justSeeked ==> Valid()
      modifies this`stack, this`key, this`node, this`data, this`eof, this`justSeeked, this`path
      ensures Valid() && (if old(eof) then eof && key == old(key) else !justSeeked)
      ensures !old(eof) && old(justSeeked) ==> !eof && key == old(key) && data == old(data)
      ensures !old(eof) && !old(justSeeked) && !eof ==> FirstAhead(rt.content, noup, old(key), key)
      ensures !old(eof) && !old(justSeeked) && eof ==> NoneAhead(rt.content, noup, old(key)) && key == old(key)
    {
      hide Denotes, Prefix, StackOf, Keyed, Less;
      if eof {
        return;
      }
      if justSeeked {
        justSeeked := false;
        return;
      }
      var origKey, origStack, origNode := key, stack, node;
      ghost var origPath := path;
      var found := StepOn(noup);
      if !found {
        eof := true;
        key, stack, node, path := origKey, origStack, origNode, origPath;
        return;
      }
      SubFacts(rt.mem, rt.tree, path);
      data := rt.mem[node].value;
    }

    /** The current element's value is the map's. */
    lemma Current()
      requires Valid() && !eof
      ensures key in rt.content && data == rt.content[key]
    {
      DenotesAt(rt.tree, path, rt.content);
    }

    /** The next element, in order; false at the end. */
    method Next() returns (more: bool)
      requires Valid()
      modifies this`stack, this`key, this`node, this`data, this`eof, this`justSeeked, this`path
      ensures Valid() && more == !eof && (more ==> key in rt.content && data == rt.content[key] && !justSeeked)
      ensures old(eof) ==> !more
      ensures !old(eof) && old(justSeeked) ==> more && key == old(key)
      ensures !old(eof) && !old(justSeeked) ==>
        if more then FirstAhead(rt.content, false, old(key), key) else NoneAhead(rt.content, false, old(key))
    {
      NextStep(false);
      if !eof { Current(); }
      return !eof;
    }

    // ----------------------------------------------------------------
    // Seeking
    // ----------------------------------------------------------------

    /** The bytes on the edge from a node on the stack to the next one. */
    method EdgeBytes(parent: Ptr, child: Ptr, ghost p: seq<nat>, ghost i: nat) returns (e: Str)
      requires rt.Valid() && HasPath(rt.tree, p) && Sub(rt.tree, p).T? && i < |Sub(rt.tree, p).kids|
      requires parent == Sub(rt.tree, p).ptr && child == Sub(rt.tree, p).kids[i].ptr
      ensures Shape(Sub(rt.tree, p)) && e == Edge(Sub(rt.tree, p), i)
    {
      SubFacts(rt.mem, rt.tree, p);
      if rt.mem[parent].iscompr {
        return rt.mem[parent].data;
      }
      var l := rt.FindParentLink(parent, child);
      KidThere(rt.mem, rt.tree, p, i);
      KidThere(rt.mem, rt.tree, p, l.index);
      SlotUnique(rt.mem, rt.tree, p, i, l.index);
      return [rt.mem[parent].data[l.index]];
    }

    /** Adds the bytes of the edge to node j on the stack. */
    method KeyOn(j: nat)
      requires rt.Valid() && HasPath(rt.tree, path) && Sub(rt.tree, path).T? && 1 <= j <= |path|
      requires stack == StackOf(rt.tree, path) + [Sub(rt.tree, path).ptr]
      requires HasPath(rt.tree, path[..j - 1]) && key == Prefix(rt.tree, path[..j - 1])
      modifies this`key
      ensures HasPath(rt.tree, path[..j]) && key == Prefix(rt.tree, path[..j])
    {
      KeyStep(rt.mem, rt.tree, path, j - 1, stack);
      var e := EdgeBytes(stack[j - 1], stack[j], path[..j - 1], path[j - 1]);
      key := key + e;
    }

    /** The key of the node that the walk has stopped at, from the nodes on the stack. */
    method RebuildKey()
      requires rt.Valid() && At() && key == []
      modifies this`stack, this`key
      ensures Placed()
    {
      ghost var st := stack;
      stack := stack + [node];
      var j := 1;
      assert path[..0] == [];
      while j < |stack|
        invariant 1 <= j <= |stack| && stack == st + [node] && |path| == |st|
        invariant HasPath(rt.tree, path[..j - 1]) && key == Prefix(rt.tree, path[..j - 1])
      {
        KeyOn(j);
        j := j + 1;
      }
      stack := stack[..|stack| - 1];
      assert path[..j - 1] == path;
    }

    /** A step whose result is the element that the next call of Next returns. */
    method StepAndHold(noup: bool)
      requires rt.Valid() && !eof && At() && if noup then Beside() else Placed()
      modifies this`stack, this`key, this`node, this`data, this`eof, this`justSeeked, this`path
      ensures Valid() && justSeeked
      ensures if eof then NoneAhead(rt.content, noup, old(key)) else FirstAhead(rt.content, noup, old(key), key)
    {
      justSeeked := false;
      NextStep(noup);
      justSeeked := true;
    }

    /** Goes on from where the walk along e has stopped to what comes after e. */
    method SeekAfterStop(e: Str, i: nat, splitpos: nat)
      requires rt.Valid() && !eof && Placed() && Stopped(rt.tree, e, path, i, splitpos)
      modifies this`stack, this`key, this`node, this`data, this`eof, this`justSeeked, this`path
      ensures Valid() && justSeeked
      ensures if eof then NoneAhead(rt.content, false, e) else FirstAhead(rt.content, false, e, key)
    {
      hide Valid, Reached;
      SubFacts(rt.mem, rt.tree, path);
      var n := rt.mem[node];
      ghost var p := path;
      if i != |e| && !n.iscompr {
        key := key + [e[i]];
        SeekAhead(rt.tree, rt.content, e, p, i, splitpos, true, key);
        StepAndHold(true);
      } else if i != |e| && n.data[splitpos] < e[i] {
        key := key + n.data;
        SeekAhead(rt.tree, rt.content, e, p, i, splitpos, true, key);
        StepAndHold(true);
      } else {
        SeekAhead(rt.tree, rt.content, e, p, i, splitpos, false, key);
        StepAndHold(false);
      }
    }

    /** A step back whose result is the element that the next call of Prev returns. */
    method StepBackAndHold(noup: bool)
      requires rt.Valid() && !eof && At() && if noup then Beside() else Placed()
      modifies this`stack, this`key, this`node, this`data, this`eof, this`justSeeked, this`path
      ensures Valid() && justSeeked
      ensures if eof then NoneBehind(rt.content, old(key)) else LastBehind(rt.content, old(key), key)
    {
      justSeeked := false;
      PrevStep(noup);
      justSeeked := true;
    }

    /** Goes back from where the walk along e has stopped to what comes before e. */
    method SeekBeforeStop(e: Str, i: nat, splitpos: nat)
      requires rt.Valid() && rt.numele > 0 && !eof && justSeeked && Placed() && Stopped(rt.tree, e, path, i, splitpos)
      modifies this`stack, this`key, this`node, this`data, this`eof, this`justSeeked, this`path
      ensures Valid() && justSeeked
      ensures var from := if EndsInside(rt.tree, e) then old(key) else e;
        if eof then NoneBehind(rt.content, from) else LastBehind(rt.content, from, key)
      ensures EndsInside(rt.tree, e) ==> old(key) in rt.content && Less(old(key), e) && e !in rt.content
    {
      hide Valid, Reached, EndsInside, Denotes, StackOf, Tidy, Keyed, KeyedBut, Less, Lookup;
      SubFacts(rt.mem, rt.tree, path);
      var n := rt.mem[node];
      ghost var p := path;
      StoppedInside(rt.tree, e, p, i, splitpos);
      if i != |e| && !n.iscompr {
        key := key + [e[i]];
        SeekBehind(rt.tree, rt.content, e, p, i, splitpos, key);
        StepBackAndHold(true);
      } else if i != |e| && n.data[splitpos] < e[i] {
        SeekAbove(rt.tree, rt.content, e, p, i, splitpos);
        SeekGreatest();
        LandOnLeaf();
      } else if i != |e| {
        key := key + n.data;
        SeekBehind(rt.tree, rt.content, e, p, i, splitpos, key);
        StepBackAndHold(true);
      } else {
        if EndsInside(rt.tree, e) {
          SeekInside(rt.tree, rt.content, e, p, splitpos);
        } else {
          SeekBehind(rt.tree, rt.content, e, p, i, splitpos, key);
        }
        StepBackAndHold(false);
      }
    }

    /** Takes the value of the leaf. */
    method LandOnLeaf()
      requires rt.Valid() && rt.numele > 0 && !eof && Placed() && Sub(rt.tree, path).kids == []
      modifies this`data
      ensures Valid() && key in rt.content
    {
      LeafIsKey(path);
      SubFacts(rt.mem, rt.tree, path);
      data := rt.mem[node].value;
      Current();
    }

    /** Seeks e itself, what comes after it or before it, or either. */
    method SeekString(op: SeekOp, e: Str)
      requires rt.Valid() && rt.numele > 0 && !op.First? && !op.Last? && !eof && justSeeked
      modifies this`stack, this`key, this`node, this`data, this`eof, this`justSeeked, this`path
      ensures Valid() && (!eof ==> justSeeked)
      ensures SoughtFound(rt.content, op, e, eof, key) <==> !PassesOver(rt.tree, rt.content, op, e)
    {
      hide Denotes;
      var eq := op.Equal? || op.GreaterEqual? || op.SmallerEqual?;
      var hit, i, splitpos := WalkTo(eq, e);
      if hit {
        Current();
        return;
      }
      hide Stopped, Denotes;
      if op.Greater? || op.GreaterEqual? {
        RebuildKey();
        SeekAfterStop(e, i, splitpos);
      } else if op.Smaller? || op.SmallerEqual? {
        RebuildKey();
        ghost var f := key;
        SeekBeforeStop(e, i, splitpos);
        if EndsInside(rt.tree, e) { PassedOver(rt.content, op, e, f, eof, key); }
      } else {
        eof := true;
      }
    }

    /** The walk along e, which hits the element if it is there and is sought. */
    method WalkTo(eq: bool, e: Str) returns (hit: bool, i: nat, splitpos: nat)
      requires rt.Valid() && !eof
      modifies this`stack, this`key, this`node, this`data, this`path
      ensures hit == (eq && e in rt.content)
      ensures if hit then Valid() && key == e else At() && key == [] && Stopped(rt.tree, e, path, i, splitpos)
    {
      var h, plink, ts;
      ghost var p;
      i, h, plink, splitpos, ts, p := rt.LowWalk(e);
      stack, node, key, path := ts, h, [], p;
      StoppedHit(rt.tree, rt.content, e, p, i, splitpos);
      hit := eq && i == |e| && (!rt.mem[h].iscompr || splitpos == 0) && rt.mem[h].iskey;
      if hit {
        key, data := e, rt.mem[h].value;
      }
    }

    // ----------------------------------------------------------------
    // Backwards
    // ----------------------------------------------------------------

    /** Down the last children to the greatest key below the node. */
    method SeekGreatest()
      requires rt.Valid() && Placed()
      modifies this`stack, this`key, this`node, this`path
      ensures Placed() && Sub(rt.tree, path).kids == []
      ensures forall k :: k in rt.content ==> (UpTo(k, old(key)) <==> k == key || Less(k, key))
    {
      SubFacts(rt.mem, rt.tree, path);
      while |rt.mem[node].data| > 0
        invariant Placed() && node in rt.mem && Fits(rt.mem[node], Sub(rt.tree, path)) && Shape(Sub(rt.tree, path))
        invariant forall k :: k in rt.content ==> (UpTo(k, old(key)) <==> UpTo(k, key))
        decreases Bound(true, path)
      {
        GoLast();
        SubFacts(rt.mem, rt.tree, path);
      }
      LastLeafAll(rt.tree, rt.content, path);
    }

    /** Down to the last child. */
    method GoLast()
      requires rt.Valid() && Placed() && Sub(rt.tree, path).kids != []
      modifies this`stack, this`key, this`node, this`path
      ensures Placed() && Rest(rt.tree, path) < Bound(true, old(path))
      ensures forall k :: k in rt.content ==> (UpTo(k, old(key)) <==> UpTo(k, key))
    {
      SubFacts(rt.mem, rt.tree, path);
      var last := |rt.mem[node].kids| - 1;
      LastAll(rt.tree, rt.content, path, path + [last]);
      Enter(last);
    }

    /** Index of the last edge byte less than c, or -1. */
    method ScanPrev(data: Str, c: byte) returns (i: int)
      ensures -1 <= i < |data| && (forall x :: i < x < |data| ==> data[x] >= c) && (i >= 0 ==> data[i] < c)
    {
      i := |data| - 1;
      while i >= 0
        invariant -1 <= i < |data| && forall x :: i < x < |data| ==> data[x] >= c
      {
        if data[i] < c { break; }
        i := i - 1;
      }
    }

    /** Index of the last child at a byte smaller than c, or -1. (With at most the one child
        that the key came from there is nothing to scan.) */
    method PrevChild(c: byte, least: nat) returns (i: int)
      requires rt.Valid() && Placed() && !Sub(rt.tree, path).iscompr && least <= 1
      requires |Sub(rt.tree, path).data| <= least ==>
        forall x :: 0 <= x < |Sub(rt.tree, path).data| ==> Sub(rt.tree, path).data[x] >= c
      ensures IsPrev(Sub(rt.tree, path), c, i)
    {
      hide Tidy, Keyed, HasPath, Edge, Prefix, StackOf, Sub, Denotes, KeyedBut, Valid, Shape;
      SubFacts(rt.mem, rt.tree, path);
      var n := rt.mem[node];
      i := -1;
      if |n.data| > least {
        i := ScanPrev(n.data, c);
      }
    }

    /** From byte c of the node to the greatest key below the next smaller child, if there
        is one; else the node itself comes next. */
    method PrevSibling(c: byte, least: nat)
      requires rt.Valid() && Placed() && !Sub(rt.tree, path).iscompr && least <= 1
      requires |Sub(rt.tree, path).data| <= least ==>
        forall x :: 0 <= x < |Sub(rt.tree, path).data| ==> Sub(rt.tree, path).data[x] >= c
      modifies this`stack, this`key, this`node, this`path
      ensures Placed() && (path == old(path) || Sub(rt.tree, path).kids == [])
      ensures forall k :: k in rt.content ==> (Less(k, old(key) + [c]) <==> k == key || Less(k, key))
    {
      var i := PrevChild(c, least);
      BackAll(rt.tree, rt.content, path, c, i);
      if i != -1 {
        Enter(i);
        SeekGreatest();
      }
    }

    /** From the edge that the key goes on by, at the node itself, to the greatest key below
        the next smaller child, or to the node. */
    method SidewaysBack(c: byte, least: nat)
      requires rt.Valid() && Leaning(c) && least <= 1
      requires !Sub(rt.tree, path).iscompr && |Sub(rt.tree, path).data| <= least ==>
        forall x :: 0 <= x < |Sub(rt.tree, path).data| ==> Sub(rt.tree, path).data[x] >= c
      modifies this`stack, this`key, this`node, this`path
      ensures Placed() && (path == old(path) || Sub(rt.tree, path).iskey)
      ensures forall k :: k in rt.content ==> (Less(k, old(key)) <==> k == key || Less(k, key))
    {
      SubFacts(rt.mem, rt.tree, path);
      StripEdge(c);
      ghost var q := path;
      if !rt.mem[node].iscompr {
        PrevSibling(c, least);
        if path != q { LeafIsKey(path); }
      } else {
        RunBackAll(rt.tree, rt.content, path);
      }
    }

    /** One round backwards: to the greatest key below the next smaller sibling or child, or
        to the parent or the node itself. */
    method StepBack(noup: bool)
      requires rt.Valid() && At() && if noup then Beside() else Placed() && path != []
      modifies this`stack, this`key, this`node, this`path
      ensures Placed() && (|path| + 1 <= |old(path)| + One(noup) || Sub(rt.tree, path).iskey)
      ensures forall k :: k in rt.content ==> (Less(k, old(key)) <==> k == key || Less(k, key))
    {
      hide Denotes, Prefix, StackOf, Keyed, Less, Tidy, KeyedBut, Shape;
      var prevchild;
      if noup {
        prevchild := BesideByte();
        SidewaysBack(prevchild, 0);
      } else {
        ghost var was;
        prevchild, was := PopParent();
        SidewaysBack(prevchild, 1);
      }
    }

    lemma LeafIsKey(p: seq<nat>)
      requires rt.Valid() && HasPath(rt.tree, p) && Sub(rt.tree, p).T? && Sub(rt.tree, p).kids == []
      requires p != [] || rt.numele > 0
      ensures Sub(rt.tree, p).iskey
    {
      KeyedAt(rt.tree, p);
      if p == [] { HeadIsKey(rt.tree, rt.content); }
    }

    /** A step to the previous key. Without one the iterator is put back. */
    method PrevStep(noup: bool)
      requires rt.Valid()
      requires !eof && !justSeeked ==> At() && if noup then Beside() else Placed()
      requires !eof && justSeeked ==> Valid()
      modifies this`stack, this`key, this`node, this`data, this`eof, this`justSeeked, this`path
      ensures Valid() && (if old(eof) then eof && key == old(key) else !justSeeked)
      ensures !old(eof) && old(justSeeked) ==> !eof && key == old(key) && data == old(data)
      ensures !old(eof) && !old(justSeeked) && !eof ==> LastBehind(rt.content, old(key), key)
      ensures !old(eof) && !old(justSeeked) && eof ==> NoneBehind(rt.content, old(key)) && key == old(key)
    {
      hide Denotes, Prefix, StackOf, Keyed, Less;
      if eof {
        return;
      }
      if justSeeked {
        justSeeked := false;
        return;
      }
      var origKey, origStack, origNode := key, stack, node;
      ghost var origPath := path;
      var found := StepsBack(noup);
      if !found {
        eof := true;
        key, stack, node, path := origKey, origStack, origNode, origPath;
        return;
      }
      SubFacts(rt.mem, rt.tree, path);
      data := rt.mem[node].value;
    }

    method StepsBack(noup0: bool) returns (found: bool)
      requires rt.Valid() && At() && if noup0 then Beside() else Placed()
      modifies this`stack, this`key, this`node, this`path
      ensures found ==> Placed() && Sub(rt.tree, path).iskey && LastBehind(rt.content, old(key), key)
      ensures !found ==> NoneBehind(rt.content, old(key))
    {
      var noup := noup0;
      RootApart(rt.mem, rt.tree, path);
      while noup || node != rt.head
        invariant At() && (if noup then Beside() else Placed()) && (node == rt.head <==> path == [])
        invariant forall k :: k in rt.content ==> (Less(k, old(key)) <==> Less(k, key))
        decreases |path| + One(noup)
      {
        StepBack(noup);
        noup := false;
        SubFacts(rt.mem, rt.tree, path);
        DenotesAt(rt.tree, path, rt.content);
        RootApart(rt.mem, rt.tree, path);
        if rt.mem[node].iskey {
          LessIrreflexive(key);
          return true;
        }
      }
      return false;
    }

    /** The previous element, in order; false at the beginning. */
    method Prev() returns (more: bool)
      requires Valid()
      modifies this`stack, this`key, this`node, this`data, this`eof, this`justSeeked, this`path
      ensures Valid() && more == !eof && (more ==> key in rt.content && data == rt.content[key] && !justSeeked)
      ensures old(eof) ==> !more
      ensures !old(eof) && old(justSeeked) ==> more && key == old(key)
      ensures !old(eof) && !old(justSeeked) ==>
        if more then LastBehind(rt.content, old(key), key) else NoneBehind(rt.content, old(key))
    {
      PrevStep(false);
      if !eof { Current(); }
      return !eof;
    }

    /** Seeks the greatest key. */
    method SeekLast()
      requires rt.Valid() && !eof && justSeeked && rt.numele > 0
      modifies this`stack, this`key, this`node, this`data, this`path
      ensures Valid() && key in rt.content && forall k :: k in rt.content ==> k == key || Less(k, key)
    {
      hide Denotes;
      GreatestOfAll();
      LeafIsKey(path);
      SubFacts(rt.mem, rt.tree, path);
      data := rt.mem[node].value;
      Current();
    }

    /** From the head down to the leaf of the greatest key. */
    method GreatestOfAll()
      requires rt.Valid()
      modifies this`stack, this`key, this`node, this`path
      ensures Placed() && Sub(rt.tree, path).kids == []
      ensures forall k :: k in rt.content ==> k == key || Less(k, key)
    {
      stack, key, node, path := [], [], rt.head, [];
      SeekGreatest();
      forall k | k in rt.content
        ensures k == key || Less(k, key)
      {
        assert UpTo(k, []);
      }
    }

    /** Places the iterator at the first of the elements sought, in its direction; the next
        call of Next or Prev returns that element. */
    method Seek(op: SeekOp, e: Str)
      requires rt.Valid()
      modifies this`stack, this`key, this`node, this`data, this`eof, this`justSeeked, this`path
      ensures Valid() && (!eof ==> justSeeked)
      ensures SoughtFound(rt.content, op, e, eof, key) <==> !PassesOver(rt.tree, rt.content, op, e)
    {
      hide Denotes, KeyedBut, Prefix;
      stack, justSeeked, eof, key, path := [], true, false, [], [];
      if rt.numele == 0 {
        eof := true;
        assert rt.content.Keys == {};
        NothingInside(rt.tree, rt.content, e);
        return;
      }
      match op
      case Last =>
        SeekLast();
      case First =>
        SeekString(GreaterEqual, []);
        FirstOfAll(rt.content, e, eof, key);
      case _ => SeekString(op, e);
    }
  }

  // ------------------------------------------------------------------
  // Whole iterations
  // ------------------------------------------------------------------

  ghost predicate Sorted(ks: seq<Str>) {
    forall i, j :: 0 <= i < j < |ks| ==> Less(ks[i], ks[j])
  }

  /** What an iteration forward has still to deliver. */
  ghost function Left(m: Map, op: SeekOp, e: Str, ks: seq<Str>): (x: set<Str>) {
    set k | k in m && Sought(op, e, k) && k !in ks
  }

  lemma LeftLess(m: Map, op: SeekOp, e: Str, ks: seq<Str>, k: Str)
    requires k in Left(m, op, e, ks)
    ensures |Left(m, op, e, ks + [k])| < |Left(m, op, e, ks)|
  {
    assert Left(m, op, e, ks + [k]) == Left(m, op, e, ks) - {k};
  }

  lemma SortedMore(ks: seq<Str>, key: Str)
    requires Sorted(ks) && forall i :: 0 <= i < |ks| ==> Less(ks[i], key)
    ensures Sorted(ks + [key])
  {
  }

  /** How far a forward iteration has come: `ks` delivered, `key` next, if `more`. */
  ghost predicate Delivered(m: Map, op: SeekOp, e: Str, ks: seq<Str>, more: bool, key: Str) {
    Sorted(ks) && (forall i :: 0 <= i < |ks| ==> ks[i] in m && Sought(op, e, ks[i]) && (more ==> Less(ks[i], key))) &&
    (more ==> key in m && Sought(op, e, key)) &&
    forall k :: k in m && Sought(op, e, k) ==> k in ks || (more && (k == key || Less(key, k)))
  }

  /** The next element delivered. */
  lemma DeliverNext(m: Map, op: SeekOp, e: Str, ks: seq<Str>, key: Str, more: bool, next: Str)
    requires !Backward(op) && !op.Equal?
    requires Delivered(m, op, e, ks, true, key)
    requires if more then FirstAhead(m, false, key, next) else NoneAhead(m, false, key)
    ensures Delivered(m, op, e, ks + [key], more, next) && key in Left(m, op, e, ks)
  {
    SortedMore(ks, key);
    LessIrreflexive(key);
    if more { SoughtUp(op, e, key, next); }
    forall i | 0 <= i < |ks| && more
      ensures Less(ks[i], next)
    {
      LessTransitive(ks[i], key, next);
    }
  }

  /** What comes after something sought is sought. */
  lemma SoughtUp(op: SeekOp, e: Str, key: Str, next: Str)
    requires !Backward(op) && !op.Equal?
    requires Sought(op, e, key) && Less(key, next)
    ensures Sought(op, e, next)
  {
    if !op.First? && key != e { LessTransitive(e, key, next); }
  }

  /** Seeking forward and calling Next until it fails delivers every key sought exactly
      once, in order. */
  method Collect(rt: Rax, op: SeekOp, e: Str) returns (ks: seq<Str>)
    requires rt.Valid() && !Backward(op) && !op.Equal?
    ensures Sorted(ks) && forall k :: k in ks <==> k in rt.content && Sought(op, e, k)
  {
    var it := new Iterator(rt);
    it.Seek(op, e);
    ks := [];
    var more := it.Next();
    while more
      invariant it.Valid() && it.rt == rt && more == !it.eof && (more ==> !it.justSeeked)
      invariant Delivered(rt.content, op, e, ks, more, it.key)
      decreases |Left(rt.content, op, e, ks)|
    {
      ghost var ks0, key := ks, it.key;
      ks := ks + [it.key];
      more := it.Next();
      DeliverNext(rt.content, op, e, ks0, key, more, it.key);
      LeftLess(rt.content, op, e, ks0, key);
    }
  }

  /** How far an iteration backwards from `start` has come; there is none without `some`. */
  ghost predicate DeliveredBack(m: Map, some: bool, start: Str, ks: seq<Str>, more: bool, key: Str) {
    Sorted(ks) && (more ==> key in m && UpFrom(some, start, key)) &&
    (forall i :: 0 <= i < |ks| ==> ks[i] in m && UpFrom(some, start, ks[i]) && (more ==> Less(key, ks[i]))) &&
    forall k :: k in m && UpFrom(some, start, k) ==> k in ks || (more && (k == key || Less(k, key)))
  }

  ghost predicate UpFrom(some: bool, start: Str, k: Str) {
    some && (k == start || Less(k, start))
  }

  /** What an iteration backwards has still to deliver. */
  ghost function LeftBack(m: Map, ks: seq<Str>): (x: set<Str>) {
    set k | k in m && k !in ks
  }

  lemma DeliverPrev(m: Map, some: bool, start: Str, ks: seq<Str>, key: Str, more: bool, next: Str)
    requires DeliveredBack(m, some, start, ks, true, key)
    requires if more then LastBehind(m, key, next) else NoneBehind(m, key)
    ensures DeliveredBack(m, some, start, [key] + ks, more, next)
    ensures |LeftBack(m, [key] + ks)| < |LeftBack(m, ks)|
  {
    LessIrreflexive(key);
    if more && key != start { LessTransitive(next, key, start); }
    forall i | 0 <= i < |ks| && more
      ensures Less(next, ks[i])
    {
      LessTransitive(next, key, ks[i]);
    }
    assert key !in ks;
    assert LeftBack(m, [key] + ks) == LeftBack(m, ks) - {key};
  }

  /** All up to the start are all that are sought if and only if the start is the right one. */
  lemma RightStart(m: Map, op: SeekOp, e: Str, eof: bool, start: Str, ks: seq<Str>)
    requires Backward(op) && (!eof ==> start in m)
    requires forall k :: k in ks <==> k in m && UpFrom(!eof, start, k)
    ensures (forall k :: k in ks <==> k in m && Sought(op, e, k)) <==> SoughtFound(m, op, e, eof, start)
  {
    forall k | k in m && !eof && Sought(op, e, start) && Less(k, start)
      ensures Sought(op, e, k)
    {
      SoughtDown(op, e, start, k);
    }
    if !eof {
      assert start in ks;
      LessIrreflexive(start);
    }
  }

  /** What comes before something sought backwards is sought. */
  lemma SoughtDown(op: SeekOp, e: Str, key: Str, k: Str)
    requires Backward(op) && Sought(op, e, key) && Less(k, key)
    ensures Sought(op, e, k)
  {
    if !op.Last? && key != e { LessTransitive(k, key, e); }
  }

  /** Seeking backward and calling Prev until it fails delivers keys once each, in reverse
      order: all that are sought, if and only if the seek passes over none. */
  method CollectBack(rt: Rax, op: SeekOp, e: Str) returns (ks: seq<Str>)
    requires rt.Valid() && Backward(op)
    ensures Sorted(ks) && forall k :: k in ks ==> k in rt.content
    ensures (forall k :: k in ks <==> k in rt.content && Sought(op, e, k)) <==>
      !PassesOver(rt.tree, rt.content, op, e)
  {
    hide Denotes, EndsInside, Less, Sought;
    var it := new Iterator(rt);
    it.Seek(op, e);
    ghost var eof, start := it.eof, it.key;
    if !eof { it.Current(); }
    ks := DrainBack(it);
    RightStart(rt.content, op, e, eof, start, ks);
  }

  method DrainBack(it: Iterator) returns (ks: seq<Str>)
    requires it.Valid() && (!it.eof ==> it.justSeeked)
    modifies it
    ensures Sorted(ks)
    ensures forall k :: k in ks <==> k in it.rt.content && UpFrom(!old(it.eof), old(it.key), k)
  {
    hide Denotes, Prefix, Keyed, HasPath, Fits, Tidy, Sub, Less, Shape, Ascending, After, Run, KeyedBut;
    ghost var m, some, start := it.rt.content, !it.eof, it.key;
    ks := [];
    var more := it.Prev();
    while more
      invariant it.Valid() && it.rt.content == m && more == !it.eof && (more ==> !it.justSeeked)
      invariant DeliveredBack(m, some, start, ks, more, it.key)
      decreases |LeftBack(m, ks)|
    {
      ghost var ks0, key := ks, it.key;
      ks := [it.key] + ks;
      more := it.Prev();
      DeliverPrev(m, some, start, ks0, key, more, it.key);
    }
  }
}
