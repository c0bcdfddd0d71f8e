/** Lexicographic order, and where the keys of a radix tree lie in it. */
module RaxOrder {
  import opened Bytes
  import opened RaxModel
  import opened RaxHeap
  import opened RaxChange
  import opened RaxWalk

  /** Byte-wise lexicographic order; a proper prefix comes first. */
  predicate Less(a: Str, b: Str) {
    b != [] && (a == [] || a[0] < b[0] || (a[0] == b[0] && Less(a[1..], b[1..])))
  }

  /** `b` comes after `a` and everything that begins with `a`. */
  ghost predicate Past(a: Str, b: Str) {
    Less(a, b) && !(a <= b)
  }

  lemma {:induction false} LessIrreflexive(a: Str)
    ensures !Less(a, a)
  {
    if a != [] { LessIrreflexive(a[1..]); }
  }

  lemma {:induction false} LessTransitive(a: Str, b: Str, c: Str)
    requires Less(a, b) && Less(b, c)
    ensures Less(a, c)
  {
    if a != [] && a[0] == b[0] == c[0] { LessTransitive(a[1..], b[1..], c[1..]); }
  }

  lemma {:induction false} LessTotal(a: Str, b: Str)
    ensures Less(a, b) || a == b || Less(b, a)
  {
    if a != [] && b != [] && a[0] == b[0] {
      LessTotal(a[1..], b[1..]);
      if a[1..] == b[1..] { assert a == [a[0]] + a[1..] && b == [b[0]] + b[1..]; }
    }
  }

  /** A common beginning does not matter. */
  lemma {:induction false} LessBehind(k: Str, a: Str, b: Str)
    ensures Less(k + a, k + b) <==> Less(a, b)
  {
    if k == [] {
      assert k + a == a && k + b == b;
    } else {
      LessBehind(k[1..], a, b);
      assert (k + a)[1..] == k[1..] + a && (k + b)[1..] == k[1..] + b;
    }
  }

  lemma ConsPrefix(a: Str, b: Str)
    requires a != [] && b != []
    ensures a <= b <==> a[0] == b[0] && a[1..] <= b[1..]
  {
    assert a == [a[0]] + a[1..] && b == [b[0]] + b[1..];
    PrefixSplit([a[0]], a[1..], b);
  }

  /** A string that does not begin with k is before or past all that do. */
  lemma {:induction false} LessOutside(k: Str, x: Str, b: Str)
    requires !(k <= b)
    ensures Less(k + x, b) <==> Less(k, b)
    ensures Less(b, k + x) <==> Less(b, k)
  {
    if b != [] {
      assert (k + x)[1..] == k[1..] + x;
      if k[0] == b[0] {
        ConsPrefix(k, b);
        LessOutside(k[1..], x, b[1..]);
      }
    }
  }

  lemma LessPrefix(a: Str, b: Str)
    requires a <= b
    ensures a == b || Less(a, b)
    ensures !Less(b, a)
  {
    assert b == a + b[|a|..] && a == a + [];
    LessBehind(a, [], b[|a|..]);
    LessBehind(a, b[|a|..], []);
  }

  // ------------------------------------------------------------------
  // Keys below a node
  // ------------------------------------------------------------------

  ghost predicate IsKey(t: Tree, k: Str) {
    Lookup(t, k).Some?
  }

  /** A key other than that of the node itself begins with one of its edges. */
  lemma KeyBelow(n: Tree, r: Str) returns (j: nat)
    requires n.T? && Shape(n) && IsKey(n, r) && r != []
    ensures j < |n.kids| && Edge(n, j) <= r && IsKey(n.kids[j], r[|Edge(n, j)|..])
  {
    if n.iscompr {
      j := 0;
    } else {
      j := Find(n.data, r[0]);
      assert r[..1] == [r[0]];
    }
  }

  /** The first child's edge is the least that may follow. */
  lemma FirstBelow(n: Tree, r: Str)
    requires n.T? && Shape(n) && IsKey(n, r) && n.kids != []
    ensures r != [] <==> r == Edge(n, 0) || Less(Edge(n, 0), r)
  {
    if r != [] {
      var j := KeyBelow(n, r);
      LessPrefix(Edge(n, j), r);
      if j > 0 { assert n.data[0] < n.data[j] == r[0]; }
    }
  }

  /** Index i is that of the first edge byte greater than c. */
  ghost predicate IsNext(n: Tree, c: byte, i: nat)
    requires n.T?
  {
    !n.iscompr && i <= |n.data| && (forall x :: 0 <= x < i ==> n.data[x] <= c) && (i < |n.data| ==> c < n.data[i])
  }

  /** What lies past edge byte c: the child at the next greater byte, and what follows. */
  lemma NextBelow(n: Tree, c: byte, i: nat, r: Str)
    requires n.T? && Shape(n) && IsKey(n, r) && IsNext(n, c, i)
    ensures Past([c], r) <==> i < |n.data| && (r == [n.data[i]] || Less([n.data[i]], r))
  {
    if r != [] {
      var j := KeyBelow(n, r);
      assert r[0] == n.data[j];
      assert Past([c], r) <==> c < r[0] by {
        if r[0] == c { assert r[..1] == [c]; }
      }
      if c < r[0] {
        assert j >= i;
        LessPrefix([n.data[j]], r);
      }
    }
  }

  /** Nothing lies past the only edge of a compressed node. */
  lemma RunBelow(n: Tree, r: Str)
    requires n.T? && Shape(n) && IsKey(n, r) && n.iscompr
    ensures !Past(n.data, r)
  {
    if r != [] { var j := KeyBelow(n, r); }
  }

  // ------------------------------------------------------------------
  // The same from the root
  // ------------------------------------------------------------------

  ghost predicate KeyAt(t: Tree, p: seq<nat>, k: Str)
    requires HasPath(t, p) && Shape(t)
  {
    Prefix(t, p) <= k && IsKey(Sub(t, p), k[|Prefix(t, p)|..])
  }

  lemma KeyHere(t: Tree, p: seq<nat>, k: Str)
    requires HasPath(t, p) && Shape(t) && IsKey(t, k) && Prefix(t, p) <= k
    ensures KeyAt(t, p, k) && k == Prefix(t, p) + k[|Prefix(t, p)|..]
  {
    LookupSub(t, p, k);
  }

  /** Order against something below p, for keys: settled below p, or by the prefix alone. */
  lemma LessAt(t: Tree, p: seq<nat>, x: Str, k: Str)
    requires HasPath(t, p) && Shape(t)
    ensures Prefix(t, p) <= k ==>
      (Less(Prefix(t, p) + x, k) <==> Less(x, k[|Prefix(t, p)|..])) &&
        (Less(k, Prefix(t, p) + x) <==> Less(k[|Prefix(t, p)|..], x)) &&
      (Past(Prefix(t, p) + x, k) <==> Past(x, k[|Prefix(t, p)|..])) &&
        (k == Prefix(t, p) + x <==> k[|Prefix(t, p)|..] == x)
    ensures !(Prefix(t, p) <= k) ==>
      (Less(Prefix(t, p) + x, k) <==> Less(Prefix(t, p), k)) &&
        (Less(k, Prefix(t, p) + x) <==> Less(k, Prefix(t, p))) &&
      (Past(Prefix(t, p) + x, k) <==> Less(Prefix(t, p), k)) && k != Prefix(t, p) + x
  {
    var f := Prefix(t, p);
    PrefixSplit(f, x, k);
    if f <= k {
      assert k == f + k[|f|..];
      LessBehind(f, x, k[|f|..]);
      LessBehind(f, k[|f|..], x);
    } else {
      LessOutside(f, x, k);
    }
  }

  /** Going down to the first child skips no key. */
  lemma DownStep(t: Tree, p: seq<nat>, k: Str)
    requires HasPath(t, p) && Shape(t) && Sub(t, p).T? && Sub(t, p).kids != [] && IsKey(t, k)
    ensures HasPath(t, p + [0])
    ensures Less(Prefix(t, p), k) <==> k == Prefix(t, p + [0]) || Less(Prefix(t, p + [0]), k)
  {
    PrefixStep(t, p, 0);
    SubShape(t, p);
    var e := Edge(Sub(t, p), 0);
    LessAt(t, p, e, k);
    LessAt(t, p, [], k);
    assert Prefix(t, p) + [] == Prefix(t, p);
    if Prefix(t, p) <= k {
      KeyHere(t, p, k);
      FirstBelow(Sub(t, p), k[|Prefix(t, p)|..]);
    }
  }

  /** Below a leaf there is nothing. */
  lemma LeafStep(t: Tree, p: seq<nat>, k: Str)
    requires HasPath(t, p) && Shape(t) && Sub(t, p).T? && Sub(t, p).kids == [] && IsKey(t, k)
    ensures Less(Prefix(t, p), k) <==> Past(Prefix(t, p), k)
  {
    if Prefix(t, p) <= k {
      KeyHere(t, p, k);
      SubShape(t, p);
      if k[|Prefix(t, p)|..] != [] { var j := KeyBelow(Sub(t, p), k[|Prefix(t, p)|..]); }
      LessAt(t, p, [], k);
      assert Prefix(t, p) + [] == Prefix(t, p);
    }
  }

  /** From past edge byte c of a node to the next greater child. */
  lemma SideStep(t: Tree, p: seq<nat>, c: byte, i: nat, k: Str)
    requires HasPath(t, p) && Shape(t) && Sub(t, p).T? && IsNext(Sub(t, p), c, i) && IsKey(t, k)
    ensures i < |Sub(t, p).data| ==> i < |Sub(t, p).kids| && HasPath(t, p + [i])
    ensures i < |Sub(t, p).data| ==> (Past(Prefix(t, p) + [c], k) <==>
      k == Prefix(t, p + [i]) || Less(Prefix(t, p + [i]), k))
    ensures i == |Sub(t, p).data| ==> (Past(Prefix(t, p) + [c], k) <==> Past(Prefix(t, p), k))
  {
    var n := Sub(t, p);
    SubShape(t, p);
    LessAt(t, p, [c], k);
    LessAt(t, p, [], k);
    assert Prefix(t, p) + [] == Prefix(t, p);
    if i < |n.data| {
      PrefixStep(t, p, i);
      LessAt(t, p, [n.data[i]], k);
    }
    if Prefix(t, p) <= k {
      KeyHere(t, p, k);
      NextBelow(n, c, i, k[|Prefix(t, p)|..]);
    }
  }

  /** From past the edge of a compressed node to past that node. */
  lemma RunStep(t: Tree, p: seq<nat>, k: Str)
    requires HasPath(t, p) && Shape(t) && Sub(t, p).T? && Sub(t, p).iscompr && IsKey(t, k)
    ensures Past(Prefix(t, p) + Sub(t, p).data, k) <==> Past(Prefix(t, p), k)
  {
    SubShape(t, p);
    LessAt(t, p, Sub(t, p).data, k);
    LessAt(t, p, [], k);
    assert Prefix(t, p) + [] == Prefix(t, p);
    if Prefix(t, p) <= k {
      KeyHere(t, p, k);
      RunBelow(Sub(t, p), k[|Prefix(t, p)|..]);
    }
  }

  // ------------------------------------------------------------------
  // Backwards
  // ------------------------------------------------------------------

  /** Index i is that of the last edge byte less than c, or -1. */
  ghost predicate IsPrev(n: Tree, c: byte, i: int)
    requires n.T?
  {
    !n.iscompr && -1 <= i < |n.data| && (forall x :: i < x < |n.data| ==> n.data[x] >= c) && (i >= 0 ==> n.data[i] < c)
  }

  /** Below edge byte c there is the child at the next smaller byte with all that begins
      with it, or else the node itself. */
  lemma PrevBelow(n: Tree, c: byte, i: int, r: Str)
    requires n.T? && Shape(n) && IsKey(n, r) && IsPrev(n, c, i)
    ensures i >= 0 ==> (Less(r, [c]) <==> [n.data[i]] <= r || Less(r, [n.data[i]]))
    ensures i < 0 ==> (Less(r, [c]) <==> r == [])
  {
    if r != [] {
      var j := KeyBelow(n, r);
      assert r[0] == n.data[j];
      assert [r[0]] <= r by { assert r[..1] == [r[0]]; }
      assert Less(r, [c]) <==> r[0] < c;
      if i >= 0 {
        assert [n.data[i]] <= r <==> n.data[i] == r[0];
        assert Less(r, [n.data[i]]) <==> r[0] < n.data[i];
        assert j > i ==> n.data[j] >= c;
        assert j <= i ==> n.data[j] <= n.data[i];
      }
    }
  }

  /** Below the edge of a compressed node there is only the node itself. */
  lemma RunPrev(n: Tree, r: Str)
    requires n.T? && Shape(n) && IsKey(n, r) && n.iscompr
    ensures Less(r, n.data) <==> r == []
  {
    if r != [] {
      var j := KeyBelow(n, r);
      LessPrefix(n.data, r);
    }
  }

  /** `k` begins with `a` or comes before it. */
  ghost predicate UpTo(k: Str, a: Str) {
    a <= k || Less(k, a)
  }

  lemma BackStep(t: Tree, p: seq<nat>, c: byte, i: int, k: Str)
    requires HasPath(t, p) && Shape(t) && Sub(t, p).T? && IsPrev(Sub(t, p), c, i) && IsKey(t, k)
    ensures i >= 0 ==> i < |Sub(t, p).kids| && HasPath(t, p + [i])
    ensures i >= 0 ==> (Less(k, Prefix(t, p) + [c]) <==> UpTo(k, Prefix(t, p + [i])))
    ensures i < 0 ==> (Less(k, Prefix(t, p) + [c]) <==> k == Prefix(t, p) || Less(k, Prefix(t, p)))
  {
    var n := Sub(t, p);
    SubShape(t, p);
    LessAt(t, p, [c], k);
    LessAt(t, p, [], k);
    assert Prefix(t, p) + [] == Prefix(t, p);
    if i >= 0 {
      PrefixStep(t, p, i);
      LessAt(t, p, [n.data[i]], k);
      PrefixSplit(Prefix(t, p), [n.data[i]], k);
    }
    if Prefix(t, p) <= k {
      KeyHere(t, p, k);
      PrevBelow(n, c, i, k[|Prefix(t, p)|..]);
    }
  }

  lemma RunBack(t: Tree, p: seq<nat>, k: Str)
    requires HasPath(t, p) && Shape(t) && Sub(t, p).T? && Sub(t, p).iscompr && IsKey(t, k)
    ensures Less(k, Prefix(t, p) + Sub(t, p).data) <==> k == Prefix(t, p) || Less(k, Prefix(t, p))
  {
    SubShape(t, p);
    LessAt(t, p, Sub(t, p).data, k);
    LessAt(t, p, [], k);
    assert Prefix(t, p) + [] == Prefix(t, p);
    if Prefix(t, p) <= k {
      KeyHere(t, p, k);
      RunPrev(Sub(t, p), k[|Prefix(t, p)|..]);
    }
  }

  /** The last edge is the greatest that keys begin with. */
  lemma LastBelow(n: Tree, r: Str)
    requires n.T? && Shape(n) && IsKey(n, r) && n.kids != []
    ensures UpTo(r, Edge(n, |n.kids| - 1))
  {
    var e := Edge(n, |n.kids| - 1);
    if r != [] {
      var j := KeyBelow(n, r);
      if !n.iscompr && j < |n.kids| - 1 {
        assert r[0] == n.data[j] < n.data[|n.kids| - 1];
      }
    }
  }

  /** Going down to the last child leaves no key behind it. */
  lemma LastDown(t: Tree, p: seq<nat>, k: Str)
    requires HasPath(t, p) && Shape(t) && Sub(t, p).T? && Sub(t, p).kids != [] && IsKey(t, k)
    ensures HasPath(t, p + [|Sub(t, p).kids| - 1])
    ensures UpTo(k, Prefix(t, p)) <==> UpTo(k, Prefix(t, p + [|Sub(t, p).kids| - 1]))
  {
    var n := Sub(t, p);
    var i := |n.kids| - 1;
    PrefixStep(t, p, i);
    SubShape(t, p);
    var e := Edge(n, i);
    LessAt(t, p, e, k);
    LessAt(t, p, [], k);
    assert Prefix(t, p) + [] == Prefix(t, p);
    PrefixSplit(Prefix(t, p), e, k);
    if Prefix(t, p) <= k {
      KeyHere(t, p, k);
      LastBelow(n, k[|Prefix(t, p)|..]);
    }
  }

  /** Nothing begins with the string of a leaf but that string. */
  lemma LastLeaf(t: Tree, p: seq<nat>, k: Str)
    requires HasPath(t, p) && Shape(t) && Sub(t, p).T? && Sub(t, p).kids == [] && IsKey(t, k)
    ensures UpTo(k, Prefix(t, p)) <==> k == Prefix(t, p) || Less(k, Prefix(t, p))
  {
    if Prefix(t, p) <= k {
      KeyHere(t, p, k);
      SubShape(t, p);
      if k[|Prefix(t, p)|..] != [] { var j := KeyBelow(Sub(t, p), k[|Prefix(t, p)|..]); }
    }
  }

  // ------------------------------------------------------------------
  // Where a seek starts
  // ------------------------------------------------------------------

  /** A string that leaves the tree at a node by a byte that node does not have. */
  lemma SeekByte(t: Tree, p: seq<nat>, c: byte, e: Str, k: Str)
    requires HasPath(t, p) && Shape(t) && Sub(t, p).T? && !Sub(t, p).iscompr && c !in Sub(t, p).data && IsKey(t, k)
    ensures Less(Prefix(t, p) + ([c] + e), k) <==> Past(Prefix(t, p) + [c], k)
  {
    SubShape(t, p);
    LessAt(t, p, [c] + e, k);
    LessAt(t, p, [c], k);
    if Prefix(t, p) <= k {
      KeyHere(t, p, k);
      var r := k[|Prefix(t, p)|..];
      if r != [] {
        var j := KeyBelow(Sub(t, p), r);
        assert r[0] == Sub(t, p).data[j] != c;
      }
    }
  }

  /** A string that ends or differs inside a compressed node at a smaller byte: what
      lies below that node comes after it. */
  lemma SeekBefore(t: Tree, p: seq<nat>, x: Str, k: Str)
    requires HasPath(t, p) && Shape(t) && Sub(t, p).T? && Sub(t, p).iscompr && IsKey(t, k)
    requires Less(x, Sub(t, p).data)
    ensures Less(Prefix(t, p) + x, k) <==> Less(Prefix(t, p), k)
  {
    SubShape(t, p);
    LessAt(t, p, x, k);
    LessAt(t, p, [], k);
    assert Prefix(t, p) + [] == Prefix(t, p);
    if Prefix(t, p) <= k {
      KeyHere(t, p, k);
      var r := k[|Prefix(t, p)|..];
      if r != [] {
        var j := KeyBelow(Sub(t, p), r);
        LessPrefix(Sub(t, p).data, r);
        if Sub(t, p).data != r { LessTransitive(x, Sub(t, p).data, r); }
      }
    }
  }

  /** A string that differs inside a compressed node at a greater byte: what lies below
      that node comes before it. */
  lemma SeekAfter(t: Tree, p: seq<nat>, x: Str, k: Str)
    requires HasPath(t, p) && Shape(t) && Sub(t, p).T? && Sub(t, p).iscompr && IsKey(t, k)
    requires Past(Sub(t, p).data, x)
    ensures Less(Prefix(t, p) + x, k) <==> Past(Prefix(t, p) + Sub(t, p).data, k)
  {
    SubShape(t, p);
    var d := Sub(t, p).data;
    LessAt(t, p, x, k);
    LessAt(t, p, d, k);
    if Prefix(t, p) <= k {
      KeyHere(t, p, k);
      var r := k[|Prefix(t, p)|..];
      if r != [] {
        var j := KeyBelow(Sub(t, p), r);
        PastBehind(d, r, x);
      } else {
        LessIrreflexive([]);
      }
    }
  }

  // ------------------------------------------------------------------
  // Where a seek backwards starts
  // ------------------------------------------------------------------

  /** A string that leaves the tree at a node by a byte that node does not have. */
  lemma SeekByteBack(t: Tree, p: seq<nat>, c: byte, e: Str, k: Str)
    requires HasPath(t, p) && Shape(t) && Sub(t, p).T? && !Sub(t, p).iscompr && c !in Sub(t, p).data && IsKey(t, k)
    ensures Less(k, Prefix(t, p) + ([c] + e)) <==> Less(k, Prefix(t, p) + [c])
  {
    SubShape(t, p);
    LessAt(t, p, [c] + e, k);
    LessAt(t, p, [c], k);
    if Prefix(t, p) <= k {
      KeyHere(t, p, k);
      var r := k[|Prefix(t, p)|..];
      if r != [] {
        var j := KeyBelow(Sub(t, p), r);
        assert r[0] == Sub(t, p).data[j] != c;
      }
    }
  }

  /** A string that ends or differs inside a compressed node at a smaller byte: before it
      come the node's own string and what comes before that. */
  lemma SeekBeforeBack(t: Tree, p: seq<nat>, x: Str, k: Str)
    requires HasPath(t, p) && Shape(t) && Sub(t, p).T? && Sub(t, p).iscompr && IsKey(t, k)
    requires x != [] && Less(x, Sub(t, p).data)
    ensures Less(k, Prefix(t, p) + x) <==> k == Prefix(t, p) || Less(k, Prefix(t, p))
  {
    SubShape(t, p);
    LessAt(t, p, x, k);
    LessAt(t, p, [], k);
    assert Prefix(t, p) + [] == Prefix(t, p);
    if Prefix(t, p) <= k {
      KeyHere(t, p, k);
      var r := k[|Prefix(t, p)|..];
      if r != [] {
        var j := KeyBelow(Sub(t, p), r);
        BehindRun(x, Sub(t, p).data, r);
      }
    }
  }

  /** What begins with d does not come before what comes before d. */
  lemma BehindRun(x: Str, d: Str, r: Str)
    requires Less(x, d) && d <= r
    ensures !Less(r, x)
  {
    LessPrefix(d, r);
    if Less(r, x) {
      LessTransitive(r, x, d);
    }
  }

  /** A string that differs inside a compressed node at a greater byte: before it come all
      that begin with the node's string, and what comes before that. */
  lemma SeekAfterBack(t: Tree, p: seq<nat>, x: Str, k: Str)
    requires HasPath(t, p) && Shape(t) && Sub(t, p).T? && Sub(t, p).iscompr && IsKey(t, k)
    requires Past(Sub(t, p).data, x)
    ensures Less(k, Prefix(t, p) + x) <==> UpTo(k, Prefix(t, p))
  {
    SubShape(t, p);
    LessAt(t, p, x, k);
    if Prefix(t, p) <= k {
      KeyHere(t, p, k);
      var r := k[|Prefix(t, p)|..];
      if r != [] {
        var j := KeyBelow(Sub(t, p), r);
        PastBehind(Sub(t, p).data, r, x);
        LessTotal(r, x);
      }
    }
  }

  /** What begins with d comes before what is past d. */
  lemma PastBehind(d: Str, r: Str, x: Str)
    requires d <= r && Past(d, x)
    ensures !Less(x, r) && !Past(d, r)
  {
    assert r == d + r[|d|..];
    LessOutside(d, r[|d|..], x);
    if Less(x, d) {
      LessTransitive(d, x, d);
      LessIrreflexive(d);
    }
  }

  /** The first byte that differs decides. */
  lemma {:induction false} DiffersAt(a: Str, b: Str, i: nat)
    requires i < |a| && i < |b| && a[..i] == b[..i] && a[i] < b[i]
    ensures Less(a, b) && Past(a, b) && !(b <= a)
    decreases i
  {
    if i > 0 {
      assert a[..i][0] == b[..i][0];
      assert a[1..][..i - 1] == a[..i][1..] && b[1..][..i - 1] == b[..i][1..];
      DiffersAt(a[1..], b[1..], i - 1);
      ConsPrefix(a, b);
      ConsPrefix(b, a);
    }
  }

  // ------------------------------------------------------------------
  // Strings that end inside a compressed node
  // ------------------------------------------------------------------

  /** The string e goes into the run of a compressed node that is a key, and ends there. */
  ghost predicate EndsInside(t: Tree, e: Str) {
    if t.Gone? || e == [] then false
    else if t.iscompr then
      if |t.kids| == 1 && t.data <= e then EndsInside(t.kids[0], e[|t.data|..]) else t.iskey && e <= t.data
    else var j := Find(t.data, e[0]); j < |t.kids| && EndsInside(t.kids[j], e[1..])
  }

  /** That key is a proper prefix of e. */
  lemma {:induction false} InsideKey(t: Tree, e: Str) returns (f: Str)
    requires Shape(t) && EndsInside(t, e)
    ensures f <= e && f != e && IsKey(t, f)
  {
    if t.iscompr && !(t.data <= e) {
      f := [];
    } else {
      var j := if t.iscompr then 0 else Find(t.data, e[0]);
      var d := Edge(t, j);
      assert d <= e;
      f := InsideKey(t.kids[j], e[|d|..]);
      PrefixSplit(d, f, e);
      f := d + f;
      LookupKid(t, j, f);
    }
  }

  lemma InsideKid(t: Tree, j: nat, e: Str)
    requires t.T? && Shape(t) && j < |t.kids| && Edge(t, j) <= e
    ensures EndsInside(t, e) == EndsInside(t.kids[j], e[|Edge(t, j)|..])
  {
    if !t.iscompr { FindAt(t.data, j); }
  }

  lemma {:induction false} InsideSub(t: Tree, p: seq<nat>, e: Str)
    requires HasPath(t, p) && Shape(t) && Prefix(t, p) <= e
    ensures EndsInside(t, e) == EndsInside(Sub(t, p), e[|Prefix(t, p)|..])
    decreases p
  {
    if p != [] {
      PrefixSplit(Edge(t, p[0]), Prefix(t.kids[p[0]], p[1..]), e);
      InsideKid(t, p[0], e);
      InsideSub(t.kids[p[0]], p[1..], e[|Edge(t, p[0])|..]);
    }
  }

  /** Where the walk has stopped tells whether the string ends inside a node. */
  lemma StoppedInside(t: Tree, e: Str, p: seq<nat>, i: nat, j: nat)
    requires Stopped(t, e, p, i, j)
    ensures EndsInside(t, e) <==> i == |e| && j > 0 && Sub(t, p).iskey
  {
    var n := Sub(t, p);
    PrefixLen(Prefix(t, p), e, i - j);
    InsideSub(t, p, e);
    SubShape(t, p);
    var rest := e[i - j..];
    if n.iscompr {
      RunMisses(n.data, e, i - j, j);
      StopsInRun(n.data, rest, j);
    } else if rest != [] {
      assert rest[0] == e[i];
    }
  }

  /** Of a string that follows a run for j bytes and no further, all lies in the run if and
      only if it has no more bytes. */
  lemma StopsInRun(data: Str, rest: Str, j: nat)
    requires j < |data| && j <= |rest| && rest[..j] == data[..j] && (j < |rest| ==> rest[j] != data[j])
    ensures rest <= data <==> j == |rest|
  {
  }
}
