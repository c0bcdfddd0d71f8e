/**
 Consistent hashing: every node stands at a number of places on a ring, and a key belongs
 to the node at the next place behind its own hash.
 */
module HashRing {
  import opened Bytes

  type Name = seq<byte>

  datatype Item = Item(number: nat, node: Name)

  // ------------------------------------------------------------------
  // The next place on the ring
  // ------------------------------------------------------------------

  /** By number; several places may have the same one. */
  ghost predicate Ordered(s: seq<Item>) {
    forall i, j :: 0 <= i < j < |s| ==> s[i].number <= s[j].number
  }

  ghost predicate Ascending(s: seq<Item>) {
    forall i, j :: 0 <= i < j < |s| ==> s[i].number < s[j].number
  }

  ghost function Places(s: seq<Item>): (t: set<Item>) {
    set x | x in s
  }

  /** The cyclic strict successor: the least place behind k, or the least of all. */
  ghost predicate IsNext(t: set<Item>, k: nat, x: Item) {
    x in t &&
    if k < x.number then forall y :: y in t && k < y.number ==> x.number <= y.number
    else forall y :: y in t ==> y.number <= k && x.number <= y.number
  }

  ghost predicate DistinctNumbers(t: set<Item>) {
    forall x, y :: x in t && y in t && x.number == y.number ==> x == y
  }

  lemma NextUnique(t: set<Item>, k: nat, x: Item, y: Item)
    requires DistinctNumbers(t) && IsNext(t, k, x) && IsNext(t, k, y)
    ensures x == y
  {
  }

  /** Places that are added take keys for themselves only. */
  lemma AddingRemaps(s: set<Item>, t: set<Item>, k: nat, x: Item)
    requires IsNext(s + t, k, x)
    ensures x in t || IsNext(s, k, x)
  {
  }

  /** When places are removed, the keys of the others stay where they are. */
  lemma RemovingRemaps(s: set<Item>, t: set<Item>, k: nat, x: Item)
    requires IsNext(s, k, x) && x !in t
    ensures IsNext(s - t, k, x)
  {
  }

  // ------------------------------------------------------------------
  // What is hashed for a place
  // ------------------------------------------------------------------

  /** The bytes of a name and a replica's number that are hashed: the length is passed on in
      one byte. */
  function Hashed(name: Name, text: seq<byte>): (data: seq<byte>) {
    (name + text)[..|name + text| % 0x100]
  }

  /** The same bytes are hashed for two numbers if and only if these have equally many digits
      and do not fit into 255 bytes with the name. */
  lemma HashedAlike(name: Name, s: seq<byte>, t: seq<byte>)
    requires s != t && |s| < 0x100 && |t| < 0x100
    ensures Hashed(name, s) == Hashed(name, t) <==> |s| == |t| && |name| + |s| >= 0x100
  {
    if |s| == |t| {
      var k := |name| + |s|;
      if k >= 0x100 {
        Wraps(k, |name|);
        CutBefore(name, s, k % 0x100);
        CutBefore(name, t, k % 0x100);
      } else {
        assert (name + s)[|name|..] == s && (name + t)[|name|..] == t;
      }
    } else {
      OtherLength(|name|, |s|, |t|);
    }
  }

  lemma Wraps(k: nat, n: nat)
    requires 0x100 <= k < n + 0x100
    ensures k % 0x100 < n
  {
  }

  lemma CutBefore(name: Name, s: seq<byte>, n: nat)
    requires n <= |name|
    ensures (name + s)[..n] == name[..n]
  {
  }

  lemma OtherLength(n: nat, a: nat, b: nat)
    requires a < 0x100 && b < 0x100 && a != b
    ensures (n + a) % 0x100 != (n + b) % 0x100
  {
  }

  /** With 254 bytes of name the first two replicas are told apart, with 255 they are not. */
  lemma LongestName(name: Name)
    requires |name| == 254 || |name| == 255
    ensures Hashed(name, [48]) == Hashed(name, [49]) <==> |name| == 255
  {
    HashedAlike(name, [48], [49]);
  }

  // ------------------------------------------------------------------
  // Sorting
  // ------------------------------------------------------------------

  /** `item_sort`: by number, and null behind everything. */
  predicate NotAfter(a: Option<Item>, b: Option<Item>) {
    b.None? || (a.Some? && a.value.number <= b.value.number)
  }

  ghost predicate Sorted(s: seq<Option<Item>>) {
    forall i, j :: 0 <= i < j < |s| ==> NotAfter(s[i], s[j])
  }

  /** What `qsort` promises: the same elements, in order. */
  method Sort(s: seq<Option<Item>>) returns (r: seq<Option<Item>>)
    ensures multiset(r) == multiset(s) && Sorted(r)
  {
    r := [];
    var i := 0;
    while i < |s|
      invariant i <= |s| && multiset(r) == multiset(s[..i]) && Sorted(r)
    {
      r := Insert(r, s[i]);
      assert s[..i + 1] == s[..i] + [s[i]];
      i := i + 1;
    }
    assert s[..i] == s;
  }

  method Insert(s: seq<Option<Item>>, x: Option<Item>) returns (r: seq<Option<Item>>)
    requires Sorted(s)
    ensures multiset(r) == multiset(s) + multiset{x} && Sorted(r)
  {
    var i: nat := |s|;
    while i > 0 && !NotAfter(s[i - 1], x)
      invariant i <= |s| && forall j :: i <= j < |s| ==> NotAfter(x, s[j])
    {
      i := i - 1;
    }
    r := s[..i] + [x] + s[i..];
    PutSorted(s, x, i);
  }

  lemma PutSorted(s: seq<Option<Item>>, x: Option<Item>, i: nat)
    requires Sorted(s) && i <= |s| && (i > 0 ==> NotAfter(s[i - 1], x))
    requires forall j :: i <= j < |s| ==> NotAfter(x, s[j])
    ensures multiset(s[..i] + [x] + s[i..]) == multiset(s) + multiset{x} && Sorted(s[..i] + [x] + s[i..])
  {
    PutSame(s, x, i);
    forall j | 0 <= j < i
      ensures NotAfter(s[j], x)
    {
      BeforeToo(s, j, i - 1, x);
    }
    hide NotAfter;
    PutBetween(s[..i], x, s[i..]);
  }

  lemma PutSame(s: seq<Option<Item>>, x: Option<Item>, i: nat)
    requires i <= |s|
    ensures multiset(s[..i] + [x] + s[i..]) == multiset(s) + multiset{x}
  {
    assert s == s[..i] + s[i..];
  }

  lemma BeforeToo(s: seq<Option<Item>>, j: nat, i: nat, x: Option<Item>)
    requires Sorted(s) && j <= i < |s| && NotAfter(s[i], x)
    ensures NotAfter(s[j], x)
  {
    if j < i { assert NotAfter(s[j], s[i]); }
  }

  lemma PutBetween(a: seq<Option<Item>>, x: Option<Item>, b: seq<Option<Item>>)
    requires Sorted(a + b) && (forall j :: 0 <= j < |a| ==> NotAfter(a[j], x))
    requires forall j :: 0 <= j < |b| ==> NotAfter(x, b[j])
    ensures Sorted(a + [x] + b)
  {
    hide NotAfter;
    var r, s := a + [x] + b, a + b;
    forall j, k | 0 <= j < k < |r|
      ensures NotAfter(r[j], r[k])
    {
      if j != |a| && k != |a| {
        assert NotAfter(s[if j < |a| then j else j - 1], s[if k < |a| then k else k - 1]);
      }
    }
  }

  // ------------------------------------------------------------------
  // The items of a sorted sequence
  // ------------------------------------------------------------------

  function Values(s: seq<Option<Item>>): (t: seq<Item>)
    requires forall i :: 0 <= i < |s| ==> s[i].Some?
    ensures |t| == |s|
  {
    seq(|s|, i requires 0 <= i < |s| => s[i].value)
  }

  function Somes(s: seq<Item>): (t: seq<Option<Item>>)
    ensures |t| == |s|
  {
    seq(|s|, i requires 0 <= i < |s| => Some(s[i]))
  }

  /** Null in the place of the items of a node. */
  function NullOut(s: seq<Item>, name: Name): (t: seq<Option<Item>>)
    ensures |t| == |s|
  {
    seq(|s|, i requires 0 <= i < |s| => if s[i].node == name then None else Some(s[i]))
  }

  /** The items, without the nulls. */
  function Present(s: seq<Option<Item>>): (t: seq<Item>)
    ensures |t| <= |s|
  {
    if s == [] then []
    else Present(s[..|s| - 1]) + if s[|s| - 1].Some? then [s[|s| - 1].value] else []
  }

  lemma {:induction false} PresentCount(s: seq<Option<Item>>, x: Item)
    ensures multiset(Present(s))[x] == multiset(s)[Some(x)]
  {
    if s != [] {
      var n := |s| - 1;
      PresentCount(s[..n], x);
      assert s == s[..n] + [s[n]];
    }
  }

  lemma PresentPermuted(s: seq<Option<Item>>, r: seq<Option<Item>>)
    requires multiset(s) == multiset(r)
    ensures multiset(Present(s)) == multiset(Present(r))
  {
    forall x: Item
      ensures multiset(Present(s))[x] == multiset(Present(r))[x]
    {
      PresentCount(s, x);
      PresentCount(r, x);
    }
  }

  /** In a sorted sequence the items stand in front, in order. */
  lemma {:induction false} SortedPresent(r: seq<Option<Item>>)
    requires Sorted(r)
    ensures var p := |Present(r)|;
      (forall i :: 0 <= i < p ==> r[i].Some?) && (forall i :: p <= i < |r| ==> r[i].None?) &&
      Values(r[..p]) == Present(r) && Ordered(Present(r))
  {
    if r != [] {
      var n := |r| - 1;
      SortedPresent(r[..n]);
      forall i | 0 <= i < n
        ensures NotAfter(r[i], r[n])
      {
      }
    }
  }

  lemma {:induction false} SomesPresent(s: seq<Item>)
    ensures Present(Somes(s)) == s
  {
    if s != [] {
      var n := |s| - 1;
      SomesPresent(s[..n]);
      assert Somes(s)[..n] == Somes(s[..n]);
    }
  }

  /** The items of one node. */
  function Of(s: seq<Item>, name: Name): (t: seq<Item>) {
    if s == [] then []
    else Of(s[..|s| - 1], name) + if s[|s| - 1].node == name then [s[|s| - 1]] else []
  }

  lemma {:induction false} OfCount(s: seq<Item>, name: Name, x: Item)
    ensures multiset(Of(s, name))[x] == if x.node == name then multiset(s)[x] else 0
  {
    if s != [] {
      var n := |s| - 1;
      OfCount(s[..n], name, x);
      assert s == s[..n] + [s[n]];
    }
  }

  lemma NullOutMore(s: seq<Item>, name: Name)
    requires s != []
    ensures NullOut(s, name)[..|s| - 1] == NullOut(s[..|s| - 1], name)
    ensures NullOut(s, name)[|s| - 1] == if s[|s| - 1].node == name then None else Some(s[|s| - 1])
  {
  }

  lemma {:induction false} NullOutCount(s: seq<Item>, name: Name, x: Item)
    ensures multiset(Present(NullOut(s, name)))[x] == if x.node == name then 0 else multiset(s)[x]
  {
    if s != [] {
      var n := |s| - 1;
      NullOutCount(s[..n], name, x);
      NullOutMore(s, name);
      hide NullOut;
      assert s == s[..n] + [s[n]];
    }
  }

  /** Those of a node, and what is left when they are nulled out. */
  lemma NullOutSplits(s: seq<Item>, name: Name)
    ensures multiset(s) == multiset(Of(s, name)) + multiset(Present(NullOut(s, name)))
    ensures forall x :: multiset(Of(s, name))[x] == if x.node == name then multiset(s)[x] else 0
  {
    hide *;
    forall x: Item
      ensures multiset(Of(s, name))[x] == if x.node == name then multiset(s)[x] else 0
      ensures multiset(s)[x] == multiset(Of(s, name))[x] + multiset(Present(NullOut(s, name)))[x]
    {
      OfCount(s, name, x);
      NullOutCount(s, name, x);
    }
  }

  lemma MultisetSize(s: seq<Item>, a: seq<Item>, b: seq<Item>)
    requires multiset(s) == multiset(a) + multiset(b)
    ensures |s| == |a| + |b|
  {
    assert |multiset(s)| == |s| && |multiset(a)| == |a| && |multiset(b)| == |b|;
  }

  /** Sorts the array; the first n entries are the items that are left. */
  method Rearrange(s: seq<Option<Item>>, n: nat) returns (items: seq<Item>)
    requires n == |Present(s)|
    ensures Ordered(items) && multiset(items) == multiset(Present(s)) && |items| == n
  {
    var r := Sort(s);
    PresentPermuted(s, r);
    SortedPresent(r);
    assert |multiset(Present(s))| == |multiset(Present(r))|;
    items := Values(r[..n]);
  }

  /** Items of n nodes with r replicas each. */
  function Total(n: nat, r: nat): (t: nat) {
    n * r
  }

  /** One node more, or one less. */
  lemma ItemsPerNode(n: nat, r: nat)
    ensures Total(n + 1, r) == Total(n, r) + r
  {
  }

  lemma SomeItems(n: nat, r: nat)
    requires r >= 1
    ensures Total(n, r) == 0 <==> n == 0
  {
  }

  // ------------------------------------------------------------------
  // Walking along the ring
  // ------------------------------------------------------------------

  /** The ring, from place p on. */
  function Turned(s: seq<Item>, p: nat): (t: seq<Item>)
    requires p <= |s|
    ensures |t| == |s|
  {
    s[p..] + s[..p]
  }

  /** The first p places are those up to k. */
  ghost predicate Cuts(s: seq<Item>, k: nat, p: nat) {
    p <= |s| && (forall i :: 0 <= i < p ==> s[i].number <= k) && forall i :: p <= i < |s| ==> k < s[i].number
  }

  ghost function Upto(s: seq<Item>, k: nat): (p: nat)
    ensures p <= |s|
  {
    if s != [] && s[0].number <= k then 1 + Upto(s[1..], k) else 0
  }

  lemma {:induction false} UptoCuts(s: seq<Item>, k: nat)
    requires Ordered(s)
    ensures Cuts(s, k, Upto(s, k))
  {
    if s != [] && s[0].number <= k {
      UptoCuts(s[1..], k);
      var p := Upto(s[1..], k);
      assert forall i :: 0 < i < |s| ==> s[i] == s[1..][i - 1];
    }
  }

  lemma TurnedNext(s: seq<Item>, k: nat, p: nat)
    requires Ordered(s) && s != [] && Cuts(s, k, p)
    ensures IsNext(Places(s), k, Turned(s, p)[0])
  {
    var x := Turned(s, p)[0];
    assert x == if p < |s| then s[p] else s[0];
    forall y | y in Places(s)
      ensures if k < x.number then k < y.number ==> x.number <= y.number else y.number <= k && x.number <= y.number
    {
      var i :| 0 <= i < |s| && s[i] == y;
    }
  }

  /** Behind each place of the turned ring comes the next one. */
  lemma TurnedFollows(s: seq<Item>, p: nat, i: nat)
    requires Ascending(s) && p <= |s| && i + 1 < |s|
    ensures IsNext(Places(s), Turned(s, p)[i].number, Turned(s, p)[i + 1])
  {
    var j := if p + i < |s| then p + i else p + i - |s|;
    assert Turned(s, p)[i] == s[j];
    assert Turned(s, p)[i + 1] == if j + 1 < |s| then s[j + 1] else s[0];
    assert Cuts(s, s[j].number, j + 1);
    TurnedNext(s, s[j].number, j + 1);
    assert Turned(s, j + 1)[0] == Turned(s, p)[i + 1];
  }

  lemma NextIs(s: seq<Item>, k: nat, p: nat, i: nat, x: Item)
    requires Ascending(s) && p <= |s| && i < |s| && IsNext(Places(s), k, x)
    requires if i == 0 then Cuts(s, k, p) else k == Turned(s, p)[i - 1].number
    ensures x == Turned(s, p)[i]
  {
    if i == 0 { TurnedNext(s, k, p); } else { TurnedFollows(s, p, i - 1); }
    AscendingDistinct(s);
    hide IsNext, Turned, Ascending, Cuts, DistinctNumbers;
    NextUnique(Places(s), k, x, Turned(s, p)[i]);
  }

  lemma AscendingDistinct(s: seq<Item>)
    requires Ascending(s)
    ensures DistinctNumbers(Places(s))
  {
  }

  // ------------------------------------------------------------------
  // Places with the same number
  // ------------------------------------------------------------------

  /** Item i is the first of its number. */
  predicate Leads(s: seq<Item>, i: nat)
    requires i < |s|
  {
    i == 0 || s[i - 1].number != s[i].number
  }

  /** The first item of each number: the only ones that a search can find. */
  function Leaders(s: seq<Item>): (t: seq<Item>) {
    if s == [] then []
    else Leaders(s[..|s| - 1]) + if Leads(s, |s| - 1) then [s[|s| - 1]] else []
  }

  lemma LeadersMore(s: seq<Item>, n: nat)
    requires s != [] && n == |s| - 1
    ensures Leaders(s) == Leaders(s[..n]) + if Leads(s, n) then [s[n]] else []
  {
  }

  lemma {:induction false} LeadersIn(s: seq<Item>)
    ensures forall x :: x in Leaders(s) ==> x in s
  {
    if s != [] {
      var n := |s| - 1;
      LeadersIn(s[..n]);
      LeadersMore(s, n);
      hide Leaders;
      assert s == s[..n] + [s[n]];
    }
  }

  lemma {:induction false} LeadersAscend(s: seq<Item>)
    requires Ordered(s)
    ensures Ascending(Leaders(s)) && (s == [] ==> Leaders(s) == [])
    ensures s != [] ==> Leaders(s) != [] && Leaders(s)[|Leaders(s)| - 1].number == s[|s| - 1].number
  {
    if s != [] {
      var n := |s| - 1;
      LeadersAscend(s[..n]);
      LeadersMore(s, n);
      hide Leaders, Ascending;
      AscendOn(Leaders(s[..n]), s[n]);
      if n > 0 { assert s[..n][n - 1] == s[n - 1]; }
    }
  }

  lemma AscendOn(t: seq<Item>, x: Item)
    requires Ascending(t)
    ensures t == [] || t[|t| - 1].number < x.number ==> Ascending(t + [x])
    ensures t + [] == t
  {
  }

  lemma {:induction false} LeaderThere(s: seq<Item>, i: nat)
    requires i < |s| && Leads(s, i)
    ensures s[i] in Leaders(s)
    decreases |s|
  {
    var n := |s| - 1;
    if i < n { LeaderThere(s[..n], i); }
  }

  lemma {:induction false} AllLead(s: seq<Item>)
    requires Ascending(s)
    ensures Leaders(s) == s
  {
    if s != [] {
      AllLead(s[..|s| - 1]);
    }
  }

  /** Searching finds the same among the leaders. */
  lemma LeaderFound(s: seq<Item>, k: nat, p: nat)
    requires Ordered(s) && s != [] && Cuts(s, k, p)
    ensures IsNext(Places(Leaders(s)), k, Turned(s, p)[0])
  {
    var x := Turned(s, p)[0];
    assert x == if p < |s| then s[p] else s[0];
    LeaderThere(s, if p < |s| then p else 0);
    LeadersIn(s);
    TurnedNext(s, k, p);
  }

  lemma CutOnce(s: seq<Item>, k: nat, p: nat, q: nat)
    requires Cuts(s, k, p) && Cuts(s, k, q)
    ensures p == q
  {
    assert p < |s| ==> k < s[p].number;
    assert q < |s| ==> k < s[q].number;
  }

  /** The nodes in the order in which they first appear. */
  function First(s: seq<Item>): (r: seq<Name>) {
    if s == [] then []
    else
      var r := First(s[..|s| - 1]);
      if s[|s| - 1].node in r then r else r + [s[|s| - 1].node]
  }

  ghost predicate NoneTwice(r: seq<Name>) {
    forall i, j :: 0 <= i < j < |r| ==> r[i] != r[j]
  }

  lemma NoneTwiceMore(r: seq<Name>, n: Name)
    requires NoneTwice(r) && n !in r
    ensures NoneTwice([n] + r)
  {
  }

  lemma NoneTwiceLess(r: seq<Name>, i: nat)
    requires NoneTwice(r) && i < |r|
    ensures NoneTwice(r[..i] + r[i + 1..]) && forall n :: n in r[..i] + r[i + 1..] <==> n in r && n != r[i]
  {
    var s := r[..i] + r[i + 1..];
    assert r == r[..i] + [r[i]] + r[i + 1..];
    forall j | 0 <= j < |s|
      ensures s[j] != r[i]
    {
      assert s[j] == r[if j < i then j else j + 1];
    }
  }

  lemma {:induction false} FirstNodes(s: seq<Item>)
    ensures NoneTwice(First(s)) && forall n :: n in First(s) <==> exists i :: 0 <= i < |s| && s[i].node == n
  {
    if s != [] {
      var t := s[..|s| - 1];
      FirstNodes(t);
      assert s == t + [s[|s| - 1]];
      forall n
        ensures n in First(s) <==> exists i :: 0 <= i < |s| && s[i].node == n
      {
        if n in First(t) {
          var i :| 0 <= i < |t| && t[i].node == n;
          assert s[i].node == n;
        }
        if i :| 0 <= i < |s| && s[i].node == n {
          if i < |t| { assert t[i].node == n; }
        }
      }
    }
  }

  /** The nodes come in the order in which they are met: some place of one of them comes before
      all places of the next. */
  lemma {:induction false} FirstOrder(s: seq<Item>, i: nat, j: nat)
    requires i < j < |First(s)|
    ensures MetBefore(s, First(s)[i], First(s)[j])
    decreases |s|
  {
    var t := s[..|s| - 1];
    if j < |First(t)| {
      FirstOrder(t, i, j);
      var a :| Ahead(t, a, First(t)[i], First(t)[j]);
      AheadMore(s, a, First(s)[i], First(s)[j]);
    } else {
      FirstNodes(t);
      assert First(t)[i] in First(t);
      var a :| 0 <= a < |t| && t[a].node == First(t)[i];
      assert Ahead(t, a, First(t)[i], First(s)[j]);
      AheadMore(s, a, First(s)[i], First(s)[j]);
    }
  }

  /** Item a is one of node m, and none of node n has come up to there. */
  ghost predicate Ahead(s: seq<Item>, a: int, m: Name, n: Name) {
    0 <= a < |s| && s[a].node == m && forall b :: 0 <= b <= a ==> s[b].node != n
  }

  lemma AheadMore(s: seq<Item>, a: int, m: Name, n: Name)
    requires s != [] && Ahead(s[..|s| - 1], a, m, n)
    ensures Ahead(s, a, m, n)
  {
    var t := s[..|s| - 1];
    assert forall b :: 0 <= b < |t| ==> t[b] == s[b];
  }

  /** The nodes of a walk, each once, as they are met. */
  ghost predicate FirstMet(v: seq<Item>, r: seq<Name>) {
    NoneTwice(r) && (forall n :: n in r <==> exists i :: 0 <= i < |v| && v[i].node == n) &&
    forall i, j :: 0 <= i < j < |r| ==> MetBefore(v, r[i], r[j])
  }

  ghost predicate MetBefore(v: seq<Item>, m: Name, n: Name) {
    exists a :: Ahead(v, a, m, n)
  }

  /** That is the order of `First`. */
  lemma FirstIsMet(v: seq<Item>)
    ensures FirstMet(v, First(v))
    ensures v != [] ==> First(v) != [] && First(v)[0] == v[0].node
  {
    FirstNodes(v);
    if v != [] { FirstHead(v); }
    var r := First(v);
    hide First;
    forall i, j | 0 <= i < j < |r|
      ensures MetBefore(v, r[i], r[j])
    {
      FirstOrder(v, i, j);
    }
  }

  lemma {:induction false} FirstHead(v: seq<Item>)
    requires v != []
    ensures First(v) != [] && First(v)[0] == v[0].node
    decreases |v|
  {
    if |v| > 1 { FirstHead(v[..|v| - 1]); }
  }

  /** A walk round the ring from k: each item is the next one behind the one before. */
  ghost predicate Walk(t: set<Item>, k: nat, v: seq<Item>) {
    forall i :: 0 <= i < |v| ==> Follows(t, k, v, i)
  }

  ghost predicate Follows(t: set<Item>, k: nat, v: seq<Item>, i: nat)
    requires i < |v|
  {
    IsNext(t, if i == 0 then k else v[i - 1].number, v[i])
  }

  lemma WalkMore(t: set<Item>, k: nat, v: seq<Item>, x: Item)
    requires Walk(t, k, v) && IsNext(t, From(v, k), x)
    ensures Walk(t, k, v + [x])
  {
    hide IsNext;
    var w := v + [x];
    forall i | 0 <= i < |w|
      ensures Follows(t, k, w, i)
    {
      if i < |v| { assert Follows(t, k, v, i) && w[i] == v[i] && (i > 0 ==> w[i - 1] == v[i - 1]); }
    }
  }

  lemma {:induction false} VisitWalks(s: seq<Item>, k: nat, r: nat)
    requires s != [] && Ordered(s)
    ensures Walk(Places(s), k, Visit(s, k, r))
    decreases r
  {
    if r > 0 {
      VisitWalks(s, k, r - 1);
      VisitMore(s, k, r);
      var v, from := Visit(s, k, r - 1), From(Visit(s, k, r - 1), k);
      UptoCuts(s, from);
      TurnedNext(s, from, Upto(s, from));
      hide Visit, IsNext, Upto, Turned, Ordered, Places;
      WalkMore(Places(s), k, v, Turned(s, Upto(s, from))[0]);
    }
  }

  /** What a search is to find: the first nodes met on a walk from k, up to the last one needed. */
  ghost predicate MetFrom(t: set<Item>, k: nat, found: seq<Name>) {
    exists v: seq<Item> :: v != [] && Walk(t, k, v) && FirstMet(v, found)
  }

  lemma VisitMeets(s: seq<Item>, k: nat, r: nat)
    requires s != [] && Ordered(s) && r >= 1
    ensures MetFrom(Places(s), k, First(Visit(s, k, r)))
    ensures First(Visit(s, k, r)) != []
    ensures exists x :: IsNext(Places(s), k, x) && x.node == First(Visit(s, k, r))[0]
  {
    hide First, Visit, FirstMet, IsNext;
    VisitWalks(s, k, r);
    var v := Visit(s, k, r);
    FirstIsMet(v);
    WalkStarts(Places(s), k, v);
  }

  lemma WalkStarts(t: set<Item>, k: nat, v: seq<Item>)
    requires Walk(t, k, v) && v != []
    ensures IsNext(t, k, v[0])
  {
    assert Follows(t, k, v, 0);
  }

  lemma {:induction false} NoneTwiceCount(r: seq<Name>)
    requires NoneTwice(r)
    ensures |set n | n in r| == |r|
  {
    if r != [] {
      var t := r[..|r| - 1];
      NoneTwiceCount(t);
      assert (set n | n in r) == (set n | n in t) + {r[|r| - 1]};
    }
  }

  /** A walk along part of the way meets part of the nodes. */
  lemma FewerNodes(a: seq<Name>, b: seq<Name>)
    requires NoneTwice(a) && NoneTwice(b) && forall n :: n in a ==> n in b
    ensures |a| <= |b|
    ensures (forall n :: n in b ==> n in a) ==> |a| == |b|
  {
    NoneTwiceCount(a);
    NoneTwiceCount(b);
    var x, y := set n | n in a, set n | n in b;
    assert x <= y;
    Cardinal(x, y);
    if forall n :: n in b ==> n in a { assert x == y; }
  }

  lemma Cardinal(a: set<Name>, b: set<Name>)
    requires a <= b
    ensures |a| <= |b|
  {
    assert b == a + (b - a);
  }

  /** The items that r searches find, each from the number of the one before. */
  ghost function Visit(s: seq<Item>, k: nat, r: nat): (v: seq<Item>)
    requires s != []
    ensures |v| == r
  {
    if r == 0 then []
    else
      var v := Visit(s, k, r - 1);
      var from := if v == [] then k else v[r - 2].number;
      v + [Turned(s, Upto(s, from))[0]]
  }

  lemma {:induction false} VisitThere(s: seq<Item>, k: nat, r: nat, i: nat)
    requires s != [] && Ordered(s) && i < r
    ensures Visit(s, k, r)[i] in Leaders(s)
    decreases r
  {
    var v := Visit(s, k, r - 1);
    if i < r - 1 {
      VisitThere(s, k, r - 1, i);
    } else {
      var from := if v == [] then k else v[r - 2].number;
      UptoCuts(s, from);
      LeaderFound(s, from, Upto(s, from));
    }
  }

  /** Where search r starts. */
  ghost function From(v: seq<Item>, k: nat): (n: nat) {
    if v == [] then k else v[|v| - 1].number
  }

  lemma VisitMore(s: seq<Item>, k: nat, r: nat)
    requires s != [] && r >= 1
    ensures var v := Visit(s, k, r - 1); Visit(s, k, r) == v + [Turned(s, Upto(s, From(v, k)))[0]]
  {
  }

  lemma AscendingOrdered(s: seq<Item>)
    requires Ascending(s)
    ensures Ordered(s)
  {
  }

  /** Up to one time round, the searches find the leaders in turn. */
  lemma {:induction false} VisitRound(s: seq<Item>, k: nat, r: nat)
    requires s != [] && Ordered(s) && r <= |Leaders(s)|
    ensures Visit(s, k, r) == Turned(Leaders(s), Upto(Leaders(s), k))[..r]
    decreases r
  {
    hide Visit, Upto, Turned, Leaders, Ordered, Ascending, IsNext;
    LeadersAscend(s);
    AscendingOrdered(Leaders(s));
    UptoCuts(Leaders(s), k);
    var ring := Turned(Leaders(s), Upto(Leaders(s), k));
    if r > 0 {
      VisitRound(s, k, r - 1);
      VisitMore(s, k, r);
      RoundStep(s, k, Upto(Leaders(s), k), r - 1, From(ring[..r - 1], k));
    } else {
      assert ring[..0] == [];
      assert |Visit(s, k, 0)| == 0;
    }
  }

  lemma RoundStep(s: seq<Item>, k: nat, p: nat, i: nat, from: nat)
    requires s != [] && Ordered(s) && Ascending(Leaders(s)) && i < |Leaders(s)| && Cuts(Leaders(s), k, p)
    requires from == From(Turned(Leaders(s), p)[..i], k)
    ensures var t := Turned(Leaders(s), p); t[..i + 1] == t[..i] + [Turned(s, Upto(s, from))[0]]
  {
    hide Upto, Turned, Leaders, Ordered, Ascending, IsNext;
    UptoCuts(s, from);
    LeaderFound(s, from, Upto(s, from));
    var ring := Turned(Leaders(s), p);
    if i == 0 { assert ring[..i] == []; } else { assert ring[..i][i - 1] == ring[i - 1]; }
    NextIs(Leaders(s), from, p, i, Turned(s, Upto(s, from))[0]);
  }

  /** How many nodes can be met at all. */
  ghost function Seen(s: seq<Item>): (n: nat) {
    |First(Leaders(s))|
  }

  lemma TurnedSeen(s: seq<Item>, p: nat)
    requires p <= |s|
    ensures |First(Turned(s, p))| == |First(s)|
  {
    FirstNodes(s);
    FirstNodes(Turned(s, p));
    forall n
      ensures n in First(s) <==> n in First(Turned(s, p))
    {
      NodeMoves(s, Turned(s, p), n);
      NodeMoves(Turned(s, p), s, n);
    }
    FewerNodes(First(s), First(Turned(s, p)));
  }

  lemma NodeMoves(s: seq<Item>, t: seq<Item>, n: Name)
    requires forall x :: x in s ==> x in t
    ensures (exists i :: 0 <= i < |s| && s[i].node == n) ==> exists i :: 0 <= i < |t| && t[i].node == n
  {
    if i :| 0 <= i < |s| && s[i].node == n {
      assert s[i] in t;
      var j :| 0 <= j < |t| && t[j] == s[i];
      assert t[j].node == n;
    }
  }

  lemma VisitStep(s: seq<Item>, k: nat, r: nat)
    requires s != [] && r >= 1
    ensures Visit(s, k, r)[..r - 1] == Visit(s, k, r - 1)
    ensures |First(Visit(s, k, r - 1))| <= |First(Visit(s, k, r))| <= |First(Visit(s, k, r - 1))| + 1
  {
    var v := Visit(s, k, r);
    assert v[..r - 1] == Visit(s, k, r - 1);
    assert First(v) == First(v[..r - 1]) || First(v) == First(v[..r - 1]) + [v[r - 1].node];
  }

  lemma VisitNone(s: seq<Item>, k: nat)
    requires s != []
    ensures First(Visit(s, k, 0)) == []
  {
  }

  lemma {:induction false} VisitGrows(s: seq<Item>, k: nat, i: nat, n: nat)
    requires s != [] && i <= n
    ensures |First(Visit(s, k, i))| <= |First(Visit(s, k, n))|
    decreases n - i
  {
    hide Visit, First;
    if i < n {
      VisitGrows(s, k, i, n - 1);
      VisitStep(s, k, n);
    }
  }

  /** No number of rounds meets more nodes than can be met. */
  lemma VisitSeen(s: seq<Item>, k: nat, r: nat)
    requires s != [] && Ordered(s)
    ensures |First(Visit(s, k, r))| <= Seen(s) && (r >= 1 ==> First(Visit(s, k, r)) != [])
  {
    var v := Visit(s, k, r);
    FirstNodes(v);
    FirstNodes(Leaders(s));
    forall x | x in v
      ensures x in Leaders(s)
    {
      var i :| 0 <= i < |v| && v[i] == x;
      VisitThere(s, k, r, i);
    }
    forall n | n in First(v)
      ensures n in First(Leaders(s))
    {
      NodeMoves(v, Leaders(s), n);
    }
    FewerNodes(First(v), First(Leaders(s)));
    if r >= 1 { assert v[0].node in First(v); }
  }

  /** Some number of rounds meets exactly n nodes. */
  lemma {:induction false} SomeRound(s: seq<Item>, k: nat, n: nat, i: nat) returns (r: nat)
    requires s != [] && Ordered(s) && 1 <= n <= |First(Visit(s, k, i))|
    ensures 1 <= r <= i && |First(Visit(s, k, r))| == n
    decreases i
  {
    if |First(Visit(s, k, i))| == n {
      r := i;
      assert i > 0;
    } else {
      VisitStep(s, k, i);
      r := SomeRound(s, k, n, i - 1);
    }
  }

  /** The loop that looks for n nodes comes to its end if and only if n is not 0 and so many
      nodes have a place that is not behind another one of the same number. */
  lemma SearchEnds(s: seq<Item>, k: nat, n: nat)
    requires s != [] && Ordered(s)
    ensures (exists r :: r >= 1 && |First(Visit(s, k, r))| == n) <==> 1 <= n <= Seen(s)
  {
    if r :| r >= 1 && |First(Visit(s, k, r))| == n {
      VisitSeen(s, k, r);
    }
    if 1 <= n <= Seen(s) {
      LeadersAscend(s);
      var t := Leaders(s);
      VisitRound(s, k, |t|);
      var ring := Turned(t, Upto(t, k));
      assert ring[..|t|] == ring;
      TurnedSeen(t, Upto(t, k));
      var r := SomeRound(s, k, n, |t|);
    }
  }

  /** Two nodes whose only places have the same number: the second one is never met. */
  lemma NeverMet(k: nat)
    ensures var s := [Item(5, [97]), Item(5, [98])];
      Ordered(s) && forall r :: r >= 1 ==> |First(Visit(s, k, r))| != 2
  {
    var a, b := Item(5, [97]), Item(5, [98]);
    var s := [a, b];
    assert s[..1] == [a] && [a][..0] == [];
    assert Leaders([a]) == [a];
    assert Leaders(s) == [a];
    assert First([]) == [] && First([a]) == [[97]];
    SearchEnds(s, k, 2);
  }

  // ------------------------------------------------------------------
  // The ring
  // ------------------------------------------------------------------

  class HashRing {
    const numReplicas: nat
    const digest: seq<byte> -> nat   // the hash function
    const text: nat -> seq<byte>     // the decimal text of a replica's number
    var nodes: seq<Name>
    var items: seq<Item>
    var numNodes: nat
    var numItems: nat

    /** The hash of some data, whose length is passed on in one byte. */
    function HashOf(data: seq<byte>): (h: nat) {
      digest(data[..|data| % 0x100])
    }

    function Number(name: Name, x: nat): (n: nat) {
      HashOf(name + text(x))
    }

    /** Two replicas of a node come to the same place if and only if their numbers have equally
        many digits and do not fit into 255 bytes with the name, as far as the hash function
        tells apart what is hashed. A name that is too long so has one place left for each
        number of digits. */
    lemma LongNamesCollide(name: Name, x: nat, y: nat)
      requires text(x) != text(y) && |text(x)| < 0x100 && |text(y)| < 0x100
      requires digest(Hashed(name, text(x))) == digest(Hashed(name, text(y))) ==>
        Hashed(name, text(x)) == Hashed(name, text(y))
      ensures Number(name, x) == Number(name, y) <==>
        |text(x)| == |text(y)| && |name| + |text(x)| >= 0x100
    {
      HashedAlike(name, text(x), text(y));
    }

    /** The places of a node, one for each replica. */
    function Own(name: Name): (t: seq<Item>)
      ensures |t| == numReplicas && forall x :: x in t ==> x.node == name
    {
      seq(numReplicas, x requires 0 <= x < numReplicas => Item(Number(name, x), name))
    }

    ghost predicate Valid()
      reads this
    {
      numReplicas >= 1 && numNodes == |nodes| && numItems == |items| == Total(numNodes, numReplicas) &&
      NoneTwice(nodes) && Ordered(items) && Owned(items, nodes)
    }

    /** The places on the ring are those of the nodes, each as often as it is one. */
    ghost predicate Owned(items: seq<Item>, nodes: seq<Name>) {
      forall x :: multiset(items)[x] == if x.node in nodes then multiset(Own(x.node))[x] else 0
    }

    constructor (replicas: nat, digest: seq<byte> -> nat, text: nat -> seq<byte>)
      requires replicas >= 1
      ensures Valid() && nodes == [] && numReplicas == replicas && this.digest == digest && this.text == text
    {
      numReplicas, this.digest, this.text := replicas, digest, text;
      nodes, items, numNodes, numItems := [], [], 0, 0;
    }

    /** Index of a node, or the number of nodes. */
    method IndexOf(name: Name) returns (i: nat)
      ensures i <= |nodes| && (i < |nodes| ==> nodes[i] == name) && (i == |nodes| ==> name !in nodes)
    {
      i := 0;
      while i < |nodes| && nodes[i] != name
        invariant i <= |nodes| && name !in nodes[..i]
      {
        i := i + 1;
      }
    }

    /** `hash_ring_add_items`: the places of a node. */
    method MakeItems(name: Name) returns (own: seq<Item>)
      ensures own == Own(name)
    {
      own := [];
      var x := 0;
      while x < numReplicas
        invariant x <= numReplicas && |own| == x && forall i :: 0 <= i < x ==> own[i] == Item(Number(name, i), name)
      {
        own := own + [Item(Number(name, x), name)];
        x := x + 1;
      }
    }

    /** Adds a node unless it is there: the ring gains exactly its places, and only keys of
        the new node change hands. */
    method AddNode(name: Name) returns (ok: bool)
      requires Valid()
      modifies this
      ensures Valid() && ok == (name != [] && name !in old(nodes))
      ensures !ok ==> nodes == old(nodes) && items == old(items)
      ensures ok ==> nodes == [name] + old(nodes) && multiset(items) == multiset(old(items)) + multiset(Own(name))
      ensures ok ==> forall k, x :: IsNext(Places(items), k, x) ==> x.node == name || IsNext(old(Places(items)), k, x)
    {
      hide NotAfter, Ordered, Own, IsNext, Places, Present, Somes;
      var at := IndexOf(name);
      if at < |nodes| || name == [] { return false; }
      var own := MakeItems(name);
      ghost var before, was := items, nodes;
      SomesPresent(items + own);
      items := Rearrange(Somes(items + own), numItems + numReplicas);
      ItemsPerNode(numNodes, numReplicas);
      NoneTwiceMore(nodes, name);
      numItems := numItems + numReplicas;
      nodes, numNodes := [name] + nodes, numNodes + 1;
      OwnedMore(before, was, items, name);
      OnlyTo(before, items, own, name);
      ok := true;
    }

    lemma OwnedMore(before: seq<Item>, was: seq<Name>, after: seq<Item>, name: Name)
      requires Owned(before, was) && name !in was && multiset(after) == multiset(before) + multiset(Own(name))
      ensures Owned(after, [name] + was)
    {
      forall x
        ensures multiset(after)[x] == if x.node in [name] + was then multiset(Own(x.node))[x] else 0
      {
        if x.node != name { assert x !in Own(name); }
      }
    }

    lemma OnlyTo(before: seq<Item>, after: seq<Item>, own: seq<Item>, name: Name)
      requires multiset(after) == multiset(before) + multiset(own) && forall x :: x in own ==> x.node == name
      ensures forall k, x :: IsNext(Places(after), k, x) ==> x.node == name || IsNext(Places(before), k, x)
    {
      forall x
        ensures x in after <==> x in before || x in own
      {
        assert x in after <==> x in multiset(after);
      }
      assert Places(after) == Places(before) + Places(own);
      forall k, x | IsNext(Places(after), k, x)
        ensures x.node == name || IsNext(Places(before), k, x)
      {
        AddingRemaps(Places(before), Places(own), k, x);
      }
    }

    /** What is left without a node's items. */
    lemma OthersLeft(name: Name)
      requires Valid() && name in nodes
      ensures multiset(items) == multiset(Own(name)) + multiset(Present(NullOut(items, name)))
      ensures |items| == numReplicas + |Present(NullOut(items, name))|
    {
      hide Of;
      NullOutSplits(items, name);
      forall x
        ensures multiset(Of(items, name))[x] == multiset(Own(name))[x]
      {
        if x.node != name { assert x !in Own(name); }
      }
      assert multiset(Of(items, name)) == multiset(Own(name));
      MultisetSize(items, Own(name), Present(NullOut(items, name)));
    }

    lemma OwnedLess(before: seq<Item>, was: seq<Name>, after: seq<Item>, nodes: seq<Name>, name: Name)
      requires Owned(before, was) && name in was && (forall n :: n in nodes <==> n in was && n != name)
      requires multiset(before) == multiset(Own(name)) + multiset(after)
      ensures Owned(after, nodes)
    {
      forall x
        ensures multiset(after)[x] == if x.node in nodes then multiset(Own(x.node))[x] else 0
      {
        assert multiset(before)[x] == multiset(Own(name))[x] + multiset(after)[x];
        if x.node != name { assert x !in Own(name); }
      }
    }

    lemma OnlyFrom(before: seq<Item>, after: seq<Item>, own: seq<Item>, name: Name)
      requires multiset(before) == multiset(own) + multiset(after)
      requires (forall x :: x in own ==> x.node == name) && forall x :: x in after ==> x.node != name
      ensures forall k, x :: IsNext(Places(before), k, x) && x.node != name ==> IsNext(Places(after), k, x)
    {
      forall x
        ensures x in before <==> x in after || x in own
      {
        assert x in before <==> x in multiset(before);
      }
      assert Places(after) == Places(before) - Places(own);
      forall k, x | IsNext(Places(before), k, x) && x.node != name
        ensures IsNext(Places(after), k, x)
      {
        RemovingRemaps(Places(before), Places(own), k, x);
      }
    }

    /** Removes a node if it is there: the ring loses exactly its places, and only its keys
        change hands. */
    method RemoveNode(name: Name) returns (ok: bool)
      requires Valid()
      modifies this
      ensures Valid() && ok == (name != [] && name in old(nodes))
      ensures !ok ==> nodes == old(nodes) && items == old(items)
      ensures ok ==> multiset(items) == multiset(old(items)) - multiset(Own(name))
      ensures ok ==> forall n :: n in nodes <==> n in old(nodes) && n != name
      ensures ok ==> forall k, x :: IsNext(old(Places(items)), k, x) && x.node != name ==> IsNext(Places(items), k, x)
    {
      hide NotAfter, Ordered, Own, IsNext, Places, Present, NullOut;
      var at := IndexOf(name);
      if at == |nodes| || name == [] { return false; }
      ghost var before, was := items, nodes;
      OthersLeft(name);
      items := Rearrange(NullOut(items, name), numItems - numReplicas);
      ItemsPerNode(numNodes - 1, numReplicas);
      NoneTwiceLess(nodes, at);
      numItems := numItems - numReplicas;
      nodes, numNodes := nodes[..at] + nodes[at + 1..], numNodes - 1;
      OwnedLess(before, was, items, nodes, name);
      OwnedNodes(items, nodes);
      OnlyFrom(before, items, Own(name), name);
      ok := true;
    }

    lemma OwnedNodes(items: seq<Item>, nodes: seq<Name>)
      requires Owned(items, nodes)
      ensures forall x :: x in items ==> x.node in nodes
    {
      forall x | x in items
        ensures x.node in nodes
      {
        assert x in multiset(items);
      }
    }

    /** The binary search, and how many places are up to num. */
    method FindNextHighestItem(num: nat) returns (x: Option<Item>, ghost p: nat)
      requires Valid()
      ensures items == [] ==> x == None
      ensures items != [] ==>
        Cuts(items, num, p) && x == Some(Turned(items, p)[0]) && IsNext(Places(items), num, x.value)
    {
      hide Owned;
      p := 0;
      if numItems == 0 { return None, 0; }
      var min, max := 0, numItems - 1;
      while min <= max
        invariant 0 <= min <= max + 1 <= |items|
        invariant forall i :: 0 <= i < min ==> items[i].number <= num
        invariant forall i :: max < i < |items| ==> num < items[i].number
      {
        var midpointIndex := (min + max) / 2;
        var item := items[midpointIndex];
        if item.number > num {
          max := midpointIndex - 1;
        } else {
          min := midpointIndex + 1;
        }
      }
      p := min;
      TurnedNext(items, num, p);
      if min == numItems { return Some(items[0]), p; }
      return Some(items[min]), p;
    }

    /** The node of a key. */
    method FindNode(key: seq<byte>) returns (node: Option<Name>)
      requires Valid()
      ensures node == None <==> key == [] || items == []
      ensures node.Some? ==> exists x :: IsNext(Places(items), HashOf(key), x) && x.node == node.value
    {
      if key == [] { return None; }
      var x;
      ghost var p;
      x, p := FindNextHighestItem(HashOf(key));
      if x == None { return None; }
      node := Some(x.value.node);
    }

    /** If no two places have the same number, all nodes can be met. */
    lemma AllSeen()
      requires Valid() && Ascending(items)
      ensures Seen(items) == numNodes
    {
      hide Ordered, Own, Total, NoneTwice, First;
      AllLead(items);
      FirstNodes(items);
      OwnedNodes(items, nodes);
      forall n
        ensures n in First(items) <==> n in nodes
      {
        if n in nodes { HasPlace(n); }
        if i :| 0 <= i < |items| && items[i].node == n {
          assert items[i] in items;
        }
      }
      FewerNodes(First(items), nodes);
    }

    lemma HasPlace(n: Name)
      requires Valid() && n in nodes
      ensures exists i :: 0 <= i < |items| && items[i].node == n
    {
      var x := Own(n)[0];
      assert x in multiset(Own(n));
      assert x in multiset(items);
      var i :| 0 <= i < |items| && items[i] == x;
      assert items[i].node == n;
    }

    /** The first distinct nodes that are met on the way round the ring from the key's place, as
        many as are wanted and as there are. For other numbers of nodes the loop does not end:
        see `SearchEnds`. */
    method FindNodes(key: seq<byte>, num: nat) returns (ret: int, found: seq<Name>)
      requires Valid() && (nodes != [] ==> 1 <= Min(numNodes, num) <= Seen(items))
      ensures nodes == [] ==> ret == -1
      ensures nodes != [] ==> ret == Min(numNodes, num) == |found| && NoneTwice(found) && items != []
      ensures nodes != [] ==> exists r :: r >= 1 && found == First(Visit(items, HashOf(key), r))
      ensures nodes != [] ==>
        MetFrom(Places(items), HashOf(key), found) &&
        found != [] && exists x :: IsNext(Places(items), HashOf(key), x) && x.node == found[0]
    {
      hide Ordered, Visit, First, Leaders, IsNext, Owned, Turned, Upto;
      ret := Min(numNodes, num);
      SomeItems(numNodes, numReplicas);
      var keyInt := HashOf(key);
      ghost var k := keyInt;
      found := [];
      if numItems == 0 {
        return -1, [];
      }
      ghost var i := 0;
      ghost var n := EndRound(k, ret);
      VisitNone(items, k);
      VisitGrows(items, k, 0, n);
      while |found| != ret
        invariant 0 <= i <= n && found == First(Visit(items, k, i)) && |found| <= ret
        invariant keyInt == if i == 0 then k else Visit(items, k, i)[i - 1].number
        decreases n - i
      {
        var item;
        item, found := NextNode(keyInt, found, k, i);
        i := i + 1;
        VisitGrows(items, k, i, n);
        keyInt := item.value.number;
      }
      FirstNodes(Visit(items, k, i));
      VisitMeets(items, k, i);
    }

    /** One place further on. */
    method NextNode(keyInt: nat, found0: seq<Name>, ghost k: nat, ghost i: nat)
      returns (item: Option<Item>, found: seq<Name>)
      requires Valid() && items != [] && found0 == First(Visit(items, k, i))
      requires keyInt == if i == 0 then k else Visit(items, k, i)[i - 1].number
      ensures item == Some(Visit(items, k, i + 1)[i]) && found == First(Visit(items, k, i + 1))
    {
      ghost var q;
      item, q := FindNextHighestItem(keyInt);
      UptoCuts(items, keyInt);
      CutOnce(items, keyInt, q, Upto(items, keyInt));
      ghost var v := Visit(items, k, i + 1);
      assert v[..i] == Visit(items, k, i);
      found := found0;
      if item.value.node !in found0 { found := found0 + [item.value.node]; }
    }

    /** The round after which the loop ends. */
    lemma EndRound(k: nat, ret: nat) returns (n: nat)
      requires Valid() && items != [] && 1 <= ret <= Seen(items)
      ensures |First(Visit(items, k, n))| == ret
    {
      SearchEnds(items, k, ret);
      n :| n >= 1 && |First(Visit(items, k, n))| == ret;
    }
  }
}
