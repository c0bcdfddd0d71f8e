/** The radix tree's operations. */
module Rax {
  import opened Bytes
  import opened RaxModel
  import opened RaxHeap
  import opened RaxChange
  import opened RaxWalk
  import opened RaxRemoval
  import opened RaxTight

  const NODE_MAX_SIZE := 0x1FFF_FFFF    // 2^29 - 1, the size field has 29 bits

  lemma EmptyTidy()
    ensures Tidy(map[0 := LEAF], Leaf(0)) && Denotes(Leaf(0), map[])
  {
    forall c: Ptr ensures Uses(Leaf(0), c) == One(c in map[0 := LEAF]) { LeafUses(0, c); }
    forall k: Str ensures Lookup(Leaf(0), k) == None { LeafLookup(0, k); }
  }

  lemma HeadMoved(t: Tree, p: seq<nat>, s: Tree)
    requires HasPath(t, p)
    ensures Replace(t, p, s).ptr == if p == [] then s.ptr else t.ptr
  {
  }

  /** Setting the link to a node that has just been moved does not touch that node. */
  lemma MoveKeepsNode(mem: Mem, t: Tree, p: seq<nat>, q: Ptr, n: RaxNode)
    requires Tidy(mem, t) && HasPath(t, p) && Sub(t, p).T? && (q == Sub(t, p).ptr || q !in mem)
    ensures Sub(t, p).ptr in mem
    ensures var m := LinkMem(Without(mem, Sub(t, p).ptr)[q := n], LinkOf(t, p), q);
      q in m && m[q] == n && m[q := n] == m
  {
    SubFacts(mem, t, p);
    var m := LinkMem(Without(mem, Sub(t, p).ptr)[q := n], LinkOf(t, p), q);
    assert m[q := m[q]] == m;
  }

  /** Names for the nodes that a split at this byte does not need. */
  lemma ApartNames(mem: Mem, mem1: Mem, n: Tree, j: nat, top: Ptr, split: Ptr, post: Ptr) returns (trimmed: Ptr,
        postfix: Ptr)
    requires n.T? && |n.kids| == 1 && j < |n.data|
    requires split !in mem && top !in mem && (j == 0 <==> top == split)
    requires j + 1 < |n.data| ==> post !in mem && post != split && post != top
    ensures trimmed != split && trimmed != postfix && split != postfix
    ensures j > 0 ==> trimmed == top
    ensures j + 1 < |n.data| ==> postfix == post
    ensures ApartNodes(n, j, trimmed, split, postfix) == {split, top} + if j + 1 < |n.data| then {post} else {}
  {
    var b := BoundOf({split, top, post});
    trimmed := if j > 0 then top else b;
    postfix := if j + 1 < |n.data| then post else b + 1;
  }

  lemma ExtendsHas(mem: Mem, mem1: Mem, extra: set<Ptr>, h: Ptr)
    requires Extends(mem, mem1, extra) && h in mem
    ensures h in mem1
  {
  }

  class Rax {
    var mem: Mem
    var head: Ptr
    var numele: nat
    var numnodes: nat

    /** The tree in memory, and the map it stands for. */
    ghost var tree: Tree
    ghost var content: Map

    /** Memory holds exactly the tree, which stands for the map. */
    ghost predicate Stands()
      reads this
    {
      Tidy(mem, tree) && head == tree.ptr && Denotes(tree, content) && numnodes == |mem| && numele == |content|
    }

    ghost predicate Valid()
      reads this
    {
      Stands() && tree.T? && KeyedBut(tree, []) && Narrow(tree, NODE_MAX_SIZE)
    }

    /** No key is longer than a node's run can be. */
    ghost predicate ShortKeys()
      reads this
    {
      forall k :: k in content ==> |k| <= NODE_MAX_SIZE
    }

    /** Every node's number of edge bytes fits its field of 29 bits. */
    lemma SizeFits(p: seq<nat>)
      requires Valid() && HasPath(tree, p) && Sub(tree, p).T?
      ensures |Sub(tree, p).data| <= NODE_MAX_SIZE
    {
      NarrowSub(tree, p, NODE_MAX_SIZE);
      SubShape(tree, p);
      if !Sub(tree, p).iscompr { AscendingShort(Sub(tree, p).data); }
    }

    /** An empty tree: the head alone. */
    constructor ()
      ensures Valid() && content == map[] && fresh(this)
    {
      mem, head, numele, numnodes := map[0 := LEAF], 0, 0, 1;
      tree, content := Leaf(0), map[];
      new;
      assert |map[0 := LEAF]| == 1;
      EmptyTidy();
    }

    // ----------------------------------------------------------------
    // Memory
    // ----------------------------------------------------------------

    method Alloc(n: RaxNode) returns (q: Ptr)
      modifies this`mem
      ensures q !in old(mem) && mem == old(mem)[q := n] && |mem| == |old(mem)| + 1
    {
      FreshExists(mem);
      q :| q !in mem;
      WithSize(mem, q, n);
      mem := mem[q := n];
    }

    /** `realloc`: the node may stay where it is or move. */
    method Realloc(p: Ptr) returns (q: Ptr)
      requires p in mem
      modifies this`mem
      ensures q in mem && (q == p || q !in old(mem)) && |mem| == |old(mem)|
      ensures mem == Without(old(mem), p)[q := old(mem)[p]]
    {
      FreshExists(mem);
      q :| q !in mem;
      WithoutSize(mem, p);
      WithSize(Without(mem, p), q, mem[p]);
      mem := Without(mem, p)[q := mem[p]];
    }

    method FreeNode(p: Ptr)
      requires p in mem
      modifies this`mem
      ensures mem == Without(old(mem), p) && |mem| == |old(mem)| - 1
    {
      WithoutSize(mem, p);
      mem := Without(mem, p);
    }

    method SetLink(l: Link, q: Ptr)
      modifies this`mem, this`head
      ensures mem == LinkMem(old(mem), l, q) && |mem| == |old(mem)|
      ensures head == if l.Head? then q else old(head)
    {
      if l.Head? {
        head := q;
      } else if l.node in mem && l.index < |mem[l.node].kids| {
        WithSize(mem, l.node, mem[l.node].(kids := mem[l.node].kids[l.index := q]));
      }
      mem := LinkMem(mem, l, q);
    }

    // ----------------------------------------------------------------
    // Walking
    // ----------------------------------------------------------------

    /** The low-level walk: how far s leads, to which node, by which link, and
        how far into that node; with the nodes passed on the way. */
    method LowWalk(s: Str) returns (i: nat, h: Ptr, plink: Link, splitpos: nat, ts: seq<Ptr>, ghost p: seq<nat>)
      requires Tidy(mem, tree) && head == tree.ptr && tree.T? && KeyedBut(tree, [])
      ensures Stopped(tree, s, p, i, splitpos) && h == Sub(tree, p).ptr && h in mem && Fits(mem[h], Sub(tree, p))
      ensures plink == LinkOf(tree, p) && ts == StackOf(tree, p)
    {
      hide Uses, LinkOf, UsesAll, Ascending;
      h, plink, i, splitpos, ts, p := head, Link.Head, 0, 0, [], [];
      assert s[..0] == [];
      while h in mem && |mem[h].data| > 0 && i < |s|
        invariant Reached(tree, s, p, i) && h == Sub(tree, p).ptr && h in mem && Fits(mem[h], Sub(tree, p))
        invariant plink == LinkOf(tree, p) && ts == StackOf(tree, p) && splitpos == 0
        decreases |s| - i
      {
        SubFacts(mem, tree, p);
        var n := mem[h];
        var j;
        if n.iscompr {
          j := MatchRun(n.data, s, i);
          i := i + j;
          if j != |n.data| {
            splitpos := j;
            break;
          }
          j := 0;
        } else {
          j := FindByte(n.data, s[i]);
          if j == |n.data| { break; }
          i := i + 1;
        }
        KidThere(mem, tree, p, j);
        ReachedKid(tree, s, p, i - |Edge(Sub(tree, p), j)|, j, i);
        LinkStep(tree, p, j);
        StackStep(tree, p, j);
        ts := ts + [h];
        h, plink := n.kids[j], Slot(h, j);
        p := p + [j];
      }
      SubFacts(mem, tree, p);
    }

    /** The value stored for s, if it is a key. */
    method Find(s: Str) returns (r: Option<nat>)
      requires Valid()
      ensures r == if s in content then Some(content[s]) else None
    {
      var i, h, plink, splitpos, ts;
      ghost var p;
      i, h, plink, splitpos, ts, p := LowWalk(s);
      StoppedLookup(tree, s, p, i, splitpos);
      if i != |s| || (mem[h].iscompr && splitpos != 0) || !mem[h].iskey {
        return None;
      }
      return Some(mem[h].value);
    }

    // ----------------------------------------------------------------
    // Insertion
    // ----------------------------------------------------------------

    method SetData(h: Ptr, data: nat)
      requires h in mem
      modifies this`mem
      ensures mem == old(mem)[h := old(mem)[h].(iskey := true, value := data)] && |mem| == |old(mem)|
    {
      WithSize(mem, h, mem[h].(iskey := true, value := data));
      mem := mem[h := mem[h].(iskey := true, value := data)];
    }

    /** Makes the node at path p, wherever it is moved to, a key with a value. */
    method StoreData(h: Ptr, plink: Link, data: nat, ghost p: seq<nat>) returns (ghost at: Ptr)
      requires Tidy(mem, tree) && head == tree.ptr
      requires HasPath(tree, p) && Sub(tree, p).T? && h == Sub(tree, p).ptr && plink == LinkOf(tree, p)
      modifies this`mem, this`head, this`tree
      ensures Tidy(mem, tree) && head == tree.ptr && |mem| == |old(mem)|
      ensures tree == Replace(old(tree), p, WithKey(Sub(old(tree), p), at, data))
    {
      hide Tidy, HasPath, Uses, LinkOf, Ascending, One, Shape, UsesAll, Rep, Replace;
      ghost var n, mem0 := Sub(tree, p), mem;
      SubFacts(mem, tree, p);
      var q := h;
      // No room is needed for the null pointer, nor for a value that replaces another one
      if data != 0 && (!mem[h].iskey || mem[h].value == 0) {
        q := Realloc(h);
        SetLink(plink, q);
      }
      ghost var m := RaxNode(true, data, mem0[h].iscompr, mem0[h].data, mem0[h].kids);
      MoveKeepsNode(mem0, tree, p, q, mem0[h]);
      SetData(q, data);
      if data != 0 && (!mem0[h].iskey || mem0[h].value == 0) {
        MovedRebuilt(mem0, mem, tree, p, q, mem0[h], m);
      } else {
        KeptRebuilt(mem0, tree, p, m);
      }
      WithKeyLookup(n, q, data);
      NodeRewritten(mem0, mem, tree, p, WithKey(n, q, data));
      HeadMoved(tree, p, WithKey(n, q, data));
      tree, at := Replace(tree, p, WithKey(n, q, data)), q;
    }

    /** A node reallocated and rewritten, and its link set anew. */
    method RewriteNode(h: Ptr, plink: Link, m: RaxNode) returns (q: Ptr)
      requires h in mem
      modifies this`mem, this`head
      ensures (q == h || q !in old(mem)) && mem == LinkMem(Without(old(mem), h)[q := m], plink, q)
      ensures |mem| == |old(mem)| && head == if plink.Head? then q else old(head)
    {
      hide Without;
      q := Realloc(h);
      WithSize(mem, q, m);
      mem := mem[q := m];
      SetLink(plink, q);
    }

    /** Index of the first edge byte greater than c. */
    method PlaceOf(data: Str, c: byte) returns (pos: nat)
      requires Ascending(data) && c !in data
      ensures IsPlace(data, c, pos)
    {
      pos := 0;
      while pos < |data|
        invariant 0 <= pos <= |data| && forall i :: 0 <= i < pos ==> data[i] < c
      {
        if data[pos] > c { break; }
        pos := pos + 1;
      }
    }

    /** Adds an edge for byte c, with a new child, to a node that is not compressed. */
    method AddChild(h: Ptr, plink: Link, c: byte, ghost p: seq<nat>) returns (child: Ptr, childlink: Link,
          ghost q: Ptr, ghost at: nat)
      requires Tidy(mem, tree) && head == tree.ptr && HasPath(tree, p) && Sub(tree, p).T? && h == Sub(tree, p).ptr
      requires plink == LinkOf(tree, p) && !Sub(tree, p).iscompr && c !in Sub(tree, p).data
      modifies this`mem, this`head, this`tree
      ensures Tidy(mem, tree) && head == tree.ptr && |mem| == |old(mem)| + 1 && childlink == Slot(q, at)
      ensures |Sub(old(tree), p).data| == |Sub(old(tree), p).kids| && IsPlace(Sub(old(tree), p).data, c, at)
      ensures tree == Replace(old(tree), p, WithChild(Sub(old(tree), p), q, c, at, Leaf(child)))
    {
      ghost var n, mem0 := Sub(tree, p), mem;
      SubFacts(mem, tree, p);
      child := Alloc(LEAF);
      var node := mem[h];
      var pos := PlaceOf(node.data, c);
      var m := node.(data := InsertAt(node.data, pos, c), kids := InsertAt(node.kids, pos, child));
      var newn := RewriteNode(h, plink, m);
      GrownRebuilt(mem0, mem, tree, p, newn, m, child, LEAF);
      ChildAdded(mem0, mem, tree, p, newn, c, pos, child, node);
      HeadMoved(tree, p, WithChild(n, newn, c, pos, Leaf(child)));
      tree, q, at := Replace(tree, p, WithChild(n, newn, c, pos, Leaf(child))), newn, pos;
      childlink := Slot(newn, pos);
    }

    /** Turns a node without children into a compressed one with a new child. */
    method CompressNode(h: Ptr, plink: Link, str: Str, ghost p: seq<nat>) returns (child: Ptr, childlink: Link,
          ghost q: Ptr)
      requires Tidy(mem, tree) && head == tree.ptr && HasPath(tree, p) && Sub(tree, p).T? && h == Sub(tree, p).ptr
      requires plink == LinkOf(tree, p) && Sub(tree, p).kids == [] && |str| >= 2
      modifies this`mem, this`head, this`tree
      ensures Tidy(mem, tree) && head == tree.ptr && |mem| == |old(mem)| + 1 && childlink == Slot(q, 0)
      ensures tree == Replace(old(tree), p, Chain(Sub(old(tree), p), q, str, Leaf(child)))
    {
      ghost var n, mem0 := Sub(tree, p), mem;
      SubFacts(mem, tree, p);
      child := Alloc(LEAF);
      var m := mem[h].(iscompr := true, data := str, kids := [child]);
      var newn := RewriteNode(h, plink, m);
      GrownRebuilt(mem0, mem, tree, p, newn, m, child, LEAF);
      ChainAdded(mem0, mem, tree, p, newn, str, child);
      HeadMoved(tree, p, Chain(n, newn, str, Leaf(child)));
      tree, q := Replace(tree, p, Chain(n, newn, str, Leaf(child))), newn;
      childlink := Slot(newn, 0);
    }

    /** One more node for the rest of the string: a compressed one when a chain of
        single children would result. */
    method InsertStep(s: Str, i: nat, h: Ptr, plink: Link, ghost p: seq<nat>)
      returns (i': nat, child: Ptr, childlink: Link, ghost p': seq<nat>)
      requires Stands() && Growing(tree, content, s, p, i) && i < |s| && h == Sub(tree, p).ptr &&
        plink == LinkOf(tree, p)
      requires Narrow(tree, NODE_MAX_SIZE)
      modifies this`mem, this`head, this`tree, this`numnodes
      ensures Narrow(tree, NODE_MAX_SIZE)
      ensures Stands() && i < i' && Growing(tree, content, s, p', i') && child == Sub(tree, p').ptr &&
        childlink == LinkOf(tree, p')
      ensures Sub(tree, p') == Leaf(child) && numnodes == old(numnodes) + 1
      ensures RestNodes(Sub(old(tree), p).data, |s| - i, NODE_MAX_SIZE) == 1 + RestNodes([], |s| - i', NODE_MAX_SIZE)
      ensures Roomy(old(tree), p) ==> (TightBut(tree, p') <==> TightBut(old(tree), p))
      ensures i' < |s| <= NODE_MAX_SIZE && Roomy(old(tree), p) ==> Roomy(tree, p')
    {
      hide Prefix, One, Uses, Lookup, Sub, KeyedBut, Keyed, HasPath, TightBut, Roomy, RestNodes, Tidy, Shape,
        BelowPassing, UsesAll, LinkOf, WithChild, InsertAt, Ascending, Rep, Denotes, Edge;
      ghost var tree0, q := tree, 0;
      SubFacts(mem, tree, p);
      NarrowSub(tree, p, NODE_MAX_SIZE);
      RestStep(Sub(tree, p).data, |s| - i, NODE_MAX_SIZE);
      if |mem[h].data| == 0 && |s| - i > 1 {
        var comprsize := |s| - i;
        if comprsize > NODE_MAX_SIZE {
          comprsize := NODE_MAX_SIZE;
        }
        child, childlink, q := CompressNode(h, plink, s[i..i + comprsize], p);
        i', p' := i + comprsize, p + [0];
        GrowChain(tree0, content, s, p, i, q, i', child, tree, p');
        NarrowReplace(tree0, p, Chain(Sub(tree0, p), q, s[i..i + comprsize], Leaf(child)), NODE_MAX_SIZE);
        if Roomy(tree0, p) { ChainTight(tree0, p, q, s[i..i + comprsize], child); }
      } else {
        ghost var pos;
        child, childlink, q, pos := AddChild(h, plink, s[i], p);
        i', p' := i + 1, p + [pos];
        GrowChild(tree0, content, s, p, i, q, pos, child, tree, p');
        NarrowChild(Sub(tree0, p), q, s[i], pos, Leaf(child), NODE_MAX_SIZE);
        NarrowReplace(tree0, p, WithChild(Sub(tree0, p), q, s[i], pos, Leaf(child)), NODE_MAX_SIZE);
        if Roomy(tree0, p) { ChildTight(tree0, p, q, s[i], pos, child); }
      }
      numnodes := numnodes + 1;
    }

    /** The rest of the string gets nodes of its own, from the node at path p0 on. */
    method InsertRest(s: Str, i0: nat, h0: Ptr, plink0: Link, ghost p0: seq<nat>)
      returns (h: Ptr, plink: Link, ghost p: seq<nat>)
      requires Stands() && Growing(tree, content, s, p0, i0) && h0 == Sub(tree, p0).ptr && plink0 == LinkOf(tree, p0)
      requires Narrow(tree, NODE_MAX_SIZE)
      modifies this`mem, this`head, this`tree, this`numnodes
      ensures Narrow(tree, NODE_MAX_SIZE)
      ensures Stands() && Growing(tree, content, s, p, |s|) && h == Sub(tree, p).ptr && plink == LinkOf(tree, p)
      ensures i0 < |s| ==> Sub(tree, p) == Leaf(h)
      ensures numnodes == old(numnodes) + RestNodes(Sub(old(tree), p0).data, |s| - i0, NODE_MAX_SIZE)
      ensures |s| <= NODE_MAX_SIZE && Roomy(old(tree), p0) ==> (TightBut(tree, p) <==> TightBut(old(tree), p0))
    {
      hide TightBut, Roomy;
      h, plink, p := h0, plink0, p0;
      var i := i0;
      while i < |s|
        invariant Stands() && Growing(tree, content, s, p, i) && h == Sub(tree, p).ptr && plink == LinkOf(tree, p)
        invariant (i0 < i ==> Sub(tree, p) == Leaf(h)) && Narrow(tree, NODE_MAX_SIZE) && i0 <= i
        invariant numnodes + RestNodes(Sub(tree, p).data, |s| - i, NODE_MAX_SIZE) ==
          old(numnodes) + RestNodes(Sub(old(tree), p0).data, |s| - i0, NODE_MAX_SIZE)
        invariant |s| <= NODE_MAX_SIZE && Roomy(old(tree), p0) ==>
          (TightBut(tree, p) <==> TightBut(old(tree), p0)) && (i < |s| ==> Roomy(tree, p))
      {
        i, h, plink, p := InsertStep(s, i, h, plink, p);
      }
    }

    /** What follows the byte at which a compressed node is split: a new node, or
        the old child when nothing follows. */
    method BuildPostfix(node: RaxNode, j: nat) returns (postfix: Ptr)
      requires |node.kids| == 1 && j < |node.data|
      modifies this`mem, this`numnodes
      ensures j + 1 == |node.data| ==> mem == old(mem) && numnodes == old(numnodes) && postfix == node.kids[0]
      ensures j + 1 < |node.data| ==>
        postfix !in old(mem) && |mem| == |old(mem)| + 1 && numnodes == old(numnodes) + 1 &&
        mem == old(mem)[postfix := RaxNode(false, 0, |node.data| - j - 1 > 1, node.data[j + 1..], node.kids)]
    {
      var postfixlen := |node.data| - j - 1;
      if postfixlen > 0 {
        postfix := Alloc(RaxNode(false, 0, postfixlen > 1, node.data[j + 1..], node.kids));
        numnodes := numnodes + 1;
      } else {
        postfix := node.kids[0];
      }
    }

    /** The split node, and the trimmed node above it unless the split is at byte 0. */
    method BuildSplit(node: RaxNode, j: nat, postfix: Ptr) returns (split: Ptr, top: Ptr)
      requires j < |node.data|
      modifies this`mem, this`numnodes
      ensures split !in old(mem) && top !in old(mem) && (j == 0 <==> top == split)
      ensures var sn := RaxNode(j == 0 && node.iskey, node.value, false, [node.data[j]], [postfix]);
        mem == if j == 0 then old(mem)[split := sn]
          else old(mem)[split := sn][top := RaxNode(node.iskey, node.value, j > 1, node.data[..j], [split])]
      ensures |mem| == |old(mem)| + (if j == 0 then 1 else 2) && numnodes == old(numnodes) + (if j == 0 then 0 else 1)
    {
      split := Alloc(RaxNode(j == 0 && node.iskey, node.value, false, [node.data[j]], [postfix]));
      top := split;
      if j != 0 {
        top := Alloc(RaxNode(node.iskey, node.value, j > 1, node.data[..j], [split]));
        numnodes := numnodes + 1;
      }
    }

    /** The new nodes for a compressed node to be taken apart. */
    method BuildApart(node: RaxNode, j: nat, ghost n: Tree) returns (split: Ptr, top: Ptr, ghost trimmed: Ptr,
          ghost postfix: Ptr)
      requires n.T? && n.iscompr && |n.kids| == 1 && j < |n.data| && Fits(node, n)
      modifies this`mem, this`numnodes
      ensures trimmed != split && trimmed != postfix && split != postfix && top == if j == 0 then split else trimmed
      ensures Extends(old(mem), mem, ApartNodes(n, j, trimmed, split, postfix))
      ensures ApartBuilt(mem, n, node, j, trimmed, split, postfix)
      ensures |mem| - |old(mem)| == numnodes - old(numnodes) + 1
      ensures numnodes == old(numnodes) + One(j > 0) + One(j + 1 < |n.data|)
    {
      ghost var mem0 := mem;
      var post := BuildPostfix(node, j);
      ghost var memA := mem;
      split, top := BuildSplit(node, j, post);
      trimmed, postfix := ApartNames(mem0, memA, n, j, top, split, post);
      BuiltApart(mem0, memA, mem, n, node, j, trimmed, split, postfix);
    }

    /** Algorithm 1: takes the compressed node at path p apart at byte j, where the
        string to be inserted differs. The map stays as it is. */
    method SplitMismatch(h: Ptr, plink: Link, j: nat, ghost p: seq<nat>)
      returns (split: Ptr, splitlink: Link, ghost trimmed: Ptr, ghost postfix: Ptr)
      requires Tidy(mem, tree) && head == tree.ptr && numnodes == |mem|
      requires HasPath(tree, p) && Sub(tree, p).T? && h == Sub(tree, p).ptr && plink == LinkOf(tree, p)
      requires Sub(tree, p).iscompr && j < |Sub(tree, p).data| && Shape(Sub(tree, p))
      modifies this`mem, this`head, this`tree, this`numnodes
      ensures Tidy(mem, tree) && head == tree.ptr && numnodes == |mem|
      ensures tree == Replace(old(tree), p, Apart(Sub(old(tree), p), j, trimmed, split, postfix))
      ensures splitlink == if j == 0 then plink else Slot(trimmed, 0)
      ensures numnodes == old(numnodes) + One(j > 0) + One(j + 1 < |Sub(old(tree), p).data|)
    {
      ghost var n, mem0 := Sub(tree, p), mem;
      SubFacts(mem, tree, p);
      var node := mem[h];
      var top;
      split, top, trimmed, postfix := BuildApart(node, j, n);
      ghost var mem1 := mem;
      ExtendsHas(mem0, mem1, ApartNodes(n, j, trimmed, split, postfix), h);
      SetLink(plink, top);
      FreeNode(h);
      ApartWhole(mem0, mem1, mem, tree, p, node, j, top, trimmed, split, postfix);
      HeadMoved(tree, p, Apart(n, j, trimmed, split, postfix));
      tree := Replace(tree, p, Apart(n, j, trimmed, split, postfix));
      splitlink := if j == 0 then plink else Slot(top, 0);
    }

    /** Algorithm 2: breaks the compressed node at path p before byte j, where the
        string to be inserted ends, and makes the lower part a key. */
    method SplitInside(h: Ptr, plink: Link, j: nat, data: nat, ghost p: seq<nat>) returns (ghost trimmed: Ptr,
          ghost postfix: Ptr)
      requires Tidy(mem, tree) && head == tree.ptr && numnodes == |mem|
      requires HasPath(tree, p) && Sub(tree, p).T? && h == Sub(tree, p).ptr && plink == LinkOf(tree, p)
      requires Sub(tree, p).iscompr && 1 <= j < |Sub(tree, p).data| && Shape(Sub(tree, p))
      modifies this`mem, this`head, this`tree, this`numnodes
      ensures Tidy(mem, tree) && head == tree.ptr && numnodes == |mem|
      ensures tree == Replace(old(tree), p, Broken(Sub(old(tree), p), j, trimmed, postfix, true, data))
      ensures numnodes == old(numnodes) + 1
    {
      hide One, Tidy, Shape, Uses, Ascending, UsesAll, HasPath, LinkOf, Replace, Rep, Sub;
      ghost var n, mem0 := Sub(tree, p), mem;
      SubFacts(mem, tree, p);
      var node := mem[h];
      assert node.kids == [n.kids[0].ptr];
      var low := Alloc(RaxNode(true, data, |node.data| - j > 1, node.data[j..], node.kids));
      var top := Alloc(RaxNode(node.iskey, node.value, j > 1, node.data[..j], [low]));
      numnodes := numnodes + 1;
      ghost var mem1 := mem;
      ExtendsHas(mem0, mem1, {top, low}, h);
      SetLink(plink, top);
      FreeNode(h);
      BrokenWhole(mem0, mem1, mem, tree, p, node, j, top, low, data);
      HeadMoved(tree, p, Broken(n, j, top, low, true, data));
      tree, trimmed, postfix := Replace(tree, p, Broken(n, j, top, low, true, data)), top, low;
    }

    /** Stores a value at the node at path p, and counts it if it was not a key. */
    method StoreKey(s: Str, h: Ptr, plink: Link, data: nat, ghost p: seq<nat>) returns (isnew: bool, prev: nat)
      requires Stands() && tree.T? && HasPath(tree, p) && Sub(tree, p).T? && KeyedBut(tree, p) && Prefix(tree, p) == s
      requires h == Sub(tree, p).ptr && plink == LinkOf(tree, p) && Narrow(tree, NODE_MAX_SIZE)
      modifies this`mem, this`head, this`tree, this`content, this`numele
      ensures Valid() && content == old(content)[s := data]
      ensures isnew == (s !in old(content)) && (!isnew ==> prev == old(content)[s])
      ensures Tight(tree) <==> TightBut(old(tree), p)
    {
      hide Rep, Denotes, Lookup, HasPath, Keyed, Tight, TightBut;
      SubFacts(mem, tree, p);
      isnew, prev := !mem[h].iskey, mem[h].value;
      StoreMeans(tree, content, p, 0, data);
      ghost var tree0 := tree;
      ghost var q := StoreData(h, plink, data, p);
      StoreMeans(tree0, content, p, q, data);
      NarrowSub(tree0, p, NODE_MAX_SIZE);
      NarrowReplace(tree0, p, WithKey(Sub(tree0, p), q, data), NODE_MAX_SIZE);
      KeyTight(tree0, p, q, data);
      MapSize(content, s, data);
      if isnew {
        numele := numele + 1;
      }
      content := content[s := data];
    }

    /** Inserts a string, or overwrites its value and returns the previous one. */
    method Insert(s: Str, data: nat) returns (isnew: bool, prev: nat)
      requires Valid()
      modifies this
      ensures Valid() && content == old(content)[s := data]
      ensures isnew == (s !in old(content)) && (!isnew ==> prev == old(content)[s])
      ensures StopOf(old(tree), s).node.T? && numnodes == old(numnodes) + NewNodes(StopOf(old(tree), s), NODE_MAX_SIZE)
      ensures |s| <= NODE_MAX_SIZE && Tight(old(tree)) ==>
        (Tight(tree) <==>
          StopOf(old(tree), s).rest == [] || !Awkward(StopOf(old(tree), s).node, StopOf(old(tree), s).j))
    {
      hide Tight, TightBut, Roomy, Awkward, Tidy, KeyedBut, Shape, Prefix, Keyed, Narrow;
      var i, h, plink, splitpos, ts;
      ghost var p;
      i, h, plink, splitpos, ts, p := LowWalk(s);
      StoppedAt(tree, s, p, i, splitpos);
      StoppedLookup(tree, s, p, i, splitpos);
      TightAt(tree, p);
      if i == |s| && (!mem[h].iscompr || splitpos == 0) {
        KeyedAt(tree, p);
        assert s[..i] == s;
        isnew, prev := StoreKey(s, h, plink, data, p);
        return;
      }
      if mem[h].iscompr && i == |s| {
        InsertInside(s, h, plink, splitpos, data, p);
        return true, 0;
      }
      if mem[h].iscompr {
        h, plink, p := GrowApart(s, i, h, plink, splitpos, p);
      } else {
        KeyedAt(tree, p);
        StoppedRoomy(tree, p);
        CannotBeAwkward(Sub(tree, p), splitpos);
      }
      h, plink, p := InsertRest(s, i, h, plink, p);
      assert s[..|s|] == s;
      isnew, prev := StoreKey(s, h, plink, data, p);
      return true, 0;
    }

    method InsertInside(s: Str, h: Ptr, plink: Link, j: nat, data: nat, ghost p: seq<nat>)
      requires Valid() && Stopped(tree, s, p, |s|, j) && Sub(tree, p).iscompr && j > 0
      requires h == Sub(tree, p).ptr && plink == LinkOf(tree, p)
      modifies this
      ensures Valid() && content == old(content)[s := data] && s !in old(content) && numnodes == old(numnodes) + 1
      ensures Tight(old(tree)) ==> Tight(tree)
    {
      hide Tight, Denotes, LinkOf;
      SubFacts(mem, tree, p);
      ghost var tree0 := tree;
      ghost var a, b := SplitInside(h, plink, j, data, p);
      BrokenMeans(tree0, content, s, p, j, a, b, data);
      if Tight(tree0) { BrokenTight(tree0, p, j, a, b, data); }
      NarrowSub(tree0, p, NODE_MAX_SIZE);
      NarrowBroken(Sub(tree0, p), j, a, b, true, data, NODE_MAX_SIZE);
      NarrowReplace(tree0, p, Broken(Sub(tree0, p), j, a, b, true, data), NODE_MAX_SIZE);
      MapSize(content, s, data);
      numele := numele + 1;
      content := content[s := data];
    }

    method GrowApart(s: Str, i: nat, h: Ptr, plink: Link, j: nat, ghost p: seq<nat>)
      returns (split: Ptr, splitlink: Link, ghost p': seq<nat>)
      requires Valid() && Stopped(tree, s, p, i, j) && Sub(tree, p).iscompr && i < |s|
      requires h == Sub(tree, p).ptr && plink == LinkOf(tree, p)
      modifies this`mem, this`head, this`tree, this`numnodes
      ensures Stands() && tree.T? && Growing(tree, content, s, p', i) && split == Sub(tree, p').ptr &&
        splitlink == LinkOf(tree, p')
      ensures Narrow(tree, NODE_MAX_SIZE) && |Sub(tree, p').data| == 1 && Roomy(tree, p')
      ensures numnodes == old(numnodes) + One(j > 0) + One(j + 1 < |Sub(old(tree), p).data|)
      ensures Tight(old(tree)) ==> (TightBut(tree, p') <==> !Awkward(Sub(old(tree), p), j))
    {
      hide Tight, TightBut, Awkward;
      SubFacts(mem, tree, p);
      ghost var tree0 := tree;
      ghost var trimmed, postfix;
      split, splitlink, trimmed, postfix := SplitMismatch(h, plink, j, p);
      p' := if j == 0 then p else p + [0];
      ApartTight(tree0, p, j, trimmed, split, postfix, tree, p');
      ApartGrowing(tree0, content, s, p, i, j, trimmed, split, postfix, tree, p');
      NarrowSub(tree0, p, NODE_MAX_SIZE);
      NarrowApart(Sub(tree0, p), j, trimmed, split, postfix, NODE_MAX_SIZE);
      NarrowReplace(tree0, p, Apart(Sub(tree0, p), j, trimmed, split, postfix), NODE_MAX_SIZE);
    }

    // ----------------------------------------------------------------
    // Removal
    // ----------------------------------------------------------------

    /** The key at path p is no key any more. */
    method ClearKey(h: Ptr, ghost p: seq<nat>)
      requires Stands() && tree.T? && KeyedBut(tree, []) && HasPath(tree, p) && Sub(tree, p).T? && h == Sub(tree, p).ptr
      requires Sub(tree, p).iskey
      modifies this`mem, this`tree, this`content, this`numele
      ensures Stands() && content == old(content) - {Prefix(old(tree), p)} && tree.T? && HasPath(tree, p)
      ensures Sub(tree, p) == WithoutKey(Sub(old(tree), p)) && StackOf(tree, p) == StackOf(old(tree), p)
      ensures if Sub(tree, p).kids == [] then Dying(tree, p, content) else KeyedBut(tree, [])
      ensures Tight(old(tree)) ==> TightBut(tree, p)
      ensures Tight(old(tree)) && |Sub(tree, p).data| > 1 ==> (Tight(tree) <==> !RoughAt(old(tree), p))
    {
      hide Lookup, Denotes, Rep, Replace, Uses, Ascending, Shape, Tight, TightBut, RoughAt;
      ghost var n, s := Sub(tree, p), WithoutKey(Sub(tree, p));
      SubFacts(mem, tree, p);
      var m := mem[h].(iskey := false);
      WithSize(mem, h, m);
      KeptRebuilt(mem, tree, p, m);
      ghost var mem0 := mem;
      mem := mem[h := m];
      WithoutKeyLookup(n);
      NodeRewritten(mem0, mem, tree, p, s);
      ghost var r, rest := Replace(tree, p, s), content - {Prefix(tree, p)};
      ClearMeans(tree, content, p, r, rest);
      if Tight(tree) { ClearTight(tree, p); }
      tree, content := r, rest;
      numele := numele - 1;
    }

    /** Frees the dead node at path p0 and, going up, every parent that dies with it.
        Stops with a child that has been freed but is still linked; without one
        when the dead node is the head, which stays. */
    method Reclaim(h0: Ptr, ts0: seq<Ptr>, ghost p0: seq<nat>)
      returns (h: Ptr, ts: seq<Ptr>, child: Option<Ptr>, ghost p: seq<nat>, ghost j: nat)
      requires Tidy(mem, tree) && head == tree.ptr && numnodes == |mem| && Dying(tree, p0, content)
      requires h0 == Sub(tree, p0).ptr && ts0 == StackOf(tree, p0)
      modifies this`mem, this`tree, this`numnodes
      ensures Tidy(mem, tree) && head == tree.ptr && numnodes == |mem|
      ensures HasPath(tree, p) && h == Sub(tree, p).ptr && ts == StackOf(tree, p)
      ensures child.None? ==> p0 == [] && tree == old(tree)
      ensures child.Some? ==>
        Hanging(tree, p, j, content) && Sub(tree, p).kids[j] == Gone(child.value) && child.value !in mem
      ensures child.Some? ==> p == [] || Sub(tree, p).iskey || |Sub(tree, p).kids| > 1
      ensures TightBut(old(tree), p0) ==> TightBut(tree, p)
    {
      hide Rep, Denotes, Shape, Tidy, Keyed, StackOf, HasPath, TightBut, Replace;
      h, ts, child, p, j := h0, ts0, None, p0, 0;
      RootApart(mem, tree, p);
      while h != head
        invariant Tidy(mem, tree) && head == tree.ptr && numnodes == |mem|
        invariant Dying(tree, p, content) && h == Sub(tree, p).ptr && ts == StackOf(tree, p)
        invariant h == head <==> p == []
        invariant child.None? ==> tree == old(tree) && p == p0
        invariant TightBut(old(tree), p0) ==> TightBut(tree, p)
        invariant child.Some? ==>
          Hanging(tree, p, j, content) && Sub(tree, p).kids[j] == Gone(child.value) && child.value !in mem
        decreases |p|
      {
        ghost var q;
        q, j := LastStep(tree, p);
        ghost var r := Replace(tree, p, Gone(h));
        DieWhole(mem, tree, content, p, q, j, r);
        child := Some(h);
        FreeNode(h);
        numnodes := numnodes - 1;
        h, ts := ts[|ts| - 1], ts[..|ts| - 1];
        tree, p := r, q;
        SubFacts(mem, tree, p);
        RootApart(mem, tree, p);
        if mem[h].iskey || (!mem[h].iscompr && |mem[h].data| != 1) { break; }
      }
    }

    /** The slot of a node that holds a child's address. */
    method FindParentLink(parent: Ptr, child: Ptr) returns (l: Link)
      requires parent in mem && child in mem[parent].kids
      ensures l.Slot? && l.node == parent && l.index < |mem[parent].kids| && mem[parent].kids[l.index] == child
    {
      var i := 0;
      while mem[parent].kids[i] != child
        invariant i < |mem[parent].kids| && forall x :: 0 <= x < i ==> mem[parent].kids[x] != child
        decreases |mem[parent].kids| - i
      {
        i := i + 1;
      }
      l := Slot(parent, i);
    }

    /** The link to the node at path p, found by way of its parent. */
    method LinkTo(h: Ptr, ts: seq<Ptr>, ghost p: seq<nat>) returns (l: Link)
      requires Tidy(mem, tree) && HasPath(tree, p) && Sub(tree, p).T? && KeyedUpTo(tree, p)
      requires h == Sub(tree, p).ptr && ts == StackOf(tree, p)
      ensures l == LinkOf(tree, p)
    {
      if |ts| == 0 {
        return Link.Head;
      }
      ParentHas(mem, tree, p);
      l := FindParentLink(ts[|ts| - 1], h);
      FoundLink(mem, tree, p, l.node, l.index);
    }

    /** Unlinks a child that has been freed; the node may move, and its link with it. */
    method RemoveChild(h: Ptr, child: Ptr, ts: seq<Ptr>, ghost p: seq<nat>, ghost j: nat) returns (newh: Ptr)
      requires Tidy(mem, tree) && head == tree.ptr && numnodes == |mem| && Hanging(tree, p, j, content)
      requires Sub(tree, p).kids[j] == Gone(child) && child !in mem && h == Sub(tree, p).ptr && ts == StackOf(tree, p)
      requires Shape(Sub(tree, p))
      modifies this`mem, this`head, this`tree
      ensures Tidy(mem, tree) && head == tree.ptr && numnodes == |mem|
      ensures tree == Replace(old(tree), p, Moved(WithoutChild(Sub(old(tree), p), j), newh))
    {
      hide Uses, Rep, Tidy, Ascending;
      ghost var n, mem0 := Sub(tree, p), mem;
      SubFacts(mem, tree, p);
      var node := mem[h];
      var link := LinkTo(h, ts, p);
      newh := h;
      var m;
      if node.iscompr {
        m := UnlinkNode(node, 0);
        WithSize(mem, h, m);
        mem := mem[h := m];
        KeptRebuilt(mem0, tree, p, m);
      } else {
        var l := FindParentLink(h, child);
        GoneIndex(mem, tree, p, j, content, l.index);
        m := UnlinkNode(node, l.index);
        newh := RewriteNode(h, link, m);
        MoveKeepsNode(mem0, tree, p, newh, m);
        MovedRebuilt(mem0, mem, tree, p, newh, m, m);
      }
      UnlinkFits(node, n, j, newh);
      UnlinkTree(mem0, mem, tree, p, j, newh);
      HeadMoved(tree, p, Moved(WithoutChild(n, j), newh));
      tree := Replace(tree, p, Moved(WithoutChild(n, j), newh));
    }

    /** Number of nodes and of edge bytes of the chain that starts at h, as far as they fit a node. */
    method ScanChain(start: Ptr, ghost u: Tree) returns (nodes: nat, comprsize: nat)
      requires Chained(mem, u) && start == u.ptr && |u.data| <= NODE_MAX_SIZE
      ensures comprsize == Counted(ChainSizes(u), 0, NODE_MAX_SIZE)
      ensures |ChainData(u)| <= NODE_MAX_SIZE ==> comprsize == |ChainData(u)| && nodes == ChainLen(u)
    {
      var h := start;
      ghost var w := u;
      ChainedKid(mem, w);
      CountedMore(w, 0, NODE_MAX_SIZE);
      nodes, comprsize := 1, |mem[h].data|;
      while |mem[h].data| != 0
        invariant Chained(mem, w) && h == w.ptr && h in mem && Fits(mem[h], w)
        invariant nodes + ChainLen(w) == ChainLen(u) + 1 && comprsize + |ChainData(w)| == |ChainData(u)| + |w.data|
        invariant Counted(ChainSizes(u), 0, NODE_MAX_SIZE) == Counted(ChainSizes(w.kids[0]), comprsize, NODE_MAX_SIZE)
        decreases w
      {
        ChainedKid(mem, w);
        h, w := mem[h].kids[0], w.kids[0];
        if Passing(w) { CountedMore(w, comprsize, NODE_MAX_SIZE); }
        if mem[h].iskey || (!mem[h].iscompr && |mem[h].data| != 1) { break; }
        // Stop here if the compressed node would be larger than its size field can hold
        if comprsize + |mem[h].data| > NODE_MAX_SIZE { break; }
        nodes := nodes + 1;
        comprsize := comprsize + |mem[h].data|;
      }
    }

    /** Collects the edge bytes of the chain and frees its nodes. */
    method TakeChain(start: Ptr, ghost u: Tree) returns (data: Str, h: Ptr)
      requires Chained(mem, u) && start == u.ptr && numnodes >= |mem|
      modifies this`mem, this`numnodes
      ensures data == ChainData(u) && h == ChainTail(u).ptr && mem == Minus(old(mem), ChainNodes(u))
      ensures numnodes - |mem| == old(numnodes) - |old(mem)|
    {
      hide Ascending;
      data, h := [], start;
      ghost var w, mem0, freed: set<Ptr> := u, mem, {};
      ChainedKid(mem, w);
      while |mem[h].data| != 0
        invariant Chained(mem, w) && h == w.ptr && h in mem && Fits(mem[h], w)
        invariant data + ChainData(w) == ChainData(u) && ChainTail(w) == ChainTail(u)
        invariant freed + ChainNodes(w) == ChainNodes(u) && mem == Minus(mem0, freed)
        invariant numnodes - |mem| == old(numnodes) - |old(mem)| && numnodes >= |mem|
        decreases w
      {
        ChainedKid(mem, w);
        data := data + mem[h].data;
        var tofree := h;
        h := mem[h].kids[0];
        ghost var memA := mem;
        FreeNode(tofree);
        numnodes := numnodes - 1;
        TakeStep(mem0, memA, mem, w, freed);
        freed, w := freed + {tofree}, w.kids[0];
        if mem[h].iskey || (!mem[h].iscompr && |mem[h].data| != 1) { break; }
      }
    }

    /** One compressed node for the nodes of a chain, in memory. */
    method MergeNodes(start: Ptr, link: Link, ghost u: Tree) returns (q: Ptr)
      requires Chained(mem, u) && start == u.ptr && numnodes == |mem|
      modifies this`mem, this`head, this`numnodes
      ensures numnodes == |mem| && q !in old(mem) && head == if link.Head? then q else old(head)
      ensures mem == LinkMem(Minus(old(mem)[q := BLANK], ChainNodes(u))[q := MergedNode(u)], link, q)
    {
      q := Alloc(BLANK);
      numnodes := numnodes + 1;
      ChainedWith(old(mem), q, BLANK, u);
      var data, h := TakeChain(start, u);
      var m := RaxNode(false, 0, true, data, [h]);
      MinusWith(old(mem), ChainNodes(u), q, BLANK, m);
      WithSize(mem, q, m);
      mem := mem[q := m];
      SetLink(link, q);
    }

    /** Replaces the chain that starts at path p by one compressed node. */
    method MergeChain(start: Ptr, link: Link, ghost p: seq<nat>)
      requires Stands() && tree.T? && KeyedBut(tree, []) && HasPath(tree, p) && Chained(mem, Sub(tree, p))
      requires start == Sub(tree, p).ptr && link == LinkOf(tree, p) && |ChainData(Sub(tree, p))| >= 2
      modifies this`mem, this`head, this`tree, this`numnodes
      ensures Stands() && tree.T? && KeyedBut(tree, [])
      ensures TightAround(old(tree), p) && !BelowPassing(old(tree), p) ==> Tight(tree)
    {
      ghost var u, mem0 := Sub(tree, p), mem;
      var q := MergeNodes(start, link, u);
      ghost var r := Replace(tree, p, Merged(u, q));
      MergeWhole(mem0, mem, tree, p, q, content, r);
      if TightAround(tree, p) && !BelowPassing(tree, p) { MergeTight(tree, p, q); }
      tree := r;
    }

    /** The topmost node above path p0 from where there is a chain down to it. */
    method SeekStart(h0: Ptr, ts0: seq<Ptr>, ghost p0: seq<nat>) returns (h: Ptr, ts: seq<Ptr>, ghost p: seq<nat>)
      requires Tidy(mem, tree) && tree.T? && HasPath(tree, p0) && Passing(Sub(tree, p0))
      requires h0 == Sub(tree, p0).ptr && ts0 == StackOf(tree, p0)
      ensures HasPath(tree, p) && Passing(Sub(tree, p)) && h == Sub(tree, p).ptr && ts == StackOf(tree, p)
      ensures !BelowPassing(tree, p) && (TightAround(tree, p0) ==> TightAround(tree, p))
    {
      h, ts, p := h0, ts0, p0;
      while |ts| > 0
        invariant HasPath(tree, p) && Passing(Sub(tree, p)) && h == Sub(tree, p).ptr && ts == StackOf(tree, p)
        invariant TightAround(tree, p0) ==> TightAround(tree, p)
        decreases |ts|
      {
        ghost var q, i := LastStep(tree, p);
        UpToNext(tree, q, i);
        SubFacts(mem, tree, q);
        var parent := ts[|ts| - 1];
        if mem[parent].iskey || (!mem[parent].iscompr && |mem[parent].data| != 1) { break; }
        if TightAround(tree, p) { AroundUp(tree, q, i); }
        h, ts, p := parent, ts[..|ts| - 1], q;
      }
    }

    /** Merges the chain of single children around path p0, if it has more than one node. */
    method Recompress(h0: Ptr, ts0: seq<Ptr>, ghost p0: seq<nat>)
      requires Stands() && tree.T? && KeyedBut(tree, []) && ShortKeys() && HasPath(tree, p0) && Passing(Sub(tree, p0))
      requires h0 == Sub(tree, p0).ptr && ts0 == StackOf(tree, p0)
      modifies this`mem, this`head, this`tree, this`numnodes
      ensures Stands() && tree.T? && KeyedBut(tree, [])
      ensures TightBut(old(tree), p0) ==> Tight(tree)
    {
      var start, ts;
      ghost var p;
      if TightBut(tree, p0) { AroundNode(tree, p0); }
      start, ts, p := SeekStart(h0, ts0, p0);
      SubChained(mem, tree, p);
      KeyedAt(tree, p);
      ChainShort(tree, content, p, NODE_MAX_SIZE);
      assert |Sub(tree, p).data| <= |ChainData(Sub(tree, p))|;
      var nodes, comprsize := ScanChain(start, Sub(tree, p));
      if nodes > 1 {
        ChainLong(Sub(tree, p));
        var link := LinkTo(start, ts, p);
        MergeChain(start, link, p);
      } else if TightAround(tree, p) {
        MergeTight(tree, p, start);
      }
    }

    /** Removes a string, if it is a key. Where keys are longer than a run can be, a chain may be
        too long to be merged: see `LoopsMeet`. */
    method Remove(s: Str) returns (removed: bool, prev: nat)
      requires Valid() && ShortKeys()
      modifies this
      ensures Valid() && ShortKeys() && content == old(content) - {s}
      ensures removed == (s in old(content)) && (removed ==> prev == old(content)[s])
      ensures Tight(old(tree)) ==> (Tight(tree) <==> !(removed && Rough(old(tree), s, false)))
    {
      var i, h, plink, splitpos, ts;
      ghost var p;
      i, h, plink, splitpos, ts, p := LowWalk(s);
      StoppedLookup(tree, s, p, i, splitpos);
      DenotesFor(tree, content, s);
      if i != |s| || (mem[h].iscompr && splitpos != 0) || !mem[h].iskey {
        return false, 0;
      }
      removed, prev := true, mem[h].value;
      assert s[..i] == s;
      RoughThere(tree, p, false);
      RemoveAt(h, ts, p);
      ShortNarrow(tree, content, NODE_MAX_SIZE);
    }

    /** Removes the key at path p. */
    method RemoveAt(h: Ptr, ts: seq<Ptr>, ghost p: seq<nat>)
      requires Stands() && tree.T? && KeyedBut(tree, []) && ShortKeys()
      requires HasPath(tree, p) && Sub(tree, p).T? && Sub(tree, p).iskey
      requires h == Sub(tree, p).ptr && ts == StackOf(tree, p)
      modifies this
      ensures Stands() && tree.T? && KeyedBut(tree, []) && content == old(content) - {Prefix(old(tree), p)}
      ensures Tight(old(tree)) ==> (Tight(tree) <==> !RoughAt(old(tree), p))
    {
      SubShape(tree, p);
      ClearKey(h, p);
      SubFacts(mem, tree, p);
      if |mem[h].data| == 0 {
        ReclaimAndTidy(h, ts, p);
      } else if |mem[h].data| == 1 {
        Recompress(h, ts, p);
      }
    }

    /** Reclaims the nodes that are no longer used, then tries to compress. */
    method ReclaimAndTidy(h0: Ptr, ts0: seq<Ptr>, ghost p0: seq<nat>)
      requires Stands() && Dying(tree, p0, content) && h0 == Sub(tree, p0).ptr && ts0 == StackOf(tree, p0)
      requires Sub(tree, p0).kids == [] && ShortKeys()
      modifies this`mem, this`head, this`tree, this`numnodes
      ensures Stands() && tree.T? && KeyedBut(tree, [])
      ensures TightBut(old(tree), p0) ==> Tight(tree)
    {
      var h, ts, child;
      ghost var p, j;
      h, ts, child, p, j := Reclaim(h0, ts0, p0);
      if child.Some? {
        Unlink(h, child.value, ts, p, j);
      } else {
        TightAt(tree, p0);
      }
    }

    /** Unlinks the child that has been freed, and tries to compress the node that had it. */
    method Unlink(h: Ptr, child: Ptr, ts: seq<Ptr>, ghost p: seq<nat>, ghost j: nat)
      requires Stands() && Hanging(tree, p, j, content) && ShortKeys()
      requires Sub(tree, p).kids[j] == Gone(child) && child !in mem && h == Sub(tree, p).ptr && ts == StackOf(tree, p)
      requires p == [] || Sub(tree, p).iskey || |Sub(tree, p).kids| > 1
      modifies this`mem, this`head, this`tree, this`numnodes
      ensures Stands() && tree.T? && KeyedBut(tree, [])
      ensures TightBut(old(tree), p) ==> Tight(tree)
    {
      SubFacts(mem, tree, p);
      ghost var tree0 := tree;
      var newh := RemoveChild(h, child, ts, p, j);
      UnlinkMeans(tree0, content, p, j, newh, tree);
      if TightBut(tree0, p) { UnlinkTight(tree0, p, j, newh); }
      SubFacts(mem, tree, p);
      if |mem[newh].data| == 1 && !mem[newh].iskey {
        Recompress(newh, ts, p);
      }
    }
  }
}
