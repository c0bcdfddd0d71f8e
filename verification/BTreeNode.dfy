/** A B-tree node in memory, its 252 bytes on disk, and updates of single cells. */
module BTreeNode {
  import opened Bytes
  import opened Disk
  import opened AllocatorModel
  import opened BTreeModel

  const VALS_POS := 128    // 16 + KEY_LEN * MAX_KEYS
  const KIDS_POS := 184    // VALS_POS + 8 * MAX_KEYS
  const END_POS := 248     // KIDS_POS + 8 * (MAX_KEYS + 1)

  /** All cells of a node, used or not. */
  datatype NodeRec = NodeRec(numkeys: u32, isleaf: u32, keys: seq<Key>, values: seq<nat>, children: seq<nat>)

  ghost predicate Whole(n: NodeRec) {
    |n.keys| == MAX_KEYS && |n.values| == MAX_KEYS && |n.children| == MAX_KEYS + 1 &&
    (forall i :: 0 <= i < MAX_KEYS ==> Fits(n.values[i])) &&
    (forall i :: 0 <= i <= MAX_KEYS ==> Fits(n.children[i]))
  }

  function Flat(keys: seq<Key>): (s: seq<byte>)
    ensures |s| == KEY_LEN * |keys|
  {
    if keys == [] then [] else Flat(keys[..|keys| - 1]) + keys[|keys| - 1]
  }

  function Words(ws: seq<nat>): (s: seq<byte>)
    ensures |s| == WORD * |ws|
  {
    if ws == [] then [] else Words(ws[..|ws| - 1]) + ToBE(ws[|ws| - 1], 8)
  }

  /** What is written for a node. */
  function Encode(n: NodeRec, mark: u32): (b: seq<byte>)
    requires |n.keys| == MAX_KEYS && |n.values| == MAX_KEYS && |n.children| == MAX_KEYS + 1
    ensures |b| == NODE_SIZE
  {
    ToBE(mark, 4) + ToBE(n.numkeys, 4) + ToBE(n.isleaf, 4) + ToBE(0, 4) +
    Flat(n.keys) + Words(n.values) + Words(n.children) + ToBE(mark, 4)
  }

  /** `b` reads as the node `n`: equal marks at both ends, and every cell. */
  ghost predicate Reads(b: seq<byte>, n: NodeRec) {
    |b| == NODE_SIZE && |n.keys| == MAX_KEYS && |n.values| == MAX_KEYS && |n.children| == MAX_KEYS + 1 &&
    b[..4] == b[END_POS..] && FromBE(b[4..8]) == n.numkeys && FromBE(b[8..12]) == n.isleaf &&
    (forall i :: 0 <= i < MAX_KEYS ==> KeyCell(b, n, i) && ValCell(b, n, i)) &&
    (forall i :: 0 <= i <= MAX_KEYS ==> KidCell(b, n, i))
  }

  function KeyAt(b: seq<byte>, i: nat): (k: Key)
    requires |b| == NODE_SIZE && i < MAX_KEYS
  {
    b[16 + KEY_LEN * i..16 + KEY_LEN * i + KEY_LEN]
  }

  ghost predicate KeyCell(b: seq<byte>, n: NodeRec, i: nat)
    requires |b| == NODE_SIZE && i < MAX_KEYS == |n.keys|
  {
    KeyAt(b, i) == n.keys[i]
  }

  ghost predicate ValCell(b: seq<byte>, n: NodeRec, i: nat)
    requires |b| == NODE_SIZE && i < MAX_KEYS == |n.values|
  {
    Word(b, VALS_POS + WORD * i) == n.values[i]
  }

  ghost predicate KidCell(b: seq<byte>, n: NodeRec, i: nat)
    requires |b| == NODE_SIZE && i <= MAX_KEYS && |n.children| == MAX_KEYS + 1
  {
    Word(b, KIDS_POS + WORD * i) == n.children[i]
  }

  lemma {:induction false} FlatAt(keys: seq<Key>, i: nat)
    requires i < |keys|
    ensures Flat(keys)[KEY_LEN * i..KEY_LEN * i + KEY_LEN] == keys[i]
  {
    var k := |keys| - 1;
    if i < k {
      FlatAt(keys[..k], i);
      PrefixSlice(Flat(keys[..k]), keys[k], KEY_LEN * i, KEY_LEN * i + KEY_LEN);
    }
  }

  lemma PrefixSlice(a: seq<byte>, z: seq<byte>, lo: nat, hi: nat)
    requires lo <= hi <= |a|
    ensures (a + z)[lo..hi] == a[lo..hi]
  {
  }

  lemma SuffixSlice(a: seq<byte>, z: seq<byte>)
    ensures (a + z)[|a|..|a| + |z|] == z
  {
  }

  lemma {:induction false} WordsAt(ws: seq<nat>, i: nat)
    requires i < |ws| && Fits(ws[i])
    ensures Word(Words(ws), WORD * i) == ws[i]
  {
    var k := |ws| - 1;
    if i < k {
      WordsAt(ws[..k], i);
      PrefixSlice(Words(ws[..k]), ToBE(ws[k], 8), WORD * i, WORD * i + 8);
    } else {
      Pow256Eight();
      FromToBE(ws[i], 8);
      SuffixSlice(Words(ws[..k]), ToBE(ws[k], 8));
    }
  }

  ghost function Head(n: NodeRec, mark: u32): (b: seq<byte>)
    ensures |b| == 16
  {
    ToBE(mark, 4) + ToBE(n.numkeys, 4) + ToBE(n.isleaf, 4) + ToBE(0, 4)
  }

  lemma FourBytes(v: u32, k: nat)
    requires k == 4
    ensures FromBE(ToBE(v, k)) == v
  {
    Pow256Values();
    FromToBE(v, k);
  }

  lemma FourSlices(a: seq<byte>, b: seq<byte>, c: seq<byte>, e: seq<byte>)
    requires |a| == |b| == |c| == |e| == 4
    ensures var s := a + b + c + e; s[..4] == a && s[4..8] == b && s[8..12] == c
  {
  }

  lemma HeadReads(n: NodeRec, mark: u32)
    ensures Head(n, mark)[..4] == ToBE(mark, 4)
    ensures FromBE(Head(n, mark)[4..8]) == n.numkeys && FromBE(Head(n, mark)[8..12]) == n.isleaf
  {
    FourSlices(ToBE(mark, 4), ToBE(n.numkeys, 4), ToBE(n.isleaf, 4), ToBE(0, 4));
    FourBytes(n.numkeys, 4);
    FourBytes(n.isleaf, 4);
  }

  lemma EncodeParts(n: NodeRec, mark: u32)
    requires Whole(n)
    ensures var b := Encode(n, mark);
      b[..16] == Head(n, mark) && b[16..VALS_POS] == Flat(n.keys) && b[VALS_POS..KIDS_POS] == Words(n.values) &&
      b[KIDS_POS..END_POS] == Words(n.children) && b[END_POS..] == ToBE(mark, 4)
  {
  }

  /** Whatever is written for a node reads back as that node. */
  lemma NodeRoundTrip(n: NodeRec, mark: u32)
    requires Whole(n)
    ensures Reads(Encode(n, mark), n)
  {
    hide ToBE;
    var b := Encode(n, mark);
    EncodeParts(n, mark);
    HeadReads(n, mark);
    SubSlice(b, 0, 16, 0, 4);
    SubSlice(b, 0, 16, 4, 8);
    SubSlice(b, 0, 16, 8, 12);
    forall i | 0 <= i < MAX_KEYS
      ensures KeyCell(b, n, i) && ValCell(b, n, i)
    {
      FlatAt(n.keys, i);
      SubSlice(b, 16, VALS_POS, 16 + KEY_LEN * i, 16 + KEY_LEN * i + KEY_LEN);
      WordsAt(n.values, i);
      SubSlice(b, VALS_POS, KIDS_POS, VALS_POS + WORD * i, VALS_POS + WORD * i + 8);
    }
    forall i | 0 <= i <= MAX_KEYS
      ensures KidCell(b, n, i)
    {
      WordsAt(n.children, i);
      SubSlice(b, KIDS_POS, END_POS, KIDS_POS + WORD * i, KIDS_POS + WORD * i + 8);
    }
  }

  /** No two different nodes read from the same bytes. */
  lemma ReadsUnique(b: seq<byte>, n: NodeRec, m: NodeRec)
    requires Reads(b, n) && Reads(b, m)
    ensures n == m
  {
    forall i | 0 <= i < MAX_KEYS
      ensures n.keys[i] == m.keys[i] && n.values[i] == m.values[i]
    {
      assert KeyCell(b, n, i) && KeyCell(b, m, i) && ValCell(b, n, i) && ValCell(b, m, i);
    }
    forall i | 0 <= i <= MAX_KEYS
      ensures n.children[i] == m.children[i]
    {
      assert KidCell(b, n, i) && KidCell(b, m, i);
    }
  }

  // ------------------------------------------------------------------
  // Overwriting one cell
  // ------------------------------------------------------------------

  /** A write behind the keys leaves the head, the keys and the end mark alone. */
  lemma CellFrame(b: seq<byte>, n: NodeRec, a: nat, v: nat)
    requires Reads(b, n) && VALS_POS <= a && a + 8 <= END_POS
    ensures var c := PatchWord(b, a, v);
      c[..4] == c[END_POS..] && FromBE(c[4..8]) == n.numkeys && FromBE(c[8..12]) == n.isleaf &&
      forall i :: 0 <= i < MAX_KEYS ==> KeyCell(c, n, i)
  {
    var w := ToBE(v, 8);
    PatchAway(b, a, w, 0, 4);
    PatchAway(b, a, w, END_POS, NODE_SIZE);
    PatchAway(b, a, w, 4, 8);
    PatchAway(b, a, w, 8, 12);
    forall i | 0 <= i < MAX_KEYS
      ensures KeyCell(PatchWord(b, a, v), n, i)
    {
      assert KeyCell(b, n, i);
      PatchAway(b, a, w, 16 + KEY_LEN * i, 16 + KEY_LEN * i + KEY_LEN);
    }
  }

  /** Overwriting value cell j changes that value and nothing else. */
  lemma ValCellWritten(b: seq<byte>, n: NodeRec, j: nat, v: nat)
    requires Reads(b, n) && j < MAX_KEYS && Fits(v)
    ensures Reads(PatchWord(b, VALS_POS + WORD * j, v), n.(values := n.values[j := v]))
  {
    var a := VALS_POS + WORD * j;
    var c, m := PatchWord(b, a, v), n.(values := n.values[j := v]);
    CellFrame(b, n, a, v);
    forall i | 0 <= i < MAX_KEYS
      ensures KeyCell(c, m, i) && ValCell(c, m, i)
    {
      assert KeyCell(c, n, i) && ValCell(b, n, i);
      if i == j { WordPatched(b, a, v); } else { WordAway(b, a, v, VALS_POS + WORD * i); }
    }
    forall i | 0 <= i <= MAX_KEYS
      ensures KidCell(c, m, i)
    {
      assert KidCell(b, n, i);
      WordAway(b, a, v, KIDS_POS + WORD * i);
    }
  }

  /** Overwriting child cell j changes that pointer and nothing else. */
  lemma KidCellWritten(b: seq<byte>, n: NodeRec, j: nat, v: nat)
    requires Reads(b, n) && j <= MAX_KEYS && Fits(v)
    ensures Reads(PatchWord(b, KIDS_POS + WORD * j, v), n.(children := n.children[j := v]))
  {
    var a := KIDS_POS + WORD * j;
    var c, m := PatchWord(b, a, v), n.(children := n.children[j := v]);
    CellFrame(b, n, a, v);
    forall i | 0 <= i < MAX_KEYS
      ensures KeyCell(c, m, i) && ValCell(c, m, i)
    {
      assert KeyCell(c, n, i) && ValCell(b, n, i);
      WordAway(b, a, v, VALS_POS + WORD * i);
    }
    forall i | 0 <= i <= MAX_KEYS
      ensures KidCell(c, m, i)
    {
      assert KidCell(b, n, i);
      if i == j { WordPatched(b, a, v); } else { WordAway(b, a, v, KIDS_POS + WORD * i); }
    }
  }

  /** A word written inside a slice of the file is written in that slice. */
  lemma SlicePatch(d: Disk, off: nat, a: nat, v: nat)
    requires off + NODE_SIZE <= |d| && a + 8 <= NODE_SIZE
    ensures PatchWord(d, off + a, v)[off..off + NODE_SIZE] == PatchWord(d[off..off + NODE_SIZE], a, v)
  {
  }

  // ------------------------------------------------------------------
  // Comparing keys
  // ------------------------------------------------------------------

  lemma BEFirst(s: seq<byte>)
    requires s != []
    ensures FromBE(s) == s[0] * Pow256(|s| - 1) + FromBE(s[1..])
    decreases |s|
  {
    var k := |s| - 1;
    if k == 0 {
      assert s[..0] == [] && s[1..] == [];
    } else {
      BEFirst(s[..k]);
      assert s[..k][1..] == s[1..][..k - 1];
      Distribute(s[0], Pow256(k - 1), FromBE(s[..k][1..]));
    }
  }

  lemma Distribute(x: nat, p: nat, y: nat)
    ensures (x * p + y) * 256 == x * (256 * p) + y * 256
  {
  }

  lemma ScaleLess(a: nat, b: nat, p: nat, x: nat, y: nat)
    requires a < b && x < p
    ensures a * p + x < b * p + y
  {
    assert b * p == (b - a) * p + a * p;
    MulAtLeast(b - a, p);
  }

  /** The first byte that differs decides. */
  lemma {:induction false} FirstDiffers(s: seq<byte>, t: seq<byte>, i: nat)
    requires |s| == |t| && i < |s| && s[..i] == t[..i] && s[i] < t[i]
    ensures FromBE(s) < FromBE(t)
    decreases i
  {
    BEFirst(s);
    BEFirst(t);
    var k := |s| - 1;
    if i == 0 {
      ScaleLess(s[0], t[0], Pow256(k), FromBE(s[1..]), FromBE(t[1..]));
    } else {
      assert s[0] == s[..i][0] == t[..i][0] == t[0];
      assert s[1..][..i - 1] == s[..i][1..];
      assert t[1..][..i - 1] == t[..i][1..];
      FirstDiffers(s[1..], t[1..], i - 1);
    }
  }

  /** `memcmp` of two keys: a byte loop that orders keys like the numbers they spell. */
  method CompareKeys(a: Key, b: Key) returns (cmp: int)
    ensures cmp < 0 <==> KeyNum(a) < KeyNum(b)
    ensures cmp > 0 <==> KeyNum(a) > KeyNum(b)
    ensures cmp == 0 <==> a == b
  {
    var i := 0;
    while i < KEY_LEN
      invariant 0 <= i <= KEY_LEN && a[..i] == b[..i]
    {
      if a[i] != b[i] {
        if a[i] < b[i] { FirstDiffers(a, b, i); } else { FirstDiffers(b, a, i); }
        var x: int, y: int := a[i], b[i];
        return x - y;
      }
      i := i + 1;
    }
    assert a == a[..i] && b == b[..i];
    return 0;
  }
}
