/**
 The on-disk allocator as a value: where every chunk of the file lies and what
 it is used for, and how that ties in with the words on disk.
 */
module AllocatorModel {
  import opened Bytes
  import opened Disk

  const LIST_COUNT := 28
  const BLOCK_ITEMS := 252
  const BLOCK_SIZE := 2040
  const BLOCK_EXP := 11
  const PREALLOC_SIZE := 0x8_0000
  const NODE_SIZE := 252
  const HDR_FREE_POS := 16
  const HDR_FREEOFF_POS := 24
  const HDR_ROOTPTR_POS := 57152   // 32 + BLOCK_SIZE * LIST_COUNT
  const HEAP_START := 57412        // after the root pointer and one node

  function Pow2(e: nat): (p: nat)
    ensures p > 0
  {
    if e == 0 then 1 else 2 * Pow2(e - 1)
  }

  lemma Pow2Values()
    ensures Pow2(4) == 16 && Pow2(9) == 512 && Pow2(11) == 2048 && Pow2(19) == PREALLOC_SIZE
  {
    assert Pow2(9) == 32 * Pow2(4);
    assert Pow2(11) == 4 * Pow2(9);
    assert Pow2(19) == 0x100 * Pow2(11);
  }

  lemma {:induction false} Pow2Grows(a: nat, b: nat)
    requires a <= b
    ensures Pow2(a) <= Pow2(b)
    decreases b
  {
    if a < b {
      Pow2Grows(a, b - 1);
    }
  }

  /** The size class of a request: chunks hold a size word and the payload, and
      have at least sixteen bytes. */
  ghost predicate IsClass(size: nat, e: nat) {
    4 <= e && size + 8 <= Pow2(e) && (e > 4 ==> Pow2(e - 1) < size + 8)
  }

  /** It is the exponent of the least power of two that is big enough. */
  lemma ClassIsLeast(size: nat, e: nat, x: nat)
    requires IsClass(size, e) && x >= 4
    ensures size + 8 <= Pow2(x) <==> e <= x
  {
    if e <= x {
      Pow2Grows(e, x);
    } else {
      Pow2Grows(x, e - 1);
    }
  }

  /** Every request that fits a preallocation has a class. */
  lemma {:induction false} ClassOf(size: nat, k: nat) returns (e: nat)
    requires size + 8 <= Pow2(k) && k >= 4
    ensures IsClass(size, e) && e <= k
  {
    if k > 4 && size + 8 <= Pow2(k - 1) {
      e := ClassOf(size, k - 1);
    } else {
      e := k;
    }
  }

  lemma ClassUnique(size: nat, e: nat, f: nat)
    requires IsClass(size, e) && IsClass(size, f)
    ensures e == f
  {
    ClassIsLeast(size, e, f);
    ClassIsLeast(size, f, e);
  }

  datatype FreeList = FreeList(blocks: seq<nat>, lastItems: nat)

  /** What a chunk is used for: handed out, entry `index` of a free list, or block `index` of
      a free list. What a crash leaves behind unlinked is lost: nothing will use it again. */
  datatype Role = Live | Lost | Item(list: nat, index: nat) | Block(list: nat, index: nat)

  datatype Meta = Meta(
    free: nat, freeoff: nat,
    lists: seq<FreeList>,
    items: seq<seq<nat>>,     // chunk starts listed as free, per list
    exps: map<nat, nat>,      // chunk start to size exponent
    role: map<nat, Role>)

  /** Every byte from `lo` to `hi` lies in exactly one chunk. */
  ghost predicate Tiled(exps: map<nat, nat>, lo: nat, hi: nat) {
    (forall s :: s in exps ==> 4 <= exps[s] && lo <= s && s + Pow2(exps[s]) <= hi) &&
    (forall s, t :: s in exps && t in exps && s < t ==> s + Pow2(exps[s]) <= t) &&
    (forall x :: lo <= x < hi ==> Covered(exps, x))
  }

  ghost predicate Covered(exps: map<nat, nat>, x: nat) {
    exists s :: Covers(exps, s, x)
  }

  ghost predicate Covers(exps: map<nat, nat>, s: nat, x: nat) {
    s in exps && s <= x < s + Pow2(exps[s])
  }

  ghost predicate ListShape(fl: FreeList, items: seq<nat>, f: nat) {
    |fl.blocks| >= 1 && fl.blocks[0] == 32 + BLOCK_SIZE * f && fl.lastItems <= BLOCK_ITEMS &&
    |items| == BLOCK_ITEMS * (|fl.blocks| - 1) + fl.lastItems
  }

  ghost predicate Shape(m: Meta) {
    |m.lists| == LIST_COUNT && |m.items| == LIST_COUNT &&
    forall f :: 0 <= f < LIST_COUNT ==> ListShape(m.lists[f], m.items[f], f)
  }

  ghost predicate IsItem(m: Meta, f: nat, j: nat)
    requires Shape(m)
  {
    f < LIST_COUNT && j < |m.items[f]|
  }

  ghost predicate IsBlock(m: Meta, f: nat, i: nat)
    requires Shape(m)
  {
    f < LIST_COUNT && i < |m.lists[f].blocks|
  }

  /** A chunk's role and the lists' contents say the same thing. */
  ghost predicate RoleFits(m: Meta, s: nat)
    requires Shape(m) && s in m.role && s in m.exps
  {
    match m.role[s]
    case Live => true
    case Lost => true
    case Item(f, j) => IsItem(m, f, j) && m.items[f][j] == s && m.exps[s] == f + 4
    case Block(f, i) => 1 <= i && IsBlock(m, f, i) && m.lists[f].blocks[i] == s + 8 && m.exps[s] == BLOCK_EXP
  }

  ghost predicate RolesFit(m: Meta)
    requires Shape(m)
  {
    m.role.Keys == m.exps.Keys && forall s :: s in m.role ==> RoleFits(m, s)
  }

  ghost predicate ItemsFit(m: Meta)
    requires Shape(m)
  {
    forall f: nat, j: nat :: IsItem(m, f, j) ==> m.items[f][j] in m.role && m.role[m.items[f][j]] == Item(f, j)
  }

  ghost predicate BlocksFit(m: Meta)
    requires Shape(m)
  {
    forall f: nat, i: nat :: IsBlock(m, f, i) ==> BlockFits(m, f, i)
  }

  ghost predicate BlockFits(m: Meta, f: nat, i: nat)
    requires Shape(m) && IsBlock(m, f, i)
  {
    var b := m.lists[f].blocks[i];
    i >= 1 ==> b >= 8 && b - 8 in m.role && m.role[b - 8] == Block(f, i)
  }

  ghost predicate Roles(m: Meta)
    requires Shape(m)
  {
    RolesFit(m) && ItemsFit(m) && BlocksFit(m)
  }

  /** Layout of the file, leaving aside what the words on disk say. */
  ghost predicate Layout(m: Meta) {
    HEAP_START <= m.freeoff && Shape(m) && Tiled(m.exps, HEAP_START, m.freeoff) && Roles(m)
  }

  // ------------------------------------------------------------------
  // Where free-list blocks lie
  // ------------------------------------------------------------------

  function BlockAt(m: Meta, f: nat, i: nat): (b: nat)
    requires Shape(m) && IsBlock(m, f, i)
  {
    m.lists[f].blocks[i]
  }

  /** A list's first block is in the file header, its others fill chunks. */
  lemma BlockPlace(m: Meta, f: nat, i: nat)
    requires Layout(m) && IsBlock(m, f, i)
    ensures i == 0 ==> 32 <= BlockAt(m, f, i) && BlockAt(m, f, i) + BLOCK_SIZE <= HDR_ROOTPTR_POS
    ensures i > 0 ==> HEAP_START + 8 <= BlockAt(m, f, i) && BlockAt(m, f, i) + BLOCK_SIZE <= m.freeoff
    ensures i > 0 ==> BlockAt(m, f, i) - 8 in m.exps && m.exps[BlockAt(m, f, i) - 8] == BLOCK_EXP
    ensures i > 0 ==> BlockAt(m, f, i) - 8 in m.role && m.role[BlockAt(m, f, i) - 8] == Block(f, i)
  {
    Pow2Values();
    assert ListShape(m.lists[f], m.items[f], f);
    if i > 0 {
      assert BlockFits(m, f, i);
      var s := BlockAt(m, f, i) - 8;
      assert RoleFits(m, s);
    }
  }

  lemma BlocksApart(m: Meta, f: nat, i: nat, g: nat, j: nat)
    requires Layout(m) && IsBlock(m, f, i) && IsBlock(m, g, j) && (f, i) != (g, j)
    ensures BlockAt(m, f, i) + BLOCK_SIZE <= BlockAt(m, g, j) || BlockAt(m, g, j) + BLOCK_SIZE <= BlockAt(m, f, i)
  {
    if i == 0 && j == 0 {
      RootBlocksApart(m, f, g);
    } else if i > 0 && j > 0 {
      ChunkBlocksApart(m, f, i, g, j);
    } else {
      BlockPlace(m, f, i);
      BlockPlace(m, g, j);
    }
  }

  lemma ChunkBlocksApart(m: Meta, f: nat, i: nat, g: nat, j: nat)
    requires Layout(m) && 0 < i && 0 < j && IsBlock(m, f, i) && IsBlock(m, g, j) && (f, i) != (g, j)
    ensures BlockAt(m, f, i) + BLOCK_SIZE <= BlockAt(m, g, j) || BlockAt(m, g, j) + BLOCK_SIZE <= BlockAt(m, f, i)
  {
    BlockPlace(m, f, i);
    BlockPlace(m, g, j);
    var s, t := BlockAt(m, f, i) - 8, BlockAt(m, g, j) - 8;
    assert m.role[s] == Block(f, i) != Block(g, j) == m.role[t];
    ChunksApart(m.exps, m.freeoff, s, t);
    Pow2Values();
  }

  lemma RootBlocksApart(m: Meta, f: nat, g: nat)
    requires Shape(m) && f < LIST_COUNT && g < LIST_COUNT && f != g && IsBlock(m, f, 0) && IsBlock(m, g, 0)
    ensures BlockAt(m, f, 0) + BLOCK_SIZE <= BlockAt(m, g, 0) || BlockAt(m, g, 0) + BLOCK_SIZE <= BlockAt(m, f, 0)
  {
    assert ListShape(m.lists[f], m.items[f], f) && ListShape(m.lists[g], m.items[g], g);
  }

  lemma ChunksApart(exps: map<nat, nat>, hi: nat, s: nat, t: nat)
    requires Tiled(exps, HEAP_START, hi) && s in exps && t in exps && s != t
    ensures s + Pow2(exps[s]) <= t || t + Pow2(exps[t]) <= s
  {
  }

  /** A live chunk shares no byte with a free-list block. */
  lemma LiveApart(m: Meta, f: nat, i: nat, s: nat)
    requires Layout(m) && IsBlock(m, f, i) && s in m.exps
    requires i > 0 ==> s != BlockAt(m, f, i) - 8
    ensures BlockAt(m, f, i) + BLOCK_SIZE <= s || s + Pow2(m.exps[s]) <= BlockAt(m, f, i)
  {
    BlockPlace(m, f, i);
    Pow2Values();
  }
}
