/** The allocator's elementary steps, and that each keeps layout and disk in tune. */
module AllocatorSteps {
  import opened Bytes
  import opened Disk
  import opened AllocatorModel

  // ------------------------------------------------------------------
  // What the words on disk say
  // ------------------------------------------------------------------

  /** Words of a free-list block: 0 previous, 1 next, 2 item count, 3.. items. */
  ghost predicate IsSlot(m: Meta, f: nat, i: nat, w: nat)
    requires Shape(m)
  {
    IsBlock(m, f, i) && (w == 1 || w == 2 || (3 <= w < 255 && BLOCK_ITEMS * i + w - 3 < |m.items[f]|))
  }

  ghost function SlotValue(m: Meta, f: nat, i: nat, w: nat): (v: nat)
    requires Shape(m) && IsSlot(m, f, i, w)
  {
    var blocks := m.lists[f].blocks;
    if w == 1 then (if i + 1 < |blocks| then blocks[i + 1] else 0)
    else if w == 2 then (if i + 1 < |blocks| then BLOCK_ITEMS else m.lists[f].lastItems)
    else m.items[f][BLOCK_ITEMS * i + w - 3]
  }

  ghost predicate SlotHolds(d: Disk, m: Meta, f: nat, i: nat, w: nat)
    requires Shape(m) && IsSlot(m, f, i, w)
  {
    BlockAt(m, f, i) + 8 * w + 8 <= |d| && Word(d, BlockAt(m, f, i) + 8 * w) == SlotValue(m, f, i, w)
  }

  ghost predicate HeaderHolds(d: Disk, exps: map<nat, nat>, s: nat)
    requires s in exps
  {
    s + 8 <= |d| && IsClass(Word(d, s), exps[s])
  }

  /** The chunks that have a size word, with their size exponents. */
  ghost function Known(m: Meta): (p: map<nat, nat>) {
    map s | s in m.exps && s in m.role && !m.role[s].Lost? :: m.exps[s]
  }

  /** File size, the two words about free space, and the size words of chunks. */
  ghost predicate Headers(d: Disk, exps: map<nat, nat>, free: nat, freeoff: nat) {
    freeoff + free <= |d| && HEAP_START <= |d| &&
    Word(d, HDR_FREE_POS) == free && Word(d, HDR_FREEOFF_POS) == freeoff &&
    forall s :: s in exps ==> HeaderHolds(d, exps, s)
  }

  /** The free-list blocks hold what `m` calls for. */
  ghost predicate AllSlots(d: Disk, m: Meta)
    requires Shape(m)
  {
    forall f: nat, i: nat, w: nat :: IsSlot(m, f, i, w) ==> SlotHolds(d, m, f, i, w)
  }

  ghost predicate OtherSlots(d: Disk, m: Meta, f: nat, i: nat, w: nat)
    requires Shape(m)
  {
    forall g: nat, j: nat, x: nat :: IsSlot(m, g, j, x) && (g, j, x) != (f, i, w) ==> SlotHolds(d, m, g, j, x)
  }

  ghost predicate Inv(d: Disk, m: Meta) {
    Layout(m) && Headers(d, Known(m), m.free, m.freeoff) && AllSlots(d, m)
  }

  // ------------------------------------------------------------------
  // What a write leaves alone
  // ------------------------------------------------------------------

  /** The chunks handed out, with their size exponents. */
  ghost function LiveOf(m: Meta): (p: map<nat, nat>) {
    map s | s in m.exps && s in m.role && m.role[s] == Live :: m.exps[s]
  }

  /** `e` still has the root pointer and the bytes of the chunks `p` as in `d`. */
  ghost predicate Agree(d: Disk, e: Disk, p: map<nat, nat>) {
    HEAP_START <= |d| && HEAP_START <= |e| &&
    e[HDR_ROOTPTR_POS..HDR_ROOTPTR_POS + 8] == d[HDR_ROOTPTR_POS..HDR_ROOTPTR_POS + 8] &&
    forall s :: s in p ==> SameChunk(d, e, s, p[s])
  }

  ghost predicate SameChunk(d: Disk, e: Disk, s: nat, x: nat) {
    s + Pow2(x) <= |d| && s + Pow2(x) <= |e| && e[s..s + Pow2(x)] == d[s..s + Pow2(x)]
  }

  lemma AgreeSelf(d: Disk, m: Meta, p: map<nat, nat>)
    requires Inv(d, m) && forall s :: s in p ==> s in m.exps && p[s] == m.exps[s]
    ensures Agree(d, d, p)
  {
  }

  lemma AgreeChain(d: Disk, e: Disk, f: Disk, p: map<nat, nat>, q: map<nat, nat>, r: map<nat, nat>)
    requires Agree(d, e, p) && Agree(e, f, q)
    requires forall s :: s in r ==> s in p && s in q && p[s] == r[s] == q[s]
    ensures Agree(d, f, r)
  {
    forall s | s in r
      ensures SameChunk(d, f, s, r[s])
    {
      assert SameChunk(d, e, s, p[s]) && SameChunk(e, f, s, q[s]);
    }
  }

  /** A write of one word outside the protected chunks. */
  lemma AgreePatch(d: Disk, a: nat, v: nat, p: map<nat, nat>)
    requires HEAP_START <= |d| && a + 8 <= |d|
    requires a + 8 <= HDR_ROOTPTR_POS || HDR_ROOTPTR_POS + 8 <= a
    requires forall s :: s in p ==> s + Pow2(p[s]) <= |d| && (a + 8 <= s || s + Pow2(p[s]) <= a)
    ensures Agree(d, PatchWord(d, a, v), p)
  {
    var e := PatchWord(d, a, v);
    PatchAway(d, a, ToBE(v, 8), HDR_ROOTPTR_POS, HDR_ROOTPTR_POS + 8);
    forall s | s in p
      ensures SameChunk(d, e, s, p[s])
    {
      PatchAway(d, a, ToBE(v, 8), s, s + Pow2(p[s]));
    }
  }

  /** Writing word `w` of a free-list block changes no other word that counts. */
  lemma SlotWrite(d: Disk, m: Meta, f: nat, i: nat, w: nat, v: nat)
    requires Inv(d, m) && IsBlock(m, f, i) && w < 255 && Fits(v)
    ensures SlotAddr(m, f, i, w) + 8 <= |d|
    ensures var e := PatchWord(d, SlotAddr(m, f, i, w), v);
      Word(e, SlotAddr(m, f, i, w)) == v && Agree(d, e, LiveOf(m)) &&
      Headers(e, Known(m), m.free, m.freeoff) && OtherSlots(e, m, f, i, w)
  {
    SlotInFile(d, m, f, i, w);
    var a := SlotAddr(m, f, i, w);
    WordPatched(d, a, v);
    SlotWriteHeaders(d, m, f, i, w, v);
    SlotWriteOthers(d, m, f, i, w, v);
    SlotOutsideLive(m, f, i, w);
    AgreePatch(d, a, v, LiveOf(m));
  }

  ghost function SlotAddr(m: Meta, f: nat, i: nat, w: nat): (a: nat)
    requires Shape(m) && IsBlock(m, f, i)
  {
    BlockAt(m, f, i) + 8 * w
  }

  lemma SlotWriteOthers(d: Disk, m: Meta, f: nat, i: nat, w: nat, v: nat)
    requires Inv(d, m) && IsBlock(m, f, i) && w < 255 && SlotAddr(m, f, i, w) + 8 <= |d|
    ensures OtherSlots(PatchWord(d, SlotAddr(m, f, i, w), v), m, f, i, w)
  {
    forall g: nat, j: nat, x: nat | IsSlot(m, g, j, x) && (g, j, x) != (f, i, w)
      ensures SlotHolds(PatchWord(d, SlotAddr(m, f, i, w), v), m, g, j, x)
    {
      SlotWriteOther(d, m, f, i, w, v, g, j, x);
    }
  }

  lemma SlotInFile(d: Disk, m: Meta, f: nat, i: nat, w: nat)
    requires Inv(d, m) && IsBlock(m, f, i) && w < 255
    ensures var a := BlockAt(m, f, i) + 8 * w;
      32 <= a && a + 8 <= |d| && (a + 8 <= HDR_ROOTPTR_POS || HEAP_START <= a)
  {
    BlockPlace(m, f, i);
  }

  lemma SlotWriteOther(d: Disk, m: Meta, f: nat, i: nat, w: nat, v: nat, g: nat, j: nat, x: nat)
    requires Inv(d, m) && IsBlock(m, f, i) && w < 255 && BlockAt(m, f, i) + 8 * w + 8 <= |d|
    requires IsSlot(m, g, j, x) && (g, j, x) != (f, i, w)
    ensures SlotHolds(PatchWord(d, BlockAt(m, f, i) + 8 * w, v), m, g, j, x)
  {
    assert SlotHolds(d, m, g, j, x);
    SlotsApart(m, f, i, w, g, j, x);
    WordAway(d, BlockAt(m, f, i) + 8 * w, v, BlockAt(m, g, j) + 8 * x);
  }

  lemma SlotWriteHeaders(d: Disk, m: Meta, f: nat, i: nat, w: nat, v: nat)
    requires Inv(d, m) && IsBlock(m, f, i) && w < 255 && SlotAddr(m, f, i, w) + 8 <= |d|
    ensures Headers(PatchWord(d, SlotAddr(m, f, i, w), v), Known(m), m.free, m.freeoff)
  {
    SlotInFile(d, m, f, i, w);
    var a := SlotAddr(m, f, i, w);
    WordAway(d, a, v, HDR_FREE_POS);
    WordAway(d, a, v, HDR_FREEOFF_POS);
    forall s | s in Known(m)
      ensures HeaderHolds(PatchWord(d, a, v), Known(m), s)
    {
      assert HeaderHolds(d, Known(m), s);
      HeaderApart(d, m, f, i, w, s);
      WordAway(d, a, v, s);
    }
  }

  lemma SlotsApart(m: Meta, f: nat, i: nat, w: nat, g: nat, j: nat, x: nat)
    requires Layout(m) && IsBlock(m, f, i) && IsBlock(m, g, j) && w < 255 && x < 255
    requires (g, j, x) != (f, i, w)
    ensures var a, b := BlockAt(m, f, i) + 8 * w, BlockAt(m, g, j) + 8 * x; b + 8 <= a || a + 8 <= b
  {
    if (f, i) != (g, j) {
      BlocksApart(m, f, i, g, j);
    }
  }

  lemma HeaderApart(d: Disk, m: Meta, f: nat, i: nat, w: nat, s: nat)
    requires Inv(d, m) && IsBlock(m, f, i) && w < 255 && s in m.exps
    ensures s + 8 <= |d|
    ensures var a := BlockAt(m, f, i) + 8 * w; s + 8 <= a || a + 8 <= s
  {
    BlockPlace(m, f, i);
    Pow2Values();
    Pow2Grows(4, m.exps[s]);
    if i == 0 || s != BlockAt(m, f, i) - 8 {
      LiveApart(m, f, i, s);
    }
  }

  lemma SlotOutsideLive(m: Meta, f: nat, i: nat, w: nat)
    requires Layout(m) && IsBlock(m, f, i) && w < 255
    ensures var a, p := BlockAt(m, f, i) + 8 * w, LiveOf(m);
      forall s :: s in p ==> s + Pow2(p[s]) <= m.freeoff && (a + 8 <= s || s + Pow2(p[s]) <= a)
  {
    var p := LiveOf(m);
    forall s | s in p
      ensures var a := BlockAt(m, f, i) + 8 * w; s + Pow2(p[s]) <= m.freeoff && (a + 8 <= s || s + Pow2(p[s]) <= a)
    {
      SlotOutside(m, f, i, w, s);
    }
  }

  lemma SlotOutside(m: Meta, f: nat, i: nat, w: nat, s: nat)
    requires Layout(m) && IsBlock(m, f, i) && w < 255 && s in m.exps && m.role[s] == Live
    ensures var a := BlockAt(m, f, i) + 8 * w;
      s + Pow2(m.exps[s]) <= m.freeoff && (a + 8 <= s || s + Pow2(m.exps[s]) <= a)
  {
    BlockPlace(m, f, i);
    LiveApart(m, f, i, s);
  }

  // ------------------------------------------------------------------
  // Steps on the layout
  // ------------------------------------------------------------------

  ghost function Last(m: Meta, f: nat): (i: nat)
    requires Shape(m) && f < LIST_COUNT
  {
    assert ListShape(m.lists[f], m.items[f], f);
    |m.lists[f].blocks| - 1
  }

  ghost function SetList(m: Meta, f: nat, fl: FreeList, items: seq<nat>, s: nat, r: Role): (n: Meta)
    requires Shape(m) && f < LIST_COUNT
  {
    m.(lists := m.lists[f := fl], items := m.items[f := items], role := m.role[s := r])
  }

  /** A live chunk becomes the newest entry of list `f`. */
  ghost function Push(m: Meta, f: nat, s: nat): (n: Meta)
    requires Shape(m) && f < LIST_COUNT
  {
    var fl := m.lists[f];
    SetList(m, f, FreeList(fl.blocks, fl.lastItems + 1), m.items[f] + [s], s, Item(f, |m.items[f]|))
  }

  /** The newest entry of list `f` is handed out. */
  ghost function Pop(m: Meta, f: nat): (n: Meta)
    requires Shape(m) && f < LIST_COUNT && m.lists[f].lastItems > 0 && m.items[f] != []
  {
    var fl, k := m.lists[f], |m.items[f]| - 1;
    SetList(m, f, FreeList(fl.blocks, fl.lastItems - 1), m.items[f][..k], m.items[f][k], Live)
  }

  /** A live chunk becomes the last block of list `f`. */
  ghost function AddBlock(m: Meta, f: nat, s: nat): (n: Meta)
    requires Shape(m) && f < LIST_COUNT
  {
    var fl := m.lists[f];
    SetList(m, f, FreeList(fl.blocks + [s + 8], 0), m.items[f], s, Block(f, |fl.blocks|))
  }

  /** The empty last block of list `f` is handed out; the one before is full. */
  ghost function DropBlock(m: Meta, f: nat): (n: Meta)
    requires Shape(m) && f < LIST_COUNT && Last(m, f) > 0 && BlockAt(m, f, Last(m, f)) >= 8
  {
    var fl, i := m.lists[f], Last(m, f);
    SetList(m, f, FreeList(fl.blocks[..i], BLOCK_ITEMS), m.items[f], fl.blocks[i] - 8, Live)
  }

  ghost predicate IsLive(m: Meta, s: nat) {
    s in m.exps && s in m.role && m.role[s] == Live
  }

  /** How one list may change while chunk `s` takes the role `r`: entries and
      blocks other than `s` stay where they are. */
  ghost predicate ListChange(m: Meta, f: nat, fl: FreeList, items: seq<nat>, s: nat, r: Role)
    requires Shape(m) && f < LIST_COUNT
  {
    ListShape(fl, items, f) && s in m.exps && s in m.role &&
    (m.role[s].Live? || m.role[s].Lost? || m.role[s].list == f) &&
    (forall j :: 0 <= j < |m.items[f]| && m.items[f][j] != s ==> j < |items| && items[j] == m.items[f][j]) &&
    (forall j :: 0 <= j < |items| ==>
      if items[j] == s then r == Item(f, j) else j < |m.items[f]| && items[j] == m.items[f][j]) &&
    (forall i :: 1 <= i < |m.lists[f].blocks| && m.lists[f].blocks[i] != s + 8 ==>
      i < |fl.blocks| && fl.blocks[i] == m.lists[f].blocks[i]) &&
    (forall i :: 1 <= i < |fl.blocks| ==>
      if fl.blocks[i] == s + 8 then r == Block(f, i)
      else i < |m.lists[f].blocks| && fl.blocks[i] == m.lists[f].blocks[i])
  }

  lemma ChangeShape(m: Meta, f: nat, fl: FreeList, items: seq<nat>, s: nat, r: Role)
    requires Shape(m) && f < LIST_COUNT && ListShape(fl, items, f)
    ensures Shape(SetList(m, f, fl, items, s, r))
  {
    var n := SetList(m, f, fl, items, s, r);
    forall g | 0 <= g < LIST_COUNT
      ensures ListShape(n.lists[g], n.items[g], g)
    {
      assert ListShape(m.lists[g], m.items[g], g);
    }
  }

  lemma ChangeItems(m: Meta, f: nat, fl: FreeList, items: seq<nat>, s: nat, r: Role)
    requires Shape(m) && f < LIST_COUNT && ItemsFit(m) && ListChange(m, f, fl, items, s, r)
    ensures Shape(SetList(m, f, fl, items, s, r)) && ItemsFit(SetList(m, f, fl, items, s, r))
  {
    ChangeShape(m, f, fl, items, s, r);
    var n := SetList(m, f, fl, items, s, r);
    forall g: nat, j: nat | IsItem(n, g, j)
      ensures n.items[g][j] in n.role && n.role[n.items[g][j]] == Item(g, j)
    {
      if g != f || items[j] != s {
        assert IsItem(m, g, j);
      }
    }
  }

  lemma ChangeBlocks(m: Meta, f: nat, fl: FreeList, items: seq<nat>, s: nat, r: Role)
    requires Shape(m) && f < LIST_COUNT && BlocksFit(m) && ListChange(m, f, fl, items, s, r)
    ensures Shape(SetList(m, f, fl, items, s, r)) && BlocksFit(SetList(m, f, fl, items, s, r))
  {
    ChangeShape(m, f, fl, items, s, r);
    var n := SetList(m, f, fl, items, s, r);
    forall g: nat, i: nat | IsBlock(n, g, i)
      ensures BlockFits(n, g, i)
    {
      if i >= 1 && (g != f || fl.blocks[i] != s + 8) {
        assert IsBlock(m, g, i) && BlockFits(m, g, i);
      }
    }
  }

  lemma ChangeRoles(m: Meta, f: nat, fl: FreeList, items: seq<nat>, s: nat, r: Role)
    requires Shape(m) && f < LIST_COUNT && RolesFit(m) && ListChange(m, f, fl, items, s, r)
    requires RoleShown(fl, items, m.exps[s], f, s, r) && Shape(SetList(m, f, fl, items, s, r))
    ensures RolesFit(SetList(m, f, fl, items, s, r))
  {
    var n := SetList(m, f, fl, items, s, r);
    forall t | t in n.role
      ensures RoleFits(n, t)
    {
      if t != s {
        assert RoleFits(m, t);
      }
    }
  }

  /** The role that the chunk takes is the one that the new list shows. */
  ghost predicate RoleShown(fl: FreeList, items: seq<nat>, e: nat, f: nat, s: nat, r: Role) {
    match r
    case Live => true
    case Lost => true
    case Item(g, j) => g == f && j < |items| && items[j] == s && e == f + 4
    case Block(g, i) => g == f && 1 <= i < |fl.blocks| && fl.blocks[i] == s + 8 && e == BLOCK_EXP
  }

  lemma ChangeLayout(m: Meta, f: nat, fl: FreeList, items: seq<nat>, s: nat, r: Role)
    requires Layout(m) && f < LIST_COUNT && ListChange(m, f, fl, items, s, r)
    requires RoleShown(fl, items, m.exps[s], f, s, r)
    ensures Layout(SetList(m, f, fl, items, s, r))
  {
    ChangeItems(m, f, fl, items, s, r);
    ChangeBlocks(m, f, fl, items, s, r);
    ChangeRoles(m, f, fl, items, s, r);
  }

  lemma PushLayout(m: Meta, f: nat, s: nat)
    requires Layout(m) && f < LIST_COUNT && IsLive(m, s) && m.exps[s] == f + 4
    requires m.lists[f].lastItems < BLOCK_ITEMS
    ensures Layout(Push(m, f, s))
  {
    LiveUnlisted(m, f, s);
    var fl, items := FreeList(m.lists[f].blocks, m.lists[f].lastItems + 1), m.items[f] + [s];
    assert Push(m, f, s) == SetList(m, f, fl, items, s, Item(f, |m.items[f]|));
    PushChange(m, f, s, fl, items);
    ChangeLayout(m, f, fl, items, s, Item(f, |m.items[f]|));
  }

  lemma PushChange(m: Meta, f: nat, s: nat, fl: FreeList, items: seq<nat>)
    requires Shape(m) && f < LIST_COUNT && IsLive(m, s) && m.lists[f].lastItems < BLOCK_ITEMS
    requires ListShape(m.lists[f], m.items[f], f)
    requires forall j :: 0 <= j < |m.items[f]| ==> m.items[f][j] != s
    requires forall i :: 1 <= i < |m.lists[f].blocks| ==> m.lists[f].blocks[i] != s + 8
    requires fl == FreeList(m.lists[f].blocks, m.lists[f].lastItems + 1) && items == m.items[f] + [s]
    ensures ListChange(m, f, fl, items, s, Item(f, |m.items[f]|))
  {
  }

  lemma LiveUnlisted(m: Meta, f: nat, s: nat)
    requires Layout(m) && f < LIST_COUNT && IsLive(m, s)
    ensures forall j :: 0 <= j < |m.items[f]| ==> m.items[f][j] != s
    ensures forall i :: 1 <= i < |m.lists[f].blocks| ==> m.lists[f].blocks[i] != s + 8
    ensures ListShape(m.lists[f], m.items[f], f)
  {
    forall j: nat | j < |m.items[f]| ensures m.items[f][j] != s { assert IsItem(m, f, j); }
    forall i: nat | 1 <= i < |m.lists[f].blocks| ensures m.lists[f].blocks[i] != s + 8 {
      assert IsBlock(m, f, i) && BlockFits(m, f, i);
    }
  }

  lemma ItemsDistinct(m: Meta, f: nat, k: nat)
    requires Layout(m) && IsItem(m, f, k)
    ensures m.items[f][k] in m.role && m.role[m.items[f][k]] == Item(f, k)
    ensures m.items[f][k] in m.exps && m.exps[m.items[f][k]] == f + 4
    ensures forall j :: 0 <= j < |m.items[f]| && j != k ==> m.items[f][j] != m.items[f][k]
    ensures forall i :: 1 <= i < |m.lists[f].blocks| ==> m.lists[f].blocks[i] != m.items[f][k] + 8
    ensures ListShape(m.lists[f], m.items[f], f)
  {
    assert RoleFits(m, m.items[f][k]);
    forall j: nat | j < |m.items[f]| && j != k ensures m.items[f][j] != m.items[f][k] { assert IsItem(m, f, j); }
    forall i: nat | 1 <= i < |m.lists[f].blocks| ensures m.lists[f].blocks[i] != m.items[f][k] + 8 {
      assert IsBlock(m, f, i) && BlockFits(m, f, i);
    }
  }

  lemma PopLayout(m: Meta, f: nat)
    requires Layout(m) && f < LIST_COUNT && m.lists[f].lastItems > 0 && m.items[f] != []
    ensures Layout(Pop(m, f))
    ensures var s := m.items[f][|m.items[f]| - 1]; s in m.exps && m.exps[s] == f + 4 && !IsLive(m, s)
  {
    var k := |m.items[f]| - 1;
    ItemsDistinct(m, f, k);
    var fl, items := FreeList(m.lists[f].blocks, m.lists[f].lastItems - 1), m.items[f][..k];
    PopChange(m, f, k, fl, items);
    ChangeLayout(m, f, fl, items, m.items[f][k], Live);
  }

  lemma PopChange(m: Meta, f: nat, k: nat, fl: FreeList, items: seq<nat>)
    requires Shape(m) && f < LIST_COUNT && m.lists[f].lastItems > 0 && k + 1 == |m.items[f]|
    requires ListShape(m.lists[f], m.items[f], f)
    requires var s := m.items[f][k]; s in m.exps && s in m.role && m.role[s] == Item(f, k)
    requires forall j :: 0 <= j < |m.items[f]| && j != k ==> m.items[f][j] != m.items[f][k]
    requires forall i :: 1 <= i < |m.lists[f].blocks| ==> m.lists[f].blocks[i] != m.items[f][k] + 8
    requires fl == FreeList(m.lists[f].blocks, m.lists[f].lastItems - 1) && items == m.items[f][..k]
    ensures ListChange(m, f, fl, items, m.items[f][k], Live)
  {
  }

  lemma AddBlockLayout(m: Meta, f: nat, s: nat)
    requires Layout(m) && f < LIST_COUNT && IsLive(m, s) && m.exps[s] == BLOCK_EXP
    requires m.lists[f].lastItems == BLOCK_ITEMS
    ensures Layout(AddBlock(m, f, s))
  {
    LiveUnlisted(m, f, s);
    var fl := FreeList(m.lists[f].blocks + [s + 8], 0);
    AddBlockChange(m, f, s, fl);
    ChangeLayout(m, f, fl, m.items[f], s, Block(f, |m.lists[f].blocks|));
  }

  lemma AddBlockChange(m: Meta, f: nat, s: nat, fl: FreeList)
    requires Shape(m) && f < LIST_COUNT && IsLive(m, s) && m.lists[f].lastItems == BLOCK_ITEMS
    requires ListShape(m.lists[f], m.items[f], f)
    requires forall j :: 0 <= j < |m.items[f]| ==> m.items[f][j] != s
    requires forall i :: 1 <= i < |m.lists[f].blocks| ==> m.lists[f].blocks[i] != s + 8
    requires fl == FreeList(m.lists[f].blocks + [s + 8], 0)
    ensures ListChange(m, f, fl, m.items[f], s, Block(f, |m.lists[f].blocks|))
  {
  }

  lemma BlocksDistinct(m: Meta, f: nat, k: nat)
    requires Layout(m) && 1 <= k && IsBlock(m, f, k)
    ensures m.lists[f].blocks[k] >= 8
    ensures var s := m.lists[f].blocks[k] - 8;
      s in m.role && m.role[s] == Block(f, k) && s in m.exps && m.exps[s] == BLOCK_EXP &&
      (forall j :: 0 <= j < |m.items[f]| ==> m.items[f][j] != s)
    ensures forall i :: 1 <= i < |m.lists[f].blocks| && i != k ==> m.lists[f].blocks[i] != m.lists[f].blocks[k]
    ensures ListShape(m.lists[f], m.items[f], f)
  {
    assert BlockFits(m, f, k);
    var s := m.lists[f].blocks[k] - 8;
    assert RoleFits(m, s);
    forall j: nat | j < |m.items[f]| ensures m.items[f][j] != s { assert IsItem(m, f, j); }
    forall i: nat | 1 <= i < |m.lists[f].blocks| && i != k
      ensures m.lists[f].blocks[i] != m.lists[f].blocks[k]
    {
      assert IsBlock(m, f, i) && BlockFits(m, f, i);
    }
  }

  lemma DropBlockLayout(m: Meta, f: nat)
    requires Layout(m) && f < LIST_COUNT && Last(m, f) > 0 && m.lists[f].lastItems == 0
    ensures BlockAt(m, f, Last(m, f)) >= 8 && Layout(DropBlock(m, f))
    ensures var s := BlockAt(m, f, Last(m, f)) - 8; s in m.exps && m.exps[s] == BLOCK_EXP && !IsLive(m, s)
  {
    var i := Last(m, f);
    BlocksDistinct(m, f, i);
    var fl, s := FreeList(m.lists[f].blocks[..i], BLOCK_ITEMS), m.lists[f].blocks[i] - 8;
    DropBlockChange(m, f, i, s, fl);
    ChangeLayout(m, f, fl, m.items[f], s, Live);
  }

  lemma DropBlockChange(m: Meta, f: nat, k: nat, s: nat, fl: FreeList)
    requires Shape(m) && f < LIST_COUNT && m.lists[f].lastItems == 0 && 1 <= k && k + 1 == |m.lists[f].blocks|
    requires ListShape(m.lists[f], m.items[f], f) && m.lists[f].blocks[k] == s + 8
    requires s in m.exps && s in m.role && m.role[s] == Block(f, k)
    requires forall j :: 0 <= j < |m.items[f]| ==> m.items[f][j] != s
    requires forall i :: 1 <= i < |m.lists[f].blocks| && i != k ==> m.lists[f].blocks[i] != m.lists[f].blocks[k]
    requires fl == FreeList(m.lists[f].blocks[..k], BLOCK_ITEMS)
    ensures ListChange(m, f, fl, m.items[f], s, Live)
  {
  }

  // ------------------------------------------------------------------
  // Steps on the disk
  // ------------------------------------------------------------------

  /** Words that do not count yet, or no longer, may be written freely. */
  lemma IdleWrite(d: Disk, m: Meta, f: nat, i: nat, w: nat, v: nat)
    requires Inv(d, m) && IsBlock(m, f, i) && w < 255 && Fits(v) && !IsSlot(m, f, i, w)
    ensures SlotAddr(m, f, i, w) + 8 <= |d|
    ensures var e := PatchWord(d, SlotAddr(m, f, i, w), v);
      Inv(e, m) && Word(e, SlotAddr(m, f, i, w)) == v && Agree(d, e, LiveOf(m))
  {
    SlotWrite(d, m, f, i, w, v);
  }

  lemma LastBlock(m: Meta, f: nat)
    requires Shape(m) && f < LIST_COUNT
    ensures ListShape(m.lists[f], m.items[f], f) && IsBlock(m, f, Last(m, f))
    ensures IsSlot(m, f, Last(m, f), 1) && IsSlot(m, f, Last(m, f), 2)
  {
    assert ListShape(m.lists[f], m.items[f], f);
  }

  lemma SlotWriteAt(d: Disk, e: Disk, m: Meta, f: nat, i: nat, w: nat, v: nat, a: nat)
    requires Inv(d, m) && IsBlock(m, f, i) && w < 255 && Fits(v) && a == BlockAt(m, f, i) + 8 * w
    requires a + 8 <= |d| ==> e == PatchWord(d, a, v)
    ensures a + 8 <= |d| && Word(e, a) == v && Agree(d, e, LiveOf(m))
    ensures Headers(e, Known(m), m.free, m.freeoff) && OtherSlots(e, m, f, i, w)
  {
    SlotWrite(d, m, f, i, w, v);
  }

  lemma SameKnown(m: Meta, n: Meta, s: nat)
    requires s in m.exps && s in m.role && !m.role[s].Lost? && n.exps == m.exps
    requires s in n.role && !n.role[s].Lost? && n.role == m.role[s := n.role[s]]
    ensures Known(n) == Known(m)
  {
  }

  /** Freeing into a list with room: the entry has been written, now the count. */
  lemma PushCount(d: Disk, e: Disk, m: Meta, f: nat, s: nat, b: nat, k: nat)
    requires Inv(d, m) && f < LIST_COUNT && IsLive(m, s) && m.exps[s] == f + 4
    requires k == m.lists[f].lastItems < BLOCK_ITEMS && b == BlockAt(m, f, Last(m, f))
    requires b + 8 * (3 + k) + 8 <= |d| && Word(d, b + 8 * (3 + k)) == s && e == PatchWord(d, b + 8 * 2, k + 1)
    ensures Agree(d, e, LiveOf(m)) && Inv(e, Push(m, f, s))
  {
    SlotWriteAt(d, e, m, f, Last(m, f), 2, k + 1, b + 8 * 2);
    WordAway(d, b + 8 * 2, k + 1, b + 8 * (3 + k));
    PushLayout(m, f, s);
    PushSlots(e, m, f, s, b, k);
    SameKnown(m, Push(m, f, s), s);
  }

  lemma PushSlots(d: Disk, m: Meta, f: nat, s: nat, b: nat, k: nat)
    requires f < LIST_COUNT && Shape(m) && Shape(Push(m, f, s)) && k == m.lists[f].lastItems < BLOCK_ITEMS
    requires b == BlockAt(m, f, Last(m, f)) && b + 8 * (3 + k) + 8 <= |d|
    requires Word(d, b + 8 * (3 + k)) == s && Word(d, b + 8 * 2) == k + 1
    requires OtherSlots(d, m, f, Last(m, f), 2)
    ensures AllSlots(d, Push(m, f, s))
  {
    LastBlock(m, f);
    var n := Push(m, f, s);
    forall g: nat, j: nat, x: nat | IsSlot(n, g, j, x)
      ensures SlotHolds(d, n, g, j, x)
    {
      if IsSlot(m, g, j, x) {
        assert (g, j, x) != (f, Last(m, f), 2) ==> SlotHolds(d, m, g, j, x);
      }
    }
  }

  /** Taking the newest entry: only the count is written. */
  lemma PopCount(d: Disk, m: Meta, f: nat)
    requires Inv(d, m) && f < LIST_COUNT && m.lists[f].lastItems > 0
    ensures var a, k := SlotAddr(m, f, Last(m, f), 2), m.lists[f].lastItems;
      m.items[f] != [] && a + 8 <= |d| &&
      Agree(d, PatchWord(d, a, k - 1), LiveOf(m)) && Inv(PatchWord(d, a, k - 1), Pop(m, f))
  {
    LastBlock(m, f);
    SlotWrite(d, m, f, Last(m, f), 2, m.lists[f].lastItems - 1);
    PopLayout(m, f);
    PopSlots(PatchWord(d, SlotAddr(m, f, Last(m, f), 2), m.lists[f].lastItems - 1), m, f);
    ItemsDistinct(m, f, |m.items[f]| - 1);
    SameKnown(m, Pop(m, f), m.items[f][|m.items[f]| - 1]);
  }

  lemma PopSlots(d: Disk, m: Meta, f: nat)
    requires f < LIST_COUNT && Shape(m) && m.lists[f].lastItems > 0 && m.items[f] != [] && Shape(Pop(m, f))
    requires var a := SlotAddr(m, f, Last(m, f), 2); a + 8 <= |d| && Word(d, a) == m.lists[f].lastItems - 1
    requires OtherSlots(d, m, f, Last(m, f), 2)
    ensures AllSlots(d, Pop(m, f))
  {
    LastBlock(m, f);
    var n := Pop(m, f);
    forall g: nat, j: nat, x: nat | IsSlot(n, g, j, x)
      ensures SlotHolds(d, n, g, j, x)
    {
      assert IsSlot(m, g, j, x);
      assert (g, j, x) != (f, Last(m, f), 2) ==> SlotHolds(d, m, g, j, x);
    }
  }

  /** The newest entry stands where the pop reads it. */
  lemma PopReads(d: Disk, m: Meta, f: nat)
    requires Inv(d, m) && f < LIST_COUNT && m.lists[f].lastItems > 0
    ensures var a := SlotAddr(m, f, Last(m, f), 2 + m.lists[f].lastItems);
      m.items[f] != [] && a + 8 <= |d| && Word(d, a) == m.items[f][|m.items[f]| - 1]
  {
    LastBlock(m, f);
    var w := 2 + m.lists[f].lastItems;
    assert IsSlot(m, f, Last(m, f), w);
    assert SlotHolds(d, m, f, Last(m, f), w);
  }

  /** Unlinking the empty last block: only the previous block's next pointer is written. */
  lemma DropBlockLink(d: Disk, m: Meta, f: nat)
    requires Inv(d, m) && f < LIST_COUNT && Last(m, f) > 0 && m.lists[f].lastItems == 0
    ensures var a := SlotAddr(m, f, Last(m, f) - 1, 1);
      BlockAt(m, f, Last(m, f)) >= 8 && a + 8 <= |d| &&
      Agree(d, PatchWord(d, a, 0), LiveOf(m)) && Inv(PatchWord(d, a, 0), DropBlock(m, f))
  {
    hide Word;
    SlotWrite(d, m, f, Last(m, f) - 1, 1, 0);
    DropBlockFinish(PatchWord(d, SlotAddr(m, f, Last(m, f) - 1, 1), 0), m, f);
  }

  lemma DropBlockFinish(e: Disk, m: Meta, f: nat)
    requires Layout(m) && f < LIST_COUNT && Last(m, f) > 0 && m.lists[f].lastItems == 0
    requires var a := SlotAddr(m, f, Last(m, f) - 1, 1); a + 8 <= |e| && Word(e, a) == 0
    requires Headers(e, Known(m), m.free, m.freeoff) && OtherSlots(e, m, f, Last(m, f) - 1, 1)
    ensures BlockAt(m, f, Last(m, f)) >= 8 && Inv(e, DropBlock(m, f))
  {
    DropBlockLayout(m, f);
    DropBlockSlots(e, m, f);
    BlocksDistinct(m, f, Last(m, f));
    SameKnown(m, DropBlock(m, f), BlockAt(m, f, Last(m, f)) - 8);
  }

  lemma DropBlockSlots(d: Disk, m: Meta, f: nat)
    requires f < LIST_COUNT && Shape(m) && Last(m, f) > 0 && m.lists[f].lastItems == 0
    requires BlockAt(m, f, Last(m, f)) >= 8 && Shape(DropBlock(m, f))
    requires var a := SlotAddr(m, f, Last(m, f) - 1, 1); a + 8 <= |d| && Word(d, a) == 0
    requires OtherSlots(d, m, f, Last(m, f) - 1, 1)
    ensures AllSlots(d, DropBlock(m, f))
  {
    LastBlock(m, f);
    var n := DropBlock(m, f);
    forall g: nat, j: nat, x: nat | IsSlot(n, g, j, x)
      ensures SlotHolds(d, n, g, j, x)
    {
      assert IsSlot(m, g, j, x);
      assert (g, j, x) != (f, Last(m, f) - 1, 1) ==> SlotHolds(d, m, g, j, x);
    }
  }

  /** Linking a prepared block behind the full last one. */
  lemma AddBlockLink(d: Disk, e: Disk, m: Meta, f: nat, s: nat, a: nat)
    requires Inv(d, m) && f < LIST_COUNT && IsLive(m, s) && m.exps[s] == BLOCK_EXP && Fits(s + 8)
    requires m.lists[f].lastItems == BLOCK_ITEMS && a == BlockAt(m, f, Last(m, f)) + 8
    requires s + 32 <= |d| && Word(d, s + 16) == 0 && Word(d, s + 24) == 0
    requires a + 8 <= |d| ==> e == PatchWord(d, a, s + 8)
    ensures a + 8 <= |d| && Agree(d, e, LiveOf(m)) && Inv(e, AddBlock(m, f, s))
  {
    SlotWriteAt(d, e, m, f, Last(m, f), 1, s + 8, a);
    AddBlockKeeps(d, m, f, s, a);
    AddBlockLayout(m, f, s);
    AddBlockSlots(e, m, f, s, a);
    SameKnown(m, AddBlock(m, f, s), s);
  }

  lemma AddBlockKeeps(d: Disk, m: Meta, f: nat, s: nat, a: nat)
    requires Layout(m) && f < LIST_COUNT && IsLive(m, s) && m.exps[s] == BLOCK_EXP && s + 32 <= |d|
    requires a == BlockAt(m, f, Last(m, f)) + 8 && a + 8 <= |d|
    ensures Word(PatchWord(d, a, s + 8), s + 16) == Word(d, s + 16)
    ensures Word(PatchWord(d, a, s + 8), s + 24) == Word(d, s + 24)
  {
    Pow2Values();
    SlotOutside(m, f, Last(m, f), 1, s);
    WordAway(d, a, s + 8, s + 16);
    WordAway(d, a, s + 8, s + 24);
  }

  lemma AddBlockSlots(d: Disk, m: Meta, f: nat, s: nat, a: nat)
    requires f < LIST_COUNT && Shape(m) && m.lists[f].lastItems == BLOCK_ITEMS && Shape(AddBlock(m, f, s))
    requires a == BlockAt(m, f, Last(m, f)) + 8 && a + 8 <= |d| && Word(d, a) == s + 8
    requires s + 32 <= |d| && Word(d, s + 16) == 0 && Word(d, s + 24) == 0
    requires OtherSlots(d, m, f, Last(m, f), 1)
    ensures AllSlots(d, AddBlock(m, f, s))
  {
    LastBlock(m, f);
    var n := AddBlock(m, f, s);
    forall g: nat, j: nat, x: nat | IsSlot(n, g, j, x)
      ensures SlotHolds(d, n, g, j, x)
    {
      if IsSlot(m, g, j, x) {
        assert (g, j, x) != (f, Last(m, f), 1) ==> SlotHolds(d, m, g, j, x);
      }
    }
  }

  // ------------------------------------------------------------------
  // Fresh space at the end of the file
  // ------------------------------------------------------------------

  /** The header says that `free` bytes follow the chunks. */
  ghost function Freed(m: Meta, free: nat): (n: Meta) {
    m.(free := free)
  }

  /** A new chunk where the free space begins. */
  ghost function Carve(m: Meta, e: nat, r: Role): (n: Meta)
    requires Pow2(e) <= m.free
  {
    m.(free := m.free - Pow2(e), freeoff := m.freeoff + Pow2(e),
       exps := m.exps[m.freeoff := e], role := m.role[m.freeoff := r])
  }

  /** `p` names chunks of `exps`. */
  ghost predicate Among(p: map<nat, nat>, exps: map<nat, nat>) {
    forall s :: s in p ==> s in exps && p[s] == exps[s]
  }

  lemma WordPrefix(d: Disk, z: seq<byte>, a: nat)
    requires a + 8 <= |d|
    ensures Word(d + z, a) == Word(d, a)
  {
    assert (d + z)[a..a + 8] == d[a..a + 8];
  }

  lemma CarveLayout(m: Meta, e: nat, r: Role)
    requires Layout(m) && 4 <= e && Pow2(e) <= m.free && (r == Live || r == Lost)
    ensures Layout(Carve(m, e, r)) && m.freeoff !in m.exps
  {
    CarveTiled(m.exps, m.freeoff, e);
    var n := Carve(m, e, r);
    assert forall f :: 0 <= f < LIST_COUNT ==> ListShape(m.lists[f], m.items[f], f) ==>
      ListShape(n.lists[f], n.items[f], f);
    CarveRoles(m, e, r);
  }

  lemma CarveTiled(exps: map<nat, nat>, hi: nat, e: nat)
    requires Tiled(exps, HEAP_START, hi) && 4 <= e && HEAP_START <= hi
    ensures hi !in exps && Tiled(exps[hi := e], HEAP_START, hi + Pow2(e))
  {
    var more := exps[hi := e];
    assert hi !in exps;
    forall x | HEAP_START <= x < hi + Pow2(e)
      ensures Covered(more, x)
    {
      if x < hi {
        assert Covered(exps, x);
        var s :| Covers(exps, s, x);
        assert Covers(more, s, x);
      } else {
        assert Covers(more, hi, x);
      }
    }
  }

  lemma CarveRoles(m: Meta, e: nat, r: Role)
    requires Layout(m) && 4 <= e && Pow2(e) <= m.free && m.freeoff !in m.exps && Shape(Carve(m, e, r))
    requires r == Live || r == Lost
    ensures Roles(Carve(m, e, r))
  {
    var n := Carve(m, e, r);
    forall s | s in n.role ensures RoleFits(n, s) {
      if s != m.freeoff { assert RoleFits(m, s); }
    }
    forall f: nat, j: nat | IsItem(n, f, j)
      ensures n.items[f][j] in n.role && n.role[n.items[f][j]] == Item(f, j)
    {
      assert IsItem(m, f, j);
    }
    forall f: nat, i: nat | IsBlock(n, f, i) ensures BlockFits(n, f, i) {
      assert IsBlock(m, f, i) && BlockFits(m, f, i);
    }
  }

  /** Any change of the header and of the free space leaves slots and sizes be. */
  ghost predicate SameBelow(d: Disk, e: Disk, hi: nat) {
    32 <= hi <= |d| && hi <= |e| && e[32..hi] == d[32..hi]
  }

  lemma SameBelowWord(d: Disk, e: Disk, hi: nat, a: nat)
    requires SameBelow(d, e, hi) && 32 <= a && a + 8 <= hi
    ensures Word(e, a) == Word(d, a)
  {
    SubSlice(d, 32, hi, a, a + 8);
    SubSlice(e, 32, hi, a, a + 8);
  }

  lemma SameBelowSlots(d: Disk, e: Disk, m: Meta)
    requires Inv(d, m) && SameBelow(d, e, m.freeoff)
    ensures AllSlots(e, m)
    ensures forall s :: s in Known(m) ==> HeaderHolds(e, Known(m), s)
  {
    forall f: nat, i: nat, w: nat | IsSlot(m, f, i, w)
      ensures SlotHolds(e, m, f, i, w)
    {
      assert SlotHolds(d, m, f, i, w);
      BlockPlace(m, f, i);
      SameBelowWord(d, e, m.freeoff, SlotAddr(m, f, i, w));
    }
    forall s | s in Known(m)
      ensures HeaderHolds(e, Known(m), s)
    {
      assert HeaderHolds(d, Known(m), s);
      Pow2Values();
      Pow2Grows(4, m.exps[s]);
      SameBelowWord(d, e, m.freeoff, s);
    }
  }

  lemma SameBelowAgrees(d: Disk, e: Disk, exps: map<nat, nat>, hi: nat, p: map<nat, nat>)
    requires Tiled(exps, HEAP_START, hi) && HEAP_START <= hi && Among(p, exps)
    requires SameBelow(d, e, hi)
    ensures Agree(d, e, p)
  {
    forall s | s in p
      ensures SameChunk(d, e, s, p[s])
    {
      SubSlice(d, 32, hi, s, s + Pow2(p[s]));
      SubSlice(e, 32, hi, s, s + Pow2(p[s]));
    }
    SubSlice(d, 32, hi, HDR_ROOTPTR_POS, HDR_ROOTPTR_POS + 8);
    SubSlice(e, 32, hi, HDR_ROOTPTR_POS, HDR_ROOTPTR_POS + 8);
  }

  /** The layout does not depend on how much free space follows it, nor on which of the chunks
      handed out are lost. */
  lemma LayoutStays(m: Meta, n: Meta)
    requires Layout(m) && n.lists == m.lists && n.items == m.items && n.exps == m.exps && n.freeoff == m.freeoff
    requires n.role.Keys == m.role.Keys
    requires forall s :: s in m.role ==> n.role[s] == m.role[s] || (m.role[s] == Live && n.role[s] == Lost)
    ensures Layout(n)
  {
    forall f | 0 <= f < LIST_COUNT
      ensures ListShape(n.lists[f], n.items[f], f)
    {
      assert ListShape(m.lists[f], m.items[f], f);
    }
    forall s | s in n.role ensures RoleFits(n, s) { assert RoleFits(m, s); }
    forall f: nat, j: nat | IsItem(n, f, j)
      ensures n.items[f][j] in n.role && n.role[n.items[f][j]] == Item(f, j)
    {
      assert IsItem(m, f, j);
    }
    forall f: nat, i: nat | IsBlock(n, f, i) ensures BlockFits(n, f, i) {
      assert IsBlock(m, f, i) && BlockFits(m, f, i);
    }
  }

  /** Another amount of free space, or another file behind it. */
  lemma FreedFinish(d: Disk, e: Disk, m: Meta, free: nat)
    requires Inv(d, m) && SameBelow(d, e, m.freeoff) && m.freeoff + free <= |e|
    requires Word(e, HDR_FREE_POS) == free && Word(e, HDR_FREEOFF_POS) == m.freeoff
    ensures Inv(e, Freed(m, free))
  {
    LayoutStays(m, Freed(m, free));
    SameBelowSlots(d, e, m);
    SlotsCarry(e, m, Freed(m, free));
  }

  /** A fresh allocation is complete once the two header words and the new chunk's size word
      are on disk; whatever lay below is as before. Without the size word the chunk is lost. */
  lemma CarveFinish(d: Disk, e: Disk, m: Meta, free: nat, x: nat, r: Role)
    requires Inv(d, m) && SameBelow(d, e, m.freeoff) && 4 <= x && (r == Live || r == Lost)
    requires Pow2(x) <= free && m.freeoff + free <= |e|
    requires Word(e, HDR_FREE_POS) == free - Pow2(x) && Word(e, HDR_FREEOFF_POS) == m.freeoff + Pow2(x)
    requires m.freeoff + 8 <= |e| && (r == Live ==> IsClass(Word(e, m.freeoff), x))
    ensures Inv(e, Carve(Freed(m, free), x, r)) && m.freeoff !in m.exps
  {
    var g := Freed(m, free);
    LayoutStays(m, g);
    CarveLayout(g, x, r);
    SameBelowSlots(d, e, m);
    var n := Carve(g, x, r);
    SlotsCarry(e, m, n);
    CarveKnown(m, n, x, r);
    if r == Live { CarveHeaders(e, Known(m), m.freeoff, x, Known(n)); }
  }

  lemma CarveKnown(m: Meta, n: Meta, x: nat, r: Role)
    requires m.freeoff !in m.exps && n.exps == m.exps[m.freeoff := x] && n.role == m.role[m.freeoff := r]
    ensures Known(n) == if r.Lost? then Known(m) else Known(m)[m.freeoff := x]
  {
  }

  lemma CarveHeaders(e: Disk, exps: map<nat, nat>, a: nat, x: nat, more: map<nat, nat>)
    requires forall s :: s in exps ==> HeaderHolds(e, exps, s)
    requires a + 8 <= |e| && IsClass(Word(e, a), x) && a !in exps && more == exps[a := x]
    ensures forall s :: s in more ==> HeaderHolds(e, more, s)
  {
    forall s | s in more
      ensures HeaderHolds(e, more, s)
    {
      if s != a { assert HeaderHolds(e, exps, s); }
    }
  }

  lemma SlotsCarry(e: Disk, m: Meta, n: Meta)
    requires Shape(m) && Shape(n) && n.lists == m.lists && n.items == m.items && AllSlots(e, m)
    ensures AllSlots(e, n)
  {
    forall f: nat, i: nat, w: nat | IsSlot(n, f, i, w)
      ensures SlotHolds(e, n, f, i, w)
    {
      assert IsSlot(m, f, i, w) && SlotHolds(e, m, f, i, w);
    }
  }

  // ------------------------------------------------------------------
  // Writes into chunks that are handed out, and of the root pointer
  // ------------------------------------------------------------------

  ghost function Without(p: map<nat, nat>, s: nat): (q: map<nat, nat>) {
    map t | t in p && t != s :: p[t]
  }

  /** A write inside a live chunk: free lists and all other chunks keep their bytes. */
  lemma LivePatch(d: Disk, m: Meta, s: nat, a: nat, bytes: seq<byte>)
    requires Inv(d, m) && IsLive(m, s) && s <= a && a + |bytes| <= s + Pow2(m.exps[s])
    ensures a + |bytes| <= |d|
    ensures AllSlots(Patch(d, a, bytes), m) && Agree(d, Patch(d, a, bytes), Without(LiveOf(m), s))
    ensures forall t :: t in Known(m) && t != s ==> HeaderHolds(Patch(d, a, bytes), Known(m), t)
    ensures Word(Patch(d, a, bytes), HDR_FREE_POS) == m.free && Word(Patch(d, a, bytes), HDR_FREEOFF_POS) == m.freeoff
  {
    var e := Patch(d, a, bytes);
    WordUntouched(d, a, bytes, HDR_FREE_POS);
    WordUntouched(d, a, bytes, HDR_FREEOFF_POS);
    LivePatchSlots(d, m, s, a, bytes);
    LivePatchChunks(d, m.exps, m.freeoff, s, a, bytes, Without(LiveOf(m), s));
    forall t | t in Known(m) && t != s
      ensures HeaderHolds(e, Known(m), t)
    {
      assert HeaderHolds(d, Known(m), t);
      ChunksApart(m.exps, m.freeoff, s, t);
      Pow2Values();
      Pow2Grows(4, m.exps[t]);
      WordUntouched(d, a, bytes, t);
    }
  }

  lemma LivePatchSlots(d: Disk, m: Meta, s: nat, a: nat, bytes: seq<byte>)
    requires Layout(m) && AllSlots(d, m)
    requires IsLive(m, s) && s <= a && a + |bytes| <= s + Pow2(m.exps[s]) && a + |bytes| <= |d|
    ensures AllSlots(Patch(d, a, bytes), m)
  {
    forall f: nat, i: nat, w: nat | IsSlot(m, f, i, w)
      ensures SlotHolds(Patch(d, a, bytes), m, f, i, w)
    {
      assert SlotHolds(d, m, f, i, w);
      SlotOutside(m, f, i, w, s);
      WordUntouched(d, a, bytes, SlotAddr(m, f, i, w));
    }
  }

  lemma LivePatchChunks(d: Disk, exps: map<nat, nat>, hi: nat, s: nat, a: nat, bytes: seq<byte>, p: map<nat, nat>)
    requires Tiled(exps, HEAP_START, hi) && HEAP_START <= hi <= |d| && s in exps && s !in p && Among(p, exps)
    requires s <= a && a + |bytes| <= s + Pow2(exps[s]) && a + |bytes| <= |d|
    ensures Agree(d, Patch(d, a, bytes), p)
  {
    PatchAway(d, a, bytes, HDR_ROOTPTR_POS, HDR_ROOTPTR_POS + 8);
    forall t | t in p
      ensures SameChunk(d, Patch(d, a, bytes), t, p[t])
    {
      ChunksApart(exps, hi, s, t);
      PatchAway(d, a, bytes, t, t + Pow2(p[t]));
    }
  }

  /** The payload: everything behind the size word. */
  lemma PayloadWrite(d: Disk, m: Meta, s: nat, a: nat, bytes: seq<byte>)
    requires Inv(d, m) && IsLive(m, s) && s + 8 <= a && a + |bytes| <= s + Pow2(m.exps[s])
    ensures a + |bytes| <= |d| && Inv(Patch(d, a, bytes), m)
    ensures Agree(d, Patch(d, a, bytes), Without(LiveOf(m), s))
  {
    LivePatch(d, m, s, a, bytes);
    assert s in Known(m) && HeaderHolds(d, Known(m), s);
    WordUntouched(d, a, bytes, s);
  }

  /** The size word, when a chunk is reused for another size of its class. */
  lemma SizeWrite(d: Disk, m: Meta, s: nat, size: nat)
    requires Inv(d, m) && IsLive(m, s) && IsClass(size, m.exps[s]) && Fits(size)
    ensures s + 8 <= |d| && Inv(PatchWord(d, s, size), m)
    ensures Agree(d, PatchWord(d, s, size), Without(LiveOf(m), s)) && Word(PatchWord(d, s, size), s) == size
  {
    Pow2Values();
    Pow2Grows(4, m.exps[s]);
    LivePatch(d, m, s, s, ToBE(size, 8));
    WordPatched(d, s, size);
  }

  /** The root pointer lies outside everything the allocator looks at. */
  lemma RootWrite(d: Disk, m: Meta, v: nat)
    requires Inv(d, m) && Fits(v)
    ensures var e := PatchWord(d, HDR_ROOTPTR_POS, v);
      Inv(e, m) && Word(e, HDR_ROOTPTR_POS) == v &&
      forall s :: s in m.exps ==> SameChunk(d, e, s, m.exps[s])
  {
    WordPatched(d, HDR_ROOTPTR_POS, v);
    WordAway(d, HDR_ROOTPTR_POS, v, HDR_FREE_POS);
    WordAway(d, HDR_ROOTPTR_POS, v, HDR_FREEOFF_POS);
    RootWriteSlots(d, m, v);
    forall s | s in m.exps
      ensures SameChunk(d, PatchWord(d, HDR_ROOTPTR_POS, v), s, m.exps[s])
    {
      PatchAway(d, HDR_ROOTPTR_POS, ToBE(v, 8), s, s + Pow2(m.exps[s]));
    }
    forall s | s in Known(m)
      ensures HeaderHolds(PatchWord(d, HDR_ROOTPTR_POS, v), Known(m), s)
    {
      assert HeaderHolds(d, Known(m), s);
      WordAway(d, HDR_ROOTPTR_POS, v, s);
    }
  }

  lemma RootWriteSlots(d: Disk, m: Meta, v: nat)
    requires Inv(d, m)
    ensures AllSlots(PatchWord(d, HDR_ROOTPTR_POS, v), m)
  {
    forall f: nat, i: nat, w: nat | IsSlot(m, f, i, w)
      ensures SlotHolds(PatchWord(d, HDR_ROOTPTR_POS, v), m, f, i, w)
    {
      assert SlotHolds(d, m, f, i, w);
      SlotInFile(d, m, f, i, w);
      WordAway(d, HDR_ROOTPTR_POS, v, SlotAddr(m, f, i, w));
    }
  }

  // ------------------------------------------------------------------
  // What each step hands out or takes back
  // ------------------------------------------------------------------

  lemma Retired(m: Meta, n: Meta, s: nat)
    requires IsLive(m, s) && n.exps == m.exps && s in n.role && n.role[s] != Live
    requires n.role == m.role[s := n.role[s]]
    ensures LiveOf(n) == Without(LiveOf(m), s)
  {
  }

  lemma Revived(m: Meta, n: Meta, s: nat)
    requires s in m.exps && s in m.role && m.role[s] != Live && n.exps == m.exps && n.role == m.role[s := Live]
    ensures s !in LiveOf(m) && LiveOf(n) == LiveOf(m)[s := m.exps[s]]
  {
  }

  lemma CarveLive(m: Meta, n: Meta, x: nat, r: Role)
    requires m.freeoff !in m.exps && n.exps == m.exps[m.freeoff := x] && n.role == m.role[m.freeoff := r]
    ensures m.freeoff !in LiveOf(m) && LiveOf(n) == if r == Live then LiveOf(m)[m.freeoff := x] else LiveOf(m)
  {
  }

  // ------------------------------------------------------------------
  // What a crash loses
  // ------------------------------------------------------------------

  /** All chunks handed out but those in `keep` are lost. */
  ghost function Lose(m: Meta, keep: iset<nat>): (n: Meta) {
    m.(role := map s | s in m.role :: if m.role[s] == Live && s !in keep then Lost else m.role[s])
  }

  /** The same file, with chunks that nothing refers to any more. */
  lemma LoseFinish(d: Disk, m: Meta, keep: iset<nat>)
    requires Inv(d, m)
    ensures Inv(d, Lose(m, keep))
    ensures LiveOf(Lose(m, keep)) == map s | s in LiveOf(m) && s in keep :: LiveOf(m)[s]
  {
    hide Roles;
    LayoutStays(m, Lose(m, keep));
    SlotsCarry(d, m, Lose(m, keep));
    forall s | s in Known(Lose(m, keep))
      ensures HeaderHolds(d, Known(Lose(m, keep)), s)
    {
      assert HeaderHolds(d, Known(m), s);
    }
  }
}
