/** The on-disk allocator: power-of-two chunks, and free lists kept in blocks
    that come from the same allocator. */
module Allocator {
  import opened Bytes
  import opened Disk
  import opened AllocatorModel
  import opened AllocatorSteps
  import opened AllocatorStates

  /** The power of two that a request is rounded up to. */
  method AllocRealsize(size: nat) returns (realsize: nat, ghost x: nat)
    ensures realsize == Pow2(x) && IsClass(size, x)
    ensures realsize >= 16 && realsize >= size + 8 && (realsize == 16 || realsize / 2 < size + 8)
  {
    realsize, x := 16, 4;
    Pow2Values();
    while realsize < size + 8
      invariant realsize == Pow2(x) && 4 <= x && (x > 4 ==> Pow2(x - 1) < size + 8)
      decreases size + 8 - realsize
    {
      realsize, x := 2 * realsize, x + 1;
    }
  }

  /** Base-two logarithm of a power of two. */
  method LogTwo(n: nat, ghost x: nat) returns (log: int)
    requires n == Pow2(x)
    ensures log == x
  {
    log := -1;
    var m := n;
    while m > 0
      invariant -1 <= log <= x && m == if log == x then 0 else Pow2(x - 1 - log)
    {
      log := log + 1;
      m := m / 2;
    }
  }

  /** No list but `f` has changed. */
  ghost predicate OthersKept(a: seq<FreeList>, b: seq<FreeList>, f: nat) {
    |a| == |b| && forall g :: 0 <= g < |a| && g != f ==> b[g] == a[g]
  }

  /** Nor have its entries. */
  ghost predicate ItemsKept(a: seq<seq<nat>>, b: seq<seq<nat>>, f: nat) {
    |a| == |b| && forall g :: 0 <= g < |a| && g != f ==> b[g] == a[g]
  }

  /** p is the newest entry of list f, which has another one in b no more. */
  ghost predicate Newest(a: seq<seq<nat>>, b: seq<seq<nat>>, f: int, p: int) {
    0 <= f < |a| && f < |b| && p >= 0 && a[f] == b[f] + [p]
  }

  /** "REDBTREE00000000" */
  const MAGIC: seq<byte> :=
    [0x52, 0x45, 0x44, 0x42, 0x54, 0x52, 0x45, 0x45, 0x30, 0x30, 0x30, 0x30, 0x30, 0x30, 0x30, 0x30]

  function Zeros(n: nat): (s: seq<byte>)
    ensures |s| == n && forall i :: 0 <= i < n ==> s[i] == 0
  {
    seq(n, _ => 0)
  }

  /** There is no chunk on list f, nor a block that could be given up. */
  ghost predicate NoneListed(lists: seq<FreeList>, f: int) {
    0 <= f < |lists| && lists[f].lastItems == 0 && |lists[f].blocks| == 1
  }

  /** The chunk at `ptr` is taken from list f: the newest entry, for which an empty last block is
      given up; or that block itself, if it has the very size. */
  ghost predicate TakenFrom(a: seq<FreeList>, b: seq<FreeList>, ia: seq<seq<nat>>, ib: seq<seq<nat>>, f: int,
      ptr: int)
  {
    0 <= f < |a| && f < |b| && f < |ia| && f < |ib| && a[f].blocks != [] &&
    var fl, n := a[f], |a[f].blocks| - 1;
    if fl.lastItems > 0 then
      b == a[f := FreeList(fl.blocks, fl.lastItems - 1)] && Newest(ia, ib, f, ptr - 8) && ItemsKept(ia, ib, f)
    else if f == BLOCK_EXP - 4 then
      b == a[f := FreeList(fl.blocks[..n], BLOCK_ITEMS)] && ptr == fl.blocks[n] && ib == ia
    else
      b[f] == FreeList(fl.blocks[..n], BLOCK_ITEMS - 1) && Newest(ia, ib, f, ptr - 8)
  }

  ghost predicate FullList(a: seq<FreeList>, f: int) {
    0 <= f < |a| && a[f].lastItems == BLOCK_ITEMS
  }

  /** The chunk at `ptr` is given to list f: its newest entry, for which a new block is linked to a
      list whose blocks are full; or that block itself, if it has the very size. */
  ghost predicate GivenTo(a: seq<FreeList>, b: seq<FreeList>, ia: seq<seq<nat>>, ib: seq<seq<nat>>, f: int, ptr: nat) {
    0 <= f < |a| && f < |b| && f < |ia| && f < |ib| &&
    var fl := a[f];
    if fl.lastItems < BLOCK_ITEMS then
      b[f] == FreeList(fl.blocks, fl.lastItems + 1) && Newest(ib, ia, f, ptr - 8)
    else if f == BLOCK_EXP - 4 then
      b[f] == FreeList(fl.blocks + [ptr], 0) && ib == ia
    else
      |b[f].blocks| == |fl.blocks| + 1 && fl.blocks <= b[f].blocks && b[f].lastItems == 1 && Newest(ib, ia, f, ptr - 8)
  }

  class Store {
    var file: Disk
    var free: nat
    var freeoff: nat
    var freelist: seq<FreeList>

    /** The layout in the reader's terms: entries, chunk sizes, chunk roles. */
    ghost var items: seq<seq<nat>>
    ghost var exps: map<nat, nat>
    ghost var role: map<nat, Role>
    /** Every state of the file so far, one per write. */
    ghost var log: seq<Disk>
    /** How often the file may still grow before offsets leave 63 bits. */
    ghost var budget: nat

    ghost function S(): (s: State)
      reads this
    {
      State(file, log, Meta(free, freeoff, freelist, items, exps, role), budget)
    }

    ghost predicate Valid()
      reads this
    {
      Good(S())
    }

    ghost method SetMeta(m: Meta)
      modifies this`items, this`exps, this`role
      ensures items == m.items && exps == m.exps && role == m.role
    {
      items, exps, role := m.items, m.exps, m.role;
    }

    /** A new file: header, 28 empty lists, room for a root pointer and a node. */
    constructor ()
      ensures Valid() && InUse(S()) == map[] && |file| == HEAP_START && fresh(this)
    {
      file, log, free, freeoff, freelist := [], [], 0, 0, [];
      items, exps, role := NewMeta().items, NewMeta().exps, NewMeta().role;
      budget := 0;
      new;
      Format();
      NewInv(file);
      ReadMetadata(NewMeta());
    }

    /** Opens the file of an allocator whose layout is `m`. */
    constructor Open(d: Disk, ghost m: Meta)
      requires Tuned(d, m) && MayGrow(d, 0)
      ensures Valid() && file == d && InUse(S()) == InUse(State(d, [], m, 0)) && S().meta == m && fresh(this)
    {
      file, log, free, freeoff, freelist := d, [], 0, 0, [];
      items, exps, role, budget := m.items, m.exps, m.role, 0;
      new;
      ReadMetadata(m);
    }

    /** Notes how often the file may grow from here. */
    ghost method Refill(n: nat)
      requires Valid() && MayGrow(file, n)
      modifies this`budget
      ensures Valid() && budget == n && S() == old(S()).(budget := n) && InUse(S()) == InUse(old(S()))
    {
      Refilled(S(), n);
      budget := n;
    }

    /** Writes the header and the first block of every list. */
    method Format()
      requires file == []
      modifies this`file, this`log
      ensures Blank(file)
    {
      Resize(HEAP_START);
      PWrite(MAGIC, 0);
      HeadWritten(file);
      PWriteWord(0, HDR_FREE_POS);
      PWriteWord(HEAP_START, HDR_FREEOFF_POS);
      ghost var e := file;
      var j := 0;
      while j < LIST_COUNT
        invariant 0 <= j <= LIST_COUNT && |file| == HEAP_START && file[..32] == e[..32] && ZeroLists(file)
      {
        FormatList(32 + BLOCK_SIZE * j);
        j := j + 1;
      }
      SubSlice(file, 0, 32, 16, 24);
      SubSlice(e, 0, 32, 16, 24);
      SubSlice(file, 0, 32, 24, 32);
      SubSlice(e, 0, 32, 24, 32);
    }

    /** Next and previous block, and the number of entries: all zero. */
    method FormatList(off: nat)
      requires |file| == HEAP_START && 32 <= off && off + BLOCK_SIZE <= HDR_ROOTPTR_POS && ZeroLists(file)
      modifies this`file, this`log
      ensures |file| == HEAP_START && file[..32] == old(file)[..32] && ZeroLists(file)
    {
      ZeroPatch(file, off, 8);
      PWriteWord(0, off);
      ZeroPatch(file, off + 8, 8);
      PWriteWord(0, off + 8);
      ZeroPatch(file, off + 16, 4);
      PWrite(ToBE(0, 4), off + 16);
    }

    /** Loads the words about free space and the list blocks from the file. */
    method ReadMetadata(ghost m: Meta)
      requires Tuned(file, m)
      modifies this`free, this`freeoff, this`freelist
      ensures free == m.free && freeoff == m.freeoff && freelist == m.lists
    {
      HeadSays(file, m);
      free := Word(file, HDR_FREE_POS);
      freeoff := Word(file, HDR_FREEOFF_POS);
      freelist := [];
      var j := 0;
      while j < LIST_COUNT
        invariant 0 <= j <= LIST_COUNT && freelist == m.lists[..j]
        invariant free == m.free && freeoff == m.freeoff
      {
        var fl := ReadList(j, m);
        freelist := freelist + [fl];
        j := j + 1;
      }
    }

    method ReadList(j: nat, ghost m: Meta) returns (fl: FreeList)
      requires Tuned(file, m) && j < LIST_COUNT && j < |m.lists|
      ensures fl == m.lists[j]
    {
      HeadSays(file, m);
      ghost var blocks := m.lists[j].blocks;
      fl := FreeList([], 0);
      var ptr := 32 + BLOCK_SIZE * j;
      while ptr != 0 || fl.blocks == []
        invariant fl.blocks <= blocks
        invariant ptr == if |fl.blocks| < |blocks| then blocks[|fl.blocks|] else 0
        invariant ptr == 0 ==> fl.blocks == blocks
        invariant |fl.blocks| == |blocks| ==> fl.lastItems == m.lists[j].lastItems
        decreases |blocks| - |fl.blocks|
      {
        BlockSays(file, m, j, |fl.blocks|);
        var nextptr := Word(file, ptr + 8);
        var numitems := Word(file, ptr + 16);
        fl := FreeList(fl.blocks + [ptr], numitems);
        ptr := nextptr;
      }
      assert fl == FreeList(blocks, m.lists[j].lastItems);
    }

    method PWrite(bytes: seq<byte>, a: nat)
      requires a + |bytes| <= |file|
      modifies this`file, this`log
      ensures file == Patch(old(file), a, bytes) && log == old(log) + [file]
    {
      file := Patch(file, a, bytes);
      log := log + [file];
    }

    method PWriteWord(v: nat, a: nat)
      requires a + 8 <= |file|
      modifies this`file, this`log
      ensures file == PatchWord(old(file), a, v) && log == old(log) + [file]
    {
      PWrite(ToBE(v, 8), a);
    }

    /** `ftruncate`: extends the file by zeros, or cuts it off. */
    method Resize(size: nat)
      modifies this`file, this`log
      ensures file == (if size <= |old(file)| then old(file)[..size] else old(file) + Zeros(size - |old(file)|))
      ensures log == old(log) + [file]
    {
      file := if size <= |file| then file[..size] else file + Zeros(size - |file|);
      log := log + [file];
    }

    /** Takes the newest entry of a list that has one. */
    method PopItem(f: nat) returns (p: nat)
      requires Valid() && f < LIST_COUNT && f < |freelist| && freelist[f].lastItems > 0
      modifies this`file, this`log, this`freelist, this`items, this`exps, this`role
      ensures Valid() && Moves(old(S()), S(), InUse(old(S())))
      ensures p !in InUse(old(S())) && InUse(S()) == InUse(old(S()))[p := f + 4]
      ensures budget == old(budget) && free == old(free) && freeoff == old(freeoff)
      ensures freelist == old(freelist)[f := FreeList(old(freelist[f].blocks), old(freelist[f].lastItems) - 1)]
      ensures Newest(old(items), items, f, p) && ItemsKept(old(items), items, f)
    {
      ghost var s := S();
      ListKnown(s, f);
      var fl := freelist[f];
      var block := fl.blocks[|fl.blocks| - 1];
      ghost var q := PopMove(s, f, block, fl.lastItems);
      p := Word(file, block + 8 * (2 + fl.lastItems));
      freelist := freelist[f := FreeList(fl.blocks, fl.lastItems - 1)];
      SetMeta(PopMeta(s.meta, f));
      PWriteWord(fl.lastItems - 1, block + 8 * 2);
      assert S() == Wrote(s, file, PopMeta(s.meta, f));
    }

    /** Takes the empty last block off a list that has another one. */
    method DropEmptyBlock(f: nat) returns (lastblock: nat)
      requires Valid() && f < LIST_COUNT && f < |freelist| && freelist[f].lastItems == 0 && |freelist[f].blocks| > 1
      modifies this`file, this`log, this`freelist, this`items, this`exps, this`role
      ensures Valid() && Moves(old(S()), S(), InUse(old(S())))
      ensures lastblock >= 8 && lastblock - 8 !in InUse(old(S()))
      ensures InUse(S()) == InUse(old(S()))[lastblock - 8 := BLOCK_EXP]
      ensures var fl := old(freelist[f].blocks);
        lastblock == fl[|fl| - 1] && freelist == old(freelist)[f := FreeList(fl[..|fl| - 1], BLOCK_ITEMS)]
      ensures free == old(free) && freeoff == old(freeoff) && budget == old(budget) && items == old(items)
    {
      ghost var s := S();
      var fl := freelist[f];
      var n := |fl.blocks|;
      DropMove(s, f, n);
      var prevblock := fl.blocks[n - 2];
      PWriteWord(0, prevblock + 8);
      lastblock := fl.blocks[n - 1];
      freelist := freelist[f := FreeList(fl.blocks[..n - 1], BLOCK_ITEMS)];
      SetMeta(DropMeta(s.meta, f));
      assert S() == Wrote(s, file, DropMeta(s.meta, f));
    }

    /** Writes an entry behind the last one; it does not count yet. */
    method WriteItem(f: nat, p: nat)
      requires Valid() && f < LIST_COUNT && f < |freelist| && |freelist[f].blocks| >= 1
      requires freelist[f].lastItems < BLOCK_ITEMS && Fits(p)
      modifies this`file, this`log
      ensures Valid() && Moves(old(S()), S(), InUse(old(S()))) && InUse(S()) == InUse(old(S()))
      ensures var a := freelist[f].blocks[|freelist[f].blocks| - 1] + 8 * (3 + freelist[f].lastItems);
        a + 8 <= |file| && Word(file, a) == p
    {
      ghost var s := S();
      var fl := freelist[f];
      var block := fl.blocks[|fl.blocks| - 1];
      PushItemMove(s, f, block, fl.lastItems, p);
      PWriteWord(p, block + 8 * (3 + fl.lastItems));
      assert S() == Wrote(s, file, s.meta);
    }

    /** Makes the entry written last count. */
    method CountItem(f: nat, p: nat)
      requires Valid() && f < LIST_COUNT && f < |freelist| && |freelist[f].blocks| >= 1
      requires freelist[f].lastItems < BLOCK_ITEMS && p in InUse(S()) && InUse(S())[p] == f + 4
      requires var a := freelist[f].blocks[|freelist[f].blocks| - 1] + 8 * (3 + freelist[f].lastItems);
        a + 8 <= |file| && Word(file, a) == p
      modifies this`file, this`log, this`freelist, this`items, this`exps, this`role
      ensures Valid() && Moves(old(S()), S(), Without(InUse(old(S())), p)) && InUse(S()) == Without(InUse(old(S())), p)
      ensures budget == old(budget) && free == old(free) && freeoff == old(freeoff)
      ensures freelist == old(freelist)[f := FreeList(old(freelist[f].blocks), old(freelist[f].lastItems) + 1)]
      ensures Newest(items, old(items), f, p) && ItemsKept(old(items), items, f)
    {
      ghost var s := S();
      var fl := freelist[f];
      var block := fl.blocks[|fl.blocks| - 1];
      PushMove(s, f, block, fl.lastItems, p);
      freelist := freelist[f := FreeList(fl.blocks, fl.lastItems + 1)];
      PWriteWord(fl.lastItems + 1, block + 8 * 2);
      SetMeta(PushMeta(s.meta, f, p));
      assert S() == Wrote(s, file, PushMeta(s.meta, f, p));
    }

    /** Adds an entry to a list whose last block has room. */
    method PushItem(f: nat, p: nat)
      requires Valid() && f < LIST_COUNT && f < |freelist| && |freelist[f].blocks| >= 1
      requires freelist[f].lastItems < BLOCK_ITEMS && p in InUse(S()) && InUse(S())[p] == f + 4
      modifies this`file, this`log, this`freelist, this`items, this`exps, this`role
      ensures Valid() && Moves(old(S()), S(), Without(InUse(old(S())), p)) && InUse(S()) == Without(InUse(old(S())), p)
      ensures budget == old(budget) && free == old(free) && freeoff == old(freeoff)
      ensures freelist == old(freelist)[f := FreeList(old(freelist[f].blocks), old(freelist[f].lastItems) + 1)]
      ensures Newest(items, old(items), f, p) && ItemsKept(old(items), items, f)
    {
      ghost var s := S();
      ChunkKnown(s, p);
      WriteItem(f, p);
      ghost var t := S();
      CountItem(f, p);
      MovesChain(s, t, S(), InUse(s), Without(InUse(s), p), Without(InUse(s), p));
    }

    /** Bytes of the payload of a chunk in use. */
    method WritePayload(p: nat, a: nat, bytes: seq<byte>)
      requires Valid() && p in InUse(S()) && p + 8 <= a && a + |bytes| <= p + Pow2(InUse(S())[p])
      modifies this`file, this`log
      ensures a + |bytes| <= |old(file)| && file == Patch(old(file), a, bytes)
      ensures Valid() && Moves(old(S()), S(), Without(InUse(old(S())), p)) && InUse(S()) == InUse(old(S()))
    {
      ghost var s := S();
      PayloadMove(s, p, a, bytes);
      PWrite(bytes, a);
      assert S() == Wrote(s, file, s.meta);
    }

    /** One word of the payload of a chunk in use. */
    method PayloadWord(p: nat, a: nat, v: nat)
      requires Valid() && p in InUse(S()) && p + 8 <= a && a + 8 <= p + Pow2(InUse(S())[p])
      modifies this`file, this`log
      ensures a + 8 <= |old(file)| && file == PatchWord(old(file), a, v)
      ensures Valid() && Moves(old(S()), S(), Without(InUse(old(S())), p)) && InUse(S()) == InUse(old(S()))
    {
      WritePayload(p, a, ToBE(v, 8));
    }

    /** The pointer to the B-tree's root. */
    method PWriteRoot(v: nat)
      requires Valid() && Fits(v)
      modifies this`file, this`log
      ensures HEAP_START <= |old(file)| && file == PatchWord(old(file), HDR_ROOTPTR_POS, v) && log == old(log) + [file]
      ensures Valid() && InUse(S()) == InUse(old(S())) && Word(file, HDR_ROOTPTR_POS) == v
      ensures forall c :: c in InUse(S()) ==> SameChunk(old(file), file, c, InUse(S())[c])
    {
      ghost var s := S();
      RootMove(s, v);
      PWriteWord(v, HDR_ROOTPTR_POS);
      assert S() == Wrote(s, file, s.meta);
    }

    /** Prepares chunk p as an empty block: next, previous, number of entries. */
    method InitBlock(p: nat, prev: nat)
      requires Valid() && p in InUse(S()) && InUse(S())[p] == BLOCK_EXP
      modifies this`file, this`log
      ensures Valid() && Moves(old(S()), S(), Without(InUse(old(S())), p)) && InUse(S()) == InUse(old(S()))
      ensures p + 32 <= |file| && Word(file, p + 16) == 0 && Word(file, p + 24) == 0
    {
      ghost var s, q := S(), Without(InUse(S()), p);
      Pow2Values();
      PayloadWord(p, p + 16, 0);
      ghost var s1 := S();
      PayloadWord(p, p + 8, prev);
      ghost var s2 := S();
      MovesChain(s, s1, s2, q, q, q);
      PayloadWord(p, p + 24, 0);
      MovesChain(s, s2, S(), q, q, q);
      WordPatched(s.file, p + 16, 0);
      WordAway(s1.file, p + 8, prev, p + 16);
      WordAway(s2.file, p + 24, 0, p + 16);
      WordPatched(s2.file, p + 24, 0);
    }

    /** Makes chunk p the last block of a list whose last block is full. */
    method LinkBlock(f: nat, p: nat)
      requires Valid() && f < LIST_COUNT && f < |freelist| && |freelist[f].blocks| >= 1
      requires freelist[f].lastItems == BLOCK_ITEMS && p in InUse(S()) && InUse(S())[p] == BLOCK_EXP
      modifies this`file, this`log, this`freelist, this`items, this`exps, this`role
      ensures Valid() && Moves(old(S()), S(), Without(InUse(old(S())), p))
      ensures InUse(S()) == Without(InUse(old(S())), p)
      ensures freelist == old(freelist)[f := FreeList(old(freelist[f].blocks) + [p + 8], 0)] && items == old(items)
      ensures budget == old(budget) && free == old(free) && freeoff == old(freeoff)
    {
      hide MovesParts, Step, AddBlock, AddMeta, LiveOf, Moves;
      ghost var s, q := S(), Without(InUse(S()), p);
      ChunkKnown(s, p);
      var fl := freelist[f];
      var last := fl.blocks[|fl.blocks| - 1];
      InitBlock(p, last);
      ghost var t := S();
      AddMove(t, f, last, p);
      PWriteWord(p + 8, last + 8);
      freelist := freelist[f := FreeList(fl.blocks + [p + 8], 0)];
      SetMeta(AddMeta(t.meta, f, p));
      assert S() == Wrote(t, file, AddMeta(t.meta, f, p));
      MovesChain(s, t, S(), q, q, q);
    }

    /** A chunk of size class x from its free list, or 0 when the list is empty. */
    method AllocFreelist(realsize: nat, ghost x: nat) returns (ptr: nat)
      requires Valid() && realsize == Pow2(x) && 4 <= x <= 31
      modifies this
      ensures Valid() && budget == old(budget) && Moves(old(S()), S(), InUse(old(S())))
      ensures ptr == 0 <==> NoneListed(old(freelist), x - 4)
      ensures ptr == 0 ==> S() == old(S())
      ensures ptr != 0 ==> ptr >= 8 && ptr - 8 !in InUse(old(S())) && InUse(S()) == InUse(old(S()))[ptr - 8 := x]
      ensures free == old(free) && freeoff == old(freeoff)
      ensures ptr != 0 ==> TakenFrom(old(freelist), freelist, old(items), items, x - 4, ptr)
      ensures x == BLOCK_EXP ==>
        OthersKept(old(freelist), freelist, BLOCK_EXP - 4) && ItemsKept(old(items), items, BLOCK_EXP - 4)
      decreases if x == BLOCK_EXP then 0 else 1, 1
    {
      hide MovesParts, InUse, LiveOf, Without, Moves, Pow2, Shape;
      ghost var s := S();
      var exp := LogTwo(realsize, x);
      var fli := exp - 4;
      ListKnown(s, fli);
      MovesNone(s);
      if freelist[fli].lastItems == 0 && |freelist[fli].blocks| == 1 {
        return 0;
      }
      // An empty block at the end is given up. (With no such block the C code still
      // frees a null pointer, which fails to read at offset -8 and has no effect.)
      if freelist[fli].lastItems == 0 {
        var lastblock := DropEmptyBlock(fli);
        ghost var t := S();
        // A block of the very size asked for is handed out itself
        if exp == BLOCK_EXP {
          return lastblock;
        }
        Free(lastblock, BLOCK_EXP);
        InUseBack(InUse(s), lastblock - 8, BLOCK_EXP);
        MovesChain(s, t, S(), InUse(s), Without(InUse(t), lastblock - 8), InUse(s));
      }
      ghost var u := S();
      var p := PopItem(fli);
      MovesChain(s, u, S(), InUse(s), InUse(s), InUse(s));
      ptr := p + 8;
    }

    /** Sees to it that the size word of a reused chunk is right. */
    method FixSize(ptr: nat, size: nat, ghost x: nat)
      requires Valid() && ptr >= 8 && ptr - 8 in InUse(S()) && InUse(S())[ptr - 8] == x && IsClass(size, x) && x <= 31
      modifies this`file, this`log
      ensures Valid() && Moves(old(S()), S(), Without(InUse(old(S())), ptr - 8)) && InUse(S()) == InUse(old(S()))
      ensures ptr <= |file| && Word(file, ptr - 8) == size
    {
      ghost var s := S();
      ChunkKnown(s, ptr - 8);
      ClassFits(size, x);
      var oldsize := Word(file, ptr - 8);
      if oldsize != size {
        SizeMove(s, ptr - 8, size);
        PWriteWord(size, ptr - 8);
        assert S() == Wrote(s, file, s.meta);
      } else {
        MovesNone(s);
        MovesWithin(s, s, InUse(s), Without(InUse(s), ptr - 8));
      }
    }

    /** Extends the file when less than `realsize` is free. */
    method Extend(realsize: nat)
      requires freeoff + free <= |file| && realsize <= free + PREALLOC_SIZE
      modifies this`file, this`log, this`free
      ensures realsize <= free && freeoff + free <= |file| && Extended(old(S()), file, free)
      ensures |file| <= |old(file)| + PREALLOC_SIZE
      ensures log == old(log) + if free == old(free) then [] else [file]
    {
      if free < realsize {
        var currsize := freeoff + free;
        Resize(currsize + PREALLOC_SIZE);
        free := free + PREALLOC_SIZE;
      }
    }

    /** The three writes that move the free space and head the new chunk. */
    method WriteFresh(size: nat, realsize: nat)
      requires HEAP_START <= freeoff && freeoff + free <= |file| && 8 <= realsize <= free
      modifies this`file, this`log, this`free, this`freeoff
      ensures free == old(free) - realsize && freeoff == old(freeoff) + realsize
      ensures var (d1, d2, d3) := Carved(old(file), free, freeoff, old(freeoff), size);
        file == d3 && log == old(log) + [d1, d2, d3]
    {
      var p := freeoff;
      free := free - realsize;
      freeoff := freeoff + realsize;
      PWriteWord(free, HDR_FREE_POS);
      PWriteWord(freeoff, HDR_FREEOFF_POS);
      PWriteWord(size, p);
    }

    /** Carves a chunk from the free space at the end, which is extended to `g` when too small. */
    method CarveFresh(size: nat, realsize: nat, ghost x: nat, ghost s: State)
      returns (ptr: nat, ghost g: Disk, ghost room: nat)
      requires s == S() && freeoff + free <= |file| && HEAP_START <= freeoff && 8 <= realsize == Pow2(x)
      requires realsize <= free + PREALLOC_SIZE && budget > 0
      modifies this
      ensures ptr == s.meta.freeoff + 8 && budget == s.budget - 1 && freelist == old(freelist)
      ensures items == old(items) && freeoff == s.meta.freeoff + realsize
      ensures Extended(s, g, room) && |g| <= |s.file| + PREALLOC_SIZE && Fresh(s, S(), g, room, x, size)
      ensures S().meta == Carve(Freed(s.meta, room), x, Live)
    {
      Extend(realsize);
      g, room := file, free;
      ptr := freeoff + 8;
      WriteFresh(size, realsize);
      SetMeta(Carve(Freed(s.meta, room), x, Live));
      budget := budget - 1;
    }

    /** A chunk from the free space. */
    method AllocFresh(size: nat, realsize: nat, ghost x: nat) returns (ptr: nat)
      requires Valid() && budget > 0 && IsClass(size, x) && x <= 31 && realsize == Pow2(x)
      requires realsize <= free + PREALLOC_SIZE
      modifies this
      ensures Valid() && budget == old(budget) - 1 && Moves(old(S()), S(), InUse(old(S())))
      ensures ptr >= 8 && ptr - 8 !in InUse(old(S())) && InUse(S()) == InUse(old(S()))[ptr - 8 := x]
      ensures ptr <= |file| && Word(file, ptr - 8) == size && freelist == old(freelist) && items == old(items)
      ensures ptr == old(freeoff) + 8 && freeoff == old(freeoff) + realsize
    {
      ghost var s, g, room := S(), file, free;
      FreeSpaceKnown(s);
      ClassFits(size, x);
      ptr, g, room := CarveFresh(size, realsize, x, s);
      FreshMove(s, S(), g, room, x, size);
    }

    /** Hands out a chunk for `size` bytes; its address is that of the payload. The free list of its
        class comes first; a chunk from the free space must be no larger than the file is extended: see
        `FreshExactly`. */
    method Alloc(size: nat, ghost x: nat) returns (ptr: nat)
      requires Valid() && budget > 0 && IsClass(size, x) && x <= 31
      requires NoneListed(freelist, x - 4) ==> Pow2(x) <= free + PREALLOC_SIZE
      modifies this
      ensures Valid() && budget == old(budget) - 1 && Moves(old(S()), S(), InUse(old(S())))
      ensures ptr >= 8 && ptr - 8 !in InUse(old(S())) && InUse(S()) == InUse(old(S()))[ptr - 8 := x]
      ensures ptr <= |file| && Word(file, ptr - 8) == size
      ensures NoneListed(old(freelist), x - 4) ==>
        ptr == old(freeoff) + 8 && freeoff == old(freeoff) + Pow2(x) && freelist == old(freelist) && items == old(items)
      ensures !NoneListed(old(freelist), x - 4) ==>
        free == old(free) && freeoff == old(freeoff) &&
        TakenFrom(old(freelist), freelist, old(items), items, x - 4, ptr)
      ensures x == BLOCK_EXP ==>
        OthersKept(old(freelist), freelist, BLOCK_EXP - 4) && ItemsKept(old(items), items, BLOCK_EXP - 4)
      decreases if x == BLOCK_EXP then 0 else 1, 2
    {
      ghost var s := S();
      ghost var y;
      var realsize;
      realsize, y := AllocRealsize(size);
      ClassUnique(size, x, y);
      ptr := AllocFreelist(realsize, x);
      ghost var t := S();
      if ptr != 0 {
        FixSize(ptr, size, x);
        InUseBack(InUse(s), ptr - 8, x);
        MovesChain(s, t, S(), InUse(s), Without(InUse(t), ptr - 8), InUse(s));
        ghost var u := S();
        budget := budget - 1;
        SpendMove(u, S());
        MovesChain(s, u, S(), InUse(s), InUse(u), InUse(s));
        return;
      }
      ptr := AllocFresh(size, realsize, x);
      MovesChain(s, t, S(), InUse(s), InUse(s), InUse(s));
    }

    /** Gives the chunk at `ptr` back. */
    method Free(ptr: nat, ghost x: nat)
      requires Valid() && ptr >= 8 && ptr - 8 in InUse(S()) && InUse(S())[ptr - 8] == x && x <= 31
      requires x != BLOCK_EXP ==> budget > 0
      modifies this
      ensures Valid() && Moves(old(S()), S(), Without(InUse(old(S())), ptr - 8))
      ensures InUse(S()) == Without(InUse(old(S())), ptr - 8)
      ensures old(budget) - (if x == BLOCK_EXP then 0 else 1) <= budget <= old(budget)
      ensures GivenTo(old(freelist), freelist, old(items), items, x - 4, ptr)
      ensures x == BLOCK_EXP || !FullList(old(freelist), x - 4) ==>
        free == old(free) && freeoff == old(freeoff) &&
        OthersKept(old(freelist), freelist, x - 4) && ItemsKept(old(items), items, x - 4)
      decreases if x == BLOCK_EXP then 0 else 1, 0
    {
      hide Pow256, Pow2, Layout, Tuned, Steps, MovesParts;
      ghost var s := S();
      var p := ptr - 8;
      ChunkKnown(s, p);
      var size := Word(file, p);
      var realsize, y := AllocRealsize(size);
      ClassUnique(size, x, y);
      var exp := LogTwo(realsize, x);
      var fli := exp - 4;
      ListKnown(s, fli);
      if freelist[fli].lastItems == BLOCK_ITEMS && exp == BLOCK_EXP {
        // The chunk being freed serves as the block that is missing
        LinkBlock(fli, p);
        return;
      }
      // A full block gets a successor
      if freelist[fli].lastItems == BLOCK_ITEMS {
        BlockClass();
        ClassFits(BLOCK_SIZE, BLOCK_EXP);
        var newblock := Alloc(BLOCK_SIZE, BLOCK_EXP);
        ghost var t := S();
        LinkBlock(fli, newblock - 8);
        InUseBack(InUse(s), newblock - 8, BLOCK_EXP);
        MovesChain(s, t, S(), InUse(s), InUse(s), InUse(s));
      } else {
        MovesNone(s);
      }
      ghost var u := S();
      PushItem(fli, p);
      MovesChain(s, u, S(), InUse(s), Without(InUse(s), p), Without(InUse(s), p));
    }

    /** What was given back last is handed out first. */
    method FreeAndAlloc(ptr: nat, size: nat, ghost x: nat) returns (again: nat)
      requires Valid() && ptr >= 8 && ptr - 8 in InUse(S()) && InUse(S())[ptr - 8] == x && x <= 31
      requires budget > 1 && IsClass(size, x)
      modifies this
      ensures Valid() && again == ptr && InUse(S()) == InUse(old(S())) && ptr <= |file| && Word(file, ptr - 8) == size
    {
      hide Word, FromBE, InUse;
      ghost var s := S();
      ListKnown(s, x - 4);
      Free(ptr, x);
      ListKnown(S(), x - 4);
      ghost var lists, mid := freelist, items;
      assert !NoneListed(lists, x - 4);
      again := Alloc(size, x);
      if lists[x - 4].lastItems > 0 {
        assert mid[x - 4][|mid[x - 4]| - 1] == ptr - 8 == again - 8;
      }
      assert Without(InUse(s), ptr - 8)[ptr - 8 := x] == InUse(s);
    }
  }
}
