/**
 The allocator's state as a value, and its moves. `Good` and `Moves` are what
 the store's methods pass on; the lemmas here are all that those methods need
 to know about them.
 */
module AllocatorStates {
  import opened Bytes
  import opened Disk
  import opened AllocatorModel
  import opened AllocatorSteps

// ------------------------------------------------------------------
  // The log of disk states
  // ------------------------------------------------------------------

  /** From `d` to `e` by way of the states added to the log. None of them differs from `d` in
      a protected chunk or the root pointer, and an allocator can go on from each. */
  ghost predicate Step(log0: seq<Disk>, log1: seq<Disk>, d: Disk, e: Disk, p: map<nat, nat>) {
    log0 <= log1 && Agree(d, e, p) && forall k :: |log0| <= k < |log1| ==> Agree(d, log1[k], p) && Sane(log1[k], p)
  }

  /** The file is in tune with some layout in which the chunks `p` are in use. */
  ghost predicate Sane(e: Disk, p: map<nat, nat>) {
    MayGrow(e, 0) && exists m :: SaneBy(e, p, m)
  }

  ghost predicate SaneBy(e: Disk, p: map<nat, nat>, m: Meta) {
    Tuned(e, m) && Within(p, LiveOf(m))
  }

  ghost predicate Within(r: map<nat, nat>, p: map<nat, nat>) {
    forall s :: s in r ==> s in p && r[s] == p[s]
  }

  lemma SaneWithin(e: Disk, p: map<nat, nat>, r: map<nat, nat>)
    requires Sane(e, p) && Within(r, p)
    ensures Sane(e, r)
  {
    hide Tuned, LiveOf;
    var m :| SaneBy(e, p, m);
    assert SaneBy(e, r, m);
  }

  lemma StepChain(log0: seq<Disk>, log1: seq<Disk>, log2: seq<Disk>, d: Disk, e: Disk, f: Disk,
      p: map<nat, nat>, q: map<nat, nat>, r: map<nat, nat>)
    requires Step(log0, log1, d, e, p) && Step(log1, log2, e, f, q) && Within(r, p) && Within(r, q)
    ensures Step(log0, log2, d, f, r)
  {
    hide Sane;
    AgreeChain(d, e, f, p, q, r);
    forall k | |log0| <= k < |log2|
      ensures Agree(d, log2[k], r) && Sane(log2[k], r)
    {
      if k < |log1| {
        assert log2[k] == log1[k];
        AgreeWithin(d, log1[k], p, r);
        SaneWithin(log1[k], p, r);
      } else {
        AgreeChain(d, e, log2[k], p, q, r);
        SaneWithin(log2[k], q, r);
      }
    }
  }

  lemma AgreeWithin(d: Disk, e: Disk, p: map<nat, nat>, r: map<nat, nat>)
    requires Agree(d, e, p) && Within(r, p)
    ensures Agree(d, e, r)
  {
    forall s | s in r ensures SameChunk(d, e, s, r[s]) { assert SameChunk(d, e, s, p[s]); }
  }

  lemma StepWithin(log0: seq<Disk>, log1: seq<Disk>, d: Disk, e: Disk, p: map<nat, nat>, r: map<nat, nat>)
    requires Step(log0, log1, d, e, p) && Within(r, p)
    ensures Step(log0, log1, d, e, r)
  {
    hide Sane;
    AgreeWithin(d, e, p, r);
    forall k | |log0| <= k < |log1|
      ensures Agree(d, log1[k], r) && Sane(log1[k], r)
    {
      AgreeWithin(d, log1[k], p, r);
      SaneWithin(log1[k], p, r);
    }
  }

  lemma StepList(log0: seq<Disk>, log1: seq<Disk>, more: seq<Disk>, d: Disk, e: Disk, p: map<nat, nat>)
    requires log1 == log0 + more && Agree(d, e, p)
    requires forall k :: 0 <= k < |more| ==> Agree(d, more[k], p) && Sane(more[k], p)
    ensures Step(log0, log1, d, e, p)
  {
    hide Sane;
    forall k | |log0| <= k < |log1|
      ensures Agree(d, log1[k], p) && Sane(log1[k], p)
    {
      assert log1[k] == more[k - |log0|];
    }
  }

  lemma StepOne(log: seq<Disk>, d: Disk, e: Disk, p: map<nat, nat>)
    requires Agree(d, e, p) && Sane(e, p)
    ensures Step(log, log + [e], d, e, p)
  {
  }

  /** `log` has every state of the file so far, one per write; `budget` is how
      often the file may still grow before offsets leave 63 bits. */
  datatype State = State(file: Disk, log: seq<Disk>, meta: Meta, budget: nat)

  ghost predicate TunedParts(d: Disk, m: Meta)
    decreases |m.lists|, 0
  {
    (|m.lists| > LIST_COUNT ==> Tuned(d, m.(lists := m.lists[..LIST_COUNT]))) && Inv(d, m)
  }

  /** Layout and disk agree: `Inv`. (It is recursive, on layouts with too many
      lists, which are never in tune; that is why the verifier opens it only
      where `OpenTuned` is called.) */
  ghost predicate Tuned(d: Disk, m: Meta)
    decreases |m.lists|, 1
  {
    TunedParts(d, m)
  }

  lemma OpenTuned(d: Disk, m: Meta)
    ensures Tuned(d, m) <==> Inv(d, m)
  {
    assert TunedParts(d, m) <==> Inv(d, m);
  }

  /** The invariant of the store. */
  ghost predicate Good(s: State) {
    Tuned(s.file, s.meta) && |s.file| + s.budget * PREALLOC_SIZE < 0x8000_0000_0000_0000
  }

  ghost predicate MovesParts(s: State, t: State, p: map<nat, nat>)
    decreases |s.log|, 0
  {
    (|s.log| > |t.log| ==> Moves(s.(log := s.log[..|t.log|]), t, p)) && Steps(s, t, p)
  }

  ghost predicate Steps(s: State, t: State, p: map<nat, nat>) {
    Step(s.log, t.log, s.file, t.file, p) && LostOf(t.meta) == LostOf(s.meta)
  }

  /** The chunks that an earlier crash has left behind. */
  ghost function LostOf(m: Meta): (x: set<nat>) {
    set s | s in m.role && m.role[s].Lost?
  }

  /** From `s` to `t` without disturbing the chunks `p` or the root pointer, not
      even in between, and without losing a chunk. (Recursive for the same reason as `Good`.) */
  ghost predicate Moves(s: State, t: State, p: map<nat, nat>)
    decreases |s.log|, 1
  {
    MovesParts(s, t, p)
  }

  lemma OpenMoves(s: State, t: State, p: map<nat, nat>)
    ensures Moves(s, t, p) <==> Steps(s, t, p)
  {
    assert MovesParts(s, t, p) <==> Steps(s, t, p);
  }

  ghost function InUse(s: State): (p: map<nat, nat>) {
    LiveOf(s.meta)
  }

  lemma MovesChain(s: State, t: State, u: State, p: map<nat, nat>, q: map<nat, nat>, r: map<nat, nat>)
    requires Moves(s, t, p) && Moves(t, u, q) && Within(r, p) && Within(r, q)
    ensures Moves(s, u, r)
  {
    OpenMoves(s, t, p);
    OpenMoves(t, u, q);
    StepChain(s.log, t.log, u.log, s.file, t.file, u.file, p, q, r);
    OpenMoves(s, u, r);
  }

  lemma MovesWithin(s: State, t: State, p: map<nat, nat>, r: map<nat, nat>)
    requires Moves(s, t, p) && Within(r, p)
    ensures Moves(s, t, r)
  {
    OpenMoves(s, t, p);
    StepWithin(s.log, t.log, s.file, t.file, p, r);
    OpenMoves(s, t, r);
  }

  /** One write. */
  ghost function Wrote(s: State, e: Disk, m: Meta): (t: State) {
    State(e, s.log + [e], m, s.budget)
  }

  lemma WroteMoves(s: State, e: Disk, m: Meta, p: map<nat, nat>)
    requires Agree(s.file, e, p) && Good(Wrote(s, e, m)) && Within(p, LiveOf(m)) && LostOf(m) == LostOf(s.meta)
    ensures Moves(s, Wrote(s, e, m), p)
  {
    hide Tuned, LiveOf, Agree, LostOf;
    assert SaneBy(e, p, m);
    StepOne(s.log, s.file, e, p);
    OpenMoves(s, Wrote(s, e, m), p);
  }

  // ------------------------------------------------------------------
  // Moves of the free lists
  // ------------------------------------------------------------------

  /** `b` is the last block of list `f`, and `k` the number of entries in it. */
  ghost predicate AtList(s: State, f: nat, b: nat, k: nat) {
    f < |s.meta.lists| && s.meta.lists[f].blocks != [] &&
    b == s.meta.lists[f].blocks[|s.meta.lists[f].blocks| - 1] && k == s.meta.lists[f].lastItems
  }

  lemma ListKnown(s: State, f: nat)
    requires Good(s) && f < LIST_COUNT
    ensures |s.meta.lists| == LIST_COUNT && |s.meta.lists[f].blocks| >= 1 && s.meta.lists[f].lastItems <= BLOCK_ITEMS
    ensures |s.meta.items| == LIST_COUNT
    ensures |s.meta.items[f]| == BLOCK_ITEMS * (|s.meta.lists[f].blocks| - 1) + s.meta.lists[f].lastItems
  {
    OpenTuned(s.file, s.meta);
    assert ListShape(s.meta.lists[f], s.meta.items[f], f);
  }

  lemma SameLost(m: Meta, n: Meta, s: nat)
    requires s in m.role && s in n.role && !m.role[s].Lost? && !n.role[s].Lost? && n.role == m.role[s := n.role[s]]
    ensures LostOf(n) == LostOf(m)
  {
    assert forall x :: x in LostOf(n) <==> x in LostOf(m);
  }

  ghost function PopMeta(m: Meta, f: nat): (n: Meta) {
    if Shape(m) && f < LIST_COUNT && m.lists[f].lastItems > 0 && m.items[f] != [] then Pop(m, f) else m
  }

  lemma PopTuned(d: Disk, m: Meta, f: nat, b: nat, k: nat)
    requires Tuned(d, m) && f < LIST_COUNT && f < |m.lists| && m.lists[f].blocks != []
    requires b == m.lists[f].blocks[|m.lists[f].blocks| - 1] && k == m.lists[f].lastItems > 0
    ensures b + 8 * 2 + 8 <= |d| && Tuned(PatchWord(d, b + 8 * 2, k - 1), PopMeta(m, f))
    ensures Agree(d, PatchWord(d, b + 8 * 2, k - 1), LiveOf(m))
  {
    OpenTuned(d, m);
    PopCount(d, m, f);
    OpenTuned(PatchWord(d, b + 8 * 2, k - 1), PopMeta(m, f));
  }

  lemma PopTakes(d: Disk, m: Meta, f: nat, b: nat, k: nat) returns (p: nat)
    requires Tuned(d, m) && f < LIST_COUNT && f < |m.lists| && m.lists[f].blocks != []
    requires b == m.lists[f].blocks[|m.lists[f].blocks| - 1] && k == m.lists[f].lastItems > 0
    ensures b + 8 * (2 + k) + 8 <= |d| && p == Word(d, b + 8 * (2 + k)) && p !in LiveOf(m)
    ensures LiveOf(PopMeta(m, f)) == LiveOf(m)[p := f + 4]
    ensures PopMeta(m, f).lists == m.lists[f := FreeList(m.lists[f].blocks, k - 1)]
    ensures PopMeta(m, f).free == m.free && PopMeta(m, f).freeoff == m.freeoff && LostOf(PopMeta(m, f)) == LostOf(m)
    ensures f < |m.items| && m.items[f] != [] && p == m.items[f][|m.items[f]| - 1]
    ensures PopMeta(m, f).items == m.items[f := m.items[f][..|m.items[f]| - 1]]
  {
    hide Word, LiveOf;
    OpenTuned(d, m);
    PopReads(d, m, f);
    p := m.items[f][|m.items[f]| - 1];
    ItemsDistinct(m, f, |m.items[f]| - 1);
    Revived(m, Pop(m, f), p);
    SameLost(m, Pop(m, f), p);
  }

  lemma PopMove(s: State, f: nat, b: nat, k: nat) returns (p: nat)
    requires Good(s) && f < LIST_COUNT && AtList(s, f, b, k) && k > 0
    ensures b + 8 * (2 + k) + 8 <= |s.file| && p == Word(s.file, b + 8 * (2 + k)) && p !in InUse(s)
    ensures var t := Wrote(s, PatchWord(s.file, b + 8 * 2, k - 1), PopMeta(s.meta, f));
      Good(t) && Moves(s, t, InUse(s)) && InUse(t) == InUse(s)[p := f + 4] &&
      t.meta.lists == s.meta.lists[f := FreeList(s.meta.lists[f].blocks, k - 1)] &&
      t.meta.free == s.meta.free && t.meta.freeoff == s.meta.freeoff
    ensures var items := s.meta.items;
      f < |items| && items[f] != [] && p == items[f][|items[f]| - 1] &&
      PopMeta(s.meta, f).items == items[f := items[f][..|items[f]| - 1]]
  {
    hide Word, LiveOf, LostOf, Agree, PatchWord, Tuned, Moves, PopMeta, DropMeta, PushMeta;
    p := PopTakes(s.file, s.meta, f, b, k);
    PopTuned(s.file, s.meta, f, b, k);
    WroteMoves(s, PatchWord(s.file, b + 8 * 2, k - 1), PopMeta(s.meta, f), InUse(s));
  }

  /** The empty last block leaves its list; the one before, which is full, is last. */
  ghost function DropMeta(m: Meta, f: nat): (n: Meta) {
    if Shape(m) && f < LIST_COUNT && Last(m, f) > 0 && BlockAt(m, f, Last(m, f)) >= 8 then DropBlock(m, f) else m
  }

  lemma DropTuned(d: Disk, m: Meta, f: nat, n: nat)
    requires Tuned(d, m) && f < LIST_COUNT && f < |m.lists| && n == |m.lists[f].blocks| > 1
    requires m.lists[f].lastItems == 0
    ensures var a := m.lists[f].blocks[n - 2] + 8;
      a + 8 <= |d| && Tuned(PatchWord(d, a, 0), DropMeta(m, f)) && Agree(d, PatchWord(d, a, 0), LiveOf(m))
  {
    OpenTuned(d, m);
    DropBlockLink(d, m, f);
    OpenTuned(PatchWord(d, m.lists[f].blocks[n - 2] + 8, 0), DropMeta(m, f));
  }

  lemma DropGives(d: Disk, m: Meta, f: nat, n: nat)
    requires Tuned(d, m) && f < LIST_COUNT && f < |m.lists| && n == |m.lists[f].blocks| > 1
    requires m.lists[f].lastItems == 0
    ensures m.lists[f].blocks[n - 1] >= 8
    ensures var p := m.lists[f].blocks[n - 1] - 8;
      p !in LiveOf(m) && LiveOf(DropMeta(m, f)) == LiveOf(m)[p := BLOCK_EXP]
    ensures DropMeta(m, f).lists == m.lists[f := FreeList(m.lists[f].blocks[..n - 1], BLOCK_ITEMS)]
    ensures DropMeta(m, f).free == m.free && DropMeta(m, f).freeoff == m.freeoff && LostOf(DropMeta(m, f)) == LostOf(m)
    ensures DropMeta(m, f).items == m.items
  {
    OpenTuned(d, m);
    BlocksDistinct(m, f, n - 1);
    Revived(m, DropBlock(m, f), m.lists[f].blocks[n - 1] - 8);
    SameLost(m, DropBlock(m, f), m.lists[f].blocks[n - 1] - 8);
  }

  lemma DropMove(s: State, f: nat, n: nat)
    requires Good(s) && f < LIST_COUNT && f < |s.meta.lists| && n == |s.meta.lists[f].blocks| > 1
    requires s.meta.lists[f].lastItems == 0
    ensures var a, b := s.meta.lists[f].blocks[n - 2] + 8, s.meta.lists[f].blocks[n - 1];
      a + 8 <= |s.file| && b >= 8 && b - 8 !in InUse(s) &&
      var t := Wrote(s, PatchWord(s.file, a, 0), DropMeta(s.meta, f));
      Good(t) && Moves(s, t, InUse(s)) && InUse(t) == InUse(s)[b - 8 := BLOCK_EXP] &&
      t.meta.lists == s.meta.lists[f := FreeList(s.meta.lists[f].blocks[..n - 1], BLOCK_ITEMS)] &&
      t.meta.free == s.meta.free && t.meta.freeoff == s.meta.freeoff && t.meta.items == s.meta.items
  {
    hide Word, LiveOf, LostOf, Agree, PatchWord, Tuned, Moves, PopMeta, DropMeta, PushMeta;
    DropTuned(s.file, s.meta, f, n);
    DropGives(s.file, s.meta, f, n);
    WroteMoves(s, PatchWord(s.file, s.meta.lists[f].blocks[n - 2] + 8, 0), DropMeta(s.meta, f), InUse(s));
  }

  ghost function PushMeta(m: Meta, f: nat, p: nat): (n: Meta) {
    if Shape(m) && f < LIST_COUNT then Push(m, f, p) else m
  }

  /** The new entry is written where nothing counts yet. */
  lemma PushItemTuned(d: Disk, m: Meta, f: nat, b: nat, k: nat, p: nat)
    requires Tuned(d, m) && f < LIST_COUNT && f < |m.lists| && m.lists[f].blocks != [] && Fits(p)
    requires b == m.lists[f].blocks[|m.lists[f].blocks| - 1] && k == m.lists[f].lastItems < BLOCK_ITEMS
    ensures b + 8 * (3 + k) + 8 <= |d|
    ensures var e := PatchWord(d, b + 8 * (3 + k), p);
      Tuned(e, m) && Word(e, b + 8 * (3 + k)) == p && Agree(d, e, LiveOf(m))
  {
    OpenTuned(d, m);
    LastBlock(m, f);
    IdleWrite(d, m, f, Last(m, f), 3 + k, p);
    OpenTuned(PatchWord(d, b + 8 * (3 + k), p), m);
  }

  lemma PushCountTuned(d: Disk, m: Meta, f: nat, b: nat, k: nat, p: nat)
    requires Tuned(d, m) && f < LIST_COUNT && f < |m.lists| && m.lists[f].blocks != []
    requires b == m.lists[f].blocks[|m.lists[f].blocks| - 1] && k == m.lists[f].lastItems < BLOCK_ITEMS
    requires p in LiveOf(m) && LiveOf(m)[p] == f + 4 && b + 8 * (3 + k) + 8 <= |d| && Word(d, b + 8 * (3 + k)) == p
    ensures b + 8 * 2 + 8 <= |d| && Tuned(PatchWord(d, b + 8 * 2, k + 1), PushMeta(m, f, p))
    ensures Agree(d, PatchWord(d, b + 8 * 2, k + 1), LiveOf(m))
  {
    OpenTuned(d, m);
    var e := PatchWord(d, b + 8 * 2, k + 1);
    PushCount(d, e, m, f, p, b, k);
    OpenTuned(e, PushMeta(m, f, p));
  }

  lemma PushTakes(d: Disk, m: Meta, f: nat, p: nat)
    requires Tuned(d, m) && f < LIST_COUNT && f < |m.lists| && p in LiveOf(m)
    ensures LiveOf(PushMeta(m, f, p)) == Without(LiveOf(m), p)
    ensures PushMeta(m, f, p).lists == m.lists[f := FreeList(m.lists[f].blocks, m.lists[f].lastItems + 1)]
    ensures PushMeta(m, f, p).free == m.free && PushMeta(m, f, p).freeoff == m.freeoff
    ensures LostOf(PushMeta(m, f, p)) == LostOf(m)
    ensures f < |m.items| && PushMeta(m, f, p).items == m.items[f := m.items[f] + [p]]
  {
    OpenTuned(d, m);
    Retired(m, PushMeta(m, f, p), p);
    SameLost(m, PushMeta(m, f, p), p);
  }

  /** The first write of a push, then the second. */
  lemma PushItemMove(s: State, f: nat, b: nat, k: nat, p: nat)
    requires Good(s) && f < LIST_COUNT && AtList(s, f, b, k) && k < BLOCK_ITEMS && Fits(p)
    ensures b + 8 * (3 + k) + 8 <= |s.file|
    ensures var t := Wrote(s, PatchWord(s.file, b + 8 * (3 + k), p), s.meta);
      Good(t) && Moves(s, t, InUse(s)) && Word(t.file, b + 8 * (3 + k)) == p
  {
    PushItemTuned(s.file, s.meta, f, b, k, p);
    WroteMoves(s, PatchWord(s.file, b + 8 * (3 + k), p), s.meta, InUse(s));
  }

  lemma PushMove(s: State, f: nat, b: nat, k: nat, p: nat)
    requires Good(s) && f < LIST_COUNT && AtList(s, f, b, k) && k < BLOCK_ITEMS
    requires p in InUse(s) && InUse(s)[p] == f + 4 && b + 8 * (3 + k) + 8 <= |s.file|
    requires Word(s.file, b + 8 * (3 + k)) == p
    ensures b + 8 * 2 + 8 <= |s.file|
    ensures var t := Wrote(s, PatchWord(s.file, b + 8 * 2, k + 1), PushMeta(s.meta, f, p));
      Good(t) && Moves(s, t, Without(InUse(s), p)) && InUse(t) == Without(InUse(s), p) &&
      t.meta.lists == s.meta.lists[f := FreeList(s.meta.lists[f].blocks, k + 1)] &&
      t.meta.free == s.meta.free && t.meta.freeoff == s.meta.freeoff
    ensures f < |s.meta.items| && PushMeta(s.meta, f, p).items == s.meta.items[f := s.meta.items[f] + [p]]
  {
    hide Word, LiveOf, LostOf, Agree, PatchWord, Tuned, Moves, PopMeta, DropMeta, PushMeta;
    PushCountTuned(s.file, s.meta, f, b, k, p);
    PushTakes(s.file, s.meta, f, p);
    AgreeWithin(s.file, PatchWord(s.file, b + 8 * 2, k + 1), InUse(s), Without(InUse(s), p));
    WroteMoves(s, PatchWord(s.file, b + 8 * 2, k + 1), PushMeta(s.meta, f, p), Without(InUse(s), p));
  }

  // ------------------------------------------------------------------
  // Writes into chunks in use
  // ------------------------------------------------------------------

  lemma PayloadTuned(d: Disk, m: Meta, p: nat, a: nat, bytes: seq<byte>)
    requires Tuned(d, m) && p in LiveOf(m) && p + 8 <= a && a + |bytes| <= p + Pow2(LiveOf(m)[p])
    ensures a + |bytes| <= |d| && Tuned(Patch(d, a, bytes), m)
    ensures Agree(d, Patch(d, a, bytes), Without(LiveOf(m), p))
  {
    OpenTuned(d, m);
    PayloadWrite(d, m, p, a, bytes);
    OpenTuned(Patch(d, a, bytes), m);
  }

  lemma PayloadMove(s: State, p: nat, a: nat, bytes: seq<byte>)
    requires Good(s) && p in InUse(s) && p + 8 <= a && a + |bytes| <= p + Pow2(InUse(s)[p])
    ensures a + |bytes| <= |s.file|
    ensures var t := Wrote(s, Patch(s.file, a, bytes), s.meta); Good(t) && Moves(s, t, Without(InUse(s), p))
  {
    PayloadTuned(s.file, s.meta, p, a, bytes);
    WroteMoves(s, Patch(s.file, a, bytes), s.meta, Without(InUse(s), p));
  }

  lemma SizeTuned(d: Disk, m: Meta, p: nat, size: nat)
    requires Tuned(d, m) && p in LiveOf(m) && IsClass(size, LiveOf(m)[p]) && Fits(size)
    ensures p + 8 <= |d| && Tuned(PatchWord(d, p, size), m) && Word(PatchWord(d, p, size), p) == size
    ensures Agree(d, PatchWord(d, p, size), Without(LiveOf(m), p))
  {
    OpenTuned(d, m);
    SizeWrite(d, m, p, size);
    OpenTuned(PatchWord(d, p, size), m);
  }

  lemma SizeMove(s: State, p: nat, size: nat)
    requires Good(s) && p in InUse(s) && IsClass(size, InUse(s)[p]) && Fits(size)
    ensures p + 8 <= |s.file|
    ensures var t := Wrote(s, PatchWord(s.file, p, size), s.meta);
      Good(t) && Moves(s, t, Without(InUse(s), p)) && Word(t.file, p) == size
  {
    SizeTuned(s.file, s.meta, p, size);
    WroteMoves(s, PatchWord(s.file, p, size), s.meta, Without(InUse(s), p));
  }

  /** A chunk in use lies in the file and shows its size class. */
  lemma ChunkKnown(s: State, p: nat)
    requires Good(s) && p in InUse(s)
    ensures HEAP_START <= p && p + Pow2(InUse(s)[p]) <= |s.file| && 16 <= Pow2(InUse(s)[p])
    ensures IsClass(Word(s.file, p), InUse(s)[p]) && Fits(p + 8) && 4 <= InUse(s)[p]
  {
    OpenTuned(s.file, s.meta);
    assert p in Known(s.meta) && HeaderHolds(s.file, Known(s.meta), p);
    Pow2Values();
    Pow2Grows(4, InUse(s)[p]);
  }

  // ------------------------------------------------------------------
  // A freed chunk as the next free-list block
  // ------------------------------------------------------------------

  ghost function AddMeta(m: Meta, f: nat, p: nat): (n: Meta) {
    if Shape(m) && f < LIST_COUNT then AddBlock(m, f, p) else m
  }

  lemma AddTuned(d: Disk, m: Meta, f: nat, b: nat, p: nat)
    requires Tuned(d, m) && f < LIST_COUNT && f < |m.lists| && m.lists[f].blocks != []
    requires b == m.lists[f].blocks[|m.lists[f].blocks| - 1] && m.lists[f].lastItems == BLOCK_ITEMS
    requires p in LiveOf(m) && LiveOf(m)[p] == BLOCK_EXP && Fits(p + 8)
    requires p + 32 <= |d| && Word(d, p + 16) == 0 && Word(d, p + 24) == 0
    ensures b + 16 <= |d| && Tuned(PatchWord(d, b + 8, p + 8), AddMeta(m, f, p))
    ensures Agree(d, PatchWord(d, b + 8, p + 8), LiveOf(m))
  {
    OpenTuned(d, m);
    SlotInFile(d, m, f, Last(m, f), 1);
    var e := PatchWord(d, b + 8, p + 8);
    AddBlockLink(d, e, m, f, p, b + 8);
    OpenTuned(e, AddMeta(m, f, p));
  }

  lemma AddTakes(d: Disk, m: Meta, f: nat, p: nat)
    requires Tuned(d, m) && f < LIST_COUNT && f < |m.lists| && p in LiveOf(m)
    ensures LiveOf(AddMeta(m, f, p)) == Without(LiveOf(m), p)
    ensures AddMeta(m, f, p).lists == m.lists[f := FreeList(m.lists[f].blocks + [p + 8], 0)]
    ensures AddMeta(m, f, p).free == m.free && AddMeta(m, f, p).freeoff == m.freeoff
    ensures LostOf(AddMeta(m, f, p)) == LostOf(m) && AddMeta(m, f, p).items == m.items
  {
    OpenTuned(d, m);
    Retired(m, AddMeta(m, f, p), p);
    SameLost(m, AddMeta(m, f, p), p);
  }

  /** The link that makes a prepared chunk the last block of its list. */
  lemma AddMove(s: State, f: nat, b: nat, p: nat)
    requires Good(s) && f < LIST_COUNT && AtList(s, f, b, BLOCK_ITEMS)
    requires p in InUse(s) && InUse(s)[p] == BLOCK_EXP && Fits(p + 8)
    requires p + 32 <= |s.file| && Word(s.file, p + 16) == 0 && Word(s.file, p + 24) == 0
    ensures b + 16 <= |s.file|
    ensures var t := Wrote(s, PatchWord(s.file, b + 8, p + 8), AddMeta(s.meta, f, p));
      Good(t) && Moves(s, t, Without(InUse(s), p)) && InUse(t) == Without(InUse(s), p) &&
      t.meta.lists == s.meta.lists[f := FreeList(s.meta.lists[f].blocks + [p + 8], 0)] &&
      t.meta.free == s.meta.free && t.meta.freeoff == s.meta.freeoff && t.meta.items == s.meta.items
  {
    AddTuned(s.file, s.meta, f, b, p);
    AddTakes(s.file, s.meta, f, p);
    AgreeWithin(s.file, PatchWord(s.file, b + 8, p + 8), InUse(s), Without(InUse(s), p));
    WroteMoves(s, PatchWord(s.file, b + 8, p + 8), AddMeta(s.meta, f, p), Without(InUse(s), p));
  }

  // ------------------------------------------------------------------
  // A fresh chunk
  // ------------------------------------------------------------------

  lemma FreedTuned(d: Disk, e: Disk, m: Meta, free: nat)
    requires Tuned(d, m) && SameBelow(d, e, m.freeoff) && m.freeoff + free <= |e|
    requires Word(e, HDR_FREE_POS) == free && Word(e, HDR_FREEOFF_POS) == m.freeoff
    ensures Tuned(e, Freed(m, free)) && LiveOf(Freed(m, free)) == LiveOf(m)
  {
    OpenTuned(d, m);
    FreedFinish(d, e, m, free);
    OpenTuned(e, Freed(m, free));
  }

  lemma CarveTuned(d: Disk, e: Disk, m: Meta, free: nat, x: nat, r: Role)
    requires Tuned(d, m) && SameBelow(d, e, m.freeoff) && 4 <= x && (r == Live || r == Lost)
    requires Pow2(x) <= free && m.freeoff + free <= |e|
    requires Word(e, HDR_FREE_POS) == free - Pow2(x) && Word(e, HDR_FREEOFF_POS) == m.freeoff + Pow2(x)
    requires m.freeoff + 8 <= |e| && (r == Live ==> IsClass(Word(e, m.freeoff), x))
    ensures Tuned(e, Carve(Freed(m, free), x, r)) && m.freeoff !in LiveOf(m)
    ensures LiveOf(Carve(Freed(m, free), x, r)) == if r == Live then LiveOf(m)[m.freeoff := x] else LiveOf(m)
    ensures r == Live ==> LostOf(Carve(Freed(m, free), x, r)) == LostOf(m)
  {
    OpenTuned(d, m);
    CarveFinish(d, e, m, free, x, r);
    var n := Carve(Freed(m, free), x, r);
    CarveLive(m, n, x, r);
    OpenTuned(e, n);
    assert m.freeoff !in m.role;
    if r == Live { assert forall s :: s in LostOf(n) <==> s in LostOf(m); }
  }

  lemma FreshAgrees(d: Disk, e: Disk, m: Meta)
    requires Tuned(d, m) && SameBelow(d, e, m.freeoff)
    ensures Agree(d, e, LiveOf(m))
  {
    OpenTuned(d, m);
    SameBelowAgrees(d, e, m.exps, m.freeoff, LiveOf(m));
  }

  lemma FreeSpaceKnown(s: State)
    requires Good(s)
    ensures s.meta.freeoff + s.meta.free <= |s.file| && HEAP_START <= s.meta.freeoff
    ensures Word(s.file, HDR_FREE_POS) == s.meta.free && Word(s.file, HDR_FREEOFF_POS) == s.meta.freeoff
  {
    OpenTuned(s.file, s.meta);
  }

  /** The writes of a fresh allocation: two header words, then the size word. */
  ghost function Carved(g: Disk, free: nat, freeoff: nat, p: nat, size: nat): (r: (Disk, Disk, Disk))
    requires HEAP_START <= |g| && p + 8 <= |g|
  {
    var d1 := PatchWord(g, HDR_FREE_POS, free);
    var d2 := PatchWord(d1, HDR_FREEOFF_POS, freeoff);
    (d1, d2, PatchWord(d2, p, size))
  }

  /** What lies in front of the free space stays, and the words of the header as they come. */
  lemma CarvedBelow(d: Disk, g: Disk, free: nat, freeoff: nat, p: nat, size: nat)
    requires HEAP_START <= p && p + 8 <= |g| && p <= |d| && g[..p] == d[..p]
    requires Fits(free) && Fits(freeoff) && Fits(size)
    ensures var (d1, d2, d3) := Carved(g, free, freeoff, p, size);
      SameBelow(d, g, p) && SameBelow(d, d1, p) && SameBelow(d, d2, p) && SameBelow(d, d3, p) &&
      Word(g, HDR_FREE_POS) == Word(d, HDR_FREE_POS) && Word(g, HDR_FREEOFF_POS) == Word(d, HDR_FREEOFF_POS) &&
      Word(d1, HDR_FREE_POS) == free && Word(d1, HDR_FREEOFF_POS) == Word(d, HDR_FREEOFF_POS) &&
      Word(d2, HDR_FREE_POS) == free && Word(d2, HDR_FREEOFF_POS) == freeoff &&
      Word(d3, HDR_FREE_POS) == free && Word(d3, HDR_FREEOFF_POS) == freeoff && Word(d3, p) == size
  {
    var (d1, d2, d3) := Carved(g, free, freeoff, p, size);
    SubSlice(g, 0, p, 32, p);
    SubSlice(d, 0, p, 32, p);
    HeadKept(d, g, p);
    PatchAway(g, HDR_FREE_POS, ToBE(free, 8), 32, p);
    PatchAway(d1, HDR_FREEOFF_POS, ToBE(freeoff, 8), 32, p);
    PatchAway(d2, p, ToBE(size, 8), 32, p);
    WordPatched(g, HDR_FREE_POS, free);
    WordPatched(d1, HDR_FREEOFF_POS, freeoff);
    WordPatched(d2, p, size);
    WordAway(g, HDR_FREE_POS, free, HDR_FREEOFF_POS);
    WordAway(d1, HDR_FREEOFF_POS, freeoff, HDR_FREE_POS);
    WordAway(d2, p, size, HDR_FREE_POS);
    WordAway(d2, p, size, HDR_FREEOFF_POS);
  }

  lemma HeadKept(d: Disk, g: Disk, p: nat)
    requires 32 <= p <= |d| && p <= |g| && g[..p] == d[..p]
    ensures Word(g, HDR_FREE_POS) == Word(d, HDR_FREE_POS) && Word(g, HDR_FREEOFF_POS) == Word(d, HDR_FREEOFF_POS)
  {
    SubSlice(g, 0, p, 16, 24);
    SubSlice(d, 0, p, 16, 24);
    SubSlice(g, 0, p, 24, 32);
    SubSlice(d, 0, p, 24, 32);
  }

  /** The file, given another end when the free space is too small. What a crash has left
      behind the free space may be cut off then. */
  ghost predicate Extended(s: State, g: Disk, free: nat) {
    var p := s.meta.freeoff;
    if free == s.meta.free then g == s.file
    else free == s.meta.free + PREALLOC_SIZE && |g| == p + free && p <= |s.file| && g[..p] == s.file[..p]
  }

  ghost predicate Fresh(s: State, t: State, g: Disk, free: nat, x: nat, size: nat) {
    var p := s.meta.freeoff;
    HEAP_START <= p && p + 8 <= |g| && Pow2(x) <= free &&
    var (d1, d2, d3) := Carved(g, free - Pow2(x), p + Pow2(x), p, size);
    t.file == d3 && t.log == s.log + (if free == s.meta.free then [d1, d2, d3] else [g, d1, d2, d3]) &&
    t.budget == s.budget - 1
  }

  /** Each state of the file on the way to a fresh chunk is in tune with a layout. */
  lemma FreshSane(d: Disk, m: Meta, g: Disk, free: nat, x: nat, size: nat)
    requires Tuned(d, m) && MayGrow(g, 0) && 4 <= x && 8 <= Pow2(x) <= free && IsClass(size, x) && Fits(size)
    requires HEAP_START <= m.freeoff <= |d| && m.freeoff + free <= |g| && m.free <= free
    requires g[..m.freeoff] == d[..m.freeoff]
    requires Word(d, HDR_FREE_POS) == m.free && Word(d, HDR_FREEOFF_POS) == m.freeoff
    ensures var (d1, d2, d3) := Carved(g, free - Pow2(x), m.freeoff + Pow2(x), m.freeoff, size);
      Sane(g, LiveOf(m)) && Sane(d1, LiveOf(m)) && Sane(d2, LiveOf(m)) && Sane(d3, LiveOf(m)) &&
      Agree(d, g, LiveOf(m)) && Agree(d, d1, LiveOf(m)) && Agree(d, d2, LiveOf(m)) && Agree(d, d3, LiveOf(m)) &&
      Tuned(d3, Carve(Freed(m, free), x, Live)) && Word(d3, m.freeoff) == size
    ensures m.freeoff !in LiveOf(m) && LiveOf(Carve(Freed(m, free), x, Live)) == LiveOf(m)[m.freeoff := x]
    ensures LostOf(Carve(Freed(m, free), x, Live)) == LostOf(m)
  {
    hide Tuned, LiveOf, LostOf, Agree, Sane, Word, SameBelow, Pow2, Patch, Carve, IsClass, Inv;
    var p := m.freeoff;
    var (d1, d2, d3) := Carved(g, free - Pow2(x), p + Pow2(x), p, size);
    CarvedBelow(d, g, free - Pow2(x), p + Pow2(x), p, size);
    FreshAgrees(d, g, m);
    FreshAgrees(d, d1, m);
    FreshAgrees(d, d2, m);
    FreshAgrees(d, d3, m);
    FreedTuned(d, g, m, m.free);
    FreedTuned(d, d1, m, free - Pow2(x));
    CarveTuned(d, d2, m, free, x, Lost);
    CarveTuned(d, d3, m, free, x, Live);
    SaneNow(g, LiveOf(m), Freed(m, m.free));
    SaneNow(d1, LiveOf(m), Freed(m, free - Pow2(x)));
    SaneNow(d2, LiveOf(m), Carve(Freed(m, free), x, Lost));
    SaneNow(d3, LiveOf(m), Carve(Freed(m, free), x, Live));
  }

  lemma SaneNow(e: Disk, p: map<nat, nat>, m: Meta)
    requires MayGrow(e, 0) && Tuned(e, m) && forall s :: s in p ==> s in LiveOf(m) && LiveOf(m)[s] == p[s]
    ensures Sane(e, p)
  {
    assert SaneBy(e, p, m);
  }

  lemma FreshMove(s: State, t: State, g: Disk, free: nat, x: nat, size: nat)
    requires Good(s) && s.budget > 0 && IsClass(size, x) && Fits(size) && Extended(s, g, free)
    requires Fresh(s, t, g, free, x, size) && t.meta == Carve(Freed(s.meta, free), x, Live)
    ensures Good(t) && Moves(s, t, InUse(s)) && s.meta.freeoff !in InUse(s)
    ensures InUse(t) == InUse(s)[s.meta.freeoff := x] && Word(t.file, s.meta.freeoff) == size
  {
    hide Word, TunedParts, Pow256, Tuned, Carve, Shape, Moves, Step, ToBE, Fits, MovesParts, FromBELast, Agree, Sane;
    var p := s.meta.freeoff;
    FreeSpaceKnown(s);
    Pow2Values();
    Pow2Grows(4, x);
    FreshSane(s.file, s.meta, g, free, x, size);
    var (d1, d2, d3) := Carved(g, free - Pow2(x), p + Pow2(x), p, size);
    var more := if free == s.meta.free then [d1, d2, d3] else [g, d1, d2, d3];
    StepList(s.log, t.log, more, s.file, t.file, InUse(s));
    OpenMoves(s, t, InUse(s));
  }

  /** What the 64-bit subtraction makes of the free space. */
  ghost function Taken(free: nat, x: nat): (n: nat) {
    (free - Pow2(x)) % 0x1_0000_0000_0000_0000
  }

  lemma FreshFits(s: State, g: Disk, free: nat, x: nat, size: nat)
    requires Good(s) && Extended(s, g, free) && MayGrow(g, 0) && 4 <= x && Pow2(x) <= free && IsClass(size, x) &&
      Fits(size)
    requires HEAP_START <= s.meta.freeoff && s.meta.freeoff + 8 <= |g|
    ensures Tuned(Carved(g, Taken(free, x), s.meta.freeoff + Pow2(x), s.meta.freeoff, size).2,
      Carve(Freed(s.meta, free), x, Live))
  {
    hide Tuned, Carve, Agree, Sane, LiveOf, LostOf, Word, SameBelow, Patch;
    FreeSpaceKnown(s);
    Pow2Values();
    Pow2Grows(4, x);
    FreshSane(s.file, s.meta, g, free, x, size);
    ModUnique(free - Pow2(x), 0x1_0000_0000_0000_0000, 0, free - Pow2(x));
  }

  lemma FreshWraps(s: State, g: Disk, free: nat, x: nat, size: nat, m: Meta)
    requires Good(s) && Extended(s, g, free) && MayGrow(g, 0) && x <= 31 && free < Pow2(x) && Fits(size)
    requires HEAP_START <= s.meta.freeoff && s.meta.freeoff + 8 <= |g| && 4 <= x
    ensures !Tuned(Carved(g, Taken(free, x), s.meta.freeoff + Pow2(x), s.meta.freeoff, size).2, m)
  {
    var p := s.meta.freeoff;
    SizeBelow(x);
    FreeSpaceKnown(s);
    ModUnique(free - Pow2(x), 0x1_0000_0000_0000_0000, -1, free - Pow2(x) + 0x1_0000_0000_0000_0000);
    CarvedBelow(s.file, g, Taken(free, x), p + Pow2(x), p, size);
    OpenTuned(Carved(g, Taken(free, x), p + Pow2(x), p, size).2, m);
  }

  /** The file is extended by 512K at most: a chunk carved from the free space leaves it in tune
      with a layout if and only if it is no larger than what is free then. Otherwise the
      number of free bytes in the header wraps around. */
  lemma FreshExactly(s: State, g: Disk, free: nat, x: nat, size: nat)
    requires Good(s) && IsClass(size, x) && x <= 31 && Extended(s, g, free) && MayGrow(g, 0) && 8 <= free
    requires free == s.meta.free + if s.meta.free < Pow2(x) then PREALLOC_SIZE else 0
    ensures HEAP_START <= s.meta.freeoff && s.meta.freeoff + 8 <= |g|
    ensures var d3 := Carved(g, Taken(free, x), s.meta.freeoff + Pow2(x), s.meta.freeoff, size).2;
      (exists m :: Tuned(d3, m)) <==> Pow2(x) <= free
  {
    FreeSpaceKnown(s);
    SizeBelow(x);
    hide *;
    var d3 := Carved(g, Taken(free, x), s.meta.freeoff + Pow2(x), s.meta.freeoff, size).2;
    if Pow2(x) <= free {
      FreshFits(s, g, free, x, size);
      assert Tuned(d3, Carve(Freed(s.meta, free), x, Live));
    } else {
      forall m: Meta
        ensures !Tuned(d3, m)
      {
        FreshWraps(s, g, free, x, size, m);
      }
    }
  }

  lemma SizeBelow(x: nat)
    requires 4 <= x <= 31
    ensures 16 <= Pow2(x) <= 0x8000_0000
  {
    Pow2Values();
    Pow2Grows(4, x);
    Pow2Grows(x, 31);
    assert Pow2(31) == 0x1000 * Pow2(19);
  }

  /** The root pointer is no concern of the allocator. */
  lemma RootMove(s: State, v: nat)
    requires Good(s) && Fits(v)
    ensures HEAP_START <= |s.file|
    ensures var t := Wrote(s, PatchWord(s.file, HDR_ROOTPTR_POS, v), s.meta);
      Good(t) && Word(t.file, HDR_ROOTPTR_POS) == v &&
      forall c :: c in InUse(s) ==> SameChunk(s.file, t.file, c, InUse(s)[c])
  {
    OpenTuned(s.file, s.meta);
    RootWrite(s.file, s.meta, v);
    OpenTuned(PatchWord(s.file, HDR_ROOTPTR_POS, v), s.meta);
  }

  lemma MovesNone(s: State)
    requires Good(s)
    ensures Moves(s, s, InUse(s))
  {
    OpenTuned(s.file, s.meta);
    AgreeSelf(s.file, s.meta, InUse(s));
    OpenMoves(s, s, InUse(s));
  }

  lemma InUseBack(p: map<nat, nat>, s: nat, x: nat)
    requires s !in p
    ensures Without(p[s := x], s) == p && Within(p, p[s := x])
  {
  }

  lemma SpendMove(s: State, t: State)
    requires Good(s) && s.budget > 0 && t == s.(budget := s.budget - 1)
    ensures Good(t) && Moves(s, t, InUse(s))
  {
    OpenTuned(s.file, s.meta);
    AgreeSelf(s.file, s.meta, InUse(s));
    OpenMoves(s, t, InUse(s));
  }

  lemma ClassFits(size: nat, x: nat)
    requires IsClass(size, x) && x <= 31
    ensures Fits(size) && size + 8 <= Pow2(x) && (x <= 19 ==> Pow2(x) <= PREALLOC_SIZE)
  {
    SizeBelow(x);
    Pow2Values();
    if x <= 19 { Pow2Grows(x, 19); }
  }

  /** A free-list block is a chunk of class 11, exactly. */
  lemma BlockClass()
    ensures IsClass(BLOCK_SIZE, BLOCK_EXP)
  {
    Pow2Values();
    assert Pow2(11) == 2 * Pow2(10);
  }

  // ------------------------------------------------------------------
  // A new file, and reading one
  // ------------------------------------------------------------------

  /** No chunks yet, and 28 empty lists whose first blocks are in the header. */
  ghost function NewMeta(): (m: Meta) {
    Meta(0, HEAP_START, seq(LIST_COUNT, f requires 0 <= f => FreeList([32 + BLOCK_SIZE * f], 0)),
      seq(LIST_COUNT, _ => []), map[], map[])
  }

  lemma {:induction false} ZeroBE(s: seq<byte>)
    requires forall i :: 0 <= i < |s| ==> s[i] == 0
    ensures FromBE(s) == 0
  {
    if s != [] { ZeroBE(s[..|s| - 1]); }
  }

  lemma {:induction false} ZeroBytes(n: nat, i: nat)
    requires i < n
    ensures ToBE(0, n)[i] == 0
  {
    if i < n - 1 { ZeroBytes(n - 1, i); }
  }

  ghost predicate ZeroLists(d: Disk) {
    |d| == HEAP_START && forall k :: 32 <= k < HDR_ROOTPTR_POS ==> d[k] == 0
  }

  ghost predicate Blank(d: Disk) {
    ZeroLists(d) && Word(d, HDR_FREE_POS) == 0 && Word(d, HDR_FREEOFF_POS) == HEAP_START
  }

  lemma ZeroPatch(d: Disk, a: nat, n: nat)
    requires ZeroLists(d) && 32 <= a && a + n <= HDR_ROOTPTR_POS
    ensures ZeroLists(Patch(d, a, ToBE(0, n))) && Patch(d, a, ToBE(0, n))[..32] == d[..32]
  {
    PatchAway(d, a, ToBE(0, n), 0, 32);
    forall k | 32 <= k < HDR_ROOTPTR_POS
      ensures Patch(d, a, ToBE(0, n))[k] == 0
    {
      if a <= k < a + n { ZeroBytes(n, k - a); }
    }
  }

  lemma HeadWritten(z: Disk)
    requires ZeroLists(z)
    ensures var e := PatchWord(PatchWord(z, HDR_FREE_POS, 0), HDR_FREEOFF_POS, HEAP_START);
      ZeroLists(e) && Word(e, HDR_FREE_POS) == 0 && Word(e, HDR_FREEOFF_POS) == HEAP_START
  {
    var d := PatchWord(z, HDR_FREE_POS, 0);
    WordPatched(z, HDR_FREE_POS, 0);
    WordPatched(d, HDR_FREEOFF_POS, HEAP_START);
    WordAway(d, HDR_FREEOFF_POS, HEAP_START, HDR_FREE_POS);
  }

  lemma NewInv(d: Disk)
    requires Blank(d)
    ensures Tuned(d, NewMeta()) && InUse(State(d, [], NewMeta(), 0)) == map[]
  {
    var m := NewMeta();
    forall f: nat, i: nat, w: nat | IsSlot(m, f, i, w)
      ensures SlotHolds(d, m, f, i, w)
    {
      var a := BlockAt(m, f, i) + 8 * w;
      ZeroBE(d[a..a + 8]);
    }
    OpenTuned(d, m);
  }

  /** The input that shows it: the first request for a chunk of a megabyte, on a new file. */
  lemma LargeOnNew(d: Disk, g: Disk, size: nat, m: Meta)
    requires Blank(d) && d <= g && |g| == |d| + PREALLOC_SIZE && IsClass(size, 20)
    ensures !Tuned(Carved(g, Taken(PREALLOC_SIZE, 20), HEAP_START + Pow2(20), HEAP_START, size).2, m)
  {
    NewInv(d);
    ClassFits(size, 20);
    Pow2Values();
    assert Pow2(20) == 2 * Pow2(19);
    assert g[..HEAP_START] == d[..HEAP_START];
    hide Tuned, Carved;
    FreshWraps(State(d, [], NewMeta(), 0), g, PREALLOC_SIZE, 20, size, m);
  }

  ghost predicate HasBlock(m: Meta, f: nat, i: nat) {
    f < |m.lists| && i < |m.lists[f].blocks|
  }

  lemma SlotSays(d: Disk, m: Meta, f: nat, i: nat, w: nat)
    requires Shape(m) && AllSlots(d, m) && IsSlot(m, f, i, w)
    ensures BlockAt(m, f, i) + 8 * w + 8 <= |d| && Word(d, BlockAt(m, f, i) + 8 * w) == SlotValue(m, f, i, w)
  {
    assert SlotHolds(d, m, f, i, w);
  }

  lemma BlockWords(d: Disk, m: Meta, f: nat, i: nat, b: nat)
    requires Inv(d, m) && IsBlock(m, f, i) && b == BlockAt(m, f, i)
    ensures b != 0 && b + 24 <= |d| && Word(d, b + 8) == SlotValue(m, f, i, 1) &&
      Word(d, b + 16) == SlotValue(m, f, i, 2)
  {
    BlockPlace(m, f, i);
    SlotSays(d, m, f, i, 1);
    SlotSays(d, m, f, i, 2);
  }

  /** Each free-list block on disk names the next one and says how many entries it has. */
  lemma BlockSays(d: Disk, m: Meta, f: nat, i: nat)
    requires Tuned(d, m) && f < LIST_COUNT && HasBlock(m, f, i)
    ensures var b, n := m.lists[f].blocks[i], |m.lists[f].blocks|;
      b != 0 && b + 24 <= |d| &&
      Word(d, b + 8) == (if i + 1 < n then m.lists[f].blocks[i + 1] else 0) &&
      (i + 1 < n ==> m.lists[f].blocks[i + 1] != 0) && (i + 1 == n ==> Word(d, b + 16) == m.lists[f].lastItems)
  {
    hide Word;
    OpenTuned(d, m);
    BlockWords(d, m, f, i, BlockAt(m, f, i));
    if i + 1 < |m.lists[f].blocks| { BlockPlace(m, f, i + 1); }
  }

  /** Where the header and the lists start. */
  lemma HeadSays(d: Disk, m: Meta)
    requires Tuned(d, m)
    ensures HEAP_START <= |d| && Word(d, HDR_FREE_POS) == m.free && Word(d, HDR_FREEOFF_POS) == m.freeoff
    ensures |m.lists| == LIST_COUNT
    ensures forall f :: 0 <= f < LIST_COUNT ==> |m.lists[f].blocks| >= 1 && m.lists[f].blocks[0] == 32 + BLOCK_SIZE * f
  {
    OpenTuned(d, m);
    forall f | 0 <= f < LIST_COUNT
      ensures |m.lists[f].blocks| >= 1 && m.lists[f].blocks[0] == 32 + BLOCK_SIZE * f
    {
      assert ListShape(m.lists[f], m.items[f], f);
    }
  }

  /** The file may grow n times before an offset leaves 63 bits. */
  ghost predicate MayGrow(d: Disk, n: nat) {
    |d| + n * PREALLOC_SIZE < 0x8000_0000_0000_0000
  }

  lemma Refilled(s: State, n: nat)
    requires Good(s) && MayGrow(s.file, n)
    ensures Good(s.(budget := n)) && InUse(s.(budget := n)) == InUse(s)
  {
  }

  // ------------------------------------------------------------------
  // What the file is divided into
  // ------------------------------------------------------------------

  ghost predicate Listed(m: Meta, c: nat, f: nat, j: nat) {
    f < |m.items| && j < |m.items[f]| && m.items[f][j] == c
  }

  ghost predicate ListBlock(m: Meta, c: nat, f: nat, i: nat) {
    f < |m.lists| && 1 <= i < |m.lists[f].blocks| && m.lists[f].blocks[i] == c + 8
  }

  /** Every byte of the heap lies in exactly one chunk, whose size is that of its class. */
  lemma ChunkAt(s: State, x: nat) returns (c: nat)
    requires Good(s) && HEAP_START <= x < s.meta.freeoff
    ensures Covers(s.meta.exps, c, x) && forall b :: Covers(s.meta.exps, b, x) ==> b == c
    ensures c + 8 <= |s.file| && (c !in LostOf(s.meta) ==> IsClass(Word(s.file, c), s.meta.exps[c]))
  {
    OpenTuned(s.file, s.meta);
    assert Covered(s.meta.exps, x);
    c :| Covers(s.meta.exps, c, x);
    Pow2Values();
    Pow2Grows(4, s.meta.exps[c]);
    if c !in LostOf(s.meta) { assert c in Known(s.meta) && HeaderHolds(s.file, Known(s.meta), c); }
  }

  /** Every chunk is either in use, or one entry of the free list of its size, or one block of a
      free list, or lost by a crash; never two of these, and never twice the same. */
  lemma Partition(s: State, c: nat)
    requires Good(s) && c in s.meta.exps
    ensures c in InUse(s) || c in LostOf(s.meta) <==>
      forall f: nat, j: nat :: !Listed(s.meta, c, f, j) && !ListBlock(s.meta, c, f, j)
    ensures c !in InUse(s) || c !in LostOf(s.meta)
    ensures forall f: nat, j: nat :: Listed(s.meta, c, f, j) ==> s.meta.exps[c] == f + 4
    ensures forall f: nat, j: nat, g: nat, k: nat ::
      Listed(s.meta, c, f, j) ==> !ListBlock(s.meta, c, g, k) && (Listed(s.meta, c, g, k) ==> (f, j) == (g, k))
    ensures forall f: nat, j: nat, g: nat, k: nat ::
      ListBlock(s.meta, c, f, j) && ListBlock(s.meta, c, g, k) ==> (f, j) == (g, k)
  {
    var m := s.meta;
    OpenTuned(s.file, m);
    assert RoleFits(m, c);
    forall f: nat, j: nat | Listed(m, c, f, j) ensures m.role[c] == Item(f, j) { assert IsItem(m, f, j); }
    forall f: nat, j: nat | ListBlock(m, c, f, j) ensures m.role[c] == Block(f, j) {
      assert IsBlock(m, f, j) && BlockFits(m, f, j);
    }
    match m.role[c]
    case Live =>
    case Lost =>
    case Item(f, j) => assert Listed(m, c, f, j);
    case Block(f, i) => assert ListBlock(m, c, f, i);
  }
}
