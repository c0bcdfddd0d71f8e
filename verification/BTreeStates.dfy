/**
 The B-tree's state as a value: which map a disk denotes, what the store must
 leave alone for it to keep denoting that map, and the writes that change it.
 */
module BTreeStates {
  import opened Bytes
  import opened Disk
  import opened AllocatorModel
  import opened AllocatorSteps
  import opened AllocatorStates
  import opened BTreeModel
  import opened BTreeNode
  import opened BTreeDisk
  import opened BTreeChange

  type Content = map<Key, seq<byte>>

  // ------------------------------------------------------------------
  // The map that a disk denotes
  // ------------------------------------------------------------------

  ghost function Top(): (n: nat) {
    Pow256(KEY_LEN)
  }

  /** In search order, balanced, and with exactly the entries of `m`. */
  ghost predicate Means(t: DTree, h: nat, m: Content) {
    WellFormed(t, -1, Top(), h) && Stores(t, m)
  }

  ghost predicate Stores(t: DTree, m: Content) {
    forall e: Entry :: Holds(t, e) == One(e.0 in m && m[e.0] == e.1)
  }

  /** `t` is what can be reached from the root pointer on disk. */
  ghost predicate Root(d: Disk, t: DTree) {
    HEAP_START <= |d| && Word(d, HDR_ROOTPTR_POS) == t.off && OnDisk(d, t)
  }

  ghost predicate DenotesBy(d: Disk, m: Content, t: DTree, h: nat) {
    Root(d, t) && Tied(t) && Means(t, h, m)
  }

  ghost predicate Denotes(d: Disk, m: Content) {
    exists t, h :: DenotesBy(d, m, t, h)
  }

  /** A disk denotes at most one map. */
  lemma DenotesOne(d: Disk, m: Content, n: Content)
    requires Denotes(d, m) && Denotes(d, n)
    ensures m == n
  {
    hide OnDisk;
    var t, h :| DenotesBy(d, m, t, h);
    var u, i :| DenotesBy(d, n, u, i);
    OnDiskUnique(d, t, u);
    forall k: Key
      ensures k in m <==> k in n
      ensures k in m && k in n ==> m[k] == n[k]
    {
      if k in m { assert Holds(t, (k, m[k])) == 1; }
      if k in n { assert Holds(t, (k, n[k])) == 1; }
    }
  }

  // ------------------------------------------------------------------
  // What a crash leaves
  // ------------------------------------------------------------------

  /** The file is that of an allocator in order and a tree that means `m`, as if the chunks that
      nothing refers to had never been handed out. */
  ghost predicate Recovers(d: Disk, m: Content) {
    exists s, t, h :: RecoversBy(d, m, s, t, h)
  }

  ghost predicate RecoversBy(d: Disk, m: Content, s: State, t: DTree, h: nat) {
    s.file == d && Good(s) && Sound(s, t, {}, h, m)
  }

  lemma RecoversDenotes(d: Disk, m: Content)
    requires Recovers(d, m)
    ensures Denotes(d, m)
  {
    var s, t, h :| RecoversBy(d, m, s, t, h);
    OpenSound(s, t, {}, h, m);
    HousedTied(t, InUse(s));
    assert DenotesBy(d, m, t, h);
  }

  /** No chunk of the tree is on a free list, is one of its blocks, or lies in the free space,
      as the file itself says: see `Allocator.Store.ReadMetadata`. */
  lemma ApartFromFree(d: Disk, m: Content, s: State, t: DTree, h: nat, c: nat)
    requires RecoversBy(d, m, s, t, h) && Uses(t, c) > 0
    ensures c in InUse(s) && HEAP_START <= |d| && c + Pow2(InUse(s)[c]) <= Word(d, HDR_FREEOFF_POS)
    ensures forall f: nat, j: nat :: !Listed(s.meta, c, f, j) && !ListBlock(s.meta, c, f, j)
  {
    OpenSound(s, t, {}, h, m);
    assert Uses(t, c) == One(c in InUse(s));
    FreeSpaceKnown(s);
    OpenTuned(s.file, s.meta);
    Partition(s, c);
  }

  /** Every file that an allocator can go on from, and on which the tree lies in chunks in use,
      recovers to the tree's map. */
  lemma RecoverHere(d: Disk, p: map<nat, nat>, t: DTree, h: nat, m: Content)
    requires Sane(d, p) && Root(d, t) && Housed(t, p) && Unshared(t) && Means(t, h, m)
    ensures Recovers(d, m)
  {
    hide Means, Root, Housed, Unshared, LiveOf;
    var n :| SaneBy(d, p, n);
    var keep := iset c: nat | Uses(t, c) > 0;
    OpenTuned(d, n);
    LoseFinish(d, n, keep);
    OpenTuned(d, Lose(n, keep));
    var s := State(d, [], Lose(n, keep), 0);
    KeptUsed(t, p, LiveOf(n), InUse(s));
    assert Kept(s, t, {});
    OpenSound(s, t, {}, h, m);
    assert RecoversBy(d, m, s, t, h);
  }

  /** The chunks in use, without those that the tree does not use. */
  lemma KeptUsed(t: DTree, p: map<nat, nat>, q: map<nat, nat>, r: map<nat, nat>)
    requires Housed(t, p) && Unshared(t) && Within(p, q)
    requires r == map c | c in q && c in (iset c: nat | Uses(t, c) > 0) :: q[c]
    ensures Housed(t, r) && Accounts(t, r, {})
  {
    forall c: nat | c in p && Uses(t, c) > 0
      ensures c in r && r[c] == p[c]
    {
    }
    HousedOn(t, p, r);
    forall c: int
      ensures Uses(t, c) == One(c >= 0 && c in r)
    {
      UsesHoused(t, r, c);
    }
  }

  /** Every state of the file that the log gained recovers to `m`. */
  ghost predicate Quiet(a: seq<Disk>, b: seq<Disk>, m: Content) {
    a <= b && forall k :: |a| <= k < |b| ==> Recovers(b[k], m)
  }

  /** From some write on `m1` instead of `m0`, and nothing else ever. */
  ghost predicate Switch(a: seq<Disk>, b: seq<Disk>, m0: Content, m1: Content) {
    exists c: nat :: SwitchAt(a, b, m0, m1, c)
  }

  ghost predicate SwitchAt(a: seq<Disk>, b: seq<Disk>, m0: Content, m1: Content, c: nat) {
    a <= b && |a| <= c <= |b| &&
    (forall k :: |a| <= k < c ==> Recovers(b[k], m0)) &&
    (forall k :: c <= k < |b| ==> Recovers(b[k], m1))
  }

  lemma QuietChain(a: seq<Disk>, b: seq<Disk>, c: seq<Disk>, m: Content)
    requires Quiet(a, b, m) && Quiet(b, c, m)
    ensures Quiet(a, c, m)
  {
    forall k | |a| <= k < |c| ensures Recovers(c[k], m) { if k < |b| { assert c[k] == b[k]; } }
  }

  lemma QuietSwitch(a: seq<Disk>, b: seq<Disk>, c: seq<Disk>, m0: Content, m1: Content)
    requires Quiet(a, b, m0) && Switch(b, c, m0, m1)
    ensures Switch(a, c, m0, m1)
  {
    var i: nat :| SwitchAt(b, c, m0, m1, i);
    forall k | |a| <= k < i ensures Recovers(c[k], m0) { if k < |b| { assert c[k] == b[k]; } }
    assert SwitchAt(a, c, m0, m1, i);
  }

  /** Quiet before the switch, quiet after it. */
  lemma SwitchHere(a: seq<Disk>, b: seq<Disk>, c: seq<Disk>, m0: Content, m1: Content)
    requires Quiet(a, b, m0) && Quiet(b, c, m1)
    ensures Switch(a, c, m0, m1)
  {
    forall k | |a| <= k < |b| ensures Recovers(c[k], m0) { assert c[k] == b[k]; }
    assert SwitchAt(a, c, m0, m1, |b|);
  }

  lemma NoSwitch(a: seq<Disk>, b: seq<Disk>, m: Content)
    requires Quiet(a, b, m)
    ensures Switch(a, b, m, m)
  {
    assert SwitchAt(a, b, m, m, |b|);
  }

  // ------------------------------------------------------------------
  // What the tree uses of the file
  // ------------------------------------------------------------------

  /** The tree uses each chunk of `p` but those in `x` exactly once, and no other. */
  ghost predicate Accounts(t: DTree, p: map<nat, nat>, x: set<nat>) {
    forall c: int :: Uses(t, c) == One(c >= 0 && c in p && c !in x)
  }

  /** The tree `t` is rooted in the file, and the chunks in use are its own and those in `x`. */
  ghost predicate Kept(s: State, t: DTree, x: set<nat>) {
    Root(s.file, t) && Housed(t, InUse(s)) && Accounts(t, InUse(s), x)
  }

  lemma RootAgrees(d: Disk, e: Disk, t: DTree, p: map<nat, nat>)
    requires Root(d, t) && Housed(t, p) && Agree(d, e, p)
    ensures Root(e, t)
  {
    OnDiskAgrees(d, e, t, p);
  }

  /** The store's moves that spare the tree's chunks. */
  lemma CalmMove(s: State, u: State, t: DTree, p: map<nat, nat>, h: nat, m: Content)
    requires Root(s.file, t) && Moves(s, u, p) && Housed(t, p) && Unshared(t) && Means(t, h, m)
    ensures Root(u.file, t) && Quiet(s.log, u.log, m)
  {
    hide Root, Agree, Housed, Unshared, Means, Sane, Recovers, Moves;
    OpenMoves(s, u, p);
    RootAgrees(s.file, u.file, t, p);
    forall k | |s.log| <= k < |u.log|
      ensures Recovers(u.log[k], m)
    {
      RootAgrees(s.file, u.log[k], t, p);
      RecoverHere(u.log[k], p, t, h, m);
    }
  }

  ghost predicate SoundParts(s: State, t: DTree, x: set<nat>, h: nat, m: Content)
    decreases h, 0
  {
    (|t.keys| > MAX_KEYS && h > 0 ==> Sound(s, t, x, h - 1, m)) && Kept(s, t, x) && Means(t, h, m)
  }

  /** The invariant of the B-tree, while chunks `x` are in use that the tree does
      not use. (Recursive on overfull nodes, which are never sound, for the same
      reason as `Tuned`.) */
  ghost predicate Sound(s: State, t: DTree, x: set<nat>, h: nat, m: Content)
    decreases h, 1
  {
    SoundParts(s, t, x, h, m)
  }

  lemma OpenSound(s: State, t: DTree, x: set<nat>, h: nat, m: Content)
    ensures Sound(s, t, x, h, m) <==> Kept(s, t, x) && Means(t, h, m)
  {
    assert SoundParts(s, t, x, h, m) <==> Kept(s, t, x) && Means(t, h, m);
  }

  lemma SoundAlloc(s: State, u: State, t: DTree, x: set<nat>, c: nat, e: nat, h: nat, m: Content)
    requires Sound(s, t, x, h, m) && Moves(s, u, InUse(s)) && c !in InUse(s) && InUse(u) == InUse(s)[c := e]
    ensures Sound(u, t, x + {c}, h, m) && Quiet(s.log, u.log, m)
  {
    OpenSound(s, t, x, h, m);
    AccountsUnshared(t, InUse(s), x);
    CalmMove(s, u, t, InUse(s), h, m);
    HousedWithin(t, InUse(s), InUse(u));
    OpenSound(u, t, x + {c}, h, m);
  }

  lemma SoundWrite(s: State, u: State, t: DTree, x: set<nat>, c: nat, h: nat, m: Content)
    requires Sound(s, t, x, h, m) && c in x && Moves(s, u, Without(InUse(s), c)) && InUse(u) == InUse(s)
    ensures Sound(u, t, x, h, m) && Quiet(s.log, u.log, m)
  {
    OpenSound(s, t, x, h, m);
    HousedWithout(t, InUse(s), c);
    AccountsUnshared(t, InUse(s), x);
    CalmMove(s, u, t, Without(InUse(s), c), h, m);
    OpenSound(u, t, x, h, m);
  }

  lemma SoundFree(s: State, u: State, t: DTree, x: set<nat>, c: nat, h: nat, m: Content)
    requires Sound(s, t, x, h, m) && c in x && Moves(s, u, Without(InUse(s), c)) && InUse(u) == Without(InUse(s), c)
    ensures Sound(u, t, x - {c}, h, m) && Quiet(s.log, u.log, m)
  {
    OpenSound(s, t, x, h, m);
    HousedWithout(t, InUse(s), c);
    AccountsUnshared(t, InUse(s), x);
    CalmMove(s, u, t, Without(InUse(s), c), h, m);
    OpenSound(u, t, x - {c}, h, m);
  }

  // ------------------------------------------------------------------
  // The one write that counts
  // ------------------------------------------------------------------

  /** After a single write that makes `r` the tree. */
  lemma OneWrite(s: State, u: State, r: DTree, y: set<nat>, h: nat, m: Content)
    requires u.log == s.log + [u.file] && Good(u) && Kept(u, r, y) && Means(r, h, m)
    ensures Quiet(s.log, u.log, m)
  {
    hide Root, Housed, Means, Recovers, LiveOf;
    SaneNow(u.file, InUse(u), u.meta);
    AccountsUnshared(r, InUse(u), y);
    RecoverHere(u.file, InUse(u), r, h, m);
  }

  lemma AccountsUnshared(t: DTree, p: map<nat, nat>, x: set<nat>)
    requires Accounts(t, p, x)
    ensures Unshared(t)
  {
  }

  /** The root pointer, set to another tree on disk. */
  lemma SwingRoot(d: Disk, e: Disk, r: DTree, p: map<nat, nat>)
    requires OnDisk(d, r) && Housed(r, p) && SameBytes(d, e, p) && HEAP_START <= |e| &&
      Word(e, HDR_ROOTPTR_POS) == r.off
    ensures Root(e, r)
  {
    OnDiskAgrees(d, e, r, p);
  }

  /** A tree whose node at path `p` has changed in place, by writes to its chunk only. */
  lemma RootInPlace(d: Disk, e: Disk, t: DTree, p: seq<nat>, s: DTree, q: map<nat, nat>, c: nat)
    requires Root(d, t) && Housed(t, q) && HasPath(t, p) && Sub(t, p).off == s.off == c + 8
    requires Uses(t, c) == 1 && Agree(d, e, Without(q, c)) && OnDisk(e, s)
    ensures Root(e, Replace(t, p, s))
  {
    InPlace(d, e, t, p, s, q);
    ReplaceOff(t, p, s);
  }

  lemma ReplaceOff(t: DTree, p: seq<nat>, s: DTree)
    requires HasPath(t, p) && s.off == Sub(t, p).off
    ensures Replace(t, p, s).off == t.off
  {
  }

  /** The node's own chunk is written, its values and kids are elsewhere. */
  lemma ValsSpared(d: Disk, e: Disk, n: DTree, q: map<nat, nat>, c: nat)
    requires OnDisk(d, n) && Housed(n, q) && SameBytes(d, e, Without(q, c)) && n.off == c + 8 && Uses(n, c) <= 1
    ensures forall i :: 0 <= i < |n.vals| ==> ValOnDisk(e, n.vals[i])
  {
    forall i | 0 <= i < |n.vals|
      ensures ValOnDisk(e, n.vals[i])
    {
      ValUsesSplit(n.vals, i, c);
      assert ValHoused(n.vals[i], q);
      ValAgrees(d, e, n.vals[i], Without(q, c));
    }
  }

  lemma KidsSpared(d: Disk, e: Disk, n: DTree, q: map<nat, nat>, c: nat)
    requires OnDisk(d, n) && Housed(n, q) && SameBytes(d, e, Without(q, c)) && n.off == c + 8 && Uses(n, c) <= 1
    ensures forall j :: 0 <= j < |n.kids| ==> OnDisk(e, n.kids[j])
  {
    forall j | 0 <= j < |n.kids|
      ensures OnDisk(e, n.kids[j])
    {
      UsesParts(n, j, c);
      HousedWithout(n.kids[j], q, c);
      OnDiskAgrees(d, e, n.kids[j], Without(q, c));
    }
  }

  /** A node's kid cell, set to another tree on disk. */
  lemma KidWrite(d: Disk, e: Disk, n: DTree, i: nat, r: DTree, q: map<nat, nat>, c: nat)
    requires OnDisk(d, n) && Housed(n, q) && n.off == c + 8 && Uses(n, c) <= 1 && i < |n.kids|
    requires OnDisk(d, r) && Housed(r, q) && Fits(r.off) && Uses(r, c) == 0
    requires var a := n.off + KIDS_POS + WORD * i; a + 8 <= |d| && e == PatchWord(d, a, r.off)
    requires SameBytes(d, e, Without(q, c))
    ensures OnDisk(e, Node(n.off, n.keys, n.vals, n.kids[i := r]))
  {
    hide Uses;
    KidSwung(d, n, i, r);
    ValsSpared(d, e, n, q, c);
    KidsSpared(d, e, n, q, c);
    HousedWithout(r, q, c);
    OnDiskAgrees(d, e, r, Without(q, c));
  }

  /** A node's value cell, set to another value on disk. */
  lemma ValWrite(d: Disk, e: Disk, n: DTree, i: nat, v: Val, q: map<nat, nat>, c: nat)
    requires OnDisk(d, n) && Housed(n, q) && n.off == c + 8 && Uses(n, c) <= 1 && i < |n.vals|
    requires ValOnDisk(d, v) && ValHoused(v, q) && Fits(v.off) && v.off != n.off
    requires var a := n.off + VALS_POS + WORD * i; a + 8 <= |d| && e == PatchWord(d, a, v.off)
    requires SameBytes(d, e, Without(q, c))
    ensures OnDisk(e, WithVal(n, i, v))
  {
    ValSwung(d, n, i, v);
    ValsSpared(d, e, n, q, c);
    KidsSpared(d, e, n, q, c);
    ValAgrees(d, e, v, Without(q, c));
  }

  /** The kid cell of the node at path `p`, set to another tree on disk. */
  lemma SwingKid(d: Disk, e: Disk, t: DTree, p: seq<nat>, i: nat, r: DTree, q: map<nat, nat>, c: nat)
    requires Root(d, t) && Housed(t, q) && Uses(t, c) == 1 && HasPath(t, p) && Sub(t, p).off == c + 8
    requires i < |Sub(t, p).kids| && OnDisk(d, r) && Housed(r, q) && Fits(r.off) && Uses(r, c) == 0
    requires var a := c + 8 + KIDS_POS + WORD * i; a + 8 <= |d| && e == PatchWord(d, a, r.off)
    requires Agree(d, e, Without(q, c))
    ensures HasPath(t, p + [i]) && Root(e, Replace(t, p + [i], r))
  {
    hide OnDisk;
    SubOnDisk(t, p, d);
    SubHoused(t, p, q);
    SubUses(t, p, c);
    KidWrite(d, e, Sub(t, p), i, r, q, c);
    ReplaceStep(t, p, i, r);
    KidInPlace(d, e, t, p, i, r, q, c, Sub(t, p));
  }

  lemma KidInPlace(d: Disk, e: Disk, t: DTree, p: seq<nat>, i: nat, r: DTree, q: map<nat, nat>, c: nat, n: DTree)
    requires Root(d, t) && Housed(t, q) && Uses(t, c) == 1 && HasPath(t, p) && Sub(t, p) == n && n.off == c + 8
    requires i < |n.kids| && OnDisk(e, Node(n.off, n.keys, n.vals, n.kids[i := r])) && Agree(d, e, Without(q, c))
    ensures Root(e, Replace(t, p, Node(n.off, n.keys, n.vals, n.kids[i := r])))
  {
    RootInPlace(d, e, t, p, Node(n.off, n.keys, n.vals, n.kids[i := r]), q, c);
  }

  /** The value cell of the node at path `p`, set to another value on disk. */
  lemma SwingVal(d: Disk, e: Disk, t: DTree, p: seq<nat>, i: nat, v: Val, q: map<nat, nat>, c: nat)
    requires Root(d, t) && Housed(t, q) && Uses(t, c) == 1 && HasPath(t, p) && Sub(t, p).off == c + 8
    requires i < |Sub(t, p).vals| && ValOnDisk(d, v) && ValHoused(v, q) && Fits(v.off) && v.off != c + 8
    requires var a := c + 8 + VALS_POS + WORD * i; a + 8 <= |d| && e == PatchWord(d, a, v.off)
    requires Agree(d, e, Without(q, c))
    ensures Root(e, Replace(t, p, WithVal(Sub(t, p), i, v)))
  {
    SubOnDisk(t, p, d);
    SubHoused(t, p, q);
    SubUses(t, p, c);
    ValWrite(d, e, Sub(t, p), i, v, q, c);
    RootInPlace(d, e, t, p, WithVal(Sub(t, p), i, v), q, c);
  }

  // ------------------------------------------------------------------
  // Swinging a pointer
  // ------------------------------------------------------------------

  ghost predicate Spare(c: int, x: set<nat>, q: map<nat, nat>) {
    c >= 0 && c in x && c in q
  }

  /** Putting `r` for `o` turns spare chunks `x` into spare chunks `y`. */
  ghost predicate Trade(o: DTree, r: DTree, q: map<nat, nat>, x: set<nat>, y: set<nat>) {
    forall c: int :: Uses(r, c) + One(Spare(c, y, q)) == Uses(o, c) + One(Spare(c, x, q))
  }

  lemma TradeAccounts(t: DTree, p: seq<nat>, r: DTree, q: map<nat, nat>, x: set<nat>, y: set<nat>)
    requires Accounts(t, q, x) && HasPath(t, p) && Trade(Sub(t, p), r, q, x, y)
    ensures Accounts(Replace(t, p, r), q, y)
  {
    forall c: int
      ensures Uses(Replace(t, p, r), c) == One(c >= 0 && c in q && c !in y)
    {
      ReplaceUses(t, p, r, c);
    }
  }

  /** A node's own chunk is used by none of its kids. */
  lemma KidElsewhere(t: DTree, p: seq<nat>, i: nat, q: map<nat, nat>, x: set<nat>)
    requires Accounts(t, q, x) && Housed(t, q) && HasPath(t, p) && i < |Sub(t, p).kids|
    ensures var c := Sub(t, p).off - 8;
      c >= 0 && Uses(t, c) == 1 && Uses(Sub(t, p).kids[i], c) == 0 && c !in x && c in q && q[c] == NODE_EXP
  {
    SubHoused(t, p, q);
    SubUses(t, p, Sub(t, p).off - 8);
    UsesParts(Sub(t, p), i, Sub(t, p).off - 8);
  }

  ghost function Swung(s: State, a: nat, v: nat): (u: State)
    requires a + 8 <= |s.file|
  {
    Wrote(s, PatchWord(s.file, a, v), s.meta)
  }

  lemma SwingRootMove(s: State, t: DTree, r: DTree, x: set<nat>, y: set<nat>)
    requires Good(s) && Kept(s, t, x) && OnDisk(s.file, r) && Housed(r, InUse(s)) && Trade(t, r, InUse(s), x, y)
    ensures HDR_ROOTPTR_POS + 8 <= |s.file|
    ensures Good(Swung(s, HDR_ROOTPTR_POS, r.off)) && Kept(Swung(s, HDR_ROOTPTR_POS, r.off), r, y)
  {
    ChunkKnown(s, r.off - 8);
    RootMove(s, r.off);
    var u := Swung(s, HDR_ROOTPTR_POS, r.off);
    SwingRoot(s.file, u.file, r, InUse(s));
    TradeAccounts(t, [], r, InUse(s), x, y);
  }

  /** Overwriting one cell of a node in use. */
  lemma CellMove(s: State, c: nat, k: nat, v: nat)
    requires Good(s) && c in InUse(s) && InUse(s)[c] == NODE_EXP && k + 8 <= NODE_SIZE
    ensures c + 8 + k + 8 <= |s.file| && Good(Swung(s, c + 8 + k, v))
    ensures Agree(s.file, Swung(s, c + 8 + k, v).file, Without(InUse(s), c))
  {
    Pow2Values();
    PayloadMove(s, c, c + 8 + k, ToBE(v, 8));
    OpenMoves(s, Swung(s, c + 8 + k, v), Without(InUse(s), c));
  }

  /** What a trade leaves unused stays unused. */
  lemma TradeUnused(o: DTree, r: DTree, q: map<nat, nat>, x: set<nat>, y: set<nat>, c: nat)
    requires Trade(o, r, q, x, y) && Uses(o, c) == 0 && c !in x
    ensures Uses(r, c) == 0
  {
    assert Uses(r, c) + One(Spare(c, y, q)) == Uses(o, c) + One(Spare(c, x, q));
  }

  lemma SwingKidRoot(s: State, t: DTree, p: seq<nat>, n: DTree, i: nat, w: seq<nat>, r: DTree, c: nat, a: nat)
    requires Good(s) && Root(s.file, t) && Housed(t, InUse(s)) && HasPath(t, p) && Sub(t, p) == n && n.off == c + 8
    requires i < |n.kids| && i <= MAX_KEYS && w == p + [i] && a == c + 8 + KIDS_POS + WORD * i
    requires OnDisk(s.file, r) && Housed(r, InUse(s)) && Uses(t, c) == 1 && Uses(r, c) == 0
    requires c in InUse(s) && InUse(s)[c] == NODE_EXP
    ensures a + 8 <= |s.file| && Good(Swung(s, a, r.off)) && HasPath(t, w)
    ensures Root(Swung(s, a, r.off).file, Replace(t, w, r))
  {
    hide Uses;
    ChunkKnown(s, r.off - 8);
    CellMove(s, c, KIDS_POS + WORD * i, r.off);
    SwingKid(s.file, Swung(s, a, r.off).file, t, p, i, r, InUse(s), c);
  }

  /** The tree after the swing keeps its accounts. */
  lemma SwungKept(s: State, u: State, t: DTree, w: seq<nat>, r: DTree, x: set<nat>, y: set<nat>)
    requires Kept(s, t, x) && HasPath(t, w) && Housed(r, InUse(s)) && Trade(Sub(t, w), r, InUse(s), x, y)
    requires u.meta == s.meta && Root(u.file, Replace(t, w, r))
    ensures Kept(u, Replace(t, w, r), y)
  {
    ReplaceHoused(t, w, r, InUse(s));
    TradeAccounts(t, w, r, InUse(s), x, y);
  }

  lemma SwingBelow(s: State, t: DTree, q: seq<nat>, n: DTree, i: nat, p: seq<nat>, r: DTree, x: set<nat>, y: set<nat>,
        a: nat)
    requires Good(s) && Kept(s, t, x) && HasPath(t, q) && Sub(t, q) == n && i < |n.kids| && i <= MAX_KEYS &&
      p == q + [i]
    requires a == n.off + KIDS_POS + WORD * i && OnDisk(s.file, r) && Housed(r, InUse(s)) &&
      Trade(n.kids[i], r, InUse(s), x, y)
    ensures a + 8 <= |s.file| && Good(Swung(s, a, r.off)) && HasPath(t, p) &&
      Root(Swung(s, a, r.off).file, Replace(t, p, r))
    ensures a > HDR_ROOTPTR_POS
  {
    var c := n.off - 8;
    KidElsewhere(t, q, i, InUse(s), x);
    TradeUnused(n.kids[i], r, InUse(s), x, y, c);
    ChunkKnown(s, c);
    SwingKidRoot(s, t, q, n, i, p, r, c, a);
  }

  /** Overwriting the pointer to the node at path `p` puts `r` in its place. */
  lemma PointerMove(s: State, t: DTree, p: seq<nat>, r: DTree, x: set<nat>, y: set<nat>, a: nat)
    requires Good(s) && Kept(s, t, x) && HasPath(t, p) && a == CellOf(t, p) && forall i :: 0 <= i < |p| ==>
      p[i] <= MAX_KEYS
    requires OnDisk(s.file, r) && Housed(r, InUse(s)) && Trade(Sub(t, p), r, InUse(s), x, y)
    ensures a + 8 <= |s.file| && Good(Swung(s, a, r.off)) && Kept(Swung(s, a, r.off), Replace(t, p, r), y)
    ensures a == HDR_ROOTPTR_POS <==> p == []
  {
    if p == [] {
      SwingRootMove(s, t, r, x, y);
    } else {
      var q, i := LastStep(t, p);
      SwingBelow(s, t, q, Sub(t, q), i, p, r, x, y, a);
      SwungKept(s, Swung(s, a, r.off), t, p, r, x, y);
    }
  }

  lemma LastStep(t: DTree, p: seq<nat>) returns (q: seq<nat>, i: nat)
    requires HasPath(t, p) && p != []
    ensures p == q + [i] && HasPath(t, q) && i < |Sub(t, q).kids| && i in p
    ensures Sub(t, p) == Sub(t, q).kids[i] && CellOf(t, p) == Sub(t, q).off + KIDS_POS + WORD * i
  {
    PathInit(t, p);
    q, i := p[..|p| - 1], p[|p| - 1];
    PathStep(t, q, i);
    CellStep(t, q, i);
  }

  lemma SwingValRoot(s: State, t: DTree, p: seq<nat>, i: nat, v: Val, x: set<nat>, c: nat)
    requires Good(s) && Kept(s, t, x) && HasPath(t, p) && i < |Sub(t, p).vals| && i < MAX_KEYS && c + 8 == Sub(t, p).off
    requires ValOnDisk(s.file, v) && ValHoused(v, InUse(s)) && v.off - 8 in x
    ensures var k := VALS_POS + WORD * i;
      c + 8 + k + 8 <= |s.file| && Good(Swung(s, c + 8 + k, v.off)) &&
      Root(Swung(s, c + 8 + k, v.off).file, Replace(t, p, WithVal(Sub(t, p), i, v)))
  {
    SubHoused(t, p, InUse(s));
    SubUses(t, p, c);
    ChunkKnown(s, v.off - 8);
    CellMove(s, c, VALS_POS + WORD * i, v.off);
    SwingVal(s.file, Swung(s, c + 8 + VALS_POS + WORD * i, v.off).file, t, p, i, v, InUse(s), c);
  }

  /** Overwriting value pointer i of the node at path `p`. */
  lemma SwingValMove(s: State, t: DTree, p: seq<nat>, i: nat, v: Val, x: set<nat>, y: set<nat>, a: nat)
    requires Good(s) && Kept(s, t, x) && HasPath(t, p) && i < |Sub(t, p).vals| && i < MAX_KEYS
    requires ValOnDisk(s.file, v) && ValHoused(v, InUse(s)) && v.off - 8 in x
    requires Trade(Sub(t, p), WithVal(Sub(t, p), i, v), InUse(s), x, y) && a == Sub(t, p).off + VALS_POS + WORD * i
    ensures a + 8 <= |s.file| && Good(Swung(s, a, v.off))
    ensures Kept(Swung(s, a, v.off), Replace(t, p, WithVal(Sub(t, p), i, v)), y)
  {
    SubHoused(t, p, InUse(s));
    SwingValRoot(s, t, p, i, v, x, Sub(t, p).off - 8);
    WithValHoused(Sub(t, p), i, v, InUse(s));
    SwungKept(s, Swung(s, a, v.off), t, p, WithVal(Sub(t, p), i, v), x, y);
  }

  lemma WithValHoused(n: DTree, i: nat, v: Val, q: map<nat, nat>)
    requires Housed(n, q) && ValHoused(v, q) && i < |n.vals|
    ensures Housed(WithVal(n, i, v), q)
  {
  }

  /** The write that puts `r` in place at path `p`, and so makes the map `m2`. */
  lemma SoundSwing(s: State, t: DTree, p: seq<nat>, r: DTree, x: set<nat>, y: set<nat>, a: nat, h: nat, m: Content,
        h2: nat, m2: Content)
    requires Good(s) && Sound(s, t, x, h, m) && HasPath(t, p) && a == CellOf(t, p)
    requires OnDisk(s.file, r) && Housed(r, InUse(s)) && Trade(Sub(t, p), r, InUse(s), x, y)
    requires Means(Replace(t, p, r), h2, m2)
    ensures a + 8 <= |s.file| && Good(Swung(s, a, r.off)) && Sound(Swung(s, a, r.off), Replace(t, p, r), y, h2, m2)
    ensures Quiet(s.log, Swung(s, a, r.off).log, m2)
    ensures Replace(t, p, r).off == if a == HDR_ROOTPTR_POS then r.off else t.off
  {
    OpenSound(s, t, x, h, m);
    PathSmall(t, -1, Top(), h, p);
    PointerMove(s, t, p, r, x, y, a);
    OneWrite(s, Swung(s, a, r.off), Replace(t, p, r), y, h2, m2);
    OpenSound(Swung(s, a, r.off), Replace(t, p, r), y, h2, m2);
  }

  lemma RootStays(t: DTree, p: seq<nat>, r: DTree)
    requires HasPath(t, p) && (p == [] ==> r.off == t.off)
    ensures Replace(t, p, r).off == t.off
  {
  }

  lemma {:induction false} PathSmall(t: DTree, lo: int, hi: int, h: nat, p: seq<nat>)
    requires WellFormed(t, lo, hi, h) && HasPath(t, p)
    ensures forall i :: 0 <= i < |p| ==> p[i] <= MAX_KEYS
    decreases p
  {
    hide KeyNum;
    if p != [] {
      assert KidFormed(t, lo, hi, h, p[0]);
      PathSmall(t.kids[p[0]], Below(t, lo, p[0]), Above(t, hi, p[0]), h - 1, p[1..]);
      assert p == [p[0]] + p[1..];
    }
  }

  lemma SoundSwingVal(s: State, t: DTree, p: seq<nat>, i: nat, v: Val, x: set<nat>, y: set<nat>, a: nat, h: nat,
        m: Content, m2: Content)
    requires Good(s) && Sound(s, t, x, h, m) && HasPath(t, p) && i < |Sub(t, p).vals| && i < MAX_KEYS
    requires ValOnDisk(s.file, v) && ValHoused(v, InUse(s)) && v.off - 8 in x
    requires Trade(Sub(t, p), WithVal(Sub(t, p), i, v), InUse(s), x, y) && a == Sub(t, p).off + VALS_POS + WORD * i
    requires Means(Replace(t, p, WithVal(Sub(t, p), i, v)), h, m2)
    ensures a + 8 <= |s.file| && Good(Swung(s, a, v.off))
    ensures Sound(Swung(s, a, v.off), Replace(t, p, WithVal(Sub(t, p), i, v)), y, h, m2)
    ensures Quiet(s.log, Swung(s, a, v.off).log, m2)
  {
    OpenSound(s, t, x, h, m);
    SwingValMove(s, t, p, i, v, x, y, a);
    OneWrite(s, Swung(s, a, v.off), Replace(t, p, WithVal(Sub(t, p), i, v)), y, h, m2);
    OpenSound(Swung(s, a, v.off), Replace(t, p, WithVal(Sub(t, p), i, v)), y, h, m2);
  }

  // ------------------------------------------------------------------
  // New nodes and values that wait to be linked
  // ------------------------------------------------------------------

  lemma ValMoves(s: State, u: State, v: Val, p: map<nat, nat>)
    requires ValOnDisk(s.file, v) && ValHoused(v, p) && Moves(s, u, p)
    ensures ValOnDisk(u.file, v)
  {
    OpenMoves(s, u, p);
    ValAgrees(s.file, u.file, v, p);
  }

  lemma NodeMoves(s: State, u: State, off: nat, n: NodeRec, p: map<nat, nat>)
    requires NodeBytes(s.file, off, n) && NodeHoused(off, p) && Moves(s, u, p)
    ensures NodeBytes(u.file, off, n)
  {
    OpenMoves(s, u, p);
    Pow2Values();
    BytesAgree(s.file, u.file, off - 8, p, off, NODE_SIZE);
  }

  lemma NodeClass()
    ensures IsClass(NODE_SIZE, NODE_EXP)
  {
    Pow2Values();
    assert Pow2(9) == 2 * Pow2(8);
  }
}
