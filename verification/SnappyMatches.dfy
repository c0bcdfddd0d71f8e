/** What the compressor makes of repetitions, and of texts without any. */
module SnappyMatches {
  import opened Bytes
  import opened SnappyEmit
  import opened SnappyScript
  import opened SnappyCompress
  import opened Snappy

  /** Every byte is that p bytes before it. */
  ghost predicate Repeats(text: seq<byte>, p: nat) {
    forall i :: p <= i < |text| ==> text[i] == text[i - p]
  }

  /** The four bytes at 0 are not met again before p, nor is their place in the table taken. */
  ghost predicate FirstApart(text: seq<byte>, hash: Hash, size: nat, p: nat) {
    forall i :: 0 < i < p ==> hash(LoadAt(text, i), size) != hash(LoadAt(text, 0), size)
  }

  ghost predicate WordsDiffer(text: seq<byte>, n: nat) {
    forall i, j :: 0 <= i < j < n ==> LoadAt(text, i) != LoadAt(text, j)
  }

  /** All that is remembered lies before ip. */
  ghost predicate Behind(t: Table, ip: nat) {
    forall h :: 0 <= h < |t| ==> t[h] < ip
  }

  lemma LoadRepeats(text: seq<byte>, p: nat)
    requires Repeats(text, p) && p + 4 <= |text|
    ensures LoadAt(text, p) == LoadAt(text, 0)
  {
    assert text[p..p + 4] == text[0..4];
    Load32Injective(text, p, 0);
  }

  /** The search gets as far as p, where it comes upon the four bytes at 0. */
  lemma {:induction false} PeriodFound(text: seq<byte>, t: Table, hash: Hash, p: nat, ip: nat)
    requires 1 <= ip <= p <= 32 && p + INPUT_MARGIN_BYTES < |text| && Repeats(text, p)
    requires WordsDiffer(text, p) && FirstApart(text, hash, |t|, p)
    requires Behind(t, ip) && Look(t, hash(LoadAt(text, 0), |t|)) == 0
    ensures var s := ScanFrom(text, t, hash, ip, 31 + ip);
      s.found && s.ip == p && s.candidate == 0
    decreases p - ip
  {
    hide ScanFrom, Repeats, WordsDiffer, FirstApart;
    LoadRepeats(text, p);
    ScanStep(text, t, hash, ip, 31 + ip);
    var h := hash(LoadAt(text, ip), |t|);
    if ip < p {
      assert Look(t, h) < ip;
      WordApart(text, hash, |t|, p, Look(t, h), ip);
      PeriodFound(text, Put(t, h, ip), hash, p, ip + 1);
    }
  }

  lemma WordApart(text: seq<byte>, hash: Hash, size: nat, p: nat, i: nat, j: nat)
    requires WordsDiffer(text, p) && FirstApart(text, hash, size, p) && i < j < p
    ensures LoadAt(text, i) != LoadAt(text, j) && hash(LoadAt(text, j), size) != hash(LoadAt(text, 0), size)
  {
  }

  /** It is then all one match. */
  lemma PeriodCopies(text: seq<byte>, t: Table, hash: Hash, p: nat)
    requires 1 <= p <= 32 && p + INPUT_MARGIN_BYTES < |text| && Repeats(text, p)
    ensures Copies(text, t, hash, 0, p) == Run(CopyCodes(p, |text| - p), |text|, t, true)
  {
    hide MatchLength, CopyCodes, Copies, CopiesBehind;
    var n := |text| - p - 4;
    assert text[4..4 + n] == text[p + 4..p + 4 + n];
    MatchUnique(text, 4, p + 4, n);
    CopiesStep(text, t, hash, 0, p, n + 4);
    BehindEnd(text, t, hash);
    assert CopyCodes(p, n + 4) + [] == CopyCodes(p, n + 4);
  }

  /** A text that repeats its first p bytes is sent as these bytes and one match. */
  lemma PeriodCode(text: seq<byte>, hash: Hash, size: nat, p: nat)
    requires 1 <= p <= 32 && p + INPUT_MARGIN_BYTES < |text| && Repeats(text, p)
    requires WordsDiffer(text, p) && FirstApart(text, hash, size, p)
    ensures BlockCode(text, hash, size) == LiteralCode(text, 0, p) + CopyCodes(p, |text| - p)
  {
    hide ScanFrom, Copies, LiteralCode, CopyCodes;
    var t: Table := seq(size, _ => 0);
    PeriodFound(text, t, hash, p, 1);
    var s := ScanFrom(text, t, hash, 1, 32);
    PeriodCopies(text, s.table, hash, p);
    assert LiteralCode(text, |text|, |text|) == [] by { EmptyLiteral(text); }
    var code := LiteralCode(text, 0, p) + CopyCodes(p, |text| - p);
    assert code + [] == code;
  }

  lemma EmptyLiteral(text: seq<byte>)
    ensures LiteralCode(text, |text|, |text|) == []
  {
  }

  /** Equal bytes: a literal of one, and copies of the byte before. */
  lemma EqualBytes(text: seq<byte>, hash: Hash, size: nat)
    requires |text| >= 17 && forall i :: 0 <= i < |text| ==> text[i] == text[0]
    ensures BlockCode(text, hash, size) == [0, text[0]] + CopyCodes(1, |text| - 1)
  {
    hide BlockCode, CopyCodes, LoadAt;
    assert Repeats(text, 1);
    assert WordsDiffer(text, 1) && FirstApart(text, hash, size, 1);
    PeriodCode(text, hash, size, 1);
    assert LiteralCode(text, 0, 1) == [0] + text[0..1];
  }

  lemma {:induction false} CopyCodesLength(offset: nat, len: nat)
    requires 4 <= len && offset < 0x1_0000
    ensures 64 * |CopyCodes(offset, len)| <= 3 * (len + 64)
    decreases len
  {
    if len >= 68 { CopyCodesLength(offset, len - 64); }
  }

  ghost predicate Equal(text: seq<byte>) {
    forall i :: 0 <= i < |text| ==> text[i] == text[0]
  }

  lemma EqualBlock(text: seq<byte>, hash: Hash, size: nat)
    requires Equal(text) && 0 < |text| <= BLOCK_SIZE
    ensures 20 * |BlockCode(text, hash, size)| <= if |text| == BLOCK_SIZE then |text| else |text| + 340
  {
    hide BlockCode, CopyCodes, ScanFrom;
    if |text| >= 17 {
      EqualBytes(text, hash, size);
      CopyCodesLength(1, |text| - 1);
    } else {
      ShortBlock(text, hash, size);
    }
  }

  /** Up to sixteen bytes are not searched. */
  lemma ShortBlock(text: seq<byte>, hash: Hash, size: nat)
    requires 0 < |text| <= 16
    ensures BlockCode(text, hash, size) == [4 * (|text| - 1)] + text
  {
    assert text[0..|text|] == text;
    var t: Table := seq(size, _ => 0);
    if |text| >= INPUT_MARGIN_BYTES { assert !ScanFrom(text, t, hash, 1, 32).found; }
  }

  lemma {:induction false} EqualBlocks(text: seq<byte>, hash: Hash)
    requires Equal(text)
    ensures 20 * |BlocksCode(text, hash)| <= |text| + 340
    decreases |text|
  {
    hide BlockCode;
    if text != [] {
      var n := Min(|text|, BLOCK_SIZE);
      EqualBlock(text[..n], hash, TableSizeFor(n));
      if n < |text| {
        assert forall i :: 0 <= i < |text[n..]| ==> text[n..][i] == text[n + i] == text[0];
        EqualBlocks(text[n..], hash);
      } else {
        assert text[n..] == [] && BlocksCode([], hash) == [];
      }
    }
  }

  /** Equal bytes shrink to a twentieth, and at most 22 bytes more. */
  lemma EqualShrinks(text: seq<byte>, hash: Hash)
    requires Equal(text) && |text| < 0x1_0000_0000
    ensures 20 * |Compressed(text, hash)| <= |text| + 440
  {
    hide BlocksCode;
    EqualBlocks(text, hash);
    LengthRoundTrip(|text|, 0, []);
  }

  // ------------------------------------------------------------------
  // A match right behind a match
  // ------------------------------------------------------------------

  /** No two of the first p places share an entry of the table. */
  ghost predicate Apart(text: seq<byte>, hash: Hash, size: nat, p: nat) {
    (forall i :: 0 <= i < p ==> HashAt(text, hash, size, i) < size) &&
    forall i, j :: 0 <= i < j < p ==> HashAt(text, hash, size, i) != HashAt(text, hash, size, j)
  }

  /** Each of the first p places is remembered, or with q for c. */
  ghost predicate Remembered(text: seq<byte>, t: Table, hash: Hash, p: nat, c: nat, q: nat) {
    Behind(t, if p == q then p + 1 else p) &&
    forall i :: 0 <= i < p ==> Look(t, HashAt(text, hash, |t|, i)) == if i == c then q else i
  }

  lemma {:induction false} ApartFound(text: seq<byte>, t: Table, hash: Hash, p: nat, ip: nat, c: nat)
    requires 1 <= ip <= p <= 32 && p + INPUT_MARGIN_BYTES < |text| && c < p
    requires Apart(text, hash, |t|, p) && LoadAt(text, p) == LoadAt(text, c)
    requires Remembered(text, t, hash, ip, 0, 0)
    ensures var s := ScanFrom(text, t, hash, ip, 31 + ip);
      s == Scan(true, p, c, s.table) && |s.table| == |t| && Remembered(text, s.table, hash, p, c, p)
    decreases p - ip
  {
    hide ScanFrom, LoadAt;
    ScanStep(text, t, hash, ip, 31 + ip);
    var h := HashAt(text, hash, |t|, ip);
    if ip < p {
      assert Look(t, h) < ip;
      assert HashAt(text, hash, |t|, Look(t, h)) != h;
      ApartFound(text, Put(t, h, ip), hash, p, ip + 1, c);
    } else {
      assert h == HashAt(text, hash, |t|, c) && Look(t, h) == c;
    }
  }

  /** A text of two parts a and b, of b again, and of a again. */
  ghost predicate Crossed(text: seq<byte>, a: nat, b: nat) {
    a > 0 && b > 0 && |text| == 2 * (a + b) && text[0] != text[a] &&
    text[a..a + b] == text[a + b..a + 2 * b] && text[..a] == text[a + 2 * b..]
  }

  /** Two equal runs, and what the compressor sees of them. */
  lemma SameRuns(text: seq<byte>, i: nat, j: nat, n: nat)
    requires i < j && j + n <= |text| && n >= 4 && text[i..i + n] == text[j..j + n]
    requires j + n < |text| ==> text[i + n] != text[j + n]
    ensures LoadAt(text, j) == LoadAt(text, i) && MatchLength(text, i + 4, j + 4) == n - 4
  {
    hide MatchLength;
    assert text[i..i + 4] == text[i..i + n][..4] == text[j..j + 4];
    Load32Injective(text, i, j);
    assert text[i + 4..i + n] == text[i..i + n][4..] == text[j + 4..j + n];
    MatchUnique(text, i + 4, j + 4, n - 4);
  }

  lemma CrossedWords(text: seq<byte>, a: nat, b: nat)
    requires a >= 16 && b >= 4 && Crossed(text, a, b)
    ensures LoadAt(text, a + b) == LoadAt(text, a) && LoadAt(text, a + 2 * b) == LoadAt(text, 0)
    ensures MatchLength(text, a + 4, a + b + 4) == b - 4 && MatchLength(text, 4, a + 2 * b + 4) == a - 4
  {
    hide MatchLength, LoadAt;
    var p, q := a + b, a + 2 * b;
    assert text[q] == text[q..][0] == text[..a][0];
    assert text[p] == text[p..q][0] == text[a..p][0];
    SameRuns(text, a, p, b);
    assert text[0..a] == text[..a] && text[q..q + a] == text[q..];
    SameRuns(text, 0, q, a);
  }

  lemma CopiesStep(text: seq<byte>, t: Table, hash: Hash, c: nat, ip: nat, n: nat)
    requires c < ip < c + 0x1_0000 && 4 <= n && ip + n <= |text| && MatchLength(text, c + 4, ip + 4) == n - 4
    ensures Copies(text, t, hash, c, ip) == After(CopyCodes(ip - c, n), CopiesBehind(text, t, hash, ip + n))
  {
    hide MatchLength, CopyCodes, CopiesBehind;
  }

  lemma BehindStep(text: seq<byte>, t: Table, hash: Hash, ip: nat, c: nat)
    requires 0 < ip && ip + INPUT_MARGIN_BYTES < |text| && Recall(text, t, hash, ip) == c
    requires LoadAt(text, ip) == LoadAt(text, c)
    ensures CopiesBehind(text, t, hash, ip) == Copies(text, Remember(text, t, hash, ip), hash, c, ip)
  {
    hide Copies, Recall, Remember, LoadAt;
  }

  /** The second match is taken up where the first one ends. */
  lemma CopiesInARow(text: seq<byte>, t: Table, hash: Hash, c: nat, ip: nat, m: nat, n: nat)
    requires c < ip < c + 0x1_0000 && ip + m < 0x1_0000 && 4 <= m && INPUT_MARGIN_BYTES < n && ip + m + n == |text|
    requires MatchLength(text, c + 4, ip + 4) == m - 4 && MatchLength(text, 4, ip + m + 4) == n - 4
    requires LoadAt(text, ip + m) == LoadAt(text, 0) && Recall(text, t, hash, ip + m) == 0
    ensures var r := Copies(text, t, hash, c, ip);
      r.code == CopyCodes(ip - c, m) + CopyCodes(ip + m, n) && r.done && r.ip == |text|
  {
    hide MatchLength, LoadAt, CopyCodes, Copies, CopiesBehind, Recall, Remember;
    var q := ip + m;
    var u := Remember(text, t, hash, q);
    CopiesStep(text, t, hash, c, ip, m);
    BehindStep(text, t, hash, q, 0);
    CopiesStep(text, u, hash, 0, q, n);
    BehindEnd(text, u, hash);
    assert CopyCodes(q, n) + [] == CopyCodes(q, n);
  }

  lemma BehindEnd(text: seq<byte>, t: Table, hash: Hash)
    requires text != []
    ensures CopiesBehind(text, t, hash, |text|) == Run([], |text|, t, true)
  {
  }

  lemma RecallFirst(text: seq<byte>, t: Table, hash: Hash, q: nat)
    requires q > 0 && LoadAt(text, q) == LoadAt(text, 0) && Look(t, HashAt(text, hash, |t|, 0)) == 0
    requires HashAt(text, hash, |t|, q - 1) != HashAt(text, hash, |t|, 0)
    ensures Recall(text, t, hash, q) == 0
  {
  }

  /** Both repetitions are sent as matches, with nothing between them. */
  lemma CrossedCode(text: seq<byte>, hash: Hash, size: nat, a: nat, b: nat)
    requires a >= 16 && b >= 4 && a + b <= 32 && Crossed(text, a, b) && Apart(text, hash, size, a + b)
    requires HashAt(text, hash, size, a + 2 * b - 1) != HashAt(text, hash, size, 0)
    ensures BlockCode(text, hash, size) == LiteralCode(text, 0, a + b) + CopyCodes(b, b) + CopyCodes(a + 2 * b, a)
  {
    hide ScanFrom, Copies, LiteralCode, CopyCodes, Apart, Crossed, MatchLength, Remembered, LoadAt, HashAt, Recall;
    var t: Table := seq(size, _ => 0);
    CrossedWords(text, a, b);
    CrossedSize(text, a, b);
    FreshRemembers(text, t, hash);
    ApartFound(text, t, hash, a + b, 1, a);
    var s := ScanFrom(text, t, hash, 1, 32);
    FirstKept(text, s.table, hash, a + b, a);
    RecallFirst(text, s.table, hash, a + 2 * b);
    CopiesInARow(text, s.table, hash, a, a + b, b, a);
    EmptyLiteral(text);
    var lit, one, two := LiteralCode(text, 0, a + b), CopyCodes(b, b), CopyCodes(a + 2 * b, a);
    assert lit + (one + two) + [] == lit + one + two;
  }

  lemma FirstKept(text: seq<byte>, t: Table, hash: Hash, p: nat, c: nat)
    requires 0 < c < p && Remembered(text, t, hash, p, c, p)
    ensures Look(t, HashAt(text, hash, |t|, 0)) == 0
  {
  }

  lemma CrossedSize(text: seq<byte>, a: nat, b: nat)
    requires a >= 16 && Crossed(text, a, b)
    ensures |text| == 2 * (a + b)
  {
  }

  lemma FreshRemembers(text: seq<byte>, t: Table, hash: Hash)
    requires forall h :: 0 <= h < |t| ==> t[h] == 0
    ensures Remembered(text, t, hash, 1, 0, 0)
  {
  }

  // ------------------------------------------------------------------
  // Where the search looks
  // ------------------------------------------------------------------

  /** The search looks at 32 places in a row, at every second one 32 times, at every third, and so on. */
  function Probe(ip: nat, k: nat): (at: nat)
    ensures at >= ip + k
  {
    var q := k / 32;
    ip + (q + 1) * (16 * q + k % 32)
  }

  lemma ProbeNext(ip: nat, k: nat)
    ensures Probe(ip, 0) == ip && Probe(ip, k + 1) == Probe(ip, k) + (32 + k) / 32
  {
    var q, r := k / 32, k % 32;
    if r < 31 {
      assert (k + 1) / 32 == q && (k + 1) % 32 == r + 1;
    } else {
      assert (k + 1) / 32 == q + 1 && (k + 1) % 32 == 0;
    }
  }

  function HashAt(text: seq<byte>, hash: Hash, size: nat, i: nat): (h: nat) {
    hash(LoadAt(text, i), size)
  }

  /** Before place k, the last place looked at whose bytes have the hash h, or what the table says. */
  function Latest(text: seq<byte>, t: Table, hash: Hash, ip: nat, k: nat, h: nat): (p: nat) {
    if k == 0 then Look(t, h)
    else if h < |t| && HashAt(text, hash, |t|, Probe(ip, k - 1)) == h then Probe(ip, k - 1)
    else Latest(text, t, hash, ip, k - 1, h)
  }

  function Candidate(text: seq<byte>, t: Table, hash: Hash, ip: nat, k: nat): (p: nat) {
    Latest(text, t, hash, ip, k, HashAt(text, hash, |t|, Probe(ip, k)))
  }

  /** The bytes at place k are those at its candidate. */
  predicate Hit(text: seq<byte>, t: Table, hash: Hash, ip: nat, k: nat) {
    LoadAt(text, Probe(ip, k)) == LoadAt(text, Candidate(text, t, hash, ip, k))
  }

  /** No further than this, after place k. */
  predicate Within(text: seq<byte>, ip: nat, k: nat) {
    Probe(ip, k + 1) + INPUT_MARGIN_BYTES <= |text|
  }

  /** The table after k places. */
  ghost predicate Knows(text: seq<byte>, t: Table, hash: Hash, ip: nat, k: nat, tk: Table) {
    |tk| == |t| && forall h: nat :: Look(tk, h) == Latest(text, t, hash, ip, k, h)
  }

  lemma KnowsMore(text: seq<byte>, t: Table, hash: Hash, ip: nat, k: nat, tk: Table)
    requires Knows(text, t, hash, ip, k, tk) && Probe(ip, k) < 0x1_0000
    ensures Knows(text, t, hash, ip, k + 1, Put(tk, HashAt(text, hash, |t|, Probe(ip, k)), Probe(ip, k)))
  {
    hide HashAt, Probe, LoadAt;
    var at := Probe(ip, k);
    var h0 := HashAt(text, hash, |t|, at);
    var more := Put(tk, h0, at);
    forall h: nat
      ensures Look(more, h) == Latest(text, t, hash, ip, k + 1, h)
    {
      assert Look(tk, h) == Latest(text, t, hash, ip, k, h);
      assert Latest(text, t, hash, ip, k + 1, h) == if h < |t| && h0 == h then at else Look(tk, h);
    }
  }

  /** The search ends at the first place that is a hit, unless it comes too near to the end before. */
  lemma {:induction false} SearchFrom(text: seq<byte>, t: Table, hash: Hash, ip: nat, k: nat, tk: Table)
    returns (n: nat)
    requires |text| <= BLOCK_SIZE && Knows(text, t, hash, ip, k, tk)
    ensures var s := ScanFrom(text, tk, hash, Probe(ip, k), 32 + k);
      n >= k && (forall j :: k <= j < n ==> Within(text, ip, j) && !Hit(text, t, hash, ip, j)) &&
      if s.found then Within(text, ip, n) && Hit(text, t, hash, ip, n) &&
        s.ip == Probe(ip, n) && s.candidate == Candidate(text, t, hash, ip, n)
      else !Within(text, ip, n)
    decreases |text| - Probe(ip, k)
  {
    hide ScanFrom, Probe, LoadAt, Knows, Latest, Put;
    ProbeNext(ip, k);
    ScanStep(text, tk, hash, Probe(ip, k), 32 + k);
    n := k;
    if Within(text, ip, k) {
      KnowsAt(text, t, hash, ip, k, tk);
      KnowsMore(text, t, hash, ip, k, tk);
      if !Hit(text, t, hash, ip, k) {
        n := SearchFrom(text, t, hash, ip, k + 1, Put(tk, HashAt(text, hash, |t|, Probe(ip, k)), Probe(ip, k)));
      }
    }
  }

  lemma KnowsAt(text: seq<byte>, t: Table, hash: Hash, ip: nat, k: nat, tk: Table)
    requires Knows(text, t, hash, ip, k, tk)
    ensures |tk| == |t| && Look(tk, HashAt(text, hash, |t|, Probe(ip, k))) == Candidate(text, t, hash, ip, k)
  {
  }

  lemma Search(text: seq<byte>, t: Table, hash: Hash, ip: nat) returns (n: nat)
    requires |text| <= BLOCK_SIZE
    ensures var s := ScanFrom(text, t, hash, ip, 32);
      (forall j :: 0 <= j < n ==> Within(text, ip, j) && !Hit(text, t, hash, ip, j)) &&
      if s.found then Within(text, ip, n) && Hit(text, t, hash, ip, n) &&
        s.ip == Probe(ip, n) && s.candidate == Candidate(text, t, hash, ip, n)
      else !Within(text, ip, n)
  {
    hide ScanFrom, Latest;
    ProbeNext(ip, 0);
    assert Knows(text, t, hash, ip, 0, t) by { NoneKnown(text, t, hash, ip); }
    n := SearchFrom(text, t, hash, ip, 0, t);
  }

  lemma NoneKnown(text: seq<byte>, t: Table, hash: Hash, ip: nat)
    ensures Knows(text, t, hash, ip, 0, t)
  {
  }

  // ------------------------------------------------------------------
  // Texts in which nothing repeats
  // ------------------------------------------------------------------

  lemma {:induction false} NothingFound(text: seq<byte>, t: Table, hash: Hash, ip: nat, skip: nat)
    requires |text| >= 4 && WordsDiffer(text, |text| - 3) && Behind(t, ip) && ip > 0
    ensures !ScanFrom(text, t, hash, ip, skip).found
    decreases |text| - ip
  {
    var next := ip + skip / 32;
    if skip >= 32 && next + INPUT_MARGIN_BYTES <= |text| {
      var h := hash(LoadAt(text, ip), |t|);
      assert Look(t, h) < ip;
      NothingFound(text, Put(t, h, ip), hash, next, skip + 1);
    }
  }

  /** A block without two equal runs of four bytes is one literal. */
  lemma DistinctWords(text: seq<byte>, hash: Hash, size: nat)
    requires |text| >= 4 ==> WordsDiffer(text, |text| - 3)
    ensures BlockCode(text, hash, size) == LiteralCode(text, 0, |text|)
  {
    if |text| >= INPUT_MARGIN_BYTES { NothingFound(text, seq(size, _ => 0), hash, 1, 32); }
  }
}
