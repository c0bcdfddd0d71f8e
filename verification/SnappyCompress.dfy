/** The compressor: greedy matching through a lossy hash table of 16-bit positions. */
module SnappyCompress {
  import opened Bytes
  import opened SnappyFormat
  import opened SnappyEmit
  import opened SnappyScript

  // ------------------------------------------------------------------
  // Finding matches
  // ------------------------------------------------------------------

  /** Index of the first byte at which two words differ. */
  method FirstDifference(x: seq<byte>, y: seq<byte>) returns (k: nat)
    requires |x| == |y| && x != y
    ensures k < |x| && x[..k] == y[..k] && x[k] != y[k]
  {
    assert x[..|x|] == x && y[..|y|] == y;
    k := 0;
    while k < |x| && x[k] == y[k]
      invariant k <= |x| && x[..k] == y[..k]
    {
      k := k + 1;
    }
  }

  /** Whole words while they agree, then the differing byte of the first that does not. */
  method MatchWords(text: seq<byte>, s1: nat, s2: nat, limit: nat) returns (matched: nat, done: bool)
    requires s1 < s2 <= limit <= |text|
    ensures s2 + matched <= limit && text[s1..s1 + matched] == text[s2..s2 + matched]
    ensures done ==> s2 + matched < limit && text[s1 + matched] != text[s2 + matched]
    ensures !done ==> limit < s2 + matched + 8
  {
    matched, done := 0, false;
    while s2 + matched + 8 <= limit
      invariant s2 + matched <= limit && text[s1..s1 + matched] == text[s2..s2 + matched]
    {
      var a, b := text[s2 + matched..s2 + matched + 8], text[s1 + matched..s1 + matched + 8];
      if a == b {
        ExtendMatch(text, s1, s2, matched, 8);
        matched := matched + 8;
      } else {
        var k := FirstDifference(a, b);
        WordPrefix(text, s1, s2, matched, k);
        ExtendMatch(text, s1, s2, matched, k);
        return matched + k, true;
      }
    }
  }

  /** The length of the longest match of the text at `s2` with the text at `s1`. */
  method FindMatchLength(text: seq<byte>, s1: nat, s2: nat, limit: nat) returns (matched: nat)
    requires s1 < s2 <= limit <= |text|
    ensures s2 + matched <= limit
    ensures text[s1..s1 + matched] == text[s2..s2 + matched]
    ensures s2 + matched < limit ==> text[s1 + matched] != text[s2 + matched]
  {
    var done;
    matched, done := MatchWords(text, s1, s2, limit);
    if done {
      return;
    }
    while s2 + matched < limit
      invariant s2 + matched <= limit && text[s1..s1 + matched] == text[s2..s2 + matched]
    {
      if text[s1 + matched] != text[s2 + matched] {
        return;
      }
      ExtendMatch(text, s1, s2, matched, 1);
      matched := matched + 1;
    }
  }

  lemma ExtendMatch(text: seq<byte>, s1: nat, s2: nat, m: nat, n: nat)
    requires s1 + m + n <= |text| && s2 + m + n <= |text|
    requires text[s1..s1 + m] == text[s2..s2 + m]
    requires text[s1 + m..s1 + m + n] == text[s2 + m..s2 + m + n]
    ensures text[s1..s1 + (m + n)] == text[s2..s2 + (m + n)]
  {
    SplitRange(text, s1, s1 + m, s1 + m + n);
    SplitRange(text, s2, s2 + m, s2 + m + n);
  }

  lemma WordPrefix(text: seq<byte>, s1: nat, s2: nat, m: nat, k: nat)
    requires k < 8 && s1 + m + 8 <= |text| && s2 + m + 8 <= |text|
    requires text[s2 + m..s2 + m + 8][..k] == text[s1 + m..s1 + m + 8][..k]
    ensures text[s1 + m..s1 + m + k] == text[s2 + m..s2 + m + k]
  {
    assert text[s2 + m..s2 + m + 8][..k] == text[s2 + m..s2 + m + k];
    assert text[s1 + m..s1 + m + 8][..k] == text[s1 + m..s1 + m + k];
  }

  /** The sizes that the hash table can have. */
  predicate TableSize(n: nat) {
    n == 0x100 || n == 0x200 || n == 0x400 || n == 0x800 || n == 0x1000 || n == 0x2000 || n == 0x4000
  }

  /** The multiplicative hash of the C code, keeping as many high-order bits of
      the 32-bit product as index a table of `size` entries. Any other function
      into that range would do: nothing below depends on this one. */
  function HashBytes(bytes: u32, size: nat): (h: nat)
    requires TableSize(size)
    ensures h < size
  {
    var product: nat := bytes * 0x1e35a7bd % 0x1_0000_0000;
    if size == 0x100 then product / 0x100_0000
    else if size == 0x200 then product / 0x80_0000
    else if size == 0x400 then product / 0x40_0000
    else if size == 0x800 then product / 0x20_0000
    else if size == 0x1000 then product / 0x10_0000
    else if size == 0x2000 then product / 0x8_0000
    else product / 0x4_0000
  }

  // ------------------------------------------------------------------
  // One block
  // ------------------------------------------------------------------

  /** Every remembered position lies before `ip`. */
  ghost predicate Before(table: array<u16>, size: nat, ip: nat)
    reads table
  {
    size <= table.Length && forall k :: 0 <= k < size ==> table[k] < ip
  }

  ghost predicate HashFits(hash: Hash, size: nat) {
    forall x: u32 :: hash(x, size) < size
  }

  ghost predicate MatchAt(text: seq<byte>, candidate: nat, ip: nat) {
    candidate < ip && ip + 4 <= |text| && text[candidate..candidate + 4] == text[ip..ip + 4]
  }

  /** What has been emitted expands to the text up to `upto`, after whatever
      the blocks before this one have produced. */
  ghost predicate Emitted(code: seq<byte>, pre: seq<byte>, text: seq<byte>, upto: nat) {
    upto <= |text| && Expand(code, pre) == Some(pre + text[..upto])
  }

  lemma LiteralAppended(code: seq<byte>, pre: seq<byte>, out: seq<byte>, bytes: seq<byte>)
    requires Expand(code, pre) == Some(out) && 1 <= |bytes| <= 0xffff_ffff
    ensures Expand(code + (LiteralHeader(|bytes|) + bytes), pre) == Some(out + bytes)
  {
    LiteralExpands(bytes, out);
    ExpandConcat(code, LiteralHeader(|bytes|) + bytes, pre);
  }

  lemma EmitLiteralStep(code: seq<byte>, pre: seq<byte>, text: seq<byte>, from: nat, len: nat)
    requires Emitted(code, pre, text, from) && 1 <= len <= 0xffff_ffff && from + len <= |text|
    ensures Emitted(code + (LiteralHeader(len) + text[from..from + len]), pre, text, from + len)
  {
    LiteralAppended(code, pre, pre + text[..from], text[from..from + len]);
    assert pre + text[..from] + text[from..from + len] == pre + text[..from + len];
  }

  lemma EmitCopyStep(code: seq<byte>, pre: seq<byte>, text: seq<byte>, from: nat, at: nat, len: nat)
    requires Emitted(code, pre, text, at) && 4 <= len && from < at && at + len <= |text| && at - from < 65536
    requires text[from..from + len] == text[at..at + len]
    ensures Emitted(code + CopyCodes(at - from, len), pre, text, at + len)
  {
    CopyCodesExpand(at - from, len, pre + text[..at]);
    ExpandConcat(code, CopyCodes(at - from, len), pre);
    CopyOfMatch(text, pre, from, at, len);
  }

  /** Room that a block of `n` bytes needs, overshooting stores included. */
  function Room(n: nat): (m: nat) {
    n + n / 6 + 24
  }

  /** The table that the block uses, as a sequence. */
  ghost function Entries(table: array<u16>, size: nat): (t: Table)
    reads table
    requires size <= table.Length
    ensures |t| == size
  {
    table[..size]
  }

  /** An entry read, and one written. */
  method Exchange(table: array<u16>, size: nat, h: nat, p: nat) returns (candidate: nat)
    requires h < size <= table.Length && p < 0x1_0000
    modifies table
    ensures candidate == Look(old(Entries(table, size)), h)
    ensures Entries(table, size) == Put(old(Entries(table, size)), h, p)
  {
    candidate := table[h];
    table[h] := p;
  }

  lemma ScanStep(text: seq<byte>, t: Table, hash: Hash, ip: nat, skip: nat)
    requires skip >= 32
    ensures var (next, h) := (ip + skip / 32, hash(LoadAt(text, ip), |t|));
      ScanFrom(text, t, hash, ip, skip) ==
        if next + INPUT_MARGIN_BYTES > |text| then Scan(false, ip, 0, t)
        else if LoadAt(text, ip) == LoadAt(text, Look(t, h)) then Scan(true, ip, Look(t, h), Put(t, h, ip))
        else ScanFrom(text, Put(t, h, ip), hash, next, skip + 1)
  {
  }

  /** Skips forward, faster and faster, to a position whose four bytes were seen
      at a remembered position; gives up close to the end of the block. */
  method ScanForMatch(text: seq<byte>, table: array<u16>, size: nat, hash: Hash, start: nat, startHash: nat)
      returns (found: bool, ip: nat, candidate: nat)
    requires INPUT_MARGIN_BYTES <= |text| <= BLOCK_SIZE && start + 4 <= |text|
    requires HashFits(hash, size) && 0 < start && Before(table, size, start)
    requires startHash == hash(Load32(text, start), size)
    modifies table
    ensures found ==> start <= ip && ip + INPUT_MARGIN_BYTES < |text|
    ensures found ==> MatchAt(text, candidate, ip) && Before(table, size, ip + 1)
    ensures size <= table.Length &&
      ScanFrom(text, old(Entries(table, size)), hash, start, 32) == Scan(found, ip, candidate, Entries(table, size))
  {
    hide ScanFrom;
    var ipLimit := |text| - INPUT_MARGIN_BYTES;
    var nextHash := startHash;
    var skipBytes := 32;
    var nextIp := start;
    ghost var whole := ScanFrom(text, Entries(table, size), hash, start, 32);
    while true
      invariant start <= nextIp && nextIp + 4 <= |text| && skipBytes >= 32
      invariant nextHash == hash(Load32(text, nextIp), size) && Before(table, size, nextIp)
      invariant whole == ScanFrom(text, Entries(table, size), hash, nextIp, skipBytes)
      decreases |text| - nextIp
    {
      ip := nextIp;
      ScanStep(text, Entries(table, size), hash, ip, skipBytes);
      var hval := nextHash;
      var bytesBetweenHashLookups := skipBytes / 32;
      skipBytes := skipBytes + 1;
      nextIp := ip + bytesBetweenHashLookups;
      if nextIp > ipLimit {
        return false, ip, 0;
      }
      nextHash := hash(Load32(text, nextIp), size);
      candidate := Exchange(table, size, hval, ip);
      if Load32(text, ip) == Load32(text, candidate) {
        Load32Injective(text, ip, candidate);
        return true, ip, candidate;
      }
    }
  }

  /** The bytes [from, ip) as a literal. */
  method LiteralStep(out: array<byte>, op: nat, text: seq<byte>, from: nat, len: nat, fast: bool,
      ghost op0: nat, ghost pre: seq<byte>) returns (r: nat)
    requires op0 <= op && 1 <= len && from + len <= |text| <= BLOCK_SIZE
    requires op + 3 + len <= out.Length && (fast ==> from + 16 <= |text| && op + 17 <= out.Length)
    requires Emitted(out[op0..op], pre, text, from)
    modifies out
    ensures op + len < r <= out.Length && Emitted(out[op0..r], pre, text, from + len)
    ensures out[op0..r] == old(out[op0..op]) + LiteralCode(text, from, from + len)
    ensures r <= op + len + (if len <= 60 then 1 else if len <= 256 then 2 else 3)
    ensures forall k :: 0 <= k < op0 ==> out[k] == old(out[k])
  {
    if len > 60 {
      ByteCountBounds(len - 1);
    }
    ghost var code := out[op0..op];
    EmitLiteralStep(code, pre, text, from, len);
    r := EmitLiteral(out, op, text, from, len, fast);
    assert out[op0..op] == code;
    SplitRange(out[..], op0, op, r);
  }

  /** The longest match at `ip` as copies. */
  method CopyStep(out: array<byte>, op: nat, text: seq<byte>, candidate: nat, ip: nat,
      ghost op0: nat, ghost pre: seq<byte>) returns (r: nat, matched: nat)
    requires op0 <= op && |text| <= BLOCK_SIZE && MatchAt(text, candidate, ip)
    requires op + (|text| - ip) <= out.Length
    requires Emitted(out[op0..op], pre, text, ip)
    modifies out
    ensures 4 <= matched && ip + matched <= |text| && op <= r < op + matched
    ensures Emitted(out[op0..r], pre, text, ip + matched) && matched == 4 + MatchLength(text, candidate + 4, ip + 4)
    ensures out[op0..r] == old(out[op0..op]) + CopyCodes(ip - candidate, matched)
    ensures forall k :: 0 <= k < op0 ==> out[k] == old(out[k])
  {
    hide Emitted, CopyCodes, MatchLength;
    var more := FindMatchLength(text, candidate + 4, ip + 4, |text|);
    MatchUnique(text, candidate + 4, ip + 4, more);
    matched := 4 + more;
    ExtendMatch(text, candidate, ip, 4, more);
    ghost var code := out[op0..op];
    EmitCopyStep(code, pre, text, candidate, ip, matched);
    r := EmitCopy(out, op, ip - candidate, matched);
    assert out[op0..op] == code;
    SplitRange(out[..], op0, op, r);
  }

  /** An eight-byte word, and a 32-bit word cut out of it by shifting. */
  function EightBytesAt(text: seq<byte>, i: nat): (v: nat)
    requires i + 8 <= |text|
  {
    FromLE(text[i..i + 8])
  }

  function GetU32AtOffset(v: nat, offset: nat): (w: nat)
    requires offset <= 4
  {
    v / Pow256(offset) % Pow256(4)
  }

  lemma SliceOfSlice(s: seq<byte>, i: nat, n: nat, j: nat, m: nat)
    requires i + n <= |s| && j + m <= n
    ensures s[i..i + n][j..][..m] == s[i + j..i + j + m]
  {
  }

  /** Shifting the long word is loading the short one from further on. */
  lemma ShiftedLoad(text: seq<byte>, i: nat, offset: nat)
    requires i + 8 <= |text| && offset <= 4
    ensures GetU32AtOffset(EightBytesAt(text, i), offset) == Load32(text, i + offset)
  {
    var word := text[i..i + 8];
    LEAbove(word, offset);
    LEBelow(word[offset..], 4);
    SliceOfSlice(text, i, 8, offset, 4);
    Load32IsLE(text, i + offset);
  }

  /** Copy after copy, for as long as the next four bytes have been seen too. */
  method CopyRun(out: array<byte>, op1: nat, text: seq<byte>, table: array<u16>, size: nat, hash: Hash,
      candidate1: nat, ip1: nat, ghost op0: nat, ghost pre: seq<byte>)
      returns (op: nat, ip: nat, nextHash: nat, done: bool)
    requires op0 <= op1 && INPUT_MARGIN_BYTES <= |text| <= BLOCK_SIZE && MatchAt(text, candidate1, ip1)
    requires HashFits(hash, size) && Before(table, size, ip1 + 1)
    requires op0 + Room(|text|) <= out.Length && 60 * (op1 - op0 - ip1 - 1) <= ip1
    requires Emitted(out[op0..op1], pre, text, ip1)
    modifies out, table
    ensures ip1 < ip <= |text| && op0 <= op <= out.Length && Emitted(out[op0..op], pre, text, ip)
    ensures 60 * (op - op0 - ip) <= ip
    ensures forall k :: 0 <= k < op0 ==> out[k] == old(out[k])
    ensures !done ==> ip + INPUT_MARGIN_BYTES < |text| && Before(table, size, ip + 1)
    ensures !done ==> nextHash == hash(Load32(text, ip + 1), size)
    ensures size <= table.Length && var r := Copies(text, old(Entries(table, size)), hash, candidate1, ip1);
      out[op0..op] == old(out[op0..op1]) + r.code && r == Run(r.code, ip, Entries(table, size), done)
  {
    hide Copies, Entries, Emitted, Expand, After, Left, HashFits;
    assert ip1 < |text| && op1 <= out.Length && size <= table.Length;
    hide MatchAt, Before;
    LeftAtStart(text, Entries(table, size), hash, candidate1, ip1);
    var candidate := candidate1;
    op, ip, nextHash, done := op1, ip1, 0, false;
    var again := true;
    ghost var start, sofar, whole := out[op0..op1], [], Copies(text, Entries(table, size), hash, candidate1, ip1);
    while again
      invariant op0 <= op <= out.Length && ip1 <= ip && 0 < ip <= |text| && Emitted(out[op0..op], pre, text, ip)
      invariant forall k :: 0 <= k < op0 ==> out[k] == old(out[k])
      invariant again ==> !done && MatchAt(text, candidate, ip) && Before(table, size, ip + 1)
      invariant 60 * (op - op0 - ip - if again then 1 else 0) <= ip
      invariant !again ==> ip1 < ip && (!done ==> ip + INPUT_MARGIN_BYTES < |text| && Before(table, size, ip + 1))
      invariant !again && !done ==> nextHash == hash(Load32(text, ip + 1), size)
      invariant size <= table.Length && out[op0..op] == start + sofar
      invariant whole == After(sofar, Left(text, Entries(table, size), hash, candidate, ip, again, done))
      decreases again, |text| - ip
    {
      op, ip, candidate, nextHash, again, done, sofar := CopyRound(out, op, text, table, size, hash, candidate, ip,
        op0, pre, start, sofar);
    }
    LeftAtEnd(text, Entries(table, size), hash, candidate, ip, done, sofar);
  }

  lemma LeftAtStart(text: seq<byte>, t: Table, hash: Hash, candidate: nat, ip: nat)
    ensures After([], Left(text, t, hash, candidate, ip, true, false)) == Copies(text, t, hash, candidate, ip)
  {
    hide Copies;
    assert [] + Copies(text, t, hash, candidate, ip).code == Copies(text, t, hash, candidate, ip).code;
  }

  lemma LeftAtEnd(text: seq<byte>, t: Table, hash: Hash, candidate: nat, ip: nat, done: bool, sofar: seq<byte>)
    ensures After(sofar, Left(text, t, hash, candidate, ip, false, done)) == Run(sofar, ip, t, done)
  {
    assert sofar + [] == sofar;
  }

  /** One copy, and what comes next. */
  method CopyRound(out: array<byte>, op1: nat, text: seq<byte>, table: array<u16>, size: nat, hash: Hash,
      candidate1: nat, ip1: nat, ghost op0: nat, ghost pre: seq<byte>, ghost start: seq<byte>, ghost sofar1: seq<byte>)
      returns (op: nat, ip: nat, candidate: nat, nextHash: nat, again: bool, done: bool, ghost sofar: seq<byte>)
    requires op0 <= op1 && INPUT_MARGIN_BYTES <= |text| <= BLOCK_SIZE && MatchAt(text, candidate1, ip1)
    requires HashFits(hash, size) && Before(table, size, ip1 + 1)
    requires op0 + Room(|text|) <= out.Length && 60 * (op1 - op0 - ip1 - 1) <= ip1
    requires Emitted(out[op0..op1], pre, text, ip1) && out[op0..op1] == start + sofar1
    modifies out, table
    ensures ip1 < ip <= |text| && op0 <= op <= out.Length && Emitted(out[op0..op], pre, text, ip)
    ensures 60 * (op - op0 - ip) <= ip && out[op0..op] == start + sofar
    ensures forall k :: 0 <= k < op0 ==> out[k] == old(out[k])
    ensures again ==> !done && MatchAt(text, candidate, ip) && Before(table, size, ip + 1)
    ensures !again && !done ==> ip + INPUT_MARGIN_BYTES < |text| && Before(table, size, ip + 1)
    ensures !again && !done ==> nextHash == hash(Load32(text, ip + 1), size)
    ensures size <= table.Length &&
      After(sofar1, Left(text, old(Entries(table, size)), hash, candidate1, ip1, true, false)) ==
      After(sofar, Left(text, Entries(table, size), hash, candidate, ip, again, done))
  {
    assert ip1 < |text| && candidate1 < ip1;
    hide Emitted, CopyCodes, Left, After, Remember, Recall;
    var matched;
    ghost var t := Entries(table, size);
    op, matched := CopyStep(out, op1, text, candidate1, ip1, op0, pre);
    ip := ip1 + matched;
    ghost var code := CopyCodes(ip1 - candidate1, matched);
    sofar := sofar1 + code;
    Assoc(start, sofar1, code);
    candidate, nextHash, again, done := 0, 0, false, ip >= |text| - INPUT_MARGIN_BYTES;
    if !done {
      candidate, nextHash, again := NextCandidate(text, table, size, hash, ip);
    }
    RoundLeaves(text, t, hash, candidate1, ip1, sofar1, matched, Entries(table, size), candidate, again, done);
  }

  /** What is left of a run of copies: all of it from the candidate on, or nothing. */
  ghost function Left(text: seq<byte>, t: Table, hash: Hash, candidate: nat, ip: nat, again: bool,
        done: bool): (r: Run) {
    if again then Copies(text, t, hash, candidate, ip) else Run([], ip, t, done)
  }

  lemma RoundLeaves(text: seq<byte>, t: Table, hash: Hash, candidate1: nat, ip1: nat, sofar: seq<byte>, n: nat,
                    t2: Table, candidate: nat, again: bool, done: bool)
    requires candidate1 < ip1 < candidate1 + 0x1_0000 && ip1 + 4 <= |text| &&
      n == 4 + MatchLength(text, candidate1 + 4, ip1 + 4)
    requires done == (ip1 + n + INPUT_MARGIN_BYTES >= |text|) && (done ==> t2 == t && !again)
    requires !done ==> candidate == Recall(text, t, hash, ip1 + n) && t2 == Remember(text, t, hash, ip1 + n)
    requires !done ==> again == (LoadAt(text, ip1 + n) == LoadAt(text, candidate))
    ensures After(sofar, Left(text, t, hash, candidate1, ip1, true, false)) ==
      After(sofar + CopyCodes(ip1 - candidate1, n), Left(text, t2, hash, candidate, ip1 + n, again, done))
  {
    hide Recall, Remember, CopyCodes;
    var behind := CopiesBehind(text, t, hash, ip1 + n);
    assert behind == Left(text, t2, hash, candidate, ip1 + n, again, done);
    assert Copies(text, t, hash, candidate1, ip1) == After(CopyCodes(ip1 - candidate1, n), behind);
    Assoc(sofar, CopyCodes(ip1 - candidate1, n), behind.code);
  }

  /** Remembers the two positions around `ip` and looks up the one at `ip`. */
  method NextCandidate(text: seq<byte>, table: array<u16>, size: nat, hash: Hash, ip: nat)
      returns (candidate: nat, nextHash: nat, again: bool)
    requires |text| <= BLOCK_SIZE && 0 < ip && ip + INPUT_MARGIN_BYTES < |text|
    requires HashFits(hash, size) && Before(table, size, ip)
    modifies table
    ensures Before(table, size, ip + 1) && nextHash == hash(Load32(text, ip + 1), size)
    ensures again ==> MatchAt(text, candidate, ip)
    ensures candidate == Recall(text, old(Entries(table, size)), hash, ip)
    ensures Entries(table, size) == Remember(text, old(Entries(table, size)), hash, ip)
    ensures again <==> LoadAt(text, ip) == LoadAt(text, candidate)
  {
    hide EightBytesAt, GetU32AtOffset;
    var inputBytes := EightBytesAt(text, ip - 1);
    ShiftedLoad(text, ip - 1, 0);
    ShiftedLoad(text, ip - 1, 1);
    ShiftedLoad(text, ip - 1, 2);
    var prevHash := hash(GetU32AtOffset(inputBytes, 0), size);
    var before := Exchange(table, size, prevHash, ip - 1);
    var curHash := hash(GetU32AtOffset(inputBytes, 1), size);
    candidate := Exchange(table, size, curHash, ip);
    var candidateBytes := Load32(text, candidate);
    again := GetU32AtOffset(inputBytes, 1) == candidateBytes;
    Load32Injective(text, ip, candidate);
    nextHash := hash(GetU32AtOffset(inputBytes, 2), size);
  }

  /** One block of at most 64K. `pre` is whatever the blocks before it expand to. */
  method CompressFragment(text: seq<byte>, out: array<byte>, op0: nat, table: array<u16>, size: nat,
      hash: Hash, ghost pre: seq<byte>) returns (op: nat)
    requires |text| <= BLOCK_SIZE && op0 + Room(|text|) <= out.Length
    requires HashFits(hash, size) && size <= table.Length && forall k :: 0 <= k < size ==> table[k] == 0
    modifies out, table
    ensures op0 <= op <= out.Length && Expand(out[op0..op], pre) == Some(pre + text)
    ensures out[op0..op] == BlockCode(text, hash, size)
    ensures 60 * (op - op0 - |text| - 3) <= |text|
    ensures forall k :: 0 <= k < op0 ==> out[k] == old(out[k])
  {
    hide BlockCode;
    var nextEmit;
    op, nextEmit := MainLoop(text, out, op0, table, size, hash, pre);
    if nextEmit < |text| {
      op := LiteralStep(out, op, text, nextEmit, |text| - nextEmit, false, op0, pre);
    }
    assert text[..|text|] == text;
  }

  /** The matching part of a block: what is left over starts at `nextEmit`. */
  method MainLoop(text: seq<byte>, out: array<byte>, op0: nat, table: array<u16>, size: nat,
      hash: Hash, ghost pre: seq<byte>) returns (op: nat, nextEmit: nat)
    requires |text| <= BLOCK_SIZE && op0 + Room(|text|) <= out.Length
    requires HashFits(hash, size) && size <= table.Length && forall k :: 0 <= k < size ==> table[k] == 0
    modifies out, table
    ensures op0 <= op <= out.Length && Emitted(out[op0..op], pre, text, nextEmit)
    ensures out[op0..op] + LiteralCode(text, nextEmit, |text|) == BlockCode(text, hash, size)
    ensures 60 * (op - op0 - nextEmit) <= nextEmit
    ensures forall k :: 0 <= k < op0 ==> out[k] == old(out[k])
  {
    op, nextEmit := op0, 0;
    assert out[op0..op] == [] && pre + text[..0] == pre;
    if |text| < INPUT_MARGIN_BYTES {
      return;
    }
    var ip := 1;
    var nextHash := hash(Load32(text, ip), size);
    var done := false;
    assert Entries(table, size) == seq(size, _ => 0);
    while !done
      invariant !done ==>
        nextEmit < ip && ip + 4 <= |text| && Before(table, size, ip) && nextHash == hash(Load32(text, ip), size)
      invariant op0 <= op <= out.Length && Emitted(out[op0..op], pre, text, nextEmit)
      invariant 60 * (op - op0 - nextEmit) <= nextEmit && size <= table.Length
      invariant forall k :: 0 <= k < op0 ==> out[k] == old(out[k])
      invariant out[op0..op] + (if done then LiteralCode(text, nextEmit, |text|)
        else BlockFrom(text, Entries(table, size), hash, nextEmit, ip)) == BlockCode(text, hash, size)
      decreases !done, |text| - ip
    {
      op, nextEmit, ip, nextHash, done := BlockRound(text, out, op, table, size, hash, nextEmit, ip, nextHash, op0,
        pre);
    }
  }

  /** Up to the next match, and the copies from there on. */
  method BlockRound(text: seq<byte>, out: array<byte>, op1: nat, table: array<u16>, size: nat, hash: Hash,
      nextEmit1: nat, ip1: nat, nextHash1: nat, ghost op0: nat, ghost pre: seq<byte>)
      returns (op: nat, nextEmit: nat, ip: nat, nextHash: nat, done: bool)
    requires INPUT_MARGIN_BYTES <= |text| <= BLOCK_SIZE && op0 + Room(|text|) <= out.Length && op0 <= op1 <= out.Length
    requires HashFits(hash, size) && nextEmit1 < ip1 && ip1 + 4 <= |text| && Before(table, size, ip1)
    requires nextHash1 == hash(Load32(text, ip1), size)
    requires Emitted(out[op0..op1], pre, text, nextEmit1) && 60 * (op1 - op0 - nextEmit1) <= nextEmit1
    modifies out, table
    ensures op0 <= op <= out.Length && Emitted(out[op0..op], pre, text, nextEmit) &&
      60 * (op - op0 - nextEmit) <= nextEmit
    ensures !done ==>
      nextEmit < ip && ip1 < ip && ip + 4 <= |text| && Before(table, size, ip) &&
      nextHash == hash(Load32(text, ip), size)
    ensures forall k :: 0 <= k < op0 ==> out[k] == old(out[k])
    ensures size <= table.Length &&
      old(out[op0..op1]) + BlockFrom(text, old(Entries(table, size)), hash, nextEmit1, ip1) ==
      out[op0..op] + if done then LiteralCode(text, nextEmit, |text|)
        else BlockFrom(text, Entries(table, size), hash, nextEmit, ip)
  {
    hide ScanFrom, Copies, LiteralCode, BlockFrom, Expand;
    var found, candidate;
    ghost var t, start := Entries(table, size), out[op0..op1];
    found, ip, candidate := ScanForMatch(text, table, size, hash, ip1, nextHash1);
    if !found {
      BlockEnds(text, t, hash, nextEmit1, ip1);
      return op1, nextEmit1, ip, 0, true;
    }
    ghost var s := Scan(found, ip, candidate, Entries(table, size));
    op := LiteralStep(out, op1, text, nextEmit1, ip - nextEmit1, true, op0, pre);
    op, ip, nextHash, done := CopyRun(out, op, text, table, size, hash, candidate, ip, op0, pre);
    nextEmit := ip;
    BlockStep(text, t, hash, nextEmit1, ip1, s, start);
    if !done {
      ip := ip + 1;
    }
  }

  lemma BlockEnds(text: seq<byte>, t: Table, hash: Hash, emit: nat, ip: nat)
    requires !ScanFrom(text, t, hash, ip, 32).found
    ensures BlockFrom(text, t, hash, emit, ip) == LiteralCode(text, emit, |text|)
  {
    hide ScanFrom, LiteralCode;
  }

  lemma BlockStep(text: seq<byte>, t: Table, hash: Hash, emit: nat, ip: nat, s: Scan, start: seq<byte>)
    requires s == ScanFrom(text, t, hash, ip, 32) && s.found
    ensures var r := Copies(text, s.table, hash, s.candidate, s.ip);
      start + BlockFrom(text, t, hash, emit, ip) == start + LiteralCode(text, emit, s.ip) + r.code +
        if r.done || r.ip >= |text| then LiteralCode(text, r.ip, |text|)
          else BlockFrom(text, r.table, hash, r.ip, r.ip + 1)
  {
    hide ScanFrom, Copies, LiteralCode;
    var lit, r := LiteralCode(text, emit, s.ip), Copies(text, s.table, hash, s.candidate, s.ip);
    var tail := if r.done || r.ip >= |text| then LiteralCode(text, r.ip, |text|)
      else BlockFrom(text, r.table, hash, r.ip, r.ip + 1);
    assert BlockFrom(text, t, hash, emit, ip) == lit + r.code + tail;
    Assoc(start, lit + r.code, tail);
    Assoc(start, lit, r.code);
  }
}
