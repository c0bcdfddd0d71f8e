/** What a text is compressed to, as a function of the text and of the hash function. The
    functions are total: their guards never fail where the compressor uses them. */
module SnappyScript {
  import opened Bytes
  import opened SnappyEmit

  type Table = seq<u16>
  type Hash = (u32, nat) -> nat

  function LoadAt(text: seq<byte>, i: nat): (v: u32) {
    if i + 4 <= |text| then Load32(text, i) else 0
  }

  function Look(t: Table, h: nat): (p: nat) {
    if h < |t| then t[h] else 0
  }

  function Put(t: Table, h: nat, p: nat): (r: Table)
    ensures |r| == |t|
  {
    if h < |t| && p < 0x1_0000 then t[h := p] else t
  }

  /** How far the text at i and the text at j are alike. */
  function MatchLength(text: seq<byte>, i: nat, j: nat): (n: nat)
    requires i <= j <= |text|
    ensures j + n <= |text| && text[i..i + n] == text[j..j + n]
    ensures j + n < |text| ==> text[i + n] != text[j + n]
    decreases |text| - j
  {
    if j < |text| && text[i] == text[j] then 1 + MatchLength(text, i + 1, j + 1) else 0
  }

  lemma {:induction false} MatchUnique(text: seq<byte>, i: nat, j: nat, n: nat)
    requires i <= j && j + n <= |text| && text[i..i + n] == text[j..j + n]
    requires j + n < |text| ==> text[i + n] != text[j + n]
    ensures MatchLength(text, i, j) == n
    decreases n
  {
    if n > 0 {
      assert text[i..i + n][0] == text[j..j + n][0];
      assert text[i + 1..i + n] == text[i..i + n][1..] && text[j + 1..j + n] == text[j..j + n][1..];
      MatchUnique(text, i + 1, j + 1, n - 1);
    }
  }

  /** Where the search for a match has ended. */
  datatype Scan = Scan(found: bool, ip: nat, candidate: nat, table: Table)

  function ScanFrom(text: seq<byte>, t: Table, hash: Hash, ip: nat, skip: nat): (s: Scan)
    ensures s.found ==> ip <= s.ip
    decreases |text| - ip
  {
    var next := ip + skip / 32;
    if skip < 32 || next + INPUT_MARGIN_BYTES > |text| then Scan(false, ip, 0, t)
    else
      var h := hash(LoadAt(text, ip), |t|);
      if LoadAt(text, ip) == LoadAt(text, Look(t, h)) then Scan(true, ip, Look(t, h), Put(t, h, ip))
      else ScanFrom(text, Put(t, h, ip), hash, next, skip + 1)
  }

  /** A run of copies. */
  datatype Run = Run(code: seq<byte>, ip: nat, table: Table, done: bool)

  function After(code: seq<byte>, r: Run): (q: Run) {
    r.(code := code + r.code)
  }

  /** The two positions around ip, remembered. */
  function Remember(text: seq<byte>, t: Table, hash: Hash, ip: nat): (r: Table)
    requires ip > 0
    ensures |r| == |t|
  {
    Put(Put(t, hash(LoadAt(text, ip - 1), |t|), ip - 1), hash(LoadAt(text, ip), |t|), ip)
  }

  /** What has been remembered for the bytes at ip. */
  function Recall(text: seq<byte>, t: Table, hash: Hash, ip: nat): (p: nat)
    requires ip > 0
  {
    Look(Put(t, hash(LoadAt(text, ip - 1), |t|), ip - 1), hash(LoadAt(text, ip), |t|))
  }

  function Copies(text: seq<byte>, t: Table, hash: Hash, candidate: nat, ip: nat): (r: Run)
    ensures r.done || r.ip > ip
    decreases |text| - ip, 0
  {
    if !(candidate < ip < candidate + 0x1_0000 && ip + 4 <= |text|) then Run([], ip, t, true)
    else
      var n := 4 + MatchLength(text, candidate + 4, ip + 4);
      var code := CopyCodes(ip - candidate, n);
      After(code, CopiesBehind(text, t, hash, ip + n))
  }

  /** What follows a copy that ends at ip. */
  function CopiesBehind(text: seq<byte>, t: Table, hash: Hash, ip: nat): (r: Run)
    requires 0 < ip <= |text|
    ensures r.done || r.ip >= ip
    decreases |text| - ip, 1
  {
    if ip + INPUT_MARGIN_BYTES >= |text| then Run([], ip, t, true)
    else
      var candidate := Recall(text, t, hash, ip);
      if LoadAt(text, ip) == LoadAt(text, candidate) then Copies(text, Remember(text, t, hash, ip), hash, candidate, ip)
      else Run([], ip, Remember(text, t, hash, ip), false)
  }

  function LiteralCode(text: seq<byte>, from: nat, to: nat): (s: seq<byte>) {
    if from < to <= |text| && to - from < 0x1_0000_0000 then LiteralHeader(to - from) + text[from..to] else []
  }

  /** A block from ip on, with the bytes from `emit` on still to be emitted. */
  function BlockFrom(text: seq<byte>, t: Table, hash: Hash, emit: nat, ip: nat): (s: seq<byte>)
    decreases |text| - ip
  {
    var s := ScanFrom(text, t, hash, ip, 32);
    if !s.found then LiteralCode(text, emit, |text|)
    else
      var r := Copies(text, s.table, hash, s.candidate, s.ip);
      LiteralCode(text, emit, s.ip) + r.code +
      if r.done || r.ip >= |text| then LiteralCode(text, r.ip, |text|)
        else BlockFrom(text, r.table, hash, r.ip, r.ip + 1)
  }

  /** A block, from an empty table of the given size. */
  function BlockCode(text: seq<byte>, hash: Hash, size: nat): (s: seq<byte>) {
    if |text| < INPUT_MARGIN_BYTES then LiteralCode(text, 0, |text|)
    else BlockFrom(text, seq(size, _ => 0), hash, 0, 1)
  }
}
