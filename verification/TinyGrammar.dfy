/** The language of `tinyexpr`, said without a parser: which token sequences are phrases, and of
    which trees. */
module TinyGrammar {
  import opened TinySyntax
  import opened TinyPrint

  /** How many of the signs are minuses. */
  ghost function Minuses<V>(ss: seq<Token<V>>): (n: nat) {
    multiset(ss)[TInfix(Sub)]
  }

  ghost predicate Signs<V>(ss: seq<Token<V>>) {
    forall i :: 0 <= i < |ss| ==> ss[i] == TInfix(Add) || ss[i] == TInfix(Sub)
  }

  /** A phrase of level l for the tree e: lists, sums, terms and factors are joined to the left
      (0 to 3), then come signs (4) and operands (5). */
  ghost predicate Phrase<V>(ts: seq<Token<V>>, l: nat, e: Expr<V>)
    requires l <= BASE
    decreases |ts|, 2 * (BASE - l) + 1
  {
    if l < POWER then Phrase(ts, l + 1, e) || exists k: nat :: JoinedAt(ts, l, e, k)
    else if l == POWER then exists k: nat :: SignedAt(ts, e, k)
    else Operand(ts, e)
  }

  /** The last operator of the chain stands at k. */
  ghost predicate JoinedAt<V>(ts: seq<Token<V>>, l: nat, e: Expr<V>, k: nat)
    requires l < POWER
    decreases |ts|, 2 * (BASE - l)
  {
    k < |ts| && Continues(l, ts[k]) && e.Apply? && e.f == OpAt(l, ts[k]) && |e.args| == 2 &&
    Phrase(ts[..k], l, e.args[0]) && Phrase(ts[k + 1..], l + 1, e.args[1])
  }

  /** The first k tokens are signs. */
  ghost predicate SignedAt<V>(ts: seq<Token<V>>, e: Expr<V>, k: nat)
    decreases |ts|, 2
  {
    k < |ts| && Signs(ts[..k]) &&
    if Minuses(ts[..k]) % 2 == 0 then Phrase(ts[k..], BASE, e)
    else e.Apply? && e.f == Negate && |e.args| == 1 && Phrase(ts[k..], BASE, e.args[0])
  }

  ghost predicate Operand<V>(ts: seq<Token<V>>, e: Expr<V>)
    decreases |ts|, 0
  {
    ts != [] &&
    match ts[0]
    case TNumber(v) => |ts| == 1 && e == Constant(v)
    case TVariable(x) => |ts| == 1 && e == Variable(x)
    case TFunction(f) => CallPhrase(f, ts[1..], e)
    case TOpen => |ts| >= 2 && ts[|ts| - 1] == TClose && Phrase(ts[1..|ts| - 1], 0, e)
    case _ => false
  }

  /** What follows the name of a function. */
  ghost predicate CallPhrase<V>(f: Fun, ts: seq<Token<V>>, e: Expr<V>)
    decreases |ts|, 20
  {
    e.Apply? && e.f == f && |e.args| == Arity(f) &&
    if Arity(f) == 0 then ts == [] || ts == [TOpen, TClose]
    else if Arity(f) == 1 then Phrase(ts, POWER, e.args[0])
    else ts != [] && ts[0] == TOpen && ListPhrase(ts[1..], e.args)
  }

  /** Parameters, with separators between them and a parenthesis at the end. */
  ghost predicate ListPhrase<V>(ts: seq<Token<V>>, args: seq<Expr<V>>)
    decreases |ts|, 21
  {
    exists k: nat :: ItemAt(ts, args, k)
  }

  ghost predicate ItemAt<V>(ts: seq<Token<V>>, args: seq<Expr<V>>, k: nat)
    decreases |ts|, 20
  {
    k < |ts| && args != [] && Phrase(ts[..k], 1, args[0]) &&
    if |args| == 1 then ts[k] == TClose && k + 1 == |ts| else ts[k] == TSep && ListPhrase(ts[k + 1..], args[1..])
  }

  // ------------------------------------------------------------------
  // Every phrase is read as its tree
  // ------------------------------------------------------------------

  /** Signs are read up to the first token that is none, and their minuses are counted. */
  lemma {:induction false} SignsRead<V>(ss: seq<Token<V>>, ts: seq<Token<V>>)
    requires Signs(ss) && !IsSign(Cur(ts))
    ensures AfterSigns(ss + ts) == ts && (Minus(ss + ts) <==> multiset(ss)[TInfix(Sub)] % 2 == 1)
  {
    if ss == [] {
      assert ss + ts == ts;
    } else {
      SignsRead(ss[1..], ts);
      assert Tail(ss + ts) == ss[1..] + ts;
      assert ss == [ss[0]] + ss[1..];
    }
  }

  /** Nothing that goes on behind a phrase of level l. */
  ghost predicate Ends<V>(l: nat, t: Token<V>) {
    Quiet(l, t) && t != TOpen
  }

  lemma {:induction false} PhraseReads<V>(ts: seq<Token<V>>, l: nat, e: Expr<V>, rest: seq<Token<V>>)
    requires l <= BASE && Phrase(ts, l, e) && Ends(l, Cur(rest))
    ensures Reads(ts + rest, l, e, rest)
    decreases |ts|, 2 * (BASE - l) + 1
  {
    hide Reads, Operand;
    if l < POWER {
      if Phrase(ts, l + 1, e) {
        PhraseReads(ts, l + 1, e, rest);
        Climb(ts + rest, l + 1, l, e, rest);
      } else {
        var k: nat :| JoinedAt(ts, l, e, k);
        JoinedReads(ts, l, e, k, rest);
      }
    } else if l == POWER {
      var k: nat :| SignedAt(ts, e, k);
      SignedReads(ts, e, k, rest);
    } else {
      OperandReads(ts, e, rest);
    }
  }

  lemma {:induction false} JoinedReads<V>(ts: seq<Token<V>>, l: nat, e: Expr<V>, k: nat, rest: seq<Token<V>>)
    requires l < POWER && JoinedAt(ts, l, e, k) && Ends(l, Cur(rest))
    ensures Reads(ts + rest, l, e, rest)
    decreases |ts|, 2 * (BASE - l)
  {
    hide Reads, Phrase;
    var a, b, t, right := e.args[0], e.args[1], ts[k], ts[k + 1..] + rest;
    var mid := [t] + right;
    PhraseReads(ts[..k], l, a, mid);
    PhraseReads(ts[k + 1..], l + 1, b, rest);
    OperandRead(right, l, b, rest);
    assert ts + rest == ts[..k] + mid;
    Joined(ts + rest, l, a, t, right, b, rest);
    assert e == Apply(e.f, [a, b]);
  }

  lemma {:induction false} SignedReads<V>(ts: seq<Token<V>>, e: Expr<V>, k: nat, rest: seq<Token<V>>)
    requires SignedAt(ts, e, k) && Ends(POWER, Cur(rest))
    ensures Reads(ts + rest, POWER, e, rest)
    decreases |ts|, 2
  {
    hide Phrase;
    var ss, operand := ts[..k], ts[k..] + rest;
    var a := if Minuses(ss) % 2 == 0 then e else e.args[0];
    PhraseReads(ts[k..], BASE, a, rest);
    assert ts + rest == ss + operand;
    SignsRead(ss, operand);
    if a != e { assert e == Apply(Negate, [a]); }
  }

  lemma {:induction false} OperandReads<V>(ts: seq<Token<V>>, e: Expr<V>, rest: seq<Token<V>>)
    requires Operand(ts, e) && Ends(BASE, Cur(rest))
    ensures Reads(ts + rest, BASE, e, rest)
    decreases |ts|, 0
  {
    match ts[0]
    case TNumber(v) =>
      assert Tail(ts + rest) == rest;
    case TVariable(x) =>
      assert Tail(ts + rest) == rest;
    case TFunction(f) =>
      hide Phrase;
      CallIsRead(f, ts[1..], e, rest);
      assert ts + rest == [TFunction(f)] + (ts[1..] + rest);
    case TOpen =>
      hide Phrase;
      var inner := ts[1..|ts| - 1];
      PhraseReads(inner, 0, e, [TClose] + rest);
      assert ts + rest == [TOpen] + (inner + ([TClose] + rest));
      InParentheses(inner + ([TClose] + rest), e, rest);
  }

  lemma {:induction false} CallIsRead<V>(f: Fun, ts: seq<Token<V>>, e: Expr<V>, rest: seq<Token<V>>)
    requires CallPhrase(f, ts, e) && Ends(BASE, Cur(rest))
    ensures Reads([TFunction(f)] + (ts + rest), BASE, e, rest)
    decreases |ts|, 20
  {
    hide Phrase, Chain, Power, ListPhrase;
    if Arity(f) == 0 {
      assert e == Apply(f, []);
      if ts == [] {
        NoCall(f, rest);
        assert ts + rest == rest;
      } else {
        BareCall(f, rest);
        assert ts + rest == [TOpen, TClose] + rest;
      }
    } else if Arity(f) == 1 {
      PhraseReads(ts, POWER, e.args[0], rest);
      OneCall(f, ts + rest, e.args[0], rest);
      assert e.args == [e.args[0]];
    } else {
      ListReads(ts[1..], e.args, TOpen, rest);
      assert ts + rest == [TOpen] + (ts[1..] + rest);
      ManyCall(f, ts + rest, e.args, rest);
    }
  }

  lemma NoCall<V>(f: Fun, rest: seq<Token<V>>)
    requires Arity(f) == 0 && Cur(rest) != TOpen
    ensures Reads([TFunction(f)] + rest, BASE, Apply(f, []), rest)
  {
    assert Tail([TFunction(f)] + rest) == rest;
  }

  lemma BareCall<V>(f: Fun, rest: seq<Token<V>>)
    requires Arity(f) == 0
    ensures Reads([TFunction(f)] + ([TOpen, TClose] + rest), BASE, Apply(f, []), rest)
  {
    var ts: seq<Token<V>> := [TOpen, TClose] + rest;
    assert Tail([TFunction(f)] + ts) == ts && Tail(ts) == [TClose] + rest && Tail(Tail(ts)) == rest;
  }

  lemma OneCall<V>(f: Fun, ts: seq<Token<V>>, a: Expr<V>, rest: seq<Token<V>>)
    requires Arity(f) == 1 && Reads(ts, POWER, a, rest)
    ensures Reads([TFunction(f)] + ts, BASE, Apply(f, [a]), rest)
  {
    assert Tail([TFunction(f)] + ts) == ts;
  }

  lemma ManyCall<V>(f: Fun, ts: seq<Token<V>>, args: seq<Expr<V>>, rest: seq<Token<V>>)
    requires Arity(f) == |args| > 1 && ts != [] && Cur(ts) == TOpen
    requires Args(ts, |args|) == Arguments(args, [TClose] + rest)
    ensures Reads([TFunction(f)] + ts, BASE, Apply(f, args), rest)
  {
    assert Tail([TFunction(f)] + ts) == ts && Tail([TClose] + rest) == rest;
    assert Padded(args, |args|) == args;
    assert Call(f, ts) == Parsed(Apply(f, args), rest);
  }

  lemma {:induction false} ListReads<V>(ts: seq<Token<V>>, args: seq<Expr<V>>, first: Token<V>, rest: seq<Token<V>>)
    requires ListPhrase(ts, args) && args != []
    ensures Args([first] + (ts + rest), |args|) == Arguments(args, [TClose] + rest)
    decreases |ts|, 21
  {
    hide Phrase, Chain, Args;
    var k: nat :| ItemAt(ts, args, k);
    var behind := ts[k..] + rest;
    PhraseReads(ts[..k], 1, args[0], behind);
    assert ts + rest == ts[..k] + behind;
    OperandRead(ts + rest, 0, args[0], behind);
    if |args| == 1 {
      assert behind == [TClose] + rest;
      ArgsEnd(first, ts + rest, args[0], behind);
      assert args == [args[0]];
    } else {
      ListReads(ts[k + 1..], args[1..], TSep, rest);
      assert behind == [TSep] + (ts[k + 1..] + rest);
      ArgsStep(first, ts + rest, args[0], behind, |args|, Arguments(args[1..], [TClose] + rest));
      assert args == [args[0]] + args[1..];
    }
  }

  // ------------------------------------------------------------------
  // Nothing else is read
  // ------------------------------------------------------------------

  /** What has been read of ts when `rest` is left. */
  ghost predicate Left<V>(ts: seq<Token<V>>, rest: seq<Token<V>>) {
    |rest| <= |ts| && ts[|ts| - |rest|..] == rest
  }

  ghost function Used<V>(ts: seq<Token<V>>, rest: seq<Token<V>>): (u: seq<Token<V>>)
    requires Left(ts, rest)
  {
    ts[..|ts| - |rest|]
  }

  lemma LeftOver<V>(ts: seq<Token<V>>, mid: seq<Token<V>>, rest: seq<Token<V>>)
    requires Left(ts, mid) && Left(mid, rest)
    ensures Left(ts, rest) && Used(ts, rest) == Used(ts, mid) + Used(mid, rest)
  {
    assert ts == Used(ts, mid) + mid;
    assert mid == Used(mid, rest) + rest;
  }

  /** If what is left of ts starts with no error, a phrase for the tree has been read. */
  ghost predicate Sound<V>(ts: seq<Token<V>>, l: nat, p: Parsed<V>)
    requires l <= BASE
  {
    Cur(p.rest) != TError ==> Left(ts, p.rest) && Phrase(Used(ts, p.rest), l, p.e)
  }

  lemma {:induction false} ChainSound<V>(l: nat, ts: seq<Token<V>>)
    requires l <= POWER
    ensures Sound(ts, l, Chain(l, ts))
    decreases |ts| + 1, POWER + 2 - l, 1
  {
    hide Phrase, Power;
    if l == POWER {
      PowerSound(ts);
    } else {
      ChainSound(l + 1, ts);
      var p := Chain(l + 1, ts);
      if Cur(p.rest) != TError {
        PhraseBelow(Used(ts, p.rest), l, p.e);
        ChainOnSound(l, ts, p);
      }
    }
  }

  lemma PhraseBelow<V>(ts: seq<Token<V>>, l: nat, e: Expr<V>)
    requires l < POWER && Phrase(ts, l + 1, e)
    ensures Phrase(ts, l, e)
  {
  }

  lemma {:induction false} ChainOnSound<V>(l: nat, ts: seq<Token<V>>, p: Parsed<V>)
    requires l < POWER && Cur(p.rest) != TError && Sound(ts, l, p) && |p.rest| <= |ts|
    ensures Sound(ts, l, ChainOn(l, p))
    decreases Measure(p.rest), POWER + 2 - l, 0
  {
    hide Phrase, Chain;
    if Continues(l, Cur(p.rest)) {
      var next := Tail(p.rest);
      var r := Chain(l + 1, next);
      ChainSound(l + 1, next);
      var q := Parsed(Apply(OpAt(l, Cur(p.rest)), [p.e, r.e]), r.rest);
      if Cur(r.rest) != TError {
        JoinSound(ts, l, p, r, q);
        ChainOnSound(l, ts, q);
      } else {
        assert ChainOn(l, q) == q;
      }
    }
  }

  lemma JoinSound<V>(ts: seq<Token<V>>, l: nat, p: Parsed<V>, r: Parsed<V>, q: Parsed<V>)
    requires l < POWER && Left(ts, p.rest) && Phrase(Used(ts, p.rest), l, p.e) && p.rest != []
    requires Continues(l, p.rest[0]) && Left(p.rest[1..], r.rest) && Phrase(Used(p.rest[1..], r.rest), l + 1, r.e)
    requires q == Parsed(Apply(OpAt(l, p.rest[0]), [p.e, r.e]), r.rest)
    ensures Left(ts, q.rest) && Phrase(Used(ts, q.rest), l, q.e)
  {
    assert Left(p.rest, r.rest) && Used(p.rest, r.rest) == [p.rest[0]] + Used(p.rest[1..], r.rest);
    LeftOver(ts, p.rest, r.rest);
    var u, k := Used(ts, q.rest), |Used(ts, p.rest)|;
    assert u[..k] == Used(ts, p.rest) && u[k] == p.rest[0] && u[k + 1..] == Used(p.rest[1..], r.rest);
    assert JoinedAt(u, l, q.e, k);
  }

  lemma {:induction false} PowerSound<V>(ts: seq<Token<V>>)
    ensures Sound(ts, POWER, Power(ts))
    decreases |ts| + 1, 1, 0
  {
    hide Phrase, Base;
    var k := SignCount(ts);
    var operand := AfterSigns(ts);
    var p := Base(operand);
    BaseSound(operand);
    if Cur(p.rest) != TError {
      var q := Power(ts);
      LeftOver(ts, operand, p.rest);
      var u := Used(ts, p.rest);
      assert u[..k] == ts[..k] && u[k..] == Used(operand, p.rest);
      PhraseSome(Used(operand, p.rest), BASE, p.e);
      SignedIs(u, k, p.e, q.e);
    }
  }

  lemma SignedIs<V>(u: seq<Token<V>>, k: nat, a: Expr<V>, e: Expr<V>)
    requires k < |u| && Signs(u[..k]) && Phrase(u[k..], BASE, a)
    requires e == if Minuses(u[..k]) % 2 == 1 then Apply(Negate, [a]) else a
    ensures Phrase(u, POWER, e)
  {
    assert SignedAt(u, e, k);
  }

  /** How many signs there are. */
  lemma {:induction false} SignCount<V>(ts: seq<Token<V>>) returns (k: nat)
    ensures k <= |ts| && Signs(ts[..k]) && AfterSigns(ts) == ts[k..] && !IsSign(Cur(ts[k..]))
    ensures Left(ts, AfterSigns(ts))
    ensures Minus(ts) <==> Minuses(ts[..k]) % 2 == 1
  {
    if IsSign(Cur(ts)) {
      k := SignCount(Tail(ts));
      k := k + 1;
      assert ts[..k] == [ts[0]] + Tail(ts)[..k - 1] && ts[k..] == Tail(ts)[k - 1..];
    } else {
      k := 0;
      assert ts[0..] == ts;
    }
    SignsRead(ts[..k], ts[k..]);
    assert ts == ts[..k] + ts[k..];
  }

  lemma {:induction false} PhraseSome<V>(ts: seq<Token<V>>, l: nat, e: Expr<V>)
    requires l <= BASE && Phrase(ts, l, e)
    ensures ts != []
    decreases BASE - l
  {
    if l < POWER && Phrase(ts, l + 1, e) { PhraseSome(ts, l + 1, e); }
  }

  lemma {:induction false} BaseSound<V>(ts: seq<Token<V>>)
    ensures Sound(ts, BASE, Base(ts))
    decreases |ts| + 1, 0, 0
  {
    match Cur(ts)
    case TNumber(v) =>
      NumberPhrase(v);
      assert Left(ts, Tail(ts)) && Used(ts, Tail(ts)) == [TNumber(v)];
    case TVariable(x) =>
      VariablePhrase<V>(x);
      assert Left(ts, Tail(ts)) && Used(ts, Tail(ts)) == [TVariable(x)];
    case TFunction(f) =>
      hide Phrase, Call;
      CallSound(f, Tail(ts));
      var p := Call(f, Tail(ts));
      if Cur(p.rest) != TError { FunctionSound(f, ts, p); }
    case TOpen =>
      hide Phrase, Chain;
      ChainSound(0, Tail(ts));
      var p := Chain(0, Tail(ts));
      if Cur(p.rest) == TClose { ParenthesesSound(ts, p); }
    case _ =>
  }

  lemma NumberPhrase<V>(v: V)
    ensures Phrase([TNumber(v)], BASE, Constant(v))
  {
  }

  lemma VariablePhrase<V>(x: nat)
    ensures Phrase<V>([TVariable(x)], BASE, Variable(x))
  {
  }

  lemma FunctionSound<V>(f: Fun, ts: seq<Token<V>>, p: Parsed<V>)
    requires ts != [] && ts[0] == TFunction(f) && Left(ts[1..], p.rest) && CallPhrase(f, Used(ts[1..], p.rest), p.e)
    ensures Left(ts, p.rest) && Phrase(Used(ts, p.rest), BASE, p.e)
  {
    var u := Used(ts, p.rest);
    assert u[0] == ts[0] && u[1..] == Used(ts[1..], p.rest);
    assert Operand(u, p.e);
  }

  lemma ParenthesesSound<V>(ts: seq<Token<V>>, p: Parsed<V>)
    requires ts != [] && ts[0] == TOpen && Left(ts[1..], p.rest) && Phrase(Used(ts[1..], p.rest), 0, p.e)
    requires p.rest != [] && p.rest[0] == TClose
    ensures Left(ts, p.rest[1..]) && Phrase(Used(ts, p.rest[1..]), BASE, p.e)
  {
    var u := Used(ts, p.rest[1..]);
    assert u[0] == TOpen && u[|u| - 1] == TClose && u[1..|u| - 1] == Used(ts[1..], p.rest);
    assert Operand(u, p.e);
  }

  lemma {:induction false} CallSound<V>(f: Fun, ts: seq<Token<V>>)
    ensures var p := Call(f, ts);
      Cur(p.rest) != TError ==> Left(ts, p.rest) && CallPhrase(f, Used(ts, p.rest), p.e)
    decreases |ts| + 1, 10, 0
  {
    hide Phrase, Chain, Power, Args, ListPhrase, CallPhrase;
    if Arity(f) == 0 {
      NoneSound(f, ts);
    } else if Arity(f) == 1 {
      PowerSound(ts);
      OneSound(f, ts);
    } else if Cur(ts) == TOpen {
      ArgsSound(ts, Arity(f));
      ManySound(f, ts);
    }
  }

  lemma NoneSound<V>(f: Fun, ts: seq<Token<V>>)
    requires Arity(f) == 0
    ensures var p := Call(f, ts);
      Cur(p.rest) != TError ==> Left(ts, p.rest) && CallPhrase(f, Used(ts, p.rest), p.e)
  {
    hide Phrase, Chain, Power, Args, ListPhrase;
    if Cur(ts) == TOpen && Cur(Tail(ts)) == TClose {
      assert Used(ts, Tail(Tail(ts))) == [TOpen, TClose];
    } else {
      assert Used(ts, ts) == [];
    }
  }

  lemma OneSound<V>(f: Fun, ts: seq<Token<V>>)
    requires Arity(f) == 1 && Sound(ts, POWER, Power(ts))
    ensures var p := Call(f, ts);
      Cur(p.rest) != TError ==> Left(ts, p.rest) && CallPhrase(f, Used(ts, p.rest), p.e)
  {
    hide Phrase, Chain, Power, Args, ListPhrase;
  }

  lemma ManySound<V>(f: Fun, ts: seq<Token<V>>)
    requires Arity(f) > 1 && Cur(ts) == TOpen
    requires var a := Args(ts, Arity(f));
      Cur(a.rest) == TClose ==> Left(ts[1..], Tail(a.rest)) && ListPhrase(Used(ts[1..], Tail(a.rest)), a.args)
    ensures var p := Call(f, ts);
      Cur(p.rest) != TError ==> Left(ts, p.rest) && CallPhrase(f, Used(ts, p.rest), p.e)
  {
    hide Phrase, Chain, Power, Args, ListPhrase;
    var a := Args(ts, Arity(f));
    if Cur(a.rest) == TClose && |a.args| == Arity(f) {
      var rest := Tail(a.rest);
      assert Left(ts, rest) && Used(ts, rest)[1..] == Used(ts[1..], rest);
      assert Padded(a.args, Arity(f)) == a.args;
    }
  }

  /** A list of parameters, if it ends with a parenthesis. */
  lemma {:induction false} ArgsSound<V>(ts: seq<Token<V>>, left: nat)
    requires ts != [] && left > 0
    ensures var a := Args(ts, left);
      Cur(a.rest) == TClose ==> Left(ts[1..], Tail(a.rest)) && ListPhrase(Used(ts[1..], Tail(a.rest)), a.args)
    decreases |ts| + 1, 0, left
  {
    hide Phrase, Chain;
    var p, a := Chain(1, Tail(ts)), Args(ts, left);
    ChainSound(1, Tail(ts));
    if Cur(a.rest) == TClose {
      if Cur(p.rest) == TSep && left > 1 {
        ArgsSound(p.rest, left - 1);
        var b := Args(p.rest, left - 1);
        ItemSound(ts[1..], p, b.args, Tail(a.rest));
        assert a.args == [p.e] + b.args;
      } else {
        LastItem(ts[1..], p);
      }
    }
  }

  lemma ItemSound<V>(ts: seq<Token<V>>, p: Parsed<V>, args: seq<Expr<V>>, rest: seq<Token<V>>)
    requires Left(ts, p.rest) && Phrase(Used(ts, p.rest), 1, p.e) && p.rest != [] && p.rest[0] == TSep && args != []
    requires Left(p.rest[1..], rest) && ListPhrase(Used(p.rest[1..], rest), args)
    ensures Left(ts, rest) && ListPhrase(Used(ts, rest), [p.e] + args)
  {
    assert Left(p.rest, rest) && Used(p.rest, rest) == [TSep] + Used(p.rest[1..], rest);
    LeftOver(ts, p.rest, rest);
    var u, k := Used(ts, rest), |Used(ts, p.rest)|;
    assert u[..k] == Used(ts, p.rest) && u[k] == TSep && u[k + 1..] == Used(p.rest[1..], rest);
    assert ([p.e] + args)[1..] == args;
    assert ItemAt(u, [p.e] + args, k);
  }

  lemma LastItem<V>(ts: seq<Token<V>>, p: Parsed<V>)
    requires Left(ts, p.rest) && Phrase(Used(ts, p.rest), 1, p.e) && p.rest != [] && p.rest[0] == TClose
    ensures Left(ts, p.rest[1..]) && ListPhrase(Used(ts, p.rest[1..]), [p.e])
  {
    var u, k := Used(ts, p.rest[1..]), |Used(ts, p.rest)|;
    assert u[..k] == Used(ts, p.rest) && u[k] == TClose;
    assert ItemAt(u, [p.e], k);
  }

  // ------------------------------------------------------------------
  // The compiler
  // ------------------------------------------------------------------

  /** The parser returns a tree if and only if the tokens are a phrase for it. */
  lemma CompileExactly<V>(ts: seq<Token<V>>, e: Expr<V>)
    requires TEnd !in ts
    ensures Compile(ts) == e && e != Null <==> Phrase(ts, 0, e)
  {
    hide Phrase;
    if Phrase(ts, 0, e) {
      PhraseReads(ts, 0, e, []);
      assert ts + [] == ts;
      PhraseTree(ts, 0, e);
    }
    ChainSound(0, ts);
    var p := Chain(0, ts);
    if Cur(p.rest) == TEnd {
      LeftIn(ts, p.rest);
      assert Used(ts, p.rest) == ts;
    }
  }

  lemma LeftIn<V>(ts: seq<Token<V>>, rest: seq<Token<V>>)
    requires Left(ts, rest)
    ensures rest == [] || rest[0] in ts
  {
    if rest != [] { assert rest[0] == ts[|ts| - |rest|]; }
  }

  /** A phrase is the phrase of a tree. */
  lemma {:induction false} PhraseTree<V>(ts: seq<Token<V>>, l: nat, e: Expr<V>)
    requires l <= BASE && Phrase(ts, l, e)
    ensures e != Null
    decreases |ts|, BASE - l
  {
    if l < POWER {
      if Phrase(ts, l + 1, e) {
        PhraseTree(ts, l + 1, e);
      } else {
        var k: nat :| JoinedAt(ts, l, e, k);
      }
    } else if l == POWER {
      var k: nat :| SignedAt(ts, e, k);
      if Minuses(ts[..k]) % 2 == 0 { PhraseTree(ts[k..], BASE, e); }
    } else {
      assert Operand(ts, e);
      if ts[0] == TOpen { PhraseTree(ts[1..|ts| - 1], 0, e); }
      if ts[0].TFunction? { assert CallPhrase(ts[0].f, ts[1..], e); }
    }
  }

  /** No sequence of tokens is a phrase for two trees. */
  lemma OneTree<V>(ts: seq<Token<V>>, d: Expr<V>, e: Expr<V>)
    requires TEnd !in ts && Phrase(ts, 0, d) && Phrase(ts, 0, e)
    ensures d == e
  {
    CompileExactly(ts, d);
    CompileExactly(ts, e);
  }

  /** Two operands with an operator between them, the first one of a chain of at least its level. */
  lemma TwoOperands<V>(s: seq<Token<V>>, x: Expr<V>, f: Op, t: seq<Token<V>>, y: Expr<V>)
    requires Phrase(s, Level(f), x) && Phrase(t, Level(f) + 1, y)
    ensures Phrase(s + [TInfix(f)] + t, Level(f), Apply(Infix(f), [x, y]))
  {
    var u, k := s + [TInfix(f)] + t, |s|;
    assert u[..k] == s && u[k] == TInfix(f) && u[k + 1..] == t;
    assert JoinedAt(u, Level(f), Apply(Infix(f), [x, y]), k);
  }

  lemma {:induction false} Deeper<V>(ts: seq<Token<V>>, k: nat, l: nat, e: Expr<V>)
    requires l <= k <= POWER && Phrase(ts, k, e)
    ensures Phrase(ts, l, e)
    decreases k - l
  {
    if l < k {
      PhraseBelow(ts, k - 1, e);
      Deeper(ts, k - 1, l, e);
    }
  }

  /** An operand behind signs. */
  lemma SignedNumber<V>(ss: seq<Token<V>>, v: V, l: nat)
    requires Signs(ss) && l <= POWER
    ensures Phrase(ss + [TNumber(v)], l, if Minuses(ss) % 2 == 1 then Apply(Negate, [Constant(v)]) else Constant(v))
  {
    var u := ss + [TNumber(v)];
    NumberPhrase(v);
    assert u[..|ss|] == ss && u[|ss|..] == [TNumber(v)];
    var e := if Minuses(ss) % 2 == 1 then Apply(Negate, [Constant(v)]) else Constant(v);
    SignedIs(u, |ss|, Constant(v), e);
    Deeper(u, POWER, l, e);
  }

  lemma PlainNumber<V>(v: V, l: nat)
    requires l <= POWER
    ensures Phrase([TNumber(v)], l, Constant(v))
  {
    SignedNumber([], v, l);
    assert [] + [TNumber(v)] == [TNumber(v)];
  }

  /** Any tree behind any signs: itself, or its negation if the minuses are odd in number. */
  lemma SignsCompile<V>(ss: seq<Token<V>>, e: Expr<V>, wrap: Wrap<V>)
    requires Signs(ss) && Proper(e)
    ensures Compile(ss + Shown(e, BASE, wrap)) ==
      if multiset(ss)[TInfix(Sub)] % 2 == 1 then Apply(Negate, [e]) else e
  {
    hide Shown, Reads;
    var operand := Shown(e, BASE, wrap);
    ShownReads(e, BASE, wrap, []);
    assert operand + [] == operand;
    SignedOperand(ss, operand, e);
  }

  lemma SignedOperand<V>(ss: seq<Token<V>>, operand: seq<Token<V>>, e: Expr<V>)
    requires Signs(ss) && Reads(operand, BASE, e, [])
    ensures Compile(ss + operand) == if Minuses(ss) % 2 == 1 then Apply(Negate, [e]) else e
  {
    SignsRead(ss, operand);
    var d := if Minuses(ss) % 2 == 1 then Apply(Negate, [e]) else e;
    assert Reads(ss + operand, POWER, d, []);
    Climb(ss + operand, POWER, 0, d, []);
  }

  /** Which operators bind more tightly, and that equal ones are joined to the left, powers
      included; a sign binds more tightly than a power. */
  lemma Precedence<V>(a: V, b: V, c: V, f: Op, g: Op)
    ensures Level(Add) == Level(Sub) < Level(Mul) == Level(Divide) == Level(Mod) < Level(Pow)
    ensures var (x, y, z) := (Constant(a), Constant(b), Constant(c));
      Compile([TNumber(a), TInfix(f), TNumber(b), TInfix(g), TNumber(c)]) ==
        if Level(f) < Level(g) then Apply(Infix(f), [x, Apply(Infix(g), [y, z])])
        else Apply(Infix(g), [Apply(Infix(f), [x, y]), z])
    ensures Compile([TInfix(Sub), TNumber(a), TInfix(f), TNumber(b)]) ==
      Apply(Infix(f), [Apply(Negate, [Constant(a)]), Constant(b)])
  {
    var x, y, z := Constant(a), Constant(b), Constant(c);
    Chained(a, b, c, f, g);
    var n := [TInfix(Sub), TNumber(a)];
    SignedNumber([TInfix(Sub)], a, Level(f));
    assert [TInfix(Sub)] + [TNumber(a)] == n;
    PlainNumber(b, Level(f) + 1);
    TwoOperands(n, Apply(Negate, [x]), f, [TNumber(b)], y);
    var u: seq<Token<V>> := [TInfix(Sub), TNumber(a), TInfix(f), TNumber(b)];
    assert n + [TInfix(f)] + [TNumber(b)] == u;
    Deeper(u, Level(f), 0, Apply(Infix(f), [Apply(Negate, [x]), y]));
    CompileExactly(u, Apply(Infix(f), [Apply(Negate, [x]), y]));
  }

  lemma Chained<V>(a: V, b: V, c: V, f: Op, g: Op)
    ensures var (x, y, z) := (Constant(a), Constant(b), Constant(c));
      Compile([TNumber(a), TInfix(f), TNumber(b), TInfix(g), TNumber(c)]) ==
        if Level(f) < Level(g) then Apply(Infix(f), [x, Apply(Infix(g), [y, z])])
        else Apply(Infix(g), [Apply(Infix(f), [x, y]), z])
  {
    hide Phrase, Compile;
    var x, y, z := Constant(a), Constant(b), Constant(c);
    var u: seq<Token<V>> := [TNumber(a), TInfix(f), TNumber(b), TInfix(g), TNumber(c)];
    if Level(f) < Level(g) {
      var e := Apply(Infix(g), [y, z]);
      PlainNumber(a, Level(f));
      PlainNumber(b, Level(g));
      PlainNumber(c, Level(g) + 1);
      TwoOperands([TNumber(b)], y, g, [TNumber(c)], z);
      var right := [TNumber(b)] + [TInfix(g)] + [TNumber(c)];
      Deeper(right, Level(g), Level(f) + 1, e);
      TwoOperands([TNumber(a)], x, f, right, e);
      assert [TNumber(a)] + [TInfix(f)] + right == u;
      Deeper(u, Level(f), 0, Apply(Infix(f), [x, e]));
      CompileExactly(u, Apply(Infix(f), [x, e]));
    } else {
      var e := Apply(Infix(f), [x, y]);
      PlainNumber(a, Level(f));
      PlainNumber(b, Level(f) + 1);
      PlainNumber(c, Level(g) + 1);
      TwoOperands([TNumber(a)], x, f, [TNumber(b)], y);
      var left := [TNumber(a)] + [TInfix(f)] + [TNumber(b)];
      Deeper(left, Level(f), Level(g), e);
      TwoOperands(left, e, g, [TNumber(c)], z);
      assert left + [TInfix(g)] + [TNumber(c)] == u;
      Deeper(u, Level(g), 0, Apply(Infix(g), [e, z]));
      CompileExactly(u, Apply(Infix(g), [e, z]));
    }
  }
}
