/** Printing a tree as tokens, with the parentheses that are needed and any others. */
module TinyPrint {
  import opened TinySyntax

  /** More parentheses than needed: around which trees, in an operand of which level. */
  type Wrap<!V> = (Expr<V>, nat) -> bool

  const BASE := 5

  /** The level at which a tree needs no parentheses. */
  function Rank<V>(e: Expr<V>): (l: nat)
    ensures l <= BASE
  {
    if !e.Apply? then BASE
    else
      match e.f
      case Comma => 0
      case Infix(op) => Level(op)
      case Negate => POWER
      case Named(_, _, _, _) => BASE
  }

  /** A tree that the parser can build: every node has the parameters it needs. */
  ghost predicate Proper<V>(e: Expr<V>) {
    match e
    case Constant(_) => true
    case Variable(_) => true
    case Apply(f, args) => |args| == Arity(f) && forall i :: 0 <= i < |args| ==> Proper(args[i])
    case _ => false
  }

  function OpToken<V>(f: Fun): (t: Token<V>) {
    match f
    case Infix(op) => TInfix(op)
    case Comma => TSep
    case Negate => TInfix(Sub)
    case Named(_, _, _, _) => TFunction(f)
  }

  /** A tree without parentheses around it. */
  ghost function Bare<V>(e: Expr<V>, wrap: Wrap<V>): (ts: seq<Token<V>>)
    requires Proper(e)
    decreases e, 0
  {
    match e
    case Constant(v) => [TNumber(v)]
    case Variable(x) => [TVariable(x)]
    case Apply(f, args) =>
      match f
      case Infix(op) => Shown(args[0], Level(op), wrap) + [TInfix(op)] + Shown(args[1], Level(op) + 1, wrap)
      case Comma => Shown(args[0], 0, wrap) + [TSep] + Shown(args[1], 1, wrap)
      case Negate => [TInfix(Sub)] + Shown(args[0], BASE, wrap)
      case Named(_, n, _, _) =>
        if n == 0 then [TFunction(f), TOpen, TClose]
        else if n == 1 then [TFunction(f)] + Shown(args[0], POWER, wrap)
        else [TFunction(f), TOpen] + Listed(args, wrap)
  }

  /** A tree as an operand of level l. */
  ghost function Shown<V>(e: Expr<V>, l: nat, wrap: Wrap<V>): (ts: seq<Token<V>>)
    requires Proper(e)
    decreases e, 1
  {
    if Rank(e) < l || wrap(e, l) then [TOpen] + Bare(e, wrap) + [TClose] else Bare(e, wrap)
  }

  /** Parameters, with separators between them and a parenthesis at the end. */
  ghost function Listed<V>(args: seq<Expr<V>>, wrap: Wrap<V>): (ts: seq<Token<V>>)
    requires args != [] && forall i :: 0 <= i < |args| ==> Proper(args[i])
    decreases args, 0
  {
    if |args| == 1 then Shown(args[0], 1, wrap) + [TClose]
    else Shown(args[0], 1, wrap) + [TSep] + Listed(args[1..], wrap)
  }

  /** No operator above level l goes on. */
  ghost predicate Quiet<V>(l: nat, t: Token<V>) {
    forall k :: l < k < POWER ==> !Continues(k, t)
  }

  /** At its level, a phrase is read as the tree e, and the chain goes on behind it. */
  ghost predicate Reads<V>(ts: seq<Token<V>>, l: nat, e: Expr<V>, rest: seq<Token<V>>) {
    if l < POWER then Chain(l, ts) == ChainOn(l, Parsed(e, rest))
    else if l == POWER then Power(ts) == Parsed(e, rest)
    else Base(ts) == Parsed(e, rest) && !IsSign(Cur(ts))
  }

  /** What is read at one level is read at every lower one. */
  lemma {:induction false} Climb<V>(ts: seq<Token<V>>, k: nat, l: nat, e: Expr<V>, rest: seq<Token<V>>)
    requires l <= k <= BASE && Reads(ts, k, e, rest) && Quiet(l, Cur(rest))
    ensures Reads(ts, l, e, rest)
    decreases k
  {
    if l < k {
      assert k < POWER ==> !Continues(k, Cur(rest));
      Climb(ts, k - 1, l, e, rest);
    }
  }

  /** In parentheses, a phrase is read as an operand. */
  lemma InParentheses<V>(ts: seq<Token<V>>, e: Expr<V>, rest: seq<Token<V>>)
    requires Reads(ts, 0, e, [TClose] + rest)
    ensures Reads([TOpen] + ts, BASE, e, rest)
  {
    assert Tail([TOpen] + ts) == ts && Tail([TClose] + rest) == rest;
  }

  /** What has been printed is read back, whatever follows that does not go on with it. */
  lemma {:induction false} ShownReads<V>(e: Expr<V>, l: nat, wrap: Wrap<V>, rest: seq<Token<V>>)
    requires Proper(e) && l <= BASE && Quiet(l, Cur(rest))
    ensures Reads(Shown(e, l, wrap) + rest, l, e, rest)
    decreases e, 4
  {
    hide Reads, Bare;
    if Rank(e) < l || wrap(e, l) {
      var inner := [TClose] + rest;
      BareReads(e, wrap, inner);
      Climb(Bare(e, wrap) + inner, Rank(e), 0, e, inner);
      InParentheses(Bare(e, wrap) + inner, e, rest);
      assert Shown(e, l, wrap) + rest == [TOpen] + (Bare(e, wrap) + inner);
      Climb(Shown(e, l, wrap) + rest, BASE, l, e, rest);
    } else {
      BareReads(e, wrap, rest);
      Climb(Bare(e, wrap) + rest, Rank(e), l, e, rest);
    }
  }

  lemma {:induction false} BareReads<V>(e: Expr<V>, wrap: Wrap<V>, rest: seq<Token<V>>)
    requires Proper(e) && Quiet(Rank(e), Cur(rest))
    ensures Reads(Bare(e, wrap) + rest, Rank(e), e, rest)
    decreases e, 3
  {
    match e
    case Constant(v) =>
    case Variable(x) =>
    case Apply(f, args) =>
      match f
      case Infix(op) => BinaryReads(e, Level(op), wrap, rest);
      case Comma => BinaryReads(e, 0, wrap, rest);
      case Negate => NegationReads(e, wrap, rest);
      case Named(_, _, _, _) => CallReads(e, wrap, rest);
  }

  lemma {:induction false} BinaryReads<V>(e: Expr<V>, l: nat, wrap: Wrap<V>, rest: seq<Token<V>>)
    requires Proper(e) && e.Apply? && (e.f.Infix? || e.f.Comma?) && l == Rank(e) && Quiet(l, Cur(rest))
    ensures Reads(Bare(e, wrap) + rest, l, e, rest)
    decreases e, 2
  {
    hide Shown, Reads;
    var a, b, t := e.args[0], e.args[1], OpToken<V>(e.f);
    var right := Shown(b, l + 1, wrap) + rest;
    var mid := [t] + right;
    ShownReads(a, l, wrap, mid);
    ShownReads(b, l + 1, wrap, rest);
    assert Bare(e, wrap) + rest == Shown(a, l, wrap) + mid;
    OperandRead(right, l, b, rest);
    Joined(Shown(a, l, wrap) + mid, l, a, t, right, b, rest);
    assert e == Apply(e.f, [a, b]);
  }

  /** An operator behind the first operand, and the second one behind it. */
  lemma Joined<V>(ts: seq<Token<V>>, l: nat, a: Expr<V>, t: Token<V>, right: seq<Token<V>>, b: Expr<V>,
        rest: seq<Token<V>>)
    requires l < POWER && Continues(l, t) && Reads(ts, l, a, [t] + right) && Chain(l + 1, right) == Parsed(b, rest)
    ensures Reads(ts, l, Apply(OpAt(l, t), [a, b]), rest)
  {
    hide Chain;
    assert Tail([t] + right) == right;
  }

  /** An operand one level up ends where its phrase ends. */
  lemma OperandRead<V>(ts: seq<Token<V>>, l: nat, e: Expr<V>, rest: seq<Token<V>>)
    requires l < POWER && Reads(ts, l + 1, e, rest) && Quiet(l, Cur(rest))
    ensures Chain(l + 1, ts) == Parsed(e, rest)
  {
    assert l + 1 < POWER ==> !Continues(l + 1, Cur(rest));
  }

  lemma {:induction false} NegationReads<V>(e: Expr<V>, wrap: Wrap<V>, rest: seq<Token<V>>)
    requires Proper(e) && e.Apply? && e.f == Negate
    ensures Reads(Bare(e, wrap) + rest, POWER, e, rest)
    decreases e, 2
  {
    var a := e.args[0];
    var operand := Shown(a, BASE, wrap) + rest;
    ShownReads(a, BASE, wrap, rest);
    assert Bare(e, wrap) + rest == [TInfix(Sub)] + operand;
    var ts := [TInfix(Sub)] + operand;
    assert Tail(ts) == operand && AfterSigns(operand) == operand;
    assert AfterSigns(ts) == operand && !Minus(operand) && Minus(ts);
    assert e == Apply(Negate, [a]);
  }

  lemma {:induction false} CallReads<V>(e: Expr<V>, wrap: Wrap<V>, rest: seq<Token<V>>)
    requires Proper(e) && e.Apply? && e.f.Named?
    ensures Reads(Bare(e, wrap) + rest, BASE, e, rest)
    decreases e, 2
  {
    hide Shown, Reads, Args, Chain, Base, Power;
    var n := Arity(e.f);
    var ts := Bare(e, wrap) + rest;
    if n == 0 {
      NoneReads(e.f, rest);
    } else if n == 1 {
      var operand := Shown(e.args[0], POWER, wrap) + rest;
      ShownReads(e.args[0], POWER, wrap, rest);
      assert ts == [TFunction(e.f)] + operand;
      OneReads(e.f, operand, e.args[0], rest);
      assert e.args == [e.args[0]];
    } else {
      ListedReads(e, e.args, TOpen, wrap, rest);
      assert ts == [TFunction(e.f)] + ([TOpen] + (Listed(e.args, wrap) + rest));
      ManyRead(e.f, [TOpen] + (Listed(e.args, wrap) + rest), e.args, rest);
    }
  }

  lemma NoneReads<V>(f: Fun, rest: seq<Token<V>>)
    requires f.Named? && Arity(f) == 0
    ensures Reads([TFunction(f), TOpen, TClose] + rest, BASE, Apply(f, []), rest)
  {
    var ts := [TFunction(f), TOpen, TClose] + rest;
    assert Tail(ts) == [TOpen, TClose] + rest && Tail(Tail(ts)) == [TClose] + rest && Tail(Tail(Tail(ts))) == rest;
  }

  lemma OneReads<V>(f: Fun, ts: seq<Token<V>>, a: Expr<V>, rest: seq<Token<V>>)
    requires f.Named? && Arity(f) == 1 && Reads(ts, POWER, a, rest)
    ensures Reads([TFunction(f)] + ts, BASE, Apply(f, [a]), rest)
  {
    assert Tail([TFunction(f)] + ts) == ts;
  }

  lemma ManyRead<V>(f: Fun, ts: seq<Token<V>>, args: seq<Expr<V>>, rest: seq<Token<V>>)
    requires f.Named? && Arity(f) == |args| > 1 && ts != [] && Cur(ts) == TOpen
    requires Args(ts, |args|) == Arguments(args, [TClose] + rest)
    ensures Reads([TFunction(f)] + ts, BASE, Apply(f, args), rest)
  {
    assert Tail([TFunction(f)] + ts) == ts && Tail([TClose] + rest) == rest;
    assert Padded(args, |args|) == args;
    assert Call(f, ts) == Parsed(Apply(f, args), rest);
  }

  lemma ListedFirst<V>(args: seq<Expr<V>>, wrap: Wrap<V>, rest: seq<Token<V>>)
    requires args != [] && forall i :: 0 <= i < |args| ==> Proper(args[i])
    ensures Listed(args, wrap) + rest ==
      Shown(args[0], 1, wrap) + (if |args| == 1 then [TClose] + rest else [TSep] + (Listed(args[1..], wrap) + rest))
  {
    hide Shown, Proper;
  }

  /** The parameters of e, or those of them that are left. */
  lemma {:induction false} ListedReads<V>(e: Expr<V>, args: seq<Expr<V>>, first: Token<V>, wrap: Wrap<V>,
        rest: seq<Token<V>>)
    requires args != [] && e.Apply? && (forall i :: 0 <= i < |args| ==> args[i] in e.args && Proper(args[i]))
    ensures Args([first] + (Listed(args, wrap) + rest), |args|) == Arguments(args, [TClose] + rest)
    decreases e, 1, |args|
  {
    hide Shown, Reads, Chain, Args, Arity, Call, Proper, Power, Base, Listed;
    var a := args[0];
    assert a in e.args;
    var behind := if |args| == 1 then [TClose] + rest else [TSep] + (Listed(args[1..], wrap) + rest);
    var operand := Shown(a, 1, wrap) + behind;
    ShownReads(a, 1, wrap, behind);
    OperandRead(operand, 0, a, behind);
    ListedFirst(args, wrap, rest);
    if |args| == 1 {
      ArgsEnd(first, operand, a, behind);
      assert args == [a];
    } else {
      ListedReads(e, args[1..], TSep, wrap, rest);
      ArgsStep(first, operand, a, behind, |args|, Arguments(args[1..], [TClose] + rest));
      assert args == [a] + args[1..];
    }
  }

  lemma ArgsEnd<V>(first: Token<V>, ts: seq<Token<V>>, a: Expr<V>, rest: seq<Token<V>>)
    requires Chain(1, ts) == Parsed(a, rest)
    ensures Args([first] + ts, 1) == Arguments([a], rest)
  {
    hide Chain;
    assert Tail([first] + ts) == ts;
  }

  lemma ArgsStep<V>(first: Token<V>, ts: seq<Token<V>>, a: Expr<V>, rest: seq<Token<V>>, n: nat, others: Arguments<V>)
    requires n > 1 && Chain(1, ts) == Parsed(a, rest) && rest != [] && Cur(rest) == TSep && Args(rest, n - 1) == others
    ensures Args([first] + ts, n) == Arguments([a] + others.args, others.rest)
  {
    hide Chain;
    assert Tail([first] + ts) == ts;
  }

  /** Parsing undoes printing, with parentheses only where they are needed, everywhere, or
      anywhere in between. */
  lemma ParseUndoesPrint<V>(e: Expr<V>, wrap: Wrap<V>)
    requires Proper(e)
    ensures Compile(Shown(e, 0, wrap)) == e
  {
    ShownReads(e, 0, wrap, []);
    assert Shown(e, 0, wrap) + [] == Shown(e, 0, wrap);
  }
}
