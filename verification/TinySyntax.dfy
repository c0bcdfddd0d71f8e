/** The grammar of `tinyexpr`, as functions from token sequences to trees. */
module TinySyntax {

  datatype Op = Add | Sub | Mul | Divide | Mod | Pow

  /** What an inner node applies: an operator, or a function or closure looked up by name. */
  datatype Fun = Infix(op: Op) | Comma | Negate | Named(id: nat, size: nat, closure: bool, flagged: bool)

  function Arity(f: Fun): (n: nat) {
    match f
    case Infix(_) => 2
    case Comma => 2
    case Negate => 1
    case Named(_, n, _, _) => n
  }

  /** A node; `Null` is a parameter that was never set, `Invalid` what stands for no operand. */
  datatype Expr<V> = Constant(value: V) | Variable(name: nat) | Apply(f: Fun, args: seq<Expr<V>>) | Null | Invalid

  datatype Token<V> = TEnd | TError | TSep | TOpen | TClose | TNumber(value: V) | TVariable(name: nat) |
    TInfix(op: Op) | TFunction(f: Fun)

  /** The token under consideration, and what follows it. */
  function Cur<V>(ts: seq<Token<V>>): (t: Token<V>) {
    if ts == [] then TEnd else ts[0]
  }

  function Tail<V>(ts: seq<Token<V>>): (r: seq<Token<V>>)
    ensures |r| <= |ts| && (ts != [] ==> |r| < |ts|)
  {
    if ts == [] then [] else ts[1..]
  }

  /** An error takes the place of the current token. */
  function Fail<V>(ts: seq<Token<V>>): (r: seq<Token<V>>) {
    [TError] + Tail(ts)
  }

  /** What a function of the grammar returns: a tree, and the tokens that are left. */
  datatype Parsed<V> = Parsed(e: Expr<V>, rest: seq<Token<V>>)

  /** Loops end at an error, and each round takes a token. */
  function Measure<V>(ts: seq<Token<V>>): (n: nat) {
    if Cur(ts) == TError then 0 else 1 + |ts|
  }

  /** The operators of the chains: lists, sums, terms and factors. */
  function OpAt<V>(l: nat, t: Token<V>): (f: Fun)
    requires Continues(l, t)
  {
    if t.TInfix? then Infix(t.op) else Comma
  }

  predicate Continues<V>(l: nat, t: Token<V>) {
    if l == 0 then t == TSep
    else t.TInfix? && Level(t.op) == l
  }

  function Level(op: Op): (l: nat) {
    match op
    case Add | Sub => 1
    case Mul | Divide | Mod => 2
    case Pow => 3
  }

  const POWER := 4

  /** list (0), expr (1), term (2), factor (3): operands one level up, joined to the left. */
  function Chain<V>(l: nat, ts: seq<Token<V>>): (p: Parsed<V>)
    requires l <= POWER
    ensures Measure(p.rest) <= 1 + |ts|
    decreases |ts| + 1, POWER + 2 - l, 1
  {
    if l == POWER then Power(ts) else ChainOn(l, Chain(l + 1, ts))
  }

  function ChainOn<V>(l: nat, p: Parsed<V>): (q: Parsed<V>)
    requires l < POWER
    ensures Measure(q.rest) <= Measure(p.rest)
    decreases Measure(p.rest), POWER + 2 - l, 0
  {
    if Continues(l, Cur(p.rest)) then
      var r := Chain(l + 1, Tail(p.rest));
      ChainOn(l, Parsed(Apply(OpAt(l, Cur(p.rest)), [p.e, r.e]), r.rest))
    else p
  }

  predicate IsSign<V>(t: Token<V>) {
    t == TInfix(Add) || t == TInfix(Sub)
  }

  /** What follows the signs, and whether they amount to a minus. */
  function AfterSigns<V>(ts: seq<Token<V>>): (r: seq<Token<V>>)
    ensures |r| <= |ts|
  {
    if IsSign(Cur(ts)) then AfterSigns(Tail(ts)) else ts
  }

  predicate Minus<V>(ts: seq<Token<V>>) {
    IsSign(Cur(ts)) && (Cur(ts) == TInfix(Sub)) != Minus(Tail(ts))
  }

  function Power<V>(ts: seq<Token<V>>): (p: Parsed<V>)
    ensures Measure(p.rest) <= 1 + |ts|
    decreases |ts| + 1, 1, 0
  {
    var p := Base(AfterSigns(ts));
    if Minus(ts) then Parsed(Apply(Negate, [p.e]), p.rest) else p
  }

  /** The parameters of a function with more than one, up to where the separators end. */
  datatype Arguments<V> = Arguments(args: seq<Expr<V>>, rest: seq<Token<V>>)

  /** The current token is the opening parenthesis, or a separator. */
  function Args<V>(ts: seq<Token<V>>, left: nat): (a: Arguments<V>)
    requires ts != [] && left > 0
    ensures 0 < |a.args| <= left && Measure(a.rest) <= |ts|
    decreases |ts| + 1, 0, left
  {
    var p := Chain(1, Tail(ts));
    if Cur(p.rest) == TSep && left > 1 then
      var a := Args(p.rest, left - 1);
      Arguments([p.e] + a.args, a.rest)
    else Arguments([p.e], p.rest)
  }

  /** Unset parameters are null. */
  function Padded<V>(args: seq<Expr<V>>, n: nat): (r: seq<Expr<V>>) {
    if |args| < n then args + seq(n - |args|, _ => Null) else args
  }

  function Call<V>(f: Fun, ts: seq<Token<V>>): (p: Parsed<V>)
    ensures Measure(p.rest) <= 1 + |ts|
    decreases |ts| + 1, 10, 0
  {
    if Arity(f) == 0 then
      if Cur(ts) != TOpen then Parsed(Apply(f, []), ts)
      else if Cur(Tail(ts)) != TClose then Parsed(Apply(f, []), Fail(Tail(ts)))
      else Parsed(Apply(f, []), Tail(Tail(ts)))
    else if Arity(f) == 1 then
      var p := Power(ts);
      Parsed(Apply(f, [p.e]), p.rest)
    else if Cur(ts) != TOpen then Parsed(Apply(f, Padded([], Arity(f))), Fail(ts))
    else
      var a := Args(ts, Arity(f));
      Parsed(Apply(f, Padded(a.args, Arity(f))),
             if Cur(a.rest) != TClose || |a.args| != Arity(f) then Fail(a.rest) else Tail(a.rest))
  }

  function Base<V>(ts: seq<Token<V>>): (p: Parsed<V>)
    ensures Measure(p.rest) <= 1 + |ts|
    decreases |ts| + 1, 0, 0
  {
    match Cur(ts)
    case TNumber(v) => Parsed(Constant(v), Tail(ts))
    case TVariable(x) => Parsed(Variable(x), Tail(ts))
    case TFunction(f) => Call(f, Tail(ts))
    case TOpen =>
      var p := Chain(0, Tail(ts));
      Parsed(p.e, if Cur(p.rest) != TClose then Fail(p.rest) else Tail(p.rest))
    case _ => Parsed(Invalid, Fail(ts))
  }

  /** `te_compile`, up to the folding of constants: a tree, if all tokens have been used. */
  function Compile<V>(ts: seq<Token<V>>): (e: Expr<V>) {
    var p := Chain(0, ts);
    if Cur(p.rest) != TEnd then Null else p.e
  }
}
