/** The recursive-descent parser, and the arithmetic helpers that loop. */
module TinyExpr {
  import opened TinySyntax
  import opened TinyFold

  /** The state of the parser: the token under consideration, and where the next one is. */
  class State<V(==)> {
    const tokens: seq<Token<V>>
    var next: nat
    var kind: Token<V>

    ghost predicate Valid()
      reads this
    {
      next <= |tokens| && TEnd !in tokens && (kind == TEnd ==> next == |tokens|)
    }

    /** The tokens that are left, the current one first. */
    ghost function View(): (ts: seq<Token<V>>)
      reads this
      requires Valid()
      ensures Cur(ts) == kind
    {
      if kind == TEnd then [] else [kind] + tokens[next..]
    }

    constructor (ts: seq<Token<V>>)
      requires TEnd !in ts
      ensures Valid() && View() == ts
    {
      tokens, next, kind := ts, if ts == [] then 0 else 1, if ts == [] then TEnd else ts[0];
      new;
      assert ts != [] ==> [ts[0]] + ts[1..] == ts;
    }

    method NextToken()
      requires Valid()
      modifies this
      ensures Valid() && View() == Tail(old(View()))
    {
      ghost var ts := View();
      if next == |tokens| {
        kind := TEnd;
      } else {
        kind := tokens[next];
        next := next + 1;
        assert [kind] + tokens[next..] == tokens[next - 1..];
      }
    }

    method SetError()
      requires Valid()
      modifies this
      ensures Valid() && View() == Fail(old(View()))
    {
      kind := TError;
    }

    method BaseCall(f: Fun) returns (e: Expr<V>)
      requires Valid()
      modifies this
      ensures Valid() && Parsed(e, View()) == Call(f, old(View()))
      decreases |View()| + 1, 10
    {
      if Arity(f) == 0 {
        e := Apply(f, []);
        if kind == TOpen {
          NextToken();
          if kind != TClose { SetError(); } else { NextToken(); }
        }
      } else if Arity(f) == 1 {
        var p := PowerPhrase();
        e := Apply(f, [p]);
      } else {
        e := Apply(f, Padded([], Arity(f)));
        if kind != TOpen {
          SetError();
        } else {
          var args := Parameters(Arity(f));
          e := Apply(f, Padded(args, Arity(f)));
          if kind != TClose || |args| != Arity(f) { SetError(); } else { NextToken(); }
        }
      }
    }

    /** The loop over the parameters. It ends where no separator follows, or at the last one. */
    method Parameters(arity: nat) returns (args: seq<Expr<V>>)
      requires Valid() && View() != [] && arity > 1
      modifies this
      ensures Valid() && Arguments(args, View()) == Args(old(View()), arity)
      decreases |View()| + 1, 0
    {
      ghost var whole := Args(View(), arity);
      ghost var start := |View()|;
      args := [];
      var i := 0;
      var on := true;
      while on && i < arity
        invariant Valid() && i <= arity && |args| == i
        invariant on && i < arity ==>
          View() != [] && |View()| <= start && whole == Behind(args, Args(View(), arity - i))
        invariant !on || i == arity ==> whole == Arguments(args, View())
        decreases on, arity - i
      {
        ghost var ts := View();
        NextToken();
        var p := Expression();
        ArgsRound(args, ts, arity - i, p, View());
        args := args + [p];
        i := i + 1;
        if kind != TSep { on := false; }
      }
    }

    method BasePhrase() returns (e: Expr<V>)
      requires Valid()
      modifies this
      ensures Valid() && Parsed(e, View()) == Base(old(View()))
      decreases |View()| + 1, 2
    {
      hide Chain, Call;
      match kind
      case TNumber(v) =>
        e := Constant(v);
        NextToken();
      case TVariable(x) =>
        e := Variable(x);
        NextToken();
      case TFunction(f) =>
        NextToken();
        e := BaseCall(f);
      case TOpen =>
        NextToken();
        e := List();
        if kind != TClose { SetError(); } else { NextToken(); }
      case _ =>
        e := Invalid;
        SetError();
    }

    method PowerPhrase() returns (e: Expr<V>)
      requires Valid()
      modifies this
      ensures Valid() && Parsed(e, View()) == Power(old(View()))
      decreases |View()| + 1, 3
    {
      ghost var ts := View();
      var sign := 1;
      while kind == TInfix(Add) || kind == TInfix(Sub)
        invariant Valid() && |View()| <= |ts| && AfterSigns(View()) == AfterSigns(ts)
        invariant sign == 1 || sign == -1
        invariant Minus(ts) == (Minus(View()) != (sign == -1))
        decreases |View()|
      {
        if kind == TInfix(Sub) { sign := -sign; }
        NextToken();
      }
      e := BasePhrase();
      if sign != 1 { e := Apply(Negate, [e]); }
    }

    method Factor() returns (e: Expr<V>)
      requires Valid()
      modifies this
      ensures Valid() && Parsed(e, View()) == Chain(3, old(View()))
      decreases |View()| + 1, 4
    {
      ghost var ts := View();
      e := PowerPhrase();
      while kind == TInfix(Pow)
        invariant Valid() && Measure(View()) <= |ts| + 1 && ChainOn(3, Parsed(e, View())) == Chain(3, ts)
        decreases Measure(View())
      {
        NextToken();
        var p := PowerPhrase();
        e := Apply(Infix(Pow), [e, p]);
      }
    }

    method Term() returns (e: Expr<V>)
      requires Valid()
      modifies this
      ensures Valid() && Parsed(e, View()) == Chain(2, old(View()))
      decreases |View()| + 1, 5
    {
      ghost var ts := View();
      e := Factor();
      while kind == TInfix(Mul) || kind == TInfix(Divide) || kind == TInfix(Mod)
        invariant Valid() && Measure(View()) <= |ts| + 1 && ChainOn(2, Parsed(e, View())) == Chain(2, ts)
        decreases Measure(View())
      {
        var t := kind.op;
        NextToken();
        var p := Factor();
        e := Apply(Infix(t), [e, p]);
      }
    }

    method Expression() returns (e: Expr<V>)
      requires Valid()
      modifies this
      ensures Valid() && Parsed(e, View()) == Chain(1, old(View()))
      decreases |View()| + 1, 6
    {
      ghost var ts := View();
      e := Term();
      while kind == TInfix(Add) || kind == TInfix(Sub)
        invariant Valid() && Measure(View()) <= |ts| + 1 && ChainOn(1, Parsed(e, View())) == Chain(1, ts)
        decreases Measure(View())
      {
        var t := kind.op;
        NextToken();
        var p := Term();
        e := Apply(Infix(t), [e, p]);
      }
    }

    method List() returns (e: Expr<V>)
      requires Valid()
      modifies this
      ensures Valid() && Parsed(e, View()) == Chain(0, old(View()))
      decreases |View()| + 1, 7
    {
      ghost var ts := View();
      e := Expression();
      while kind == TSep
        invariant Valid() && Measure(View()) <= |ts| + 1 && ChainOn(0, Parsed(e, View())) == Chain(0, ts)
        decreases Measure(View())
      {
        NextToken();
        var p := Expression();
        e := Apply(Comma, [e, p]);
      }
    }
  }

  /** Parameters that have been read, in front of others. */
  ghost function Behind<V>(args: seq<Expr<V>>, a: Arguments<V>): (r: Arguments<V>) {
    Arguments(args + a.args, a.rest)
  }

  lemma ArgsRound<V>(args: seq<Expr<V>>, ts: seq<Token<V>>, left: nat, p: Expr<V>, rest: seq<Token<V>>)
    requires ts != [] && left > 0 && Parsed(p, rest) == Chain(1, Tail(ts))
    ensures Behind(args, Args(ts, left)) ==
      if Cur(rest) == TSep && left > 1 then Behind(args + [p], Args(rest, left - 1)) else Arguments(args + [p], rest)
  {
    if Cur(rest) == TSep && left > 1 {
      var a := Args(rest, left - 1);
      assert args + ([p] + a.args) == args + [p] + a.args;
    }
  }

  /** `te_compile`: nothing, unless all tokens have been used; else the tree, folded. */
  method TeCompile<V(==), W>(ts: seq<Token<V>>, m: Meaning<V, W>) returns (e: Expr<V>)
    requires TEnd !in ts
    ensures e == Fold(Compile(ts), m)
  {
    var s := new State(ts);
    e := s.List();
    if s.kind != TEnd { return Null; }
    e := Optimize(e, m);
  }
}
