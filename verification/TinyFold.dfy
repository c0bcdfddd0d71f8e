/** Evaluation, and the folding of what can be evaluated beforehand. */
module TinyFold {
  import opened TinySyntax
  import TinyPrint

  /** What functions and variables mean. A function that is not flagged as pure may depend
      on the state of the world, and change it, as it may change the variables. */
  datatype Meaning<!V, !W> = Meaning(
    pure: (Fun, seq<V>) -> V,
    impure: (Fun, seq<V>, W) -> (V, W),
    look: (nat, W) -> V,
    nan: V)

  predicate IsPure(f: Fun) {
    f.Named? ==> f.flagged
  }

  /** `te_eval`: the value of a tree, and the world afterwards. */
  function Eval<V, W>(e: Expr<V>, m: Meaning<V, W>, w: W): (r: (V, W)) {
    match e
    case Constant(v) => (v, w)
    case Variable(x) => (m.look(x, w), w)
    case Apply(f, args) =>
      var (vs, w2) := EvalAll(args, m, w);
      if IsPure(f) then (m.pure(f, vs), w2) else m.impure(f, vs, w2)
    case _ => (m.nan, w)
  }

  /** The parameters, from the first to the last. */
  function EvalAll<V, W>(es: seq<Expr<V>>, m: Meaning<V, W>, w: W): (r: (seq<V>, W)) {
    if es == [] then ([], w)
    else
      var (v, w1) := Eval(es[0], m, w);
      var (vs, w2) := EvalAll(es[1..], m, w1);
      ([v] + vs, w2)
  }

  /** Each parameter is evaluated in the world that those before it leave, and handed over in its
      place. */
  lemma {:induction false} EvalInOrder<V, W>(es: seq<Expr<V>>, i: nat, m: Meaning<V, W>, w: W)
    requires i < |es|
    ensures |EvalAll(es, m, w).0| == |es|
    ensures var r := Eval(es[i], m, EvalAll(es[..i], m, w).1);
      EvalAll(es, m, w).0[i] == r.0 && EvalAll(es[..i + 1], m, w).1 == r.1
  {
    var (v, w1) := Eval(es[0], m, w);
    EvalLength(es[1..], m, w1);
    if i > 0 {
      EvalInOrder(es[1..], i - 1, m, w1);
      assert es[..i][1..] == es[1..][..i - 1] && es[..i + 1][1..] == es[1..][..i];
    } else {
      assert es[..1] == [es[0]] && es[..1][1..] == [];
    }
  }

  lemma {:induction false} EvalLength<V, W>(es: seq<Expr<V>>, m: Meaning<V, W>, w: W)
    ensures |EvalAll(es, m, w).0| == |es|
  {
    if es != [] { EvalLength(es[1..], m, Eval(es[0], m, w).1); }
  }

  predicate AllConstant<V>(es: seq<Expr<V>>) {
    forall i :: 0 <= i < |es| ==> es[i].Constant?
  }

  function Values<V>(es: seq<Expr<V>>): (vs: seq<V>)
    requires AllConstant(es)
    ensures |vs| == |es| && forall i :: 0 <= i < |es| ==> vs[i] == es[i].value
  {
    if es == [] then [] else [es[0].value] + Values(es[1..])
  }

  /** `optimize`: below nodes that are not pure, nothing changes. */
  function Fold<V, W>(e: Expr<V>, m: Meaning<V, W>): (r: Expr<V>)
    decreases e, 0
  {
    if e.Apply? && IsPure(e.f) then
      var args := FoldAll(e.args, m);
      if AllConstant(args) then Constant(m.pure(e.f, Values(args))) else Apply(e.f, args)
    else e
  }

  function FoldAll<V, W>(es: seq<Expr<V>>, m: Meaning<V, W>): (r: seq<Expr<V>>)
    ensures |r| == |es|
    decreases es, 1
  {
    if es == [] then [] else [Fold(es[0], m)] + FoldAll(es[1..], m)
  }

  lemma {:induction false} ConstantsEval<V, W>(es: seq<Expr<V>>, m: Meaning<V, W>, w: W)
    requires AllConstant(es)
    ensures EvalAll(es, m, w) == (Values(es), w)
  {
    if es != [] { ConstantsEval(es[1..], m, w); }
  }

  /** Folding changes neither the value nor what the evaluation does to the world. */
  lemma {:induction false} FoldKeepsMeaning<V, W>(e: Expr<V>, m: Meaning<V, W>, w: W)
    ensures Eval(Fold(e, m), m, w) == Eval(e, m, w)
    decreases e, 0
  {
    if e.Apply? && IsPure(e.f) {
      var args := FoldAll(e.args, m);
      FoldAllKeepsMeaning(e.args, m, w);
      if AllConstant(args) { ConstantsEval(args, m, w); }
    }
  }

  lemma {:induction false} FoldAllKeepsMeaning<V, W>(es: seq<Expr<V>>, m: Meaning<V, W>, w: W)
    ensures EvalAll(FoldAll(es, m), m, w) == EvalAll(es, m, w)
    decreases es, 1
  {
    if es != [] {
      FoldKeepsMeaning(es[0], m, w);
      FoldAllKeepsMeaning(es[1..], m, Eval(es[0], m, w).1);
      assert FoldAll(es, m)[0] == Fold(es[0], m) && FoldAll(es, m)[1..] == FoldAll(es[1..], m);
    }
  }

  /** Constants, and pure functions of such trees. */
  ghost predicate Steady<V>(e: Expr<V>)
    decreases e
  {
    match e
    case Constant(_) => true
    case Apply(f, args) => IsPure(f) && forall i :: 0 <= i < |args| ==> Steady(args[i])
    case _ => false
  }

  /** Everything that can be evaluated beforehand is, and nothing else. */
  lemma {:induction false} FoldsExactly<V, W>(e: Expr<V>, m: Meaning<V, W>)
    ensures Fold(e, m).Constant? <==> Steady(e)
    decreases e, 0
  {
    if e.Apply? && IsPure(e.f) {
      FoldAllExactly(e.args, m);
    }
  }

  lemma {:induction false} FoldAllExactly<V, W>(es: seq<Expr<V>>, m: Meaning<V, W>)
    ensures AllConstant(FoldAll(es, m)) <==> forall i :: 0 <= i < |es| ==> Steady(es[i])
    decreases es, 1
  {
    if es != [] {
      var r := FoldAll(es, m);
      FoldsExactly(es[0], m);
      FoldAllExactly(es[1..], m);
      assert r[0] == Fold(es[0], m) && r[1..] == FoldAll(es[1..], m);
      assert AllConstant(r) <==> r[0].Constant? && AllConstant(r[1..]);
      assert forall i :: 0 < i < |es| ==> es[i] == es[1..][i - 1];
    }
  }

  /** What has been printed, compiled and folded is worth what the tree is worth. */
  lemma InterpretPrinted<V, W>(e: Expr<V>, wrap: TinyPrint.Wrap<V>, m: Meaning<V, W>, w: W)
    requires TinyPrint.Proper(e)
    ensures Eval(Fold(Compile(TinyPrint.Shown(e, 0, wrap)), m), m, w) == Eval(e, m, w)
  {
    TinyPrint.ParseUndoesPrint(e, wrap);
    FoldKeepsMeaning(e, m, w);
  }

  lemma AllConstantMore<V>(es: seq<Expr<V>>, e: Expr<V>)
    ensures AllConstant(es + [e]) <==> AllConstant(es) && e.Constant?
  {
    assert (es + [e])[|es|] == e && forall i :: 0 <= i < |es| ==> (es + [e])[i] == es[i];
  }

  lemma NoneFolded<V, W>(es: seq<Expr<V>>, m: Meaning<V, W>)
    ensures es[0..] == es && FoldAll<V, W>([], m) == [] && AllConstant<V>([])
    ensures [] + FoldAll(es, m) == FoldAll(es, m)
  {
  }

  lemma FoldNext<V, W>(es: seq<Expr<V>>, i: nat, args: seq<Expr<V>>, m: Meaning<V, W>)
    requires i < |es|
    ensures args + FoldAll(es[i..], m) == args + [Fold(es[i], m)] + FoldAll(es[i + 1..], m)
  {
    assert es[i..][1..] == es[i + 1..];
  }

  /** `optimize`, with its loop over the parameters. */
  method Optimize<V, W>(e: Expr<V>, m: Meaning<V, W>) returns (r: Expr<V>)
    ensures r == Fold(e, m)
    decreases e
  {
    hide IsPure, Values, FoldAll, AllConstant;
    if e.Constant? || e.Variable? || !e.Apply? || !IsPure(e.f) { return e; }
    var known, args, i := true, [], 0;
    NoneFolded(e.args, m);
    while i < |e.args|
      invariant i <= |e.args| && args + FoldAll(e.args[i..], m) == FoldAll(e.args, m)
      invariant |args| == i && known == AllConstant(args)
    {
      var a := Optimize(e.args[i], m);
      FoldNext(e.args, i, args, m);
      AllConstantMore(args, a);
      if !a.Constant? { known := false; }
      args := args + [a];
      i := i + 1;
    }
    assert e.args[i..] == [] && args + [] == args;
    assert args == FoldAll(e.args, m);
    if known {
      r := Constant(m.pure(e.f, Values(args)));
    } else {
      r := Apply(e.f, args);
    }
  }
}
