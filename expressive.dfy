// The run-time meaning of the `expressive` combinators: functors over an
// argument pack are wrapped, combined pointwise by arithmetic operators,
// negated, composed and chained.  Values are C++ integers; division or
// remainder by zero, undefined behaviour in C++, evaluates to a failure.

module Expressive {
  import opened Common

  /** The binary operators `+ - * / %` lift pointwise (`std::plus` ... `std::modulus`). */
  datatype Op = Plus | Minus | Times | Divides | Modulus

  /** An expression: a callable taking the argument pack `args` and returning one value. */
  datatype Expr =
    | Use(f: seq<int> -> int)                      // `use(f)`, `function(f)`, `expression(f)`
    | Literal(value: int)                          // `literal(v)`
    | Negate(e: Expr)                              // unary `-f`
    | BinOp(left: Expr, op: Op, right: Expr)       // `f + g`, `f - g`, ...
    | Compose(outer: Expr, inners: seq<Expr>)      // `compose(outer, inners...)`

  /** One operator on two values: `/` and `%` fail on a zero divisor, every other case succeeds. */
  function Apply(op: Op, x: int, y: int): (r: Result<int>)
    ensures r.Failure? <==> (op == Divides || op == Modulus) && y == 0
    ensures r.Failure? ==> r.error == DomainError
    ensures op == Divides && y != 0 ==> r.value * y + CRem(x, y) == x
  {
    match op
    case Plus => Success(x + y)
    case Minus => Success(x - y)
    case Times => Success(x * y)
    case Divides => if y == 0 then Failure(DomainError) else CDivRem(x, y); Success(CDiv(x, y))
    case Modulus => if y == 0 then Failure(DomainError) else Success(CRem(x, y))
  }

  /** An expression that uses neither `/` nor `%`. */
  predicate DivisionFree(e: Expr)
    decreases e
  {
    match e
    case Use(_) => true
    case Literal(_) => true
    case Negate(inner) => DivisionFree(inner)
    case BinOp(l, op, r) => op != Divides && op != Modulus && DivisionFree(l) && DivisionFree(r)
    case Compose(outer, inners) => DivisionFree(outer) && forall i :: 0 <= i < |inners| ==> DivisionFree(inners[i])
  }

  /** `operator()(args...)` of each combinator; only a division or remainder by zero can make it fail. */
  function Eval(e: Expr, args: seq<int>): (r: Result<int>)
    ensures DivisionFree(e) ==> r.Success?
    ensures r.Failure? ==> r.error == DomainError
    decreases e
  {
    match e
    case Use(f) => Success(f(args))
    case Literal(v) => Success(v)
    case Negate(inner) =>
      (match Eval(inner, args)
       case Success(x) => Success(-x)
       case Failure(err) => Failure(err))
    case BinOp(l, op, r) =>
      (match Eval(l, args)
       case Failure(err) => Failure(err)
       case Success(x) =>
         match Eval(r, args)
         case Failure(err) => Failure(err)
         case Success(y) => Apply(op, x, y))
    case Compose(outer, inners) =>
      if |inners| == 0 then Eval(outer, args)
      else
        match EvalAll(inners, args)
        case Failure(err) => Failure(err)
        case Success(xs) => Eval(outer, xs)
  }

  /** Every inner functor called on the same arguments, in order. */
  function EvalAll(es: seq<Expr>, args: seq<int>): (r: Result<seq<int>>)
    ensures r.Success? ==> |r.value| == |es|
    ensures (forall i :: 0 <= i < |es| ==> DivisionFree(es[i])) ==> r.Success?
    ensures r.Failure? ==> r.error == DomainError
    decreases es
  {
    if es == [] then Success([])
    else
      match Eval(es[0], args)
      case Failure(err) => Failure(err)
      case Success(x) =>
        match EvalAll(es[1..], args)
        case Failure(err) => Failure(err)
        case Success(xs) => Success([x] + xs)
  }

  /** Feeds a result into a unary functor, or passes the failure on. */
  function Pipe(r: Result<int>, e: Expr): Result<int>
  {
    match r
    case Failure(err) => Failure(err)
    case Success(x) => Eval(e, [x])
  }

  /** Feeds a result through the unary functors `fs`, first to last. */
  function PipeAll(r: Result<int>, fs: seq<Expr>): Result<int>
    decreases |fs|
  {
    if fs == [] then r else PipeAll(Pipe(r, fs[0]), fs[1..])
  }

  /** Composing `outer` with the single inner functor `inner` pipes the one into the other. */
  lemma ComposeOfOne(inner: Expr, outer: Expr)
    ensures forall a :: Eval(Compose(outer, [inner]), a) == Pipe(Eval(inner, a), outer)
  {
    forall a
      ensures Eval(Compose(outer, [inner]), a) == Pipe(Eval(inner, a), outer)
    {
      assert [inner][1..] == [];
      assert EvalAll([], a) == Success([]);
      match Eval(inner, a)
      case Failure(_) =>
      case Success(x) =>
        assert EvalAll([inner], a) == Success([x] + []);
        assert [x] + [] == [x];
    }
  }

  /** `inner >> outer`: the output of `inner` is the input of `outer`. */
  function Then(inner: Expr, outer: Expr): (r: Expr)
    ensures forall a :: Eval(r, a) == Pipe(Eval(inner, a), outer)
  {
    ComposeOfOne(inner, outer);
    Compose(outer, [inner])
  }

  /** `outer << inner`: the same composition, written the other way round. */
  function After(outer: Expr, inner: Expr): (r: Expr)
    ensures forall a :: Eval(r, a) == Pipe(Eval(inner, a), outer)
  {
    ComposeOfOne(inner, outer);
    Compose(outer, [inner])
  }

  lemma {:induction false} PipeAllFailure(err: Error, fs: seq<Expr>)
    ensures PipeAll(Failure(err), fs) == Failure(err)
    decreases |fs|
  {
    if fs != [] {
      PipeAllFailure(err, fs[1..]);
    }
  }

  /** If `rest` pipes its input through `gs`, then `f >> rest` pipes the output of `f` through `gs`. */
  lemma PipeThen(f: Expr, rest: Expr, gs: seq<Expr>)
    requires |gs| > 0
    requires forall b :: Eval(rest, b) == PipeAll(Eval(gs[0], b), gs[1..])
    ensures forall a :: Eval(Then(f, rest), a) == PipeAll(Eval(f, a), gs)
  {
    forall a
      ensures Eval(Then(f, rest), a) == PipeAll(Eval(f, a), gs)
    {
      match Eval(f, a)
      case Failure(err) =>
        PipeAllFailure(err, gs);
      case Success(x) =>
        assert Eval(rest, [x]) == PipeAll(Eval(gs[0], [x]), gs[1..]);
    }
  }

  /** `chain(f1, f2, ..., fn)`: `f1 >> chain(f2, ..., fn)`, so the result of `f1` goes through `f2`, ..., `fn` in order. */
  function Chain(fs: seq<Expr>): (r: Expr)
    requires |fs| > 0
    ensures forall a :: Eval(r, a) == PipeAll(Eval(fs[0], a), fs[1..])
  {
    if |fs| == 1 then fs[0]
    else
      var rest := Chain(fs[1..]);
      PipeThen(fs[0], rest, fs[1..]);
      Then(fs[0], rest)
  }

  // ------------------------------------------------------------ properties

  /** `literal(v)` returns `v` whatever it is called with. */
  lemma LiteralIgnoresArguments(v: int, a: seq<int>, b: seq<int>)
    ensures Eval(Literal(v), a) == Eval(Literal(v), b) == Success(v)
  {
  }

  /** `(f + g)(a) == f(a) + g(a)`, and likewise for `-` and `*`, whenever both sides are defined. */
  lemma ArithmeticIsPointwise(f: Expr, g: Expr, a: seq<int>)
    requires Eval(f, a).Success? && Eval(g, a).Success?
    ensures Eval(BinOp(f, Plus, g), a) == Success(Eval(f, a).value + Eval(g, a).value)
    ensures Eval(BinOp(f, Minus, g), a) == Success(Eval(f, a).value - Eval(g, a).value)
    ensures Eval(BinOp(f, Times, g), a) == Success(Eval(f, a).value * Eval(g, a).value)
  {
  }

  /** `(f / g)(a)` and `(f % g)(a)` are defined iff `g(a)` is non-zero, and then satisfy `(f/g)*g + f%g == f`. */
  lemma DivisionIsPointwise(f: Expr, g: Expr, a: seq<int>)
    requires Eval(f, a).Success? && Eval(g, a).Success?
    ensures Eval(BinOp(f, Divides, g), a).Success? <==> Eval(g, a).value != 0
    ensures Eval(BinOp(f, Modulus, g), a).Success? <==> Eval(g, a).value != 0
    ensures Eval(g, a).value != 0 ==>
              Eval(BinOp(BinOp(BinOp(f, Divides, g), Times, g), Plus, BinOp(f, Modulus, g)), a) == Eval(f, a)
  {
    if Eval(g, a).value != 0 {
      CDivRem(Eval(f, a).value, Eval(g, a).value);
    }
  }

  /** `(-f)(a) == -(f(a))`; negating twice gives `f` back. */
  lemma NegationIsPointwise(f: Expr, a: seq<int>)
    ensures Eval(f, a).Success? ==> Eval(Negate(f), a) == Success(-Eval(f, a).value)
    ensures Eval(Negate(Negate(f)), a) == Eval(f, a)
  {
  }

  /** `f - g` and `f + (-g)` agree on every argument pack. */
  lemma MinusIsPlusNegate(f: Expr, g: Expr, a: seq<int>)
    ensures Eval(BinOp(f, Minus, g), a) == Eval(BinOp(f, Plus, Negate(g)), a)
  {
  }

  /** `compose(f, g1, ..., gn)(a) == f(g1(a), ..., gn(a))`. */
  lemma ComposeFeedsInners(f: Expr, gs: seq<Expr>, a: seq<int>)
    requires |gs| > 0 && forall i :: 0 <= i < |gs| ==> Eval(gs[i], a).Success?
    ensures EvalAll(gs, a).Success?
    ensures forall i :: 0 <= i < |gs| ==> EvalAll(gs, a).value[i] == Eval(gs[i], a).value
    ensures Eval(Compose(f, gs), a) == Eval(f, EvalAll(gs, a).value)
  {
    EvalAllValues(gs, a);
  }

  lemma {:induction false} EvalAllValues(gs: seq<Expr>, a: seq<int>)
    requires forall i :: 0 <= i < |gs| ==> Eval(gs[i], a).Success?
    ensures EvalAll(gs, a).Success?
    ensures forall i :: 0 <= i < |gs| ==> EvalAll(gs, a).value[i] == Eval(gs[i], a).value
    decreases |gs|
  {
    if gs != [] {
      assert forall i :: 0 <= i < |gs[1..]| ==> gs[1..][i] == gs[i + 1];
      EvalAllValues(gs[1..], a);
    }
  }

  /** `compose(f)` with no inner functor is `f` itself, called on the same arguments. */
  lemma ComposeAlone(f: Expr, a: seq<int>)
    ensures Eval(Compose(f, []), a) == Eval(f, a)
  {
  }

  /** Chaining `fs` then `gs` is piping the result of `chain(fs...)` into `chain(gs...)`. */
  lemma {:induction false} ChainConcat(fs: seq<Expr>, gs: seq<Expr>, a: seq<int>)
    requires |fs| > 0 && |gs| > 0
    ensures Eval(Chain(fs + gs), a) == Pipe(Eval(Chain(fs), a), Chain(gs))
    decreases |fs|
  {
    if |fs| == 1 {
      assert (fs + gs)[1..] == gs;
    } else {
      assert (fs + gs)[1..] == fs[1..] + gs;
      match Eval(fs[0], a)
      case Failure(_) =>
      case Success(x) =>
        ChainConcat(fs[1..], gs, [x]);
    }
  }

  /** `chain(f1, f2, f3)(a) == f3(f2(f1(a)))`. */
  lemma ChainOfThree(f1: Expr, f2: Expr, f3: Expr, a: seq<int>)
    ensures Eval(Chain([f1, f2, f3]), a) == Pipe(Pipe(Eval(f1, a), f2), f3)
  {
    assert [f1, f2, f3][1..][1..] == [f3];
  }

  /**
   * `f(x) = 2x` and `g(x) = x + 1` at `x = 3`: the two composition orders
   * differ, `f >> g` being `g(f(3))` and `f << g` being `f(g(3))`.
   */
  lemma DoubleAndIncrementAtThree()
    ensures var f, g := Use(xs => if |xs| > 0 then 2 * xs[0] else 0), Use(xs => if |xs| > 0 then xs[0] + 1 else 0);
            Eval(BinOp(f, Plus, g), [3]) == Success(10) &&
            Eval(BinOp(f, Divides, g), [3]) == Success(1) &&
            Eval(Then(f, g), [3]) == Success(7) &&
            Eval(After(f, g), [3]) == Success(8)
  {
  }
}
