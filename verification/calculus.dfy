/**
  `differentiate` over the whole expression tree, dispatching on the variant
  as the Java classes do.

  PolyTerm's derivative is an unfinished TODO in the source, Multiplication
  has no `differentiate`, and Subtraction's is a TODO: for those three the
  derivative is the parameter `leaf`. Everything else follows its class:
  Exponential returns itself, Log applies its base rule, Addition maps the
  rule over its operands and re-sorts, and Complex / Term apply the chain
  rule, building Complex / Term factors respectively.
 */
module Calculus {
  import opened Expr
  import opened Ordering
  import Addition
  import ChainRule
  import Logarithm

  function Derive(f: Function, leaf: Function -> Function): Function
    decreases f
  {
    match f
    case Poly(_, _) => leaf(f)
    case Mul(_, _) => leaf(f)
    case Sub(_, _) => leaf(f)
    case Exp => f
    case Log(b) => Logarithm.Derivative(b)
    case Add(ops) => Addition.MakeAdd(DeriveEach(ops, leaf))
    case Chain(ns) => ChainRule.Derivative(ns, DeriveEach(ns, leaf), ComplexShape)
    case Term(ns) => ChainRule.Derivative(ns, DeriveEach(ns, leaf), TermShape)
  }

  /** One derivative per function, in order. */
  function DeriveEach(fs: seq<Function>, leaf: Function -> Function): (ds: seq<Function>)
    ensures |ds| == |fs|
    ensures forall i :: 0 <= i < |fs| ==> ds[i] == Derive(fs[i], leaf)
    decreases fs
  {
    if fs == [] then [] else [Derive(fs[0], leaf)] + DeriveEach(fs[1..], leaf)
  }

  /** The n-th derivative. */
  function Nth(f: Function, n: nat, leaf: Function -> Function): Function
  {
    if n == 0 then f else Derive(Nth(f, n - 1, leaf), leaf)
  }

  /** Exponential is a fixed point of differentiation, however often it is
      applied, and so renders the same after it. */
  lemma {:induction false} ExpFixedPoint(n: nat, leaf: Function -> Function)
    ensures Derive(Exp, leaf) == Exp
    ensures Nth(Exp, n, leaf) == Exp
  {
    if n > 0 {
      ExpFixedPoint(n - 1, leaf);
    }
  }

  /** Log's derivative: x^-1 for base e, and for any other base the same
      two-node chain (x^-1) o (x * ln x). */
  lemma LogDerivative(b: real, leaf: Function -> Function)
    ensures b == E ==> Derive(Log(b), leaf) == Poly(1.0, -1.0)
    ensures b != E ==> Derive(Log(b), leaf) == Chain([Poly(1.0, -1.0), Mul(Poly(1.0, 1.0), Log(E))])
    ensures b != E ==> forall c :: c != E ==> Derive(Log(c), leaf) == Derive(Log(b), leaf)
  {
  }

  /** Sum rule: the derivative of an Addition is an Addition holding one
      derivative per operand, as a permutation; sorted, with tied derivatives
      in operand order, whenever the derivatives are all ranked. */
  lemma AddDerivative(ops: seq<Function>, leaf: Function -> Function)
    ensures var r := Derive(Add(ops), leaf);
      var ds := DeriveEach(ops, leaf);
      && r.Add?
      && |r.operands| == |ops|
      && multiset(r.operands) == multiset(ds)
      && (Addition.AllRanked(ds) ==> Addition.Sorted(r.operands))
      && (Addition.AllRanked(ds) ==> forall x :: Ranked(x) ==> Addition.Tier(r.operands, x) == Addition.Tier(ds, x))
  {
  }

  /** A Complex or a Term differentiates by the chain rule over its nodes,
      building factors of its own kind. */
  lemma ChainIsChainRule(ns: seq<Function>, shape: Shape, leaf: Function -> Function)
    ensures Derive(Wrap(shape, ns), leaf) == ChainRule.Derivative(ns, DeriveEach(ns, leaf), shape)
  {
    match shape
    case ComplexShape =>
      assert Wrap(shape, ns) == Chain(ns);
    case TermShape =>
      assert Wrap(shape, ns) == Term(ns);
  }

  /** The chain rule on a Complex or Term: x^1 for no node, the lone node's
      derivative unwrapped for one, and for k >= 2 nodes a left-nested
      product of exactly k factors, factor i being the same kind of chain
      [d_i] ++ ns[i+1..] (the original inner nodes, unchanged) and the last
      factor d_{k-1}. */
  lemma ChainDerivative(ns: seq<Function>, shape: Shape, leaf: Function -> Function)
    ensures var r := Derive(Wrap(shape, ns), leaf);
      && (ns == [] ==> r == Poly(1.0, 1.0))
      && (|ns| == 1 ==> r == Derive(ns[0], leaf))
      && (|ns| >= 2 ==>
        var u := ChainRule.Unnest(r, |ns|);
        && ChainRule.Unnest(r, |ns| + 1) == None
        && u.Some? && |u.value| == |ns|
        && (forall i :: 0 <= i < |ns| - 1 ==> u.value[i] == Wrap(shape, [Derive(ns[i], leaf)] + ns[i + 1..]))
        && u.value[|ns| - 1] == Derive(ns[|ns| - 1], leaf))
  {
    ChainIsChainRule(ns, shape, leaf);
  }
}
