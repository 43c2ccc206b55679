/**
  The generalised chain rule shared by `Complex.differentiate` and
  `Term.differentiate` (functions/Complex.java, functions/Term.java), stated on
  the node sequence of a chain, outermost node first.

  For nodes n_0 .. n_{k-1} with derivatives d_0 .. d_{k-1}, factor i is the
  chain [d_i] ++ n_{i+1..} (d_i applied to the inner composition), except the
  innermost factor, which is d_{k-1} alone. No factor: x^1. One factor: that
  factor. Otherwise the factors are multiplied left to right:
  Mul(Mul(F_0, F_1), F_2) ...
 */
module ChainRule {
  import opened Expr

  /** Factor i of the chain rule. */
  function Factor(nodes: seq<Function>, ds: seq<Function>, shape: Shape, i: nat): Function
    requires |ds| == |nodes| && i < |nodes|
  {
    if i < |nodes| - 1 then Wrap(shape, [ds[i]] + nodes[i + 1..]) else ds[i]
  }

  /** All factors, outer to inner. */
  function Factors(nodes: seq<Function>, ds: seq<Function>, shape: Shape): (fs: seq<Function>)
    requires |ds| == |nodes|
    ensures |fs| == |nodes|
    ensures forall i :: 0 <= i < |fs| ==> fs[i] == Factor(nodes, ds, shape, i)
  {
    seq(|nodes|, i requires 0 <= i < |nodes| => Factor(nodes, ds, shape, i))
  }

  /** The left-nested product Mul(Mul(fs[0], fs[1]), fs[2]) ... */
  function LeftProduct(fs: seq<Function>): Function
    requires |fs| >= 2
    decreases |fs|
  {
    if |fs| == 2 then Mul(fs[0], fs[1])
    else Mul(LeftProduct(fs[..|fs| - 1]), fs[|fs| - 1])
  }

  /** Reads a left-nested product of `k` factors back into its factor list:
      peels `k - 1` multiplications off the left spine. */
  function Unnest(f: Function, k: nat): Option<seq<Function>>
    requires k >= 1
  {
    if k == 1 then Some([f])
    else match f
      case Mul(a, b) =>
        (match Unnest(a, k - 1)
         case Some(fs) => Some(fs + [b])
         case None => None)
      case _ => None
  }

  /** Unnesting a left product gives back exactly its factors. */
  lemma {:induction false} UnnestLeftProduct(fs: seq<Function>)
    requires |fs| >= 2
    ensures Unnest(LeftProduct(fs), |fs|) == Some(fs)
    decreases |fs|
  {
    if |fs| == 2 {
      assert Unnest(fs[0], 1) == Some([fs[0]]);
      assert [fs[0]] + [fs[1]] == fs;
    } else {
      UnnestLeftProduct(fs[..|fs| - 1]);
      assert fs[..|fs| - 1] + [fs[|fs| - 1]] == fs;
    }
  }

  /** A left product whose first factor is no product has no further factor
      on its spine. */
  lemma {:induction false} UnnestBeyond(fs: seq<Function>)
    requires |fs| >= 2 && !fs[0].Mul?
    ensures Unnest(LeftProduct(fs), |fs| + 1) == None
    decreases |fs|
  {
    if |fs| > 2 {
      UnnestBeyond(fs[..|fs| - 1]);
    }
  }

  /** The derivative of a chain whose nodes have derivatives `ds`. */
  function Derivative(nodes: seq<Function>, ds: seq<Function>, shape: Shape): (r: Function)
    requires |ds| == |nodes|
    ensures |nodes| == 0 ==> r == Poly(1.0, 1.0)
    ensures |nodes| == 1 ==> r == ds[0]
    ensures |nodes| >= 2 ==>
      && Unnest(r, |nodes| + 1) == None
      && var u := Unnest(r, |nodes|);
      && u.Some? && |u.value| == |nodes|
      && (forall i :: 0 <= i < |nodes| - 1 ==> u.value[i] == Wrap(shape, [ds[i]] + nodes[i + 1..]))
      && u.value[|nodes| - 1] == ds[|nodes| - 1]
  {
    if |nodes| == 0 then Poly(1.0, 1.0)
    else if |nodes| == 1 then ds[0]
    else
      var fs := Factors(nodes, ds, shape);
      UnnestLeftProduct(fs);
      UnnestBeyond(fs);
      LeftProduct(fs)
  }

  /** Factor i (i < k - 1) is a chain of 1 + (k - 1 - i) nodes whose
      innermost node is the original innermost node: the suffix is shared. */
  lemma FactorSharesSuffix(nodes: seq<Function>, ds: seq<Function>, shape: Shape, i: nat)
    requires |ds| == |nodes| && i < |nodes| - 1
    ensures var f := Factor(nodes, ds, shape, i);
      && |f.nodes| == |nodes| - i
      && f.nodes[0] == ds[i]
      && f.nodes[1..] == nodes[i + 1..]
      && f.nodes[|f.nodes| - 1] == nodes[|nodes| - 1]
  {
  }
}
