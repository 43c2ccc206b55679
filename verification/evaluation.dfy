/**
  The evaluation order of a chain (`FuncNode.compute` in
  functions/Complex.java and `TermNode.compute` in functions/Term.java): a
  node applies its own function to the value of the nodes inside it, so the
  innermost node sees x first. The numeric `compute` of each function is the
  parameter `apply`.
 */
module Evaluation {
  import opened Expr

  /** `compute(x)` from the first of `nodes` on. */
  function ComputeFrom(nodes: seq<Function>, apply: (Function, real) -> real, x: real): real
    requires nodes != []
    decreases |nodes|
  {
    apply(nodes[0], if |nodes| == 1 then x else ComputeFrom(nodes[1..], apply, x))
  }

  /** `Complex.compute(x)` / `Term.compute(x)`: `head.compute(x)`, which
      throws on an empty chain (`None`). */
  function Compute(nodes: seq<Function>, apply: (Function, real) -> real, x: real): (r: Option<real>)
    ensures r.None? <==> nodes == []
    ensures |nodes| == 1 ==> r == Some(apply(nodes[0], x))
  {
    if nodes == [] then None else Some(ComputeFrom(nodes, apply, x))
  }

  /** A chain computes as the composition of its parts: the outer part is
      applied to the value of the inner part. */
  lemma {:induction false} ComputeComposes(outer: seq<Function>, inner: seq<Function>, apply: (Function, real) -> real, x: real)
    requires outer != [] && inner != []
    ensures ComputeFrom(outer + inner, apply, x) == ComputeFrom(outer, apply, ComputeFrom(inner, apply, x))
    decreases |outer|
  {
    var all := outer + inner;
    if |outer| == 1 {
      assert all[1..] == inner;
    } else {
      assert all[1..] == outer[1..] + inner;
      ComputeComposes(outer[1..], inner, apply, x);
    }
  }

  /** Innermost first: the innermost function is applied to x, and every
      other node to the value of the node after it. */
  lemma InnermostFirst(nodes: seq<Function>, apply: (Function, real) -> real, x: real)
    requires |nodes| >= 2
    ensures ComputeFrom(nodes, apply, x) ==
      ComputeFrom(nodes[..|nodes| - 1], apply, apply(nodes[|nodes| - 1], x))
  {
    ComputeComposes(nodes[..|nodes| - 1], [nodes[|nodes| - 1]], apply, x);
    assert nodes[..|nodes| - 1] + [nodes[|nodes| - 1]] == nodes;
  }
}
