/**
  The symbolic expression tree of the differentiator, as one closed datatype.

  Every Java class implementing `Function` becomes one constructor. A composite
  chain (`Complex`) and its size-less twin (`Term`) are kept apart because the
  canonical comparator ranks the former and not the latter, and because each
  builds derivative factors of its own kind.
 */
module Expr {

  datatype Option<+T> = None | Some(value: T)

  /** `Math.E`: the base that selects the natural-logarithm rule. Any
      non-integral constant would do; what matters is that it is one value. */
  const E: real := 2.718281828459045

  datatype Function =
    | Poly(scalar: real, power: real)         // PolyTerm: scalar * x^power
    | Exp                                     // Exponential: e^x (no parameters)
    | Log(base: real)                         // Log: log_base(x)
    | Add(operands: seq<Function>)            // Addition, operands as stored
    | Mul(fx: Function, gx: Function)         // Multiplication record
    | Sub(fx: Function, gx: Function)         // Subtraction record
    | Chain(nodes: seq<Function>)             // Complex, outermost node first
    | Term(nodes: seq<Function>)              // Term, outermost node first

  /** Which composite class a chain-rule factor is built as. */
  datatype Shape = ComplexShape | TermShape

  function Wrap(shape: Shape, nodes: seq<Function>): (f: Function)
    ensures (f.Chain? || f.Term?) && f.nodes == nodes
    ensures f.Chain? <==> shape == ComplexShape
  {
    match shape
    case ComplexShape => Chain(nodes)
    case TermShape => Term(nodes)
  }
}
