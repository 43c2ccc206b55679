# Taylor-Series: symbolic functions and their derivatives, in Dafny

This project models the symbolic core of the Taylor-Series differentiator.
The core is a closed family of functions of x:

- PolyTerm `a*x^p`;
- Exponential `e^x`;
- Log with a base;
- Addition of any number of operands;
- Multiplication and Subtraction of two functions;
- the two chain forms, Complex and Term.

Complex and Term are linked lists of nested functions, outermost first. Complex also counts its nodes in a `size` field.

The model covers:

- the chain rule that Complex and Term apply while walking their linked nodes;
- the canonical comparator that orders the operands of a sum;
- the Addition constructor's stable sort, its derivative and its rendering;
- Log's constructors, base accessors, derivative rule, cross-representation `equals` and rendering;
- Exponential as a fixed point of differentiation;
- the doubly linked `TermList.append_start`.

Modules, one per file:

| module | file | what it holds |
|---|---|---|
| `Expr` | expr.dfy | the `Function` datatype: `Poly`, `Exp`, `Log`, `Add`, `Mul`, `Sub`, `Chain` (Complex) and `Term` |
| `Ordering` | ordering.dfy | the comparator, and an independent (rank, power) reference order |
| `Addition` | addition.dfy | the stable sort, its uniqueness, and the rendering of sums |
| `ChainRule` | chainrule.dfy | chain-rule factors and the left-nested product, stated on node sequences |
| `Logarithm` | logarithm.dfy | Log, including Java's `(int)` cast and `Integer.toString` |
| `Calculus` | calculus.dfy | `differentiate` over the whole tree |
| `Render` | render.dfy | `toString` over the whole tree, with `None` for a thrown exception |
| `Linked` | linked.dfy | the singly linked node chain (Term) as an index-addressed node store, and its loops |
| `ComplexChain` | complexchain.dfy | Complex: the linked chain plus its `size` counter |
| `TermList` | termlist.dfy | the doubly linked list and `append_start` |
| `Evaluation` | evaluation.dfy | the order in which a chain evaluates its nodes |

How the linked structures are modelled:

- Java's heap of nodes is a `seq` of nodes, and each reference to a node is an index into it.
- A ghost `spine` lists the nodes met by following `next` from the head.
- `Valid` ties head, tail, the links and (for Complex) `size` to the spine.
- Building a factor only adds nodes to the store. So a factor shares the inner nodes of the chain it came from, as in the source, and the chain's own functions stay as they were.

Parameters that stand in for code outside this model:

- `leaf` is the derivative of PolyTerm, Multiplication and Subtraction. The source leaves it unfinished.
- `leafText` is the text of a PolyTerm record, whose generated `toString` prints doubles.
- `realText` is `Double.toString`.
- `apply` is the numeric `compute` of a function.

## Model

| member | source | states |
|---|---|---|
| Ordering.Compare | functions/Comparator.java:26-46 | result is -1, 0 or 1; equal values give 0; two PolyTerms compare by the sign of their powers' comparison; an unranked class (Log, Term, Subtraction) gives 0; ranked values of different classes follow the order PolyTerm < Exponential < Addition < Multiplication < Complex |
| Ordering.CompareNullable | functions/Comparator.java:27-28 | a null on either side compares as 0; otherwise as the two functions |
| Ordering.CompareIsKeyOrder | functions/Comparator.java:17-46 | on ranked values, compare is the lexicographic order on (class rank, PolyTerm power), in all three outcomes, so two distinct instances of the same non-PolyTerm class tie |
| Ordering.CompareAntisymmetric | functions/Comparator.java:26-46 | compare(f, g) == -compare(g, f) for all functions |
| Ordering.CompareTotalPreorder | functions/Comparator.java:17-46 | on ranked values "sorts no later than" is reflexive, total and transitive |
| Ordering.TiedCongruence | functions/Comparator.java:26-46 | on ranked values a tie is symmetric and transitive, and tied values compare alike with every third value |
| Ordering.UnrankedBreaksTransitivity | functions/Comparator.java:42-43 | with an unranked Log between them, x^2 ties Log and Log ties x^1, yet x^2 compares above x^1: the comparator is no preorder once unranked values appear |
| Addition.MakeAdd | functions/operations/Addition.java:18-22 | the operands are a permutation of the arguments; when all are ranked they are sorted and each tie class keeps its argument order |
| Addition.SortIsStableSort | functions/operations/Addition.java:20-21 | the sort permutes its input; on ranked inputs it is sorted and stable |
| Addition.StableSortIsUnique | functions/operations/Addition.java:20-21 | any sorted, stable rearrangement of ranked operands equals the model's sort, so the choice of stable algorithm does not matter |
| Addition.RenderSum | functions/operations/Addition.java:37-59 | the rendering loop, with its look-ahead at the next operand's text, builds exactly the sum's text |
| Addition.SumTextShape | functions/operations/Addition.java:38-58 | an empty sum renders "", a single operand renders bare, and more than one operand renders between "(" and ")" |
| Addition.JoinedFront | functions/operations/Addition.java:47-52 | between consecutive operands " + " is inserted iff the next text does not start with '-' |
| Addition.JoinedWithoutNegatives | functions/operations/Addition.java:47-52 | when no later operand is negative, the texts are joined with " + " |
| Addition.JoinedAllNegative | functions/operations/Addition.java:47-52 | when every later operand is negative, the texts are simply concatenated |
| ChainRule.Derivative | functions/Complex.java:153-166 | no node gives x^1; one node gives its derivative unwrapped; k >= 2 nodes give a left-nested product of exactly k factors, factor i being the chain [d_i] ++ nodes[i+1..] and the last d_{k-1} |
| ChainRule.UnnestLeftProduct | functions/Complex.java:162-166 | the product built by repeated `new Multiplication(m, next)` reads back as its factors in order |
| ChainRule.FactorSharesSuffix | functions/Complex.java:50-71 | factor i is a chain of 1 + (k - 1 - i) nodes: d_i followed by the original nodes after i, ending in the original innermost node |
| Calculus.DeriveEach | functions/operations/Addition.java:33 | one derivative per operand, in operand order |
| Calculus.ExpFixedPoint | functions/Exponential.java:12-14 | Exponential's derivative is itself, and so is its n-th derivative for every n |
| Calculus.LogDerivative | functions/Log.java:31-42 | base e gives x^-1; any other base gives the two-node chain (x^-1) o (x * ln x), the same for every such base |
| Calculus.AddDerivative | functions/operations/Addition.java:31-34 | the derivative of a sum is a sum of the operands' derivatives, one per operand, as a permutation; sorted and stable when they are ranked |
| Calculus.ChainIsChainRule | functions/Term.java:113-148 | a Complex and a Term differentiate by the same chain rule over their nodes, each building factors of its own kind |
| Calculus.ChainDerivative | functions/Complex.java:130-167 | no node gives x^1; one node gives its derivative unwrapped; k >= 2 give exactly k factors, factor i the same kind of chain [d_i] ++ nodes[i+1..], keeping the original inner nodes unchanged, and the last d_{k-1} |
| Logarithm.Default | functions/Log.java:9-11 | `new Log()` has base e |
| Logarithm.WithBase | functions/Log.java:13-15 | `new Log(b)` has base b |
| Logarithm.SetBase | functions/Log.java:17-23 | after `setBase(b)`, `getBase()` returns b; setting the current base changes nothing |
| Logarithm.Derivative | functions/Log.java:31-42 | x^-1 for base e; otherwise a Complex of two nodes, outer x^-1 and inner x * ln x, whatever the base |
| Logarithm.DerivativeIgnoresBase | functions/Log.java:37-41 | all bases other than e have the same derivative |
| Logarithm.Equals | functions/Log.java:45-61 | null is never equal; a Log is equal iff its base is equal; a Complex is equal iff it has one node and that node is a Log of the same base; nothing else is equal |
| Logarithm.JavaIntCast | functions/Log.java:70 | the `(int)` cast lands in the 32-bit range |
| Logarithm.IntegralTest | functions/Log.java:70 | `base == (int) base` holds exactly for integral bases within the 32-bit range |
| Logarithm.IntTextRoundTrip | functions/Log.java:70-72 | `Integer.toString` reads back as the same integer |
| Logarithm.TextCases | functions/Log.java:64-73 | base e renders "ln(x)"; an int base n renders "log" + n + "(x)", whose middle reads back as n |
| Render.RenderEach | functions/Complex.java:170-178 | the node texts exist iff every node renders, and then they are the nodes' texts in order |
| Render.ChainTextLaws | functions/Complex.java:170-183 | an empty chain throws; a one-node chain renders as its node; a longer chain renders as the outer text with every x replaced by the parenthesised inner chain's text |
| Render.SubstitutedSnoc | functions/Complex.java:174-177 | one more loop pass substitutes the next node's parenthesised text for every x |
| Render.SubstitutedIsNested | functions/Complex.java:172-178 | substituting outermost first equals substituting the composed inner text once |
| Render.ChainRendering | functions/Term.java:151-164 | a Complex and a Term over the same nodes render alike: the substituted message without its outer parentheses, or an exception |
| Render.ExpText | functions/Exponential.java:17-19 | Exponential renders "e^x" |
| Render.SingleNodeChainText | functions/Complex.java:170-183 | a one-node Complex or Term renders exactly as its sole function, exception included |
| Render.EmptyChainThrows | functions/Complex.java:180 | an empty Complex throws in `substring`, and so does any sum containing one and any Multiplication or Subtraction with one as an operand |
| Render.RecordRendering | functions/operations/Multiplication.java:8 | the generated record `toString` of a Multiplication or Subtraction succeeds iff both operands' `toString` do, and then begins with "Multiplication[fx=" and the first operand's text |
| Render.ChainComposeText | functions/Complex.java:174-177 | the text of [g] ++ rest is g's text with the text of rest substituted for x |
| Render.SumRendering | functions/operations/Addition.java:37-59 | a sum of renderable operands renders by the Addition text rule |
| Linked.EmptyOn | functions/Term.java:68-71 | a new Term is valid with no nodes |
| Linked.AppendStart | functions/Term.java:77-87 | the new node is the head and points at the old head; on an empty Term it is also the tail |
| Linked.AppendEnd | functions/Term.java:93-105 | the new node is the tail; the old tail now points at it; no other node changes; on an empty Term it is also the head |
| Linked.AppendStartValid | functions/Term.java:77-87 | `append_start` keeps the Term valid with functions [f] ++ old |
| Linked.AppendEndValid | functions/Term.java:93-105 | `append_end` keeps the Term valid with functions old ++ [f] |
| Linked.SpineUnique | functions/Term.java:8-12 | head and links determine the node sequence: a Term has one spine |
| Linked.PathDistinct | functions/Term.java:8-12 | a chain that ends in a null `next` never visits a node twice |
| Linked.WalkToTail | functions/Term.java:58-62 | the walk ends at the last node, after one hop per node beyond the start, having passed the functions of nodes[j..] in order |
| Linked.ConnectAsDerivative | functions/Term.java:47-65 | `connectAsDerivative(d)` on node j gives a valid Term [d] ++ nodes[j..] whose tail is the original tail |
| Linked.Substitute | functions/Term.java:153-158 | the rendering loop yields the substituted message, or an exception when a node's text throws |
| Linked.Text | functions/Term.java:151-164 | `toString` of a Term is the rendering of its function sequence |
| Linked.FactorAt | functions/Term.java:119-134 | one loop pass yields the node's chain-rule factor, and the chain's own nodes are unchanged |
| Linked.Product | functions/Term.java:143-145 | the multiplication loop builds the left-nested product of the factors in order |
| Linked.Factors | functions/Term.java:118-134 | the walk yields one chain-rule factor per node, outer to inner |
| Linked.Differentiate | functions/Term.java:113-148 | `differentiate` walking the links equals the chain rule on the Term's functions: x^1, the lone derivative, or a k-factor product with Term factors |
| Linked.StepsAreFactors | functions/Term.java:136-147 | the factors computed node by node are the chain-rule factors, and combining them is the derivative |
| ComplexChain.New | functions/Complex.java:74-78 | a new Complex is valid, empty and of size 0 |
| ComplexChain.AppendStart | functions/Complex.java:84-95 | size goes up by one and the new node is the head, pointing at the old head |
| ComplexChain.AppendEnd | functions/Complex.java:101-114 | size goes up by one and the new node is the tail |
| ComplexChain.AppendStartValid | functions/Complex.java:84-95 | `append_start` keeps size equal to the node count and makes the nodes [f] ++ old |
| ComplexChain.AppendEndValid | functions/Complex.java:101-114 | `append_end` keeps size equal to the node count and makes the nodes old ++ [f], in both branches |
| ComplexChain.SizeCountsNodes | functions/Complex.java:120-122 | `size()` is the number of nodes reachable from the head; 0 iff there is no head; the tail is the last of them |
| ComplexChain.ConnectAsDerivative | functions/Complex.java:50-71 | on node j of a k-node chain: a valid Complex [d] ++ nodes[j..k-1] with size 1 + (k - j), counted by walking, and tail the original tail |
| ComplexChain.Differentiate | functions/Complex.java:130-167 | no node gives x^1; one node gives its derivative unwrapped; k >= 2 give exactly k factors, factor i the Complex [d_i] ++ nodes[i+1..] and the last d_{k-1} |
| ComplexChain.Text | functions/Complex.java:170-183 | `toString` renders the chain's functions; an empty Complex throws; size 1 renders as its sole function |
| ComplexChain.FunctionAt | functions/Log.java:57 | `getFunctionAt(i)` is the i-th function from the head when i < size, and nothing otherwise |
| ComplexChain.LogEqualsComplex | functions/Log.java:55-60 | `Log.equals(complex)` holds iff the Complex has size 1 and its function is a Log of the same base |
| ComplexChain.LogDerivativeBuilt | functions/Log.java:37-41 | `appendStart(x^-1)` then `appendEnd(x * ln x)` on a new Complex gives a valid size-2 chain equal to Log's derivative |
| TermList.New | functions/TermList.java:30-33 | a new TermList is valid and empty |
| TermList.AppendStart | functions/TermList.java:39-51 | empty list: the new node is head and tail with no prev or next; otherwise it is the head, its next is the old head, the old head's prev is the new node, and the tail and all other nodes are unchanged |
| TermList.ForwardAppendStart | functions/TermList.java:39-51 | read forwards, the doubly linked `append_start` is the singly linked one of Term |
| TermList.BackLinkedAppendStart | functions/TermList.java:39-51 | after `append_start` the prev links still run backwards along the chain, the new head having none |
| TermList.AppendStartValid | functions/TermList.java:39-51 | `append_start` keeps prev and next consistent and makes the functions [f] ++ old |
| TermList.NextPrevAgree | functions/TermList.java:13-27 | in a valid list, a's next is b exactly when b's prev is a |
| Evaluation.Compute | functions/Complex.java:125-127 | an empty chain throws; a one-node chain applies its function to x |
| Evaluation.ComputeComposes | functions/Complex.java:37-39 | a chain computes as its outer part applied to the value of its inner part |
| Evaluation.InnermostFirst | functions/Complex.java:37-39 | the innermost function sees x first; each outer node gets the value of the nodes inside it |

## Left out

- Numeric `compute` of PolyTerm, Exponential, Log and Addition. These are floating-point `Math.pow`, `Math.exp` and `Math.log`. The parameter `apply` stands for them, and only the evaluation order of chains is modelled.
- Derivatives of PolyTerm, Multiplication and Subtraction. In the source they are unfinished (a TODO returning null, or no method at all). The parameter `leaf` supplies them.
  - A null derivative would make `List.of` in Addition's derivative throw. The model does not produce nulls.
- `Addition.simplify`: a TODO that returns null.
- Floating point in general: bases, scalars and powers are reals.
  - There is no NaN and no -0.0.
  - Base e is the constant 2.718281828459045.
  - `Double.compare` is the order on reals.
- `Double.toString` for a non-integral Log base is the parameter `realText`. The following `replaceAll("0*?", "")` matches only empty strings and changes nothing.
- The generated record `toString` of PolyTerm is the parameter `leafText`. Multiplication and Subtraction render in the `Name[fx=…, gx=…]` form that OpenJDK generates for records, and throw when an operand throws; other JDKs may format records differently.
- Sorting for unranked operands. `List.sort` is TimSort; the model uses a stable insertion sort.
  - On ranked operands every stable sort gives the same list (Addition.StableSortIsUnique).
  - With unranked operands the comparator is not a preorder (Ordering.UnrankedBreaksTransitivity). There, TimSort's order, or its "Comparison method violates its general contract" exception, is not modelled.
- Aliasing after `connectAsDerivative`. A factor shares inner nodes with its chain. Factors are read back into immutable `Function` values at once, so a later `append_end` through a factor, which would rewrite the shared tail, is not modelled.
- Linked.Differentiate: the Complex factors carry their `size` only in ComplexChain.ConnectAsDerivative. The `Function` value of a factor holds just its nodes.
- ComplexChain.ConnectAsDerivative: `size` is an unbounded integer. The Java `int` overflow after 2^31 nodes is not modelled.
- Object identity. Reference equality is value equality: in the comparator's `f == g` test, in `Log.equals`'s `this == obj` test, and in Exponential returning `this`. On reals every branch gives the same answer either way.
- `getFunctionAt`, `appendStart` and `appendEnd`, which Log calls, are taken to be indexing, `append_start` and `append_end` of Complex. Complex.java as given does not define them under those names.
- Behaviour the code does not have, which the model therefore does not have either:
  - Addition does not merge PolyTerms of equal power: its constructor only sorts, and `simplify` is a TODO.
  - Only `Log.equals` treats a one-node Complex as equal to its function. Complex has no `equals`, so the relation is not symmetric.
  - Complex's own comment (functions/Complex.java:170) says an empty chain renders "x", but `substring(1, 0)` throws (Render.EmptyChainThrows).
- Logarithm.SetBase: Java's `Log` is mutable and sums and chains hold it by reference, so `setBase` on a Log that is already an operand or a node changes that container's `toString` and `differentiate`. The model's `SetBase` returns a new value and containers keep the old base; in-place mutation through shared references is not modelled.
- Interfaces (`Function`, `Differentiable`, `Simplifiable`) are the datatype itself. The top-level PolyTerm record and package layout differences are not modelled.
