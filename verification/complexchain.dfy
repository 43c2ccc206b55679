/**
  `Complex` (functions/Complex.java): the linked node chain of module
  `Linked` plus a `size` field that the mutators keep in step with the
  number of nodes.
 */
module ComplexChain {
  import opened Expr
  import Linked
  import Calculus
  import ChainRule
  import Logarithm
  import Render

  datatype Complex = Complex(links: Linked.Links, size: int)

  /** `size` is the number of nodes reachable from `head`, and `tail` is the
      last of them. */
  ghost predicate Valid(c: Complex, spine: seq<nat>)
  {
    Linked.Valid(c.links, spine) && c.size == |spine|
  }

  /** The functions of a valid Complex, outermost first. */
  ghost function Nodes(c: Complex, spine: seq<nat>): seq<Function>
    requires Valid(c, spine)
  {
    Linked.Funcs(c.links.store, spine)
  }

  /** `new Complex()`, its nodes to be allocated after those of `store`. */
  function New(store: seq<Linked.Node>): (c: Complex)
    ensures Valid(c, []) && c.links.store == store && c.size == 0
  {
    Complex(Linked.EmptyOn(store), 0)
  }

  /** `append_start`: `size` goes up by one and the new node is the head. */
  function AppendStart(c: Complex, f: Function): (r: Complex)
    ensures r.size == c.size + 1
    ensures |r.links.store| == |c.links.store| + 1
    ensures r.links.head == Some(|c.links.store|) && r.links.store[|c.links.store|] == Linked.Node(f, c.links.head)
  {
    Complex(Linked.AppendStart(c.links, f), c.size + 1)
  }

  /** `append_end`: `size` goes up by one and the new node is the tail. */
  function AppendEnd(c: Complex, f: Function): (r: Complex)
    requires Linked.Pointed(c.links)
    ensures r.size == c.size + 1
    ensures |r.links.store| == |c.links.store| + 1
    ensures r.links.tail == Some(|c.links.store|) && r.links.store[|c.links.store|] == Linked.Node(f, None)
  {
    Complex(Linked.AppendEnd(c.links, f), c.size + 1)
  }

  /** `append_start` keeps the Complex valid, makes its nodes [f] ++ old and
      its size one more, whether or not it was empty. */
  lemma AppendStartValid(c: Complex, spine: seq<nat>, f: Function)
    requires Valid(c, spine)
    ensures var r := AppendStart(c, f);
      && Valid(r, [|c.links.store|] + spine)
      && Nodes(r, [|c.links.store|] + spine) == [f] + Nodes(c, spine)
      && r.size == c.size + 1
  {
    Linked.AppendStartValid(c.links, spine, f);
  }

  /** `append_end` keeps the Complex valid, makes its nodes old ++ [f] and its
      size one more, in both of its branches. */
  lemma AppendEndValid(c: Complex, spine: seq<nat>, f: Function)
    requires Valid(c, spine)
    ensures Linked.Pointed(c.links)
    ensures var r := AppendEnd(c, f);
      && Valid(r, spine + [|c.links.store|])
      && Nodes(r, spine + [|c.links.store|]) == Nodes(c, spine) + [f]
      && r.size == c.size + 1
  {
    Linked.AppendEndValid(c.links, spine, f);
  }

  /** `size()` agrees with the nodes: no node, head and tail absent; one or
      more, the tail is the last node reached from the head. */
  lemma SizeCountsNodes(c: Complex, spine: seq<nat>)
    requires Valid(c, spine)
    ensures c.size == |Nodes(c, spine)|
    ensures c.size == 0 <==> c.links.head.None?
    ensures c.size > 0 ==> c.links.tail == Some(spine[c.size - 1])
  {
  }

  /** `FuncNode.connectAsDerivative(d)` on node `spine[pos]` of a k-node chain:
      a Complex [d] ++ (nodes pos .. k-1) of size 1 + (k - pos), counted by
      walking to the end, whose tail is the original tail. */
  method ConnectAsDerivative(store: seq<Linked.Node>, ghost spine: seq<nat>, ghost pos: nat, j: nat, d: Function)
    returns (c: Complex)
    requires Linked.IsPath(store, spine) && pos < |spine| && spine[pos] == j
    ensures c.links.store == store + [Linked.Node(d, Some(j))]
    ensures Valid(c, [|store|] + spine[pos..])
    ensures Nodes(c, [|store|] + spine[pos..]) == [d] + Linked.Funcs(store, spine)[pos..]
    ensures c.size == 1 + (|spine| - pos)
    ensures c.links.tail == Some(spine[|spine| - 1])
  {
    var l, hops, fs := Linked.Graft(store, spine, pos, j, d);
    c := Complex(l, 2 + hops);
  }

  /** `differentiate`: x for no node, the lone node's derivative unwrapped
      for one, and for k >= 2 nodes a left-nested product of exactly k
      factors, factor i being the Complex [d_i] ++ nodes[i+1..] and the last
      one d_{k-1}. */
  method Differentiate(c: Complex, ghost spine: seq<nat>, leaf: Function -> Function) returns (r: Function)
    requires Valid(c, spine)
    ensures r == Calculus.Derive(Chain(Nodes(c, spine)), leaf)
    ensures c.size == 0 ==> r == Poly(1.0, 1.0)
    ensures c.size == 1 ==> r == Calculus.Derive(Nodes(c, spine)[0], leaf)
    ensures c.size >= 2 ==>
      var ns := Nodes(c, spine);
      var u := ChainRule.Unnest(r, c.size);
      && ChainRule.Unnest(r, c.size + 1) == None
      && u.Some? && |u.value| == c.size
      && (forall i :: 0 <= i < c.size - 1 ==> u.value[i] == Chain([Calculus.Derive(ns[i], leaf)] + ns[i + 1..]))
      && u.value[c.size - 1] == Calculus.Derive(ns[c.size - 1], leaf)
  {
    r := Linked.Differentiate(c.links, spine, ComplexShape, leaf);
    Calculus.ChainDerivative(Nodes(c, spine), ComplexShape, leaf);
  }

  /** `toString` of a Complex: the rendering of its functions. */
  method Text(c: Complex, ghost spine: seq<nat>, leafText: Function -> string, realText: real -> string)
    returns (r: Option<string>)
    requires Valid(c, spine)
    ensures r == Render.Render(Chain(Nodes(c, spine)), leafText, realText)
    ensures c.size == 0 ==> r == None
    ensures c.size == 1 ==> r == Render.Render(Nodes(c, spine)[0], leafText, realText)
  {
    r := Linked.Text(c.links, spine, ComplexShape, leafText, realText);
    Render.ChainTextLaws("", []);
    if c.size == 1 {
      var ns := Nodes(c, spine);
      assert ns == [ns[0]];
      Render.SingleNodeChainText(ns[0], leafText, realText);
    }
  }

  /** `getFunctionAt(i)`: the function of the i-th node from the head. */
  method FunctionAt(c: Complex, ghost spine: seq<nat>, i: nat) returns (f: Option<Function>)
    requires Valid(c, spine)
    ensures i < c.size ==> f == Some(Nodes(c, spine)[i])
    ensures i >= c.size ==> f == None
  {
    var p := c.links.head;
    var k := 0;
    while p.Some? && k < i
      invariant 0 <= k <= i && k <= |spine|
      invariant p == (if k < |spine| then Some(spine[k]) else None)
      decreases |spine| - k
    {
      Linked.NextOnPath(c.links.store, spine, k);
      p := c.links.store[p.value].next;
      k := k + 1;
    }
    if p.Some? {
      f := Some(c.links.store[p.value].func);
    } else {
      f := None;
    }
  }

  /** `Log.equals(complex)`: true exactly when the Complex has size 1 and its
      function, read with `getFunctionAt(0)`, is a Log of the same base. */
  lemma LogEqualsComplex(base: real, c: Complex, spine: seq<nat>)
    requires Valid(c, spine)
    ensures Logarithm.Equals(base, Some(Chain(Nodes(c, spine)))) <==>
      c.size == 1 && Nodes(c, spine)[0] == Log(base)
  {
  }

  /** Log's derivative for a base other than e is the Complex built by
      `appendStart(x^-1)` then `appendEnd(x * ln x)` on a new Complex: a valid
      chain of size 2 whose functions are exactly that derivative's. */
  lemma LogDerivativeBuilt(b: real, store: seq<Linked.Node>)
    requires b != E
    ensures var c := AppendEnd(AppendStart(New(store), Poly(1.0, -1.0)), Mul(Poly(1.0, 1.0), Logarithm.Default()));
      var spine := [|store|, |store| + 1];
      && Valid(c, spine)
      && c.size == 2
      && Chain(Nodes(c, spine)) == Logarithm.Derivative(b)
  {
    var c0 := New(store);
    var c1 := AppendStart(c0, Poly(1.0, -1.0));
    AppendStartValid(c0, [], Poly(1.0, -1.0));
    assert [|store|] + [] == [|store|];
    AppendEndValid(c1, [|store|], Mul(Poly(1.0, 1.0), Logarithm.Default()));
    assert |c1.links.store| == |store| + 1;
    assert [|store|] + [|store| + 1] == [|store|, |store| + 1];
  }
}
