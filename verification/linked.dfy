/**
  The singly linked node chain behind `Term` (functions/Term.java) and
  `Complex` (functions/Complex.java), as a node store addressed by index.

  A node holds a function and the index of the next (inner) node. A chain is
  a head (outermost) and a tail (innermost) index into the store. The ghost
  `spine` lists the indices met by following `next` from the head; the
  function sequence of a chain is read off its spine. Nodes are only ever
  added to the store, and only `append_end` rewrites an existing node (the
  old tail), so a chain built by `connectAsDerivative` can share the inner
  nodes of the chain it grafts onto.
 */
module Linked {
  import opened Expr
  import Calculus
  import ChainRule
  import Render

  datatype Node = Node(func: Function, next: Option<nat>)

  /** A Term: head and tail indices into a node store. */
  datatype Links = Links(store: seq<Node>, head: Option<nat>, tail: Option<nat>)

  /** `spine` is a null-terminated path of nodes in `store`: each node's
      `next` is the following node and the last one's is null. Such a path
      never meets a node twice (`PathDistinct`). */
  ghost predicate IsPath(store: seq<Node>, spine: seq<nat>)
  {
    && (forall i :: 0 <= i < |spine| ==> spine[i] < |store|)
    && (forall i :: 0 <= i < |spine| - 1 ==> store[spine[i]].next == Some(spine[i + 1]))
    && (|spine| > 0 ==> store[spine[|spine| - 1]].next == None)
  }

  /** The chain `l` consists exactly of the nodes `spine`, head first and tail
      last. */
  ghost predicate Valid(l: Links, spine: seq<nat>)
  {
    && IsPath(l.store, spine)
    && (spine == [] ==> l.head == None && l.tail == None)
    && (spine != [] ==> l.head == Some(spine[0]) && l.tail == Some(spine[|spine| - 1]))
  }

  /** Head and tail, when present, are nodes of the store. */
  predicate Pointed(l: Links)
  {
    && (l.head.Some? ==> l.head.value < |l.store|)
    && (l.tail.Some? ==> l.tail.value < |l.store|)
  }

  /** The functions along a path, outermost first. */
  function Funcs(store: seq<Node>, spine: seq<nat>): (fs: seq<Function>)
    requires forall i :: 0 <= i < |spine| ==> spine[i] < |store|
    ensures |fs| == |spine|
    ensures forall i :: 0 <= i < |spine| ==> fs[i] == store[spine[i]].func
  {
    seq(|spine|, i requires 0 <= i < |spine| => store[spine[i]].func)
  }

  /** `new Term()` over a given store. */
  function EmptyOn(store: seq<Node>): (l: Links)
    ensures Valid(l, [])
  {
    Links(store, None, None)
  }

  /** `append_start`: a new head node whose `next` is the old head; on an
      empty chain the new node is also the tail. */
  function AppendStart(l: Links, f: Function): (r: Links)
    ensures l.store <= r.store && |r.store| == |l.store| + 1
    ensures r.head == Some(|l.store|)
    ensures r.store[|l.store|] == Node(f, l.head)
    ensures l.head.None? ==> r.tail == r.head
    ensures l.head.Some? ==> r.tail == l.tail
  {
    var n := |l.store|;
    if l.head.None? then Links(l.store + [Node(f, None)], Some(n), Some(n))
    else Links(l.store + [Node(f, l.head)], Some(n), l.tail)
  }

  /** `append_end`: a new tail node, linked from the old tail; on an empty
      chain the new node is also the head. */
  function AppendEnd(l: Links, f: Function): (r: Links)
    requires Pointed(l)
    ensures |r.store| == |l.store| + 1
    ensures r.tail == Some(|l.store|)
    ensures r.store[|l.store|] == Node(f, None)
    ensures l.tail.None? ==> r.head == r.tail
    ensures l.tail.Some? ==> r.head == l.head && r.store[l.tail.value] == l.store[l.tail.value].(next := Some(|l.store|))
    ensures forall i :: 0 <= i < |l.store| && Some(i) != l.tail ==> r.store[i] == l.store[i]
  {
    var n := |l.store|;
    if l.tail.None? then Links(l.store + [Node(f, None)], Some(n), Some(n))
    else
      var t := l.tail.value;
      Links(l.store[t := l.store[t].(next := Some(n))] + [Node(f, None)], l.head, Some(n))
  }

  // ---------------------------------------------------------------------
  // Structural lemmas
  // ---------------------------------------------------------------------

  /** Adding nodes to the store leaves every existing path and its functions
      as they were. */
  lemma PathExtend(store: seq<Node>, more: seq<Node>, spine: seq<nat>)
    requires IsPath(store, spine)
    ensures IsPath(store + more, spine)
    ensures Funcs(store + more, spine) == Funcs(store, spine)
  {
  }

  lemma PathSuffix(store: seq<Node>, spine: seq<nat>, k: nat)
    requires IsPath(store, spine) && k <= |spine|
    ensures IsPath(store, spine[k..])
    ensures Funcs(store, spine[k..]) == Funcs(store, spine)[k..]
  {
  }

  /** A chain's nodes are determined by its head: `Valid` admits one spine. */
  lemma {:induction false} SpineUnique(l: Links, s1: seq<nat>, s2: seq<nat>)
    requires Valid(l, s1) && Valid(l, s2)
    ensures s1 == s2
  {
    if s1 != [] {
      PathsFromSameNode(l.store, s1, s2);
    }
  }

  lemma {:induction false} PathsFromSameNode(store: seq<Node>, s1: seq<nat>, s2: seq<nat>)
    requires IsPath(store, s1) && IsPath(store, s2)
    requires |s1| > 0 && |s2| > 0 && s1[0] == s2[0]
    ensures s1 == s2
    decreases |s1|
  {
    NextOnPath(store, s1, 0);
    NextOnPath(store, s2, 0);
    if |s1| > 1 {
      PathSuffix(store, s1, 1);
      PathSuffix(store, s2, 1);
      PathsFromSameNode(store, s1[1..], s2[1..]);
      assert s1 == [s1[0]] + s1[1..] && s2 == [s2[0]] + s2[1..];
    }
  }

  /** A null-terminated path is acyclic: were node i and a later node j the
      same, their successors would be too, up to the last node, whose `next`
      is null while node i + (|spine| - 1 - j)'s is not. */
  lemma {:induction false} PathDistinct(store: seq<Node>, spine: seq<nat>, i: nat, j: nat)
    requires IsPath(store, spine) && i < j < |spine|
    ensures spine[i] != spine[j]
    decreases |spine| - j
  {
    NextOnPath(store, spine, i);
    NextOnPath(store, spine, j);
    if j < |spine| - 1 {
      PathDistinct(store, spine, i + 1, j + 1);
    }
  }

  /** The `next` of the k-th node of a path. */
  lemma NextOnPath(store: seq<Node>, spine: seq<nat>, k: nat)
    requires IsPath(store, spine) && k < |spine|
    ensures store[spine[k]].next == if k < |spine| - 1 then Some(spine[k + 1]) else None
  {
  }

  /** A new node for `d` pointing at `spine[pos]` heads the path
      [new] ++ spine[pos..]. */
  lemma GraftPath(store: seq<Node>, spine: seq<nat>, pos: nat, d: Function)
    requires IsPath(store, spine) && pos < |spine|
    ensures IsPath(store + [Node(d, Some(spine[pos]))], [|store|] + spine[pos..])
    ensures Funcs(store + [Node(d, Some(spine[pos]))], [|store|] + spine[pos..]) == [d] + Funcs(store, spine)[pos..]
  {
    var st := store + [Node(d, Some(spine[pos]))];
    var tail := spine[pos..];
    PathSuffix(store, spine, pos);
    PathExtend(store, [Node(d, Some(spine[pos]))], tail);
    assert st[|store|].next == Some(tail[0]);
    ConsPath(st, |store|, tail);
    FuncsCons(st, |store|, tail);
  }

  /** A node outside a non-empty path that points at the path's first node
      heads a longer path. */
  lemma ConsPath(store: seq<Node>, n: nat, tail: seq<nat>)
    requires IsPath(store, tail) && tail != []
    requires n < |store| && store[n].next == Some(tail[0])
    requires forall i :: 0 <= i < |tail| ==> tail[i] < n
    ensures IsPath(store, [n] + tail)
  {
    var s := [n] + tail;
    forall i | 0 <= i < |s| - 1
      ensures store[s[i]].next == Some(s[i + 1])
    {
      if i > 0 {
        NextOnPath(store, tail, i - 1);
      }
    }
    NextOnPath(store, tail, |tail| - 1);
  }

  lemma FuncsCons(store: seq<Node>, n: nat, spine: seq<nat>)
    requires n < |store| && forall i :: 0 <= i < |spine| ==> spine[i] < |store|
    ensures Funcs(store, [n] + spine) == [store[n].func] + Funcs(store, spine)
  {
  }

  /** `append_start` makes the function sequence [f] ++ old. */
  lemma AppendStartValid(l: Links, spine: seq<nat>, f: Function)
    requires Valid(l, spine)
    ensures Valid(AppendStart(l, f), [|l.store|] + spine)
    ensures Funcs(AppendStart(l, f).store, [|l.store|] + spine) == [f] + Funcs(l.store, spine)
  {
    var r := AppendStart(l, f);
    PathExtend(l.store, [r.store[|l.store|]], spine);
    assert r.store == l.store + [r.store[|l.store|]];
  }

  /** `append_end` makes the function sequence old ++ [f], with the new node
      as tail. */
  lemma AppendEndValid(l: Links, spine: seq<nat>, f: Function)
    requires Valid(l, spine)
    ensures Pointed(l)
    ensures Valid(AppendEnd(l, f), spine + [|l.store|])
    ensures Funcs(AppendEnd(l, f).store, spine + [|l.store|]) == Funcs(l.store, spine) + [f]
  {
    var r := AppendEnd(l, f);
    var s := spine + [|l.store|];
    var n := |l.store|;
    if spine != [] {
      forall i | 0 <= i < |s| - 1
        ensures r.store[s[i]].next == Some(s[i + 1])
      {
        if i < |spine| - 1 {
          PathDistinct(l.store, spine, i, |spine| - 1);
        }
      }
    }
  }

  // ---------------------------------------------------------------------
  // connectAsDerivative
  // ---------------------------------------------------------------------

  /** Follows `next` from node `spine[pos]` to the end of the path, counting
      the hops and collecting the functions passed on the way. */
  method WalkToTail(store: seq<Node>, ghost spine: seq<nat>, ghost pos: nat, j: nat)
    returns (t: nat, hops: nat, fs: seq<Function>)
    requires IsPath(store, spine) && pos < |spine| && spine[pos] == j
    ensures t == spine[|spine| - 1]
    ensures hops == |spine| - 1 - pos
    ensures fs == Funcs(store, spine)[pos..]
  {
    t, hops, fs := j, 0, [store[j].func];
    ghost var k := pos;
    NextOnPath(store, spine, k);
    while store[t].next.Some?
      invariant pos <= k < |spine| && t == spine[k] && hops == k - pos
      invariant store[t].next == if k < |spine| - 1 then Some(spine[k + 1]) else None
      invariant fs == Funcs(store, spine)[pos..k + 1]
      decreases |spine| - k
    {
      NextOnPath(store, spine, k + 1);
      t := store[t].next.value;
      fs := fs + [store[t].func];
      hops := hops + 1;
      k := k + 1;
    }
    assert Funcs(store, spine)[pos..k + 1] == Funcs(store, spine)[pos..];
  }

  /** The shared body of both `connectAsDerivative`s: a fresh head node for
      `d` (via `append_start` on a new, empty chain) whose `next` is the
      existing node `spine[pos]`, and a tail found by walking to the end. */
  method Graft(store: seq<Node>, ghost spine: seq<nat>, ghost pos: nat, j: nat, d: Function)
    returns (l: Links, hops: nat, fs: seq<Function>)
    requires IsPath(store, spine) && pos < |spine| && spine[pos] == j
    ensures l.store == store + [Node(d, Some(j))]
    ensures Valid(l, [|store|] + spine[pos..])
    ensures Funcs(l.store, [|store|] + spine[pos..]) == [d] + Funcs(store, spine)[pos..]
    ensures l.tail == Some(spine[|spine| - 1])
    ensures hops == |spine| - 1 - pos
    ensures fs == [d] + Funcs(store, spine)[pos..]
  {
    var started := AppendStart(EmptyOn(store), d);
    var h := started.head.value;
    var linked := started.store[h := started.store[h].(next := Some(j))];
    assert linked == store + [Node(d, Some(j))];
    GraftPath(store, spine, pos, d);
    PathExtend(store, [Node(d, Some(j))], spine);
    var t, rest;
    t, hops, rest := WalkToTail(linked, spine, pos, j);
    l := Links(linked, started.head, Some(t));
    fs := [d] + rest;
  }

  /** `TermNode.connectAsDerivative(d)` on node `spine[pos]`: a Term
      [d] ++ (nodes from `spine[pos]` on) whose tail is the original tail. */
  method ConnectAsDerivative(store: seq<Node>, ghost spine: seq<nat>, ghost pos: nat, j: nat, d: Function) returns (l: Links)
    requires IsPath(store, spine) && pos < |spine| && spine[pos] == j
    ensures l.store == store + [Node(d, Some(j))]
    ensures Valid(l, [|store|] + spine[pos..])
    ensures Funcs(l.store, [|store|] + spine[pos..]) == [d] + Funcs(store, spine)[pos..]
    ensures l.tail == Some(spine[|spine| - 1])
  {
    var hops, fs;
    l, hops, fs := Graft(store, spine, pos, j, d);
  }

  // ---------------------------------------------------------------------
  // toString
  // ---------------------------------------------------------------------

  /** The rendering loop of `toString`: from "x", each node from the head on
      replaces every 'x' of the message by its own text in parentheses. A
      node whose text throws ends it with `None`. */
  method Substitute(l: Links, ghost spine: seq<nat>, leafText: Function -> string, realText: real -> string)
    returns (message: Option<string>)
    requires Valid(l, spine)
    ensures var each := Render.RenderEach(Funcs(l.store, spine), leafText, realText);
      && (message.Some? <==> each.Some?)
      && (each.Some? ==> message.value == Render.Substituted("x", each.value))
  {
    ghost var nodes := Funcs(l.store, spine);
    var msg := "x";
    var p := l.head;
    ghost var k := 0;
    ghost var texts: seq<string> := [];
    while p.Some?
      invariant 0 <= k <= |spine|
      invariant p == (if k < |spine| then Some(spine[k]) else None)
      invariant |texts| == k
      invariant forall i :: 0 <= i < k ==> Render.Render(nodes[i], leafText, realText) == Some(texts[i])
      invariant msg == Render.Substituted("x", texts)
      decreases |spine| - k
    {
      NextOnPath(l.store, spine, k);
      var node := l.store[p.value];
      var t := Render.Render(node.func, leafText, realText);
      if t.None? {
        return None;
      }
      Render.SubstitutedSnoc("x", texts, t.value);
      msg := Render.Replace(msg, Render.Parens(t.value));
      texts := texts + [t.value];
      p := node.next;
      k := k + 1;
    }
    ghost var each := Render.RenderEach(nodes, leafText, realText);
    assert each.value == texts;
    message := Some(msg);
  }

  /** `toString` on a linked chain: the substituted message with its outer
      parentheses cut off; an empty chain throws. The result is the rendering
      of the chain's function sequence. */
  method Text(l: Links, ghost spine: seq<nat>, ghost shape: Shape, leafText: Function -> string, realText: real -> string)
    returns (r: Option<string>)
    requires Valid(l, spine)
    ensures r == Render.Render(Wrap(shape, Funcs(l.store, spine)), leafText, realText)
  {
    var message := Substitute(l, spine, leafText, realText);
    Render.ChainRendering(Funcs(l.store, spine), shape, leafText, realText);
    if message.None? {
      r := None;
    } else {
      r := Render.StripOuter(message.value);
    }
  }

  // ---------------------------------------------------------------------
  // differentiate
  // ---------------------------------------------------------------------

  /** One pass of the chain-rule loop at node `spine[k]`, whose derivative
      is `d`: `d` grafted onto the rest of the chain (a new chain of
      1 + (nodes after k) nodes), or `d` alone at the tail. */
  method FactorAt(store: seq<Node>, ghost spine: seq<nat>, ghost k: nat, p: nat, d: Function, shape: Shape)
    returns (f: Function, next: Option<nat>, store': seq<Node>)
    requires IsPath(store, spine) && k < |spine| && spine[k] == p
    ensures store <= store' && IsPath(store', spine) && Funcs(store', spine) == Funcs(store, spine)
    ensures next == if k < |spine| - 1 then Some(spine[k + 1]) else None
    ensures f == if k < |spine| - 1 then Wrap(shape, [d] + Funcs(store, spine)[k + 1..]) else d
  {
    NextOnPath(store, spine, k);
    next := store[p].next;
    if next.Some? {
      var c, hops, inner := Graft(store, spine, k + 1, next.value, d);
      f := Wrap(shape, inner);
      PathExtend(store, [Node(d, next)], spine);
      store' := c.store;
    } else {
      f := d;
      store' := store;
    }
  }

  /** The product loop: `m = m.multiply(factor)` over the factors in order,
      starting from the first two. */
  method Product(factors: seq<Function>) returns (m: Function)
    requires |factors| >= 2
    ensures m == ChainRule.LeftProduct(factors)
    ensures ChainRule.Unnest(m, |factors|) == Some(factors)
  {
    m := Mul(factors[0], factors[1]);
    var q := 2;
    while q < |factors|
      invariant 2 <= q <= |factors|
      invariant m == ChainRule.LeftProduct(factors[..q])
    {
      assert factors[..q + 1][..q] == factors[..q];
      m := Mul(m, factors[q]);
      q := q + 1;
    }
    assert factors[..q] == factors;
    ChainRule.UnnestLeftProduct(factors);
  }

  /** The chain-rule loop of `differentiate`, walking the linked nodes from
      the head: one factor per node. */
  method Factors(l: Links, ghost spine: seq<nat>, shape: Shape, leaf: Function -> Function) returns (factors: seq<Function>)
    requires Valid(l, spine)
    ensures |factors| == |spine|
    ensures forall i :: 0 <= i < |spine| ==> factors[i] == Step(Funcs(l.store, spine), i, shape, leaf)
  {
    ghost var nodes := Funcs(l.store, spine);
    factors := [];
    var store := l.store;
    var p := l.head;
    ghost var k := 0;
    while p.Some?
      invariant 0 <= k <= |spine|
      invariant p == (if k < |spine| then Some(spine[k]) else None)
      invariant IsPath(store, spine) && Funcs(store, spine) == nodes
      invariant |factors| == k
      invariant forall i :: 0 <= i < k ==> factors[i] == Step(nodes, i, shape, leaf)
      decreases |spine| - k
    {
      var d := Calculus.Derive(store[p.value].func, leaf);
      var f;
      f, p, store := FactorAt(store, spine, k, p.value, d, shape);
      factors := factors + [f];
      k := k + 1;
    }
  }

  /** `differentiate` on a linked chain: its factors, then no factor, one
      factor, or their left-nested product. The result is the derivative of
      the chain's function sequence. */
  method Differentiate(l: Links, ghost spine: seq<nat>, shape: Shape, leaf: Function -> Function) returns (r: Function)
    requires Valid(l, spine)
    ensures r == Calculus.Derive(Wrap(shape, Funcs(l.store, spine)), leaf)
  {
    var factors := Factors(l, spine, shape, leaf);
    ghost var nodes := Funcs(l.store, spine);
    StepsAreFactors(nodes, factors, shape, leaf);
    Calculus.ChainIsChainRule(nodes, shape, leaf);
    if |factors| == 0 {
      r := Poly(1.0, 1.0);
    } else if |factors| == 1 {
      r := factors[0];
    } else {
      r := Product(factors);
    }
  }

  /** Factors computed one `Step` at a time are the chain-rule factors, and
      combining them gives the chain rule's result. */
  lemma StepsAreFactors(nodes: seq<Function>, factors: seq<Function>, shape: Shape, leaf: Function -> Function)
    requires |factors| == |nodes|
    requires forall i :: 0 <= i < |nodes| ==> factors[i] == Step(nodes, i, shape, leaf)
    ensures var ds := Calculus.DeriveEach(nodes, leaf);
      && factors == ChainRule.Factors(nodes, ds, shape)
      && (|nodes| == 1 ==> ChainRule.Derivative(nodes, ds, shape) == factors[0])
      && (|nodes| >= 2 ==> ChainRule.Derivative(nodes, ds, shape) == ChainRule.LeftProduct(factors))
  {
    var ds := Calculus.DeriveEach(nodes, leaf);
    var fs := ChainRule.Factors(nodes, ds, shape);
    forall i | 0 <= i < |nodes|
      ensures factors[i] == fs[i]
    {
    }
  }

  /** Factor i of the chain rule, with the node's derivative computed. */
  ghost function Step(nodes: seq<Function>, i: nat, shape: Shape, leaf: Function -> Function): Function
    requires i < |nodes|
  {
    var d := Calculus.Derive(nodes[i], leaf);
    if i < |nodes| - 1 then Wrap(shape, [d] + nodes[i + 1..]) else d
  }
}
