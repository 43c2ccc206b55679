/**
  `TermList` (functions/TermList.java): a doubly linked chain of functions,
  outermost first, as a node store addressed by index. Each node carries
  `prev` (the function it sits in) as well as `next` (the function inside
  it). Read forwards, a TermList is a chain of module `Linked`.
 */
module TermList {
  import opened Expr
  import Linked

  datatype DNode = DNode(prev: Option<nat>, func: Function, next: Option<nat>)

  datatype List = List(store: seq<DNode>, head: Option<nat>, tail: Option<nat>)

  /** The store read forwards only: each node's function and `next`. */
  function Forward(store: seq<DNode>): (fw: seq<Linked.Node>)
    ensures |fw| == |store|
    ensures forall i :: 0 <= i < |store| ==> fw[i] == Linked.Node(store[i].func, store[i].next)
  {
    seq(|store|, i requires 0 <= i < |store| => Linked.Node(store[i].func, store[i].next))
  }

  /** `prev` runs along `spine` backwards: none before the head, and each
      later node's `prev` is the node before it. */
  ghost predicate BackLinked(store: seq<DNode>, spine: seq<nat>)
    requires forall i :: 0 <= i < |spine| ==> spine[i] < |store|
  {
    && (spine != [] ==> store[spine[0]].prev == None)
    && (forall i :: 0 < i < |spine| ==> store[spine[i]].prev == Some(spine[i - 1]))
  }

  /** The list consists of the nodes `spine`, head first, linked both ways. */
  ghost predicate Valid(l: List, spine: seq<nat>)
  {
    && Linked.Valid(Linked.Links(Forward(l.store), l.head, l.tail), spine)
    && BackLinked(l.store, spine)
  }

  /** The functions of the list, outermost first. */
  ghost function Funcs(l: List, spine: seq<nat>): seq<Function>
    requires Valid(l, spine)
  {
    Linked.Funcs(Forward(l.store), spine)
  }

  /** `new TermList()`. */
  function New(): (l: List)
    ensures Valid(l, []) && l.store == []
  {
    List([], None, None)
  }

  /** `append_start`. On an empty list the new node is head and tail and
      links nowhere; otherwise it becomes the head, its `next` is the old
      head, the old head's `prev` is the new node, and the tail and every
      other node stay as they were. */
  function AppendStart(l: List, f: Function): (r: List)
    requires l.head.Some? ==> l.head.value < |l.store|
    ensures |r.store| == |l.store| + 1 && r.head == Some(|l.store|)
    ensures l.head.None? ==> r.tail == r.head && r.store[|l.store|] == DNode(None, f, None)
    ensures l.head.Some? ==>
      && r.store[|l.store|] == DNode(None, f, l.head)
      && r.store[l.head.value] == l.store[l.head.value].(prev := Some(|l.store|))
      && r.tail == l.tail
    ensures forall i :: 0 <= i < |l.store| && Some(i) != l.head ==> r.store[i] == l.store[i]
  {
    var n := |l.store|;
    if l.head.None? then List(l.store + [DNode(None, f, None)], Some(n), Some(n))
    else
      var h := l.head.value;
      List(l.store[h := l.store[h].(prev := Some(n))] + [DNode(None, f, Some(h))], Some(n), l.tail)
  }

  /** Read forwards, `append_start` is the singly linked `append_start`:
      `prev` is not part of the forward view. */
  lemma ForwardAppendStart(l: List, f: Function)
    requires l.head.Some? ==> l.head.value < |l.store|
    ensures var fl := Linked.AppendStart(Linked.Links(Forward(l.store), l.head, l.tail), f);
      var r := AppendStart(l, f);
      Forward(r.store) == fl.store && r.head == fl.head && r.tail == fl.tail
  {
    var r := AppendStart(l, f);
    var fl := Linked.AppendStart(Linked.Links(Forward(l.store), l.head, l.tail), f);
    assert Forward(r.store) == fl.store by {
      forall i | 0 <= i < |r.store|
        ensures Forward(r.store)[i] == fl.store[i]
      {
      }
    }
  }

  /** After `append_start` the `prev` links still run backwards along the
      spine, now headed by the new node. */
  lemma BackLinkedAppendStart(l: List, spine: seq<nat>, f: Function)
    requires Valid(l, spine)
    ensures l.head.Some? ==> l.head.value < |l.store|
    ensures forall i :: 0 <= i < |[|l.store|] + spine| ==> ([|l.store|] + spine)[i] < |AppendStart(l, f).store|
    ensures BackLinked(AppendStart(l, f).store, [|l.store|] + spine)
  {
    var r := AppendStart(l, f);
    var s := [|l.store|] + spine;
    forall i | 0 < i < |s|
      ensures r.store[s[i]].prev == Some(s[i - 1])
    {
      if i > 1 {
        Linked.PathDistinct(Forward(l.store), spine, 0, i - 1);
      }
    }
  }

  /** `append_start` keeps the list valid, both ways, with functions
      [f] ++ old. */
  lemma AppendStartValid(l: List, spine: seq<nat>, f: Function)
    requires Valid(l, spine)
    ensures l.head.Some? ==> l.head.value < |l.store|
    ensures Valid(AppendStart(l, f), [|l.store|] + spine)
    ensures Funcs(AppendStart(l, f), [|l.store|] + spine) == [f] + Funcs(l, spine)
  {
    ForwardAppendStart(l, f);
    Linked.AppendStartValid(Linked.Links(Forward(l.store), l.head, l.tail), spine, f);
    BackLinkedAppendStart(l, spine, f);
  }

  /** `next` and `prev` agree: within a valid list, node a's `next` is node b
      exactly when node b's `prev` is node a. */
  lemma NextPrevAgree(l: List, spine: seq<nat>, i: nat, j: nat)
    requires Valid(l, spine) && i < |spine| && j < |spine|
    ensures l.store[spine[i]].next == Some(spine[j]) <==> l.store[spine[j]].prev == Some(spine[i])
  {
    var fw := Forward(l.store);
    Linked.NextOnPath(fw, spine, i);
    if l.store[spine[i]].next == Some(spine[j]) {
      if j < i + 1 {
        Linked.PathDistinct(fw, spine, j, i + 1);
      } else if j > i + 1 {
        Linked.PathDistinct(fw, spine, i + 1, j);
      }
    }
    if l.store[spine[j]].prev == Some(spine[i]) {
      assert j > 0 && spine[j - 1] == spine[i];
      assert Linked.IsPath(fw, spine);
    }
  }
}
