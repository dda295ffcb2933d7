/** Doubly linked chains of nodes, shared by the sorted timer list and by the
slots of the time wheel.  A chain is described by the sequence of its nodes. */
module Chains {

  class Node<D> {
    var item: D
    var prev: Node?<D>
    var next: Node?<D>

    constructor (item: D)
      ensures this.item == item && prev == null && next == null
    {
      this.item := item;
      prev, next := null, null;
    }
  }

  ghost predicate Distinct<T>(s: seq<T>) {
    forall i, j :: 0 <= i < j < |s| ==> s[i] != s[j]
  }

  lemma {:induction false} DistinctOnce<T>(s: seq<T>)
    requires Distinct(s)
    ensures forall x :: multiset(s)[x] == if x in s then 1 else 0
  {
    if s != [] {
      DistinctOnce(s[1..]);
      assert s == [s[0]] + s[1..];
      assert s[0] !in s[1..];
    }
  }

  function InsertAt<T>(s: seq<T>, p: nat, x: T): seq<T>
    requires p <= |s|
  {
    s[..p] + [x] + s[p..]
  }

  function RemoveAt<T>(s: seq<T>, p: nat): seq<T>
    requires p < |s|
  {
    s[..p] + s[p + 1..]
  }

  /** The node at position `i`, or null beyond either end. */
  function At<D>(ns: seq<Node<D>>, i: int): Node?<D> {
    if 0 <= i < |ns| then ns[i] else null
  }

  /** `ns` are the nodes of an acyclic, null-terminated doubly linked list. */
  ghost predicate Chain<D>(ns: seq<Node<D>>)
    reads ns`prev, ns`next
  {
    && Distinct(ns)
    && (forall i {:trigger ns[i].prev} :: 0 <= i < |ns| ==> ns[i].prev == At(ns, i - 1))
    && (forall i {:trigger ns[i].next} :: 0 <= i < |ns| ==> ns[i].next == At(ns, i + 1))
  }

  /** Links `node` between its future neighbours. */
  method Splice<D>(ghost ns: seq<Node<D>>, ghost p: nat, node: Node<D>, prev: Node?<D>, next: Node?<D>)
    requires Chain(ns) && p <= |ns| && node !in ns
    requires prev == At(ns, p - 1) && next == At(ns, p)
    modifies ns`prev, ns`next, node`prev, node`next
    ensures Chain(InsertAt(ns, p, node))
  {
    if prev != null { prev.next := node; }
    node.next := next;
    if next != null { next.prev := node; }
    node.prev := prev;
    ghost var r := InsertAt(ns, p, node);
    forall i | 0 <= i < |r| ensures r[i].prev == At(r, i - 1) && r[i].next == At(r, i + 1) {
      if i < p { assert r[i] == ns[i]; } else if i > p { assert r[i] == ns[i - 1]; }
    }
  }

  /** Links the neighbours of `node` to each other; `node` keeps its own links. */
  method Unsplice<D>(ghost ns: seq<Node<D>>, ghost p: nat, node: Node<D>)
    requires Chain(ns) && p < |ns| && ns[p] == node
    modifies ns`prev, ns`next
    ensures Chain(RemoveAt(ns, p)) && node !in RemoveAt(ns, p)
    ensures node.prev == old(node.prev) && node.next == old(node.next)
  {
    if node.prev != null { node.prev.next := node.next; }
    if node.next != null { node.next.prev := node.prev; }
    ghost var r := RemoveAt(ns, p);
    forall i | 0 <= i < |r| ensures r[i].prev == At(r, i - 1) && r[i].next == At(r, i + 1) {
      if i < p { assert r[i] == ns[i]; } else { assert r[i] == ns[i + 1]; }
    }
  }
}
