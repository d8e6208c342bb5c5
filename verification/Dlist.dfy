/**
 Intrusive circular doubly linked lists. A list is a sentinel node; the nodes on it are
 given by the sequence `nodes`, which every operation is proved to update.
 */
module Dlist {

  class DNode<T> {
    var next: DNode?<T>
    var prev: DNode?<T>
    const item: T

    constructor (item: T)
      ensures this.item == item && next == this && prev == this
    {
      this.item := item;
      next, prev := this, this;
    }
  }

  /** The i-th node of the ring; the sentinel closes it at both ends. */
  ghost function At<T>(list: DNode<T>, nodes: seq<DNode<T>>, i: int): DNode<T>
  {
    if 0 <= i < |nodes| then nodes[i] else list
  }

  ghost predicate Distinct<T>(list: DNode<T>, nodes: seq<DNode<T>>)
  {
    list !in nodes && forall i, j :: 0 <= i < j < |nodes| ==> nodes[i] != nodes[j]
  }

  /** Sentinel and nodes form one ring in which `next` and `prev` are inverse to each other. */
  ghost predicate Linked<T>(list: DNode<T>, nodes: seq<DNode<T>>)
    reads list, nodes
  {
    && Distinct(list, nodes)
    && (forall i {:trigger At(list, nodes, i).next} :: -1 <= i < |nodes| ==>
         At(list, nodes, i).next == At(list, nodes, i + 1))
    && (forall i {:trigger At(list, nodes, i).prev} :: 0 <= i <= |nodes| ==>
         At(list, nodes, i).prev == At(list, nodes, i - 1))
  }

  method Init<T>(list: DNode<T>)
    modifies list
    ensures Linked(list, [])
  {
    list.next, list.prev := list, list;
  }

  /** Link `node` between the neighbours `prev` and `next`, which stand at positions k - 1 and k. */
  method Insert<T>(node: DNode<T>, prev: DNode<T>, next: DNode<T>,
                   ghost list: DNode<T>, ghost nodes: seq<DNode<T>>, ghost k: nat)
    requires Linked(list, nodes) && node != list && node !in nodes
    requires k <= |nodes| && prev == At(list, nodes, k - 1) && next == At(list, nodes, k)
    modifies node, prev`next, next`prev
    ensures Linked(list, nodes[..k] + [node] + nodes[k..])
  {
    node.next := next;
    node.prev := prev;
    prev.next := node;
    next.prev := node;
    ghost var after := nodes[..k] + [node] + nodes[k..];
    forall i | -1 <= i < |after| ensures At(list, after, i).next == At(list, after, i + 1) {
      if i < k - 1 { assert At(list, after, i) == At(list, nodes, i) != prev; }
      if i > k { assert At(list, after, i) == At(list, nodes, i - 1) != prev; }
    }
    forall i | 0 <= i <= |after| ensures At(list, after, i).prev == At(list, after, i - 1) {
      if i < k { assert At(list, after, i) == At(list, nodes, i) != next; }
      if i > k + 1 { assert At(list, after, i) == At(list, nodes, i - 1) != next; }
    }
  }

  method Append<T>(list: DNode<T>, node: DNode<T>, ghost nodes: seq<DNode<T>>)
    requires Linked(list, nodes) && node != list && node !in nodes
    modifies list, nodes, node
    ensures Linked(list, nodes + [node])
  {
    assert At(list, nodes, |nodes|).prev == At(list, nodes, |nodes| - 1);
    Insert(node, list.prev, list, list, nodes, |nodes|);
    assert nodes[..|nodes|] + [node] + nodes[|nodes|..] == nodes + [node];
  }

  method Prepend<T>(list: DNode<T>, node: DNode<T>, ghost nodes: seq<DNode<T>>)
    requires Linked(list, nodes) && node != list && node !in nodes
    modifies list, nodes, node
    ensures Linked(list, [node] + nodes)
  {
    assert At(list, nodes, -1).next == At(list, nodes, 0);
    Insert(node, list, list.next, list, nodes, 0);
    assert nodes[..0] + [node] + nodes[0..] == [node] + nodes;
  }

  /** Unlink the node at position k. */
  method Remove<T>(node: DNode<T>, ghost list: DNode<T>, ghost nodes: seq<DNode<T>>, ghost k: nat)
    requires Linked(list, nodes) && k < |nodes| && node == nodes[k]
    modifies list, nodes
    ensures Linked(list, nodes[..k] + nodes[k + 1..]) && node.next == null && node.prev == null
  {
    assert At(list, nodes, k).next == At(list, nodes, k + 1) && At(list, nodes, k).prev == At(list, nodes, k - 1);
    ghost var prev, next := At(list, nodes, k - 1), At(list, nodes, k + 1);
    node.prev.next := node.next;
    node.next.prev := node.prev;
    node.next := null;
    node.prev := null;
    ghost var after := nodes[..k] + nodes[k + 1..];
    forall i | -1 <= i < |after| ensures At(list, after, i).next == At(list, after, i + 1) {
      if i < k - 1 { assert At(list, after, i) == At(list, nodes, i) != prev; }
      if i >= k { assert At(list, after, i) == At(list, nodes, i + 1) != prev; }
    }
    forall i | 0 <= i <= |after| ensures At(list, after, i).prev == At(list, after, i - 1) {
      if i < k { assert At(list, after, i) == At(list, nodes, i) != next; }
      if i > k { assert At(list, after, i) == At(list, nodes, i + 1) != next; }
    }
  }
}
