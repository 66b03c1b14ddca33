/** The intrusive circular doubly linked lists of lib/list.c. A list is a head
    node and the sequence of nodes met by following next from it. */
module Lists {

  class Node {
    var next: Node
    var prev: Node
    /** Where the enclosing struct page_info stands in the pages array. */
    const index: int

    /** list_init */
    constructor (index: int)
      ensures this.index == index && next == this && prev == this
    {
      this.index := index;
      next, prev := this, this;
    }
  }

  /** No element occurs twice. */
  ghost predicate Distinct<T>(s: seq<T>) {
    forall i, j :: 0 <= i < j < |s| ==> s[i] != s[j]
  }

  ghost function First(head: Node, s: seq<Node>): Node {
    if s == [] then head else s[0]
  }

  ghost function Last(head: Node, s: seq<Node>): Node {
    if s == [] then head else s[|s| - 1]
  }

  /** The list headed by head holds exactly the nodes s, in that order. */
  ghost predicate Ring(head: Node, s: seq<Node>)
    reads head, s
  {
    && head !in s && Distinct(s)
    && head.next == First(head, s) && head.prev == Last(head, s)
    && (forall i {:trigger s[i].next} :: 0 <= i < |s| ==>
          s[i].next == if i == |s| - 1 then head else s[i + 1])
    && (forall i {:trigger s[i].prev} :: 0 <= i < |s| ==>
          s[i].prev == if i == 0 then head else s[i - 1])
  }

  /** The neighbours of a node on a list are on it, or its head. */
  lemma Neighbours(head: Node, s: seq<Node>, j: nat)
    requires Ring(head, s) && j < |s|
    ensures s[j].next == head || s[j].next in s
    ensures s[j].prev == head || s[j].prev in s
    ensures head.next == First(head, s) && Distinct(s)
  {
  }

  function Without(s: seq<Node>, j: nat): seq<Node>
    requires j < |s|
  {
    s[..j] + s[j + 1..]
  }

  /** The list with node between its first j nodes and the rest. */
  ghost predicate Inserted(head: Node, s: seq<Node>, node: Node, j: nat)
    requires j <= |s|
    reads head, s, node
  {
    && head !in s && Distinct(s) && node != head && node !in s
    && node.prev == (if j == 0 then head else s[j - 1]) && node.next == (if j == |s| then head else s[j])
    && head.next == (if j == 0 then node else First(head, s))
    && head.prev == (if j == |s| then node else Last(head, s))
    && (forall i {:trigger s[i].next} :: 0 <= i < |s| ==>
          s[i].next == if i == j - 1 then node else if i == |s| - 1 then head else s[i + 1])
    && (forall i {:trigger s[i].prev} :: 0 <= i < |s| ==>
          s[i].prev == if i == j then node else if i == 0 then head else s[i - 1])
  }

  lemma InsertedIsRing(head: Node, s: seq<Node>, node: Node, j: nat)
    requires j <= |s| && Inserted(head, s, node, j)
    ensures Ring(head, s[..j] + [node] + s[j..])
  {
  }

  /** Puts node between the first j nodes of the list and the rest. */
  method ListInsertAfter(after: Node, node: Node, ghost head: Node, ghost s: seq<Node>, ghost j: nat)
    requires Ring(head, s) && j <= |s| && node != head && node !in s
    requires after == if j == 0 then head else s[j - 1]
    modifies after, after.next, node
    ensures Ring(head, s[..j] + [node] + s[j..])
  {
    node.prev := after;
    node.next := after.next;
    after.next.prev := node;
    after.next := node;
    InsertedIsRing(head, s, node, j);
  }

  method ListInsertBefore(before: Node, node: Node, ghost head: Node, ghost s: seq<Node>, ghost j: nat)
    requires Ring(head, s) && j <= |s| && node != head && node !in s
    requires before == if j == |s| then head else s[j]
    modifies before, before.prev, node
    ensures Ring(head, s[..j] + [node] + s[j..])
  {
    node.next := before;
    node.prev := before.prev;
    before.prev.next := node;
    before.prev := node;
    InsertedIsRing(head, s, node, j);
  }

  /** Takes the j-th node off its list and leaves it linked to itself; a node
      that already is (j == 0 in the empty list it heads) stays as it was. */
  method ListDel(node: Node, ghost head: Node, ghost s: seq<Node>, ghost j: nat)
    requires Ring(head, s)
    requires if s == [] then node == head else j < |s| && node == s[j]
    modifies node, node.prev, node.next
    ensures node.next == node && node.prev == node
    ensures s != [] ==> Ring(head, Without(s, j))
  {
    node.prev.next := node.next;
    node.next.prev := node.prev;
    node.next := node;
    node.prev := node;
  }

  method ListAdd(head: Node, node: Node, ghost s: seq<Node>)
    requires Ring(head, s) && node != head && node !in s
    modifies head, head.next, node
    ensures Ring(head, [node] + s)
  {
    ListInsertAfter(head, node, head, s, 0);
    assert s[..0] + [node] + s[0..] == [node] + s;
  }

  method ListAddTail(head: Node, node: Node, ghost s: seq<Node>)
    requires Ring(head, s) && node != head && node !in s
    modifies head, head.prev, node
    ensures Ring(head, s + [node])
  {
    ListInsertBefore(head, node, head, s, |s|);
    assert s[..|s|] + [node] + s[|s|..] == s + [node];
  }

  /** Removes the node that list_add put on first: with list_add, a queue. */
  method ListPop(head: Node, ghost s: seq<Node>) returns (node: Node?)
    requires Ring(head, s)
    modifies head, head.prev, head.prev.prev
    ensures node == null <==> s == []
    ensures s == [] ==> Ring(head, [])
    ensures s != [] ==> node == s[|s| - 1] && node.next == node.prev == node && Ring(head, s[..|s| - 1])
  {
    if head.prev == head {
      return null;
    }
    node := head.prev;
    ListDel(node, head, s, |s| - 1);
    assert Without(s, |s| - 1) == s[..|s| - 1];
  }

  /** Removes the node that list_add put on last: with list_add, a stack. */
  method ListPopTail(head: Node, ghost s: seq<Node>) returns (node: Node?)
    requires Ring(head, s)
    modifies head, head.next, head.next.next
    ensures node == null <==> s == []
    ensures s == [] ==> Ring(head, [])
    ensures s != [] ==> node == s[0] && node.next == node.prev == node && Ring(head, s[1..])
  {
    if head.next == head {
      return null;
    }
    node := head.next;
    ListDel(node, head, s, 0);
    assert Without(s, 0) == s[1..];
  }
}
