/** A singly linked list of nodes, as a sequence. */
module LinkedLists {
  // ----- The list as a sequence -----

  /** The sequence without the first element that satisfies the predicate. */
  function WithoutFirst<T>(s: seq<T>, predicate': T -> bool): (r: seq<T>)
    ensures forall x | x in r :: x in s
  {
    if s == [] then [] else if predicate'(s[0]) then s[1..] else [s[0]] + WithoutFirst(s[1..], predicate')
  }

  /** `x` in front of the first element that satisfies the predicate. */
  function InsertedBefore<T>(s: seq<T>, x: T, predicate': T -> bool): seq<T>
  {
    if s == [] || predicate'(s[0]) then [x] + s else [s[0]] + InsertedBefore(s[1..], x, predicate')
  }

  /** Position `p` is that of the first element that satisfies the predicate, or the end. */
  ghost predicate IsFirst<T>(s: seq<T>, predicate': T -> bool, p: nat)
  {
    p <= |s| && (forall i | 0 <= i < p :: !predicate'(s[i])) && (p < |s| ==> predicate'(s[p]))
  }

  lemma {:induction false} WithoutFirstAt<T>(s: seq<T>, predicate': T -> bool, p: nat)
    requires IsFirst(s, predicate', p)
    ensures WithoutFirst(s, predicate') == if p == |s| then s else s[..p] + s[p + 1..]
  {
    if p > 0 {
      WithoutFirstAt(s[1..], predicate', p - 1);
      assert s[..p] == [s[0]] + s[1..][..p - 1];
      assert s == [s[0]] + s[1..];
    }
  }

  lemma {:induction false} InsertedBeforeAt<T>(s: seq<T>, x: T, predicate': T -> bool, p: nat)
    requires IsFirst(s, predicate', p)
    ensures InsertedBefore(s, x, predicate') == s[..p] + [x] + s[p..]
  {
    if p > 0 {
      InsertedBeforeAt(s[1..], x, predicate', p - 1);
      assert s[..p] == [s[0]] + s[1..][..p - 1];
    }
  }

  method FindFirst<T>(s: seq<T>, predicate': T -> bool) returns (p: nat)
    ensures IsFirst(s, predicate', p)
  {
    p := 0;
    while p < |s| && !predicate'(s[p])
      invariant p <= |s| && forall i | 0 <= i < p :: !predicate'(s[i])
    {
      p := p + 1;
    }
  }

  method RemoveFirst<T>(s: seq<T>, predicate': T -> bool) returns (r: seq<T>)
    ensures r == WithoutFirst(s, predicate')
  {
    var p := FindFirst(s, predicate');
    WithoutFirstAt(s, predicate', p);
    r := if p == |s| then s else s[..p] + s[p + 1..];
  }

  method InsertBeforeFirst<T>(s: seq<T>, x: T, predicate': T -> bool) returns (r: seq<T>)
    ensures r == InsertedBefore(s, x, predicate')
  {
    var p := FindFirst(s, predicate');
    InsertedBeforeAt(s, x, predicate', p);
    r := s[..p] + [x] + s[p..];
  }

  // ----- The links -----

  class Node<T> {
    const value: T
    var next: Node?<T>

    constructor (value: T)
      ensures this.value == value && next == null
    {
      this.value, next := value, null;
    }
  }

  function Is<T>(node: Node<T>): Node<T> -> bool { (n: Node<T>) => n == node }

  function OnValue<T>(predicate': T -> bool): Node<T> -> bool { (n: Node<T>) => predicate'(n.value) }

  function Values<T>(nodes: seq<Node<T>>): seq<T>
  {
    if nodes == [] then [] else [nodes[0].value] + Values(nodes[1..])
  }

  /** Inserting a node is inserting its value into the sequence of values. */
  lemma {:induction false} ValuesOfInserted<T>(nodes: seq<Node<T>>, node: Node<T>, predicate': T -> bool)
    ensures Values(InsertedBefore(nodes, node, OnValue(predicate'))) ==
      InsertedBefore(Values(nodes), node.value, predicate')
  {
    if nodes != [] {
      ValuesOfInserted(nodes[1..], node, predicate');
    }
  }

  /** Taking a node off is removing the first of the values that satisfies a predicate only its value satisfies. */
  lemma {:induction false} ValuesOfRemoved<T>(nodes: seq<Node<T>>, node: Node<T>, predicate': T -> bool)
    requires forall n | n in nodes :: predicate'(n.value) <==> n == node
    ensures Values(WithoutFirst(nodes, Is(node))) == WithoutFirst(Values(nodes), predicate')
  {
    if nodes != [] {
      assert nodes[0] in nodes;
      ValuesOfRemoved(nodes[1..], node, predicate');
    }
  }

  /** What the link of node `i` has to be. */
  function Successor<T>(nodes: seq<Node<T>>, i: nat): Node?<T>
  {
    if i + 1 < |nodes| then nodes[i + 1] else null
  }

  /** The links lead through the nodes in order, each node once. */
  ghost predicate IsLinked<T>(root: Node?<T>, nodes: seq<Node<T>>)
    reads nodes
  {
    && root == (if nodes == [] then null else nodes[0])
    && (forall i: nat | i < |nodes| :: nodes[i].next == Successor(nodes, i))
    && (forall i, j | 0 <= i < j < |nodes| :: nodes[i] != nodes[j])
  }

  class LinkedListRoot<T> {
    var root: Node?<T>
    /** The nodes in the order of the links. */
    ghost var nodes: seq<Node<T>>

    ghost predicate Valid()
      reads this, nodes
    {
      IsLinked(root, nodes)
    }

    constructor ()
      ensures Valid() && nodes == []
    {
      root, nodes := null, [];
    }

    method GetLength() returns (count: nat)
      requires Valid()
      ensures count == |nodes|
    {
      var node := root;
      count := 0;
      while node != null
        invariant count <= |nodes| && node == if count == |nodes| then null else nodes[count]
        decreases |nodes| - count
      {
        assert node.next == Successor(nodes, count);
        count := count + 1;
        node := node.next;
      }
    }

    /** Takes a node out of the list, if it is on it. */
    method Remove(node: Node<T>)
      requires Valid()
      modifies this, nodes
      ensures Valid() && nodes == WithoutFirst(old(nodes), Is(node))
    {
      if root == null {
        return;
      }
      assert root.next == Successor(nodes, 0);
      if root == node {
        root := root.next;
        nodes := nodes[1..];
        forall i: nat | i < |nodes|
          ensures nodes[i].next == Successor(nodes, i)
        {
          assert nodes[i].next == Successor(old(nodes), i + 1);
        }
        return;
      }
      var p := root;
      ghost var i := 0;
      while p.next != null
        invariant 0 <= i < |nodes| && p == nodes[i] && p.next == Successor(nodes, i)
        invariant forall k | 0 <= k <= i :: nodes[k] != node
        decreases |nodes| - i
      {
        assert p.next == nodes[i + 1] && p.next.next == Successor(nodes, i + 1);
        if p.next == node {
          WithoutFirstAt(nodes, Is(node), i + 1);
          Unlink(p, i);
          return;
        }
        p := p.next;
        i := i + 1;
      }
      WithoutFirstAt(nodes, Is(node), |nodes|);
    }

    /** Takes the successor of a node out of the list. */
    method Unlink(p: Node<T>, ghost i: nat)
      requires Valid() && i + 1 < |nodes| && p == nodes[i] && p.next == nodes[i + 1]
      modifies this, nodes
      ensures Valid() && nodes == old(nodes)[..i + 1] + old(nodes)[i + 2..]
    {
      ghost var was := nodes;
      assert p.next.next == Successor(was, i + 1);
      p.next := p.next.next;
      nodes := was[..i + 1] + was[i + 2..];
      UnlinkedSuccessors(was, i);
      forall k: nat | k < |nodes|
        ensures nodes[k].next == Successor(nodes, k)
      {
        if k < i {
          assert old(was[k].next) == Successor(was, k);
        } else if k > i {
          assert old(was[k + 1].next) == Successor(was, k + 1);
        }
      }
    }

    /** Puts a node that is not on the list in front of it. */
    method LinkFirst(node: Node<T>)
      requires Valid() && node !in nodes
      modifies this, node
      ensures Valid() && nodes == [node] + old(nodes)
    {
      node.next := root;
      root := node;
      nodes := [node] + nodes;
      forall k: nat | k < |nodes|
        ensures nodes[k].next == Successor(nodes, k)
      {
        if k > 0 {
          assert nodes[k].next == Successor(old(nodes), k - 1);
        }
      }
    }

    /** Puts a node that is not on the list behind one that is. */
    method LinkAfter(p: Node<T>, node: Node<T>, ghost i: nat)
      requires Valid() && node !in nodes && i < |nodes| && p == nodes[i]
      modifies this, nodes, node
      ensures Valid() && nodes == old(nodes)[..i + 1] + [node] + old(nodes)[i + 1..]
    {
      ghost var was := nodes;
      assert p.next == Successor(was, i);
      node.next := p.next;
      p.next := node;
      nodes := was[..i + 1] + [node] + was[i + 1..];
      SpliceSuccessors(was, node, i);
      forall k: nat | k < |nodes|
        ensures nodes[k].next == Successor(nodes, k)
      {
        if k < i {
          assert old(was[k].next) == Successor(was, k);
        } else if k > i + 1 {
          assert old(was[k - 1].next) == Successor(was, k - 1);
        }
      }
    }

    /** Moves a node to the front. */
    method Insert(node: Node<T>)
      requires Valid()
      modifies this, nodes, node
      ensures Valid() && nodes == [node] + WithoutFirst(old(nodes), Is(node))
    {
      NotAnyMore(nodes, node);
      Remove(node);
      LinkFirst(node);
    }

    /** The last node in front of which nothing satisfies the predicate. */
    method FindPredecessor(predicate': T -> bool) returns (p: Node<T>, ghost i: nat)
      requires Valid() && nodes != [] && !predicate'(nodes[0].value)
      ensures i < |nodes| && p == nodes[i] && IsFirst(nodes, OnValue(predicate'), i + 1)
    {
      p, i := root, 0;
      assert p.next == Successor(nodes, 0);
      while p.next != null
        invariant 0 <= i < |nodes| && p == nodes[i] && p.next == Successor(nodes, i)
        invariant forall k | 0 <= k <= i :: !predicate'(nodes[k].value)
        decreases |nodes| - i
      {
        assert p.next == nodes[i + 1] && p.next.next == Successor(nodes, i + 1);
        if predicate'(p.next.value) {
          break;
        }
        p := p.next;
        i := i + 1;
      }
    }

    /** Moves a node in front of the first other one whose value satisfies the predicate. */
    method InsertBefore(node: Node<T>, predicate': T -> bool)
      requires Valid()
      modifies this, nodes, node
      ensures Valid()
      ensures nodes == InsertedBefore(WithoutFirst(old(nodes), Is(node)), node, OnValue(predicate'))
      ensures Values(nodes) == InsertedBefore(Values(WithoutFirst(old(nodes), Is(node))), node.value, predicate')
    {
      NotAnyMore(nodes, node);
      Remove(node);
      assert forall i | 0 <= i < |nodes| :: nodes[i] in old(nodes);
      ValuesOfInserted(nodes, node, predicate');
      InsertNew(node, predicate');
    }

    /** Puts a node that is not on the list in front of the first one whose value satisfies the predicate. */
    method InsertNew(node: Node<T>, predicate': T -> bool)
      requires Valid() && node !in nodes
      modifies this, nodes, node
      ensures Valid() && nodes == InsertedBefore(old(nodes), node, OnValue(predicate'))
    {
      assert root == if nodes == [] then null else nodes[0];
      if root == null || predicate'(root.value) {
        LinkFirst(node);
        return;
      }
      hide IsLinked;
      ghost var was := nodes;
      ghost var i;
      var p;
      p, i := FindPredecessor(predicate');
      InsertedBeforeAt(was, node, OnValue(predicate'), i + 1);
      LinkAfter(p, node, i);
    }
  }

  lemma UnlinkedSuccessors<T>(was: seq<Node<T>>, i: nat)
    requires i + 1 < |was|
    ensures
      var nodes := was[..i + 1] + was[i + 2..];
      && Successor(nodes, i) == Successor(was, i + 1)
      && (forall k: nat | k < i :: Successor(nodes, k) == Successor(was, k) && nodes[k] == was[k])
      && (forall k: nat | i < k < |nodes| :: Successor(nodes, k) == Successor(was, k + 1) && nodes[k] == was[k + 1])
  {
  }

  lemma SpliceSuccessors<T>(was: seq<Node<T>>, node: Node<T>, i: nat)
    requires i < |was|
    ensures
      var nodes := was[..i + 1] + [node] + was[i + 1..];
      && Successor(nodes, i) == node && Successor(nodes, i + 1) == Successor(was, i)
      && (forall k: nat | k < i :: Successor(nodes, k) == Successor(was, k) && nodes[k] == was[k])
      && (forall k: nat | i + 1 < k < |nodes| :: Successor(nodes, k) == Successor(was, k - 1) && nodes[k] == was[k - 1])
  {
  }

  lemma {:induction false} NotAnyMore<T>(nodes: seq<Node<T>>, node: Node<T>)
    requires forall i, j | 0 <= i < j < |nodes| :: nodes[i] != nodes[j]
    ensures node !in WithoutFirst(nodes, Is(node))
  {
    if nodes != [] {
      NotAnyMore(nodes[1..], node);
    }
  }
}
