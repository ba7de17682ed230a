/**
 * The doubly linked list: every node leads on to the next one and back to the one before it.  The nodes belong to the
 * caller; an operation only relinks them.
 */
module LinkedList {
  import opened MergeSort
  import opened Powers

  // Every node leads back to the one before it.
  ghost predicate Back<T>(s: seq<Node<T>>)
    reads s
  {
    forall i: nat :: i < |s| ==> LeadsBack(s, i)
  }

  ghost predicate LeadsBack<T>(s: seq<Node<T>>, i: nat)
    requires i < |s|
    reads s
  {
    s[i].prev == if i == 0 then null else s[i - 1]
  }

  class List<T(!new)> {
    var first: Node?<T>
    var last: Node?<T>
    ghost var nodes: seq<Node<T>>

    ghost predicate Valid()
      reads this, nodes
    {
      && NoRepeats(nodes) && Chain(nodes, first) && Back(nodes)
      && last == if nodes == [] then null else nodes[|nodes| - 1]
    }

    constructor ()
      ensures Valid() && nodes == []
    {
      first := null;
      last := null;
      nodes := [];
    }

    // GSK_LIST_SORT
    method Sort(compare: (T, T) -> int) returns (used: nat)
      requires Valid() && TotalPreorder(compare) && |nodes| < Pow2(LOG2_MAX_LIST_SIZE)
      modifies this, SetOf(nodes)
      ensures Valid() && StablySorted(compare, nodes, old(nodes))
      ensures multiset(nodes) == multiset(old(nodes))
      ensures Pow2(used) <= |nodes| + 1
    {
      hide TotalPreorder, StablySorted, NoRepeats, Chain, Back, Pow2;
      ghost var s := nodes;
      ghost var r;
      first, used, r := StackSort(compare, first, s);
      Permutation(compare, r, s);
      SortedOnce(r, s);
      SetBack(r, s);
      nodes := r;
    }

    // Sets the links back, which the sort has left as they were.
    method SetBack(ghost r: seq<Node<T>>, ghost s: seq<Node<T>>)
      requires Chain(r, first) && NoRepeats(r) && SetOf(r) <= SetOf(s)
      modifies this`last, SetOf(s)
      ensures Chain(r, first) && Back(r)
      ensures last == if r == [] then null else r[|r| - 1]
    {
      var prev: Node?<T> := null;
      var at := first;
      ghost var i: nat := 0;
      while at != null
        invariant i <= |r| && first == old(first)
        invariant at == if i < |r| then r[i] else null
        invariant prev == if i == 0 then null else r[i - 1]
        invariant Chain(r, first)
        invariant forall j: nat :: j < i ==> LeadsBack(r, j)
        decreases |r| - i
      {
        assert r[i] in SetOf(r);
        assert forall j :: 0 <= j < i ==> r[j] != r[i];
        label before:
        at.prev := prev;
        forall j: nat | j < i + 1
          ensures LeadsBack(r, j)
        {
          if j < i { assert old@before(LeadsBack(r, j)); }
        }
        prev := at;
        at := at.next;
        i := i + 1;
      }
      last := prev;
    }

    // What the links of a node of the list say.
    lemma LinksAt(i: nat)
      requires Valid() && i < |nodes|
      ensures nodes[i].next == (if i + 1 < |nodes| then nodes[i + 1] else null)
      ensures nodes[i].prev == (if i == 0 then null else nodes[i - 1])
    {
      assert LeadsBack(nodes, i);
    }

    // The fields are right when every node's links are.
    lemma AllLinked()
      requires NoRepeats(nodes)
      requires first == (if nodes == [] then null else nodes[0]) &&
        last == if nodes == [] then null else nodes[|nodes| - 1]
      requires forall i: nat :: i < |nodes| ==> Laid(nodes, i)
      ensures Valid()
    {
      forall i | 0 <= i < |nodes| - 1 ensures nodes[i].next == nodes[i + 1] { assert Laid(nodes, i); }
      if nodes != [] { assert Laid(nodes, |nodes| - 1); }
      forall i: nat | i < |nodes| ensures LeadsBack(nodes, i) { assert Laid(nodes, i); }
    }

    // GSK_LIST_PREPEND
    method Prepend(node: Node<T>)
      requires Valid() && node !in nodes
      modifies this, node, if first == null then {} else {first}
      ensures Valid() && nodes == [node] + old(nodes)
    {
      hide Valid, Chain, Back;
      Spread();
      if first != null { first.prev := node; } else { last := node; }
      node.next := first;
      node.prev := null;
      first := node;
      nodes := [node] + nodes;
      forall k: nat | k < |nodes|
        ensures Laid(nodes, k)
      {
        if k > 0 { assert old(Laid(nodes, k - 1)); }
      }
      AllLinked();
    }

    // GSK_LIST_APPEND is the same with the names exchanged.
    method Append(node: Node<T>)
      requires Valid() && node !in nodes
      modifies this, node, if last == null then {} else {last}
      ensures Valid() && nodes == old(nodes) + [node]
    {
      hide Valid, Chain, Back;
      Spread();
      if last != null { last.next := node; } else { first := node; }
      node.prev := last;
      node.next := null;
      last := node;
      nodes := nodes + [node];
      forall k: nat | k < |nodes|
        ensures Laid(nodes, k)
      {
        if k < |nodes| - 1 { assert old(Laid(nodes, k)); }
      }
      AllLinked();
    }

    // GSK_LIST_REMOVE: the links of the node itself stay as they were.
    method Remove(node: Node<T>) returns (ghost i: nat)
      requires Valid() && node in nodes
      modifies this, SetOf(nodes)
      ensures i < |old(nodes)| && old(nodes)[i] == node
      ensures Valid() && nodes == old(nodes)[..i] + old(nodes)[i + 1..]
      ensures node.next == old(node.next) && node.prev == old(node.prev)
    {
      hide Valid, Chain, Back;
      Spread();
      i :| i < |nodes| && nodes[i] == node;
      assert Laid(nodes, i);
      if node.prev != null { node.prev.next := node.next; } else { first := node.next; }
      if node.next != null { node.next.prev := node.prev; } else { last := node.prev; }
      nodes := nodes[..i] + nodes[i + 1..];
      forall k: nat | k < |nodes|
        ensures Laid(nodes, k)
      {
        assert old(Laid(nodes, if k < i then k else k + 1)) && old(Laid(nodes, i));
      }
      AllLinked();
    }

    // GSK_LIST_INSERT_AFTER
    method InsertAfter(at: Node<T>, node: Node<T>) returns (ghost i: nat)
      requires Valid() && at in nodes && node !in nodes
      modifies this, node, SetOf(nodes)
      ensures i < |old(nodes)| && old(nodes)[i] == at
      ensures Valid() && nodes == old(nodes)[..i + 1] + [node] + old(nodes)[i + 1..]
    {
      hide Valid, Chain, Back;
      Spread();
      i :| i < |nodes| && nodes[i] == at;
      assert Laid(nodes, i);
      LinkBehind(at, node);
      nodes := nodes[..i + 1] + [node] + nodes[i + 1..];
      forall k: nat | k < |nodes|
        ensures Laid(nodes, k)
      {
        assert old(Laid(nodes, i));
        if k != i + 1 { assert old(Laid(nodes, if k <= i then k else k - 1)); }
      }
      AllLinked();
    }

    // The links that change.
    method LinkBehind(at: Node<T>, node: Node<T>)
      requires node != at && at.next != node && at.next != at
      modifies this`last, node, at`next, if at.next == null then {} else {at.next}
      ensures node.prev == at && node.next == old(at.next) && at.next == node
      ensures node.next == null ==> last == node
      ensures node.next != null ==>
        last == old(last) && node.next.prev == node &&
          node.next.next == old(if at.next == null then null else at.next.next)
    {
      node.prev := at;
      node.next := at.next;
      if node.next != null { node.next.prev := node; } else { last := node; }
      at.next := node;
    }

    // Every node of the list is laid out.
    lemma Spread()
      requires Valid()
      ensures forall i: nat :: i < |nodes| ==> Laid(nodes, i)
      ensures NoRepeats(nodes)
      ensures first == (if nodes == [] then null else nodes[0]) &&
        last == if nodes == [] then null else nodes[|nodes| - 1]
    {
      forall i: nat | i < |nodes| ensures Laid(nodes, i) { LinksAt(i); }
    }

    // GSK_LIST_REMOVE_FIRST
    method RemoveFirst()
      requires Valid() && nodes != []
      modifies this, SetOf(nodes)
      ensures Valid() && nodes == old(nodes)[1..]
    {
      hide Valid, Chain, Back;
      Spread();
      assert Laid(nodes, 0);
      first := first.next;
      if first == null { last := null; } else { first.prev := null; }
      nodes := nodes[1..];
      forall k: nat | k < |nodes|
        ensures Laid(nodes, k)
      {
        assert old(Laid(nodes, k + 1));
      }
      AllLinked();
    }

    // GSK_LIST_REVERSE: the two links of every node change places.
    method Reverse()
      requires Valid()
      modifies this, SetOf(nodes)
      ensures Valid() && |nodes| == |old(nodes)|
      ensures forall k :: 0 <= k < |nodes| ==> nodes[k] == old(nodes)[|nodes| - 1 - k]
    {
      hide Valid, Chain, Back;
      Spread();
      ghost var s := nodes;
      var at := first;
      first, last := last, first;
      ghost var i: nat := 0;
      while at != null
        invariant i <= |s| && nodes == s && at == if i < |s| then s[i] else null
        invariant first == (if s == [] then null else s[|s| - 1]) && last == if s == [] then null else s[0]
        invariant forall j: nat :: j < i ==> Turned(s, j)
        invariant forall j: nat :: i <= j < |s| ==> Laid(s, j)
        decreases |s| - i
      {
        assert Laid(s, i) && s[i] in SetOf(s);
        label before:
        var next := at.next;
        at.next := at.prev;
        at.prev := next;
        forall j: nat | j < i + 1 ensures Turned(s, j) { if j < i { assert old@before(Turned(s, j)); } }
        forall j: nat | i + 1 <= j < |s| ensures Laid(s, j) { assert old@before(Laid(s, j)); }
        at := next;
        i := i + 1;
      }
      nodes := seq(|s|, k requires 0 <= k < |s| => s[|s| - 1 - k]);
      forall k: nat | k < |nodes| ensures Laid(nodes, k) { assert Turned(s, |s| - 1 - k); }
      AllLinked();
    }
  }

  // Its links have changed places.
  ghost predicate Turned<T>(s: seq<Node<T>>, i: nat)
    requires i < |s|
    reads s
  {
    && s[i].prev == (if i + 1 < |s| then s[i + 1] else null)
    && s[i].next == if i == 0 then null else s[i - 1]
  }

  // The node at place i leads to both neighbours.
  ghost predicate Laid<T>(s: seq<Node<T>>, i: nat)
    requires i < |s|
    reads s
  {
    && s[i].next == (if i + 1 < |s| then s[i + 1] else null)
    && s[i].prev == if i == 0 then null else s[i - 1]
  }
}
