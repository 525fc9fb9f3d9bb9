/** Lists of parse nodes, which are joined by writing the last link of the first. */
module HclList {

  class ListNode {
    var next: ListNode?

    constructor ()
      ensures next == null
    {
      next := null;
    }
  }

  /** The nodes from n on, in order. */
  ghost predicate Linked(n: ListNode?, nodes: seq<ListNode>)
    reads nodes
  {
    && n == (if nodes == [] then null else nodes[0])
    && (forall i {:trigger nodes[i].next} :: 0 <= i < |nodes| ==> nodes[i].next == if i + 1 < |nodes| then nodes[i + 1] else null)
  }

  /** A list from which there is a way to its end does not come back to a node. */
  lemma LinkedIsAcyclic(n: ListNode?, nodes: seq<ListNode>)
    requires Linked(n, nodes)
    ensures forall i, j :: 0 <= i < j < |nodes| ==> nodes[i] != nodes[j]
  {
    forall i, j | 0 <= i < j < |nodes| ensures nodes[i] != nodes[j] {
      NoReturn(nodes, i, j);
    }
  }

  lemma {:induction false} NoReturn(nodes: seq<ListNode>, i: nat, j: nat)
    requires i < j < |nodes| && Linked(nodes[0], nodes)
    ensures nodes[i] != nodes[j]
    decreases |nodes| - j
  {
    assert nodes[i].next == nodes[i + 1] && nodes[j].next == if j + 1 < |nodes| then nodes[j + 1] else null;
    if j + 1 < |nodes| {
      NoReturn(nodes, i + 1, j + 1);
    }
  }

  method Concat(n1: ListNode?, n2: ListNode?, ghost s1: seq<ListNode>, ghost s2: seq<ListNode>) returns (n: ListNode?)
    requires Linked(n1, s1) && Linked(n2, s2)
    requires forall x :: x in s1 ==> x !in s2
    modifies if s1 == [] then {} else {s1[|s1| - 1]}
    ensures Linked(n, s1 + s2)
  {
    if n1 == null {
      assert s1 + s2 == s2;
      return n2;
    }
    LinkedIsAcyclic(n1, s1);
    var tail := n1;
    ghost var k := 0;
    while tail.next != null
      invariant 0 <= k < |s1| && tail == s1[k]
      decreases |s1| - k
    {
      tail := tail.next;
      k := k + 1;
    }
    assert k == |s1| - 1;
    tail.next := n2;
    ghost var s := s1 + s2;
    forall i {:trigger s[i].next} | 0 <= i < |s| ensures s[i].next == if i + 1 < |s| then s[i + 1] else null {
      if i < |s1| {
        assert s1[i].next == if i < k then s1[i + 1] else n2;
      } else {
        assert s2[i - |s1|] in s2 && s1[k] in s1;
        assert s2[i - |s1|].next == if i + 1 < |s| then s2[i + 1 - |s1|] else null;
      }
    }
    assert Linked(n1, s);
    return n1;
  }
}
