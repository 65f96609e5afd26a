// The singly linked list of main.c: heap nodes linked through `next`, and a
// List object whose `head` field stands for the caller's `*head`. Every C
// function is a method that walks and relinks the nodes as the C code does and
// is proved to have the effect that module ListSpec gives for it. The
// exception is the inputs on which the walk of insert_at_index,
// delete_at_index or delete_tail never leaves the head: there the methods take
// the corrected path, and the ...AsWritten methods model the C code.

module LinkedList {
  import opened ListSpec

  /** The node that follows slot `i` of `ns`, or null after the last one. */
  function Successor(ns: seq<Node>, i: int): Node?
  {
    if 0 <= i && i + 1 < |ns| then ns[i + 1] else null
  }

  /** Each node of `ns` links to the one after it, and the last one to null. */
  ghost predicate Linked(ns: seq<Node>)
    reads ns
  {
    forall i {:trigger ns[i].next} :: 0 <= i < |ns| ==> ns[i].next == Successor(ns, i)
  }

  /** The node before slot `i` of `ns`, or null before the first one. */
  function Predecessor(ns: seq<Node>, i: int): Node?
  {
    if 0 < i <= |ns| then ns[i - 1] else null
  }

  /** The first `k` nodes of `ns` link back to their predecessors and the
      others still link forward: the state reverse_list keeps while it walks. */
  ghost predicate RelinkedUpTo(ns: seq<Node>, k: nat)
    reads ns
  {
    forall i {:trigger ns[i].next} :: 0 <= i < |ns| ==>
      ns[i].next == if i < k then Predecessor(ns, i) else Successor(ns, i)
  }

  /** No node occurs twice in `ns`. */
  predicate Distinct(ns: seq<Node>)
  {
    forall i, j :: 0 <= i < j < |ns| ==> ns[i] != ns[j]
  }

  /** struct node */
  class Node {
    var value: int
    var next: Node?

    constructor (value: int)
      ensures this.value == value && next == null
    {
      this.value := value;
      next := null;
    }
  }

  class List {
    /** The caller's head pointer, `*head`. */
    var head: Node?
    /** The nodes reachable from head, in list order. */
    ghost var nodes: seq<Node>
    /** The values held by those nodes, in list order. */
    ghost var Contents: seq<int>

    /** The chain from head is finite and acyclic: head is the first node,
        each node links to the next, and the last one ends in null. */
    ghost predicate Valid()
      reads this, nodes
    {
      |nodes| == |Contents| &&
      (if nodes == [] then head == null else head == nodes[0]) &&
      (forall i :: 0 <= i < |nodes| ==> nodes[i].value == Contents[i]) &&
      Linked(nodes) && Distinct(nodes)
    }

    /** An empty list: `struct node *head = NULL`. */
    constructor ()
      ensures Valid() && nodes == [] && Contents == []
    {
      head := null;
      nodes := [];
      Contents := [];
    }

    /** delete_list: frees every node and clears *head. */
    method DeleteList() returns (r: int)
      requires Valid()
      modifies this
      ensures Valid()
      ensures Outcome(r, Contents) == DeleteListOp(old(Contents))
      ensures nodes == []
    {
      if head == null {
        return Fail;
      }
      var current := head;
      ghost var k := 0;
      while current != null
        invariant 0 <= k <= |nodes|
        invariant current == if k < |nodes| then nodes[k] else null
        decreases |nodes| - k
      {
        // free(temp) has no counterpart: the node is dropped from `nodes` below
        current := current.next;
        k := k + 1;
      }
      head := null;
      nodes := [];
      Contents := [];
      r := Ok;
    }

    /** search_by_value: `prior` is the value *findex held before the call,
        which is left as it was when the value is absent. */
    method SearchByValue(dvalue: int, prior: int) returns (r: int, findex: int)
      requires Valid() && Contents != []
      ensures SearchOutcome(r, findex) == SearchOp(Contents, dvalue, prior)
    {
      var current := head;
      var index := 1;
      while current.next != null
        invariant 1 <= index <= |nodes|
        invariant current == nodes[index - 1]
        invariant dvalue !in Contents[..index - 1]
        decreases |nodes| - index
      {
        if current.value == dvalue {
          FindFirst(Contents, dvalue, index - 1);
          return Ok, index;
        } else {
          current := current.next;
        }
        assert Contents[..index] == Contents[..index - 1] + [Contents[index - 1]];
        index := index + 1;
      }
      if current.value == dvalue {
        FindFirst(Contents, dvalue, index - 1);
        return Ok, index;
      }
      assert Contents == Contents[..index - 1] + [Contents[index - 1]];
      return Fail, prior;
    }

    /** insert_at_front */
    method InsertAtFront(newval: int) returns (r: int)
      requires Valid()
      modifies this
      ensures Valid()
      ensures Outcome(r, Contents) == InsertAtFrontOp(old(Contents), newval)
      ensures nodes[1..] == old(nodes) && fresh(nodes[0])
    {
      var newnode := new Node(newval);
      PushNode(newnode);
      r := Ok;
    }

    /** The linking step of insert_at_front: a node not yet in the list
        becomes its head. */
    method PushNode(newnode: Node)
      requires Valid() && newnode !in nodes
      modifies this, newnode
      ensures Valid()
      ensures nodes == [newnode] + old(nodes) && Contents == [old(newnode.value)] + old(Contents)
      ensures newnode.value == old(newnode.value)
    {
      if head == null {
        head := newnode;
        newnode.next := null;
      } else {
        var temp := head;
        head := newnode;
        newnode.next := temp;
      }
      nodes := [newnode] + nodes;
      Contents := [newnode.value] + Contents;
    }

    /** insert_at_tail: on an empty list it hands over to insert_at_front. */
    method InsertAtTail(newval: int) returns (r: int)
      requires Valid()
      modifies this, nodes
      ensures Valid()
      ensures Outcome(r, Contents) == InsertAtTailOp(old(Contents), newval)
      ensures |nodes| == |old(nodes)| + 1
      ensures nodes[..|old(nodes)|] == old(nodes) && fresh(nodes[|old(nodes)|])
    {
      var newnode := new Node(newval);
      if head == null {
        r := InsertAtFront(newval);
        return;
      }
      var current := head;
      ghost var k := 0;
      while current.next != null
        invariant 0 <= k < |nodes| && current == nodes[k]
        decreases |nodes| - k
      {
        current := current.next;
        k := k + 1;
      }
      current.next := newnode;
      newnode.next := null;
      nodes := nodes + [newnode];
      Contents := Contents + [newval];
      r := Ok;
    }

    /** The walk shared by insert_at_index and delete_at_index: starting with
        prev and current at the head, both advance while current has a
        successor and fewer than index - 1 steps were taken. It stops with
        current at 1-based position max(1, min(index, n)) and prev just
        before it, or on the head when current is the head. */
    method WalkTo(index: int) returns (prev: Node, current: Node, i: nat)
      requires Valid() && Contents != []
      ensures i == StopSlot(index, |nodes|)
      ensures current == nodes[i] && prev == nodes[if i == 0 then 0 else i - 1]
    {
      current := head;
      prev := current;
      i := 0;
      while current.next != null && i < index - 1
        invariant 0 <= i < |nodes| && (i == 0 || i <= index - 1)
        invariant current == nodes[i] && prev == nodes[if i == 0 then 0 else i - 1]
        decreases |nodes| - i
      {
        prev := current;
        current := current.next;
        i := i + 1;
      }
    }

    /** insert_at_index: index 0 is the front; otherwise the walk stops at
        1-based position min(index, n) and the new node goes in front of the
        node found there. When the walk never leaves the head (index 1, or a
        one-node list) the new node becomes the head; the C code instead links
        the two nodes to each other (see InsertAtIndexHeadStopAsWritten). */
    method InsertAtIndex(newval: int, index: int) returns (r: int)
      requires Valid() && InsertAtIndexDefined(|Contents|, index)
      modifies this, nodes
      ensures Valid()
      ensures Outcome(r, Contents) == InsertAtIndexOp(old(Contents), newval, index)
      ensures index < 0 ==> nodes == old(nodes)
      ensures index >= 0 ==> |nodes| == |old(nodes)| + 1
      ensures index == 0 ==> nodes[1..] == old(nodes) && fresh(nodes[0])
      ensures index >= 1 ==>
        var k := StopSlot(index, |old(nodes)|);
        nodes == old(nodes)[..k] + [nodes[k]] + old(nodes)[k..] && fresh(nodes[k])
    {
      if index < 0 {
        return Fail;
      } else if index == 0 {
        r := InsertAtFront(newval);
        return;
      }
      var newnode := new Node(newval);
      var prev, current, i := WalkTo(index);
      if i == 0 {
        PushNode(newnode);
      } else {
        LinkBetween(prev, newnode, current, i);
      }
      r := Ok;
    }

    /** The linking step of insert_at_index: `newnode` goes in between prev,
        at slot i - 1, and current, at slot i. */
    method LinkBetween(prev: Node, newnode: Node, current: Node, i: nat)
      requires Valid() && 1 <= i < |nodes| && prev == nodes[i - 1] && current == nodes[i]
      requires newnode !in nodes
      modifies this, prev, newnode
      ensures Valid()
      ensures nodes == old(nodes)[..i] + [newnode] + old(nodes)[i..]
      ensures Contents == InsertAt(old(Contents), i, old(newnode.value))
      ensures newnode.value == old(newnode.value)
    {
      ghost var ns := nodes;
      prev.next := newnode;
      newnode.next := current;
      assert Linked(ns[..i] + [newnode] + ns[i..]) && Distinct(ns[..i] + [newnode] + ns[i..]) by {
        forall j | 0 <= j < |ns| && j != i - 1
          ensures ns[j].next == Successor(ns, j)
        {
          assert ns[j] != prev;
        }
        SpliceIn(ns, i, newnode);
      }
      nodes := nodes[..i] + [newnode] + nodes[i..];
      Contents := InsertAt(Contents, i, newnode.value);
      assert forall j :: 0 <= j < |nodes| ==> nodes[j].value == Contents[j] by {
        InsertedIndexing(ns, i, newnode);
        InsertedIndexing(old(Contents), i, newnode.value);
        forall j | 0 <= j < |nodes|
          ensures nodes[j].value == Contents[j]
        {
          if j > i {
            assert nodes[j] == ns[j - 1];
          }
        }
      }
    }

    /** delete_head */
    method DeleteHead() returns (r: int)
      requires Valid()
      modifies this
      ensures Valid()
      ensures Outcome(r, Contents) == DeleteHeadOp(old(Contents))
      ensures nodes == if old(nodes) == [] then [] else old(nodes)[1..]
    {
      if head == null {
        return Fail;
      }
      head := head.next;
      nodes := nodes[1..];
      Contents := Contents[1..];
      r := Ok;
    }

    /** delete_tail: the last node is unlinked from the one before it, or,
        when it is the only node, *head is cleared; the C code leaves *head
        pointing at the freed node then (see DeleteTailSingleAsWritten). */
    method DeleteTail() returns (r: int)
      requires Valid()
      modifies this, nodes
      ensures Valid()
      ensures Outcome(r, Contents) == DeleteTailOp(old(Contents))
      ensures nodes == if old(nodes) == [] then [] else old(nodes)[..|old(nodes)| - 1]
    {
      if head == null {
        return Fail;
      }
      var current := head;
      var prev := current;
      ghost var k := 0;
      while current.next != null
        invariant 0 <= k < |nodes|
        invariant current == nodes[k] && prev == nodes[if k == 0 then 0 else k - 1]
        decreases |nodes| - k
      {
        prev := current;
        current := current.next;
        k := k + 1;
      }
      if prev == current {
        head := null;
      } else {
        prev.next := null;
      }
      nodes := nodes[..k];
      Contents := Contents[..k];
      r := Ok;
    }

    /** delete_at_index: index 1 is the head; otherwise the walk stops at
        1-based position max(1, min(index, n)) and that node is unlinked. When the walk
        never leaves the head (index 0, or a one-node list) the head is
        unlinked and *head moves on; the C code leaves *head pointing at the
        freed node (see DeleteAtIndexHeadStopAsWritten). */
    method DeleteAtIndex(index: int) returns (r: int)
      requires Valid() && DeleteAtIndexDefined(|Contents|, index)
      modifies this, nodes
      ensures Valid()
      ensures Outcome(r, Contents) == DeleteAtIndexOp(old(Contents), index)
      ensures index < 0 ==> nodes == old(nodes)
      ensures index == 1 ==> nodes == if old(nodes) == [] then [] else old(nodes)[1..]
      ensures index >= 0 && index != 1 ==>
        var k := StopSlot(index, |old(nodes)|);
        nodes == old(nodes)[..k] + old(nodes)[k + 1..]
    {
      if index < 0 {
        return Fail;
      } else if index == 1 {
        r := DeleteHead();
        return;
      }
      var prev, current, i := WalkTo(index);
      ghost var ns := nodes;
      if i == 0 {
        r := DeleteHead();
        return;
      }
      prev.next := current.next;
      current.next := null;
      assert Linked(ns[..i] + ns[i + 1..]) && Distinct(ns[..i] + ns[i + 1..]) by {
        forall j | 0 <= j < |ns| && j != i - 1 && j != i
          ensures ns[j].next == Successor(ns, j)
        {
          assert ns[j] != prev && ns[j] != current;
        }
        CutOut(ns, i);
      }
      nodes := nodes[..i] + nodes[i + 1..];
      Contents := RemoveAt(Contents, i);
      assert forall j :: 0 <= j < |nodes| ==> nodes[j].value == Contents[j] by {
        RemovedIndexing(ns, i);
        RemovedIndexing(old(Contents), i);
        forall j | 0 <= j < |nodes|
          ensures nodes[j].value == Contents[j]
        {
          if j >= i {
            assert nodes[j] == ns[j + 1];
          }
        }
      }
      r := Ok;
    }

    /** delete_by_value: search_by_value, then delete_at_index at the
        position it reports. */
    method DeleteByValue(value: int) returns (r: int)
      requires Valid() && Contents != []
      modifies this, nodes
      ensures Valid()
      ensures Outcome(r, Contents) == DeleteByValueOp(old(Contents), value)
      ensures value !in old(Contents) ==> nodes == old(nodes)
      ensures value in old(Contents) ==>
        var k := Find(old(Contents), value).value;
        nodes == old(nodes)[..k] + old(nodes)[k + 1..]
    {
      var index := 0;
      var result;
      result, index := SearchByValue(value, index);
      if result != Fail {
        r := DeleteAtIndex(index);
        return;
      }
      r := Fail;
    }

    /** reverse_list: relinks the existing nodes in place, using *head as the
        cursor over the part not yet reversed. */
    method Reverse() returns (r: int)
      requires Valid()
      modifies this, nodes
      ensures Valid()
      ensures Outcome(r, Contents) == ReverseOp(old(Contents))
      ensures nodes == Reversed(old(nodes))
    {
      var current := head;
      var newhead: Node? := null;
      var temp: Node? := null;
      if head == null || current.next == null {
        ReversedAt(nodes);
        ReversedAt(Contents);
        return Ok;
      }
      ghost var k := 0;
      while current != null
        invariant 0 <= k <= |nodes|
        invariant nodes == old(nodes) && Contents == old(Contents)
        invariant head == current
        invariant current == if k < |nodes| then nodes[k] else null
        invariant newhead == Predecessor(nodes, k)
        invariant RelinkedUpTo(nodes, k)
        invariant forall i :: 0 <= i < |nodes| ==> nodes[i].value == Contents[i]
        decreases |nodes| - k
      {
        temp := current.next;
        current.next := newhead;
        forall j | 0 <= j < |nodes| && j != k
          ensures nodes[j].next == if j < k then Predecessor(nodes, j) else Successor(nodes, j)
        {
          assert nodes[j] != current;
        }
        head := temp;
        newhead := current;
        current := head;
        k := k + 1;
      }
      head := newhead;
      RelinkedAll(nodes);
      ghost var n := |nodes|;
      assert |Reversed(nodes)| == |Reversed(Contents)| == n && Reversed(nodes)[0] == nodes[n - 1] &&
        forall j :: 0 <= j < n ==> Reversed(nodes)[j].value == Reversed(Contents)[j] by {
        ReversedAt(nodes);
        ReversedAt(Contents);
      }
      nodes := Reversed(nodes);
      Contents := Reversed(Contents);
      r := Ok;
    }

    // -------------------------------------------------------------------------
    // The C code as written, on the inputs where its walk never leaves the
    // head, so that prev and current are the same node.

    /** insert_at_index as written with index 1, or any index >= 1 on a
        one-node list: the head and the new node end up linked to each other,
        and the rest of the list is cut off, intact but unreachable. */
    method InsertAtIndexHeadStopAsWritten(newval: int, index: int) returns (r: int, newnode: Node)
      requires Valid() && Contents != [] && index >= 1 && StopSlot(index, |Contents|) == 0
      modifies head`next
      ensures r == Ok && fresh(newnode) && newnode.value == newval
      ensures head == old(head) && head.next == newnode && newnode.next == head
    {
      newnode := new Node(newval);
      var prev, current, i := WalkTo(index);
      prev.next := newnode;
      newnode.next := current;
      r := Ok;
    }

    /** delete_at_index as written with index 0, or any index >= 2 on a
        one-node list: the head is cut off from the rest and freed, yet *head
        still points at it. */
    method DeleteAtIndexHeadStopAsWritten(index: int) returns (r: int, freed: Node)
      requires Valid() && Contents != [] && index >= 0 && index != 1
      requires StopSlot(index, |Contents|) == 0
      modifies head`next
      ensures r == Ok && freed == old(head) && head == freed && freed.next == null
    {
      var prev, current, i := WalkTo(index);
      prev.next := current.next;
      current.next := null;
      freed := current;
      r := Ok;
    }

    /** delete_tail as written on a one-node list: the walk does not move, and
        the only node is freed while *head still points at it. */
    method DeleteTailSingleAsWritten() returns (r: int, freed: Node)
      requires Valid() && |Contents| == 1
      modifies head`next
      ensures r == Ok && freed == old(head) && head == freed && freed.next == null
    {
      var current := head;
      var prev := current;
      prev.next := null;
      freed := current;
      r := Ok;
    }
  }

  /** Linking `nn` in between slots k - 1 and k of a chain keeps it a chain
      without repeated nodes. */
  lemma SpliceIn(ns: seq<Node>, k: nat, nn: Node)
    requires 1 <= k < |ns| && Distinct(ns) && nn !in ns
    requires forall j :: 0 <= j < |ns| && j != k - 1 ==> ns[j].next == Successor(ns, j)
    requires ns[k - 1].next == nn && nn.next == ns[k]
    ensures Linked(ns[..k] + [nn] + ns[k..]) && Distinct(ns[..k] + [nn] + ns[k..])
  {
    InsertedIndexing(ns, k, nn);
    var ms := ns[..k] + [nn] + ns[k..];
    forall j | 0 <= j < |ms|
      ensures ms[j].next == Successor(ms, j)
    {
      if j < k - 1 {
        assert ms[j] == ns[j] && ms[j + 1] == ns[j + 1];
      } else if k < j {
        assert ms[j] == ns[j - 1];
      }
    }
    forall a, b | 0 <= a < b < |ms|
      ensures ms[a] != ms[b]
    {
      if b < k {
        assert ms[a] == ns[a] && ms[b] == ns[b];
      } else if a > k {
        assert ms[a] == ns[a - 1] && ms[b] == ns[b - 1];
      } else if a < k && b > k {
        assert ms[a] == ns[a] && ms[b] == ns[b - 1];
      }
    }
  }

  /** Linking slot k - 1 of a chain past slot k to the node after it leaves
      a chain without repeated nodes. */
  lemma CutOut(ns: seq<Node>, k: nat)
    requires 1 <= k < |ns| && Distinct(ns)
    requires forall j :: 0 <= j < |ns| && j != k - 1 && j != k ==> ns[j].next == Successor(ns, j)
    requires ns[k - 1].next == Successor(ns, k)
    ensures Linked(ns[..k] + ns[k + 1..]) && Distinct(ns[..k] + ns[k + 1..])
  {
    RemovedIndexing(ns, k);
    var ms := ns[..k] + ns[k + 1..];
    forall j | 0 <= j < |ms|
      ensures ms[j].next == Successor(ms, j)
    {
      if j < k - 1 {
        assert ms[j] == ns[j] && ms[j + 1] == ns[j + 1];
      } else if j >= k {
        assert ms[j] == ns[j + 1];
      }
    }
    forall a, b | 0 <= a < b < |ms|
      ensures ms[a] != ms[b]
    {
      if b < k {
        assert ms[a] == ns[a] && ms[b] == ns[b];
      } else if a >= k {
        assert ms[a] == ns[a + 1] && ms[b] == ns[b + 1];
      } else {
        assert ms[a] == ns[a] && ms[b] == ns[b + 1];
      }
    }
  }

  /** Once every node links back to its predecessor, the reversed sequence is
      a chain without repeated nodes. */
  lemma RelinkedAll(ns: seq<Node>)
    requires RelinkedUpTo(ns, |ns|) && Distinct(ns)
    ensures Linked(Reversed(ns)) && Distinct(Reversed(ns))
  {
    ReversedAt(ns);
    var n := |ns|;
    var rs := Reversed(ns);
    forall j | 0 <= j < n
      ensures rs[j].next == Successor(rs, j)
    {
      assert rs[j] == ns[n - 1 - j];
      if j + 1 < n {
        assert rs[j + 1] == ns[n - 1 - j - 1];
      }
    }
    forall a, b | 0 <= a < b < n
      ensures rs[a] != rs[b]
    {
      assert rs[a] == ns[n - 1 - a] && rs[b] == ns[n - 1 - b];
    }
  }


  /** Every node of a chain that follows next from a head linked to a node
      that links back to it is one of the two; so the chain never reaches
      null and no sequence of nodes from that head is a list. */
  lemma {:induction false} TwoNodeCycleNeverEnds(ns: seq<Node>, a: Node, b: Node, i: nat)
    requires ns != [] && ns[0] == a && a.next == b && b.next == a
    requires forall j :: 0 <= j < |ns| - 1 ==> ns[j].next == ns[j + 1]
    requires i < |ns|
    ensures ns[i] == a || ns[i] == b
    ensures ns[i].next != null
    ensures i == |ns| - 1 ==> !Linked(ns)
  {
    if i > 0 {
      TwoNodeCycleNeverEnds(ns, a, b, i - 1);
      assert ns[i - 1].next == ns[i];
    }
  }

  /** A head whose next is null is the whole chain: once delete_at_index or
      delete_tail frees the head without moving *head, the list reads as that
      one freed node. */
  lemma FreedHeadIsWholeChain(ns: seq<Node>, a: Node)
    requires ns != [] && ns[0] == a && a.next == null && Linked(ns)
    ensures ns == [a]
  {
  }
}
