/** The doubly linked list and its round variant (module/dthelper/list.c). */
module List {

  datatype Option<+T> = None | Some(value: T)

  class ListNode<T> {
    var prev: ListNode?<T>
    var next: ListNode?<T>
    var data: T

    constructor (data: T)
      ensures this.data == data && prev == null && next == null
    {
      this.data := data;
      prev, next := null, null;
    }
  }

  /** Following `next` from the first node visits the nodes in order; `prev` mirrors it. */
  ghost predicate Linked<T>(nodes: seq<ListNode<T>>)
    reads nodes
  {
    && (forall i, j :: 0 <= i < j < |nodes| ==> nodes[i] != nodes[j])
    && forall i, j :: 0 <= i < j < |nodes| && j == i + 1 ==> nodes[i].next == nodes[j] && nodes[j].prev == nodes[i]
  }

  /** The last node leads back to the first. */
  ghost predicate Closed<T>(nodes: seq<ListNode<T>>)
    reads nodes
  {
    Linked(nodes) && (nodes != [] ==> nodes[|nodes| - 1].next == nodes[0])
  }

  function InsertAt<T>(s: seq<T>, i: nat, x: T): (r: seq<T>)
    requires i <= |s|
    ensures |r| == |s| + 1
  {
    s[..i] + [x] + s[i..]
  }

  class List<T(==)> {
    const rnd: bool
    var head: ListNode?<T>
    var tail: ListNode?<T>
    var elements: nat
    ghost var nodes: seq<ListNode<T>>

    /** In a round list the head's `prev` is the head itself, never the tail. */
    ghost predicate Valid()
      reads this, nodes
    {
      && elements == |nodes| && Linked(nodes)
      && (nodes == [] ==> head == null && tail == null)
      && (nodes != [] ==>
            && head == nodes[0] && tail == nodes[|nodes| - 1]
            && nodes[0].prev == (if rnd then nodes[0] else null)
            && nodes[|nodes| - 1].next == (if rnd then nodes[0] else null))
    }

    /** The abstract value: the data of the nodes in order. */
    ghost function Contents(): (s: seq<T>)
      reads this, nodes
      ensures |s| == |nodes|
    {
      Data(nodes)
    }

    /** new_list and new_round_list */
    constructor (rnd: bool)
      ensures Valid() && this.rnd == rnd && nodes == [] && Contents() == []
    {
      this.rnd := rnd;
      head, tail := null, null;
      elements := 0;
      nodes := [];
    }

    /** list_push */
    method Push(data: T) returns (r: int)
      requires Valid()
      modifies this, nodes
      ensures Valid() && r == |old(nodes)|
      ensures |nodes| == |old(nodes)| + 1 && nodes[..|old(nodes)|] == old(nodes)
      ensures fresh(nodes[|old(nodes)|]) && nodes[|old(nodes)|].data == data
      ensures forall k :: 0 <= k < |old(nodes)| ==> old(nodes)[k].data == old(nodes[k].data)
      ensures Contents() == old(Contents()) + [data]
    {
      hide Linked, Data;
      var node := new ListNode(data);
      Apart(node);
      if elements == 0 {
        head, tail := node, node;
        if rnd {
          node.next, node.prev := node, node;
        }
        elements := elements + 1;
        LinkedOne(node);
        nodes := [node];
        return 0;
      }
      HangBehindTail(node);
      elements := elements + 1;
      nodes := nodes + [node];
      return elements - 1;
    }

    /** The pointer writes of list_push on a list that is not empty. */
    method HangBehindTail(node: ListNode<T>)
      requires Valid() && nodes != [] && node !in nodes && node.next == null
      modifies this`tail, nodes, node
      ensures tail == node && Linked(nodes + [node])
      ensures node.next == (if rnd then head else null) && node.data == old(node.data)
      ensures nodes[0].prev == (if rnd then nodes[0] else null)
      ensures forall k :: 0 <= k < |nodes| ==> nodes[k].data == old(nodes[k].data)
    {
      node.prev := tail;
      tail.next := node;
      tail := node;
      if rnd {
        node.next := head;
      }
      AppendLinked(nodes, node);
    }

    lemma Apart(node: ListNode<T>)
      requires node !in nodes
      ensures forall k :: 0 <= k < |nodes| ==> nodes[k] != node
    {
    }

    /** _seek_node. For a round list an index past the end goes around; it divides by the number of elements. */
    method SeekNode(i: nat) returns (node: ListNode?<T>)
      requires Valid() && (rnd && i > 0 ==> nodes != [])
      ensures node == if nodes == [] then null
                      else if rnd then nodes[i % |nodes|]
                      else if i < |nodes| then nodes[i] else null
    {
      node := head;
      var n := i;
      if n > elements && rnd {
        n := n % elements;
      }
      if n > elements {
        return null;
      }
      ghost var at := 0;
      ghost var steps := n;
      if rnd && nodes != [] {
        IndexAround(i, |nodes|);
      }
      while n > 0 && node != null
        invariant 0 <= at <= steps && n == steps - at
        invariant node == if nodes == [] then null
                          else if at < |nodes| then nodes[at]
                          else if rnd then nodes[0] else null
      {
        n := n - 1;
        node := node.next;
        at := at + 1;
      }
    }

    /** list_insert: in front of the node at `i`, or at the end where there is none. It answers the old number of
        elements, which is the new element's index only at the end. Before the head of a ring of two or more nodes it
        leaves the ring open, because the head's `prev` is not the tail. */
    method Insert(data: T, i: nat) returns (r: int, ghost node: ListNode<T>)
      requires Valid() && (rnd && i > 0 ==> nodes != [])
      modifies this, nodes
      ensures r == |old(nodes)| && fresh(node) && node.data == data
      ensures !rnd ==>
                var k := if i < |old(nodes)| then i else |old(nodes)|;
                && Valid() && nodes == InsertAt(old(nodes), k, node) && Contents() == InsertAt(old(Contents()), k, data)
                && (r == k <==> i >= |old(nodes)|)
      ensures rnd && old(nodes) == [] ==> Valid() && nodes == [node] && Contents() == [data]
      ensures rnd && old(nodes) != [] ==>
                var k := i % |old(nodes)|;
                && nodes == InsertAt(old(nodes), k, node)
                && (Closed(nodes) <==> k != 0 || |old(nodes)| == 1)
    {
      hide Linked, Closed, Data, InsertAt, Valid;
      var dp := SeekNode(i);
      if dp == null {
        r := Push(data);
        node := nodes[|nodes| - 1];
        InsertAtEnd(old(Contents()), data);
        InsertAtEnd(old(nodes), node);
        assert nodes == old(nodes) + [node];
        assert old(nodes) != [] ==> !rnd;
        return;
      }
      ghost var k := if rnd then i % |nodes| else i;
      var inserted := new ListNode(data);
      node := inserted;
      Apart(node);
      Displace(k, dp, inserted);
      r := elements - 1;
      DataInserted(old(Contents()), old(nodes), k, inserted);
    }

    /** The rest of list_insert, once the node it displaces is found. */
    method Displace(ghost k: nat, dp: ListNode<T>, node: ListNode<T>)
      requires Valid() && k < |nodes| && dp == nodes[k] && node !in nodes
      modifies this, nodes, node
      ensures nodes == InsertAt(old(nodes), k, node) && elements == |nodes|
      ensures node.data == old(node.data)
      ensures forall i :: 0 <= i < |old(nodes)| ==> old(nodes)[i].data == old(nodes[i].data)
      ensures !rnd ==> Valid()
      ensures rnd ==> (Closed(nodes) <==> k != 0 || |old(nodes)| == 1)
    {
      hide Linked, Closed, InsertAt;
      PrevInList(k);
      InsertedEnds(nodes, k, node);
      LinkIn(k, dp, node);
      elements := elements + 1;
      nodes := InsertAt(nodes, k, node);
      ClosedAtEnd(nodes);
    }

    /** The pointer writes leave the chain in order, unless they went around the head of a ring. */
    method LinkIn(ghost k: nat, dp: ListNode<T>, node: ListNode<T>)
      requires k < |nodes| && dp == nodes[k] && node !in nodes && Linked(nodes)
      requires dp.prev == if k > 0 then nodes[k - 1] else if rnd then nodes[0] else null
      modifies this`head, nodes, node
      ensures Linked(InsertAt(nodes, k, node)) <==> !(rnd && k == 0 && |nodes| > 1)
      ensures head == if old(head) == dp then node else old(head)
      ensures k == 0 ==> node.prev == old(dp.prev)
      ensures k > 0 ==> nodes[0].prev == old(nodes[0].prev)
      ensures nodes[|nodes| - 1].next == if rnd && k == 0 && |nodes| == 1 then node else old(nodes[|nodes| - 1].next)
      ensures node.data == old(node.data)
      ensures forall i :: 0 <= i < |nodes| ==> nodes[i].data == old(nodes[i].data)
    {
      Apart(node);
      node.next := dp;
      node.prev := dp.prev;
      dp.prev := node;
      if node.prev != null {
        node.prev.next := node;
      }
      if head == dp {
        head := node;
      }
      InsertedLinks(rnd, nodes, k, node);
    }

    lemma PrevInList(k: nat)
      requires Valid() && k < |nodes|
      ensures nodes[k].prev == if k > 0 then nodes[k - 1] else if rnd then nodes[0] else null
    {
      assert k > 0 ==> nodes[k - 1].next == nodes[k];
    }

    /** list_at */
    method At(i: nat) returns (data: Option<T>)
      requires Valid() && (rnd && i > 0 ==> nodes != [])
      ensures !rnd ==> data == if i < |Contents()| then Some(Contents()[i]) else None
      ensures rnd ==> data == if Contents() == [] then None else Some(Contents()[i % |Contents()|])
    {
      var node := SeekNode(i);
      if node == null {
        return None;
      }
      return Some(node.data);
    }

    /** list_find: the first index of the data. In a round list the search ends only if the data is there. */
    method Find(data: T) returns (i: int)
      requires Valid() && (rnd && nodes != [] ==> data in Contents())
      ensures i == -1 ==> data !in Contents()
      ensures i != -1 ==> 0 <= i < |Contents()| && Contents()[i] == data && data !in Contents()[..i]
    {
      i := 0;
      var node := head;
      while node != null
        invariant 0 <= i <= |nodes| && data !in Contents()[..i]
        invariant node == if i < |nodes| then nodes[i] else if rnd && nodes != [] then nodes[0] else null
        decreases |nodes| - i
      {
        assert Contents()[..|nodes|] == Contents();
        if node.data == data {
          return;
        }
        node := node.next;
        i := i + 1;
      }
      assert Contents()[..i] == Contents();
      return -1;
    }
  }

  /** The seek goes `i` steps around a ring of `n` nodes, or `n` to come back to the head. */
  lemma IndexAround(i: nat, n: nat)
    requires n > 0
    ensures i % n < n && (i < n ==> i % n == i) && (i == n ==> i % n == 0)
  {
  }

  lemma LinkedOne<T>(node: ListNode<T>)
    ensures Linked([node])
  {
  }

  lemma AppendLinked<T>(nodes: seq<ListNode<T>>, node: ListNode<T>)
    requires Linked(nodes) && nodes != [] && node !in nodes
    requires nodes[|nodes| - 1].next == node && node.prev == nodes[|nodes| - 1]
    ensures Linked(nodes + [node])
  {
  }

  /** After the pointer writes the new node is linked in, unless they went around the head of a ring: where the
      second node is no longer the first one's successor, the ring does not pass through it. */
  lemma InsertedLinks<T>(rnd: bool, nodes: seq<ListNode<T>>, k: nat, node: ListNode<T>)
    requires k < |nodes| && node !in nodes && forall i, j :: 0 <= i < j < |nodes| ==> nodes[i] != nodes[j]
    requires forall i, j :: 0 <= i < j < |nodes| && j == i + 1 && j != k ==> nodes[j].prev == nodes[i]
    requires forall i, j :: 0 <= i < j < |nodes| && j == i + 1 && j != k && !(rnd && k == 0 && i == 0) ==>
             nodes[i].next == nodes[j]
    requires node.next == nodes[k] && nodes[k].prev == node
    requires k > 0 ==> nodes[k - 1].next == node && node.prev == nodes[k - 1]
    requires rnd && k == 0 ==> nodes[0].next == node
    ensures Linked(InsertAt(nodes, k, node)) <==> !(rnd && k == 0 && |nodes| > 1)
  {
    var l := InsertAt(nodes, k, node);
    if rnd && k == 0 && |nodes| > 1 {
      assert l[1] == nodes[0] && l[2] == nodes[1];
    }
  }

  lemma InsertedEnds<T>(s: seq<T>, k: nat, x: T)
    requires k < |s|
    ensures |InsertAt(s, k, x)| == |s| + 1 && InsertAt(s, k, x)[|s|] == s[|s| - 1]
    ensures InsertAt(s, k, x)[0] == if k == 0 then x else s[0]
  {
  }

  lemma InsertAtEnd<T>(s: seq<T>, x: T)
    ensures InsertAt(s, |s|, x) == s + [x]
  {
  }

  lemma ClosedAtEnd<T>(nodes: seq<ListNode<T>>)
    requires nodes != []
    ensures Closed(nodes) <==> Linked(nodes) && nodes[|nodes| - 1].next == nodes[0]
  {
  }

  lemma InsertedAt<T>(s: seq<T>, k: nat, x: T, i: nat)
    requires k <= |s| && i <= |s|
    ensures |InsertAt(s, k, x)| == |s| + 1
    ensures InsertAt(s, k, x)[i] == if i < k then s[i] else if i == k then x else s[i - 1]
  {
  }

  /** Inserting a node inserts its data. */
  lemma DataInserted<T>(before: seq<T>, nodes: seq<ListNode<T>>, k: nat, node: ListNode<T>)
    requires k <= |nodes| == |before| && forall i :: 0 <= i < |nodes| ==> nodes[i].data == before[i]
    ensures Data(InsertAt(nodes, k, node)) == InsertAt(before, k, node.data)
  {
    hide Data, InsertAt;
    var after := InsertAt(nodes, k, node);
    InsertedAt(nodes, k, node, 0);
    InsertedAt(before, k, node.data, 0);
    forall i | 0 <= i < |after|
      ensures Data(after)[i] == InsertAt(before, k, node.data)[i]
    {
      InsertedAt(nodes, k, node, i);
      InsertedAt(before, k, node.data, i);
    }
  }

  ghost function Data<T>(nodes: seq<ListNode<T>>): (s: seq<T>)
    reads nodes
    ensures |s| == |nodes|
    ensures forall k :: 0 <= k < |nodes| ==> s[k] == nodes[k].data
  {
    if nodes == [] then [] else [nodes[0].data] + Data(nodes[1..])
  }
}
