/** The intrusive circular list behind the work queue: nodes linked both ways in a ring
    through a sentinel.  It stands for the sequence that QueueModel uses. */
module JobList {
  class WqNode {
    var job: nat
    var next: WqNode?
    var prev: WqNode?

    constructor (job: nat)
      ensures this.job == job && next == null && prev == null
    {
      this.job := job;
      next, prev := null, null;
    }
  }

  class WorkList {
    const head: WqNode            // the sentinel, w_qnode
    ghost var nodes: seq<WqNode>  // the other nodes of the ring, first to last

    ghost predicate Distinct() reads this {
      && head !in nodes
      && forall i, j :: 0 <= i < j < |nodes| ==> nodes[i] != nodes[j]
    }

    /** Once round the ring: from the sentinel through the nodes back to the sentinel. */
    ghost function Ring(i: nat): WqNode
      requires i <= |nodes| + 1
      reads this
    {
      if i == 0 || i == |nodes| + 1 then head else nodes[i - 1]
    }

    ghost predicate Linked(i: nat)
      requires i <= |nodes|
      reads this, head, nodes
    {
      Ring(i).next == Ring(i + 1) && Ring(i + 1).prev == Ring(i)
    }

    /** The ring is closed, runs through exactly `nodes`, and reads the same backwards. */
    ghost predicate Valid() reads this, head, nodes {
      Distinct() && forall i :: 0 <= i <= |nodes| ==> Linked(i)
    }

    // INIT_LIST_HEAD
    constructor ()
      ensures Valid() && nodes == [] && fresh(head)
    {
      var h := new WqNode(0);
      head := h;
      nodes := [];
      new;
      head.next, head.prev := head, head;
    }

    lemma EmptyIff()
      requires Valid()
      ensures head.next == head <==> nodes == []
    {
      assert Linked(0);
    }

    method AddTail(node: WqNode)
      requires Valid() && node != head && node !in nodes
      modifies this`nodes, head`next, head`prev, nodes`next, nodes`prev, node`next, node`prev
      ensures Valid() && nodes == old(nodes) + [node]
    {
      assert Linked(|nodes|);
      var last := head.prev;
      head.prev := node;
      node.next := head;
      node.prev := last;
      last.next := node;
      nodes := nodes + [node];
      forall i | 0 <= i <= |nodes| ensures Linked(i) {
        if i < |nodes| - 1 {
          assert old(Linked(i));
          assert Ring(i) == old(Ring(i)) && Ring(i + 1) == old(Ring(i + 1));
        }
      }
    }

    /** Takes the first entry off, if there is one. */
    method TakeFirst() returns (node: WqNode?)
      requires Valid()
      modifies this`nodes, head`next, head`prev, nodes`next, nodes`prev
      ensures Valid()
      ensures if old(nodes) == [] then node == null && nodes == []
              else node == old(nodes)[0] && nodes == old(nodes)[1..] && node.next == null && node.prev == null
    {
      EmptyIff();
      if head.next == head {
        node := null;
      } else {
        assert Linked(0) && Linked(1);
        node := head.next;
        var second := node.next;
        second.prev := head;
        head.next := second;
        node.next, node.prev := null, null;
        nodes := nodes[1..];
        forall i | 0 <= i <= |nodes| ensures Linked(i) {
          if i > 0 {
            assert old(Linked(i + 1));
            assert Ring(i) == old(Ring(i + 1)) && Ring(i + 1) == old(Ring(i + 2));
          }
        }
      }
    }

    /** The exit path: every node off the ring and released, once each, in order. */
    method Drain() returns (released: seq<WqNode>)
      requires Valid()
      modifies this`nodes, head`next, head`prev, nodes`next, nodes`prev
      ensures Valid() && nodes == [] && head.next == head && head.prev == head
      ensures released == old(nodes)
      ensures forall i :: 0 <= i < |released| ==> released[i].next == null && released[i].prev == null
    {
      released := [];
      EmptyIff();
      while head.next != head
        invariant Valid() && old(nodes) == released + nodes
        invariant forall i :: 0 <= i < |nodes| ==> nodes[i] in old(nodes)
        invariant forall i :: 0 <= i < |released| ==>
                    released[i] !in nodes && released[i] != head && released[i].next == null && released[i].prev == null
        invariant head.next == head <==> nodes == []
        decreases |nodes|
      {
        var node := TakeFirst();
        released := released + [node];
        EmptyIff();
      }
      assert Linked(0);
    }

    /** process_item as it is written: the loop has no body, so its cursor ends on the
        sentinel, and it is the sentinel that is unlinked and returned as the job. */
    method ProcessItemAsWritten() returns (entry: WqNode)
      requires Valid()
      modifies head`next, head`prev, nodes`next, nodes`prev
      ensures entry == head && entry !in nodes
      ensures head.next == null && head.prev == null
      ensures forall i :: 0 <= i < |nodes| ==>
                && nodes[i].next == nodes[if i + 1 < |nodes| then i + 1 else 0]
                && nodes[i].prev == nodes[if i > 0 then i - 1 else |nodes| - 1]
    {
      assert Linked(0);
      var pos := head.next;
      ghost var i := 1;
      while pos != head
        invariant 1 <= i <= |nodes| + 1 && pos == Ring(i)
        decreases |nodes| + 1 - i
      {
        assert Linked(i);
        pos := pos.next;
        i := i + 1;
      }
      forall k | 0 <= k <= |nodes| ensures Ring(k).next == Ring(k + 1) && Ring(k + 1).prev == Ring(k) {
        assert Linked(k);
      }
      assert Linked(|nodes|);
      var after, before := pos.next, pos.prev;
      after.prev := before;
      before.next := after;
      pos.next, pos.prev := null, null;
      forall k | 0 <= k < |nodes|
        ensures nodes[k].next == nodes[if k + 1 < |nodes| then k + 1 else 0]
        ensures nodes[k].prev == nodes[if k > 0 then k - 1 else |nodes| - 1]
      {
        assert old(Linked(k)) && old(Linked(k + 1));
        assert nodes[k] == old(Ring(k + 1));
      }
      return pos;
    }
  }
}
