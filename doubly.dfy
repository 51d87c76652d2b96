/** `DoubleLinkedList<T>` of lab7/main.cpp: the chain of nodes owned from
    `head` through `next`, plus a non-owning `prev` link in every node and a
    non-owning `tail`. Every mutator re-establishes that the two directions
    agree, that `head` has no predecessor and `tail` no successor, and that
    `head` and `tail` are absent together. */
module Doubly {
  import opened ListSpec
  import opened ListNode

  class DoubleLinkedList<T(==)> {
    var head: Node?<T>
    var tail: Node?<T>

    // public view: the values head to tail
    ghost var Contents: seq<T>
    // the nodes of the chain, head first
    ghost var Nodes: seq<Node<T>>
    ghost var Repr: set<object>

    /** The chain from `head` visits `Nodes` in order, each node once; node
        `i` holds `Contents[i]`, its `next` is node `i + 1` and its `prev` is
        node `i - 1` (none at either end); `tail` is the last node. So
        `head` and `tail` are null together, exactly when the list is empty. */
    ghost predicate Valid()
      reads this, Repr
      ensures Valid() ==> this in Repr && (head == null <==> Contents == []) && (head == null <==> tail == null)
    {
      this in Repr &&
      |Nodes| == |Contents| &&
      (forall i :: 0 <= i < |Nodes| ==> Nodes[i] in Repr) &&
      Distinct(Nodes) &&
      head == At(Nodes, 0) &&
      tail == Before(Nodes, |Nodes|) &&
      (forall i :: 0 <= i < |Nodes| ==> Nodes[i].data == Contents[i]) &&
      (forall i {:trigger Nodes[i].next} :: 0 <= i < |Nodes| ==> Nodes[i].next == At(Nodes, i + 1)) &&
      (forall i {:trigger Nodes[i].prev} :: 0 <= i < |Nodes| ==> Nodes[i].prev == Before(Nodes, i))
    }

    /** The nodes met by following `next` links from `c`, at most `fuel` of
        them, stopping at a missing link or at a node outside the list. */
    ghost function WalkForward(c: Node?<T>, fuel: nat): (r: seq<Node<T>>)
      reads this, Repr
      decreases fuel
    {
      if c == null || fuel == 0 || c !in Repr then [] else [c] + WalkForward(c.next, fuel - 1)
    }

    /** The same walk along `prev` links. */
    ghost function WalkBackward(c: Node?<T>, fuel: nat): (r: seq<Node<T>>)
      reads this, Repr
      decreases fuel
    {
      if c == null || fuel == 0 || c !in Repr then [] else [c] + WalkBackward(c.prev, fuel - 1)
    }

    lemma {:induction false} ForwardFrom(k: nat, fuel: nat)
      requires Valid() && k <= |Nodes| && fuel >= |Nodes| - k
      ensures WalkForward(At(Nodes, k), fuel) == Nodes[k..]
      decreases |Nodes| - k
    {
      if k < |Nodes| {
        ForwardFrom(k + 1, fuel - 1);
        assert Nodes[k..] == [Nodes[k]] + Nodes[k + 1..];
      }
    }

    lemma {:induction false} BackwardFrom(k: nat, fuel: nat)
      requires Valid() && k <= |Nodes| && fuel >= k
      ensures WalkBackward(Before(Nodes, k), fuel) == Reversed(Nodes[..k])
    {
      if k > 0 {
        BackwardFrom(k - 1, fuel - 1);
        assert Nodes[..k] == Nodes[..k - 1] + [Nodes[k - 1]];
        ReversedSnoc(Nodes[..k - 1], Nodes[k - 1]);
      }
    }

    /** The structural invariant read along the links themselves: walking
        `next` from `head` visits every node once and then stops, walking
        `prev` from `tail` visits the same nodes in reverse, `head` has no
        predecessor, `tail` has no successor, and one is absent exactly when
        the other is. */
    lemma LinksAgree(fuel: nat)
      requires Valid() && fuel >= |Nodes|
      ensures WalkForward(head, fuel) == Nodes
      ensures WalkBackward(tail, fuel) == Reversed(WalkForward(head, fuel))
      ensures (head == null) <==> (tail == null)
      ensures head != null ==> head.prev == null && tail.next == null
    {
      ForwardFrom(0, fuel);
      BackwardFrom(|Nodes|, fuel);
      assert Nodes[0..] == Nodes && Nodes[..|Nodes|] == Nodes;
    }

    constructor ()
      ensures Valid() && fresh(Repr)
      ensures Contents == []
    {
      head, tail := null, null;
      Contents, Nodes, Repr := [], [], {this};
    }

    /** The new node's `next` is the old head, the old head's `prev` is the
        new node, and an empty list also gets it as its tail. */
    method PushFront(x: T)
      requires Valid()
      modifies Repr
      ensures Valid() && fresh(Repr - old(Repr))
      ensures Contents == [x] + old(Contents)
    {
      var node := new Node(x);
      node.next := head;
      if head != null {
        head.prev := node;
      }
      head := node;
      if tail == null {
        tail := head;
      }
      Contents, Nodes, Repr := [x] + Contents, [node] + Nodes, Repr + {node};
      PushedFront();
    }

    /** `PushFront` keeps the invariant: the new head links to the old one,
        which now points back at it, and no other link changed. */
    twostate lemma PushedFront()
      requires old(Valid()) && head != null && head !in old(Repr)
      requires Nodes == [head] + old(Nodes) && Contents == [head.data] + old(Contents)
      requires Repr == old(Repr) + {head}
      requires tail == if old(tail) == null then head else old(tail)
      requires head.next == old(head) && head.prev == null
      requires old(head) != null ==> old(head).prev == head
      requires forall n :: n in old(Nodes) ==> n.next == old(n.next)
      requires forall n :: n in old(Nodes) && n != old(head) ==> n.prev == old(n.prev)
      ensures Valid()
    {
      ghost var before, nodes := old(Nodes), Nodes;
      DistinctExtend<Node<T>>(before, head);
      forall i | 0 <= i < |nodes| ensures nodes[i] in Repr {
        if i > 0 {
          assert nodes[i] == before[i - 1];
        }
      }
      forall i {:trigger nodes[i].next} | 0 <= i < |nodes| ensures nodes[i].next == At(nodes, i + 1) {
        if i > 0 {
          assert nodes[i] == before[i - 1];
        }
      }
      forall i {:trigger nodes[i].prev} | 0 <= i < |nodes| ensures nodes[i].prev == Before(nodes, i) {
        if i > 1 {
          assert nodes[i] == before[i - 1];
          DistinctAt(before, 0, i - 1);
        }
      }
    }

    /** The new node's `prev` is the old tail, the old tail's `next` is the
        new node, and an empty list also gets it as its head. */
    method PushBack(x: T)
      requires Valid()
      modifies Repr
      ensures Valid() && fresh(Repr - old(Repr))
      ensures Contents == old(Contents) + [x]
    {
      var node := new Node(x);
      var last := tail;
      node.prev := last;
      if last != null {
        last.next := node;
      }
      tail := node;
      if head == null {
        head := node;
      }
      Contents, Nodes, Repr := Contents + [x], Nodes + [node], Repr + {node};
      PushedBack();
    }

    /** `PushBack` keeps the invariant: the new tail links back to the old
        one, which now points forward to it, and no other link changed. */
    twostate lemma PushedBack()
      requires old(Valid()) && tail != null && tail !in old(Repr)
      requires Nodes == old(Nodes) + [tail] && Contents == old(Contents) + [tail.data]
      requires Repr == old(Repr) + {tail}
      requires head == if old(head) == null then tail else old(head)
      requires tail.prev == old(tail) && tail.next == null
      requires old(tail) != null ==> old(tail).next == tail
      requires forall n :: n in old(Nodes) && n != old(tail) ==> n.next == old(n.next)
      requires forall n :: n in old(Nodes) ==> n.prev == old(n.prev)
      ensures Valid()
    {
      ghost var before, nodes := old(Nodes), Nodes;
      DistinctExtend<Node<T>>(before, tail);
      forall i | 0 <= i < |nodes| ensures nodes[i] in Repr {
        if i < |before| {
          assert nodes[i] == before[i];
        }
      }
      forall i {:trigger nodes[i].next} | 0 <= i < |nodes| ensures nodes[i].next == At(nodes, i + 1) {
        if i < |before| - 1 {
          assert nodes[i] == before[i];
          DistinctAt(before, i, |before| - 1);
        }
      }
      forall i {:trigger nodes[i].prev} | 0 <= i < |nodes| ensures nodes[i].prev == Before(nodes, i) {
        if i < |before| {
          assert nodes[i] == before[i];
        }
      }
    }

    /** The successor becomes the head and loses its `prev`; when there is
        none, the tail is cleared too. */
    method PopFront() returns (r: Result<T>)
      requires Valid()
      modifies Repr
      ensures Valid() && fresh(Repr - old(Repr))
      ensures old(Contents) == [] ==> r == Err(EmptyList) && Contents == old(Contents)
      ensures old(Contents) != [] ==> r == Ok(old(Contents)[0]) && Contents == old(Contents)[1..]
    {
      if head == null {
        return Err(EmptyList);
      }
      r := Ok(head.data);
      Contents, Nodes, Repr := Contents[1..], Nodes[1..], Repr - {head};
      head := head.next;
      if head != null {
        head.prev := null;
      } else {
        tail := null;
      }
      PoppedFront();
    }

    /** `PopFront` keeps the invariant: the second node, if any, is the new
        head and has lost its `prev`, and no other link changed. */
    twostate lemma PoppedFront()
      requires old(Valid()) && old(|Nodes|) > 0
      requires Nodes == old(Nodes[1..]) && Contents == old(Contents[1..])
      requires Repr == old(Repr) - {old(head)}
      requires head == old(At(Nodes, 1)) && tail == if old(|Nodes|) == 1 then null else old(tail)
      requires head != null ==> head.prev == null
      requires forall n :: n in old(Nodes) ==> n.next == old(n.next)
      requires forall n :: n in old(Nodes) && n != head ==> n.prev == old(n.prev)
      ensures Valid()
    {
      ghost var before, nodes := old(Nodes), Nodes;
      DistinctSlice(before, 1, |before|);
      assert before[1..|before|] == nodes;
      forall i | 0 <= i < |nodes| ensures nodes[i] in Repr {
        assert nodes[i] == before[i + 1];
        DistinctAt(before, 0, i + 1);
      }
      forall i {:trigger nodes[i].next} | 0 <= i < |nodes| ensures nodes[i].next == At(nodes, i + 1) {
        assert nodes[i] == before[i + 1];
      }
      forall i {:trigger nodes[i].prev} | 0 <= i < |nodes| ensures nodes[i].prev == Before(nodes, i) {
        assert nodes[i] == before[i + 1];
        if i > 0 {
          DistinctAt(before, 1, i + 1);
        }
      }
    }

    /** The tail's predecessor becomes the tail and loses its `next`; when
        there is none, the head is cleared too. */
    method PopBack() returns (r: Result<T>)
      requires Valid()
      modifies Repr
      ensures Valid() && fresh(Repr - old(Repr))
      ensures old(Contents) == [] ==> r == Err(EmptyList) && Contents == old(Contents)
      ensures old(Contents) != [] ==>
                r == Ok(old(Contents)[|old(Contents)| - 1]) &&
                Contents == old(Contents)[..|old(Contents)| - 1]
    {
      var last := tail;
      if last == null {
        return Err(EmptyList);
      }
      r := Ok(last.data);
      Contents, Nodes, Repr := Contents[..|Contents| - 1], Nodes[..|Nodes| - 1], Repr - {last};
      tail := last.prev;
      var prevNode := last.prev;
      if prevNode != null {
        prevNode.next := null;
      } else {
        head := null;
      }
      PoppedBack();
    }

    /** `PopBack` keeps the invariant: the next-to-last node, if any, is the
        new tail and has lost its `next`, and no other link changed. */
    twostate lemma PoppedBack()
      requires old(Valid()) && old(|Nodes|) > 0
      requires Nodes == old(Nodes[..|Nodes| - 1]) && Contents == old(Contents[..|Contents| - 1])
      requires Repr == old(Repr) - {old(tail)}
      requires tail == old(Before(Nodes, |Nodes| - 1))
      requires head == if old(|Nodes|) == 1 then null else old(head)
      requires tail != null ==> tail.next == null
      requires forall n :: n in old(Nodes) && n != tail ==> n.next == old(n.next)
      requires forall n :: n in old(Nodes) ==> n.prev == old(n.prev)
      ensures Valid()
    {
      ghost var before, nodes := old(Nodes), Nodes;
      DistinctSlice(before, 0, |before| - 1);
      forall i | 0 <= i < |nodes| ensures nodes[i] in Repr {
        assert nodes[i] == before[i];
        DistinctAt(before, i, |before| - 1);
      }
      forall i {:trigger nodes[i].next} | 0 <= i < |nodes| ensures nodes[i].next == At(nodes, i + 1) {
        assert nodes[i] == before[i];
        if i < |nodes| - 1 {
          DistinctAt(before, i, |before| - 2);
        }
      }
      forall i {:trigger nodes[i].prev} | 0 <= i < |nodes| ensures nodes[i].prev == Before(nodes, i) {
        assert nodes[i] == before[i];
      }
    }

    method Get(index: nat) returns (r: Result<T>)
      requires Valid()
      ensures index < |Contents| ==> r == Ok(Contents[index])
      ensures index >= |Contents| ==> r == Err(IndexOutOfRange)
    {
      var current := head;
      for i := 0 to index
        invariant i <= |Nodes| && current == At(Nodes, i)
      {
        if current == null {
          return Err(IndexOutOfRange);
        }
        current := current.next;
      }
      if current == null {
        return Err(IndexOutOfRange);
      }
      r := Ok(current.data);
    }

    /** Index 0 goes through `PushFront`; otherwise the walk takes `index`
        steps, failing if it runs off the chain before the last step; landing
        one past the end goes through `PushBack`, and landing on a node
        splices the new node in front of it. */
    method Insert(index: nat, x: T) returns (r: Result<()>)
      requires Valid()
      modifies Repr
      ensures Valid() && fresh(Repr - old(Repr))
      ensures index <= |old(Contents)| ==>
                r == Ok(()) && Contents == InsertAt(old(Contents), index, x)
      ensures index > |old(Contents)| ==>
                r == Err(IndexOutOfRange) && Contents == old(Contents)
    {
      if index == 0 {
        PushFront(x);
        InsertAtEnds(old(Contents), x);
        return Ok(());
      }
      var node := new Node(x);
      var current := head;
      for i := 0 to index
        invariant i <= |Nodes| && current == At(Nodes, i)
      {
        if current == null {
          return Err(IndexOutOfRange);
        }
        current := current.next;
      }
      if current == null {
        PushBack(x);
        InsertAtEnds(old(Contents), x);
        return Ok(());
      }
      assert current == Nodes[index];
      node.prev := current.prev;
      node.next := current;
      LinkBefore(current, node, index);
      r := Ok(());
    }

    /** The splicing step of `insert`, once the walk has reached node `index`
        (not the first): the new node takes over the current node's `prev`,
        gets the current node as its `next`, and both neighbours are pointed
        at it. */
    method LinkBefore(current: Node<T>, node: Node<T>, ghost index: nat)
      requires Valid() && 0 < index < |Nodes| && current == Nodes[index] && node !in Repr
      requires node.next == current && node.prev == Nodes[index - 1]
      modifies Repr
      ensures Valid() && Repr == old(Repr) + {node}
      ensures Contents == InsertAt(old(Contents), index, node.data)
    {
      var prevNode := node.prev;
      assert node !in Nodes;
      if prevNode != null {
        prevNode.next := node;
      }
      current.prev := node;
      Contents, Nodes, Repr := InsertAt(Contents, index, node.data), InsertAt(Nodes, index, node), Repr + {node};
      assert Nodes[index - 1] == prevNode && Nodes[index] == node && Nodes[index + 1] == current;
      LinkedBefore(index);
    }

    /** `LinkBefore` keeps the invariant: only the new node and its two
        neighbours have different links, and the chain reads the old one
        with the new node at position `index`. */
    twostate lemma LinkedBefore(index: nat)
      requires old(Valid()) && 0 < index < old(|Nodes|) && index < |Nodes|
      requires Nodes == InsertAt(old(Nodes), index, Nodes[index]) && Nodes[index] !in old(Repr)
      requires Contents == InsertAt(old(Contents), index, Nodes[index].data)
      requires Repr == old(Repr) + {Nodes[index]} && head == old(head) && tail == old(tail)
      requires Nodes[index].next == Nodes[index + 1] && Nodes[index].prev == Nodes[index - 1]
      requires Nodes[index - 1].next == Nodes[index] && Nodes[index + 1].prev == Nodes[index]
      requires forall n :: n in old(Nodes) && n != Nodes[index - 1] ==> n.next == old(n.next)
      requires forall n :: n in old(Nodes) && n != Nodes[index + 1] ==> n.prev == old(n.prev)
      ensures Valid()
    {
      ghost var before, nodes := old(Nodes), Nodes;
      InsertAtDistinct(before, index, nodes[index]);
      forall i {:trigger nodes[i].next} | 0 <= i < |nodes| ensures nodes[i].next == At(nodes, i + 1) {
        if i < index - 1 {
          assert nodes[i] == before[i] && nodes[i + 1] == before[i + 1];
          DistinctAt(before, i, index - 1);
        } else if index < i {
          assert nodes[i] == before[i - 1];
          DistinctAt(before, index - 1, i - 1);
        }
      }
      forall i {:trigger nodes[i].prev} | 0 <= i < |nodes| ensures nodes[i].prev == Before(nodes, i) {
        if i < index {
          assert nodes[i] == before[i];
          DistinctAt(before, i, index);
        } else if index + 1 < i {
          assert nodes[i] == before[i - 1];
          DistinctAt(before, index, i - 1);
        }
      }
    }

    /** An empty list fails first, whatever the index; index 0 goes through
        `PopFront`; otherwise the walk takes `index` steps, failing if it runs
        off the chain, and the node reached is unlinked from both neighbours
        (its predecessor becomes the tail when it was the last). */
    method Remove(index: nat) returns (r: Result<T>)
      requires Valid()
      modifies Repr
      ensures Valid() && fresh(Repr - old(Repr))
      ensures old(Contents) == [] ==> r == Err(EmptyList) && Contents == old(Contents)
      ensures old(Contents) != [] && index >= |old(Contents)| ==>
                r == Err(IndexOutOfRange) && Contents == old(Contents)
      ensures index < |old(Contents)| ==>
                r == Ok(old(Contents)[index]) && Contents == RemoveAt(old(Contents), index)
    {
      if head == null {
        return Err(EmptyList);
      }
      if index == 0 {
        RemoveAtFront(Contents);
        r := PopFront();
        return;
      }
      var current := head;
      for i := 0 to index
        invariant i <= |Nodes| && current == At(Nodes, i)
      {
        if current == null {
          return Err(IndexOutOfRange);
        }
        current := current.next;
      }
      if current == null {
        return Err(IndexOutOfRange);
      }
      r := Ok(current.data);
      var prevNode := current.prev;
      var nextNode := current.next;
      assert current == Nodes[index] && prevNode == Nodes[index - 1] && nextNode == At(Nodes, index + 1);
      Unlink(prevNode, nextNode, index);
    }

    /** The unlinking step of `remove`, once the walk has reached node
        `index` (not the first): the predecessor is pointed at the successor
        and the successor back at the predecessor; when there is no successor
        the predecessor becomes the tail. */
    method Unlink(prevNode: Node?<T>, nextNode: Node?<T>, ghost index: nat)
      requires Valid() && 0 < index < |Nodes|
      requires prevNode == Nodes[index - 1] && nextNode == At(Nodes, index + 1)
      modifies Repr
      ensures Valid() && Repr == old(Repr) - {old(Nodes[index])}
      ensures Contents == RemoveAt(old(Contents), index)
    {
      if prevNode != null {
        prevNode.next := nextNode;
      }
      if nextNode != null {
        nextNode.prev := prevNode;
      } else {
        tail := prevNode;
      }
      Contents, Nodes, Repr := RemoveAt(Contents, index), RemoveAt(Nodes, index), Repr - {Nodes[index]};
      Unlinked(index);
    }

    /** `Unlink` keeps the invariant: only the two neighbours of the removed
        node have different links, and the chain reads the old one without
        position `index`. */
    twostate lemma Unlinked(index: nat)
      requires old(Valid()) && 0 < index < old(|Nodes|)
      requires Contents == RemoveAt(old(Contents), index)
      requires Nodes == RemoveAt(old(Nodes), index) && Repr == old(Repr) - {old(Nodes[index])}
      requires head == old(head)
      requires tail == if index + 1 == old(|Nodes|) then old(Nodes[index - 1]) else old(tail)
      requires old(Nodes[index - 1]).next == old(At(Nodes, index + 1))
      requires index + 1 < old(|Nodes|) ==> old(Nodes[index + 1]).prev == old(Nodes[index - 1])
      requires forall n :: n in old(Nodes) && n != old(Nodes[index - 1]) ==> n.next == old(n.next)
      requires forall n :: n in old(Nodes) && n != old(At(Nodes, index + 1)) ==> n.prev == old(n.prev)
      ensures Valid()
    {
      ghost var before, nodes := old(Nodes), Nodes;
      RemoveAtDistinct(before, index);
      forall i | 0 <= i < |nodes| ensures nodes[i] in Repr {
        if i < index {
          assert nodes[i] == before[i];
          DistinctAt(before, i, index);
        } else {
          assert nodes[i] == before[i + 1];
          DistinctAt(before, index, i + 1);
        }
      }
      forall i {:trigger nodes[i].next} | 0 <= i < |nodes| ensures nodes[i].next == At(nodes, i + 1) {
        if i < index - 1 {
          assert nodes[i] == before[i] && nodes[i + 1] == before[i + 1];
          DistinctAt(before, i, index - 1);
        } else if index <= i {
          assert nodes[i] == before[i + 1];
          DistinctAt(before, index - 1, i + 1);
        }
      }
      forall i {:trigger nodes[i].prev} | 0 <= i < |nodes| ensures nodes[i].prev == Before(nodes, i) {
        if i < index {
          assert nodes[i] == before[i];
          if index + 1 < |before| {
            DistinctAt(before, i, index + 1);
          }
        } else if index < i {
          assert nodes[i] == before[i + 1];
          DistinctAt(before, index + 1, i + 1);
        }
      }
    }

    /** Counts the nodes by walking the whole chain. */
    method Size() returns (n: nat)
      requires Valid()
      ensures n == |Contents|
    {
      n := 0;
      var current := head;
      while current != null
        invariant n <= |Nodes| && current == At(Nodes, n)
        decreases |Nodes| - n
      {
        n := n + 1;
        current := current.next;
      }
    }

    method Empty() returns (b: bool)
      requires Valid()
      ensures b <==> Contents == []
    {
      b := head == null;
    }

    /** The first index holding `x`, or no match. */
    method Find(x: T) returns (r: Option<nat>)
      requires Valid()
      ensures r.Some? ==> r.value < |Contents| && Contents[r.value] == x && x !in Contents[..r.value]
      ensures r.None? <==> x !in Contents
    {
      var current := head;
      var index := 0;
      while current != null
        invariant index <= |Nodes| && current == At(Nodes, index)
        invariant x !in Contents[..index]
        decreases |Nodes| - index
      {
        if current.data == x {
          return Some(index);
        }
        current := current.next;
        index := index + 1;
      }
      assert Contents[..index] == Contents;
      return None;
    }

    /** `operator<<`: writes each element's text, then ", " when the node has
        a successor, between "[" and "]". */
    method Render(show: T -> string) returns (out: string)
      requires Valid()
      ensures out == ListText(show, Contents)
    {
      out := "[";
      var current := head;
      ghost var k := 0;
      while current != null
        invariant k <= |Nodes| && current == At(Nodes, k)
        invariant out == "[" + Written(show, Contents, k)
        decreases |Nodes| - k
      {
        WrittenStep(show, Contents, k);
        out := out + show(current.data);
        if current.next != null {
          out := out + ", ";
        }
        current := current.next;
        k := k + 1;
      }
      WrittenAll(show, Contents);
      out := out + "]";
    }
  }
}
