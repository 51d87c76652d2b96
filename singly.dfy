/** `LinkedList<T>` of lab7/main.cpp: a chain of nodes owned from `head`,
    each owning its successor. There is no size counter and no tail, so
    `push_back`, `pop_back`, `size` and the indexed operations walk the chain
    from `head`. */
module Singly {
  import opened ListSpec
  import opened ListNode

  class LinkedList<T(==)> {
    var head: Node?<T>

    // public view: the values head to tail
    ghost var Contents: seq<T>
    // the nodes of the chain, head first
    ghost var Nodes: seq<Node<T>>
    ghost var Repr: set<object>

    /** The chain from `head` visits `Nodes` in order, each node once, the
        last one has no successor, and node `i` holds `Contents[i]`; so
        `head` is null exactly when the list is empty. */
    ghost predicate Valid()
      reads this, Repr
      ensures Valid() ==> this in Repr && (head == null <==> Contents == [])
    {
      this in Repr &&
      |Nodes| == |Contents| &&
      (forall i :: 0 <= i < |Nodes| ==> Nodes[i] in Repr) &&
      Distinct(Nodes) &&
      head == At(Nodes, 0) &&
      (forall i :: 0 <= i < |Nodes| ==> Nodes[i].data == Contents[i]) &&
      (forall i {:trigger Nodes[i].next} :: 0 <= i < |Nodes| ==> Nodes[i].next == At(Nodes, i + 1))
    }

    constructor ()
      ensures Valid() && fresh(Repr)
      ensures Contents == []
    {
      head := null;
      Contents, Nodes, Repr := [], [], {this};
    }

    method PushFront(x: T)
      requires Valid()
      modifies Repr
      ensures Valid() && fresh(Repr - old(Repr))
      ensures Contents == [x] + old(Contents)
    {
      var node := new Node(x);
      node.next := head;
      head := node;
      Contents, Nodes, Repr := [x] + Contents, [node] + Nodes, Repr + {node};
      PushedFront();
    }

    /** `PushFront` keeps the invariant: the new head links to the old one
        and no other link changed. */
    twostate lemma PushedFront()
      requires old(Valid()) && head != null && head !in old(Repr)
      requires Nodes == [head] + old(Nodes) && Contents == [head.data] + old(Contents)
      requires Repr == old(Repr) + {head} && head.next == old(head)
      requires forall n :: n in old(Nodes) ==> n.next == old(n.next)
      ensures Valid()
    {
      ghost var before, nodes := old(Nodes), Nodes;
      DistinctExtend<Node<T>>(before, head);
      forall i | 0 <= i < |nodes| ensures nodes[i] in Repr {
        if i > 0 {
          assert nodes[i] == before[i - 1];
        }
      }
      forall i {:trigger nodes[i].next} | 0 <= i < |nodes| ensures nodes[i].next == At(nodes, i + 1) {
        if i > 0 {
          assert nodes[i] == before[i - 1];
        }
      }
    }

    /** An empty list gets the new node as its head; otherwise the walk
        stops at the last node, which gets the new node as its successor. */
    method PushBack(x: T)
      requires Valid()
      modifies Repr
      ensures Valid() && fresh(Repr - old(Repr))
      ensures Contents == old(Contents) + [x]
    {
      var node := new Node(x);
      if head == null {
        head := node;
        DistinctExtend(Nodes, node);
        assert Nodes + [node] == [node];
        Contents, Nodes, Repr := [x], [node], Repr + {node};
        return;
      }
      var current := head;
      ghost var k := 0;
      while current.next != null
        invariant k < |Nodes| && current == Nodes[k]
        decreases |Nodes| - k
      {
        current := current.next;
        k := k + 1;
      }
      assert k == |Nodes| - 1;
      current.next := node;
      Contents, Nodes, Repr := Contents + [x], Nodes + [node], Repr + {node};
      PushedBack(node);
    }

    /** `PushBack` on a non-empty list keeps the invariant: the old last
        node links to the new one, which has no successor, and no other link
        changed. */
    twostate lemma PushedBack(new node: Node<T>)
      requires old(Valid()) && old(|Nodes|) > 0 && node !in old(Repr)
      requires Nodes == old(Nodes) + [node] && Contents == old(Contents) + [node.data]
      requires Repr == old(Repr) + {node} && head == old(head)
      requires node.next == null && old(Nodes[|Nodes| - 1]).next == node
      requires forall n :: n in old(Nodes) && n != old(Nodes[|Nodes| - 1]) ==> n.next == old(n.next)
      ensures Valid()
    {
      ghost var before, nodes := old(Nodes), Nodes;
      DistinctExtend(before, node);
      forall i | 0 <= i < |nodes| ensures nodes[i] in Repr {
        if i < |before| {
          assert nodes[i] == before[i];
        }
      }
      forall i {:trigger nodes[i].next} | 0 <= i < |nodes| ensures nodes[i].next == At(nodes, i + 1) {
        if i < |before| - 1 {
          assert nodes[i] == before[i] && nodes[i + 1] == before[i + 1];
          DistinctAt(before, i, |before| - 1);
        }
      }
    }

    /** The successor of the head becomes the head. */
    method PopFront() returns (r: Result<T>)
      requires Valid()
      modifies Repr
      ensures Valid() && fresh(Repr - old(Repr))
      ensures old(Contents) == [] ==> r == Err(EmptyList) && Contents == old(Contents)
      ensures old(Contents) != [] ==> r == Ok(old(Contents)[0]) && Contents == old(Contents)[1..]
    {
      if head == null {
        return Err(EmptyList);
      }
      r := Ok(head.data);
      Contents, Nodes, Repr := Contents[1..], Nodes[1..], Repr - {head};
      head := head.next;
      PoppedFront();
    }

    /** `PopFront` keeps the invariant: the second node, if any, is the new
        head, and no link changed. */
    twostate lemma PoppedFront()
      requires old(Valid()) && old(|Nodes|) > 0
      requires Nodes == old(Nodes[1..]) && Contents == old(Contents[1..])
      requires Repr == old(Repr) - {old(head)} && head == old(At(Nodes, 1))
      requires forall n :: n in old(Nodes) ==> n.next == old(n.next)
      ensures Valid()
    {
      ghost var before, nodes := old(Nodes), Nodes;
      DistinctSlice(before, 1, |before|);
      assert before[1..|before|] == nodes;
      forall i | 0 <= i < |nodes| ensures nodes[i] in Repr {
        assert nodes[i] == before[i + 1];
        DistinctAt(before, 0, i + 1);
      }
      forall i {:trigger nodes[i].next} | 0 <= i < |nodes| ensures nodes[i].next == At(nodes, i + 1) {
        assert nodes[i] == before[i + 1];
      }
    }

    /** On a one-element list this is `PopFront`; otherwise the walk stops at
        the last node and its predecessor's link is cut. */
    method PopBack() returns (r: Result<T>)
      requires Valid()
      modifies Repr
      ensures Valid() && fresh(Repr - old(Repr))
      ensures old(Contents) == [] ==> r == Err(EmptyList) && Contents == old(Contents)
      ensures old(Contents) != [] ==>
                r == Ok(old(Contents)[|old(Contents)| - 1]) &&
                Contents == old(Contents)[..|old(Contents)| - 1]
    {
      if head == null {
        return Err(EmptyList);
      }
      if head.next == null {
        r := PopFront();
        return;
      }
      var current := head;
      var prev: Node?<T> := null;
      ghost var k := 0;
      while current.next != null
        invariant k < |Nodes| && current == Nodes[k]
        invariant prev == Before(Nodes, k)
        decreases |Nodes| - k
      {
        prev := current;
        current := current.next;
        k := k + 1;
      }
      assert k == |Nodes| - 1 && 0 < k;
      r := Ok(current.data);
      if prev != null {
        prev.next := null;
      }
      Contents, Nodes, Repr := Contents[..k], Nodes[..k], Repr - {current};
      PoppedBack();
    }

    /** `PopBack` on a list of two or more keeps the invariant: the
        next-to-last node has lost its successor, and no other link changed. */
    twostate lemma PoppedBack()
      requires old(Valid()) && old(|Nodes|) > 1
      requires Nodes == old(Nodes[..|Nodes| - 1]) && Contents == old(Contents[..|Contents| - 1])
      requires Repr == old(Repr) - {old(Nodes[|Nodes| - 1])} && head == old(head)
      requires old(Nodes[|Nodes| - 2]).next == null
      requires forall n :: n in old(Nodes) && n != old(Nodes[|Nodes| - 2]) ==> n.next == old(n.next)
      ensures Valid()
    {
      ghost var before, nodes := old(Nodes), Nodes;
      ghost var k := |before| - 1;
      DistinctSlice(before, 0, k);
      forall i | 0 <= i < |nodes| ensures nodes[i] in Repr {
        assert nodes[i] == before[i];
        DistinctAt(before, i, k);
      }
      forall i {:trigger nodes[i].next} | 0 <= i < |nodes| ensures nodes[i].next == At(nodes, i + 1) {
        assert nodes[i] == before[i];
        if i < k - 1 {
          assert nodes[i + 1] == before[i + 1];
          DistinctAt(before, i, k - 1);
        }
      }
    }

    method Get(index: nat) returns (r: Result<T>)
      requires Valid()
      ensures index < |Contents| ==> r == Ok(Contents[index])
      ensures index >= |Contents| ==> r == Err(IndexOutOfRange)
    {
      var current := head;
      for i := 0 to index
        invariant i <= |Nodes| && current == At(Nodes, i)
      {
        if current == null {
          return Err(IndexOutOfRange);
        }
        current := current.next;
      }
      if current == null {
        return Err(IndexOutOfRange);
      }
      r := Ok(current.data);
    }

    /** Index 0 goes through `PushFront`; otherwise the walk takes `index`
        steps, failing if it runs off the chain, and links the new node after
        the last node it passed. */
    method Insert(index: nat, x: T) returns (r: Result<()>)
      requires Valid()
      modifies Repr
      ensures Valid() && fresh(Repr - old(Repr))
      ensures index <= |old(Contents)| ==>
                r == Ok(()) && Contents == InsertAt(old(Contents), index, x)
      ensures index > |old(Contents)| ==>
                r == Err(IndexOutOfRange) && Contents == old(Contents)
    {
      if index == 0 {
        PushFront(x);
        InsertAtEnds(old(Contents), x);
        return Ok(());
      }
      var node := new Node(x);
      var current := head;
      var prev: Node?<T> := null;
      for i := 0 to index
        invariant i <= |Nodes| && current == At(Nodes, i)
        invariant prev == Before(Nodes, i)
      {
        if current == null {
          return Err(IndexOutOfRange);
        }
        prev := current;
        current := current.next;
      }
      if prev == null {
        return Err(IndexOutOfRange);
      }
      assert prev == Nodes[index - 1];
      node.next := current;
      prev.next := node;
      Contents, Nodes, Repr := InsertAt(Contents, index, x), InsertAt(Nodes, index, node), Repr + {node};
      Inserted(index);
      r := Ok(());
    }

    /** `Insert` past the front keeps the invariant: the node before
        position `index` links to the new node, which links to the old node
        `index` (or to nothing at the end), and no other link changed. */
    twostate lemma Inserted(index: nat)
      requires old(Valid()) && 0 < index <= old(|Nodes|) && index < |Nodes|
      requires Nodes == InsertAt(old(Nodes), index, Nodes[index]) && Nodes[index] !in old(Repr)
      requires Contents == InsertAt(old(Contents), index, Nodes[index].data)
      requires Repr == old(Repr) + {Nodes[index]} && head == old(head)
      requires Nodes[index].next == old(At(Nodes, index)) && Nodes[index - 1].next == Nodes[index]
      requires forall n :: n in old(Nodes) && n != Nodes[index - 1] ==> n.next == old(n.next)
      ensures Valid()
    {
      ghost var before, nodes := old(Nodes), Nodes;
      InsertAtDistinct(before, index, nodes[index]);
      forall i | 0 <= i < |nodes| ensures nodes[i] in Repr {
        if i < index {
          assert nodes[i] == before[i];
        } else if index < i {
          assert nodes[i] == before[i - 1];
        }
      }
      forall i {:trigger nodes[i].next} | 0 <= i < |nodes| ensures nodes[i].next == At(nodes, i + 1) {
        if i < index - 1 {
          assert nodes[i] == before[i] && nodes[i + 1] == before[i + 1];
          DistinctAt(before, i, index - 1);
        } else if index < i {
          assert nodes[i] == before[i - 1];
          DistinctAt(before, index - 1, i - 1);
        }
      }
    }

    /** An empty list fails first, whatever the index; index 0 goes through
        `PopFront`; otherwise the walk takes `index` steps and the node it
        reaches is unlinked from its predecessor. */
    method Remove(index: nat) returns (r: Result<T>)
      requires Valid()
      modifies Repr
      ensures Valid() && fresh(Repr - old(Repr))
      ensures old(Contents) == [] ==> r == Err(EmptyList) && Contents == old(Contents)
      ensures old(Contents) != [] && index >= |old(Contents)| ==>
                r == Err(IndexOutOfRange) && Contents == old(Contents)
      ensures index < |old(Contents)| ==>
                r == Ok(old(Contents)[index]) && Contents == RemoveAt(old(Contents), index)
    {
      if head == null {
        return Err(EmptyList);
      }
      if index == 0 {
        RemoveAtFront(Contents);
        r := PopFront();
        return;
      }
      var current := head;
      var prev: Node?<T> := null;
      for i := 0 to index
        invariant i <= |Nodes| && current == At(Nodes, i)
        invariant prev == Before(Nodes, i)
      {
        if current == null {
          return Err(IndexOutOfRange);
        }
        prev := current;
        current := current.next;
      }
      if current == null {
        return Err(IndexOutOfRange);
      }
      assert prev == Nodes[index - 1] && current == Nodes[index];
      r := Ok(current.data);
      if prev != null {
        prev.next := current.next;
      }
      Contents, Nodes, Repr := RemoveAt(Contents, index), RemoveAt(Nodes, index), Repr - {current};
      Removed(index);
    }

    /** `Remove` past the front keeps the invariant: the node before
        position `index` links to the one after it, and no other link
        changed. */
    twostate lemma Removed(index: nat)
      requires old(Valid()) && 0 < index < old(|Nodes|)
      requires Nodes == RemoveAt(old(Nodes), index) && Contents == RemoveAt(old(Contents), index)
      requires Repr == old(Repr) - {old(Nodes[index])} && head == old(head)
      requires old(Nodes[index - 1]).next == old(At(Nodes, index + 1))
      requires forall n :: n in old(Nodes) && n != old(Nodes[index - 1]) ==> n.next == old(n.next)
      ensures Valid()
    {
      ghost var before, nodes := old(Nodes), Nodes;
      RemoveAtDistinct(before, index);
      forall i | 0 <= i < |nodes| ensures nodes[i] in Repr {
        if i < index {
          assert nodes[i] == before[i];
          DistinctAt(before, i, index);
        } else {
          assert nodes[i] == before[i + 1];
          DistinctAt(before, index, i + 1);
        }
      }
      forall i {:trigger nodes[i].next} | 0 <= i < |nodes| ensures nodes[i].next == At(nodes, i + 1) {
        if i < index - 1 {
          assert nodes[i] == before[i] && nodes[i + 1] == before[i + 1];
          DistinctAt(before, i, index - 1);
        } else if index <= i {
          assert nodes[i] == before[i + 1];
          DistinctAt(before, index - 1, i + 1);
        }
      }
    }

    /** Counts the nodes by walking the whole chain. */
    method Size() returns (n: nat)
      requires Valid()
      ensures n == |Contents|
    {
      n := 0;
      var current := head;
      while current != null
        invariant n <= |Nodes| && current == At(Nodes, n)
        decreases |Nodes| - n
      {
        n := n + 1;
        current := current.next;
      }
    }

    method Empty() returns (b: bool)
      requires Valid()
      ensures b <==> Contents == []
    {
      b := head == null;
    }

    /** The first index holding `x`, or no match. */
    method Find(x: T) returns (r: Option<nat>)
      requires Valid()
      ensures r.Some? ==> r.value < |Contents| && Contents[r.value] == x && x !in Contents[..r.value]
      ensures r.None? <==> x !in Contents
    {
      var current := head;
      var index := 0;
      while current != null
        invariant index <= |Nodes| && current == At(Nodes, index)
        invariant x !in Contents[..index]
        decreases |Nodes| - index
      {
        if current.data == x {
          return Some(index);
        }
        current := current.next;
        index := index + 1;
      }
      assert Contents[..index] == Contents;
      return None;
    }

    /** `operator<<`: writes each element's text, then ", " when the node has
        a successor, between "[" and "]". */
    method Render(show: T -> string) returns (out: string)
      requires Valid()
      ensures out == ListText(show, Contents)
    {
      out := "[";
      var current := head;
      ghost var k := 0;
      while current != null
        invariant k <= |Nodes| && current == At(Nodes, k)
        invariant out == "[" + Written(show, Contents, k)
        decreases |Nodes| - k
      {
        WrittenStep(show, Contents, k);
        out := out + show(current.data);
        if current.next != null {
          out := out + ", ";
        }
        current := current.next;
        k := k + 1;
      }
      WrittenAll(show, Contents);
      out := out + "]";
    }
  }
}
