/** Client-side consequences of the two containers' contracts: lists built
    by repeated `push_back`, the round trips `push_front`/`pop_front`,
    `push_back`/`pop_back` and `insert`/`remove`, and the call sequence of
    the demo in lab7/main.cpp. */
module Scenarios {
  import opened ListSpec
  import opened Singly
  import opened Doubly

  /** `push_back` of `vs[0]`, ..., `vs[n - 1]` onto a new singly-linked list. */
  method BuildLinkedList<T(==)>(vs: seq<T>) returns (l: LinkedList<T>)
    ensures l.Valid() && fresh(l.Repr) && l.Contents == vs
  {
    l := new LinkedList();
    for k := 0 to |vs|
      invariant l.Valid() && fresh(l.Repr) && l.Contents == vs[..k]
    {
      l.PushBack(vs[k]);
      assert vs[..k + 1] == vs[..k] + [vs[k]];
    }
    assert vs[..|vs|] == vs;
  }

  /** The same for the doubly-linked list. */
  method BuildDoubleLinkedList<T(==)>(vs: seq<T>) returns (l: DoubleLinkedList<T>)
    ensures l.Valid() && fresh(l.Repr) && l.Contents == vs
  {
    l := new DoubleLinkedList();
    for k := 0 to |vs|
      invariant l.Valid() && fresh(l.Repr) && l.Contents == vs[..k]
    {
      l.PushBack(vs[k]);
      assert vs[..k + 1] == vs[..k] + [vs[k]];
    }
    assert vs[..|vs|] == vs;
  }

  /** After pushing `vs` at the back of an empty singly-linked list, `get(i)`
      answers `vs[i]` or fails past the end, `size` is `|vs|`, and `empty`
      holds exactly when the size is 0. */
  method LinkedListQueries<T(==)>(vs: seq<T>, i: nat) returns (r: Result<T>, n: nat, e: bool)
    ensures i < |vs| ==> r == Ok(vs[i])
    ensures i >= |vs| ==> r == Err(IndexOutOfRange)
    ensures n == |vs| && (e <==> n == 0)
  {
    var l := BuildLinkedList(vs);
    r := l.Get(i);
    n := l.Size();
    e := l.Empty();
  }

  /** The same for the doubly-linked list. */
  method DoubleLinkedListQueries<T(==)>(vs: seq<T>, i: nat) returns (r: Result<T>, n: nat, e: bool)
    ensures i < |vs| ==> r == Ok(vs[i])
    ensures i >= |vs| ==> r == Err(IndexOutOfRange)
    ensures n == |vs| && (e <==> n == 0)
  {
    var l := BuildDoubleLinkedList(vs);
    r := l.Get(i);
    n := l.Size();
    e := l.Empty();
  }

  /** `push_front(x)` then `pop_front()` answers `x` and restores the list. */
  method LinkedListFrontRoundTrip<T(==)>(l: LinkedList<T>, x: T) returns (r: Result<T>)
    requires l.Valid()
    modifies l.Repr
    ensures l.Valid() && r == Ok(x) && l.Contents == old(l.Contents)
  {
    l.PushFront(x);
    r := l.PopFront();
  }

  /** `push_back(x)` then `pop_back()` answers `x` and restores the list. */
  method LinkedListBackRoundTrip<T(==)>(l: LinkedList<T>, x: T) returns (r: Result<T>)
    requires l.Valid()
    modifies l.Repr
    ensures l.Valid() && r == Ok(x) && l.Contents == old(l.Contents)
  {
    l.PushBack(x);
    r := l.PopBack();
    assert (old(l.Contents) + [x])[..|old(l.Contents)|] == old(l.Contents);
  }

  /** `insert(i, x)` at a valid index then `remove(i)` answers `x` and
      restores the list. */
  method LinkedListInsertRoundTrip<T(==)>(l: LinkedList<T>, i: nat, x: T) returns (r: Result<T>)
    requires l.Valid() && i <= |l.Contents|
    modifies l.Repr
    ensures l.Valid() && r == Ok(x) && l.Contents == old(l.Contents)
  {
    var ins := l.Insert(i, x);
    r := l.Remove(i);
    RemoveAfterInsert(old(l.Contents), i, x);
  }

  /** `push_front(x)` then `pop_front()` on the doubly-linked list. */
  method DoubleLinkedListFrontRoundTrip<T(==)>(l: DoubleLinkedList<T>, x: T) returns (r: Result<T>)
    requires l.Valid()
    modifies l.Repr
    ensures l.Valid() && r == Ok(x) && l.Contents == old(l.Contents)
  {
    l.PushFront(x);
    r := l.PopFront();
  }

  /** `push_back(x)` then `pop_back()` on the doubly-linked list. */
  method DoubleLinkedListBackRoundTrip<T(==)>(l: DoubleLinkedList<T>, x: T) returns (r: Result<T>)
    requires l.Valid()
    modifies l.Repr
    ensures l.Valid() && r == Ok(x) && l.Contents == old(l.Contents)
  {
    l.PushBack(x);
    r := l.PopBack();
    assert (old(l.Contents) + [x])[..|old(l.Contents)|] == old(l.Contents);
  }

  /** `insert(i, x)` then `remove(i)` on the doubly-linked list. */
  method DoubleLinkedListInsertRoundTrip<T(==)>(l: DoubleLinkedList<T>, i: nat, x: T) returns (r: Result<T>)
    requires l.Valid() && i <= |l.Contents|
    modifies l.Repr
    ensures l.Valid() && r == Ok(x) && l.Contents == old(l.Contents)
  {
    var ins := l.Insert(i, x);
    r := l.Remove(i);
    RemoveAfterInsert(old(l.Contents), i, x);
  }

  /** The sequence-level steps of the singly-linked half of the demo. */
  lemma LinkedListDemoSteps()
    ensures InsertAt([1, 3, 5], 2, 4) == [1, 3, 4, 5]
    ensures RemoveAt([1, 3, 4, 5], 1) == [1, 4, 5]
    ensures [1, 4, 5][1..] == [4, 5] && [4, 5][..1] == [4]
  {
    assert [1, 3, 5][..2] == [1, 3] && [1, 3, 5][2..] == [5];
    assert [1, 3, 4, 5][..1] == [1] && [1, 3, 4, 5][2..] == [4, 5];
  }

  /** The first index holding 4 in [1, 4, 5] is 1. */
  lemma FindInDemo(r: Option<nat>)
    requires r.Some? ==> r.value < 3 && [1, 4, 5][r.value] == 4 && 4 !in [1, 4, 5][..r.value]
    requires r.None? <==> 4 !in [1, 4, 5]
    ensures r == Some(1)
  {
    assert [1, 4, 5][1] == 4;
  }

  /** Three values render with two separators. */
  lemma ThreeText<T>(show: T -> string, a: T, b: T, c: T)
    ensures ListText(show, [a, b, c]) == "[" + show(a) + ", " + show(b) + ", " + show(c) + "]"
  {
    ListTextAppend(show, [a], [b, c]);
    ListTextAppend(show, [b], [c]);
    ListTextShort(show, a);
    ListTextShort(show, b);
    ListTextShort(show, c);
    assert [a] + [b, c] == [a, b, c] && [b] + [c] == [b, c];
  }

  /** The demo's first list: `push_front(3)`, `push_back(5)`, `push_front(1)`. */
  method BuildDemoList() returns (l: LinkedList<int>)
    ensures l.Valid() && fresh(l.Repr) && l.Contents == [1, 3, 5]
  {
    l := new LinkedList<int>();
    l.PushFront(3);
    assert l.Contents == [3];
    l.PushBack(5);
    assert l.Contents == [3, 5];
    l.PushFront(1);
  }

  /** The demo's edits: `insert(2, 4)` gives [1, 3, 4, 5], `remove(1)`
      answers 3 and leaves [1, 4, 5], where 4 is found at index 1. */
  method EditDemoList(l: LinkedList<int>) returns (removed: Result<int>, found: Option<nat>)
    requires l.Valid() && l.Contents == [1, 3, 5]
    modifies l.Repr
    ensures l.Valid() && fresh(l.Repr - old(l.Repr)) && l.Contents == [1, 4, 5]
    ensures removed == Ok(3) && found == Some(1)
  {
    LinkedListDemoSteps();
    var ins := l.Insert(2, 4);
    assert l.Contents == [1, 3, 4, 5];
    removed := l.Remove(1);
    found := l.Find(4);
    FindInDemo(found);
  }

  /** The demo's pops: 1 from the front and 5 from the back, leaving [4]. */
  method PopDemoList(l: LinkedList<int>) returns (front: Result<int>, back: Result<int>)
    requires l.Valid() && l.Contents == [1, 4, 5]
    modifies l.Repr
    ensures l.Valid() && fresh(l.Repr - old(l.Repr)) && l.Contents == [4]
    ensures front == Ok(1) && back == Ok(5)
  {
    LinkedListDemoSteps();
    front := l.PopFront();
    back := l.PopBack();
  }

  /** The singly-linked half of the demo: [1, 3, 5] is built from the front
      and the back; `insert(2, 4)` gives [1, 3, 4, 5]; `remove(1)` answers 3;
      4 is then found at index 1; `pop_front` answers 1 and `pop_back` 5,
      leaving [4]. `show` stands for `operator<<` of `int`. */
  method LinkedListDemo(show: int -> string)
    returns (text: string, size: nat, first: Result<int>, removed: Result<int>,
             found: Option<nat>, front: Result<int>, back: Result<int>, last: string)
    ensures text == "[" + show(1) + ", " + show(3) + ", " + show(5) + "]"
    ensures size == 3 && first == Ok(1) && removed == Ok(3) && found == Some(1)
    ensures front == Ok(1) && back == Ok(5) && last == "[" + show(4) + "]"
  {
    var l := BuildDemoList();
    text := l.Render(show);
    ThreeText(show, 1, 3, 5);
    size := l.Size();
    first := l.Get(0);
    removed, found := EditDemoList(l);
    front, back := PopDemoList(l);
    last := l.Render(show);
    ListTextShort(show, 4);
  }

  /** The doubly-linked half of the demo: "banana" pushed at the front,
      "apple" at the back and "cherry" at the front. */
  method BuildFruitList() returns (l: DoubleLinkedList<string>)
    ensures l.Valid() && fresh(l.Repr) && l.Contents == ["cherry", "banana", "apple"]
  {
    l := new DoubleLinkedList<string>();
    l.PushFront("banana");
    assert l.Contents == ["banana"];
    l.PushBack("apple");
    assert l.Contents == ["banana", "apple"];
    l.PushFront("cherry");
  }

  /** The doubly-linked list of the demo renders as "[cherry, banana, apple]". */
  method DoubleLinkedListDemo() returns (text: string)
    ensures text == "[cherry, banana, apple]"
  {
    var l := BuildFruitList();
    var show := (s: string) => s;
    text := l.Render(show);
    ThreeText(show, "cherry", "banana", "apple");
  }
}
