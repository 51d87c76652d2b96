# Verified model of the lab7 linked lists

This project models the two generic containers of `lab7/main.cpp` in Dafny:

- `LinkedList<T>` is a singly-linked chain of nodes owned from `head`.
- `DoubleLinkedList<T>` adds a non-owning `prev` link in every node and a non-owning `tail`.

Each container is a Dafny class whose fields are the source's own (`head`, plus `tail` in the doubly-linked list). It works on heap `Node<T>` objects with mutable `next` and `prev` links. Every operation is a method. The operations that walk the chain (`push_back` and `pop_back` of the singly-linked list, `get`, `insert`, `remove`, `size`, `find` and `operator<<`) use the source's `while`/`for` loops with a cursor. The mutators rewire links in place, as the C++ does.

Ghost state describes what the chain means:
- `Contents` is the values from head to tail.
- `Nodes` is the nodes in chain order.
- `Repr` is the footprint.

`Valid()` ties the ghost state to the links:
- node `i` holds `Contents[i]` and its `next` is node `i + 1`;
- in the doubly-linked list, its `prev` is node `i - 1`;
- no node occurs twice;
- `head` is the first node, and `tail` is the last.

Every operation is proved against the sequence it leaves in `Contents`. `find` answers an `Option`.

A thrown `std::out_of_range` becomes an `Err` result of the datatype `ListSpec.Result` (`ListSpec.Ok` carries the value). The datatype `ListSpec.ListError` has one constructor per message:
- `EmptyList` ("List is empty"): lines 43 and 52 (`pop_front` and `pop_back`), 108 (`remove`), 210 and 225 (`pop_front` and `pop_back`), 278 (`remove`).
- `IndexOutOfRange` ("Index out "): lines 74 and 79 (`get`), 94 and 100 (`insert`), 117 and 123 (`remove`), 241 and 246 (`get`), 260 (`insert`), 286 and 291 (`remove`).

Each method's `ensures` names the error for every input that reaches a throw, and states that such a call changes nothing.

Files:
- `list_spec.dfy` (module `ListSpec`): the result types and the sequence meaning of indexed insertion, indexed removal and rendering. It also has the duplicate-freedom predicate used by the invariants.
- `node.dfy` (module `ListNode`): `Node<T>`, and `At` and `Before`, the node at a cursor position of a chain and the node in front of it.
- `singly.dfy` (module `Singly`): `LinkedList<T>`.
- `doubly.dfy` (module `Doubly`): `DoubleLinkedList<T>`. `LinksAgree` restates its invariant along the links: walking `prev` from `tail` is the reverse of walking `next` from `head`, `head.prev` and `tail.next` are absent, and `head` is absent exactly when `tail` is.
- `scenarios.dfy` (module `Scenarios`): client-side consequences. These are lists built by `push_back`, the `push`/`pop` and `insert`/`remove` round trips, and the call sequence of the demo `main`.

Every path of a mutator that rewires links between nodes ends by assigning the new ghost state and calling a two-state lemma (`PushedFront`, `Unlinked`, …). The other paths do not: the empty-list branch of the singly-linked `PushBack` only sets `head` and proves `Valid()` directly, and the index-0 and at-the-end branches of `Insert` and `Remove` hand off to `PushFront`, `PopFront` or `PushBack`. The lemma shows that the links the method rewired re-establish `Valid()`. Its preconditions list exactly which links changed and that all others kept their old targets.

In `DoubleLinkedList.insert`, the final splice (lines 268-273) is a separate method, `LinkBefore`. The method `Insert` walks to the node and sets the new node's own two links. `LinkBefore` then points the two neighbours at the new node. In the same way, `remove` reads the neighbours of the node it reached, and `Unlink` performs lines 298-305. The order of the link writes is the source's.

`get`, `size`, `empty`, `find` and `operator<<` are methods without a `modifies` clause, so they provably change nothing.

## Model

| member | source | states |
|---|---|---|
| ListNode.Node.constructor | lab7/main.cpp:6-12 | a new node holds the given value and has no successor and no predecessor |
| ListSpec.InsertAt | lab7/main.cpp:84-104 | the meaning of `insert(i, x)`: one element longer, `x` at `i`, elements before `i` unchanged, elements from `i` on shifted one place |
| ListSpec.RemoveAt | lab7/main.cpp:106-130 | the meaning of `remove(i)`: one element shorter, elements before `i` unchanged, elements after `i` shifted back one place |
| ListSpec.RemoveAfterInsert | lab7/main.cpp:84-130 | removing at `i` what was inserted at `i` restores the sequence |
| ListSpec.InsertAfterRemove | lab7/main.cpp:84-130 | re-inserting the removed element at its index restores the sequence |
| ListSpec.RemoveAtFront | lab7/main.cpp:110-112 | `remove(0)` delegating to `pop_front` removes the same element |
| ListSpec.InsertAtEnds | lab7/main.cpp:251-267 | inserting at 0 is `push_front` and inserting at the length is `push_back`, as `insert` delegates |
| ListSpec.DistinctPairwise | lab7/main.cpp:14-17 | the chain invariant "each node differs from every later one" is the same as "all nodes pairwise different" |
| ListSpec.InsertAtDistinct | lab7/main.cpp:89-103 | splicing a node not yet in the chain keeps the nodes pairwise different |
| ListSpec.RemoveAtDistinct | lab7/main.cpp:125-128 | unlinking a node keeps the rest pairwise different and leaves the unlinked node out |
| ListSpec.ListText | lab7/main.cpp:336-348 | the meaning of `operator<<`: the text is bracketed by `[` and `]`, and the first element's text follows `[` directly |
| ListSpec.ShownAppend | lab7/main.cpp:162-168 | the element texts of a concatenation are the texts of its two parts, in order: the rendering loop never reorders, drops or merges elements |
| ListSpec.ListTextShort | lab7/main.cpp:159-171 | an empty list renders as `[]` and a one-element list as `[x]`, with no separator |
| ListSpec.ListTextAppend | lab7/main.cpp:159-171 | rendering a concatenation puts exactly one `", "` at the seam: separators stand between elements only, never after the last |
| ListSpec.WrittenStep | lab7/main.cpp:162-168 | one pass of the rendering loop writes the element's text, then `", "` exactly when a successor follows |
| ListSpec.WrittenAll | lab7/main.cpp:161-169 | after the loop, adding `"]"` gives `"["` + the texts joined by `", "` + `"]"` |
| ListSpec.ReversedSnoc | lab7/main.cpp:174-181 | reversing a sequence extended at the back puts that element first (how the `prev` walk from `tail` reads the chain) |
| Singly.LinkedList.Valid | lab7/main.cpp:14-20 | the chain invariant: following `next` from `head` visits each node once, node `i` holds element `i`, the last node has no successor, and `head` is absent exactly when the list is empty |
| Singly.LinkedList.constructor | lab7/main.cpp:20 | a new list is empty and valid |
| Singly.LinkedList.PushFront | lab7/main.cpp:22-26 | the contents become `[x] + old contents`; the invariant is kept |
| Singly.LinkedList.PushedFront | lab7/main.cpp:24-25 | the new head linked to the old head, with no other link changed, satisfies the invariant |
| Singly.LinkedList.PushBack | lab7/main.cpp:28-39 | the contents become `old contents + [x]`, both for an empty list (new head) and after the walk to the last node |
| Singly.LinkedList.PushedBack | lab7/main.cpp:34-38 | the old last node linked to the new node, with no other link changed, satisfies the invariant |
| Singly.LinkedList.PopFront | lab7/main.cpp:41-48 | on an empty list, `EmptyList` and nothing changes; otherwise the first element is returned and removed |
| Singly.LinkedList.PoppedFront | lab7/main.cpp:45-46 | making the second node the head satisfies the invariant for the remaining nodes |
| Singly.LinkedList.PopBack | lab7/main.cpp:50-68 | on an empty list, `EmptyList` and nothing changes; otherwise the last element is returned and removed, a one-element list going through `pop_front` |
| Singly.LinkedList.PoppedBack | lab7/main.cpp:57-66 | cutting the next-to-last node's link satisfies the invariant for the remaining nodes |
| Singly.LinkedList.Get | lab7/main.cpp:70-82 | `Ok(Contents[i])` for `i` below the length, `IndexOutOfRange` otherwise (also on an empty list) |
| Singly.LinkedList.Insert | lab7/main.cpp:84-104 | for `i` up to the length, `Ok` and `InsertAt(old contents, i, x)`; beyond it, `IndexOutOfRange` and nothing changes |
| Singly.LinkedList.Inserted | lab7/main.cpp:102-103 | the new node between nodes `i - 1` and `i` (or after the last), with no other link changed, satisfies the invariant |
| Singly.LinkedList.Remove | lab7/main.cpp:106-130 | on an empty list `EmptyList` for every index; otherwise `IndexOutOfRange` for `i` at or past the length, with nothing changed; else `Ok(old contents[i])` and `RemoveAt(old contents, i)` |
| Singly.LinkedList.Removed | lab7/main.cpp:125-128 | linking node `i - 1` to node `i + 1`, with no other link changed, satisfies the invariant without node `i` |
| Singly.LinkedList.Size | lab7/main.cpp:132-140 | the count equals the length of the contents |
| Singly.LinkedList.Empty | lab7/main.cpp:142-144 | true exactly when the contents are empty |
| Singly.LinkedList.Find | lab7/main.cpp:146-157 | `Some(k)` with `Contents[k] == x` and no earlier `x`, or `None` exactly when `x` does not occur |
| Singly.LinkedList.Render | lab7/main.cpp:159-171 | the text written is `ListText(show, Contents)`: `"["`, the elements' texts separated by `", "`, `"]"` |
| Doubly.DoubleLinkedList.Valid | lab7/main.cpp:174-181 | the doubly-linked invariant: node `i`'s `next` is node `i + 1` and its `prev` is node `i - 1`, so the links agree both ways; `head` has no `prev` and `tail` is the last node, with no `next`; no node occurs twice; `head` is absent exactly when `tail` is, and exactly when the list is empty |
| Doubly.DoubleLinkedList.constructor | lab7/main.cpp:181 | a new list is empty and valid, with no head and no tail |
| Doubly.DoubleLinkedList.LinksAgree | lab7/main.cpp:174-181 | under the invariant, walking `next` from `head` visits every node once, walking `prev` from `tail` visits them in reverse, `head.prev` and `tail.next` are absent, and `head` is absent exactly when `tail` is |
| Doubly.DoubleLinkedList.PushFront | lab7/main.cpp:183-193 | the contents become `[x] + old contents`; an empty list also gets the node as its tail; the invariant is kept |
| Doubly.DoubleLinkedList.PushedFront | lab7/main.cpp:185-192 | the new head linked to the old head, the old head linked back, and the tail set when it was absent, with no other link changed, satisfy the invariant |
| Doubly.DoubleLinkedList.PushBack | lab7/main.cpp:195-206 | the contents become `old contents + [x]`; an empty list also gets the node as its head; the invariant is kept |
| Doubly.DoubleLinkedList.PushedBack | lab7/main.cpp:197-205 | the new tail linked back to the old tail, the old tail linked forward, and the head set when it was absent, with no other link changed, satisfy the invariant |
| Doubly.DoubleLinkedList.PopFront | lab7/main.cpp:208-220 | on an empty list, `EmptyList` and nothing changes; otherwise the first element is returned and removed |
| Doubly.DoubleLinkedList.PoppedFront | lab7/main.cpp:213-218 | the second node as head without `prev`, or no tail when none is left, satisfies the invariant |
| Doubly.DoubleLinkedList.PopBack | lab7/main.cpp:222-235 | on an empty list, `EmptyList` and nothing changes; otherwise the last element is returned and removed |
| Doubly.DoubleLinkedList.PoppedBack | lab7/main.cpp:228-233 | the tail's predecessor as tail without `next`, or no head when none is left, satisfies the invariant |
| Doubly.DoubleLinkedList.Get | lab7/main.cpp:237-249 | `Ok(Contents[i])` for `i` below the length, `IndexOutOfRange` otherwise |
| Doubly.DoubleLinkedList.Insert | lab7/main.cpp:251-274 | for `i` up to the length, `Ok` and `InsertAt(old contents, i, x)`, with `i` equal to the length going through `push_back`; beyond it, `IndexOutOfRange` and nothing changes |
| Doubly.DoubleLinkedList.LinkBefore | lab7/main.cpp:268-273 | splicing a prepared node in front of node `i` (not the first) gives `InsertAt(old contents, i, value)` and keeps the invariant |
| Doubly.DoubleLinkedList.LinkedBefore | lab7/main.cpp:268-273 | the new node between nodes `i - 1` and `i`, linked both ways, with no other link changed, satisfies the invariant |
| Doubly.DoubleLinkedList.Remove | lab7/main.cpp:276-307 | on an empty list `EmptyList` for every index; `IndexOutOfRange` for `i` at or past the length, with nothing changed; else `Ok(old contents[i])` and `RemoveAt(old contents, i)` |
| Doubly.DoubleLinkedList.Unlink | lab7/main.cpp:296-305 | bypassing node `i` (not the first) in both directions, and moving the tail back when it was the last, gives `RemoveAt(old contents, i)` and keeps the invariant |
| Doubly.DoubleLinkedList.Unlinked | lab7/main.cpp:298-305 | nodes `i - 1` and `i + 1` linked to each other (or `i - 1` becoming the tail), with no other link changed, satisfy the invariant without node `i` |
| Doubly.DoubleLinkedList.Size | lab7/main.cpp:309-317 | the count equals the length of the contents |
| Doubly.DoubleLinkedList.Empty | lab7/main.cpp:319-321 | true exactly when the contents are empty |
| Doubly.DoubleLinkedList.Find | lab7/main.cpp:323-334 | `Some(k)` with `Contents[k] == x` and no earlier `x`, or `None` exactly when `x` does not occur |
| Doubly.DoubleLinkedList.Render | lab7/main.cpp:336-348 | the text written is `ListText(show, Contents)` |
| Scenarios.BuildLinkedList | lab7/main.cpp:28-39 | `push_back` of `v1 … vn` onto a new singly-linked list leaves exactly `[v1, …, vn]` |
| Scenarios.BuildDoubleLinkedList | lab7/main.cpp:195-206 | the same for the doubly-linked list |
| Scenarios.LinkedListQueries | lab7/main.cpp:70-144 | after pushing `vs`, `get(i)` is `vs[i]` or `IndexOutOfRange` past the end, `size` is the length of `vs`, and `empty` holds exactly when the size is 0 |
| Scenarios.DoubleLinkedListQueries | lab7/main.cpp:237-321 | the same for the doubly-linked list |
| Scenarios.LinkedListFrontRoundTrip | lab7/main.cpp:22-48 | `push_front(x)` then `pop_front()` returns `x` and restores the contents |
| Scenarios.LinkedListBackRoundTrip | lab7/main.cpp:28-68 | `push_back(x)` then `pop_back()` returns `x` and restores the contents |
| Scenarios.LinkedListInsertRoundTrip | lab7/main.cpp:84-130 | `insert(i, x)` at a valid index then `remove(i)` returns `x` and restores the contents |
| Scenarios.DoubleLinkedListFrontRoundTrip | lab7/main.cpp:183-220 | `push_front(x)` then `pop_front()` returns `x` and restores the contents |
| Scenarios.DoubleLinkedListBackRoundTrip | lab7/main.cpp:195-235 | `push_back(x)` then `pop_back()` returns `x` and restores the contents |
| Scenarios.DoubleLinkedListInsertRoundTrip | lab7/main.cpp:251-307 | `insert(i, x)` then `remove(i)` returns `x` and restores the contents |
| Scenarios.LinkedListDemo | lab7/main.cpp:352-374 | the demo's singly-linked sequence: `[1, 3, 5]`, size 3, element 0 is 1, `remove(1)` after `insert(2, 4)` returns 3, 4 is found at index 1, the pops return 1 and 5, and `[4]` is left |
| Scenarios.DoubleLinkedListDemo | lab7/main.cpp:382-386 | the demo's doubly-linked list renders as `[cherry, banana, apple]` |

## Left out

- Reference counting by `std::shared_ptr`/`std::weak_ptr` and node destruction are not modelled. A node belongs to a list exactly when it is on the chain from `head`. A popped or removed node simply leaves `Repr`. `tail.expired()` and a failed `lock()` are read as "no tail" and "no predecessor".
- Heap-wrapped return values (`std::make_shared<T>`, `std::make_shared<size_t>`) are returned as plain values inside `Result`/`Option`.
- The exception messages are not modelled. Only the two failure kinds are kept.
- Writing to `std::ostream` is not modelled. `Render` returns the text, and its `show` parameter stands for `operator<<` of `T`.
- `size_t` is modelled as `nat`, without wrap-around: a list cannot be long enough for an index or count to overflow.
- `main` itself, including its console output and try/catch, is not modelled. Its call sequence is replayed in `Scenarios.LinkedListDemo` and `Scenarios.DoubleLinkedListDemo`. The integers' texts are left as the parameter `show`.
- The `prev` field of the nodes of a `LinkedList` is never set by that class. Its invariant says nothing about it.
