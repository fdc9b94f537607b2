# Doubly linked list with sentinels, in Dafny

This project models `List<T>` and `Node<T>` from `doublelist/doublelist.cpp`.
That is a generic doubly linked list with two permanent sentinel nodes, `head`
and `tail`, and a `len` counter. Each operation is proved against an abstract
sequence of data nodes.

The model is organised like this:

- **Arena** (`arena.dfy`). Nodes live in a value-typed heap `Heap<T>`: a map
  from addresses to `Node(data, prev, next)` plus the next free address.
  `std::make_shared` becomes `Alloc`. Each pointer write in the source
  (`x->next = …`, `x->prev = …`, `x->data = …`, `std::swap` of two payloads)
  is one heap update. A sentinel's payload is the tag `Sentinel`; a data node
  holds `Item(value)`. An empty `shared_ptr`/`weak_ptr` is `None`.
- **DoubleList** (`doublelist.dfy`). This holds the `List` record
  `(head, tail, len)` and the representation invariant `Valid(h, l, ns)`. The
  ghost sequence `ns` lists the data nodes in forward order. `Valid` requires:
  - two distinct sentinels;
  - `head->prev` and `tail->next` empty;
  - `next`/`prev` agreeing on every adjacent pair of `head, ns…, tail`;
  - `ns` duplicate-free, every node in it a data node;
  - `len == |ns|`.

  `Values(h, ns)` is the element sequence the list stands for. The module also
  holds the O(1) operations as functions: the default constructor, both
  `PushFront`/`PushBack` overloads, `Remove`, `MoveToFront`, `MoveToBack`,
  `Front`, `Back`, `IsEmpty` and `Size`. It ends with the laws that relate
  several calls.
- **Traversals** (`traversals.dfy`). The members of `List<T>` that walk the
  chain, as methods with loop invariants: `Search`, `Reverse`, `operator==`,
  `PushBack(initializer_list)`, the initializer-list constructor and the copy
  constructor. They belong to the same C++ struct as the members in
  `DoubleList`. They live in a module of their own because they are
  imperative loops over the finished O(1) layer, while `DoubleList` holds the
  invariant, the pointer splices and their proofs. `Traversals` only imports
  `DoubleList`; nothing flows back.
- **Scenarios** (`scenarios.dfy`). The program's `main` and related usage:
  - the opening of `main` on its own integers: build `0..5`, compare it with
    `==`, move the front to the back and back again, remove the `2` that
    `Search` finds, and reverse;
  - `List<int>({ 1,2,3,4,5 })` having size 5;
  - for every list: draining with `Remove(Front())`, and writing through the
    end handles of a list after copying it;
  - reversing twice (the round-trip property of `Reverse`).

Every mutator takes the ghost `ns` of its list and returns the new heap, plus
the list record where that can change (`Reverse` returns only the heap). Its
contract gives the new `ns` and `Values`, and says which nodes it may have
touched. The queries (`Front`, `Back`, `Search`, `operator==`, `IsEmpty`,
`Size`) return only their answer.

## Model

| member | source | states |
|---|---|---|
| DoubleList.AbstractionUnique | doublelist/doublelist.cpp:20-28 | The heap and the sentinels fix the data-node sequence: two sequences that both satisfy the invariant for the same list are equal. |
| DoubleList.NewList | doublelist/doublelist.cpp:30-37 | The default constructor yields a valid list with no data nodes and `len == 0`. Both sentinels are newly allocated, and no existing node changes. |
| DoubleList.PushFrontNode | doublelist/doublelist.cpp:113-120 | Linking an unlinked data node after `head` gives node sequence `[n] + ns` and elements `[x] + old`. `len` grows by one, and only `head`, `n` and the old first node are written. |
| DoubleList.PushBackNode | doublelist/doublelist.cpp:127-134 | Linking an unlinked data node before `tail` gives node sequence `ns + [n]` and elements `old + [x]`. `len` grows by one, and only `tail`, `n` and the old last node are written. |
| DoubleList.PushFront | doublelist/doublelist.cpp:108-111 | Pushing a value at the front gives elements `[x] + old` on a newly allocated node, with `len + 1`. |
| DoubleList.PushBack | doublelist/doublelist.cpp:122-125 | Pushing a value at the back gives elements `old + [x]` on a newly allocated node, with `len + 1`. |
| DoubleList.Remove | doublelist/doublelist.cpp:144-152 | A null handle changes nothing. Otherwise exactly that node leaves the sequence, the others keep their order and elements, and `len` drops by one. The node's `prev`/`next` are cleared and its payload kept. Only the node and its two neighbours are written. |
| DoubleList.MoveToFront | doublelist/doublelist.cpp:154-159 | A null handle changes nothing. Otherwise the result is `[n] + (ns without n)`, with the elements permuted the same way and `len` unchanged. No node outside the list changes. |
| DoubleList.MoveToBack | doublelist/doublelist.cpp:161-166 | A null handle changes nothing. Otherwise the result is `(ns without n) + [n]`, with the elements permuted the same way and `len` unchanged. No node outside the list changes. |
| DoubleList.Back | doublelist/doublelist.cpp:168-172 | Fails with `EmptyList` exactly when the list has no data node. Otherwise it returns the last data node, never a sentinel. |
| DoubleList.Front | doublelist/doublelist.cpp:174-178 | Fails with `EmptyList` exactly when the list has no data node. Otherwise it returns the first data node, never a sentinel. |
| DoubleList.IsEmpty | doublelist/doublelist.cpp:206-209 | The `head->next == tail` test holds exactly when there are no data nodes, which is exactly when `Size() == 0`. |
| DoubleList.Size | doublelist/doublelist.cpp:211-214 | The stored counter equals the number of data nodes between the sentinels and the length of the element sequence. |
| DoubleList.MoveFrontToFront | doublelist/doublelist.cpp:154-159 | `MoveToFront(Front())` on a non-empty list keeps the node sequence, the elements and the list record. |
| DoubleList.MoveBackToBack | doublelist/doublelist.cpp:161-172 | `MoveToBack(Back())` on a non-empty list keeps the node sequence, the elements and the list record. |
| DoubleList.MoveFrontToBack | doublelist/doublelist.cpp:242-247 | `MoveToBack(Front())` rotates the nodes and the elements left by one. |
| DoubleList.MoveToFrontAt | doublelist/doublelist.cpp:154-159 | Moving the node at position `k` to the front yields `[ns[k]]` followed by the other nodes in order, and likewise for the elements. |
| DoubleList.MoveBackToFront | doublelist/doublelist.cpp:249-253 | Moving the last node to the front rotates the nodes and the elements right by one. |
| DoubleList.MoveRoundTrip | doublelist/doublelist.cpp:242-253 | `MoveToBack(Front())` followed by `MoveToFront(Back())` restores the original node sequence, elements and list record. |
| Traversals.Search | doublelist/doublelist.cpp:180-192 | Returns null exactly when no element equals the target. Otherwise it returns the data node at the first position whose element equals the target. |
| Traversals.CursorsMet | doublelist/doublelist.cpp:198 | Each of the four ways the `Reverse` loop can stop implies that at most one unswapped element lies between the cursors: cursor at a sentinel, cursors equal, or cursors crossed. |
| Traversals.ReverseStep | doublelist/doublelist.cpp:199-203 | Swapping the payloads at positions `k` and `n-1-k` keeps every link. It extends the mirrored outer part by one position on each side. |
| Traversals.Reverse | doublelist/doublelist.cpp:194-204 | The links, `len` and every node outside the list are unchanged, and the element sequence becomes its reverse. This covers lists of even and odd length. |
| Traversals.Equal | doublelist/doublelist.cpp:83-99 | Returns true exactly when the two element sequences are equal, i.e. same length and pairwise-equal elements in traversal order. This includes the same-instance short-cut. |
| Traversals.PushBackItems | doublelist/doublelist.cpp:136-142 | Appending a sequence of items gives elements `old + xs` on new nodes after the old ones, with `len` grown by `|xs|`. |
| Traversals.FromItems | doublelist/doublelist.cpp:39-45 | The initializer-list constructor yields a list whose elements are the items in order, with `len == |xs|`. All nodes are new. |
| Traversals.Copy | doublelist/doublelist.cpp:47-55 | The copy has the source's elements in order and is built only from newly allocated nodes. The source stays valid with unchanged elements. |
| Traversals.WriteThroughHandle | doublelist/doublelist.cpp:281-282 | Writing `data` through the handle of the node at position `k` changes exactly element `k` and keeps the list valid. |
| Traversals.WriteElsewhere | doublelist/doublelist.cpp:281-289 | Writing through a handle of a node outside a list leaves that list's elements and validity unchanged. |
| Scenarios.RemoveFront | doublelist/doublelist.cpp:264-268 | `Remove(Front())` drops the first node and the first element and unlinks the removed node. It changes no node outside the list. |
| Scenarios.Drain | doublelist/doublelist.cpp:264-270 | Removing the front until `IsEmpty()` leaves an empty valid list with `Size() == 0`. Every former data node ends up with cleared links. |
| Scenarios.ReverseTwice | doublelist/doublelist.cpp:194-204 | Reversing twice gives back the original elements without moving any node. |
| Scenarios.EqualsItems | doublelist/doublelist.cpp:39-45 | Comparing a list with a newly built `List<T>(items)` by `==` yields true exactly when the list's elements are `items`. |
| Scenarios.BuildZeroToFive | doublelist/doublelist.cpp:234-240 | `List<int>({1,2})`, `PushBack(3)`, `PushBack({4,5})` and `PushFront(0)` give the elements `0,1,2,3,4,5` and size 6. |
| Scenarios.RotateAndRestore | doublelist/doublelist.cpp:242-253 | On `0..5`, `MoveToBack(Front())` gives `1,2,3,4,5,0` with back `0` and front `1`. Then `MoveToFront(Back())` gives `0..5` again, size 6, with back `5` and front `0`. |
| Scenarios.SearchRemoveTwo | doublelist/doublelist.cpp:255-259 | On `0..5`, removing the node that `Search(2)` returns leaves `0,1,3,4,5`. |
| Scenarios.ReverseFive | doublelist/doublelist.cpp:261-262 | `Reverse()` on `0,1,3,4,5` gives `5,4,3,1,0`. |
| Scenarios.SelfTestOpening | doublelist/doublelist.cpp:233-262 | Chaining the steps above from an empty heap: every `==` against a literal list holds, and the list ends as `5,4,3,1,0` with size 5. |
| Scenarios.FiveItems | doublelist/doublelist.cpp:271-279 | `List<int>({1,2,3,4,5})` has size 5 and compares equal to the same items. |
| Scenarios.CopyThenWriteEnds | doublelist/doublelist.cpp:278-289 | After copying a list and writing `x` through the original's front and back handles, the original's first and last elements are `x`. The copy still holds the old elements. |

## Left out

- `Print` (doublelist/doublelist.cpp:216-230) writes to `std::cout`; console output is not modelled.
- `main` (doublelist/doublelist.cpp:233-293) is a self-test, not a model member. `Scenarios` replays it through line 279 on its own integers. It states the drain of lines 264-270 and the copy-then-write of lines 281-289 for every list; the concrete values `-111` are not replayed.
- The destructor (doublelist/doublelist.cpp:71-81) clears links so that reference counts reach zero. The arena has no deallocation, so there is nothing to model.
- Ownership is not modelled: `shared_ptr`/`weak_ptr` reference counting is absent, and `weak_ptr::lock()` is a plain address read.
- The move constructor, copy-and-swap `operator=` and `Swap` (doublelist/doublelist.cpp:57-69, doublelist/doublelist.cpp:101-106) are not modelled. `Swap` leaves the source without sentinels, so it has no valid state to describe.
- `len` is an unbounded natural. Wrap-around of `std::size_t` would need more than 2^64 nodes and is not modelled.
- Calls that crash or corrupt the list in C++ are excluded by preconditions rather than modelled:
  - `Remove`, `MoveToFront` or `MoveToBack` of a node not linked in this list;
  - `PushFront(node)` or `PushBack(node)` of a node that is still linked in it.
- `std::make_shared` always allocates at the heap's next free address. The contracts of `PushFront`, `PushBack` and the constructors name that address or say the nodes are new.
- Sentinels hold the tag `Sentinel` rather than a default-constructed `T()`, so `T` needs no default value.
- The exception that `Front`/`Back` throw on an empty list is the `Failure(EmptyList)` result.
- Element comparison in `Search` and `operator==` is Dafny's equality, which is reflexive. An element type whose `!=` is not reflexive is not covered.
- `operator==`'s `this == &rhs` test is modelled as equality of the two list records, i.e. the same sentinels.
