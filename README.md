# Persistent singly-linked list

This project models `List<T>` from `src/list.hpp`: an immutable, structurally shared,
singly-linked list node. Each node holds a `const` value, a `const` shared pointer to the
rest of the chain (or null), and a `const` size cached when the node is built. There is no
empty list, so every chain has at least one element.

The model is pure, like the header itself: no field is ever assigned after construction,
and no operation has a loop.

- `PersistentList.List` is a datatype `Node(value, next, size)`. `next` is an
  `Option<List<T>>`, and `None` stands for the null pointer.
- `Valid` says that every node's cached size is one more than its tail's size.
- `Elems` maps a chain to the sequence of its values.
- `Follow` walks `k` tail pointers from a chain.
- The constructor is `Cons`.
- Positional insertion is `Insert`. It checks the position, then calls `InsertAt` (the
  recursive `_insert`). `InsertAt` uses `InsertFirst` and `InsertSecond`.
- Comparison is `NotEqual` (`operator!=`) and `Equal` (`operator==`).
- `Wrappers` provides `Option` and `Result`.
- The `invalid_argument` exception becomes `Failure(InvalidArgument(message))`, with the
  header's message text.

`operator!=` has a fast path: it compares tail pointers by address
(`this->next != list.next`). A datatype value has no address, so the comparison takes the
identity test as a parameter `same`. The model assumes only one thing about `same`: two
nodes it calls identical are equal values (`SoundIdentity`). The result is proved to be
the same for every such test.

## Model

| member | source | states |
|---|---|---|
| `PersistentList.Cons` | src/list.hpp:32-34 | the new node is valid, caches 1 for a null tail and `next->size + 1` otherwise, so its size is its number of elements and at least 1; its elements are the value followed by the tail's |
| `PersistentList.SizeIsLength` | src/list.hpp:10-12 | in every valid chain the cached size equals the number of elements and is at least 1 |
| `PersistentList.LastNodeIffSizeOne` | src/list.hpp:33 | a valid node's tail pointer is null exactly when its cached size is 1 |
| `PersistentList.InsertFirst` | src/list.hpp:24-26 | the result is valid, has size `size + 1`, and holds the new value in front of all the receiver's elements |
| `PersistentList.InsertSecond` | src/list.hpp:27-30 | on a one-element chain the result is valid, has size 2, and its elements are the receiver's element followed by the new value |
| `PersistentList.InsertAt` | src/list.hpp:14-23 | for every `position <= size`, the result is valid, has size `size + 1`, and its elements are `Elems[..position] + [value] + Elems[position..]`; a null tail is never followed, and the recursive call's precondition `position - 1 <= next->size` holds, with `position` decreasing |
| `PersistentList.Insert` | src/list.hpp:38-46 | fails with `invalid_argument` ("Position should not be greater than list size") exactly when `position > size`; otherwise it returns a valid chain of size `size + 1` whose elements are the receiver's with `value` spliced in at `position`; the position defaults to 0 |
| `PersistentList.InsertFrontSharesReceiver` | src/list.hpp:14-26 | insert at position 0 returns a node holding the new value whose tail is the receiver itself, with size `size + 1` |
| `PersistentList.InsertAtEndAppends` | src/list.hpp:17-18 | insert at position `size` succeeds, and its elements are the receiver's followed by the new value, which is last |
| `PersistentList.AppendReachesLastNode` | src/list.hpp:17-30 | following `size - 1` tail pointers from a valid chain reaches a valid node with size 1 and a null tail; at that depth, the result of inserting at position `size` is exactly what `insertSecond` builds on that last node (the node's value followed by the new value) |
| `PersistentList.InsertSharesSuffix` | src/list.hpp:14-30 | in the result, the node at depth `position` holds the new value, and the chain after it is the receiver's own sub-chain at depth `position`, which is null when appending |
| `PersistentList.SharedSuffixIsReceiverNode` | src/list.hpp:20-25 | for `position < size` the shared suffix is an actual node of the receiver, and it holds the receiver's elements from `position` on |
| `PersistentList.AppendToSingletonExample` | src/list.hpp:17-18 | on a one-element chain `[x]`, `insert(v, 1)` gives `[x, v]` |
| `PersistentList.PrependToSingletonExample` | src/list.hpp:38-46 | on a one-element chain `[x]`, `insert(v, 0)` gives `[v, x]`, and `insert(v, 2)` fails with `invalid_argument` |
| `PersistentList.NotEqual` | src/list.hpp:48-53 | `operator!=` is true exactly when the two chains' element sequences differ, for every sound identity test on tail pointers |
| `PersistentList.Equal` | src/list.hpp:54-56 | `operator==` is the negation of `operator!=`, and it is true exactly when the element sequences are equal |
| `PersistentList.EqualIffSameSizeAndValues` | src/list.hpp:48-56 | two valid chains compare equal exactly when they have the same size and pairwise-equal values in order |
| `PersistentList.DifferentSizesUnequal` | src/list.hpp:50 | valid chains of different sizes compare unequal under both operators |
| `PersistentList.SharedTailSkipsComparison` | src/list.hpp:52 | when both tails are the same node, only the head values decide |
| `PersistentList.ComparisonIgnoresIdentity` | src/list.hpp:52 | the result of `operator!=` does not depend on which identical nodes the pointer test recognises |
| `PersistentList.InsertRespectsEquality` | src/list.hpp:38-56 | inserting the same value at the same position into two equal chains either fails for both or gives equal chains |

## Left out

- Memory management is left out: `std::shared_ptr`, `enable_shared_from_this`, reference counts and the empty destructor. The model's values are garbage-collected datatypes.
- Calling `insert(value, 0)` on a node that no `shared_ptr` owns is undefined behaviour in C++ and is not modelled.
- Physical identity is not modelled. "The suffix is the receiver's own sub-chain" is stated as equality of datatype values. The model cannot tell a shared node from an equal copy, and it does not count how many nodes are freshly allocated.
- The receiver's immutability holds by construction, because datatype values cannot change. No separate "unchanged" property is stated.
- `size` and `position` are `unsigned` in C++. The model uses unbounded naturals, so the wrap-around of the cached size on a chain of 2^32 nodes is not modelled. Neither is a negative argument converted to a huge unsigned position.
- The deleted copy constructor and the deleted raw-pointer constructor are compile-time guards with no behaviour.
- The dynamic exception specification `throw (std::invalid_argument)` is C++ syntax. The exception is modelled as a `Failure` result.
- The element type's own `!=` is modelled by Dafny equality on `T`.
- The gtest files `tests/unit/testlist.hpp` and `tests/unit/testlist.cpp` assert no behaviour. They also default-construct and copy `List`, which the header does not allow.
- `remove`, `slice`, `reverse`, `drop`, `concat`, `append`, `fill`, `get`/`set` and iterative teardown are not part of this model. `src/list.hpp` does not define them.
