# Persistent singly linked list with reference-counted nodes

This project models `src/third.rs`, a persistent (immutable, structurally
shared) singly linked list. A `List` handle owns one counted reference (`Rc`)
to its head node. `prepend` builds a new head node that shares the old chain.
`tail` hands out a new handle on the second node of the same chain. `head`
reads the front element, and `iter` walks the chain by borrowing nodes.
`Drop for List` tears a chain down with a loop instead of recursion. The loop
frees nodes for as long as its reference is the only one. It stops at the
first node that something else still shares.

The model has three layers:

- `PersistentList` (`persistent_list.dfy`) treats nodes as immutable values.
  `new`, `prepend`, `tail` and `head` are functions, specified against the
  sequence of elements a handle stands for.
- `Arena` (`arena.dfy`) is the node store that the `Rc`s live in. Slot `i`
  holds node `i`, with its element and the index of its successor. `rc[i]` is
  the node's reference count, and `held[i]` is how many references to it are
  held from outside the store, by handles that have not been dropped. Nodes
  are only built by `prepend`, so a successor always has a smaller index.
  That makes every chain finite and acyclic.
  - The invariant `Consistent` makes every count exact: `rc[i]` is the number
    of handles on `i` plus the number of nodes whose `next` is `i`.
  - It follows that a node is live exactly when a held node reaches it
    (`LiveIffReachable`).
  - The `Rc` operations are the primitives `RcClone`, `RcNew`, `RcTryUnwrap`
    and `RcDropShared`.
  - `Teardown` is the loop of `drop`.
- `RcList` (`rc_list.dfy`) holds the handles:
  - the class `Heap`, which holds the store;
  - the class `List`, a handle whose `head` is an index;
  - the class `Iter`, the iterator's cursor.

  Each handle operation is proved equal to the value-level function on the
  chain it reads (`Heap.Model`). It is also proved to keep the counts exact
  and to leave every other handle's list unchanged.

## Model

| member | source | states |
|---|---|---|
| PersistentList.New | src/third.rs:28-32 | a new list holds no elements |
| PersistentList.Prepend | src/third.rs:34-41 | the new list is `elem` followed by the old list's elements; its head node links to the old list's head node itself (sharing) |
| PersistentList.Tail | src/third.rs:43-52 | the tail holds all elements but the first (none for an empty list); it is the original's own second node |
| PersistentList.Head | src/third.rs:54-58 | `None` exactly when the list is empty, otherwise the first element |
| PersistentList.TailOfPrepend | src/third.rs:34-52 | the tail of a prepended list is the original list, and its head is the prepended element |
| PersistentList.TailsOfEmpty | src/third.rs:43-52 | taking the tail of an empty list any number of times gives the empty list |
| PersistentList.ElementsOfTails | src/third.rs:43-52 | `k` tails drop exactly the first `k` elements, or all of them when there are fewer |
| PersistentList.HeadOfTails | src/third.rs:43-58 | the head after `k` tails is the `k`-th element, and `None` once the elements run out |
| PersistentList.Basics | src/third.rs:86-103 | the `basics` test: heads 3, 2, 1, then `None` twice |
| Arena.ChainBelow | src/third.rs:34-41 | every node after the first on a chain has a smaller index than the first, because `prepend` only links to existing nodes |
| Arena.ChainFresh | src/third.rs:34-41 | no node appears twice on a chain: chains have no cycles |
| Arena.NewestUnreferenced | src/third.rs:34-41 | no node links to the most recently built node; only a handle can hold it |
| Arena.Referenced | src/third.rs:22-25 | a node that another node links to has not been freed |
| Arena.ChainLive | src/third.rs:22-25 | every node on the chain of a live node is live |
| Arena.LiveIffReachable | src/third.rs:6 | under exact counts, a node is live exactly when a node held by some handle reaches it |
| Arena.NoLeak | src/third.rs:69-80 | once no handle holds any node, every node has been freed: counting cannot leak a chain |
| Arena.AllocKeepsCounts | src/third.rs:36-39 | building a node whose `next` takes over a held reference keeps every count exact |
| Arena.FreeKeepsCounts | src/third.rs:73-74 | freeing a node whose count is one keeps every count exact; its `next` reference passes to the holder |
| Arena.ViewAfterAlloc | src/third.rs:34-41 | adding a node changes no existing chain |
| Arena.ViewOfLive | src/third.rs:69-80 | if every live slot is unchanged, every chain starting at a live node reads the same list |
| Arena.ChainOfLive | src/third.rs:69-80 | if every live slot is unchanged, the chain of a live node visits the same nodes |
| Arena.ReachableOfLive | src/third.rs:69-80 | reachability from held nodes does not depend on slots that are no longer live |
| Arena.KeptIffReachable | src/third.rs:69-80 | after freeing only non-live slots, a node is live exactly when a remaining handle reaches it through the old links, and every remaining handle reads the same list |
| Arena.RcClone | src/third.rs:38 | `Rc::clone` adds one count and one held reference to the linked node, and nothing else |
| Arena.RcNew | src/third.rs:36-39 | `Rc::new` fills a fresh slot with count one; the node reads `elem` followed by the old chain, and no existing chain changes |
| Arena.RcTryUnwrap | src/third.rs:73-74 | `Rc::try_unwrap` succeeds exactly when the count is one, and then no other handle or node refers to the node; it frees the node and passes its `next` to the caller; on failure nothing changes |
| Arena.RcDropShared | src/third.rs:75-77 | dropping the reference to a shared node lowers its count by one, and the node stays live |
| Arena.Teardown | src/third.rs:69-80 | the `drop` loop terminates; counts stay exact; the handle's reference is released; no slot that is still live was touched |
| RcList.List.New | src/third.rs:28-32 | the new handle has no head, so it takes no reference and reads the empty list |
| RcList.List.Wrap | src/third.rs:35-40 | the `List { head }` literal: the handle's head is exactly the reference it is given, which it takes over |
| RcList.List.Prepend | src/third.rs:34-41 | the new handle reads `PersistentList.Prepend` of this one; it owns a fresh slot with count one; the old head's count goes up by one; every existing handle reads the same list |
| RcList.List.Tail | src/third.rs:43-52 | the new handle is on the head node's own successor slot, whose count goes up by one; it reads `PersistentList.Tail` of this one |
| RcList.List.Head | src/third.rs:54-58 | equals `PersistentList.Head` of the list the handle reads |
| RcList.List.Iter | src/third.rs:61-66 | the cursor starts at the handle's head and takes no reference |
| RcList.List.Drop | src/third.rs:69-80 | the handle's reference is released; counts stay exact; a node stays live exactly when another handle still reaches it, so no shared node is freed and the suffix nobody reaches is; every other handle reads the same list |
| RcList.Iter.Over | src/third.rs:63-65 | the `Iter { next }` literal: the cursor starts at exactly the given node |
| RcList.Iter.Next | src/third.rs:12-19 | yields the first remaining element and advances to the successor, leaving the rest; an exhausted cursor yields `None` and stays exhausted; no count changes |
| RcList.IterScenario | src/third.rs:105-113 | the `iter` test: 3, 2, 1, then `None` |
| RcList.EmptyIterScenario | src/third.rs:88-90 | an iterator over a new list yields `None` at once |
| RcList.SharedDropScenario | src/third.rs:69-80 | dropping 3, 2, 1 while its tail is held frees only the node of 3; the tail's nodes stay live and it still reads 2 |

## Left out

- RcList.List.Drop: handles are not linear objects in the model. In Rust a handle's `Rc` is moved, never copied, and `List.head` is private, so each counted reference is released exactly once. The model records the references that handles hold in the ghost sequence `held`, and nothing ties `held` to the `List` objects. So the promises of `Drop` and of the other handle operations are about `held`. They describe real handles only when callers make every handle through `New`, `Prepend` or `Tail` and drop each one once. A caller that copies a head into a second handle with `Wrap` and drops both breaks this record.

- Memory allocation is not modelled. Slots are never reused, and the abort on allocation failure is not modelled either.
- Element destructors (`T`'s drop) are not modelled. A freed slot keeps its element value, which nothing reads again.
- Borrow lifetimes (`Iter<'a, T>`, `head` returning `&T`) are not checked. `Iter.Next` instead requires its node to be live. `Head` returns the element by value.
- Stack depth is not measured. Teardown is a loop in the model, and freeing a slot never cascades.
- The weak counts of `Rc` are not modelled, and neither is thread safety. The list does not use weak references, and the list is single-threaded.
- The temporaries are not dropped in the scenarios. In the `iter` test, the intermediate lists built by the chained `prepend` calls are dropped at the end of their statement. The scenarios keep those handles alive instead, which does not change what is read.
- The test module's `assert_eq!` checks are modelled as scenario contracts. The test harness itself is not modelled.
- Arena.Teardown: it states which nodes end up live or freed (through `KeptIffReachable`). It does not state the order in which the loop frees them, or the exact count left on the node where it stops.
- RcList.List.Drop: the loop runs on the store's values and writes the store back once at the end. Intermediate states are not observable in the model.
- RcList.SharedDropScenario: it states which nodes are live after the drop, not their exact counts.
