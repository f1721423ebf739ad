# Thread-safe linked list: a Dafny model

This project models the generic doubly-linked deque of
`thread-safe-linked-list.c`. The list is meant as the task/result queue of
a parallel grep pipeline, but no source file contains that pipeline or calls
the list. A list (`linked_list_t`) holds a `front` and a `back`
pointer. Each node (`linked_list_node_t`) holds an element and its `prev`
and `next` links. Elements can be inserted and removed at either end. A
caller can also remove the first element, scanning front to back, that a
comparator accepts.

The model has three modules:

- `Wrappers` holds `Option<T>`. The C functions return a NULL pointer for
  "no element"; here that result is `None`.
- `DequeSpec` says what the operations mean on the sequence of elements,
  front to back. `FirstIndex` finds the first accepted position,
  `RemoveAt` takes one position out, and `RemoveFirstMatch` combines the
  two. The lemmas describe `RemoveFirstMatch` without using indices.
- `ThreadSafeLinkedList` holds the heap structure: class `Node<T>` with
  `elem`, `prev` and `next`, and class `LinkedList<T>` with `front` and
  `back`. The ghost fields `Contents` (the elements, front to back), `Repr`
  (the objects the list uses) and `nodes` (the nodes, front to back) are
  tied to the pointers by `Valid()`. `Valid()` states the doubly-linked
  shape: distinct nodes, null outer links, consecutive nodes that point at
  each other, and `front`/`back` both null or both set. Every mutating method
  keeps `Valid()` and states the new `Contents` in terms of the old one.

Each C operation holds the list's mutex for its whole run. So each method
is one atomic, sequential step, and the mutex is not modelled. A `void *`
element is a value of the type parameter `T`. A `comparator_fn` that may
be NULL is an `Option<T -> bool>`.

Because the C functions return a bare `void *`, a caller cannot tell a
stored NULL element from "not found". The model returns `Option<T>`, which
keeps the two apart. For every non-NULL element the results agree.

## Model

| member | source | states |
|---|---|---|
| ThreadSafeLinkedList.Node.constructor | thread-safe-linked-list.c:67-68 | a new node holds the element and has null `prev` and `next`, as `calloc` leaves them |
| ThreadSafeLinkedList.LinkedList.constructor | thread-safe-linked-list.c:35-43 | a new list is valid, fresh and empty |
| ThreadSafeLinkedList.LinkedList.Empty | thread-safe-linked-list.c:53-58 | true exactly when the list holds no elements; `front` is null exactly when `back` is null |
| ThreadSafeLinkedList.LinkedList.InsertFront | thread-safe-linked-list.c:66-82 | keeps the doubly-linked shape; the contents `s` become `[elem] + s` |
| ThreadSafeLinkedList.LinkedList.InsertBack | thread-safe-linked-list.c:90-106 | keeps the doubly-linked shape; the contents `s` become `s + [elem]` |
| ThreadSafeLinkedList.LinkedList.RemoveFront | thread-safe-linked-list.c:115-139 | on an empty list returns `None` and changes nothing; otherwise returns `s[0]` and leaves `s[1..]`, keeping the shape; the unlinked node leaves the footprint `Repr`, as `free` releases it |
| ThreadSafeLinkedList.LinkedList.RemoveBack | thread-safe-linked-list.c:148-171 | on an empty list returns `None` and changes nothing; otherwise returns the last element and leaves `s[..\|s\|-1]`, keeping the shape; the unlinked node leaves the footprint `Repr` |
| ThreadSafeLinkedList.LinkedList.RemoveComp | thread-safe-linked-list.c:185-255 | with no comparator, behaves like `RemoveFront`; with a comparator, returns and removes the first accepted element, or returns `None` and leaves the list unchanged when nothing is accepted (the empty list included), keeping the shape |
| ThreadSafeLinkedList.LinkedList.Splice | thread-safe-linked-list.c:221-231 | linking the neighbours of an interior node to each other removes exactly that position from the contents, keeps the shape, and drops exactly that node from the footprint `Repr` |
| ThreadSafeLinkedList.LinkedList.Walks | thread-safe-linked-list.c:16-27 | following `next` from `front` visits exactly the contents in order, reaches `back` and then null; following `prev` from `back` visits the contents in reverse |
| DequeSpec.FirstIndex | thread-safe-linked-list.c:196-250 | the front-to-back scan finds a position whose element the comparator accepts, with no accepted element before it; `None` exactly when no element is accepted |
| DequeSpec.RemoveAt | thread-safe-linked-list.c:223-226 | removing one position shortens the sequence by one, keeps the other elements in their order, and takes out exactly one occurrence of that element |
| DequeSpec.RemoveFirstMatchSplit | thread-safe-linked-list.c:174-184 | if `s = a + [e] + b` with `e` accepted and nothing in `a` accepted, the removal returns `e` and leaves `a + b` |
| DequeSpec.RemoveFirstMatchShape | thread-safe-linked-list.c:174-184 | the removal returns `None` exactly when no element is accepted, and then changes nothing; otherwise the returned `e` is accepted and sits, in the old sequence, right after an unaccepted prefix of what is left |
| DequeSpec.RemoveFirstMatchPermutation | thread-safe-linked-list.c:185-255 | the removal takes out one occurrence of what it returns and nothing else |
| DequeSpec.RemoveFirstMatchAcceptAll | thread-safe-linked-list.c:186-188 | a comparator that accepts everything removes the front element, as a NULL comparator does |

## Left out

- The mutex (`pthread_mutex_init/lock/unlock/destroy`, thread-safe-linked-list.c:24, :41 and each operation): each operation runs entirely under the lock, so the model treats each as one atomic step.
- `linked_list_free` (thread-safe-linked-list.c:266-280): deallocation, which Dafny does not model. As written it also advances `node` before calling `elem_free(node->elem)`, so it never frees the first payload and dereferences NULL at the last node.
- Allocation failure: `exit(1)` when `calloc` fails in `linked_list_new` (:37-40). The unchecked `calloc` of a node (:67, :91) is modelled as always succeeding.
- thread-safe-linked-list.h: declarations only. It declares `linked_list_remove`, which the .c file names `linked_list_remove_comp`, and it omits several operations. The .c file is followed.
- pgrep.c and sequential-grep.c: option parsing, `stat`, `nftw`, file I/O, POSIX regular expressions and output. They are foreign calls and I/O, not part of this model.
- The ordered task/result pipeline (sequencer, worker pool, reassembler, wakeup protocol) described for the program is not present in the source files, and its point is concurrency.
- RemoveFront, RemoveBack, RemoveComp: return `Some(e)` for a stored element `e`, where the C functions return the bare pointer, so in C a stored NULL element reads as "not found" (thread-safe-linked-list.c:120, :135-138, :246-249); the model does not reproduce that ambiguity.
- `free` of an unlinked node (thread-safe-linked-list.c:136, :168, :210, :228, :247) is modelled only as the node leaving `Repr`; memory reuse and dangling pointers are not modelled.
- The comparator is a pure, total function `T -> bool`. A C comparator with side effects, or one that fails, is not modelled.
