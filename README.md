# A verified model of the singly-linked `List<T>` of list.h

`list.h` defines `List<T>`, a singly-linked list. A list is a head pointer
`hd` into a chain of heap `Node`s. Each node holds a `datum` and a `next`
link. The operations work by pointer surgery on that chain:

- prepend (`cons`) and append (`snoc`);
- drop the last or the first node (`init`, `tail`);
- the accessors `head`, `last`, `pop_head` and `pop_last`, which throw
  `EMPTYLIST` on an empty list;
- delete the first match of a value (`remove`) or every match (`purge`);
- keep a suffix or a prefix (`drop`, `take`);
- membership (`elem`);
- in-place reversal of every link (`reverse`);
- an in-place quicksort that relinks nodes (`sort`, built on `qsort`).

The model keeps that shape. It has three modules.

- `LinkedList` (linked_list.dfy) holds the two classes.
  - `Node` has a constant `datum` and a mutable `next`.
  - `List` has the field `hd` and three ghost fields. `Nodes` is the chain
    node by node, `Contents` is the sequence of elements it spells out, and
    `Repr` is the footprint.
  - `Valid()` says the chain starts at `hd` and links `Nodes` in order. It
    ends in null, no node occurs twice, and the nodes hold `Contents`.
  - Every operation is a method over that heap structure, with the loops
    of the C++ code. Its contract gives the new `Contents` (and, for the
    mutators, the new `Nodes`) in terms of the old ones. For `cons`, `snoc`,
    `init`, `tail`, `drop`, `take` and the accessors this is a slice or
    concatenation of the old contents, or membership for `elem`. For
    `remove`, `purge`, `reverse` and `sort` it goes through the
    specification functions `RemoveFirst`, `Purge`, `Reversed` and `Sorted`
    of `ListSpec`, whose meaning the lemmas there establish.
- `ListSpec` (list_spec.dfy) holds the specification functions over
  sequences and the lemmas that give them meaning. These include
  first-occurrence removal, filtering, reversal, sortedness, and the
  segment rearrangements performed by the quicksort's partition scan.
- `ListLaws` (list_laws.dfy) states the laws that relate operations to each
  other. Each law is client code that calls the operations in sequence on
  one list.

The C++ code rewrites links through a `Node**` that points either at `hd`
or at some node's `next` field. In the model this is a `prev: Node?`:
`null` stands for `hd`, otherwise the link is `prev.next`. Deleting a node
is modelled as the node leaving `Repr`. The `EMPTYLIST` exception becomes
the result `Err(EmptyList)` of a `Result` datatype.

## Model

| member | source | states |
|---|---|---|
| LinkedList.List.Valid | list.h:13-18 | the chain starting at `hd` links the nodes of `Nodes` in order and ends in null; no node occurs twice, so it is acyclic and unshared; the nodes hold `Contents` position by position; the footprint is the list and its nodes |
| LinkedList.Node.constructor | list.h:13-17 | a new node holds the given element and link |
| LinkedList.List.constructor | list.h:89 | a new list is valid and empty, with a fresh footprint |
| LinkedList.List.Cons | list.h:98-101 | the contents become `[v] + old`; the new head node is fresh and the old chain follows it unchanged |
| LinkedList.List.Snoc | list.h:104-110 | the contents become `old + [v]`; the old chain is kept and one fresh node is appended at its end |
| LinkedList.List.Init | list.h:113-123 | on an empty list nothing changes; otherwise exactly the last element goes; the remaining nodes are a prefix of the old chain |
| LinkedList.List.Tail | list.h:127-133 | on an empty list nothing changes; otherwise exactly the first element goes; the remaining nodes are a suffix of the old chain |
| LinkedList.List.Head | list.h:158-162 | `Err(EmptyList)` exactly when the list is empty, otherwise `Ok` of the first element |
| LinkedList.List.Last | list.h:149-156 | `Err(EmptyList)` exactly when the list is empty, otherwise `Ok` of the last element |
| LinkedList.List.PopHead | list.h:135-140 | on an empty list it fails and the list is unchanged, because the read comes first; otherwise it returns the first element and removes it |
| LinkedList.List.PopLast | list.h:142-147 | on an empty list it fails and the list is unchanged; otherwise it returns the last element and removes it |
| LinkedList.List.Remove | list.h:164-178 | the contents become `RemoveFirst(old, v)`, which deletes the first `v` only (see the ListSpec lemmas); the node removed is the one at the first index of `v`, and with `v` absent the chain is unchanged |
| LinkedList.List.Purge | list.h:180-194 | the contents become `Purge(old, v)`, the survivors other than `v` in their original order |
| LinkedList.List.Drop | list.h:196-207 | the contents and the nodes become `old[min(k, n)..]`, with no error when `k > n` |
| LinkedList.List.Take | list.h:209-220 | the contents and the nodes become `old[..min(k, n)]`, with no error when `k > n` |
| LinkedList.List.Sort | list.h:222-225 | the contents become sorted and a permutation of the old ones; the same nodes are kept, only reordered; an already sorted list is left unchanged |
| LinkedList.List.QSort | list.h:64-86 | for the segment `[lo, hi)` between the link `pred` and the end node `last`: the segment is rearranged in place, both its nodes and its elements, nothing outside it moves, and its elements end up sorted |
| LinkedList.List.Partition | list.h:68-83 | the partition scan: the segment is rearranged so that the pivot node sits at some `m`, the elements before it are at most the pivot's and those after it are greater; the boundary links `pred` and `last` still delimit the segment |
| LinkedList.List.PartitionStep | list.h:73-82 | one turn of the scan keeps the scan invariant: the pivot sits at `m`, `prev` and `step` sit at the scan position, and `[lo, p)` is partitioned around the pivot |
| LinkedList.List.MoveBeforePivot | list.h:76-81 | moving a node that is not greater than the pivot to the front of the segment shifts the pivot one place back and keeps the segment partitioned and rearranged |
| LinkedList.List.SpliceToFront | list.h:78-80 | relinking the node at position `p` to the front of the segment at `lo` turns the chain and the contents into `MovedToFront(old, lo, p)` and keeps the list valid |
| LinkedList.List.Elem | list.h:227-233 | true exactly when `v` is among the elements |
| LinkedList.List.Reverse | list.h:235-246 | the contents and the chain become the reverse of the old ones, with the same footprint |
| LinkedList.List.AdoptReversed | list.h:245 | once every link has been turned around and `hd` is the old last node, the list is valid with reversed nodes and contents |
| LinkedList.List.Truncate | list.h:218-219 | cutting the chain after position `i` leaves the first `i` nodes and drops the rest from the footprint |
| LinkedList.List.Unlink | list.h:170-171 | bypassing the node at `i` through the link that leads to it removes exactly that node and element and keeps the rest of the chain linked |
| LinkedList.NodeAtInjective | list.h:72 | in a chain without repeated nodes, two positions, the end included, hold the same node only if they are equal; the scan test `step != last` relies on this |
| LinkedList.MovedToFrontNodeSet | list.h:78-80 | moving a node to the front of a segment keeps the same set of nodes |
| ListSpec.RemoveFirstAt | list.h:165-172 | when the first `v` is at index `i`, `remove` cuts out exactly that element and keeps the rest in order |
| ListSpec.RemoveFirstAbsent | list.h:168-177 | when `v` is absent, `remove` changes nothing |
| ListSpec.RemoveFirstMultiset | list.h:165-178 | `remove` takes away one copy of `v` if there is one, and shortens the list by one exactly then |
| ListSpec.PurgeAppend | list.h:184-193 | purging a concatenation purges each part, which is what lets the scan work left to right |
| ListSpec.PurgeScanStart | list.h:182-183 | the purge scan starts with nothing scanned |
| ListSpec.PurgeScanStep | list.h:185-192 | one step of the purge scan, cutting the node or stepping past it, keeps the scan invariant |
| ListSpec.PurgeScanDone | list.h:184 | when the scan runs off the end, the contents are the purged sequence |
| ListSpec.PurgeMultiset | list.h:180-194 | after `purge`, no copy of `v` is left and every other value keeps its count |
| ListSpec.PurgeAbsent | list.h:180-194 | purging an absent value changes nothing |
| ListSpec.ReversedAt | list.h:235-246 | reversal keeps the length and mirrors every position |
| ListSpec.ReversedInvolutive | list.h:235-246 | reversing twice gives back the original sequence |
| ListSpec.SortedUnique | list.h:222-225 | two sorted permutations of each other are equal, so sorting a sorted list changes nothing |
| ListSpec.PermutationKeepsBounds | list.h:84-85 | a bound on every element of a segment survives sorting that segment |
| ListSpec.SortedAroundPivot | list.h:84-85 | a sorted part at most the pivot, then the pivot, then a sorted greater part, is sorted |
| ListSpec.SortedFrontIsLeast | list.h:222-225 | the front of a sorted sequence is at most each of its elements |
| ListSpec.RearrangedSegment | list.h:64-86 | a rearrangement of a segment permutes that segment |
| ListSpec.RearrangedTrans | list.h:72-85 | rearranging a sub-segment after rearranging a segment rearranges the segment |
| ListSpec.RearrangedSides | list.h:84-85 | sorting the two sides of the pivot in turn rearranges the whole segment |
| ListSpec.MovedToFrontAt | list.h:78-80 | where each element lands when the one at `p` moves to the front of the segment |
| ListSpec.MovedToFrontRearranged | list.h:78-80 | moving an element to the front of a segment that contains it rearranges only that segment |
| ListSpec.MovedToFrontDistinct | list.h:78-80 | the move keeps a chain free of repeated nodes, so the list stays acyclic |
| ListSpec.PartitionedSplice | list.h:76-81 | moving an element that is not greater than the pivot to the front shifts the pivot right and keeps the scanned part partitioned |
| ListSpec.QuickSortCombine | list.h:84-85 | after the partition, sorting `[lo, m)` and then `(m, hi)` in place sorts `[lo, hi)` |
| ListLaws.ConsThenTail | list.h:98-133 | `cons(v)` then `tail()` restores the contents |
| ListLaws.SnocThenInit | list.h:104-123 | `snoc(v)` then `init()` restores the contents |
| ListLaws.ConsThenPopHead | list.h:98-140 | `pop_head()` after `cons(v)` returns `v` and restores the contents |
| ListLaws.SnocThenPopLast | list.h:104-147 | `pop_last()` after `snoc(v)` returns `v` and restores the contents |
| ListLaws.ReverseTwice | list.h:235-246 | reversing twice restores the contents and the very same chain of nodes |
| ListLaws.PurgeThenElem | list.h:180-233 | after `purge(v)`, `elem(v)` is false and every other value keeps its count |
| ListLaws.RemoveOneCopy | list.h:164-178 | `remove(v)` takes away exactly one copy of `v` when there is one, and changes nothing otherwise |

## Left out

- `print` (list.h:248-254) only writes to standard output, so it is not part of this model.
- `destroy` and the destructor (list.h:56-62, list.h:92-95) only free memory. Dafny has no deallocation, so a deleted node simply leaves `Repr`.
- The element type `T` is fixed to `int`. The code only uses `==` and `>` on it.
- C++ exceptions are not modelled as control flow. `head`, `last`, `pop_head` and `pop_last` return `Err(EmptyList)` instead of throwing `EMPTYLIST`.
- The `unsigned int` count of `drop` and `take` is a `nat`. It only counts down to zero, so it cannot wrap around.
- The partition scan of `qsort` (list.h:68-83) is split over the methods `Partition`, `PartitionStep`, `MoveBeforePivot` and `SpliceToFront`. They run the same statements in the same order. The split only keeps each proof small.
- The segment bounds `lo` and `hi` and the scan positions in the quicksort are ghost parameters. The C++ code knows its segment only through the link `headRef` and the end node `last`.
- The recursion depth of `qsort` and `destroy` is not modelled; nor is stack overflow on long lists.
- Copy construction, positional access and relational operators on lists are not declared in list.h. They are not part of this model.
- Purge: the contract gives the new contents exactly but not the new chain node by node; it only bounds the footprint (`Repr <= old(Repr)`), so the surviving nodes are old ones. Stating the chain would need a node-level copy of the purge scan.
