# gollect containers in Dafny

This project models the sequence containers of gollect, a generic collections
library for Go, and proves their contracts:

- `Vector[T]`, a growable sequence, with checked and unchecked access, insertion and erasure, push and pop at both ends, resizing, early-exit visits, sequential searches and chunk-partitioned ("parallel") searches;
- `SortableVector[T]`, a Vector with sorting and sortedness checks;
- `NVector[T]`, the same container for natively comparable element types;
- the `EqualityComparable` / `Comparable` capabilities and their wrapper types;
- `List[T]`, a doubly linked list with front and back pointers;
- `Deque`, `Queue` and `Stack`, thin adapters over a Vector.

Modules, one per Go file plus two shared ones:

| module | file | Go source |
|---|---|---|
| `Common` | common.dfy | panics as error values, `Result`/`Outcome`, pointer model `Ref`, `Reversed` |
| `Sequences` | sequences.dfy | the sequence surgery the containers perform (insert, erase, resize) and its laws |
| `Chunks` | chunks.dfy | the chunk arithmetic and chunk-by-chunk scan of the `Search*` family |
| `Comparable` | comparable.dfy | comparable.go |
| `Vectors` | vectors.dfy | vector.go (Vector) |
| `Sorting` | sorting.dfy | vector.go (SortableVector) |
| `NVectors` | nvector.dfy | nvector.go |
| `Lists` | lists.dfy | list.go |
| `Deques`, `Queues`, `Stacks` | deques.dfy, queues.dfy, stacks.dfy | deque.go, queue.go, stack.go |

How the Go program is represented:

- **Panics.** Every panic becomes a value, so that its exact condition can be stated:
  - a query returns `Result<T>` (`Ok(value)` or `Err(error)`);
  - a mutation returns `Outcome` (`Pass` or `Fail(error)`).

  The error kinds follow the Go messages: "empty vector", "empty list", "index out of range", "index out of bounds", "index out of bounds for empty List" (`EmptyListIndex`) and "negative new size". A nil-pointer dereference is `NilDereference`. A failed mutation leaves the container as it was, except where the Go code changes state before it panics. Unchecked `At`/`AtRef` panic through the Go runtime, and their index condition is a precondition.
- **Vector.** A class whose `data: seq<T>` field the methods reassign. The `Destructible` teardown hook becomes a ghost log `Destroyed`: each removed element is appended to it, in the order the Go code tears elements down.
- **Deque, Queue, Stack and SortableVector** each hold their Vector in a `const vec` field and forward to it.
- **List.** A class over heap-allocated `Node`s with `prev`/`next` pointers:
  - the ghost `Contents` (the element sequence) and `Nodes` (the node chain) describe the list;
  - `Valid()` ties them to the pointers: `front`/`back` are the chain's ends, the links agree both ways, and the nodes are distinct.
- **Equality capability.** `Capability<T>` is either `Missing` or `Equality(equal)`. It is passed to the value searches: without it those searches report "not found", as the Go type assertion does.
- **Pointers into a Vector** are `Ref` values:
  - `Nil`;
  - `Slot(i)`, the address of slot `i`;
  - `Foreign`, any other address.
- **Parallel `Search*`.** Each chunk's worker is simulated in turn and records its chunk's first match. The published index is then a nondeterministic choice among the recorded hits. `runtime.GOMAXPROCS(0)` and `ChunkMultiplier` (4 in vector.go:455) are parameters.
- **Zero value.** Go's zero value of `T`, needed where `Resize` grows a vector, is the parameter `zero`.

## Model

| member | source | states |
|---|---|---|
| Common.Reversed | vector.go:165-169 | the reverse of a sequence, element by element: the order in which Clear tears elements down |
| Sequences.InsertedAt | vector.go:172-186 | inserting at `i` keeps the elements before `i`, puts the value at `i` and shifts the rest up by one |
| Sequences.ErasedAt | vector.go:206-219 | erasing at `i` keeps the elements before `i` and shifts the rest down by one |
| Sequences.Resized | vector.go:275-290 | resizing to `n` gives length `n`, keeps the common prefix and pads with the zero value |
| Sequences.EraseUndoesInsert | vector.go:172-219 | erasing at the index just inserted at gives the original sequence back |
| Sequences.InsertUndoesErase | vector.go:172-219 | re-inserting the erased element at its index gives the original sequence back |
| Sequences.InsertAtEnds | vector.go:172-234 | insertion at 0 is PushFront and insertion at the size is PushBack |
| Sequences.EraseAtEnds | vector.go:206-267 | erasure at 0 is PopFront and erasure of the last index is PopBack |
| Sequences.ResizeShrinkGrow | vector.go:275-290 | shrinking then growing back loses the dropped tail and pads with zero values |
| Sequences.ResizeGrowShrink | vector.go:275-290 | resizing to the current size is a no-op, and growing then shrinking back restores the sequence |
| Chunks.WrapInt | vector.go:474 | Go's 64-bit `int` arithmetic: the result lies in the `int` range, agrees with the mathematical value modulo 2^64, and equals it when it fits |
| Chunks.NumChunks | vector.go:473-476 | the number of chunks is between 1 and the processor count: 1 when the size is below the wrapped `int` product `procs * multiplier`, the processor count otherwise |
| Chunks.NumChunksWithoutOverflow | vector.go:473-476 | while `procs * multiplier` fits in an `int`, the threshold is the plain product |
| Chunks.NumChunksWrapsAround | vector.go:473-476 | a multiplier of 2^63 with 2 processors wraps the threshold to 0, so 5 elements are split between 2 workers |
| Chunks.ChunkOf | vector.go:477-493 | every index belongs to one of the chunks |
| Chunks.ChunksTile | vector.go:477-493 | the chunks are contiguous: the first starts at 0, each ends where the next starts, and the last, which takes the remainder, ends at the size |
| Chunks.ChunksPartition | vector.go:484-493 | an index lies in the chunk numbered by ChunkOf, so the chunks partition `[0, size)` and each index is scanned by exactly one worker |
| Chunks.ScanChunk | vector.go:486-509 | one worker: a hit it reports is the first match of its own chunk; reporting none means its chunk holds no match, unless another worker had already published a hit |
| Chunks.ChunkedScan | vector.go:461-515 | found exactly when some index matches; the index is the first match of some chunk, -1 on a miss, and the first match overall when there is a single chunk |
| Comparable.IntComparisonCoherent | comparable.go:35-40 | for the integer wrappers: NotEqual is !Equal, LesserThanOrEqual is LesserThan or Equal, GreaterThan is !LesserThanOrEqual and GreaterThanOrEqual is !LesserThan |
| Comparable.IntOrdersAreTotal | comparable.go:35-40 | the integer LesserThan and GreaterThan are strict total orders, so they are valid sort orders |
| Comparable.StringTrichotomy | comparable.go:146-151 | for Go strings, as arbitrary byte sequences, exactly one of s < t, s == t and t < s holds |
| Comparable.StringLesserThanTransitive | comparable.go:146-151 | byte-wise string `<` is transitive |
| Comparable.StringComparisonCoherent | comparable.go:146-151 | the six String methods relate to each other as the integer ones do |
| Comparable.StringLesserThanIsTotal | comparable.go:146-151 | byte-wise string `<` is a strict total order on all byte sequences |
| Vectors.Matches | vector.go:493-495 | the Equal calls of a worker hit some element exactly when the sequence contains the value, and the first hit is the first match |
| Vectors.MatchesUnderEqualityOf | comparable.go:3-14 | a Comparable type used through its embedded EqualityComparable view hits exactly the elements whose NotEqual is false |
| Vectors.SlotHits | vector.go:548-549 | the address comparisons of a worker hit some slot exactly when the pointer designates one of the container's slots, and only that slot |
| Vectors.Vector.constructor | vector.go:25-27 | a new vector is empty and has torn nothing down |
| Vectors.Vector.FromData | vector.go:30-32 | the new vector holds the given values in order |
| Vectors.Vector.FromVector | vector.go:44-48 | the new vector holds the other vector's elements in order |
| Vectors.Vector.At | vector.go:78-80 | an in-range index yields exactly the element SafeAt returns at that index |
| Vectors.Vector.SafeAt | vector.go:85-93 | Ok exactly for indices in `[0, size)`, with the element there; an empty vector fails "empty vector" for every index (that check comes first); a non-empty one fails "index out of range" |
| Vectors.Vector.AtRef | vector.go:98-100 | the pointer designates the slot at the given index, the one SafeAtRef returns, which holds the element At returns |
| Vectors.Vector.SafeAtRef | vector.go:105-113 | succeeds and fails exactly as SafeAt, with the same error, and on success is AtRef |
| Vectors.Vector.Front | vector.go:116-121 | the element at index 0; panics "empty vector" exactly when empty |
| Vectors.Vector.FrontRef | vector.go:124-129 | the pointer to slot 0; panics "empty vector" exactly when empty |
| Vectors.Vector.Back | vector.go:132-137 | the element at the last index; panics "empty vector" exactly when empty |
| Vectors.Vector.BackRef | vector.go:140-145 | the pointer to the last slot; panics "empty vector" exactly when empty |
| Vectors.Vector.IsEmpty | vector.go:153-155 | true exactly when there are no elements |
| Vectors.Vector.Size | vector.go:158-160 | zero exactly when empty; the valid SafeAt indices are exactly `[0, Size())` |
| Vectors.Vector.PopBack | vector.go:244-253 | removes exactly the last element and tears it down once; an empty vector panics and nothing changes |
| Vectors.Vector.PopFront | vector.go:258-267 | removes exactly the first element and tears it down once; an empty vector panics and nothing changes |
| Vectors.Vector.PushBack | vector.go:222-224 | appends the value, which becomes Back(); nothing is torn down |
| Vectors.Vector.PushFront | vector.go:232-234 | prepends the value, which becomes Front(); nothing is torn down |
| Vectors.Vector.Clear | vector.go:165-169 | empties the vector, tearing every element down once, from the back |
| Vectors.Vector.Insert | vector.go:172-186 | fails "index out of bounds" exactly outside `[0, size]` (so only 0 on an empty vector), leaving the vector as it was; otherwise the value is inserted at the index |
| Vectors.Vector.Erase | vector.go:206-219 | "empty vector" on an empty vector, else "index out of bounds" outside `[0, size)`; otherwise the element at the index is removed and torn down once |
| Vectors.Vector.Resize | vector.go:275-290 | fails "negative new size" for a negative size; otherwise the contents are Resized: growing pads with the zero value and tears nothing down, shrinking tears the dropped tail down from the back |
| Vectors.Vector.Swap | vector.go:293-295 | the two vectors exchange contents; nothing is torn down |
| Vectors.Vector.Visit | vector.go:313-323 | visits indices 0, 1, … in order, stopping just after the first element whose visit sets break_out, or at the end |
| Vectors.Vector.VisitReverse | vector.go:326-336 | visits indices from the last down, stopping just after the first element whose visit sets break_out, or at index 0 |
| Vectors.Vector.ContainsValue | vector.go:339-357 | true exactly when the element type has Equal and some element is Equal to the value |
| Vectors.Vector.ContainsRef | vector.go:360-374 | true exactly when the pointer designates one of the vector's slots |
| Vectors.Vector.OrderedSearch | vector.go:377-396 | (false, -1) when empty or without Equal; (true, k) for the first matching k; (false, size) on a non-empty miss |
| Vectors.Vector.OrderedRefSearch | vector.go:399-414 | (false, -1) when empty; (true, i) when the pointer is slot i; (false, size) on a non-empty miss |
| Vectors.Vector.OrderedSearchRef | vector.go:417-435 | the pointer to the first matching element, nil when there is none or no Equal |
| Vectors.Vector.OrderedRefSearchRef | vector.go:438-452 | the pointer itself when it designates a slot, nil otherwise |
| Vectors.Vector.Search | vector.go:461-515 | found exactly when some element is Equal to the value; the index then holds a match and is the first match of its chunk, and the first match overall with a single chunk; (false, -1) on a miss, when empty, or without Equal |
| Vectors.Vector.RefSearch | vector.go:521-570 | found exactly when the pointer designates a slot, with that slot's index; (false, -1) otherwise |
| Vectors.Vector.SearchRef | vector.go:576-628 | a pointer to a matching element exactly when one exists, the first one with a single chunk; nil otherwise |
| Vectors.Vector.RefSearchRef | vector.go:634-681 | the pointer itself when it designates a slot, nil otherwise |
| Vectors.PushBackThenPopBack | vector.go:222-253 | PushBack followed by PopBack restores the contents and tears the pushed value down |
| Vectors.InsertThenErase | vector.go:172-219 | Insert followed by Erase at the same valid index restores the contents and tears the inserted value down |
| Vectors.ClearIsResizeZero | vector.go:165-169 | Clear and Resize(0) leave equal contents and equal teardown logs |
| Sorting.IsSortedBy | vector.go:747-749 | sorted means no element is less than its predecessor; every sequence of length at most 1 is sorted |
| Sorting.SortedPairwise | vector.go:747-749 | in a sorted sequence no later element is less than an earlier one |
| Sorting.EquivClass | vector.go:735-737 | the elements equivalent to a key, in their order; at most as many as the input, each drawn from it |
| Sorting.InsertSorted | vector.go:731-745 | inserting into a sorted sequence adds one element |
| Sorting.SortBy | vector.go:731-745 | sorting keeps the length |
| Sorting.InsertSortedPermutes | vector.go:731-745 | sorted insertion adds exactly the inserted element to the multiset |
| Sorting.InsertSortedKeepsSorted | vector.go:731-745 | sorted insertion keeps a sorted sequence sorted |
| Sorting.InsertSortedStable | vector.go:735-737 | sorted insertion leaves every equivalence class as if the new element had been put at the front: it precedes the elements equivalent to it, which keep their order |
| Sorting.SortByCorrect | vector.go:731-745 | the sort result is sorted, is a permutation of the input, and keeps equivalent elements in their original relative order |
| Sorting.GreaterSortsDescending | vector.go:739-741 | sorting by GreaterThan leaves the elements in descending order |
| Sorting.GoCopy | vector.go:703-707 | Go's `copy` changes only the first min(len(dst), len(src)) slots of dst and never changes its length |
| Sorting.SortableVector.constructor | vector.go:687-689 | a new sortable vector is empty |
| Sorting.SortableVector.FromData | vector.go:691-693 | the new sortable vector holds the given values |
| Sorting.SortableVector.FromSortableVectorAsWritten | vector.go:703-707 | as written, the copy is empty whatever the other vector holds |
| Sorting.SortableVector.FromSortableVector | vector.go:703-707 | as intended, the copy holds the other vector's elements |
| Sorting.SortableVector.Sort | vector.go:731-733 | the contents become a sorted permutation of the old contents, with no teardown |
| Sorting.SortableVector.StableSort | vector.go:735-737 | a sorted permutation in which equivalent elements keep their relative order |
| Sorting.SortableVector.SortFunc | vector.go:739-741 | a permutation sorted by the given order |
| Sorting.SortableVector.StableSortFunc | vector.go:743-745 | a stable permutation sorted by the given order |
| Sorting.SortableVector.IsSorted | vector.go:747-749 | true exactly when no element is `<` its predecessor |
| Sorting.SortableVector.IsSortedFunc | vector.go:751-753 | true exactly when no element comes before its predecessor in the given order |
| Sorting.CopyIntoEmptyLosesElements | vector.go:703-707 | copying three elements into an empty slice copies nothing; a slice of the right length receives all of them |
| NVectors.NVector.constructor | nvector.go:14-16 | a new NVector is empty |
| NVectors.NVector.FromData | nvector.go:18-20 | holds the given values in order |
| NVectors.NVector.FromNVector | nvector.go:22-24 | holds the other NVector's elements in order |
| NVectors.NVector.FromVector | nvector.go:26-28 | holds the Vector's elements in order |
| NVectors.NVector.ToVector | nvector.go:30-32 | a fresh Vector with the same elements in order and no teardown |
| NVectors.RoundTripThroughVector | nvector.go:26-32 | NVector to Vector to NVector keeps the element sequence |
| NVectors.NVector.At | nvector.go:34-36 | an in-range index yields exactly the element SafeAt returns at that index |
| NVectors.NVector.SafeAt | nvector.go:38-46 | Ok exactly for indices in `[0, size)`; "empty vector" first, then "index out of range" |
| NVectors.NVector.IsEmpty | nvector.go:48-50 | true exactly when there are no elements |
| NVectors.NVector.Size | nvector.go:52-54 | the size is 0 exactly when the NVector is empty, and the indices below it are exactly those SafeAt accepts |
| NVectors.NVector.AtRef | nvector.go:56-58 | the pointer designates the slot at the given index, the one SafeAtRef returns, which holds the element At returns |
| NVectors.NVector.SafeAtRef | nvector.go:60-68 | succeeds and fails exactly as SafeAt, with the same error |
| NVectors.NVector.Front | nvector.go:70-75 | the first element; "empty vector" exactly when empty |
| NVectors.NVector.FrontRef | nvector.go:77-82 | the pointer to slot 0; "empty vector" exactly when empty |
| NVectors.NVector.Back | nvector.go:84-89 | the last element; "empty vector" exactly when empty |
| NVectors.NVector.BackRef | nvector.go:91-96 | the pointer to the last slot; "empty vector" exactly when empty |
| NVectors.NVector.Clear | nvector.go:102-104 | the contents become empty (no teardown) |
| NVectors.NVector.Insert | nvector.go:106-120 | fails "index out of bounds" exactly outside `[0, size]`; otherwise inserts the value at the index |
| NVectors.NVector.Erase | nvector.go:126-136 | "empty vector", then "index out of bounds" outside `[0, size)`; otherwise removes the element at the index |
| NVectors.NVector.PushBack | nvector.go:138-140 | appends the value, which becomes Back() |
| NVectors.NVector.PushFront | nvector.go:146-148 | prepends the value, which becomes Front() |
| NVectors.NVector.PopBack | nvector.go:154-160 | removes exactly the last element; "empty vector" on an empty NVector |
| NVectors.NVector.PopFront | nvector.go:162-168 | removes exactly the first element; "empty vector" on an empty NVector |
| NVectors.NVector.Resize | nvector.go:170-185 | "negative new size" for a negative size; otherwise the contents are Resized (padded with the zero value, or truncated) |
| NVectors.NVector.Swap | nvector.go:187-189 | the two NVectors exchange contents |
| NVectors.NVector.Visit | nvector.go:205-215 | visits indices from 0 upwards, stopping just after the first break_out |
| NVectors.NVector.VisitReverse | nvector.go:217-227 | visits indices from the last downwards, stopping just after the first break_out |
| NVectors.NVector.ContainsValue | nvector.go:229-239 | true exactly when some element `==` the value |
| NVectors.NVector.ContainsRef | nvector.go:241-251 | true exactly when the pointer designates a slot |
| NVectors.NVector.OrderedSearch | nvector.go:253-263 | (true, k) for the least k holding the value, (false, -1) on any miss |
| NVectors.NVector.OrderedRefSearch | nvector.go:265-275 | (true, i) when the pointer is slot i, (false, -1) otherwise |
| NVectors.NVector.OrderedSearchRef | nvector.go:277-287 | the pointer to the first slot holding the value, nil if none |
| NVectors.NVector.OrderedRefSearchRef | nvector.go:289-299 | the pointer itself when it designates a slot, nil otherwise |
| NVectors.NVector.Search | nvector.go:301-346 | found exactly when some element `==` the value; the index holds the value and is its chunk's first match, the first overall with one chunk; -1 on a miss |
| NVectors.NVector.RefSearch | nvector.go:348-393 | found exactly when the pointer designates a slot, with its index |
| NVectors.NVector.SearchRef | nvector.go:395-438 | a pointer to a slot holding the value exactly when one exists, nil otherwise |
| NVectors.NVector.RefSearchRef | nvector.go:440-483 | the pointer itself when it designates a slot, nil otherwise |
| Lists.Node.constructor | list.go:18-20 | a new node holds the value and has no neighbours |
| Lists.List.constructor | list.go:27-29 | a new list is empty |
| Lists.List.FromData | list.go:31-37 | the list holds the given values in order, in fresh nodes |
| Lists.List.FromList | list.go:47-53 | the list holds the other list's elements in order, in fresh nodes |
| Lists.List.Front | list.go:83-88 | the first element; panics "empty vector" exactly when empty |
| Lists.List.FrontRef | list.go:90-95 | the front node, holding the first element; panics exactly when empty |
| Lists.List.Back | list.go:97-102 | the last element; panics "empty vector" exactly when empty |
| Lists.List.BackRef | list.go:104-109 | the back node, holding the last element; panics exactly when empty |
| Lists.List.IsEmpty | list.go:111-113 | `front` is nil exactly when the list has no elements |
| Lists.List.Size | list.go:115-124 | counting the nodes reached from `front` gives the number of elements |
| Lists.List.PushBack | list.go:239-248 | appends the value in a fresh node at the back, keeping the links valid; nothing is torn down |
| Lists.List.PushFront | list.go:261-270 | prepends the value in a fresh node at the front, keeping the links valid |
| Lists.List.PopBack | list.go:283-296 | removes exactly the last node and tears its element down once; "empty list" on an empty list; a one-element list becomes empty |
| Lists.List.PopFront | list.go:298-311 | removes exactly the first node and tears its element down once; "empty list" on an empty list |
| Lists.List.Clear | list.go:126-130 | the list becomes empty, every element torn down once, from the back |
| Lists.List.Swap | list.go:313-315 | the two lists exchange their node chains and contents |
| Lists.List.Seek | list.go:319-329 | the node reached by following `next` from `front` `index` times, nil past the end |
| Lists.List.Insert | list.go:132-168 | as written: on an empty list only index 0 succeeds; on a non-empty one index 0 dereferences nil, `1..size-1` splices the value before that node, a negative index or the size changes nothing, and a larger index panics "index out of bounds" |
| Lists.List.LinkBefore | list.go:145-160 | splicing a new node before node `p` inserts its value at `p` and keeps the list valid |
| Lists.List.InsertAt | list.go:132-168 | as intended: any index in `[0, size]` inserts the value there; any other fails "index out of bounds" |
| Lists.List.Erase | list.go:208-237 | as written: the walk stops after the front node, so index 0 tears the front element down and then dereferences nil, a negative index or 1 changes nothing, a larger index panics, and no node is ever removed |
| Lists.List.Unlink | list.go:217-229 | unlinking an inner node removes its element and tears it down once |
| Lists.List.EraseAt | list.go:208-237 | as intended: "empty list", then "index out of bounds" outside `[0, size)`; otherwise the node at the index is removed and its element torn down once |
| Lists.List.Visit | list.go:343-353 | visits the nodes from the front in order, stopping just after the first element whose visit sets break_out |
| Lists.List.VisitReverse | list.go:355-365 | visits the nodes from the back in order, stopping just after the first element whose visit sets break_out |
| Lists.List.ContainsValue | list.go:367-385 | true exactly when the element type has Equal and some element is Equal to the value |
| Lists.List.ContainsRef | list.go:387-401 | true exactly when the pointer designates one of the list's nodes |
| Lists.List.OrderedSearch | list.go:403-422 | (false, -1) when empty or without Equal; (true, first matching index); (false, size) on a non-empty miss |
| Lists.List.OrderedRefSearch | list.go:424-439 | (false, -1) when empty; (true, position of the node); (false, size) on a non-empty miss |
| Lists.List.OrderedSearchRef | list.go:441-457 | the node of the first match, nil when there is none or no Equal |
| Lists.List.OrderedRefSearchRef | list.go:459-471 | the pointer itself when it designates a node of the list, nil otherwise |
| Lists.List.Search | list.go:473-475 | exactly OrderedSearch's result |
| Lists.List.RefSearch | list.go:477-479 | exactly OrderedRefSearch's result |
| Lists.List.SearchRef | list.go:481-483 | exactly OrderedSearchRef's result |
| Lists.List.RefSearchRef | list.go:485-487 | exactly OrderedRefSearchRef's result |
| Lists.InsertAtFrontPanics | list.go:145-148 | Insert(0, _) on the list {1, 2} dereferences nil and leaves {1, 2} |
| Lists.InsertAtSizeDoesNothing | list.go:141-166 | Insert(2, _) on the list {1, 2} reports success and leaves {1, 2} |
| Lists.EraseSecondDoesNothing | list.go:213-232 | Erase(1) on the list {1, 2, 3} reports success and leaves {1, 2, 3} |
| Lists.InsertAtThenEraseAt | list.go:132-237 | with the intended definitions, inserting at any index in `[0, size]` and erasing there restores the list and tears the value down |
| Deques.Deque.constructor | deque.go:7-9 | a new deque is empty |
| Deques.Deque.FromData | deque.go:11-13 | holds the values, front first |
| Deques.Deque.FromDeque | deque.go:19-21 | holds the other deque's elements in order, with an empty teardown log |
| Deques.Deque.Front | deque.go:39-41 | the wrapped vector's first element; "empty vector" exactly when empty |
| Deques.Deque.Back | deque.go:47-49 | the wrapped vector's last element; "empty vector" exactly when empty |
| Deques.Deque.IsEmpty | deque.go:59-61 | true exactly when the wrapped vector is empty |
| Deques.Deque.Size | deque.go:63-65 | the wrapped vector's size, zero exactly when empty |
| Deques.Deque.Clear | deque.go:67-69 | size becomes 0, every element torn down once |
| Deques.Deque.PushBack | deque.go:71-73 | appends; afterwards Back() is the value |
| Deques.Deque.PushFront | deque.go:79-81 | prepends; afterwards Front() is the value |
| Deques.Deque.PopBack | deque.go:87-89 | removes exactly the last element; panics on empty |
| Deques.Deque.PopFront | deque.go:91-93 | removes exactly the first element; panics on empty |
| Deques.Deque.Swap | deque.go:95-97 | the two deques exchange contents |
| Deques.PushFrontThenPopFront | deque.go:79-93 | PushFront followed by PopFront restores the deque |
| Deques.PushBackThenPopBack | deque.go:71-89 | PushBack followed by PopBack restores the deque |
| Deques.PushAllFront | deque.go:79-81 | pushing values at the front one by one leaves them in reverse order before the old contents |
| Deques.BothEnds | deque.go:39-93 | values pushed at the front come back from the front in reverse order while the back element stays |
| Queues.Queue.constructor | queue.go:7-9 | a new queue is empty |
| Queues.Queue.FromData | queue.go:11-13 | holds the values, the first of them oldest |
| Queues.Queue.FromQueue | queue.go:19-21 | holds the other queue's elements in order, with an empty teardown log |
| Queues.Queue.Front | queue.go:39-41 | the oldest element; "empty vector" exactly when empty |
| Queues.Queue.IsEmpty | queue.go:51-53 | true exactly when the queue has no elements |
| Queues.Queue.Size | queue.go:55-57 | the number of elements, zero exactly when empty |
| Queues.Queue.Clear | queue.go:59-61 | size becomes 0, every element torn down once |
| Queues.Queue.PushBack | queue.go:63-65 | size grows by one; Front() is unchanged unless the queue was empty, when it becomes the value |
| Queues.Queue.PopFront | queue.go:71-73 | removes exactly the oldest element and size drops by one; panics on empty |
| Queues.Queue.Swap | queue.go:75-77 | the two queues exchange contents |
| Queues.FifoOrder | queue.go:63-73 | values pushed into an empty queue and popped until it is empty come out in the order they went in |
| Stacks.Stack.constructor | stack.go:7-9 | a new stack is empty |
| Stacks.Stack.FromData | stack.go:11-13 | holds the values, the last on top |
| Stacks.Stack.FromStack | stack.go:19-21 | holds the other stack's elements in order, with an empty teardown log |
| Stacks.Stack.Top | stack.go:39-41 | the most recently pushed element still there; "empty vector" exactly when empty |
| Stacks.Stack.IsEmpty | stack.go:51-53 | true exactly when the stack has no elements |
| Stacks.Stack.Size | stack.go:55-57 | the number of elements, zero exactly when empty |
| Stacks.Stack.Clear | stack.go:59-61 | size becomes 0, every element torn down once, from the top |
| Stacks.Stack.Push | stack.go:63-65 | the value becomes Top() and size grows by one |
| Stacks.Stack.Pop | stack.go:71-73 | removes exactly the top element and size drops by one; panics on empty |
| Stacks.Stack.Swap | stack.go:75-77 | the two stacks exchange contents |
| Stacks.PushThenPop | stack.go:63-73 | Push followed by Pop restores the stack and tears the pushed value down |
| Stacks.LifoOrder | stack.go:63-73 | values pushed onto an empty stack and popped until it is empty come out in reverse order |

The List methods without a row of their own (`LinkAfterBack`, `LinkBeforeFront`, `LinkNodes`, `UnlinkNodes`, `Adopt`, `EraseFront`, `EraseBack`, and the ghost `Appended`, `Prepended`, `Spliced`, `Unlinked` with their `*Valid` lemmas) are the pointer-write halves and the ghost-bookkeeping halves of PushBack, PushFront, Swap, LinkBefore, Unlink and EraseAt. They are not separate operations of the Go code.

## Left out

- Concurrency. The goroutines, `sync.WaitGroup` and `sync.Mutex` of the `Search*` family run one worker after another. The unsynchronised read of `found` (vector.go:503, nvector.go:336) is not modelled as a data race. It becomes a read that may or may not already see a published hit, so a worker may stop early only once some hit has been published.
- Vectors.Vector.Search, Vectors.Vector.SearchRef, NVectors.NVector.Search, NVectors.NVector.SearchRef: which worker publishes last is a nondeterministic choice. The contract therefore promises only "the first match of some chunk", and the first match overall only when there is one chunk.
- `runtime.GOMAXPROCS(0)` and the mutable `ChunkMultiplier` are parameters (`procs >= 1`, `multiplier`) rather than global state. Their product wraps around as a Go `int` does (`WrapInt`).
- Floating-point and complex wrappers (comparable.go:112-130) are not modelled: NaN breaks reflexive equality and total order. The same holds for NVector and SortableVector instantiated at `float32`/`float64`/`complex*`, which `NativeEquatable` (gollect.go:48) admits: the model takes `==` to be an equivalence, so its ContainsValue and search contracts do not cover a NaN that never matches itself. The integer wrappers share one set of functions on unbounded `int`. Their comparisons never wrap, so the width does not matter.
- The `String()` methods (formatted output through `fmt` and `strings.Builder`).
- `Data()` accessors, which expose the backing slice for aliasing.
- The `*Ref` input variants of constructors and mutators (`NewVectorFromDataRef`, `PushBackRef`, `InsertRef`, `PushFrontRef` and the like). They dereference their argument and then behave as the value versions.
- The pointer-returning `Make*` constructors, which build the same value as the matching `New*` constructors.
- `FrontRef`/`BackRef`/`TopRef` of Deque, Queue and Stack, which forward to the Vector's `FrontRef`/`BackRef`.
- Vectors.Vector.FromVector: `NewVectorFromVector` spreads `other.data` into a variadic parameter. The new vector can therefore share the other's backing array. The model copies the values and does not capture that aliasing.
- NVectors.NVector.FromNVector, NVectors.NVector.FromVector, NVectors.NVector.ToVector: like `NewVectorFromVector`, these pass `other.data...` on, so the result can share the other container's backing array (`NewNVectorFromData` stores the slice itself). The model gives the result the same values and does not capture a later write through one container showing in the other.
- Deques.Deque.FromDeque, Queues.Queue.FromQueue, Stacks.Stack.FromStack: these build their Vector with `NewVectorFromVector` and inherit the same possible sharing of the backing array, which the model does not capture.
- Vectors.Vector.Visit, Vectors.Vector.VisitReverse, NVectors.NVector.Visit, NVectors.NVector.VisitReverse, Lists.List.Visit, Lists.List.VisitReverse: the Go visitor receives a pointer to the element and can write through it, and it decides `break_out` from whatever state its closure captures. The model's visitor is a pure predicate `stop` of the element alone: it does not capture writes through the pointer, and does not capture a break decision that depends on earlier visits.
- Sorting.SortableVector.SortFunc, Sorting.SortableVector.StableSortFunc, Sorting.SortableVector.IsSortedFunc: the Go comparator receives pointers into the slice. The model hands it the element values. A comparator that writes through its pointers is not captured; `sort.Slice` demands a pure strict weak order in any case.
- Pointers into a Vector are slot indices (`Ref`), not machine addresses. A pointer into another container is `Foreign`.
- `visitNodeReverse` (list.go:331-341) has no caller in the list's surface and is not modelled separately.
- The Go zero value of `T` is the `zero` parameter of `Resize` and of the corrected `FromSortableVector`.
- `Destructible.Destruct()` is represented only by the ghost teardown log. Its effects on the element itself are not modelled.
- `sort.Slice`, `sort.SliceStable` and `sort.SliceIsSorted` are specified by their outcome and implemented by a verified insertion sort. The unstable `Sort` is not claimed to be unstable. `IsSorted` is stated directly as "no element is less than its predecessor".

## Findings

| source | as written | input that shows it | evidently intended | confidence | as-written member | corrected member |
|---|---|---|---|---|---|---|
| vector.go:703-707 (and 725-729) | `NewSortableVectorFromVector` copies `other.data` into the empty slice of a new vector; `copy` stops at the shorter length, so nothing is copied | a sortable vector holding {1, 2, 3}: the copy is empty | the copy holds the other vector's elements | not executed | Sorting.SortableVector.FromSortableVectorAsWritten, Sorting.CopyIntoEmptyLosesElements | Sorting.SortableVector.FromSortableVector |
| list.go:132-168 | `Insert` reads `node.prev` of the front node, which is nil, at index 0 of a non-empty list; at index == size the walk ends without a splice and without a panic | Insert(0, 9) on {1, 2} dereferences nil; Insert(2, 9) on {1, 2} leaves {1, 2} | index 0 prepends and index == size appends, as Vector.Insert does | not executed | Lists.List.Insert, Lists.InsertAtFrontPanics, Lists.InsertAtSizeDoesNothing | Lists.List.InsertAt |
| list.go:208-237 | `Erase` sets `break_out` outside the `idx == index` branch, so only the front node is visited; index 0 then dereferences the front node's nil `prev` | Erase(1) on {1, 2, 3} leaves {1, 2, 3} and reports no error | the node at the index is unlinked and its element torn down, as Vector.Erase does | not executed | Lists.List.Erase, Lists.EraseSecondDoesNothing | Lists.List.EraseAt |
