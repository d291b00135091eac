# ds-list `ForwardList` in Dafny

This project models the singly linked list `ForwardList<T>` of
`ds-list/src/lib.rs` and its private `Node<T>`. The list is a chain of
heap nodes reached from `head`, with a cached `size`. It supports
`push_front`, `push_back`, `pop_front`, `pop_back`, `is_empty`,
`is_sorted`, `get` and `len`. The inline test module of the same file is
modelled as client methods.

- `forward_list.dfy`, module `DsList`:
  - the error tags and a `Result` type;
  - the `Node` class, with a `value` and a nullable `next`;
  - the `ForwardList` class, with the real fields `head` and `size` and the
    ghost fields `Contents` (the values front to back), `Spine` (the nodes
    front to back) and `Repr` (the footprint).
  - `Valid()` is the representation invariant. The chain from `head` visits
    the nodes of `Spine` in order, each node once, and the last node has no
    successor. `size` equals the number of those nodes, and `head` is null
    iff `size` is zero.
  - Every mutator keeps `Valid()` and states the new `Contents` and `size`
    in terms of the old ones.
  - The cursor loops of `push_back`, `pop_back`, `is_sorted` and `get` are
    `while`/`for` loops over node references. Their invariants place the
    cursor at a position of `Spine`.
- `forward_list_tests.dfy`, module `DsListTests`:
  - the scenarios of `mod tests`, each proved from the list's contracts;
  - the general laws behind those scenarios, for any input sequence:
    - push at the front, then drain from the front, gives the reverse
      order (LIFO);
    - push at the back, then drain from the back, gives the reverse order;
    - push at the back, then drain from the front, gives push order (FIFO);
    - push at the front, then drain from the back, gives push order;
    - push at the back, then `get(i)`, gives the i-th pushed value.

The element type is `int`. The source is generic over `T: PartialOrd`, and
its tests use `i32`. A fixed total order is what `is_sorted` needs.

The two `&'static str` errors become the tags `EmptyList` and
`IndexOutOfRange` of a `Result`. The message text is not modelled.

Notes on the code:
- `get` reports an out-of-range index with `Err("Index out of range")`,
  not with an absent value.
- `is_empty` tests whether `head` is absent, not whether `size` is zero.
  `IsEmpty` proves that the two agree under the invariant.
- `pop_back` selects its one-element branch by the cached `len()`.

## Model

| member | source | states |
|---|---|---|
| `DsList.Node.New` | ds-list/src/lib.rs:8-13 | a new node holds the value and has no successor |
| `DsList.Node.From` | ds-list/src/lib.rs:15-20 | a new node holds the value and links to the given successor |
| `DsList.ForwardList.constructor` | ds-list/src/lib.rs:31-36 | a new list satisfies the invariant, has no head, has size 0 and holds no values |
| `DsList.ForwardList.OnlyTailLacksSuccessor` | ds-list/src/lib.rs:2-5 | in a valid chain, a node has no successor iff it is the last one; this is where the cursor walks stop |
| `DsList.ForwardList.PushFront` | ds-list/src/lib.rs:38-44 | keeps the invariant; the contents become `[x] + old` and the size grows by exactly one |
| `DsList.ForwardList.PushBack` | ds-list/src/lib.rs:46-58 | keeps the invariant; the contents become `old + [x]` and the size grows by one; the old nodes stay in place and in order |
| `DsList.ForwardList.PopFront` | ds-list/src/lib.rs:60-71 | on an empty list returns `Err(EmptyList)` and changes nothing; otherwise returns `Ok(old[0])`, the contents become `old[1..]`, the size drops by one and the chain keeps every node but the old head |
| `DsList.ForwardList.PopBack` | ds-list/src/lib.rs:73-95 | on an empty list returns `Err(EmptyList)` and changes nothing; otherwise returns `Ok` of the last value, the contents lose their last value, the size drops by one and the chain keeps every node but the last, in order; a one-value list is left with no head and size 0 |
| `DsList.ForwardList.IsEmpty` | ds-list/src/lib.rs:97-99 | true iff `head` is absent, iff the contents are empty, iff `size` is zero |
| `DsList.ForwardList.IsSorted` | ds-list/src/lib.rs:101-112 | true iff no adjacent pair of the contents is inverted; changes nothing |
| `DsList.SortedIffNonDecreasing` | ds-list/src/lib.rs:101-112 | checking only adjacent pairs is the same as checking that every earlier value is at most every later one |
| `DsList.ForwardList.Get` | ds-list/src/lib.rs:114-126 | `Err(IndexOutOfRange)` exactly when `index` is at least the length; otherwise `Ok` of the value at `index`; changes nothing |
| `DsList.ForwardList.Len` | ds-list/src/lib.rs:128-130 | the cached size equals the number of values held |
| `DsListTests.EmptyListTest` | ds-list/src/lib.rs:139-142 | a new list has length 0, is empty and is sorted (the sorted part is the test at lines 196-199) |
| `DsListTests.PopFrontInEmptyListTest` | ds-list/src/lib.rs:145-148 | popping the front of a new list fails with `EmptyList` |
| `DsListTests.PopFrontInNonEmptyListTest` | ds-list/src/lib.rs:151-160 | after front pushes of 10, 20, 30, the front pops give 30, 20, 10 |
| `DsListTests.PushBackGetTest` | ds-list/src/lib.rs:164-193 | after back pushes of 10, 20, 30, the length is 3, `get` 0 to 2 gives 10, 20, 30, and `get(3)` is out of range |
| `DsListTests.IsSortedTest` | ds-list/src/lib.rs:201-219 | 5, 6, 1 pushed at the back is not sorted; 10, 20, 30 is sorted |
| `DsListTests.PopBackEmptyListTest` | ds-list/src/lib.rs:222-225 | popping the back of a new list fails with `EmptyList` |
| `DsListTests.PopBackTest` | ds-list/src/lib.rs:228-240 | after back pushes of 5, 6, 1, the back pops give 1, 6, 5 and the length falls 2, 1, 0 |
| `DsListTests.FromPushBacks` | ds-list/src/lib.rs:46-58 | pushing any sequence at the back, one value at a time, yields a valid list holding that sequence |
| `DsListTests.PushFrontThenDrainFront` | ds-list/src/lib.rs:38-71 | front pushes of any sequence, then front pops until empty, return the sequence reversed (LIFO); the list ends with length 0 and one more pop fails |
| `DsListTests.PushFrontThenDrainBack` | ds-list/src/lib.rs:38-95 | front pushes of any sequence, then back pops until empty, return the sequence in push order; the list ends with length 0 and one more pop fails |
| `DsListTests.PushBackThenGet` | ds-list/src/lib.rs:114-126 | after back pushes of any sequence, the length is its length, `get(i)` is its i-th value, and every index from its length on is out of range |
| `DsListTests.PushBackThenDrainBack` | ds-list/src/lib.rs:73-95 | back pushes of any sequence, then back pops until empty, return the sequence reversed; the list ends with length 0 and one more pop fails |
| `DsListTests.PushBackThenDrainFront` | ds-list/src/lib.rs:60-71 | back pushes of any sequence, then front pops until empty, return the sequence in push order (FIFO) |

## Left out

- The doubly linked, sentinel-ring list and the `List` trait. The test files refer to them, but their source is not part of this model.
- `src/main.rs`. It only builds a list and prints the result of one `pop_front`, so it is I/O.
- Rust ownership: `Box`, `Option::take`, reborrowed `&mut` cursors and drop order. Nodes are plain object references. Unlinking a node stands for freeing it, and the node also leaves the ghost footprint `Repr`.
- The generic element type and `PartialOrd` corner cases such as NaN. Elements are `int`.
- The text of the error messages. Only the error kind is kept.
- Fixed-width `usize` overflow of `size`. The size is a `nat`, and overflow would need memory exhaustion first.
- `get` takes `&mut self` in the source but changes nothing. `Get` is a method with no `modifies` clause.
