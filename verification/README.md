# Binary heap and undirected graph — a Dafny model

This project models two small data structures from a Rust exercise
repository and proves properties of them.

**The heap** (`exercises/algorithm/algorithm9.rs`) is a binary heap over a
`Vec<T>` indexed from 1:

- Slot 0 holds `T::default()` as a sentinel. It is never read as data.
- `count` is the number of live elements.
- A stored comparator `comparator(a, b)` means "a ranks strictly ahead of b".
- `add` appends a value and sifts it up: the parent of slot `i` is slot `i / 2`.
- `next` returns `None` on an empty heap. Otherwise it takes the root with
  `swap_remove(1)` and sifts the moved element down toward the preferred child.
- `new_min` and `new_max` (and `MinHeap::new` / `MaxHeap::new`, which call
  them) use `<` and `>`.

**The graph** (`exercises/algorithm/algorithm10.rs`) is an adjacency table
from node names to lists of `(neighbour, weight)` pairs:

- `add_node` inserts a missing node with an empty list and reports whether it
  did.
- `add_edge` creates both endpoints and appends the edge to both lists.
- `contains`, `nodes` and `edges` are read-only views of the table.

Files:

- `heap.dfy` (`Heaps`): the generic heap.
- `min_max_heap.dfy` (`MinMaxHeaps`): the min- and max-heaps over `int`, and
  the scenarios from the heap's tests.
- `graph.dfy` (`Graphs`): the graph and its edge view.
- `graph_examples.dfy` (`GraphExamples`): the scenarios from the graph's tests.
- `orders.dfy` (`Orders`): strict weak orders.
- `wrappers.dfy` (`Wrappers`): `Option`.

How the model is set up:

- Both structures are immutable values. Each mutating operation returns the
  updated structure.
- The heap's comparator is a function value. It is required to be a strict
  weak order: irreflexive, transitive, and with "not ahead of" also
  transitive. This is what `<` and `>` on an `Ord` type provide.
- The heap's element multiset is `Elements(h)`: the multiset of `items[1..]`.
- `Valid(h)` combines three things:
  - the storage length is `count + 1`;
  - the comparator is a strict weak order;
  - no live element ranks strictly ahead of its parent.
- The graph's edge view is `EdgeBag(g)`: the multiset of all triples
  `(n, m, w)` with `(m, w)` in the list of `n`. It is defined through the
  multiplicity of each triple, so it does not depend on the order in which
  the table's keys are visited.
- `Symmetric(g)` says that every triple is recorded as often as its reverse.

## Model

| member | source | states |
|---|---|---|
| Heaps.New | exercises/algorithm/algorithm9.rs:18-24 | a new heap has length 0, is empty, holds no live elements, and keeps the given comparator; its storage is only the sentinel slot, which holds the default value |
| Heaps.Len | exercises/algorithm/algorithm9.rs:26-28 | `len` is the number of live elements: the storage after the sentinel, and the size of the element multiset |
| Heaps.IsEmpty | exercises/algorithm/algorithm9.rs:30-32 | `is_empty` holds exactly when the heap holds no element |
| Heaps.SentinelSplit | exercises/algorithm/algorithm9.rs:21 | the storage is the sentinel plus the live elements |
| Heaps.ParentIdx | exercises/algorithm/algorithm9.rs:52-54 | slot `i` is slot `2p` or slot `2p + 1` of its parent `p` |
| Heaps.LeftChildIdx | exercises/algorithm/algorithm9.rs:60-62 | the left child of `i` is an even slot whose parent is `i` |
| Heaps.RightChildIdx | exercises/algorithm/algorithm9.rs:64-66 | the right child of `i` is an odd slot whose parent is `i` |
| Heaps.ChildrenPresent | exercises/algorithm/algorithm9.rs:56-58 | true exactly when some live slot has `i` as its parent |
| Heaps.SmallestChildIdx | exercises/algorithm/algorithm9.rs:68-80 | the chosen slot is a child of `i`; when `i` has children it is a live one, and under a strict weak order no live child of `i` ranks ahead of it |
| Heaps.Swap | exercises/algorithm/algorithm9.rs:44 | `Vec::swap` exchanges two slots, keeps every other slot and the multiset of contents |
| Heaps.SwapRemove | exercises/algorithm/algorithm9.rs:120 | `Vec::swap_remove(i)` returns slot `i`, puts the last element there, keeps every other slot, and loses exactly the returned element |
| Heaps.SwapUpStep | exercises/algorithm/algorithm9.rs:43-45 | swapping an element with a parent it ranks ahead of moves the only heap-order violation one level up |
| Heaps.HeapifyUp | exercises/algorithm/algorithm9.rs:40-50 | sifting up from the only out-of-place slot restores the heap order; it keeps the storage multiset, the sentinel, the count and the comparator |
| Heaps.Add | exercises/algorithm/algorithm9.rs:34-38 | `add(v)` keeps the heap valid, adds one to `len`, and adds exactly one `v` to the elements |
| Heaps.SwapDownStep | exercises/algorithm/algorithm9.rs:84-87 | swapping an element with its preferred child, which ranks ahead of it, moves the only heap-order violation one level down |
| Heaps.HeapifyDown | exercises/algorithm/algorithm9.rs:82-92 | sifting down from the only out-of-place slot restores the heap order; it keeps the storage multiset, the sentinel, the count and the comparator |
| Heaps.RootFirstAt | exercises/algorithm/algorithm9.rs:120 | in a heap-ordered storage no slot ranks strictly ahead of slot 1 |
| Heaps.RootFirst | exercises/algorithm/algorithm9.rs:120 | no element of a valid non-empty heap ranks ahead of its root |
| Heaps.RemovedRootLeavesOrderedBelow | exercises/algorithm/algorithm9.rs:120-123 | after `swap_remove(1)` the only possible heap-order violation is at the root |
| Heaps.Next | exercises/algorithm/algorithm9.rs:116-127 | on an empty heap it gives `None` and the heap is unchanged; otherwise it gives `Some(x)`, `len` drops by one, exactly one `x` leaves the elements, no remaining element ranks ahead of `x`, and the heap stays valid |
| Heaps.TakeRoot | exercises/algorithm/algorithm9.rs:119-126 | the non-empty branch of `next`: removes one element that no remaining element ranks ahead of, and keeps the heap valid |
| Heaps.TakeNext | exercises/algorithm/algorithm9.rs:116-127 | appending a value that nothing still pending ranks ahead of keeps the taken values in rank order |
| Heaps.Drain | exercises/algorithm/algorithm9.rs:116-127 | calling `next` until `None` yields every element exactly once, with no later value ranked ahead of an earlier one, and leaves an empty heap |
| Heaps.AddAll | exercises/algorithm/algorithm9.rs:34-38 | `add` once per value: `len` grows by the number of values and the elements gain exactly those values |
| Heaps.FromValues | exercises/algorithm/algorithm9.rs:18-38 | a new heap plus `add` for each value holds exactly those values |
| MinMaxHeaps.NewMin | exercises/algorithm/algorithm9.rs:99-102 | `new_min` (and `MinHeap::new`, lines 132-140) is a valid empty heap whose comparator is exactly `<` |
| MinMaxHeaps.NewMax | exercises/algorithm/algorithm9.rs:104-107 | `new_max` (and `MaxHeap::new`, lines 144-152) is a valid empty heap whose comparator is exactly `>` |
| MinMaxHeaps.DrainMin | exercises/algorithm/algorithm9.rs:99-102 | adding values to a min-heap and draining it yields a permutation of them in ascending order |
| MinMaxHeaps.DrainMax | exercises/algorithm/algorithm9.rs:104-107 | adding values to a max-heap and draining it yields a permutation of them in descending order |
| MinMaxHeaps.TakesBest | exercises/algorithm/algorithm9.rs:116-127 | if one element ranks ahead of all the others, it is the only value `next` can give |
| MinMaxHeaps.NextOfKnownBest | exercises/algorithm/algorithm9.rs:116-127 | `next` on a heap whose best element is known gives that element and leaves the others |
| MinMaxHeaps.MinHeapOpening | exercises/algorithm/algorithm9.rs:165-172 | a min-heap fed 4, 2, 9, 11 has length 4 and first gives 2 |
| MinMaxHeaps.MinHeapScenario | exercises/algorithm/algorithm9.rs:165-177 | the min-heap then gives 4 and 9; after adding 1 it gives 1 |
| MinMaxHeaps.MaxHeapOpening | exercises/algorithm/algorithm9.rs:180-187 | a max-heap fed 4, 2, 9, 11 has length 4 and first gives 11 |
| MinMaxHeaps.MaxHeapScenario | exercises/algorithm/algorithm9.rs:180-192 | the max-heap then gives 9 and 4; after adding 1 it gives 2 |
| MinMaxHeaps.EmptyScenario | exercises/algorithm/algorithm9.rs:159-162 | a new max-heap gives `None`, and gives it again |
| Graphs.RowBag | exercises/algorithm/algorithm10.rs:78-80 | the triples one node's list contributes: one per entry, with the entry's multiplicity |
| Graphs.SumLengthsRemove | exercises/algorithm/algorithm10.rs:77 | the total list length does not depend on which key is visited first |
| Graphs.EdgeBagOver | exercises/algorithm/algorithm10.rs:75-83 | the triples of a set of nodes: each as often as it is listed, and as many as the lists' total length |
| Graphs.New | exercises/algorithm/algorithm10.rs:17-21 | a new graph has no nodes and no edges, and is symmetric |
| Graphs.Lookup | exercises/algorithm/algorithm10.rs:68 | `HashMap::get` finds a list exactly when the name is a key, and then it is that key's list |
| Graphs.Contains | exercises/algorithm/algorithm10.rs:67-69 | `contains(n)` holds exactly when `n` is a key of the table |
| Graphs.Nodes | exercises/algorithm/algorithm10.rs:71-73 | `nodes()` holds exactly the names that `contains` accepts |
| Graphs.AddNode | exercises/algorithm/algorithm10.rs:55-63 | reports `true` exactly when the node was absent, and then adds it with an empty list and keeps every other list; otherwise the graph is unchanged; either way the node set gains `n` |
| Graphs.AddNodeTwice | exercises/algorithm/algorithm10.rs:55-63 | a second `add_node` of the same name reports `false` and changes nothing |
| Graphs.AddNodeKeepsEdges | exercises/algorithm/algorithm10.rs:55-63 | `add_node` leaves the edges unchanged and so keeps symmetry |
| Graphs.Push | exercises/algorithm/algorithm10.rs:39-47 | `entry(n).or_insert_with(Vec::new).push(nb)` makes `n` a key, appends `nb` to its list (empty if absent), and keeps every other list |
| Graphs.AddEdge | exercises/algorithm/algorithm10.rs:31-48 | `add_edge` adds both endpoints to the node set and no other node |
| Graphs.AddEdgeRow | exercises/algorithm/algorithm10.rs:31-48 | `add_edge((u, v, w))` appends `(v, w)` to the list of `u` and `(u, w)` to the list of `v`, both to the same list for a self-loop, and leaves every other list as it was |
| Graphs.Edges | exercises/algorithm/algorithm10.rs:75-83 | `edges()` returns each recorded triple as often as it is listed, in any key order, and as many triples as the lists' total length |
| Graphs.BothWays | exercises/algorithm/algorithm10.rs:39-47 | an undirected edge stands for two triples, the edge and its reverse |
| Graphs.PushCount | exercises/algorithm/algorithm10.rs:39-47 | appending to a list records exactly one more of one triple |
| Graphs.AddEdgeCount | exercises/algorithm/algorithm10.rs:31-48 | after `add_edge` each triple is recorded as often as before, plus its count in the edge and its reverse |
| Graphs.AddEdgeAddsBothWays | exercises/algorithm/algorithm10.rs:31-48 | `add_edge` adds exactly the edge and its reverse to the edges, and nothing else |
| Graphs.AddEdgeKeepsSymmetry | exercises/algorithm/algorithm10.rs:31-48 | `add_edge` keeps every triple recorded as often as its reverse |
| Graphs.AddEdgesNodes | exercises/algorithm/algorithm10.rs:31-48 | after several `add_edge` calls the nodes are the old ones plus every endpoint mentioned |
| Graphs.AddEdgesBag | exercises/algorithm/algorithm10.rs:31-48 | after several `add_edge` calls the edges are the old ones plus both directions of every call |
| Graphs.AllBothWaysSize | exercises/algorithm/algorithm10.rs:39-47 | `k` edges stand for `2k` triples |
| Graphs.AddEdgesKeepSymmetry | exercises/algorithm/algorithm10.rs:31-48 | several `add_edge` calls keep symmetry |
| Graphs.BuiltGraph | exercises/algorithm/algorithm10.rs:75-83 | from a new graph, `k` `add_edge` calls leave exactly the endpoints as nodes and both directions of each edge, `2k` triples in total (the lists' total length), recorded symmetrically |
| GraphExamples.TriangleHasSixDirectedEdges | exercises/algorithm/algorithm10.rs:92-110 | after edges a–b, b–c, c–a the six directed triples are all recorded, and there are exactly six |
| GraphExamples.AddNodeScenario | exercises/algorithm/algorithm10.rs:113-118 | the first `add_node("a")` inserts, the second does not, and `a` is then present |
| GraphExamples.PathGraph | exercises/algorithm/algorithm10.rs:121-130 | after edges a–b and b–c the nodes are exactly a, b, c and the edges are exactly both directions of each |
| GraphExamples.NodesAndEdgesScenario | exercises/algorithm/algorithm10.rs:121-138 | the same graph has three nodes, and `edges()` returns four triples, including both directions of each edge |
| GraphExamples.NeighbourLists | exercises/algorithm/algorithm10.rs:141-158 | after edges a–b, a–c, b–c the list of `a` is `(b, 5), (c, 7)` and the list of `b` is `(a, 5), (c, 10)` |
| GraphExamples.TriangleRowOfA | exercises/algorithm/algorithm10.rs:141-151 | starting from an empty list at `a`, those three edges leave `(b, 5), (c, 7)` there |
| GraphExamples.TriangleRowOfB | exercises/algorithm/algorithm10.rs:153-157 | starting from an empty list at `b`, those three edges leave `(a, 5), (c, 10)` there |

## Left out

- Heaps.New: `T::default()` is passed in as the `default` argument. `NewMin` and `NewMax` fix the element type to `int`, whose default is 0.
- Heaps.Valid: arbitrary comparators are not modelled. Every heap operation requires a strict weak order, which `<` and `>` on an `Ord` type are. The Rust code accepts any `fn(&T, &T) -> bool`; for one that is not an order it promises nothing.
- Heaps.HeapifyUp: it requires that the storage is heap-ordered except at the starting slot. This is the state `add` calls it in, and the only call in the source.
- Heaps.HeapifyDown: it requires that the storage is heap-ordered except at the starting slot. This is the state `next` calls it in, and the only call in the source.
- Heaps.SmallestChildIdx: the ranking guarantee is stated under a strict weak order and only when the slot has a live child, as in the one call in the source. Without children the source returns the left-child index unchecked, and the model returns the same index.
- The `usize` arithmetic of `count` and of the index helpers is unbounded here. Overflow needs more than `usize::MAX / 2` elements, which cannot be stored.
- The index helpers take `&self` in Rust but never read it; the model drops that argument from `parent_idx`, `left_child_idx` and `right_child_idx`.
- The Rust `Iterator` trait, the `Default` and `Ord` bounds and the `clippy` attributes are not modelled. `next` is a plain method returning an `Option`.
- `NodeNotInGraph` and its `Display` impl are not modelled: no operation returns it, and its only behaviour is formatting.
- `adjacency_table` and `adjacency_table_mutable` are accessors. The model reads and replaces the table directly.
- Graphs.Edges: the order of `HashMap` iteration is unspecified. The model visits keys in an arbitrary order and states only the multiset of the result. Likewise `nodes()` is a set.
- Edge weights are an `i32` newtype. No operation does arithmetic on them, so wrap-around never arises.
- `exercises/tests/tests5.rs`, `exercises/tests/build.rs` and `exercises/macros/macros3.rs` are not part of this model. They are a raw-pointer store, a build script and a `println!` macro demo, with no data-structure behaviour.
