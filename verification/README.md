# B-Tree insertion, modelled in Dafny

This project models the in-memory B-Tree of `src/main/java/Trees/BTree.java`:
construction from an order, insertion (top-down descent to a leaf, splittable
insert into a node, bottom-up propagation of splits, root split), and the
in-order enumeration used to observe the tree. Nodes are immutable values
`Node(values: seq<int>, children: seq<Node>)`. A leaf has no children, and an
internal node has one more child than values. Elements are `int` under `<=`.

Modules, following the program's structure:

- `SortedSeq` (`sorted_seq.dfy`): sortedness and the slot search that the
  descent performs in every node (`SlotIndex`). Also the stable sorted
  insertion `InsertSorted`, which is the reference the tree's contents are
  compared with.
- `Nodes` (`nodes.dfy`): the node datatype and the enumeration
  child0, v0, child1, …. `InOrder` is the corrected traversal and
  `InOrderAsWritten` is the source's traversal with its early return. This
  module also holds the shape, capacity and equal-leaf-depth predicates.
- `Insertion` (`insertion.dfy`): the order and its derived constants
  (`Config`), the upward data of a split (`Upward`), `SplittableInsert`, and
  the recursive private `put` (`Descend`), with the lemmas that each step keeps
  contents, shape, leaf depth and non-emptiness.
- `BTree` (`btree.dfy`): the tree, the constructor (`NewTree`), the public
  insert (`Put`), the accessors, and the guarantees over any sequence of
  inserts.
- `Findings` (`findings.dfy`): the two defects listed below, modelled as
  written.
- `OrderTwo` (`order_two.dfy`): the trees built by inserting 1 to 5 at
  order 2, worked through one insert at a time.
- `Scenarios` (`scenarios.dfy`): concrete insert sequences.

The central theorem is `Insertion.DescendContents`. Inserting `x` into a
subtree with sorted contents yields exactly the old contents with `x` placed
after every element `<= x`. This holds whether or not splits happen.
Sortedness, the multiset of elements and the count all follow from it. The
other guarantees are shown separately: node capacity `order - 1`, one more
child than values, and equal leaf depth. The leaf depth changes only when the
root splits (`BTree.PutHeight`).

Root-ness is structural. The source tests `parent == null` to recognise the
root. Parent pointers are only ever null at the root, so the model lets the
top-level `Put` absorb a split reported by the root instead. The stale parent
pointers of children moved into a right sibling never matter.

Where a textbook B-tree and this code differ, the model follows the code:

- With duplicates, a child is not strictly below the value to its right. For
  example, inserting 5, 5, 5 at order 3 leaves 5 in both children. The model
  states non-decreasing order of the enumeration.
- The constructors accept order 2 (BTree.java:57, 70). The code builds trees whose shape and
  contents are fine (`BTree.BuiltTree` covers order 2). Its traversal,
  however, loses elements there (see Findings).

## Model

| member | source | states |
|---|---|---|
| `SortedSeq.SlotIndex` | src/main/java/Trees/BTree.java:122-143 | The descent slot is in `[0, count]`. Every value before it is `<= x`. The value at the slot, if there is one, is greater than `x`. So the slot counts the leading values not above the new element. |
| `SortedSeq.SlotIndexSplitsByValue` | src/main/java/Trees/BTree.java:122-143 | In a sorted node, a value lies before the slot if and only if it is `<= x`. Equal values therefore stay in front of the new element (ties go right). |
| `SortedSeq.InsertSortedKeepsSorted` | src/main/java/Trees/BTree.java:196-206 | Placing the new element at its descent slot keeps a sorted sequence sorted. |
| `SortedSeq.InsertSortedMultiset` | src/main/java/Trees/BTree.java:196-206 | Placing the new element at its slot adds exactly one occurrence of it. Nothing else is lost or added, and the length grows by one. |
| `Insertion.Merge` | src/main/java/Trees/BTree.java:212-227 | The combined list has one value more, with `x` at the insert index. A leaf stays a leaf. An internal node gets the right subtree just right of `x` and keeps one more child than values. |
| `Insertion.MergeKeepsOrder` | src/main/java/Trees/BTree.java:212-227 | The values before the insert index and the children up to it are unchanged, and the rest move one place right. The values are the old ones plus one `x`. |
| `Insertion.SplittableInsert` | src/main/java/Trees/BTree.java:193-256 | A node splits if and only if it is full. Without a split, `x` lands at the slot and the right child at slot + 1, and the other values and children keep their order. With a split, `midIndex` values stay left and `order - midIndex - 1` values go right. Left ++ [promoted] ++ right is the combined list, the children are partitioned the same way, and both halves keep the node's leaf flag. |
| `Insertion.SplittableInsertContents` | src/main/java/Trees/BTree.java:208-256 | Split or not, the result enumerates exactly the merged node's contents, with nothing lost or reordered. |
| `Insertion.SplittableInsertShaped` | src/main/java/Trees/BTree.java:193-256 | Every node the step produces holds at most `order - 1` values and, if internal, one more child than values. |
| `Insertion.SplittableInsertBalanced` | src/main/java/Trees/BTree.java:208-256 | Both halves of a split keep every leaf at the depth the node had. |
| `Insertion.SplittableInsertNoEmpty` | src/main/java/Trees/BTree.java:246-256 | From order 3 on, both halves of a split keep at least one value. |
| `Insertion.Descend` | src/main/java/Trees/BTree.java:117-157 | Only a full node reports a split upward. A node that absorbs the insert gains at most one value and keeps its leaf flag. |
| `Insertion.InsertIntoChildSlot` | src/main/java/Trees/BTree.java:145-153 | Sorted insertion into an internal node's contents happens entirely inside the child at the descent slot. Everything to the left of that child is `<= x`, and the enumeration to its right starts above `x`. |
| `Insertion.DescendContents` | src/main/java/Trees/BTree.java:117-157 | Inserting below a sorted subtree yields exactly the old enumeration with `x` inserted after every element `<= x`, however many splits happen. |
| `Insertion.DescendShaped` | src/main/java/Trees/BTree.java:117-157 | Every node produced by an insert respects the capacity bound and the rule of one more child than values. |
| `Insertion.DescendBalanced` | src/main/java/Trees/BTree.java:117-157 | An insert keeps all leaves at the depth they had. A split hands up two halves of equal depth. |
| `Insertion.DescendNoEmpty` | src/main/java/Trees/BTree.java:117-157 | From order 3 on, an insert never creates a node without values. |
| `Nodes.InOrderContents` | src/main/java/Trees/BTree.java:281-307 | The corrected traversal of a well-shaped subtree lists exactly what its nodes store: its multiset equals `Contents`, which is defined over the nodes without any order. |
| `Nodes.InOrderAsWritten` | src/main/java/Trees/BTree.java:281-307 | The source's traversal yields nothing for a node whose first value slot is empty, whatever its children hold (line 284). On a subtree without empty nodes it equals the corrected traversal. |
| `Nodes.AsWrittenAgrees` | src/main/java/Trees/BTree.java:281-307 | If no node is empty, the source's early-returning traversal equals the corrected enumeration. |
| `BTree.NewTree` | src/main/java/Trees/BTree.java:68-77 | Construction fails with the offending order if and only if the order is below 2. Otherwise it yields an empty tree with `elementCount == order - 1` and `midIndex == order / 2`. |
| `BTree.NewTreeValid` | src/main/java/Trees/BTree.java:68-77 | A new tree satisfies the invariant, is empty and enumerates nothing. |
| `BTree.Put` | src/main/java/Trees/BTree.java:94-105 | An empty tree gets a single leaf root holding only `x`, with size 1. Otherwise size grows by exactly one. A split of the old root becomes a non-leaf root with one value and two children. The order never changes. |
| `BTree.NewRoot` | src/main/java/Trees/BTree.java:258-268 | The root after an insert is well shaped and enumerates what the descent handed up. A root split gives a root with one value over two children. When the old contents are sorted, the new root holds them with `x` sorted in. |
| `BTree.PutValid` | src/main/java/Trees/BTree.java:94-105 | An insert preserves the invariant: capacity, shape, equal leaf depth, sorted contents, and size equal to the element count. The new enumeration is the old one with `x` sorted in. |
| `BTree.RootSplitValid` | src/main/java/Trees/BTree.java:258-268 | The new root built from a root split is well shaped, one level taller, with all leaves at the same depth. Its enumeration is left, promoted value, right. |
| `BTree.PutHeight` | src/main/java/Trees/BTree.java:258-268 | The tree grows one level exactly when the old root splits, and keeps its height otherwise. |
| `BTree.SizeCountsElements` | src/main/java/Trees/BTree.java:327-343 | The size equals the number of enumerated elements. The tree is empty exactly when it enumerates nothing. |
| `BTree.Order` | src/main/java/Trees/BTree.java:323-325 | On a well-formed tree the order is at least 2 and fixes the node capacity `order - 1` and the split point `order / 2`. |
| `BTree.Size` | src/main/java/Trees/BTree.java:332-334 | On a valid tree the counter equals the number of enumerated elements. |
| `BTree.IsEmpty` | src/main/java/Trees/BTree.java:341-343 | On a valid tree it holds exactly when nothing is enumerated. |
| `BTree.PutAllValid` | src/main/java/Trees/BTree.java:94-105 | After any sequence of inserts: the invariant holds, size grew by the number of inserts, and the contents equal stable insertion sort of the inserted elements into the old contents. |
| `BTree.BuiltTree` | src/main/java/Trees/BTree.java:193-307 | For every order >= 2 and any inserts, every node holds at most `order - 1` values. Every internal node has count + 1 children, and all leaves are at one depth. The enumeration is non-decreasing, is a permutation of the inserted elements, and has length equal to size. |
| `Findings.PutAssertionsDisabled` | src/main/java/Trees/BTree.java:99-102 | As written with assertions off, an insert into a non-empty tree leaves the contents unchanged while the size still grows by one. |
| `Findings.AssertionsDisabledDropsInsert` | src/main/java/Trees/BTree.java:100 | Order 3, inserting 1 then 2: size 2 but only [1] stored. The corrected insert stores [1, 2]. |
| `Findings.AsWrittenTraversalFromOrderThree` | src/main/java/Trees/BTree.java:281-307 | From order 3 on, the source's traversal equals the corrected enumeration on every valid tree. |
| `Findings.AsWrittenBuiltTree` | src/main/java/Trees/BTree.java:281-307 | From order 3 on, the source's traversal of a tree built by any inserts is non-decreasing, is a permutation of the inserted elements, and has length equal to size. |
| `Findings.Order2TraversalLosesElement` | src/main/java/Trees/BTree.java:284 | Order 2, inserting 1..5: the source's traversal yields [1, 2, 3, 4] with size 5. The corrected enumeration yields [1, 2, 3, 4, 5]. |
| `Scenarios.OrderThreeSequence` | src/main/java/Trees/BTree.java:94-105 | Order 3, inserting 10, 20, 5, 6, 12, 30, 7, 17 enumerates [5, 6, 7, 10, 12, 17, 20, 30] with size 8. |
| `Scenarios.DuplicatesKept` | src/main/java/Trees/BTree.java:122-143 | Order 3, inserting 5 three times keeps all three copies, with size 3. |
| `Scenarios.OrderTwoThreeInserts` | src/main/java/Trees/BTree.java:208-268 | Order 2, inserting 1, 2, 3 leaves a root with one value over two leaves, enumerating [1, 2, 3]. |

## Left out

- Comparator versus `Comparable` dispatch, and the `NullPointerException` and `ClassCastException` paths (BTree.java:127-142): elements are `int` under one total order, so neither error can arise.
- Null elements (BTree.java:95-98, 125, 127-128, 284): elements are `int`, so a null can never be stored. In the source, `null` also marks an empty value slot. An empty tree stores a null root value without any check. A tree with a `Comparator` never calls `Objects.requireNonNull` (line 134), so a null goes further down. A stored null hides the values after it from the slot search, the fullness test and the traversal. For example, `put(null)` on an empty tree gives size 1 and traversal []. A following `put(5)` then overwrites that slot: size 2, traversal [5].
- `toString` (BTree.java:312-316) and the console driver `src/Tests/BTreeTest.java`: formatting and interactive I/O only.
- Parent back-pointers (BTree.java:15, 210, 266-267): root-ness is modelled structurally, as the top-level call.
- The `IllegalArgumentException` for a null subtree root (BTree.java:118-120): the model's `Descend` requires a well-shaped node, so the child at the descent slot always exists.
- The defensive `assert bTreeNode == bTreeRootNode` (BTree.java:260): it holds by construction in the structural model.
- Fixed arrays with null sentinels and the `ArrayList` scratch buffers: node contents are sequences with explicit lengths.
- The element returned by the public `put` (BTree.java:104): it is always the argument.
- BTree.Put: the size counter is an unbounded integer, so Java's 32-bit `int` wrap-around after 2^31 - 1 inserts is not modelled.
- Public `inOrderTraversal` on an arbitrary node: modelled as `Nodes.InOrderAsWritten` on any node; only the root call is used by the tree.

## Findings

| source | as written | input that shows it | evidently intended | confidence | as-written member | corrected member |
|---|---|---|---|---|---|---|
| src/main/java/Trees/BTree.java:100 | The recursive insert is the operand of an `assert` statement. With JVM assertions disabled (the default), a non-empty tree skips the insert but still increments `size`. | order 3, put 1 then put 2: size 2, elements [1] | always run the insert and check only its result | not executed; high | `Findings.AssertionsDisabledDropsInsert` | `BTree.PutValid` |
| src/main/java/Trees/BTree.java:284 | The traversal returns nothing for a node whose `values[0]` is null, even when `children[0]` holds elements. At order 2 every split leaves such a right sibling (`order - midIndex - 1 = 0` values). | order 2, put 1, 2, 3, 4, 5: traversal [1, 2, 3, 4], size 5 | enumerate `children[0]` even when the node holds no value | not executed; high | `Findings.Order2TraversalLosesElement` | `BTree.BuiltTree` |
