# Sorted list merge and binary search tree

A Dafny model of two small Rust data-structure exercises, with proofs of
what they promise.

- `SortedListMerge` (`sorted_list_merge.dfy`) covers
  `exercises/algorithm/algorithm1.rs`. It models a singly linked list of
  heap nodes that keeps a head (`start`), a tail (`end`) and a node counter
  (`length`). It also models the merge of two ascending lists into one by
  relinking their nodes. The nodes are Dafny objects whose `next` field is
  updated in place. The ghost `spine` lists the nodes reached from `start`,
  and the ghost `Contents` lists their values. `Merge` is proved against
  `MergeSeq`, a reference two-pointer merge on sequences. Sortedness,
  permutation and tie order are proved about `MergeSeq`.
- `SearchTree` (`search_tree.dfy`) covers `exercises/algorithm/algorithm4.rs`.
  It models a binary search tree of integer nodes whose `left`/`right`
  children are updated in place. A ghost `Shape` records which node sits
  where. `Distinct` says no node occurs twice, which is how the model states
  that each node owns its children. `Erase` maps a shape to the value
  `Tree` that it stands for. The iterative insert, the recursive insert and
  the search are all proved against `Inserted` and `Values`. `Inserted` is a
  reference insertion on values, and `Values` is the set of stored values.
  The ordering invariant, the contents, duplicate handling and node
  positions are proved about these two functions. The iterative insert
  keeps a ghost path of frames (a zipper) from the root down to `current`.
  This path is what shows that hanging a leaf under `current` rebuilds the
  whole tree.

The element type is `int` in both modules. The source is generic over an
ordering, and `int` is a total order.

Two facts about `merge` as written (algorithm1.rs:100-128) shape the model:

- On equal heads, `merge` moves the second list's node first, because the
  test at algorithm1.rs:107 is a strict `<`.
- `merge` never advances the new list's `length`, so `Merge` ensures
  `listC.length == 0`.

The `merge` loop relies on `splice` appending exactly one node. The source
`splice` does something else (see Left out). The model gives `Splice` the
one-node contract that `merge` relies on.

## Model

| member | source | states |
|---|---|---|
| SortedListMerge.MergeSorted | exercises/algorithm/algorithm1.rs:100-128 | merging two ascending sequences gives an ascending sequence |
| SortedListMerge.MergePermutation | exercises/algorithm/algorithm1.rs:100-128 | the merge holds exactly the elements of both inputs, with multiplicity, and its length is the sum of theirs |
| SortedListMerge.MergeTiesSecondFirst | exercises/algorithm/algorithm1.rs:107-115 | in a merge of two ascending inputs, every element taken from the second input comes before every equal element taken from the first (`MergeFrom` records which input each position was taken from) |
| SortedListMerge.MergeSecondFirst | exercises/algorithm/algorithm1.rs:107-115 | when no element of the second input is greater than any element of the first, the whole second input comes first, so the second list wins ties |
| SortedListMerge.MergeFirstFirst | exercises/algorithm/algorithm1.rs:107-110 | when every element of the first input is strictly smaller than every element of the second, the merge is the first input followed by the second |
| SortedListMerge.Node.constructor | exercises/algorithm/algorithm1.rs:22-24 | a new node holds the given value and has no successor |
| SortedListMerge.LinkedList.constructor | exercises/algorithm/algorithm1.rs:49-55 | a new list is empty, with length 0 and neither start nor end set |
| SortedListMerge.LinkedList.Add | exercises/algorithm/algorithm1.rs:57-67 | appends a fresh node at the tail: the contents become the old contents followed by the new value, length grows by one, end is the new node with no successor, and start changes only when the list was empty |
| SortedListMerge.LinkedList.GetIthNode | exercises/algorithm/algorithm1.rs:73-80 | walking `index` steps from the node at position k yields the value at position k + index, and None when that position is past the end or `index` is negative |
| SortedListMerge.LinkedList.Get | exercises/algorithm/algorithm1.rs:69-72 | returns a value exactly when 0 <= index < the number of elements, and that value is the element at `index`; the list is not changed |
| SortedListMerge.LinkedList.Splice | exercises/algorithm/algorithm1.rs:83-98 | appends the single node as the new tail and leaves `length` alone; this is the contract `merge` relies on (see Left out) |
| SortedListMerge.LinkedList.Merge | exercises/algorithm/algorithm1.rs:100-128 | the new list holds the reference merge of the inputs' values, its nodes are exactly the inputs' nodes, it is ascending when both inputs are, its values are a permutation of theirs, and its length counter stays 0 |
| SearchTree.InsertValues | exercises/algorithm/algorithm4.rs:49-86 | after inserting v the set of stored values is the old set with v added |
| SearchTree.InsertBst | exercises/algorithm/algorithm4.rs:61-84 | insertion keeps the ordering: every value left of a node is smaller and every value right of it is larger |
| SearchTree.InsertPresent | exercises/algorithm/algorithm4.rs:83 | on a search tree, inserting a value that is already stored leaves the tree unchanged |
| SearchTree.InsertIdempotent | exercises/algorithm/algorithm4.rs:83 | on any tree, inserting the same value twice gives the same tree as inserting it once |
| SearchTree.InsertSize | exercises/algorithm/algorithm4.rs:65-67 | inserting an absent value adds exactly one node |
| SearchTree.InsertExtends | exercises/algorithm/algorithm4.rs:51-54 | every existing node keeps its position and value after insertion |
| SearchTree.TreeNode.constructor | exercises/algorithm/algorithm4.rs:31-37 | a new node holds the given value and has no children |
| SearchTree.TreeNode.Insert | exercises/algorithm/algorithm4.rs:130-148 | recursive insertion keeps the nodes a tree and gives the reference insertion of the subtree; every old node stays in the tree and the only new nodes are fresh ones, so it has the same effect as the iterative insertion |
| SearchTree.BinarySearchTree.constructor | exercises/algorithm/algorithm4.rs:44-46 | a new tree is empty, so it stores no value |
| SearchTree.BinarySearchTree.Insert | exercises/algorithm/algorithm4.rs:49-86 | iterative insertion keeps the tree valid and ordered, gives the reference insertion of the old tree, adds exactly v to the stored values, keeps every old node in the tree and creates only fresh nodes; the descent terminates on the height of the subtree under `current` |
| SearchTree.BinarySearchTree.HangLeaf | exercises/algorithm/algorithm4.rs:63-81 | hanging a fresh node holding v at the empty child where the descent ends gives the reference insertion of the whole tree; the tree's nodes become the old nodes plus that one |
| SearchTree.BinarySearchTree.Search | exercises/algorithm/algorithm4.rs:89-122 | returns true exactly when v is stored in the tree; the tree is not changed |
| SearchTree.HungPlug | exercises/algorithm/algorithm4.rs:65-67 | putting a fresh leaf at the end of a descent for v keeps the nodes distinct, adds only that leaf, and gives the reference insertion of the whole tree |
| SearchTree.InsertThroughCtx | exercises/algorithm/algorithm4.rs:61-84 | inserting below the point where the descent for v stands is the same as inserting v into the whole tree |
| SearchTree.Descend | exercises/algorithm/algorithm4.rs:69-80 | moving `current` to the child that v selects is still a descent for v over the same tree |

## Left out

- Raw pointers: `NonNull`, `Box::into_raw` and the unsafe dereferences in
  algorithm1.rs become Dafny object references. Nodes are never freed there
  (the list has no `Drop`), and the model has no deallocation either.
- `Box` ownership in algorithm4.rs is stated by `Distinct` on the ghost
  shape rather than by the type system.
- LinkedList.Splice: the source `splice` (algorithm1.rs:83-98) first
  recurses down the node's whole remaining chain. Only then does it append
  the node and reset its `next` to the result of the recursion. So it moves
  the entire chain in post-order, and the relinking can form cycles. This
  contradicts the one-node append that the `merge` loop assumes. The model
  gives `Splice` that one-node contract and proves `Merge` with it. The
  as-written recursive relinking is not modelled.
- LinkedList.Merge: does not promise that the merged `length` is the sum of
  the input lengths, because the source never updates it.
- MergeTiesSecondFirst: states the tie order on the reference merge of
  values, with `MergeFrom` naming the input of each position. `Merge`
  ensures its values equal that reference merge and its nodes are the
  inputs' nodes. It does not state, node by node, which input list each
  node of the result came from.
- `length` is a `u32` and the index of `get` an `i32` in the source. The
  model uses `nat`/`int`, so two overflows are not modelled. One is
  `length` growing past 2^32 - 1. The other is `get_ith_node` decrementing
  the index (algorithm1.rs:78): `get(i32::MIN)` on a non-empty list
  overflows there, which panics in a debug build. The model returns
  `None` for every negative index.
- `PartialOrd` on incomparable values such as NaN: elements are `int`.
- `Display`/`fmt` for lists and nodes (algorithm1.rs:131-153) and the
  `Debug` derives: output formatting is not part of this model.
- `Default::default` (algorithm1.rs:36-43) only calls `new`.
- `LinkedList.Merge` requires the two input lists to share no node. Two
  separately owned lists, as the source passes by value, always satisfy
  this.
- SearchTree.TreeNode.Insert: takes the ghost shape of the subtree below
  the node as an extra argument and returns the new one. It states its
  effect on that subtree's nodes only.
- The equivalence of the recursive and iterative insertions is stated
  through their shared specification `Inserted`, not as a separate lemma.
