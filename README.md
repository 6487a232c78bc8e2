# B-tree insertion engine

This project models the insertion engine of a B-tree visualiser (`src/utils/btree.ts`). It uses
the classic top-down insertion of minimum degree `t` (the engine's `order`). A full root is split
before the descent starts. On the way down, every full child is split before the engine enters it.
The key then goes into a leaf, just after the last key that is at most it, so duplicates are kept.
At each stage the engine records an animation step: an independent snapshot of the whole tree, an
action tag, a message, and the ids of the highlighted nodes.

The project has five modules:

- `Interfaces` (`interfaces.dfy`): the node and step records.
- `Invariants` (`invariants.dfy`): what a subtree holds (its keys, node ids and size) and the B-tree
  invariants:
  - every node is shaped (a leaf has no children; an internal node has one child more than it has keys);
  - keys are sorted inside a node and separated between children;
  - a node holds at most `2t-1` keys, and a non-root node at least `t-1`;
  - all leaves are at one depth.
- `BTreeSpec` (`spec.dfy`): the engine's operations as functions on node values, and the lemmas
  about them: sizes of the split halves, keys kept, validity kept, fresh ids, the descent position.
- `NodePaths` (`paths.dfy`): addressing a node by the child indexes leading to it. This is how the
  model expresses the engine's in-place changes to the node it has reached.
- `BTreeEngine` (`btree.dfy`): the class `BTree`, with fields `root`, `order` and `nodeIdCounter`.
  Its methods change those fields as the engine does. Each method that changes the tree ties the
  new state, in its `ensures`, to the corresponding `BTreeSpec` function. `CreateNode`, `CreateStep`,
  `ScanBack` and the constructor state their results directly. The methods that run under `Valid()` (`ChooseChild`,
  `SplitAndRechoose`, `SplitThenCompare`, `InsertIntoLeaf`, `InsertNonFull`, `SplitFullRoot`,
  `Insert`) also state that the tree stays valid and gains exactly the inserted key or none. The low-level
  `SplitNode`, `SplitChild` and `SplitRoot` state only the new state; that their result is valid
  is proved of the `BTreeSpec` functions they are tied to (`BTreeSpec.SplitChildWellFormed`,
  `BTreeSpec.RootSplitValid`). Every snapshot that `Insert` records is a valid tree holding the old
  keys, or the old keys plus the inserted key.

Some behaviour of the code worth stating outright:

- **Key equal to the median.** After the engine splits a child during the descent, it goes right of
  the median only when `key > node.keys[i]` (`btree.ts:82`). The comparison is strict, so a key
  equal to the median goes to the lower half. `BTreeSpec.SplitAndChoose` and
  `BTreeEngine.BTree.SplitThenCompare` do the same.
- **What moves to the sibling.** `splitChild` moves keys `t..2t-2` to the new sibling; for an
  internal child it also moves children `t..2t-1`. The median at position `t-1` goes up into the
  parent. The lower `t-1` keys and the first `t` children stay.
- **Empty tree.** There is no separate path for an empty tree: an empty root is just a non-full leaf.
- **Search and delete.** They exist only as a commented placeholder (`btree.ts:125-127`).

## Model

| member | source | states |
|---|---|---|
| BTreeSpec.InsertAt | src/utils/btree.ts:64 | `splice(i, 0, x)` makes the sequence exactly one element longer. |
| BTreeSpec.InsertAtElements | src/utils/btree.ts:64 | `splice(i, 0, x)` adds exactly `x` to the multiset of elements. `x` lands at `i`, or at the end when `i` is past it. Elements before `i` stay; the later ones shift up by one. |
| BTreeSpec.InsertAtSorted | src/utils/btree.ts:61-64 | Inserting between a neighbour at most `x` and one at least `x` keeps a sorted sequence sorted. |
| BTreeSpec.Take | src/utils/btree.ts:107 | What `splice(k)` leaves behind is a prefix of the original: of length `k` when `k` is in range, and the whole array when `k` is at or past its end. |
| BTreeSpec.Drop | src/utils/btree.ts:112 | What `splice(k)` removes, appended to what it leaves, is the original sequence. Nothing is removed when `k` is at or past the end. |
| BTreeSpec.SearchIndex | src/utils/btree.ts:54 | The position the backward scan stops after: within bounds, every key from it on is greater than `key`, and the key before it is at most `key`. |
| BTreeSpec.SearchIndexUnique | src/utils/btree.ts:61-63 | Those two conditions determine the position uniquely. |
| BTreeSpec.SearchIndexCounts | src/utils/btree.ts:68-71 | In a sorted node, the descent index `i` after `i++` equals the number of keys that are at most `key`. |
| BTreeSpec.SearchIndexFits | src/utils/btree.ts:68-71 | The descent index lies between separators that bound the key. |
| BTreeSpec.LeafInsertion | src/utils/btree.ts:59-65 | The leaf gains exactly one copy of `key`, just after the last key at most it and before every greater key, and stays sorted. Equal keys are kept. |
| BTreeSpec.InsertBetween | src/utils/btree.ts:61-64 | The same, for any position between the keys at most `key` and the keys greater than it. |
| BTreeSpec.LowerHalf | src/utils/btree.ts:107-115 | The child keeps keys `0..t-2`, its id and its leaf flag. An internal child keeps its first `t` children, and a leaf keeps its (empty) children. |
| BTreeSpec.UpperHalf | src/utils/btree.ts:106-113 | The new sibling gets keys `t..2t-2`, the new id and the child's leaf flag, so a leaf gives a leaf. An internal child's children from position `t` on move to it; a leaf sibling has none. |
| BTreeSpec.SplitChild | src/utils/btree.ts:105-117 | The parent's keys gain the median `keys[t-1]` at `index`. Its children become those before `index`, then the lower half, then the sibling at `index + 1`, then the rest. Id and leaf flag are unchanged. |
| BTreeSpec.HalvesContents | src/utils/btree.ts:106-115 | Lower half, median and upper half together hold exactly the child's keys and nodes, plus the sibling's id. The children of the two halves, in order, are exactly the child's children. |
| BTreeSpec.HalvesWithin | src/utils/btree.ts:106-115 | Both halves and the median come from the child's keys. |
| BTreeSpec.SplitHalvesSizes | src/utils/btree.ts:106-115 | Both halves of a full child hold `t-1` keys. |
| BTreeSpec.LowerHalfWellFormed | src/utils/btree.ts:107-115 | The lower half is a valid non-root subtree of the same depth, with every key at most the median. |
| BTreeSpec.UpperHalfWellFormed | src/utils/btree.ts:106-113 | The sibling is a valid non-root subtree of the same depth, with every key at least the median. |
| BTreeSpec.SplitChildContents | src/utils/btree.ts:105-117 | Splitting keeps every key and adds exactly the sibling's id. Both halves are smaller than the parent. |
| BTreeSpec.SplitChildShapely | src/utils/btree.ts:105-117 | After a split, every node still has one child more than keys, and leaves have none. |
| BTreeSpec.SplitChildWellFormed | src/utils/btree.ts:105-117 | Splitting a full child of a non-full node keeps the node valid, with its leaves at the same depth. |
| BTreeSpec.GrownRoot | src/utils/btree.ts:92-95 | The new root is internal and keyless, has the old root as its only child, and takes the next id. |
| BTreeSpec.GrownRootContents | src/utils/btree.ts:92-95 | Before the split, the grown root holds the old keys and one more id. |
| BTreeSpec.GrownRootWellFormed | src/utils/btree.ts:92-95 | Before the split, the grown root is a valid node one level taller. |
| BTreeSpec.SplitRoot | src/utils/btree.ts:91-103 | After the root split, the root holds exactly the old median, has two children, is internal, and has the id taken first. |
| BTreeSpec.RootSplit | src/utils/btree.ts:91-103 | The split root is valid one level deeper. Its children hold the old root's keys `0..t-2` and `t..2t-2`. |
| BTreeSpec.RootSplitChildren | src/utils/btree.ts:102 | The two children of the split root hold the old root's keys `0..t-2` and `t..2t-2`. |
| BTreeSpec.SplitRootContents | src/utils/btree.ts:91-103 | The root split keeps every key and adds exactly the ids `next` and `next + 1`. |
| BTreeSpec.RootSplitValid | src/utils/btree.ts:29-31 | A full valid root splits into a valid tree exactly one level taller, whose root is not full. |
| BTreeSpec.RootSplitNotFull | src/utils/btree.ts:29-31 | After a root split the root holds one key, so for `t >= 2` it is not full when the descent starts. |
| BTreeSpec.SplitRootHeight | src/utils/btree.ts:91-103 | The height grows by exactly one. |
| BTreeSpec.IdRange | src/utils/btree.ts:18 | The ids handed out by a run of `nodeIdCounter++`; there are `hi - lo` of them. |
| BTreeSpec.InIdRange | src/utils/btree.ts:18 | An id is in the range exactly when `lo <= id < hi`, and then it occurs once. |
| BTreeSpec.IdRangeConcat | src/utils/btree.ts:18 | Two adjacent runs of the counter make one run. |
| BTreeSpec.FreshIds | src/utils/btree.ts:18 | Ids taken from the counter keep every id below the counter and no id repeated. |
| BTreeSpec.SplitAndChoose | src/utils/btree.ts:80-85 | Descent through a full child keeps every key and node shape, and adds only ids from the counter. The chosen index names a child smaller than the node. |
| BTreeSpec.SplitForDescent | src/utils/btree.ts:80-81 | The split parent is shaped and internal with the same id and keys. It gains exactly the sibling's id, has a key at position `i`, and both halves at `i` and `i + 1` are smaller than the parent. |
| BTreeSpec.SplitAndChooseWellFormed | src/utils/btree.ts:80-85 | After splitting the full child at the descent position, the node is valid. The child chosen by `key > median` is not full and the key fits there. |
| BTreeSpec.ChooseFits | src/utils/btree.ts:82-84 | Going right exactly when `key > median` picks a position between bounding separators. |
| BTreeSpec.Descend | src/utils/btree.ts:67-85 | One descent step keeps every key and adds only fresh ids. It picks an existing child smaller than the node. |
| BTreeSpec.DescendWellFormed | src/utils/btree.ts:67-85 | The descent step leaves a valid node. The chosen child is not full, and the key fits within its separators. |
| BTreeSpec.InsertNonFull | src/utils/btree.ts:53-89 | Insertion below a node gains exactly one copy of `key` and exactly the ids `next..r.1-1`. It keeps every node shaped, and the node's id and leaf flag. |
| BTreeSpec.ReplaceChild | src/utils/btree.ts:87 | Recursing into a child changes the parent's keys and ids exactly by what the child gains. |
| BTreeSpec.ReplaceChildWellFormed | src/utils/btree.ts:87 | A child replaced by a valid subtree of the same depth, within its separators, leaves the parent valid. |
| BTreeSpec.InsertNonFullWellFormed | src/utils/btree.ts:53-89 | Insertion into a non-full valid subtree gives a valid subtree of the same depth. |
| BTreeSpec.DescendChild | src/utils/btree.ts:73-87 | The child the recursion enters is valid, not full, one level down, and smaller. |
| BTreeSpec.InsertBelowWellFormed | src/utils/btree.ts:87 | If the recursive insertion gives a valid child, the node stays valid. |
| BTreeSpec.PrepareRoot | src/utils/btree.ts:28-31 | Preparing the root keeps every key and adds only ids from the counter. |
| BTreeSpec.Insert | src/utils/btree.ts:22-38 | A whole insertion gains exactly one copy of `key` and exactly the ids from `next` up to the new counter. |
| BTreeSpec.InsertIntoRoot | src/utils/btree.ts:33 | Inserting below a non-full valid root keeps the tree valid at the same height. |
| BTreeSpec.InsertValid | src/utils/btree.ts:22-38 | Insertion keeps a valid tree valid. It grows by one level exactly when the root was full. |
| BTreeSpec.InsertCorrect | src/utils/btree.ts:22-38 | A valid tree whose ids are unique and below the counter stays so after an insertion, and gains exactly one copy of `key`. Every id it gains is at least the old counter, so ids are never reused. |
| NodePaths.EmptyPath | src/utils/btree.ts:33 | The root is the node at the empty path, and replacing it there replaces the tree. |
| NodePaths.PathExtend | src/utils/btree.ts:87 | Going to `node.children[i]` extends the path by `i`. |
| NodePaths.ReplaceAt | src/utils/btree.ts:64 | Changing a node below the top leaves the top node with the same keys, id, leaf flag and number of children. |
| NodePaths.ReplaceAtNodeAt | src/utils/btree.ts:81-87 | After an in-place change, the changed node is found where it was. |
| NodePaths.ReplaceAtSelf | src/utils/btree.ts:79-87 | A node left as it is leaves the tree as it is. |
| NodePaths.ReplaceAtChild | src/utils/btree.ts:87 | Changing a child of the node just changed is one change of that node. |
| NodePaths.ReplaceAtKeys | src/utils/btree.ts:64 | The tree gains exactly the keys the changed node gains. |
| NodePaths.ReplaceAtIds | src/utils/btree.ts:116 | The tree gains exactly the ids the changed node gains. |
| NodePaths.KeyFitsReplace | src/utils/btree.ts:81 | Changing the current node keeps the separators above it, so the key still fits. |
| NodePaths.KeyFitsExtend | src/utils/btree.ts:87 | Entering a child where the key fits keeps it fitting along the longer path. |
| NodePaths.NodeAtWellFormed | src/utils/btree.ts:87 | A node reached by descent is a valid subtree of the remaining depth, and only the top node is the root. |
| NodePaths.NodeAtValid | src/utils/btree.ts:87 | The same, from the root of a valid tree. |
| NodePaths.ReplaceWellFormed | src/utils/btree.ts:64 | Changing a node into a valid one of the same depth, with the same keys or one more that fits, keeps the subtree valid. |
| NodePaths.ReplaceKeepsValid | src/utils/btree.ts:64 | The same for a whole tree, whose height is also unchanged. |
| BTreeEngine.InsertSnapshots | src/utils/btree.ts:22-38 | If the start step, the root-split steps, the steps below the root and the finish step are all good snapshots, the whole trace is. A good snapshot is a valid tree holding the old keys or the old keys plus `key`. |
| BTreeEngine.InsertSteps | src/utils/btree.ts:26-36 | The trace has at least four steps. It starts with the start step and ends with the finish step; after a root split, the split step comes second. |
| BTreeEngine.GrownRootValid | src/utils/btree.ts:92-100 | The snapshot taken once the new root is above the full old root is a valid tree with the old keys. |
| BTreeEngine.RootSplitSteps | src/utils/btree.ts:97-102 | Both steps recorded by a root split hold valid trees with the old keys. |
| BTreeEngine.FreshId | src/utils/btree.ts:18 | Taking one id from the counter keeps the ids unique and below the advanced counter. |
| BTreeEngine.SplitAtValid | src/utils/btree.ts:105-123 | Splitting a full child of the non-full node on the path keeps the tree valid, with the same keys and height, using one fresh id. |
| BTreeEngine.InsertAtValid | src/utils/btree.ts:53-89 | Inserting at a non-full node on the descent path keeps the tree valid. It adds exactly the key and only fresh ids. |
| BTreeEngine.LeafAtValid | src/utils/btree.ts:59-65 | The leaf splice is the leaf case of `BTreeSpec.InsertNonFull`. It keeps the tree valid and adds the key, and the recorded snapshot is good. |
| BTreeEngine.RootSplitAtValid | src/utils/btree.ts:91-103 | The root split keeps the tree valid with the same keys and one more level. It uses two fresh ids and leaves a non-full root. |
| BTreeEngine.SearchIndexChild | src/utils/btree.ts:71-73 | `node.children[i]` exists after `i++`. |
| BTreeEngine.DescendFull | src/utils/btree.ts:80-85 | A full child at the descent position is split, and the engine goes right exactly when `key > median`. |
| BTreeEngine.DescendNotFull | src/utils/btree.ts:79-80 | A child that is not full is entered unchanged. |
| BTreeEngine.InsertNonFullUnfold | src/utils/btree.ts:73-87 | Insertion below an internal node is the descent step followed by insertion into the chosen child. |
| BTreeEngine.DescendAt | src/utils/btree.ts:67-87 | The chosen child is found in the tree after the optional split. It is not full, and the key fits along the longer path. |
| BTreeEngine.BTree.constructor | src/utils/btree.ts:8-11 | The tree starts as an empty leaf with id 0 and the counter at 1. With `order >= 2` it is valid. |
| BTreeEngine.BTree.CreateNode | src/utils/btree.ts:13-20 | The new node takes the current counter value as its id, has no children, and the counter goes up by one. |
| BTreeEngine.BTree.CreateStep | src/utils/btree.ts:40-51 | A step is a snapshot of the current tree, with the given action, message and highlight. |
| BTreeEngine.BTree.ScanBack | src/utils/btree.ts:54-63 | The backward scan stops at `-1 <= i < len`, one before the search position. |
| BTreeEngine.BTree.SplitNode | src/utils/btree.ts:105-117 | The spliced parent equals `BTreeSpec.SplitChild`. It returns the child's median `keys[t-1]` and the sibling's new id. |
| BTreeEngine.BTree.SplitChild | src/utils/btree.ts:105-123 | The node at the path is replaced by its split. The counter goes up by one, and the recorded step highlights parent, child and sibling. |
| BTreeEngine.BTree.SplitRoot | src/utils/btree.ts:91-103 | The root becomes `BTreeSpec.SplitRoot` and the counter goes up by two. The two recorded steps show the grown root, then the split. |
| BTreeEngine.BTree.ChooseChild | src/utils/btree.ts:67-85 | The tree and counter change as `BTreeSpec.Descend` says. The tree stays valid with the same keys. The chosen child is not full and smaller, and every recorded snapshot is good. |
| BTreeEngine.BTree.SplitAndRechoose | src/utils/btree.ts:80-85 | The split and the rechoice carry out `BTreeSpec.Descend` through a full child. The tree stays valid with the same keys. |
| BTreeEngine.BTree.SplitThenCompare | src/utils/btree.ts:81-84 | The node is split, the counter goes up by one, and `j` is `i + 1` exactly when `key` is greater than the median now at `keys[i]`. |
| BTreeEngine.BTree.InsertIntoLeaf | src/utils/btree.ts:59-65 | The leaf changes as `BTreeSpec.InsertNonFull` says. The tree stays valid and gains exactly `key`, and the recorded step is good. |
| BTreeEngine.BTree.InsertNonFull | src/utils/btree.ts:53-89 | The tree and counter end as `BTreeSpec.InsertNonFull` says. The tree stays valid and gains exactly `key`. The first step is "Processing node", and every snapshot is good. |
| BTreeEngine.BTree.SplitFullRoot | src/utils/btree.ts:28-31 | A full root is split, recording two steps, both given field by field. The first shows the grown root; the second shows the split tree with the message for position 0 and the old median, highlighting the new root, the old root and the sibling. Any other root is left as it is and records nothing. Every recorded step holds a valid tree with the old keys. The result is a valid tree whose root is not full. |
| BTreeEngine.BTree.Insert | src/utils/btree.ts:22-38 | The tree and counter end as `BTreeSpec.Insert` says, and the tree stays valid with exactly `key` added. Steps start with "Starting insertion" and end with "Finished inserting". After a root split, the grown-root step comes second. Every snapshot is a valid tree holding the old keys, or the old keys plus `key`. |

## Left out

- The user interface (`src/components`, `src/App.tsx`) and the layout fields `x` and `y` of a node play no part in insertion.
- Message texts are kept as the values they are formatted from (the `Message` datatype), not as strings.
- Node ids are the counter values themselves; the prefix of the string `node-<n>` is dropped.
- A leaf's `children`, undefined in the engine, is the empty sequence.
- `JSON.parse(JSON.stringify(root))` is not modelled as such. A snapshot is a value, so later changes cannot reach it, which is what the deep copy achieves.
- The steps array that the engine pushes onto is modelled as the sequence of steps each method returns and its caller concatenates.
- Changes made in place to a node reached by descent are modelled as replacing that node along its path from the root. This is sound because no node is shared. The `child` argument of `splitChild` is read as `parent.children[index]`, which every caller passes.
- `order` is a natural number; fractional or negative values are not modelled. The engine never checks that `order >= 2`. `BTreeEngine.BTree.Valid` demands it, and the constructor promises validity only then.
- Keys are mathematical integers. The engine takes any JavaScript `number`: the input field's `parseInt` can yield NaN, and callers could pass fractions. Every comparison with NaN is false, so NaN would land at the end of a leaf and break sortedness. NaN, fractional keys and floating-point rounding are not modelled.
- Search and deletion are not modelled: `btree.ts` mentions them only in comments and defines neither.
- BTreeEngine.BTree.ChooseChild: its "Moving to child" step and the split step are stated only to hold a valid tree with the old keys. Their action, message and highlight are not stated.
- BTreeEngine.BTree.SplitAndRechoose: the split step it returns is stated only to hold a valid tree with the old keys, not field by field.
- BTreeEngine.BTree.SplitThenCompare: the same; the step's fields are stated only by `BTreeEngine.BTree.SplitChild`, which it calls.
- BTreeEngine.BTree.InsertNonFull: only the first of its steps is stated field by field; the others are stated as good snapshots.
