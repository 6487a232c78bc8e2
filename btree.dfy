// The engine itself: a B-tree object whose root and id counter change as keys
// are inserted, recording a snapshot of the whole tree at every step.

module BTreeEngine {
  import opened Interfaces
  import opened Invariants
  import opened BTreeSpec
  import opened NodePaths

  /** A snapshot tree is a valid tree holding either the keys the tree held
      before the insertion or those plus the inserted key. */
  ghost predicate GoodSnapshot(s: Step, t: nat, before: multiset<int>, key: int)
  {
    ValidTree(s.tree, t) && (Keys(s.tree) == before || Keys(s.tree) == before + multiset{key})
  }

  /** Every snapshot in `ss` is good. */
  ghost predicate Snapshots(ss: seq<Step>, t: nat, before: multiset<int>, key: int)
  {
    forall k | 0 <= k < |ss| :: GoodSnapshot(ss[k], t, before, key)
  }

  /** A valid tree with the old keys, or with the key added, is a good snapshot. */
  lemma OneSnapshot(s: Step, t: nat, before: multiset<int>, key: int, added: bool)
    requires ValidTree(s.tree, t) && Keys(s.tree) == before + (if added then multiset{key} else multiset{})
    ensures Snapshots([s], t, before, key)
  {
    if !added {
      assert Keys(s.tree) == before;
    }
  }

  lemma JoinSnapshots(a: seq<Step>, b: seq<Step>, t: nat, before: multiset<int>, key: int)
    requires Snapshots(a, t, before, key) && Snapshots(b, t, before, key)
    ensures Snapshots(a + b, t, before, key)
  {
    forall k | 0 <= k < |a + b| ensures GoodSnapshot((a + b)[k], t, before, key) {
      if k >= |a| {
        assert (a + b)[k] == b[k - |a|];
      }
    }
  }

  /** The snapshots of a whole insertion: the start, possibly the two steps
      of the root split, those of the insertion below the root, the end. */
  lemma InsertSnapshots(start: Step, split: seq<Step>, inserted: seq<Step>, finish: Step,
                        t: nat, before: multiset<int>, key: int)
    requires Snapshots([start], t, before, key) && Snapshots(split, t, before, key)
    requires Snapshots(inserted, t, before, key) && Snapshots([finish], t, before, key)
    ensures Snapshots([start] + split + inserted + [finish], t, before, key)
  {
    JoinSnapshots([start], split, t, before, key);
    JoinSnapshots([start] + split, inserted, t, before, key);
    JoinSnapshots([start] + split + inserted, [finish], t, before, key);
  }

  /** The shape of the recorded steps of a whole insertion. */
  lemma InsertSteps(start: Step, split: seq<Step>, inserted: seq<Step>, finish: Step)
    requires |split| == 0 || |split| == 2
    requires |inserted| >= 2
    ensures var steps := [start] + split + inserted + [finish];
      |steps| >= 4 && steps[0] == start && steps[|steps| - 1] == finish &&
      (split != [] ==> steps[1] == split[0])
  {
  }

  /** Taking one fresh id keeps ids unique and below the advanced counter. */
  lemma FreshId(r: Node, q: Node, next: nat)
    requires Ids(q) == Ids(r) + multiset{next} && IdsBelow(r, next) && IdsDistinct(r)
    ensures IdsBelow(q, next + 1) && IdsDistinct(q)
  {
    assert IdRange(next, next + 1) == multiset{next};
    FreshIds(Ids(r), Ids(q), next, next + 1);
  }

  /** Splitting the full child `index` of the non-full node at `p` keeps the
      tree valid with the same keys and height, using the one id `next`. */
  lemma SplitAtValid(r: Node, p: seq<nat>, index: nat, t: nat, next: nat)
    requires ValidTree(r, t) && IdsBelow(r, next) && IdsDistinct(r) && PathOk(r, p)
    requires index < |NodeAt(r, p).children| && |NodeAt(r, p).keys| < 2 * t - 1
    requires |NodeAt(r, p).children[index].keys| == 2 * t - 1
    ensures var q := ReplaceAt(r, p, SplitChild(NodeAt(r, p), index, t, next));
      ValidTree(q, t) && Height(q) == Height(r) && Keys(q) == Keys(r) &&
      IdsBelow(q, next + 1) && IdsDistinct(q)
  {
    var n := NodeAt(r, p);
    var x := SplitChild(n, index, t, next);
    NodeAtValid(r, p, t);
    SplitChildWellFormed(n, index, t, next, Height(r) - |p|, p == []);
    SplitChildContents(n, index, t, next);
    ReplaceKeepsValid(r, p, x, t, 0, false);
    ReplaceAtKeys(r, p, x, multiset{});
    ReplaceAtIds(r, p, x, multiset{next});
    FreshId(r, ReplaceAt(r, p, x), next);
  }

  /** Inserting into the non-full node at `p`, where the key fits, keeps the
      tree valid, adds the key and only fresh ids. */
  lemma InsertAtValid(r: Node, p: seq<nat>, key: int, t: nat, next: nat)
    requires ValidTree(r, t) && IdsBelow(r, next) && IdsDistinct(r) && PathOk(r, p)
    requires |NodeAt(r, p).keys| < 2 * t - 1 && KeyFitsPath(r, p, key)
    ensures AllShaped(NodeAt(r, p))
    ensures var ins := InsertNonFull(NodeAt(r, p), key, t, next); var q := ReplaceAt(r, p, ins.0);
      ValidTree(q, t) && Keys(q) == Keys(r) + multiset{key} &&
      IdsBelow(q, ins.1) && IdsDistinct(q)
  {
    var n := NodeAt(r, p);
    NodeAtValid(r, p, t);
    InsertNonFullWellFormed(n, key, t, next, Height(r) - |p|, p == []);
    var ins := InsertNonFull(n, key, t, next);
    ReplaceKeepsValid(r, p, ins.0, t, key, true);
    ReplaceAtKeys(r, p, ins.0, multiset{key});
    ReplaceAtIds(r, p, ins.0, IdRange(next, ins.1));
    FreshIds(Ids(r), Ids(ReplaceAt(r, p, ins.0)), next, ins.1);
  }

  /** The same for a leaf at `p`, where the insertion is the splice of the
      key into the leaf's keys at the search position and takes no id. */
  lemma LeafAtValid(r: Node, p: seq<nat>, key: int, t: nat, next: nat, x: Node, s: Step)
    requires ValidTree(r, t) && IdsBelow(r, next) && IdsDistinct(r) && PathOk(r, p)
    requires NodeAt(r, p).isLeaf && |NodeAt(r, p).keys| < 2 * t - 1 && KeyFitsPath(r, p, key)
    requires x == NodeAt(r, p).(keys := InsertAt(NodeAt(r, p).keys, SearchIndex(NodeAt(r, p).keys, key), key))
    requires s.tree == ReplaceAt(r, p, x)
    ensures AllShaped(NodeAt(r, p)) && InsertNonFull(NodeAt(r, p), key, t, next) == (x, next)
    ensures var q := ReplaceAt(r, p, x);
      ValidTree(q, t) && Keys(q) == Keys(r) + multiset{key} && IdsBelow(q, next) && IdsDistinct(q)
    ensures Snapshots([s], t, Keys(r), key)
  {
    InsertAtValid(r, p, key, t, next);
    OneSnapshot(s, t, Keys(r), key, true);
  }

  /** Splitting the full root keeps the tree valid with the same keys and
      one more level, using the ids `next` and `next + 1`. */
  lemma RootSplitAtValid(r: Node, t: nat, next: nat)
    requires t >= 2 && ValidTree(r, t) && IdsBelow(r, next) && IdsDistinct(r) && |r.keys| == 2 * t - 1
    ensures var s := SplitRoot(r, t, next);
      ValidTree(s, t) && Height(s) == Height(r) + 1 && Keys(s) == Keys(r) &&
      IdsBelow(s, next + 2) && IdsDistinct(s) && |s.keys| < 2 * t - 1
  {
    RootSplitValid(r, t, next);
    WellFormedShapely(r, t, Height(r), true);
    SplitRootContents(r, t, next);
    FreshIds(Ids(r), Ids(SplitRoot(r, t, next)), next, next + 2);
  }

  /** The snapshot taken once the new root is put above the full old root:
      the grown root is a valid tree, one level taller, with the old keys. */
  lemma GrownRootValid(r: Node, t: nat, next: nat)
    requires ValidTree(r, t) && |r.keys| == 2 * t - 1
    ensures ValidTree(GrownRoot(r, next), t) && Keys(GrownRoot(r, next)) == Keys(r)
  {
    GrownRootWellFormed(r, t, next, Height(r));
    GrownRootContents(r, next);
  }

  /** Both steps recorded by the root split hold valid trees with the old keys. */
  lemma RootSplitSteps(r: Node, t: nat, next: nat, split: seq<Step>)
    requires ValidTree(r, t) && |r.keys| == 2 * t - 1
    requires ValidTree(SplitRoot(r, t, next), t) && Keys(SplitRoot(r, t, next)) == Keys(r)
    requires |split| == 2 && split[0].tree == GrownRoot(r, next) && split[1].tree == SplitRoot(r, t, next)
    ensures forall k | 0 <= k < |split| :: ValidTree(split[k].tree, t) && Keys(split[k].tree) == Keys(r)
  {
    GrownRootValid(r, t, next);
    forall k | 0 <= k < |split| ensures ValidTree(split[k].tree, t) && Keys(split[k].tree) == Keys(r) {
      if k == 0 {
        assert split[k].tree == GrownRoot(r, next);
      } else {
        assert split[k].tree == SplitRoot(r, t, next);
      }
    }
  }

  /** The search position in an internal node names one of its children. */
  lemma SearchIndexChild(n: Node, key: int)
    requires AllShaped(n) && !n.isLeaf
    ensures SearchIndex(n.keys, key) < |n.children|
  {
  }

  /** The descent step through a full child `i`, found at the search position:
      the child is split and the key goes right of the median when greater. */
  lemma DescendFull(n: Node, key: int, t: nat, next: nat, i: nat, split: Node, j: nat)
    requires AllShaped(n) && !n.isLeaf && i == SearchIndex(n.keys, key) && i < |n.children|
    requires |n.children[i].keys| == 2 * t - 1 && split == SplitChild(n, i, t, next)
    requires i < |split.keys| ==> j == if key > split.keys[i] then i + 1 else i
    ensures i < |split.keys|
    ensures Descend(n, key, t, next) == (split, j, next + 1)
  {
    assert Descend(n, key, t, next) == SplitAndChoose(n, i, key, t, next);
  }

  /** The descent step through a child `i` that is not full: nothing changes. */
  lemma DescendNotFull(n: Node, key: int, t: nat, next: nat, i: nat)
    requires AllShaped(n) && !n.isLeaf && i == SearchIndex(n.keys, key) && i < |n.children|
    requires |n.children[i].keys| != 2 * t - 1
    ensures Descend(n, key, t, next) == (n, i, next)
  {
  }

  /** The insertion below an internal node, one level unfolded. */
  lemma InsertNonFullUnfold(n: Node, key: int, t: nat, next: nat)
    requires AllShaped(n) && !n.isLeaf
    ensures var d := Descend(n, key, t, next);
      var sub := InsertNonFull(d.0.children[d.1], key, t, d.2);
      InsertNonFull(n, key, t, next) == (d.0.(children := d.0.children[d.1 := sub.0]), sub.1)
  {
  }

  /** One step of the descent from the internal non-full node at `p`: the
      chosen child exists in the tree after the optional split, is not full,
      and the key fits along the longer path. */
  lemma DescendAt(r: Node, p: seq<nat>, key: int, t: nat, next: nat)
    requires ValidTree(r, t) && PathOk(r, p) && !NodeAt(r, p).isLeaf
    requires |NodeAt(r, p).keys| < 2 * t - 1 && KeyFitsPath(r, p, key)
    ensures AllShaped(NodeAt(r, p))
    ensures var d := Descend(NodeAt(r, p), key, t, next); var q := ReplaceAt(r, p, d.0);
      PathOk(q, p + [d.1]) && NodeAt(q, p + [d.1]) == d.0.children[d.1] &&
      |d.0.children[d.1].keys| < 2 * t - 1 && KeyFitsPath(q, p + [d.1], key)
  {
    var n := NodeAt(r, p);
    NodeAtValid(r, p, t);
    DescendWellFormed(n, key, t, next, Height(r) - |p|, p == []);
    var d := Descend(n, key, t, next);
    ReplaceAtNodeAt(r, p, d.0);
    KeyFitsReplace(r, p, d.0, key);
    PathExtend(ReplaceAt(r, p, d.0), p, d.1);
    KeyFitsExtend(ReplaceAt(r, p, d.0), p, d.1, key);
  }

  class BTree {
    var root: Node
    const order: nat
    var nodeIdCounter: nat

    /** The tree is a valid B-tree of minimum degree `order`, every node id in
        it has been handed out already, and no id occurs twice. */
    ghost predicate Valid()
      reads this
    {
      order >= 2 && ValidTree(root, order) && IdsBelow(root, nodeIdCounter) && IdsDistinct(root)
    }

    /** An empty tree: its root is an empty leaf with id 0. */
    constructor(order: nat)
      ensures this.order == order && root == Node([], [], true, 0) && nodeIdCounter == 1
      ensures order >= 2 ==> Valid()
    {
      this.order := order;
      nodeIdCounter := 0;
      new;
      root := CreateNode([], true);
      assert Ids(root) == multiset{0};
    }

    /** A fresh node holding `keys`, with the next id; a leaf has no children
        and an internal node starts with none. */
    method CreateNode(keys: seq<int>, isLeaf: bool) returns (n: Node)
      modifies this
      ensures n == Node(keys, [], isLeaf, old(nodeIdCounter))
      ensures nodeIdCounter == old(nodeIdCounter) + 1 && root == old(root)
    {
      n := Node(keys, [], isLeaf, nodeIdCounter);
      nodeIdCounter := nodeIdCounter + 1;
    }

    /** A step records the tree as it is now; being a value, the snapshot is
        unaffected by later changes. */
    method CreateStep(action: Action, message: Message, highlight: Option<seq<nat>>) returns (s: Step)
      ensures s == Step(root, action, message, highlight)
    {
      s := Step(root, action, message, highlight);
    }

    /** The position after the last key that is at most `key`, found by
        scanning from the right as the engine does; `i` ends one before it. */
    method ScanBack(keys: seq<int>, key: int) returns (i: int)
      ensures -1 <= i < |keys| && i + 1 == SearchIndex(keys, key)
    {
      i := |keys| - 1;
      while i >= 0 && key < keys[i]
        invariant -1 <= i < |keys|
        invariant forall m | i < m < |keys| :: key < keys[m]
        decreases i
      {
        i := i - 1;
      }
      SearchIndexUnique(keys, key, i + 1);
    }

    /** The work done on the parent and its full child: the child keeps its
        lower half, a new sibling takes the upper half, and the median moves up
        into the parent. Returns the new parent, the median and the sibling's id. */
    method SplitNode(parent: Node, index: nat) returns (updated: Node, medianKey: int, newId: nat)
      requires index < |parent.children| && |parent.children[index].keys| == 2 * order - 1
      modifies this
      ensures updated == BTreeSpec.SplitChild(parent, index, order, old(nodeIdCounter))
      ensures medianKey == parent.children[index].keys[order - 1] && newId == old(nodeIdCounter)
      ensures nodeIdCounter == old(nodeIdCounter) + 1 && root == old(root)
    {
      var child := parent.children[index];
      var newChild := CreateNode(child.keys[order..], child.isLeaf);
      var lowerKeys := child.keys[..order];
      var lowerChildren := child.children;
      if !child.isLeaf {
        newChild := newChild.(children := Drop(child.children, order));
        lowerChildren := Take(child.children, order);
      }
      medianKey := lowerKeys[|lowerKeys| - 1];
      lowerKeys := lowerKeys[..|lowerKeys| - 1];
      var lowered := child.(keys := lowerKeys, children := lowerChildren);
      updated := parent.(children := InsertAt(parent.children[index := lowered], index + 1, newChild),
                         keys := InsertAt(parent.keys, index, medianKey));
      newId := newChild.id;
      assert lowered == LowerHalf(child, order) && newChild == UpperHalf(child, order, newId);
    }

    /** Split the full child `index` of the node at `path`: the child keeps
        its lower half, a new sibling takes the upper half, and the median
        moves up into the node. Returns the step it records. */
    method SplitChild(path: seq<nat>, index: nat) returns (s: Step)
      requires PathOk(root, path) && index < |NodeAt(root, path).children|
      requires |NodeAt(root, path).children[index].keys| == 2 * order - 1
      modifies this
      ensures root == ReplaceAt(old(root), path, BTreeSpec.SplitChild(old(NodeAt(root, path)), index, order, old(nodeIdCounter)))
      ensures nodeIdCounter == old(nodeIdCounter) + 1
      ensures s == Step(root, SplitAction,
        SplitChildAt(index, old(NodeAt(root, path)).children[index].keys[order - 1]),
        Some([old(NodeAt(root, path)).id, old(NodeAt(root, path)).children[index].id, old(nodeIdCounter)]))
    {
      var parent := NodeAt(root, path);
      var updated, medianKey, newId := SplitNode(parent, index);
      root := ReplaceAt(root, path, updated);
      s := CreateStep(SplitAction, SplitChildAt(index, medianKey), Some([parent.id, parent.children[index].id, newId]));
    }

    /** Split the full root: a new internal root (the next id) gets the old
        root as its only child, which is then split. Returns the two steps it
        records; the first shows the new root before the split. */
    method SplitRoot() returns (recorded: seq<Step>)
      requires |root.keys| == 2 * order - 1
      modifies this
      ensures root == BTreeSpec.SplitRoot(old(root), order, old(nodeIdCounter))
      ensures nodeIdCounter == old(nodeIdCounter) + 2
      ensures recorded == [Step(GrownRoot(old(root), old(nodeIdCounter)), SplitAction, SplittingRoot, Some([old(root).id])),
                           Step(root, SplitAction, SplitChildAt(0, old(root).keys[order - 1]),
                                Some([old(nodeIdCounter), old(root).id, old(nodeIdCounter) + 1]))]
    {
      var oldRoot := root;
      var newRoot := CreateNode([], false);
      newRoot := newRoot.(children := [oldRoot]);
      root := newRoot;
      var first := CreateStep(SplitAction, SplittingRoot, Some([oldRoot.id]));
      var second := SplitChild([], 0);
      recorded := [first, second];
    }

    /** From the internal non-full node at `path`, where the key fits, pick
        the child to descend into: scan for the position, record the move, and
        if that child is full split it and go right of the median when the key
        is greater than it. The tree changes as the descent step
        `BTreeSpec.Descend` says and stays valid with the same keys; the chosen child is not
        full, the key fits along the longer path, and the subtree below it is
        smaller. Returns the chosen index and the steps it records. */
    method ChooseChild(path: seq<nat>, key: int) returns (i: nat, recorded: seq<Step>)
      requires Valid() && PathOk(root, path) && !NodeAt(root, path).isLeaf
      requires |NodeAt(root, path).keys| < 2 * order - 1 && KeyFitsPath(root, path, key)
      modifies this
      ensures AllShaped(old(NodeAt(root, path)))
      ensures var d := Descend(old(NodeAt(root, path)), key, order, old(nodeIdCounter));
        root == ReplaceAt(old(root), path, d.0) && i == d.1 && nodeIdCounter == d.2 &&
        PathOk(root, path + [i]) && NodeAt(root, path + [i]) == d.0.children[d.1] &&
        |d.0.children[d.1].keys| < 2 * order - 1 && KeyFitsPath(root, path + [i], key) &&
        Size(d.0.children[d.1]) < Size(old(NodeAt(root, path)))
      ensures Valid() && Keys(root) == old(Keys(root))
      ensures |recorded| >= 1
      ensures Snapshots(recorded, order, old(Keys(root)), key)
    {
      ghost var r0, c0 := root, nodeIdCounter;
      var node := NodeAt(root, path);
      DescendAt(r0, path, key, order, c0);
      ghost var d := Descend(node, key, order, c0);
      var j := ScanBack(node.keys, key);
      i := j + 1;
      SearchIndexChild(node, key);
      var child := node.children[i];
      var moving := CreateStep(TraverseAction, MovingToChild(i, child.keys), Some([node.id, child.id]));
      recorded := [moving];
      OneSnapshot(moving, order, Keys(r0), key, false);
      if |child.keys| == 2 * order - 1 {
        var split;
        i, split := SplitAndRechoose(path, i, key);
        OneSnapshot(split, order, Keys(r0), key, false);
        JoinSnapshots(recorded, [split], order, Keys(r0), key);
        recorded := recorded + [split];
      } else {
        DescendNotFull(node, key, order, c0, i);
        assert root == ReplaceAt(r0, path, node) by {
          ReplaceAtSelf(r0, path);
        }
      }
    }

    /** Split the full child `i` of the non-full node at `path`, then go right
        of the median that moved up when the key is greater than it. Returns
        the index to descend into and the step the split records. */
    method SplitAndRechoose(path: seq<nat>, i: nat, key: int) returns (j: nat, split: Step)
      requires Valid() && PathOk(root, path) && i < |NodeAt(root, path).children|
      requires |NodeAt(root, path).keys| < 2 * order - 1
      requires |NodeAt(root, path).children[i].keys| == 2 * order - 1
      requires !NodeAt(root, path).isLeaf && i == SearchIndex(NodeAt(root, path).keys, key)
      modifies this
      ensures AllShaped(old(NodeAt(root, path)))
      ensures var d := Descend(old(NodeAt(root, path)), key, order, old(nodeIdCounter));
        root == ReplaceAt(old(root), path, d.0) && j == d.1 && nodeIdCounter == d.2
      ensures Valid() && Keys(root) == old(Keys(root))
      ensures ValidTree(split.tree, order) && Keys(split.tree) == old(Keys(root))
    {
      ghost var r0, c0 := root, nodeIdCounter;
      ghost var s := BTreeSpec.SplitChild(NodeAt(root, path), i, order, c0);
      assert AllShaped(NodeAt(r0, path)) by {
        NodeAtValid(r0, path, order);
      }
      j, split := SplitThenCompare(path, i, key);
      DescendFull(NodeAt(r0, path), key, order, c0, i, s, j);
    }

    /** The split of the full child `i` followed by the comparison with the
        median now at `keys[i]`. */
    method SplitThenCompare(path: seq<nat>, i: nat, key: int) returns (j: nat, split: Step)
      requires Valid() && PathOk(root, path) && i < |NodeAt(root, path).children|
      requires |NodeAt(root, path).keys| < 2 * order - 1
      requires |NodeAt(root, path).children[i].keys| == 2 * order - 1
      modifies this
      ensures var s := BTreeSpec.SplitChild(old(NodeAt(root, path)), i, order, old(nodeIdCounter));
        root == ReplaceAt(old(root), path, s) && nodeIdCounter == old(nodeIdCounter) + 1 &&
        i < |s.keys| && j == if key > s.keys[i] then i + 1 else i
      ensures Valid() && Keys(root) == old(Keys(root))
      ensures ValidTree(split.tree, order) && Keys(split.tree) == old(Keys(root))
    {
      ghost var r0, c0 := root, nodeIdCounter;
      ghost var s := BTreeSpec.SplitChild(NodeAt(root, path), i, order, c0);
      assert i < |s.keys| by {
        NodeAtValid(r0, path, order);
      }
      SplitAtValid(r0, path, i, order, c0);
      split := SplitChild(path, i);
      assert NodeAt(root, path) == s by {
        ReplaceAtNodeAt(r0, path, s);
      }
      j := i;
      if key > NodeAt(root, path).keys[i] {
        j := i + 1;
      }
    }

    /** Insert `key` into the non-full leaf at `path`, where the key fits,
        just after the last key that is at most it. Returns the step it records. */
    method InsertIntoLeaf(path: seq<nat>, key: int) returns (s: Step)
      requires Valid() && PathOk(root, path) && NodeAt(root, path).isLeaf
      requires |NodeAt(root, path).keys| < 2 * order - 1 && KeyFitsPath(root, path, key)
      modifies this
      ensures AllShaped(old(NodeAt(root, path)))
      ensures var ins := BTreeSpec.InsertNonFull(old(NodeAt(root, path)), key, order, old(nodeIdCounter));
        root == ReplaceAt(old(root), path, ins.0) && nodeIdCounter == ins.1
      ensures Valid() && Keys(root) == old(Keys(root)) + multiset{key}
      ensures s == Step(root, InsertAction, InsertedIntoLeaf(key), Some([old(NodeAt(root, path)).id]))
      ensures Snapshots([s], order, old(Keys(root)), key)
    {
      ghost var r0 := root;
      var node := NodeAt(root, path);
      var i := ScanBack(node.keys, key);
      root := ReplaceAt(root, path, node.(keys := InsertAt(node.keys, i + 1, key)));
      s := CreateStep(InsertAction, InsertedIntoLeaf(key), Some([node.id]));
      LeafAtValid(r0, path, key, order, nodeIdCounter, node.(keys := InsertAt(node.keys, i + 1, key)), s);
    }

    /** Insert `key` below the non-full node at `path`, where the key fits,
        splitting a full child before descending into it. The tree and the id
        counter change as `BTreeSpec.InsertNonFull` says, the tree stays
        valid and gains the key, and every recorded snapshot is a valid tree.
        Returns the steps it records. */
    method InsertNonFull(path: seq<nat>, key: int) returns (recorded: seq<Step>)
      requires Valid() && PathOk(root, path)
      requires |NodeAt(root, path).keys| < 2 * order - 1 && KeyFitsPath(root, path, key)
      modifies this
      decreases Size(NodeAt(root, path))
      ensures AllShaped(old(NodeAt(root, path)))
      ensures var ins := BTreeSpec.InsertNonFull(old(NodeAt(root, path)), key, order, old(nodeIdCounter));
        root == ReplaceAt(old(root), path, ins.0) && nodeIdCounter == ins.1
      ensures Valid() && Keys(root) == old(Keys(root)) + multiset{key}
      ensures |recorded| >= 2
      ensures recorded[0] == Step(old(root), TraverseAction, ProcessingNode(old(NodeAt(root, path)).keys),
                                  Some([old(NodeAt(root, path)).id]))
      ensures Snapshots(recorded, order, old(Keys(root)), key)
    {
      ghost var r0, c0 := root, nodeIdCounter;
      var node := NodeAt(root, path);
      var first := CreateStep(TraverseAction, ProcessingNode(node.keys), Some([node.id]));
      OneSnapshot(first, order, Keys(r0), key, false);
      if node.isLeaf {
        var last := InsertIntoLeaf(path, key);
        JoinSnapshots([first], [last], order, Keys(r0), key);
        recorded := [first, last];
      } else {
        var i, descent := ChooseChild(path, key);
        ghost var d := Descend(node, key, order, c0);
        var rest := InsertNonFull(path + [i], key);
        ghost var sub := BTreeSpec.InsertNonFull(d.0.children[d.1], key, order, d.2);
        assert root == ReplaceAt(r0, path, d.0.(children := d.0.children[d.1 := sub.0])) by {
          ReplaceAtChild(r0, path, d.0, d.1, sub.0);
        }
        assert BTreeSpec.InsertNonFull(node, key, order, c0) == (d.0.(children := d.0.children[d.1 := sub.0]), sub.1) by {
          InsertNonFullUnfold(node, key, order, c0);
        }
        JoinSnapshots([first], descent, order, Keys(r0), key);
        JoinSnapshots([first] + descent, rest, order, Keys(r0), key);
        recorded := [first] + descent + rest;
      }
    }

    /** Make room at the root before inserting: a full root is split, any
        other root is left as it is. Returns the steps recorded on the way,
        each a valid tree holding the old keys. */
    method SplitFullRoot() returns (split: seq<Step>)
      requires Valid()
      modifies this
      ensures AllShaped(old(root))
      ensures (root, nodeIdCounter) == PrepareRoot(old(root), order, old(nodeIdCounter))
      ensures Valid() && Keys(root) == old(Keys(root)) && |root.keys| < 2 * order - 1
      ensures |old(root).keys| != 2 * order - 1 ==> split == []
      ensures |old(root).keys| == 2 * order - 1 ==>
        |split| == 2 &&
        split[0] == Step(GrownRoot(old(root), old(nodeIdCounter)), SplitAction, SplittingRoot, Some([old(root).id])) &&
        split[1] == Step(root, SplitAction, SplitChildAt(0, old(root).keys[order - 1]),
                         Some([old(nodeIdCounter), old(root).id, old(nodeIdCounter) + 1]))
      ensures forall k | 0 <= k < |split| :: ValidTree(split[k].tree, order) && Keys(split[k].tree) == old(Keys(root))
    {
      assert AllShaped(root) by {
        WellFormedShapely(root, order, Height(root), true);
      }
      split := [];
      if |root.keys| == 2 * order - 1 {
        ghost var r0, c0 := root, nodeIdCounter;
        RootSplitAtValid(r0, order, c0);
        split := SplitRoot();
        RootSplitSteps(r0, order, c0, split);
      }
    }

    /** Insert `key`: record the start, split the root first if it is full,
        insert below the root, record the end. The tree and the id counter
        end as `BTreeSpec.Insert` says; the tree stays valid and
        gains exactly the key. Every snapshot is a valid tree holding the old
        keys or the old keys plus `key`. */
    method Insert(key: int) returns (steps: seq<Step>)
      requires Valid()
      modifies this
      ensures AllShaped(old(root))
      ensures (root, nodeIdCounter) == BTreeSpec.Insert(old(root), key, order, old(nodeIdCounter))
      ensures Valid() && Keys(root) == old(Keys(root)) + multiset{key}
      ensures |steps| >= 4
      ensures steps[0] == Step(old(root), InsertAction, StartingInsertion(key), None)
      ensures steps[|steps| - 1] == Step(root, InsertAction, FinishedInserting(key), None)
      ensures |old(root).keys| == 2 * order - 1 ==>
        steps[1] == Step(GrownRoot(old(root), old(nodeIdCounter)), SplitAction, SplittingRoot, Some([old(root).id]))
      ensures Snapshots(steps, order, old(Keys(root)), key)
    {
      ghost var r0, c0 := root, nodeIdCounter;
      assert AllShaped(r0) by {
        WellFormedShapely(r0, order, Height(r0), true);
      }
      var start := CreateStep(InsertAction, StartingInsertion(key), None);
      OneSnapshot(start, order, Keys(r0), key, false);
      var split := SplitFullRoot();
      assert Snapshots(split, order, Keys(r0), key);
      ghost var r1, c1 := root, nodeIdCounter;
      EmptyPath(r1);
      var inserted := InsertNonFull([], key);
      var finish := CreateStep(InsertAction, FinishedInserting(key), None);
      OneSnapshot(finish, order, Keys(r0), key, true);
      steps := [start] + split + inserted + [finish];
      assert (root, nodeIdCounter) == BTreeSpec.InsertNonFull(r1, key, order, c1);
      InsertSteps(start, split, inserted, finish);
      InsertSnapshots(start, split, inserted, finish, order, Keys(r0), key);
    }
  }
}
