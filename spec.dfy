// The insertion engine as functions on node values: what each operation of
// the engine computes, and the properties the engine promises about it.

module BTreeSpec {
  import opened Interfaces
  import opened Invariants

  // ---------------------------------------------------------------------
  // Array splicing as the engine uses it.

  /** `s.splice(i, 0, x)`: insert `x` before position `i`; an index past the
      end inserts at the end. */
  function InsertAt<T>(s: seq<T>, i: nat, x: T): (r: seq<T>)
    ensures |r| == |s| + 1
  {
    if i <= |s| then s[..i] + [x] + s[i..] else s + [x]
  }

  /** The elements of `InsertAt(s, i, x)`: those of `s` before `i`, then `x`
      (at the end when `i` is past it), then the rest of `s`. */
  lemma InsertAtElements<T>(s: seq<T>, i: nat, x: T)
    ensures var r := InsertAt(s, i, x);
      multiset(r) == multiset(s) + multiset{x} &&
      (i <= |s| ==> r[i] == x) && (i > |s| ==> r[|s|] == x) &&
      (forall k | 0 <= k < i && k < |s| :: r[k] == s[k]) &&
      (forall k | i < k < |r| :: r[k] == s[k - 1])
  {
    var r := InsertAt(s, i, x);
    if i <= |s| {
      var a, b := s[..i], s[i..];
      assert r == a + [x] + b;
      assert multiset(r) == multiset(s) + multiset{x} by {
        assert s == a + b;
        assert multiset(r) == multiset(a) + multiset{x} + multiset(b);
        assert multiset(s) == multiset(a) + multiset(b);
      }
    } else {
      assert r == s + [x];
    }
  }

  /** What `s.splice(k)` leaves in `s`: its first `k` elements. */
  function Take<T>(s: seq<T>, k: nat): (r: seq<T>)
    ensures |r| <= |s| && r == s[..|r|]
    ensures k <= |s| ==> |r| == k
    ensures |s| <= k ==> r == s
  {
    if k <= |s| then s[..k] else s
  }

  /** What `s.splice(k)` removes and returns: the elements from position `k` on. */
  function Drop<T>(s: seq<T>, k: nat): (r: seq<T>)
    ensures Take(s, k) + r == s
    ensures |s| <= k ==> r == []
  {
    if k <= |s| then s[k..] else []
  }

  /** Insertion into a sorted sequence at a position between its neighbours keeps it sorted. */
  lemma InsertAtSorted(s: seq<int>, i: nat, x: int)
    requires Sorted(s) && i <= |s|
    requires 0 < i ==> s[i - 1] <= x
    requires i < |s| ==> x <= s[i]
    ensures Sorted(InsertAt(s, i, x))
  {
    var r := InsertAt(s, i, x);
    InsertAtElements(s, i, x);
    forall a, b | 0 <= a < b < |r| ensures r[a] <= r[b] {
      if b < i {
        assert r[a] == s[a] && r[b] == s[b];
      } else if b == i {
        assert r[a] == s[a] <= s[i - 1];
      } else if a < i {
        assert r[a] == s[a] && r[b] == s[b - 1];
      } else if a == i {
        assert r[b] == s[b - 1] && s[i] <= s[b - 1];
      } else {
        assert r[a] == s[a - 1] && r[b] == s[b - 1];
      }
    }
  }

  // ---------------------------------------------------------------------
  // Choosing a position: `i = keys.length - 1; while (i >= 0 && key < keys[i]) i--;`
  // and the position used is `i + 1`.

  /** The position just after the last key that is at most `key`: every key
      from the result on is greater than `key`, the one before it is not. */
  function SearchIndex(keys: seq<int>, key: int): (j: nat)
    ensures j <= |keys|
    ensures forall m | j <= m < |keys| :: key < keys[m]
    ensures 0 < j ==> keys[j - 1] <= key
    decreases |keys|
  {
    if keys == [] then 0
    else if key < keys[|keys| - 1] then SearchIndex(keys[..|keys| - 1], key)
    else |keys|
  }

  /** The two conditions that `SearchIndex` ensures pick out one position only. */
  lemma SearchIndexUnique(keys: seq<int>, key: int, j: nat)
    requires j <= |keys|
    requires forall m | j <= m < |keys| :: key < keys[m]
    requires 0 < j ==> keys[j - 1] <= key
    ensures j == SearchIndex(keys, key)
  {
  }

  /** How many keys are at most `key`. */
  function CountAtMost(keys: seq<int>, key: int): (c: nat)
    ensures c <= |keys|
    decreases |keys|
  {
    if keys == [] then 0
    else CountAtMost(keys[..|keys| - 1], key) + (if keys[|keys| - 1] <= key then 1 else 0)
  }

  lemma {:induction false} CountAllAtMost(keys: seq<int>, key: int)
    requires forall m | 0 <= m < |keys| :: keys[m] <= key
    ensures CountAtMost(keys, key) == |keys|
    decreases |keys|
  {
    if keys != [] {
      CountAllAtMost(keys[..|keys| - 1], key);
    }
  }

  /** In a sorted key list the descent position is the number of keys that are
      at most `key`; so keys equal to `key` are passed on the left. */
  lemma {:induction false} SearchIndexCounts(keys: seq<int>, key: int)
    requires Sorted(keys)
    ensures SearchIndex(keys, key) == CountAtMost(keys, key)
    decreases |keys|
  {
    if keys != [] {
      var init := keys[..|keys| - 1];
      if key < keys[|keys| - 1] {
        SearchIndexCounts(init, key);
      } else {
        forall m | 0 <= m < |init| ensures init[m] <= key {
          assert keys[m] <= keys[|keys| - 1];
        }
        CountAllAtMost(init, key);
      }
    }
  }

  /** Leaf insertion: the key goes just after the last key that is at most it;
      the list gains exactly that key and stays sorted. Duplicates are kept. */
  lemma LeafInsertion(keys: seq<int>, key: int)
    requires Sorted(keys)
    ensures var j := SearchIndex(keys, key); var r := InsertAt(keys, j, key);
      |r| == |keys| + 1 && Sorted(r) && multiset(r) == multiset(keys) + multiset{key} &&
      r[j] == key &&
      (forall m | 0 <= m < j :: r[m] <= key) &&
      (forall m | j < m < |r| :: key < r[m])
  {
    InsertBetween(keys, SearchIndex(keys, key), key);
  }

  /** Inserting `key` at a position between the keys at most it and the keys
      greater than it. */
  lemma InsertBetween(keys: seq<int>, j: nat, key: int)
    requires Sorted(keys) && j <= |keys|
    requires forall m | j <= m < |keys| :: key < keys[m]
    requires 0 < j ==> keys[j - 1] <= key
    ensures var r := InsertAt(keys, j, key);
      |r| == |keys| + 1 && Sorted(r) && multiset(r) == multiset(keys) + multiset{key} &&
      r[j] == key &&
      (forall m | 0 <= m < j :: r[m] <= key) &&
      (forall m | j < m < |r| :: key < r[m])
  {
    var r := InsertAt(keys, j, key);
    assert Sorted(r) by {
      InsertAtSorted(keys, j, key);
    }
    assert multiset(r) == multiset(keys) + multiset{key} && r[j] == key &&
      (forall m | 0 <= m < j :: r[m] <= key) && (forall m | j < m < |r| :: key < r[m]) by {
      InsertAtElements(keys, j, key);
      forall m | 0 <= m < j ensures r[m] <= key {
        assert r[m] == keys[m] && keys[m] <= keys[j - 1];
      }
      forall m | j < m < |r| ensures key < r[m] {
        assert r[m] == keys[m - 1];
      }
    }
  }

  // ---------------------------------------------------------------------
  // splitChild(parent, index, child), with child == parent.children[index].

  /** What stays in a full child: keys `0..t-2` (after `keys.splice(t)` and
      `keys.pop()`), and for an internal child its first `t` children. */
  function LowerHalf(c: Node, t: nat): (lo: Node)
    requires |c.keys| == 2 * t - 1
    ensures lo.keys == c.keys[..t - 1] && lo.id == c.id && lo.isLeaf == c.isLeaf
    ensures !c.isLeaf && t <= |c.children| ==> lo.children == c.children[..t]
    ensures c.isLeaf ==> lo.children == c.children
  {
    c.(keys := c.keys[..t][..t - 1], children := if c.isLeaf then c.children else Take(c.children, t))
  }

  /** The new sibling: keys `t..2t-2` and, for an internal child, the children
      from position `t` on; a leaf child gives a leaf sibling. */
  function UpperHalf(c: Node, t: nat, newId: nat): (hi: Node)
    requires |c.keys| == 2 * t - 1
    ensures hi.keys == c.keys[t..] && hi.id == newId && hi.isLeaf == c.isLeaf
    ensures !c.isLeaf && t <= |c.children| ==> hi.children == c.children[t..]
    ensures c.isLeaf ==> hi.children == []
  {
    Node(c.keys[t..], if c.isLeaf then [] else Drop(c.children, t), c.isLeaf, newId)
  }

  /** Split the full child at `index` around its median `keys[t-1]`: the median
      goes into the parent's keys at `index`, the child keeps its lower half and
      the new sibling (id `newId`) goes into the parent's children at `index + 1`. */
  function SplitChild(parent: Node, index: nat, t: nat, newId: nat): (r: Node)
    requires index < |parent.children|
    requires |parent.children[index].keys| == 2 * t - 1
    ensures r.id == parent.id && r.isLeaf == parent.isLeaf
    ensures r.keys == InsertAt(parent.keys, index, parent.children[index].keys[t - 1])
    ensures r.children == parent.children[..index] +
      [LowerHalf(parent.children[index], t), UpperHalf(parent.children[index], t, newId)] +
      parent.children[index + 1..]
  {
    var c := parent.children[index];
    var r := parent.(children := InsertAt(parent.children[index := LowerHalf(c, t)], index + 1, UpperHalf(c, t, newId)),
                     keys := InsertAt(parent.keys, index, c.keys[t - 1]));
    InsertAtElements(parent.children[index := LowerHalf(c, t)], index + 1, UpperHalf(c, t, newId));
    assert r.children == parent.children[..index] + [LowerHalf(c, t), UpperHalf(c, t, newId)] + parent.children[index + 1..];
    r
  }

  /** The two halves and the median hold exactly the child's keys, ids and size
      (plus the new sibling itself). */
  lemma HalvesContents(c: Node, t: nat, newId: nat)
    requires |c.keys| == 2 * t - 1
    ensures Keys(LowerHalf(c, t)) + multiset{c.keys[t - 1]} + Keys(UpperHalf(c, t, newId)) == Keys(c)
    ensures Ids(LowerHalf(c, t)) + Ids(UpperHalf(c, t, newId)) == Ids(c) + multiset{newId}
    ensures Size(LowerHalf(c, t)) + Size(UpperHalf(c, t, newId)) == Size(c) + 1
    ensures LowerHalf(c, t).children + UpperHalf(c, t, newId).children == c.children
  {
    var lo, hi := LowerHalf(c, t), UpperHalf(c, t, newId);
    assert c.keys == lo.keys + [c.keys[t - 1]] + hi.keys;
    assert lo.children + hi.children == c.children;
    KeysOfConcat(lo.children, hi.children);
    IdsOfConcat(lo.children, hi.children);
    SizeOfConcat(lo.children, hi.children);
  }

  /** Splitting keeps every key, adds exactly the sibling's id, and yields halves
      smaller than the parent (so descent into either terminates). */
  lemma SplitChildContents(parent: Node, index: nat, t: nat, newId: nat)
    requires index < |parent.children|
    requires |parent.children[index].keys| == 2 * t - 1
    ensures var r := SplitChild(parent, index, t, newId);
      Keys(r) == Keys(parent) && Ids(r) == Ids(parent) + multiset{newId} &&
      Size(r.children[index]) < Size(parent) && Size(r.children[index + 1]) < Size(parent)
  {
    var c := parent.children[index];
    var pre, post := parent.children[..index], parent.children[index + 1..];
    assert parent.children == pre + [c] + post;
    var r := SplitChild(parent, index, t, newId);
    HalvesContents(c, t, newId);
    SplitChildrenContents(pre, c, post, t, newId);
    ChildSmaller(parent.children, index);
    InsertAtElements(parent.keys, index, c.keys[t - 1]);
    NodeContents(parent, r, c.keys[t - 1], newId);
  }

  lemma NodeContents(parent: Node, r: Node, m: int, newId: nat)
    requires multiset(r.keys) == multiset(parent.keys) + multiset{m}
    requires KeysOf(r.children) + multiset{m} == KeysOf(parent.children)
    requires IdsOf(r.children) == IdsOf(parent.children) + multiset{newId}
    requires r.id == parent.id
    ensures Keys(r) == Keys(parent) && Ids(r) == Ids(parent) + multiset{newId}
  {
  }

  lemma SplitChildrenContents(pre: seq<Node>, c: Node, post: seq<Node>, t: nat, newId: nat)
    requires |c.keys| == 2 * t - 1
    ensures var lo, hi := LowerHalf(c, t), UpperHalf(c, t, newId);
      KeysOf(pre + [lo, hi] + post) + multiset{c.keys[t - 1]} == KeysOf(pre + [c] + post) &&
      IdsOf(pre + [lo, hi] + post) == IdsOf(pre + [c] + post) + multiset{newId}
  {
    HalvesContents(c, t, newId);
    SpliceKeys(pre, c, LowerHalf(c, t), UpperHalf(c, t, newId), post, c.keys[t - 1]);
    SpliceIds(pre, c, LowerHalf(c, t), UpperHalf(c, t, newId), post, newId);
  }

  lemma SpliceKeys(pre: seq<Node>, c: Node, lo: Node, hi: Node, post: seq<Node>, m: int)
    requires Keys(lo) + multiset{m} + Keys(hi) == Keys(c)
    ensures KeysOf(pre + [lo, hi] + post) + multiset{m} == KeysOf(pre + [c] + post)
  {
    ContentsAround(pre, [c], post);
    ContentsAround(pre, [lo, hi], post);
    ContentsPair(lo, hi);
    KeysOfSingle(c);
    SwapMiddle(KeysOf(pre), Keys(lo) + Keys(hi), Keys(c), KeysOf(post), m);
  }

  lemma SpliceIds(pre: seq<Node>, c: Node, lo: Node, hi: Node, post: seq<Node>, newId: nat)
    requires Ids(lo) + Ids(hi) == Ids(c) + multiset{newId}
    ensures IdsOf(pre + [lo, hi] + post) == IdsOf(pre + [c] + post) + multiset{newId}
  {
    ContentsAround(pre, [c], post);
    ContentsAround(pre, [lo, hi], post);
    ContentsPair(lo, hi);
    KeysOfSingle(c);
  }

  lemma SwapMiddle(a: multiset<int>, b: multiset<int>, c: multiset<int>, d: multiset<int>, m: int)
    requires b + multiset{m} == c
    ensures a + b + d + multiset{m} == a + c + d
  {
  }

  /** Splitting keeps every node shaped. */
  lemma SplitChildShapely(parent: Node, index: nat, t: nat, newId: nat)
    requires AllShaped(parent)
    requires index < |parent.children|
    requires |parent.children[index].keys| == 2 * t - 1
    ensures AllShaped(SplitChild(parent, index, t, newId))
  {
    var c := parent.children[index];
    HalvesShapely(c, t, newId);
    SpliceShapely(parent, SplitChild(parent, index, t, newId), index, LowerHalf(c, t), UpperHalf(c, t, newId));
  }

  lemma HalvesShapely(c: Node, t: nat, newId: nat)
    requires AllShaped(c) && |c.keys| == 2 * t - 1
    ensures AllShaped(LowerHalf(c, t)) && AllShaped(UpperHalf(c, t, newId))
  {
    var lo, hi := LowerHalf(c, t), UpperHalf(c, t, newId);
    if !c.isLeaf {
      assert lo.children == c.children[..t];
      assert hi.children == c.children[t..];
    }
    forall k | 0 <= k < |lo.children| ensures AllShaped(lo.children[k]) {
      assert lo.children[k] == c.children[k];
    }
    forall k | 0 <= k < |hi.children| ensures AllShaped(hi.children[k]) {
      assert hi.children[k] == c.children[t + k];
    }
  }

  /** Putting two shaped nodes in place of one child, with one more key, keeps the node shaped. */
  lemma SpliceShapely(parent: Node, r: Node, index: nat, lo: Node, hi: Node)
    requires AllShaped(parent) && index < |parent.children|
    requires |r.keys| == |parent.keys| + 1 && r.isLeaf == parent.isLeaf
    requires r.children == parent.children[..index] + [lo, hi] + parent.children[index + 1..]
    requires AllShaped(lo) && AllShaped(hi)
    ensures AllShaped(r)
  {
    forall k | 0 <= k < |r.children| ensures AllShaped(r.children[k]) {
      if k < index {
        assert r.children[k] == parent.children[k];
      } else if k > index + 1 {
        assert r.children[k] == parent.children[k - 1];
      }
    }
  }

  /** The half that stays is a valid non-root node whose keys are all at most the median. */
  lemma LowerHalfWellFormed(c: Node, t: nat, h: nat)
    requires WellFormed(c, t, h, false) && |c.keys| == 2 * t - 1
    ensures WellFormed(LowerHalf(c, t), t, h, false)
    ensures AllAtMost(Keys(LowerHalf(c, t)), c.keys[t - 1])
  {
    var lo := LowerHalf(c, t);
    var m := c.keys[t - 1];
    LowerChildren(c, t, h);
    KeysOfAtMost(lo.children, m);
    LowerKeys(c.keys, t, m);
  }

  lemma LowerKeys(ks: seq<int>, t: nat, m: int)
    requires Sorted(ks) && |ks| == 2 * t - 1 && m == ks[t - 1]
    ensures Sorted(ks[..t - 1]) && AllAtMost(multiset(ks[..t - 1]), m)
  {
    var low := ks[..t - 1];
    forall x | x in multiset(low) ensures x <= m {
      var a :| 0 <= a < |low| && low[a] == x;
    }
  }

  lemma LowerChildren(c: Node, t: nat, h: nat)
    requires WellFormed(c, t, h, false) && |c.keys| == 2 * t - 1
    ensures var lo := LowerHalf(c, t);
      forall k | 0 <= k < |lo.children| ::
        h > 0 && WellFormed(lo.children[k], t, h - 1, false) && Separated(lo, k) && AllAtMost(Keys(lo.children[k]), c.keys[t - 1])
  {
    var lo := LowerHalf(c, t);
    if !c.isLeaf {
      assert lo.children == c.children[..t];
    }
    forall k | 0 <= k < |lo.children|
      ensures h > 0 && WellFormed(lo.children[k], t, h - 1, false) && Separated(lo, k) && AllAtMost(Keys(lo.children[k]), c.keys[t - 1])
    {
      assert lo.children[k] == c.children[k];
      assert Separated(c, k);
    }
  }

  /** The new sibling is a valid non-root node whose keys are all at least the median. */
  lemma UpperHalfWellFormed(c: Node, t: nat, newId: nat, h: nat)
    requires WellFormed(c, t, h, false) && |c.keys| == 2 * t - 1
    ensures WellFormed(UpperHalf(c, t, newId), t, h, false)
    ensures AllAtLeast(Keys(UpperHalf(c, t, newId)), c.keys[t - 1])
  {
    var hi := UpperHalf(c, t, newId);
    var m := c.keys[t - 1];
    UpperChildren(c, t, newId, h);
    KeysOfAtLeast(hi.children, m);
    UpperKeys(c.keys, t, m);
  }

  lemma UpperKeys(ks: seq<int>, t: nat, m: int)
    requires Sorted(ks) && |ks| == 2 * t - 1 && m == ks[t - 1]
    ensures Sorted(ks[t..]) && AllAtLeast(multiset(ks[t..]), m)
  {
    forall x | x in multiset(ks[t..]) ensures m <= x {
      var a :| 0 <= a < |ks[t..]| && ks[t..][a] == x;
    }
  }

  lemma UpperChildren(c: Node, t: nat, newId: nat, h: nat)
    requires WellFormed(c, t, h, false) && |c.keys| == 2 * t - 1
    ensures var hi := UpperHalf(c, t, newId);
      forall k | 0 <= k < |hi.children| ::
        h > 0 && WellFormed(hi.children[k], t, h - 1, false) && Separated(hi, k) && AllAtLeast(Keys(hi.children[k]), c.keys[t - 1])
  {
    var hi := UpperHalf(c, t, newId);
    if !c.isLeaf {
      assert hi.children == c.children[t..];
    }
    forall k | 0 <= k < |hi.children|
      ensures h > 0 && WellFormed(hi.children[k], t, h - 1, false) && Separated(hi, k) && AllAtLeast(Keys(hi.children[k]), c.keys[t - 1])
    {
      assert hi.children[k] == c.children[t + k];
      assert Separated(c, t + k);
    }
  }

  /** Splitting a full child of a non-full node keeps the node a valid B-tree
      node with its leaves at the same depth. */
  lemma SplitChildWellFormed(parent: Node, index: nat, t: nat, newId: nat, h: nat, isRoot: bool)
    requires WellFormed(parent, t, h, isRoot) && |parent.keys| < 2 * t - 1
    requires index < |parent.children|
    requires |parent.children[index].keys| == 2 * t - 1
    ensures WellFormed(SplitChild(parent, index, t, newId), t, h, isRoot)
  {
    var c := parent.children[index];
    var lo, hi, m := LowerHalf(c, t), UpperHalf(c, t, newId), c.keys[t - 1];
    assert h > 0 && WellFormed(c, t, h - 1, false) &&
      (0 < index ==> AllAtLeast(Keys(c), parent.keys[index - 1])) &&
      (index < |parent.keys| ==> AllAtMost(Keys(c), parent.keys[index])) by {
      ChildWellFormed(parent, index, t, h, isRoot);
    }
    assert WellFormed(lo, t, h - 1, false) && AllAtMost(Keys(lo), m) by {
      LowerHalfWellFormed(c, t, h - 1);
    }
    assert WellFormed(hi, t, h - 1, false) && AllAtLeast(Keys(hi), m) by {
      UpperHalfWellFormed(c, t, newId, h - 1);
    }
    assert 0 < index ==> parent.keys[index - 1] <= m && AllAtLeast(Keys(lo), parent.keys[index - 1]) by {
      if 0 < index {
        HalvesAbove(c, t, newId, parent.keys[index - 1]);
      }
    }
    assert index < |parent.keys| ==> m <= parent.keys[index] && AllAtMost(Keys(hi), parent.keys[index]) by {
      if index < |parent.keys| {
        HalvesBelow(c, t, newId, parent.keys[index]);
      }
    }
    SpliceWellFormed(parent, SplitChild(parent, index, t, newId), index, lo, hi, m, t, h, isRoot);
  }

  /** Lower bounds on a full child carry over to its median and its lower half. */
  lemma HalvesAbove(c: Node, t: nat, newId: nat, b: int)
    requires |c.keys| == 2 * t - 1 && AllAtLeast(Keys(c), b)
    ensures b <= c.keys[t - 1] && AllAtLeast(Keys(LowerHalf(c, t)), b)
  {
    HalvesWithin(c, t, newId);
    AtLeastWithin(Keys(LowerHalf(c, t)), Keys(c), b);
  }

  /** Upper bounds on a full child carry over to its median and its upper half. */
  lemma HalvesBelow(c: Node, t: nat, newId: nat, b: int)
    requires |c.keys| == 2 * t - 1 && AllAtMost(Keys(c), b)
    ensures c.keys[t - 1] <= b && AllAtMost(Keys(UpperHalf(c, t, newId)), b)
  {
    HalvesWithin(c, t, newId);
    AtMostWithin(Keys(UpperHalf(c, t, newId)), Keys(c), b);
  }

  /** Both halves, and the median, come from the child's keys. */
  lemma HalvesWithin(c: Node, t: nat, newId: nat)
    requires |c.keys| == 2 * t - 1
    ensures Keys(LowerHalf(c, t)) <= Keys(c) && Keys(UpperHalf(c, t, newId)) <= Keys(c)
    ensures c.keys[t - 1] in Keys(c)
  {
    HalvesContents(c, t, newId);
    PartsWithin(Keys(LowerHalf(c, t)), c.keys[t - 1], Keys(UpperHalf(c, t, newId)), Keys(c));
  }

  lemma PartsWithin(a: multiset<int>, m: int, b: multiset<int>, c: multiset<int>)
    requires a + multiset{m} + b == c
    ensures a <= c && b <= c && m in c
  {
  }

  lemma AtLeastWithin(small: multiset<int>, big: multiset<int>, lo: int)
    requires small <= big && AllAtLeast(big, lo)
    ensures AllAtLeast(small, lo)
  {
  }

  lemma AtMostWithin(small: multiset<int>, big: multiset<int>, hi: int)
    requires small <= big && AllAtMost(big, hi)
    ensures AllAtMost(small, hi)
  {
  }

  /** Putting two valid halves and their median in place of one child keeps the
      node valid, as long as the median and the halves respect the separators. */
  lemma SpliceWellFormed(parent: Node, r: Node, index: nat, lo: Node, hi: Node, m: int,
                         t: nat, h: nat, isRoot: bool)
    requires WellFormed(parent, t, h, isRoot) && |parent.keys| < 2 * t - 1
    requires index < |parent.children|
    requires r.keys == InsertAt(parent.keys, index, m) && r.isLeaf == parent.isLeaf
    requires r.children == parent.children[..index] + [lo, hi] + parent.children[index + 1..]
    requires h > 0 && WellFormed(lo, t, h - 1, false) && WellFormed(hi, t, h - 1, false)
    requires AllAtMost(Keys(lo), m) && AllAtLeast(Keys(hi), m)
    requires 0 < index ==> parent.keys[index - 1] <= m && AllAtLeast(Keys(lo), parent.keys[index - 1])
    requires index < |parent.keys| ==> m <= parent.keys[index] && AllAtMost(Keys(hi), parent.keys[index])
    ensures WellFormed(r, t, h, isRoot)
  {
    InsertAtElements(parent.keys, index, m);
    InsertAtSorted(parent.keys, index, m);
    forall k | 0 <= k < |r.children| ensures WellFormed(r.children[k], t, h - 1, false) && Separated(r, k) {
      SpliceChild(parent, r, index, lo, hi, m, t, h, k);
    }
  }

  /** One child of the spliced node: an old child keeps its separators, now
      at shifted positions, and the two halves sit either side of `m`. */
  lemma SpliceChild(parent: Node, r: Node, index: nat, lo: Node, hi: Node, m: int,
                    t: nat, h: nat, k: nat)
    requires ChildrenWellFormed(parent, t, h) && Shaped(parent) && !parent.isLeaf
    requires index < |parent.children|
    requires r.keys == InsertAt(parent.keys, index, m)
    requires r.children == parent.children[..index] + [lo, hi] + parent.children[index + 1..]
    requires h > 0 && WellFormed(lo, t, h - 1, false) && WellFormed(hi, t, h - 1, false)
    requires AllAtMost(Keys(lo), m) && AllAtLeast(Keys(hi), m)
    requires 0 < index ==> AllAtLeast(Keys(lo), parent.keys[index - 1])
    requires index < |parent.keys| ==> AllAtMost(Keys(hi), parent.keys[index])
    requires k < |r.children|
    ensures WellFormed(r.children[k], t, h - 1, false) && Separated(r, k)
  {
    InsertAtElements(parent.keys, index, m);
    if k < index {
      assert r.children[k] == parent.children[k];
      assert Separated(parent, k);
    } else if k == index {
      assert r.children[k] == lo;
    } else if k == index + 1 {
      assert r.children[k] == hi;
    } else {
      assert r.children[k] == parent.children[k - 1];
      assert Separated(parent, k - 1);
    }
  }

  // ---------------------------------------------------------------------
  // splitRoot: a new internal root whose only child is the old root, then
  // splitChild(newRoot, 0, oldRoot).

  /** The new root before its only child is split (ids `next` for it). */
  function GrownRoot(root: Node, next: nat): (g: Node)
    ensures g.children == [root] && g.keys == [] && !g.isLeaf && g.id == next
  {
    Node([], [root], false, next)
  }

  /** The root split: ids `next` (new root) and `next + 1` (new sibling) are used. */
  function SplitRoot(root: Node, t: nat, next: nat): (r: Node)
    requires |root.keys| == 2 * t - 1
    ensures r.keys == [root.keys[t - 1]] && |r.children| == 2 && r.id == next && !r.isLeaf
  {
    SplitChild(GrownRoot(root, next), 0, t, next + 1)
  }

  /** The new root before the split holds the old root's keys and one more id. */
  lemma GrownRootContents(root: Node, next: nat)
    ensures Keys(GrownRoot(root, next)) == Keys(root)
    ensures Ids(GrownRoot(root, next)) == Ids(root) + multiset{next}
    ensures AllShaped(root) ==> AllShaped(GrownRoot(root, next))
  {
    KeysOfSingle(root);
  }

  /** Before the split the new root is already a valid tree, one level taller. */
  lemma GrownRootWellFormed(root: Node, t: nat, next: nat, h: nat)
    requires WellFormed(root, t, h, true) && |root.keys| == 2 * t - 1
    ensures WellFormed(GrownRoot(root, next), t, h + 1, true)
  {
    var g := GrownRoot(root, next);
    KeysOfSingle(root);
    assert WellFormed(root, t, h, false) by {
      assert WellFormed(root, t, h, true);
      forall i | 0 <= i < |root.children|
        ensures h > 0 && WellFormed(root.children[i], t, h - 1, false) && Separated(root, i) { }
    }
    assert Separated(g, 0);
  }

  /** Root split: the new root holds the old root's median and two children
      holding its lower and upper keys, and every leaf is one level deeper
      (`SplitRootContents` states what happens to the keys and ids). */
  lemma RootSplit(root: Node, t: nat, next: nat, h: nat)
    requires WellFormed(root, t, h, true) && |root.keys| == 2 * t - 1
    ensures var r := SplitRoot(root, t, next);
      WellFormed(r, t, h + 1, true) &&
      r.keys == [root.keys[t - 1]] && |r.children| == 2 &&
      r.children[0].keys == root.keys[..t - 1] && r.children[1].keys == root.keys[t..]
  {
    GrownRootWellFormed(root, t, next, h);
    SplitChildWellFormed(GrownRoot(root, next), 0, t, next + 1, h + 1, true);
    RootSplitChildren(root, t, next);
  }

  lemma RootSplitChildren(root: Node, t: nat, next: nat)
    requires |root.keys| == 2 * t - 1
    ensures var r := SplitRoot(root, t, next);
      r.children[0].keys == root.keys[..t - 1] && r.children[1].keys == root.keys[t..]
  {
    var r := SplitRoot(root, t, next);
    assert r.children == [LowerHalf(root, t), UpperHalf(root, t, next + 1)];
  }

  // ---------------------------------------------------------------------
  // insertNonFull(node, key) and insert(key).

  /** The ids `lo`, `lo + 1`, ..., `hi - 1`. */
  function IdRange(lo: nat, hi: nat): (ids: multiset<nat>)
    ensures |ids| == if lo <= hi then hi - lo else 0
    decreases hi - lo
  {
    if hi <= lo then multiset{} else multiset{lo} + IdRange(lo + 1, hi)
  }

  lemma {:induction false} InIdRange(lo: nat, hi: nat, x: nat)
    ensures x in IdRange(lo, hi) <==> lo <= x < hi
    ensures x in IdRange(lo, hi) ==> IdRange(lo, hi)[x] == 1
    decreases hi - lo
  {
    if lo < hi {
      InIdRange(lo + 1, hi, x);
    }
  }

  /** Two adjacent ranges of ids make one. */
  lemma IdRangeConcat(a: nat, b: nat, c: nat)
    requires a <= b <= c
    ensures IdRange(a, b) + IdRange(b, c) == IdRange(a, c)
  {
    forall x: nat ensures (IdRange(a, b) + IdRange(b, c))[x] == IdRange(a, c)[x] {
      InIdRange(a, b, x);
      InIdRange(b, c, x);
      InIdRange(a, c, x);
    }
  }

  lemma Shift(m: multiset<nat>, x: multiset<nat>, y: multiset<nat>, z: multiset<nat>)
    requires x + y == z
    ensures m + x + y == m + z
  {
  }

  /** The descent through a full child: split it, then go to the lower half
      unless the key is greater than the median now at `keys[i]`. */
  function SplitAndChoose(n: Node, i: nat, key: int, t: nat, next: nat): (d: (Node, nat, nat))
    requires AllShaped(n) && !n.isLeaf && i < |n.children| && |n.children[i].keys| == 2 * t - 1
    ensures AllShaped(d.0) && d.0.id == n.id && !d.0.isLeaf && d.1 < |d.0.children|
    ensures Size(d.0.children[d.1]) < Size(n)
    ensures Keys(d.0) == Keys(n) && Ids(d.0) == Ids(n) + IdRange(next, d.2)
    ensures next <= d.2
  {
    var split := SplitChild(n, i, t, next);
    SplitForDescent(n, i, t, next);
    (split, if key > split.keys[i] then i + 1 else i, next + 1)
  }

  lemma SplitForDescent(n: Node, i: nat, t: nat, next: nat)
    requires AllShaped(n) && !n.isLeaf && i < |n.children| && |n.children[i].keys| == 2 * t - 1
    ensures var split := SplitChild(n, i, t, next);
      AllShaped(split) && split.id == n.id && !split.isLeaf && i + 1 < |split.children| && i < |split.keys| &&
      Keys(split) == Keys(n) && Ids(split) == Ids(n) + IdRange(next, next + 1) &&
      Size(split.children[i]) < Size(n) && Size(split.children[i + 1]) < Size(n)
  {
    SplitChildContents(n, i, t, next);
    SplitChildShapely(n, i, t, next);
    assert IdRange(next, next + 1) == multiset{next};
  }

  /** One step down from the internal node `n` towards `key`: the child the
      key belongs in is split first if it is full. The result is the node
      after that split, the index of the child to descend into and the next
      unused id. */
  function Descend(n: Node, key: int, t: nat, next: nat): (d: (Node, nat, nat))
    requires AllShaped(n) && !n.isLeaf
    ensures AllShaped(d.0) && d.0.id == n.id && !d.0.isLeaf && d.1 < |d.0.children|
    ensures Size(d.0.children[d.1]) < Size(n)
    ensures Keys(d.0) == Keys(n) && Ids(d.0) == Ids(n) + IdRange(next, d.2)
    ensures next <= d.2
  {
    var i := SearchIndex(n.keys, key);
    if |n.children[i].keys| == 2 * t - 1 then
      SplitAndChoose(n, i, key, t, next)
    else
      ChildSmaller(n.children, i);
      (n, i, next)
  }

  /** Insert `key` into the subtree rooted at `n`, splitting a full child before
      descending into it. New nodes get ids from `next` on; the second component
      is the next unused id. The subtree gains exactly one copy of `key` and
      exactly the ids `next .. r.1 - 1`. */
  function InsertNonFull(n: Node, key: int, t: nat, next: nat): (r: (Node, nat))
    requires AllShaped(n)
    ensures next <= r.1
    ensures AllShaped(r.0) && r.0.id == n.id && r.0.isLeaf == n.isLeaf
    ensures Keys(r.0) == Keys(n) + multiset{key}
    ensures Ids(r.0) == Ids(n) + IdRange(next, r.1)
    decreases Size(n)
  {
    if n.isLeaf then
      InsertAtElements(n.keys, SearchIndex(n.keys, key), key);
      (n.(keys := InsertAt(n.keys, SearchIndex(n.keys, key), key)), next)
    else
      var d := Descend(n, key, t, next);
      var sub := InsertNonFull(d.0.children[d.1], key, t, d.2);
      var q := d.0.(children := d.0.children[d.1 := sub.0]);
      ReplaceChild(d.0, d.1, sub.0, multiset{key}, IdRange(d.2, sub.1));
      IdRangeConcat(next, d.2, sub.1);
      Shift(Ids(n), IdRange(next, d.2), IdRange(d.2, sub.1), IdRange(next, sub.1));
      (q, sub.1)
  }

  /** Replacing a child by one that has `dk` more keys and `di` more ids gives
      the node `dk` more keys and `di` more ids, and keeps it shaped. */
  lemma ReplaceChild(p: Node, j: nat, x: Node, dk: multiset<int>, di: multiset<nat>)
    requires AllShaped(p) && AllShaped(x) && j < |p.children|
    requires Keys(x) == Keys(p.children[j]) + dk && Ids(x) == Ids(p.children[j]) + di
    ensures var q := p.(children := p.children[j := x]);
      AllShaped(q) && Keys(q) == Keys(p) + dk && Ids(q) == Ids(p) + di
  {
    ReplaceChildKeys(p, j, x, dk);
    ReplaceChildIds(p, j, x, di);
    ReplaceChildShapely(p, j, x);
  }

  lemma ReplaceChildShapely(p: Node, j: nat, x: Node)
    requires AllShaped(p) && AllShaped(x) && j < |p.children|
    ensures AllShaped(p.(children := p.children[j := x]))
  {
  }

  // ---------------------------------------------------------------------
  // Insertion keeps the tree a valid B-tree.

  /** `key` may go below position `j` of `keys`: it is not below the separator
      on the left and not above the separator on the right. */
  predicate KeyFits(keys: seq<int>, j: nat, key: int)
  {
    (0 < j <= |keys| ==> keys[j - 1] <= key) && (j < |keys| ==> key <= keys[j])
  }

  /** The descent position found by the search fits the key. */
  lemma SearchIndexFits(keys: seq<int>, key: int)
    ensures KeyFits(keys, SearchIndex(keys, key), key)
  {
  }

  /** After splitting the full child at the search position, the child chosen
      for the descent is not full and the key fits there. */
  lemma SplitAndChooseWellFormed(n: Node, i: nat, key: int, t: nat, next: nat, h: nat, isRoot: bool, split: Node)
    requires WellFormed(n, t, h, isRoot) && AllShaped(n) && !n.isLeaf && |n.keys| < 2 * t - 1
    requires i <= |n.keys| && (0 < i ==> n.keys[i - 1] <= key) && (forall k | i <= k < |n.keys| :: key < n.keys[k])
    requires |n.children[i].keys| == 2 * t - 1
    requires split == SplitChild(n, i, t, next)
    ensures WellFormed(split, t, h, isRoot) && i + 1 < |split.children| && i < |split.keys|
    ensures var j := if key > split.keys[i] then i + 1 else i;
      |split.children[j].keys| < 2 * t - 1 && KeyFits(split.keys, j, key)
  {
    assert WellFormed(split, t, h, isRoot) by {
      SplitChildWellFormed(n, i, t, next, h, isRoot);
    }
    assert i + 1 < |split.children| && |split.children[i].keys| < 2 * t - 1 &&
      |split.children[i + 1].keys| < 2 * t - 1 by {
      SplitHalvesSizes(n, i, t, next);
    }
    assert i < |split.keys| && KeyFits(split.keys, if key > split.keys[i] then i + 1 else i, key) by {
      InsertAtElements(n.keys, i, n.children[i].keys[t - 1]);
      ChooseFits(n.keys, split.keys, i, split.keys[i], key);
    }
  }

  /** Both halves of a split child hold t-1 keys; the median sits at `index`. */
  lemma SplitHalvesSizes(parent: Node, index: nat, t: nat, newId: nat)
    requires index < |parent.children| && |parent.children[index].keys| == 2 * t - 1
    ensures var r := SplitChild(parent, index, t, newId);
      index + 1 < |r.children| &&
      |r.children[index].keys| == t - 1 && |r.children[index + 1].keys| == t - 1
  {
    var c := parent.children[index];
    var r := SplitChild(parent, index, t, newId);
    assert r.children[index] == LowerHalf(c, t);
    assert r.children[index + 1] == UpperHalf(c, t, newId);
  }

  /** Once the median `m` is in place at `i`, going right exactly when the key
      is greater than `m` picks a position the key fits. */
  lemma ChooseFits(keys: seq<int>, skeys: seq<int>, i: nat, m: int, key: int)
    requires i <= |keys| && skeys == InsertAt(keys, i, m)
    requires 0 < i ==> keys[i - 1] <= key
    requires forall k | i <= k < |keys| :: key < keys[k]
    ensures KeyFits(skeys, if key > m then i + 1 else i, key)
  {
    InsertAtElements(keys, i, m);
  }

  /** The descent step leaves a valid node whose chosen child is not full and
      can take the key. */
  lemma DescendWellFormed(n: Node, key: int, t: nat, next: nat, h: nat, isRoot: bool)
    requires WellFormed(n, t, h, isRoot) && !n.isLeaf && |n.keys| < 2 * t - 1
    ensures AllShaped(n)
    ensures var d := Descend(n, key, t, next);
      WellFormed(d.0, t, h, isRoot) && |d.0.children[d.1].keys| < 2 * t - 1 && KeyFits(d.0.keys, d.1, key)
  {
    WellFormedShapely(n, t, h, isRoot);
    var i := SearchIndex(n.keys, key);
    if |n.children[i].keys| == 2 * t - 1 {
      SplitAndChooseWellFormed(n, i, key, t, next, h, isRoot, SplitChild(n, i, t, next));
    } else {
      ChildWellFormed(n, i, t, h, isRoot);
    }
  }

  /** A lower bound that holds for a multiset and for `key` holds once `key` is added. */
  lemma AddAtLeast(m: multiset<int>, mk: multiset<int>, key: int, lo: int)
    requires mk == m + multiset{key} && AllAtLeast(m, lo) && lo <= key
    ensures AllAtLeast(mk, lo)
  {
  }

  /** An upper bound that holds for a multiset and for `key` holds once `key` is added. */
  lemma AddAtMost(m: multiset<int>, mk: multiset<int>, key: int, hi: int)
    requires mk == m + multiset{key} && AllAtMost(m, hi) && key <= hi
    ensures AllAtMost(mk, hi)
  {
  }

  /** Replacing a child by a valid subtree of the same depth whose keys respect
      the child's separators keeps the node valid. */
  lemma ReplaceChildWellFormed(p: Node, j: nat, x: Node, t: nat, h: nat, isRoot: bool)
    requires WellFormed(p, t, h, isRoot) && j < |p.children|
    requires h > 0 && WellFormed(x, t, h - 1, false)
    requires 0 < j <= |p.keys| ==> AllAtLeast(Keys(x), p.keys[j - 1])
    requires j < |p.keys| ==> AllAtMost(Keys(x), p.keys[j])
    ensures WellFormed(p.(children := p.children[j := x]), t, h, isRoot)
  {
    var q := p.(children := p.children[j := x]);
    forall k | 0 <= k < |q.children| ensures WellFormed(q.children[k], t, h - 1, false) && Separated(q, k) {
      if k != j {
        assert q.children[k] == p.children[k];
        assert Separated(p, k);
      }
    }
  }

  /** Insertion into a non-full valid subtree gives a valid subtree of the same
      depth: leaves stay at one depth, keys stay sorted and separated, and no
      node exceeds 2t-1 keys. */
  lemma {:induction false} InsertNonFullWellFormed(n: Node, key: int, t: nat, next: nat, h: nat, isRoot: bool)
    requires WellFormed(n, t, h, isRoot) && |n.keys| < 2 * t - 1
    ensures AllShaped(n) && WellFormed(InsertNonFull(n, key, t, next).0, t, h, isRoot)
    decreases Size(n)
  {
    WellFormedShapely(n, t, h, isRoot);
    if n.isLeaf {
      LeafInsertion(n.keys, key);
    } else {
      var h1: nat := h - 1;
      var c, nx := DescendChild(n, key, t, next, h, h1, isRoot);
      InsertNonFullWellFormed(c, key, t, nx, h1, false);
      InsertBelowWellFormed(n, key, t, next, h, h1, isRoot, c, nx, InsertNonFull(c, key, t, nx).0);
    }
  }

  /** The child the insertion descends into is a valid, non-full subtree one
      level down. */
  lemma DescendChild(n: Node, key: int, t: nat, next: nat, h: nat, h1: nat, isRoot: bool) returns (c: Node, nx: nat)
    requires WellFormed(n, t, h, isRoot) && AllShaped(n) && !n.isLeaf && |n.keys| < 2 * t - 1 && h1 == h - 1
    ensures var d := Descend(n, key, t, next); c == d.0.children[d.1] && nx == d.2
    ensures WellFormed(c, t, h1, false) && AllShaped(c) && |c.keys| < 2 * t - 1
    ensures Size(c) < Size(n)
  {
    var d := Descend(n, key, t, next);
    DescendWellFormed(n, key, t, next, h, isRoot);
    ChildWellFormed(d.0, d.1, t, h, isRoot);
    c, nx := d.0.children[d.1], d.2;
    DepthAbove(c, t, h, h1);
  }

  /** One level of the insertion below an internal node: if inserting into
      the chosen child gives a valid subtree, the node stays valid. */
  lemma InsertBelowWellFormed(n: Node, key: int, t: nat, next: nat, h: nat, h1: nat, isRoot: bool,
                              c: Node, nx: nat, sub: Node)
    requires WellFormed(n, t, h, isRoot) && AllShaped(n) && !n.isLeaf && |n.keys| < 2 * t - 1 && h1 == h - 1
    requires var d := Descend(n, key, t, next); c == d.0.children[d.1] && nx == d.2
    requires AllShaped(c) && sub == InsertNonFull(c, key, t, nx).0 && WellFormed(sub, t, h1, false)
    ensures WellFormed(InsertNonFull(n, key, t, next).0, t, h, isRoot)
  {
    var d := Descend(n, key, t, next);
    var j := d.1;
    DescendWellFormed(n, key, t, next, h, isRoot);
    ChildWellFormed(d.0, j, t, h, isRoot);
    if 0 < j <= |d.0.keys| {
      AddAtLeast(Keys(c), Keys(sub), key, d.0.keys[j - 1]);
    }
    if j < |d.0.keys| {
      AddAtMost(Keys(c), Keys(sub), key, d.0.keys[j]);
    }
    DepthBelow(sub, t, h, h1);
    ReplaceChildWellFormed(d.0, j, sub, t, h, isRoot);
  }

  /** A subtree one level below a node of depth `h` has depth `h1 = h - 1`. */
  lemma DepthAbove(x: Node, t: nat, h: nat, h1: nat)
    requires h1 == h - 1 && h > 0 && WellFormed(x, t, h - 1, false)
    ensures WellFormed(x, t, h1, false) && AllShaped(x)
  {
    WellFormedShapely(x, t, h1, false);
  }

  /** A subtree of depth `h1` sits one level below a node of depth `h1 + 1`. */
  lemma DepthBelow(x: Node, t: nat, h: nat, h1: nat)
    requires h1 == h - 1 && WellFormed(x, t, h1, false)
    ensures h > 0 && WellFormed(x, t, h - 1, false)
  {
  }

  // ---------------------------------------------------------------------
  // insert(key): split a full root first, then insert into the root.

  /** The root split keeps every node shaped, every key, and adds the ids `next`
      and `next + 1`. */
  lemma SplitRootContents(root: Node, t: nat, next: nat)
    requires AllShaped(root) && |root.keys| == 2 * t - 1
    ensures var r := SplitRoot(root, t, next);
      AllShaped(r) && Keys(r) == Keys(root) && Ids(r) == Ids(root) + IdRange(next, next + 2)
  {
    var g := GrownRoot(root, next);
    GrownRootContents(root, next);
    SplitChildContents(g, 0, t, next + 1);
    SplitChildShapely(g, 0, t, next + 1);
    TwoFresh(Ids(SplitRoot(root, t, next)), Ids(g), Ids(root), next);
  }

  lemma TwoFresh(a: multiset<nat>, b: multiset<nat>, c: multiset<nat>, next: nat)
    requires a == b + multiset{next + 1} && b == c + multiset{next}
    ensures a == c + IdRange(next, next + 2)
  {
    assert IdRange(next, next + 2) == multiset{next} + multiset{next + 1};
  }

  /** The root the insertion descends from: a full root is split first,
      using the ids `next` and `next + 1`; the second component is the next
      unused id. */
  function PrepareRoot(root: Node, t: nat, next: nat): (p: (Node, nat))
    requires AllShaped(root)
    ensures next <= p.1 && AllShaped(p.0)
    ensures Keys(p.0) == Keys(root) && Ids(p.0) == Ids(root) + IdRange(next, p.1)
  {
    if |root.keys| == 2 * t - 1 then
      SplitRootContents(root, t, next);
      (SplitRoot(root, t, next), next + 2)
    else
      (root, next)
  }

  /** Insert `key` into the tree rooted at `root` whose next unused id is
      `next`; the result is the new root and the next unused id. */
  function Insert(root: Node, key: int, t: nat, next: nat): (r: (Node, nat))
    requires AllShaped(root)
    ensures next <= r.1 && AllShaped(r.0)
    ensures Keys(r.0) == Keys(root) + multiset{key}
    ensures Ids(r.0) == Ids(root) + IdRange(next, r.1)
  {
    var p := PrepareRoot(root, t, next);
    var r := InsertNonFull(p.0, key, t, p.1);
    IdRangeConcat(next, p.1, r.1);
    Shift(Ids(root), IdRange(next, p.1), IdRange(p.1, r.1), IdRange(next, r.1));
    r
  }

  /** Insertion keeps a valid tree valid and grows it by one level exactly when
      the root was full. */
  lemma InsertValid(root: Node, key: int, t: nat, next: nat)
    requires t >= 2 && ValidTree(root, t)
    ensures AllShaped(root)
    ensures var r := Insert(root, key, t, next);
      ValidTree(r.0, t) &&
      Height(r.0) == Height(root) + (if |root.keys| == 2 * t - 1 then 1 else 0)
  {
    WellFormedShapely(root, t, Height(root), true);
    var p := PrepareRoot(root, t, next);
    if |root.keys| == 2 * t - 1 {
      RootSplitValid(root, t, next);
      InsertIntoRoot(p.0, key, t, p.1);
    } else {
      InsertIntoRoot(root, key, t, next);
    }
  }

  /** After the root split the tree is valid and one level taller, and its
      root, holding one key, is not full. */
  lemma RootSplitValid(root: Node, t: nat, next: nat)
    requires t >= 2 && ValidTree(root, t) && |root.keys| == 2 * t - 1
    ensures ValidTree(SplitRoot(root, t, next), t) && Height(SplitRoot(root, t, next)) == Height(root) + 1
    ensures |SplitRoot(root, t, next).keys| < 2 * t - 1
  {
    var h := Height(root);
    var s := SplitRoot(root, t, next);
    RootSplitNotFull(root, t, next);
    assert WellFormed(s, t, h + 1, true) by {
      RootSplit(root, t, next, h);
    }
    assert Height(s) == h + 1 by {
      SplitRootHeight(root, t, next);
    }
  }

  /** The split root holds one key, so for `t >= 2` it is not full. */
  lemma RootSplitNotFull(root: Node, t: nat, next: nat)
    requires t >= 2 && |root.keys| == 2 * t - 1
    ensures |SplitRoot(root, t, next).keys| == 1 < 2 * t - 1
  {
  }

  /** The lower half of a split node reaches as deep as the node did. */
  lemma SplitRootHeight(root: Node, t: nat, next: nat)
    requires Shaped(root) && t >= 1 && |root.keys| == 2 * t - 1
    ensures Height(SplitRoot(root, t, next)) == Height(root) + 1
  {
    var r := SplitRoot(root, t, next);
    assert r.children[0] == LowerHalf(root, t);
  }

  /** Insertion into a non-full root keeps the tree valid at the same height. */
  lemma InsertIntoRoot(n: Node, key: int, t: nat, next: nat)
    requires ValidTree(n, t) && |n.keys| < 2 * t - 1
    ensures AllShaped(n)
    ensures var r := InsertNonFull(n, key, t, next); ValidTree(r.0, t) && Height(r.0) == Height(n)
  {
    InsertNonFullWellFormed(n, key, t, next, Height(n), true);
    WellFormedShapely(InsertNonFull(n, key, t, next).0, t, Height(n), true);
  }

  /** Ids taken from a fresh range keep every id below the counter and keep ids
      unique. */
  lemma FreshIds(before: multiset<nat>, after: multiset<nat>, next: nat, last: nat)
    requires next <= last && after == before + IdRange(next, last)
    requires forall x | x in before :: x < next
    requires forall x | x in before :: before[x] == 1
    ensures forall x | x in after :: x < last
    ensures forall x | x in after :: after[x] == 1
  {
    forall x | x in after ensures x < last && after[x] == 1 {
      InIdRange(next, last, x);
    }
  }

  /** The whole insertion: a valid tree whose ids are unique and below the
      counter stays so, gains exactly one copy of `key`, and every id it gains
      is new. */
  lemma InsertCorrect(root: Node, key: int, t: nat, next: nat)
    requires t >= 2 && ValidTree(root, t) && IdsBelow(root, next) && IdsDistinct(root)
    ensures AllShaped(root)
    ensures var r := Insert(root, key, t, next);
      ValidTree(r.0, t) && IdsBelow(r.0, r.1) && IdsDistinct(r.0) && next <= r.1 &&
      Keys(r.0) == Keys(root) + multiset{key} &&
      (forall x | x in Ids(r.0) && x !in Ids(root) :: next <= x)
  {
    InsertValid(root, key, t, next);
    var r := Insert(root, key, t, next);
    FreshIds(Ids(root), Ids(r.0), next, r.1);
    forall x | x in Ids(r.0) && x !in Ids(root) ensures next <= x {
      InIdRange(next, r.1, x);
    }
  }
}
