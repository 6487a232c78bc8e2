// Addressing a node of a tree by the child indexes leading to it from the root.
// The engine mutates nodes it reaches by descending from the root; since the
// tree is never shared, changing a node in place is the same as rebuilding
// the tree with that one node replaced.

module NodePaths {
  import opened Interfaces
  import opened Invariants
  import opened BTreeSpec

  /** The empty path addresses the root itself. */
  lemma EmptyPath(r: Node)
    ensures PathOk(r, []) && NodeAt(r, []) == r
    ensures forall x :: ReplaceAt(r, [], x) == x
  {
  }

  /** Every index of `p` selects an existing child on the way down. */
  predicate PathOk(r: Node, p: seq<nat>)
    decreases |p|
  {
    p == [] || (p[0] < |r.children| && PathOk(r.children[p[0]], p[1..]))
  }

  /** The node reached from `r` along `p`. */
  function NodeAt(r: Node, p: seq<nat>): (n: Node)
    requires PathOk(r, p)
    decreases |p|
  {
    if p == [] then r else NodeAt(r.children[p[0]], p[1..])
  }

  /** The tree `r` with the node at `p` replaced by `x`. */
  function ReplaceAt(r: Node, p: seq<nat>, x: Node): (q: Node)
    requires PathOk(r, p)
    ensures p != [] ==> q.keys == r.keys && q.id == r.id && q.isLeaf == r.isLeaf
    ensures p != [] ==> |q.children| == |r.children|
    decreases |p|
  {
    if p == [] then x
    else r.(children := r.children[p[0] := ReplaceAt(r.children[p[0]], p[1..], x)])
  }

  /** `key` fits below every node on the path: at each step the index taken
      lies between separators that bound the key. */
  predicate KeyFitsPath(r: Node, p: seq<nat>, key: int)
    requires PathOk(r, p)
    decreases |p|
  {
    p == [] || (KeyFits(r.keys, p[0], key) && KeyFitsPath(r.children[p[0]], p[1..], key))
  }

  lemma {:induction false} PathExtend(r: Node, p: seq<nat>, i: nat)
    requires PathOk(r, p) && i < |NodeAt(r, p).children|
    ensures PathOk(r, p + [i]) && NodeAt(r, p + [i]) == NodeAt(r, p).children[i]
    decreases |p|
  {
    if p != [] {
      assert (p + [i])[1..] == p[1..] + [i];
      PathExtend(r.children[p[0]], p[1..], i);
    }
  }

  /** The replacement is found where it was put. */
  lemma {:induction false} ReplaceAtNodeAt(r: Node, p: seq<nat>, x: Node)
    requires PathOk(r, p)
    ensures PathOk(ReplaceAt(r, p, x), p) && NodeAt(ReplaceAt(r, p, x), p) == x
    decreases |p|
  {
    if p != [] {
      ReplaceAtNodeAt(r.children[p[0]], p[1..], x);
    }
  }

  /** Putting back the node that is already there changes nothing. */
  lemma {:induction false} ReplaceAtSelf(r: Node, p: seq<nat>)
    requires PathOk(r, p)
    ensures ReplaceAt(r, p, NodeAt(r, p)) == r
    decreases |p|
  {
    if p != [] {
      ReplaceAtSelf(r.children[p[0]], p[1..]);
    }
  }

  /** Replacing a child of the node just put at `p` is the same as putting
      there the node with that child replaced. */
  lemma {:induction false} ReplaceAtChild(r: Node, p: seq<nat>, x: Node, i: nat, y: Node)
    requires PathOk(r, p) && i < |x.children|
    ensures PathOk(ReplaceAt(r, p, x), p + [i])
    ensures ReplaceAt(ReplaceAt(r, p, x), p + [i], y) == ReplaceAt(r, p, x.(children := x.children[i := y]))
    decreases |p|
  {
    ReplaceAtNodeAt(r, p, x);
    PathExtend(ReplaceAt(r, p, x), p, i);
    if p != [] {
      assert (p + [i])[1..] == p[1..] + [i];
      ReplaceAtChild(r.children[p[0]], p[1..], x, i, y);
    }
  }

  /** The tree gains exactly the keys the replacement adds to the replaced node. */
  lemma {:induction false} ReplaceAtKeys(r: Node, p: seq<nat>, x: Node, dk: multiset<int>)
    requires PathOk(r, p) && Keys(x) == Keys(NodeAt(r, p)) + dk
    ensures Keys(ReplaceAt(r, p, x)) == Keys(r) + dk
    decreases |p|
  {
    if p != [] {
      var c := r.children[p[0]];
      ReplaceAtKeys(c, p[1..], x, dk);
      ReplaceChildKeys(r, p[0], ReplaceAt(c, p[1..], x), dk);
    }
  }

  /** The tree gains exactly the ids the replacement adds to the replaced node. */
  lemma {:induction false} ReplaceAtIds(r: Node, p: seq<nat>, x: Node, di: multiset<nat>)
    requires PathOk(r, p) && Ids(x) == Ids(NodeAt(r, p)) + di
    ensures Ids(ReplaceAt(r, p, x)) == Ids(r) + di
    decreases |p|
  {
    if p != [] {
      var c := r.children[p[0]];
      ReplaceAtIds(c, p[1..], x, di);
      ReplaceChildIds(r, p[0], ReplaceAt(c, p[1..], x), di);
    }
  }

  /** Replacing a node keeps the separators above it, so the key still fits. */
  lemma {:induction false} KeyFitsReplace(r: Node, p: seq<nat>, x: Node, key: int)
    requires PathOk(r, p) && KeyFitsPath(r, p, key)
    ensures PathOk(ReplaceAt(r, p, x), p) && KeyFitsPath(ReplaceAt(r, p, x), p, key)
    decreases |p|
  {
    ReplaceAtNodeAt(r, p, x);
    if p != [] {
      KeyFitsReplace(r.children[p[0]], p[1..], x, key);
    }
  }

  /** Going one level further, to a child where the key fits, keeps it fitting. */
  lemma {:induction false} KeyFitsExtend(r: Node, p: seq<nat>, i: nat, key: int)
    requires PathOk(r, p) && KeyFitsPath(r, p, key)
    requires i < |NodeAt(r, p).children| && KeyFits(NodeAt(r, p).keys, i, key)
    ensures PathOk(r, p + [i]) && KeyFitsPath(r, p + [i], key)
    decreases |p|
  {
    PathExtend(r, p, i);
    if p != [] {
      assert (p + [i])[1..] == p[1..] + [i];
      KeyFitsExtend(r.children[p[0]], p[1..], i, key);
    }
  }

  /** A node at depth `|p|` of a valid subtree is valid, with its leaves
      `h - |p|` levels below it; only the node at the empty path is the root. */
  lemma {:induction false} NodeAtWellFormed(r: Node, p: seq<nat>, t: nat, h: nat, isRoot: bool)
    requires WellFormed(r, t, h, isRoot) && PathOk(r, p)
    ensures |p| <= h && WellFormed(NodeAt(r, p), t, h - |p|, isRoot && p == [])
    ensures AllShaped(NodeAt(r, p))
    decreases |p|
  {
    if p != [] {
      var c := r.children[p[0]];
      ChildWellFormed(r, p[0], t, h, isRoot);
      NodeAtWellFormed(c, p[1..], t, h - 1, false);
      assert NodeAt(r, p) == NodeAt(c, p[1..]) && h - |p| == h - 1 - |p[1..]|;
    } else {
      WellFormedShapely(r, t, h, isRoot);
    }
  }

  /** The same from the root of a whole tree: a node at depth `|p|` is valid
      with its leaves `Height(r) - |p|` levels below it, and shaped. */
  lemma NodeAtValid(r: Node, p: seq<nat>, t: nat)
    requires ValidTree(r, t) && PathOk(r, p)
    ensures |p| <= Height(r) && WellFormed(NodeAt(r, p), t, Height(r) - |p|, p == [])
    ensures AllShaped(NodeAt(r, p))
  {
    NodeAtWellFormed(r, p, t, Height(r), true);
  }

  /** Replacing a node by a valid one of the same depth keeps the tree valid,
      when the replacement holds the same keys, or one more key that fits
      along the path. */
  lemma {:induction false} ReplaceWellFormed(r: Node, p: seq<nat>, x: Node, t: nat, h: nat, isRoot: bool,
                                             key: int, grow: bool)
    requires WellFormed(r, t, h, isRoot) && PathOk(r, p) && |p| <= h
    requires WellFormed(x, t, h - |p|, isRoot && p == [])
    requires Keys(x) == Keys(NodeAt(r, p)) + (if grow then multiset{key} else multiset{})
    requires grow ==> KeyFitsPath(r, p, key)
    ensures WellFormed(ReplaceAt(r, p, x), t, h, isRoot)
    decreases |p|
  {
    if p != [] {
      var j := p[0];
      var c := r.children[j];
      var dk: multiset<int> := if grow then multiset{key} else multiset{};
      ChildWellFormed(r, j, t, h, isRoot);
      ReplaceWellFormed(c, p[1..], x, t, h - 1, false, key, grow);
      var c' := ReplaceAt(c, p[1..], x);
      ReplaceAtKeys(c, p[1..], x, dk);
      GrowWithin(r, j, c, c', key, grow);
      ReplaceChildWellFormed(r, j, c', t, h, isRoot);
    }
  }

  lemma GrowWithin(r: Node, j: nat, c: Node, c': Node, key: int, grow: bool)
    requires j < |r.children| && Separated(r, j) && c == r.children[j]
    requires Keys(c') == Keys(c) + (if grow then multiset{key} else multiset{})
    requires grow ==> KeyFits(r.keys, j, key)
    ensures 0 < j <= |r.keys| ==> AllAtLeast(Keys(c'), r.keys[j - 1])
    ensures j < |r.keys| ==> AllAtMost(Keys(c'), r.keys[j])
  {
  }

  /** The same at the level of whole trees: the tree stays valid and keeps
      its height. */
  lemma ReplaceKeepsValid(r: Node, p: seq<nat>, x: Node, t: nat, key: int, grow: bool)
    requires ValidTree(r, t) && PathOk(r, p) && |p| <= Height(r)
    requires WellFormed(x, t, Height(r) - |p|, p == [])
    requires Keys(x) == Keys(NodeAt(r, p)) + (if grow then multiset{key} else multiset{})
    requires grow ==> KeyFitsPath(r, p, key)
    ensures ValidTree(ReplaceAt(r, p, x), t) && Height(ReplaceAt(r, p, x)) == Height(r)
  {
    ReplaceWellFormed(r, p, x, t, Height(r), true, key, grow);
    WellFormedShapely(ReplaceAt(r, p, x), t, Height(r), true);
  }
}
