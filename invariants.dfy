// What a subtree holds (its keys, its node ids, its size) and the B-tree
// invariants of a tree of minimum degree t.

module Invariants {
  import opened Interfaces

  /** All keys stored in the subtree rooted at `n`, with their multiplicities. */
  function Keys(n: Node): multiset<int>
    decreases n
  {
    multiset(n.keys) + KeysOf(n.children)
  }

  function KeysOf(cs: seq<Node>): multiset<int>
    decreases cs
  {
    if cs == [] then multiset{} else KeysOf(cs[..|cs| - 1]) + Keys(cs[|cs| - 1])
  }

  /** The node ids used in the subtree rooted at `n`, with their multiplicities. */
  function Ids(n: Node): multiset<nat>
    decreases n
  {
    multiset{n.id} + IdsOf(n.children)
  }

  function IdsOf(cs: seq<Node>): multiset<nat>
    decreases cs
  {
    if cs == [] then multiset{} else IdsOf(cs[..|cs| - 1]) + Ids(cs[|cs| - 1])
  }

  /** The number of nodes in the subtree rooted at `n`. */
  function Size(n: Node): nat
    decreases n
  {
    1 + SizeOf(n.children)
  }

  function SizeOf(cs: seq<Node>): nat
    decreases cs
  {
    if cs == [] then 0 else SizeOf(cs[..|cs| - 1]) + Size(cs[|cs| - 1])
  }

  /** The length of the leftmost path from `n` down to a leaf. */
  function Height(n: Node): nat
    decreases n
  {
    if n.children == [] then 0 else 1 + Height(n.children[0])
  }

  predicate Sorted(s: seq<int>)
  {
    forall i, j | 0 <= i < j < |s| :: s[i] <= s[j]
  }

  ghost predicate AllAtLeast(m: multiset<int>, lo: int)
  {
    forall x | x in m :: lo <= x
  }

  ghost predicate AllAtMost(m: multiset<int>, hi: int)
  {
    forall x | x in m :: x <= hi
  }

  /** A leaf has no children; an internal node has one child more than it has keys. */
  predicate Shaped(n: Node)
  {
    if n.isLeaf then n.children == [] else |n.children| == |n.keys| + 1
  }

  /** Every node of the subtree rooted at `n` is shaped. */
  predicate AllShaped(n: Node)
    decreases n
  {
    Shaped(n) && forall i | 0 <= i < |n.children| :: AllShaped(n.children[i])
  }

  /** The keys of child `i` lie between the separators `keys[i-1]` and `keys[i]`
      (bounds included, since duplicate keys are accepted; open at the ends). */
  ghost predicate Separated(n: Node, i: nat)
    requires i < |n.children|
  {
    (0 < i <= |n.keys| ==> AllAtLeast(Keys(n.children[i]), n.keys[i - 1])) &&
    (i < |n.keys| ==> AllAtMost(Keys(n.children[i]), n.keys[i]))
  }

  /** The subtree rooted at `n` satisfies the B-tree invariants for minimum
      degree `t`, and every one of its leaves lies at depth `h` below `n`.
      A non-root node holds at least t-1 keys, every node at most 2t-1. */
  ghost predicate WellFormed(n: Node, t: nat, h: nat, isRoot: bool)
    decreases n, 1
  {
    Shaped(n) && Sorted(n.keys) &&
    |n.keys| <= 2 * t - 1 &&
    (!isRoot ==> t - 1 <= |n.keys|) &&
    (n.isLeaf <==> h == 0) &&
    ChildrenWellFormed(n, t, h)
  }

  ghost predicate ChildrenWellFormed(n: Node, t: nat, h: nat)
    decreases n, 0
  {
    forall i | 0 <= i < |n.children| ::
      h > 0 && WellFormed(n.children[i], t, h - 1, false) && Separated(n, i)
  }

  /** A whole tree of minimum degree `t` rooted at `root`. */
  ghost predicate ValidTree(root: Node, t: nat)
  {
    WellFormed(root, t, Height(root), true)
  }

  /** Every node id of the subtree is below `bound`. */
  ghost predicate IdsBelow(n: Node, bound: nat)
  {
    forall x | x in Ids(n) :: x < bound
  }

  /** No node id occurs twice in the subtree. */
  ghost predicate IdsDistinct(n: Node)
  {
    forall x | x in Ids(n) :: Ids(n)[x] == 1
  }

  // ---------------------------------------------------------------------
  // Facts about the functions above.

  lemma {:induction false} KeysOfConcat(a: seq<Node>, b: seq<Node>)
    ensures KeysOf(a + b) == KeysOf(a) + KeysOf(b)
    decreases |b|
  {
    if b == [] {
      assert a + b == a;
    } else {
      assert (a + b)[..|a + b| - 1] == a + b[..|b| - 1];
      KeysOfConcat(a, b[..|b| - 1]);
    }
  }

  lemma {:induction false} IdsOfConcat(a: seq<Node>, b: seq<Node>)
    ensures IdsOf(a + b) == IdsOf(a) + IdsOf(b)
    decreases |b|
  {
    if b == [] {
      assert a + b == a;
    } else {
      assert (a + b)[..|a + b| - 1] == a + b[..|b| - 1];
      IdsOfConcat(a, b[..|b| - 1]);
    }
  }

  lemma {:induction false} SizeOfConcat(a: seq<Node>, b: seq<Node>)
    ensures SizeOf(a + b) == SizeOf(a) + SizeOf(b)
    decreases |b|
  {
    if b == [] {
      assert a + b == a;
    } else {
      assert (a + b)[..|a + b| - 1] == a + b[..|b| - 1];
      SizeOfConcat(a, b[..|b| - 1]);
    }
  }

  lemma KeysOfSingle(c: Node)
    ensures KeysOf([c]) == Keys(c) && IdsOf([c]) == Ids(c) && SizeOf([c]) == Size(c)
  {
    assert [c][..0] == [];
  }

  /** The children's contents split around a middle part. */
  lemma ContentsAround(pre: seq<Node>, mid: seq<Node>, post: seq<Node>)
    ensures KeysOf(pre + mid + post) == KeysOf(pre) + KeysOf(mid) + KeysOf(post)
    ensures IdsOf(pre + mid + post) == IdsOf(pre) + IdsOf(mid) + IdsOf(post)
    ensures SizeOf(pre + mid + post) == SizeOf(pre) + SizeOf(mid) + SizeOf(post)
  {
    KeysOfConcat(pre + mid, post);
    KeysOfConcat(pre, mid);
    IdsOfConcat(pre + mid, post);
    IdsOfConcat(pre, mid);
    SizeOfConcat(pre + mid, post);
    SizeOfConcat(pre, mid);
  }

  lemma ContentsPair(a: Node, b: Node)
    ensures KeysOf([a, b]) == Keys(a) + Keys(b) && IdsOf([a, b]) == Ids(a) + Ids(b)
  {
    assert [a, b] == [a] + [b];
    KeysOfConcat([a], [b]);
    IdsOfConcat([a], [b]);
    KeysOfSingle(a);
    KeysOfSingle(b);
  }

  /** Replacing one child changes the keys, ids and size of the children by
      exactly what the replacement brings in and what it takes away. */
  lemma ChildrenUpdate(cs: seq<Node>, j: nat, x: Node)
    requires j < |cs|
    ensures KeysOf(cs[j := x]) + Keys(cs[j]) == KeysOf(cs) + Keys(x)
    ensures IdsOf(cs[j := x]) + Ids(cs[j]) == IdsOf(cs) + Ids(x)
    ensures SizeOf(cs[j := x]) + Size(cs[j]) == SizeOf(cs) + Size(x)
  {
    var pre, post := cs[..j], cs[j + 1..];
    assert cs == pre + [cs[j]] + post;
    assert cs[j := x] == pre + [x] + post;
    ContentsAround(pre, [cs[j]], post);
    ContentsAround(pre, [x], post);
    KeysOfSingle(cs[j]);
    KeysOfSingle(x);
    SwapIn(KeysOf(pre), Keys(cs[j]), Keys(x), KeysOf(post));
    SwapIn(IdsOf(pre), Ids(cs[j]), Ids(x), IdsOf(post));
  }

  lemma SwapIn<T>(a: multiset<T>, c: multiset<T>, x: multiset<T>, p: multiset<T>)
    ensures (a + x + p) + c == (a + c + p) + x
  {
  }

  /** A key lies in the children's keys exactly when it lies in some child's keys. */
  lemma {:induction false} InKeysOf(cs: seq<Node>, y: int)
    ensures y in KeysOf(cs) <==> exists k | 0 <= k < |cs| :: y in Keys(cs[k])
    decreases |cs|
  {
    if cs != [] {
      var init := cs[..|cs| - 1];
      InKeysOf(init, y);
      if y in KeysOf(init) {
        var k :| 0 <= k < |init| && y in Keys(init[k]);
        assert cs[k] == init[k];
      }
      if exists k | 0 <= k < |cs| :: y in Keys(cs[k]) {
        var k :| 0 <= k < |cs| && y in Keys(cs[k]);
        if k < |cs| - 1 {
          assert init[k] == cs[k];
        }
      }
    }
  }

  lemma KeysOfAtMost(cs: seq<Node>, hi: int)
    requires forall k | 0 <= k < |cs| :: AllAtMost(Keys(cs[k]), hi)
    ensures AllAtMost(KeysOf(cs), hi)
  {
    forall y | y in KeysOf(cs) ensures y <= hi {
      InKeysOf(cs, y);
    }
  }

  lemma KeysOfAtLeast(cs: seq<Node>, lo: int)
    requires forall k | 0 <= k < |cs| :: AllAtLeast(Keys(cs[k]), lo)
    ensures AllAtLeast(KeysOf(cs), lo)
  {
    forall y | y in KeysOf(cs) ensures lo <= y {
      InKeysOf(cs, y);
    }
  }

  /** Every child is strictly smaller than its parent. */
  lemma {:induction false} ChildSmaller(cs: seq<Node>, k: nat)
    requires k < |cs|
    ensures Size(cs[k]) <= SizeOf(cs)
    decreases |cs|
  {
    var init := cs[..|cs| - 1];
    if k < |cs| - 1 {
      ChildSmaller(init, k);
      assert init[k] == cs[k];
    }
  }

  /** Each child of a well-formed node is a well-formed non-root node one level
      lower, and its keys lie between the node's separators. */
  lemma ChildWellFormed(n: Node, i: nat, t: nat, h: nat, isRoot: bool)
    requires WellFormed(n, t, h, isRoot) && i < |n.children|
    ensures h > 0 && WellFormed(n.children[i], t, h - 1, false) && Separated(n, i)
    ensures 0 < i <= |n.keys| ==> AllAtLeast(Keys(n.children[i]), n.keys[i - 1])
    ensures i < |n.keys| ==> AllAtMost(Keys(n.children[i]), n.keys[i])
  {
  }

  /** A well-formed subtree is shaped throughout and its depth is its height. */
  lemma {:induction false} WellFormedShapely(n: Node, t: nat, h: nat, isRoot: bool)
    requires WellFormed(n, t, h, isRoot)
    ensures AllShaped(n) && h == Height(n)
    decreases n
  {
    forall i | 0 <= i < |n.children| ensures AllShaped(n.children[i]) && h - 1 == Height(n.children[i]) {
      WellFormedShapely(n.children[i], t, h - 1, false);
    }
  }

  /** Replacing child `j` by a node with `dk` more keys gives the parent `dk`
      more keys. */
  lemma ReplaceChildKeys(p: Node, j: nat, x: Node, dk: multiset<int>)
    requires j < |p.children| && Keys(x) == Keys(p.children[j]) + dk
    ensures Keys(p.(children := p.children[j := x])) == Keys(p) + dk
  {
    ChildrenUpdate(p.children, j, x);
    Cancel(KeysOf(p.children[j := x]), KeysOf(p.children), Keys(p.children[j]), dk);
  }

  /** Replacing child `j` by a node with `di` more ids gives the parent `di`
      more ids. */
  lemma ReplaceChildIds(p: Node, j: nat, x: Node, di: multiset<nat>)
    requires j < |p.children| && Ids(x) == Ids(p.children[j]) + di
    ensures Ids(p.(children := p.children[j := x])) == Ids(p) + di
  {
    ChildrenUpdate(p.children, j, x);
    Cancel(IdsOf(p.children[j := x]), IdsOf(p.children), Ids(p.children[j]), di);
  }

  /** Cancellation of a common part on both sides of a multiset equation. */
  lemma Cancel<T>(a: multiset<T>, b: multiset<T>, c: multiset<T>, d: multiset<T>)
    requires a + c == b + (c + d)
    ensures a == b + d
  {
    forall y ensures a[y] == (b + d)[y] {
      assert (a + c)[y] == (b + (c + d))[y];
    }
  }
}
