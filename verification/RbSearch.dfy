/** Ordered search in the red-black tree of rbtree.c: predecessor-or-equal, first, last, next and previous. */
module RbSearch {
  import opened RbShape
  import opened RbTree

  /** A node whose key lies in the interval of `d` lies in that of the child on its side. */
  lemma StepInto(t: Tree, c: Paint, d: Ptr, q: Ptr)
    requires Sane(t, c) && d in t.nodes && q in t.nodes && In(t.lo[d], t.key[q], t.hi[d])
    ensures t.key[q] < t.key[d] ==> t.left[d] in t.nodes && In(t.lo[t.left[d]], t.key[q], t.hi[t.left[d]])
    ensures t.key[q] > t.key[d] ==> t.right[d] in t.nodes && In(t.lo[t.right[d]], t.key[q], t.hi[t.right[d]])
  {
    Located(t, c, d, q);
    if t.key[q] != t.key[d] {
      AboveSide(t, c, d, q);
      assert LinkOk(t, d);
    }
  }

  /** `r` is the last node before `k`; NULL means that there is none. */
  ghost predicate LastBefore(t: Tree, k: int, r: Ptr)
    requires Store(t)
  {
    && (r == NULL || (r in t.nodes && t.key[r] < k))
    && forall q :: q in t.nodes && t.key[q] < k ==> r != NULL && t.key[q] <= t.key[r]
  }

  ghost predicate FirstAfter(t: Tree, k: int, r: Ptr)
    requires Store(t)
  {
    && (r == NULL || (r in t.nodes && t.key[r] > k))
    && forall q :: q in t.nodes && t.key[q] > k ==> r != NULL && t.key[q] >= t.key[r]
  }

  /** All nodes that might still be better than `r` lie in the interval of `node`. */
  ghost predicate Candidates(t: Tree, k: int, r: Ptr, node: Ptr)
    requires Store(t) && (r == NULL || r in t.nodes)
  {
    forall q :: q in t.nodes && t.key[q] <= k && (r == NULL || t.key[q] > t.key[r]) ==>
      node in t.nodes && In(t.lo[node], t.key[q], t.hi[node])
  }

  lemma GoLeft(t: Tree, c: Paint, k: int, r: Ptr, node: Ptr)
    requires Sane(t, c) && (r == NULL || r in t.nodes) && node in t.nodes && Candidates(t, k, r, node)
             && k < t.key[node]
    ensures Candidates(t, k, r, t.left[node])
  {
    forall q | q in t.nodes && t.key[q] <= k && (r == NULL || t.key[q] > t.key[r])
      ensures t.left[node] in t.nodes && In(t.lo[t.left[node]], t.key[q], t.hi[t.left[node]])
    {
      StepInto(t, c, node, q);
    }
  }

  lemma GoRight(t: Tree, c: Paint, k: int, r: Ptr, node: Ptr)
    requires Sane(t, c) && (r == NULL || r in t.nodes) && node in t.nodes && Candidates(t, k, r, node)
             && k > t.key[node] && (r == NULL || t.key[r] < t.key[node])
    ensures Candidates(t, k, node, t.right[node])
  {
    forall q | q in t.nodes && t.key[q] <= k && t.key[q] > t.key[node]
      ensures t.right[node] in t.nodes && In(t.lo[t.right[node]], t.key[q], t.hi[t.right[node]])
    {
      StepInto(t, c, node, q);
    }
  }

  /** Down to the left as far as possible: the first node of the interval. */
  method Leftmost(tree: RbTree, from: Ptr) returns (node: Ptr)
    requires tree.Valid() && from in tree.nodes
    ensures node in tree.nodes && tree.left[node] == NULL && tree.lo[node] == tree.lo[from]
    ensures forall q :: q in tree.nodes && (tree.lo[from].At? ==> tree.key[q] > tree.lo[from].k) ==>
              tree.key[q] >= tree.key[node]
  {
    ghost var t, c := tree.View(), tree.Hue();
    node := from;
    while tree.left[node] != NULL
      invariant node in t.nodes && t.lo[node] == t.lo[from]
      decreases Rank(t, c, node)
    {
      Down(t, c, node, tree.left[node]);
      node := tree.left[node];
    }
    assert LinkOk(t, node);
    forall q | q in t.nodes && (t.lo[from].At? ==> t.key[q] > t.lo[from].k) ensures t.key[q] >= t.key[node] {
      if t.key[q] < t.key[node] { NothingLeft(t, c, node, q); }
    }
  }

  method Rightmost(tree: RbTree, from: Ptr) returns (node: Ptr)
    requires tree.Valid() && from in tree.nodes
    ensures node in tree.nodes && tree.right[node] == NULL && tree.hi[node] == tree.hi[from]
    ensures forall q :: q in tree.nodes && (tree.hi[from].At? ==> tree.key[q] < tree.hi[from].k) ==>
              tree.key[q] <= tree.key[node]
  {
    ghost var t, c := tree.View(), tree.Hue();
    node := from;
    while tree.right[node] != NULL
      invariant node in t.nodes && t.hi[node] == t.hi[from]
      decreases Rank(t, c, node)
    {
      Down(t, c, node, tree.right[node]);
      node := tree.right[node];
    }
    assert LinkOk(t, node);
    forall q | q in t.nodes && (t.hi[from].At? ==> t.key[q] < t.hi[from].k) ensures t.key[q] <= t.key[node] {
      if t.key[q] > t.key[node] { NothingRight(t, c, node, q); }
    }
  }

  /** rbtree_first: the sentinel for the empty tree. */
  method First(tree: RbTree) returns (node: Ptr)
    requires tree.Valid()
    ensures node == NULL <==> tree.nodes == {}
    ensures node != NULL ==> node in tree.nodes && forall q :: q in tree.nodes ==> tree.key[node] <= tree.key[q]
  {
    node := tree.root;
    if node == NULL { return; }
    assert LinkOk(tree.View(), node);
    node := Leftmost(tree, node);
  }

  /** rbtree_last */
  method Last(tree: RbTree) returns (node: Ptr)
    requires tree.Valid()
    ensures node == NULL <==> tree.nodes == {}
    ensures node != NULL ==> node in tree.nodes && forall q :: q in tree.nodes ==> tree.key[q] <= tree.key[node]
  {
    node := tree.root;
    if node == NULL { return; }
    assert LinkOk(tree.View(), node);
    node := Rightmost(tree, node);
  }

  /** rbtree_next */
  method Next(tree: RbTree, start: Ptr) returns (node: Ptr)
    requires tree.Valid() && start in tree.nodes
    ensures FirstAfter(tree.View(), tree.key[start], node)
  {
    ghost var t, c := tree.View(), tree.Hue();
    node := start;
    assert LinkOk(t, node);
    if tree.right[node] != NULL {
      node := Leftmost(tree, tree.right[node]);
      assert LinkOk(t, node);
    } else {
      var parent := tree.parent[node];
      while parent != NULL && node == tree.right[parent]
        invariant node in t.nodes && parent == t.parent[node] && t.hi[node] == t.hi[start]
        invariant parent != NULL ==> parent in t.nodes
        decreases |Higher(t, c, node)|
      {
        assert LinkOk(t, node) && LinkOk(t, parent);
        HigherUp(t, c, node);
        node := parent;
        parent := tree.parent[parent];
        assert LinkOk(t, node);
      }
      assert LinkOk(t, node);
      if parent != NULL { assert LinkOk(t, parent); }
      forall q | q in t.nodes && t.key[q] > t.key[start] ensures parent != NULL && t.key[q] >= t.key[parent] {
        if In(t.lo[start], t.key[q], t.hi[start]) { NothingRight(t, c, start, q); }
      }
      node := parent;
    }
  }

  /** rbtree_previous */
  method Previous(tree: RbTree, start: Ptr) returns (node: Ptr)
    requires tree.Valid() && start in tree.nodes
    ensures LastBefore(tree.View(), tree.key[start], node)
  {
    ghost var t, c := tree.View(), tree.Hue();
    node := start;
    assert LinkOk(t, node);
    if tree.left[node] != NULL {
      node := Rightmost(tree, tree.left[node]);
      assert LinkOk(t, node);
    } else {
      var parent := tree.parent[node];
      while parent != NULL && node == tree.left[parent]
        invariant node in t.nodes && parent == t.parent[node] && t.lo[node] == t.lo[start]
        invariant parent != NULL ==> parent in t.nodes
        decreases |Higher(t, c, node)|
      {
        assert LinkOk(t, node) && LinkOk(t, parent);
        HigherUp(t, c, node);
        node := parent;
        parent := tree.parent[parent];
        assert LinkOk(t, node);
      }
      assert LinkOk(t, node);
      if parent != NULL { assert LinkOk(t, parent); }
      forall q | q in t.nodes && t.key[q] < t.key[start] ensures parent != NULL && t.key[q] <= t.key[parent] {
        if In(t.lo[start], t.key[q], t.hi[start]) { NothingLeft(t, c, start, q); }
      }
      node := parent;
    }
  }
}
