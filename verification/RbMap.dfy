/** The red-black tree of rbtree.c with its keys: what rbtree_insert, rbtree_delete and rbtree_find_less_equal do under
    the comparison function that rbtree_create is given. */
module RbMap {
  import opened RbShape
  import opened RbTree
  import opened RbEdit
  import opened RbSearch
  import RbDelete
  import RbKeys

  /** The nodes stand in the tree where their keys stand in the order of all keys. */
  ghost predicate Keyed<K(!new)>(t: Tree, keys: map<Ptr, K>, all: set<K>, cmp: (K, K) -> int)
    requires Store(t)
  {
    && RbKeys.Comparison(all, cmp)
    && forall p {:trigger t.key[p]} :: p in t.nodes ==>
         p in keys && keys[p] in all && t.key[p] == RbKeys.Rank(all, cmp, keys[p])
  }

  /** A key and that of a node compare as their places do. */
  lemma Compared<K(!new)>(t: Tree, keys: map<Ptr, K>, all: set<K>, cmp: (K, K) -> int, k: K, p: Ptr)
    requires Store(t) && Keyed(t, keys, all, cmp) && k in all && p in t.nodes
    ensures cmp(k, keys[p]) < 0 <==> RbKeys.Rank(all, cmp, k) < t.key[p]
    ensures cmp(k, keys[p]) == 0 <==> RbKeys.Rank(all, cmp, k) == t.key[p]
    ensures cmp(keys[p], k) < 0 <==> t.key[p] < RbKeys.Rank(all, cmp, k)
    ensures cmp(keys[p], k) == 0 <==> t.key[p] == RbKeys.Rank(all, cmp, k)
  {
    RbKeys.Ranked(all, cmp, k, keys[p]);
    RbKeys.Ranked(all, cmp, keys[p], k);
  }

  /** The keys of two nodes compare as their places do. */
  lemma NodesCompared<K(!new)>(t: Tree, keys: map<Ptr, K>, all: set<K>, cmp: (K, K) -> int, p: Ptr, q: Ptr)
    requires Store(t) && Keyed(t, keys, all, cmp) && p in t.nodes && q in t.nodes
    ensures cmp(keys[p], keys[q]) < 0 <==> t.key[p] < t.key[q]
    ensures cmp(keys[p], keys[q]) == 0 <==> t.key[p] == t.key[q]
  {
    assert t.key[p] == RbKeys.Rank(all, cmp, keys[p]);
    Compared(t, keys, all, cmp, keys[p], q);
  }

  /** A node more with its key. */
  lemma KeyedMore<K(!new)>(t: Tree, t': Tree, keys: map<Ptr, K>, all: set<K>, cmp: (K, K) -> int, data: Ptr, k: K)
    requires Store(t) && Store(t') && Keyed(t, keys, all, cmp) && k in all && data !in t.nodes
    requires t'.nodes == t.nodes + {data} && t'.key == t.key[data := RbKeys.Rank(all, cmp, k)]
    ensures Keyed(t', keys[data := k], all, cmp)
  {
    assert forall p :: p in t.nodes ==> t'.key[p] == t.key[p];
  }

  class RbMap<K(==,!new)> {
    const tree: RbTree
    const cmp: (K, K) -> int
    /** The key pointers of the nodes. */
    var keys: map<Ptr, K>
    /** All keys that are used. */
    ghost const all: set<K>

    ghost predicate Valid()
      reads this, tree
    {
      tree.Valid() && Keyed(tree.View(), keys, all, cmp)
    }

    /** The node has a key that compares equal. */
    ghost predicate Has(nodes: set<Ptr>, k: K)
      reads this`keys
    {
      exists p :: p in nodes && p in keys && cmp(k, keys[p]) == 0
    }

    /** rbtree_create */
    constructor (cmp: (K, K) -> int, ghost all: set<K>)
      requires RbKeys.Comparison(all, cmp)
      ensures Valid() && fresh(tree) && tree.nodes == {} && this.cmp == cmp && this.all == all
    {
      tree := new RbTree();
      this.cmp, this.all, keys := cmp, all, map[];
    }

    /** A key of the tree that compares equal to `k` stands at its place. */
    lemma HasIsHasKey(k: K)
      requires Valid() && k in all
      ensures Has(tree.nodes, k) <==> HasKey(tree.View(), RbKeys.Rank(all, cmp, k))
    {
      var t := tree.View();
      forall p | p in t.nodes
        ensures p in keys && (cmp(k, keys[p]) == 0 <==> t.key[p] == RbKeys.Rank(all, cmp, k))
      {
        assert t.key[p] == RbKeys.Rank(all, cmp, keys[p]);
        Compared(t, keys, all, cmp, k, p);
      }
    }

    /** rbtree_insert: false for a key that is there already, and then nothing changes. */
    method Insert(data: Ptr, k: K) returns (ok: bool)
      requires Valid() && k in all && data !in tree.nodes && data != NULL
      modifies this`keys, tree
      ensures Valid()
      ensures ok <==> !old(Has(tree.nodes, k))
      ensures !ok ==> tree.View() == old(tree.View()) && tree.Hue() == old(tree.Hue()) && keys == old(keys)
      ensures ok ==> tree.nodes == old(tree.nodes) + {data} && keys == old(keys)[data := k]
    {
      HasIsHasKey(k);
      var found, up, toLeft := FindPlace(k);
      if found { return false; }
      ghost var t := tree.View();
      tree.AddNode(data, RbKeys.Rank(all, cmp, k), up, toLeft);
      KeyedMore(t, tree.View(), keys, all, cmp, data, k);
      Put(data, k);
      ok := true;
    }

    method Put(data: Ptr, k: K)
      modifies this`keys
      ensures keys == old(keys)[data := k] && unchanged(tree)
    {
      keys := keys[data := k];
    }

    /** The loop of rbtree_insert. */
    method FindPlace(k: K) returns (found: bool, up: Ptr, toLeft: bool)
      requires Valid() && k in all
      ensures found <==> HasKey(tree.View(), RbKeys.Rank(all, cmp, k))
      ensures !found ==> FreePlace(tree.View(), up, toLeft, RbKeys.Rank(all, cmp, k))
    {
      ghost var t, c, at := tree.View(), tree.Hue(), RbKeys.Rank(all, cmp, k);
      var node := tree.root;
      up, toLeft := NULL, false;
      if node != NULL { assert LinkOk(t, node); }
      while node != NULL
        invariant OnWay(t, at, up, toLeft, node)
        decreases if node == NULL then -1 else RbShape.Rank(t, c, node)
      {
        assert t.key[node] == RbKeys.Rank(all, cmp, keys[node]);
        Compared(t, keys, all, cmp, k, node);
        var r := cmp(k, keys[node]);
        if r == 0 { return true, up, toLeft; }
        up := node;
        toLeft := r < 0;
        node := if toLeft then tree.left[node] else tree.right[node];
        if node != NULL { Down(t, c, up, node); }
      }
      EndOfWay(t, c, at, up, toLeft);
      found := false;
    }

    /** rbtree_find_less_equal */
    method FindLessEqual(k: K) returns (exact: bool, r: Ptr)
      requires Valid() && k in all
      ensures exact <==> Has(tree.nodes, k)
      ensures r != NULL ==> r in tree.nodes && r in keys
      ensures exact ==> r != NULL && cmp(k, keys[r]) == 0
      ensures !exact && r != NULL ==> cmp(keys[r], k) < 0
      ensures !exact ==> forall q :: q in tree.nodes && q in keys && cmp(keys[q], k) < 0 ==>
                           r != NULL && cmp(keys[q], keys[r]) <= 0
    {
      HasIsHasKey(k);
      exact, r := Find(k);
      ghost var t := tree.View();
      if r != NULL {
        assert t.key[r] == RbKeys.Rank(all, cmp, keys[r]);
        Compared(t, keys, all, cmp, k, r);
      }
      forall q | !exact && q in tree.nodes && q in keys && cmp(keys[q], k) < 0
        ensures r != NULL && cmp(keys[q], keys[r]) <= 0
      {
        Compared(t, keys, all, cmp, k, q);
        NodesCompared(t, keys, all, cmp, q, r);
      }
    }

    /** The loop of rbtree_find_less_equal. */
    method Find(k: K) returns (exact: bool, r: Ptr)
      requires Valid() && k in all
      ensures exact <==> HasKey(tree.View(), RbKeys.Rank(all, cmp, k))
      ensures if exact then r in tree.nodes && tree.key[r] == RbKeys.Rank(all, cmp, k)
              else LastBefore(tree.View(), RbKeys.Rank(all, cmp, k), r)
    {
      ghost var t, c, at := tree.View(), tree.Hue(), RbKeys.Rank(all, cmp, k);
      var node := tree.root;
      r := NULL;
      if node != NULL { assert LinkOk(t, node); }
      while node != NULL
        invariant node == NULL || node in t.nodes
        invariant r == NULL || (r in t.nodes && t.key[r] < at
                                && (node != NULL ==> t.lo[node].At? && t.lo[node].k >= t.key[r]))
        invariant Candidates(t, at, r, node)
        decreases if node == NULL then -1 else RbShape.Rank(t, c, node)
      {
        ghost var up := node;
        assert LinkOk(t, node);
        assert t.key[node] == RbKeys.Rank(all, cmp, keys[node]);
        Compared(t, keys, all, cmp, k, node);
        var s := cmp(k, keys[node]);
        if s == 0 { return true, node; }
        if s < 0 {
          GoLeft(t, c, at, r, node);
          node := tree.left[node];
        } else {
          GoRight(t, c, at, r, node);
          r := node;
          node := tree.right[node];
        }
        if node != NULL { Down(t, c, up, node); }
      }
      exact := false;
    }

    /** rbtree_delete: the node whose key compares equal leaves the tree; NULL when there is none. */
    method Delete(k: K) returns (x: Ptr)
      requires Valid() && k in all
      modifies tree
      ensures Valid() && keys == old(keys)
      ensures x != NULL <==> old(Has(tree.nodes, k))
      ensures x == NULL ==> tree.View() == old(tree.View()) && tree.Hue() == old(tree.Hue())
      ensures x != NULL ==> x in old(tree.nodes) && x in keys && cmp(k, keys[x]) == 0
                            && tree.nodes == old(tree.nodes) - {x}
    {
      var exact;
      exact, x := FindLessEqual(k);
      if !exact { return NULL; }
      ghost var t := tree.View();
      RbDelete.RemoveNode(tree, x);
      ghost var t' := tree.View();
      assert forall p :: p in t'.nodes ==> t'.key[p] == t.key[p];
    }
  }
}
