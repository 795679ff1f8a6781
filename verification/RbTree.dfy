/** The red-black tree of rbtree.c: rotations, insertion, deletion with exchange of nodes, and ordered search. */
module RbTree {
  import opened RbShape
  import opened RbEdit

  /** A new red node without a red parent, or at the root, needs no more than a black root. */
  lemma PaintRoot(t: Tree, c: Paint, c': Paint, node: Ptr)
    requires Fixing(t, c, node) && (node == t.root || !Red(c, t.parent[node]))
    requires c' == c.(red := c.red[t.root := false])
    ensures Sane(t, c')
  {
    assert LinkOk(t, node);
    forall p | p in t.nodes ensures BalOk(t, c', p) && RedOk(t, c', p, NULL) {
      assert BalOk(t, c, p) && LinkOk(t, p);
      if t.left[p] != NULL { assert LinkOk(t, t.left[p]); }
      if t.right[p] != NULL { assert LinkOk(t, t.right[p]); }
    }
  }

  lemma FixingMirror(t: Tree, c: Paint, node: Ptr)
    requires Fixing(t, c, node)
    ensures Fixing(Mirror(t), c, node)
  {
    MirrorShape(t);
    MirrorColored(t, c, node);
  }

  lemma FixingUnmirror(t: Tree, c: Paint, node: Ptr)
    requires Store(t) && Fixing(Mirror(t), c, node)
    ensures Fixing(t, c, node)
  {
    UnmirrorShape(t);
    UnmirrorColored(t, c, node);
  }

  lemma BalancedFixing(t: Tree, c: Paint, node: Ptr)
    requires Sane(t, c) && node in t.nodes && c.red[node]
    ensures Fixing(t, c, node)
  {
    forall p | p in t.nodes ensures BalOk(t, c, p) && RedOk(t, c, p, node) { assert BalOk(t, c, p); }
  }

  /** The field updates of rbtree_rotate_left. */
  ghost predicate RotatedLeft(t: Tree, t': Tree, x: Ptr, y: Ptr)
    requires Store(t) && x in t.nodes && y in t.nodes && t.parent[x] in t.nodes + {NULL}
  {
    var b, u := t.left[y], t.parent[x];
    && t'.nodes == t.nodes && t'.key == t.key
    && t'.parent == (if b != NULL then t.parent[b := x] else t.parent)[y := u][x := y]
    && t'.left == (if u != NULL && t.left[u] == x then t.left[u := y] else t.left)[y := x]
    && t'.right == (if u != NULL && t.left[u] != x then t.right[x := b][u := y] else t.right[x := b])
    && t'.root == (if u == NULL then y else t.root)
    && t'.lo == t.lo[y := t.lo[x]] && t'.hi == t.hi[x := At(t.key[y])]
  }

  lemma RotatedIsTurned(t: Tree, t': Tree, x: Ptr, y: Ptr)
    requires Shape(t) && x in t.nodes && t.right[x] == y && y in t.nodes && t.parent[x] in t.nodes + {NULL}
             && RotatedLeft(t, t', x, y)
    ensures TurnedLeft(t, t', x, y)
  {
    assert LinkOk(t, x) && LinkOk(t, y);
    assert Store(t');
    forall p | p in t.nodes ensures TurnedAt(t, t', x, y, p) { assert LinkOk(t, p); }
  }

  /** The field updates of rbtree_rotate_right. */
  ghost predicate RotatedRight(t: Tree, t': Tree, x: Ptr, y: Ptr)
    requires Store(t) && x in t.nodes && y in t.nodes && t.parent[x] in t.nodes + {NULL}
  {
    var b, u := t.right[y], t.parent[x];
    && t'.nodes == t.nodes && t'.key == t.key
    && t'.parent == (if b != NULL then t.parent[b := x] else t.parent)[y := u][x := y]
    && t'.right == (if u != NULL && t.right[u] == x then t.right[u := y] else t.right)[y := x]
    && t'.left == (if u != NULL && t.right[u] != x then t.left[x := b][u := y] else t.left[x := b])
    && t'.root == (if u == NULL then y else t.root)
    && t'.hi == t.hi[y := t.hi[x]] && t'.lo == t.lo[x := At(t.key[y])]
  }

  lemma RotatedRightIsTurned(t: Tree, t': Tree, x: Ptr, y: Ptr)
    requires Shape(t) && x in t.nodes && t.left[x] == y && y in t.nodes && t.parent[x] in t.nodes + {NULL}
             && RotatedRight(t, t', x, y)
    ensures TurnedRight(t, t', x, y)
  {
    assert LinkOk(t, x) && LinkOk(t, y);
    assert Store(t');
    forall p | p in t.nodes ensures TurnedRightAt(t, t', x, y, p) { assert LinkOk(t, p); }
  }

  // -------------------------------------------------------------------- helpers for the repair loops

  ghost function Reds(t: Tree, c: Paint): set<Ptr>
  {
    set p | p in t.nodes && p in c.red && c.red[p]
  }

  /** A red parent is not the root, so there is a grandparent, and it is black. */
  lemma Grandparent(t: Tree, c: Paint, node: Ptr)
    requires Fixing(t, c, node) && node != t.root && Red(c, t.parent[node])
    ensures t.parent[node] in t.nodes && t.parent[node] != t.root
    ensures var g := t.parent[t.parent[node]];
            g in t.nodes && !c.red[g] && (t.left[g] == t.parent[node] || t.right[g] == t.parent[node]) && g != node
    ensures var g := t.parent[t.parent[node]];
            t.left[g] in t.nodes + {NULL} && t.right[g] in t.nodes + {NULL} && t.left[g] in c.red && t.right[g] in c.red
  {
    assert LinkOk(t, node) && LinkOk(t, t.parent[node]);
    assert LinkOk(t, t.parent[t.parent[node]]) && BalOk(t, c, t.parent[t.parent[node]]);
  }

  lemma RecolorReds(t: Tree, c: Paint, c': Paint, node: Ptr, g: Ptr)
    requires RedUncle(t, c, node, g) && !c.red[g] && c'.red == c.red[t.left[g] := false][t.right[g] := false][g := true]
    ensures |Reds(t, c')| < |Reds(t, c)|
  {
    var l, r := t.left[g], t.right[g];
    assert LinkOk(t, g) && LinkOk(t, l) && LinkOk(t, r);
    assert Reds(t, c') == (Reds(t, c) - {l} - {r}) + {g};
    assert l in Reds(t, c) && r in Reds(t, c) - {l};
  }

  /** The inner turn keeps the black uncle of the pair in place. */
  lemma InnerPlace(t: Tree, t': Tree, c: Paint, node: Ptr, up: Ptr, g: Ptr)
    requires Fixing(t, c, node) && up in t.nodes && g in t.nodes && t.right[up] == node && t.left[g] == up
             && TurnedLeft(t, t', up, node)
    ensures t'.left[g] == node && t'.right[g] == t.right[g] && t'.parent[node] == g && g != up && g != node
  {
    assert LinkOk(t, g) && LinkOk(t, up) && LinkOk(t, node);
    assert TurnedAt(t, t', up, node, g) && TurnedAt(t, t', up, node, node);
  }

  ghost predicate HasKey(t: Tree, k: int)
    requires Store(t)
  {
    exists p :: p in t.nodes && t.key[p] == k
  }

  /** One step down the tree. */
  lemma Down(t: Tree, c: Paint, p: Ptr, q: Ptr)
    requires Sane(t, c) && p in t.nodes && (q == t.left[p] || q == t.right[p]) && q != NULL
    ensures q in t.nodes && Rank(t, c, q) < Rank(t, c, p)
    ensures q == t.left[p] ==> t.lo[q] == t.lo[p] && t.hi[q] == At(t.key[p])
    ensures q == t.right[p] ==> t.lo[q] == At(t.key[p]) && t.hi[q] == t.hi[p]
  {
    assert LinkOk(t, p);
    assert LinkOk(t, q);
    RankUp(t, c, q);
  }

  /** The way of a search: key `k` belongs below `up`, at `node`. */
  ghost predicate OnWay(t: Tree, k: int, up: Ptr, toLeft: bool, node: Ptr)
    requires Store(t)
  {
    && (node == NULL || (node in t.nodes && In(t.lo[node], k, t.hi[node])))
    && if up == NULL then node == t.root
       else
         && up in t.nodes && In(t.lo[up], k, t.hi[up])
         && (if toLeft then k < t.key[up] && node == t.left[up] else k > t.key[up] && node == t.right[up])
  }

  /** At the end of the way there is a free place, and the key is not in the tree. */
  lemma EndOfWay(t: Tree, c: Paint, k: int, up: Ptr, toLeft: bool)
    requires Sane(t, c) && OnWay(t, k, up, toLeft, NULL)
    ensures FreePlace(t, up, toLeft, k)
    ensures forall q :: q in t.nodes ==> t.key[q] != k
  {
    forall q | q in t.nodes ensures t.key[q] != k {
      if t.key[q] == k {
        if toLeft { NothingLeft(t, c, up, q); } else { NothingRight(t, c, up, q); }
      }
    }
  }

  /** TurnInner and TurnOuter in the mirror. */
  lemma TurnInnerRight(t: Tree, t': Tree, c: Paint, node: Ptr, up: Ptr, g: Ptr)
    requires Fixing(t, c, node) && up in t.nodes && g in t.nodes && t.left[up] == node && t.right[g] == up
             && c.red[up] && TurnedRight(t, t', up, node)
    ensures Fixing(t', c, up) && t'.parent[up] == node && t'.right[node] == up
    ensures t'.right[g] == node && t'.left[g] == t.left[g] && t'.parent[node] == g && g != up && g != node
  {
    FixingMirror(t, c, node);
    TurnedRightMirror(t, t', up, node);
    TurnInner(Mirror(t), Mirror(t'), c, node, up);
    InnerPlace(Mirror(t), Mirror(t'), c, node, up, g);
    FixingUnmirror(t', c, up);
  }

  lemma TurnOuterRight(t: Tree, t': Tree, c: Paint, c': Paint, node: Ptr, up: Ptr, g: Ptr)
    requires Fixing(t, c, node) && up in t.nodes && g in t.nodes && t.left[up] == node && t.left[g] == up
             && Red(c, up) && !Red(c, t.right[g])
    requires TurnedRight(t, t', g, up) && c' == c.(red := c.red[up := false][g := true])
    ensures Sane(t', c')
  {
    FixingMirror(t, c, node);
    TurnedRightMirror(t, t', g, up);
    TurnOuter(Mirror(t), Mirror(t'), c, c', node, up, g);
    UnmirrorShape(t');
    UnmirrorColored(t', c', NULL);
  }

  class RbTree {
    /** The nodes in the tree; node fields are stored by address. */
    ghost var nodes: set<Ptr>
    /** Where each key stands in the order of the keys. */
    ghost var key: map<Ptr, int>
    var parent: map<Ptr, Ptr>
    var left: map<Ptr, Ptr>
    var right: map<Ptr, Ptr>
    var red: map<Ptr, bool>
    var root: Ptr
    var count: nat
    ghost var lo: map<Ptr, Bound>
    ghost var hi: map<Ptr, Bound>
    ghost var h: map<Ptr, nat>

    ghost function View(): Tree
      reads this`nodes, this`key, this`parent, this`left, this`right, this`root, this`lo, this`hi
    {
      Tree(nodes, key, parent, left, right, root, lo, hi)
    }

    ghost function Hue(): Paint
      reads this`red, this`h
    {
      Paint(red, h)
    }

    ghost predicate Valid()
      reads this
    {
      Sane(View(), Hue()) && count == |nodes|
    }

    /** rbtree_create; the sentinel is black and points to itself. */
    constructor ()
      ensures Valid() && nodes == {} && count == 0
    {
      nodes, key, lo, hi, h := {}, map[], map[], map[], map[];
      parent, left, right, red := map[NULL := NULL], map[NULL := NULL], map[NULL := NULL], map[NULL := false];
      root, count := NULL, 0;
    }

    /** rbtree_rotate_left */
    method RotateLeft(node: Ptr)
      requires Shape(View()) && node in nodes && right[node] in nodes
      modifies this`parent, this`left, this`right, this`root, this`lo, this`hi
      ensures TurnedLeft(old(View()), View(), node, old(right[node]))
    {
      ghost var t := View();
      assert LinkOk(t, node) && LinkOk(t, right[node]);
      var r := right[node];
      TurnLeft(node, r);
      RotatedIsTurned(t, View(), node, r);
    }

    /** The links of rbtree_rotate_left, with the intervals that go with them. */
    method TurnLeft(node: Ptr, r: Ptr)
      requires Store(View()) && node in nodes && r in nodes && node != r && right[node] == r
      requires parent[node] in nodes + {NULL} && parent[node] != node && parent[node] != r && left[r] != r
               && left[r] != node
      modifies this`parent, this`left, this`right, this`root, this`lo, this`hi
      ensures RotatedLeft(old(View()), View(), node, r)
    {
      right := right[node := left[r]];
      if left[r] != NULL { parent := parent[left[r] := node]; }
      parent := parent[r := parent[node]];
      if parent[node] != NULL {
        if node == left[parent[node]] {
          left := left[parent[node] := r];
        } else {
          right := right[parent[node] := r];
        }
      } else {
        root := r;
      }
      left := left[r := node];
      parent := parent[node := r];
      lo, hi := lo[r := lo[node]], hi[node := At(key[r])];
    }

    /** rbtree_rotate_right */
    method RotateRight(node: Ptr)
      requires Shape(View()) && node in nodes && left[node] in nodes
      modifies this`parent, this`left, this`right, this`root, this`lo, this`hi
      ensures TurnedRight(old(View()), View(), node, old(left[node]))
    {
      ghost var t := View();
      assert LinkOk(t, node) && LinkOk(t, left[node]);
      var l := left[node];
      TurnRight(node, l);
      RotatedRightIsTurned(t, View(), node, l);
    }

    /** The links of rbtree_rotate_right, with the intervals that go with them. */
    method TurnRight(node: Ptr, l: Ptr)
      requires Store(View()) && node in nodes && l in nodes && node != l && left[node] == l
      requires parent[node] in nodes + {NULL} && parent[node] != node && parent[node] != l && right[l] != l
               && right[l] != node
      modifies this`parent, this`left, this`right, this`root, this`lo, this`hi
      ensures RotatedRight(old(View()), View(), node, l)
    {
      left := left[node := right[l]];
      if right[l] != NULL { parent := parent[right[l] := node]; }
      parent := parent[l := parent[node]];
      if parent[node] != NULL {
        if node == right[parent[node]] {
          right := right[parent[node] := l];
        } else {
          left := left[parent[node] := l];
        }
      } else {
        root := l;
      }
      right := right[l := node];
      parent := parent[node := l];
      hi, lo := hi[l := hi[node]], lo[node := At(key[l])];
    }

    /** Paint parent and uncle black and the grandparent red. */
    method RecolorStep(node: Ptr, up: Ptr, g: Ptr, uncle: Ptr)
      requires RedUncle(View(), Hue(), node, g) && up == parent[node] && !red[g]
      requires (left[g] == up && right[g] == uncle) || (left[g] == uncle && right[g] == up)
      modifies this`red, this`h
      ensures Fixing(View(), Hue(), g) && |Reds(View(), Hue())| < |old(Reds(View(), Hue()))|
    {
      ghost var t, c := View(), Hue();
      red := red[up := false];
      red := red[uncle := false];
      red := red[g := true];
      h := h[g := h[g] + 1];
      assert red == c.red[left[g] := false][right[g] := false][g := true];
      RecolorReds(t, c, Hue(), node, g);
      Recolor(t, c, Hue(), node, g);
    }

    /** Repaint and turn the grandparent to the right, the uncle being black. */
    method OuterRight(node: Ptr, up: Ptr, g: Ptr)
      requires Fixing(View(), Hue(), node) && up in nodes && g in nodes && left[up] == node && left[g] == up
               && red[up] && !red[g] && !Red(Hue(), right[g])
      modifies this`red, this`parent, this`left, this`right, this`root, this`lo, this`hi
      ensures Sane(View(), Hue()) && |Reds(View(), Hue())| == |old(Reds(View(), Hue()))| && red[node]
    {
      ghost var t, c := View(), Hue();
      assert LinkOk(t, up) && LinkOk(t, g);
      assert node != up && node != g;
      red := red[up := false];
      red := red[g := true];
      RotateRight(g);
      ghost var t', c' := View(), Hue();
      assert c' == c.(red := c.red[up := false][g := true]);
      TurnOuterRight(t, t', c, c', node, up, g);
      SameReds(t, t', c, c', up, g);
    }

    method OuterLeft(node: Ptr, up: Ptr, g: Ptr)
      requires Fixing(View(), Hue(), node) && up in nodes && g in nodes && right[up] == node && right[g] == up
               && red[up] && !red[g] && !Red(Hue(), left[g])
      modifies this`red, this`parent, this`left, this`right, this`root, this`lo, this`hi
      ensures Sane(View(), Hue()) && |Reds(View(), Hue())| == |old(Reds(View(), Hue()))| && red[node]
    {
      ghost var t, c := View(), Hue();
      assert LinkOk(t, up) && LinkOk(t, g);
      red := red[up := false];
      red := red[g := true];
      RotateLeft(g);
      TurnOuter(t, View(), c, Hue(), node, up, g);
      SameReds(t, View(), c, Hue(), up, g);
    }

    /** One round of rbtree_insert_fixup when the parent is the left child of the grandparent. */
    method FixupLeft(node: Ptr, up: Ptr, g: Ptr) returns (next: Ptr)
      requires Fixing(View(), Hue(), node) && up == parent[node] && up in nodes && red[up] && g in nodes && !red[g]
               && left[g] == up && parent[up] == g
      modifies this`red, this`h, this`parent, this`left, this`right, this`root, this`lo, this`hi
      ensures Fixing(View(), Hue(), next)
      ensures Nearer(old(Reds(View(), Hue())), View(), Hue(), next)
    {
      ghost var t, c := View(), Hue();
      assert LinkOk(t, node) && LinkOk(t, g) && BalOk(t, c, g);
      var uncle := right[g];
      if red[uncle] {
        RecolorStep(node, up, g, uncle);
        next := g;
      } else {
        if node == right[up] {
          RotateLeft(up);
          TurnInner(t, View(), c, node, up);
          InnerPlace(t, View(), c, node, up, g);
          OuterRight(up, node, g);
          next := up;
        } else {
          OuterRight(node, up, g);
          next := node;
        }
        Finished(View(), Hue(), next);
      }
    }

    /** One round of rbtree_insert_fixup when the parent is the right child of the grandparent. */
    method FixupRight(node: Ptr, up: Ptr, g: Ptr) returns (next: Ptr)
      requires Fixing(View(), Hue(), node) && up == parent[node] && up in nodes && red[up] && g in nodes && !red[g]
               && right[g] == up && parent[up] == g
      modifies this`red, this`h, this`parent, this`left, this`right, this`root, this`lo, this`hi
      ensures Fixing(View(), Hue(), next)
      ensures Nearer(old(Reds(View(), Hue())), View(), Hue(), next)
    {
      ghost var t, c := View(), Hue();
      assert LinkOk(t, node) && LinkOk(t, g) && BalOk(t, c, g);
      var uncle := left[g];
      if red[uncle] {
        RecolorStep(node, up, g, uncle);
        next := g;
      } else {
        if node == left[up] {
          RotateRight(up);
          TurnInnerRight(t, View(), c, node, up, g);
          OuterLeft(up, node, g);
          next := up;
        } else {
          OuterLeft(node, up, g);
          next := node;
        }
        Finished(View(), Hue(), next);
      }
    }

    /** rbtree_insert_fixup */
    method InsertFixup(data: Ptr)
      requires Fixing(View(), Hue(), data)
      modifies this`red, this`h, this`parent, this`left, this`right, this`root, this`lo, this`hi
      ensures Sane(View(), Hue()) && nodes == old(nodes) && key == old(key) && count == old(count)
    {
      var node := data;
      assert LinkOk(View(), node);
      while node != root && red[parent[node]]
        invariant Fixing(View(), Hue(), node) && (node != root ==> parent[node] in nodes)
        decreases |Reds(View(), Hue())|, if Red(Hue(), parent[node]) then 1 else 0
      {
        ghost var t, c := View(), Hue();
        Grandparent(t, c, node);
        var up := parent[node];
        var g := parent[up];
        if up == left[g] {
          node := FixupLeft(node, up, g);
        } else {
          node := FixupRight(node, up, g);
        }
        assert LinkOk(View(), node);
        if Sane(View(), Hue()) { Finished(View(), Hue(), node); }
      }
      ghost var t, c := View(), Hue();
      red := red[root := false];
      PaintRoot(t, c, Hue(), node);
    }

    /** The rest of rbtree_insert, when the place of the new key has been found. */
    method AddNode(data: Ptr, ghost k: int, up: Ptr, toLeft: bool)
      requires Valid() && data !in nodes && data != NULL && FreePlace(View(), up, toLeft, k)
      modifies this
      ensures Valid() && nodes == old(nodes) + {data} && key == old(key)[data := k]
    {
      AddLeaf(data, k, up, toLeft);
      InsertFixup(data);
    }

    /** The middle of rbtree_insert: the new node is linked in, red. */
    method AddLeaf(data: Ptr, ghost k: int, up: Ptr, toLeft: bool)
      requires Valid() && data !in nodes && data != NULL && FreePlace(View(), up, toLeft, k)
      modifies this
      ensures Fixing(View(), Hue(), data) && nodes == old(nodes) + {data} && key == old(key)[data := k]
              && count == |nodes|
    {
      ghost var t, c := View(), Hue();
      ghost var a := if up == NULL then Inf else if toLeft then lo[up] else At(key[up]);
      ghost var b := if up == NULL then Inf else if toLeft then At(key[up]) else hi[up];
      LinkLeaf(data, k, up, toLeft, a, b);
      LeafLinked(t, View(), c, Hue(), data, k, up, toLeft);
    }

    method LinkLeaf(data: Ptr, ghost k: int, up: Ptr, toLeft: bool, ghost a: Bound, ghost b: Bound)
      requires data !in nodes && count == |nodes| && (up != NULL ==> up in left && up in right)
      modifies this
      ensures nodes == old(nodes) + {data} && count == |nodes| && root == if up == NULL then data else old(root)
      ensures key == old(key)[data := k] && parent == old(parent)[data := up] && red == old(red)[data := true]
              && h == old(h)[data := 0]
      ensures left == if up != NULL && toLeft then old(left)[data := NULL][up := data] else old(left)[data := NULL]
      ensures right == if up != NULL && !toLeft then old(right)[data := NULL][up := data] else old(right)[data := NULL]
      ensures lo == old(lo)[data := a] && hi == old(hi)[data := b]
    {
      InitNode(data, k, up);
      CountNode(data, a, b);
      Attach(data, up, toLeft);
    }

    /** The parent, or the root of the tree, gets the new node. */
    method Attach(data: Ptr, up: Ptr, toLeft: bool)
      requires up != NULL ==> up in left && up in right
      modifies this`left, this`right, this`root
      ensures left == if up != NULL && toLeft then old(left)[up := data] else old(left)
      ensures right == if up != NULL && !toLeft then old(right)[up := data] else old(right)
      ensures root == if up == NULL then data else old(root)
    {
      if up != NULL {
        if toLeft { left := left[up := data]; } else { right := right[up := data]; }
      } else {
        root := data;
      }
    }

    /** The new node gets its fields. */
    method InitNode(data: Ptr, ghost k: int, up: Ptr)
      modifies this`key, this`parent, this`left, this`right, this`red
      ensures key == old(key)[data := k] && parent == old(parent)[data := up] && left == old(left)[data := NULL]
              && right == old(right)[data := NULL]
      ensures red == old(red)[data := true]
    {
      parent, left, right, red := parent[data := up], left[data := NULL], right[data := NULL], red[data := true];
      key := key[data := k];
    }

    /** The new node is counted; the ghost fields get the place it will have. */
    method CountNode(data: Ptr, ghost a: Bound, ghost b: Bound)
      requires data !in nodes && count == |nodes|
      modifies this`count, this`nodes, this`h, this`lo, this`hi
      ensures h == old(h)[data := 0] && nodes == old(nodes) + {data} && count == |nodes| && lo == old(lo)[data := a]
              && hi == old(hi)[data := b]
    {
      h, lo, hi, nodes := h[data := 0], lo[data := a], hi[data := b], nodes + {data};
      count := count + 1;
    }
  }

  /** The field updates of rbtree_insert. */
  lemma LeafLinked(t: Tree, t': Tree, c: Paint, c': Paint, n: Ptr, k: int, up: Ptr, toLeft: bool)
    requires Sane(t, c) && c'.red == c.red[n := true] && c'.h == c.h[n := 0] && n !in t.nodes && n != NULL
             && FreePlace(t, up, toLeft, k)
    requires t'.nodes == t.nodes + {n} && t'.key == t.key[n := k] && t'.parent == t.parent[n := up]
             && t'.root == if up == NULL then n else t.root
    requires t'.left == if up != NULL && toLeft then t.left[n := NULL][up := n] else t.left[n := NULL]
    requires t'.right == if up != NULL && !toLeft then t.right[n := NULL][up := n] else t.right[n := NULL]
    requires t'.lo == t.lo[n := if up == NULL then Inf else if toLeft then t.lo[up] else At(t.key[up])]
    requires t'.hi == t.hi[n := if up == NULL then Inf else if toLeft then At(t.key[up]) else t.hi[up]]
    ensures Fixing(t', c', n)
  {
    assert Store(t');
    forall p | p in t.nodes ensures LeafAddedAt(t, t', n, up, toLeft, p) { assert LinkOk(t, p); }
    LeafAddedFixing(t, t', c, c', n, k, up, toLeft);
  }

  /** Fewer red nodes than before, or as many and nothing left to repair. */
  ghost predicate Nearer(reds: set<Ptr>, t: Tree, c: Paint, node: Ptr)
  {
    |Reds(t, c)| < |reds| || (|Reds(t, c)| == |reds| && Sane(t, c))
  }

  lemma Finished(t: Tree, c: Paint, node: Ptr)
    requires Sane(t, c) && node in t.nodes && c.red[node]
    ensures Fixing(t, c, node) && node != t.root && !Red(c, t.parent[node])
  {
    BalancedFixing(t, c, node);
    assert LinkOk(t, node);
    assert BalOk(t, c, t.parent[node]);
  }

  lemma SameReds(t: Tree, t': Tree, c: Paint, c': Paint, up: Ptr, g: Ptr)
    requires Painted(t, c) && t'.nodes == t.nodes && up in t.nodes && g in t.nodes && c.red[up] && !c.red[g]
             && c'.red == c.red[up := false][g := true]
    ensures |Reds(t', c')| == |Reds(t, c)|
  {
    assert Reds(t', c') == (Reds(t, c) - {up}) + {g};
  }
}
