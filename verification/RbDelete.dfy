/** Deletion from the red-black tree of rbtree.c: exchange with the successor, unlinking, and repair. */
module RbDelete {
  import opened RbShape
  import opened RbEdit
  import opened RbTree

  /** Below `cp`, on the side of `child`, there is one black node too few. */
  ghost predicate Short(t: Tree, c: Paint, cp: Ptr, child: Ptr)
  {
    && Store(t) && cp in t.nodes
    && ((t.left[cp] == child && Deficit(t, c, cp)) || (t.right[cp] == child && Deficit(Mirror(t), c, cp)))
  }

  /** Which side it is can be seen from the child, because there is a sibling. */
  lemma ShortSide(t: Tree, c: Paint, cp: Ptr, child: Ptr)
    requires Short(t, c, cp, child)
    ensures Shape(t) && Painted(t, c) && c.h[cp] > 0
    ensures t.left[cp] in t.nodes + {NULL} && t.right[cp] in t.nodes + {NULL}
    ensures t.right[cp] == child ==> Deficit(Mirror(t), c, cp) && t.left[cp] in t.nodes && t.left[cp] != child
    ensures t.right[cp] != child ==> Deficit(t, c, cp) && t.left[cp] == child && t.right[cp] in t.nodes
  {
    if Deficit(t, c, cp) { HasSibling(t, c, cp); }
    if Deficit(Mirror(t), c, cp) { HasSibling(Mirror(t), c, cp); UnmirrorShape(t); }
  }

  lemma UnmirrorBalanced(t: Tree, c: Paint)
    requires Store(t) && Shape(Mirror(t)) && Balanced(Mirror(t), c)
    ensures Sane(t, c)
  {
    UnmirrorShape(t);
    UnmirrorColored(t, c, NULL);
  }

  lemma UnmirrorDeficit(t: Tree, c: Paint, cp: Ptr)
    requires Shape(t) && Store(Mirror(t)) && Deficit(Mirror(Mirror(t)), c, cp)
    ensures Deficit(t, c, cp)
  {
    forall p | p in t.nodes && p != cp ensures BalOk(t, c, p) && RedOk(t, c, p, NULL) {
      assert BalOk(Mirror(Mirror(t)), c, p);
      SameLinks(t, Mirror(Mirror(t)), c, p);
    }
  }

  /** Balance and colours depend on the links down only. */
  lemma SameLinks(t: Tree, t': Tree, c: Paint, p: Ptr)
    requires Painted(t, c) && Painted(t', c) && p in t.nodes && p in t'.nodes && t.nodes == t'.nodes
    requires t.left == t'.left && t.right == t'.right && BalOk(t', c, p) && RedOk(t', c, p, NULL)
    ensures BalOk(t, c, p) && RedOk(t, c, p, NULL)
  {
  }

  lemma RedSiblingRight(t: Tree, t': Tree, c: Paint, c': Paint, cp: Ptr, s: Ptr)
    requires Shape(t) && Deficit(Mirror(t), c, cp) && s == t.left[cp] && Red(c, s) && TurnedRight(t, t', cp, s)
    requires c' == c.(red := c.red[cp := true][s := false])
    ensures Deficit(Mirror(t'), c', cp) && c'.red[cp] && t'.right[cp] == t.right[cp] && t'.left[cp] == t.right[s]
            && !Red(c', t'.left[cp])
  {
    TurnedRightMirror(t, t', cp, s);
    RedSibling(Mirror(t), Mirror(t'), c, c', cp, s);
  }

  /** DeficitUp for either side. */
  lemma ShortUp(t: Tree, c: Paint, c': Paint, cp: Ptr, child: Ptr, s: Ptr)
    requires Short(t, c, cp, child) && s in t.nodes && s != child && (s == t.left[cp] || s == t.right[cp])
    requires !c.red[cp] && !c.red[s] && !Red(c, t.left[s]) && !Red(c, t.right[s]) && c.h[cp] > 0
    requires c'.red == c.red[s := true] && c'.h == c.h[cp := c.h[cp] - 1]
    ensures cp == t.root ==> Sane(t, c') && t.parent[cp] == NULL
    ensures cp != t.root ==> t.parent[cp] in t.nodes && Short(t, c', t.parent[cp], cp)
  {
    ShortSide(t, c, cp, child);
    assert LinkOk(t, cp);
    if t.right[cp] == child {
      MirrorShape(t);
      DeficitUp(Mirror(t), c, c', cp, s);
      if cp == t.root { UnmirrorBalanced(t, c'); }
      else if t.right[t.parent[cp]] != cp { UnmirrorDeficit(t, c', t.parent[cp]); }
    } else {
      DeficitUp(t, c, c', cp, s);
    }
  }

  lemma RedParentRight(t: Tree, c: Paint, c': Paint, cp: Ptr, s: Ptr)
    requires Shape(t) && PlainSibling(Mirror(t), c, cp, s) && c.red[cp]
    requires c'.red == c.red[s := true][cp := false] && c'.h == c.h[cp := c.h[cp] - 1]
    ensures Sane(t, c')
  {
    MirrorShape(t);
    RedParent(Mirror(t), c, c', cp, s);
    UnmirrorBalanced(t, c');
  }

  lemma RedOuterRight(t: Tree, t': Tree, c: Paint, c': Paint, cp: Ptr, s: Ptr)
    requires Shape(t) && Deficit(Mirror(t), c, cp) && s == t.left[cp] && s in t.nodes && !c.red[s]
             && t.left[s] in t.nodes && c.red[t.left[s]]
    requires TurnedRight(t, t', cp, s)
    requires c'.red == c.red[s := c.red[cp]][cp := false][t.left[s] := false]
             && c'.h == c.h[cp := c.h[cp] - 1][s := c.h[s] + 1]
    ensures Sane(t', c')
  {
    TurnedRightMirror(t, t', cp, s);
    RedOuter(Mirror(t), Mirror(t'), c, c', cp, s);
    UnmirrorBalanced(t', c');
  }

  /** RedInner in the mirror: the turn goes to the left there. */
  lemma RedInnerLeft(t: Tree, t': Tree, c: Paint, c': Paint, cp: Ptr, s: Ptr, r: Ptr)
    requires Shape(t) && InnerRed(Mirror(t), c, cp, s, r) && TurnedLeft(t, t', s, r)
             && c' == c.(red := c.red[s := true][r := false])
    ensures Shape(t') && Deficit(Mirror(t'), c', cp) && t'.right[cp] == t.right[cp] && t'.left[cp] == r
            && t'.left[r] == s
  {
    TurnedLeftShape(t, t', s, r);
    TurnedLeftMirror(t, t', s, r);
    RedInner(Mirror(t), Mirror(t'), c, c', cp, s, r);
  }

  lemma TurnedLeftMirror(t: Tree, t': Tree, x: Ptr, y: Ptr)
    requires Store(t) && TurnedLeft(t, t', x, y)
    ensures Store(Mirror(t)) && TurnedRight(Mirror(t), Mirror(t'), x, y)
  {
    MirrorStore(t);
    MirrorStore(t');
    var m, m' := Mirror(t), Mirror(t');
    assert m'.key == m.key;
    forall p | p in t.nodes ensures TurnedRightAt(m, m', x, y, p) { assert TurnedAt(t, t', x, y, p); }
  }

  // -------------------------------------------------------------------- rbtree_delete_fixup

  /** The other child of `cp`. */
  ghost function Other(t: Tree, cp: Ptr, child: Ptr): Ptr
    requires Store(t) && (cp in t.nodes || cp == NULL)
  {
    if t.right[cp] == child then t.left[cp] else t.right[cp]
  }

  lemma SiblingKids(t: Tree, c: Paint, s: Ptr)
    requires Shape(t) && Painted(t, c) && s in t.nodes
    ensures t.left[s] in c.red && t.right[s] in c.red && (t.left[s] == NULL || t.left[s] in t.nodes)
            && (t.right[s] == NULL || t.right[s] in t.nodes)
  {
    assert LinkOk(t, s);
  }

  /** The first part of a round: a red sibling is turned up. */
  method TurnSiblingUp(tree: RbTree, child: Ptr, cp: Ptr, sibling: Ptr) returns (next: Ptr)
    requires Short(tree.View(), tree.Hue(), cp, child) && sibling == Other(tree.View(), cp, child)
             && Red(tree.Hue(), sibling)
    modifies tree`red, tree`parent, tree`left, tree`right, tree`root, tree`lo, tree`hi
    ensures Short(tree.View(), tree.Hue(), cp, child) && next == Other(tree.View(), cp, child) && Red(tree.Hue(), cp)
            && !Red(tree.Hue(), next)
  {
    ghost var t, c := tree.View(), tree.Hue();
    ShortSide(t, c, cp, child);
    tree.red := tree.red[cp := true];
    tree.red := tree.red[sibling := false];
    if tree.right[cp] == child {
      tree.RotateRight(cp);
      ghost var t', c' := tree.View(), tree.Hue();
      RedSiblingRight(t, t', c, c', cp, sibling);
      next := tree.left[cp];
    } else {
      tree.RotateLeft(cp);
      ghost var t', c' := tree.View(), tree.Hue();
      RedSibling(t, t', c, c', cp, sibling);
      ShortSide(t', c', cp, child);
      next := tree.right[cp];
    }
  }

  /** The last part when the inner nephew is red and the outer is not: turn it up. */
  method TurnNephewRight(tree: RbTree, cp: Ptr, sibling: Ptr) returns (next: Ptr)
    requires Deficit(tree.View(), tree.Hue(), cp) && sibling == tree.right[cp] && sibling in tree.nodes
    requires InnerRed(tree.View(), tree.Hue(), cp, sibling, tree.left[sibling])
    modifies tree`red, tree`parent, tree`left, tree`right, tree`root, tree`lo, tree`hi
    ensures Deficit(tree.View(), tree.Hue(), cp) && next == tree.right[cp] && next in tree.nodes
            && tree.left[cp] == old(tree.left)[cp]
    ensures !tree.red[next] && tree.right[next] in tree.nodes && tree.red[tree.right[next]]
  {
    ghost var t, c := tree.View(), tree.Hue();
    next := tree.left[sibling];
    tree.red := tree.red[sibling := true];
    tree.red := tree.red[tree.left[sibling] := false];
    tree.RotateRight(sibling);
    assert LinkOk(t, sibling);
    RedInner(t, tree.View(), c, tree.Hue(), cp, sibling, next);
  }

  method TurnNephewLeft(tree: RbTree, cp: Ptr, sibling: Ptr) returns (next: Ptr)
    requires Shape(tree.View()) && Deficit(Mirror(tree.View()), tree.Hue(), cp) && sibling == tree.left[cp]
             && sibling in tree.nodes
    requires InnerRed(Mirror(tree.View()), tree.Hue(), cp, sibling, tree.right[sibling])
    modifies tree`red, tree`parent, tree`left, tree`right, tree`root, tree`lo, tree`hi
    ensures Shape(tree.View()) && Deficit(Mirror(tree.View()), tree.Hue(), cp) && next == tree.left[cp]
            && next in tree.nodes && tree.right[cp] == old(tree.right)[cp]
    ensures !tree.red[next] && tree.left[next] in tree.nodes && tree.red[tree.left[next]]
  {
    ghost var t, c := tree.View(), tree.Hue();
    next := tree.right[sibling];
    tree.red := tree.red[sibling := true];
    tree.red := tree.red[tree.right[sibling] := false];
    tree.RotateLeft(sibling);
    assert LinkOk(t, sibling);
    RedInnerLeft(t, tree.View(), c, tree.Hue(), cp, sibling, next);
  }

  /** Sibling and parent exchange colours, and the outer nephew turns black. */
  method Repaint(tree: RbTree, cp: Ptr, sibling: Ptr, nephew: Ptr)
    requires cp in tree.red && cp in tree.h && sibling in tree.h && tree.h[cp] > 0 && sibling != cp
    modifies tree`red, tree`h
    ensures tree.red == old(tree.red)[sibling := old(tree.red)[cp]][cp := false][nephew := false]
    ensures tree.h == old(tree.h)[cp := old(tree.h)[cp] - 1][sibling := old(tree.h)[sibling] + 1]
  {
    tree.red := tree.red[sibling := tree.red[cp]];
    tree.red := tree.red[cp := false];
    tree.red := tree.red[nephew := false];
    tree.h := tree.h[cp := tree.h[cp] - 1][sibling := tree.h[sibling] + 1];
  }

  /** The end when the deficit is on the left and the outer nephew is red: the parent is turned down. */
  method TurnParentLeft(tree: RbTree, cp: Ptr, sibling: Ptr)
    requires Deficit(tree.View(), tree.Hue(), cp) && sibling == tree.right[cp] && sibling in tree.nodes
             && !tree.red[sibling]
    requires tree.right[sibling] in tree.nodes && tree.red[tree.right[sibling]]
    modifies tree`red, tree`h, tree`parent, tree`left, tree`right, tree`root, tree`lo, tree`hi
    ensures Sane(tree.View(), tree.Hue())
  {
    ghost var t, c := tree.View(), tree.Hue();
    assert LinkOk(t, cp);
    Repaint(tree, cp, sibling, tree.right[sibling]);
    tree.RotateLeft(cp);
    RedOuter(t, tree.View(), c, tree.Hue(), cp, sibling);
  }

  method TurnParentRight(tree: RbTree, cp: Ptr, sibling: Ptr)
    requires Shape(tree.View()) && Deficit(Mirror(tree.View()), tree.Hue(), cp) && sibling == tree.left[cp]
             && sibling in tree.nodes && !tree.red[sibling]
    requires tree.left[sibling] in tree.nodes && tree.red[tree.left[sibling]]
    modifies tree`red, tree`h, tree`parent, tree`left, tree`right, tree`root, tree`lo, tree`hi
    ensures Sane(tree.View(), tree.Hue())
  {
    ghost var t, c := tree.View(), tree.Hue();
    assert LinkOk(t, cp);
    Repaint(tree, cp, sibling, tree.left[sibling]);
    tree.RotateRight(cp);
    RedOuterRight(t, tree.View(), c, tree.Hue(), cp, sibling);
  }

  /** The end of rbtree_delete_fixup for a deficit on the left, with a red nephew. */
  method EndLeft(tree: RbTree, cp: Ptr, sibling: Ptr)
    requires Deficit(tree.View(), tree.Hue(), cp) && sibling == tree.right[cp] && sibling in tree.nodes
             && !tree.red[sibling]
    requires Red(tree.Hue(), tree.left[sibling]) || Red(tree.Hue(), tree.right[sibling])
    modifies tree`red, tree`h, tree`parent, tree`left, tree`right, tree`root, tree`lo, tree`hi
    ensures Sane(tree.View(), tree.Hue())
  {
    SiblingKids(tree.View(), tree.Hue(), sibling);
    if tree.red[tree.left[sibling]] && !tree.red[tree.right[sibling]] {
      var next := TurnNephewRight(tree, cp, sibling);
      TurnParentLeft(tree, cp, next);
    } else {
      TurnParentLeft(tree, cp, sibling);
    }
  }

  method EndRight(tree: RbTree, cp: Ptr, sibling: Ptr)
    requires Shape(tree.View()) && Deficit(Mirror(tree.View()), tree.Hue(), cp) && sibling == tree.left[cp]
             && sibling in tree.nodes && !tree.red[sibling]
    requires Red(tree.Hue(), tree.left[sibling]) || Red(tree.Hue(), tree.right[sibling])
    modifies tree`red, tree`h, tree`parent, tree`left, tree`right, tree`root, tree`lo, tree`hi
    ensures Sane(tree.View(), tree.Hue())
  {
    SiblingKids(tree.View(), tree.Hue(), sibling);
    if tree.red[tree.right[sibling]] && !tree.red[tree.left[sibling]] {
      var next := TurnNephewLeft(tree, cp, sibling);
      TurnParentRight(tree, cp, next);
    } else {
      TurnParentRight(tree, cp, sibling);
    }
  }

  /** A red parent takes the missing black. */
  method EndAtParent(tree: RbTree, child: Ptr, cp: Ptr, sibling: Ptr)
    requires Short(tree.View(), tree.Hue(), cp, child) && sibling == Other(tree.View(), cp, child)
             && sibling in tree.nodes
    requires Red(tree.Hue(), cp) && !Red(tree.Hue(), sibling)
    requires !Red(tree.Hue(), tree.left[sibling]) && !Red(tree.Hue(), tree.right[sibling])
    modifies tree`red, tree`h
    ensures Sane(tree.View(), tree.Hue())
  {
    ghost var t, c := tree.View(), tree.Hue();
    ShortSide(t, c, cp, child);
    tree.red := tree.red[sibling := true];
    tree.red := tree.red[cp := false];
    tree.h := tree.h[cp := tree.h[cp] - 1];
    if tree.right[cp] == child {
      RedParentRight(t, c, tree.Hue(), cp, sibling);
    } else {
      RedParent(t, c, tree.Hue(), cp, sibling);
    }
  }

  /** Everything after the loop of rbtree_delete_fixup. */
  method FixupEnd(tree: RbTree, child: Ptr, cp: Ptr, sibling: Ptr)
    requires Short(tree.View(), tree.Hue(), cp, child) && sibling == Other(tree.View(), cp, child)
             && Ending(tree.View(), tree.Hue(), cp, sibling)
    modifies tree`red, tree`h, tree`parent, tree`left, tree`right, tree`root, tree`lo, tree`hi
    ensures Sane(tree.View(), tree.Hue())
  {
    ghost var t, c := tree.View(), tree.Hue();
    ShortSide(t, c, cp, child);
    SiblingKids(t, c, sibling);
    if tree.red[cp] && !tree.red[sibling] && !tree.red[tree.left[sibling]] && !tree.red[tree.right[sibling]] {
      EndAtParent(tree, child, cp, sibling);
      return;
    }
    if tree.right[cp] == child { EndRight(tree, cp, sibling); } else { EndLeft(tree, cp, sibling); }
  }

  ghost function Blacks(t: Tree, c: Paint): set<Ptr>
  {
    set p | p in t.nodes && p in c.red && !c.red[p]
  }

  /** The part of a round that paints the sibling red and moves the deficit up. */
  method MoveUp(tree: RbTree, child: Ptr, cp: Ptr, sibling: Ptr) returns (up: Ptr)
    requires Short(tree.View(), tree.Hue(), cp, child) && sibling == Other(tree.View(), cp, child)
             && sibling in tree.nodes
    requires !Red(tree.Hue(), cp) && !Red(tree.Hue(), sibling) && !Red(tree.Hue(), tree.left[sibling])
             && !Red(tree.Hue(), tree.right[sibling])
    modifies tree`red, tree`h
    ensures if up == NULL then Sane(tree.View(), tree.Hue()) else Short(tree.View(), tree.Hue(), up, cp)
    ensures |Blacks(tree.View(), tree.Hue())| < |Blacks(old(tree.View()), old(tree.Hue()))|
  {
    ghost var t, c := tree.View(), tree.Hue();
    ShortSide(t, c, cp, child);
    tree.red := tree.red[sibling := true];
    tree.h := tree.h[cp := tree.h[cp] - 1];
    ShortUp(t, c, tree.Hue(), cp, child, sibling);
    assert sibling in Blacks(t, c) && Blacks(tree.View(), tree.Hue()) == Blacks(t, c) - {sibling};
    up := tree.parent[cp];
  }

  /** The loop of rbtree_delete_fixup ends here: no red sibling, and something red near it. */
  ghost predicate Ending(t: Tree, c: Paint, cp: Ptr, sibling: Ptr)
    requires Store(t)
  {
    !Red(c, sibling) && (Red(c, cp) || (sibling in t.nodes && (Red(c, t.left[sibling]) || Red(c, t.right[sibling]))))
  }

  /** A round of the loop of rbtree_delete_fixup. */
  method FixupRound(tree: RbTree, child0: Ptr, cp0: Ptr, sibling0: Ptr)
    returns (goUp: bool, child: Ptr, cp: Ptr, sibling: Ptr)
    requires Short(tree.View(), tree.Hue(), cp0, child0) && sibling0 == Other(tree.View(), cp0, child0)
    modifies tree`red, tree`h, tree`parent, tree`left, tree`right, tree`root, tree`lo, tree`hi
    ensures if cp == NULL then Sane(tree.View(), tree.Hue()) else Short(tree.View(), tree.Hue(), cp, child)
    ensures cp == NULL || cp in tree.nodes
    ensures Store(tree.View()) && sibling == Other(tree.View(), cp, child)
            && (!goUp ==> cp != NULL && Ending(tree.View(), tree.Hue(), cp, sibling))
    ensures goUp ==> |Blacks(tree.View(), tree.Hue())| < |Blacks(old(tree.View()), old(tree.Hue()))|
  {
    child, cp, sibling := child0, cp0, sibling0;
    ShortSide(tree.View(), tree.Hue(), cp, child);
    if tree.red[sibling] {
      sibling := TurnSiblingUp(tree, child, cp, sibling);
      return false, child, cp, sibling;
    }
    SiblingKids(tree.View(), tree.Hue(), sibling);
    if !tree.red[cp] && !tree.red[sibling] && !tree.red[tree.left[sibling]] && !tree.red[tree.right[sibling]] {
      cp := MoveUp(tree, child, cp, sibling);
      child := cp0;
      sibling := if tree.right[cp] == child then tree.left[cp] else tree.right[cp];
      goUp := true;
    } else {
      goUp := false;
    }
  }

  /** rbtree_delete_fixup */
  method DeleteFixup(tree: RbTree, child0: Ptr, cp0: Ptr)
    requires if cp0 == NULL then Sane(tree.View(), tree.Hue()) else Short(tree.View(), tree.Hue(), cp0, child0)
    modifies tree`red, tree`h, tree`parent, tree`left, tree`right, tree`root, tree`lo, tree`hi
    ensures Sane(tree.View(), tree.Hue())
  {
    var child, cp := child0, cp0;
    var sibling := if tree.right[cp] == child then tree.left[cp] else tree.right[cp];
    var goUp := true;
    while goUp
      invariant if cp == NULL then goUp && Sane(tree.View(), tree.Hue())
                else Short(tree.View(), tree.Hue(), cp, child) && sibling == Other(tree.View(), cp, child)
      invariant !goUp ==> Ending(tree.View(), tree.Hue(), cp, sibling)
      decreases goUp, |Blacks(tree.View(), tree.Hue())|
    {
      if cp == NULL { return; }
      goUp, child, cp, sibling := FixupRound(tree, child, cp, sibling);
    }
    FixupEnd(tree, child, cp, sibling);
  }

  // -------------------------------------------------------------------- two nodes exchange their places

  /** change_parent_ptr */
  method ChangeParentPtr(tree: RbTree, up: Ptr, a: Ptr, b: Ptr)
    requires up != NULL ==> up in tree.left && up in tree.right
    modifies tree`left, tree`right, tree`root
    ensures tree.left == Put(old(tree.left), up, a, b) && tree.right == Put(old(tree.right), up, a, b)
    ensures tree.root == if up == NULL && old(tree.root) == a then b else old(tree.root)
  {
    if up == NULL {
      if tree.root == a { tree.root := b; }
      return;
    }
    if tree.left[up] == a { tree.left := tree.left[up := b]; }
    if tree.right[up] == a { tree.right := tree.right[up := b]; }
  }

  /** change_child_ptr */
  method ChangeChildPtr(tree: RbTree, child: Ptr, a: Ptr, b: Ptr)
    requires child != NULL ==> child in tree.parent
    modifies tree`parent
    ensures tree.parent == Put(old(tree.parent), child, a, b)
  {
    if child == NULL { return; }
    if tree.parent[child] == a { tree.parent := tree.parent[child := b]; }
  }

  /** A pointer field of node `p` changes from `a` to `b`, if it was `a`. */
  ghost function Put(m: map<Ptr, Ptr>, p: Ptr, a: Ptr, b: Ptr): map<Ptr, Ptr>
  {
    if p != NULL && p in m && m[p] == a then m[p := b] else m
  }

  ghost function Swapped<V>(m: map<Ptr, V>, x: Ptr, s: Ptr): map<Ptr, V>
    requires x in m && s in m
  {
    m[x := m[s]][s := m[x]]
  }

  /** The left pointers after node `x` and its successor `s` have exchanged places, as rbtree_delete computes them. */
  ghost predicate LeftSwapped(t: Tree, left': map<Ptr, Ptr>, x: Ptr, s: Ptr)
    requires Store(t) && x in t.nodes && s in t.nodes
  {
    var left1 := Put(t.left, t.parent[x], x, s);
    var left2 := if t.right[x] != s then Put(left1, t.parent[s], s, x) else left1;
    x in left2 && s in left2 && left' == Swapped(left2, x, s)
  }

  ghost predicate RightSwapped(t: Tree, right': map<Ptr, Ptr>, x: Ptr, s: Ptr)
    requires Store(t) && x in t.nodes && s in t.nodes
  {
    var right1 := Put(t.right, t.parent[x], x, s);
    var right2 := if t.right[x] != s then Put(right1, t.parent[s], s, x) else right1[x := x];
    x in right2 && s in right2 && right' == Swapped(right2, x, s)
  }

  ghost predicate ParentSwapped(t: Tree, parent': map<Ptr, Ptr>, x: Ptr, s: Ptr)
    requires Store(t) && x in t.nodes && s in t.nodes
  {
    var parent2 := Put(Put(t.parent, t.right[s], s, x), t.left[x], x, s);
    var parent3 := if t.right[x] != s then Put(parent2, t.right[x], x, s) else parent2[s := s];
    x in parent3 && s in parent3 && parent' == Swapped(parent3, x, s)
  }

  ghost predicate PlacesSwapped(t: Tree, t': Tree, x: Ptr, s: Ptr)
    requires Store(t) && x in t.nodes && s in t.nodes
  {
    && LeftSwapped(t, t'.left, x, s) && RightSwapped(t, t'.right, x, s) && ParentSwapped(t, t'.parent, x, s)
    && t'.root == if t.parent[x] == NULL && t.root == x then s else t.root
  }

  /** The parents of both nodes now point to the other one. */
  method SwapInParents(tree: RbTree, x: Ptr, s: Ptr, u: Ptr, ps: Ptr, apart: bool)
    requires (u != NULL ==> u in tree.left && u in tree.right) && (ps != NULL ==> ps in tree.left && ps in tree.right)
             && ps != NULL
    modifies tree`left, tree`right, tree`root
    ensures tree.left == if apart then Put(Put(old(tree.left), u, x, s), ps, s, x) else Put(old(tree.left), u, x, s)
    ensures tree.right == if apart then Put(Put(old(tree.right), u, x, s), ps, s, x) else Put(old(tree.right), u, x, s)
    ensures tree.root == if u == NULL && old(tree.root) == x then s else old(tree.root)
  {
    ChangeParentPtr(tree, u, x, s);
    if apart { ChangeParentPtr(tree, ps, s, x); }
  }

  /** The children of both nodes now point to the other one. */
  method SwapInChildren(tree: RbTree, x: Ptr, s: Ptr, l: Ptr, r: Ptr, ch: Ptr)
    requires (l != NULL ==> l in tree.parent) && (r != NULL ==> r in tree.parent) && (ch != NULL ==> ch in tree.parent)
    modifies tree`parent
    ensures var parent2 := Put(Put(old(tree.parent), ch, s, x), l, x, s);
            tree.parent == if r != s then Put(parent2, r, x, s) else parent2[s := s]
  {
    ChangeChildPtr(tree, ch, s, x);
    ChangeChildPtr(tree, l, x, s);
    if r != s {
      ChangeChildPtr(tree, r, x, s);
    } else {
      tree.parent := tree.parent[s := s];
    }
  }

  method SwapFields(tree: RbTree, x: Ptr, s: Ptr)
    requires x in tree.left && s in tree.left && x in tree.right && s in tree.right && x in tree.parent
             && s in tree.parent
    modifies tree`left, tree`right, tree`parent
    ensures tree.left == Swapped(old(tree.left), x, s) && tree.right == Swapped(old(tree.right), x, s)
            && tree.parent == Swapped(old(tree.parent), x, s)
  {
    tree.parent := tree.parent[x := tree.parent[s]][s := tree.parent[x]];
    tree.left := tree.left[x := tree.left[s]][s := tree.left[x]];
    tree.right := tree.right[x := tree.right[s]][s := tree.right[x]];
  }

  /** The pointer part of the exchange in rbtree_delete. */
  method SwapPlaces(tree: RbTree, x: Ptr, s: Ptr)
    requires Store(tree.View()) && x in tree.nodes && s in tree.nodes
    requires forall p :: p in {tree.parent[x], tree.left[x], tree.right[x], tree.parent[s], tree.right[s]} ==>
               p == NULL || p in tree.nodes
    requires tree.parent[s] != NULL
    modifies tree`left, tree`right, tree`parent, tree`root
    ensures PlacesSwapped(old(tree.View()), tree.View(), x, s)
  {
    var u, l, r, ps, ch := tree.parent[x], tree.left[x], tree.right[x], tree.parent[s], tree.right[s];
    assert u == NULL || u in tree.nodes;
    assert l == NULL || l in tree.nodes;
    assert r == NULL || r in tree.nodes;
    assert ps == NULL || ps in tree.nodes;
    assert ch == NULL || ch in tree.nodes;
    SwapInParents(tree, x, s, u, ps, r != s);
    SwapInChildren(tree, x, s, l, r, ch);
    if r == s { tree.right := tree.right[x := x]; }
    SwapFields(tree, x, s);
  }

  /** `s` is the first node of the right subtree of `x`, which has two children. */
  ghost predicate Successor(t: Tree, x: Ptr, s: Ptr)
    requires Shape(t)
  {
    && x in t.nodes && s in t.nodes && t.left[x] != NULL && t.right[x] != NULL && t.left[s] == NULL
    && t.lo[s] == At(t.key[x])
    && (t.right[x] == s || (t.parent[s] in t.nodes && t.left[t.parent[s]] == s))
    && In(t.lo[x], t.key[s], t.hi[x])
  }

  /** Who the neighbours of the two nodes are, and are not. */
  lemma SuccessorPlace(t: Tree, x: Ptr, s: Ptr)
    requires Shape(t) && Successor(t, x, s)
    ensures x != s && t.key[x] < t.key[s] && t.left[x] != s && t.parent[x] != s && t.parent[x] != x
            && t.parent[s] in t.nodes && t.parent[s] != s
    ensures t.right[x] != s ==> t.parent[s] != x && t.left[t.parent[s]] == s && t.right[t.parent[s]] != s
                                && t.right[x] != x
    ensures t.right[x] == s ==> t.parent[s] == x
    ensures t.left[x] in t.nodes && t.right[x] in t.nodes && t.left[x] != t.right[x] && t.left[x] != x
            && t.right[s] != s && t.right[s] != x
    ensures t.right[s] != NULL ==> t.right[s] in t.nodes && t.right[s] != t.left[x]
    ensures t.parent[x] == NULL || t.parent[x] in t.nodes
  {
    assert LinkOk(t, x) && LinkOk(t, s);
    assert LinkOk(t, t.left[x]) && LinkOk(t, t.right[x]);
    if t.parent[s] in t.nodes { assert LinkOk(t, t.parent[s]); }
    if t.right[s] != NULL { assert LinkOk(t, t.right[s]); }
  }

  lemma SwapLeft(t: Tree, left': map<Ptr, Ptr>, x: Ptr, s: Ptr, p: Ptr)
    requires Shape(t) && Successor(t, x, s) && LeftSwapped(t, left', x, s) && (p in t.nodes || p == NULL)
    ensures p in left' && left'[p] == Swap(x, s, t.left[Swap(x, s, p)])
  {
    SuccessorPlace(t, x, s);
    if p != NULL && p != x && p != s { assert LinkOk(t, p); }
  }

  lemma SwapRight(t: Tree, right': map<Ptr, Ptr>, x: Ptr, s: Ptr, p: Ptr)
    requires Shape(t) && Successor(t, x, s) && RightSwapped(t, right', x, s) && (p in t.nodes || p == NULL)
    ensures p in right' && right'[p] == Swap(x, s, t.right[Swap(x, s, p)])
  {
    SuccessorPlace(t, x, s);
    assert LinkOk(t, x) && LinkOk(t, s);
    if p != NULL && p != x && p != s { assert LinkOk(t, p); }
  }

  lemma SwapParent(t: Tree, parent': map<Ptr, Ptr>, x: Ptr, s: Ptr, p: Ptr)
    requires Shape(t) && Successor(t, x, s) && ParentSwapped(t, parent', x, s) && (p in t.nodes || p == NULL)
    ensures p in parent' && parent'[p] == Swap(x, s, t.parent[Swap(x, s, p)])
  {
    SuccessorPlace(t, x, s);
    assert LinkOk(t, x) && LinkOk(t, s);
    if p == x || p == s || p == NULL {
    } else {
      assert LinkOk(t, p);
      assert t.parent[p] == x <==> p == t.left[x] || p == t.right[x];
      assert t.parent[p] == s <==> p == t.right[s];
    }
  }

  /** The pointer updates exchange the places of the two nodes; keys and intervals belong to the places here. */
  lemma PlacesExchanged(t: Tree, t': Tree, x: Ptr, s: Ptr)
    requires Shape(t) && Successor(t, x, s) && PlacesSwapped(t, t', x, s) && t'.nodes == t.nodes
    requires t'.key == Swapped(t.key, x, s) && t'.lo == Swapped(t.lo, x, s) && t'.hi == Swapped(t.hi, x, s)
    ensures Exchanged(t, t', x, s)
  {
    SwapStore(t, t', x, s);
    forall p | p in t.nodes ensures ExchangedAt(t, t', x, s, p) {
      SwapLeft(t, t'.left, x, s, p);
      SwapRight(t, t'.right, x, s, p);
      SwapParent(t, t'.parent, x, s, p);
    }
  }

  lemma SwapStore(t: Tree, t': Tree, x: Ptr, s: Ptr)
    requires Shape(t) && Successor(t, x, s) && PlacesSwapped(t, t', x, s) && t'.nodes == t.nodes
    requires t'.key == Swapped(t.key, x, s) && t'.lo == Swapped(t.lo, x, s) && t'.hi == Swapped(t.hi, x, s)
    ensures Store(t') && t'.root == Swap(x, s, t.root)
  {
    assert LinkOk(t, x) && LinkOk(t, s);
    SuccessorPlace(t, x, s);
    forall p | p in t.nodes || p == NULL
      ensures p in t'.left && p in t'.right && p in t'.parent
              && (p == NULL ==> t'.left[p] == t'.right[p] == t'.parent[p] == NULL)
    {
      SwapLeft(t, t'.left, x, s, p);
      SwapRight(t, t'.right, x, s, p);
      SwapParent(t, t'.parent, x, s, p);
    }
  }

  // -------------------------------------------------------------------- rbtree_delete

  /** No other key from that of `x` up to that of `s`. */
  ghost predicate Adjacent(nodes: set<Ptr>, key: map<Ptr, int>, x: Ptr, s: Ptr)
  {
    && x in key && s in key
    && forall p :: p in nodes && p != x && p != s ==>
         p in key && key[p] != key[x] && (key[p] > key[x] ==> key[p] > key[s])
  }

  /** The loop that looks for the successor. */
  method FindSuccessor(tree: RbTree, x: Ptr) returns (s: Ptr)
    requires Sane(tree.View(), tree.Hue()) && x in tree.nodes && tree.left[x] != NULL && tree.right[x] != NULL
    ensures Successor(tree.View(), x, s)
    ensures Adjacent(tree.nodes, tree.key, x, s)
  {
    ghost var t, c := tree.View(), tree.Hue();
    assert LinkOk(t, x);
    s := tree.right[x];
    while tree.left[s] != NULL
      invariant s in t.nodes && t.lo[s] == At(t.key[x])
                && (s == t.right[x] || (t.parent[s] in t.nodes && t.left[t.parent[s]] == s))
      invariant t.hi[x].At? ==> t.hi[s].At? && t.hi[s].k <= t.hi[x].k
      decreases Rank(t, c, s)
    {
      assert LinkOk(t, s);
      Down(t, c, s, tree.left[s]);
      s := tree.left[s];
    }
    assert LinkOk(t, s);
    forall p | p in t.nodes && p != x && p != s
      ensures t.key[p] != t.key[x] && (t.key[p] > t.key[x] ==> t.key[p] > t.key[s]) {
      KeysDiffer(t, c, p, x);
      KeysDiffer(t, c, p, s);
      if t.key[x] < t.key[p] < t.key[s] { NothingLeft(t, c, s, p); }
    }
  }

  /** The tree in the store with its keys and intervals exchanged between `x` and `s`. */
  ghost function Places(tree: RbTree, x: Ptr, s: Ptr): Tree
    requires x in tree.key && s in tree.key && x in tree.lo && s in tree.lo && x in tree.hi && s in tree.hi
    reads tree
  {
    tree.View().(key := Swapped(tree.key, x, s), lo := Swapped(tree.lo, x, s), hi := Swapped(tree.hi, x, s))
  }

  /** swap_int8 on the colours. */
  method SwapColors(tree: RbTree, x: Ptr, s: Ptr)
    requires x in tree.red && s in tree.red && x in tree.h && s in tree.h
    modifies tree`red, tree`h
    ensures tree.red == old(tree.red)[x := old(tree.red)[s]][s := old(tree.red)[x]]
            && tree.h == old(tree.h)[x := old(tree.h)[s]][s := old(tree.h)[x]]
  {
    tree.red := tree.red[x := tree.red[s]][s := tree.red[x]];
    tree.h := tree.h[x := tree.h[s]][s := tree.h[x]];
  }

  /** A node with two children exchanges its place with its successor. */
  method Exchange(tree: RbTree, x: Ptr) returns (s: Ptr)
    requires Sane(tree.View(), tree.Hue()) && x in tree.nodes && tree.left[x] != NULL && tree.right[x] != NULL
    modifies tree`red, tree`h, tree`left, tree`right, tree`parent, tree`root
    ensures s in tree.nodes && s != x && x in tree.key && s in tree.key && x in tree.lo && s in tree.lo
            && x in tree.hi && s in tree.hi
    ensures Sane(Places(tree, x, s), tree.Hue()) && tree.left[x] == NULL && tree.right[x] != s
    ensures tree.key[x] < tree.key[s] && In(tree.lo[x], tree.key[s], tree.hi[x])
    ensures Adjacent(tree.nodes, tree.key, x, s)
  {
    s := FindSuccessor(tree, x);
    ghost var t, c := tree.View(), tree.Hue();
    SuccessorPlace(t, x, s);
    SwapColors(tree, x, s);
    SwapPlaces(tree, x, s);
    ghost var t' := Places(tree, x, s);
    PlacesExchanged(t, t', x, s);
    ExchangedSane(t, t', c, tree.Hue(), x, s);
    assert ExchangedAt(t, t', x, s, x);
  }

  /** The pointer updates that take a node out. */
  ghost predicate TakenOut(t: Tree, t': Tree, x: Ptr, ch: Ptr)
    requires Store(t) && x in t.nodes
  {
    var u := t.parent[x];
    && t'.left == Put(t.left, u, x, ch) && t'.right == Put(t.right, u, x, ch) && t'.parent == Put(t.parent, ch, x, u)
    && t'.root == (if u == NULL && t.root == x then ch else t.root)
    && t'.nodes == t.nodes - {x} && t'.key == t.key
    && t'.lo == (if ch == NULL then t.lo else t.lo[ch := t.lo[x]])
    && t'.hi == (if ch == NULL then t.hi else t.hi[ch := t.hi[x]])
  }

  lemma TakenOutUnlinked(t: Tree, t': Tree, c: Paint, x: Ptr, ch: Ptr)
    requires Sane(t, c) && x in t.nodes && (t.left[x] == NULL || t.right[x] == NULL)
             && ch == (if t.left[x] != NULL then t.left[x] else t.right[x])
    requires TakenOut(t, t', x, ch)
    ensures Unlinked(t, t', x, ch)
  {
    assert LinkOk(t, x);
    LeafBelow(t, c, x, ch);
    if t.parent[x] != NULL { assert LinkOk(t, t.parent[x]); }
    if ch != NULL { assert LinkOk(t, ch); }
    assert Store(t');
    forall p | p in t'.nodes ensures UnlinkedAt(t, t', x, ch, p) { assert LinkOk(t, p); }
  }

  /** The store holds the links of `t`. */
  ghost predicate HasLinks(tree: RbTree, t: Tree)
    reads tree
  {
    tree.parent == t.parent && tree.left == t.left && tree.right == t.right && tree.root == t.root
  }

  /** Unlink a node with at most one child, which takes its place. */
  method TakeOut(tree: RbTree, x: Ptr, ghost t: Tree, ghost c: Paint) returns (ch: Ptr, up: Ptr, ghost t': Tree)
    requires Sane(t, c) && HasLinks(tree, t) && x in t.nodes && (t.left[x] == NULL || t.right[x] == NULL)
    modifies tree`left, tree`right, tree`parent, tree`root
    ensures Unlinked(t, t', x, ch) && HasLinks(tree, t') && up == t.parent[x] && t'.key == t.key
    ensures ch == if t.left[x] != NULL then t.left[x] else t.right[x]
  {
    assert LinkOk(t, x);
    up := tree.parent[x];
    ch := if tree.left[x] != NULL then tree.left[x] else tree.right[x];
    ChangeParentPtr(tree, up, x, ch);
    ChangeChildPtr(tree, ch, x, up);
    t' := Tree(t.nodes - {x}, t.key, tree.parent, tree.left, tree.right, tree.root,
               if ch == NULL then t.lo else t.lo[ch := t.lo[x]], if ch == NULL then t.hi else t.hi[ch := t.hi[x]]);
    TakenOutUnlinked(t, t', c, x, ch);
  }

  /** The tree in the store is `t`, or `t` with a greater key for node `s`. */
  ghost predicate Settled(t: Tree, t': Tree, s: Ptr, k': int)
    requires Store(t)
  {
    t' == t || Rekeyed(t, t', s, k')
  }

  lemma SettledSane(t: Tree, t': Tree, c: Paint, s: Ptr, k': int)
    requires Sane(t, c) && Settled(t, t', s, k')
    ensures Sane(t', c)
  {
    if t' != t { RekeyedSane(t, t', c, s, k'); }
  }

  lemma SettledShort(t: Tree, t': Tree, c: Paint, s: Ptr, k': int, u: Ptr, child: Ptr)
    requires Short(t, c, u, child) && Settled(t, t', s, k')
    ensures Short(t', c, u, child)
  {
    if t' != t {
      ShortSide(t, c, u, child);
      assert RekeyedAt(t, t', s, k', u);
      if t.right[u] == child { RekeyedMirror(t, t', c, s, k', u); } else { RekeyedDeficit(t, t', c, s, k', u); }
    }
  }

  /** The node left a gap in the colours: repair it. */
  method Recolour(tree: RbTree, x: Ptr, ch: Ptr, up: Ptr, ghost t1: Tree, ghost t2: Tree, ghost s: Ptr, ghost k': int)
    requires Sane(t1, tree.Hue()) && Unlinked(t1, t2, x, ch) && up == t1.parent[x] && Settled(t2, tree.View(), s, k')
    modifies tree`red, tree`h, tree`parent, tree`left, tree`right, tree`root, tree`lo, tree`hi
    ensures Sane(tree.View(), tree.Hue())
  {
    ghost var c := tree.Hue();
    LeafBelow(t1, c, x, ch);
    if tree.red[x] {
      UnlinkedBalanced(t1, t2, c, c, x, ch);
      SettledSane(t2, tree.View(), c, s, k');
    } else if tree.red[ch] {
      if ch != NULL { tree.red := tree.red[ch := false]; }
      UnlinkedBalanced(t1, t2, c, tree.Hue(), x, ch);
      SettledSane(t2, tree.View(), tree.Hue(), s, k');
    } else {
      UnlinkedDeficit(t1, t2, c, x, up);
      if up == NULL {
        SettledSane(t2, tree.View(), c, s, k');
      } else {
        assert LinkOk(t1, up) && LinkOk(t1, x);
        assert UnlinkedAt(t1, t2, x, ch, up);
        SettledShort(t2, tree.View(), c, s, k', up, ch);
      }
      DeleteFixup(tree, ch, up);
    }
  }

  /** The fields of a node that is no longer in the tree do not matter. */
  lemma OffTree(t: Tree, t': Tree, c: Paint, c': Paint, x: Ptr)
    requires Sane(t, c) && x !in t.nodes && x != NULL
    requires t' == t.(parent := t.parent[x := NULL], left := t.left[x := NULL], right := t.right[x := NULL])
             && c' == c.(red := c.red[x := false])
    ensures Sane(t', c')
  {
    assert Store(t');
    forall p | p in t'.nodes ensures LinkOk(t', p) { assert LinkOk(t, p); }
    forall p | p in t'.nodes
      ensures BalOk(t', c', p) && RedOk(t', c', p, NULL) { assert BalOk(t, c, p) && LinkOk(t, p); }
  }

  method ClearNode(tree: RbTree, x: Ptr)
    modifies tree`parent, tree`left, tree`right, tree`red
    ensures tree.parent == old(tree.parent)[x := NULL] && tree.left == old(tree.left)[x := NULL]
            && tree.right == old(tree.right)[x := NULL]
    ensures tree.red == old(tree.red)[x := false]
  {
    tree.parent := tree.parent[x := NULL];
    tree.left := tree.left[x := NULL];
    tree.right := tree.right[x := NULL];
    tree.red := tree.red[x := false];
  }

  /** Nodes and intervals of the store follow the unlinked tree; where two nodes were exchanged, bounds move from one
      key to the other. */
  method Settle(tree: RbTree, x: Ptr, s: Ptr, ghost t: Tree)
    requires Store(t) && HasLinks(tree, t) && x !in t.nodes && NULL !in t.nodes
    requires s == x ==> t.key == tree.key
    requires s != x ==> s in t.nodes && s in tree.key && x in tree.key && t.key == Swapped(tree.key, x, s)
    requires s != x ==> tree.key[x] < tree.key[s] && In(t.lo[s], tree.key[s], t.hi[s])
    requires s != x ==> Adjacent(t.nodes, tree.key, x, s)
    modifies tree`nodes, tree`lo, tree`hi
    ensures tree.nodes == t.nodes && (s != x ==> s in tree.key)
            && Settled(t, tree.View(), s, if s == x then 0 else tree.key[s])
  {
    tree.nodes := t.nodes;
    if s == x {
      tree.lo, tree.hi := t.lo, t.hi;
    } else {
      ghost var k, k' := tree.key[x], tree.key[s];
      tree.lo := map p | p in t.nodes :: Moved(t.lo[p], k, k');
      tree.hi := map p | p in t.nodes :: Moved(t.hi[p], k, k');
      ghost var t' := tree.View();
      assert Store(t');
      forall p | p in t.nodes ensures RekeyedAt(t, t', s, k', p) { }
    }
  }

  /** What the pointer part of rbtree_delete achieves, whether or not two nodes were exchanged. */
  ghost predicate Detached(t: Tree, c: Paint, x: Ptr, ch: Ptr, up: Ptr, t1: Tree, t2: Tree, s: Ptr, k': int)
  {
    && Sane(t1, c) && Unlinked(t1, t2, x, ch) && up == t1.parent[x] && Settled(t2, t, s, k')
    && t.nodes == t1.nodes - {x}
  }

  /** At most one child: no exchange. */
  method Detach(tree: RbTree, x: Ptr) returns (ch: Ptr, up: Ptr, ghost t1: Tree, ghost t2: Tree)
    requires Sane(tree.View(), tree.Hue()) && x in tree.nodes && (tree.left[x] == NULL || tree.right[x] == NULL)
    modifies tree`left, tree`right, tree`parent, tree`root, tree`nodes, tree`lo, tree`hi
    ensures Detached(tree.View(), tree.Hue(), x, ch, up, t1, t2, x, 0) && tree.nodes == old(tree.nodes) - {x}
  {
    t1 := tree.View();
    ch, up, t2 := TakeOut(tree, x, t1, tree.Hue());
    Settle(tree, x, x, t2);
  }

  /** Two children: exchange with the successor first. */
  method DetachSwapped(tree: RbTree, x: Ptr)
    returns (ch: Ptr, up: Ptr, ghost t1: Tree, ghost t2: Tree, ghost s: Ptr, ghost k': int)
    requires Sane(tree.View(), tree.Hue()) && x in tree.nodes && tree.left[x] != NULL && tree.right[x] != NULL
    modifies tree`left, tree`right, tree`parent, tree`root, tree`nodes, tree`lo, tree`hi, tree`red, tree`h
    ensures Detached(tree.View(), tree.Hue(), x, ch, up, t1, t2, s, k') && tree.nodes == old(tree.nodes) - {x}
  {
    var y := Exchange(tree, x);
    s := y;
    ch, up, t1, t2, k' := TakeSwapped(tree, x, y);
  }

  /** The node at the place of its successor is unlinked. */
  method TakeSwapped(tree: RbTree, x: Ptr, s: Ptr)
    returns (ch: Ptr, up: Ptr, ghost t1: Tree, ghost t2: Tree, ghost k': int)
    requires s in tree.nodes && x in tree.nodes && s != x && x in tree.key && s in tree.key
    requires x in tree.lo && s in tree.lo && x in tree.hi && s in tree.hi
    requires Sane(Places(tree, x, s), tree.Hue()) && tree.left[x] == NULL && tree.right[x] != s
    requires tree.key[x] < tree.key[s] && In(tree.lo[x], tree.key[s], tree.hi[x])
    requires Adjacent(tree.nodes, tree.key, x, s)
    modifies tree`left, tree`right, tree`parent, tree`root, tree`nodes, tree`lo, tree`hi
    ensures Detached(tree.View(), tree.Hue(), x, ch, up, t1, t2, s, k') && tree.nodes == old(tree.nodes) - {x}
  {
    t1 := Places(tree, x, s);
    ch, up, t2 := TakeOut(tree, x, t1, tree.Hue());
    assert UnlinkedAt(t1, t2, x, ch, s);
    k' := tree.key[s];
    Settle(tree, x, s, t2);
  }

  /** The body of rbtree_delete. */
  method RemoveNode(tree: RbTree, x: Ptr)
    requires tree.Valid() && x in tree.nodes
    modifies tree
    ensures tree.Valid() && tree.key == old(tree.key) && tree.nodes == old(tree.nodes) - {x}
  {
    tree.count := tree.count - 1;
    RemoveLinks(tree, x);
  }

  method RemoveLinks(tree: RbTree, x: Ptr)
    requires Sane(tree.View(), tree.Hue()) && x in tree.nodes
    modifies tree`left, tree`right, tree`parent, tree`root, tree`nodes, tree`lo, tree`hi, tree`red, tree`h
    ensures Sane(tree.View(), tree.Hue()) && tree.nodes == old(tree.nodes) - {x}
  {
    if tree.left[x] != NULL && tree.right[x] != NULL {
      var ch, up; ghost var t1, t2, s, k';
      ch, up, t1, t2, s, k' := DetachSwapped(tree, x);
      FinishDelete(tree, x, ch, up, t1, t2, s, k');
    } else {
      var ch, up; ghost var t1, t2;
      ch, up, t1, t2 := Detach(tree, x);
      FinishDelete(tree, x, ch, up, t1, t2, x, 0);
    }
  }

  /** The end of rbtree_delete: colours are repaired and the node itself is cleared. */
  method FinishDelete(tree: RbTree, x: Ptr, ch: Ptr, up: Ptr, ghost t1: Tree, ghost t2: Tree, ghost s: Ptr,
                      ghost k': int)
    requires Detached(tree.View(), tree.Hue(), x, ch, up, t1, t2, s, k')
    modifies tree`red, tree`h, tree`parent, tree`left, tree`right, tree`root, tree`lo, tree`hi
    ensures Sane(tree.View(), tree.Hue())
  {
    Recolour(tree, x, ch, up, t1, t2, s, k');
    ghost var t3, c3 := tree.View(), tree.Hue();
    ClearNode(tree, x);
    OffTree(t3, tree.View(), c3, tree.Hue(), x);
  }
}
