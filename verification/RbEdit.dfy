/** How inserting and deleting a node changes the store of a red-black tree, before colours are repaired. */
module RbEdit {
  import opened RbShape

  // -------------------------------------------------------------------- a new leaf

  /** The free place below `u` (or at the root) where a node with key `k` belongs. */
  ghost predicate FreePlace(t: Tree, u: Ptr, toLeft: bool, k: int)
    requires Store(t)
  {
    if u == NULL then t.root == NULL
    else
      && u in t.nodes
      && if toLeft then t.left[u] == NULL && In(t.lo[u], k, At(t.key[u]))
         else t.right[u] == NULL && In(At(t.key[u]), k, t.hi[u])
  }

  ghost predicate LeafAdded(t: Tree, t': Tree, n: Ptr, k: int, u: Ptr, toLeft: bool)
    requires Store(t) && FreePlace(t, u, toLeft, k)
  {
    && n !in t.nodes && n != NULL && t'.nodes == t.nodes + {n} && Store(t')
    && t'.root == (if u == NULL then n else t.root)
    && t'.key[n] == k && t'.parent[n] == u && t'.left[n] == t'.right[n] == NULL
    && t'.lo[n] == (if u == NULL then Inf else if toLeft then t.lo[u] else At(t.key[u]))
    && t'.hi[n] == (if u == NULL then Inf else if toLeft then At(t.key[u]) else t.hi[u])
    && forall p {:trigger LeafAddedAt(t, t', n, u, toLeft, p)} :: p in t.nodes ==> LeafAddedAt(t, t', n, u, toLeft, p)
  }

  ghost predicate LeafAddedAt(t: Tree, t': Tree, n: Ptr, u: Ptr, toLeft: bool, p: Ptr)
    requires Store(t) && Store(t') && p in t.nodes && p in t'.nodes
  {
    && t'.key[p] == t.key[p] && t'.lo[p] == t.lo[p] && t'.hi[p] == t.hi[p] && t'.parent[p] == t.parent[p]
    && t'.left[p] == (if p == u && toLeft then n else t.left[p])
    && t'.right[p] == (if p == u && !toLeft then n else t.right[p])
  }

  lemma LeafAddedShape(t: Tree, t': Tree, n: Ptr, k: int, u: Ptr, toLeft: bool)
    requires Shape(t) && FreePlace(t, u, toLeft, k) && LeafAdded(t, t', n, k, u, toLeft)
    ensures Shape(t')
  {
    forall p | p in t'.nodes ensures LinkOk(t', p) {
      if u != NULL { assert LeafAddedAt(t, t', n, u, toLeft, u); }
      if p != n {
        assert LinkOk(t, p) && LeafAddedAt(t, t', n, u, toLeft, p);
        if t.left[p] != NULL { assert LeafAddedAt(t, t', n, u, toLeft, t.left[p]); }
        if t.right[p] != NULL { assert LeafAddedAt(t, t', n, u, toLeft, t.right[p]); }
        if t.parent[p] != NULL { assert LeafAddedAt(t, t', n, u, toLeft, t.parent[p]); }
      }
    }
  }

  /** A new red leaf only leaves a possible red parent to be repaired. */
  lemma LeafAddedFixing(t: Tree, t': Tree, c: Paint, c': Paint, n: Ptr, k: int, u: Ptr, toLeft: bool)
    requires Sane(t, c) && FreePlace(t, u, toLeft, k) && LeafAdded(t, t', n, k, u, toLeft)
    requires c'.red == c.red[n := true] && c'.h == c.h[n := 0]
    ensures Fixing(t', c', n)
  {
    LeafAddedShape(t, t', n, k, u, toLeft);
    forall p | p in t'.nodes ensures BalOk(t', c', p) && RedOk(t', c', p, n) {
      assert LinkOk(t', p);
      if p != n { assert BalOk(t, c, p) && LinkOk(t, p) && LeafAddedAt(t, t', n, u, toLeft, p); }
    }
  }

  // -------------------------------------------------------------------- two nodes exchange their places

  function Swap(x: Ptr, y: Ptr, p: Ptr): Ptr
  {
    if p == x then y else if p == y then x else p
  }

  ghost predicate Exchanged(t: Tree, t': Tree, x: Ptr, y: Ptr)
    requires Store(t)
  {
    && x in t.nodes && y in t.nodes && t'.nodes == t.nodes && Store(t') && t'.root == Swap(x, y, t.root)
    && forall p {:trigger ExchangedAt(t, t', x, y, p)} :: p in t.nodes ==> ExchangedAt(t, t', x, y, p)
  }

  ghost predicate ExchangedAt(t: Tree, t': Tree, x: Ptr, y: Ptr, p: Ptr)
    requires Store(t) && Store(t') && x in t.nodes && y in t.nodes && t'.nodes == t.nodes && p in t.nodes
  {
    var q := Swap(x, y, p);
    && t'.key[p] == t.key[q] && t'.lo[p] == t.lo[q] && t'.hi[p] == t.hi[q]
    && t'.parent[p] == Swap(x, y, t.parent[q]) && t'.left[p] == Swap(x, y, t.left[q])
    && t'.right[p] == Swap(x, y, t.right[q])
  }

  lemma ExchangedSane(t: Tree, t': Tree, c: Paint, c': Paint, x: Ptr, y: Ptr)
    requires Sane(t, c) && Exchanged(t, t', x, y)
    requires c'.red == c.red[x := c.red[y]][y := c.red[x]] && c'.h == c.h[x := c.h[y]][y := c.h[x]]
    ensures Sane(t', c')
  {
    assert Painted(t', c');
    forall p | p in t'.nodes ensures LinkOk(t', p) {
      ExchangedUp(t, t', x, y, p);
      ExchangedDown(t, t', x, y, p);
    }
    assert Shape(t');
    ExchangedColors(t, t', c, c', x, y);
  }

  lemma ExchangedColors(t: Tree, t': Tree, c: Paint, c': Paint, x: Ptr, y: Ptr)
    requires Balanced(t, c) && Exchanged(t, t', x, y) && Painted(t', c')
    requires c'.red == c.red[x := c.red[y]][y := c.red[x]] && c'.h == c.h[x := c.h[y]][y := c.h[x]]
    ensures Balanced(t', c')
  {
    ExchangedVal(t, t', c, c', x, y, t.root);
    forall p | p in t'.nodes ensures BalOk(t', c', p) && RedOk(t', c', p, NULL) {
      var q := Swap(x, y, p);
      assert BalOk(t, c, q) && ExchangedAt(t, t', x, y, p);
      ExchangedVal(t, t', c, c', x, y, t.left[q]);
      ExchangedVal(t, t', c, c', x, y, t.right[q]);
    }
  }

  lemma ExchangedVal(t: Tree, t': Tree, c: Paint, c': Paint, x: Ptr, y: Ptr, p: Ptr)
    requires Painted(t, c) && Painted(t', c') && x in t.nodes && y in t.nodes && t'.nodes == t.nodes
             && (p in t.nodes || p == NULL)
    requires c'.red == c.red[x := c.red[y]][y := c.red[x]] && c'.h == c.h[x := c.h[y]][y := c.h[x]]
    ensures Val(t', c', Swap(x, y, p)) == Val(t, c, p) && c'.red[Swap(x, y, p)] == c.red[p]
  {
  }

  lemma ExchangedUp(t: Tree, t': Tree, x: Ptr, y: Ptr, p: Ptr)
    requires Shape(t) && Exchanged(t, t', x, y) && p in t.nodes
    ensures UpOk(t', p)
  {
    var q := Swap(x, y, p);
    assert LinkOk(t, q) && ExchangedAt(t, t', x, y, p);
    var u := t.parent[q];
    if u != NULL { assert ExchangedAt(t, t', x, y, Swap(x, y, u)); }
  }

  lemma ExchangedDown(t: Tree, t': Tree, x: Ptr, y: Ptr, p: Ptr)
    requires Shape(t) && Exchanged(t, t', x, y) && p in t.nodes
    ensures LeftOk(t', p) && RightOk(t', p)
  {
    var q := Swap(x, y, p);
    assert LinkOk(t, q) && ExchangedAt(t, t', x, y, p);
    var l, r := t.left[q], t.right[q];
    if l != NULL { assert ExchangedAt(t, t', x, y, Swap(x, y, l)); }
    if r != NULL { assert ExchangedAt(t, t', x, y, Swap(x, y, r)); }
  }

  // -------------------------------------------------------------------- a node with at most one child leaves

  /** `ch` takes the place of `x`. */
  ghost predicate Unlinked(t: Tree, t': Tree, x: Ptr, ch: Ptr)
    requires Store(t)
  {
    && x in t.nodes && t'.nodes == t.nodes - {x} && Store(t')
    && (ch == NULL || (ch in t.nodes && ch != x && t.left[ch] == t.right[ch] == NULL))
    && ((t.left[x] == ch && t.right[x] == NULL) || (t.left[x] == NULL && t.right[x] == ch))
    && t'.root == (if t.root == x then ch else t.root)
    && forall p {:trigger UnlinkedAt(t, t', x, ch, p)} :: p in t'.nodes ==> UnlinkedAt(t, t', x, ch, p)
  }

  ghost predicate UnlinkedAt(t: Tree, t': Tree, x: Ptr, ch: Ptr, p: Ptr)
    requires Store(t) && Store(t') && p in t.nodes && p in t'.nodes && x in t.nodes
  {
    && t'.key[p] == t.key[p]
    && t'.lo[p] == (if p == ch then t.lo[x] else t.lo[p]) && t'.hi[p] == (if p == ch then t.hi[x] else t.hi[p])
    && t'.parent[p] == (if p == ch then t.parent[x] else t.parent[p])
    && t'.left[p] == (if t.left[p] == x then ch else t.left[p])
    && t'.right[p] == (if t.right[p] == x then ch else t.right[p])
  }

  lemma UnlinkedShape(t: Tree, t': Tree, c: Paint, x: Ptr, ch: Ptr)
    requires Sane(t, c) && Unlinked(t, t', x, ch)
    ensures Shape(t')
  {
    assert LinkOk(t, x);
    if t.root == x { OnlyChild(t, c, x, ch); }
    forall p | p in t'.nodes ensures LinkOk(t', p) {
      UnlinkedUp(t, t', x, ch, p);
      UnlinkedDown(t, t', x, ch, p);
    }
  }

  /** Below a root with at most one child, which is a leaf, there is nothing else. */
  lemma OnlyChild(t: Tree, c: Paint, x: Ptr, ch: Ptr)
    requires Sane(t, c) && x == t.root && x in t.nodes
             && ((t.left[x] == ch && t.right[x] == NULL) || (t.left[x] == NULL && t.right[x] == ch))
    requires ch == NULL || (ch in t.nodes && t.left[ch] == t.right[ch] == NULL)
    ensures t.nodes == if ch == NULL then {x} else {x, ch}
  {
    forall q | q in t.nodes && q != x ensures q == ch && ch != NULL {
      RootAbove(t, c, q);
      AboveSide(t, c, x, q);
      if q != ch { AboveSide(t, c, ch, q); }
    }
  }

  lemma UnlinkedUp(t: Tree, t': Tree, x: Ptr, ch: Ptr, p: Ptr)
    requires Shape(t) && Unlinked(t, t', x, ch) && p in t'.nodes
    ensures UpOk(t', p)
  {
    assert LinkOk(t, p) && LinkOk(t, x) && UnlinkedAt(t, t', x, ch, p);
    if t.parent[p] != NULL && t.parent[p] != x { assert UnlinkedAt(t, t', x, ch, t.parent[p]); }
    if t.parent[x] != NULL { assert LinkOk(t, t.parent[x]);
                             if t.parent[x] != x { assert UnlinkedAt(t, t', x, ch, t.parent[x]); } }
  }

  lemma UnlinkedDown(t: Tree, t': Tree, x: Ptr, ch: Ptr, p: Ptr)
    requires Shape(t) && Unlinked(t, t', x, ch) && p in t'.nodes
    ensures LeftOk(t', p) && RightOk(t', p)
  {
    assert LinkOk(t, p) && LinkOk(t, x) && UnlinkedAt(t, t', x, ch, p);
    if ch != NULL { assert UnlinkedAt(t, t', x, ch, ch); }
    if t'.left[p] != NULL { assert UnlinkedAt(t, t', x, ch, t'.left[p]); }
    if t'.right[p] != NULL { assert UnlinkedAt(t, t', x, ch, t'.right[p]); }
  }

  /** With one child missing, the other is missing too or is a red leaf. */
  lemma LeafBelow(t: Tree, c: Paint, x: Ptr, ch: Ptr)
    requires Sane(t, c) && x in t.nodes
             && ((t.left[x] == ch && t.right[x] == NULL) || (t.left[x] == NULL && t.right[x] == ch))
    ensures ch != NULL ==> ch in t.nodes && ch != x && c.red[ch] && !c.red[x] && t.left[ch] == t.right[ch] == NULL
    ensures c.h[x] == 0
  {
    assert LinkOk(t, x) && BalOk(t, c, x);
    if ch != NULL { assert BalOk(t, c, ch) && LinkOk(t, ch); }
  }

  /** A red node is gone, or its red child took its place in black. */
  lemma UnlinkedBalanced(t: Tree, t': Tree, c: Paint, c': Paint, x: Ptr, ch: Ptr)
    requires Sane(t, c) && Unlinked(t, t', x, ch) && (c.red[x] || ch != NULL)
    requires c'.h == c.h && c'.red == if ch == NULL then c.red else c.red[ch := false]
    ensures Sane(t', c')
  {
    UnlinkedShape(t, t', c, x, ch);
    LeafBelow(t, c, x, ch);
    assert LinkOk(t, x) && BalOk(t, c, x);
    assert Painted(t', c');
    forall p | p in t'.nodes ensures BalOk(t', c', p) && RedOk(t', c', p, NULL) {
      assert LinkOk(t, p) && BalOk(t, c, p) && LinkOk(t', p) && UnlinkedAt(t, t', x, ch, p);
      if ch != NULL { assert BalOk(t, c, ch) && LinkOk(t, ch); }
    }
  }

  /** A black leaf is gone: its parent, if any, has a deficit on that side. */
  lemma UnlinkedDeficit(t: Tree, t': Tree, c: Paint, x: Ptr, u: Ptr)
    requires Sane(t, c) && Unlinked(t, t', x, NULL) && !c.red[x] && u == t.parent[x]
    ensures u == NULL ==> Sane(t', c)
    ensures u != NULL ==> u in t.nodes && (t.left[u] == x || t.right[u] == x)
    ensures u != NULL && t.left[u] == x ==> Deficit(t', c, u)
    ensures u != NULL && t.right[u] == x ==> Deficit(Mirror(t'), c, u)
  {
    UnlinkedShape(t, t', c, x, NULL);
    LeafBelow(t, c, x, NULL);
    assert LinkOk(t, x);
    if u == NULL {
      OnlyChild(t, c, x, NULL);
    } else {
      assert LinkOk(t, u) && BalOk(t, c, u) && UnlinkedAt(t, t', x, NULL, u);
      forall p | p in t'.nodes && p != u ensures BalOk(t', c, p) && RedOk(t', c, p, NULL) {
        assert LinkOk(t, p) && BalOk(t, c, p) && UnlinkedAt(t, t', x, NULL, p);
      }
      if t.right[u] == x { MirrorDeficit(t', c, u); }
    }
  }

  // -------------------------------------------------------------------- one key grows within its gap

  /** Node `s` has a greater key, and the bounds that were its key follow. */
  ghost predicate Rekeyed(t: Tree, t': Tree, s: Ptr, k': int)
    requires Store(t)
  {
    && s in t.nodes && t'.nodes == t.nodes && Store(t') && t'.root == t.root && t.key[s] < k'
    && In(t.lo[s], k', t.hi[s])
    && forall p {:trigger RekeyedAt(t, t', s, k', p)} :: p in t.nodes ==> RekeyedAt(t, t', s, k', p)
  }

  function Moved(b: Bound, k: int, k': int): Bound
  {
    if b == At(k) then At(k') else b
  }

  ghost predicate RekeyedAt(t: Tree, t': Tree, s: Ptr, k': int, p: Ptr)
    requires Store(t) && Store(t') && s in t.nodes && p in t.nodes && t'.nodes == t.nodes
  {
    && t'.parent[p] == t.parent[p] && t'.left[p] == t.left[p] && t'.right[p] == t.right[p]
    && t'.key[p] == (if p == s then k' else t.key[p])
    && t'.lo[p] == Moved(t.lo[p], t.key[s], k') && t'.hi[p] == Moved(t.hi[p], t.key[s], k')
    && (p == s || (t.key[p] != t.key[s] && (t.key[p] > t.key[s] ==> t.key[p] > k')))
  }

  lemma RekeyedShape(t: Tree, t': Tree, s: Ptr, k': int)
    requires Shape(t) && Rekeyed(t, t', s, k')
    ensures Shape(t')
  {
    forall p | p in t'.nodes ensures LinkOk(t', p) {
      assert LinkOk(t, p) && RekeyedAt(t, t', s, k', p);
      if t.left[p] != NULL { assert RekeyedAt(t, t', s, k', t.left[p]); }
      if t.right[p] != NULL { assert RekeyedAt(t, t', s, k', t.right[p]); }
      if t.parent[p] != NULL { assert RekeyedAt(t, t', s, k', t.parent[p]); }
    }
  }

  lemma RekeyedSane(t: Tree, t': Tree, c: Paint, s: Ptr, k': int)
    requires Sane(t, c) && Rekeyed(t, t', s, k')
    ensures Sane(t', c)
  {
    RekeyedShape(t, t', s, k');
    forall p | p in t'.nodes ensures BalOk(t', c, p) && RedOk(t', c, p, NULL) {
      assert BalOk(t, c, p) && RekeyedAt(t, t', s, k', p);
    }
  }

  lemma RekeyedDeficit(t: Tree, t': Tree, c: Paint, s: Ptr, k': int, u: Ptr)
    requires Deficit(t, c, u) && Rekeyed(t, t', s, k')
    ensures Deficit(t', c, u)
  {
    RekeyedShape(t, t', s, k');
    assert RekeyedAt(t, t', s, k', u);
    forall p | p in t'.nodes && p != u ensures BalOk(t', c, p) && RedOk(t', c, p, NULL) {
      assert BalOk(t, c, p) && RekeyedAt(t, t', s, k', p);
    }
  }

  /** The same for a deficit on the right. */
  lemma RekeyedMirror(t: Tree, t': Tree, c: Paint, s: Ptr, k': int, u: Ptr)
    requires Shape(t) && Deficit(Mirror(t), c, u) && Rekeyed(t, t', s, k')
    ensures Deficit(Mirror(t'), c, u)
  {
    RekeyedShape(t, t', s, k');
    assert RekeyedAt(t, t', s, k', u) && Painted(t', c);
    forall p | p in t'.nodes && p != u ensures BalOk(t', c, p) && RedOk(t', c, p, NULL) {
      assert BalOk(Mirror(t), c, p) && RekeyedAt(t, t', s, k', p);
    }
    MirrorDeficit(t', c, u);
  }
}
