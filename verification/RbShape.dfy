/** The store of a red-black tree as one map per node field, and what makes it a search tree.

    All conditions on the store are local to a node and its neighbours.  Each node carries an open
    interval for the keys of its subtree; the sentinel is address 0 and is part of the store. */
module RbShape {

  type Ptr = nat
  const NULL: Ptr := 0

  datatype Bound = Inf | At(k: int)

  predicate In(lo: Bound, k: int, hi: Bound)
  {
    (lo.At? ==> lo.k < k) && (hi.At? ==> k < hi.k)
  }

  datatype Tree = Tree(nodes: set<Ptr>, key: map<Ptr, int>, parent: map<Ptr, Ptr>, left: map<Ptr, Ptr>, right: map<Ptr,
                       Ptr>, root: Ptr,
                       lo: map<Ptr, Bound>, hi: map<Ptr, Bound>)

  /** Every field can be read at every node and at the sentinel, and the sentinel has its initial links. */
  ghost predicate Store(t: Tree)
  {
    && NULL !in t.nodes && t.root in t.nodes + {NULL}
    && NULL in t.parent && NULL in t.left && NULL in t.right
    && (forall p :: p in t.nodes ==> p in t.parent && p in t.left && p in t.right)
    && (forall p :: p in t.nodes ==> p in t.key && p in t.lo && p in t.hi)
    && t.parent[NULL] == t.left[NULL] == t.right[NULL] == NULL
  }

  /** The place of one node: its key lies in its interval, and it hangs below its parent or is the root. */
  ghost predicate UpOk(t: Tree, p: Ptr)
    requires Store(t) && p in t.nodes
  {
    && In(t.lo[p], t.key[p], t.hi[p])
    && if p == t.root then t.parent[p] == NULL && t.lo[p] == Inf && t.hi[p] == Inf
       else t.parent[p] in t.nodes && (t.left[t.parent[p]] == p || t.right[t.parent[p]] == p)
  }

  ghost predicate LeftOk(t: Tree, p: Ptr)
    requires Store(t) && p in t.nodes
  {
    var c := t.left[p];
    c != NULL ==> c in t.nodes && t.parent[c] == p && t.lo[c] == t.lo[p] && t.hi[c] == At(t.key[p])
  }

  ghost predicate RightOk(t: Tree, p: Ptr)
    requires Store(t) && p in t.nodes
  {
    var c := t.right[p];
    c != NULL ==> c in t.nodes && t.parent[c] == p && t.lo[c] == At(t.key[p]) && t.hi[c] == t.hi[p]
  }

  /** Links of one node, both ways, with the intervals that go with them. */
  ghost predicate LinkOk(t: Tree, p: Ptr)
    requires Store(t) && p in t.nodes
  {
    UpOk(t, p) && LeftOk(t, p) && RightOk(t, p)
  }

  ghost predicate Shape(t: Tree)
  {
    && Store(t) && (t.root == NULL ==> t.nodes == {})
    && forall p {:trigger LinkOk(t, p)} :: p in t.nodes ==> LinkOk(t, p)
  }

  // -------------------------------------------------------------------- rotations

  /** `t'` is `t` with the link from `x` down to its right child `y` turned to the left. */
  ghost predicate TurnedLeft(t: Tree, t': Tree, x: Ptr, y: Ptr)
    requires Store(t)
  {
    && x in t.nodes && y in t.nodes && t.right[x] == y
    && Store(t') && t'.nodes == t.nodes && t'.key == t.key
    && t'.root == (if x == t.root then y else t.root)
    && forall p {:trigger TurnedAt(t, t', x, y, p)} :: p in t.nodes ==> TurnedAt(t, t', x, y, p)
  }

  ghost predicate TurnedAt(t: Tree, t': Tree, x: Ptr, y: Ptr, p: Ptr)
    requires Store(t) && Store(t') && x in t.nodes && y in t.nodes && t'.nodes == t.nodes && p in t.nodes
  {
    && t'.left[p] == (if p == y then x else if t.left[p] == x then y else t.left[p])
    && t'.right[p] == (if p == x then t.left[y] else if t.right[p] == x then y else t.right[p])
    && t'.parent[p] == (if p == x then y else if p == y then t.parent[x] else if p == t.left[y] then x else t.parent[p])
    && t'.lo[p] == (if p == y then t.lo[x] else t.lo[p])
    && t'.hi[p] == (if p == x then At(t.key[y]) else t.hi[p])
  }

  lemma TurnedLeftShape(t: Tree, t': Tree, x: Ptr, y: Ptr)
    requires Shape(t) && TurnedLeft(t, t', x, y)
    ensures Shape(t')
  {
    assert LinkOk(t, x) && LinkOk(t, y);
    assert TurnedAt(t, t', x, y, x) && TurnedAt(t, t', x, y, y);
    forall p | p in t'.nodes ensures LinkOk(t', p) {
      TurnedLeftUp(t, t', x, y, p);
      TurnedLeftLeft(t, t', x, y, p);
      TurnedLeftRight(t, t', x, y, p);
    }
  }

  lemma TurnedLeftUp(t: Tree, t': Tree, x: Ptr, y: Ptr, p: Ptr)
    requires Shape(t) && TurnedLeft(t, t', x, y) && p in t.nodes
    ensures UpOk(t', p)
  {
    assert LinkOk(t, x) && LinkOk(t, y) && LinkOk(t, p);
    assert TurnedAt(t, t', x, y, x) && TurnedAt(t, t', x, y, y) && TurnedAt(t, t', x, y, p);
    var u := t.parent[p];
    if u != NULL { assert TurnedAt(t, t', x, y, u); }
    if t.parent[x] != NULL { assert TurnedAt(t, t', x, y, t.parent[x]); }
  }

  lemma TurnedLeftLeft(t: Tree, t': Tree, x: Ptr, y: Ptr, p: Ptr)
    requires Shape(t) && TurnedLeft(t, t', x, y) && p in t.nodes
    ensures LeftOk(t', p)
  {
    assert LinkOk(t, x) && LinkOk(t, y) && LinkOk(t, p);
    assert TurnedAt(t, t', x, y, x) && TurnedAt(t, t', x, y, y) && TurnedAt(t, t', x, y, p);
    var c := t.left[p];
    if c != NULL { assert LinkOk(t, c) && TurnedAt(t, t', x, y, c); }
  }

  lemma TurnedLeftRight(t: Tree, t': Tree, x: Ptr, y: Ptr, p: Ptr)
    requires Shape(t) && TurnedLeft(t, t', x, y) && p in t.nodes
    ensures RightOk(t', p)
  {
    assert LinkOk(t, x) && LinkOk(t, y) && LinkOk(t, p);
    assert TurnedAt(t, t', x, y, x) && TurnedAt(t, t', x, y, y) && TurnedAt(t, t', x, y, p);
    var c := if p == x then t.left[y] else t.right[p];
    if c != NULL { assert LinkOk(t, c) && TurnedAt(t, t', x, y, c); }
  }

  // -------------------------------------------------------------------- left and right exchanged

  function Neg(b: Bound): Bound
  {
    if b.Inf? then Inf else At(-b.k)
  }

  /** The same tree seen in a mirror: left and right exchanged, keys negated. */
  function Mirror(t: Tree): Tree
    requires forall p :: p in t.nodes ==> p in t.key && p in t.lo && p in t.hi
  {
    t.(left := t.right, right := t.left,
       key := map p | p in t.nodes :: -t.key[p],
       lo := map p | p in t.nodes :: Neg(t.hi[p]),
       hi := map p | p in t.nodes :: Neg(t.lo[p]))
  }

  lemma MirrorStore(t: Tree)
    requires Store(t)
    ensures Store(Mirror(t))
  {
  }

  lemma MirrorShape(t: Tree)
    requires Shape(t)
    ensures Shape(Mirror(t))
  {
    MirrorStore(t);
    forall p | p in t.nodes ensures LinkOk(Mirror(t), p) {
      assert LinkOk(t, p);
    }
  }

  /** Conditions on a mirrored tree carry over to the tree itself. */
  lemma UnmirrorShape(t: Tree)
    requires Store(t) && Shape(Mirror(t))
    ensures Shape(t)
  {
    forall p | p in t.nodes ensures LinkOk(t, p) {
      assert LinkOk(Mirror(t), p);
    }
  }

  /** `t'` is `t` with the link from `x` down to its left child `y` turned to the right. */
  ghost predicate TurnedRight(t: Tree, t': Tree, x: Ptr, y: Ptr)
    requires Store(t)
  {
    && x in t.nodes && y in t.nodes && t.left[x] == y
    && Store(t') && t'.nodes == t.nodes && t'.key == t.key
    && t'.root == (if x == t.root then y else t.root)
    && forall p {:trigger TurnedRightAt(t, t', x, y, p)} :: p in t.nodes ==> TurnedRightAt(t, t', x, y, p)
  }

  ghost predicate TurnedRightAt(t: Tree, t': Tree, x: Ptr, y: Ptr, p: Ptr)
    requires Store(t) && Store(t') && x in t.nodes && y in t.nodes && t'.nodes == t.nodes && p in t.nodes
  {
    && t'.left[p] == (if p == x then t.right[y] else if t.left[p] == x then y else t.left[p])
    && t'.right[p] == (if p == y then x else if t.right[p] == x then y else t.right[p])
    && t'.parent[p] == (if p == x then y else if p == y then t.parent[x] else if p == t.right[y] then x
                        else t.parent[p])
    && t'.hi[p] == (if p == y then t.hi[x] else t.hi[p])
    && t'.lo[p] == (if p == x then At(t.key[y]) else t.lo[p])
  }

  lemma TurnedRightMirror(t: Tree, t': Tree, x: Ptr, y: Ptr)
    requires Store(t) && TurnedRight(t, t', x, y)
    ensures Store(Mirror(t)) && TurnedLeft(Mirror(t), Mirror(t'), x, y)
  {
    MirrorStore(t);
    MirrorStore(t');
    var m, m' := Mirror(t), Mirror(t');
    assert m'.key == m.key;
    forall p | p in t.nodes ensures TurnedAt(m, m', x, y, p) { assert TurnedRightAt(t, t', x, y, p); }
  }

  lemma TurnedRightShape(t: Tree, t': Tree, x: Ptr, y: Ptr)
    requires Shape(t) && TurnedRight(t, t', x, y)
    ensures Shape(t')
  {
    MirrorShape(t);
    TurnedRightMirror(t, t', x, y);
    TurnedLeftShape(Mirror(t), Mirror(t'), x, y);
    UnmirrorShape(t');
  }

  // -------------------------------------------------------------------- colours and black heights

  /** Colours, and for each node the number of black nodes on the ways down from it, itself not counted. */
  datatype Paint = Paint(red: map<Ptr, bool>, h: map<Ptr, nat>)

  ghost predicate Painted(t: Tree, c: Paint)
  {
    && Store(t) && NULL in c.red && !c.red[NULL]
    && forall p :: p in t.nodes ==> p in c.red && p in c.h
  }

  /** Black nodes on the ways down from `p`, itself counted. */
  ghost function Val(t: Tree, c: Paint, p: Ptr): int
    requires Painted(t, c) && (p in t.nodes || p == NULL)
  {
    if p == NULL then 0 else c.h[p] + if c.red[p] then 0 else 1
  }

  ghost predicate Linked(t: Tree, p: Ptr)
    requires Store(t) && p in t.nodes
  {
    (t.left[p] == NULL || t.left[p] in t.nodes) && (t.right[p] == NULL || t.right[p] in t.nodes)
  }

  ghost predicate BalOk(t: Tree, c: Paint, p: Ptr)
    requires Painted(t, c) && p in t.nodes
  {
    Linked(t, p) && Val(t, c, t.left[p]) == c.h[p] == Val(t, c, t.right[p])
  }

  /** No red child below a red node, the child `but` excepted. */
  ghost predicate RedOk(t: Tree, c: Paint, p: Ptr, but: Ptr)
    requires Painted(t, c) && p in t.nodes
  {
    Linked(t, p) && (c.red[p] ==> (t.left[p] == but || !c.red[t.left[p]]) && (t.right[p] == but || !c.red[t.right[p]]))
  }

  /** The colours are right, except that `but` and its parent may both be red. */
  ghost predicate Colored(t: Tree, c: Paint, but: Ptr)
  {
    && Painted(t, c)
    && forall p {:trigger BalOk(t, c, p)} :: p in t.nodes ==> BalOk(t, c, p) && RedOk(t, c, p, but)
  }

  ghost predicate Balanced(t: Tree, c: Paint)
  {
    Colored(t, c, NULL) && !c.red[t.root]
  }

  ghost predicate Fixing(t: Tree, c: Paint, node: Ptr)
  {
    Shape(t) && Colored(t, c, node) && node in t.nodes && c.red[node] && (node == t.root || !c.red[t.root])
  }

  lemma MirrorColored(t: Tree, c: Paint, but: Ptr)
    requires Colored(t, c, but)
    ensures Colored(Mirror(t), c, but)
  {
    forall p | p in t.nodes ensures BalOk(Mirror(t), c, p) && RedOk(Mirror(t), c, p, but) {
      assert BalOk(t, c, p);
    }
  }

  lemma UnmirrorColored(t: Tree, c: Paint, but: Ptr)
    requires Store(t) && Colored(Mirror(t), c, but)
    ensures Colored(t, c, but)
  {
    forall p | p in t.nodes ensures BalOk(t, c, p) && RedOk(t, c, p, but) {
      assert BalOk(Mirror(t), c, p);
    }
  }

  // -------------------------------------------------------------------- repairs after an insertion

  ghost predicate Red(c: Paint, p: Ptr)
  {
    p in c.red && c.red[p]
  }

  /** A node whose colour and height are as before has the same value. */
  lemma Untouched(t: Tree, t': Tree, c: Paint, c': Paint, q: Ptr)
    requires Painted(t, c) && Painted(t', c') && t'.nodes == t.nodes && (q == NULL || q in t.nodes)
    requires q != NULL ==> c'.red[q] == c.red[q] && c'.h[q] == c.h[q]
    ensures Val(t', c', q) == Val(t, c, q) && c'.red[q] == c.red[q]
  {
  }

  /** Nodes do not share children. */
  lemma NotShared(t: Tree, p: Ptr, p': Ptr, q: Ptr)
    requires Shape(t) && p in t.nodes && p' in t.nodes && p != p' && q != NULL && (q == t.left[p] || q == t.right[p])
    ensures q in t.nodes && q != t.left[p'] && q != t.right[p']
  {
    assert LinkOk(t, p) && LinkOk(t, p');
  }

  /** Two nodes are painted; the others are as before. */
  lemma TwoPainted(red: map<Ptr, bool>, a: Ptr, x: bool, b: Ptr, y: bool, q: Ptr)
    requires q in red && q != a && q != b
    ensures red[a := x][b := y][q] == red[q]
  {
  }

  lemma ThreePainted(red: map<Ptr, bool>, a: Ptr, x: bool, b: Ptr, y: bool, d: Ptr, z: bool, q: Ptr)
    requires q in red && q != a && q != b && q != d
    ensures red[a := x][b := y][d := z][q] == red[q]
  {
  }

  /** Parent and uncle are red. */
  ghost predicate RedUncle(t: Tree, c: Paint, node: Ptr, g: Ptr)
  {
    && Fixing(t, c, node) && g in t.nodes && t.parent[node] in t.nodes && t.parent[t.parent[node]] == g
    && t.left[g] in t.nodes && t.right[g] in t.nodes && c.red[t.left[g]] && c.red[t.right[g]]
  }

  /** Parent and uncle are painted black and the grandparent red. */
  lemma Recolor(t: Tree, c: Paint, c': Paint, node: Ptr, g: Ptr)
    requires RedUncle(t, c, node, g)
    requires c'.red == c.red[t.left[g] := false][t.right[g] := false][g := true] && c'.h == c.h[g := c.h[g] + 1]
    ensures Fixing(t, c', g)
  {
    assert LinkOk(t, g) && LinkOk(t, node);
    assert Painted(t, c');
    forall p | p in t.nodes ensures BalOk(t, c', p) && RedOk(t, c', p, g) {
      RecolorAt(t, c, c', node, g, p);
    }
  }

  lemma RecolorAt(t: Tree, c: Paint, c': Paint, node: Ptr, g: Ptr, p: Ptr)
    requires RedUncle(t, c, node, g) && p in t.nodes && Painted(t, c')
    requires c'.red == c.red[t.left[g] := false][t.right[g] := false][g := true] && c'.h == c.h[g := c.h[g] + 1]
    ensures BalOk(t, c', p) && RedOk(t, c', p, g)
  {
    assert LinkOk(t, g) && BalOk(t, c, g) && BalOk(t, c, p) && LinkOk(t, p);
    RecolorVal(t, c, c', node, g, p, t.left[p]);
    RecolorVal(t, c, c', node, g, p, t.right[p]);
    assert LinkOk(t, node);
  }

  lemma RecolorVal(t: Tree, c: Paint, c': Paint, node: Ptr, g: Ptr, p: Ptr, q: Ptr)
    requires RedUncle(t, c, node, g) && p in t.nodes && Painted(t, c') && (q == t.left[p] || q == t.right[p])
    requires c'.red == c.red[t.left[g] := false][t.right[g] := false][g := true] && c'.h == c.h[g := c.h[g] + 1]
    ensures q == NULL || q in t.nodes
    ensures Val(t, c', q) == if p == g then Val(t, c, q) + 1 else Val(t, c, q)
  {
    assert LinkOk(t, g) && LinkOk(t, p) && BalOk(t, c, g);
    if q != NULL { assert LinkOk(t, q) && LinkOk(t, t.left[g]) && LinkOk(t, t.right[g]); }
    if q == g { assert !c.red[g] by { assert BalOk(t, c, g); assert RedOk(t, c, g, node); assert LinkOk(t, node); } }
  }

  /** The node is an inner grandchild: turn it outwards. */
  lemma TurnInner(t: Tree, t': Tree, c: Paint, node: Ptr, up: Ptr)
    requires Fixing(t, c, node) && up in t.nodes && t.right[up] == node && c.red[up] && TurnedLeft(t, t', up, node)
    ensures Fixing(t', c, up) && t'.parent[up] == node && t'.left[node] == up
  {
    TurnedLeftShape(t, t', up, node);
    assert LinkOk(t, up) && LinkOk(t, node);
    assert TurnedAt(t, t', up, node, up) && TurnedAt(t, t', up, node, node);
    forall p | p in t.nodes ensures BalOk(t', c, p) && RedOk(t', c, p, up) {
      assert BalOk(t, c, p) && LinkOk(t, p) && LinkOk(t', p);
      assert TurnedAt(t, t', up, node, p);
      assert BalOk(t, c, up) && BalOk(t, c, node);
    }
  }

  /** The node is an outer grandchild and the uncle is black: repaint, turn the grandparent down, and all is well. */
  lemma TurnOuter(t: Tree, t': Tree, c: Paint, c': Paint, node: Ptr, up: Ptr, g: Ptr)
    requires Outer(t, c, node, up, g) && TurnedLeft(t, t', g, up) && c' == c.(red := c.red[up := false][g := true])
    ensures Shape(t') && Balanced(t', c')
  {
    TurnedLeftShape(t, t', g, up);
    assert LinkOk(t, g) && LinkOk(t, up);
    assert Painted(t', c') && BalOk(t, c, g) && BalOk(t, c, up);
    assert node == t.root ==> false by { assert LinkOk(t, node); }
    forall p | p in t.nodes ensures BalOk(t', c', p) && RedOk(t', c', p, NULL) {
      TurnOuterAt(t, t', c, c', node, up, g, p);
    }
  }

  ghost predicate Outer(t: Tree, c: Paint, node: Ptr, up: Ptr, g: Ptr)
  {
    Fixing(t, c, node) && up in t.nodes && g in t.nodes && t.right[up] == node && t.right[g] == up && Red(c, up)
    && !Red(c, t.left[g])
  }

  lemma TurnOuterAt(t: Tree, t': Tree, c: Paint, c': Paint, node: Ptr, up: Ptr, g: Ptr, p: Ptr)
    requires Outer(t, c, node, up, g) && Shape(t') && TurnedLeft(t, t', g, up)
             && c' == c.(red := c.red[up := false][g := true])
    requires p in t.nodes && Painted(t', c')
    ensures BalOk(t', c', p) && RedOk(t', c', p, NULL)
  {
    if p == g || p == up {
      assert LinkOk(t, up) && LinkOk(t, g) && LinkOk(t', p);
      assert TurnedAt(t, t', g, up, p);
      assert BalOk(t, c, up) && BalOk(t, c, g) && BalOk(t, c, node);
    } else {
      TurnOuterOther(t, t', c, c', node, up, g, p);
    }
  }

  lemma TurnOuterOther(t: Tree, t': Tree, c: Paint, c': Paint, node: Ptr, up: Ptr, g: Ptr, p: Ptr)
    requires Outer(t, c, node, up, g) && Shape(t') && TurnedLeft(t, t', g, up)
             && c' == c.(red := c.red[up := false][g := true])
    requires p in t.nodes && p != g && p != up && Painted(t', c')
    ensures BalOk(t', c', p) && RedOk(t', c', p, NULL)
  {
    assert LinkOk(t, p) && TurnedAt(t, t', g, up, p) && BalOk(t, c, p);
    TurnOuterKid(t, t', c, c', node, up, g, p, t.left[p]);
    TurnOuterKid(t, t', c, c', node, up, g, p, t.right[p]);
    TwoPainted(c.red, up, false, g, true, p);
  }

  /** A child of another node, or what takes its place, keeps its height and its colour. */
  lemma TurnOuterKid(t: Tree, t': Tree, c: Paint, c': Paint, node: Ptr, up: Ptr, g: Ptr, p: Ptr, q: Ptr)
    requires Outer(t, c, node, up, g) && t'.nodes == t.nodes && Painted(t', c')
    requires c'.red == c.red[up := false][g := true] && c'.h == c.h
    requires p in t.nodes && p != g && p != up && (q == t.left[p] || q == t.right[p])
    ensures q == NULL || q in t.nodes
    ensures var q' := if q == g then up else q;
            Val(t', c', q') == Val(t, c, q) && (c'.red[q'] ==> c.red[q] && q != node)
  {
    assert LinkOk(t, p);
    if q != NULL {
      NotShared(t, p, g, q);
      NotShared(t, p, up, q);
    }
    if q == g {
      assert BalOk(t, c, g);
      assert up != node by { assert LinkOk(t, up); }
      assert !c.red[g] by { assert RedOk(t, c, g, node); }
      assert c.h[g] == Val(t, c, up) == c.h[up];
    } else {
      if q != NULL { TwoPainted(c.red, up, false, g, true, q); }
      Untouched(t, t', c, c', q);
    }
  }

  // -------------------------------------------------------------------- repairs after a deletion

  /** All is well except that the ways down to the left of `cp` have one black node too few. */
  ghost predicate Deficit(t: Tree, c: Paint, cp: Ptr)
  {
    && Shape(t) && Painted(t, c) && cp in t.nodes && !c.red[t.root]
    && (forall p {:trigger BalOk(t, c, p)} :: p in t.nodes && p != cp ==> BalOk(t, c, p) && RedOk(t, c, p, NULL))
    && RedOk(t, c, cp, NULL) && !c.red[t.left[cp]] && c.h[cp] > 0
    && Val(t, c, t.left[cp]) + 1 == c.h[cp] == Val(t, c, t.right[cp])
  }

  /** Because of the deficit there is a sibling. */
  lemma HasSibling(t: Tree, c: Paint, cp: Ptr)
    requires Deficit(t, c, cp)
    ensures t.right[cp] in t.nodes && t.left[cp] != t.right[cp]
  {
    assert LinkOk(t, cp);
  }

  /** The sibling is red: turn it up to get a black one. */
  lemma RedSibling(t: Tree, t': Tree, c: Paint, c': Paint, cp: Ptr, s: Ptr)
    requires Deficit(t, c, cp) && s == t.right[cp] && Red(c, s) && TurnedLeft(t, t', cp, s)
    requires c' == c.(red := c.red[cp := true][s := false])
    ensures Deficit(t', c', cp) && c'.red[cp] && t'.left[cp] == t.left[cp] && t'.right[cp] == t.left[s]
            && !Red(c', t'.right[cp])
  {
    TurnedLeftShape(t, t', cp, s);
    RedSiblingParent(t, t', c, c', cp, s);
    forall p | p in t.nodes && p != cp ensures BalOk(t', c', p) && RedOk(t', c', p, NULL) {
      RedSiblingAt(t, t', c, c', cp, s, p);
    }
  }

  /** The parent has a new, black sibling at the other side, and the root is black. */
  lemma RedSiblingParent(t: Tree, t': Tree, c: Paint, c': Paint, cp: Ptr, s: Ptr)
    requires Deficit(t, c, cp) && s == t.right[cp] && Red(c, s) && TurnedLeft(t, t', cp, s) && Shape(t')
    requires c' == c.(red := c.red[cp := true][s := false])
    ensures Painted(t', c') && c'.red[cp] && t'.left[cp] == t.left[cp] && t'.right[cp] == t.left[s]
    ensures !c'.red[t'.root] && RedOk(t', c', cp, NULL) && !c'.red[t'.left[cp]] && !Red(c', t'.right[cp])
    ensures Val(t', c', t'.left[cp]) + 1 == c'.h[cp] == Val(t', c', t'.right[cp])
  {
    HasSibling(t, c, cp);
    assert LinkOk(t, cp) && LinkOk(t, s) && LinkOk(t', cp) && TurnedAt(t, t', cp, s, cp);
    var l, m := t.left[cp], t.left[s];
    assert t'.left[cp] == l && t'.right[cp] == m;
    assert BalOk(t, c, s) && Val(t, c, m) == c.h[s] == c.h[cp] && !Red(c, m);
    if l != NULL {
      NotShared(t, cp, s, l);
      TwoPainted(c.red, cp, true, s, false, l);
    }
    if m != NULL {
      NotShared(t, s, cp, m);
      assert m != cp;
      TwoPainted(c.red, cp, true, s, false, m);
    }
    Untouched(t, t', c, c', l);
    Untouched(t, t', c, c', m);
  }

  lemma RedSiblingAt(t: Tree, t': Tree, c: Paint, c': Paint, cp: Ptr, s: Ptr, p: Ptr)
    requires Deficit(t, c, cp) && s == t.right[cp] && Red(c, s) && TurnedLeft(t, t', cp, s) && Shape(t')
    requires c' == c.(red := c.red[cp := true][s := false]) && Painted(t', c') && p in t.nodes && p != cp
    ensures BalOk(t', c', p) && RedOk(t', c', p, NULL)
  {
    assert LinkOk(t, cp) && LinkOk(t, s) && BalOk(t, c, s);
    assert BalOk(t, c, p) && LinkOk(t, p) && LinkOk(t', p);
    assert TurnedAt(t, t', cp, s, p);
    RedSiblingKid(t, t', c, c', cp, s, p, t.left[p]);
    RedSiblingKid(t, t', c, c', cp, s, p, t.right[p]);
    if p == s {
      assert t'.left[s] == cp && t'.right[s] == t.right[s] && t.right[s] != cp;
      assert Val(t', c', cp) == c.h[cp] == Val(t, c, s) == c.h[s];
    } else {
      assert t'.left[p] == (if t.left[p] == cp then s else t.left[p]);
      assert t'.right[p] == (if t.right[p] == cp then s else t.right[p]);
      TwoPainted(c.red, cp, true, s, false, p);
    }
  }

  /** A child of another node, or what takes its place, keeps its height and its colour. */
  lemma RedSiblingKid(t: Tree, t': Tree, c: Paint, c': Paint, cp: Ptr, s: Ptr, p: Ptr, q: Ptr)
    requires Deficit(t, c, cp) && s == t.right[cp] && Red(c, s)
    requires c'.red == c.red[cp := true][s := false] && c'.h == c.h && Painted(t', c') && t'.nodes == t.nodes
    requires p in t.nodes && p != cp && (q == t.left[p] || q == t.right[p])
    ensures (q == NULL || q in t.nodes) && s in t.nodes
    ensures var q' := if q == cp then s else q;
            Val(t', c', q') == Val(t, c, q) && c'.red[q'] == c.red[q]
  {
    HasSibling(t, c, cp);
    if q == cp {
      assert !c.red[cp] by { assert RedOk(t, c, cp, NULL); }
      assert c.h[cp] == Val(t, c, s) == c.h[s];
    } else {
      if q != NULL {
        NotShared(t, p, cp, q);
        TwoPainted(c.red, cp, true, s, false, q);
      }
      Untouched(t, t', c, c', q);
    }
  }

  /** A black sibling with black children. */
  ghost predicate PlainSibling(t: Tree, c: Paint, cp: Ptr, s: Ptr)
  {
    && Deficit(t, c, cp) && s == t.right[cp] && s in t.nodes
    && !c.red[s] && !Red(c, t.left[s]) && !Red(c, t.right[s])
  }

  /** Parent, sibling and its children are black: the deficit moves up, or is gone at the root. */
  lemma DeficitUp(t: Tree, c: Paint, c': Paint, cp: Ptr, s: Ptr)
    requires PlainSibling(t, c, cp, s) && !c.red[cp]
    requires c'.red == c.red[s := true] && c'.h == c.h[cp := c.h[cp] - 1]
    ensures cp == t.root ==> Balanced(t, c')
    ensures cp != t.root ==> t.parent[cp] in t.nodes && (t.left[t.parent[cp]] == cp || t.right[t.parent[cp]] == cp)
    ensures cp != t.root && t.left[t.parent[cp]] == cp ==> Deficit(t, c', t.parent[cp])
    ensures cp != t.root && t.right[t.parent[cp]] == cp ==> Deficit(Mirror(t), c', t.parent[cp])
  {
    assert LinkOk(t, cp) && LinkOk(t, s);
    assert Painted(t, c');
    var u := t.parent[cp];
    forall p | p in t.nodes && p != u ensures BalOk(t, c', p) && RedOk(t, c', p, NULL) {
      DeficitUpAt(t, c, c', cp, s, p);
    }
    if u != NULL {
      DeficitUpParent(t, c, c', cp, s, u);
      if t.right[u] == cp { MirrorDeficit(t, c', u); }
    }
  }

  lemma MirrorDeficit(t: Tree, c: Paint, cp: Ptr)
    requires Shape(t) && Painted(t, c) && cp in t.nodes && !c.red[t.root]
    requires forall p {:trigger BalOk(t, c, p)} :: p in t.nodes && p != cp ==> BalOk(t, c, p) && RedOk(t, c, p, NULL)
    requires RedOk(t, c, cp, NULL) && !c.red[t.right[cp]]
    requires Val(t, c, t.right[cp]) + 1 == c.h[cp] == Val(t, c, t.left[cp])
    ensures Deficit(Mirror(t), c, cp)
  {
    MirrorShape(t);
    forall p | p in t.nodes && p != cp ensures BalOk(Mirror(t), c, p) && RedOk(Mirror(t), c, p, NULL) {
      assert BalOk(t, c, p);
    }
  }

  lemma DeficitUpAt(t: Tree, c: Paint, c': Paint, cp: Ptr, s: Ptr, p: Ptr)
    requires PlainSibling(t, c, cp, s) && !c.red[cp] && Painted(t, c') && p in t.nodes && p != t.parent[cp]
    requires c'.red == c.red[s := true] && c'.h == c.h[cp := c.h[cp] - 1]
    ensures BalOk(t, c', p) && RedOk(t, c', p, NULL)
  {
    assert LinkOk(t, cp) && LinkOk(t, s) && LinkOk(t, p);
    if p == cp {
      DeficitUpKid(t, c, c', cp, s, cp, t.left[cp]);
      assert Val(t, c', s) == c.h[s] == Val(t, c, s) - 1;
    } else {
      assert BalOk(t, c, p);
      DeficitUpKid(t, c, c', cp, s, p, t.left[p]);
      DeficitUpKid(t, c, c', cp, s, p, t.right[p]);
      if p == s {
        assert c'.red[t.left[s]] == c.red[t.left[s]] && c'.red[t.right[s]] == c.red[t.right[s]];
      }
    }
  }

  /** Except for the deficient node and its sibling, children keep their height and their colour. */
  lemma DeficitUpKid(t: Tree, c: Paint, c': Paint, cp: Ptr, s: Ptr, p: Ptr, q: Ptr)
    requires PlainSibling(t, c, cp, s) && !c.red[cp] && Painted(t, c') && p in t.nodes
    requires c'.red == c.red[s := true] && c'.h == c.h[cp := c.h[cp] - 1]
    requires (q == t.left[p] || q == t.right[p]) && q != cp && (p == cp ==> q == t.left[cp])
    ensures q == NULL || q in t.nodes
    ensures Val(t, c', q) == Val(t, c, q) && c'.red[q] == c.red[q]
  {
    assert LinkOk(t, p);
    if q != NULL {
      if p == cp { HasSibling(t, c, cp); } else { NotShared(t, p, cp, q); }
      assert c'.red[q] == c.red[q] && c'.h[q] == c.h[q];
    }
    Untouched(t, t, c, c', q);
  }

  lemma DeficitUpParent(t: Tree, c: Paint, c': Paint, cp: Ptr, s: Ptr, u: Ptr)
    requires PlainSibling(t, c, cp, s) && !c.red[cp] && Painted(t, c') && u in t.nodes && u == t.parent[cp]
    requires c'.red == c.red[s := true] && c'.h == c.h[cp := c.h[cp] - 1]
    ensures RedOk(t, c', u, NULL)
    ensures t.left[u] == cp ==> Val(t, c', t.left[u]) + 1 == c'.h[u] == Val(t, c', t.right[u])
    ensures t.right[u] == cp ==> Val(t, c', t.right[u]) + 1 == c'.h[u] == Val(t, c', t.left[u])
    ensures t.left[u] == cp || t.right[u] == cp
  {
    assert LinkOk(t, cp) && LinkOk(t, s) && LinkOk(t, u) && BalOk(t, c, u);
    assert Val(t, c', cp) == Val(t, c, cp) - 1 && c'.red[cp] == c.red[cp];
    assert u != cp && u != s && c'.red[u] == c.red[u] && c'.h[u] == c.h[u];
    if t.left[u] != cp { DeficitUpKid(t, c, c', cp, s, u, t.left[u]); }
    if t.right[u] != cp { DeficitUpKid(t, c, c', cp, s, u, t.right[u]); }
  }

  /** The parent is red: exchange colours with the sibling. */
  lemma RedParent(t: Tree, c: Paint, c': Paint, cp: Ptr, s: Ptr)
    requires PlainSibling(t, c, cp, s) && c.red[cp]
    requires c'.red == c.red[s := true][cp := false] && c'.h == c.h[cp := c.h[cp] - 1]
    ensures Balanced(t, c')
  {
    assert LinkOk(t, cp) && LinkOk(t, s);
    assert Painted(t, c');
    forall p | p in t.nodes ensures BalOk(t, c', p) && RedOk(t, c', p, NULL) {
      RedParentAt(t, c, c', cp, s, p);
    }
  }

  lemma RedParentAt(t: Tree, c: Paint, c': Paint, cp: Ptr, s: Ptr, p: Ptr)
    requires PlainSibling(t, c, cp, s) && c.red[cp] && Painted(t, c') && p in t.nodes
    requires c'.red == c.red[s := true][cp := false] && c'.h == c.h[cp := c.h[cp] - 1]
    ensures BalOk(t, c', p) && RedOk(t, c', p, NULL)
  {
    assert LinkOk(t, cp) && LinkOk(t, s) && LinkOk(t, p);
    if p == cp {
      RedParentKid(t, c, c', cp, s, cp, t.left[cp]);
      assert Val(t, c', s) == c.h[s] == Val(t, c, s) - 1;
    } else {
      assert BalOk(t, c, p);
      RedParentKid(t, c, c', cp, s, p, t.left[p]);
      RedParentKid(t, c, c', cp, s, p, t.right[p]);
      assert c'.h[p] == c.h[p] && (p != s ==> c'.red[p] == c.red[p]);
      if p == s {
        assert !c'.red[t.left[s]] && !c'.red[t.right[s]];
      }
    }
  }

  /** Except for the sibling itself, children keep their height and do not turn red. */
  lemma RedParentKid(t: Tree, c: Paint, c': Paint, cp: Ptr, s: Ptr, p: Ptr, q: Ptr)
    requires PlainSibling(t, c, cp, s) && c.red[cp] && Painted(t, c') && p in t.nodes
    requires c'.red == c.red[s := true][cp := false] && c'.h == c.h[cp := c.h[cp] - 1]
    requires (q == t.left[p] || q == t.right[p]) && (p == cp ==> q == t.left[cp])
    ensures q == NULL || q in t.nodes
    ensures Val(t, c', q) == Val(t, c, q) && (c'.red[q] ==> c.red[q])
  {
    assert LinkOk(t, p);
    if q == cp {
      assert Val(t, c', cp) == c'.h[cp] + 1 == c.h[cp] == Val(t, c, cp);
    } else {
      if q != NULL {
        if p == cp { HasSibling(t, c, cp); } else { NotShared(t, p, cp, q); }
        TwoPainted(c.red, s, true, cp, false, q);
        assert c'.h[q] == c.h[q];
      }
      Untouched(t, t, c, c', q);
    }
  }

  /** The inner child of the sibling is red: turn it up, so that the outer one is. */
  lemma RedInner(t: Tree, t': Tree, c: Paint, c': Paint, cp: Ptr, s: Ptr, r: Ptr)
    requires InnerRed(t, c, cp, s, r) && TurnedRight(t, t', s, r) && c' == c.(red := c.red[s := true][r := false])
    ensures Deficit(t', c', cp) && t'.left[cp] == t.left[cp] && t'.right[cp] == r && t'.right[r] == s
  {
    TurnedRightShape(t, t', s, r);
    assert TurnedRightAt(t, t', s, r, cp) && TurnedRightAt(t, t', s, r, r);
    RedInnerParent(t, t', c, c', cp, s, r);
    forall p | p in t.nodes && p != cp ensures BalOk(t', c', p) && RedOk(t', c', p, NULL) {
      assert TurnedRightAt(t, t', s, r, p);
      RedInnerAt(t, t', c, c', cp, s, r, p);
    }
  }

  ghost predicate InnerRed(t: Tree, c: Paint, cp: Ptr, s: Ptr, r: Ptr)
  {
    Deficit(t, c, cp) && s == t.right[cp] && s in t.nodes && !c.red[s] && r == t.left[s] && r in t.nodes && c.red[r]
    && !Red(c, t.right[s])
  }

  lemma RedInnerParent(t: Tree, t': Tree, c: Paint, c': Paint, cp: Ptr, s: Ptr, r: Ptr)
    requires InnerRed(t, c, cp, s, r) && t'.nodes == t.nodes && c' == c.(red := c.red[s := true][r := false])
             && Shape(t')
    requires TurnedRightAt(t, t', s, r, cp) && TurnedRightAt(t, t', s, r, r) && t'.root == if s == t.root then r
             else t.root
    ensures Painted(t', c') && RedOk(t', c', cp, NULL) && !c'.red[t'.left[cp]] && !c'.red[t'.root]
    ensures t'.left[cp] == t.left[cp] && t'.right[cp] == r && t'.right[r] == s
    ensures Val(t', c', t'.left[cp]) + 1 == c'.h[cp] == Val(t', c', t'.right[cp])
  {
    assert LinkOk(t, cp) && LinkOk(t, s) && LinkOk(t, r) && BalOk(t, c, s) && BalOk(t, c, r);
    var l := t.left[cp];
    assert t'.left[cp] == l && t'.right[cp] == r && t'.right[r] == s;
    if l != NULL {
      HasSibling(t, c, cp);
      NotShared(t, cp, s, l);
      TwoPainted(c.red, s, true, r, false, l);
    }
    Untouched(t, t', c, c', l);
    assert Val(t', c', r) == c.h[r] + 1 == Val(t, c, r) + 1 == c.h[s] + 1 == Val(t, c, s);
  }

  lemma RedInnerAt(t: Tree, t': Tree, c: Paint, c': Paint, cp: Ptr, s: Ptr, r: Ptr, p: Ptr)
    requires InnerRed(t, c, cp, s, r) && t'.nodes == t.nodes && c' == c.(red := c.red[s := true][r := false])
             && Shape(t') && Painted(t', c')
    requires p in t.nodes && p != cp && TurnedRightAt(t, t', s, r, p)
    ensures BalOk(t', c', p) && RedOk(t', c', p, NULL)
  {
    if p == s || p == r {
      assert LinkOk(t, cp) && LinkOk(t, s) && LinkOk(t, r) && LinkOk(t', p);
      assert BalOk(t, c, s) && BalOk(t, c, r);
    } else {
      RedInnerOther(t, t', c, c', cp, s, r, p);
    }
  }

  lemma RedInnerOther(t: Tree, t': Tree, c: Paint, c': Paint, cp: Ptr, s: Ptr, r: Ptr, p: Ptr)
    requires InnerRed(t, c, cp, s, r) && t'.nodes == t.nodes && c' == c.(red := c.red[s := true][r := false])
             && Shape(t') && Painted(t', c')
    requires p in t.nodes && p != cp && p != s && p != r && TurnedRightAt(t, t', s, r, p)
    ensures BalOk(t', c', p) && RedOk(t', c', p, NULL)
  {
    assert LinkOk(t, p) && LinkOk(t', p) && BalOk(t, c, p);
    RedInnerKid(t, t', c, c', cp, s, r, p, t.left[p]);
    RedInnerKid(t, t', c, c', cp, s, r, p, t.right[p]);
    assert t'.left[p] == t.left[p] && t'.right[p] == t.right[p] && c'.red[p] == c.red[p];
  }

  /** Children of other nodes keep their height and their colour. */
  lemma RedInnerKid(t: Tree, t': Tree, c: Paint, c': Paint, cp: Ptr, s: Ptr, r: Ptr, p: Ptr, q: Ptr)
    requires InnerRed(t, c, cp, s, r) && t'.nodes == t.nodes && c' == c.(red := c.red[s := true][r := false])
             && Painted(t', c')
    requires p in t.nodes && p != cp && p != s && (q == t.left[p] || q == t.right[p])
    ensures (q == NULL || q in t.nodes) && q != s && q != r
    ensures Val(t', c', q) == Val(t, c, q) && c'.red[q] == c.red[q]
  {
    assert LinkOk(t, p);
    if q != NULL {
      NotShared(t, p, cp, q);
      NotShared(t, p, s, q);
      TwoPainted(c.red, s, true, r, false, q);
    }
    Untouched(t, t', c, c', q);
  }

  /** The outer child of the sibling is red: turn the parent down and exchange colours; the deficit is gone. */
  lemma RedOuter(t: Tree, t': Tree, c: Paint, c': Paint, cp: Ptr, s: Ptr)
    requires Deficit(t, c, cp) && s == t.right[cp] && s in t.nodes && !c.red[s] && t.right[s] in t.nodes
             && c.red[t.right[s]]
    requires TurnedLeft(t, t', cp, s)
    requires c'.red == c.red[s := c.red[cp]][cp := false][t.right[s] := false]
             && c'.h == c.h[cp := c.h[cp] - 1][s := c.h[s] + 1]
    ensures Shape(t') && Balanced(t', c')
  {
    TurnedLeftShape(t, t', cp, s);
    assert LinkOk(t, cp) && LinkOk(t, s);
    assert BalOk(t, c, s);
    assert Painted(t', c');
    forall p | p in t.nodes ensures BalOk(t', c', p) && RedOk(t', c', p, NULL) {
      RedOuterAt(t, t', c, c', cp, s, p);
    }
  }

  lemma RedOuterAt(t: Tree, t': Tree, c: Paint, c': Paint, cp: Ptr, s: Ptr, p: Ptr)
    requires Deficit(t, c, cp) && s == t.right[cp] && s in t.nodes && !c.red[s] && t.right[s] in t.nodes
             && c.red[t.right[s]]
    requires TurnedLeft(t, t', cp, s) && Shape(t') && Painted(t', c') && p in t.nodes
    requires c'.red == c.red[s := c.red[cp]][cp := false][t.right[s] := false]
             && c'.h == c.h[cp := c.h[cp] - 1][s := c.h[s] + 1]
    ensures BalOk(t', c', p) && RedOk(t', c', p, NULL)
  {
    assert LinkOk(t, cp) && LinkOk(t, s) && LinkOk(t, p) && LinkOk(t', p);
    assert TurnedAt(t, t', cp, s, p);
    assert BalOk(t, c, s) && LinkOk(t, t.right[s]) && BalOk(t, c, t.right[s]);
    if p != cp && p != s {
      RedOuterOther(t, t', c, c', cp, s, p);
    }
  }

  lemma RedOuterOther(t: Tree, t': Tree, c: Paint, c': Paint, cp: Ptr, s: Ptr, p: Ptr)
    requires Deficit(t, c, cp) && s == t.right[cp] && s in t.nodes && !c.red[s] && t.right[s] in t.nodes
             && c.red[t.right[s]]
    requires TurnedLeft(t, t', cp, s) && Painted(t', c') && p in t.nodes && p != cp && p != s
    requires c'.red == c.red[s := c.red[cp]][cp := false][t.right[s] := false]
             && c'.h == c.h[cp := c.h[cp] - 1][s := c.h[s] + 1]
    ensures BalOk(t', c', p) && RedOk(t', c', p, NULL)
  {
    assert BalOk(t, c, p) && BalOk(t, c, s) && LinkOk(t, p) && LinkOk(t, s) && LinkOk(t, t.right[s]);
    assert TurnedAt(t, t', cp, s, p);
    RedOuterKid(t, t', c, c', cp, s, p, t.left[p], t'.left[p]);
    RedOuterKid(t, t', c, c', cp, s, p, t.right[p], t'.right[p]);
  }

  /** A child of another node keeps its height and does not turn red. */
  lemma RedOuterKid(t: Tree, t': Tree, c: Paint, c': Paint, cp: Ptr, s: Ptr, p: Ptr, q: Ptr, q': Ptr)
    requires Deficit(t, c, cp) && s == t.right[cp] && s in t.nodes && !c.red[s] && t.right[s] in t.nodes
             && c.red[t.right[s]] && BalOk(t, c, s)
    requires Painted(t', c') && t'.nodes == t.nodes && p in t.nodes && p != cp && p != s
             && (q == t.left[p] || q == t.right[p]) && q' == if q == cp then s else q
    requires c'.red == c.red[s := c.red[cp]][cp := false][t.right[s] := false]
             && c'.h == c.h[cp := c.h[cp] - 1][s := c.h[s] + 1]
    requires LinkOk(t, p)
    ensures (q == NULL || q in t.nodes) && (q' == NULL || q' in t.nodes)
    ensures Val(t', c', q') == Val(t, c, q) && c'.red[q'] == c.red[q]
  {
    if q == cp {
      HasSibling(t, c, cp);
      NotShared(t, cp, s, s);
      assert c.h[cp] == Val(t, c, s) == c.h[s] + 1;
      assert c'.red[s] == c.red[cp] && c'.h[s] == c.h[cp];
    } else {
      if q != NULL {
        NotShared(t, p, cp, q);
        NotShared(t, p, s, q);
        ThreePainted(c.red, s, c.red[cp], cp, false, t.right[s], false, q);
        assert c'.h[q] == c.h[q];
      }
      Untouched(t, t', c, c', q);
    }
  }

  // -------------------------------------------------------------------- the order of the keys

  /** The rank of a node grows with every step upwards. */
  ghost function Rank(t: Tree, c: Paint, p: Ptr): int
    requires Painted(t, c) && p in t.nodes
  {
    2 * c.h[p] + if c.red[p] then 0 else 1
  }

  ghost predicate Sane(t: Tree, c: Paint)
  {
    Shape(t) && Balanced(t, c)
  }

  lemma RankUp(t: Tree, c: Paint, p: Ptr)
    requires Sane(t, c) && p in t.nodes && p != t.root
    ensures t.parent[p] in t.nodes && Rank(t, c, t.parent[p]) > Rank(t, c, p)
  {
    assert LinkOk(t, p);
    assert BalOk(t, c, t.parent[p]) && BalOk(t, c, p);
  }

  /** The nodes of higher rank. */
  ghost function Higher(t: Tree, c: Paint, p: Ptr): set<Ptr>
    requires Painted(t, c) && p in t.nodes
  {
    set q | q in t.nodes && Rank(t, c, q) > Rank(t, c, p)
  }

  lemma HigherUp(t: Tree, c: Paint, p: Ptr)
    requires Sane(t, c) && p in t.nodes && p != t.root
    ensures t.parent[p] in t.nodes && |Higher(t, c, t.parent[p])| < |Higher(t, c, p)|
  {
    RankUp(t, c, p);
    assert t.parent[p] in Higher(t, c, p) && t.parent[p] !in Higher(t, c, t.parent[p]);
    Smaller(Higher(t, c, t.parent[p]), Higher(t, c, p));
  }

  lemma Smaller(a: set<Ptr>, b: set<Ptr>)
    requires a < b
    ensures |a| < |b|
  {
    assert b == a + (b - a);
  }

  /** Going up from `q` one comes to `d`. */
  ghost predicate Above(t: Tree, c: Paint, d: Ptr, q: Ptr)
    requires Sane(t, c) && q in t.nodes
    decreases |Higher(t, c, q)|
  {
    d == q || (q != t.root && (HigherUp(t, c, q); Above(t, c, d, t.parent[q])))
  }

  lemma {:induction false} RootAbove(t: Tree, c: Paint, q: Ptr)
    requires Sane(t, c) && q in t.nodes
    ensures Above(t, c, t.root, q)
    decreases |Higher(t, c, q)|
  {
    if q != t.root { HigherUp(t, c, q); RootAbove(t, c, t.parent[q]); }
  }

  /** The interval of `p` lies inside that of `q`. */
  ghost predicate Within(t: Tree, p: Ptr, q: Ptr)
    requires Store(t) && p in t.nodes && q in t.nodes
  {
    && (t.lo[q].At? ==> t.lo[p].At? && t.lo[p].k >= t.lo[q].k)
    && (t.hi[q].At? ==> t.hi[p].At? && t.hi[p].k <= t.hi[q].k)
  }

  lemma {:induction false} AboveWithin(t: Tree, c: Paint, d: Ptr, q: Ptr)
    requires Sane(t, c) && q in t.nodes && d in t.nodes && Above(t, c, d, q)
    ensures Within(t, q, d)
    decreases |Higher(t, c, q)|
  {
    if q != d {
      HigherUp(t, c, q);
      AboveWithin(t, c, d, t.parent[q]);
      assert LinkOk(t, q) && LinkOk(t, t.parent[q]);
    }
  }

  /** A node below `d` is at or below the child of `d` on the side of its key. */
  lemma {:induction false} AboveSide(t: Tree, c: Paint, d: Ptr, q: Ptr)
    requires Sane(t, c) && q in t.nodes && d in t.nodes && Above(t, c, d, q) && q != d
    ensures t.key[q] != t.key[d]
    ensures t.key[q] < t.key[d] ==> t.left[d] in t.nodes && Above(t, c, t.left[d], q)
    ensures t.key[q] > t.key[d] ==> t.right[d] in t.nodes && Above(t, c, t.right[d], q)
    decreases |Higher(t, c, q)|
  {
    HigherUp(t, c, q);
    var u := t.parent[q];
    assert LinkOk(t, q) && LinkOk(t, d) && LinkOk(t, u);
    if u != d {
      AboveSide(t, c, d, u);
      var e := if t.key[u] < t.key[d] then t.left[d] else t.right[d];
      assert Above(t, c, e, q);
      AboveWithin(t, c, e, q);
    }
  }

  /** A key that lies in the interval of `d` is found at or below `d`, nowhere else. */
  lemma {:induction false} Located(t: Tree, c: Paint, d: Ptr, q: Ptr)
    requires Sane(t, c) && q in t.nodes && d in t.nodes && In(t.lo[d], t.key[q], t.hi[d])
    ensures Above(t, c, d, q)
    decreases |Higher(t, c, d)|
  {
    if d == t.root {
      RootAbove(t, c, q);
    } else {
      HigherUp(t, c, d);
      var u := t.parent[d];
      assert LinkOk(t, d) && LinkOk(t, u);
      Located(t, c, u, q);
      if q != u { AboveSide(t, c, u, q); }
    }
  }

  /** No key lies in the interval of a missing child. */
  lemma NothingLeft(t: Tree, c: Paint, d: Ptr, q: Ptr)
    requires Sane(t, c) && q in t.nodes && d in t.nodes && t.left[d] == NULL && In(t.lo[d], t.key[q], t.hi[d])
    ensures t.key[q] >= t.key[d]
  {
    Located(t, c, d, q);
    if q != d { AboveSide(t, c, d, q); }
  }

  lemma NothingRight(t: Tree, c: Paint, d: Ptr, q: Ptr)
    requires Sane(t, c) && q in t.nodes && d in t.nodes && t.right[d] == NULL && In(t.lo[d], t.key[q], t.hi[d])
    ensures t.key[q] <= t.key[d]
  {
    Located(t, c, d, q);
    if q != d { AboveSide(t, c, d, q); }
  }

  /** Different nodes have different keys. */
  lemma KeysDiffer(t: Tree, c: Paint, p: Ptr, q: Ptr)
    requires Sane(t, c) && p in t.nodes && q in t.nodes && p != q
    ensures t.key[p] != t.key[q]
  {
    if t.key[p] == t.key[q] {
      assert LinkOk(t, p);
      Located(t, c, p, q);
      AboveSide(t, c, p, q);
    }
  }
}
