/** The radix tree of radtree.c: nodes with an offset lookup array of compressed edges,
    parent and pidx back links, edge splitting on insert and merge/trim on delete.

    Nodes live in an explicit store indexed by address, so that pointer identity and
    back links are ordinary values.  The ghost `key` of a node is the byte string it stands
    for; a node never changes its key.  The invariant is local: each node is related only
    to its parent and to the entries of its own array. */
module RadShape {
  import opened Bytes

  /** An address; NULL is address 0. */
  type Ptr = nat
  const NULL: Ptr := 0

  /** An element pointer, as the caller handed it in. */
  type Elem = nat

  datatype RadSel = RadSel(str: seq<byte>, node: Ptr)

  datatype RadNode = RadNode(ghost key: seq<byte>, elem: Option<Elem>, parent: Ptr, pidx: int, offset: int,
                             sels: seq<RadSel>)

  const EMPTY_SEL := RadSel([], NULL)

  type Store = map<Ptr, RadNode>

  /** The store, the root pointer, and for the specification the node of each key. */
  datatype Tree = Tree(mem: Store, root: Ptr, ghost loc: map<seq<byte>, Ptr>)

  // -------------------------------------------------------------------- invariant

  /** Array entry `i` of node `p` is empty, or an edge to a child that links back here. */
  ghost predicate SelOk(t: Tree, p: Ptr, i: int)
    requires p in t.mem && 0 <= i < |t.mem[p].sels|
  {
    var s := t.mem[p].sels[i];
    var b := t.mem[p].offset + i;
    if s.node == NULL then s.str == []
    else
      && s.node in t.mem
      && t.mem[s.node].parent == p && t.mem[s.node].pidx == i
      && 0 <= b < 256 && t.mem[s.node].key == t.mem[p].key + [b] + s.str
  }

  /** The back link of `p` names the array entry that holds `p`; only the root has none. */
  ghost predicate BackLinkOk(t: Tree, p: Ptr)
    requires p in t.mem
  {
    var n := t.mem[p];
    && (p == t.root <==> n.parent == NULL)
    && (n.parent != NULL ==>
          && n.parent in t.mem
          && 0 <= n.pidx < |t.mem[n.parent].sels|
          && t.mem[n.parent].sels[n.pidx].node == p)
  }

  ghost predicate NodeOk(t: Tree, p: Ptr)
    requires p in t.mem
  {
    var n := t.mem[p];
    && t.mem[p].key in t.loc && t.loc[t.mem[p].key] == p
    && 0 <= n.offset && n.offset + |n.sels| <= 256
    && BackLinkOk(t, p)
    && (forall i {:trigger SelOk(t, p, i)} :: 0 <= i < |n.sels| ==> SelOk(t, p, i))
    && (|n.sels| > 0 ==> n.sels[0].node != NULL && n.sels[|n.sels| - 1].node != NULL)
  }

  /** The linked structure is a tree of nodes for their keys. */
  ghost predicate Shape(t: Tree)
  {
    && NULL !in t.mem
    && (t.root == NULL ==> t.mem == map[])
    && (t.root != NULL ==> t.root in t.mem && t.mem[t.root].key == [])
    && (forall k {:trigger t.loc[k]} :: k in t.loc ==> t.loc[k] in t.mem && t.mem[t.loc[k]].key == k)
    && (forall p {:trigger NodeOk(t, p)} :: p in t.mem ==> NodeOk(t, p))
  }

  /** No superfluous node: an elementless node has at least two children (the ends of its
      array are always occupied), the root at least one. */
  ghost predicate Needed(t: Tree, p: Ptr)
    requires p in t.mem
  {
    t.mem[p].elem.None? ==> |t.mem[p].sels| >= (if p == t.root then 1 else 2)
  }

  ghost predicate Efficient(t: Tree)
  {
    forall p {:trigger Needed(t, p)} :: p in t.mem ==> Needed(t, p)
  }

  /** What the tree denotes: the finite map from keys to elements. */
  ghost function Contents(t: Tree): map<seq<byte>, Elem>
  {
    map k | k in t.loc && t.loc[k] in t.mem && t.mem[t.loc[k]].elem.Some? :: t.mem[t.loc[k]].elem.value
  }

  // -------------------------------------------------------------------- structure

  /** Node `a` has an edge that leads towards key `k`, and the whole edge matches. */
  ghost predicate Toward(t: Tree, a: Ptr, k: seq<byte>)
    requires a in t.mem && t.mem[a].key < k
  {
    var n := t.mem[a];
    var b := k[|t.mem[a].key|];
    && n.offset <= b < n.offset + |n.sels|
    && n.sels[b - n.offset].node in t.mem
    && t.mem[n.sels[b - n.offset].node].key <= k
  }

  lemma EntryOk(t: Tree, p: Ptr, i: int)
    requires Shape(t) && p in t.mem && 0 <= i < |t.mem[p].sels|
    ensures SelOk(t, p, i)
  {
    assert NodeOk(t, p);
  }

  lemma SameKey(t: Tree, a: Ptr, b: Ptr)
    requires Shape(t) && a in t.mem && b in t.mem && t.mem[a].key == t.mem[b].key
    ensures a == b
  {
    assert NodeOk(t, a) && NodeOk(t, b);
  }

  /** Every node but the root hangs under a parent with a shorter key, at the slot it says. */
  lemma ParentKey(t: Tree, p: Ptr)
    requires Shape(t) && p in t.mem && p != t.root
    ensures t.mem[p].parent in t.mem && t.mem[t.mem[p].parent].key < t.mem[p].key
    ensures var q := t.mem[p].parent;
            && Toward(t, q, t.mem[p].key)
            && t.mem[p].key[|t.mem[q].key|] == t.mem[q].offset + t.mem[p].pidx
            && 0 <= t.mem[p].pidx < |t.mem[q].sels| && t.mem[q].sels[t.mem[p].pidx].node == p
  {
    assert NodeOk(t, p);
    assert NodeOk(t, t.mem[p].parent) && SelOk(t, t.mem[p].parent, t.mem[p].pidx);
  }

  /** A node whose key is a proper prefix of another node's key leads towards it. */
  lemma {:induction false} AncestorChild(t: Tree, a: Ptr, p: Ptr)
    requires Shape(t) && a in t.mem && p in t.mem && t.mem[a].key < t.mem[p].key
    ensures Toward(t, a, t.mem[p].key)
    decreases |t.mem[p].key|
  {
    ParentKey(t, p);
    var q := t.mem[p].parent;
    var ak, qk, pk := t.mem[a].key, t.mem[q].key, t.mem[p].key;
    assert ak == pk[..|ak|] && qk == pk[..|qk|];
    if |ak| == |qk| {
      SameKey(t, a, q);
    } else if |ak| < |qk| {
      assert ak < qk;
      AncestorChild(t, a, q);
    } else {
      assert qk < ak && ak[|qk|] == pk[|qk|];
      AncestorChild(t, q, a);
      assert false;
    }
  }

  lemma LeadsTo(t: Tree, a: Ptr, k: seq<byte>)
    requires Shape(t) && a in t.mem && t.mem[a].key < k && k in t.loc
    ensures Toward(t, a, k)
  {
    AncestorChild(t, a, t.loc[k]);
  }

  lemma EmptyTree(t: Tree)
    requires Shape(t) && t.root == NULL
    ensures t.loc == map[] && Contents(t) == map[]
  {
    assert forall k :: k in t.loc ==> t.loc[k] in t.mem;
  }

  // -------------------------------------------------------------------- array resizing

  function Empties(n: nat): (s: seq<RadSel>)
    ensures |s| == n
    ensures forall i :: 0 <= i < n ==> s[i] == EMPTY_SEL
  {
    seq(n, _ => EMPTY_SEL)
  }

  /** Entry `i` of the extended array is the old one for the same byte, or empty. */
  predicate OldEntry(offset: int, sels: seq<RadSel>, r: (int, seq<RadSel>), i: int)
    requires 0 <= i < |r.1|
  {
    var k := i + r.0 - offset;
    r.1[i] == if 0 <= k < |sels| then sels[k] else EMPTY_SEL
  }

  /** A lookup array extended, with empty entries, just far enough to cover one more byte. */
  function Spaced(offset: int, sels: seq<RadSel>, byt: byte): (r: (int, seq<RadSel>))
    requires 0 <= offset && offset + |sels| <= 256
    ensures 0 <= r.0 <= byt < r.0 + |r.1| <= 256
    ensures |sels| == 0 ==> |r.1| == 1
    ensures |sels| > 0 ==> r.0 == (if byt < offset then byt else offset)
    ensures |sels| > 0 ==> r.0 + |r.1| == (if byt >= offset + |sels| then byt + 1 else offset + |sels|)
    ensures |sels| > 0 ==>
              forall i {:trigger OldEntry(offset, sels, r, i)} :: 0 <= i < |r.1| ==> OldEntry(offset, sels, r, i)
  {
    if |sels| == 0 then (byt, [EMPTY_SEL])
    else if byt < offset then (byt, Empties(offset - byt) + sels)
    else if byt - offset >= |sels| then (offset, sels + Empties(byt - offset - |sels| + 1))
    else (offset, sels)
  }

  /** The store in which the children of `p` have moved by `delta` entries. */
  function Renumbered(mem: Store, p: Ptr, delta: int): (m: Store)
    ensures m.Keys == mem.Keys
    ensures forall q :: q in m ==> m[q] == if mem[q].parent == p then mem[q].(pidx := mem[q].pidx + delta) else mem[q]
  {
    map q | q in mem :: if mem[q].parent == p then mem[q].(pidx := mem[q].pidx + delta) else mem[q]
  }

  // -------------------------------------------------------------------- insertion: a new leaf

  /** A node whose own array is untouched, and whose children still link back to it, stays well formed. */
  lemma NodeKept(t: Tree, u: Tree, q: Ptr)
    requires Shape(t) && q in t.mem && q in u.mem
    requires u.mem[q].sels == t.mem[q].sels && u.mem[q].offset == t.mem[q].offset
    requires u.mem[q].key == t.mem[q].key && u.mem[q].key in u.loc && u.loc[u.mem[q].key] == q
    requires BackLinkOk(u, q)
    requires forall c {:trigger c in u.mem} :: c in t.mem && t.mem[c].parent == q ==>
               && c in u.mem && u.mem[c].key == t.mem[c].key
               && u.mem[c].parent == q && u.mem[c].pidx == t.mem[c].pidx
    ensures NodeOk(u, q)
  {
    assert NodeOk(t, q);
    forall i | 0 <= i < |u.mem[q].sels|
      ensures SelOk(u, q, i)
    {
      assert SelOk(t, q, i);
    }
  }

  lemma NotOwnParent(t: Tree, p: Ptr)
    requires Shape(t) && p in t.mem
    ensures t.mem[p].parent != p
  {
    if p == t.root { assert NodeOk(t, p); } else { ParentKey(t, p); }
  }

  /** `k` is new, the key of `p` is a proper prefix of it, and the entry of `p` for the
      next byte is absent or empty. */
  ghost predicate RoomForLeaf(t: Tree, p: Ptr, k: seq<byte>, add: Ptr)
  {
    && Shape(t) && p in t.mem && t.mem[p].key < k && k !in t.loc
    && add != NULL && add !in t.mem
    && var b := k[|t.mem[p].key|] - t.mem[p].offset;
       0 <= b < |t.mem[p].sels| ==> t.mem[p].sels[b].node == NULL
  }

  /** `u` is `t` with a leaf for `k` hung under `p`; the array of `p` was extended and its
      old entries (and so the pidx of its children) moved by `delta`. */
  ghost predicate LeafStep(t: Tree, u: Tree, p: Ptr, k: seq<byte>, add: Ptr, e: Elem, delta: int)
    requires p in t.mem && |t.mem[p].key| < |k|
  {
    && u.root == t.root && u.loc == t.loc[k := add]
    && u.mem.Keys == t.mem.Keys + {add}
    && var n := t.mem[p];
    && var v := u.mem[p];
    && var idx := k[|t.mem[p].key|] - v.offset;
    && u.mem[add] == RadNode(k, Some(e), p, idx, 0, [])
    && v == n.(offset := v.offset, sels := v.sels)
    && 0 <= idx < |v.sels| && 0 <= v.offset && v.offset + |v.sels| <= 256
    && v.sels[idx] == RadSel(k[|t.mem[p].key| + 1..], add)
    && (forall i {:trigger LeafEntry(n, v, idx, delta, i)} :: 0 <= i < |v.sels| ==> LeafEntry(n, v, idx, delta, i))
    && (if n.sels == [] then |v.sels| == 1
        else
          && 0 <= delta == n.offset - v.offset && delta + |n.sels| <= |v.sels|
          && (delta == 0 || idx == 0)
          && (delta + |n.sels| == |v.sels| || idx == |v.sels| - 1))
    && (forall q {:trigger Moved(t, u, p, delta, q)} :: q in t.mem && q != p ==> Moved(t, u, p, delta, q))
  }

  /** Entry `i` of the extended array `v` is the one that was `delta` places before it in `n`, or empty. */
  ghost predicate LeafEntry(n: RadNode, v: RadNode, idx: int, delta: int, i: int)
    requires 0 <= i < |v.sels|
  {
    i != idx ==> v.sels[i] == if 0 <= i - delta < |n.sels| then n.sels[i - delta] else EMPTY_SEL
  }

  /** Another node is unchanged, except for its place if it is a child of `p`. */
  ghost predicate Moved(t: Tree, u: Tree, p: Ptr, delta: int, q: Ptr)
    requires q in t.mem && q in u.mem
  {
    u.mem[q] == if t.mem[q].parent == p then t.mem[q].(pidx := t.mem[q].pidx + delta) else t.mem[q]
  }

  lemma LeafStepSel(t: Tree, u: Tree, p: Ptr, k: seq<byte>, add: Ptr, e: Elem, delta: int, i: int)
    requires RoomForLeaf(t, p, k, add) && LeafStep(t, u, p, k, add, e, delta)
    requires 0 <= i < |u.mem[p].sels|
    ensures SelOk(u, p, i)
  {
    var pos := |t.mem[p].key|;
    var idx := k[pos] - u.mem[p].offset;
    assert NodeOk(t, p);
    if i == idx {
      LeafStepNewSel(t, u, p, k, add, e, delta, i);
    } else {
      assert LeafEntry(t.mem[p], u.mem[p], idx, delta, i);
      if 0 <= i - delta < |t.mem[p].sels| {
        LeafStepOldSel(t, u, p, k, add, e, delta, i);
      }
    }
  }

  /** The entry that got the new leaf. */
  lemma LeafStepNewSel(t: Tree, u: Tree, p: Ptr, k: seq<byte>, add: Ptr, e: Elem, delta: int, i: int)
    requires RoomForLeaf(t, p, k, add) && LeafStep(t, u, p, k, add, e, delta)
    requires 0 <= i < |u.mem[p].sels| && i == k[|t.mem[p].key|] - u.mem[p].offset
    ensures SelOk(u, p, i)
  {
    var pos := |t.mem[p].key|;
    assert k[..pos] == t.mem[p].key == u.mem[p].key;
    assert k == k[..pos] + [k[pos]] + k[pos + 1..];
    assert u.mem[p].sels[i] == RadSel(k[pos + 1..], add) && u.mem[add] == RadNode(k, Some(e), p, i, 0, []);
  }

  /** An entry that was there before, at its new place. */
  lemma LeafStepOldSel(t: Tree, u: Tree, p: Ptr, k: seq<byte>, add: Ptr, e: Elem, delta: int, i: int)
    requires RoomForLeaf(t, p, k, add) && LeafStep(t, u, p, k, add, e, delta)
    requires 0 <= i < |u.mem[p].sels| && 0 <= i - delta < |t.mem[p].sels|
    requires u.mem[p].sels[i] == t.mem[p].sels[i - delta]
    ensures SelOk(u, p, i)
  {
    var c := t.mem[p].sels[i - delta].node;
    assert NodeOk(t, p) && SelOk(t, p, i - delta);
    NotOwnParent(t, p);
    if c != NULL {
      assert Moved(t, u, p, delta, c);
    }
  }

  lemma LeafStepBackLink(t: Tree, u: Tree, p: Ptr, k: seq<byte>, add: Ptr, e: Elem, delta: int, q: Ptr)
    requires RoomForLeaf(t, p, k, add) && LeafStep(t, u, p, k, add, e, delta)
    requires q in t.mem
    ensures BackLinkOk(u, q)
  {
    assert NodeOk(t, p) && NodeOk(t, q);
    NotOwnParent(t, p);
    if q != p {
      assert Moved(t, u, p, delta, q);
    }
    var r := t.mem[q].parent;
    if r == p {
      assert t.mem[p].sels[t.mem[q].pidx].node == q;
      assert LeafEntry(t.mem[p], u.mem[p], k[|t.mem[p].key|] - u.mem[p].offset, delta, t.mem[q].pidx + delta);
    } else if r != NULL {
      assert Moved(t, u, p, delta, r);
    }
  }

  lemma LeafStepParent(t: Tree, u: Tree, p: Ptr, k: seq<byte>, add: Ptr, e: Elem, delta: int)
    requires RoomForLeaf(t, p, k, add) && LeafStep(t, u, p, k, add, e, delta)
    ensures NodeOk(u, p)
  {
    assert NodeOk(t, p);
    LeafStepBackLink(t, u, p, k, add, e, delta, p);
    forall i | 0 <= i < |u.mem[p].sels|
      ensures SelOk(u, p, i)
    {
      LeafStepSel(t, u, p, k, add, e, delta, i);
    }
    var n, v := t.mem[p], u.mem[p];
    assert LeafEntry(n, v, k[|n.key|] - v.offset, delta, 0);
    assert LeafEntry(n, v, k[|n.key|] - v.offset, delta, |v.sels| - 1);
  }

  lemma LeafStepOtherNode(t: Tree, u: Tree, p: Ptr, k: seq<byte>, add: Ptr, e: Elem, delta: int, q: Ptr)
    requires RoomForLeaf(t, p, k, add) && LeafStep(t, u, p, k, add, e, delta)
    requires q in t.mem && q != p
    ensures NodeOk(u, q)
  {
    assert NodeOk(t, q) && Moved(t, u, p, delta, q);
    LeafStepBackLink(t, u, p, k, add, e, delta, q);
    NotOwnParent(t, p);
    forall c | c in t.mem && t.mem[c].parent == q
      ensures c in u.mem && u.mem[c].key == t.mem[c].key && u.mem[c].parent == q && u.mem[c].pidx == t.mem[c].pidx
    {
      if c != p {
        assert Moved(t, u, p, delta, c);
      }
    }
    NodeKept(t, u, q);
  }

  lemma LeafStepShape(t: Tree, u: Tree, p: Ptr, k: seq<byte>, add: Ptr, e: Elem, delta: int)
    requires RoomForLeaf(t, p, k, add) && LeafStep(t, u, p, k, add, e, delta)
    ensures Shape(u)
  {
    forall q | q in u.mem
      ensures NodeOk(u, q)
    {
      if q == p {
        LeafStepParent(t, u, p, k, add, e, delta);
      } else if q != add {
        LeafStepOtherNode(t, u, p, k, add, e, delta, q);
      }
    }
    LeafStepLoc(t, u, p, k, add, e, delta);
  }

  lemma LeafStepLoc(t: Tree, u: Tree, p: Ptr, k: seq<byte>, add: Ptr, e: Elem, delta: int)
    requires RoomForLeaf(t, p, k, add) && LeafStep(t, u, p, k, add, e, delta)
    ensures forall x {:trigger u.loc[x]} :: x in u.loc ==> u.loc[x] in u.mem && u.mem[u.loc[x]].key == x
    ensures u.root != NULL && u.root in u.mem && u.mem[u.root].key == []
  {
    forall x | x in u.loc
      ensures u.loc[x] in u.mem && u.mem[u.loc[x]].key == x
    {
      if x != k {
        assert t.loc[x] in t.mem;
        if u.loc[x] != p {
          assert Moved(t, u, p, delta, u.loc[x]);
        }
      }
    }
    if t.root != p {
      assert Moved(t, u, p, delta, t.root);
    }
  }

  // -------------------------------------------------------------------- insertion: splitting an edge

  /** The edge at entry `idx` of `p` can be cut after `cl` of its string bytes by a new node `m`. */
  ghost predicate Splittable(t: Tree, p: Ptr, idx: int, cl: nat, m: Ptr)
  {
    && Shape(t) && p in t.mem && 0 <= idx < |t.mem[p].sels|
    && t.mem[p].sels[idx].node != NULL && cl < |t.mem[p].sels[idx].str|
    && m != NULL && m !in t.mem
    && 0 <= t.mem[p].offset + idx < 256
  }

  ghost function MidKey(t: Tree, p: Ptr, idx: int, cl: nat, m: Ptr): seq<byte>
    requires Splittable(t, p, idx, cl, m)
  {
    t.mem[p].key + [t.mem[p].offset + idx] + t.mem[p].sels[idx].str[..cl]
  }

  ghost predicate SplitStep(t: Tree, u: Tree, p: Ptr, idx: int, cl: nat, m: Ptr, e: Option<Elem>)
    requires Splittable(t, p, idx, cl, m)
  {
    var s := t.mem[p].sels[idx];
    var mk := MidKey(t, p, idx, cl, m);
    && s.node in t.mem && s.node != p
    && u.root == t.root && u.loc == t.loc[mk := m]
    && u.mem.Keys == t.mem.Keys + {m}
    && u.mem[m] == RadNode(mk, e, p, idx, s.str[cl], [RadSel(s.str[cl + 1..], s.node)])
    && u.mem[p] == t.mem[p].(sels := t.mem[p].sels[idx := RadSel(s.str[..cl], m)])
    && u.mem[s.node] == t.mem[s.node].(parent := m, pidx := 0)
    && (forall q {:trigger u.mem[q]} :: q in t.mem && q != p && q != s.node ==> u.mem[q] == t.mem[q])
  }

  /** No node sits in the middle of an edge. */
  lemma MidKeyIsNew(t: Tree, p: Ptr, idx: int, cl: nat, m: Ptr)
    requires Splittable(t, p, idx, cl, m)
    ensures MidKey(t, p, idx, cl, m) !in t.loc
  {
    var mk := MidKey(t, p, idx, cl, m);
    if mk in t.loc {
      assert NodeOk(t, p) && SelOk(t, p, idx);
      assert mk[|t.mem[p].key|] == t.mem[p].offset + idx;
      LeadsTo(t, p, mk);
      assert false;
    }
  }

  lemma SplitStepParent(t: Tree, u: Tree, p: Ptr, idx: int, cl: nat, m: Ptr, e: Option<Elem>)
    requires Splittable(t, p, idx, cl, m) && SplitStep(t, u, p, idx, cl, m, e)
    ensures NodeOk(u, p)
  {
    assert NodeOk(t, p);
    NotOwnParent(t, p);
    MidKeyIsNew(t, p, idx, cl, m);
    if p != t.root { ParentKey(t, p); }
    assert SelOk(t, p, idx);
    forall i | 0 <= i < |u.mem[p].sels|
      ensures SelOk(u, p, i)
    {
      assert SelOk(t, p, i);
    }
  }

  lemma SplitStepMid(t: Tree, u: Tree, p: Ptr, idx: int, cl: nat, m: Ptr, e: Option<Elem>)
    requires Splittable(t, p, idx, cl, m) && SplitStep(t, u, p, idx, cl, m, e)
    ensures NodeOk(u, m)
  {
    var s := t.mem[p].sels[idx];
    assert NodeOk(t, p) && SelOk(t, p, idx);
    assert s.str == s.str[..cl] + [s.str[cl]] + s.str[cl + 1..];
    assert SelOk(u, m, 0);
  }

  lemma SplitStepOther(t: Tree, u: Tree, p: Ptr, idx: int, cl: nat, m: Ptr, e: Option<Elem>, q: Ptr)
    requires Splittable(t, p, idx, cl, m) && SplitStep(t, u, p, idx, cl, m, e)
    requires q in t.mem && q != p
    ensures NodeOk(u, q)
  {
    MidKeyIsNew(t, p, idx, cl, m);
    assert NodeOk(t, p) && SelOk(t, p, idx) && NodeOk(t, q);
    assert BackLinkOk(u, q);
    NodeKept(t, u, q);
  }

  lemma SplitStepShape(t: Tree, u: Tree, p: Ptr, idx: int, cl: nat, m: Ptr, e: Option<Elem>)
    requires Splittable(t, p, idx, cl, m) && SplitStep(t, u, p, idx, cl, m, e)
    ensures Shape(u)
  {
    MidKeyIsNew(t, p, idx, cl, m);
    forall q | q in u.mem
      ensures NodeOk(u, q)
    {
      if q == m {
        SplitStepMid(t, u, p, idx, cl, m, e);
      } else if q == p {
        SplitStepParent(t, u, p, idx, cl, m, e);
      } else {
        SplitStepOther(t, u, p, idx, cl, m, e, q);
      }
    }
  }

  // -------------------------------------------------------------------- deletion steps

  /** `u` is `t` without the childless node `q`, whose parent's array lost the entry: the
      entries `lo..hi` are kept and moved down by `lo`. */
  ghost predicate LeafGone(t: Tree, u: Tree, q: Ptr, lo: int, hi: int)
    requires Shape(t) && q in t.mem && q != t.root
  {
    var p := t.mem[q].parent;
    && p in t.mem && p != q
    && var n := t.mem[p];
    && 0 <= t.mem[q].pidx < |n.sels|
    && t.mem[q].sels == []
    && u.root == t.root && u.loc == t.loc - {t.mem[q].key}
    && u.mem.Keys == t.mem.Keys - {q}
    && 0 <= lo <= hi <= |n.sels|
    && var cleared := n.sels[t.mem[q].pidx := EMPTY_SEL];
    && (forall i :: 0 <= i < lo || hi <= i < |n.sels| ==> cleared[i].node == NULL)
    && u.mem[p] == n.(offset := if lo == hi then 0 else n.offset + lo, sels := cleared[lo..hi])
    && (lo < hi ==> cleared[lo].node != NULL && cleared[hi - 1].node != NULL)
    && (forall c {:trigger Moved(t, u, p, -lo, c)} :: c in t.mem && c != p && c != q ==> Moved(t, u, p, -lo, c))
  }

  lemma LeafGoneParent(t: Tree, u: Tree, q: Ptr, lo: int, hi: int)
    requires Shape(t) && q in t.mem && q != t.root && LeafGone(t, u, q, lo, hi)
    ensures t.mem[q].parent in u.mem && NodeOk(u, t.mem[q].parent)
  {
    ParentKey(t, q);
    var p := t.mem[q].parent;
    NotOwnParent(t, p);
    if p != t.root { ParentKey(t, p); }
    assert NodeOk(t, p) && NodeOk(t, q);
    if t.mem[p].parent != NULL {
      assert Moved(t, u, p, -lo, t.mem[p].parent);
    }
    forall i | 0 <= i < |u.mem[p].sels|
      ensures SelOk(u, p, i)
    {
      LeafGoneSel(t, u, q, lo, hi, i);
    }
  }

  lemma LeafGoneSel(t: Tree, u: Tree, q: Ptr, lo: int, hi: int, i: int)
    requires Shape(t) && q in t.mem && q != t.root && LeafGone(t, u, q, lo, hi)
    requires 0 <= i < |u.mem[t.mem[q].parent].sels|
    ensures SelOk(u, t.mem[q].parent, i)
  {
    var p := t.mem[q].parent;
    NotOwnParent(t, p);
    assert NodeOk(t, p) && NodeOk(t, q) && SelOk(t, p, i + lo);
    var s := u.mem[p].sels[i];
    assert s == t.mem[p].sels[t.mem[q].pidx := EMPTY_SEL][i + lo];
    if s.node != NULL {
      assert s.node != q && Moved(t, u, p, -lo, s.node);
    }
  }

  lemma LeafGoneOther(t: Tree, u: Tree, q: Ptr, lo: int, hi: int, c: Ptr)
    requires Shape(t) && q in t.mem && q != t.root && LeafGone(t, u, q, lo, hi)
    requires c in t.mem && c != q && c != t.mem[q].parent
    ensures NodeOk(u, c)
  {
    ParentKey(t, q);
    var p := t.mem[q].parent;
    assert NodeOk(t, p) && NodeOk(t, q) && NodeOk(t, c);
    var r := t.mem[c].parent;
    assert r != q && Moved(t, u, p, -lo, c);
    if r == p {
      var cleared := t.mem[p].sels[t.mem[q].pidx := EMPTY_SEL];
      assert cleared[t.mem[c].pidx].node == c;
      assert cleared[lo..hi][t.mem[c].pidx - lo] == cleared[t.mem[c].pidx];
    } else if r != NULL {
      assert Moved(t, u, p, -lo, r);
    }
    assert BackLinkOk(u, c);
    forall x | x in t.mem && t.mem[x].parent == c
      ensures x in u.mem && u.mem[x].key == t.mem[x].key && u.mem[x].parent == c && u.mem[x].pidx == t.mem[x].pidx
    {
      if x != p {
        assert x != q && Moved(t, u, p, -lo, x);
      }
    }
    NodeKept(t, u, c);
  }

  lemma LeafGoneShape(t: Tree, u: Tree, q: Ptr, lo: int, hi: int)
    requires Shape(t) && q in t.mem && q != t.root && LeafGone(t, u, q, lo, hi)
    ensures Shape(u)
  {
    ParentKey(t, q);
    assert NodeOk(t, q);
    forall c | c in u.mem
      ensures NodeOk(u, c)
    {
      if c == t.mem[q].parent {
        LeafGoneParent(t, u, q, lo, hi);
      } else {
        LeafGoneOther(t, u, q, lo, hi, c);
      }
    }
    LeafGoneLoc(t, u, q, lo, hi);
  }

  lemma LeafGoneLoc(t: Tree, u: Tree, q: Ptr, lo: int, hi: int)
    requires Shape(t) && q in t.mem && q != t.root && LeafGone(t, u, q, lo, hi)
    ensures forall x {:trigger u.loc[x]} :: x in u.loc ==> u.loc[x] in u.mem && u.mem[u.loc[x]].key == x
    ensures u.root != NULL && u.root in u.mem && u.mem[u.root].key == []
  {
    var p := t.mem[q].parent;
    forall x | x in u.loc
      ensures u.loc[x] in u.mem && u.mem[u.loc[x]].key == x
    {
      assert t.loc[x] in t.mem && t.loc[x] != q;
      if t.loc[x] != p {
        assert Moved(t, u, p, -lo, t.loc[x]);
      }
    }
    if t.root != p {
      assert Moved(t, u, p, -lo, t.root);
    }
  }

  /** `u` is `t` without the one-child node `q`: its parent's edge now runs to the child. */
  ghost predicate Merged(t: Tree, u: Tree, q: Ptr)
    requires Shape(t) && q in t.mem && q != t.root && |t.mem[q].sels| == 1
  {
    var n := t.mem[q];
    var p := n.parent;
    var c := n.sels[0].node;
    && p in t.mem && p != q && c in t.mem && c != q && 0 <= n.offset < 256
    && u.root == t.root && u.loc == t.loc - {n.key}
    && u.mem.Keys == t.mem.Keys - {q}
    && 0 <= n.pidx < |t.mem[p].sels|
    && u.mem[p] == t.mem[p].(sels := t.mem[p].sels[n.pidx :=
                               RadSel(t.mem[p].sels[n.pidx].str + [n.offset] + n.sels[0].str, c)])
    && u.mem[c] == t.mem[c].(parent := p, pidx := n.pidx)
    && (forall x {:trigger u.mem[x]} :: x in t.mem && x != p && x != q && x != c ==> u.mem[x] == t.mem[x])
  }

  lemma MergedParent(t: Tree, u: Tree, q: Ptr)
    requires Shape(t) && q in t.mem && q != t.root && |t.mem[q].sels| == 1 && Merged(t, u, q)
    ensures t.mem[q].parent in u.mem && NodeOk(u, t.mem[q].parent)
  {
    ParentKey(t, q);
    var p := t.mem[q].parent;
    NotOwnParent(t, p);
    if p != t.root { ParentKey(t, p); }
    assert NodeOk(t, p) && NodeOk(t, q) && SelOk(t, q, 0);
    forall i | 0 <= i < |u.mem[p].sels|
      ensures SelOk(u, p, i)
    {
      MergedSel(t, u, q, i);
    }
  }

  lemma MergedSel(t: Tree, u: Tree, q: Ptr, i: int)
    requires Shape(t) && q in t.mem && q != t.root && |t.mem[q].sels| == 1 && Merged(t, u, q)
    requires 0 <= i < |u.mem[t.mem[q].parent].sels|
    ensures SelOk(u, t.mem[q].parent, i)
  {
    var p := t.mem[q].parent;
    NotOwnParent(t, p);
    assert NodeOk(t, p) && NodeOk(t, q) && SelOk(t, p, i) && SelOk(t, q, 0);
    assert u.mem[p].key == t.mem[p].key;
  }

  lemma MergedOther(t: Tree, u: Tree, q: Ptr, x: Ptr)
    requires Shape(t) && q in t.mem && q != t.root && |t.mem[q].sels| == 1 && Merged(t, u, q)
    requires x in t.mem && x != q && x != t.mem[q].parent
    ensures NodeOk(u, x)
  {
    ParentKey(t, q);
    assert NodeOk(t, t.mem[q].parent) && NodeOk(t, q) && NodeOk(t, x) && SelOk(t, q, 0);
    assert BackLinkOk(u, x);
    NodeKept(t, u, x);
  }

  lemma MergedShape(t: Tree, u: Tree, q: Ptr)
    requires Shape(t) && q in t.mem && q != t.root && |t.mem[q].sels| == 1 && Merged(t, u, q)
    ensures Shape(u)
  {
    ParentKey(t, q);
    assert NodeOk(t, q);
    forall x | x in u.mem
      ensures NodeOk(u, x)
    {
      if x == t.mem[q].parent { MergedParent(t, u, q); } else { MergedOther(t, u, q, x); }
    }
  }
}
