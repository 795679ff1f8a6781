/** The operations of radtree.c on the structure of module RadShape. */
module RadTree {
  import opened Bytes
  import opened RadShape

  lemma LeafStepContents(t: Tree, u: Tree, p: Ptr, k: seq<byte>, add: Ptr, e: Elem, delta: int)
    requires RoomForLeaf(t, p, k, add) && LeafStep(t, u, p, k, add, e, delta)
    ensures Contents(u) == Contents(t)[k := e] && k !in Contents(t)
  {
    assert NodeOk(t, p);
    forall x | x in t.loc && x != k
      ensures u.mem[t.loc[x]].elem == t.mem[t.loc[x]].elem
    {
      if t.loc[x] != p {
        assert Moved(t, u, p, delta, t.loc[x]);
      }
    }
  }

  /** The other nodes keep their keys, and those with an element keep it. */
  lemma LeafStepKept(t: Tree, u: Tree, p: Ptr, k: seq<byte>, add: Ptr, e: Elem, delta: int)
    requires RoomForLeaf(t, p, k, add) && LeafStep(t, u, p, k, add, e, delta)
    ensures NodesKept(t.mem, u.mem)
  {
    forall q | q in t.mem
      ensures u.mem[q].key == t.mem[q].key && u.mem[q].elem == t.mem[q].elem
    {
      if q != p {
        assert Moved(t, u, p, delta, q);
      }
    }
  }

  /** Hanging a leaf under `p` never leaves a superfluous node, even if `p` had too few children before. */
  lemma LeafStepEfficient(t: Tree, u: Tree, p: Ptr, k: seq<byte>, add: Ptr, e: Elem, delta: int)
    requires RoomForLeaf(t, p, k, add) && LeafStep(t, u, p, k, add, e, delta)
    requires forall q {:trigger Needed(t, q)} :: q in t.mem && q != p ==> Needed(t, q)
    requires Needed(t, p) || |t.mem[p].sels| == 1
    ensures Efficient(u)
  {
    assert NodeOk(t, p);
    forall q | q in u.mem
      ensures Needed(u, q)
    {
      if q == p {
        if |t.mem[p].sels| >= 1 {
          var a := t.mem[p].sels[0];
          assert a.node != NULL;
        }
      } else if q != add {
        assert Needed(t, q) && Moved(t, u, p, delta, q);
      }
    }
  }

  lemma SplitStepContents(t: Tree, u: Tree, p: Ptr, idx: int, cl: nat, m: Ptr, e: Option<Elem>)
    requires Splittable(t, p, idx, cl, m) && SplitStep(t, u, p, idx, cl, m, e)
    ensures MidKey(t, p, idx, cl, m) !in Contents(t)
    ensures Contents(u) == if e.Some? then Contents(t)[MidKey(t, p, idx, cl, m) := e.value] else Contents(t)
  {
    MidKeyIsNew(t, p, idx, cl, m);
    forall x | x in t.loc
      ensures u.mem[t.loc[x]].elem == t.mem[t.loc[x]].elem
    {
    }
  }

  /** After cutting an edge only the new node may have too few children. */
  lemma SplitStepEfficient(t: Tree, u: Tree, p: Ptr, idx: int, cl: nat, m: Ptr, e: Option<Elem>)
    requires Splittable(t, p, idx, cl, m) && SplitStep(t, u, p, idx, cl, m, e) && Efficient(t)
    ensures forall q {:trigger Needed(u, q)} :: q in u.mem && q != m ==> Needed(u, q)
    ensures e.Some? ==> Efficient(u)
  {
    forall q | q in u.mem && q != m
      ensures Needed(u, q)
    {
      assert Needed(t, q);
    }
  }

  /** Setting or clearing an element changes no link. */
  lemma ElemChanged(t: Tree, u: Tree, p: Ptr, e: Option<Elem>)
    requires Shape(t) && p in t.mem
    requires u.root == t.root && u.loc == t.loc && u.mem == t.mem[p := t.mem[p].(elem := e)]
    ensures Shape(u)
    ensures forall q {:trigger Needed(u, q)} :: q in t.mem && (q != p || e.Some?) && Needed(t, q) ==> Needed(u, q)
  {
    forall q | q in u.mem
      ensures NodeOk(u, q)
    {
      assert NodeOk(t, q);
      assert BackLinkOk(u, q);
      NodeKept(t, u, q);
    }
  }

  lemma ElemChangedContents(t: Tree, u: Tree, p: Ptr, e: Option<Elem>)
    requires Shape(t) && p in t.mem
    requires u.root == t.root && u.loc == t.loc && u.mem == t.mem[p := t.mem[p].(elem := e)]
    ensures t.mem[p].key in Contents(t) <==> t.mem[p].elem.Some?
    ensures Contents(u) == if e.Some? then Contents(t)[t.mem[p].key := e.value] else Contents(t) - {t.mem[p].key}
  {
    assert NodeOk(t, p);
    var k := t.mem[p].key;
    assert forall x :: x in t.loc && x != k ==> u.mem[t.loc[x]] == t.mem[t.loc[x]];
  }

  /** The first key of an empty tree; unless it is the empty key it hangs under an elementless root. */
  lemma FirstNode(u: Tree, k: seq<byte>, add: Ptr, top: Ptr, e: Elem)
    requires add != NULL && top != NULL && add != top
    requires if k == [] then u == Tree(map[add := RadNode(k, Some(e), NULL, 0, 0, [])], add, map[k := add])
             else u == Tree(map[top := RadNode([], None, NULL, 0, k[0], [RadSel(k[1..], add)]),
                                add := RadNode(k, Some(e), top, 0, 0, [])], top, map[k := add, [] := top])
    ensures Shape(u) && Efficient(u) && Contents(u) == map[k := e]
  {
    if k == [] {
      assert NodeOk(u, add);
    } else {
      assert k == [] + [k[0]] + k[1..];
      assert SelOk(u, top, 0);
      assert NodeOk(u, top) && NodeOk(u, add);
    }
  }

  /** How far the extended array reaches. */
  lemma SpacedBounds(n: RadNode, v: RadNode, byt: byte, sel: RadSel, delta: int)
    requires 0 <= n.offset && n.offset + |n.sels| <= 256
    requires var r := Spaced(n.offset, n.sels, byt);
             && v.offset == r.0 && v.sels == r.1[byt - r.0 := sel]
             && delta == (if n.sels == [] then 0 else n.offset - r.0)
    ensures 0 <= byt - v.offset < |v.sels| && 0 <= v.offset && v.offset + |v.sels| <= 256
    ensures n.sels == [] ==> |v.sels| == 1
    ensures n.sels != [] ==> 0 <= delta == n.offset - v.offset && delta + |n.sels| <= |v.sels|
    ensures n.sels != [] ==> delta == 0 || byt == v.offset
    ensures n.sels != [] ==> delta + |n.sels| == |v.sels| || byt == v.offset + |v.sels| - 1
  {
  }

  lemma SpacedOld(offset: int, sels: seq<RadSel>, byt: byte, delta: int, i: int)
    requires 0 <= offset && offset + |sels| <= 256
    requires var r := Spaced(offset, sels, byt);
             && delta == (if sels == [] then 0 else offset - r.0)
             && 0 <= i < |r.1| && i != byt - r.0
    ensures Spaced(offset, sels, byt).1[i] == if 0 <= i - delta < |sels| then sels[i - delta] else EMPTY_SEL
  {
    assert OldEntry(offset, sels, Spaced(offset, sels, byt), i);
  }

  /** An entry of the extended array. */
  lemma SpacedEntry(n: RadNode, v: RadNode, byt: byte, sel: RadSel, delta: int, i: int)
    requires 0 <= n.offset && n.offset + |n.sels| <= 256
    requires var r := Spaced(n.offset, n.sels, byt);
             && v.offset == r.0 && v.sels == r.1[byt - r.0 := sel]
             && delta == (if n.sels == [] then 0 else n.offset - r.0)
    requires 0 <= i < |v.sels|
    ensures LeafEntry(n, v, byt - v.offset, delta, i)
  {
    var r := Spaced(n.offset, n.sels, byt);
    if i != byt - v.offset {
      assert v.sels[i] == r.1[i];
      SpacedOld(n.offset, n.sels, byt, delta, i);
    }
  }

  /** The store after extending the array of `p` and filling the new entry. */
  lemma SpacedStore(mem: Store, p: Ptr, k: seq<byte>, add: Ptr, e: Elem, n: RadNode, delta: int, mem': Store)
    requires p in mem && add !in mem && |mem[p].key| < |k|
    requires 0 <= mem[p].offset && mem[p].offset + |mem[p].sels| <= 256
    requires var (offset, sels) := Spaced(mem[p].offset, mem[p].sels, k[|mem[p].key|]);
             n == mem[p].(offset := offset, sels := sels)
    requires var pos := |mem[p].key|;
             var idx := k[pos] - n.offset;
             mem' == Renumbered(mem, p, delta)[p := n][add := RadNode(k, Some(e), p, idx, 0, [])]
                     [p := n.(sels := n.sels[idx := RadSel(k[pos + 1..], add)])]
    ensures mem'.Keys == mem.Keys + {add}
    ensures var v, pos := mem'[p], |mem[p].key|;
            var (offset, sels) := Spaced(mem[p].offset, mem[p].sels, k[pos]);
            && mem'[add] == RadNode(k, Some(e), p, k[pos] - v.offset, 0, [])
            && v == mem[p].(offset := v.offset, sels := v.sels)
            && v.offset == offset && v.sels == sels[k[pos] - offset := RadSel(k[pos + 1..], add)]
    ensures forall q :: q in mem && q != p ==> mem'[q] == Renumbered(mem, p, delta)[q]
  {
  }

  /** Extending the array of `p` and filling the new entry is a LeafStep. */
  lemma SpacedIsLeafStep(t: Tree, p: Ptr, k: seq<byte>, add: Ptr, e: Elem, n: RadNode, delta: int, u: Tree)
    requires p in t.mem && add !in t.mem && |t.mem[p].key| < |k|
    requires 0 <= t.mem[p].offset && t.mem[p].offset + |t.mem[p].sels| <= 256
    requires var (offset, sels) := Spaced(t.mem[p].offset, t.mem[p].sels, k[|t.mem[p].key|]);
             && n == t.mem[p].(offset := offset, sels := sels)
             && delta == (if t.mem[p].sels == [] then 0 else t.mem[p].offset - offset)
    requires var pos := |t.mem[p].key|;
             var idx := k[pos] - n.offset;
             && u.mem == Renumbered(t.mem, p, delta)[p := n][add := RadNode(k, Some(e), p, idx, 0, [])]
                         [p := n.(sels := n.sels[idx := RadSel(k[pos + 1..], add)])]
             && u.loc == t.loc[k := add] && u.root == t.root
    ensures LeafStep(t, u, p, k, add, e, delta)
  {
    SpacedStore(t.mem, p, k, add, e, n, delta, u.mem);
    var n0, v, sel := t.mem[p], u.mem[p], RadSel(k[|t.mem[p].key| + 1..], add);
    var idx := k[|n0.key|] - v.offset;
    forall i | 0 <= i < |v.sels|
      ensures LeafEntry(n0, v, idx, delta, i)
    {
      SpacedEntry(n0, v, k[|n0.key|], sel, delta, i);
    }
    forall q | q in t.mem && q != p
      ensures Moved(t, u, p, delta, q)
    {
    }
    SpacedBounds(n0, v, k[|n0.key|], sel, delta);
  }

  /** A root without array entries is the only node. */
  lemma LonelyRoot(t: Tree)
    requires Shape(t) && t.root != NULL && t.mem[t.root].sels == []
    ensures t.mem.Keys == {t.root} && t.loc.Keys == {[]}
  {
    forall q | q in t.mem && q != t.root
      ensures false
    {
      assert NodeOk(t, q) && NodeOk(t, t.root);
      assert t.mem[q].key != [];
      AncestorChild(t, t.root, q);
    }
    forall k | k in t.loc
      ensures k == []
    {
      assert t.loc[k] in t.mem;
    }
    assert NodeOk(t, t.root);
  }

  /** Without a node that has no element the tree denotes the same. */
  lemma NodeGone(t: Tree, u: Tree, q: Ptr)
    requires Shape(t) && q in t.mem && t.mem[q].elem.None?
    requires u.loc == t.loc - {t.mem[q].key} && u.mem.Keys == t.mem.Keys - {q}
    requires forall c :: c in t.mem && c != q ==> u.mem[c].key == t.mem[c].key && u.mem[c].elem == t.mem[c].elem
    ensures Contents(u) == Contents(t) && ElemsKept(t.mem, u.mem, NULL)
  {
    assert NodeOk(t, q);
    forall k | k in t.loc && k != t.mem[q].key
      ensures t.loc[k] in u.mem && u.mem[t.loc[k]].elem == t.mem[t.loc[k]].elem
    {
      assert t.loc[k] != q;
    }
  }

  lemma LeafGoneContents(t: Tree, u: Tree, q: Ptr, lo: int, hi: int)
    requires Shape(t) && q in t.mem && q != t.root && LeafGone(t, u, q, lo, hi) && t.mem[q].elem.None?
    ensures Contents(u) == Contents(t) && ElemsKept(t.mem, u.mem, NULL)
  {
    LeafGoneKept(t, u, q, lo, hi);
    NodeGone(t, u, q);
  }

  lemma LeafGoneKept(t: Tree, u: Tree, q: Ptr, lo: int, hi: int)
    requires Shape(t) && q in t.mem && q != t.root && LeafGone(t, u, q, lo, hi)
    ensures forall c :: c in t.mem && c != q ==> u.mem[c].key == t.mem[c].key && u.mem[c].elem == t.mem[c].elem
  {
    var p := t.mem[q].parent;
    forall c | c in t.mem && c != q
      ensures u.mem[c].key == t.mem[c].key && u.mem[c].elem == t.mem[c].elem
    {
      if c != p {
        assert Moved(t, u, p, -lo, c);
      }
    }
  }

  lemma MergedContents(t: Tree, u: Tree, q: Ptr)
    requires Shape(t) && q in t.mem && q != t.root && |t.mem[q].sels| == 1 && Merged(t, u, q) && t.mem[q].elem.None?
    ensures Contents(u) == Contents(t) && ElemsKept(t.mem, u.mem, NULL)
  {
    forall c | c in t.mem && c != q
      ensures u.mem[c].key == t.mem[c].key && u.mem[c].elem == t.mem[c].elem
    {
    }
    NodeGone(t, u, q);
  }

  /** Renumbering the other children and dropping the leaf is a LeafGone. */
  lemma TakenIsLeafGone(t: Tree, u: Tree, q: Ptr, lo: int, hi: int, cleared: seq<RadSel>)
    requires Shape(t) && q in t.mem && q != t.root && t.mem[q].sels == [] && t.mem[q].parent in t.mem
             && t.mem[q].parent != q
    requires var n := t.mem[t.mem[q].parent];
             && 0 <= t.mem[q].pidx < |n.sels| && cleared == n.sels[t.mem[q].pidx := EMPTY_SEL]
             && n.parent != t.mem[q].parent
             && 0 <= lo <= hi <= |n.sels| && (lo < hi ==> cleared[lo].node != NULL && cleared[hi - 1].node != NULL)
             && (forall i :: 0 <= i < lo || hi <= i < |n.sels| ==> cleared[i].node == NULL)
    requires var p := t.mem[q].parent;
             var n := t.mem[p];
             && u.mem == (Renumbered(t.mem, p, -lo) - {q})
                         [p := n.(offset := if lo == hi then 0 else n.offset + lo, sels := cleared[lo..hi])]
             && u.root == t.root && u.loc == t.loc - {t.mem[q].key}
    ensures LeafGone(t, u, q, lo, hi)
  {
    var p := t.mem[q].parent;
    forall c | c in t.mem && c != p && c != q
      ensures Moved(t, u, p, -lo, c)
    {
      assert c in Renumbered(t.mem, p, -lo);
    }
    assert u.mem.Keys == t.mem.Keys - {q};
  }

  /** Removing a leaf can make only its parent superfluous. */
  lemma LeafGoneEfficient(t: Tree, u: Tree, q: Ptr, lo: int, hi: int)
    requires Shape(t) && q in t.mem && q != t.root && LeafGone(t, u, q, lo, hi)
    requires forall x {:trigger Needed(t, x)} :: x in t.mem && x != q ==> Needed(t, x)
    ensures forall x {:trigger Needed(u, x)} :: x in u.mem && x != t.mem[q].parent ==> Needed(u, x)
  {
    forall x | x in u.mem && x != t.mem[q].parent
      ensures Needed(u, x)
    {
      assert Needed(t, x) && Moved(t, u, t.mem[q].parent, -lo, x);
    }
  }

  lemma MergedEfficient(t: Tree, u: Tree, q: Ptr)
    requires Shape(t) && q in t.mem && q != t.root && |t.mem[q].sels| == 1 && Merged(t, u, q)
    requires forall x {:trigger Needed(t, x)} :: x in t.mem && x != q ==> Needed(t, x)
    ensures Efficient(u)
  {
    forall x | x in u.mem
      ensures Needed(u, x)
    {
      assert Needed(t, x);
    }
  }

  /** Element nodes other than `gone` are still there, and no node is new. */
  ghost predicate ElemsKept(m: Store, m': Store, gone: Ptr)
  {
    && (forall q :: q in m' ==> q in m && m'[q].key == m[q].key)
    && (forall q :: q in m && q != gone && m[q].elem.Some? ==> q in m' && m'[q].elem == m[q].elem)
  }

  /** The entries that radnode_cleanup_leaf keeps after entry `pidx` was emptied:
      nothing of a one-entry array, otherwise the array without the empty run at the end it touched. */
  method TrimBounds(sels: seq<RadSel>, pidx: int) returns (lo: int, hi: int)
    requires 0 <= pidx < |sels| && sels[pidx] == EMPTY_SEL
    ensures 0 <= lo <= hi <= |sels|
    ensures forall i :: 0 <= i < lo || hi <= i < |sels| ==> sels[i].node == NULL
    ensures (pidx == 0 || sels[0].node != NULL) && (pidx == |sels| - 1 || sels[|sels| - 1].node != NULL) ==>
              lo < hi ==> sels[lo].node != NULL && sels[hi - 1].node != NULL
    ensures pidx != 0 && pidx != |sels| - 1 ==> lo == 0 && hi == |sels|
  {
    lo, hi := 0, |sels|;
    if |sels| == 1 {
      hi := 0;
    } else if pidx == 0 {
      while lo < |sels| && sels[lo].node == NULL
        invariant 0 <= lo <= |sels|
        invariant forall i :: 0 <= i < lo ==> sels[i].node == NULL
      {
        lo := lo + 1;
      }
    } else if pidx == |sels| - 1 {
      while 0 < hi && sels[hi - 1].node == NULL
        invariant 0 <= hi <= |sels|
        invariant forall i :: hi <= i < |sels| ==> sels[i].node == NULL
      {
        hi := hi - 1;
      }
    }
  }

  /** Every node is still there, at its address and for its key. */
  ghost predicate NodesKept(m: Store, m': Store)
  {
    forall q :: q in m ==> q in m' && m'[q].key == m[q].key
  }

  /** Of two prefixes the shorter one is a prefix of the other. */
  lemma BothPrefixes(a: seq<byte>, b: seq<byte>, k: seq<byte>)
    requires a <= k && b <= k
    ensures if |a| > |b| then b < a else a <= b
  {
    assert a == k[..|a|] && b == k[..|b|];
  }

  lemma EdgeMatches(a: seq<byte>, b: byte, str: seq<byte>, k: seq<byte>)
    requires a + [b] + str <= k
    ensures |a| + 1 + |str| <= |k| && k[|a| + 1..|a| + 1 + |str|] == str
  {
    assert (a + [b] + str)[|a| + 1..] == str;
  }

  class RadTree {
    var mem: Store
    var root: Ptr
    var count: nat
    ghost var loc: map<seq<byte>, Ptr>

    function View(): Tree
      reads this
    {
      Tree(mem, root, loc)
    }

    ghost function Denotes(): map<seq<byte>, Elem>
      reads this
    {
      Contents(View())
    }

    ghost predicate Valid()
      reads this
    {
      Shape(View()) && Efficient(View()) && count == |Denotes()|
    }

    /** radix_tree_init */
    constructor ()
      ensures Valid() && Denotes() == map[] && mem == map[] && count == 0
    {
      mem, root, count, loc := map[], NULL, 0, map[];
    }

    // ------------------------------------------------------------------ lookup

    /** radix_find_prefix_node: the node with the longest key that is a prefix of `k`. */
    method FindPrefixNode(k: seq<byte>) returns (result: Ptr, respos: nat)
      requires Shape(View())
      ensures result == NULL <==> root == NULL
      ensures result == NULL ==> respos == 0
      ensures result != NULL ==> result in mem && mem[result].key <= k && respos == |mem[result].key|
      ensures result != NULL && respos < |k| ==> !Toward(View(), result, k)
      ensures result != NULL ==> forall m :: m in mem && mem[m].key <= k ==> mem[m].key <= mem[result].key
    {
      ghost var t := View();
      result, respos := root, 0;
      if root == NULL { return; }
      var n, pos := root, 0;
      while true
        invariant n in mem && n != NULL && mem[n].key <= k && pos == |mem[n].key|
        invariant result == n && respos == pos
        decreases |k| - pos
      {
        assert NodeOk(t, n);
        if pos == |k| { break; }
        var byt := k[pos];
        if byt < mem[n].offset { break; }
        var i := byt - mem[n].offset;
        if i >= |mem[n].sels| { break; }
        EntryOk(t, n, i);
        pos := pos + 1;
        var sel := mem[n].sels[i];
        if |sel.str| != 0 {
          if pos + |sel.str| > |k| { break; }
          if k[pos..pos + |sel.str|] != sel.str { break; }
          pos := pos + |sel.str|;
        }
        if sel.node == NULL { break; }
        assert k[..pos] == mem[n].key + [byt] + sel.str;
        n := sel.node;
        result, respos := n, pos;
      }
      forall m | m in mem && mem[m].key <= k
        ensures mem[m].key <= mem[result].key
      {
        BothPrefixes(mem[m].key, mem[result].key, k);
        if |mem[m].key| > |mem[result].key| {
          AncestorChild(t, result, m);
        }
      }
    }

    /** radix_search: the element node for exactly this key. */
    method Search(k: seq<byte>) returns (r: Ptr)
      requires Shape(View())
      ensures r != NULL <==> k in Denotes()
      ensures r != NULL ==> r in mem && r == loc[k] && mem[r].key == k && mem[r].elem == Some(Denotes()[k])
    {
      ghost var t := View();
      var n, pos := root, 0;
      while n != NULL
        invariant n != NULL ==> n in mem && mem[n].key <= k && pos == |mem[n].key|
        invariant n == NULL ==> k !in loc
        decreases if n == NULL then -1 else |k| - |mem[n].key|
      {
        assert NodeOk(t, n);
        if pos == |k| {
          assert mem[n].key == k;
          return if mem[n].elem.Some? then n else NULL;
        }
        if k in loc { LeadsTo(t, n, k); }
        var byt := k[pos];
        if byt < mem[n].offset { return NULL; }
        var i := byt - mem[n].offset;
        if i >= |mem[n].sels| { return NULL; }
        EntryOk(t, n, i);
        pos := pos + 1;
        var sel := mem[n].sels[i];
        if |sel.str| != 0 {
          if k in loc { EdgeMatches(mem[n].key, byt, sel.str, k); }
          if pos + |sel.str| > |k| { return NULL; }
          if k[pos..pos + |sel.str|] != sel.str { return NULL; }
          pos := pos + |sel.str|;
        }
        assert k[..pos] == mem[n].key + [byt] + sel.str;
        n := sel.node;
      }
      return NULL;
    }

    // ------------------------------------------------------------------ insertion

    /** The pidx fix-up loop of radnode_array_space and radnode_array_clean_front. */
    method RenumberChildren(p: Ptr, delta: int)
      requires Shape(View()) && p in mem
      modifies this`mem
      ensures mem == Renumbered(old(mem), p, delta)
    {
      ghost var t := View();
      var sels := mem[p].sels;
      assert NodeOk(t, p);
      forall q | q in mem && t.mem[q].parent == p
        ensures 0 <= t.mem[q].pidx < |sels| && sels[t.mem[q].pidx].node == q
      {
        assert NodeOk(t, q);
      }
      var idx := 0;
      while idx < |sels|
        invariant 0 <= idx <= |sels|
        invariant mem.Keys == t.mem.Keys
        invariant forall q :: q in mem ==>
                    mem[q] == if t.mem[q].parent == p && t.mem[q].pidx < idx
                              then t.mem[q].(pidx := t.mem[q].pidx + delta) else t.mem[q]
      {
        assert SelOk(t, p, idx);
        var c := sels[idx].node;
        if c != NULL {
          mem := mem[c := mem[c].(pidx := idx + delta)];
        }
        idx := idx + 1;
      }
      ghost var m := Renumbered(t.mem, p, delta);
      assert forall q :: q in mem ==> mem[q] == m[q];
    }

    /** radnode_array_space: make the lookup array of `p` cover one more byte. */
    method ArraySpace(p: Ptr, byt: byte)
      requires Shape(View()) && p in mem
      requires 0 <= mem[p].offset && mem[p].offset + |mem[p].sels| <= 256
      modifies this`mem
      ensures var n := old(mem)[p];
              var (offset, sels) := Spaced(n.offset, n.sels, byt);
              mem == Renumbered(old(mem), p, if n.sels == [] then 0 else n.offset - offset)
                     [p := n.(offset := offset, sels := sels)]
    {
      var n := mem[p];
      ghost var r := Spaced(n.offset, n.sels, byt);
      NotOwnParent(View(), p);
      if |n.sels| == 0 {
        mem := mem[p := n.(sels := [EMPTY_SEL], offset := byt)];
      } else if byt < n.offset {
        var need := n.offset - byt;
        RenumberChildren(p, need);
        mem := mem[p := mem[p].(sels := Empties(need) + n.sels, offset := byt)];
      } else if byt - n.offset >= |n.sels| {
        var need := byt - n.offset - |n.sels| + 1;
        mem := mem[p := n.(sels := n.sels + Empties(need))];
      }
      assert mem[p] == n.(offset := r.0, sels := r.1);
    }

    /** A leaf for `k` goes into an array entry of `p` that does not exist or is empty. */
    method AddLeaf(p: Ptr, k: seq<byte>, pos: nat, add: Ptr, e: Elem) returns (ghost delta: int)
      requires RoomForLeaf(View(), p, k, add) && pos == |mem[p].key|
      modifies this`mem, this`loc
      ensures old(RoomForLeaf(View(), p, k, add)) && LeafStep(old(View()), View(), p, k, add, e, delta)
      ensures Shape(View()) && NodesKept(old(mem), mem)
    {
      ghost var t := View();
      assert NodeOk(t, p);
      var byt := k[pos];
      ArraySpace(p, byt);
      ghost var n := mem[p];
      delta := if t.mem[p].sels == [] then 0 else t.mem[p].offset - n.offset;
      var idx := byt - mem[p].offset;
      mem := mem[add := RadNode(k, Some(e), p, idx, 0, [])];
      mem := mem[p := mem[p].(sels := mem[p].sels[idx := RadSel(k[pos + 1..], add)])];
      loc := loc[k := add];
      SpacedIsLeafStep(t, p, k, add, e, n, delta, View());
      LeafStepShape(t, View(), p, k, add, e, delta);
      LeafStepKept(t, View(), p, k, add, e, delta);
    }

    /** The new node `m` is put on the edge at entry `idx` of `p`, after `cl` bytes of its string. */
    method SplitEdge(p: Ptr, idx: int, cl: nat, m: Ptr, ghost mk: seq<byte>, e: Option<Elem>)
      requires Splittable(View(), p, idx, cl, m) && mk == MidKey(View(), p, idx, cl, m)
      modifies this`mem, this`loc
      ensures old(Splittable(View(), p, idx, cl, m)) && SplitStep(old(View()), View(), p, idx, cl, m, e)
      ensures Shape(View())
    {
      ghost var t := View();
      assert NodeOk(t, p) && SelOk(t, p, idx);
      NotOwnParent(t, p);
      var s := mem[p].sels[idx];
      mem := mem[m := RadNode(mk, e, mem[s.node].parent, mem[s.node].pidx, s.str[cl],
                              [RadSel(s.str[cl + 1..], s.node)])];
      mem := mem[s.node := mem[s.node].(parent := m, pidx := 0)];
      mem := mem[p := mem[p].(sels := mem[p].sels[idx := RadSel(s.str[..cl], m)])];
      loc := loc[mk := m];
      SplitStepShape(t, View(), p, idx, cl, m, e);
    }

    /** The entry `idx` of `p` is taken by an edge that `k` follows only in part. */
    ghost predicate PartlyFollowed(p: Ptr, idx: int, k: seq<byte>, pos: nat, add: Ptr, com: Ptr)
      reads this
    {
      && Shape(View()) && Efficient(View()) && p in mem && mem[p].key < k && k !in loc && pos == |mem[p].key| + 1
      && add != NULL && com != NULL && add != com && add !in mem && com !in mem
      && 0 <= idx < |mem[p].sels| && idx == k[pos - 1] - mem[p].offset && mem[p].sels[idx].node != NULL
      && !Toward(View(), p, k)
    }

    /** First case of radsel_split: the new key ends inside the edge, its node goes onto the edge. */
    method SplitAtKey(p: Ptr, idx: int, k: seq<byte>, pos: nat, add: Ptr, ghost com: Ptr, e: Elem)
      requires PartlyFollowed(p, idx, k, pos, add, com) && k[pos..] <= mem[p].sels[idx].str
      modifies this`mem, this`loc
      ensures Shape(View()) && Efficient(View())
      ensures Denotes() == old(Denotes())[k := e] && k !in old(Denotes())
      ensures add in mem && mem[add].key == k
      ensures NodesKept(old(mem), mem)
    {
      ghost var t := View();
      assert NodeOk(t, p) && SelOk(t, p, idx);
      ghost var str := t.mem[p].sels[idx].str;
      var cl := |k| - pos;
      assert k == t.mem[p].key + [k[pos - 1]] + str[..cl];
      assert cl < |str|;
      SplitEdge(p, idx, cl, add, k, Some(e));
      SplitStepContents(t, View(), p, idx, cl, add, Some(e));
      SplitStepEfficient(t, View(), p, idx, cl, add, Some(e));
    }

    /** Last case of radsel_split: a new node chooses between the old child and the new key. */
    method SplitAtFork(p: Ptr, idx: int, k: seq<byte>, pos: nat, add: Ptr, com: Ptr, cl: nat, e: Elem)
      requires PartlyFollowed(p, idx, k, pos, add, com)
      requires cl == Common(mem[p].sels[idx].str, k[pos..]) < |k| - pos && cl < |mem[p].sels[idx].str|
      modifies this`mem, this`loc
      ensures Shape(View()) && Efficient(View())
      ensures Denotes() == old(Denotes())[k := e] && k !in old(Denotes())
      ensures add in mem && mem[add].key == k
      ensures NodesKept(old(mem), mem)
    {
      ghost var t := View();
      assert NodeOk(t, p) && SelOk(t, p, idx);
      ghost var str := t.mem[p].sels[idx].str;
      ghost var mk := MidKey(t, p, idx, cl, com);
      assert mk == k[..pos + cl] by {
        assert k[..pos + cl] == t.mem[p].key + [k[pos - 1]] + k[pos..][..cl];
      }
      MidKeyIsNew(t, p, idx, cl, com);
      SplitEdge(p, idx, cl, com, mk, None);
      SplitStepContents(t, View(), p, idx, cl, com, None);
      SplitStepEfficient(t, View(), p, idx, cl, com, None);
      assert k[pos + cl] == k[pos..][cl] != str[cl];
      HangLeaf(com, k, pos + cl, add, e);
    }

    /** A leaf below a node that has room for it. */
    method HangLeaf(p: Ptr, k: seq<byte>, pos: nat, add: Ptr, e: Elem)
      requires RoomForLeaf(View(), p, k, add) && pos == |mem[p].key|
      requires forall q {:trigger Needed(View(), q)} :: q in mem && q != p ==> Needed(View(), q)
      requires Needed(View(), p) || |mem[p].sels| == 1
      modifies this`mem, this`loc
      ensures Shape(View()) && Efficient(View())
      ensures Denotes() == old(Denotes())[k := e] && k !in old(Denotes())
      ensures add in mem && mem[add].key == k
      ensures NodesKept(old(mem), mem)
    {
      ghost var t := View();
      ghost var delta := AddLeaf(p, k, pos, add, e);
      LeafStepContents(t, View(), p, k, add, e, delta);
      LeafStepEfficient(t, View(), p, k, add, e, delta);
    }

    /** radsel_split.  Its second branch, "the edge is a prefix of the rest of the key",
        cannot be reached: radix_find_prefix_node would have followed the edge. */
    method SelSplit(p: Ptr, idx: int, k: seq<byte>, pos: nat, add: Ptr, com: Ptr, e: Elem)
      requires PartlyFollowed(p, idx, k, pos, add, com)
      modifies this`mem, this`loc
      ensures Shape(View()) && Efficient(View())
      ensures Denotes() == old(Denotes())[k := e] && k !in old(Denotes())
      ensures add in mem && mem[add].key == k
      ensures NodesKept(old(mem), mem)
    {
      assert NodeOk(View(), p) && SelOk(View(), p, idx);
      var str := mem[p].sels[idx].str;
      if k[pos..] <= str {
        SplitAtKey(p, idx, k, pos, add, com, e);
      } else {
        assert k == mem[p].key + [k[pos - 1]] + k[pos..];
        assert !(str <= k[pos..]);
        SplitAtFork(p, idx, k, pos, add, com, Common(str, k[pos..]), e);
      }
    }

    /** The new-root case of radix_insert. */
    method InsertFirst(k: seq<byte>, e: Elem, add: Ptr, top: Ptr)
      requires mem == map[] && loc == map[] && add != NULL && top != NULL && add != top
      modifies this`mem, this`loc, this`root
      ensures Shape(View()) && Efficient(View()) && Denotes() == map[k := e]
      ensures add in mem && mem[add].key == k
    {
      if |k| == 0 {
        mem := mem[add := RadNode(k, Some(e), NULL, 0, 0, [])];
        root := add;
        loc := map[k := add];
      } else {
        mem := mem[top := RadNode([], None, NULL, 0, k[0], [RadSel(k[1..], add)])];
        mem := mem[add := RadNode(k, Some(e), top, 0, 0, [])];
        root := top;
        loc := map[k := add, [] := top];
      }
      FirstNode(View(), k, add, top, e);
    }

    /** The exact-match case of radix_insert: the node exists, with or without an element. */
    method InsertHere(n: Ptr, e: Elem) returns (r: Ptr)
      requires Shape(View()) && Efficient(View()) && n in mem
      modifies this`mem
      ensures Shape(View()) && Efficient(View())
      ensures NodesKept(old(mem), mem) && n in mem && mem[n].key == old(mem)[n].key
      ensures if mem[n].key in old(Denotes()) then r == NULL && mem == old(mem)
              else r == n && Denotes() == old(Denotes())[mem[n].key := e]
    {
      ghost var t := View();
      assert NodeOk(t, n);
      if mem[n].elem.Some? { return NULL; }
      mem := mem[n := mem[n].(elem := Some(e))];
      ElemChanged(t, View(), n, Some(e));
      ElemChangedContents(t, View(), n, Some(e));
      r := n;
    }

    /** radix_insert.  `add`, `com` and `top` are the addresses the allocator would return. */
    method Insert(k: seq<byte>, e: Elem, add: Ptr, com: Ptr, top: Ptr) returns (r: Ptr)
      requires Valid()
      requires add != NULL && com != NULL && top != NULL && add != com && com != top && add != top
      requires add !in mem && com !in mem && top !in mem
      modifies this
      ensures Valid()
      ensures k in old(Denotes()) ==> r == NULL && View() == old(View())
      ensures k !in old(Denotes()) ==> r in mem && mem[r].key == k && Denotes() == old(Denotes())[k := e]
      ensures NodesKept(old(mem), mem)
    {
      ghost var t := View();
      var n, pos := FindPrefixNode(k);
      r := add;
      if n == NULL {
        EmptyTree(t);
        InsertFirst(k, e, add, top);
      } else if pos == |k| {
        assert mem[n].key == k;
        r := InsertHere(n, e);
        if r == NULL { return; }
      } else {
        InsertBelow(n, k, pos, e, add, com);
      }
      ghost var u := View();
      assert Shape(u) && Efficient(u) && Contents(u) == Contents(t)[k := e] && k !in Contents(t);
      count := count + 1;
      assert View() == u;
    }

    /** The part of radix_insert below the longest matching node. */
    method InsertBelow(n: Ptr, k: seq<byte>, pos: nat, e: Elem, add: Ptr, com: Ptr)
      requires Shape(View()) && Efficient(View()) && n in mem && mem[n].key < k && pos == |mem[n].key|
      requires !Toward(View(), n, k)
      requires add != NULL && com != NULL && add != com && add !in mem && com !in mem
      modifies this`mem, this`loc
      ensures Shape(View()) && Efficient(View())
      ensures Denotes() == old(Denotes())[k := e] && k !in old(Denotes())
      ensures add in mem && mem[add].key == k
      ensures NodesKept(old(mem), mem)
    {
      ghost var t := View();
      assert NodeOk(t, n);
      if k in loc { LeadsTo(t, n, k); }
      var byt := k[pos];
      if byt < mem[n].offset || byt - mem[n].offset >= |mem[n].sels| || mem[n].sels[byt - mem[n].offset].node == NULL {
        HangLeaf(n, k, pos, add, e);
      } else {
        SelSplit(n, byt - mem[n].offset, k, pos + 1, add, com, e);
      }
    }

    // ------------------------------------------------------------------ deletion

    /** The node goes, and its parent gets what is left of its array. */
    method DropChild(q: Ptr, p: Ptr, first: int, last: int, sels: seq<RadSel>)
      requires q in mem && p in mem && p != q && 0 <= first <= last <= |sels|
      modifies this`mem, this`loc
      ensures loc == old(loc) - {old(mem)[q].key}
      ensures var n := old(mem)[p];
              mem == (old(mem) - {q})[p := n.(offset := if first == last then 0 else n.offset + first,
                                              sels := sels[first..last])]
    {
      loc := loc - {mem[q].key};
      mem := mem - {q};
      mem := mem[p := mem[p].(offset := if first == last then 0 else mem[p].offset + first, sels := sels[first..last])];
    }

    /** radnode_cleanup_leaf */
    method CleanupLeaf(q: Ptr) returns (ghost lo: int, ghost hi: int)
      requires Shape(View()) && q in mem && q != root && mem[q].sels == []
      modifies this`mem, this`loc
      ensures old(Shape(View()) && q in mem && q != root) && LeafGone(old(View()), View(), q, lo, hi)
      ensures Shape(View())
    {
      ghost var t := View();
      ParentKey(t, q);
      var p, pidx := mem[q].parent, mem[q].pidx;
      assert NodeOk(t, p) && NodeOk(t, q);
      NotOwnParent(t, p);
      var cleared := mem[p].sels[pidx := EMPTY_SEL];
      var first, last := TrimBounds(cleared, pidx);
      lo, hi := first, last;
      RenumberChildren(p, -first);
      DropChild(q, p, first, last, cleared);
      TakenIsLeafGone(t, View(), q, lo, hi, cleared);
      LeafGoneShape(t, View(), q, lo, hi);
    }

    /** radnode_cleanup_onechild: the node is removed and joined into its parent's edge. */
    method CleanupOneChild(q: Ptr)
      requires Shape(View()) && q in mem && q != root && |mem[q].sels| == 1
      modifies this`mem, this`loc
      ensures old(Shape(View()) && q in mem && q != root && |mem[q].sels| == 1) && Merged(old(View()), View(), q)
      ensures Shape(View())
    {
      ghost var t := View();
      ParentKey(t, q);
      var n := mem[q];
      var par, pidx, child := n.parent, n.pidx, n.sels[0].node;
      assert NodeOk(t, par) && NodeOk(t, q) && SelOk(t, q, 0);
      var join := mem[par].sels[pidx].str + [mem[child].pidx + n.offset] + n.sels[0].str;
      mem := mem[par := mem[par].(sels := mem[par].sels[pidx := RadSel(join, child)])];
      mem := mem[child := mem[child].(parent := par, pidx := pidx)];
      mem := mem - {q};
      loc := loc - {t.mem[q].key};
      MergedShape(t, View(), q);
    }

    /** All nodes but `n` are needed. */
    ghost predicate Suspect(n: Ptr)
      reads this
    {
      && Shape(View()) && n in mem
      && (forall q {:trigger Needed(View(), q)} :: q in mem && q != n ==> Needed(View(), q))
    }

    /** One round of radnode_cleanup; `next` is the parent to look at, or NULL when done. */
    method CleanupStep(n: Ptr) returns (next: Ptr)
      requires Suspect(n)
      modifies this`mem, this`loc, this`root
      ensures Denotes() == old(Denotes()) && ElemsKept(old(mem), mem, NULL)
      ensures next == NULL ==> Shape(View()) && Efficient(View())
      ensures next != NULL ==> Suspect(next) && |mem[next].key| < |old(mem)[n].key|
    {
      ghost var t := View();
      next := NULL;
      assert NodeOk(t, n);
      if mem[n].elem.Some? {
        assert Needed(t, n);
      } else if |mem[n].sels| == 1 && mem[n].parent != NULL {
        CleanupOneChild(n);
        MergedContents(t, View(), n);
        MergedEfficient(t, View(), n);
      } else if |mem[n].sels| == 0 {
        var par := mem[n].parent;
        if par == NULL {
          LonelyRoot(t);
          mem := mem - {n};
          root := NULL;
          loc := map[];
          assert mem == map[];
          return;
        }
        ParentKey(t, n);
        ghost var lo, hi := CleanupLeaf(n);
        LeafGoneContents(t, View(), n, lo, hi);
        LeafGoneEfficient(t, View(), n, lo, hi);
        next := par;
      } else {
        assert Needed(t, n);
      }
    }

    /** radnode_cleanup: remove nodes that have become superfluous, from `start` upwards. */
    method Cleanup(start: Ptr)
      requires Suspect(start)
      modifies this`mem, this`loc, this`root
      ensures Shape(View()) && Efficient(View()) && Denotes() == old(Denotes())
      ensures ElemsKept(old(mem), mem, NULL)
    {
      var n := start;
      while n != NULL
        invariant n != NULL ==> Suspect(n)
        invariant n == NULL ==> Shape(View()) && Efficient(View())
        invariant Denotes() == old(Denotes()) && ElemsKept(old(mem), mem, NULL)
        decreases if n == NULL then -1 else |mem[n].key|
      {
        n := CleanupStep(n);
      }
    }

    /** radix_delete */
    method Delete(n: Ptr)
      requires Valid()
      requires n != NULL ==> n in mem && mem[n].elem.Some?
      modifies this
      ensures Valid()
      ensures Denotes() == if n == NULL then old(Denotes()) else old(Denotes()) - {old(mem)[n].key}
      ensures n != NULL ==> old(mem)[n].key in old(Denotes())
      ensures ElemsKept(old(mem), mem, n)
    {
      if n == NULL { return; }
      ghost var t := View();
      mem := mem[n := mem[n].(elem := None)];
      ghost var u := View();
      ElemChanged(t, u, n, None);
      ElemChangedContents(t, u, n, None);
      assert forall q :: q in mem && q != n ==> Needed(t, q);
      assert ElemsKept(t.mem, u.mem, n);
      count := count - 1;
      assert View() == u;
      Cleanup(n);
    }
  }

  // -------------------------------------------------------------------- runs

  /** An insertion or a deletion by key. */
  datatype Op = Add(key: seq<byte>, elem: Elem) | Remove(key: seq<byte>)

  ghost function Stepped(m: map<seq<byte>, Elem>, op: Op): (m': map<seq<byte>, Elem>)
  {
    match op
    case Add(k, e) => if k in m then m else m[k := e]
    case Remove(k) => m - {k}
  }

  /** The map after a run: keys that were inserted and not deleted, each with its first element. */
  ghost function After(m: map<seq<byte>, Elem>, ops: seq<Op>): (m': map<seq<byte>, Elem>)
  {
    if ops == [] then m else Stepped(After(m, ops[..|ops| - 1]), ops[|ops| - 1])
  }

  lemma AfterSnoc(m: map<seq<byte>, Elem>, ops: seq<Op>, i: nat)
    requires i < |ops|
    ensures After(m, ops[..i + 1]) == Stepped(After(m, ops[..i]), ops[i])
  {
    assert ops[..i + 1][..i] == ops[..i];
  }

  /** An address above all that are in use. */
  method Above(keys: set<Ptr>) returns (n: Ptr)
    ensures forall p :: p in keys ==> p < n
  {
    n := 1;
    var rest := keys;
    while rest != {}
      invariant rest <= keys && forall p :: p in keys && p !in rest ==> p < n
    {
      var p :| p in rest;
      if p >= n { n := p + 1; }
      rest := rest - {p};
    }
  }

  method Step(tree: RadTree, op: Op)
    requires tree.Valid()
    modifies tree
    ensures tree.Valid() && tree.Denotes() == Stepped(old(tree.Denotes()), op)
  {
    match op {
      case Add(k, e) =>
        var n := Above(tree.mem.Keys);
        var _ := tree.Insert(k, e, n + 1, n + 2, n + 3);
      case Remove(k) =>
        var n := tree.Search(k);
        tree.Delete(n);
    }
  }

  /** After any run of insertions and deletions the tree denotes the map of the run, and its count is the size of it. */
  method Run(tree: RadTree, ops: seq<Op>)
    requires tree.Valid()
    modifies tree
    ensures tree.Valid() && tree.Denotes() == After(old(tree.Denotes()), ops)
            && tree.count == |After(old(tree.Denotes()), ops)|
  {
    var i := 0;
    while i < |ops|
      invariant 0 <= i <= |ops| && tree.Valid() && tree.Denotes() == After(old(tree.Denotes()), ops[..i])
    {
      AfterSnoc(old(tree.Denotes()), ops, i);
      Step(tree, ops[i]);
      i := i + 1;
    }
    assert ops[..i] == ops;
  }
}
