/** Predecessor and successor queries of radtree.c.  Keys are ordered as byte strings, so
    a node precedes everything in its subtree and array entries are in order. */
module RadOrder {
  import opened Bytes
  import opened RadShape

  // -------------------------------------------------------------------- key sets

  /** Keys with an element strictly below node `a`. */
  ghost function Under(t: Tree, a: Ptr): set<seq<byte>>
    requires a in t.mem
  {
    set k | k in Contents(t) && t.mem[a].key < k
  }

  /** The part of Under that goes through array entries before `from`. */
  ghost function UnderBefore(t: Tree, a: Ptr, from: int): set<seq<byte>>
    requires a in t.mem
  {
    set k | k in Contents(t) && t.mem[a].key < k && k[|t.mem[a].key|] - t.mem[a].offset < from
  }

  /** The part of Under that goes through array entries from `from` on. */
  ghost function UnderFrom(t: Tree, a: Ptr, from: int): set<seq<byte>>
    requires a in t.mem
  {
    set k | k in Contents(t) && t.mem[a].key < k && k[|t.mem[a].key|] - t.mem[a].offset >= from
  }

  ghost function AtOrUnder(t: Tree, a: Ptr): set<seq<byte>>
    requires a in t.mem
  {
    set k | k in Contents(t) && t.mem[a].key <= k
  }

  ghost function Before(t: Tree, k: seq<byte>): set<seq<byte>>
  {
    set x | x in Contents(t) && LexLess(x, k)
  }

  ghost function After(t: Tree, k: seq<byte>): set<seq<byte>>
  {
    set x | x in Contents(t) && LexLess(k, x)
  }

  /** `r` is the node of the greatest key in `s`, NULL if there is none. */
  ghost predicate Greatest(t: Tree, r: Ptr, s: set<seq<byte>>)
  {
    if r == NULL then s == {}
    else
      && r in t.mem && t.mem[r].elem.Some? && t.mem[r].key in s
      && (forall k :: k in s ==> LexLeq(k, t.mem[r].key))
  }

  ghost predicate Least(t: Tree, r: Ptr, s: set<seq<byte>>)
  {
    if r == NULL then s == {}
    else
      && r in t.mem && t.mem[r].elem.Some? && t.mem[r].key in s
      && (forall k :: k in s ==> LexLeq(t.mem[r].key, k))
  }

  /** The nodes at or below `a`; shrinks on the way down. */
  ghost function Nodes(t: Tree, a: Ptr): set<Ptr>
    requires a in t.mem
  {
    set p | p in t.mem && t.mem[a].key <= t.mem[p].key
  }

  // -------------------------------------------------------------------- facts

  /** The edge of `a` towards a key below it. */
  lemma ThroughChild(t: Tree, a: Ptr, k: seq<byte>)
    requires Shape(t) && a in t.mem && k in Under(t, a)
    ensures Toward(t, a, k)
    ensures var i := k[|t.mem[a].key|] - t.mem[a].offset;
            && 0 <= i < |t.mem[a].sels|
            && var c := t.mem[a].sels[i].node; c in t.mem && c != NULL && (k == t.mem[c].key || k in Under(t, c))
  {
    LeadsTo(t, a, k);
  }

  lemma ChildFacts(t: Tree, a: Ptr, i: int)
    requires Shape(t) && a in t.mem && 0 <= i < |t.mem[a].sels| && t.mem[a].sels[i].node != NULL
    ensures var c := t.mem[a].sels[i].node;
            && c in t.mem && t.mem[a].key < t.mem[c].key
            && t.mem[c].key[|t.mem[a].key|] == t.mem[a].offset + i
            && Nodes(t, c) < Nodes(t, a)
  {
    assert NodeOk(t, a) && SelOk(t, a, i);
    var c := t.mem[a].sels[i].node;
    assert a in Nodes(t, a) && a !in Nodes(t, c);
  }

  lemma OwnKey(t: Tree, p: Ptr)
    requires Shape(t) && p in t.mem
    ensures t.mem[p].key in Contents(t) <==> t.mem[p].elem.Some?
  {
    assert NodeOk(t, p);
  }

  /** Keys through an earlier entry precede keys through a later one. */
  lemma EarlierEntry(t: Tree, a: Ptr, x: seq<byte>, y: seq<byte>)
    requires a in t.mem && t.mem[a].key < x && t.mem[a].key < y && x[|t.mem[a].key|] < y[|t.mem[a].key|]
    ensures LexLess(x, y)
  {
    BranchLess(x, y, |t.mem[a].key|);
  }

  /** The keys through entry `i` are those at or below its child. */
  lemma ThroughEntry(t: Tree, a: Ptr, i: int, k: seq<byte>)
    requires Shape(t) && a in t.mem && 0 <= i < |t.mem[a].sels|
    ensures k in UnderBefore(t, a, i + 1) && k !in UnderBefore(t, a, i) <==>
            k in Contents(t) && t.mem[a].sels[i].node != NULL && t.mem[a].sels[i].node in t.mem &&
            t.mem[t.mem[a].sels[i].node].key <= k
    ensures k in UnderFrom(t, a, i) && k !in UnderFrom(t, a, i + 1) <==>
            k in Contents(t) && t.mem[a].sels[i].node != NULL && t.mem[a].sels[i].node in t.mem &&
            t.mem[t.mem[a].sels[i].node].key <= k
  {
    if k in Under(t, a) { ThroughChild(t, a, k); }
    if t.mem[a].sels[i].node != NULL { ChildFacts(t, a, i); }
  }

  /** `r` is the greatest key at or below the child of entry `i`: it decides for all entries up to `i`. */
  lemma LastThrough(t: Tree, a: Ptr, i: int, r: Ptr)
    requires Shape(t) && a in t.mem && 0 <= i < |t.mem[a].sels|
    requires var c := t.mem[a].sels[i].node;
             if c == NULL then r == NULL else c in t.mem && Greatest(t, r, AtOrUnder(t, c))
    ensures r != NULL ==> Greatest(t, r, UnderBefore(t, a, i + 1))
    ensures r == NULL ==> UnderBefore(t, a, i + 1) == UnderBefore(t, a, i)
  {
    if r == NULL {
      forall k: seq<byte> ensures k in UnderBefore(t, a, i + 1) <==> k in UnderBefore(t, a, i) {
        ThroughEntry(t, a, i, k);
        var c := t.mem[a].sels[i].node;
        assert c != NULL ==> k !in AtOrUnder(t, c);
      }
    } else {
      ThroughEntry(t, a, i, t.mem[r].key);
      forall k | k in UnderBefore(t, a, i + 1)
        ensures LexLeq(k, t.mem[r].key)
      {
        ThroughEntry(t, a, i, k);
        if k in UnderBefore(t, a, i) { EarlierEntry(t, a, k, t.mem[r].key); }
      }
    }
  }

  lemma FirstThrough(t: Tree, a: Ptr, i: int, r: Ptr)
    requires Shape(t) && a in t.mem && 0 <= i < |t.mem[a].sels|
    requires var c := t.mem[a].sels[i].node;
             if c == NULL then r == NULL else c in t.mem && Least(t, r, AtOrUnder(t, c))
    ensures r != NULL ==> Least(t, r, UnderFrom(t, a, i))
    ensures r == NULL ==> UnderFrom(t, a, i) == UnderFrom(t, a, i + 1)
  {
    if r == NULL {
      forall k: seq<byte> ensures k in UnderFrom(t, a, i) <==> k in UnderFrom(t, a, i + 1) {
        ThroughEntry(t, a, i, k);
        var c := t.mem[a].sels[i].node;
        assert c != NULL ==> k !in AtOrUnder(t, c);
      }
    } else {
      ThroughEntry(t, a, i, t.mem[r].key);
      forall k | k in UnderFrom(t, a, i)
        ensures LexLeq(t.mem[r].key, k)
      {
        ThroughEntry(t, a, i, k);
        if k in UnderFrom(t, a, i + 1) { EarlierEntry(t, a, t.mem[r].key, k); }
      }
    }
  }

  /** All entries together make up Under. */
  lemma AllEntries(t: Tree, a: Ptr)
    requires Shape(t) && a in t.mem
    ensures Under(t, a) == UnderBefore(t, a, |t.mem[a].sels|) == UnderFrom(t, a, 0)
    ensures UnderBefore(t, a, 0) == {} == UnderFrom(t, a, |t.mem[a].sels|)
  {
    forall k | k in Under(t, a)
      ensures 0 <= k[|t.mem[a].key|] - t.mem[a].offset < |t.mem[a].sels|
    {
      ThroughChild(t, a, k);
    }
  }

  /** From strictly below `c` to at or below `c`: last prefers the subtree, first prefers the node. */
  lemma SelfAndSubtree(t: Tree, c: Ptr, s: Ptr)
    requires Shape(t) && c in t.mem
    ensures AtOrUnder(t, c) == Under(t, c) + (if t.mem[c].elem.Some? then {t.mem[c].key} else {})
    ensures s != NULL && Greatest(t, s, Under(t, c)) ==> Greatest(t, s, AtOrUnder(t, c))
    ensures t.mem[c].elem.Some? ==> Least(t, c, AtOrUnder(t, c))
  {
    OwnKey(t, c);
    forall k: seq<byte>
      ensures k in AtOrUnder(t, c) <==> k in Under(t, c) || (t.mem[c].elem.Some? && k == t.mem[c].key) {
      assert t.mem[c].key <= k <==> t.mem[c].key < k || t.mem[c].key == k;
    }
    if s != NULL && Greatest(t, s, Under(t, c)) { PrefixLess(t.mem[c].key, t.mem[s].key); }
    forall k | k in Under(t, c) ensures LexLeq(t.mem[c].key, k) { PrefixLess(t.mem[c].key, k); }
  }

  // -------------------------------------------------------------------- last / first in a subtree

  /** radnode_last_in_subtree */
  method LastInSubtree(t: Tree, a: Ptr) returns (r: Ptr)
    requires Shape(t) && a in t.mem
    ensures Greatest(t, r, Under(t, a))
    decreases Nodes(t, a)
  {
    AllEntries(t, a);
    var idx := |t.mem[a].sels| - 1;
    while idx >= 0
      invariant -1 <= idx < |t.mem[a].sels|
      invariant Under(t, a) == UnderBefore(t, a, idx + 1)
    {
      var c := t.mem[a].sels[idx].node;
      if c != NULL {
        ChildFacts(t, a, idx);
        AllEntries(t, c);
        var s := NULL;
        if |t.mem[c].sels| > 0 {
          s := LastInSubtree(t, c);
        }
        SelfAndSubtree(t, c, s);
        if s != NULL { LastThrough(t, a, idx, s); return s; }
        if t.mem[c].elem.Some? { LastThrough(t, a, idx, c); return c; }
      }
      LastThrough(t, a, idx, NULL);
      idx := idx - 1;
    }
    return NULL;
  }

  /** radnode_last_in_subtree_incl_self */
  method LastInSubtreeInclSelf(t: Tree, a: Ptr) returns (r: Ptr)
    requires Shape(t) && a in t.mem
    ensures Greatest(t, r, AtOrUnder(t, a))
  {
    var s := LastInSubtree(t, a);
    SelfAndSubtree(t, a, s);
    if s != NULL { return s; }
    if t.mem[a].elem.Some? { return a; }
    return NULL;
  }

  /** radnode_first_in_subtree */
  method FirstInSubtree(t: Tree, a: Ptr) returns (r: Ptr)
    requires Shape(t) && a in t.mem
    ensures Least(t, r, Under(t, a))
    decreases Nodes(t, a)
  {
    AllEntries(t, a);
    var idx := 0;
    while idx < |t.mem[a].sels|
      invariant 0 <= idx <= |t.mem[a].sels|
      invariant Under(t, a) == UnderFrom(t, a, idx)
    {
      var c := t.mem[a].sels[idx].node;
      if c != NULL {
        ChildFacts(t, a, idx);
        SelfAndSubtree(t, c, NULL);
        if t.mem[c].elem.Some? { FirstThrough(t, a, idx, c); return c; }
        var s := FirstInSubtree(t, c);
        if s != NULL { FirstThrough(t, a, idx, s); return s; }
      }
      FirstThrough(t, a, idx, NULL);
      idx := idx + 1;
    }
    return NULL;
  }

  /** radnode_find_prev_from_idx */
  method FindPrevFromIdx(t: Tree, a: Ptr, from: nat) returns (r: Ptr)
    requires Shape(t) && a in t.mem && from <= |t.mem[a].sels|
    ensures Greatest(t, r, UnderBefore(t, a, from))
  {
    AllEntries(t, a);
    var idx := from;
    while idx > 0
      invariant 0 <= idx <= from
      invariant UnderBefore(t, a, from) == UnderBefore(t, a, idx)
    {
      idx := idx - 1;
      var c := t.mem[a].sels[idx].node;
      if c != NULL {
        ChildFacts(t, a, idx);
        var s := LastInSubtreeInclSelf(t, c);
        LastThrough(t, a, idx, s);
        if s != NULL { return s; }
      } else {
        LastThrough(t, a, idx, NULL);
      }
    }
    return NULL;
  }

  // -------------------------------------------------------------------- previous and next

  /** Seen from a child of `p` at entry `idx`, what precedes it is what precedes `p`, then
      `p` itself, then the entries before `idx`. */
  lemma BeforeStep(t: Tree, n: Ptr, x: seq<byte>)
    requires Shape(t) && n in t.mem && n != t.root && x in Contents(t)
    ensures t.mem[n].parent in t.mem
    ensures var p := t.mem[n].parent;
            LexLess(x, t.mem[n].key) <==>
            LexLess(x, t.mem[p].key) || x == t.mem[p].key || x in UnderBefore(t, p, t.mem[n].pidx)
  {
    ParentKey(t, n);
    var p := t.mem[n].parent;
    var pk, nk := t.mem[p].key, t.mem[n].key;
    PrefixLess(pk, nk);
    if pk < x {
      PrefixLess(pk, x);
      LexAsymmetric(pk, x);
      ThroughChild(t, p, x);
      if x[|pk|] < nk[|pk|] {
        EarlierEntry(t, p, x, nk);
      } else if nk[|pk|] < x[|pk|] {
        EarlierEntry(t, p, nk, x);
        LexAsymmetric(nk, x);
      } else {
        assert nk <= x;
        if nk < x { PrefixLess(nk, x); LexAsymmetric(nk, x); }
        else { assert nk == x; if LexLess(x, nk) { LexAsymmetric(x, nk); } }
      }
    } else if pk != x {
      ExtensionsSameSide(pk, x, nk);
    }
  }

  lemma BeforeUnion(t: Tree, n: Ptr)
    requires Shape(t) && n in t.mem && n != t.root
    ensures t.mem[n].parent in t.mem
    ensures var p := t.mem[n].parent;
            Before(t, t.mem[n].key) ==
            Before(t, t.mem[p].key) + (if t.mem[p].elem.Some? then {t.mem[p].key}
                                       else {}) + UnderBefore(t, p, t.mem[n].pidx)
  {
    ParentKey(t, n);
    OwnKey(t, t.mem[n].parent);
    forall x | x in Contents(t)
      ensures var p := t.mem[n].parent;
              LexLess(x, t.mem[n].key) <==>
              LexLess(x, t.mem[p].key) || x == t.mem[p].key || x in UnderBefore(t, p, t.mem[n].pidx)
    {
      BeforeStep(t, n, x);
    }
  }

  /** A greatest element of a later part is greatest of the union. */
  lemma SelfOrUnder(t: Tree, p: Ptr, from: int, r: Ptr)
    requires Shape(t) && p in t.mem
    requires if r == p then t.mem[p].elem.Some? && UnderBefore(t, p, from) == {}
             else r != NULL && Greatest(t, r, UnderBefore(t, p, from))
    ensures Greatest(t, r, Before(t, t.mem[p].key) + (if t.mem[p].elem.Some? then {t.mem[p].key}
                                                      else {}) + UnderBefore(t, p, from))
  {
    OwnKey(t, p);
    var pk := t.mem[p].key;
    if r != p {
      PrefixLess(pk, t.mem[r].key);
      forall x | x in Before(t, pk) ensures LexLess(x, t.mem[r].key) { LexTransitive(x, pk, t.mem[r].key); }
    }
  }

  /** radix_prev: the greatest key before the key of `n`. */
  method Prev(t: Tree, n: Ptr) returns (r: Ptr)
    requires Shape(t) && (n != NULL ==> n in t.mem)
    ensures n == NULL ==> r == NULL
    ensures n != NULL ==> Greatest(t, r, Before(t, t.mem[n].key))
  {
    if n == NULL { return NULL; }
    var cur := n;
    while t.mem[cur].parent != NULL
      invariant cur in t.mem && Before(t, t.mem[cur].key) == Before(t, t.mem[n].key)
      decreases |t.mem[cur].key|
    {
      assert NodeOk(t, cur);
      BeforeUnion(t, cur);
      ParentKey(t, cur);
      var idx := t.mem[cur].pidx;
      cur := t.mem[cur].parent;
      var s := FindPrevFromIdx(t, cur, idx);
      if s != NULL { SelfOrUnder(t, cur, idx, s); return s; }
      if t.mem[cur].elem.Some? { SelfOrUnder(t, cur, idx, cur); return cur; }
    }
    assert NodeOk(t, cur);
    return NULL;
  }

  /** Keys after `a` that are not in its subtree. */
  ghost function Beyond(t: Tree, a: Ptr): set<seq<byte>>
    requires a in t.mem
  {
    set x | x in Contents(t) && LexLess(t.mem[a].key, x) && !(t.mem[a].key <= x)
  }

  lemma BeyondStep(t: Tree, n: Ptr, x: seq<byte>)
    requires Shape(t) && n in t.mem && n != t.root && x in Contents(t)
    ensures t.mem[n].parent in t.mem
    ensures var p := t.mem[n].parent;
            x in Beyond(t, n) <==> x in Beyond(t, p) || x in UnderFrom(t, p, t.mem[n].pidx + 1)
  {
    ParentKey(t, n);
    var p := t.mem[n].parent;
    var pk, nk := t.mem[p].key, t.mem[n].key;
    PrefixLess(pk, nk);
    if pk < x {
      ThroughChild(t, p, x);
      if x[|pk|] < nk[|pk|] {
        EarlierEntry(t, p, x, nk);
        LexAsymmetric(x, nk);
      } else if nk[|pk|] < x[|pk|] {
        EarlierEntry(t, p, nk, x);
      } else {
        assert nk <= x;
      }
    } else if pk == x {
      LexAsymmetric(x, nk);
    } else {
      ExtensionsSameSide(pk, x, nk);
    }
  }

  lemma BeyondUnion(t: Tree, n: Ptr)
    requires Shape(t) && n in t.mem && n != t.root
    ensures t.mem[n].parent in t.mem
    ensures Beyond(t, n) == Beyond(t, t.mem[n].parent) + UnderFrom(t, t.mem[n].parent, t.mem[n].pidx + 1)
  {
    ParentKey(t, n);
    var p := t.mem[n].parent;
    forall x | x in Contents(t)
      ensures x in Beyond(t, n) <==> x in Beyond(t, p) || x in UnderFrom(t, p, t.mem[n].pidx + 1)
    {
      BeyondStep(t, n, x);
    }
    assert forall x :: x in Beyond(t, n) ==> x in Contents(t);
  }

  /** The subtree of `a` comes before everything beyond it. */
  lemma SubtreeBeforeBeyond(t: Tree, a: Ptr, r: Ptr, s: set<seq<byte>>)
    requires Shape(t) && a in t.mem && r != NULL && Least(t, r, s) && s <= Under(t, a)
    ensures Least(t, r, s + Beyond(t, a))
  {
    forall x | x in Beyond(t, a)
      ensures LexLeq(t.mem[r].key, x)
    {
      ExtensionsSameSide(t.mem[a].key, x, t.mem[r].key);
    }
  }

  lemma AfterIsSubtreeAndBeyond(t: Tree, a: Ptr)
    requires Shape(t) && a in t.mem
    ensures After(t, t.mem[a].key) == Under(t, a) + Beyond(t, a)
  {
    var ak := t.mem[a].key;
    forall x | x in Contents(t)
      ensures LexLess(ak, x) <==> x in Under(t, a) || x in Beyond(t, a)
    {
      if ak < x { PrefixLess(ak, x); }
      if ak == x && LexLess(ak, x) { LexAsymmetric(ak, x); }
    }
    assert forall x :: x in Under(t, a) + Beyond(t, a) ==> x in Contents(t);
  }

  /** radix_next: the least key after the key of `n`. */
  method Next(t: Tree, n: Ptr) returns (r: Ptr)
    requires Shape(t) && (n != NULL ==> n in t.mem)
    ensures n == NULL ==> r == NULL
    ensures n != NULL ==> Least(t, r, After(t, t.mem[n].key))
  {
    if n == NULL { return NULL; }
    AfterIsSubtreeAndBeyond(t, n);
    AllEntries(t, n);
    if |t.mem[n].sels| != 0 {
      var s := FirstInSubtree(t, n);
      if s != NULL { SubtreeBeforeBeyond(t, n, s, Under(t, n)); return s; }
    }
    var cur := n;
    while t.mem[cur].parent != NULL
      invariant cur in t.mem && Beyond(t, cur) == After(t, t.mem[n].key)
      decreases |t.mem[cur].key|
    {
      assert NodeOk(t, cur);
      BeyondUnion(t, cur);
      ParentKey(t, cur);
      var idx := t.mem[cur].pidx + 1;
      cur := t.mem[cur].parent;
      AllEntries(t, cur);
      while idx < |t.mem[cur].sels|
        invariant 0 <= idx <= |t.mem[cur].sels|
        invariant Beyond(t, cur) + UnderFrom(t, cur, idx) == After(t, t.mem[n].key)
      {
        var c := t.mem[cur].sels[idx].node;
        if c != NULL {
          ChildFacts(t, cur, idx);
          SelfAndSubtree(t, c, NULL);
          r := NULL;
          if t.mem[c].elem.Some? { r := c; } else { r := FirstInSubtree(t, c); }
          if r != NULL {
            FirstThrough(t, cur, idx, r);
            SubtreeBeforeBeyond(t, cur, r, UnderFrom(t, cur, idx));
            assert UnderFrom(t, cur, idx) + Beyond(t, cur) == Beyond(t, cur) + UnderFrom(t, cur, idx);
            return;
          }
        }
        FirstThrough(t, cur, idx, NULL);
        idx := idx + 1;
      }
    }
    assert NodeOk(t, cur);
    return NULL;
  }

  // -------------------------------------------------------------------- less-or-equal search

  ghost function UpTo(t: Tree, k: seq<byte>): set<seq<byte>>
  {
    set x | x in Contents(t) && LexLeq(x, k)
  }

  /** The key leaves the tree at `n`, between the array entries before `from` and those after. */
  ghost predicate LeavesAt(t: Tree, n: Ptr, k: seq<byte>, from: int)
    requires n in t.mem
  {
    && t.mem[n].key < k && 0 <= from <= |t.mem[n].sels|
    && (forall i :: 0 <= i < |t.mem[n].sels| && t.mem[n].sels[i].node != NULL ==>
          (t.mem[n].offset + i < k[|t.mem[n].key|] <==> i < from))
    && (forall i :: 0 <= i < |t.mem[n].sels| && t.mem[n].sels[i].node != NULL ==>
          t.mem[n].offset + i != k[|t.mem[n].key|])
  }

  lemma LeavesAtUpTo(t: Tree, n: Ptr, k: seq<byte>, from: int)
    requires Shape(t) && n in t.mem && LeavesAt(t, n, k, from)
    ensures UpTo(t, k) ==
            Before(t, t.mem[n].key) + (if t.mem[n].elem.Some? then {t.mem[n].key} else {}) + UnderBefore(t, n, from)
    ensures k !in Contents(t)
  {
    OwnKey(t, n);
    var nk := t.mem[n].key;
    if k in Contents(t) { ThroughChild(t, n, k); assert false; }
    forall x | x in Contents(t)
      ensures LexLess(x, k) <==> LexLess(x, nk) || x == nk || x in UnderBefore(t, n, from)
    {
      PrefixLess(nk, k);
      if nk < x {
        ThroughChild(t, n, x);
        PrefixLess(nk, x);
        LexAsymmetric(nk, x);
        if x[|nk|] < k[|nk|] { EarlierEntry(t, n, x, k); }
        else { EarlierEntry(t, n, k, x); LexAsymmetric(k, x); }
      } else if x != nk {
        ExtensionsSameSide(nk, x, k);
      }
    }
  }

  /** The key leaves the tree in the middle of the edge to `c`, before or after its subtree. */
  lemma LeavesInEdge(t: Tree, n: Ptr, i: int, k: seq<byte>)
    requires Shape(t) && n in t.mem && 0 <= i < |t.mem[n].sels| && t.mem[n].sels[i].node != NULL
    requires t.mem[n].key < k && k[|t.mem[n].key|] == t.mem[n].offset + i
    requires t.mem[n].sels[i].node in t.mem && !(t.mem[t.mem[n].sels[i].node].key <= k)
    ensures k !in Contents(t)
    ensures var c := t.mem[n].sels[i].node;
            && (LexLess(k, t.mem[c].key) ==> UpTo(t, k) == Before(t, t.mem[c].key))
            && (!LexLess(k, t.mem[c].key) ==> UpTo(t, k) == Before(t, t.mem[c].key) + AtOrUnder(t, c))
  {
    ChildFacts(t, n, i);
    var c := t.mem[n].sels[i].node;
    var nk, ck := t.mem[n].key, t.mem[c].key;
    if k in Contents(t) { ThroughChild(t, n, k); assert false; }
    LexTotal(k, ck);
    forall x | x in Contents(t)
      ensures LexLess(k, ck) ==> (LexLess(x, k) <==> LexLess(x, ck))
      ensures LexLess(ck, k) ==> (LexLess(x, k) <==> LexLess(x, ck) || ck <= x)
    {
      if ck <= x {
        ExtensionsSameSide(ck, k, x);
        if ck < x { PrefixLess(ck, x); LexAsymmetric(ck, x); }
        if ck == x && LexLess(x, ck) { LexAsymmetric(x, ck); }
        if LexLess(k, x) { LexAsymmetric(k, x); }
      } else {
        SameSideOffEdge(t, n, i, k, x);
      }
    }
    assert k != ck;
    if LexLess(k, ck) { LexAsymmetric(k, ck); }
  }

  /** A key that does not go through the edge to `c` is on the same side of `k` as of `c`. */
  lemma SameSideOffEdge(t: Tree, n: Ptr, i: int, k: seq<byte>, x: seq<byte>)
    requires Shape(t) && n in t.mem && 0 <= i < |t.mem[n].sels| && t.mem[n].sels[i].node != NULL
    requires t.mem[n].key < k && k[|t.mem[n].key|] == t.mem[n].offset + i
    requires t.mem[n].sels[i].node in t.mem && x in Contents(t) && !(t.mem[t.mem[n].sels[i].node].key <= x)
    ensures LexLess(x, k) <==> LexLess(x, t.mem[t.mem[n].sels[i].node].key)
  {
    ChildFacts(t, n, i);
    var nk, ck := t.mem[n].key, t.mem[t.mem[n].sels[i].node].key;
    PrefixLess(nk, k);
    PrefixLess(nk, ck);
    if nk < x {
      ThroughChild(t, n, x);
      if x[|nk|] < k[|nk|] {
        EarlierEntry(t, n, x, k);
        EarlierEntry(t, n, x, ck);
      } else {
        EarlierEntry(t, n, k, x);
        EarlierEntry(t, n, ck, x);
        LexAsymmetric(k, x);
        LexAsymmetric(ck, x);
      }
    } else if nk != x {
      ExtensionsSameSide(nk, x, k);
      ExtensionsSameSide(nk, x, ck);
    }
  }

  /** A greatest element at or below `c`, or before it. */
  lemma SubtreeAfterBefore(t: Tree, c: Ptr, r: Ptr)
    requires Shape(t) && c in t.mem && r != NULL && Greatest(t, r, AtOrUnder(t, c))
    ensures Greatest(t, r, Before(t, t.mem[c].key) + AtOrUnder(t, c))
  {
    var ck := t.mem[c].key;
    if ck < t.mem[r].key { PrefixLess(ck, t.mem[r].key); }
    forall x | x in Before(t, ck)
      ensures LexLeq(x, t.mem[r].key)
    {
      if ck != t.mem[r].key { LexTransitive(x, ck, t.mem[r].key); }
    }
  }

  /** ret_self_or_prev, after nothing was found in the entries before `from`. */
  method RetSelfOrPrev(t: Tree, n: Ptr, ghost k: seq<byte>, ghost from: int) returns (r: Ptr)
    requires Shape(t) && n in t.mem && LeavesAt(t, n, k, from) && UnderBefore(t, n, from) == {}
    ensures Greatest(t, r, UpTo(t, k))
  {
    LeavesAtUpTo(t, n, k, from);
    if t.mem[n].elem.Some? {
      SelfOrUnder(t, n, from, n);
      r := n;
    } else {
      r := Prev(t, n);
      assert Before(t, t.mem[n].key) + {} + {} == Before(t, t.mem[n].key);
    }
  }

  /** The key is past the edge to `c`: the last of its subtree, or what precedes it. */
  method LastOrPrev(t: Tree, c: Ptr) returns (r: Ptr)
    requires Shape(t) && c in t.mem
    ensures Greatest(t, r, Before(t, t.mem[c].key) + AtOrUnder(t, c))
  {
    r := LastInSubtreeInclSelf(t, c);
    if r != NULL {
      SubtreeAfterBefore(t, c, r);
    } else {
      r := Prev(t, c);
      assert Before(t, t.mem[c].key) + {} == Before(t, t.mem[c].key);
    }
  }

  /** The key ends up beyond array entry `i` or on an absent or empty entry of `n`. */
  method LeaveAtNode(t: Tree, n: Ptr, byt: byte, ghost k: seq<byte>) returns (r: Ptr)
    requires Shape(t) && n in t.mem && t.mem[n].key < k && byt == k[|t.mem[n].key|]
    requires var i := byt - t.mem[n].offset; 0 <= i < |t.mem[n].sels| ==> t.mem[n].sels[i].node == NULL
    ensures Greatest(t, r, UpTo(t, k)) && k !in Contents(t)
  {
    AllEntries(t, n);
    var i := byt - t.mem[n].offset;
    if i < 0 {
      LeavesAtUpTo(t, n, k, 0);
      r := RetSelfOrPrev(t, n, k, 0);
    } else if i >= |t.mem[n].sels| {
      LeavesAtUpTo(t, n, k, |t.mem[n].sels|);
      SelfAndSubtree(t, n, NULL);
      assert UpTo(t, k) == Before(t, t.mem[n].key) + AtOrUnder(t, n);
      r := LastOrPrev(t, n);
    } else {
      LeavesAtUpTo(t, n, k, i);
      r := FindPrevFromIdx(t, n, i);
      if r != NULL { SelfOrUnder(t, n, i, r); return; }
      r := RetSelfOrPrev(t, n, k, i);
    }
  }

  /** The order of `k` and the child's key, from the bytes that the code compares. */
  lemma EdgeOrder(t: Tree, n: Ptr, i: int, k: seq<byte>)
    requires Shape(t) && n in t.mem && 0 <= i < |t.mem[n].sels| && t.mem[n].sels[i].node != NULL
    requires t.mem[n].key < k && k[|t.mem[n].key|] == t.mem[n].offset + i
    ensures t.mem[n].sels[i].node in t.mem
    ensures var s := t.mem[n].sels[i];
            var ck, rest := t.mem[s.node].key, k[|t.mem[n].key| + 1..];
            && (LexLess(k, ck) <==> LexLess(rest, s.str))
            && (ck <= k <==> s.str <= rest)
            && (s.str <= rest ==> ck == k[..|ck|])
            && |ck| == |t.mem[n].key| + 1 + |s.str|
  {
    assert NodeOk(t, n) && SelOk(t, n, i);
    var s := t.mem[n].sels[i];
    var pre := t.mem[n].key + [t.mem[n].offset + i];
    var rest := k[|pre|..];
    assert k == pre + rest && t.mem[s.node].key == pre + s.str;
    CommonPrefixOrder(pre, rest, s.str);
    if s.str <= rest { assert k[..|pre| + |s.str|] == pre + rest[..|s.str|]; }
    if t.mem[s.node].key <= k { assert rest[..|s.str|] == k[..|pre| + |s.str|][|pre|..]; }
  }

  /** The sign of a memcmp of two byte ranges decides for the strings they start. */
  lemma MemcmpDecides(a: seq<byte>, b: seq<byte>, len: nat)
    requires len <= |a| && len <= |b|
    ensures Compare(a[..len], b[..len]) < 0 ==> LexLess(a, b)
    ensures Compare(a[..len], b[..len]) > 0 ==> LexLess(b, a)
    ensures Compare(a[..len], b[..len]) == 0 ==> a[..len] == b[..len]
    ensures Compare(a[..len], b[..len]) != 0 ==> !(a <= b) && !(b <= a)
  {
    var x, y := a[..len], b[..len];
    CompareIsLex(x, y);
    if x != y {
      assert !(x <= y) && !(y <= x);
      ExtensionsSameSide(x, y, a);
      ExtensionsSameSide(y, x, b);
      assert !(x <= b) && !(y <= a);
      ExtensionsSameSide(x, b, a);
      ExtensionsSameSide(y, a, b);
    }
  }

  /** radix_find_less_equal: the greatest key not after `k`; the flag tells an exact match. */
  method FindLessEqual(t: Tree, k: seq<byte>) returns (exact: bool, r: Ptr)
    requires Shape(t)
    ensures Greatest(t, r, UpTo(t, k))
    ensures exact <==> k in Contents(t)
    ensures exact ==> r in t.mem && t.mem[r].key == k
  {
    if t.root == NULL {
      EmptyTree(t);
      return false, NULL;
    }
    var n, pos := t.root, 0;
    while pos < |k|
      invariant 0 <= pos <= |k| && n in t.mem && t.mem[n].key == k[..pos]
      decreases |k| - pos
    {
      assert NodeOk(t, n);
      var i := k[pos] - t.mem[n].offset;
      if i < 0 || i >= |t.mem[n].sels| || t.mem[n].sels[i].node == NULL {
        r := LeaveAtNode(t, n, k[pos], k);
        return false, r;
      }
      EdgeOrder(t, n, i, k);
      pos := pos + 1;
      var sel := t.mem[n].sels[i];
      if |sel.str| != 0 {
        var len := if pos + |sel.str| > |k| then |k| - pos else |sel.str|;
        var cmp := Compare(k[pos..][..len], sel.str[..len]);
        MemcmpDecides(k[pos..], sel.str, len);
        if cmp < 0 || (cmp == 0 && pos + |sel.str| > |k|) {
          if cmp == 0 { assert k[pos..] < sel.str; PrefixLess(k[pos..], sel.str); }
          LeavesInEdge(t, n, i, k);
          r := Prev(t, sel.node);
          return false, r;
        } else if cmp > 0 {
          LexAsymmetric(sel.str, k[pos..]);
          LeavesInEdge(t, n, i, k);
          r := LastOrPrev(t, sel.node);
          return false, r;
        }
        pos := pos + |sel.str|;
      }
      n := sel.node;
    }
    OwnKey(t, n);
    assert t.mem[n].key == k;
    if t.mem[n].elem.Some? { return true, n; }
    r := Prev(t, n);
    assert UpTo(t, k) == Before(t, k);
    return false, r;
  }

  /** radix_first */
  method First(t: Tree) returns (r: Ptr)
    requires Shape(t)
    ensures Least(t, r, Contents(t).Keys)
  {
    if t.root == NULL {
      EmptyTree(t);
      return NULL;
    }
    SelfAndSubtree(t, t.root, NULL);
    AfterIsSubtreeAndBeyond(t, t.root);
    assert AtOrUnder(t, t.root) == Contents(t).Keys;
    if t.mem[t.root].elem.Some? { return t.root; }
    r := Next(t, t.root);
    assert Beyond(t, t.root) == {};
  }

  /** radix_last */
  method Last(t: Tree) returns (r: Ptr)
    requires Shape(t)
    ensures Greatest(t, r, Contents(t).Keys)
  {
    if t.root == NULL {
      EmptyTree(t);
      return NULL;
    }
    assert AtOrUnder(t, t.root) == Contents(t).Keys;
    r := LastInSubtreeInclSelf(t, t.root);
  }
}
