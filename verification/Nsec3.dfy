/** The NSEC3 cover cache of nsec3.c and the triggers of difffile.c.

    A zone keeps its chain of NSEC3 owners and, for every hashed name, a pointer to the NSEC3
    that covers its hash (section 1.3 of RFC 5155).  While an incremental transfer changes
    the chain, these pointers are left stale; the NSEC3 domains whose range changed go onto
    the prehash list, and prehash_zone repairs the pointers from that list.

    Hashes are integers: totally ordered, and free of collisions within a tree.  A tree is
    the increasing sequence of its domains; a tree node is a position in it. */
module Nsec3 {
  import opened Bytes

  type Hash = int

  /** A domain name with the hashes derived from it under the parameters of the zone:
      of the name, of its wildcard child, of the name on the parent side of a zone cut,
      and the hash that its first label spells if it is the owner of an NSEC3. */
  datatype Domain = Domain(id: nat, hash: Hash, wcHash: Hash, dsHash: Hash, owner: Hash)

  /** By which hash a tree is sorted. */
  datatype Order = ByOwner | ByHash | ByWcHash | ByDsHash

  function Key(o: Order, d: Domain): Hash
  {
    match o
    case ByOwner => d.owner
    case ByHash => d.hash
    case ByWcHash => d.wcHash
    case ByDsHash => d.dsHash
  }

  predicate Sorted(o: Order, s: seq<Domain>)
  {
    forall i, j {:trigger Key(o, s[i]), Key(o, s[j])} :: 0 <= i < j < |s| ==> Key(o, s[i]) < Key(o, s[j])
  }

  predicate NewKey(o: Order, s: seq<Domain>, h: Hash)
  {
    forall i {:trigger Key(o, s[i])} :: 0 <= i < |s| ==> Key(o, s[i]) != h
  }

  /** Positions in a tree are ordered as their keys are. */
  lemma KeyOrder(o: Order, s: seq<Domain>, i: nat, j: nat)
    requires Sorted(o, s) && i < |s| && j < |s|
    ensures i < j <==> Key(o, s[i]) < Key(o, s[j])
    ensures i == j <==> Key(o, s[i]) == Key(o, s[j])
  {
  }

  // -------------------------------------------------------------------- trees

  /** The position of the first domain with key at least `h`. */
  function Position(o: Order, s: seq<Domain>, h: Hash): (p: nat)
    ensures p <= |s|
    ensures Sorted(o, s) ==> forall i :: 0 <= i < |s| ==> (i < p <==> Key(o, s[i]) < h)
  {
    if s == [] || h <= Key(o, s[0]) then 0 else 1 + Position(o, s[1..], h)
  }

  /** rbtree_insert of a domain with a new key */
  function Inserted(o: Order, s: seq<Domain>, d: Domain): (t: seq<Domain>)
    requires Sorted(o, s) && NewKey(o, s, Key(o, d))
    ensures Sorted(o, t)
    ensures forall x :: x in t <==> x in s || x == d
  {
    var p := Position(o, s, Key(o, d));
    s[..p] + [d] + s[p..]
  }

  /** rbtree_delete */
  function Deleted(o: Order, s: seq<Domain>, d: Domain): (t: seq<Domain>)
    requires Sorted(o, s) && d in s
    ensures Sorted(o, t)
    ensures forall x :: x in t <==> x in s && x != d
  {
    var p := Position(o, s, Key(o, d));
    assert s[p] == d by { var i :| 0 <= i < |s| && s[i] == d; }
    s[..p] + s[p + 1..]
  }

  /** rbtree_find_less_equal: the position of the greatest key not above `h`, if any. */
  function FindLessEqual(o: Order, s: seq<Domain>, h: Hash): (r: (bool, Option<nat>))
    requires Sorted(o, s)
    ensures r.1.Some? ==> r.1.value < |s| && Key(o, s[r.1.value]) <= h
    ensures r.1.Some? ==> forall i :: r.1.value < i < |s| ==> Key(o, s[i]) > h
    ensures r.1.None? ==> forall i :: 0 <= i < |s| ==> Key(o, s[i]) > h
    ensures r.0 <==> r.1.Some? && Key(o, s[r.1.value]) == h
    ensures r.0 <==> exists i :: 0 <= i < |s| && Key(o, s[i]) == h
  {
    var p := Position(o, s, h);
    if p < |s| && Key(o, s[p]) == h then (true, Some(p))
    else (false, if p == 0 then None else Some(p - 1))
  }

  // -------------------------------------------------------------------- covers

  /** The NSEC3 that matches or covers a hash: the last one not after it, or by wrap-around
      the last of the chain. */
  ghost predicate Covers(chain: seq<Domain>, h: Hash, c: Domain)
  {
    && c in chain
    && (if forall x :: x in chain ==> x.owner > h
        then forall x :: x in chain ==> x.owner <= c.owner
        else c.owner <= h && forall x :: x in chain && x.owner <= h ==> x.owner <= c.owner)
  }

  /** nsec3_find_cover, where `last` is the end of the chain */
  function FindCover(chain: seq<Domain>, last: Domain, h: Hash): (r: (bool, Domain))
    requires Sorted(ByOwner, chain) && chain != [] && last == chain[|chain| - 1]
    ensures Covers(chain, h, r.1)
    ensures r.0 <==> r.1.owner == h
  {
    var (exact, p) := FindLessEqual(ByOwner, chain, h);
    match p
    case Some(i) =>
      assert chain[i] in chain;
      (exact, chain[i])
    case None =>
      (exact, last)
  }

  /** The cover of a hash is unique: chain owners differ. */
  lemma CoverUnique(chain: seq<Domain>, h: Hash, c: Domain, d: Domain)
    requires Sorted(ByOwner, chain) && Covers(chain, h, c) && Covers(chain, h, d)
    ensures c == d
  {
    var i :| 0 <= i < |chain| && chain[i] == c;
    var j :| 0 <= j < |chain| && chain[j] == d;
    assert c.owner == d.owner;
    KeyOrder(ByOwner, chain, i, j);
  }

  ghost function TrueCover(chain: seq<Domain>, h: Hash): (c: Domain)
    requires Sorted(ByOwner, chain) && chain != []
    ensures Covers(chain, h, c)
    ensures forall d :: Covers(chain, h, d) ==> d == c
  {
    var c := FindCover(chain, chain[|chain| - 1], h).1;
    assert forall d :: Covers(chain, h, d) ==> d == c by {
      forall d | Covers(chain, h, d) ensures d == c { CoverUnique(chain, h, c, d); }
    }
    c
  }

  // -------------------------------------------------------------------- how a cover changes with the chain

  /** Only hashes that the new NSEC3 covers change their cover. */
  lemma CoverAfterInsert(chain: seq<Domain>, n: Domain, h: Hash)
    requires Sorted(ByOwner, chain) && chain != [] && NewKey(ByOwner, chain, n.owner)
    ensures var chain' := Inserted(ByOwner, chain, n);
            chain' != [] && (TrueCover(chain', h) == n || TrueCover(chain', h) == TrueCover(chain, h))
  {
    var chain' := Inserted(ByOwner, chain, n);
    assert n in chain';
    var c := TrueCover(chain', h);
    if c != n {
      assert chain[0] in chain';
      assert Covers(chain, h, c);
    }
  }

  /** nsec3_chain_find_prev: the chain element before `n`, or the last one. */
  function ChainPrev(chain: seq<Domain>, n: Domain): (p: Domain)
    requires Sorted(ByOwner, chain) && n in chain
    ensures p in chain && (|chain| > 1 ==> p != n) && (|chain| == 1 ==> p == n)
  {
    var i := Position(ByOwner, chain, n.owner);
    assert chain[i] == n by { var j :| 0 <= j < |chain| && chain[j] == n; }
    if i > 0 then chain[i - 1] else chain[|chain| - 1]
  }

  /** The hashes from chain element `i` up to the next one; for the last element also those before
      the first. */
  predicate InSpan(chain: seq<Domain>, i: nat, h: Hash)
    requires i < |chain|
  {
    if i + 1 < |chain| then Key(ByOwner, chain[i]) <= h < Key(ByOwner, chain[i + 1])
    else Key(ByOwner, chain[i]) <= h || h < Key(ByOwner, chain[0])
  }

  lemma SpanCovers(chain: seq<Domain>, i: nat, h: Hash)
    requires Sorted(ByOwner, chain) && i < |chain| && InSpan(chain, i, h)
    ensures Covers(chain, h, chain[i])
  {
    assert chain[i] in chain;
    forall x | x in chain
      ensures x.owner <= h ==> x.owner <= chain[i].owner
      ensures h < chain[0].owner ==> x.owner > h && x.owner <= chain[i].owner
    {
      var k :| 0 <= k < |chain| && chain[k] == x;
      KeyOrder(ByOwner, chain, i, k);
      KeyOrder(ByOwner, chain, 0, k);
      if i + 1 < |chain| {
        KeyOrder(ByOwner, chain, i + 1, k);
        KeyOrder(ByOwner, chain, 0, i);
      }
    }
  }

  lemma CoversSpan(chain: seq<Domain>, i: nat, h: Hash)
    requires Sorted(ByOwner, chain) && i < |chain| && Covers(chain, h, chain[i])
    ensures InSpan(chain, i, h)
  {
    assert chain[0] in chain;
    if i + 1 < |chain| {
      assert chain[i + 1] in chain;
      KeyOrder(ByOwner, chain, i, i + 1);
    } else if chain[i].owner > h {
      KeyOrder(ByOwner, chain, 0, i);
    }
  }

  /** The hashes that chain element `i` covers are its span. */
  lemma CoverRange(chain: seq<Domain>, i: nat, h: Hash)
    requires Sorted(ByOwner, chain) && i < |chain|
    ensures TrueCover(chain, h) == chain[i] <==> InSpan(chain, i, h)
  {
    if InSpan(chain, i, h) {
      SpanCovers(chain, i, h);
    }
    if TrueCover(chain, h) == chain[i] {
      CoversSpan(chain, i, h);
    }
  }

  lemma SpanTakenOver(chain: seq<Domain>, i: nat, h: Hash)
    requires i < |chain| && |chain| > 1 && InSpan(chain, i, h)
    requires i > 0 ==> Key(ByOwner, chain[i - 1]) < Key(ByOwner, chain[i])
    ensures var chain' := chain[..i] + chain[i + 1..];
            InSpan(chain', if i > 0 then i - 1 else |chain'| - 1, h)
  {
    var chain' := chain[..i] + chain[i + 1..];
    assert i > 0 ==> chain'[0] == chain[0] && chain'[i - 1] == chain[i - 1];
    assert i + 1 < |chain| ==> chain'[i] == chain[i + 1];
  }

  /** What the deletion of element `i` leaves, and where its predecessor is then. */
  lemma PrevAt(chain: seq<Domain>, i: nat)
    requires Sorted(ByOwner, chain) && i < |chain| && |chain| > 1
    ensures var chain' := Deleted(ByOwner, chain, chain[i]);
            && chain' == chain[..i] + chain[i + 1..]
            && ChainPrev(chain, chain[i]) == chain'[if i > 0 then i - 1 else |chain| - 2]
  {
    var p := Position(ByOwner, chain, Key(ByOwner, chain[i]));
    assert i < p <==> Key(ByOwner, chain[i]) < Key(ByOwner, chain[i]);
    KeyOrder(ByOwner, chain, p, i);
  }

  /** The predecessor of a removed element takes over its span. */
  lemma PrevCovers(chain: seq<Domain>, n: Domain, i: nat, h: Hash)
    requires Sorted(ByOwner, chain) && i < |chain| && chain[i] == n && |chain| > 1 && Covers(chain, h, n)
    ensures Covers(Deleted(ByOwner, chain, n), h, ChainPrev(chain, n))
  {
    PrevAt(chain, i);
    CoversSpan(chain, i, h);
    KeyOrder(ByOwner, chain, if i > 0 then i - 1 else 0, i);
    SpanTakenOver(chain, i, h);
    SpanCovers(Deleted(ByOwner, chain, n), if i > 0 then i - 1 else |chain| - 2, h);
  }

  /** Hashes that the removed NSEC3 covered fall to its predecessor, the others keep their cover. */
  lemma CoverAfterDelete(chain: seq<Domain>, n: Domain, h: Hash)
    requires Sorted(ByOwner, chain) && n in chain && |chain| > 1
    ensures var chain' := Deleted(ByOwner, chain, n);
            && chain' != []
            && TrueCover(chain', h) == if TrueCover(chain, h) == n then ChainPrev(chain, n) else TrueCover(chain, h)
  {
    var chain' := Deleted(ByOwner, chain, n);
    var i := Position(ByOwner, chain, n.owner);
    assert chain[i] == n by { var j :| 0 <= j < |chain| && chain[j] == n; }
    var p := ChainPrev(chain, n);
    assert p in chain';
    var c := TrueCover(chain, h);
    if c != n {
      assert c in chain';
      assert Covers(chain', h, c);
    } else {
      PrevCovers(chain, n, i, h);
    }
  }

  // -------------------------------------------------------------------- an index of hashed names

  /** One of the trees of hashed names with the cover pointer and the exact flag of each of its
      domains.  The wildcard tree has no exact flags. */
  datatype Index = Index(order: Order, tree: seq<Domain>, cover: map<Domain, Domain>, exact: set<Domain>)

  ghost predicate IndexOk(ix: Index)
  {
    && Sorted(ix.order, ix.tree)
    && (forall d :: d in ix.cover <==> d in ix.tree)
    && (forall d :: d in ix.exact ==> d in ix.tree && ix.order != ByWcHash)
  }

  /** Cover pointer and exact flag of `d` are what a lookup in the chain would find. */
  ghost predicate Correct(ix: Index, chain: seq<Domain>, d: Domain)
    requires IndexOk(ix) && d in ix.tree && Sorted(ByOwner, chain) && chain != []
  {
    var c := TrueCover(chain, Key(ix.order, d));
    && ix.cover[d] == c
    && (ix.order != ByWcHash ==> (d in ix.exact <==> c.owner == Key(ix.order, d)))
  }

  /** Every hashed name is correct, or the NSEC3 that really covers it waits to be processed. */
  ghost predicate Repairable(ix: Index, chain: seq<Domain>, todo: set<Domain>)
  {
    && IndexOk(ix) && Sorted(ByOwner, chain) && chain != []
    && forall d {:trigger Correct(ix, chain, d)} :: d in ix.tree ==>
         TrueCover(chain, Key(ix.order, d)) in todo || Correct(ix, chain, d)
  }

  /** What recomputing everything from scratch gives. */
  ghost function Recomputed(ix: Index, chain: seq<Domain>): Index
    requires Sorted(ByOwner, chain) && chain != []
  {
    Index(ix.order, ix.tree,
          map d | d in ix.tree :: TrueCover(chain, Key(ix.order, d)),
          set d | d in ix.tree && ix.order != ByWcHash && TrueCover(chain, Key(ix.order, d)).owner == Key(ix.order, d))
  }

  lemma RepairedIsRecomputed(ix: Index, chain: seq<Domain>)
    requires Repairable(ix, chain, {})
    ensures ix == Recomputed(ix, chain)
  {
    forall d | d in ix.tree ensures Correct(ix, chain, d) { }
    assert ix.cover == Recomputed(ix, chain).cover;
    assert ix.exact == Recomputed(ix, chain).exact;
  }

  /** nsec3_precompile_domain / nsec3_precompile_domain_ds for one tree: insert and look up. */
  method AddName(ix: Index, d: Domain, chain: seq<Domain>, last: Domain, ghost todo: set<Domain>) returns (ix': Index)
    requires Repairable(ix, chain, todo) && last == chain[|chain| - 1] && NewKey(ix.order, ix.tree, Key(ix.order, d))
    ensures Repairable(ix', chain, todo)
    ensures ix'.order == ix.order && forall x :: x in ix'.tree <==> x in ix.tree || x == d
  {
    var (exact, c) := FindCover(chain, last, Key(ix.order, d));
    assert d !in ix.tree;
    ix' := ix.(tree := Inserted(ix.order, ix.tree, d), cover := ix.cover[d := c],
               exact := if exact && ix.order != ByWcHash then ix.exact + {d} else ix.exact);
    forall x | x in ix'.tree
      ensures TrueCover(chain, Key(ix.order, x)) in todo || Correct(ix', chain, x)
    {
      assert x != d ==> TrueCover(chain, Key(ix.order, x)) in todo || Correct(ix, chain, x);
    }
  }

  /** The removal part of nsec3_rrsets_changed_remove_prehash for one tree. */
  method RemoveName(ix: Index, d: Domain, ghost chain: seq<Domain>, ghost todo: set<Domain>) returns (ix': Index)
    requires Repairable(ix, chain, todo) && d in ix.tree
    ensures Repairable(ix', chain, todo)
    ensures ix'.order == ix.order && forall x :: x in ix'.tree <==> x in ix.tree && x != d
  {
    ix' := ix.(tree := Deleted(ix.order, ix.tree, d), cover := ix.cover - {d}, exact := ix.exact - {d});
    forall x | x in ix'.tree
      ensures TrueCover(chain, Key(ix.order, x)) in todo || Correct(ix', chain, x)
    {
      assert TrueCover(chain, Key(ix.order, x)) in todo || Correct(ix, chain, x);
    }
  }

  // -------------------------------------------------------------------- repair

  /** process_first: the first position to process, and whether it is an exact match. */
  function ProcessFirst(o: Order, tree: seq<Domain>, h: Hash): (r: (bool, nat))
    requires Sorted(o, tree)
    ensures r.1 == Position(o, tree, h)
    ensures r.0 <==> r.1 < |tree| && Key(o, tree[r.1]) == h
  {
    var (exact, p) := FindLessEqual(o, tree, h);
    if exact then (true, p.value)
    else if p.None? then (false, 0)
    else (false, p.value + 1)
  }

  /** process_end: the first position not to process. */
  function ProcessEnd(o: Order, tree: seq<Domain>, h: Hash): (r: nat)
    requires Sorted(o, tree)
    ensures r == Position(o, tree, h)
  {
    var (exact, p) := FindLessEqual(o, tree, h);
    if exact then p.value
    else if p.None? then 0
    else p.value + 1
  }

  predicate InRange(h: Hash, start: Option<Hash>, end: Option<Hash>)
  {
    (start.Some? ==> start.value <= h) && (end.Some? ==> h < end.value)
  }

  /** Domain `d` after a range with cover `n` was processed. */
  ghost predicate Ranged(ix: Index, ix': Index, start: Option<Hash>, end: Option<Hash>, n: Domain, d: Domain)
    requires d in ix.cover && d in ix'.cover
  {
    if InRange(Key(ix.order, d), start, end)
    then ix'.cover[d] == n && (ix.order != ByWcHash ==> (d in ix'.exact <==> start == Some(Key(ix.order, d))))
    else ix'.cover[d] == ix.cover[d] && (d in ix'.exact <==> d in ix.exact)
  }

  /** Position `i` after the loop of process_range has passed over `from..to`. */
  ghost predicate Filled(ix: Index, ix': Index, from: nat, to: nat, n: Domain, i: nat)
    requires i < |ix.tree| && ix.tree[i] in ix.cover && ix.tree[i] in ix'.cover
  {
    var d := ix.tree[i];
    if from <= i < to then ix'.cover[d] == n && d !in ix'.exact
    else ix'.cover[d] == ix.cover[d] && (d in ix'.exact <==> d in ix.exact)
  }

  /** The loop of process_range. */
  method FillRange(ix: Index, from: nat, pEnd: nat, n: Domain) returns (ix': Index)
    requires IndexOk(ix) && from <= pEnd <= |ix.tree|
    ensures IndexOk(ix') && ix'.order == ix.order && ix'.tree == ix.tree
    ensures forall i {:trigger Filled(ix, ix', from, pEnd, n, i)} :: 0 <= i < |ix.tree| ==>
              Filled(ix, ix', from, pEnd, n, i)
  {
    ix' := ix;
    var p := from;
    while p < |ix.tree| && p != pEnd
      invariant from <= p <= pEnd
      invariant IndexOk(ix') && ix'.order == ix.order && ix'.tree == ix.tree
      invariant forall i {:trigger Filled(ix, ix', from, p, n, i)} :: 0 <= i < |ix.tree| ==>
                  Filled(ix, ix', from, p, n, i)
    {
      ghost var was := ix';
      ix' := ix'.(cover := ix'.cover[ix.tree[p] := n], exact := ix'.exact - {ix.tree[p]});
      p := p + 1;
      forall i | 0 <= i < |ix.tree|
        ensures Filled(ix, ix', from, p, n, i)
      {
        assert Filled(ix, was, from, p - 1, n, i);
        KeyOrder(ix.order, ix.tree, i, p - 1);
      }
    }
  }

  /** A first position whose hash is the start of the range is an exact match. */
  ghost predicate Started(ix: Index, mid: Index, start: Hash, n: Domain, from: nat)
    requires IndexOk(ix)
  {
    var lo := Position(ix.order, ix.tree, start);
    if lo < |ix.tree| && Key(ix.order, ix.tree[lo]) == start && ix.order != ByWcHash
    then from == lo + 1
         && mid == ix.(cover := ix.cover[ix.tree[lo] := n], exact := ix.exact + {ix.tree[lo]})
    else from == lo && mid == ix
  }

  lemma StartedAt(ix: Index, mid: Index, start: Hash, n: Domain, from: nat, i: nat)
    requires IndexOk(ix) && IndexOk(mid) && mid.tree == ix.tree && i < |ix.tree| && Started(ix, mid, start, n, from)
    ensures var d := ix.tree[i];
            var h := Key(ix.order, d);
            if h == start && ix.order != ByWcHash then i < from && mid.cover[d] == n && d in mid.exact
            else && (from <= i <==> start <= h)
                 && mid.cover[d] == ix.cover[d] && (d in mid.exact <==> d in ix.exact)
  {
    var lo := Position(ix.order, ix.tree, start);
    assert i < lo <==> Key(ix.order, ix.tree[i]) < start;
    if lo < |ix.tree| {
      KeyOrder(ix.order, ix.tree, lo, i);
    }
  }

  lemma RangedAt(ix: Index, mid: Index, ix': Index, start: Option<Hash>, end: Option<Hash>, n: Domain,
                 from: nat, pEnd: nat, i: nat)
    requires IndexOk(ix) && IndexOk(mid) && IndexOk(ix') && mid.tree == ix'.tree == ix.tree
    requires start.Some? && end.Some? ==> start.value < end.value
    requires if start.Some? then Started(ix, mid, start.value, n, from) else from == 0 && mid == ix
    requires pEnd == if end.Some? then Position(ix.order, ix.tree, end.value) else |ix.tree|
    requires i < |ix.tree| && Filled(mid, ix', from, pEnd, n, i)
    ensures Ranged(ix, ix', start, end, n, ix.tree[i])
  {
    if start.Some? {
      StartedAt(ix, mid, start.value, n, from, i);
    }
    assert end.Some? ==> (i < pEnd <==> Key(ix.order, ix.tree[i]) < end.value);
  }

  /** process_range for one tree: names with a hash in the range get the cover `n`. */
  method ProcessRange(ix: Index, start: Option<Hash>, end: Option<Hash>, n: Domain) returns (ix': Index)
    requires IndexOk(ix) && (start.Some? && end.Some? ==> start.value < end.value)
    ensures IndexOk(ix') && ix'.order == ix.order && ix'.tree == ix.tree
    ensures forall d :: d in ix.tree ==> Ranged(ix, ix', start, end, n, d)
  {
    var mid, p := ix, 0;
    if start.Some? {
      var (exact, first) := ProcessFirst(ix.order, ix.tree, start.value);
      p := first;
      if exact && ix.order != ByWcHash {
        mid := ix.(cover := ix.cover[ix.tree[p] := n], exact := ix.exact + {ix.tree[p]});
        p := p + 1;
      }
      assert Started(ix, mid, start.value, n, p);
    }
    var pEnd := if end.Some? then ProcessEnd(ix.order, ix.tree, end.value) else |ix.tree|;
    assert p <= pEnd by {
      RangeOrder(ix.order, ix.tree, start, end, p);
    }
    ix' := FillRange(mid, p, pEnd, n);
    forall d | d in ix.tree
      ensures Ranged(ix, ix', start, end, n, d)
    {
      var i :| 0 <= i < |ix.tree| && ix.tree[i] == d;
      RangedAt(ix, mid, ix', start, end, n, p, pEnd, i);
    }
  }

  /** The first position to process is not beyond the end. */
  lemma RangeOrder(o: Order, tree: seq<Domain>, start: Option<Hash>, end: Option<Hash>, p: nat)
    requires Sorted(o, tree) && (start.Some? && end.Some? ==> start.value < end.value)
    requires start.None? ==> p == 0
    requires start.Some? ==>
               var lo := Position(o, tree, start.value);
               p == lo || (p == lo + 1 && lo < |tree| && Key(o, tree[lo]) == start.value)
    ensures p <= if end.Some? then Position(o, tree, end.value) else |tree|
  {
    if p > 0 {
      assert Key(o, tree[p - 1]) <= start.value;
    }
  }

  /** process_prehash_domain for one tree: chain element `i` becomes the cover of its range. */
  method ProcessPrehash(ix: Index, chain: seq<Domain>, i: nat, ghost todo: set<Domain>) returns (ix': Index)
    requires Repairable(ix, chain, todo) && i < |chain|
    ensures Repairable(ix', chain, todo - {chain[i]})
    ensures ix'.order == ix.order && ix'.tree == ix.tree
  {
    var n := chain[i];
    if i + 1 < |chain| {
      KeyOrder(ByOwner, chain, i, i + 1);
      ix' := ProcessRange(ix, Some(n.owner), Some(chain[i + 1].owner), n);
    } else {
      ix' := ProcessRange(ix, Some(n.owner), None, n);
      ghost var mid := ix';
      ix' := ProcessRange(ix', None, Some(chain[0].owner), n);
      forall d | d in ix.tree
        ensures Ranged(ix, mid, Some(n.owner), None, n, d) && Ranged(mid, ix', None, Some(chain[0].owner), n, d)
      {
      }
    }
    forall d | d in ix'.tree
      ensures TrueCover(chain, Key(ix.order, d)) in todo - {n} || Correct(ix', chain, d)
    {
      CoverRange(chain, i, Key(ix.order, d));
      assert TrueCover(chain, Key(ix.order, d)) in todo || Correct(ix, chain, d);
    }
  }

  // -------------------------------------------------------------------- what a change of the chain leaves to do

  ghost function Elements(s: seq<Domain>): set<Domain>
  {
    set d | d in s
  }

  /** Where the end of the chain is after a removal. */
  lemma LastAfterDelete(chain: seq<Domain>, n: Domain)
    requires Sorted(ByOwner, chain) && n in chain && |chain| > 1
    ensures var chain' := Deleted(ByOwner, chain, n);
            && |chain'| == |chain| - 1
            && chain'[|chain'| - 1] == if chain[|chain| - 1] == n then ChainPrev(chain, n) else chain[|chain| - 1]
  {
    var i := Position(ByOwner, chain, n.owner);
    assert chain[i] == n by { var j :| 0 <= j < |chain| && chain[j] == n; }
  }

  lemma RepairableAfterInsert(ix: Index, chain: seq<Domain>, n: Domain, todo: set<Domain>)
    requires Repairable(ix, chain, todo) && NewKey(ByOwner, chain, n.owner)
    ensures Repairable(ix, Inserted(ByOwner, chain, n), todo + {n})
  {
    var chain' := Inserted(ByOwner, chain, n);
    assert n in chain';
    forall d | d in ix.tree
      ensures TrueCover(chain', Key(ix.order, d)) in todo + {n} || Correct(ix, chain', d)
    {
      CoverAfterInsert(chain, n, Key(ix.order, d));
      assert TrueCover(chain, Key(ix.order, d)) in todo || Correct(ix, chain, d);
    }
  }

  lemma RepairableAfterDelete(ix: Index, chain: seq<Domain>, n: Domain, todo: set<Domain>)
    requires Repairable(ix, chain, todo) && n in chain && |chain| > 1
    ensures Repairable(ix, Deleted(ByOwner, chain, n), todo - {n} + {ChainPrev(chain, n)})
  {
    var chain' := Deleted(ByOwner, chain, n);
    CoverAfterDelete(chain, n, 0);
    forall d | d in ix.tree
      ensures TrueCover(chain', Key(ix.order, d)) in todo - {n} + {ChainPrev(chain, n)} || Correct(ix, chain', d)
    {
      CoverAfterDelete(chain, n, Key(ix.order, d));
      assert TrueCover(chain, Key(ix.order, d)) in todo || Correct(ix, chain, d);
    }
  }

  lemma MoreToDo(ix: Index, chain: seq<Domain>, todo: set<Domain>, more: set<Domain>)
    requires Repairable(ix, chain, todo) && todo <= more
    ensures Repairable(ix, chain, more)
  {
    forall d | d in ix.tree
      ensures TrueCover(chain, Key(ix.order, d)) in more || Correct(ix, chain, d)
    {
      assert TrueCover(chain, Key(ix.order, d)) in todo || Correct(ix, chain, d);
    }
  }

  /** No two names of a zone share a hash. */
  predicate NoCollisions(walk: seq<Domain>)
  {
    forall i, j :: 0 <= i < j < |walk| ==>
      && walk[i].owner != walk[j].owner && walk[i].hash != walk[j].hash
      && walk[i].wcHash != walk[j].wcHash && walk[i].dsHash != walk[j].dsHash
  }

  lemma FreshKey(o: Order, tree: seq<Domain>, walk: seq<Domain>, k: nat)
    requires NoCollisions(walk) && k < |walk| && forall d :: d in tree ==> d in walk[..k]
    ensures NewKey(o, tree, Key(o, walk[k]))
  {
    forall i | 0 <= i < |tree|
      ensures Key(o, tree[i]) != Key(o, walk[k])
    {
      assert tree[i] in tree;
      var j :| 0 <= j < k && walk[..k][j] == tree[i];
    }
  }

  /** The three trees of a zone, each repairable. */
  ghost predicate AllRepairable(h: Index, w: Index, s: Index, chain: seq<Domain>, todo: set<Domain>)
  {
    Repairable(h, chain, todo) && Repairable(w, chain, todo) && Repairable(s, chain, todo)
  }

  lemma AllAfterInsert(h: Index, w: Index, s: Index, chain: seq<Domain>, n: Domain, todo: set<Domain>,
                       chain': seq<Domain>)
    requires AllRepairable(h, w, s, chain, todo) && NewKey(ByOwner, chain, n.owner)
             && chain' == Inserted(ByOwner, chain, n)
    ensures AllRepairable(h, w, s, chain', todo + {n})
    ensures chain'[|chain'| - 1] == n || chain'[|chain'| - 1] == chain[|chain| - 1]
  {
    RepairableAfterInsert(h, chain, n, todo);
    RepairableAfterInsert(w, chain, n, todo);
    RepairableAfterInsert(s, chain, n, todo);
  }

  lemma AllAfterDelete(h: Index, w: Index, s: Index, chain: seq<Domain>, n: Domain, todo: set<Domain>, prev: Domain,
                       chain': seq<Domain>)
    requires AllRepairable(h, w, s, chain, todo) && n in chain && |chain| > 1
    requires prev == ChainPrev(chain, n) && chain' == Deleted(ByOwner, chain, n)
    ensures AllRepairable(h, w, s, chain', todo - {n} + {prev})
    ensures chain'[|chain'| - 1] == if chain[|chain| - 1] == n then prev else chain[|chain| - 1]
    ensures prev in chain'
  {
    RepairableAfterDelete(h, chain, n, todo);
    RepairableAfterDelete(w, chain, n, todo);
    RepairableAfterDelete(s, chain, n, todo);
    LastAfterDelete(chain, n);
  }

  lemma AllMoreToDo(h: Index, w: Index, s: Index, chain: seq<Domain>, todo: set<Domain>, more: set<Domain>)
    requires AllRepairable(h, w, s, chain, todo) && todo <= more
    ensures AllRepairable(h, w, s, chain, more)
  {
    MoreToDo(h, chain, todo, more);
    MoreToDo(w, chain, todo, more);
    MoreToDo(s, chain, todo, more);
  }

  // -------------------------------------------------------------------- the zone

  /** What an incremental transfer does to the hash trees: an NSEC3 joins or leaves the chain,
      or the data of a name changes so that it becomes hashed, or is hashed no more, for itself or
      for DS if the conditions say so. */
  datatype Event =
    | AddNsec3(n: Domain)
    | DelNsec3(n: Domain)
    | RrsetsAdded(d: Domain, condHash: bool, condDs: bool)
    | RrsetsRemoved(d: Domain, condHash: bool, condDs: bool)

  class Zone {
    var chain: seq<Domain>
    var last: Option<Domain>
    var hashed: Index
    var wildcard: Index
    var ds: Index
    var prehash: seq<Domain>

    ghost predicate Valid()
      reads this
    {
      && Sorted(ByOwner, chain) && chain != [] && last == Some(chain[|chain| - 1])
      && (forall d :: d in prehash ==> d in chain)
      && (forall i, j :: 0 <= i < j < |prehash| ==> prehash[i] != prehash[j])
      && hashed.order == ByHash && wildcard.order == ByWcHash && ds.order == ByDsHash
      && (forall d :: d in hashed.tree <==> d in wildcard.tree)
      && AllRepairable(hashed, wildcard, ds, chain, Elements(prehash))
    }

    /** Cover pointers and exact flags are those of a full recomputation. */
    ghost predicate Precompiled()
      requires Valid()
      reads this
    {
      && hashed == Recomputed(hashed, chain)
      && wildcard == Recomputed(wildcard, chain)
      && ds == Recomputed(ds, chain)
    }

    /** A chain whose names are not hashed yet. */
    constructor (owners: seq<Domain>)
      requires Sorted(ByOwner, owners) && owners != []
      ensures Valid() && chain == owners && prehash == [] && hashed.tree == [] && ds.tree == []
    {
      chain, last, prehash := owners, Some(owners[|owners| - 1]), [];
      hashed := Index(ByHash, [], map[], {});
      wildcard := Index(ByWcHash, [], map[], {});
      ds := Index(ByDsHash, [], map[], {});
    }

    /** prehash_add */
    method PrehashAdd(n: Domain)
      modifies this`prehash
      ensures prehash == if n in old(prehash) then old(prehash) else [n] + old(prehash)
    {
      if n !in prehash {
        prehash := [n] + prehash;
      }
    }

    /** prehash_del */
    method PrehashDel(n: Domain)
      requires n in prehash && forall i, j :: 0 <= i < j < |prehash| ==> prehash[i] != prehash[j]
      modifies this`prehash
      ensures Elements(prehash) == Elements(old(prehash)) - {n}
      ensures forall i, j :: 0 <= i < j < |prehash| ==> prehash[i] != prehash[j]
    {
      var i :| 0 <= i < |prehash| && prehash[i] == n;
      prehash := prehash[..i] + prehash[i + 1..];
      forall x ensures x in prehash <==> x in old(prehash) && x != n {
        if x in old(prehash) && x != n {
          var j :| 0 <= j < |old(prehash)| && old(prehash)[j] == x;
          assert prehash[if j < i then j else j - 1] == x;
        }
      }
    }

    /** The removed NSEC3 leaves the prehash list, its predecessor joins it. */
    method PrehashMove(n: Domain, prev: Domain)
      requires forall i, j :: 0 <= i < j < |prehash| ==> prehash[i] != prehash[j]
      modifies this`prehash
      ensures Elements(prehash) == Elements(old(prehash)) - {n} + {prev}
      ensures forall i, j :: 0 <= i < j < |prehash| ==> prehash[i] != prehash[j]
    {
      if n in prehash {
        PrehashDel(n);
      }
      assert Elements(prehash) == Elements(old(prehash)) - {n};
      PrehashAdd(prev);
    }

    /** The part of nsec3_rrsets_changed_remove_prehash for a name that is no longer hashed. */
    method Unhash(d: Domain)
      requires Valid() && d in hashed.tree
      modifies this`hashed, this`wildcard
      ensures Valid() && forall x :: x in hashed.tree <==> x in old(hashed.tree) && x != d
    {
      hashed := RemoveName(hashed, d, chain, Elements(prehash));
      wildcard := RemoveName(wildcard, d, chain, Elements(prehash));
    }

    /** The same for the parent-side DS hash. */
    method UnhashDs(d: Domain)
      requires Valid() && d in ds.tree
      modifies this`ds
      ensures Valid() && forall x :: x in ds.tree <==> x in old(ds.tree) && x != d
    {
      ds := RemoveName(ds, d, chain, Elements(prehash));
    }

    /** nsec3_rrsets_changed_remove_prehash; the conditions are those of nsec3_condition_hash and _dshash. */
    method ChangedRemove(d: Domain, condHash: bool, condDs: bool)
      requires Valid()
      modifies this`hashed, this`wildcard, this`ds
      ensures Valid()
      ensures forall x :: x in hashed.tree <==> x in old(hashed.tree) && (x != d || condHash)
      ensures forall x :: x in ds.tree <==> x in old(ds.tree) && (x != d || condDs)
    {
      if d in hashed.tree && !condHash {
        Unhash(d);
      }
      if d in ds.tree && !condDs {
        UnhashDs(d);
      }
    }

    /** nsec3_rrsets_changed_add_prehash */
    method ChangedAdd(d: Domain, condHash: bool, condDs: bool)
      requires Valid()
      requires d !in hashed.tree ==> NewKey(ByHash, hashed.tree, d.hash) && NewKey(ByWcHash, wildcard.tree, d.wcHash)
      requires d !in ds.tree ==> NewKey(ByDsHash, ds.tree, d.dsHash)
      modifies this`hashed, this`wildcard, this`ds
      ensures Valid()
      ensures forall x :: x in hashed.tree <==> x in old(hashed.tree) || (x == d && condHash)
      ensures forall x :: x in ds.tree <==> x in old(ds.tree) || (x == d && condDs)
    {
      if d !in hashed.tree && condHash {
        hashed := AddName(hashed, d, chain, last.value, Elements(prehash));
        wildcard := AddName(wildcard, d, chain, last.value, Elements(prehash));
      }
      if d !in ds.tree && condDs {
        ds := AddName(ds, d, chain, last.value, Elements(prehash));
      }
    }

    /** nsec3_add_rr_trigger: an NSEC3 joins the chain in use. */
    method AddNsec3Trigger(n: Domain)
      requires Valid() && NewKey(ByOwner, chain, n.owner)
      modifies this
      ensures Valid() && chain == Inserted(ByOwner, old(chain), n)
      ensures hashed.tree == old(hashed.tree) && ds.tree == old(ds.tree)
    {
      ghost var todo := Elements(prehash);
      AllAfterInsert(hashed, wildcard, ds, chain, n, todo, Inserted(ByOwner, chain, n));
      chain := Inserted(ByOwner, chain, n);
      if chain[|chain| - 1] == n {
        last := Some(n);
      }
      assert n in chain;
      PrehashAdd(n);
      assert Elements(prehash) == todo + {n};
    }

    /** nsec3_delete_rr_trigger: an NSEC3 leaves the chain, which does not become empty. */
    method DelNsec3Trigger(n: Domain)
      requires Valid() && n in chain && |chain| > 1
      modifies this
      ensures Valid() && chain == Deleted(ByOwner, old(chain), n)
      ensures hashed.tree == old(hashed.tree) && ds.tree == old(ds.tree)
    {
      ghost var todo := Elements(prehash);
      var prev := ChainPrev(chain, n);
      ghost var chain' := Deleted(ByOwner, chain, n);
      AllAfterDelete(hashed, wildcard, ds, chain, n, todo, prev, chain');
      PrehashMove(n, prev);
      if last == Some(n) {
        last := Some(prev);
      }
      forall d | d in prehash ensures d in chain' { assert d in Elements(prehash); }
      chain := Deleted(ByOwner, chain, n);
    }

    /** process_prehash_domain for the three trees */
    method ProcessListed(n: Domain, ghost rest: set<Domain>)
      requires AllRepairable(hashed, wildcard, ds, chain, rest) && n in chain
      modifies this`hashed, this`wildcard, this`ds
      ensures AllRepairable(hashed, wildcard, ds, chain, rest - {n})
      ensures hashed.order == old(hashed.order) && wildcard.order == old(wildcard.order) && ds.order == old(ds.order)
      ensures hashed.tree == old(hashed.tree) && wildcard.tree == old(wildcard.tree) && ds.tree == old(ds.tree)
    {
      var i := Position(ByOwner, chain, n.owner);
      assert chain[i] == n by { var j :| 0 <= j < |chain| && chain[j] == n; }
      hashed := ProcessPrehash(hashed, chain, i, rest);
      wildcard := ProcessPrehash(wildcard, chain, i, rest);
      ds := ProcessPrehash(ds, chain, i, rest);
    }

    /** prehash_zone: process the prehash list and clear it. */
    method PrehashZone()
      requires Valid()
      modifies this
      ensures Valid() && Precompiled() && prehash == []
      ensures chain == old(chain) && hashed.tree == old(hashed.tree) && wildcard.tree == old(wildcard.tree)
              && ds.tree == old(ds.tree)
    {
      var k := 0;
      assert prehash[0..] == prehash;
      while k < |prehash|
        invariant 0 <= k <= |prehash|
        invariant Valid() && chain == old(chain) && prehash == old(prehash)
        invariant hashed.tree == old(hashed.tree) && wildcard.tree == old(wildcard.tree) && ds.tree == old(ds.tree)
        invariant AllRepairable(hashed, wildcard, ds, chain, Elements(prehash[k..]))
      {
        ghost var rest := Elements(prehash[k..]);
        assert prehash[k] in prehash;
        ProcessListed(prehash[k], rest);
        assert rest - {prehash[k]} == Elements(prehash[k + 1..]);
        k := k + 1;
        AllMoreToDo(hashed, wildcard, ds, chain, Elements(prehash[k..]), Elements(prehash));
      }
      assert Elements(prehash[k..]) == {} == Elements([]);
      prehash := [];
      RepairedIsRecomputed(hashed, chain);
      RepairedIsRecomputed(wildcard, chain);
      RepairedIsRecomputed(ds, chain);
    }

    /** First walk of nsec3_precompile_newparam: collect the chain. */
    method CollectChain(walk: seq<Domain>, inChain: set<Domain>)
      requires NoCollisions(walk)
      modifies this`chain, this`last
      ensures Sorted(ByOwner, chain) && (chain != [] ==> last == Some(chain[|chain| - 1]))
      ensures forall d :: d in chain <==> d in walk && d in inChain
    {
      chain, last := [], None;
      var k := 0;
      while k < |walk|
        invariant 0 <= k <= |walk| && Sorted(ByOwner, chain)
        invariant forall d :: d in chain <==> d in walk[..k] && d in inChain
        invariant chain != [] ==> last == Some(chain[|chain| - 1])
      {
        if walk[k] in inChain {
          FreshKey(ByOwner, chain, walk, k);
          chain := Inserted(ByOwner, chain, walk[k]);
          assert walk[k] in chain;
          if chain[|chain| - 1] == walk[k] { last := Some(walk[k]); }
        }
        assert forall d :: d in walk[..k + 1] <==> d in walk[..k] || d == walk[k];
        k := k + 1;
      }
      assert walk[..k] == walk;
    }

    /** Second walk of nsec3_precompile_newparam: hash the names and look up their covers. */
    method HashNames(walk: seq<Domain>, condHash: set<Domain>, condDs: set<Domain>)
      requires Valid() && NoCollisions(walk) && prehash == [] && hashed.tree == [] && ds.tree == []
      modifies this`hashed, this`wildcard, this`ds
      ensures Valid()
      ensures forall d :: d in hashed.tree <==> d in walk && d in condHash
      ensures forall d :: d in ds.tree <==> d in walk && d in condDs
    {
      var k := 0;
      while k < |walk|
        invariant 0 <= k <= |walk| && Valid()
        invariant forall d :: d in hashed.tree <==> d in walk[..k] && d in condHash
        invariant forall d :: d in ds.tree <==> d in walk[..k] && d in condDs
      {
        FreshKey(ByHash, hashed.tree, walk, k);
        FreshKey(ByWcHash, wildcard.tree, walk, k);
        FreshKey(ByDsHash, ds.tree, walk, k);
        ChangedAdd(walk[k], walk[k] in condHash, walk[k] in condDs);
        assert forall d :: d in walk[..k + 1] <==> d in walk[..k] || d == walk[k];
        k := k + 1;
      }
      assert walk[..k] == walk;
    }

    /** nsec3_precompile_newparam: collect the chain, then hash the names. */
    method PrecompileNewparam(walk: seq<Domain>, inChain: set<Domain>, condHash: set<Domain>, condDs: set<Domain>)
      requires NoCollisions(walk) && exists d :: d in walk && d in inChain
      modifies this
      ensures Valid() && Precompiled() && prehash == []
      ensures forall d :: d in chain <==> d in walk && d in inChain
      ensures forall d :: d in hashed.tree <==> d in walk && d in condHash
      ensures forall d :: d in ds.tree <==> d in walk && d in condDs
    {
      prehash := [];
      hashed := Index(ByHash, [], map[], {});
      wildcard := Index(ByWcHash, [], map[], {});
      ds := Index(ByDsHash, [], map[], {});
      CollectChain(walk, inChain);
      HashNames(walk, condHash, condDs);
      assert Elements(prehash) == {};
      RepairedIsRecomputed(hashed, chain);
      RepairedIsRecomputed(wildcard, chain);
      RepairedIsRecomputed(ds, chain);
    }

    /** nsec3_rrsets_changed_add_prehash for a name of the zone */
    method JoinTrees(d: Domain, condHash: bool, condDs: bool, ghost names: seq<Domain>)
      requires Valid() && Known(names) && d in names
      modifies this`hashed, this`wildcard, this`ds
      ensures Valid()
      ensures forall x :: x in hashed.tree <==> x in old(hashed.tree) || (x == d && condHash)
      ensures forall x :: x in ds.tree <==> x in old(ds.tree) || (x == d && condDs)
    {
      if d !in hashed.tree {
        FreshAmong(ByHash, hashed.tree, names, d);
        FreshAmong(ByWcHash, wildcard.tree, names, d);
      }
      if d !in ds.tree {
        FreshAmong(ByDsHash, ds.tree, names, d);
      }
      ChangedAdd(d, condHash, condDs);
    }

    /** One change of a transfer. */
    method Apply(e: Event, ghost names: seq<Domain>)
      requires Valid() && Known(names) && EventName(e) in names
      modifies this
      ensures Valid() && chain == ChainStep(old(chain), e)
      ensures forall x :: x in hashed.tree <==> HashedStep(x in old(hashed.tree), x, e)
      ensures forall x :: x in ds.tree <==> DsStep(x in old(ds.tree), x, e)
    {
      match e {
        case AddNsec3(n) =>
          if n !in chain {
            FreshAmong(ByOwner, chain, names, n);
            AddNsec3Trigger(n);
          }
        case DelNsec3(n) =>
          if n in chain && |chain| > 1 {
            DelNsec3Trigger(n);
          }
        case RrsetsAdded(d, condHash, condDs) => JoinTrees(d, condHash, condDs, names);
        case RrsetsRemoved(d, condHash, condDs) => ChangedRemove(d, condHash, condDs);
      }
    }

    /** All names in the trees are among `names`, which have different hashes. */
    ghost predicate Known(names: seq<Domain>)
      reads this
    {
      && NoCollisions(names)
      && (forall d :: d in chain || d in hashed.tree || d in ds.tree ==> d in names)
    }

    /** The changes of one transfer, in any order. */
    method ApplyEvents(events: seq<Event>, ghost names: seq<Domain>)
      requires Valid() && Known(names)
      requires forall i :: 0 <= i < |events| ==> EventName(events[i]) in names
      modifies this
      ensures Valid() && chain == ChainAfter(old(chain), events)
      ensures forall x :: x in hashed.tree <==> HashedAfter(x in old(hashed.tree), x, events)
      ensures forall x :: x in ds.tree <==> DsAfter(x in old(ds.tree), x, events)
    {
      var k := 0;
      while k < |events|
        invariant 0 <= k <= |events| && Valid() && Known(names)
        invariant chain == ChainAfter(old(chain), events[..k])
        invariant forall x :: x in hashed.tree <==> HashedAfter(x in old(hashed.tree), x, events[..k])
        invariant forall x :: x in ds.tree <==> DsAfter(x in old(ds.tree), x, events[..k])
      {
        Prefix(events, k);
        Apply(events[k], names);
        k := k + 1;
      }
      assert events[..k] == events;
    }

    /** The changes of one transfer, followed by the repair: the trees hold the names that the events
        leave in them, and every cover pointer and exact flag is what a full recomputation over the
        final chain gives. */
    method Transfer(events: seq<Event>, ghost names: seq<Domain>)
      requires Valid() && Known(names)
      requires forall i :: 0 <= i < |events| ==> EventName(events[i]) in names
      modifies this
      ensures Valid() && Precompiled() && prehash == []
      ensures chain == ChainAfter(old(chain), events)
      ensures forall x :: x in hashed.tree <==> HashedAfter(x in old(hashed.tree), x, events)
      ensures forall x :: x in wildcard.tree <==> HashedAfter(x in old(hashed.tree), x, events)
      ensures forall x :: x in ds.tree <==> DsAfter(x in old(ds.tree), x, events)
    {
      ApplyEvents(events, names);
      PrehashZone();
    }
  }

  // -------------------------------------------------------------------- what a transfer leaves

  /** The name that an event is about. */
  function EventName(e: Event): Domain
  {
    match e
    case AddNsec3(n) => n
    case DelNsec3(n) => n
    case RrsetsAdded(d, _, _) => d
    case RrsetsRemoved(d, _, _) => d
  }

  /** The chain after an event; one that would empty the chain, or a second NSEC3 with the same
      owner, is not part of a transfer. */
  function ChainStep(chain: seq<Domain>, e: Event): (r: seq<Domain>)
    requires Sorted(ByOwner, chain) && chain != []
    ensures Sorted(ByOwner, r) && r != []
  {
    match e
    case AddNsec3(n) =>
      if NewKey(ByOwner, chain, n.owner) then
        assert n in Inserted(ByOwner, chain, n);
        Inserted(ByOwner, chain, n)
      else
        chain
    case DelNsec3(n) =>
      if n in chain && |chain| > 1 then
        assert ChainPrev(chain, n) in Deleted(ByOwner, chain, n);
        Deleted(ByOwner, chain, n)
      else
        chain
    case _ => chain
  }

  /** The chain after a sequence of events. */
  function ChainAfter(chain: seq<Domain>, events: seq<Event>): (r: seq<Domain>)
    requires Sorted(ByOwner, chain) && chain != []
    ensures Sorted(ByOwner, r) && r != []
    decreases |events|
  {
    if events == [] then chain
    else ChainStep(ChainAfter(chain, events[..|events| - 1]), events[|events| - 1])
  }

  /** Whether `x` is hashed after an event. */
  predicate HashedStep(was: bool, x: Domain, e: Event)
  {
    match e
    case RrsetsAdded(d, condHash, _) => was || (x == d && condHash)
    case RrsetsRemoved(d, condHash, _) => was && (x != d || condHash)
    case _ => was
  }

  /** Whether `x` is hashed after a sequence of events. */
  predicate HashedAfter(was: bool, x: Domain, events: seq<Event>)
    decreases |events|
  {
    if events == [] then was
    else HashedStep(HashedAfter(was, x, events[..|events| - 1]), x, events[|events| - 1])
  }

  /** Whether `x` is hashed for its DS at the parent side after an event. */
  predicate DsStep(was: bool, x: Domain, e: Event)
  {
    match e
    case RrsetsAdded(d, _, condDs) => was || (x == d && condDs)
    case RrsetsRemoved(d, _, condDs) => was && (x != d || condDs)
    case _ => was
  }

  /** Whether `x` is hashed for its DS after a sequence of events. */
  predicate DsAfter(was: bool, x: Domain, events: seq<Event>)
    decreases |events|
  {
    if events == [] then was
    else DsStep(DsAfter(was, x, events[..|events| - 1]), x, events[|events| - 1])
  }

  lemma Prefix(events: seq<Event>, k: nat)
    requires k < |events|
    ensures var e := events[..k + 1]; e != [] && e[|e| - 1] == events[k] && e[..|e| - 1] == events[..k]
  {
  }

  lemma FreshAmong(o: Order, tree: seq<Domain>, names: seq<Domain>, d: Domain)
    requires NoCollisions(names) && d in names && d !in tree && forall x :: x in tree ==> x in names
    ensures NewKey(o, tree, Key(o, d))
  {
    var k :| 0 <= k < |names| && names[k] == d;
    forall i | 0 <= i < |tree|
      ensures Key(o, tree[i]) != Key(o, d)
    {
      assert tree[i] in tree;
      var j :| 0 <= j < |names| && names[j] == tree[i];
    }
  }

  /** A tree is determined by its names. */
  lemma {:induction false} SortedUnique(o: Order, s: seq<Domain>, t: seq<Domain>)
    requires Sorted(o, s) && Sorted(o, t) && forall d :: d in s <==> d in t
    ensures s == t
    decreases |s|
  {
    assert t != [] ==> t[0] in s;
    if s != [] {
      assert s[0] in t;
      var i :| 0 <= i < |t| && t[i] == s[0];
      var j :| 0 <= j < |s| && s[j] == t[0];
      KeyOrder(o, s, 0, j);
      KeyOrder(o, t, 0, i);
      forall x
        ensures x in s[1..] <==> x in t[1..]
      {
        SortedTail(o, s, x);
        SortedTail(o, t, x);
      }
      SortedUnique(o, s[1..], t[1..]);
    }
  }

  lemma SortedTail(o: Order, s: seq<Domain>, x: Domain)
    requires Sorted(o, s) && s != []
    ensures x in s[1..] <==> x in s && x != s[0]
  {
    if x in s && x != s[0] {
      var i :| 0 <= i < |s| && s[i] == x;
      assert s[1..][i - 1] == x;
    }
    if x in s[1..] {
      var i :| 0 <= i < |s| - 1 && s[1..][i] == x;
      KeyOrder(o, s, 0, i + 1);
    }
  }

  /** An index without anything left to repair is determined by its names and its NSEC3s. */
  lemma SameIndex(a: Index, b: Index, chain: seq<Domain>)
    requires Repairable(a, chain, {}) && Repairable(b, chain, {})
    requires a.order == b.order && forall d :: d in a.tree <==> d in b.tree
    ensures a == b
  {
    SortedUnique(a.order, a.tree, b.tree);
    RepairedIsRecomputed(a, chain);
    RepairedIsRecomputed(b, chain);
  }

  /** Two zones with the same names in their trees and the same NSEC3s have the same chain and, once
      repaired or precompiled, the same cover pointers and exact flags. */
  lemma SameNamesSameIndexes(a: Zone, b: Zone)
    requires a.Valid() && b.Valid() && a.prehash == [] && b.prehash == []
    requires forall d :: d in a.chain <==> d in b.chain
    requires forall d :: d in a.hashed.tree <==> d in b.hashed.tree
    requires forall d :: d in a.ds.tree <==> d in b.ds.tree
    ensures a.chain == b.chain && a.hashed == b.hashed && a.wildcard == b.wildcard && a.ds == b.ds
  {
    assert Elements([]) == {};
    SortedUnique(ByOwner, a.chain, b.chain);
    SameIndex(a.hashed, b.hashed, a.chain);
    SameIndex(a.wildcard, b.wildcard, a.chain);
    SameIndex(a.ds, b.ds, a.chain);
  }

  /** The events of a transfer leave exactly the names that meet the conditions, and the chain of the zone. */
  ghost predicate AddUp(chain: seq<Domain>, hashed: seq<Domain>, ds: seq<Domain>, events: seq<Event>,
                        walk: seq<Domain>, inChain: set<Domain>, condHash: set<Domain>, condDs: set<Domain>)
    requires Sorted(ByOwner, chain) && chain != []
  {
    && (forall x :: x in ChainAfter(chain, events) <==> x in walk && x in inChain)
    && (forall x :: HashedAfter(x in hashed, x, events) <==> x in walk && x in condHash)
    && (forall x :: DsAfter(x in ds, x, events) <==> x in walk && x in condDs)
  }

  /** An incremental transfer with its repair leaves what a precompilation of the final names does if and only if its
      events add up to them; `names` are all names that were ever in the zone. */
  method TransferAsPrecompile(a: Zone, b: Zone, events: seq<Event>, ghost names: seq<Domain>, walk: seq<Domain>,
                              inChain: set<Domain>, condHash: set<Domain>, condDs: set<Domain>)
    requires a != b && a.Valid() && a.Known(names) && NoCollisions(walk) && exists d :: d in walk && d in inChain
    requires forall i :: 0 <= i < |events| ==> EventName(events[i]) in names
    modifies a, b
    ensures a.Valid() && b.Valid()
    ensures a.chain == b.chain && a.hashed == b.hashed && a.wildcard == b.wildcard && a.ds == b.ds
            <==> AddUp(old(a.chain), old(a.hashed.tree), old(a.ds.tree), events, walk, inChain, condHash, condDs)
    ensures forall x :: x in a.hashed.tree <==> HashedAfter(x in old(a.hashed.tree), x, events)
    ensures forall x :: x in a.ds.tree <==> DsAfter(x in old(a.ds.tree), x, events)
    ensures forall x :: x in b.hashed.tree <==> x in walk && x in condHash
    ensures forall x :: x in b.ds.tree <==> x in walk && x in condDs
  {
    ghost var chain, hashed, ds := a.chain, a.hashed.tree, a.ds.tree;
    a.Transfer(events, names);
    ghost var h, w, d := a.hashed, a.wildcard, a.ds;
    b.PrecompileNewparam(walk, inChain, condHash, condDs);
    if AddUp(chain, hashed, ds, events, walk, inChain, condHash, condDs) {
      SameNamesSameIndexes(a, b);
    }
  }
}
