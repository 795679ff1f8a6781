/** Which names of a zone are hashed, after nsec3_condition_hash and nsec3_condition_dshash in nsec3.c, and how the
    triggers of difffile.c follow the records: the names in the hash trees are those that meet the conditions. */
module HashedNames {
  import opened Bytes
  import opened Dname
  import opened DomainTable
  import ZoneData

  const TYPE_NS := 2
  const TYPE_DNAME := 39
  const TYPE_DS := 43
  const TYPE_RRSIG := 46
  const TYPE_NSEC3 := 50

  // -------------------------------------------------------------------- the conditions

  /** The RRsets of a zone, each by its owner and type. */
  type RRsets = set<(Name, nat)>

  /** The domain exists: it or a domain below it holds an RRset. */
  ghost predicate Within(z: RRsets, n: Name)
  {
    exists x :: x in z && n <= x.0
  }

  /** domain_has_only_NSEC3 */
  ghost predicate OnlyNsec3(z: RRsets, n: Name)
  {
    (n, TYPE_NSEC3) in z && forall x :: x in z && x.0 == n ==> x.1 == TYPE_NSEC3 || x.1 == TYPE_RRSIG
  }

  /** domain_find_ns_rrsets: the nearest delegation at or above the domain and below the apex. */
  ghost function NsDomain(z: RRsets, apex: Name, n: Name): Option<Name>
    decreases |n|
  {
    if n == apex then None
    else if (n, TYPE_NS) in z then Some(n)
    else if n == [] then None
    else NsDomain(z, apex, Parent(n))
  }

  /** domain_is_glue */
  ghost predicate Glue(z: RRsets, apex: Name, n: Name)
  {
    var m := NsDomain(z, apex, n);
    m.Some? && (m.value, ZoneData.TYPE_SOA) !in z
  }

  /** nsec3_condition_hash */
  ghost predicate CondHash(z: RRsets, apex: Name, n: Name)
  {
    Within(z, n) && !OnlyNsec3(z, n) && apex <= n && !Glue(z, apex, n)
  }

  /** nsec3_condition_dshash, for a domain of the zone */
  ghost predicate CondDs(z: RRsets, apex: Name, n: Name)
  {
    Within(z, n) && !OnlyNsec3(z, n) && ((n, TYPE_DS) in z || (n, TYPE_NS) in z) && n != apex
  }

  /** All RRsets are at or below the apex, where there is data, and nowhere else is a SOA. */
  ghost predicate ZoneOk(z: RRsets, apex: Name)
  {
    && (exists x :: x in z && x.0 == apex)
    && forall x :: x in z ==> apex <= x.0 && (x.1 == ZoneData.TYPE_SOA ==> x.0 == apex)
  }

  /** Below a delegation, or at it. */
  ghost predicate Delegated(z: RRsets, apex: Name, n: Name)
  {
    exists m :: (m, TYPE_NS) in z && apex < m && m <= n
  }

  lemma {:induction false} GlueIff(z: RRsets, apex: Name, n: Name)
    requires ZoneOk(z, apex) && apex <= n
    ensures Glue(z, apex, n) <==> Delegated(z, apex, n)
    decreases |n|
  {
    if n != apex && (n, TYPE_NS) !in z {
      GlueIff(z, apex, Parent(n));
      if Delegated(z, apex, n) {
        var m :| (m, TYPE_NS) in z && apex < m && m <= n;
        PrefixOfParent(m, n);
      }
      if Delegated(z, apex, Parent(n)) {
        var m :| (m, TYPE_NS) in z && apex < m && m <= Parent(n);
        assert Parent(n) <= n;
      }
    }
  }

  lemma PrefixOfParent(m: Name, n: Name)
    requires m <= n && m != n
    ensures n != [] && m <= Parent(n)
  {
    assert m == n[..|m|] && |m| < |n|;
  }

  lemma DsIff(z: RRsets, apex: Name, n: Name)
    ensures CondDs(z, apex, n) <==> n != apex && ((n, TYPE_DS) in z || (n, TYPE_NS) in z)
  {
    if (n, TYPE_DS) in z || (n, TYPE_NS) in z {
      var x := if (n, TYPE_DS) in z then (n, TYPE_DS) else (n, TYPE_NS);
      assert x in z && n <= x.0 && x.0 == n;
    }
  }

  /** A domain with nothing at it or below it. */
  lemma NotWithin(z: RRsets, n: Name, t: nat)
    requires !Within(z, n)
    ensures (n, t) !in z
  {
    assert (n, t) in z ==> n <= (n, t).0;
  }

  // -------------------------------------------------------------------- an RRset more

  /** A new RRset lets the domains above it exist; otherwise it only matters at and below its owner. */
  lemma AddedAbove(z: RRsets, apex: Name, d: Name, t: nat, n: Name)
    requires ZoneOk(z, apex) && ZoneOk(z + {(d, t)}, apex) && !(d <= n)
    ensures CondHash(z + {(d, t)}, apex, n) <==>
              CondHash(z, apex, n) || (n < d && !Within(z, n) && apex <= n && !Glue(z, apex, n))
  {
    var z' := z + {(d, t)};
    assert Within(z', n) <==> Within(z, n) || n < d by {
      if n <= d { assert (d, t) in z' && n <= (d, t).0; }
      if Within(z, n) { var x :| x in z && n <= x.0; assert x in z'; }
    }
    assert OnlyNsec3(z', n) <==> OnlyNsec3(z, n) by { SameAt(z, z', n, d); }
    if apex <= n {
      GlueIff(z, apex, n);
      GlueIff(z', apex, n);
      DelegatedAdded(z, apex, d, t, n);
    }
    if !Within(z, n) { NotWithin(z, n, TYPE_NSEC3); }
  }

  lemma SameAt(z: RRsets, z': RRsets, n: Name, d: Name)
    requires n != d && forall x: (Name, nat) :: x.0 != d ==> (x in z <==> x in z')
    ensures OnlyNsec3(z', n) <==> OnlyNsec3(z, n)
  {
    assert (n, TYPE_NSEC3).0 != d;
  }

  lemma DelegatedAdded(z: RRsets, apex: Name, d: Name, t: nat, n: Name)
    ensures Delegated(z + {(d, t)}, apex, n) <==> Delegated(z, apex, n) || (t == TYPE_NS && apex < d && d <= n)
  {
    var z' := z + {(d, t)};
    if Delegated(z, apex, n) {
      var m :| (m, TYPE_NS) in z && apex < m && m <= n;
      assert (m, TYPE_NS) in z';
    }
    if t == TYPE_NS && apex < d && d <= n {
      assert (d, TYPE_NS) in z';
    }
  }

  /** Below its owner only a delegation matters. */
  lemma AddedBelow(z: RRsets, apex: Name, d: Name, t: nat, n: Name)
    requires ZoneOk(z, apex) && ZoneOk(z + {(d, t)}, apex) && d < n
    ensures CondHash(z + {(d, t)}, apex, n) <==> CondHash(z, apex, n) && !(t == TYPE_NS && d != apex)
  {
    var z' := z + {(d, t)};
    assert (d, t) in z';
    assert Within(z', n) <==> Within(z, n) by {
      if Within(z, n) { var x :| x in z && n <= x.0; assert x in z'; }
    }
    SameAt(z, z', n, d);
    GlueIff(z, apex, n);
    GlueIff(z', apex, n);
    DelegatedAdded(z, apex, d, t, n);
  }

  /** At its owner, the name becomes unhashed as a delegation, or when it holds NSEC3s only. */
  lemma AddedAt(z: RRsets, apex: Name, d: Name, t: nat)
    requires ZoneOk(z, apex) && ZoneOk(z + {(d, t)}, apex) && (d, t) !in z
    ensures CondHash(z, apex, d) && !CondHash(z + {(d, t)}, apex, d) <==>
              && CondHash(z, apex, d)
              && ((t == TYPE_NS && d != apex)
                  || (t == TYPE_NSEC3 && forall x :: x in z && x.0 == d ==> x.1 == TYPE_RRSIG))
  {
    var z' := z + {(d, t)};
    assert (d, t) in z' && d <= (d, t).0;
    GlueIff(z, apex, d);
    GlueIff(z', apex, d);
    DelegatedAdded(z, apex, d, t, d);
    if t == TYPE_NSEC3 && forall x :: x in z && x.0 == d ==> x.1 == TYPE_RRSIG {
      assert OnlyNsec3(z', d);
    }
    if OnlyNsec3(z', d) && CondHash(z, apex, d) {
      assert !OnlyNsec3(z, d);
      forall x | x in z && x.0 == d
        ensures x.1 == TYPE_NSEC3 || x.1 == TYPE_RRSIG
      {
        assert x in z';
      }
      assert (d, TYPE_NSEC3) !in z;
    }
  }

  // -------------------------------------------------------------------- an RRset less

  /** Without an RRset, the domains above it that have nothing else below them do not exist any more. */
  lemma RemovedAbove(z: RRsets, apex: Name, d: Name, t: nat, n: Name)
    requires (d, t) in z && ZoneOk(z, apex) && ZoneOk(z - {(d, t)}, apex) && !(d <= n)
    ensures CondHash(z, apex, n) <==>
              CondHash(z - {(d, t)}, apex, n)
              || (n < d && !Within(z - {(d, t)}, n) && apex <= n && !Glue(z - {(d, t)}, apex, n))
  {
    AddedAbove(z - {(d, t)}, apex, d, t, n);
    assert z - {(d, t)} + {(d, t)} == z;
  }

  lemma RemovedBelow(z: RRsets, apex: Name, d: Name, t: nat, n: Name)
    requires (d, t) in z && ZoneOk(z, apex) && ZoneOk(z - {(d, t)}, apex) && d < n
    ensures CondHash(z, apex, n) <==> CondHash(z - {(d, t)}, apex, n) && !(t == TYPE_NS && d != apex)
  {
    AddedBelow(z - {(d, t)}, apex, d, t, n);
    assert z - {(d, t)} + {(d, t)} == z;
  }

  /** At its owner, the name becomes hashed again when a delegation goes, or the NSEC3s that it only had. */
  lemma RemovedAt(z: RRsets, apex: Name, d: Name, t: nat)
    requires (d, t) in z && ZoneOk(z, apex) && ZoneOk(z - {(d, t)}, apex)
    ensures CondHash(z - {(d, t)}, apex, d) && !CondHash(z, apex, d) ==> t == TYPE_NS || t == TYPE_NSEC3
  {
    AddedAt(z - {(d, t)}, apex, d, t);
    assert z - {(d, t)} + {(d, t)} == z;
  }

  // -------------------------------------------------------------------- the names in the hash tree

  /** The hash tree has exactly the names that meet the condition. */
  ghost predicate HashRight(z: RRsets, apex: Name, h: set<Name>)
  {
    forall x {:trigger x in h} {:trigger CondHash(z, apex, x)} :: x in h <==> CondHash(z, apex, x)
  }

  ghost predicate DsRight(z: RRsets, apex: Name, h: set<Name>)
  {
    forall x {:trigger x in h} {:trigger CondDs(z, apex, x)} :: x in h <==> CondDs(z, apex, x)
  }

  /** No RRset at the names from `x` down to above `d`. */
  ghost predicate EmptyBetween(z: RRsets, x: Name, d: Name)
  {
    forall y :: y in z && x <= y.0 ==> !(y.0 < d)
  }

  /** Which types make the triggers look at the domain once more, and at the domains below it. */
  predicate AtCut(t: nat)
  {
    t == TYPE_NS || t == TYPE_DS
  }

  predicate Obscures(t: nat)
  {
    AtCut(t) || t == TYPE_DNAME
  }

  /** Whether `x` is in the tree after the triggers for a new RRset `t` at `d`; `c` is its condition. */
  ghost predicate AddedIn(z: RRsets, apex: Name, d: Name, t: nat, joins: bool, x: Name, was: bool, c: bool)
  {
    if x == d then (was || c) && (AtCut(t) || joins ==> c)
    else if d < x && Obscures(t) then was && c
    else if x < d && apex < x && EmptyBetween(z, x, d) then was || c
    else was
  }

  /** The NSEC3 of another chain arrives at a hashed name that has nothing but signatures. */
  ghost predicate OtherChain(z: RRsets, d: Name, t: nat, joins: bool, h: set<Name>)
  {
    t == TYPE_NSEC3 && !joins && d in h && forall x :: x in z && x.0 == d ==> x.1 == TYPE_RRSIG
  }

  /** A name stays in the tree although it does not meet the condition when the triggers for a new RRset do not look
      at it to remove it. */
  predicate Unlooked(d: Name, t: nat, joins: bool, x: Name)
  {
    !(x == d && (AtCut(t) || joins)) && !(d < x && Obscures(t))
  }

  /** After a new RRset a tree that had all of the names `c` that meet the condition has all that meet it now, the
      owner in that case, and of the others exactly those that the triggers do not look at. */
  lemma AddedExcess(z: RRsets, apex: Name, d: Name, t: nat, joins: bool, c: set<Name>, h: set<Name>, h': set<Name>)
    requires HashRight(z, apex, c) && c <= h && ZoneOk(z, apex) && ZoneOk(z + {(d, t)}, apex) && (d, t) !in z
    requires joins ==> t == TYPE_NSEC3
    requires var z' := z + {(d, t)};
             forall x {:trigger x in h'} :: x in h' <==>
               AddedIn(z', apex, d, t, joins, x, x in h, CondHash(z', apex, x))
    ensures var z' := z + {(d, t)};
            forall x {:trigger x in h'} :: x in h' <==>
              || CondHash(z', apex, x) || (x == d && OtherChain(z, d, t, joins, c))
              || (x in h && x !in c && Unlooked(d, t, joins, x))
  {
    var z' := z + {(d, t)};
    forall x
      ensures x in h' <==> || CondHash(z', apex, x) || (x == d && OtherChain(z, d, t, joins, c))
                           || (x in h && x !in c && Unlooked(d, t, joins, x))
    {
      AddedRightAt(z, apex, d, t, joins, c, x);
    }
  }

  /** After a new RRset a right tree is right again, except that its owner stays in it in exactly that case. */
  lemma AddedRight(z: RRsets, apex: Name, d: Name, t: nat, joins: bool, h: set<Name>, h': set<Name>)
    requires HashRight(z, apex, h) && ZoneOk(z, apex) && ZoneOk(z + {(d, t)}, apex) && (d, t) !in z
    requires joins ==> t == TYPE_NSEC3
    requires var z' := z + {(d, t)};
             forall x {:trigger x in h'} :: x in h' <==>
               AddedIn(z', apex, d, t, joins, x, x in h, CondHash(z', apex, x))
    ensures HashRight(z + {(d, t)}, apex, h') <==> !OtherChain(z, d, t, joins, h)
  {
    AddedExcess(z, apex, d, t, joins, h, h, h');
    if OtherChain(z, d, t, joins, h) {
      AddedAt(z, apex, d, t);
      assert d in h' && !CondHash(z + {(d, t)}, apex, d);
    }
  }

  /** No name below a delegation gets into the tree or stays in it. */
  lemma AddedClear(z: RRsets, apex: Name, d: Name, t: nat, joins: bool, c: set<Name>, h: set<Name>, x: Name)
    requires ZoneOk(z, apex) && ZoneOk(z + {(d, t)}, apex) && HashRight(z, apex, c)
    requires (x == d && OtherChain(z, d, t, joins, c))
             || (x in h && x !in c && Unlooked(d, t, joins, x) && apex <= x && !Glue(z, apex, x))
    ensures apex <= x && !Glue(z + {(d, t)}, apex, x)
  {
    assert CondHash(z, apex, x) || apex <= x;
    GlueIff(z, apex, x);
    GlueIff(z + {(d, t)}, apex, x);
    DelegatedAdded(z, apex, d, t, x);
  }

  lemma AddedRightAt(z: RRsets, apex: Name, d: Name, t: nat, joins: bool, h: set<Name>, x: Name)
    requires HashRight(z, apex, h) && ZoneOk(z, apex) && ZoneOk(z + {(d, t)}, apex) && (d, t) !in z
    requires joins ==> t == TYPE_NSEC3
    ensures var z' := z + {(d, t)};
            var c := CondHash(z', apex, x);
            AddedIn(z', apex, d, t, joins, x, x in h, c)
            <==> if x == d && OtherChain(z, d, t, joins, h) then true else c
  {
    assert x in h <==> CondHash(z, apex, x);
    if x == d {
      AddedAt(z, apex, d, t);
    } else if d <= x {
      AddedBelow(z, apex, d, t, x);
    } else {
      AddedAbove(z, apex, d, t, x);
      if x < d && !Within(z, x) && apex <= x {
        EmptyAbove(z, apex, d, t, x);
      }
    }
  }

  /** A name that begins to exist is reached by the walk upwards. */
  lemma EmptyAbove(z: RRsets, apex: Name, d: Name, t: nat, x: Name)
    requires ZoneOk(z, apex) && x < d && !Within(z, x) && apex <= x
    ensures apex < x && EmptyBetween(z + {(d, t)}, x, d)
  {
    var a :| a in z && a.0 == apex;
    assert apex != x;
    assert forall y :: y in z + {(d, t)} && x <= y.0 ==> y == (d, t);
  }

  /** Names hashed for their DS follow their own RRsets only. */
  lemma AddedDsRight(z: RRsets, apex: Name, d: Name, t: nat, joins: bool, h: set<Name>, h': set<Name>)
    requires DsRight(z, apex, h)
    requires var z' := z + {(d, t)};
             forall x {:trigger x in h'} :: x in h' <==>
               AddedIn(z', apex, d, t, joins, x, x in h, CondDs(z', apex, x))
    ensures DsRight(z + {(d, t)}, apex, h')
  {
    var z' := z + {(d, t)};
    forall x
      ensures x in h' <==> CondDs(z', apex, x)
    {
      DsIff(z, apex, x);
      DsIff(z', apex, x);
    }
  }

  /** That case: a name that has only signatures so far, as when they arrive before the NSEC3 that they sign. */
  lemma StaysHashed(x: Label)
    ensures var (z, d, h) := ({([], ZoneData.TYPE_SOA), ([x], TYPE_RRSIG)}, [x], {[], [x]});
            && ZoneOk(z, []) && HashRight(z, [], h) && OtherChain(z, d, TYPE_NSEC3, false, h)
            && !CondHash(z + {(d, TYPE_NSEC3)}, [], d)
            && AddedIn(z + {(d, TYPE_NSEC3)}, [], d, TYPE_NSEC3, false, d, d in h, false)
  {
    var z: RRsets, d, h := {([], ZoneData.TYPE_SOA), ([x], TYPE_RRSIG)}, [x], {[], [x]};
    assert ([], ZoneData.TYPE_SOA) in z && ([x], TYPE_RRSIG) in z;
    assert ZoneOk(z, []);
    forall n
      ensures n in h <==> CondHash(z, [], n)
    {
      if n == [] { assert n <= ([], ZoneData.TYPE_SOA).0; }
      if n == d { assert n <= ([x], TYPE_RRSIG).0; }
      if n in h { GlueIff(z, [], n); }
      if Within(z, n) { var y :| y in z && n <= y.0; BelowOne(n, y.0); }
    }
    assert OnlyNsec3(z + {(d, TYPE_NSEC3)}, d);
  }

  /** What is above a name of at most one label. */
  lemma BelowOne(n: Name, m: Name)
    requires n <= m && |m| <= 1
    ensures n == [] || n == m
  {
  }

  // -------------------------------------------------------------------- after a deletion

  /** Whether `x` is in the tree after the triggers for the deleted RRset `t` at `d`. */
  ghost predicate RemovedIn(d: Name, t: nat, x: Name, was: bool, c: bool)
  {
    if x == d then (was && c) || ((AtCut(t) || t == TYPE_NSEC3) && c)
    else if d < x && Obscures(t) then was || c
    else was
  }

  /** The walk of deletions went up to `stop`; above it a domain stays without data at or below it, and is hashed. */
  ghost predicate LeftBare(z: RRsets, apex: Name, d: Name, stop: Name)
  {
    d != [] &&
    var top := if stop == d then Parent(d) else stop;
    apex <= top && !Within(z, top) && !Delegated(z, apex, top)
  }

  /** No domain of `refs` is at or below `m`. */
  ghost predicate Spare(refs: seq<Name>, m: Name)
  {
    forall r :: r in refs ==> !(m <= r)
  }

  /** The domain `x` stays in the table when `d` and the references `refs` go: it or a domain below it is referenced
      otherwise, or is neither on the way to `d` nor on the way to a domain of `refs`. */
  ghost predicate Kept(usage: map<Name, nat>, refs: seq<Name>, x: Name, d: Name)
  {
    exists m :: m in usage && x <= m && (usage[m] > multiset(refs)[m] || (!(m <= d) && Spare(refs, m)))
  }

  /** Of the RRsets `z` that are left none is at or below the domain `x`, which is above `d`, stays in the table and is
      not below a delegation. */
  ghost predicate Stranded(z: RRsets, usage: map<Name, nat>, refs: seq<Name>, apex: Name, d: Name, x: Name)
  {
    apex <= x && x < d && !Within(z, x) && !Delegated(z, apex, x) && Kept(usage, refs, x, d)
  }

  /** Some domain is stranded. */
  ghost predicate Strands(z: RRsets, usage: map<Name, nat>, refs: seq<Name>, apex: Name, d: Name)
  {
    exists x :: Stranded(z, usage, refs, apex, d, x)
  }

  /** Such a case: a domain between, to which a record refers, when its only data below it goes. */
  lemma StaysBare(x: Label, y: Label)
    ensures var (z, d, h) := ({([], ZoneData.TYPE_SOA), ([x, y], TYPE_DS)}, [x, y], {[], [x], [x, y]});
            var z' := z - {(d, TYPE_DS)};
            && ZoneOk(z, []) && HashRight(z, [], h) && ZoneOk(z', [])
            && Strands(z', map[[] := 1, [x] := 1, [x, y] := 0], [], [], d)
            && !CondHash(z', [], [x]) && RemovedIn(d, TYPE_DS, [x], [x] in h, false)
  {
    var z: RRsets, d, h := {([], ZoneData.TYPE_SOA), ([x, y], TYPE_DS)}, [x, y], {[], [x], [x, y]};
    var z', usage := z - {(d, TYPE_DS)}, map[[] := 1, [x] := 1, [x, y] := 0];
    assert ([], ZoneData.TYPE_SOA) in z' && ([], ZoneData.TYPE_SOA) in z && (d, TYPE_DS) in z;
    assert ZoneOk(z, []) && ZoneOk(z', []);
    forall n
      ensures n in h <==> CondHash(z, [], n)
    {
      if n == [] { assert n <= ([], ZoneData.TYPE_SOA).0; }
      if n == [x] || n == d { assert n <= (d, TYPE_DS).0; }
      if n in h { GlueIff(z, [], n); }
      if Within(z, n) { var w :| w in z && n <= w.0; BelowTwo(n, w.0); }
    }
    assert !Within(z', [x]);
    assert [x] in usage && [x] <= [x] && [x] < d;
    assert Stranded(z', usage, [], [], d, [x]);
  }

  /** What is above a name of at most two labels. */
  lemma BelowTwo(n: Name, m: Name)
    requires n <= m && |m| <= 2
    ensures n == [] || n == m || (|m| == 2 && n == [m[0]])
  {
  }

  lemma StillHere(z: RRsets, usage: map<Name, nat>, refs: seq<Name>, apex: Name, d: Name, t: nat)
    requires (d, t) in z
    ensures !Strands(z, usage, refs, apex, d)
  {
  }

  /** After the deletion of an RRset and of the domains that nothing needs, a tree that had all names that meet the
      condition has all that meet it now, those that are left bare, and all others but the owner and what is gone. */
  lemma RemovedExcess(z: RRsets, apex: Name, d: Name, t: nat, stop: Name, c: set<Name>, h: set<Name>, h': set<Name>)
    requires (d, t) in z && HashRight(z, apex, c) && c <= h
    requires ZoneOk(z, apex) && ZoneOk(z - {(d, t)}, apex) && stop <= d
    requires var z' := z - {(d, t)};
             && (forall x :: stop < x && x <= d ==> !Within(z', x))
             && forall x {:trigger x in h'} :: x in h' <==>
                  RemovedIn(d, t, x, x in h, CondHash(z', apex, x)) && !(stop < x && x <= d)
    ensures var z' := z - {(d, t)};
            forall x {:trigger x in h'} :: x in h' <==>
              || CondHash(z', apex, x) || Bare(z', apex, d, stop, x)
              || (x in h && x !in c && x != d && !(stop < x && x <= d))
  {
    var z' := z - {(d, t)};
    forall x
      ensures x in h' <==> || CondHash(z', apex, x) || Bare(z', apex, d, stop, x)
                           || (x in h && x !in c && x != d && !(stop < x && x <= d))
    {
      RemovedRightAt(z, apex, d, t, stop, c, x);
    }
  }

  /** After the deletion of an RRset and of the domains that nothing needs, the tree is right if and only if no domain
      above stays bare. */
  lemma RemovedRight(z: RRsets, apex: Name, d: Name, t: nat, stop: Name, h: set<Name>, h': set<Name>)
    requires (d, t) in z && HashRight(z, apex, h) && ZoneOk(z, apex) && ZoneOk(z - {(d, t)}, apex) && stop <= d
    requires var z' := z - {(d, t)};
             && (forall x :: stop < x && x <= d ==> !Within(z', x))
             && forall x {:trigger x in h'} :: x in h' <==>
                  RemovedIn(d, t, x, x in h, CondHash(z', apex, x)) && !(stop < x && x <= d)
    ensures HashRight(z - {(d, t)}, apex, h') <==> !LeftBare(z - {(d, t)}, apex, d, stop)
  {
    var z' := z - {(d, t)};
    RemovedExcess(z, apex, d, t, stop, h, h, h');
    if LeftBare(z', apex, d, stop) {
      var top := if stop == d then Parent(d) else stop;
      assert Bare(z', apex, d, stop, top) by { GlueIff(z', apex, top); }
      assert top in h' && !CondHash(z', apex, top);
    } else {
      forall x
        ensures !Bare(z', apex, d, stop, x)
      {
        if x < d && x <= stop && apex <= x { NotBare(z', apex, d, stop, x); }
      }
    }
  }

  lemma RemovedClear(z: RRsets, apex: Name, d: Name, t: nat, x: Name)
    requires ZoneOk(z, apex) && ZoneOk(z - {(d, t)}, apex) && apex <= x && !Glue(z, apex, x)
    ensures !Glue(z - {(d, t)}, apex, x)
  {
    GlueIff(z, apex, x);
    GlueIff(z - {(d, t)}, apex, x);
    DelegatedAdded(z - {(d, t)}, apex, d, t, x);
    if (d, t) in z { assert z - {(d, t)} + {(d, t)} == z; } else { assert z - {(d, t)} == z; }
  }

  /** A domain above the deleted RRset that stays, and had nothing else at or below it. */
  ghost predicate Bare(z: RRsets, apex: Name, d: Name, stop: Name, x: Name)
  {
    x < d && x <= stop && apex <= x && !Within(z, x) && !Glue(z, apex, x)
  }

  lemma RemovedRightAt(z: RRsets, apex: Name, d: Name, t: nat, stop: Name, h: set<Name>, x: Name)
    requires (d, t) in z && HashRight(z, apex, h) && ZoneOk(z, apex) && ZoneOk(z - {(d, t)}, apex) && stop <= d
    requires forall y :: stop < y && y <= d ==> !Within(z - {(d, t)}, y)
    ensures var z' := z - {(d, t)};
            var c := CondHash(z', apex, x);
            RemovedIn(d, t, x, x in h, c) && !(stop < x && x <= d) <==> c || Bare(z', apex, d, stop, x)
  {
    assert x in h <==> CondHash(z, apex, x);
    if x == d {
      RemovedAt(z, apex, d, t);
    } else if d <= x {
      RemovedBelow(z, apex, d, t, x);
    } else {
      RemovedAbove(z, apex, d, t, x);
      if x < d && !(stop < x) {
        PrefixesOrdered(x, stop, d);
      }
    }
  }

  /** Two prefixes of a name are prefixes of each other, one way or the other. */
  lemma PrefixesOrdered(a: Name, b: Name, d: Name)
    requires a <= d && b <= d
    ensures a <= b || b < a
  {
    assert a == d[..|a|] && b == d[..|b|];
  }

  lemma NotBare(z: RRsets, apex: Name, d: Name, stop: Name, x: Name)
    requires ZoneOk(z, apex) && stop <= d && !LeftBare(z, apex, d, stop)
    requires x < d && x <= stop && apex <= x
    ensures Within(z, x) || Glue(z, apex, x)
  {
    var top := if stop == d then Parent(d) else stop;
    if stop == d { PrefixOfParent(x, d); }
    assert x <= top && apex <= top;
    GlueIff(z, apex, x);
    if Within(z, top) {
      var y :| y in z && top <= y.0;
      assert x <= y.0;
    } else {
      var m :| (m, TYPE_NS) in z && apex < m && m <= top;
      PrefixesOrdered(m, x, top);
      if x < m { assert x <= (m, TYPE_NS).0; }
    }
  }

  lemma RemovedDsRight(z: RRsets, apex: Name, d: Name, t: nat, stop: Name, h: set<Name>, h': set<Name>)
    requires (d, t) in z && DsRight(z, apex, h) && stop <= d
    requires var z' := z - {(d, t)};
             && (forall x :: stop < x && x <= d ==> !Within(z', x))
             && forall x {:trigger x in h'} :: x in h' <==>
                  RemovedIn(d, t, x, x in h, CondDs(z', apex, x)) && !(stop < x && x <= d)
    ensures DsRight(z - {(d, t)}, apex, h')
  {
    var z' := z - {(d, t)};
    forall x
      ensures x in h' <==> CondDs(z', apex, x)
    {
      DsIff(z, apex, x);
      DsIff(z', apex, x);
      if stop < x && x <= d {
        NotWithin(z', x, TYPE_DS);
        NotWithin(z', x, TYPE_NS);
      }
    }
  }

  // -------------------------------------------------------------------- the RRsets of a table

  ghost function RRsetsOf(records: seq<Rec>): RRsets
  {
    set i | 0 <= i < |records| :: (records[i].owner, records[i].rrset)
  }

  lemma RRsetsHave(records: seq<Rec>, n: Name, t: nat)
    ensures (n, t) in RRsetsOf(records) <==> HasRRset(records, n, t)
  {
  }

  lemma RRsetsWithin(records: seq<Rec>, n: Name)
    ensures Within(RRsetsOf(records), n) <==> DataWithin(records, n)
  {
    if DataWithin(records, n) {
      var i :| 0 <= i < |records| && n <= records[i].owner;
      assert (records[i].owner, records[i].rrset) in RRsetsOf(records);
    }
  }

  lemma RRsetsMore(records: seq<Rec>, rec: Rec)
    ensures RRsetsOf(records + [rec]) == RRsetsOf(records) + {(rec.owner, rec.rrset)}
  {
    var r := records + [rec];
    assert r[|records|] == rec;
    forall x | x in RRsetsOf(records)
      ensures x in RRsetsOf(r)
    {
      var i :| 0 <= i < |records| && x == (records[i].owner, records[i].rrset);
      assert r[i] == records[i];
    }
  }

  lemma RRsetsLess(records: seq<Rec>, i: nat)
    requires i < |records|
    ensures var x, r := (records[i].owner, records[i].rrset), TakenOut(records, i);
            && x in RRsetsOf(records)
            && RRsetsOf(r) == if HasRRset(r, x.0, x.1) then RRsetsOf(records) else RRsetsOf(records) - {x}
  {
    var x, r := (records[i].owner, records[i].rrset), TakenOut(records, i);
    var j := LastOf(records, i);
    var u := records[i := records[j]];
    assert forall k :: 0 <= k < |r| ==> r[k] == u[if k < j then k else k + 1];
    forall y | y in RRsetsOf(r)
      ensures y in RRsetsOf(records)
    {
      var k :| 0 <= k < |r| && y == (r[k].owner, r[k].rrset);
      var k' := if k < j then k else k + 1;
      assert y == (records[k'].owner, records[k'].rrset);
    }
    forall y | y in RRsetsOf(records) && y != x
      ensures y in RRsetsOf(r)
    {
      var k :| 0 <= k < |records| && y == (records[k].owner, records[k].rrset);
      assert k != i && k != j;
      assert r[if k < j then k else k - 1] == records[k];
    }
    RRsetsHave(r, x.0, x.1);
  }

  /** A name that exists is in the table. */
  lemma WithinInTable(db: Db, n: Name)
    requires Core(db) && Within(RRsetsOf(db.records), n)
    ensures n in db.usage
  {
    RRsetsWithin(db.records, n);
    if n !in db.usage { NoDataAtNew(db, n); }
  }
}
