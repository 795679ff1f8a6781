/** The hash trees of a zone that is kept in the domain table: add_RR and delete_RR of difffile.c with their triggers,
    nsec3_add_rrset_trigger and its like.  They keep in the trees exactly the names that meet the conditions of
    module HashedNames, two cases excepted, and what they do is the run of events that module Nsec3 is about. */
module HashTrees {
  import opened Bytes
  import opened Dname
  import opened DomainTable
  import opened HashedNames
  import Nsec3
  import ZoneData

  // -------------------------------------------------------------------- sets of names

  /** The names that are to be hashed, among some names. */
  ghost function HashedOf(z: RRsets, apex: Name, names: seq<Name>): set<Name>
  {
    if names == [] then {}
    else (if CondHash(z, apex, names[0]) then {names[0]} else {}) + HashedOf(z, apex, names[1..])
  }

  /** The names that are to be hashed for their DS, among some names. */
  ghost function DsHashedOf(z: RRsets, apex: Name, names: seq<Name>): set<Name>
  {
    if names == [] then {}
    else (if CondDs(z, apex, names[0]) then {names[0]} else {}) + DsHashedOf(z, apex, names[1..])
  }

  lemma {:induction false} HashedOfHas(z: RRsets, apex: Name, names: seq<Name>, x: Name)
    ensures x in HashedOf(z, apex, names) <==> x in names && CondHash(z, apex, x)
    ensures x in DsHashedOf(z, apex, names) <==> x in names && CondDs(z, apex, x)
  {
    if names != [] { HashedOfHas(z, apex, names[1..], x); }
  }

  /** The names of the table that are to be hashed. */
  ghost function ToHash(db: Db, apex: Name): set<Name>
  {
    HashedOf(RRsetsOf(db.records), apex, db.names)
  }

  ghost function ToHashDs(db: Db, apex: Name): set<Name>
  {
    DsHashedOf(RRsetsOf(db.records), apex, db.names)
  }

  /** The domains below `d`. */
  ghost function Below(db: Db, d: Name): set<Name>
  {
    set n | n in db.usage && d < n
  }

  /** The domains between the apex and `d` from which there is no RRset down to `d`. */
  ghost function EmptyAboveOf(db: Db, apex: Name, d: Name): set<Name>
  {
    set n | n in db.usage && Above(RRsetsOf(db.records), apex, n, d)
  }

  /** The trees after the triggers for a new RRset; `c` has the names that meet the conditions. */
  ghost function AfterAdd(tr: Trees, c: Trees, d: Name, below: set<Name>, above: set<Name>, t: nat, joins: bool): Trees
  {
    var t1 := Looked(tr, c, {d}, true);
    var t2 := if AtCut(t) then Looked(t1, c, {d}, false) else t1;
    var t3 := if Obscures(t) then Looked(t2, c, below, false) else t2;
    var t4 := Looked(t3, c, above, true);
    if joins then Looked(t4, c, {d}, false) else t4
  }

  /** The trees after the triggers for a deleted RRset. */
  ghost function AfterDelete(tr: Trees, c: Trees, d: Name, below: set<Name>, t: nat): Trees
  {
    var t1 := Looked(tr, c, {d}, false);
    var t2 := if AtCut(t) || t == TYPE_NSEC3 then Looked(t1, c, {d}, true) else t1;
    if Obscures(t) then Looked(t2, c, below, true) else t2
  }

  lemma ToHashHas(db: Db, apex: Name, x: Name)
    requires Core(db)
    ensures x in ToHash(db, apex) <==> CondHash(RRsetsOf(db.records), apex, x)
    ensures x in ToHashDs(db, apex) <==> CondDs(RRsetsOf(db.records), apex, x)
    ensures x in ToHash(db, apex) || x in ToHashDs(db, apex) ==> x in db.usage
  {
    HashedOfHas(RRsetsOf(db.records), apex, db.names, x);
    if Within(RRsetsOf(db.records), x) { WithinInTable(db, x); }
  }

  lemma ToHashRight(db: Db, apex: Name)
    requires Core(db)
    ensures HashRight(RRsetsOf(db.records), apex, ToHash(db, apex))
    ensures DsRight(RRsetsOf(db.records), apex, ToHashDs(db, apex))
  {
    forall x
      ensures x in ToHash(db, apex) <==> CondHash(RRsetsOf(db.records), apex, x)
      ensures x in ToHashDs(db, apex) <==> CondDs(RRsetsOf(db.records), apex, x)
    {
      ToHashHas(db, apex, x);
    }
  }

  /** Only one set of names is right. */
  lemma RightIsToHash(db: Db, apex: Name, h: set<Name>)
    requires Core(db)
    ensures HashRight(RRsetsOf(db.records), apex, h) <==> h == ToHash(db, apex)
    ensures DsRight(RRsetsOf(db.records), apex, h) <==> h == ToHashDs(db, apex)
  {
    ToHashRight(db, apex);
    if HashRight(RRsetsOf(db.records), apex, h) {
      forall x ensures x in h <==> x in ToHash(db, apex) { ToHashHas(db, apex, x); }
    }
    if DsRight(RRsetsOf(db.records), apex, h) {
      forall x ensures x in h <==> x in ToHashDs(db, apex) { ToHashHas(db, apex, x); }
    }
  }

  /** The tables that hold a zone at `apex`. */
  ghost function Zones(apex: Name): iset<Db>
  {
    iset db: Db | Core(db) && ExistOk(db) && ZoneOk(RRsetsOf(db.records), apex)
  }

  /** The trees that are right for a table. */
  ghost function RightTrees(db: Db, apex: Name): Trees
  {
    Trees(ToHash(db, apex), ToHashDs(db, apex))
  }

  /** The trees have all names that meet the conditions, the one for DS has no other, and the others that are hashed
      are domains of the table in the zone and not below a delegation. */
  ghost predicate Covers(db: Db, apex: Name, tr: Trees)
  {
    && ToHash(db, apex) <= tr.hashed && tr.hashed <= db.usage.Keys && tr.ds == ToHashDs(db, apex)
    && forall x {:trigger x in tr.hashed} :: x in tr.hashed ==> apex <= x && !Glue(RRsetsOf(db.records), apex, x)
  }

  /** The names that are hashed although they do not meet the condition. */
  ghost function Over(db: Db, apex: Name, tr: Trees): set<Name>
  {
    tr.hashed - ToHash(db, apex)
  }

  /** Those of them that stay hashed when a record is added: the first of its RRset, or an NSEC3 that joins the
      chain, makes the triggers look at some. */
  ghost function StillOver(over: set<Name>, d: Name, t: nat, first: bool, joins: bool): set<Name>
  {
    set x | x in over && (first ==> Unlooked(d, t, joins, x)) && (joins ==> x != d)
  }

  /** The owner of an NSEC3 of another chain, when it is hashed and has nothing but signatures. */
  ghost function NewlyOver(z: RRsets, d: Name, t: nat, joins: bool, h: set<Name>): set<Name>
  {
    if OtherChain(z, d, t, joins, h) then {d} else {}
  }

  /** The domains above `d` that are stranded. */
  ghost function StrandedOf(z: RRsets, usage: map<Name, nat>, refs: seq<Name>, apex: Name, d: Name): set<Name>
  {
    set k | 0 <= k < |d| && Stranded(z, usage, refs, apex, d, d[..k]) :: d[..k]
  }

  /** The trees after the triggers of an addition, to table `db'`. */
  ghost predicate AddedTo(db: Db, db': Db, apex: Name, d: Name, t: nat, first: bool, joins: bool, tr: Trees, tr': Trees)
  {
    && Covers(db', apex, tr')
    && Over(db', apex, tr') == StillOver(Over(db, apex, tr), d, t, first, joins) - ToHash(db', apex)
                               + NewlyOver(RRsetsOf(db.records), d, t, joins, ToHash(db, apex))
  }

  /** The trees after the triggers of a deletion; `last` if the RRset went with the record. */
  ghost predicate DeletedTo(db: Db, db': Db, apex: Name, d: Name, last: bool, stranded: set<Name>, tr: Trees,
                            tr': Trees)
  {
    && Covers(db', apex, tr')
    && Over(db', apex, tr') == Over(db, apex, tr) * db'.usage.Keys - (if last then {d} else {}) - ToHash(db', apex)
                               + stranded
  }

  /** A name that is hashed although it is not to be has no data at or below it, or NSEC3s and signatures only. */
  lemma OverMeans(db: Db, apex: Name, tr: Trees, x: Name)
    requires Core(db) && Covers(db, apex, tr) && x in Over(db, apex, tr)
    ensures x in db.usage && apex <= x && (!Within(RRsetsOf(db.records), x) || OnlyNsec3(RRsetsOf(db.records), x))
  {
    ToHashHas(db, apex, x);
  }

  /** The trees are right when no other name is hashed. */
  lemma RightWhenNotOver(db: Db, apex: Name, tr: Trees)
    requires Covers(db, apex, tr)
    ensures tr == RightTrees(db, apex) <==> Over(db, apex, tr) == {}
  {
    if Over(db, apex, tr) == {} {
      forall x | x in tr.hashed ensures x in ToHash(db, apex) { assert x !in Over(db, apex, tr); }
    }
  }

  /** When right trees stay right. */
  lemma AddedToRight(db: Db, db': Db, apex: Name, d: Name, t: nat, first: bool, joins: bool, tr: Trees, tr': Trees)
    requires AddedTo(db, db', apex, d, t, first, joins, tr, tr') && tr == RightTrees(db, apex)
    ensures tr' == RightTrees(db', apex) <==> !OtherChain(RRsetsOf(db.records), d, t, joins, tr.hashed)
  {
    RightWhenNotOver(db', apex, tr');
    assert Over(db, apex, tr) == {};
    assert StillOver({}, d, t, first, joins) - ToHash(db', apex) == {};
  }

  lemma DeletedToRight(db: Db, db': Db, apex: Name, d: Name, last: bool, z: RRsets, usage: map<Name, nat>,
                       refs: seq<Name>, tr: Trees, tr': Trees)
    requires DeletedTo(db, db', apex, d, last, StrandedOf(z, usage, refs, apex, d), tr, tr')
    requires tr == RightTrees(db, apex)
    ensures tr' == RightTrees(db', apex) <==> !Strands(z, usage, refs, apex, d)
  {
    RightWhenNotOver(db', apex, tr');
    assert Over(db, apex, tr) == {};
    forall x
      ensures x in Over(db', apex, tr') <==> Stranded(z, usage, refs, apex, d, x)
    {
      StrandedOfHas(z, usage, refs, apex, d, x);
    }
    if Strands(z, usage, refs, apex, d) {
      var x :| Stranded(z, usage, refs, apex, d, x);
      assert x in Over(db', apex, tr');
    }
  }

  lemma StrandedOfHas(z: RRsets, usage: map<Name, nat>, refs: seq<Name>, apex: Name, d: Name, x: Name)
    ensures x in StrandedOf(z, usage, refs, apex, d) <==> Stranded(z, usage, refs, apex, d, x)
  {
    if Stranded(z, usage, refs, apex, d, x) { assert x == d[..|x|]; }
  }

  /** After the triggers for a new RRset the trees have all names that meet the conditions again, and it is exactly
      known which others. */
  lemma AddKeeps(db: Db, db': Db, apex: Name, d: Name, t: nat, joins: bool, tr: Trees)
    requires Core(db) && Core(db') && ZoneOk(RRsetsOf(db.records), apex) && ZoneOk(RRsetsOf(db'.records), apex)
    requires (d, t) !in RRsetsOf(db.records) && RRsetsOf(db'.records) == RRsetsOf(db.records) + {(d, t)}
    requires (joins ==> t == TYPE_NSEC3) && Covers(db, apex, tr) && db.usage.Keys <= db'.usage.Keys
    ensures var tr' := AfterAdd(tr, RightTrees(db', apex), d, Below(db', d), EmptyAboveOf(db', apex, d), t, joins);
            AddedTo(db, db', apex, d, t, true, joins, tr, tr')
  {
    var z, z', c := RRsetsOf(db.records), RRsetsOf(db'.records), ToHash(db, apex);
    ToHashRight(db, apex);
    ToHashRight(db', apex);
    var tr' := AfterAdd(tr, RightTrees(db', apex), d, Below(db', d), EmptyAboveOf(db', apex, d), t, joins);
    forall x
      ensures x in tr'.hashed <==> AddedIn(z', apex, d, t, joins, x, x in tr.hashed, CondHash(z', apex, x))
      ensures x in tr'.ds <==> AddedIn(z', apex, d, t, joins, x, x in tr.ds, CondDs(z', apex, x))
    {
      AddedInTrees(db, db', apex, d, t, joins, tr, x);
    }
    AddedExcess(z, apex, d, t, joins, c, tr.hashed, tr'.hashed);
    AddedDsRight(z, apex, d, t, joins, tr.ds, tr'.ds);
    RightIsToHash(db', apex, tr'.ds);
    AddedNames(z, db', apex, d, t, joins, c, tr.hashed, tr'.hashed);
    forall x | x in tr'.hashed
      ensures x in db'.usage && apex <= x && !Glue(z', apex, x)
    {
      ToHashHas(db', apex, x);
      ToHashHas(db, apex, x);
      if !CondHash(z', apex, x) { AddedClear(z, apex, d, t, joins, c, tr.hashed, x); }
    }
  }

  lemma AddedNames(z: RRsets, db': Db, apex: Name, d: Name, t: nat, joins: bool, c: set<Name>, h: set<Name>,
                   h': set<Name>)
    requires var z' := RRsetsOf(db'.records);
             && HashRight(z', apex, ToHash(db', apex))
             && forall x {:trigger x in h'} :: x in h' <==>
                  || CondHash(z', apex, x) || (x == d && OtherChain(z, d, t, joins, c))
                  || (x in h && x !in c && Unlooked(d, t, joins, x))
    requires OtherChain(z, d, t, joins, c) ==> !CondHash(RRsetsOf(db'.records), apex, d)
    ensures ToHash(db', apex) <= h'
    ensures h' - ToHash(db', apex)
            == StillOver(h - c, d, t, true, joins) - ToHash(db', apex) + NewlyOver(z, d, t, joins, c)
  {
    var over := StillOver(h - c, d, t, true, joins) - ToHash(db', apex) + NewlyOver(z, d, t, joins, c);
    forall x
      ensures x in h' - ToHash(db', apex) <==> x in over
    {
    }
  }

  /** The triggers for a new RRset, name by name. */
  lemma AddedInTrees(db: Db, db': Db, apex: Name, d: Name, t: nat, joins: bool, tr: Trees, x: Name)
    requires Core(db) && Core(db') && RRsetsOf(db'.records) == RRsetsOf(db.records) + {(d, t)}
    requires tr.hashed <= db.usage.Keys && tr.ds == ToHashDs(db, apex) && db.usage.Keys <= db'.usage.Keys
    ensures var tr' := AfterAdd(tr, RightTrees(db', apex), d, Below(db', d), EmptyAboveOf(db', apex, d), t, joins);
            var z' := RRsetsOf(db'.records);
            && (x in tr'.hashed <==> AddedIn(z', apex, d, t, joins, x, x in tr.hashed, CondHash(z', apex, x)))
            && (x in tr'.ds <==> AddedIn(z', apex, d, t, joins, x, x in tr.ds, CondDs(z', apex, x)))
  {
    var z', in' := RRsetsOf(db'.records), x in db'.usage;
    NotBelow(db, db', apex, d, t, x);
    AddedInOne(x, d, t, joins, tr, RightTrees(db', apex), Below(db', d), EmptyAboveOf(db', apex, d),
               in' && d < x, in' && Above(z', apex, x, d));
    ToHashHas(db', apex, x);
  }

  /** Where `AfterAdd` has one name. */
  lemma AddedInOne(x: Name, d: Name, t: nat, joins: bool, tr: Trees, c: Trees, b: set<Name>, a: set<Name>,
                   below: bool, above: bool)
    requires (x in b <==> below) && (x in a <==> above) && (below ==> d < x) && (above ==> x < d)
    ensures var tr' := AfterAdd(tr, c, d, b, a, t, joins);
            && (x in tr'.hashed <==> AddedWhere(x == d, below, above, t, joins, x in tr.hashed, x in c.hashed))
            && (x in tr'.ds <==> AddedWhere(x == d, below, above, t, joins, x in tr.ds, x in c.ds))
  {
  }

  predicate AddedWhere(at: bool, below: bool, above: bool, t: nat, joins: bool, was: bool, c: bool)
  {
    if at then (was || c) && (AtCut(t) || joins ==> c)
    else if below && Obscures(t) then was && c
    else if above then was || c
    else was
  }

  /** What is not in the table is not to be hashed, before or after. */
  lemma NotBelow(db: Db, db': Db, apex: Name, d: Name, t: nat, x: Name)
    requires Core(db) && Core(db') && RRsetsOf(db'.records) == RRsetsOf(db.records) + {(d, t)}
    ensures x !in db'.usage ==> x !in ToHash(db, apex) && x !in ToHashDs(db, apex)
    ensures x !in db'.usage ==>
              !CondHash(RRsetsOf(db'.records), apex, x) && !CondDs(RRsetsOf(db'.records), apex, x)
  {
    var z, z' := RRsetsOf(db.records), RRsetsOf(db'.records);
    ToHashHas(db, apex, x);
    if Within(z, x) {
      var y :| y in z && x <= y.0;
      assert y in z';
    }
    if Within(z', x) { WithinInTable(db', x); }
  }

  /** After the triggers for a deleted RRset and the deletion of domains the trees have all names that meet the
      conditions, and it is exactly known which others. */
  lemma DeleteKeeps(db: Db, db1: Db, db': Db, apex: Name, d: Name, t: nat, stop: Name, tr: Trees)
    requires Core(db) && Core(db1) && Core(db') && Pruned(db1, db', d, stop) && d in db1.usage
    requires stop in db1.usage && !Free(db1, stop, d)
    requires ZoneOk(RRsetsOf(db.records), apex) && ZoneOk(RRsetsOf(db1.records), apex)
    requires (d, t) in RRsetsOf(db.records) && RRsetsOf(db1.records) == RRsetsOf(db.records) - {(d, t)}
    requires db1.usage.Keys == db.usage.Keys && Covers(db, apex, tr)
    ensures var tr' := Dropping(AfterDelete(tr, RightTrees(db1, apex), d, Below(db1, d), t),
                               db1.usage.Keys - db'.usage.Keys);
            DeletedTo(db, db', apex, d, true, StrandedOf(RRsetsOf(db'.records), db1.usage, [], apex, d), tr, tr')
  {
    var z, z', c := RRsetsOf(db.records), RRsetsOf(db1.records), ToHash(db, apex);
    ToHashRight(db, apex);
    ToHashRight(db', apex);
    FreeNotWithin(db1, db', d, stop);
    var tr' := Dropping(AfterDelete(tr, RightTrees(db1, apex), d, Below(db1, d), t), db1.usage.Keys - db'.usage.Keys);
    forall x
      ensures x in tr'.hashed <==>
                RemovedIn(d, t, x, x in tr.hashed, CondHash(z', apex, x)) && !(stop < x && x <= d)
      ensures x in tr'.ds <==> RemovedIn(d, t, x, x in tr.ds, CondDs(z', apex, x)) && !(stop < x && x <= d)
    {
      DeletedInTrees(db, db1, db', apex, d, t, stop, tr, x);
    }
    RemovedExcess(z, apex, d, t, stop, c, tr.hashed, tr'.hashed);
    RemovedDsRight(z, apex, d, t, stop, tr.ds, tr'.ds);
    RightIsToHash(db', apex, tr'.ds);
    forall x
      ensures Bare(z', apex, d, stop, x) <==> x in StrandedOf(z', db1.usage, [], apex, d)
    {
      BareIsStranded(db1, db', apex, d, stop, x);
      StrandedOfHas(z', db1.usage, [], apex, d, x);
    }
    DeletedNames(z', db1, db', apex, d, stop, c, tr.hashed, tr'.hashed);
    forall x | x in tr'.hashed
      ensures x in db'.usage && apex <= x && !Glue(z', apex, x)
    {
      ToHashHas(db', apex, x);
      ToHashHas(db, apex, x);
      if x in tr.hashed { RemovedClear(z, apex, d, t, x); }
      if Bare(z', apex, d, stop, x) { BareThere(db1, db', d, stop, x); }
    }
  }

  lemma BareThere(db: Db, db': Db, d: Name, stop: Name, x: Name)
    requires Core(db) && d in db.usage && Pruned(db, db', d, stop) && x < d && x <= stop
    ensures x in db'.usage
  {
    PrefixesThere(db, d);
    assert x == d[..|x|];
  }

  lemma DeletedNames(z': RRsets, db1: Db, db': Db, apex: Name, d: Name, stop: Name, c: set<Name>, h: set<Name>,
                     h': set<Name>)
    requires Pruned(db1, db', d, stop) && h <= db1.usage.Keys && HashRight(z', apex, ToHash(db', apex))
    requires forall x {:trigger x in h'} :: x in h' <==>
               || CondHash(z', apex, x) || Bare(z', apex, d, stop, x)
               || (x in h && x !in c && x != d && !(stop < x && x <= d))
    requires forall x :: Bare(z', apex, d, stop, x) <==> x in StrandedOf(z', db1.usage, [], apex, d)
    ensures ToHash(db', apex) <= h'
    ensures h' - ToHash(db', apex) == (h - c) * db'.usage.Keys - {d} - ToHash(db', apex)
                                      + StrandedOf(z', db1.usage, [], apex, d)
  {
    var over := (h - c) * db'.usage.Keys - {d} - ToHash(db', apex) + StrandedOf(z', db1.usage, [], apex, d);
    forall x
      ensures x in h' - ToHash(db', apex) <==> x in over
    {
      assert Bare(z', apex, d, stop, x) ==> !CondHash(z', apex, x);
    }
  }

  /** A domain is left bare if and only if it is stranded. */
  lemma BareIsStranded(db: Db, db': Db, apex: Name, d: Name, stop: Name, x: Name)
    requires Core(db) && Core(db') && d in db.usage && stop in db.usage && Pruned(db, db', d, stop)
    requires !Free(db, stop, d) && ZoneOk(RRsetsOf(db.records), apex)
    ensures Bare(RRsetsOf(db.records), apex, d, stop, x) <==>
              Stranded(RRsetsOf(db.records), db.usage, [], apex, d, x)
  {
    var z := RRsetsOf(db.records);
    if apex <= x { GlueIff(z, apex, x); }
    if Bare(z, apex, d, stop, x) {
      RRsetsWithin(db.records, x);
      assert !HasData(db.records, stop);
      if db.usage[stop] > 0 {
        assert Kept(db.usage, [], x, d);
      } else {
        var m :| m in db.usage && stop < m && !(m <= d);
        assert Kept(db.usage, [], x, d);
      }
    }
    if Stranded(z, db.usage, [], apex, d, x) {
      PrefixesOrdered(x, stop, d);
      if stop < x { NotKept(db, db', d, stop, x); }
    }
  }

  lemma NotKept(db: Db, db': Db, d: Name, stop: Name, x: Name)
    requires Core(db) && d in db.usage && Pruned(db, db', d, stop) && stop < x && x < d
    ensures !Kept(db.usage, [], x, d)
  {
    PrefixesThere(db, d);
    forall m | m in db.usage && x <= m
      ensures db.usage[m] == 0 && m <= d
    {
      assert x == d[..|x|];
      assert Free(db, x, d);
      if m != x { assert m <= d; }
      assert stop < m;
      assert Free(db, m, d);
    }
  }

  /** What is kept when the references have been given up can be told before. */
  lemma KeptBefore(db: Db, refs: seq<Name>, usage: map<Name, nat>, x: Name, d: Name)
    requires GivenUp(db, refs, usage)
    requires forall n :: n in db.usage && x <= n && n != d ==> !HasData(db.records, n)
    requires forall n :: n in db.usage ==> db.usage[n] >= multiset(refs)[n]
    ensures Kept(usage, [], x, d) <==> Kept(db.usage, refs, x, d)
  {
    if Kept(usage, [], x, d) {
      var m :| m in usage && x <= m && (usage[m] > multiset([])[m] || (!(m <= d) && Spare([], m)));
      assert GivenUpAt(db, refs, usage, m);
      if usage[m] == 0 {
        var n :| n in db.usage && m <= n && !OnlyFor(db, refs, n);
        assert n != d;
      }
    }
    if Kept(db.usage, refs, x, d) {
      var m :| m in db.usage && x <= m && (db.usage[m] > multiset(refs)[m] || (!(m <= d) && Spare(refs, m)));
      assert GivenUpAt(db, refs, usage, m);
      assert !OnlyFor(db, refs, m);
    }
  }

  /** The domains that are stranded when the references have been given up are those that can be told before. */
  lemma StrandedBefore(db: Db, i: nat, usage: map<Name, nat>, apex: Name)
    requires i < |db.records| && GivenUp(db, db.records[i].refs, usage)
    requires forall n :: n in db.usage ==> db.usage[n] >= multiset(db.records[i].refs)[n]
    ensures var z, rec := RRsetsOf(TakenOut(db.records, i)), db.records[i];
            StrandedOf(z, usage, [], apex, rec.owner) == StrandedOf(z, db.usage, rec.refs, apex, rec.owner)
  {
    var z, rec := RRsetsOf(TakenOut(db.records, i)), db.records[i];
    var d := rec.owner;
    forall x
      ensures Stranded(z, usage, [], apex, d, x) <==> Stranded(z, db.usage, rec.refs, apex, d, x)
    {
      if !Within(z, x) {
        OnlyOwnData(db.records, i, x);
        KeptBefore(db, rec.refs, usage, x, d);
      }
    }
    forall x
      ensures x in StrandedOf(z, usage, [], apex, d) <==> x in StrandedOf(z, db.usage, rec.refs, apex, d)
    {
      StrandedOfHas(z, usage, [], apex, d, x);
      StrandedOfHas(z, db.usage, rec.refs, apex, d, x);
    }
  }

  /** Where nothing is left at or below a domain, only the record itself was there. */
  lemma OnlyOwnData(records: seq<Rec>, i: nat, x: Name)
    requires i < |records| && !Within(RRsetsOf(TakenOut(records, i)), x)
    ensures forall n :: x <= n && n != records[i].owner ==> !HasData(records, n)
  {
    var z := RRsetsOf(TakenOut(records, i));
    RRsetsLess(records, i);
    forall n | x <= n && n != records[i].owner
      ensures !HasData(records, n)
    {
      DataAt(records, n);
    }
  }

  /** The triggers for a deleted RRset, name by name. */
  lemma DeletedInTrees(db: Db, db1: Db, db': Db, apex: Name, d: Name, t: nat, stop: Name, tr: Trees, x: Name)
    requires Core(db) && Core(db1) && Core(db') && Pruned(db1, db', d, stop) && db1.usage.Keys == db.usage.Keys
    requires tr.hashed <= db.usage.Keys && tr.ds == ToHashDs(db, apex)
    ensures var tr' := Dropping(AfterDelete(tr, RightTrees(db1, apex), d, Below(db1, d), t),
                               db1.usage.Keys - db'.usage.Keys);
            var z' := RRsetsOf(db1.records);
            && (x in tr'.hashed <==>
                  RemovedIn(d, t, x, x in tr.hashed, CondHash(z', apex, x)) && !(stop < x && x <= d))
            && (x in tr'.ds <==> RemovedIn(d, t, x, x in tr.ds, CondDs(z', apex, x)) && !(stop < x && x <= d))
  {
    var z', in' := RRsetsOf(db1.records), x in db1.usage;
    assert x in db1.usage.Keys - db'.usage.Keys <==> in' && stop < x && x <= d;
    DeletedInOne(x, d, t, tr, RightTrees(db1, apex), Below(db1, d), in' && d < x);
    ToHashHas(db1, apex, x);
    ToHashHas(db, apex, x);
  }

  /** Where `AfterDelete` has one name. */
  lemma DeletedInOne(x: Name, d: Name, t: nat, tr: Trees, c: Trees, b: set<Name>, below: bool)
    requires (x in b <==> below) && (below ==> d < x)
    ensures var tr' := AfterDelete(tr, c, d, b, t);
            && (x in tr'.hashed <==> DeletedWhere(x == d, below, t, x in tr.hashed, x in c.hashed))
            && (x in tr'.ds <==> DeletedWhere(x == d, below, t, x in tr.ds, x in c.ds))
  {
  }

  predicate DeletedWhere(at: bool, below: bool, t: nat, was: bool, c: bool)
  {
    if at then (was && c) || ((AtCut(t) || t == TYPE_NSEC3) && c)
    else if below && Obscures(t) then was || c
    else was
  }

  /** A deleted domain has no data at or below it. */
  lemma FreeNotWithin(db: Db, db': Db, d: Name, stop: Name)
    requires Core(db) && Core(db') && Pruned(db, db', d, stop)
    ensures forall x :: stop < x && x <= d ==> !Within(RRsetsOf(db.records), x)
  {
    forall x | stop < x && x <= d
      ensures !Within(RRsetsOf(db.records), x)
    {
      RRsetsWithin(db'.records, x);
      if x !in db'.usage { NoDataAtNew(db', x); }
    }
  }

  // -------------------------------------------------------------------- the records

  /** The first record of an RRset is always added. */
  lemma FirstIsNew(records: seq<Rec>, rec: Rec)
    requires !HasRRset(records, rec.owner, rec.rrset)
    ensures AdditionOf(records, rec).NewRecord?
  {
    if CountRRset(records, rec.owner, rec.rrset) > 0 {
      CountedIsThere(records, rec.owner, rec.rrset);
    }
  }

  /** The RRsets after add_RR. */
  lemma RRsetsAfter(records: seq<Rec>, rec: Rec, records': seq<Rec>)
    requires records' == if AdditionOf(records, rec).NewRecord? then records + [rec] else records
    ensures var z, x := RRsetsOf(records), (rec.owner, rec.rrset);
            && RRsetsOf(records') == (if x in z then z else z + {x})
            && (x !in z ==> AdditionOf(records, rec).NewRecord?)
  {
    RRsetsHave(records, rec.owner, rec.rrset);
    RRsetsMore(records, rec);
    if !HasRRset(records, rec.owner, rec.rrset) { FirstIsNew(records, rec); }
  }

  lemma ZoneMore(z: RRsets, apex: Name, d: Name, t: nat)
    requires ZoneOk(z, apex) && apex <= d && (t == ZoneData.TYPE_SOA ==> d == apex)
    ensures ZoneOk(z, apex) && ZoneOk(z + {(d, t)}, apex)
  {
    var x :| x in z && x.0 == apex;
    assert x in z + {(d, t)};
  }

  /** The names after place `i` and before `k` are below the one at `i`. */
  ghost predicate AllBelow(names: seq<Name>, i: nat, k: nat)
    requires i < k <= |names|
  {
    forall j {:trigger names[j]} :: i < j < k ==> names[i] < names[j]
  }

  lemma BelowMore(names: seq<Name>, i: nat, k: nat)
    requires Sorted(names) && i < k < |names| && AllBelow(names, i, k) && names[i] <= names[k]
    ensures AllBelow(names, i, k + 1)
  {
    NotAfter(names, i, k);
  }

  /** The last name not after a name of the table is that name. */
  lemma FoundAt(names: seq<Name>, d: Name, i: nat)
    requires TableOk(names) && d in names && i < |names| && NameLeq(names[i], d)
    requires forall j :: 0 <= j < |names| && NameLeq(names[j], d) ==> j <= i
    ensures names[i] == d
  {
    var j :| 0 <= j < |names| && names[j] == d;
    if j < i { NotAfter(names, j, i); }
  }

  /** The names at the places after `i` and before `k`. */
  ghost function Between(names: seq<Name>, i: nat, k: nat): set<Name>
    requires k <= |names|
  {
    set j | i < j < k :: names[j]
  }

  lemma BetweenMore(names: seq<Name>, i: nat, k: nat)
    requires i < k < |names|
    ensures Between(names, i, k + 1) == Between(names, i, k) + {names[k]}
  {
  }

  /** The domains below are those from the next place on, up to the first that is not below. */
  lemma BelowIsRange(names: seq<Name>, all: set<Name>, i: nat, k: nat)
    requires TableOk(names) && (forall n :: n in names <==> n in all) && i < k <= |names|
    requires AllBelow(names, i, k) && (k < |names| ==> !(names[i] <= names[k]))
    ensures Between(names, i, k) == set n | n in all && names[i] < n
  {
    var s := set n | n in all && names[i] < n;
    forall x | x in s
      ensures x in Between(names, i, k)
    {
      assert x in names;
      var j :| 0 <= j < |names| && names[j] == x;
      BelowBehind(names, i, j, k);
    }
    forall x | x in Between(names, i, k)
      ensures x in s
    {
      var j :| i < j < k && names[j] == x;
      assert names[j] in names;
    }
  }

  /** Strictly between the apex and `d`, with no RRset from there down to `d`. */
  ghost predicate Above(z: RRsets, apex: Name, x: Name, d: Name)
  {
    apex < x && x < d && EmptyBetween(z, x, d)
  }

  ghost function AboveFrom(db: Db, apex: Name, d: Name, p: Name): set<Name>
  {
    set n | n in db.usage && p <= n && Above(RRsetsOf(db.records), apex, n, d)
  }

  lemma OneMoreAbove(db: Db, apex: Name, d: Name, p: Name)
    requires apex <= p && p <= d && p != apex && Parent(p) in db.usage
    requires Above(RRsetsOf(db.records), apex, Parent(p), d)
    requires forall x :: x != Parent(p) && Parent(p) <= x && Above(RRsetsOf(db.records), apex, x, d) ==> p <= x
    ensures AboveFrom(db, apex, d, Parent(p)) == AboveFrom(db, apex, d, p) + {Parent(p)}
  {
    assert Parent(p) <= p;
  }

  lemma AllAboveFrom(db: Db, apex: Name, d: Name, p: Name)
    requires apex <= p && p <= d && (p == apex || Parent(p) == apex || HasData(db.records, Parent(p)))
    ensures AboveFrom(db, apex, d, p) == EmptyAboveOf(db, apex, d)
  {
    forall x | Above(RRsetsOf(db.records), apex, x, d)
      ensures p <= x
    {
      AboveAll(db.records, apex, p, x, d);
    }
  }

  lemma AboveMore(records: seq<Rec>, apex: Name, p: Name, d: Name)
    requires apex <= p && p <= d && p != apex && Parent(p) != apex && !HasData(records, Parent(p))
    requires p == d || Above(RRsetsOf(records), apex, p, d)
    ensures Above(RRsetsOf(records), apex, Parent(p), d)
    ensures forall x :: x != Parent(p) && Parent(p) <= x && Above(RRsetsOf(records), apex, x, d) ==> p <= x
  {
    var z, q := RRsetsOf(records), Parent(p);
    PrefixOfParent(apex, p);
    DataAt(records, q);
    forall y | y in z && q <= y.0
      ensures !(y.0 < d)
    {
      if y.0 < d { OneDown(p, y.0, d); }
    }
    forall x | x != q && q <= x && Above(z, apex, x, d)
      ensures p <= x
    {
      OneDown(p, x, d);
    }
  }

  /** On the way down to `d`, what is at or below the parent of `p` is the parent or at or below `p`. */
  lemma OneDown(p: Name, x: Name, d: Name)
    requires p <= d && x <= d && p != [] && Parent(p) <= x
    ensures x == Parent(p) || p <= x
  {
    PrefixesOrdered(p, x, d);
    if x < p { PrefixOfParent(x, p); }
  }

  lemma DataAt(records: seq<Rec>, n: Name)
    ensures HasData(records, n) <==> exists y :: y in RRsetsOf(records) && y.0 == n
  {
    if HasData(records, n) {
      var i :| 0 <= i < |records| && records[i].owner == n;
      assert (records[i].owner, records[i].rrset) in RRsetsOf(records);
    }
  }

  /** Where the walk up ends, nothing more is empty. */
  lemma AboveAll(records: seq<Rec>, apex: Name, p: Name, x: Name, d: Name)
    requires apex <= p && p <= d && (p == apex || Parent(p) == apex || HasData(records, Parent(p)))
    ensures Above(RRsetsOf(records), apex, x, d) ==> p <= x
  {
    if Above(RRsetsOf(records), apex, x, d) && p != apex {
      DataAt(records, Parent(p));
      PrefixesOrdered(p, x, d);
      if x < p { PrefixOfParent(x, p); }
    }
  }

  lemma RRsetNext(records: seq<Rec>, i: nat, n: Name)
    requires i < |records|
    ensures HasRRset(records[..i + 1], n, TYPE_NSEC3)
            <==> HasRRset(records[..i], n, TYPE_NSEC3) || (records[i].owner == n && records[i].rrset == TYPE_NSEC3)
  {
    var a, b := records[..i], records[..i + 1];
    if HasRRset(a, n, TYPE_NSEC3) {
      var k :| 0 <= k < |a| && a[k].owner == n && a[k].rrset == TYPE_NSEC3;
      assert b[k] == a[k];
    }
    if HasRRset(b, n, TYPE_NSEC3) {
      var k :| 0 <= k < |b| && b[k].owner == n && b[k].rrset == TYPE_NSEC3;
      assert k < i ==> a[k] == b[k];
    }
    assert b[i] == records[i];
  }

  // -------------------------------------------------------------------- the log

  /** What the triggers did to the trees is logged; the log tells for each name whether it is in them. */
  ghost predicate Logged(dom: Name -> Nsec3.Domain, h0: set<Name>, d0: set<Name>, h: set<Name>, d: set<Name>,
                         log: seq<Nsec3.Event>)
  {
    forall n {:trigger LoggedAt(dom, h0, d0, h, d, log, n)} :: LoggedAt(dom, h0, d0, h, d, log, n)
  }

  ghost predicate LoggedAt(dom: Name -> Nsec3.Domain, h0: set<Name>, d0: set<Name>, h: set<Name>, d: set<Name>,
                           log: seq<Nsec3.Event>, n: Name)
  {
    && (forall m {:trigger dom(m)} :: dom(m) == dom(n) ==> m == n)
    && (n in h <==> Nsec3.HashedAfter(n in h0, dom(n), log))
    && (n in d <==> Nsec3.DsAfter(n in d0, dom(n), log))
  }

  ghost predicate Injective(dom: Name -> Nsec3.Domain)
  {
    forall a, b {:trigger dom(a), dom(b)} :: dom(a) == dom(b) ==> a == b
  }

  lemma LogMore(dom: Name -> Nsec3.Domain, h0: set<Name>, d0: set<Name>, h: set<Name>, d: set<Name>,
                log: seq<Nsec3.Event>, e: Nsec3.Event, h': set<Name>, d': set<Name>)
    requires Logged(dom, h0, d0, h, d, log)
    requires forall n {:trigger n in h'} :: n in h' <==> Nsec3.HashedStep(n in h, dom(n), e)
    requires forall n {:trigger n in d'} :: n in d' <==> Nsec3.DsStep(n in d, dom(n), e)
    ensures Logged(dom, h0, d0, h', d', log + [e])
  {
    var l := log + [e];
    assert l[..|l| - 1] == log && l[|l| - 1] == e;
    forall n
      ensures LoggedAt(dom, h0, d0, h', d', l, n)
    {
      assert LoggedAt(dom, h0, d0, h, d, log, n);
    }
  }

  /** The names that are hashed, and those hashed for their DS at the parent side. */
  datatype Trees = Trees(hashed: set<Name>, ds: set<Name>)

  type Log = seq<Nsec3.Event>

  class HashedTable {
    const table: Table
    const apex: Name
    var trees: Trees
    const dom: Name -> Nsec3.Domain
    ghost const trees0: Trees
    ghost var log: Log

    ghost function Z(): RRsets
      reads table`records
    {
      RRsetsOf(table.records)
    }

    /** The names that meet the conditions. */
    ghost function C(): set<Name>
      reads table`usage, table`names, table`existing, table`records, table`counted
    {
      ToHash(table.View(), apex)
    }

    ghost function D(): set<Name>
      reads table`usage, table`names, table`existing, table`records, table`counted
    {
      ToHashDs(table.View(), apex)
    }

    /** The log tells which names are in the trees. */
    ghost predicate Tracked(tr: Trees, l: Log)
    {
      Logged(dom, trees0.hashed, trees0.ds, tr.hashed, tr.ds, l)
    }

    /** The existence flags are right, and the names are those of the table. */
    ghost predicate Flags()
      reads table`names, table`usage, table`existing, table`records
    {
      && TableOk(table.names) && (forall n :: n in table.names <==> n in table.usage)
      && table.usage.Keys == table.existing.Keys
      && forall n {:trigger table.existing[n]} :: n in table.usage ==>
           (table.existing[n] <==> DataWithin(table.records, n))
    }

    /** The table and the zone are in order, and so is the log of the trees; they have all names that meet the
        conditions, and none that is not in the table or below a delegation. */
    ghost predicate Valid()
      reads this, table, table.numlist
    {
      Sound() && Tracked(trees, log) && Covers(table.View(), apex, trees)
    }

    ghost predicate Sound()
      reads table, table.numlist
    {
      table.Valid() && table.View() in Zones(apex)
    }

    /** The trees have exactly the names that meet the conditions. */
    ghost predicate Right()
      reads this, table`usage, table`names, table`existing, table`records, table`counted
    {
      trees == RightTrees(table.View(), apex)
    }

    /** The zone of `table` at `apex`, with names that are hashed already, or none. */
    constructor (table: Table, apex: Name, trees: Trees, dom: Name -> Nsec3.Domain)
      requires Injective(dom)
      ensures this.table == table && this.apex == apex && this.dom == dom && log == []
      ensures this.trees == trees == trees0 && Tracked(trees, log)
    {
      this.table, this.apex, this.dom := table, apex, dom;
      this.trees, this.trees0, this.log := trees, trees, [];
      new;
      assert forall n :: LoggedAt(dom, trees.hashed, trees.ds, trees.hashed, trees.ds, [], n);
    }

    // ------------------------------------------------------------------ the conditions

    /** domain_has_only_NSEC3 */
    method HasOnlyNsec3(n: Name) returns (r: bool)
      ensures r <==> OnlyNsec3(Z(), n)
    {
      var seen, i := false, 0;
      while i < |table.records|
        invariant 0 <= i <= |table.records|
        invariant seen <==> HasRRset(table.records[..i], n, TYPE_NSEC3)
        invariant forall k :: 0 <= k < i && table.records[k].owner == n ==>
                    table.records[k].rrset == TYPE_NSEC3 || table.records[k].rrset == TYPE_RRSIG
      {
        var rec := table.records[i];
        if rec.owner == n {
          if rec.rrset == TYPE_NSEC3 {
            seen := true;
          } else if rec.rrset != TYPE_RRSIG {
            assert (rec.owner, rec.rrset) in Z();
            return false;
          }
        }
        RRsetNext(table.records, i, n);
        i := i + 1;
      }
      assert table.records[..i] == table.records;
      RRsetsHave(table.records, n, TYPE_NSEC3);
      r := seen;
    }

    /** domain_find_ns_rrsets */
    method FindNs(n: Name) returns (m: Option<Name>)
      ensures m == NsDomain(Z(), apex, n)
    {
      var d := n;
      while d != apex
        invariant NsDomain(Z(), apex, n) == NsDomain(Z(), apex, d)
        decreases |d|
      {
        RRsetsHave(table.records, d, TYPE_NS);
        if HasRRset(table.records, d, TYPE_NS) { return Some(d); }
        if d == [] { return None; }
        d := Parent(d);
      }
      m := None;
    }

    /** nsec3_condition_hash */
    method MeetsHash(n: Name) returns (r: bool)
      requires Flags() && n in table.usage && apex <= n
      ensures r <==> n in C()
    {
      RRsetsWithin(table.records, n);
      HashedOfHas(Z(), apex, table.names, n);
      var only := HasOnlyNsec3(n);
      var ns := FindNs(n);
      if ns.Some? { RRsetsHave(table.records, ns.value, ZoneData.TYPE_SOA); }
      var glue := ns.Some? && !HasRRset(table.records, ns.value, ZoneData.TYPE_SOA);
      r := table.existing[n] && !only && !glue;
    }

    /** nsec3_condition_dshash */
    method MeetsDs(n: Name) returns (r: bool)
      requires Flags() && n in table.usage
      ensures r <==> n in D()
    {
      RRsetsWithin(table.records, n);
      HashedOfHas(Z(), apex, table.names, n);
      var only := HasOnlyNsec3(n);
      RRsetsHave(table.records, n, TYPE_DS);
      RRsetsHave(table.records, n, TYPE_NS);
      var cut := HasRRset(table.records, n, TYPE_DS) || HasRRset(table.records, n, TYPE_NS);
      r := table.existing[n] && !only && cut && n != apex;
    }

    // ------------------------------------------------------------------ one name

    /** nsec3_rrsets_changed_add_prehash */
    method ChangedAdd(n: Name, tr: Trees, ghost l: Log) returns (tr': Trees, ghost l': Log)
      requires Flags() && Tracked(tr, l) && n in table.usage && apex <= n
      ensures Tracked(tr', l') && tr' == Trees(tr.hashed + {n} * C(), tr.ds + {n} * D())
    {
      var c := MeetsHash(n);
      var cd := MeetsDs(n);
      assert {n} * C() == (if c then {n} else {}) && {n} * D() == (if cd then {n} else {});
      tr' := Trees(if c then tr.hashed + {n} else tr.hashed, if cd then tr.ds + {n} else tr.ds);
      assert LoggedAt(dom, trees0.hashed, trees0.ds, tr.hashed, tr.ds, l, n);
      ghost var e := Nsec3.RrsetsAdded(dom(n), c, cd);
      l' := l + [e];
      LogMore(dom, trees0.hashed, trees0.ds, tr.hashed, tr.ds, l, e, tr'.hashed, tr'.ds);
    }

    /** nsec3_rrsets_changed_remove_prehash */
    method ChangedRemove(n: Name, tr: Trees, ghost l: Log) returns (tr': Trees, ghost l': Log)
      requires Flags() && Tracked(tr, l) && n in table.usage && apex <= n
      ensures Tracked(tr', l') && tr' == Trees(tr.hashed - ({n} - C()), tr.ds - ({n} - D()))
    {
      var c := MeetsHash(n);
      var cd := MeetsDs(n);
      assert {n} - C() == (if c then {} else {n}) && {n} - D() == (if cd then {} else {n});
      tr', l' := Leave(n, c, cd, tr, l);
    }

    method Leave(n: Name, c: bool, cd: bool, tr: Trees, ghost l: Log) returns (tr': Trees, ghost l': Log)
      requires Tracked(tr, l)
      ensures Tracked(tr', l')
      ensures tr' == Trees(tr.hashed - (if c then {} else {n}), tr.ds - (if cd then {} else {n}))
    {
      tr' := Trees(if c then tr.hashed else tr.hashed - {n}, if cd then tr.ds else tr.ds - {n});
      assert LoggedAt(dom, trees0.hashed, trees0.ds, tr.hashed, tr.ds, l, n);
      ghost var e := Nsec3.RrsetsRemoved(dom(n), c, cd);
      l' := l + [e];
      LogMore(dom, trees0.hashed, trees0.ds, tr.hashed, tr.ds, l, e, tr'.hashed, tr'.ds);
    }

    // ------------------------------------------------------------------ the walks

    method LookAt(n: Name, adding: bool, tr: Trees, ghost l: Log) returns (tr': Trees, ghost l': Log)
      requires Flags() && Tracked(tr, l) && n in table.usage && apex <= n
      ensures Tracked(tr', l') && tr' == Looked(tr, RightTrees(table.View(), apex), {n}, adding)
    {
      if adding { tr', l' := ChangedAdd(n, tr, l); } else { tr', l' := ChangedRemove(n, tr, l); }
    }

    /** The walk over the domains below `d`, to add names or to remove them. */
    method LookBelow(d: Name, adding: bool, tr: Trees, ghost l: Log) returns (tr': Trees, ghost l': Log)
      requires Flags() && Tracked(tr, l) && d in table.usage && apex <= d
      ensures Tracked(tr', l') && tr' == Looked(tr, RightTrees(table.View(), apex), Below(table.View(), d), adding)
    {
      var i := FindLessEqual(table.names, d);
      FoundAt(table.names, d, i);
      ghost var c, b := RightTrees(table.View(), apex), {};
      tr', l' := tr, l;
      var k := i + 1;
      while k < |table.names| && table.names[i] <= table.names[k]
        invariant i < k <= |table.names| && Tracked(tr', l') && AllBelow(table.names, i, k)
        invariant b == Between(table.names, i, k) && tr' == Looked(tr, c, b, adding)
      {
        var n := table.names[k];
        BelowMore(table.names, i, k);
        assert n in table.names;
        tr', l' := LookAt(n, adding, tr', l');
        OneMoreName(tr, c, b, n);
        BetweenMore(table.names, i, k);
        b := b + {n};
        k := k + 1;
      }
      BelowIsRange(table.names, table.usage.Keys, i, k);
      assert b == Below(table.View(), d);
    }

    /** The walk up over the empty domains above a new RRset; no domain above the apex meets the conditions. */
    method LookAbove(d: Name, tr: Trees, ghost l: Log) returns (tr': Trees, ghost l': Log)
      requires Flags() && Tracked(tr, l) && d in table.usage && apex <= d
      ensures Tracked(tr', l')
      ensures tr' == Looked(tr, RightTrees(table.View(), apex), EmptyAboveOf(table.View(), apex, d), true)
    {
      var p := d;
      ghost var c, a := RightTrees(table.View(), apex), {};
      tr', l' := tr, l;
      while p != apex && Parent(p) != apex && !HasData(table.records, Parent(p))
        invariant apex <= p && p <= d && p in table.usage && Tracked(tr', l')
        invariant p == d || Above(Z(), apex, p, d)
        invariant a == AboveFrom(table.View(), apex, d, p) && tr' == Looked(tr, c, a, true)
        decreases |p|
      {
        PrefixOfParent(apex, p);
        AboveMore(table.records, apex, p, d);
        assert Parent(p) in table.names;
        OneMoreAbove(table.View(), apex, d, p);
        tr', l' := LookAt(Parent(p), true, tr', l');
        OneMoreName(tr, c, a, Parent(p));
        a := a + {Parent(p)};
        p := Parent(p);
      }
      AllAboveFrom(table.View(), apex, d, p);
    }

    // ------------------------------------------------------------------ the triggers

    /** An NSEC3 joins the chain in use, or leaves it: the hashed names do not change. */
    lemma NoteChain(e: Nsec3.Event, tr: Trees, l: Log)
      requires Tracked(tr, l) && (e.AddNsec3? || e.DelNsec3?)
      ensures Tracked(tr, l + [e])
    {
      LogMore(dom, trees0.hashed, trees0.ds, tr.hashed, tr.ds, l, e, tr.hashed, tr.ds);
    }

    /** The triggers for the first record of an RRset, nsec3_add_rrset_trigger among them. */
    method FirstOfRRset(d: Name, t: nat, joins: bool, tr: Trees, ghost l: Log) returns (tr': Trees, ghost l': Log)
      requires Flags() && Tracked(tr, l) && d in table.usage && apex <= d
      ensures Tracked(tr', l')
      ensures tr' == AfterAdd(tr, RightTrees(table.View(), apex), d, Below(table.View(), d),
                              EmptyAboveOf(table.View(), apex, d), t, joins)
    {
      tr', l' := LookAt(d, true, tr, l);
      if AtCut(t) { tr', l' := LookAt(d, false, tr', l'); }
      if Obscures(t) { tr', l' := LookBelow(d, false, tr', l'); }
      tr', l' := LookAbove(d, tr', l');
      if joins { tr', l' := Joining(d, tr', l'); }
    }

    /** nsec3_add_rr_trigger for an NSEC3 that joins the chain in use. */
    method Joining(d: Name, tr: Trees, ghost l: Log) returns (tr': Trees, ghost l': Log)
      requires Flags() && Tracked(tr, l) && d in table.usage && apex <= d
      ensures Tracked(tr', l') && tr' == Looked(tr, RightTrees(table.View(), apex), {d}, false)
    {
      NoteChain(Nsec3.AddNsec3(dom(d)), tr, l);
      tr', l' := LookAt(d, false, tr, l + [Nsec3.AddNsec3(dom(d))]);
    }

    /** nsec3_delete_rrset_trigger */
    method DeleteRRsetTrigger(d: Name, t: nat, tr: Trees, ghost l: Log) returns (tr': Trees, ghost l': Log)
      requires Flags() && Tracked(tr, l) && d in table.usage && apex <= d
      ensures Tracked(tr', l') && tr' == AfterDelete(tr, RightTrees(table.View(), apex), d, Below(table.View(), d), t)
    {
      tr', l' := LookAt(d, false, tr, l);
      if AtCut(t) || t == TYPE_NSEC3 { tr', l' := LookAt(d, true, tr', l'); }
      if Obscures(t) { tr', l' := LookBelow(d, true, tr', l'); }
    }

    /** The names from `d` up that are not in the table any more: a deleted domain takes its hash nodes out of the
        trees. */
    method Forget(d: Name, tr: Trees, ghost l: Log) returns (tr': Trees, ghost l': Log)
      requires Tracked(tr, l) && Core(table.View())
      ensures Tracked(tr', l') && tr' == Dropping(tr, Absent(d, table.usage))
    {
      var k := |d|;
      ghost var gone: set<Name> := {};
      assert d[..k] == d && d[..0] == [];
      tr', l' := tr, l;
      while d[..k] !in table.usage
        invariant 0 <= k <= |d| && Tracked(tr', l')
        invariant gone == Lengths(d, k) && tr' == Dropping(tr, gone)
        invariant forall j :: k < j <= |d| ==> d[..j] !in table.usage
        decreases k
      {
        tr', l' := Leave(d[..k], false, false, tr', l');
        gone := gone + {d[..k]};
        LengthsMore(d, k);
        k := k - 1;
      }
      AbsentIsLengths(table.View(), d, k);
    }

    /** The domains that went with the references `refs`. */
    method ForgetAll(refs: seq<Name>, ghost db: Db, tr: Trees, ghost l: Log) returns (tr': Trees, ghost l': Log)
      requires Tracked(tr, l) && Core(table.View()) && Core(db) && GivenUp(db, refs, table.usage)
      requires forall r :: r in refs ==> r in db.usage
      ensures Tracked(tr', l') && tr' == Dropping(tr, db.usage.Keys - table.usage.Keys)
    {
      ghost var gone: set<Name> := {};
      var k := 0;
      tr', l' := tr, l;
      while k < |refs|
        invariant 0 <= k <= |refs| && Tracked(tr', l') && tr' == Dropping(tr, gone)
        invariant gone == AbsentAll(refs, k, table.usage)
      {
        tr', l' := Forget(refs[k], tr', l');
        gone := gone + Absent(refs[k], table.usage);
        AbsentMore(refs, k, table.usage);
        k := k + 1;
      }
      AbsentIsGone(db, refs, table.usage);
    }

    // ------------------------------------------------------------------ one record more

    /** add_RR with its triggers; `joins` tells whether the record is an NSEC3 that joins the chain in use.  Of the
        names that are hashed although they do not meet the condition, those at which the triggers look go, and the
        owner of an NSEC3 of another chain comes, if it was hashed and has nothing but signatures. */
    method AddRR(rec: Rec, joins: bool) returns (r: Addition)
      requires Valid() && apex <= rec.owner && (joins ==> rec.rrset == TYPE_NSEC3)
      requires rec.rrset == ZoneData.TYPE_SOA ==> rec.owner == apex
      modifies this`trees, this`log
      modifies table`names, table`usage, table`existing, table`records, table`counted, table.numlist
      ensures Valid()
      ensures r == AdditionOf(old(table.records), rec)
              && table.records == if r.NewRecord? then old(table.records) + [rec] else old(table.records)
      ensures AddedTo(old(table.View()), table.View(), apex, rec.owner, rec.rrset,
                      (rec.owner, rec.rrset) !in old(Z()), joins && r.NewRecord?, old(trees), trees)
      ensures old(Right()) ==> (Right() <==> !OtherChain(old(Z()), rec.owner, rec.rrset, joins, old(trees.hashed)))
    {
      ghost var db, was := table.View(), trees;
      var tr'; ghost var l';
      r, tr', l' := AddWith(rec, joins, trees, log);
      Keep(tr', l');
      if was == RightTrees(db, apex) { AddedRightly(db, table.View(), apex, rec, joins, r, was, trees); }
    }

    method Keep(tr: Trees, ghost l: Log)
      requires Sound() && Tracked(tr, l) && Covers(table.View(), apex, tr)
      modifies this`trees, this`log
      ensures Valid() && trees == tr && table.View() == old(table.View())
    {
      Store(tr, l);
    }

    method Store(tr: Trees, ghost l: Log)
      modifies this`trees, this`log
      ensures trees == tr && log == l && unchanged(table, table.numlist)
    {
      trees, log := tr, l;
    }

    method AddWith(rec: Rec, joins: bool, tr: Trees, ghost l: Log) returns (r: Addition, tr': Trees, ghost l': Log)
      requires Sound() && Tracked(tr, l) && Covers(table.View(), apex, tr)
      requires apex <= rec.owner && (joins ==> rec.rrset == TYPE_NSEC3)
      requires rec.rrset == ZoneData.TYPE_SOA ==> rec.owner == apex
      modifies table`names, table`usage, table`existing, table`records, table`counted, table.numlist
      ensures Sound() && Tracked(tr', l')
      ensures r == AdditionOf(old(table.records), rec)
              && table.records == if r.NewRecord? then old(table.records) + [rec] else old(table.records)
      ensures AddedTo(old(table.View()), table.View(), apex, rec.owner, rec.rrset,
                      (rec.owner, rec.rrset) !in old(Z()), joins && r.NewRecord?, tr, tr')
    {
      ghost var db := table.View();
      RRsetsHave(table.records, rec.owner, rec.rrset);
      var first := !HasRRset(table.records, rec.owner, rec.rrset);
      r := StoreRecord(rec);
      label Stored:
      tr', l' := AddTriggers(rec, joins, first, r, db, tr, l);
      assert unchanged@Stored(table, table.numlist);
    }

    method StoreRecord(rec: Rec) returns (r: Addition)
      requires Sound() && apex <= rec.owner && (rec.rrset == ZoneData.TYPE_SOA ==> rec.owner == apex)
      modifies table`names, table`usage, table`existing, table`records, table`counted, table.numlist
      ensures Sound() && rec.owner in table.usage && old(table.usage).Keys <= table.usage.Keys
      ensures r == AdditionOf(old(table.records), rec)
              && table.records == if r.NewRecord? then old(table.records) + [rec] else old(table.records)
    {
      ghost var z, records := Z(), table.records;
      r := table.AddRR(rec);
      RRsetsAfter(records, rec, table.records);
      ZoneMore(z, apex, rec.owner, rec.rrset);
    }

    /** The triggers of add_RR; `db` is the table as it was. */
    method AddTriggers(rec: Rec, joins: bool, first: bool, r: Addition, ghost db: Db, tr: Trees, ghost l: Log)
      returns (tr': Trees, ghost l': Log)
      requires Tracked(tr, l) && db in Zones(apex) && table.View() in Zones(apex)
      requires rec.owner in table.usage && apex <= rec.owner && (joins ==> rec.rrset == TYPE_NSEC3)
      requires first == !HasRRset(db.records, rec.owner, rec.rrset) && r == AdditionOf(db.records, rec)
      requires table.records == if r.NewRecord? then db.records + [rec] else db.records
      requires Covers(db, apex, tr) && db.usage.Keys <= table.usage.Keys
      ensures Tracked(tr', l')
      ensures AddedTo(db, table.View(), apex, rec.owner, rec.rrset, first, joins && r.NewRecord?, tr, tr')
    {
      var d, t := rec.owner, rec.rrset;
      RRsetsHave(db.records, d, t);
      RRsetsAfter(db.records, rec, table.records);
      if first {
        tr', l' := FirstOfRRset(d, t, joins, tr, l);
        AddKeeps(db, table.View(), apex, d, t, joins, tr);
      } else {
        var joined := joins && r.NewRecord?;
        tr', l' := tr, l;
        if joined { tr', l' := Joining(d, tr, l); }
        MoreOfRRset(db, table.View(), apex, d, t, joined, tr, tr');
      }
    }

    // ------------------------------------------------------------------ one record less

    /** delete_RR with its triggers, for a record whose zone keeps data at its apex; `leaves` tells whether it is the
        NSEC3 by which its owner is in the chain in use.  Of the names that are hashed although they do not meet the
        condition, the owner goes with its RRset, deleted domains go, and the domains come that are stranded. */
    method DeleteRR(i: nat, leaves: bool)
      requires Valid() && i < |table.records| && HasData(TakenOut(table.records, i), apex)
      modifies this`trees, this`log
      modifies table`names, table`usage, table`existing, table`records, table`counted, table.numlist
      ensures Valid() && table.records == TakenOut(old(table.records), i)
      ensures var rec := old(table.records)[i];
              DeletedTo(old(table.View()), table.View(), apex, rec.owner, (rec.owner, rec.rrset) !in Z(),
                        StrandedOf(Z(), old(table.usage), rec.refs, apex, rec.owner), old(trees), trees)
      ensures var rec := old(table.records)[i];
              old(Right()) ==> (Right() <==> !Strands(Z(), old(table.usage), rec.refs, apex, rec.owner))
    {
      ghost var db, rec, was := table.View(), table.records[i], trees;
      ghost var e := Nsec3.DelNsec3(dom(rec.owner));
      NoteChain(e, trees, log);
      var tr'; ghost var l';
      tr', l' := TakeRecord(i, trees, if leaves then log + [e] else log);
      Keep(tr', l');
      if was == RightTrees(db, apex) {
        DeletedToRight(db, table.View(), apex, rec.owner, (rec.owner, rec.rrset) !in Z(), Z(), db.usage, rec.refs,
                       was, trees);
      }
    }

    method TakeRecord(i: nat, tr: Trees, ghost l: Log) returns (tr': Trees, ghost l': Log)
      requires Sound() && i < |table.records| && HasData(TakenOut(table.records, i), apex)
      requires Tracked(tr, l) && Covers(table.View(), apex, tr)
      modifies table`names, table`usage, table`existing, table`records, table`counted, table.numlist
      ensures Sound() && table.records == TakenOut(old(table.records), i) && Tracked(tr', l')
      ensures var rec := old(table.records)[i];
              DeletedTo(old(table.View()), table.View(), apex, rec.owner, (rec.owner, rec.rrset) !in Z(),
                        StrandedOf(Z(), old(table.usage), rec.refs, apex, rec.owner), tr, tr')
    {
      ghost var db := table.View();
      tr', l' := GiveUp(i, tr, l);
      ghost var db1, tr1 := table.View(), tr';
      tr', l' := CutRecord(i, tr', l');
      DeletedInTwo(db, db1, table.View(), apex, i, tr, tr1, tr');
    }

    /** The references of the record are given up; the domains that go then leave the trees. */
    method GiveUp(i: nat, tr: Trees, ghost l: Log) returns (tr': Trees, ghost l': Log)
      requires Sound() && i < |table.records| && Tracked(tr, l) && Covers(table.View(), apex, tr)
      modifies table`names, table`usage, table`existing, table`counted, table.numlist
      ensures table.Right() && table.View() in Zones(apex) && Tracked(tr', l')
      ensures table.records == old(table.records) && table.apexes == old(table.apexes)
      ensures RefsGivenUp(old(table.View()), table.View(), apex, i, tr, tr')
      ensures Complete(table.counted, TakenOut(table.records, i), table.apexes)
    {
      ghost var base := CompleteLess(table.counted, table.records, table.apexes, i);
      ghost var db := table.View();
      EnoughUsage(db, table.records[i].refs, base);
      table.UnreferAll(table.records[i].refs, base);
      label Given:
      tr', l' := ForgetRefs(i, db, tr, l);
      assert unchanged@Given(table, table.numlist);
    }

    /** The domains that went with the references of record `i` leave the trees. */
    method ForgetRefs(i: nat, ghost db: Db, tr: Trees, ghost l: Log) returns (tr': Trees, ghost l': Log)
      requires Core(db) && i < |db.records| && Tracked(tr, l) && Covers(db, apex, tr)
      requires Core(table.View()) && table.records == db.records && GivenUp(db, db.records[i].refs, table.usage)
      requires forall n :: n in db.usage ==> db.usage[n] >= multiset(db.records[i].refs)[n]
      requires forall r :: r in db.records[i].refs ==> r in db.usage
      ensures Tracked(tr', l') && RefsGivenUp(db, table.View(), apex, i, tr, tr')
    {
      tr', l' := ForgetAll(table.records[i].refs, db, tr, l);
      GivenUpKeys(db, db.records[i].refs, table.usage);
      ForgottenCovers(db, table.View(), apex, tr, tr');
    }

    /** The record itself, when its references have been given up. */
    method CutRecord(i: nat, tr: Trees, ghost l: Log) returns (tr': Trees, ghost l': Log)
      requires table.Right() && i < |table.records| && table.View() in Zones(apex)
      requires HasData(TakenOut(table.records, i), apex)
      requires Tracked(tr, l) && Covers(table.View(), apex, tr)
      modifies table`names, table`usage, table`existing, table`records, table.numlist
      ensures table.Right() && table.View() in Zones(apex) && table.records == TakenOut(old(table.records), i)
      ensures table.counted == old(table.counted) && table.apexes == old(table.apexes)
      ensures Tracked(tr', l')
      ensures RecordCut(old(table.View()), table.View(), apex, old(table.records)[i], tr, tr')
    {
      ghost var db := table.View();
      var rec := table.CutRecord(i);
      ZoneLess(db.records, apex, i);
      tr', l' := LeaveRRset(rec, db, tr, l);
    }

    method LeaveRRset(rec: Rec, ghost db: Db, tr: Trees, ghost l: Log) returns (tr': Trees, ghost l': Log)
      requires Core(table.View()) && table.Numbered()
      requires Clearing(table.View(), rec.owner, |rec.owner| + 1) && rec.owner in table.usage
      requires db in Zones(apex) && (rec.owner, rec.rrset) in RRsetsOf(db.records)
      requires Z() == if HasRRset(table.records, rec.owner, rec.rrset) then RRsetsOf(db.records)
                      else RRsetsOf(db.records) - {(rec.owner, rec.rrset)}
      requires ZoneOk(Z(), apex) && db.usage == table.usage
      requires Tracked(tr, l) && apex <= rec.owner && Covers(db, apex, tr)
      modifies table`names, table`usage, table`existing, table.numlist
      ensures table.Right() && table.View() in Zones(apex) && table.records == old(table.records)
      ensures Tracked(tr', l')
      ensures table.counted == old(table.counted) && table.apexes == old(table.apexes)
      ensures RecordCut(db, table.View(), apex, rec, tr, tr')
    {
      RRsetsHave(table.records, rec.owner, rec.rrset);
      if HasRRset(table.records, rec.owner, rec.rrset) {
        StillThere(db, table.View(), apex, rec, tr);
        label Cut:
        tr', l' := NotLast(rec, tr, l);
        assert unchanged@Cut(table, table.numlist);
      } else {
        tr', l' := LastOfRRset(rec, db, tr, l);
      }
    }

    /** nsec3_delete_rr_trigger and its like, for a record that was not the last of its RRset. */
    method NotLast(rec: Rec, tr: Trees, ghost l: Log) returns (tr': Trees, ghost l': Log)
      requires table.View() in Zones(apex) && rec.owner in table.usage && apex <= rec.owner
      requires Tracked(tr, l) && Covers(table.View(), apex, tr)
      ensures Tracked(tr', l') && tr' == tr
    {
      tr', l' := tr, l;
      if rec.rrset == TYPE_NSEC3 {
        tr', l' := LookAt(rec.owner, true, tr, l);
        NothingToAdd(table.View(), apex, tr, rec.owner);
      }
    }

    /** The triggers for the last record of an RRset, and the deletion of the domains that nothing needs. */
    method LastOfRRset(rec: Rec, ghost db: Db, tr: Trees, ghost l: Log) returns (tr': Trees, ghost l': Log)
      requires Core(table.View()) && table.Numbered()
      requires Clearing(table.View(), rec.owner, |rec.owner| + 1) && rec.owner in table.usage
      requires Core(db) && ZoneOk(RRsetsOf(db.records), apex) && (rec.owner, rec.rrset) in RRsetsOf(db.records)
      requires Z() == RRsetsOf(db.records) - {(rec.owner, rec.rrset)} && ZoneOk(Z(), apex) && db.usage == table.usage
      requires Tracked(tr, l) && apex <= rec.owner && Covers(db, apex, tr)
      modifies table`names, table`usage, table`existing, table.numlist
      ensures table.Right() && Tracked(tr', l') && table.records == old(table.records)
      ensures table.counted == old(table.counted) && table.apexes == old(table.apexes)
      ensures RecordCut(db, table.View(), apex, rec, tr, tr')
    {
      tr', l' := LastTriggers(rec.owner, rec.rrset, tr, l);
      ghost var db1 := table.View();
      ghost var stop;
      tr', l', stop := DropDomains(rec.owner, db1, tr', l');
      DeleteKeeps(db, db1, table.View(), apex, rec.owner, rec.rrset, stop, tr);
    }

    /** The existence flags and the triggers. */
    method LastTriggers(d: Name, t: nat, tr: Trees, ghost l: Log) returns (tr': Trees, ghost l': Log)
      requires Core(table.View()) && table.Numbered() && Clearing(table.View(), d, |d| + 1) && d in table.usage
      requires Tracked(tr, l) && apex <= d
      modifies table`existing
      ensures table.Right() && Tracked(tr', l') && table.View() == old(table.View()).(existing := table.existing)
      ensures tr' == AfterDelete(tr, RightTrees(table.View(), apex), d, Below(table.View(), d), t)
      ensures table.apexes == old(table.apexes)
    {
      table.ZeroNonexistCheck(d);
      label Checked:
      tr', l' := DeleteRRsetTrigger(d, t, tr, l);
      assert unchanged@Checked(table, table.numlist);
    }

    /** The domains that nothing needs leave the table, and the trees. */
    method DropDomains(d: Name, ghost db: Db, tr: Trees, ghost l: Log)
      returns (tr': Trees, ghost l': Log, ghost stop: Name)
      requires table.Right() && d in table.usage && db == table.View() && Tracked(tr, l)
      modifies table`names, table`usage, table`existing, table.numlist
      ensures table.Right() && Tracked(tr', l') && stop in table.usage
      ensures Pruned(db, table.View(), d, stop) && tr' == Dropping(tr, db.usage.Keys - table.usage.Keys)
      ensures stop in db.usage && !Free(db, stop, d)
      ensures table.counted == old(table.counted) && table.apexes == old(table.apexes)
    {
      stop := DeleteDomains(d, db);
      label Deleted:
      tr', l' := Forget(d, tr, l);
      assert unchanged@Deleted(table, table.numlist);
      AbsentIsPruned(db, table.View(), d, stop);
    }

    /** domain_table_deldomain */
    method DeleteDomains(d: Name, ghost db: Db) returns (ghost stop: Name)
      requires table.Right() && d in table.usage && db == table.View()
      modifies table`names, table`usage, table`existing, table.numlist
      ensures table.Right() && Pruned(db, table.View(), d, stop) && stop in table.usage
      ensures stop in db.usage && !Free(db, stop, d)
      ensures table.counted == old(table.counted) && table.apexes == old(table.apexes)
    {
      stop := table.DelDomain(d);
      PrunedExist(db, table.View(), d, stop);
      assert stop in table.usage;
    }

    // ------------------------------------------------------------------ the end of a transfer

    /** The names of the zone. */
    ghost function ZoneNames(): set<Name>
      reads table`usage
    {
      set n | n in table.usage && apex <= n
    }

    /** The walk of nsec3_precompile_newparam over the domains of the zone, and those that meet the conditions. */
    method Conditions() returns (walk: seq<Nsec3.Domain>, condHash: set<Nsec3.Domain>, condDs: set<Nsec3.Domain>,
                                 ghost ns: seq<Name>)
      requires Flags() && apex in table.usage
      ensures Sorted(ns) && (forall n :: n in ns <==> n in ZoneNames()) && walk == Domains(dom, ns)
      ensures condHash == Image(dom, ZoneNames() * C()) && condDs == Image(dom, ZoneNames() * D())
    {
      var i := FindLessEqual(table.names, apex);
      FoundAt(table.names, apex, i);
      var k;
      ghost var b;
      walk, condHash, condDs, k, b := WalkFrom(i);
      ns := table.names[i..k];
      SpanIsZone(table.names, table.usage.Keys, i, k, b);
    }

    method WalkFrom(i: nat) returns (walk: seq<Nsec3.Domain>, condHash: set<Nsec3.Domain>, condDs: set<Nsec3.Domain>,
                                     k: nat, ghost b: set<Name>)
      requires Flags() && i < |table.names| && table.names[i] == apex
      ensures i < k <= |table.names| && Spans(table.names, i, k, b)
      ensures k < |table.names| ==> !(apex <= table.names[k])
      ensures walk == Domains(dom, table.names[i..k])
      ensures condHash == Image(dom, b * C()) && condDs == Image(dom, b * D())
    {
      walk, condHash, condDs, k, b := [], {}, {}, i, {};
      while k < |table.names| && apex <= table.names[k]
        invariant i <= k <= |table.names| && walk == Domains(dom, table.names[i..k])
        invariant Spans(table.names, i, k, b)
        invariant condHash == Image(dom, b * C()) && condDs == Image(dom, b * D())
      {
        SpansMore(table.names, i, k, b);
        condHash, condDs := WithName(table.names[k], condHash, condDs, b);
        walk := walk + [dom(table.names[k])];
        b := b + {table.names[k]};
        k := k + 1;
      }
    }

    /** The walk and the conditions, when no two of the names `all` have a hash in common. */
    method FinalNames(ghost all: seq<Name>)
      returns (walk: seq<Nsec3.Domain>, condHash: set<Nsec3.Domain>, condDs: set<Nsec3.Domain>)
      requires table.View() in Zones(apex)
      requires Nsec3.NoCollisions(Domains(dom, all)) && forall n :: n in table.usage ==> n in all
      ensures Nsec3.NoCollisions(walk) && forall x :: x in walk <==> x in Image(dom, ZoneNames())
      ensures condHash == Image(dom, C()) && condDs == Image(dom, D())
      ensures condHash <= Image(dom, ZoneNames()) && condDs <= Image(dom, ZoneNames())
    {
      ApexThere(table.View(), apex);
      InZone(table.View(), apex);
      assert ZoneNames() * C() == C() && ZoneNames() * D() == D();
      ghost var ns;
      walk, condHash, condDs, ns := Conditions();
      NoneCollide(dom, ns, all);
      DomainsHave(dom, ns);
    }

    method WithName(n: Name, h: set<Nsec3.Domain>, d: set<Nsec3.Domain>, ghost b: set<Name>)
      returns (h': set<Nsec3.Domain>, d': set<Nsec3.Domain>)
      requires Flags() && n in table.names && apex <= n
      requires h == Image(dom, b * C()) && d == Image(dom, b * D())
      ensures h' == Image(dom, (b + {n}) * C()) && d' == Image(dom, (b + {n}) * D())
    {
      var c := MeetsHash(n);
      var cd := MeetsDs(n);
      ImageMore(dom, b, C(), n);
      ImageMore(dom, b, D(), n);
      h' := if c then h + {dom(n)} else h;
      d' := if cd then d + {dom(n)} else d;
    }
  }

  ghost function Image(dom: Name -> Nsec3.Domain, names: set<Name>): set<Nsec3.Domain>
  {
    set n | n in names :: dom(n)
  }

  function Domains(dom: Name -> Nsec3.Domain, names: seq<Name>): seq<Nsec3.Domain>
  {
    seq(|names|, i requires 0 <= i < |names| => dom(names[i]))
  }

  lemma ImageMore(dom: Name -> Nsec3.Domain, b: set<Name>, c: set<Name>, n: Name)
    ensures Image(dom, (b + {n}) * c) == Image(dom, b * c) + if n in c then {dom(n)} else {}
  {
  }

  /** The names from place `i` on before `k` are those of `b`, all of them below the first. */
  ghost predicate Spans(names: seq<Name>, i: nat, k: nat, b: set<Name>)
    requires i <= k <= |names|
  {
    (k > i ==> AllBelow(names, i, k)) && forall n :: n in b <==> n in names[i..k]
  }

  lemma SpansMore(names: seq<Name>, i: nat, k: nat, b: set<Name>)
    requires Sorted(names) && i <= k < |names| && Spans(names, i, k, b) && names[i] <= names[k]
    ensures names[i..k + 1] == names[i..k] + [names[k]]
    ensures Spans(names, i, k + 1, b + {names[k]}) && names[k] in names
  {
    if k > i { BelowMore(names, i, k); }
  }

  lemma SpanIsZone(names: seq<Name>, all: set<Name>, i: nat, k: nat, b: set<Name>)
    requires TableOk(names) && (forall n :: n in names <==> n in all) && i < k <= |names| && Spans(names, i, k, b)
    requires k < |names| ==> !(names[i] <= names[k])
    ensures b == set n | n in all && names[i] <= n
    ensures Sorted(names[i..k])
  {
    BelowIsRange(names, all, i, k);
    forall n
      ensures n in names[i..k] <==> n == names[i] || n in Between(names, i, k)
    {
      if n in Between(names, i, k) {
        var j :| i < j < k && names[j] == n;
        assert names[i..k][j - i] == n;
      }
      assert names[i..k][0] == names[i];
    }
    assert names[i] in names;
  }

  /** What the log leaves of the names that were hashed, for a domain of the names `all` or not. */
  lemma LogHas(dom: Name -> Nsec3.Domain, h0: set<Name>, d0: set<Name>, h: set<Name>, d: set<Name>,
               log: seq<Nsec3.Event>, all: seq<Name>, x: Nsec3.Domain)
    requires Logged(dom, h0, d0, h, d, log)
    requires forall i :: 0 <= i < |log| ==> Nsec3.EventName(log[i]) in Domains(dom, all)
    ensures Nsec3.HashedAfter(x in Image(dom, h0), x, log) <==> x in Image(dom, h)
    ensures Nsec3.DsAfter(x in Image(dom, d0), x, log) <==> x in Image(dom, d)
  {
    if n: Name :| dom(n) == x {
      assert LoggedAt(dom, h0, d0, h, d, log, n);
    } else {
      assert forall y :: y in Domains(dom, all) ==> exists n :: dom(n) == y;
      NoEvent(x in Image(dom, h0), x in Image(dom, d0), x, log);
    }
  }

  lemma {:induction false} NoEvent(h: bool, d: bool, x: Nsec3.Domain, log: seq<Nsec3.Event>)
    requires forall i :: 0 <= i < |log| ==> Nsec3.EventName(log[i]) != x
    ensures Nsec3.HashedAfter(h, x, log) == h && Nsec3.DsAfter(d, x, log) == d
    decreases |log|
  {
    if log != [] { NoEvent(h, d, x, log[..|log| - 1]); }
  }

  lemma DomainsHave(dom: Name -> Nsec3.Domain, ns: seq<Name>)
    ensures forall x :: x in Domains(dom, ns) <==> x in Image(dom, set n | n in ns)
  {
    forall n | n in ns
      ensures dom(n) in Domains(dom, ns)
    {
      var i :| 0 <= i < |ns| && ns[i] == n;
      assert Domains(dom, ns)[i] == dom(n);
    }
  }

  /** The domains of different names are different in all their hashes, if those of `all` are. */
  lemma NoneCollide(dom: Name -> Nsec3.Domain, ns: seq<Name>, all: seq<Name>)
    requires Nsec3.NoCollisions(Domains(dom, all)) && Sorted(ns) && forall n :: n in ns ==> n in all
    ensures Nsec3.NoCollisions(Domains(dom, ns))
  {
    var a, w := Domains(dom, all), Domains(dom, ns);
    forall i, j | 0 <= i < j < |w|
      ensures w[i].owner != w[j].owner && w[i].hash != w[j].hash
              && w[i].wcHash != w[j].wcHash && w[i].dsHash != w[j].dsHash
    {
      assert ns[i] in all && ns[j] in all;
      var p :| 0 <= p < |all| && all[p] == ns[i];
      var q :| 0 <= q < |all| && all[q] == ns[j];
      assert NameLess(ns[i], ns[j]);
      assert p != q;
      assert a[p] == w[i] && a[q] == w[j];
    }
  }

  /** The repair at the end of a transfer: the names that are hashed have their covers and flags, and all is as after
      a precompilation of the zone as it is now if and only if the trees were left right.  `events` are what the
      triggers did, from the trees of `a` on; `all` are the names that were ever in the table. */
  method RepairAsPrecompile(t: HashedTable, a: Nsec3.Zone, b: Nsec3.Zone, events: seq<Nsec3.Event>,
                            inChain: set<Nsec3.Domain>, ghost all: seq<Name>)
    requires t.Valid() && events == t.log
    requires a != b && a.Valid() && a.Known(Domains(t.dom, all)) && forall n :: n in t.table.usage ==> n in all
    requires forall i :: 0 <= i < |events| ==> Nsec3.EventName(events[i]) in Domains(t.dom, all)
    requires forall x :: x in a.hashed.tree <==> x in Image(t.dom, t.trees0.hashed)
    requires forall x :: x in a.ds.tree <==> x in Image(t.dom, t.trees0.ds)
    requires forall x :: x in Nsec3.ChainAfter(a.chain, events) <==> x in Image(t.dom, t.ZoneNames()) && x in inChain
    modifies a, b
    ensures a.Valid() && b.Valid()
    ensures forall x :: x in a.hashed.tree <==> x in Image(t.dom, old(t.trees.hashed))
    ensures forall x :: x in b.hashed.tree <==> x in Image(t.dom, old(t.C()))
    ensures forall x :: x in b.ds.tree <==> x in Image(t.dom, old(t.D()))
    ensures a.chain == b.chain && a.hashed == b.hashed && a.wildcard == b.wildcard && a.ds == b.ds <==> old(t.Right())
  {
    ghost var last := Nsec3.ChainAfter(a.chain, events);
    assert last[0] in last;
    var walk, condHash, condDs := t.FinalNames(all);
    AddsUp(t.dom, t.trees0, t.trees, events, all, a.chain, a.hashed.tree, a.ds.tree, walk, inChain, condHash, condDs,
           RightTrees(t.table.View(), t.apex));
    Nsec3.TransferAsPrecompile(a, b, events, Domains(t.dom, all), walk, inChain, condHash, condDs);
  }

  /** The events of the log add up to what meets the conditions if and only if the trees are right. */
  lemma AddsUp(dom: Name -> Nsec3.Domain, tr0: Trees, tr: Trees, log: seq<Nsec3.Event>, all: seq<Name>,
               chain: seq<Nsec3.Domain>, hashed: seq<Nsec3.Domain>, ds: seq<Nsec3.Domain>, walk: seq<Nsec3.Domain>,
               inChain: set<Nsec3.Domain>, condHash: set<Nsec3.Domain>, condDs: set<Nsec3.Domain>, c: Trees)
    requires Logged(dom, tr0.hashed, tr0.ds, tr.hashed, tr.ds, log)
    requires forall i :: 0 <= i < |log| ==> Nsec3.EventName(log[i]) in Domains(dom, all)
    requires forall x :: x in hashed <==> x in Image(dom, tr0.hashed)
    requires forall x :: x in ds <==> x in Image(dom, tr0.ds)
    requires Nsec3.Sorted(Nsec3.ByOwner, chain) && chain != []
    requires forall x :: x in Nsec3.ChainAfter(chain, log) <==> x in walk && x in inChain
    requires condHash == Image(dom, c.hashed) && condDs == Image(dom, c.ds)
    requires forall x :: x in condHash || x in condDs ==> x in walk
    ensures Nsec3.AddUp(chain, hashed, ds, log, walk, inChain, condHash, condDs) <==> tr == c
    ensures forall x :: Nsec3.HashedAfter(x in hashed, x, log) <==> x in Image(dom, tr.hashed)
  {
    LogHasAll(dom, tr0, tr, log, all, hashed, ds);
    AddUpRight(dom, tr0, tr, log, all, hashed, ds, c);
  }

  lemma LogHasAll(dom: Name -> Nsec3.Domain, tr0: Trees, tr: Trees, log: seq<Nsec3.Event>, all: seq<Name>,
                  hashed: seq<Nsec3.Domain>, ds: seq<Nsec3.Domain>)
    requires Logged(dom, tr0.hashed, tr0.ds, tr.hashed, tr.ds, log)
    requires forall i :: 0 <= i < |log| ==> Nsec3.EventName(log[i]) in Domains(dom, all)
    requires forall x :: x in hashed <==> x in Image(dom, tr0.hashed)
    requires forall x :: x in ds <==> x in Image(dom, tr0.ds)
    ensures forall x :: Nsec3.HashedAfter(x in hashed, x, log) <==> x in Image(dom, tr.hashed)
    ensures forall x :: Nsec3.DsAfter(x in ds, x, log) <==> x in Image(dom, tr.ds)
  {
    forall x
      ensures Nsec3.HashedAfter(x in hashed, x, log) <==> x in Image(dom, tr.hashed)
      ensures Nsec3.DsAfter(x in ds, x, log) <==> x in Image(dom, tr.ds)
    {
      LogHas(dom, tr0.hashed, tr0.ds, tr.hashed, tr.ds, log, all, x);
    }
  }

  /** What the log leaves is what meets the conditions if and only if the trees are right. */
  lemma AddUpRight(dom: Name -> Nsec3.Domain, tr0: Trees, tr: Trees, log: seq<Nsec3.Event>, all: seq<Name>,
                   hashed: seq<Nsec3.Domain>, ds: seq<Nsec3.Domain>, c: Trees)
    requires Logged(dom, tr0.hashed, tr0.ds, tr.hashed, tr.ds, log)
    requires forall x :: Nsec3.HashedAfter(x in hashed, x, log) <==> x in Image(dom, tr.hashed)
    requires forall x :: Nsec3.DsAfter(x in ds, x, log) <==> x in Image(dom, tr.ds)
    ensures (forall x :: Nsec3.HashedAfter(x in hashed, x, log) <==> x in Image(dom, c.hashed))
            && (forall x :: Nsec3.DsAfter(x in ds, x, log) <==> x in Image(dom, c.ds))
            <==> tr == c
  {
    if (forall x :: Nsec3.HashedAfter(x in hashed, x, log) <==> x in Image(dom, c.hashed))
       && (forall x :: Nsec3.DsAfter(x in ds, x, log) <==> x in Image(dom, c.ds)) {
      forall n
        ensures n in tr.hashed <==> n in c.hashed
        ensures n in tr.ds <==> n in c.ds
      {
        assert LoggedAt(dom, tr0.hashed, tr0.ds, tr.hashed, tr.ds, log, n);
        assert Nsec3.HashedAfter(dom(n) in hashed, dom(n), log) <==> dom(n) in Image(dom, tr.hashed);
        assert Nsec3.DsAfter(dom(n) in ds, dom(n), log) <==> dom(n) in Image(dom, tr.ds);
      }
      assert tr.hashed == c.hashed && tr.ds == c.ds;
    }
  }

  lemma ApexThere(db: Db, apex: Name)
    requires db in Zones(apex)
    ensures apex in db.usage
  {
    var x :| x in RRsetsOf(db.records) && x.0 == apex;
  }

  /** What meets a condition is a domain of the zone. */
  lemma InZone(db: Db, apex: Name)
    requires db in Zones(apex)
    ensures forall n :: n in ToHash(db, apex) || n in ToHashDs(db, apex) ==> n in db.usage && apex <= n
  {
    forall n | n in ToHash(db, apex) || n in ToHashDs(db, apex)
      ensures n in db.usage && apex <= n
    {
      ToHashHas(db, apex, n);
      DsIff(RRsetsOf(db.records), apex, n);
      assert (n, TYPE_DS).0 == n && (n, TYPE_NS).0 == n;
    }
  }

  /** The domains from `d` up that are not in the table. */
  ghost function Absent(d: Name, usage: map<Name, nat>): set<Name>
  {
    set j | 0 <= j <= |d| && d[..j] !in usage :: d[..j]
  }

  ghost function AbsentAll(refs: seq<Name>, k: nat, usage: map<Name, nat>): set<Name>
    requires k <= |refs|
  {
    if k == 0 then {} else AbsentAll(refs, k - 1, usage) + Absent(refs[k - 1], usage)
  }

  lemma AbsentMore(refs: seq<Name>, k: nat, usage: map<Name, nat>)
    requires k < |refs|
    ensures AbsentAll(refs, k + 1, usage) == AbsentAll(refs, k, usage) + Absent(refs[k], usage)
  {
  }

  lemma AbsentHas(d: Name, usage: map<Name, nat>, x: Name)
    ensures x in Absent(d, usage) <==> x <= d && x !in usage
  {
    if x <= d && x !in usage { assert x == d[..|x|]; }
  }

  lemma {:induction false} AbsentAllHas(refs: seq<Name>, k: nat, usage: map<Name, nat>, x: Name)
    requires k <= |refs|
    ensures x in AbsentAll(refs, k, usage) <==> x !in usage && exists i :: 0 <= i < k && x <= refs[i]
  {
    if k > 0 {
      AbsentAllHas(refs, k - 1, usage, x);
      AbsentHas(refs[k - 1], usage, x);
    }
  }

  /** The table has all domains above one that it has. */
  lemma AbsentIsLengths(db: Db, d: Name, k: nat)
    requires Core(db) && k <= |d| && d[..k] in db.usage && forall j :: k < j <= |d| ==> d[..j] !in db.usage
    ensures Absent(d, db.usage) == Lengths(d, k)
  {
    PrefixesThere(db, d[..k]);
    forall j | 0 <= j <= k ensures d[..j] in db.usage { assert d[..j] == d[..k][..j]; }
  }

  /** The domains that are gone with `d` are those from it up to the first that is still there. */
  lemma AbsentIsPruned(db: Db, db': Db, d: Name, stop: Name)
    requires Core(db) && Pruned(db, db', d, stop) && d in db.usage
    ensures Absent(d, db'.usage) == db.usage.Keys - db'.usage.Keys
  {
    PrefixesThere(db, d);
    forall x
      ensures x in Absent(d, db'.usage) <==> x in db.usage.Keys - db'.usage.Keys
    {
      AbsentHas(d, db'.usage, x);
      if x <= d { assert x == d[..|x|]; }
    }
  }

  /** The domains that are gone with the references are above them. */
  lemma AbsentIsGone(db: Db, refs: seq<Name>, usage: map<Name, nat>)
    requires Core(db) && GivenUp(db, refs, usage) && forall r :: r in refs ==> r in db.usage
    ensures AbsentAll(refs, |refs|, usage) == db.usage.Keys - usage.Keys
  {
    forall x
      ensures x in AbsentAll(refs, |refs|, usage) <==> x in db.usage.Keys - usage.Keys
    {
      AbsentAllHas(refs, |refs|, usage, x);
      assert GivenUpAt(db, refs, usage, x);
      if x in db.usage && x !in usage {
        assert OnlyFor(db, refs, x);
        var r :| r in refs && x <= r;
      }
      if i :| 0 <= i < |refs| && x <= refs[i] {
        PrefixesThere(db, refs[i]);
        assert x == refs[i][..|x|];
      }
    }
  }

  /** What looking at some names makes of the trees; `c` has the names that meet the conditions. */
  ghost function Looked(tr: Trees, c: Trees, names: set<Name>, adding: bool): Trees
  {
    if adding then Trees(tr.hashed + names * c.hashed, tr.ds + names * c.ds)
    else Trees(tr.hashed - (names - c.hashed), tr.ds - (names - c.ds))
  }

  ghost function Dropping(tr: Trees, gone: set<Name>): Trees
  {
    Trees(tr.hashed - gone, tr.ds - gone)
  }

  /** The trees have all names that meet the conditions: looking at one to add it does not change them. */
  lemma NothingToAdd(db: Db, apex: Name, tr: Trees, n: Name)
    requires Covers(db, apex, tr)
    ensures Looked(tr, RightTrees(db, apex), {n}, true) == tr
  {
  }

  /** One more name that a walk passes. */
  lemma OneMoreName(tr: Trees, c: Trees, names: set<Name>, n: Name)
    ensures Looked(Looked(tr, c, names, true), c, {n}, true) == Looked(tr, c, names + {n}, true)
    ensures Looked(Looked(tr, c, names, false), c, {n}, false) == Looked(tr, c, names + {n}, false)
  {
  }

  /** The prefixes of a name that are longer than `k`. */
  ghost function Lengths(d: Name, k: nat): set<Name>
    requires k <= |d|
  {
    set j | k < j <= |d| :: d[..j]
  }

  lemma LengthsMore(d: Name, k: nat)
    requires 0 < k <= |d|
    ensures Lengths(d, k - 1) == Lengths(d, k) + {d[..k]}
  {
  }

  /** Without a change of the RRsets the same names are to be hashed. */
  lemma SameToHash(db: Db, db': Db, apex: Name)
    requires Core(db) && Core(db') && RRsetsOf(db'.records) == RRsetsOf(db.records)
    ensures ToHash(db', apex) == ToHash(db, apex) && ToHashDs(db', apex) == ToHashDs(db, apex)
  {
    ToHashRight(db, apex);
    RightIsToHash(db', apex, ToHash(db, apex));
    RightIsToHash(db', apex, ToHashDs(db, apex));
  }

  /** A record less in a zone that keeps data at its apex. */
  lemma ZoneLess(records: seq<Rec>, apex: Name, i: nat)
    requires ZoneOk(RRsetsOf(records), apex) && i < |records| && HasData(TakenOut(records, i), apex)
    ensures var rec, r := records[i], TakenOut(records, i);
            var z, x := RRsetsOf(records), (rec.owner, rec.rrset);
            && x in z && RRsetsOf(r) == (if HasRRset(r, rec.owner, rec.rrset) then z else z - {x})
            && ZoneOk(RRsetsOf(r), apex) && apex <= rec.owner
  {
    var rec, r := records[i], TakenOut(records, i);
    RRsetsLess(records, i);
    assert apex <= (rec.owner, rec.rrset).0;
    DataAt(r, apex);
  }

  /** The RRset is still there: nothing has changed for the trees. */
  lemma StillThere(db: Db, db': Db, apex: Name, rec: Rec, tr: Trees)
    requires Core(db) && Core(db') && Clearing(db', rec.owner, |rec.owner| + 1) && ZoneOk(RRsetsOf(db.records), apex)
    requires RRsetsOf(db'.records) == RRsetsOf(db.records) && HasRRset(db'.records, rec.owner, rec.rrset)
    requires Covers(db, apex, tr) && db.usage == db'.usage
    ensures db' in Zones(apex) && RecordCut(db, db', apex, rec, tr, tr)
  {
    var z := RRsetsOf(db'.records);
    StillData(db', rec.owner);
    SameToHash(db, db', apex);
    RRsetsHave(db'.records, rec.owner, rec.rrset);
    StillHere(z, db.usage, [], apex, rec.owner, rec.rrset);
    forall x ensures x !in StrandedOf(z, db.usage, [], apex, rec.owner) {
      StrandedOfHas(z, db.usage, [], apex, rec.owner, x);
    }
  }

  /** The trees when a record without references has gone. */
  ghost predicate RecordCut(db: Db, db': Db, apex: Name, rec: Rec, tr: Trees, tr': Trees)
  {
    var z := RRsetsOf(db'.records);
    && db'.usage.Keys <= db.usage.Keys
    && DeletedTo(db, db', apex, rec.owner, (rec.owner, rec.rrset) !in z,
                 StrandedOf(z, db.usage, [], apex, rec.owner), tr, tr')
  }

  /** The table and the trees when the references of record `i` have been given up. */
  ghost predicate RefsGivenUp(db: Db, db': Db, apex: Name, i: nat, tr: Trees, tr': Trees)
    requires i < |db.records|
  {
    && GivenUp(db, db.records[i].refs, db'.usage) && db'.records == db.records && Covers(db', apex, tr')
    && (forall n :: n in db.usage ==> db.usage[n] >= multiset(db.records[i].refs)[n])
    && Over(db', apex, tr') == Over(db, apex, tr) * db'.usage.Keys && db'.usage.Keys <= db.usage.Keys
  }

  lemma DeletedInTwo(db: Db, db1: Db, db': Db, apex: Name, i: nat, tr: Trees, tr1: Trees, tr': Trees)
    requires i < |db.records| && RefsGivenUp(db, db1, apex, i, tr, tr1) && db'.records == TakenOut(db.records, i)
    requires RecordCut(db1, db', apex, db.records[i], tr1, tr')
    ensures var z, rec := RRsetsOf(db'.records), db.records[i];
            DeletedTo(db, db', apex, rec.owner, (rec.owner, rec.rrset) !in z,
                      StrandedOf(z, db.usage, rec.refs, apex, rec.owner), tr, tr')
  {
    StrandedBefore(db, i, db1.usage, apex);
    assert Over(db, apex, tr) * db1.usage.Keys * db'.usage.Keys == Over(db, apex, tr) * db'.usage.Keys;
  }

  lemma GivenUpKeys(db: Db, refs: seq<Name>, usage: map<Name, nat>)
    requires GivenUp(db, refs, usage)
    ensures usage.Keys <= db.usage.Keys
  {
    forall n | n in usage ensures n in db.usage { assert GivenUpAt(db, refs, usage, n); }
  }

  /** A domain is used at least as often as the references of one record say. */
  lemma EnoughUsage(db: Db, refs: seq<Name>, base: multiset<Name>)
    requires Core(db) && db.counted == base + multiset(refs)
    ensures forall n :: n in db.usage ==> db.usage[n] >= multiset(refs)[n]
    ensures forall r :: r in refs ==> r in db.usage
  {
    forall n | n in db.usage ensures db.usage[n] >= multiset(refs)[n] {
      if n in multiset(refs) { assert n in db.counted; }
    }
    forall r | r in refs ensures r in db.usage { assert r in multiset(refs) && r in db.counted; }
  }

  /** The domains that have left the table have left the trees, and none of them met a condition. */
  lemma ForgottenCovers(db: Db, db': Db, apex: Name, tr: Trees, tr': Trees)
    requires Core(db) && Core(db') && db'.records == db.records && db'.usage.Keys <= db.usage.Keys
    requires Covers(db, apex, tr) && tr' == Dropping(tr, db.usage.Keys - db'.usage.Keys)
    ensures Covers(db', apex, tr') && Over(db', apex, tr') == Over(db, apex, tr) * db'.usage.Keys
  {
    SameToHash(db, db', apex);
    forall x | x in ToHash(db, apex) || x in ToHashDs(db, apex)
      ensures x in db'.usage
    {
      ToHashHas(db', apex, x);
    }
  }

  /** A record more in an RRset matters only when it joins the chain. */
  lemma MoreOfRRset(db: Db, db': Db, apex: Name, d: Name, t: nat, joins: bool, tr: Trees, tr': Trees)
    requires Core(db) && Core(db') && RRsetsOf(db'.records) == RRsetsOf(db.records) && (d, t) in RRsetsOf(db.records)
    requires Covers(db, apex, tr) && db.usage.Keys <= db'.usage.Keys
    requires tr' == if joins then Looked(tr, RightTrees(db', apex), {d}, false) else tr
    ensures AddedTo(db, db', apex, d, t, false, joins, tr, tr')
  {
    SameToHash(db, db', apex);
    assert !OtherChain(RRsetsOf(db.records), d, t, joins, ToHash(db, apex)) by {
      if t == TYPE_NSEC3 { assert (d, t).0 == d && (d, t).1 != TYPE_RRSIG; }
    }
    var over := StillOver(Over(db, apex, tr), d, t, false, joins) - ToHash(db', apex);
    forall x
      ensures x in Over(db', apex, tr') <==> x in over
    {
    }
  }

  /** When right trees stay right: an NSEC3 that is known already, or is not the first, is not the exception. */
  lemma AddedRightly(db: Db, db': Db, apex: Name, rec: Rec, joins: bool, r: Addition, tr: Trees, tr': Trees)
    requires r == AdditionOf(db.records, rec) && tr == RightTrees(db, apex)
    requires AddedTo(db, db', apex, rec.owner, rec.rrset, (rec.owner, rec.rrset) !in RRsetsOf(db.records),
                     joins && r.NewRecord?, tr, tr')
    ensures tr' == RightTrees(db', apex)
            <==> !OtherChain(RRsetsOf(db.records), rec.owner, rec.rrset, joins, tr.hashed)
  {
    var z, d, t := RRsetsOf(db.records), rec.owner, rec.rrset;
    AddedToRight(db, db', apex, d, t, (d, t) !in z, joins && r.NewRecord?, tr, tr');
    if !r.NewRecord? {
      RRsetsHave(db.records, d, t);
      if (d, t) !in z { FirstIsNew(db.records, rec); }
      assert t == TYPE_NSEC3 ==> (d, t) in z && (d, t).1 != TYPE_RRSIG;
    }
  }
}
