/** Applying a zone transfer that arrives as a stream of records cut into parts, after apply_ixfr in
    difffile.c (section 4 of RFC 1995, section 2.2 of RFC 5936). */
module Ixfr {
  import opened Dname
  import opened ZoneData

  const TYPE_OPT := 41
  const TYPE_TSIG := 250
  const CLASS_IN := 1

  /** What is carried from record to record: the zone, the records seen, and the two modes. */
  datatype State = State(z: Store, count: nat, axfr: bool, del: bool)

  /** Going on, a bad transfer, or a transfer that is ignored from here on. */
  datatype Outcome = Ok(st: State) | Bad | Skip

  /** The transfer: the zone it is for and the serial it leads to. */
  datatype Job = Job(apex: Name, serial: nat)

  predicate FirstOk(j: Job, rr: RR)
  {
    rr.owner == j.apex && rr.rrtype == TYPE_SOA && rr.klass == CLASS_IN && rr.serial == j.serial
  }

  /** At the second record it shows whether this is a full transfer, and then the old contents go. */
  function Recognise(j: Job, st: State, rr: RR): (o: Outcome)
  {
    if st.count != 1 then Ok(st)
    else if rr.rrtype != TYPE_SOA || rr.serial == j.serial then Ok(st.(z := map[], axfr := true, del := false))
    else if !st.axfr && (j.apex, TYPE_SOA) !in st.z then Skip
    else Ok(st)
  }

  /** A SOA in an incremental transfer switches between deleting and adding. */
  function Switch(st: State, rr: RR): (st': State)
  {
    if rr.rrtype == TYPE_SOA && !st.axfr then st.(del := !st.del) else st
  }

  /** The record itself. */
  function Change(j: Job, st: State, rr: RR, last: bool): (o: Outcome)
  {
    if rr.rrtype == TYPE_TSIG || rr.rrtype == TYPE_OPT then Ok(st)
    else if st.del then
      if !st.axfr && rr.rrtype == TYPE_SOA && last then Ok(st) else Ok(st.(z := DeleteFrom(st.z, j.apex, rr)))
    else
      var r := AddTo(st.z, rr);
      if r.None? then Bad else Ok(st.(z := r.value))
  }

  /** One record; `last` marks the last answer record of the last part. */
  function Step(j: Job, st: State, rr: RR, last: bool): (o: Outcome)
  {
    if st.count == 0 then
      if FirstOk(j, rr) then Ok(State(st.z, 1, false, false)) else Bad
    else
      var o := Recognise(j, st, rr);
      if !o.Ok? then o
      else
        var o' := Change(j, Switch(o.st, rr), rr, last);
        if o'.Ok? then Ok(o'.st.(count := st.count + 1)) else o'
  }

  /** A run of records; `end` tells whether the final one is the last record of the last part. */
  function Steps(j: Job, st: State, rrs: seq<RR>, end: bool): (o: Outcome)
    decreases |rrs|
  {
    if rrs == [] then Ok(st)
    else
      var o := Step(j, st, rrs[0], end && |rrs| == 1);
      if o.Ok? then Steps(j, o.st, rrs[1..], end) else o
  }

  /** One part; before the first record an empty part is an error. */
  function Part(j: Job, st: State, rrs: seq<RR>, final: bool): (o: Outcome)
  {
    if st.count == 0 && rrs == [] then Bad else Steps(j, st, rrs, final)
  }

  /** All parts, one after the other. */
  function Parts(j: Job, st: State, parts: seq<seq<RR>>): (o: Outcome)
    decreases |parts|
  {
    if parts == [] then Ok(st)
    else
      var o := Part(j, st, parts[0], |parts| == 1);
      if o.Ok? then Parts(j, o.st, parts[1..]) else o
  }

  // -------------------------------------------------------------------- independence of the cutting

  function Concat(parts: seq<seq<RR>>): (rrs: seq<RR>)
  {
    if parts == [] then [] else parts[0] + Concat(parts[1..])
  }

  lemma {:induction false} StepsAppend(j: Job, st: State, a: seq<RR>, b: seq<RR>, end: bool)
    requires b != [] || !end
    ensures Steps(j, st, a + b, end) == (var o := Steps(j, st, a, false); if o.Ok? then Steps(j, o.st, b, end) else o)
    decreases |a|
  {
    if a == [] {
      assert a + b == b;
    } else {
      assert (a + b)[0] == a[0] && (a + b)[1..] == a[1..] + b;
      var o := Step(j, st, a[0], false);
      if o.Ok? { StepsAppend(j, o.st, a[1..], b, end); }
    }
  }

  lemma {:induction false} StepsCount(j: Job, st: State, rrs: seq<RR>, end: bool)
    ensures Steps(j, st, rrs, end).Ok? ==> Steps(j, st, rrs, end).st.count == st.count + |rrs|
    decreases |rrs|
  {
    if rrs != [] {
      var o := Step(j, st, rrs[0], end && |rrs| == 1);
      if o.Ok? { StepsCount(j, o.st, rrs[1..], end); }
    }
  }

  /** How the stream is cut into parts does not matter, except that an empty last part hides the end of the
      stream, and that the stream has to begin in the first part. */
  lemma {:induction false} CuttingDoesNotMatter(j: Job, st: State, parts: seq<seq<RR>>)
    requires parts != [] && (st.count > 0 || parts[0] != [])
    ensures Parts(j, st, parts) == Steps(j, st, Concat(parts), parts[|parts| - 1] != [])
    decreases |parts|
  {
    var rest := parts[1..];
    if rest == [] {
      assert Concat(parts) == parts[0];
      if parts[0] == [] { assert Steps(j, st, [], true) == Steps(j, st, [], false); }
      else { var o := Steps(j, st, parts[0], true); assert Parts(j, st, parts) == o; }
    } else {
      var end := parts[|parts| - 1] != [];
      var o := Steps(j, st, parts[0], false);
      assert Part(j, st, parts[0], false) == o;
      StepsAppendParts(j, st, parts[0], rest, end);
      if o.Ok? {
        StepsCount(j, st, parts[0], false);
        CuttingDoesNotMatter(j, o.st, rest);
      }
    }
  }

  lemma StepsAppendParts(j: Job, st: State, a: seq<RR>, rest: seq<seq<RR>>, end: bool)
    requires rest != [] && end == (rest[|rest| - 1] != [])
    ensures Steps(j, st, a + Concat(rest), end) ==
            (var o := Steps(j, st, a, false); if o.Ok? then Steps(j, o.st, Concat(rest), end) else o)
  {
    if end { ConcatNonEmpty(rest); }
    StepsAppend(j, st, a, Concat(rest), end);
  }

  lemma {:induction false} ConcatNonEmpty(parts: seq<seq<RR>>)
    requires parts != [] && parts[|parts| - 1] != []
    ensures Concat(parts) != []
    decreases |parts|
  {
    if |parts| > 1 { ConcatNonEmpty(parts[1..]); }
  }

  // -------------------------------------------------------------------- incremental transfers

  /** Records that only stand for themselves. */
  predicate Ordinary(rrs: seq<RR>)
  {
    forall i :: 0 <= i < |rrs| ==> rrs[i].rrtype != TYPE_SOA && rrs[i].rrtype != TYPE_TSIG && rrs[i].rrtype != TYPE_OPT
  }

  lemma IdentSetCons(rrs: seq<RR>)
    requires rrs != []
    ensures IdentSet(rrs) == {Ident(rrs[0])} + IdentSet(rrs[1..])
  {
    forall id | id in IdentSet(rrs) ensures id in {Ident(rrs[0])} + IdentSet(rrs[1..]) {
      var i :| 0 <= i < |rrs| && Ident(rrs[i]) == id;
      if i > 0 { assert rrs[1..][i - 1] == rrs[i]; }
    }
  }

  /** Ordinary records while adding: their union with the zone, refused exactly when an RRset of the union
      has too many records. */
  lemma {:induction false} AddRun(j: Job, st: State, rrs: seq<RR>)
    requires StoreOk(st.z) && st.count >= 2 && !st.del && Ordinary(rrs)
    ensures var o, ids := Steps(j, st, rrs, false), Ids(st.z) + IdentSet(rrs);
            if Fits(ids) then o.Ok? && AddedTo(st, o.st, ids) && o.st.count == st.count + |rrs| else o == Bad
    decreases |rrs|
  {
    if rrs == [] {
      assert Ids(st.z) + IdentSet(rrs) == Ids(st.z);
      StoreFits(st.z);
    } else {
      AddToIds(st.z, rrs[0]);
      IdentSetCons(rrs);
      var o, ids := Step(j, st, rrs[0], false), Ids(st.z) + IdentSet(rrs);
      if o.Ok? {
        assert ids == Ids(o.st.z) + IdentSet(rrs[1..]);
        AddRun(j, o.st, rrs[1..]);
      } else {
        Overfull(st.z, rrs[0], ids);
      }
    }
  }

  /** Only the zone and the number of records seen have changed; the zone has the records `ids`. */
  ghost predicate AddedTo(st: State, st': State, ids: set<RR>)
  {
    StoreOk(st'.z) && Ids(st'.z) == ids && st'.axfr == st.axfr && st'.del == st.del
  }

  // -------------------------------------------------------------------- enough room

  /** The records of one RRset among `ids`. */
  ghost function Under(ids: set<RR>, k: (Name, nat)): set<RR>
  {
    set id | id in ids && KeyOf(id) == k
  }

  /** No RRset has more than 65535 records. */
  ghost predicate Fits(ids: set<RR>)
  {
    forall k :: |Under(ids, k)| <= MAX_RRS
  }

  lemma {:induction false} AllCounted(rrs: seq<RR>)
    requires forall i, j :: 0 <= i < j < |rrs| ==> Ident(rrs[i]) != Ident(rrs[j])
    ensures |IdentSet(rrs)| == |rrs|
  {
    if rrs != [] {
      IdentSetCons(rrs);
      AllCounted(rrs[1..]);
    }
  }

  lemma UnderStore(z: Store, k: (Name, nat))
    requires StoreOk(z)
    ensures |Under(Ids(z), k)| == if k in z then |z[k]| else 0
  {
    var s := if k in z then z[k] else [];
    forall id
      ensures id in Under(Ids(z), k) <==> id in IdentSet(s)
    {
      IdsHas(z, id);
      if id in IdentSet(s) {
        var i :| 0 <= i < |s| && Ident(s[i]) == id;
        assert KeyOf(s[i]) == k == KeyOf(id);
      }
    }
    assert Under(Ids(z), k) == IdentSet(s);
    AllCounted(s);
  }

  lemma StoreFits(z: Store)
    requires StoreOk(z)
    ensures Fits(Ids(z))
  {
    forall k ensures |Under(Ids(z), k)| <= MAX_RRS { UnderStore(z, k); }
  }

  lemma Fewer(a: set<RR>, b: set<RR>)
    requires a <= b
    ensures |a| <= |b|
  {
    assert b == a + (b - a);
  }

  /** A record that cannot be added does not fit, whatever else there is. */
  lemma Overfull(z: Store, rr: RR, ids: set<RR>)
    requires StoreOk(z) && AddTo(z, rr).None? && Ids(z) + {Ident(rr)} <= ids
    ensures !Fits(ids)
  {
    var k, id := KeyOf(rr), Ident(rr);
    AddToIds(z, rr);
    UnderStore(z, k);
    assert KeyOf(id) == k;
    Fewer(Under(Ids(z), k) + {id}, Under(ids, k));
  }

  lemma FitsPart(a: set<RR>, b: set<RR>)
    requires a <= b && Fits(b)
    ensures Fits(a)
  {
    forall k ensures |Under(a, k)| <= MAX_RRS { Fewer(Under(a, k), Under(b, k)); }
  }

  /** The records are all different, and none of them is among `ids`. */
  ghost predicate AllNew(ids: set<RR>, rrs: seq<RR>)
  {
    && (forall i :: 0 <= i < |rrs| ==> Ident(rrs[i]) !in ids)
    && (forall i, j :: 0 <= i < j < |rrs| ==> Ident(rrs[i]) != Ident(rrs[j]))
  }

  /** New records while adding: they are stored as they are. */
  lemma {:induction false} AddRunRecords(j: Job, st: State, rrs: seq<RR>)
    requires StoreOk(st.z) && st.count >= 2 && !st.del && Ordinary(rrs) && Steps(j, st, rrs, false).Ok?
             && AllNew(Ids(st.z), rrs)
    ensures Records(Steps(j, st, rrs, false).st.z) == Records(st.z) + set rr | rr in rrs
    decreases |rrs|
  {
    if rrs != [] {
      AddToIds(st.z, rrs[0]);
      AddToRecords(st.z, rrs[0]);
      AddRunRecords(j, Step(j, st, rrs[0], false).st, rrs[1..]);
      assert (set rr | rr in rrs) == {rrs[0]} + set rr | rr in rrs[1..];
    }
  }

  /** Ordinary records while deleting: what is left of the zone without them. */
  lemma {:induction false} DeleteRun(j: Job, st: State, rrs: seq<RR>)
    requires StoreOk(st.z) && st.count >= 2 && st.del && !st.axfr && Ordinary(rrs)
    ensures var o := Steps(j, st, rrs, false);
            o.Ok? && StoreOk(o.st.z) && Ids(o.st.z) == Ids(st.z) - IdentSet(rrs) && !o.st.axfr && o.st.del
            && o.st.count == st.count + |rrs|
    decreases |rrs|
  {
    if rrs != [] {
      DeleteFromIds(st.z, j.apex, rrs[0]);
      IdentSetCons(rrs);
      DeleteRun(j, Step(j, st, rrs[0], false).st, rrs[1..]);
    }
  }

  /** One version step: the SOA before, what is deleted, the SOA after, what is added. */
  datatype Delta = Delta(from: RR, deleted: seq<RR>, to: RR, added: seq<RR>)

  function DeltaRRs(d: Delta): seq<RR>
  {
    [d.from] + d.deleted + [d.to] + d.added
  }

  predicate IsSoa(j: Job, rr: RR)
  {
    rr.rrtype == TYPE_SOA && rr.owner == j.apex
  }

  /** `soa` is the only SOA of the zone. */
  ghost predicate OneSoa(ids: set<RR>, soa: RR)
  {
    soa in ids && forall id :: id in ids && id.rrtype == TYPE_SOA ==> id == soa
  }

  ghost predicate DeltaOk(j: Job, d: Delta)
  {
    IsSoa(j, d.from) && IsSoa(j, d.to) && Ordinary(d.deleted) && Ordinary(d.added)
  }

  /** The set of records after one version step. */
  ghost function Patched(ids: set<RR>, d: Delta): set<RR>
  {
    ((ids - {Ident(d.from)}) - IdentSet(d.deleted)) + {Ident(d.to)} + IdentSet(d.added)
  }

  lemma PatchedSoa(j: Job, ids: set<RR>, d: Delta)
    requires DeltaOk(j, d) && OneSoa(ids, Ident(d.from))
    ensures OneSoa(Patched(ids, d), Ident(d.to))
  {
  }

  /** A SOA in an incremental transfer while adding: deleting starts, with the SOA itself. */
  lemma StepOldSoa(j: Job, st: State, rr: RR)
    requires StoreOk(st.z) && st.count >= 1 && !st.axfr && !st.del && IsSoa(j, rr) && Ident(rr) in Ids(st.z)
             && (st.count == 1 ==> rr.serial != j.serial)
    ensures var o := Step(j, st, rr, false);
            o.Ok? && StoreOk(o.st.z) && Ids(o.st.z) == Ids(st.z) - {Ident(rr)} && !o.st.axfr && o.st.del
            && o.st.count == st.count + 1
  {
    IdsHas(st.z, Ident(rr));
    DeleteFromIds(st.z, j.apex, rr);
  }

  lemma StepNewSoa(j: Job, st: State, rr: RR)
    requires StoreOk(st.z) && st.count >= 2 && !st.axfr && st.del && IsSoa(j, rr)
    ensures var o, ids := Step(j, st, rr, false), Ids(st.z) + {Ident(rr)};
            if Fits(ids) then o.Ok? && AddedTo(st.(del := false), o.st, ids) && o.st.count == st.count + 1 else o == Bad
  {
    AddToIds(st.z, rr);
    var o := Step(j, st, rr, false);
    if o.Ok? {
      StoreFits(o.st.z);
    } else {
      Overfull(st.z, rr, Ids(st.z) + {Ident(rr)});
    }
  }

  /** One version step does to the zone what it says, and is refused exactly when the new version has an
      RRset with too many records. */
  lemma DeltaRun(j: Job, st: State, d: Delta)
    requires StoreOk(st.z) && st.count >= 1 && !st.axfr && !st.del && DeltaOk(j, d) && Ident(d.from) in Ids(st.z)
    requires st.count == 1 ==> d.from.serial != j.serial
    ensures var o, ids := Steps(j, st, DeltaRRs(d), false), Patched(Ids(st.z), d);
            if Fits(ids) then o.Ok? && AddedTo(st, o.st, ids) && o.st.count >= 2 else o == Bad
  {
    StepOldSoa(j, st, d.from);
    var st1 := Step(j, st, d.from, false).st;
    assert DeltaRRs(d) == [d.from] + (d.deleted + ([d.to] + d.added));
    StepsAppend(j, st, [d.from], d.deleted + ([d.to] + d.added), false);
    OneStep(j, st, d.from);
    DeleteRun(j, st1, d.deleted);
    var st2 := Steps(j, st1, d.deleted, false).st;
    StepsAppend(j, st1, d.deleted, [d.to] + d.added, false);
    NewVersion(j, st2, d);
  }

  /** The second half of a version step. */
  lemma NewVersion(j: Job, st: State, d: Delta)
    requires StoreOk(st.z) && st.count >= 2 && !st.axfr && st.del && DeltaOk(j, d)
    ensures var o, ids := Steps(j, st, [d.to] + d.added, false), Ids(st.z) + {Ident(d.to)} + IdentSet(d.added);
            if Fits(ids) then o.Ok? && AddedTo(st.(del := false), o.st, ids) && o.st.count >= 2 else o == Bad
  {
    StepsAppend(j, st, [d.to], d.added, false);
    OneStep(j, st, d.to);
    StepNewSoa(j, st, d.to);
    var ids := Ids(st.z) + {Ident(d.to)};
    if Fits(ids) {
      AddRun(j, Step(j, st, d.to, false).st, d.added);
    } else if Fits(ids + IdentSet(d.added)) {
      FitsPart(ids, ids + IdentSet(d.added));
    }
  }

  lemma OneStep(j: Job, st: State, rr: RR)
    ensures Steps(j, st, [rr], false) == Step(j, st, rr, false)
  {
    var o := Step(j, st, rr, false);
    assert [rr][1..] == [];
    if o.Ok? { assert Steps(j, o.st, [], false) == o; }
  }

  // -------------------------------------------------------------------- a whole incremental transfer

  function DeltasRRs(ds: seq<Delta>): seq<RR>
  {
    if ds == [] then [] else DeltaRRs(ds[0]) + DeltasRRs(ds[1..])
  }

  ghost function PatchedAll(ids: set<RR>, ds: seq<Delta>): set<RR>
    decreases |ds|
  {
    if ds == [] then ids else PatchedAll(Patched(ids, ds[0]), ds[1..])
  }

  /** The version steps lead from SOA `a` to SOA `b`. */
  ghost predicate Leads(j: Job, a: RR, ds: seq<Delta>, b: RR)
    decreases |ds|
  {
    if ds == [] then a == b else DeltaOk(j, ds[0]) && Ident(ds[0].from) == a && Leads(j, Ident(ds[0].to), ds[1..], b)
  }

  /** In no version of the zone, from one step to the next, has an RRset too many records. */
  ghost predicate AllFit(ids: set<RR>, ds: seq<Delta>)
    decreases |ds|
  {
    ds == [] || (Fits(Patched(ids, ds[0])) && AllFit(Patched(ids, ds[0]), ds[1..]))
  }

  lemma {:induction false} DeltasRun(j: Job, st: State, a: RR, ds: seq<Delta>, b: RR)
    requires StoreOk(st.z) && st.count >= 1 && !st.axfr && !st.del && Leads(j, a, ds, b) && OneSoa(Ids(st.z), a)
    requires st.count == 1 ==> ds != [] && ds[0].from.serial != j.serial
    ensures var o, ids := Steps(j, st, DeltasRRs(ds), false), PatchedAll(Ids(st.z), ds);
            if AllFit(Ids(st.z), ds) then o.Ok? && AddedTo(st, o.st, ids) && OneSoa(ids, b) && o.st.count >= 2
            else o == Bad
    decreases |ds|
  {
    if ds != [] {
      StepsAppend(j, st, DeltaRRs(ds[0]), DeltasRRs(ds[1..]), false);
      DeltaRun(j, st, ds[0]);
      PatchedSoa(j, Ids(st.z), ds[0]);
      var o := Steps(j, st, DeltaRRs(ds[0]), false);
      if o.Ok? {
        DeltasRun(j, o.st, Ident(ds[0].to), ds[1..], b);
      }
    }
  }

  /** The records of an incremental transfer that ends with SOA `soa`. */
  function IxfrRRs(soa: RR, ds: seq<Delta>): seq<RR>
  {
    [soa] + DeltasRRs(ds) + [soa]
  }

  ghost predicate IxfrOk(j: Job, z: Store, soa: RR, a: RR, ds: seq<Delta>)
  {
    StoreOk(z) && FirstOk(j, soa) && OneSoa(Ids(z), a) && ds != [] && ds[0].from.serial != j.serial
    && Leads(j, a, ds, Ident(soa))
  }

  /** An incremental transfer gives the zone minus and plus what its steps say, with the new SOA as its only SOA;
      when the final SOA is not the last record of the last part it is lost.  It is refused exactly when a
      version on the way has an RRset with too many records. */
  lemma IxfrResult(j: Job, z: Store, soa: RR, a: RR, ds: seq<Delta>, end: bool)
    requires IxfrOk(j, z, soa, a, ds)
    ensures var o, ids := Steps(j, State(z, 0, false, false), IxfrRRs(soa, ds), end), PatchedAll(Ids(z), ds);
            if AllFit(Ids(z), ds) then
              && o.Ok? && StoreOk(o.st.z) && OneSoa(ids, Ident(soa))
              && Ids(o.st.z) == ids - (if end then {} else {Ident(soa)})
            else o == Bad
  {
    var st := State(z, 0, false, false);
    var st1 := State(z, 1, false, false);
    var body := DeltasRRs(ds);
    assert IxfrRRs(soa, ds) == [soa] + (body + [soa]);
    StepsAppend(j, st, [soa], body + [soa], end);
    OneStep(j, st, soa);
    StepsAppend(j, st1, body, [soa], end);
    DeltasRun(j, st1, a, ds, Ident(soa));
    if AllFit(Ids(z), ds) {
      FinalSoa(j, Steps(j, st1, body, false).st, soa, end);
    }
  }

  /** The final SOA would be deleted; only as the last record of the last part is it left alone. */
  lemma FinalSoa(j: Job, st: State, soa: RR, end: bool)
    requires StoreOk(st.z) && st.count >= 2 && !st.axfr && !st.del && IsSoa(j, soa) && Ident(soa) in Ids(st.z)
    ensures var o := Steps(j, st, [soa], end);
            o.Ok? && StoreOk(o.st.z) && Ids(o.st.z) == Ids(st.z) - (if end then {} else {Ident(soa)})
  {
    assert [soa][1..] == [];
    var o := Step(j, st, soa, end);
    assert Steps(j, st, [soa], end) == if o.Ok? then Steps(j, o.st, [], end) else o;
    DeleteFromIds(st.z, j.apex, soa);
  }

  /** A well-formed incremental transfer is applied, however it is cut into parts, exactly when no version has an
      RRset with too many records; it then has the right result exactly when the last part is not empty. */
  lemma IxfrApplied(j: Job, z: Store, soa: RR, a: RR, ds: seq<Delta>, parts: seq<seq<RR>>)
    requires IxfrOk(j, z, soa, a, ds) && Concat(parts) == IxfrRRs(soa, ds) && parts != [] && parts[0] != []
    ensures var o := Parts(j, State(z, 0, false, false), parts);
            if AllFit(Ids(z), ds) then
              && o.Ok? && StoreOk(o.st.z)
              && (parts[|parts| - 1] != [] <==> Ids(o.st.z) == PatchedAll(Ids(z), ds))
              && (parts[|parts| - 1] != [] <==> OneSoa(Ids(o.st.z), Ident(soa)))
            else o == Bad
  {
    CuttingDoesNotMatter(j, State(z, 0, false, false), parts);
    IxfrResult(j, z, soa, a, ds, parts[|parts| - 1] != []);
  }

  // -------------------------------------------------------------------- full transfers

  function AxfrRRs(soa: RR, body: seq<RR>): seq<RR>
  {
    [soa] + body + [soa]
  }

  predicate SameZone(o: Outcome, o': Outcome)
  {
    if o.Ok? then o'.Ok? && o.st.z == o'.st.z else o == o'
  }

  /** From the second record on, a full transfer adds to an empty zone. */
  lemma AxfrCleared(j: Job, z: Store, rr: RR, rest: seq<RR>, end: bool)
    requires rr.rrtype != TYPE_SOA || rr.serial == j.serial
    ensures SameZone(Steps(j, State(z, 1, false, false), [rr] + rest, end),
                     Steps(j, State(map[], 2, true, false), [rr] + rest, end))
  {
    var last := end && |[rr] + rest| == 1;
    assert ([rr] + rest)[1..] == rest;
    var o, o' := Step(j, State(z, 1, false, false), rr, last), Step(j, State(map[], 2, true, false), rr, last);
    if o.Ok? { LateCount(j, o.st, o'.st, rest, end); }
  }

  /** After the second record the number of records seen has no influence. */
  lemma {:induction false} LateCount(j: Job, st: State, st': State, rrs: seq<RR>, end: bool)
    requires st.count >= 2 && st' == st.(count := st'.count) && st'.count >= 2
    ensures SameZone(Steps(j, st, rrs, end), Steps(j, st', rrs, end))
    decreases |rrs|
  {
    if rrs != [] {
      var last := end && |rrs| == 1;
      var o, o' := Step(j, st, rrs[0], last), Step(j, st', rrs[0], last);
      if o.Ok? { LateCount(j, o.st, o'.st, rrs[1..], end); }
    }
  }

  /** A full transfer replaces whatever the zone was, also when it consists of the SOA only, and is refused
      exactly when it has an RRset with too many records; records that are all different are stored as they are. */
  lemma AxfrResult(j: Job, z: Store, soa: RR, body: seq<RR>, end: bool)
    requires FirstOk(j, soa) && Ordinary(body)
    ensures AxfrStored(Steps(j, State(z, 0, false, false), AxfrRRs(soa, body), end), soa, body)
  {
    var st2, rrs := State(map[], 2, true, false), body + [soa];
    assert AxfrRRs(soa, body)[1..] == rrs;
    assert rrs == [rrs[0]] + rrs[1..];
    AxfrCleared(j, z, rrs[0], rrs[1..], end);
    StepsAppend(j, st2, body, [soa], end);
    assert Ids(map[]) == {} && StoreOk(map[]);
    assert Ids(map[]) + IdentSet(body) == IdentSet(body);
    AddRun(j, st2, body);
    if Fits(IdentSet(body)) {
      AxfrEnd(j, Steps(j, st2, body, false).st, soa, body, end);
    } else if Fits(IdentSet(body) + {Ident(soa)}) {
      FitsPart(IdentSet(body), IdentSet(body) + {Ident(soa)});
    }
  }

  /** What a full transfer comes to. */
  ghost predicate AxfrStored(o: Outcome, soa: RR, body: seq<RR>)
  {
    var ids := IdentSet(body) + {Ident(soa)};
    if Fits(ids) then
      && o.Ok? && StoreOk(o.st.z) && Ids(o.st.z) == ids
      && (AllNew({}, body) ==> Records(o.st.z) == (set rr | rr in body) + {soa})
    else o == Bad
  }

  lemma AxfrEnd(j: Job, st: State, soa: RR, body: seq<RR>, end: bool)
    requires var st2 := State(map[], 2, true, false);
             Steps(j, st2, body, false) == Ok(st) && AddedTo(st2, st, IdentSet(body))
    requires st.count >= 2 && Ordinary(body) && soa.rrtype == TYPE_SOA
    ensures AxfrStored(Steps(j, st, [soa], end), soa, body)
  {
    assert [soa][1..] == [];
    var o := Step(j, st, soa, end);
    assert Steps(j, st, [soa], end) == if o.Ok? then Steps(j, o.st, [], end) else o;
    AddToIds(st.z, soa);
    if o.Ok? {
      StoreFits(o.st.z);
      if AllNew({}, body) { AxfrRecords(j, State(map[], 2, true, false), st, soa, body); }
    } else {
      Overfull(st.z, soa, IdentSet(body) + {Ident(soa)});
    }
  }

  lemma AxfrRecords(j: Job, st2: State, st3: State, soa: RR, body: seq<RR>)
    requires st2 == State(map[], 2, true, false) && Ordinary(body) && AllNew({}, body) && soa.rrtype == TYPE_SOA
    requires Steps(j, st2, body, false) == Ok(st3) && StoreOk(st3.z) && Ids(st3.z) == IdentSet(body)
             && AddTo(st3.z, soa).Some?
    ensures Records(AddTo(st3.z, soa).value) == (set rr | rr in body) + {soa}
  {
    assert Ids(map[]) == {} && Records(map[]) == {} && StoreOk(map[]);
    AddRunRecords(j, st2, body);
    forall i | 0 <= i < |body|
      ensures Ident(body[i]) != Ident(soa) { assert Ident(body[i]).rrtype != Ident(soa).rrtype; }
    AddToRecords(st3.z, soa);
  }

  /** Cut in any way, it has the same result. */
  lemma AxfrApplied(j: Job, z: Store, soa: RR, body: seq<RR>, parts: seq<seq<RR>>)
    requires FirstOk(j, soa) && Ordinary(body)
    requires Concat(parts) == AxfrRRs(soa, body) && parts != [] && parts[0] != []
    ensures AxfrStored(Parts(j, State(z, 0, false, false), parts), soa, body)
  {
    CuttingDoesNotMatter(j, State(z, 0, false, false), parts);
    AxfrResult(j, z, soa, body, parts[|parts| - 1] != []);
  }

  // -------------------------------------------------------------------- the code

  lemma DeleteKeepsOk(j: Job, z: Store, rr: RR)
    requires StoreOk(z)
    ensures StoreOk(DeleteFrom(z, j.apex, rr))
  {
    if Ident(rr) in Ids(z) || rr.rrtype != TYPE_SOA {
      DeleteFromIds(z, j.apex, rr);
    } else {
      assert KeyOf(Ident(rr)) == KeyOf(rr);
      IdsHas(z, Ident(rr));
      if rr.owner == j.apex && KeyOf(rr) in z {
        DeleteOtherSoa(z, j.apex, rr);
      }
    }
  }

  /** The zone and the variables that apply_ixfr keeps from part to part. */
  class Applier {
    const j: Job
    const zone: Zone
    var rrCount: nat
    var isAxfr: bool
    var deleteMode: bool

    ghost function Now(): State
      reads this, zone
    {
      State(zone.rrsets, rrCount, isAxfr, deleteMode)
    }

    constructor (j: Job, zone: Zone)
      requires zone.apex == j.apex
      ensures this.j == j && this.zone == zone && Now() == State(zone.rrsets, 0, false, false)
    {
      this.j, this.zone := j, zone;
      rrCount, isAxfr, deleteMode := 0, false, false;
    }

    /** The body of the loop of apply_ixfr; the code is 0 for an error, 1 to go on, 2 to ignore the rest. */
    method ApplyRR(rr: RR, last: bool) returns (code: nat)
      requires StoreOk(zone.rrsets) && zone.apex == j.apex && rrCount > 0
      modifies this`rrCount, this`isAxfr, this`deleteMode, zone`rrsets
      ensures StoreOk(zone.rrsets)
      ensures match Step(j, old(Now()), rr, last) case Ok(st) => code == 1
              && Now() == st case Bad => code == 0 case Skip => code == 2
    {
      DeleteKeepsOk(j, zone.rrsets, rr);
      if rrCount == 1 && rr.rrtype != TYPE_SOA {
        zone.rrsets := map[];
        deleteMode, isAxfr := false, true;
      }
      if rrCount == 1 && rr.rrtype == TYPE_SOA {
        if rr.serial == j.serial {
          zone.rrsets := map[];
          deleteMode, isAxfr := false, true;
        }
        if !isAxfr && (j.apex, TYPE_SOA) !in zone.rrsets { return 2; }
      }
      if rr.rrtype == TYPE_SOA && !isAxfr { deleteMode := !deleteMode; }
      if rr.rrtype == TYPE_TSIG || rr.rrtype == TYPE_OPT {
        rrCount := rrCount + 1;
        return 1;
      }
      if deleteMode {
        if !(!isAxfr && rr.rrtype == TYPE_SOA && last) {
          DeleteKeepsOk(j, zone.rrsets, rr);
          var _ := zone.DeleteRR(rr);
        }
      } else {
        var ok, soft := zone.AddRR(rr);
        if !ok { return 0; }
      }
      rrCount := rrCount + 1;
      code := 1;
    }

    /** apply_ixfr for part number `seqNr` of `seqTotal`. */
    method ApplyIxfr(part: seq<RR>, seqNr: nat, seqTotal: nat) returns (code: nat)
      requires StoreOk(zone.rrsets) && zone.apex == j.apex
      modifies this`rrCount, this`isAxfr, this`deleteMode, zone`rrsets
      ensures StoreOk(zone.rrsets)
      ensures match Part(j, old(Now()), part, seqNr + 1 == seqTotal) case Ok(st) => code == 1
              && Now() == st case Bad => code == 0 case Skip => code == 2
    {
      ghost var goal := Part(j, Now(), part, seqNr + 1 == seqTotal);
      var counter := 0;
      if rrCount == 0 {
        if part == [] || !FirstOk(j, part[0]) { return 0; }
        counter, rrCount, isAxfr, deleteMode := 1, 1, false, false;
      }
      assert goal == Steps(j, Now(), part[counter..], seqNr + 1 == seqTotal) by {
        if counter == 0 { assert part[0..] == part; }
      }
      while counter < |part|
        invariant 0 <= counter <= |part| && StoreOk(zone.rrsets) && (counter < |part| ==> rrCount > 0)
        invariant goal == Steps(j, Now(), part[counter..], seqNr + 1 == seqTotal)
      {
        assert part[counter..][0] == part[counter] && part[counter..][1..] == part[counter + 1..];
        code := ApplyRR(part[counter], counter + 1 == |part| && seqNr + 1 == seqTotal);
        if code != 1 { return; }
        counter := counter + 1;
      }
      code := 1;
    }

    /** All parts of a transfer, in order. */
    method ApplyAll(parts: seq<seq<RR>>) returns (code: nat)
      requires StoreOk(zone.rrsets) && zone.apex == j.apex
      modifies this`rrCount, this`isAxfr, this`deleteMode, zone`rrsets
      ensures StoreOk(zone.rrsets)
      ensures match Parts(j, old(Now()), parts) case Ok(st) => code == 1
              && Now() == st case Bad => code == 0 case Skip => code == 2
    {
      ghost var goal := Parts(j, Now(), parts);
      assert parts[0..] == parts;
      var i := 0;
      while i < |parts|
        invariant 0 <= i <= |parts| && StoreOk(zone.rrsets) && goal == Parts(j, Now(), parts[i..])
      {
        assert parts[i..][0] == parts[i] && parts[i..][1..] == parts[i + 1..];
        code := ApplyIxfr(parts[i], i, |parts|);
        if code != 1 { return; }
        i := i + 1;
      }
      code := 1;
    }
  }
}
