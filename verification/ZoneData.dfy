/** The records of one zone and their single updates, after add_RR, delete_RR and find_rr_num in difffile.c. */
module ZoneData {
  import opened Bytes
  import opened Dname

  const TYPE_SOA := 6
  const MAX_RRS := 65535

  /** A record with normalised rdata; `serial` is the serial number of a SOA. */
  datatype RR = RR(owner: Name, rrtype: nat, klass: nat, serial: nat, rdata: seq<byte>, ttl: nat)

  /** What distinguishes records when a transfer is applied: not the TTL, and of a SOA only the serial. */
  function Ident(rr: RR): RR
  {
    if rr.rrtype == TYPE_SOA then rr.(rdata := [], ttl := 0) else rr.(serial := 0, ttl := 0)
  }

  /** RRsets by owner and type; each keeps its records in order. */
  type Store = map<(Name, nat), seq<RR>>

  function KeyOf(rr: RR): (Name, nat)
  {
    (rr.owner, rr.rrtype)
  }

  /** The records of one RRset: not empty, at most 65535, all of that owner and type, all different. */
  ghost predicate RRsetOk(k: (Name, nat), rrs: seq<RR>)
  {
    && 0 < |rrs| <= MAX_RRS
    && (forall i :: 0 <= i < |rrs| ==> KeyOf(rrs[i]) == k)
    && (forall i, j :: 0 <= i < j < |rrs| ==> Ident(rrs[i]) != Ident(rrs[j]))
  }

  ghost predicate StoreOk(z: Store)
  {
    forall k :: k in z ==> RRsetOk(k, z[k])
  }

  /** The records of one RRset, as a set. */
  ghost function IdentSet(rrs: seq<RR>): set<RR>
  {
    set i | 0 <= i < |rrs| :: Ident(rrs[i])
  }

  /** The zone has this record. */
  ghost predicate Has(z: Store, id: RR)
  {
    KeyOf(id) in z && id in IdentSet(z[KeyOf(id)])
  }

  /** The records of the zone, as a set. */
  ghost function Ids(z: Store): set<RR>
  {
    set k, i | k in z && 0 <= i < |z[k]| :: Ident(z[k][i])
  }

  lemma IdsHas(z: Store, id: RR)
    requires StoreOk(z)
    ensures id in Ids(z) <==> Has(z, id)
  {
  }

  /** find_rr_num: the first record that is the same, or -1. */
  function IndexOf(rrs: seq<RR>, rr: RR): (i: int)
    ensures -1 <= i < |rrs|
    ensures i >= 0 ==> Ident(rrs[i]) == Ident(rr)
    ensures i == -1 <==> forall j :: 0 <= j < |rrs| ==> Ident(rrs[j]) != Ident(rr)
  {
    if rrs == [] then -1
    else if Ident(rrs[0]) == Ident(rr) then 0
    else var i := IndexOf(rrs[1..], rr); if i == -1 then -1 else i + 1
  }

  // -------------------------------------------------------------------- adding a record

  /** add_RR: None when the RRset is full. */
  function AddTo(z: Store, rr: RR): (r: Option<Store>)
  {
    var k := KeyOf(rr);
    var rrs := if k in z then z[k] else [];
    if IndexOf(rrs, rr) != -1 then Some(z)
    else if |rrs| == MAX_RRS then None
    else Some(z[k := rrs + [rr]])
  }

  lemma AddToIds(z: Store, rr: RR)
    requires StoreOk(z)
    ensures AddTo(z, rr).Some? ==> StoreOk(AddTo(z, rr).value) && Ids(AddTo(z, rr).value) == Ids(z) + {Ident(rr)}
    ensures AddTo(z, rr).None? <==> KeyOf(rr) in z && |z[KeyOf(rr)]| == MAX_RRS && Ident(rr) !in Ids(z)
  {
    var k := KeyOf(rr);
    var rrs := if k in z then z[k] else [];
    assert KeyOf(Ident(rr)) == k;
    IdsHas(z, Ident(rr));
    var r := AddTo(z, rr);
    if r.Some? {
      var z' := r.value;
      if IndexOf(rrs, rr) == -1 {
        assert RRsetOk(k, z'[k]);
        forall id ensures id in Ids(z') <==> id in Ids(z) + {Ident(rr)} {
          AddedHas(z, z', rr, rrs, id);
        }
      }
    }
  }

  /** The records of the zone with everything they hold, TTL and SOA rdata included. */
  ghost function Records(z: Store): set<RR>
  {
    set k, i | k in z && 0 <= i < |z[k]| :: z[k][i]
  }

  /** A new record is stored as it is. */
  lemma AddToRecords(z: Store, rr: RR)
    requires StoreOk(z) && Ident(rr) !in Ids(z) && AddTo(z, rr).Some?
    ensures Records(AddTo(z, rr).value) == Records(z) + {rr}
  {
    var k, z' := KeyOf(rr), AddTo(z, rr).value;
    var rrs := if k in z then z[k] else [];
    assert KeyOf(Ident(rr)) == k;
    IdsHas(z, Ident(rr));
    assert IndexOf(rrs, rr) == -1;
    assert z'[k] == rrs + [rr];
    forall x ensures x in Records(z') <==> x in Records(z) + {rr} { AddedRecords(z, z', k, rrs, rr, x); }
  }

  lemma AddedRecords(z: Store, z': Store, k: (Name, nat), rrs: seq<RR>, rr: RR, x: RR)
    requires rrs == (if k in z then z[k] else []) && z' == z[k := rrs + [rr]]
    ensures x in Records(z') <==> x in Records(z) + {rr}
  {
    assert z'[k][|rrs|] == rr;
    if x in Records(z) {
      var q, i :| q in z && 0 <= i < |z[q]| && z[q][i] == x;
      assert z'[q][i] == x;
    }
  }

  lemma AddedHas(z: Store, z': Store, rr: RR, rrs: seq<RR>, id: RR)
    requires StoreOk(z) && StoreOk(z') && rrs == (if KeyOf(rr) in z then z[KeyOf(rr)] else [])
             && z' == z[KeyOf(rr) := rrs + [rr]]
    ensures id in Ids(z') <==> id in Ids(z) + {Ident(rr)}
  {
    IdsHas(z, id);
    IdsHas(z', id);
    var k := KeyOf(rr);
    assert KeyOf(Ident(rr)) == k;
    assert z'[k][|rrs|] == rr;
    assert forall i :: 0 <= i < |rrs| ==> z'[k][i] == rrs[i];
  }

  // -------------------------------------------------------------------- deleting a record

  /** Which record delete_RR removes: the same one, or the first SOA in place of a SOA that is not there. */
  function Victim(rrs: seq<RR>, apex: Name, rr: RR): (i: int)
    ensures -1 <= i < |rrs|
  {
    var i := IndexOf(rrs, rr);
    if i == -1 && rr.rrtype == TYPE_SOA && rr.owner == apex && |rrs| != 0 then 0 else i
  }

  /** The last record fills the gap. */
  function Removed(rrs: seq<RR>, i: nat): (r: seq<RR>)
    requires i < |rrs|
  {
    var n := |rrs| - 1;
    if i < n then rrs[i := rrs[n]][..n] else rrs[..n]
  }

  /** delete_RR; a record that is not there is ignored. */
  function DeleteFrom(z: Store, apex: Name, rr: RR): (z': Store)
  {
    var k := KeyOf(rr);
    if k !in z then z
    else
      var i := Victim(z[k], apex, rr);
      if i == -1 then z
      else if |z[k]| == 1 then z - {k}
      else z[k := Removed(z[k], i)]
  }

  lemma RemovedIds(k: (Name, nat), rrs: seq<RR>, i: nat)
    requires RRsetOk(k, rrs) && i < |rrs|
    ensures IdentSet(Removed(rrs, i)) == IdentSet(rrs) - {Ident(rrs[i])}
    ensures |rrs| > 1 ==> RRsetOk(k, Removed(rrs, i))
  {
    var n, r := |rrs| - 1, Removed(rrs, i);
    assert forall j :: 0 <= j < n ==> r[j] == if j == i then rrs[n] else rrs[j];
    forall id | id in IdentSet(rrs) && id != Ident(rrs[i]) ensures id in IdentSet(r) {
      var j :| 0 <= j < |rrs| && Ident(rrs[j]) == id;
      assert j == n ==> r[i] == rrs[n];
      assert j != n ==> r[j] == rrs[j];
    }
  }

  /** Deleting a record that is there, or one that is not and is not the SOA, is taking it out of the set. */
  lemma DeleteFromIds(z: Store, apex: Name, rr: RR)
    requires StoreOk(z) && (Ident(rr) in Ids(z) || rr.rrtype != TYPE_SOA)
    ensures StoreOk(DeleteFrom(z, apex, rr)) && Ids(DeleteFrom(z, apex, rr)) == Ids(z) - {Ident(rr)}
  {
    var k := KeyOf(rr);
    var z' := DeleteFrom(z, apex, rr);
    assert KeyOf(Ident(rr)) == k;
    IdsHas(z, Ident(rr));
    if k in z && IndexOf(z[k], rr) != -1 {
      var i := IndexOf(z[k], rr);
      RemovedIds(k, z[k], i);
      assert StoreOk(z');
      forall id ensures id in Ids(z') <==> id in Ids(z) - {Ident(rr)} {
        IdsHas(z, id);
        IdsHas(z', id);
      }
    }
  }

  /** A SOA with another serial takes the first SOA with it. */
  lemma DeleteOtherSoa(z: Store, apex: Name, rr: RR)
    requires StoreOk(z) && Ident(rr) !in Ids(z) && rr.rrtype == TYPE_SOA && rr.owner == apex && KeyOf(rr) in z
    ensures StoreOk(DeleteFrom(z, apex, rr)) && Ids(DeleteFrom(z, apex, rr)) == Ids(z) - {Ident(z[KeyOf(rr)][0])}
  {
    var k := KeyOf(rr);
    var z' := DeleteFrom(z, apex, rr);
    assert KeyOf(Ident(rr)) == k;
    IdsHas(z, Ident(rr));
    RemovedIds(k, z[k], 0);
    assert StoreOk(z');
    forall id ensures id in Ids(z') <==> id in Ids(z) - {Ident(z[k][0])} {
      IdsHas(z, id);
      IdsHas(z', id);
    }
  }

  // -------------------------------------------------------------------- the code

  /** find_rr_num */
  method FindRRNum(rrs: seq<RR>, rr: RR) returns (num: int)
    ensures num == IndexOf(rrs, rr)
  {
    var i := 0;
    while i < |rrs|
      invariant 0 <= i <= |rrs|
      invariant IndexOf(rrs, rr) == if IndexOf(rrs[i..], rr) == -1 then -1 else i + IndexOf(rrs[i..], rr)
    {
      if Ident(rrs[i]) == Ident(rr) { return i; }
      assert rrs[i..][1..] == rrs[i + 1..];
      i := i + 1;
    }
    num := -1;
  }

  class Zone {
    const apex: Name
    var rrsets: Store

    constructor (apex: Name)
      ensures this.apex == apex && rrsets == map[]
    {
      this.apex := apex;
      rrsets := map[];
    }

    /** add_RR */
    method AddRR(rr: RR) returns (ok: bool, softfail: bool)
      requires StoreOk(rrsets)
      modifies this`rrsets
      ensures StoreOk(rrsets) && ok == AddTo(old(rrsets), rr).Some?
              && rrsets == (if ok then AddTo(old(rrsets), rr).value else old(rrsets))
      ensures softfail == (Ident(rr) in Ids(old(rrsets)))
    {
      AddToIds(rrsets, rr);
      IdsHas(rrsets, Ident(rr));
      var k := KeyOf(rr);
      var rrs := if k in rrsets then rrsets[k] else [];
      var num := FindRRNum(rrs, rr);
      if num != -1 { return true, true; }
      if |rrs| == MAX_RRS { return false, false; }
      rrsets := rrsets[k := rrs + [rr]];
      ok, softfail := true, false;
    }

    /** delete_RR */
    method DeleteRR(rr: RR) returns (softfail: bool)
      modifies this`rrsets
      ensures rrsets == DeleteFrom(old(rrsets), apex, rr)
      ensures softfail ==> rrsets == old(rrsets)
    {
      var k := KeyOf(rr);
      if k !in rrsets { return true; }
      var rrs := rrsets[k];
      var num := FindRRNum(rrs, rr);
      if num == -1 && rr.rrtype == TYPE_SOA && rr.owner == apex && |rrs| != 0 { num := 0; }
      if num == -1 { return true; }
      if |rrs| == 1 {
        rrsets := rrsets - {k};
      } else {
        var last := |rrs| - 1;
        if num < last { rrs := rrs[num := rrs[last]]; }
        rrs := rrs[..last];
        rrsets := rrsets[k := rrs];
      }
      softfail := false;
    }
  }
}
