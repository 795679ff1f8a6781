/** Producing a full zone transfer message by message, after query_axfr in axfr.c, and what a secondary makes of it. */
module Axfr {
  import opened Bytes
  import opened Dname
  import opened ZoneData
  import Ixfr

  /** An RRset in the database: which one it is, its zone, its type and its records. */
  datatype RRset = RRset(id: nat, zone: nat, rrtype: nat, rrs: seq<RR>)

  /** A domain of the table with its RRsets; the table is in canonical order. */
  datatype Node = Node(name: Name, rrsets: seq<RRset>)

  /** The zone to transfer: the table, the zone, its apex and where it is, and its SOA. */
  datatype Source = Source(table: seq<Node>, zone: nat, apex: nat, soaId: nat, soa: RR)

  ghost predicate Sorted(table: seq<Node>)
  {
    forall i, j {:trigger NameLess(table[i].name, table[j].name)} :: 0 <= i < j < |table| ==>
      NameLess(table[i].name, table[j].name)
  }

  /** What an RRset contributes between the two SOAs. */
  function SetRRs(s: Source, rs: RRset): (rrs: seq<RR>)
  {
    if rs.id != s.soaId && rs.zone == s.zone then rs.rrs else []
  }

  /** What a domain contributes from its RRset number `i` on. */
  function NodeRRs(s: Source, sets: seq<RRset>, i: nat): (rrs: seq<RR>)
    decreases |sets| - i
  {
    if i >= |sets| then [] else SetRRs(s, sets[i]) + NodeRRs(s, sets, i + 1)
  }

  predicate InZone(s: Source, n: nat)
    requires s.apex < |s.table|
  {
    n < |s.table| && s.table[s.apex].name <= s.table[n].name
  }

  /** What the domains from `n` on contribute, up to the first one outside the zone. */
  function Body(s: Source, n: nat): (rrs: seq<RR>)
    requires s.apex < |s.table|
    decreases |s.table| - n
  {
    if !InZone(s, n) then [] else NodeRRs(s, s.table[n].rrsets, 0) + Body(s, n + 1)
  }

  /** Where the transfer is: the domain, the RRset if one is open, and the record in it. */
  datatype Cursor = Cursor(domain: nat, rrset: Option<nat>, rr: nat)

  ghost predicate CursorOk(s: Source, c: Cursor)
  {
    && s.apex < |s.table| && s.apex <= c.domain
    && (forall m {:trigger InZone(s, m)} :: s.apex <= m < c.domain ==> InZone(s, m))
    && (c.rrset.Some? ==> InZone(s, c.domain) && c.rrset.value < |s.table[c.domain].rrsets|
                          && c.rr <= |s.table[c.domain].rrsets[c.rrset.value].rrs|)
  }

  /** How many records of the body are left. */
  ghost function Left(s: Source, c: Cursor): (n: nat)
    requires CursorOk(s, c)
  {
    if c.rrset.None? then BodyLen(s, c.domain)
    else
      var sets, i := s.table[c.domain].rrsets, c.rrset.value;
      (if Wanted(s, sets[i]) then |sets[i].rrs| - c.rr else 0) + NodeLen(s, sets, i + 1) + BodyLen(s, c.domain + 1)
  }

  predicate Wanted(s: Source, rs: RRset)
  {
    rs.id != s.soaId && rs.zone == s.zone
  }

  function NodeLen(s: Source, sets: seq<RRset>, i: nat): (n: nat)
    decreases |sets| - i
  {
    if i >= |sets| then 0 else (if Wanted(s, sets[i]) then |sets[i].rrs| else 0) + NodeLen(s, sets, i + 1)
  }

  function BodyLen(s: Source, n: nat): (l: nat)
    requires s.apex < |s.table|
    decreases |s.table| - n
  {
    if !InZone(s, n) then 0 else NodeLen(s, s.table[n].rrsets, 0) + BodyLen(s, n + 1)
  }

  lemma {:induction false} NodeLenIs(s: Source, sets: seq<RRset>, i: nat)
    ensures NodeLen(s, sets, i) == |NodeRRs(s, sets, i)|
    decreases |sets| - i
  {
    if i < |sets| { NodeLenIs(s, sets, i + 1); }
  }

  lemma {:induction false} BodyLenIs(s: Source, n: nat)
    requires s.apex < |s.table|
    ensures BodyLen(s, n) == |Body(s, n)|
    decreases |s.table| - n
  {
    if InZone(s, n) {
      NodeLenIs(s, s.table[n].rrsets, 0);
      BodyLenIs(s, n + 1);
    }
  }

  /** Record number `k` of RRset `i` of a domain, within what the domain contributes. */
  lemma {:induction false} NodeRecord(s: Source, sets: seq<RRset>, i: nat, from: nat, k: nat)
    requires from <= i < |sets| && Wanted(s, sets[i]) && k < |sets[i].rrs|
    ensures var n := NodeLen(s, sets, from) - NodeLen(s, sets, i) + k;
            0 <= n < |NodeRRs(s, sets, from)| && NodeRRs(s, sets, from)[n] == sets[i].rrs[k]
            && NodeLen(s, sets, i) <= NodeLen(s, sets, from)
    decreases i - from
  {
    if from < i { NodeRecord(s, sets, i, from + 1, k); }
  }

  /** Record number `k` of domain `d`, within what the domains from `n` on contribute. */
  lemma {:induction false} BodyRecord(s: Source, d: nat, n: nat, k: nat)
    requires s.apex < |s.table| && n <= d < |s.table| && (forall m :: n <= m <= d ==> InZone(s, m))
             && k < |NodeRRs(s, s.table[d].rrsets, 0)|
    ensures var e := BodyLen(s, n) - BodyLen(s, d) + k;
            0 <= e < |Body(s, n)| && Body(s, n)[e] == NodeRRs(s, s.table[d].rrsets, 0)[k]
    decreases d - n
  {
    assert InZone(s, n);
    var node := NodeRRs(s, s.table[n].rrsets, 0);
    NodeLenIs(s, s.table[n].rrsets, 0);
    if n < d {
      BodyRecord(s, d, n + 1, k);
      var e := BodyLen(s, n + 1) - BodyLen(s, d) + k;
      assert (node + Body(s, n + 1))[|node| + e] == Body(s, n + 1)[e];
    } else {
      assert (node + Body(s, n + 1))[k] == node[k];
    }
  }

  /** The record under the cursor. */
  ghost predicate OnRecord(s: Source, c: Cursor)
  {
    && CursorOk(s, c) && c.rrset.Some?
    && var rs := s.table[c.domain].rrsets[c.rrset.value];
       Wanted(s, rs) && c.rr < |rs.rrs|
  }

  ghost function RecordAt(s: Source, c: Cursor): RR
    requires OnRecord(s, c)
  {
    s.table[c.domain].rrsets[c.rrset.value].rrs[c.rr]
  }

  /** The record under the cursor is the first of those of `b` that are left. */
  ghost predicate Follows(s: Source, b: seq<RR>)
    requires s.apex < |s.table|
  {
    && |b| == BodyLen(s, s.apex)
    && forall c {:trigger RecordAt(s, c)} :: OnRecord(s, c) ==>
         0 < Left(s, c) <= |b| && b[|b| - Left(s, c)] == RecordAt(s, c)
  }

  lemma BodyFollows(s: Source)
    requires s.apex < |s.table|
    ensures Follows(s, Body(s, s.apex))
  {
    var b := Body(s, s.apex);
    BodyLenIs(s, s.apex);
    forall c | OnRecord(s, c) ensures 0 < Left(s, c) <= |b| && b[|b| - Left(s, c)] == RecordAt(s, c) {
      var sets, i := s.table[c.domain].rrsets, c.rrset.value;
      NodeRecord(s, sets, i, 0, c.rr);
      BodyRecord(s, c.domain, s.apex, NodeLen(s, sets, 0) - NodeLen(s, sets, i) + c.rr);
    }
  }

  /** domain_find_any_rrset: the first RRset of the zone. */
  method FindAnyRRset(s: Source, sets: seq<RRset>) returns (r: Option<nat>)
    ensures r.Some? ==> r.value < |sets| && NodeLen(s, sets, 0) == NodeLen(s, sets, r.value)
    ensures r.None? ==> NodeLen(s, sets, 0) == 0
  {
    var i := 0;
    while i < |sets|
      invariant 0 <= i <= |sets| && NodeLen(s, sets, 0) == NodeLen(s, sets, i)
    {
      if sets[i].zone == s.zone { return Some(i); }
      i := i + 1;
    }
    r := None;
  }

  /** Message number, records in the message so far, next record: does it fit? */
  type Capacity = (nat, seq<RR>, RR) -> bool

  /** Each record of the transfer fits into an empty message. */
  ghost predicate Ample(s: Source, b: seq<RR>, fits: Capacity)
  {
    forall n, rr :: rr == s.soa || rr in b ==> fits(n, [], rr)
  }

  class Producer {
    const s: Source
    const fits: Capacity
    /** The whole body, for the specification. */
    ghost const b: seq<RR>
    var started: bool
    var isDone: bool
    var domain: nat
    var rrset: Option<nat>
    var rr: nat
    var messages: nat

    ghost function At(): Cursor
      reads this`domain, this`rrset, this`rr
    {
      Cursor(domain, rrset, rr)
    }

    ghost predicate Valid()
      reads this`domain, this`rrset, this`rr
    {
      CursorOk(s, At()) && Left(s, At()) <= |b| && Follows(s, b)
    }

    constructor (s: Source, fits: Capacity)
      requires s.apex < |s.table|
      ensures Valid() && this.s == s && this.fits == fits && b == Body(s, s.apex) && !started && !isDone
              && messages == 0 && Left(s, At()) == |b|
    {
      BodyFollows(s);
      this.s, this.fits, this.b := s, fits, Body(s, s.apex);
      started, isDone, domain, rrset, rr, messages := false, false, s.apex, None, 0, 0;
    }

    /** The message is full: the next record of the body does not fit. */
    ghost predicate Full(msg: seq<RR>)
      requires Valid()
      reads this
    {
      Left(s, At()) > 0 && !fits(messages, msg, b[|b| - Left(s, At())])
    }

    /** The message got the records of the body that were left and now are not. */
    ghost predicate Got(msg0: seq<RR>, msg: seq<RR>, left0: nat)
      reads this`domain, this`rrset, this`rr
    {
      Valid() && Left(s, At()) <= left0 <= |b| && msg == msg0 + b[|b| - left0..|b| - Left(s, At())]
    }

    /** The innermost loop: records of the current RRset; false when the message is full. */
    method CopyRRset(msg0: seq<RR>, ghost first: seq<RR>, ghost left0: nat) returns (msg: seq<RR>, room: bool)
      requires Got(first, msg0, left0) && rrset.Some? && Wanted(s, s.table[domain].rrsets[rrset.value])
      modifies this`rr
      ensures Got(first, msg, left0)
      ensures if room then rr == |s.table[domain].rrsets[rrset.value].rrs| else Full(msg)
    {
      msg := msg0;
      var rrs := s.table[domain].rrsets[rrset.value].rrs;
      while rr < |rrs|
        invariant Got(first, msg, left0)
      {
        assert rrs[rr] == RecordAt(s, At());
        if !fits(messages, msg, rrs[rr]) { return msg, false; }
        msg := msg + [rrs[rr]];
        rr := rr + 1;
      }
      room := true;
    }

    /** The step to the next RRset or domain. */
    method Advance()
      requires Valid() && rrset.Some?
      requires var rs := s.table[domain].rrsets[rrset.value]; !Wanted(s, rs) || rr == |rs.rrs|
      modifies this`domain, this`rrset, this`rr
      ensures Valid() && Left(s, At()) == old(Left(s, At()))
      ensures if rrset.Some? then domain == old(domain) && rrset.value > old(rrset).value else domain == old(domain) + 1
    {
      if rrset.value + 1 < |s.table[domain].rrsets| {
        rrset, rr := Some(rrset.value + 1), 0;
      } else {
        rrset, rr, domain := None, 0, domain + 1;
      }
    }

    /** The loop over the RRsets of one domain. */
    method CopyNode(msg0: seq<RR>, ghost first: seq<RR>, ghost left0: nat) returns (msg: seq<RR>, room: bool)
      requires Got(first, msg0, left0) && rrset.Some?
      modifies this`domain, this`rrset, this`rr
      ensures Got(first, msg, left0)
      ensures if room then rrset.None? && domain == old(domain) + 1 else Full(msg)
    {
      msg := msg0;
      while rrset.Some?
        invariant Got(first, msg, left0) && domain == old(domain) + if rrset.Some? then 0 else 1
        decreases if rrset.Some? then |s.table[domain].rrsets| - rrset.value else -1
      {
        var rs := s.table[domain].rrsets[rrset.value];
        if rs.id != s.soaId && rs.zone == s.zone {
          msg, room := CopyRRset(msg, first, left0);
          if !room { return; }
        }
        Advance();
      }
      room := true;
    }

    /** The loop over the domains of the zone. */
    method CopyZone(msg0: seq<RR>, ghost first: seq<RR>, ghost left0: nat) returns (msg: seq<RR>, room: bool)
      requires Got(first, msg0, left0)
      modifies this`domain, this`rrset, this`rr
      ensures Got(first, msg, left0)
      ensures if room then Left(s, At()) == 0 else Full(msg)
    {
      msg := msg0;
      while domain < |s.table| && s.table[s.apex].name <= s.table[domain].name
        invariant Got(first, msg, left0)
        decreases |s.table| - domain
      {
        var open := Enter();
        if open {
          msg, room := CopyNode(msg, first, left0);
          if !room { return; }
        }
      }
      room := true;
    }

    /** The first RRset of a domain is opened; a domain without one is passed over. */
    method Enter() returns (open: bool)
      requires Valid() && InZone(s, domain)
      modifies this`domain, this`rrset, this`rr
      ensures Valid() && Left(s, At()) == old(Left(s, At()))
      ensures open == rrset.Some? && domain == old(domain) + if open then 0 else 1
    {
      if rrset.None? {
        rrset := FindAnyRRset(s, s.table[domain].rrsets);
        rr := 0;
      }
      open := rrset.Some?;
      if !open { domain := domain + 1; }
    }

    /** How many records are still to come, the SOAs included. */
    ghost function Due(): nat
      requires Valid()
      reads this
    {
      if isDone then 0 else if !started then |b| + 2 else Left(s, At()) + 1
    }

    /** query_axfr: one message; it continues the records where the last one ended. */
    method Message() returns (msg: seq<RR>)
      requires Valid() && Ample(s, b, fits) && (!started ==> Left(s, At()) == |b|)
      modifies this
      ensures Valid() && (started || old(isDone)) && Due() <= old(Due()) <= |b| + 2
      ensures msg == Slice(s.soa, b, old(Due()), Due())
      ensures !old(isDone) ==> msg != []
    {
      if isDone { return []; }
      msg := Start();
      ghost var due := Due();
      var m := msg;
      var room;
      msg, room := Fill(m);
      SliceJoin(s.soa, b, old(Due()), due, Due());
      due := Due();
      m := msg;
      msg := Finish(m, room);
      SliceJoin(s.soa, b, old(Due()), due, Due());
    }

    /** The first message begins with the SOA. */
    method Start() returns (msg: seq<RR>)
      requires Valid() && !isDone && (!started ==> Left(s, At()) == |b|)
      modifies this`started, this`domain, this`rrset, this`rr
      ensures Valid() && started && Due() <= old(Due()) && msg == Slice(s.soa, b, old(Due()), Due())
    {
      if started { return []; }
      started, domain, rrset, rr := true, s.apex, None, 0;
      msg := [s.soa];
    }

    /** Then come as many records of the body as fit. */
    method Fill(msg0: seq<RR>) returns (msg: seq<RR>, room: bool)
      requires Valid() && started && !isDone
      modifies this`domain, this`rrset, this`rr
      ensures Valid() && Due() <= old(Due()) && msg == msg0 + Slice(s.soa, b, old(Due()), Due())
      ensures (room ==> Due() == 1) && (!room ==> exists rr :: rr in b && !fits(messages, msg, rr))
    {
      ghost var left0 := Left(s, At());
      msg, room := CopyZone(msg0, msg0, left0);
      SliceBody(s.soa, b, left0, Left(s, At()));
    }

    /** After the last record of the body comes the SOA again, if it fits. */
    method Finish(msg0: seq<RR>, room: bool) returns (msg: seq<RR>)
      requires Valid() && started && !isDone && (room ==> Due() == 1)
      modifies this`isDone, this`messages
      ensures Due() <= old(Due()) && msg == msg0 + Slice(s.soa, b, old(Due()), Due())
      ensures room && old(fits(messages, msg0, s.soa)) ==> msg != []
    {
      msg := msg0;
      if room && fits(messages, msg, s.soa) {
        msg := msg + [s.soa];
        isDone := true;
      }
      messages := messages + 1;
    }
  }

  /** The records of the whole transfer between two numbers of records due. */
  ghost function Slice(soa: RR, b: seq<RR>, more: nat, less: nat): (r: seq<RR>)
    requires less <= more <= |b| + 2
    ensures |r| == more - less
  {
    Ixfr.AxfrRRs(soa, b)[|b| + 2 - more..|b| + 2 - less]
  }

  lemma SliceJoin(soa: RR, b: seq<RR>, x: nat, y: nat, z: nat)
    requires z <= y <= x <= |b| + 2
    ensures Slice(soa, b, x, y) + Slice(soa, b, y, z) == Slice(soa, b, x, z)
  {
  }

  lemma SliceBody(soa: RR, b: seq<RR>, x: nat, y: nat)
    requires y <= x <= |b|
    ensures Slice(soa, b, x + 1, y + 1) == b[|b| - x..|b| - y]
  {
  }

  /** The messages of a whole transfer: SOA, body, SOA, and none of them empty. */
  method Transfer(s: Source, fits: Capacity) returns (parts: seq<seq<RR>>)
    requires s.apex < |s.table| && Ample(s, Body(s, s.apex), fits)
    ensures Ixfr.Concat(parts) == Ixfr.AxfrRRs(s.soa, Body(s, s.apex))
    ensures parts != [] && forall i :: 0 <= i < |parts| ==> parts[i] != []
  {
    var p := new Producer(s, fits);
    parts := [];
    ghost var total := |p.b| + 2;
    while !p.isDone
      invariant p.Valid() && (p.isDone ==> parts != []) && (!p.started ==> Left(s, p.At()) == |p.b|)
      invariant p.Due() <= total && Ixfr.Concat(parts) == Slice(s.soa, p.b, total, p.Due())
      invariant forall i :: 0 <= i < |parts| ==> parts[i] != []
      decreases p.Due()
    {
      ghost var due := p.Due();
      var msg := p.Message();
      ConcatSnoc(parts, msg);
      SliceJoin(s.soa, p.b, total, due, p.Due());
      parts := parts + [msg];
    }
  }

  lemma {:induction false} ConcatSnoc(parts: seq<seq<RR>>, msg: seq<RR>)
    ensures Ixfr.Concat(parts + [msg]) == Ixfr.Concat(parts) + msg
    decreases |parts|
  {
    if parts == [] {
      assert [msg][1..] == [];
    } else {
      ConcatSnoc(parts[1..], msg);
      assert (parts + [msg])[1..] == parts[1..] + [msg];
    }
  }

  // -------------------------------------------------------------------- what the body is

  /** What all domains from `n` on contribute, wherever they are. */
  function ZoneRRs(s: Source, n: nat): (rrs: seq<RR>)
    decreases |s.table| - n
  {
    if n >= |s.table| then [] else NodeRRs(s, s.table[n].rrsets, 0) + ZoneRRs(s, n + 1)
  }

  /** The RRsets of the zone are at names in the zone. */
  ghost predicate Inside(s: Source)
    requires s.apex < |s.table|
  {
    forall n, i :: 0 <= n < |s.table| && 0 <= i < |s.table[n].rrsets| && s.table[n].rrsets[i].zone == s.zone ==>
      InZone(s, n)
  }

  lemma {:induction false} OutsideNode(s: Source, n: nat, i: nat)
    requires s.apex < |s.table| && Inside(s) && n < |s.table| && !InZone(s, n)
    ensures NodeRRs(s, s.table[n].rrsets, i) == []
    decreases |s.table[n].rrsets| - i
  {
    if i < |s.table[n].rrsets| { OutsideNode(s, n, i + 1); }
  }

  /** Below the apex the table is contiguous: after the first name outside the zone there is none inside. */
  lemma {:induction false} NothingLater(s: Source, n: nat, k: nat)
    requires s.apex < |s.table| && Inside(s) && Sorted(s.table) && s.apex <= n < |s.table| && !InZone(s, n) && n <= k
    ensures ZoneRRs(s, k) == []
    decreases |s.table| - k
  {
    if k < |s.table| {
      if InZone(s, k) {
        SubtreeContiguous(s.table[s.apex].name, s.table[s.apex].name, s.table[n].name, s.table[k].name);
      }
      OutsideNode(s, k, 0);
      NothingLater(s, n, k + 1);
    }
  }

  lemma {:induction false} BodyIsRest(s: Source, n: nat)
    requires s.apex < |s.table| && Inside(s) && Sorted(s.table) && s.apex <= n
    ensures Body(s, n) == ZoneRRs(s, n)
    decreases |s.table| - n
  {
    if n < |s.table| {
      if InZone(s, n) { BodyIsRest(s, n + 1); } else { NothingLater(s, n, n); }
    }
  }

  /** The apex comes first among the names of the zone. */
  lemma {:induction false} NothingEarlier(s: Source, n: nat)
    requires s.apex < |s.table| && Inside(s) && Sorted(s.table) && n <= s.apex
    ensures ZoneRRs(s, n) == ZoneRRs(s, s.apex)
    decreases s.apex - n
  {
    if n < s.apex {
      if InZone(s, n) {
        assert NameLess(s.table[n].name, s.table[s.apex].name);
        if s.table[s.apex].name != s.table[n].name { AncestorLess(s.table[s.apex].name, s.table[n].name); }
        NameAsymmetric(s.table[n].name, s.table[s.apex].name);
      }
      OutsideNode(s, n, 0);
      NothingEarlier(s, n + 1);
    }
  }

  /** The body of the transfer is every record of the zone but the SOA, once, in canonical order of the owners. */
  lemma BodyIsZone(s: Source)
    requires s.apex < |s.table| && Inside(s) && Sorted(s.table)
    ensures Body(s, s.apex) == ZoneRRs(s, 0)
  {
    BodyIsRest(s, s.apex);
    NothingEarlier(s, 0);
  }

  // -------------------------------------------------------------------- from the primary to the secondary

  /** What the database of the primary keeps: one RRset per owner and type, with at most 65535 records of that
      owner and type, and the SOA at the apex as the only SOA. */
  ghost predicate PrimaryOk(s: Source)
  {
    && s.apex < |s.table| && Sorted(s.table) && Inside(s)
    && s.soa.owner == s.table[s.apex].name && s.soa.rrtype == TYPE_SOA && s.soa.klass == Ixfr.CLASS_IN
    && forall n :: 0 <= n < |s.table| ==> NodeOk(s, s.table[n])
  }

  ghost predicate NodeOk(s: Source, d: Node)
  {
    && (forall i :: 0 <= i < |d.rrsets| && Wanted(s, d.rrsets[i]) ==> SetOk(d.name, d.rrsets[i]))
    && (forall i, j :: 0 <= i < j < |d.rrsets| && Wanted(s, d.rrsets[i]) && Wanted(s, d.rrsets[j]) ==>
          d.rrsets[i].rrtype != d.rrsets[j].rrtype)
  }

  ghost predicate SetOk(name: Name, rs: RRset)
  {
    && |rs.rrs| <= MAX_RRS && rs.rrtype != TYPE_SOA && rs.rrtype != Ixfr.TYPE_TSIG && rs.rrtype != Ixfr.TYPE_OPT
    && (forall k :: 0 <= k < |rs.rrs| ==> KeyOf(rs.rrs[k]) == (name, rs.rrtype))
    && (forall k, m :: 0 <= k < m < |rs.rrs| ==> Ident(rs.rrs[k]) != Ident(rs.rrs[m]))
  }

  /** How many records belong to an RRset. */
  function CountKey(rrs: seq<RR>, k: (Name, nat)): (n: nat)
  {
    if rrs == [] then 0 else (if KeyOf(rrs[0]) == k then 1 else 0) + CountKey(rrs[1..], k)
  }

  lemma {:induction false} UnderCount(rrs: seq<RR>, k: (Name, nat))
    ensures |Ixfr.Under(IdentSet(rrs), k)| <= CountKey(rrs, k)
  {
    if rrs != [] {
      var id := Ident(rrs[0]);
      Ixfr.IdentSetCons(rrs);
      UnderCount(rrs[1..], k);
      assert KeyOf(id) == KeyOf(rrs[0]);
      assert Ixfr.Under(IdentSet(rrs), k)
             == (if KeyOf(id) == k then {id} else {}) + Ixfr.Under(IdentSet(rrs[1..]), k);
    } else {
      assert Ixfr.Under(IdentSet(rrs), k) == {};
    }
  }

  lemma {:induction false} CountAppend(a: seq<RR>, b: seq<RR>, k: (Name, nat))
    ensures CountKey(a + b, k) == CountKey(a, k) + CountKey(b, k)
  {
    if a == [] {
      assert a + b == b;
    } else {
      assert (a + b)[1..] == a[1..] + b;
      CountAppend(a[1..], b, k);
    }
  }

  lemma {:induction false} CountSet(rrs: seq<RR>, q: (Name, nat), k: (Name, nat))
    requires forall i :: 0 <= i < |rrs| ==> KeyOf(rrs[i]) == q
    ensures CountKey(rrs, k) == if k == q then |rrs| else 0
  {
    if rrs != [] { CountSet(rrs[1..], q, k); }
  }

  /** RRset `i` of a domain or a later one has this type. */
  ghost predicate TypeLater(s: Source, d: Node, i: nat, t: nat)
  {
    exists j :: i <= j < |d.rrsets| && Wanted(s, d.rrsets[j]) && d.rrsets[j].rrtype == t
  }

  lemma {:induction false} CountNode(s: Source, d: Node, i: nat, k: (Name, nat))
    requires NodeOk(s, d)
    ensures CountKey(NodeRRs(s, d.rrsets, i), k) <= MAX_RRS
    ensures k.0 != d.name || !TypeLater(s, d, i, k.1) ==> CountKey(NodeRRs(s, d.rrsets, i), k) == 0
    ensures Ixfr.Ordinary(NodeRRs(s, d.rrsets, i))
    decreases |d.rrsets| - i
  {
    if i < |d.rrsets| {
      var rs := d.rrsets[i];
      CountNode(s, d, i + 1, k);
      CountAppend(SetRRs(s, rs), NodeRRs(s, d.rrsets, i + 1), k);
      if Wanted(s, rs) {
        CountSet(rs.rrs, (d.name, rs.rrtype), k);
        if k == (d.name, rs.rrtype) { assert !TypeLater(s, d, i + 1, k.1); }
      }
    }
  }

  lemma {:induction false} CountZone(s: Source, n: nat, k: (Name, nat))
    requires Sorted(s.table) && forall m :: 0 <= m < |s.table| ==> NodeOk(s, s.table[m])
    ensures CountKey(ZoneRRs(s, n), k) <= MAX_RRS
    ensures (forall m :: n <= m < |s.table| ==> s.table[m].name != k.0) ==> CountKey(ZoneRRs(s, n), k) == 0
    ensures k.1 == TYPE_SOA ==> CountKey(ZoneRRs(s, n), k) == 0
    ensures Ixfr.Ordinary(ZoneRRs(s, n))
    decreases |s.table| - n
  {
    if n < |s.table| {
      var d := s.table[n];
      CountNode(s, d, 0, k);
      CountZone(s, n + 1, k);
      CountAppend(NodeRRs(s, d.rrsets, 0), ZoneRRs(s, n + 1), k);
      if k.0 == d.name {
        forall m | n + 1 <= m < |s.table| ensures s.table[m].name != k.0 {
          if s.table[m].name == d.name { NameIrreflexive(d.name); }
        }
      }
    }
  }

  /** A key that does not occur is the key of none of the records. */
  lemma {:induction false} CountZero(rrs: seq<RR>, k: (Name, nat), i: nat)
    requires CountKey(rrs, k) == 0 && i < |rrs|
    ensures KeyOf(rrs[i]) != k
  {
    if i > 0 { CountZero(rrs[1..], k, i - 1); }
  }

  /** Records of different keys are different. */
  lemma AllNewAppend(a: seq<RR>, b: seq<RR>)
    requires Ixfr.AllNew({}, a) && Ixfr.AllNew({}, b) && forall i :: 0 <= i < |a| ==> CountKey(b, KeyOf(a[i])) == 0
    ensures Ixfr.AllNew({}, a + b)
  {
    var c := a + b;
    forall i, j | 0 <= i < j < |c| ensures Ident(c[i]) != Ident(c[j]) {
      if i < |a| <= j {
        CountZero(b, KeyOf(a[i]), j - |a|);
        assert KeyOf(Ident(c[i])) == KeyOf(c[i]) && KeyOf(Ident(c[j])) == KeyOf(c[j]);
      }
    }
  }

  lemma {:induction false} NodeAllNew(s: Source, d: Node, i: nat)
    requires NodeOk(s, d)
    ensures Ixfr.AllNew({}, NodeRRs(s, d.rrsets, i))
            && forall k :: 0 <= k < |NodeRRs(s, d.rrsets, i)| ==> NodeRRs(s, d.rrsets, i)[k].owner == d.name
    decreases |d.rrsets| - i
  {
    if i < |d.rrsets| {
      var rs := d.rrsets[i];
      NodeAllNew(s, d, i + 1);
      if Wanted(s, rs) {
        CountNode(s, d, i + 1, (d.name, rs.rrtype));
        assert !TypeLater(s, d, i + 1, rs.rrtype);
        AllNewAppend(rs.rrs, NodeRRs(s, d.rrsets, i + 1));
      }
    }
  }

  lemma {:induction false} ZoneAllNew(s: Source, n: nat)
    requires Sorted(s.table) && forall m :: 0 <= m < |s.table| ==> NodeOk(s, s.table[m])
    ensures Ixfr.AllNew({}, ZoneRRs(s, n))
    decreases |s.table| - n
  {
    if n < |s.table| {
      var d := s.table[n];
      var a, b := NodeRRs(s, d.rrsets, 0), ZoneRRs(s, n + 1);
      NodeAllNew(s, d, 0);
      ZoneAllNew(s, n + 1);
      forall i | 0 <= i < |a| ensures CountKey(b, KeyOf(a[i])) == 0 {
        OtherNames(s, n);
        CountZone(s, n + 1, KeyOf(a[i]));
      }
      AllNewAppend(a, b);
    }
  }

  lemma OtherNames(s: Source, n: nat)
    requires Sorted(s.table) && n < |s.table|
    ensures forall m :: n + 1 <= m < |s.table| ==> s.table[m].name != s.table[n].name
  {
    forall m | n + 1 <= m < |s.table| ensures s.table[m].name != s.table[n].name {
      assert NameLess(s.table[n].name, s.table[m].name);
      NameIrreflexive(s.table[n].name);
    }
  }

  lemma PrimaryRoom(s: Source)
    requires PrimaryOk(s)
    ensures Ixfr.Ordinary(ZoneRRs(s, 0)) && Ixfr.Fits(IdentSet(ZoneRRs(s, 0)) + {Ident(s.soa)})
  {
    var rrs := [s.soa] + ZoneRRs(s, 0);
    CountZone(s, 0, KeyOf(s.soa));
    Ixfr.IdentSetCons(rrs);
    assert rrs[1..] == ZoneRRs(s, 0);
    assert IdentSet(rrs) == IdentSet(ZoneRRs(s, 0)) + {Ident(s.soa)};
    forall k ensures |Ixfr.Under(IdentSet(rrs), k)| <= MAX_RRS {
      CountZone(s, 0, k);
      CountAppend([s.soa], ZoneRRs(s, 0), k);
      CountSet([s.soa], KeyOf(s.soa), k);
      UnderCount(rrs, k);
    }
  }

  /** Whatever the secondary had before, and whatever the size of the messages: after the transfer it has exactly
      the records of the zone on the primary. */
  method Replicate(s: Source, fits: Capacity, zone: Zone) returns (code: nat)
    requires PrimaryOk(s) && Ample(s, Body(s, s.apex), fits) && StoreOk(zone.rrsets)
             && zone.apex == s.table[s.apex].name
    modifies zone`rrsets
    ensures code == 1 && StoreOk(zone.rrsets) && Records(zone.rrsets) == (set rr | rr in ZoneRRs(s, 0)) + {s.soa}
  {
    var parts := Transfer(s, fits);
    var j := Ixfr.Job(zone.apex, s.soa.serial);
    var applier := new Ixfr.Applier(j, zone);
    BodyIsZone(s);
    PrimaryRoom(s);
    ZoneAllNew(s, 0);
    Ixfr.AxfrApplied(j, zone.rrsets, s.soa, ZoneRRs(s, 0), parts);
    code := applier.ApplyAll(parts);
  }
}
