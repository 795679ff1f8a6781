/** Writing a prepared answer into the message section by section, with truncation, after
    packet_encode_rrset in packet.c and encode_answer in answer.c. */
module Answer {
  import opened Bytes
  import opened Wire
  import opened Packet
  import ZoneData

  const ANSWER := 1
  const AUTHORITY := 2
  const OPTIONAL_AUTHORITY := 3
  const ADDITIONAL_A := 4
  const ADDITIONAL_AAAA := 5
  const ADDITIONAL_OTHER := 6
  const RR_SECTION_COUNT := 7
  const TYPE_RRSIG := 46
  const IPV4_MINIMAL_RESPONSE_SIZE := 1480
  const IPV6_MINIMAL_RESPONSE_SIZE := 1220

  /** A signature record and the type it covers. */
  datatype Sig = Sig(covered: nat, rr: RR)

  /** An RRset, whether its zone is signed, and the RRSIG records at its owner. */
  datatype RRset = RRset(id: nat, rrtype: nat, rrs: seq<RR>, secure: bool, rrsigs: seq<Sig>)

  datatype Entry = Entry(section: nat, owner: Domain, rrset: RRset)

  type Item = (Domain, RR)

  /** Owners and contents of the records in the message. */
  ghost function Items(kept: seq<Record>): (items: seq<Item>)
    ensures |items| == |kept|
  {
    seq(|kept|, i requires 0 <= i < |kept| => (kept[i].owner, kept[i].rr))
  }

  function Owned(owner: Domain, rrs: seq<RR>): (items: seq<Item>)
    ensures |items| == |rrs|
  {
    seq(|rrs|, i requires 0 <= i < |rrs| => (owner, rrs[i]))
  }

  /** The signatures over the RRset; those over the SOA get the TTL of the SOA. */
  function Covering(rs: RRset, n: nat): (rrs: seq<RR>)
    requires n <= |rs.rrsigs| && |rs.rrs| > 0
  {
    if n == 0 then []
    else
      var sig := rs.rrsigs[n - 1];
      Covering(rs, n - 1) +
      if sig.covered != rs.rrtype then []
      else [if rs.rrtype == ZoneData.TYPE_SOA then sig.rr.(ttl := rs.rrs[0].ttl) else sig.rr]
  }

  function Signatures(rs: RRset, dnssecOk: bool): (rrs: seq<RR>)
    requires |rs.rrs| > 0
  {
    if dnssecOk && rs.secure && rs.rrtype != TYPE_RRSIG then Covering(rs, |rs.rrsigs|) else []
  }

  /** The complete RRset from a given start, with its signatures when they are asked for. */
  function Wanted(rs: RRset, dnssecOk: bool, start: nat): (rrs: seq<RR>)
    requires start < |rs.rrs|
    ensures |rrs| > 0
  {
    rs.rrs[start..] + rs.rrs[..start] + Signatures(rs, dnssecOk)
  }

  /** Whatever the start, nothing is missing and nothing is repeated. */
  lemma WantedIsComplete(rs: RRset, dnssecOk: bool, start: nat)
    requires start < |rs.rrs|
    ensures multiset(Wanted(rs, dnssecOk, start)) == multiset(rs.rrs) + multiset(Signatures(rs, dnssecOk))
    ensures forall i :: 0 <= i < |rs.rrsigs| && dnssecOk && rs.secure && rs.rrtype != TYPE_RRSIG
                        && rs.rrsigs[i].covered == rs.rrtype ==>
              exists rr :: rr in Wanted(rs, dnssecOk, start) && rr.rdata == rs.rrsigs[i].rr.rdata
  {
    assert rs.rrs == rs.rrs[..start] + rs.rrs[start..];
    forall i | 0 <= i < |rs.rrsigs| && dnssecOk && rs.secure && rs.rrtype != TYPE_RRSIG
               && rs.rrsigs[i].covered == rs.rrtype
      ensures exists rr :: rr in Wanted(rs, dnssecOk, start) && rr.rdata == rs.rrsigs[i].rr.rdata
    {
      var rr := CoveringHas(rs, |rs.rrsigs|, i);
      assert rr in Wanted(rs, dnssecOk, start);
    }
  }

  lemma {:induction false} CoveringHas(rs: RRset, n: nat, i: nat) returns (rr: RR)
    requires i < n <= |rs.rrsigs| && |rs.rrs| > 0 && rs.rrsigs[i].covered == rs.rrtype
    ensures rr in Covering(rs, n) && rr.rdata == rs.rrsigs[i].rr.rdata
  {
    if i == n - 1 {
      rr := if rs.rrtype == ZoneData.TYPE_SOA then rs.rrsigs[i].rr.(ttl := rs.rrs[0].ttl) else rs.rrsigs[i].rr;
    } else {
      rr := CoveringHas(rs, n - 1, i);
    }
  }

  // -------------------------------------------------------------------- what may be written

  /** How far a message may reach: nothing is claimed, or its size limit, and the size that it can have when all
      that is still to come is in it. */
  datatype Reach = Anywhere | Within(limit: int, top: int)

  /** With `more` bytes to come the message is within reach. */
  ghost predicate InReach(reach: Reach, m: Message, more: nat)
  {
    reach.Within? ==> m.limit == reach.limit && |m.state.data| + more <= reach.top
  }

  /** All labels of the record start below 65536, at the highest position where the record can be tried. */
  ghost predicate StartsOk(reach: Reach, owner: Domain, rr: RR)
  {
    reach.Within? ==>
      var before := reach.top - RRSize(owner, rr);
      var highest := if before < reach.limit then before else reach.limit;
      highest >= 0 && RecordFits(highest, owner, rr)
  }

  /** The size of records when no name is compressed. */
  function Sizes(owner: Domain, rrs: seq<RR>): (n: nat)
  {
    if rrs == [] then 0 else RRSize(owner, rrs[0]) + Sizes(owner, rrs[1..])
  }

  lemma {:induction false} SizesAppend(owner: Domain, a: seq<RR>, b: seq<RR>)
    ensures Sizes(owner, a + b) == Sizes(owner, a) + Sizes(owner, b)
  {
    if a == [] {
      assert a + b == b;
    } else {
      assert (a + b)[1..] == a[1..] + b;
      SizesAppend(owner, a[1..], b);
    }
  }

  /** The size of everything an RRset is to contribute, signatures included. */
  function EntrySize(owner: Domain, rs: RRset, dnssecOk: bool): (n: nat)
  {
    if |rs.rrs| == 0 then 0 else Sizes(owner, rs.rrs) + Sizes(owner, Signatures(rs, dnssecOk))
  }

  /** The names of the record can be written, within reach. */
  ghost predicate RROk(names: map<nat, seq<Label>>, offsets: map<nat, nat>, reach: Reach, owner: Domain,
                       rr: RR)
  {
    AtomsOk(names, offsets, rr.rdata) && StartsOk(reach, owner, rr)
  }

  ghost predicate RRsOk(names: map<nat, seq<Label>>, offsets: map<nat, nat>, reach: Reach, owner: Domain,
                        rrs: seq<RR>)
  {
    && Numbered(names, owner) && Encodable(offsets, owner)
    && forall i {:trigger RROk(names, offsets, reach, owner, rrs[i])} :: 0 <= i < |rrs| ==>
         RROk(names, offsets, reach, owner, rrs[i])
  }

  lemma RRsOkMore(names: map<nat, seq<Label>>, s: State, t: State, reach: Reach, owner: Domain, rrs: seq<RR>)
    requires RRsOk(names, s.offsets, reach, owner, rrs) && (0 in s.offsets ==> 0 in t.offsets)
    ensures RRsOk(names, t.offsets, reach, owner, rrs)
  {
    EncodableMore(s.offsets, t.offsets, owner);
    forall i | 0 <= i < |rrs| ensures RROk(names, t.offsets, reach, owner, rrs[i]) {
      assert RROk(names, s.offsets, reach, owner, rrs[i]);
      AtomsOkMore(names, s.offsets, t.offsets, rrs[i].rdata);
    }
  }

  ghost predicate EntryOk(names: map<nat, seq<Label>>, offsets: map<nat, nat>, reach: Reach, dnssecOk: bool,
                          owner: Domain, rs: RRset)
  {
    && |rs.rrs| > 0
    && RRsOk(names, offsets, reach, owner, rs.rrs)
    && RRsOk(names, offsets, reach, owner, Signatures(rs, dnssecOk))
  }

  // -------------------------------------------------------------------- one RRset

  /** From message `m` to `m'`, exactly the items were added, by writing; within reach, a sound
      table stays sound. */
  ghost predicate Grown(m: Message, m': Message, names: map<nat, seq<Label>>, items: seq<Item>, reach: Reach)
  {
    && Good(m', names) && m'.limit == m.limit && m.state.data <= m'.state.data
    && (0 in m.state.offsets ==> 0 in m'.state.offsets)
    && (m'.sound ==> m.sound && Extends(m.state, m'.state)) && (reach.Within? && m.sound ==> m'.sound)
    && m.kept <= m'.kept && Items(m'.kept) == Items(m.kept) + items
  }

  lemma GrownTransitive(m: Message, m': Message, m'': Message, names: map<nat, seq<Label>>, items: seq<Item>,
                        more: seq<Item>, reach: Reach)
    requires Grown(m, m', names, items, reach) && Grown(m', m'', names, more, reach)
    ensures Grown(m, m'', names, items + more, reach)
  {
    if m''.sound { ExtendsTransitive(m.state, m'.state, m''.state); }
  }

  lemma GrownNot(m: Message, names: map<nat, seq<Label>>, reach: Reach)
    requires Good(m, names)
    ensures Grown(m, m, names, [], reach)
  {
    if m.sound { SameExtends(m.state, names, NO_HOLE); }
  }

  lemma GrownOne(m: Message, m': Message, names: map<nat, seq<Label>>, owner: Domain, rr: RR, start: nat, end: nat,
                 reach: Reach)
    requires Good(m', names) && m'.limit == m.limit && m.state.data <= m'.state.data
             && (0 in m.state.offsets ==> 0 in m'.state.offsets)
    requires (m'.sound ==> m.sound && Extends(m.state, m'.state)) && (reach.Within? && m.sound ==> m'.sound)
             && Appended(m.kept, m'.kept, owner, rr, start, end)
    ensures Grown(m, m', names, Owned(owner, [rr]), reach)
  {
    assert Items(m'.kept) == Items(m.kept) + [(owner, rr)] && Owned(owner, [rr]) == [(owner, rr)];
  }

  /** A record did not fit: the message is as before, its table perhaps not. */
  lemma GrownNothing(m: Message, m': Message, names: map<nat, seq<Label>>, reach: Reach)
    requires Good(m', names) && m'.limit == m.limit && m.state.data == m'.state.data
             && (0 in m.state.offsets ==> 0 in m'.state.offsets)
    requires (m'.sound ==> m.sound && Extends(m.state, m'.state)) && (reach.Within? && m.sound ==> m'.sound)
    requires m'.kept == m.kept
    ensures Grown(m, m', names, [], reach)
  {
  }

  lemma OwnedJoin(owner: Domain, w: seq<RR>, n: nat, k: nat)
    requires n + k <= |w|
    ensures Owned(owner, w[..n]) + Owned(owner, w[n..n + k]) == Owned(owner, w[..n + k])
  {
  }

  lemma StartsInReach(reach: Reach, m: Message, owner: Domain, rr: RR)
    requires StartsOk(reach, owner, rr) && InReach(reach, m, RRSize(owner, rr)) && |m.state.data| <= m.limit
    ensures reach.Within? ==> RecordFits(|m.state.data|, owner, rr)
  {
    if reach.Within? {
      var before := reach.top - RRSize(owner, rr);
      RecordFitsBefore(|m.state.data|, if before < reach.limit then before else reach.limit, owner, rr);
    }
  }

  /** packet_encode_rr as part of an answer. */
  method EncodeOne(q: Query, owner: Domain, rr: RR, ghost names: map<nat, seq<Label>>, ghost reach: Reach)
    returns (ok: bool)
    requires Good(q.Msg(), names) && Numbered(names, owner) && Encodable(q.offsets, owner)
             && RROk(names, q.offsets, reach, owner, rr)
    requires InReach(reach, q.Msg(), RRSize(owner, rr))
    modifies q`data, q`offsets, q`dnames, q`kept, q`sound
    ensures Grown(old(q.Msg()), q.Msg(), names, Owned(owner, if ok then [rr] else []), reach)
    ensures |q.data| <= |old(q.data)| + RRSize(owner, rr)
  {
    ghost var m := q.Msg();
    StartsInReach(reach, m, owner, rr);
    ok := q.EncodeRR(owner, rr, rr.ttl, names);
    ghost var m' := q.Msg();
    if ok {
      GrownOne(m, m', names, owner, rr, |m.state.data|, |m'.state.data|, reach);
    } else {
      GrownNothing(m, m', names, reach);
      assert Owned(owner, []) == [];
    }
  }

  /** Each of the loops of packet_encode_rrset: records until one does not fit. */
  method EncodeRRs(q: Query, owner: Domain, rrs: seq<RR>, ghost names: map<nat, seq<Label>>, ghost reach: Reach)
    returns (added: nat)
    requires Good(q.Msg(), names) && RRsOk(names, q.offsets, reach, owner, rrs)
    requires InReach(reach, q.Msg(), Sizes(owner, rrs))
    modifies q`data, q`offsets, q`dnames, q`kept, q`sound
    ensures added <= |rrs| && Grown(old(q.Msg()), q.Msg(), names, Owned(owner, rrs[..added]), reach)
    ensures |q.data| <= |old(q.data)| + Sizes(owner, rrs)
  {
    ghost var m := q.Msg();
    added := 0;
    GrownNot(m, names, reach);
    assert Owned(owner, rrs[..0]) == [];
    assert rrs[0..] == rrs;
    while added < |rrs|
      invariant added <= |rrs| && Grown(m, q.Msg(), names, Owned(owner, rrs[..added]), reach)
      invariant RRsOk(names, q.offsets, reach, owner, rrs)
      invariant |q.data| + Sizes(owner, rrs[added..]) <= |m.state.data| + Sizes(owner, rrs)
    {
      assert rrs[added..][1..] == rrs[added + 1..];
      ghost var m' := q.Msg();
      var ok := EncodeOne(q, owner, rrs[added], names, reach);
      ghost var m'' := q.Msg();
      GrownTransitive(m, m', m'', names, Owned(owner, rrs[..added]), Owned(owner, if ok then [rrs[added]] else []),
                      reach);
      OwnedNext(owner, rrs, added);
      if !ok { return; }
      RRsOkMore(names, m'.state, m''.state, reach, owner, rrs);
      added := added + 1;
    }
  }

  lemma OwnedNext(owner: Domain, rrs: seq<RR>, n: nat)
    requires n < |rrs|
    ensures Owned(owner, rrs[..n]) + Owned(owner, [rrs[n]]) == Owned(owner, rrs[..n + 1])
    ensures Owned(owner, rrs[..n]) + Owned(owner, []) == Owned(owner, rrs[..n])
  {
  }

  /** Where the records of an RRset start; only answer sections rotate. */
  function Start(rs: RRset, section: nat, robin: bool, off: nat): (start: nat)
    requires |rs.rrs| > 0
    ensures start < |rs.rrs|
  {
    if robin && section == ANSWER then off % |rs.rrs| else 0
  }

  /** Back to the message as it was, records included; so is the table if no position was cut. */
  method TakeBack(q: Query, mark: nat, ghost m: Message, ghost items: seq<Item>, ghost names: map<nat, seq<Label>>,
                  ghost reach: Reach)
    requires Good(m, names) && Grown(m, q.Msg(), names, items, reach) && mark == |m.state.data|
    modifies q`data, q`offsets, q`dnames, q`kept
    ensures Grown(m, q.Msg(), names, [], reach) && q.data == m.state.data && q.kept == m.kept
            && (q.sound ==> q.Msg() == m)
  {
    q.Rollback(mark, m.state, names);
    q.kept := m.kept;
    ghost var m' := q.Msg();
    if q.sound { SameExtends(m.state, names, NO_HOLE); }
    GrownNothing(m, m', names, reach);
  }

  /** The next of the loops, when the first `n` of the wanted records are in place. */
  method EncodeNext(q: Query, owner: Domain, rrs: seq<RR>, ghost w: seq<RR>, n: nat, ghost m: Message,
                    ghost names: map<nat, seq<Label>>, ghost reach: Reach)
    returns (added: nat)
    requires n + |rrs| <= |w| && w[n..n + |rrs|] == rrs
    requires Grown(m, q.Msg(), names, Owned(owner, w[..n]), reach)
             && RRsOk(names, m.state.offsets, reach, owner, rrs)
    requires InReach(reach, q.Msg(), Sizes(owner, rrs))
    modifies q`data, q`offsets, q`dnames, q`kept, q`sound
    ensures n <= added <= n + |rrs| && Grown(m, q.Msg(), names, Owned(owner, w[..added]), reach)
    ensures |q.data| <= |old(q.data)| + Sizes(owner, rrs)
  {
    ghost var m' := q.Msg();
    RRsOkMore(names, m.state, m'.state, reach, owner, rrs);
    var more := EncodeRRs(q, owner, rrs, names, reach);
    ghost var m'' := q.Msg();
    GrownTransitive(m, m', m'', names, Owned(owner, w[..n]), Owned(owner, rrs[..more]), reach);
    added := n + more;
    assert rrs[..more] == w[n..n + more];
    OwnedJoin(owner, w, n, more);
  }

  lemma SizesRotated(owner: Domain, rrs: seq<RR>, start: nat)
    requires start <= |rrs|
    ensures Sizes(owner, rrs[start..]) + Sizes(owner, rrs[..start]) == Sizes(owner, rrs)
  {
    SizesAppend(owner, rrs[..start], rrs[start..]);
    assert rrs[..start] + rrs[start..] == rrs;
  }

  /** The records from `start` on, and those before it. */
  method EncodeRotated(q: Query, owner: Domain, rs: RRset, start: nat, ghost w: seq<RR>, ghost m: Message,
                       ghost names: map<nat, seq<Label>>, ghost reach: Reach) returns (added: nat)
    requires Good(q.Msg(), names) && EntryOk(names, q.offsets, reach, q.dnssecOk, owner, rs)
    requires start < |rs.rrs| && w == Wanted(rs, q.dnssecOk, start) && m == q.Msg()
    requires InReach(reach, q.Msg(), Sizes(owner, rs.rrs))
    modifies q`data, q`offsets, q`dnames, q`kept, q`sound
    ensures added <= |rs.rrs| <= |w| && Grown(m, q.Msg(), names, Owned(owner, w[..added]), reach)
    ensures |q.data| <= |old(q.data)| + Sizes(owner, rs.rrs)
  {
    SizesRotated(owner, rs.rrs, start);
    GrownNot(m, names, reach);
    assert Owned(owner, w[..0]) == [];
    added := EncodeNext(q, owner, rs.rrs[start..], w, 0, m, names, reach);
    if added == |rs.rrs| - start {
      added := EncodeNext(q, owner, rs.rrs[..start], w, added, m, names, reach);
    }
  }

  /** The record loops of packet_encode_rrset: the records from `start` on, those before it, the signatures. */
  method EncodeParts(q: Query, owner: Domain, rs: RRset, start: nat, ghost names: map<nat, seq<Label>>,
                     ghost reach: Reach) returns (added: nat, all: bool)
    requires Good(q.Msg(), names) && EntryOk(names, q.offsets, reach, q.dnssecOk, owner, rs)
             && start < |rs.rrs|
    requires InReach(reach, q.Msg(), EntrySize(owner, rs, q.dnssecOk))
    modifies q`data, q`offsets, q`dnames, q`kept, q`sound
    ensures added <= |Wanted(rs, q.dnssecOk, start)|
            && Grown(old(q.Msg()), q.Msg(), names, Owned(owner, Wanted(rs, q.dnssecOk, start)[..added]), reach)
    ensures all <==> added == |Wanted(rs, q.dnssecOk, start)|
    ensures |q.data| <= |old(q.data)| + EntrySize(owner, rs, q.dnssecOk)
  {
    ghost var m := q.Msg();
    ghost var w := Wanted(rs, q.dnssecOk, start);
    added := EncodeRotated(q, owner, rs, start, w, m, names, reach);
    if added < |rs.rrs| { return added, false; }
    var sigs := Signatures(rs, q.dnssecOk);
    added := EncodeNext(q, owner, sigs, w, added, m, names, reach);
    all := added == |rs.rrs| + |sigs|;
  }

  /** packet_encode_rrset.  An RRset of the answer or authority section is complete or it is absent and TC is set;
      later sections never set TC, and only over TCP an RRset there may be cut short. */
  method EncodeRRset(q: Query, owner: Domain, rs: RRset, section: nat, minimal: nat, done0: bool, robin: bool,
                     off: nat, ghost names: map<nat, seq<Label>>, ghost reach: Reach)
    returns (added: nat, done: bool)
    requires Good(q.Msg(), names) && EntryOk(names, q.offsets, reach, q.dnssecOk, owner, rs)
    requires ANSWER <= section < RR_SECTION_COUNT && InReach(reach, q.Msg(), EntrySize(owner, rs, q.dnssecOk))
    modifies q`data, q`offsets, q`dnames, q`kept, q`sound, q`tc
    ensures |q.data| <= |old(q.data)| + EntrySize(owner, rs, q.dnssecOk)
    ensures var w := Wanted(rs, q.dnssecOk, Start(rs, section, robin, off));
            && added <= |w| && Grown(old(q.Msg()), q.Msg(), names, Owned(owner, w[..added]), reach)
            && q.tc == (old(q.tc) || (section <= AUTHORITY && added < |w|))
            && done == (done0 || (section > AUTHORITY && !q.tcp && added == 0))
            && (added < |w| && (section <= AUTHORITY || !q.tcp) ==>
                added == 0 && q.data == old(q.data) && q.kept == old(q.kept))
            && (added == 0 && (section <= AUTHORITY || !q.tcp) && q.sound ==> q.Msg() == old(q.Msg()))
            && (section > AUTHORITY && !q.tcp && added > 0 ==> |q.data| <= minimal)
  {
    ghost var m := q.Msg();
    var mark := |q.data|;
    var start := Start(rs, section, robin, off);
    var all;
    added, all := EncodeParts(q, owner, rs, start, names, reach);
    ghost var w := Wanted(rs, q.dnssecOk, start);
    added, done := Settle(q, owner, w, section, minimal, done0, added, all, mark, m, names, reach);
  }

  /** The end of packet_encode_rrset: what becomes of an RRset that is incomplete or too large. */
  method Settle(q: Query, ghost owner: Domain, ghost w: seq<RR>, section: nat, minimal: nat, done0: bool, added0: nat,
                all: bool, mark: nat, ghost m: Message, ghost names: map<nat, seq<Label>>, ghost reach: Reach)
    returns (added: nat, done: bool)
    requires Good(m, names) && mark == |m.state.data| && added0 <= |w| && (all <==> added0 == |w|) && |w| > 0
    requires Grown(m, q.Msg(), names, Owned(owner, w[..added0]), reach) && ANSWER <= section < RR_SECTION_COUNT
    modifies q`data, q`offsets, q`dnames, q`kept, q`sound, q`tc
    ensures added <= |w| && Grown(m, q.Msg(), names, Owned(owner, w[..added]), reach)
    ensures q.tc == (old(q.tc) || (section <= AUTHORITY && added < |w|))
    ensures done == (done0 || (section > AUTHORITY && !q.tcp && added == 0))
    ensures added < |w| && (section <= AUTHORITY || !q.tcp) ==> added == 0 && q.data == m.state.data && q.kept == m.kept
    ensures added == 0 && (section <= AUTHORITY || !q.tcp) && q.sound ==> q.Msg() == m
    ensures section > AUTHORITY && !q.tcp && added > 0 ==> |q.data| <= minimal
    ensures |q.data| <= |old(q.data)|
  {
    ghost var items := Owned(owner, w[..added0]);
    assert Owned(owner, w[..0]) == [];
    added, done := added0, done0;
    if (!all || |q.data| > minimal) && !q.tcp && section >= OPTIONAL_AUTHORITY {
      TakeBack(q, mark, m, items, names, reach);
      added, done := 0, true;
    }
    if !all && (section == ANSWER || section == AUTHORITY) {
      TakeBack(q, mark, m, items, names, reach);
      q.tc := true;
      added := 0;
    }
  }

  // -------------------------------------------------------------------- the whole answer

  /** The work of encode_answer for one section: the entries, what the query asks for, and the rotation. */
  datatype Job = Job(entries: seq<Entry>, section: nat, dnssecOk: bool, tcp: bool, robin: bool, off: nat)

  /** How many of the first `n` entries belong to the section. */
  function Ordinal(j: Job, n: nat): (c: nat)
    requires n <= |j.entries|
  {
    if n == 0 then 0 else Ordinal(j, n - 1) + if j.entries[n - 1].section == j.section then 1 else 0
  }

  ghost predicate NonEmpty(entries: seq<Entry>)
  {
    forall i :: 0 <= i < |entries| ==> |entries[i].rrset.rrs| > 0
  }

  /** Everything that entry `n` is to contribute. */
  function Share(j: Job, n: nat): (rrs: seq<RR>)
    requires n < |j.entries| && NonEmpty(j.entries)
  {
    var rs := j.entries[n].rrset;
    Wanted(rs, j.dnssecOk, Start(rs, j.section, j.robin, j.off + Ordinal(j, n)))
  }

  /** The complete RRsets of the section among the first `n` entries, in order. */
  function Expected(j: Job, n: nat): (items: seq<Item>)
    requires n <= |j.entries| && NonEmpty(j.entries)
  {
    if n == 0 then []
    else Expected(j, n - 1) + if j.entries[n - 1].section != j.section then []
      else Owned(j.entries[n - 1].owner, Share(j, n - 1))
  }

  /** The item is a record, or a wanted signature, of an RRset that was put into the section. */
  ghost predicate FromSection(entries: seq<Entry>, section: nat, dnssecOk: bool, item: Item)
  {
    exists i, start :: 0 <= i < |entries| && entries[i].section == section && entries[i].owner == item.0
                       && 0 <= start < |entries[i].rrset.rrs| && item.1 in Wanted(entries[i].rrset, dnssecOk, start)
  }

  ghost predicate EntriesOk(names: map<nat, seq<Label>>, offsets: map<nat, nat>, reach: Reach, dnssecOk: bool,
                            entries: seq<Entry>)
  {
    && NonEmpty(entries) && (forall i :: 0 <= i < |entries| ==> ANSWER <= entries[i].section < RR_SECTION_COUNT)
    && forall i {:trigger EntryOk(names, offsets, reach, dnssecOk, entries[i].owner, entries[i].rrset)} ::
         0 <= i < |entries| ==> EntryOk(names, offsets, reach, dnssecOk, entries[i].owner, entries[i].rrset)
  }

  lemma EntriesOkMore(names: map<nat, seq<Label>>, s: State, t: State, reach: Reach, dnssecOk: bool,
                      entries: seq<Entry>)
    requires EntriesOk(names, s.offsets, reach, dnssecOk, entries) && (0 in s.offsets ==> 0 in t.offsets)
    ensures EntriesOk(names, t.offsets, reach, dnssecOk, entries)
  {
    forall i | 0 <= i < |entries|
      ensures EntryOk(names, t.offsets, reach, dnssecOk, entries[i].owner, entries[i].rrset)
    {
      assert EntryOk(names, s.offsets, reach, dnssecOk, entries[i].owner, entries[i].rrset);
      RRsOkMore(names, s, t, reach, entries[i].owner, entries[i].rrset.rrs);
      RRsOkMore(names, s, t, reach, entries[i].owner, Signatures(entries[i].rrset, dnssecOk));
    }
  }

  /** What has become of the first `n` entries of one section. */
  ghost predicate SectionDone(j: Job, n: nat, items: seq<Item>, tc: bool, done: bool)
    requires n <= |j.entries| && NonEmpty(j.entries)
  {
    && (forall i {:trigger FromSection(j.entries, j.section, j.dnssecOk, items[i])} :: 0 <= i < |items| ==>
          FromSection(j.entries, j.section, j.dnssecOk, items[i]))
    && (!tc && j.section <= AUTHORITY ==> items == Expected(j, n))
    && (done ==> j.section > AUTHORITY && Ordinal(j, n) > 0)
    && (!j.tcp && !done && j.section > AUTHORITY && Ordinal(j, n) > 0 ==> items != [])
  }

  lemma SectionStep(j: Job, n: nat, items: seq<Item>, done: bool, added: nat, tc': bool, done': bool, items': seq<Item>)
    requires n < |j.entries| && NonEmpty(j.entries) && j.entries[n].section == j.section
    requires SectionDone(j, n, items, false, done)
    requires added <= |Share(j, n)| && (j.section <= AUTHORITY && added < |Share(j, n)| ==> tc')
    requires done' == (done || (j.section > AUTHORITY && !j.tcp && added == 0))
    requires items' == items + Owned(j.entries[n].owner, Share(j, n)[..added])
    ensures SectionDone(j, n + 1, items', tc', done')
  {
    forall i | 0 <= i < |items'| ensures FromSection(j.entries, j.section, j.dnssecOk, items'[i]) {
      if i >= |items| {
        assert j.entries[n].owner == items'[i].0 && items'[i].1 in Share(j, n);
      }
    }
    assert Share(j, n)[..|Share(j, n)|] == Share(j, n);
  }

  lemma SectionSkip(j: Job, n: nat, items: seq<Item>, tc: bool, done: bool)
    requires n < |j.entries| && NonEmpty(j.entries) && j.entries[n].section != j.section
             && SectionDone(j, n, items, tc, done)
    ensures SectionDone(j, n + 1, items, tc, done)
  {
  }

  ghost predicate Ready(m: Message, names: map<nat, seq<Label>>, j: Job, reach: Reach)
  {
    && Good(m, names) && EntriesOk(names, m.state.offsets, reach, j.dnssecOk, j.entries)
    && ANSWER <= j.section < RR_SECTION_COUNT
  }

  lemma ReadyMore(m: Message, m': Message, names: map<nat, seq<Label>>, j: Job, items: seq<Item>, reach: Reach)
    requires Ready(m, names, j, reach) && Grown(m, m', names, items, reach)
    ensures Ready(m', names, j, reach)
  {
    EntriesOkMore(names, m.state, m'.state, reach, j.dnssecOk, j.entries);
  }

  /** The size of everything that is to come into the sections from `from` on and before `to`. */
  function SizeOf(entries: seq<Entry>, dnssecOk: bool, from: nat, to: nat): (n: nat)
  {
    if entries == [] then 0
    else
      (if from <= entries[0].section < to then EntrySize(entries[0].owner, entries[0].rrset, dnssecOk) else 0)
      + SizeOf(entries[1..], dnssecOk, from, to)
  }

  lemma {:induction false} SizeSplit(entries: seq<Entry>, dnssecOk: bool, from: nat, mid: nat, to: nat)
    requires from <= mid <= to
    ensures SizeOf(entries, dnssecOk, from, to)
            == SizeOf(entries, dnssecOk, from, mid) + SizeOf(entries, dnssecOk, mid, to)
  {
    if entries != [] { SizeSplit(entries[1..], dnssecOk, from, mid, to); }
  }

  /** The body of the inner loop of encode_answer, for an entry of the section. */
  method EncodeEntry(q: Query, j: Job, i: nat, minimal: nat, done0: bool, ghost m: Message,
                     ghost names: map<nat, seq<Label>>, ghost reach: Reach, ghost items0: seq<Item>)
    returns (added: nat, done: bool, ghost items: seq<Item>)
    requires Ready(m, names, j, reach) && j.dnssecOk == q.dnssecOk && j.tcp == q.tcp
             && Grown(m, q.Msg(), names, items0, reach) && !q.tc
    requires i < |j.entries| && j.entries[i].section == j.section && SectionDone(j, i, items0, q.tc, done0)
    requires InReach(reach, q.Msg(), EntrySize(j.entries[i].owner, j.entries[i].rrset, j.dnssecOk))
    modifies q`data, q`offsets, q`dnames, q`kept, q`sound, q`tc
    ensures Grown(m, q.Msg(), names, items, reach) && |items| == |items0| + added
    ensures SectionDone(j, i + 1, items, q.tc, done) && (q.tc ==> j.section <= AUTHORITY)
    ensures |q.data| <= |old(q.data)| + EntrySize(j.entries[i].owner, j.entries[i].rrset, j.dnssecOk)
  {
    ghost var m' := q.Msg();
    var e := j.entries[i];
    ReadyMore(m, m', names, j, items0, reach);
    added, done := EncodeRRset(q, e.owner, e.rrset, j.section, minimal, done0, j.robin, j.off + Ordinal(j, i), names,
                               reach);
    ghost var more := Owned(e.owner, Share(j, i)[..added]);
    items := items0 + more;
    GrownTransitive(m, m', q.Msg(), names, items0, more, reach);
    SectionStep(j, i, items0, done0, added, q.tc, done, items);
  }

  /** The inner loop of encode_answer. */
  method EncodeSection(q: Query, j: Job, minimal: nat, ghost names: map<nat, seq<Label>>, ghost reach: Reach)
    returns (count: nat, done: bool, ghost items: seq<Item>)
    requires Ready(q.Msg(), names, j, reach) && j.dnssecOk == q.dnssecOk && j.tcp == q.tcp && !q.tc
    requires InReach(reach, q.Msg(), SizeOf(j.entries, j.dnssecOk, j.section, j.section + 1))
    modifies q`data, q`offsets, q`dnames, q`kept, q`sound, q`tc
    ensures |q.data| <= |old(q.data)| + SizeOf(j.entries, j.dnssecOk, j.section, j.section + 1)
    ensures Grown(old(q.Msg()), q.Msg(), names, items, reach) && count == |items|
    ensures q.tc ==> j.section <= AUTHORITY
    ensures forall i {:trigger FromSection(j.entries, j.section, j.dnssecOk, items[i])} :: 0 <= i < |items| ==>
              FromSection(j.entries, j.section, j.dnssecOk, items[i])
    ensures !q.tc && j.section <= AUTHORITY ==> items == Expected(j, |j.entries|)
    ensures done ==> j.section > AUTHORITY && (!q.tc ==> Ordinal(j, |j.entries|) > 0)
    ensures !j.tcp && !done && j.section > AUTHORITY && Ordinal(j, |j.entries|) > 0 ==> items != []
  {
    ghost var m := q.Msg();
    GrownNot(m, names, reach);
    var i := 0;
    assert j.entries[0..] == j.entries;
    count, done, items := 0, false, [];
    while !q.tc && i < |j.entries|
      invariant i <= |j.entries| && Grown(m, q.Msg(), names, items, reach) && count == |items|
      invariant SectionDone(j, i, items, q.tc, done) && (q.tc ==> j.section <= AUTHORITY)
      invariant |q.data| + SizeOf(j.entries[i..], j.dnssecOk, j.section, j.section + 1)
                <= |m.state.data| + SizeOf(j.entries, j.dnssecOk, j.section, j.section + 1)
    {
      assert j.entries[i..][1..] == j.entries[i + 1..];
      if j.entries[i].section == j.section {
        var added;
        added, done, items := EncodeEntry(q, j, i, minimal, done, m, names, reach, items);
        count := count + added;
      } else {
        SectionSkip(j, i, items, q.tc, done);
      }
      i := i + 1;
    }
  }

  /** The sections of the message before `n`, in order. */
  ghost function Flat(parts: seq<seq<Item>>, n: nat): (items: seq<Item>)
    requires n <= |parts|
  {
    if n == 0 then [] else Flat(parts, n - 1) + parts[n - 1]
  }

  lemma {:induction false} FlatSame(parts: seq<seq<Item>>, parts': seq<seq<Item>>, n: nat)
    requires n <= |parts| && n <= |parts'| && forall x :: 0 <= x < n ==> parts[x] == parts'[x]
    ensures Flat(parts, n) == Flat(parts', n)
  {
    if n > 0 { FlatSame(parts, parts', n - 1); }
  }

  lemma {:induction false} FlatRest(parts: seq<seq<Item>>, n: nat, k: nat)
    requires n <= k <= |parts| && forall x :: n <= x < k ==> parts[x] == []
    ensures Flat(parts, k) == Flat(parts, n)
  {
    if n < k { FlatRest(parts, n, k - 1); }
  }

  /** What stands in the sections before `section`. */
  ghost predicate PartsDone(j: Job, parts: seq<seq<Item>>, section: nat, tc: bool)
    requires |parts| == RR_SECTION_COUNT && NonEmpty(j.entries)
  {
    && (forall x, i {:trigger FromSection(j.entries, x, j.dnssecOk, parts[x][i])} ::
        ANSWER <= x < RR_SECTION_COUNT && 0 <= i < |parts[x]| ==> FromSection(j.entries, x, j.dnssecOk, parts[x][i]))
    && (!tc && section > ANSWER ==> parts[ANSWER] == Expected(j.(section := ANSWER), |j.entries|))
    && (!tc && section > AUTHORITY ==> parts[AUTHORITY] == Expected(j.(section := AUTHORITY), |j.entries|))
  }

  lemma PartsStep(j: Job, section: nat, parts: seq<seq<Item>>, items: seq<Item>, tc: bool)
    requires |parts| == RR_SECTION_COUNT && NonEmpty(j.entries) && ANSWER <= section < RR_SECTION_COUNT
             && PartsDone(j, parts, section, false)
    requires forall i {:trigger FromSection(j.entries, section, j.dnssecOk, items[i])} :: 0 <= i < |items| ==>
               FromSection(j.entries, section, j.dnssecOk, items[i])
    requires !tc && section <= AUTHORITY ==> items == Expected(j.(section := section), |j.entries|)
    ensures PartsDone(j, parts[section := items], section + 1, tc)
  {
  }

  lemma ReachSection(reach: Reach, m: Message, j: Job, section: nat)
    requires section < RR_SECTION_COUNT
    requires InReach(reach, m, SizeOf(j.entries, j.dnssecOk, section, RR_SECTION_COUNT))
    ensures InReach(reach, m, SizeOf(j.entries, j.dnssecOk, section, section + 1))
  {
    SizeSplit(j.entries, j.dnssecOk, section, section + 1, RR_SECTION_COUNT);
  }

  lemma ReachRest(reach: Reach, m: Message, m': Message, j: Job, section: nat)
    requires section < RR_SECTION_COUNT && m'.limit == m.limit
    requires InReach(reach, m, SizeOf(j.entries, j.dnssecOk, section, RR_SECTION_COUNT))
    requires |m'.state.data| <= |m.state.data| + SizeOf(j.entries, j.dnssecOk, section, section + 1)
    ensures InReach(reach, m', SizeOf(j.entries, j.dnssecOk, section + 1, RR_SECTION_COUNT))
  {
    SizeSplit(j.entries, j.dnssecOk, section, section + 1, RR_SECTION_COUNT);
  }

  /** One round of the outer loop of encode_answer, up to its break. */
  method EncodeRound(q: Query, j: Job, section: nat, minimal: nat, ghost m: Message, ghost names: map<nat, seq<Label>>,
                     ghost reach: Reach, ghost parts0: seq<seq<Item>>)
    returns (count: nat, done: bool, ghost parts: seq<seq<Item>>)
    requires Ready(m, names, j, reach) && j.dnssecOk == q.dnssecOk && j.tcp == q.tcp && !q.tc
             && ANSWER <= section < RR_SECTION_COUNT
    requires |parts0| == RR_SECTION_COUNT && Grown(m, q.Msg(), names, Flat(parts0, section), reach)
             && PartsDone(j, parts0, section, false)
    requires forall x :: section <= x < RR_SECTION_COUNT ==> parts0[x] == []
    requires InReach(reach, q.Msg(), SizeOf(j.entries, j.dnssecOk, section, RR_SECTION_COUNT))
    modifies q`data, q`offsets, q`dnames, q`kept, q`sound, q`tc
    ensures |parts| == RR_SECTION_COUNT && Grown(m, q.Msg(), names, Flat(parts, section + 1), reach)
            && PartsDone(j, parts, section + 1, q.tc)
    ensures count == |parts[section]| && forall x :: 0 <= x < RR_SECTION_COUNT && x != section ==> parts[x] == parts0[x]
    ensures InReach(reach, q.Msg(), SizeOf(j.entries, j.dnssecOk, section + 1, RR_SECTION_COUNT))
    ensures done ==> section > AUTHORITY && (!q.tc ==> Ordinal(j.(section := section), |j.entries|) > 0)
    ensures !j.tcp && !done && section > AUTHORITY && Ordinal(j.(section := section), |j.entries|) > 0 ==>
              parts[section] != []
  {
    ghost var m' := q.Msg();
    ghost var items;
    ReadyMore(m, m', names, j, Flat(parts0, section), reach);
    ReachSection(reach, m', j, section);
    count, done, items := EncodeSection(q, j.(section := section), minimal, names, reach);
    GrownTransitive(m, m', q.Msg(), names, Flat(parts0, section), items, reach);
    ReachRest(reach, m', q.Msg(), j, section);
    PartsStep(j, section, parts0, items, q.tc);
    parts := parts0[section := items];
    FlatSame(parts0, parts, section);
  }

  /** A delegation answered over UDP has an address record when there is one to give, unless TC is set. */
  ghost predicate HasAddress(j: Job, parts: seq<seq<Item>>)
    requires |parts| == RR_SECTION_COUNT
  {
    && Ordinal(j.(section := OPTIONAL_AUTHORITY), |j.entries|) == 0
    && Ordinal(j.(section := ADDITIONAL_A), |j.entries|) > 0
    ==> parts[ADDITIONAL_A] != []
  }

  /** A message and what its sections have, when the rounds before `section` are done. */
  ghost function Rounds(m: Message, names: map<nat, seq<Label>>, j: Job, reach: Reach, section: nat)
    : iset<(Message, seq<seq<Item>>, bool)>
    requires NonEmpty(j.entries) && section <= RR_SECTION_COUNT
  {
    iset r: (Message, seq<seq<Item>>, bool) |
      && |r.1| == RR_SECTION_COUNT && Grown(m, r.0, names, Flat(r.1, section), reach)
      && PartsDone(j, r.1, section, r.2)
      && InReach(reach, r.0, SizeOf(j.entries, j.dnssecOk, section, RR_SECTION_COUNT))
  }

  /** One round with the end of its body: a delegation without any address gets TC. */
  method EncodeRoundEnd(q: Query, j: Job, section: nat, minimal: nat, ghost m: Message,
                        ghost names: map<nat, seq<Label>>, ghost reach: Reach, counts0: seq<nat>,
                        ghost parts0: seq<seq<Item>>)
    returns (counts: seq<nat>, done: bool, ghost parts: seq<seq<Item>>)
    requires Ready(m, names, j, reach) && j.dnssecOk == q.dnssecOk && j.tcp == q.tcp && !q.tc
             && ANSWER <= section < RR_SECTION_COUNT
    requires (q.Msg(), parts0, false) in Rounds(m, names, j, reach, section) && Counted(counts0, parts0, section)
    requires !q.tcp && q.isDelegation && section > ADDITIONAL_A ==> HasAddress(j, parts0)
    modifies q`data, q`offsets, q`dnames, q`kept, q`sound, q`tc
    ensures (q.Msg(), parts, q.tc) in Rounds(m, names, j, reach, section + 1)
    ensures Counted(counts, parts, section + 1) && (done ==> section > AUTHORITY)
    ensures !q.tc && !q.tcp && q.isDelegation && (section >= ADDITIONAL_A || done) ==> HasAddress(j, parts)
  {
    var count;
    count, done, parts := EncodeRound(q, j, section, minimal, m, names, reach, parts0);
    counts := counts0[section := count];
    if done && section == ADDITIONAL_A && counts[ADDITIONAL_A] == 0 && q.isDelegation { q.tc := true; }
  }

  ghost predicate Counted(counts: seq<nat>, parts: seq<seq<Item>>, section: nat)
  {
    && |parts| == |counts| == RR_SECTION_COUNT
    && (forall x :: 0 <= x < RR_SECTION_COUNT ==> counts[x] == |parts[x]|)
    && (forall x :: section <= x < RR_SECTION_COUNT ==> parts[x] == [])
  }

  /** The sections before the first round. */
  method NoSections(j: Job) returns (counts: seq<nat>, ghost parts: seq<seq<Item>>)
    requires NonEmpty(j.entries)
    ensures Counted(counts, parts, ANSWER) && PartsDone(j, parts, ANSWER, false) && Flat(parts, ANSWER) == []
  {
    counts := [0, 0, 0, 0, 0, 0, 0];
    parts := [[], [], [], [], [], [], []];
    FlatRest(parts, 0, ANSWER);
  }

  /** The sections that were not begun are empty. */
  lemma SectionsEnd(j: Job, counts: seq<nat>, parts: seq<seq<Item>>, section: nat, tc: bool)
    requires NonEmpty(j.entries) && ANSWER <= section <= RR_SECTION_COUNT && Counted(counts, parts, section)
    requires PartsDone(j, parts, section, tc) && (!tc ==> section > AUTHORITY)
    ensures Counted(counts, parts, RR_SECTION_COUNT) && PartsDone(j, parts, RR_SECTION_COUNT, tc)
    ensures Flat(parts, RR_SECTION_COUNT) == Flat(parts, section)
  {
    FlatRest(parts, section, RR_SECTION_COUNT);
  }

  /** The outer loop of encode_answer. */
  method EncodeSections(q: Query, j: Job, minimal: nat, ghost names: map<nat, seq<Label>>, ghost reach: Reach)
    returns (counts: seq<nat>, ghost parts: seq<seq<Item>>)
    requires Ready(q.Msg(), names, j, reach) && j.dnssecOk == q.dnssecOk && j.tcp == q.tcp
    requires InReach(reach, q.Msg(), SizeOf(j.entries, j.dnssecOk, ANSWER, RR_SECTION_COUNT))
    modifies q`data, q`offsets, q`dnames, q`kept, q`sound, q`tc
    ensures Counted(counts, parts, RR_SECTION_COUNT)
            && Grown(old(q.Msg()), q.Msg(), names, Flat(parts, RR_SECTION_COUNT), reach)
    ensures PartsDone(j, parts, RR_SECTION_COUNT, q.tc)
    ensures !q.tc && !q.tcp && q.isDelegation ==> HasAddress(j, parts)
  {
    ghost var m := q.Msg();
    GrownNot(m, names, reach);
    var counts0; ghost var parts0, section;
    counts0, parts0 := NoSections(j);
    assert PartsDone(j, parts0, ANSWER, q.tc);
    counts, parts, section := EncodeRounds(q, j, minimal, m, names, reach, counts0, parts0);
    SectionsEnd(j, counts, parts, section, q.tc);
  }

  method EncodeRounds(q: Query, j: Job, minimal: nat, ghost m: Message, ghost names: map<nat, seq<Label>>,
                      ghost reach: Reach, counts0: seq<nat>, ghost parts0: seq<seq<Item>>)
    returns (counts: seq<nat>, ghost parts: seq<seq<Item>>, ghost last: nat)
    requires Ready(m, names, j, reach) && j.dnssecOk == q.dnssecOk && j.tcp == q.tcp
    requires (q.Msg(), parts0, q.tc) in Rounds(m, names, j, reach, ANSWER) && Counted(counts0, parts0, ANSWER)
    modifies q`data, q`offsets, q`dnames, q`kept, q`sound, q`tc
    ensures ANSWER <= last <= RR_SECTION_COUNT && Counted(counts, parts, last) && (!q.tc ==> last > AUTHORITY)
    ensures (q.Msg(), parts, q.tc) in Rounds(m, names, j, reach, last)
    ensures !q.tc && !q.tcp && q.isDelegation ==> HasAddress(j, parts)
  {
    var section, done := ANSWER, false;
    counts, parts := counts0, parts0;
    while !q.tc && section < RR_SECTION_COUNT && !done
      invariant ANSWER <= section <= RR_SECTION_COUNT && Counted(counts, parts, section)
                && (done ==> section > AUTHORITY)
      invariant (q.Msg(), parts, q.tc) in Rounds(m, names, j, reach, section)
      invariant !q.tc && !q.tcp && q.isDelegation && (section > ADDITIONAL_A || done) ==> HasAddress(j, parts)
    {
      counts, done, parts := EncodeRoundEnd(q, j, section, minimal, m, names, reach, counts, parts);
      section := section + 1;
    }
    last := section;
  }

  /** All labels of all records of the answer start below 65536, wherever the records are tried. */
  ghost predicate AnswerStartsOk(reach: Reach, dnssecOk: bool, entries: seq<Entry>)
    requires NonEmpty(entries)
  {
    forall i, rr {:trigger StartsOk(reach, entries[i].owner, rr)} ::
      0 <= i < |entries| && (rr in entries[i].rrset.rrs || rr in Signatures(entries[i].rrset, dnssecOk)) ==>
      StartsOk(reach, entries[i].owner, rr)
  }

  /** What the message can reach: its limit, or its present size together with that of all records. */
  ghost function AnswerReach(m: Message, dnssecOk: bool, entries: seq<Entry>): Reach
  {
    Within(m.limit, |m.state.data| + SizeOf(entries, dnssecOk, ANSWER, RR_SECTION_COUNT))
  }

  lemma InAnswer(names: map<nat, seq<Label>>, offsets: map<nat, nat>, reach: Reach, dnssecOk: bool,
                 entries: seq<Entry>)
    requires EntriesOk(names, offsets, Anywhere, dnssecOk, entries)
    requires NonEmpty(entries) && AnswerStartsOk(reach, dnssecOk, entries)
    ensures EntriesOk(names, offsets, reach, dnssecOk, entries)
  {
    forall i | 0 <= i < |entries|
      ensures EntryOk(names, offsets, reach, dnssecOk, entries[i].owner, entries[i].rrset)
    {
      assert EntryOk(names, offsets, Anywhere, dnssecOk, entries[i].owner, entries[i].rrset);
      var owner, rrs, sigs := entries[i].owner, entries[i].rrset.rrs, Signatures(entries[i].rrset, dnssecOk);
      forall k | 0 <= k < |rrs| ensures RROk(names, offsets, reach, owner, rrs[k]) {
        assert RROk(names, offsets, Anywhere, owner, rrs[k]) && StartsOk(reach, owner, rrs[k]);
      }
      forall k | 0 <= k < |sigs| ensures RROk(names, offsets, reach, owner, sigs[k]) {
        assert RROk(names, offsets, Anywhere, owner, sigs[k]) && StartsOk(reach, owner, sigs[k]);
      }
    }
  }

  /** encode_answer: the message fits, the counts are those of the records in it, section after section; with TC
      clear the answer and authority sections are complete.  All names in it decode if no label can start at 65536
      or beyond. */
  method EncodeAnswer(q: Query, entries: seq<Entry>, ipv6: bool, robin: bool, off: nat,
                      ghost names: map<nat, seq<Label>>)
    returns (ghost parts: seq<seq<Item>>)
    requires Good(q.Msg(), names) && EntriesOk(names, q.offsets, Anywhere, q.dnssecOk, entries)
    modifies q`data, q`offsets, q`dnames, q`kept, q`sound, q`tc, q`ancount, q`nscount, q`arcount
    ensures |parts| == RR_SECTION_COUNT
    ensures Grown(old(q.Msg()), q.Msg(), names, Flat(parts, RR_SECTION_COUNT), Anywhere)
    ensures old(q.sound) && AnswerStartsOk(AnswerReach(old(q.Msg()), q.dnssecOk, entries), q.dnssecOk, entries) ==>
              q.sound
    ensures q.ancount == |parts[ANSWER]| && q.nscount == |parts[AUTHORITY]| + |parts[OPTIONAL_AUTHORITY]|
    ensures q.arcount == |parts[ADDITIONAL_A]| + |parts[ADDITIONAL_AAAA]| + |parts[ADDITIONAL_OTHER]|
    ensures PartsDone(Job(entries, ANSWER, q.dnssecOk, q.tcp, robin, off), parts, RR_SECTION_COUNT, q.tc)
    ensures !q.tc && !q.tcp && q.isDelegation ==> HasAddress(Job(entries, ANSWER, q.dnssecOk, q.tcp, robin, off), parts)
  {
    ghost var m := q.Msg();
    ghost var reach := Anywhere;
    if AnswerStartsOk(AnswerReach(m, q.dnssecOk, entries), q.dnssecOk, entries) {
      reach := AnswerReach(m, q.dnssecOk, entries);
      InAnswer(names, q.offsets, reach, q.dnssecOk, entries);
    }
    parts := EncodeWithin(q, entries, if ipv6 then IPV6_MINIMAL_RESPONSE_SIZE else IPV4_MINIMAL_RESPONSE_SIZE, robin,
                          off, names, reach);
  }

  method EncodeWithin(q: Query, entries: seq<Entry>, minimal: nat, robin: bool, off: nat,
                      ghost names: map<nat, seq<Label>>, ghost reach: Reach)
    returns (ghost parts: seq<seq<Item>>)
    requires Good(q.Msg(), names) && EntriesOk(names, q.offsets, reach, q.dnssecOk, entries)
    requires InReach(reach, q.Msg(), SizeOf(entries, q.dnssecOk, ANSWER, RR_SECTION_COUNT))
    modifies q`data, q`offsets, q`dnames, q`kept, q`sound, q`tc, q`ancount, q`nscount, q`arcount
    ensures |parts| == RR_SECTION_COUNT && Grown(old(q.Msg()), q.Msg(), names, Flat(parts, RR_SECTION_COUNT), reach)
    ensures q.ancount == |parts[ANSWER]| && q.nscount == |parts[AUTHORITY]| + |parts[OPTIONAL_AUTHORITY]|
    ensures q.arcount == |parts[ADDITIONAL_A]| + |parts[ADDITIONAL_AAAA]| + |parts[ADDITIONAL_OTHER]|
    ensures PartsDone(Job(entries, ANSWER, q.dnssecOk, q.tcp, robin, off), parts, RR_SECTION_COUNT, q.tc)
    ensures !q.tc && !q.tcp && q.isDelegation ==> HasAddress(Job(entries, ANSWER, q.dnssecOk, q.tcp, robin, off), parts)
  {
    var j := Job(entries, ANSWER, q.dnssecOk, q.tcp, robin, off);
    var counts;
    counts, parts := EncodeSections(q, j, minimal, names, reach);
    ghost var m := q.Msg();
    SetCounts(q, counts);
    assert q.Msg() == m;
  }

  /** An answer that fits below 65536 without any compression meets the condition on labels, whatever the limit. */
  lemma SmallAnswer(m: Message, dnssecOk: bool, entries: seq<Entry>)
    requires NonEmpty(entries) && forall i :: 0 <= i < |entries| ==> ANSWER <= entries[i].section < RR_SECTION_COUNT
    requires 0 <= m.limit && |m.state.data| + SizeOf(entries, dnssecOk, ANSWER, RR_SECTION_COUNT) <= 0x1_0000
    ensures AnswerStartsOk(AnswerReach(m, dnssecOk, entries), dnssecOk, entries)
  {
    var reach := AnswerReach(m, dnssecOk, entries);
    forall i, rr | 0 <= i < |entries| && (rr in entries[i].rrset.rrs || rr in Signatures(entries[i].rrset, dnssecOk))
      ensures StartsOk(reach, entries[i].owner, rr)
    {
      EntryInSize(entries, dnssecOk, i);
      if rr in entries[i].rrset.rrs {
        RecordInSize(entries[i].owner, entries[i].rrset.rrs, rr);
      } else {
        RecordInSize(entries[i].owner, Signatures(entries[i].rrset, dnssecOk), rr);
      }
      SmallRecord(reach.top - RRSize(entries[i].owner, rr), entries[i].owner, rr);
      RecordStarts(reach, entries[i].owner, rr);
    }
  }

  lemma RecordStarts(reach: Reach, owner: Domain, rr: RR)
    requires reach.Within? && reach.limit >= 0 && reach.top >= RRSize(owner, rr)
    requires RecordFits(reach.top - RRSize(owner, rr), owner, rr)
    ensures StartsOk(reach, owner, rr)
  {
    var before := reach.top - RRSize(owner, rr);
    RecordFitsBefore(if before < reach.limit then before else reach.limit, before, owner, rr);
  }

  lemma {:induction false} EntryInSize(entries: seq<Entry>, dnssecOk: bool, i: nat)
    requires i < |entries| && ANSWER <= entries[i].section < RR_SECTION_COUNT
    ensures EntrySize(entries[i].owner, entries[i].rrset, dnssecOk)
            <= SizeOf(entries, dnssecOk, ANSWER, RR_SECTION_COUNT)
  {
    if i > 0 { EntryInSize(entries[1..], dnssecOk, i - 1); }
  }

  lemma {:induction false} RecordInSize(owner: Domain, rrs: seq<RR>, rr: RR)
    requires rr in rrs
    ensures RRSize(owner, rr) <= Sizes(owner, rrs)
  {
    if rrs[0] != rr { RecordInSize(owner, rrs[1..], rr); }
  }

  method SetCounts(q: Query, counts: seq<nat>)
    requires |counts| == RR_SECTION_COUNT
    modifies q`ancount, q`nscount, q`arcount
    ensures q.ancount == counts[ANSWER] && q.nscount == counts[AUTHORITY] + counts[OPTIONAL_AUTHORITY]
    ensures q.arcount == counts[ADDITIONAL_A] + counts[ADDITIONAL_AAAA] + counts[ADDITIONAL_OTHER]
  {
    q.ancount := counts[ANSWER];
    q.nscount := counts[AUTHORITY] + counts[OPTIONAL_AUTHORITY];
    q.arcount := counts[ADDITIONAL_A] + counts[ADDITIONAL_AAAA] + counts[ADDITIONAL_OTHER];
  }
}
