/** Following CNAME and DNAME records while an answer is collected, after answer_add_rrset in answer.c
    and answer_domain, answer_authoritative and answer_lookup_zone in query.c.

    The database is arbitrary: loops of aliases and wildcard aliases are included.  Whatever else is put
    into the answer along the way (denial proofs, additional addresses, delegations) is an arbitrary list. */
module Chase {
  import opened Bytes
  import Answer

  const MAXRRSPP := 10240
  const TYPE_CNAME := 5
  const TYPE_DNAME := 39
  const TYPE_DS := 43
  const TYPE_NSEC3 := 50
  const TYPE_ANY := 255

  type Dom = nat
  type Zone = nat
  type Set = nat
  type Name = nat

  /** An RRset in the answer: its section, the number of its owner, and which RRset it is. */
  datatype Slot = Slot(section: nat, number: nat, rrset: Set)

  predicate SlotOk(s: Slot)
  {
    Answer.ANSWER <= s.section < Answer.RR_SECTION_COUNT
  }

  /** What the code looks up in the database.  A domain made from a wildcard has the RRsets of the wildcard. */
  datatype Db = Db(
    number: Dom -> nat,
    zoneOf: Dom -> Option<Zone>,
    loaded: Zone -> bool,
    expired: Zone -> bool,
    parentZone: Zone -> Option<Zone>,
    apex: Zone -> Dom,
    existing: Dom -> Dom,
    dnameAbove: (Dom, Zone) -> Option<Dom>,
    rrset: (Dom, Zone, nat) -> Option<Set>,
    rrsets: (Dom, Zone) -> seq<Set>,
    target: Set -> Dom,
    onlyNsec3: (Dom, Zone) -> bool,
    parent: Dom -> Option<Dom>,
    wildcard: Dom -> Option<Dom>,
    cut: (Dom, Zone) -> Option<Dom>,
    lookup: Name -> (bool, Dom, Dom),
    nameOf: Dom -> Name,
    rename: (Name, Dom, Dom) -> Option<Name>,
    synthesize: (nat, Name, Name) -> Option<(Dom, Slot)>,
    collision: nat -> bool,
    others: nat -> seq<Slot>)

  // -------------------------------------------------------------------- the answer

  /** No RRset twice for the same owner. */
  ghost predicate AnswerOk(a: seq<Slot>)
  {
    && |a| <= MAXRRSPP
    && (forall i :: 0 <= i < |a| ==> SlotOk(a[i]))
    && (forall i, j :: 0 <= i < j < |a| ==> (a[i].rrset, a[i].number) != (a[j].rrset, a[j].number))
  }

  /** The sum of the section ranks of the used slots. */
  function Ranks(a: seq<Slot>): (n: nat)
  {
    if a == [] then 0 else Ranks(a[..|a| - 1]) + a[|a| - 1].section
  }

  /** Free slots count more than the worst section rank. */
  function Measure(a: seq<Slot>): (n: nat)
    requires |a| <= MAXRRSPP
  {
    (MAXRRSPP - |a|) * Answer.RR_SECTION_COUNT + Ranks(a)
  }

  lemma {:induction false} RanksUpdate(a: seq<Slot>, i: nat, s: Slot)
    requires i < |a|
    ensures Ranks(a[i := s]) == Ranks(a) - a[i].section + s.section
  {
    var n := |a| - 1;
    if i < n {
      RanksUpdate(a[..n], i, s);
      assert a[i := s][..n] == a[..n][i := s];
    } else {
      assert a[i := s][..n] == a[..n];
    }
  }

  /** Slots keep their place and only move to earlier sections. */
  ghost predicate Progress(a: seq<Slot>, b: seq<Slot>)
  {
    && |a| <= |b|
    && forall i :: 0 <= i < |a| ==> b[i].rrset == a[i].rrset && b[i].number == a[i].number
                                    && b[i].section <= a[i].section
  }

  ghost predicate Has(a: seq<Slot>, s: Slot)
  {
    exists i :: 0 <= i < |a| && a[i] == s
  }

  /** The RRset is there, in this section or an earlier one. */
  ghost predicate Present(a: seq<Slot>, s: Slot)
  {
    exists i :: 0 <= i < |a| && a[i].rrset == s.rrset && a[i].number == s.number && a[i].section <= s.section
  }

  lemma HasStays(a: seq<Slot>, b: seq<Slot>, s: Slot)
    requires Progress(a, b) && Has(a, s) && s.section == Answer.ANSWER && AnswerOk(b)
    ensures Has(b, s)
  {
    var i :| 0 <= i < |a| && a[i] == s;
    assert b[i] == s;
  }

  /** The links followed so far: all different, all in the answer section. */
  ghost predicate LinksOk(a: seq<Slot>, links: seq<(Set, nat)>)
  {
    && (forall i :: 0 <= i < |links| ==> Has(a, Slot(Answer.ANSWER, links[i].1, links[i].0)))
    && (forall i, j :: 0 <= i < j < |links| ==> links[i] != links[j])
  }

  lemma LinksStay(a: seq<Slot>, b: seq<Slot>, links: seq<(Set, nat)>)
    requires LinksOk(a, links) && Progress(a, b) && AnswerOk(b)
    ensures LinksOk(b, links)
  {
    forall i | 0 <= i < |links| ensures Has(b, Slot(Answer.ANSWER, links[i].1, links[i].0)) {
      HasStays(a, b, Slot(Answer.ANSWER, links[i].1, links[i].0));
    }
  }

  /** Different links sit in different slots, so there are no more links than slots. */
  lemma LinksFit(a: seq<Slot>, links: seq<(Set, nat)>)
    requires LinksOk(a, links)
    ensures |links| <= |a|
  {
    var b := seq(|links|, k requires 0 <= k < |links| => Slot(Answer.ANSWER, links[k].1, links[k].0));
    Distinct(b);
    AtMost(a);
    assert forall k :: 0 <= k < |b| ==> Has(a, b[k]);
    Subset(set x | x in b, set x | x in a);
  }

  lemma {:induction false} Distinct(s: seq<Slot>)
    requires forall i, j :: 0 <= i < j < |s| ==> s[i] != s[j]
    ensures |set x | x in s| == |s|
  {
    if s != [] {
      Distinct(s[1..]);
      assert (set x | x in s) == {s[0]} + set x | x in s[1..];
    }
  }

  lemma {:induction false} AtMost(s: seq<Slot>)
    ensures |set x | x in s| <= |s|
  {
    if s != [] {
      AtMost(s[1..]);
      assert (set x | x in s) == {s[0]} + set x | x in s[1..];
    }
  }

  lemma Subset(a: set<Slot>, b: set<Slot>)
    requires a <= b
    ensures |a| <= |b|
  {
    assert b == a + (b - a);
  }

  // -------------------------------------------------------------------- the chase

  class Answering {
    const db: Db
    const qtype: nat
    var answer: seq<Slot>
    var cnameCount: nat
    var zone: Option<Zone>
    /** How often something else was added. */
    var clock: nat
    /** The aliases followed so far: RRset and owner number. */
    ghost var links: seq<(Set, nat)>

    ghost predicate Valid()
      reads this
    {
      AnswerOk(answer) && LinksOk(answer, links) && cnameCount == |links|
    }

    constructor (db: Db, qtype: nat)
      ensures Valid() && answer == [] && links == [] && cnameCount == 0 && this.db == db && this.qtype == qtype
    {
      this.db, this.qtype := db, qtype;
      answer, cnameCount, zone, clock, links := [], 0, None, 0, [];
    }

    /** answer_add_rrset: 1 is returned exactly when the RRset is new or moves to an earlier section, and
        then the measure goes down. */
    method Add(s: Slot) returns (added: bool)
      requires Valid() && SlotOk(s)
      modifies this`answer
      ensures Valid() && Progress(old(answer), answer)
      ensures added ==> Has(answer, s) && Measure(answer) < Measure(old(answer)) && !Has(old(answer), s)
      ensures !added ==> answer == old(answer) && (|answer| == MAXRRSPP || Present(answer, s))
    {
      var i := 0;
      while i < |answer|
        invariant 0 <= i <= |answer| && answer == old(answer)
        invariant forall k :: 0 <= k < i ==> !(answer[k].rrset == s.rrset && answer[k].number == s.number)
      {
        if answer[i].rrset == s.rrset && answer[i].number == s.number {
          if s.section < answer[i].section {
            RanksUpdate(answer, i, s);
            answer := answer[i := s];
            LinksStay(old(answer), answer, links);
            return true;
          } else {
            return false;
          }
        }
        i := i + 1;
      }
      if |answer| >= MAXRRSPP { return false; }
      answer := answer + [s];
      assert answer[|answer| - 1] == s;
      assert answer[..|answer| - 1] == old(answer);
      LinksStay(old(answer), answer, links);
      added := true;
    }

    /** Denial proofs, additional records, delegations and the like: any list of RRsets. */
    method AddOthers()
      requires Valid()
      modifies this`answer, this`clock
      ensures Valid() && Progress(old(answer), answer) && Measure(answer) <= Measure(old(answer))
    {
      var list := db.others(clock);
      clock := clock + 1;
      var i := 0;
      while i < |list|
        invariant 0 <= i <= |list| && Valid() && Progress(old(answer), answer)
                  && Measure(answer) <= Measure(old(answer))
      {
        if SlotOk(list[i]) { var _ := Add(list[i]); }
        i := i + 1;
      }
    }

    /** What every part of the chase keeps: the links grow, and each new one has used up some of the measure. */
    twostate predicate Chased()
      reads this
    {
      && Valid() && |old(answer)| <= MAXRRSPP && Progress(old(answer), answer) && old(links) <= links
      && Measure(answer) + |links| <= Measure(old(answer)) + |old(links)|
    }

    /** Add an alias to the answer section; it is followed only when it was added. */
    method AddLink(rrset: Set, number: nat) returns (added: bool)
      requires Valid()
      modifies this`answer, this`links, this`cnameCount
      ensures Chased() && (added ==> Measure(answer) < Measure(old(answer))) && links == old(links) + if added
              then [(rrset, number)] else []
    {
      var s := Slot(Answer.ANSWER, number, rrset);
      added := Add(s);
      if added {
        assert forall i :: 0 <= i < |links| ==> links[i] != (rrset, number);
        links := links + [(rrset, number)];
        cnameCount := cnameCount + 1;
      }
    }

    /** answer_domain: `match` gives the RRsets and `number` stands for the owner name. */
    method AnswerDomain(domain: Dom, number: nat)
      requires Valid()
      modifies this
      ensures Chased() && zone == old(zone)
      decreases Measure(answer), 0
    {
      if zone.None? { return; }
      var z := zone.value;
      if qtype == TYPE_ANY {
        var sets := db.rrsets(domain, z);
        if sets == [] { AddOthers(); return; }
        var i := 0;
        while i < |sets|
          invariant 0 <= i <= |sets| && Chased() && links == old(links) && zone == old(zone)
        {
          var _ := Add(Slot(Answer.ANSWER, number, sets[i]));
          AddOthers();
          i := i + 1;
        }
      } else if qtype == TYPE_NSEC3 {
        AddOthers();
        return;
      } else {
        var found := db.rrset(domain, z, qtype);
        var cname := db.rrset(domain, z, TYPE_CNAME);
        if found.Some? {
          var _ := Add(Slot(Answer.ANSWER, number, found.value));
          AddOthers();
        } else if cname.Some? {
          var added := AddLink(cname.value, number);
          if added {
            var target := db.target(cname.value);
            AnswerLookupZone(db.number(target), true, target, target, db.nameOf(target));
            zone := Some(z);
          }
          return;
        } else {
          AddOthers();
          return;
        }
      }
      AddOthers();
    }

    /** The DNAME part of answer_authoritative. */
    method FollowDname(name: Name, ce: Dom, dname: Set)
      requires Valid()
      modifies this
      ensures Chased() && zone == old(zone)
      decreases Measure(answer), 0
    {
      var added := AddLink(dname, db.number(ce));
      if !added { return; }
      var renamed := db.rename(name, ce, db.target(dname));
      if renamed.None? { return; }
      var (_, _, encloser') := db.lookup(renamed.value);
      var cname := db.synthesize(clock, name, renamed.value);
      clock := clock + 1;
      if cname.None? { return; }
      if SlotOk(cname.value.1) { var _ := Add(cname.value.1); }
      if db.number(cname.value.0) == 0 { return; }
      var z := zone;
      AnswerLookupZone(db.number(cname.value.0), cname.value.0 == encloser', cname.value.0, encloser', renamed.value);
      zone := z;
    }

    /** answer_authoritative */
    method AnswerAuthoritative(number: nat, exact0: bool, closestMatch: Dom, closestEncloser: Dom, qname: Name)
      requires Valid()
      modifies this
      ensures Chased() && zone == old(zone)
      decreases Measure(answer), 1
    {
      if zone.None? { return; }
      var z := zone.value;
      var exact, ce := exact0, closestEncloser;
      if exact && db.onlyNsec3(closestMatch, z) {
        exact := false;
        var up := db.parent(ce);
        if up.Some? { ce := up.value; }
      }
      var above := db.dnameAbove(ce, z);
      if above.Some? { ce, exact := above.value, false; }
      var dname := db.rrset(ce, z, TYPE_DNAME);
      var wild := db.wildcard(ce);
      if exact {
        AddOthers();
        if db.collision(clock) { return; }
        AnswerDomain(closestMatch, db.number(closestMatch));
      } else if dname.Some? {
        FollowDname(if number != 0 then db.nameOf(closestMatch) else qname, ce, dname.value);
      } else if wild.Some? {
        AddOthers();
        if db.collision(clock) { return; }
        AnswerDomain(wild.value, number);
      } else {
        AddOthers();
      }
    }

    /** answer_lookup_zone */
    method AnswerLookupZone(number: nat, exact0: bool, closestMatch: Dom, closestEncloser: Dom, qname: Name)
      requires Valid()
      modifies this
      ensures Chased()
      decreases Measure(answer), 2
    {
      zone := db.zoneOf(closestEncloser);
      if zone.None? || !db.loaded(zone.value) { return; }
      var exact, ce := exact0, closestEncloser;
      if db.existing(ce) != ce { exact, ce := false, db.existing(ce); }
      if exact && qtype == TYPE_DS && ce == db.apex(zone.value) {
        var above := db.parentZone(zone.value);
        if above.Some? { zone := above; }
      }
      if db.expired(zone.value) { return; }
      if exact && qtype == TYPE_DS && ce == db.apex(zone.value) {
        AddOthers();
      } else {
        var cut := db.cut(ce, zone.value);
        if cut.Some? && db.dnameAbove(cut.value, zone.value).Some? { cut := None; }
        if cut.None? || (exact && qtype == TYPE_DS && ce == cut.value) {
          AnswerAuthoritative(number, exact, closestMatch, ce, qname);
        } else {
          AddOthers();
        }
      }
    }
  }

  /** The chase from an empty answer ends, follows no alias twice, and follows at most as many as the answer has
      slots. */
  method AnswerQuery(db: Db, qtype: nat, qname: Name) returns (a: Answering)
    ensures fresh(a) && a.Valid() && a.cnameCount <= |a.answer| <= MAXRRSPP
  {
    a := new Answering(db, qtype);
    var (exact, match', encloser') := db.lookup(qname);
    a.AnswerLookupZone(0, exact, match', encloser', qname);
    LinksFit(a.answer, a.links);
  }
}
