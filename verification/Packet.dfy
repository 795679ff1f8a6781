/** Writing resource records into a message with name compression and rollback, after
    packet.c and the compression table of query.c.

    The message is the byte sequence up to the buffer position.  The compression table maps
    domain numbers to message offsets (an absent entry is offset 0 there), and the stack of
    recorded numbers lets entries beyond a mark be taken back. */
module Packet {
  import opened Bytes
  import opened Wire

  const QHEADERSZ := 12
  const MAX_COMPRESSION_OFFSET := 16383
  const MAX_COMPRESSED_DNAMES := 10240

  /** A domain of the database: its number, its least significant label, and its parent. */
  datatype Domain = Root | Sub(number: nat, lab: Label, parent: Domain)

  function Labels(d: Domain): (ls: seq<Label>)
  {
    match d
    case Root => []
    case Sub(_, l, p) => [l] + Labels(p)
  }

  /** Labels of legal size, and the number of a domain identifies its name. */
  ghost predicate Numbered(names: map<nat, seq<Label>>, d: Domain)
  {
    match d
    case Root => true
    case Sub(n, l, p) => 1 <= |l| < 64 && n in names && names[n] == Labels(d) && Numbered(names, p)
  }

  // -------------------------------------------------------------------- the compression state

  /** Message, compression table, and the stack of recorded numbers. */
  datatype State = State(data: seq<byte>, offsets: map<nat, nat>, dnames: seq<nat>)

  /** Every table entry decodes to the name of its number; stack and table agree, in increasing offset order. */
  ghost predicate Sound(s: State, names: map<nat, seq<Label>>, hole: int)
  {
    && (forall n :: n in s.offsets ==> n in names && 0 < s.offsets[n] <= MAX_COMPRESSION_OFFSET)
    && (forall n {:trigger s.offsets[n]} :: n in s.offsets ==> Decodes(s.data, s.offsets[n], names[n], hole))
    && StackOk(s)
  }

  ghost predicate StackOk(s: State)
  {
    && |s.dnames| <= MAX_COMPRESSED_DNAMES
    && (forall n :: n in s.offsets ==> n == 0 || n in s.dnames)
    && (forall i :: 0 <= i < |s.dnames| ==> s.dnames[i] != 0 && s.dnames[i] in s.offsets)
    && (forall i, j {:trigger s.offsets[s.dnames[i]], s.offsets[s.dnames[j]]} :: 0 <= i < j < |s.dnames| ==>
          s.offsets[s.dnames[i]] < s.offsets[s.dnames[j]])
  }

  /** `t` was reached from `s` by writing only: the entries added since point at or beyond the old end. */
  ghost predicate Extends(s: State, t: State)
  {
    && s.data <= t.data && s.dnames <= t.dnames
    && (0 in t.offsets ==> 0 in s.offsets)
    && (forall n :: n in s.offsets ==> n in t.offsets && t.offsets[n] == s.offsets[n])
    && (forall n :: n in t.offsets && n !in s.offsets ==> t.offsets[n] >= |s.data|)
    && (forall i :: |s.dnames| <= i < |t.dnames| ==> t.dnames[i] !in s.offsets)
  }

  lemma ExtendsTransitive(s: State, t: State, u: State)
    requires Extends(s, t) && Extends(t, u) && StackOk(t)
    ensures Extends(s, u)
  {
    forall i | |s.dnames| <= i < |u.dnames|
      ensures u.dnames[i] !in s.offsets
    {
      if i < |t.dnames| {
        assert u.dnames[i] == t.dnames[i];
      }
    }
  }

  lemma SoundGrow(s: State, data: seq<byte>, names: map<nat, seq<Label>>, hole: int)
    requires Sound(s, names, hole) && s.data <= data
    ensures Sound(s.(data := data), names, hole)
  {
    forall n | n in s.offsets ensures Decodes(data, s.offsets[n], names[n], hole) {
      DecodesGrow(s.data, data, s.offsets[n], names[n], hole);
    }
  }

  lemma SoundHole(s: State, names: map<nat, seq<Label>>, hole: int)
    requires Sound(s, names, NO_HOLE) && hole >= |s.data|
    ensures Sound(s, names, hole)
  {
    forall n | n in s.offsets ensures Decodes(s.data, s.offsets[n], names[n], hole) {
      DecodesHole(s.data, s.offsets[n], names[n], hole);
    }
  }

  lemma SoundFill(s: State, data: seq<byte>, names: map<nat, seq<Label>>, hole: int)
    requires Sound(s, names, hole) && |data| == |s.data|
    requires forall i :: 0 <= i < |data| && Outside(hole, i) ==> s.data[i] == data[i]
    ensures Sound(s.(data := data), names, NO_HOLE)
  {
    forall n | n in s.offsets ensures Decodes(data, s.offsets[n], names[n], NO_HOLE) {
      DecodesFill(s.data, data, s.offsets[n], names[n], hole);
    }
  }

  // -------------------------------------------------------------------- encoding a name

  /** Labels written one after the other: position and domain of each. */
  ghost predicate Chain(data: seq<byte>, todo: seq<(nat, Domain)>, cur: Domain, end: int, hole: int)
  {
    forall i {:trigger Link(data, todo, cur, end, hole, i)} :: 0 <= i < |todo| ==> Link(data, todo, cur, end, hole, i)
  }

  ghost predicate Link(data: seq<byte>, todo: seq<(nat, Domain)>, cur: Domain, end: int, hole: int, i: int)
    requires 0 <= i < |todo|
  {
    && todo[i].1.Sub?
    && LabelAt(data, todo[i].0, todo[i].1.lab, hole)
    && todo[i].0 + 1 + |todo[i].1.lab| == (if i + 1 < |todo| then todo[i + 1].0 else end)
    && todo[i].1.parent == (if i + 1 < |todo| then todo[i + 1].1 else cur)
  }

  /** Once the rest of the name is in place, every label start stands for its domain. */
  lemma {:induction false} ChainDecodes(data: seq<byte>, todo: seq<(nat, Domain)>, cur: Domain, end: int, hole: int,
                                        i: nat)
    requires Chain(data, todo, cur, end, hole) && i < |todo| && Decodes(data, end, Labels(cur), hole)
    ensures Decodes(data, todo[i].0, Labels(todo[i].1), hole)
    ensures NameEnd(data, todo[i].0, Labels(todo[i].1), hole) == NameEnd(data, end, Labels(cur), hole)
    decreases |todo| - i
  {
    assert Link(data, todo, cur, end, hole, i);
    if i + 1 < |todo| { ChainDecodes(data, todo, cur, end, hole, i + 1); }
    var d := todo[i].1;
    assert Labels(d)[0] == d.lab && Labels(d)[1..] == Labels(d.parent);
    assert Decodes(data, todo[i].0 + 1 + |d.lab|, Labels(d.parent), hole);
  }

  /** The bytes from `pos` to `end` are the labels of the domain, some or all of them, and then a pointer or the root
      label. */
  ghost predicate Written(d: seq<byte>, pos: int, domain: Domain, end: int, hole: int)
    decreases domain
  {
    || (domain.Root? && 0 <= pos && end == pos + 1 <= |d| && d[pos] == 0)
    || (domain.Sub? && 0 <= pos && end == pos + 2 <= |d| && d[pos] >= 192)
    || (domain.Sub? && LabelAt(d, pos, domain.lab, hole)
        && Written(d, pos + 1 + |domain.lab|, domain.parent, end, hole))
  }

  lemma {:induction false} WrittenGrow(d: seq<byte>, d': seq<byte>, pos: int, domain: Domain, end: int, hole: int)
    requires d <= d' && Written(d, pos, domain, end, hole)
    ensures Written(d', pos, domain, end, hole) && pos < end <= |d|
    decreases domain
  {
    if domain.Sub? && LabelAt(d, pos, domain.lab, hole)
       && Written(d, pos + 1 + |domain.lab|, domain.parent, end, hole) {
      WrittenGrow(d, d', pos + 1 + |domain.lab|, domain.parent, end, hole);
      assert d'[pos + 1..pos + 1 + |domain.lab|] == d[pos + 1..pos + 1 + |domain.lab|];
    }
  }

  lemma {:induction false} WrittenFill(d: seq<byte>, d': seq<byte>, pos: int, domain: Domain, end: int, hole: int)
    requires |d| == |d'| && forall i :: 0 <= i < |d| && Outside(hole, i) ==> d[i] == d'[i]
    requires hole + 2 <= pos && Written(d, pos, domain, end, hole)
    ensures Written(d', pos, domain, end, NO_HOLE)
    decreases domain
  {
    if domain.Sub? && LabelAt(d, pos, domain.lab, hole)
       && Written(d, pos + 1 + |domain.lab|, domain.parent, end, hole) {
      WrittenFill(d, d', pos + 1 + |domain.lab|, domain.parent, end, hole);
      assert d'[pos + 1..pos + 1 + |domain.lab|] == d[pos + 1..pos + 1 + |domain.lab|];
    }
  }

  /** Labels in place, and then the rest of the name. */
  lemma {:induction false} ChainWritten(data: seq<byte>, todo: seq<(nat, Domain)>, cur: Domain, mid: int, end: int,
                                        hole: int, i: nat)
    requires Chain(data, todo, cur, mid, hole) && i < |todo| && Written(data, mid, cur, end, hole)
    ensures Written(data, todo[i].0, todo[i].1, end, hole)
    decreases |todo| - i
  {
    assert Link(data, todo, cur, mid, hole, i);
    if i + 1 < |todo| { ChainWritten(data, todo, cur, mid, end, hole, i + 1); }
  }

  /** A name in the message; if `sound`, it also decodes to the name of the domain. */
  ghost predicate NameAt(d: seq<byte>, pos: int, domain: Domain, end: int, hole: int, sound: bool)
  {
    && Written(d, pos, domain, end, hole)
    && (sound ==> Decodes(d, pos, Labels(domain), hole) && NameEnd(d, pos, Labels(domain), hole) == end)
  }

  lemma NameGrow(d: seq<byte>, d': seq<byte>, pos: int, domain: Domain, end: int, hole: int, sound: bool)
    requires d <= d' && NameAt(d, pos, domain, end, hole, sound)
    ensures NameAt(d', pos, domain, end, hole, sound) && pos < end <= |d|
  {
    WrittenGrow(d, d', pos, domain, end, hole);
    if sound { DecodesGrow(d, d', pos, Labels(domain), hole); }
  }

  lemma NameFill(d: seq<byte>, d': seq<byte>, pos: int, domain: Domain, end: int, hole: int, sound: bool)
    requires |d| == |d'| && forall i :: 0 <= i < |d| && Outside(hole, i) ==> d[i] == d'[i]
    requires hole + 2 <= pos && NameAt(d, pos, domain, end, hole, sound)
    ensures NameAt(d', pos, domain, end, NO_HOLE, sound)
  {
    WrittenFill(d, d', pos, domain, end, hole);
    if sound { DecodesFill(d, d', pos, Labels(domain), hole); }
  }

  /** Recording a new number at the end of the message. */
  ghost predicate Put(t: State, u: State, n: nat, off: nat)
  {
    && n > 0 && n !in t.offsets && |t.dnames| < MAX_COMPRESSED_DNAMES && off <= MAX_COMPRESSION_OFFSET
    && u.offsets == t.offsets[n := off] && u.dnames == t.dnames + [n]
  }

  lemma PutExtends(s: State, t: State, u: State, n: nat, off: nat)
    requires Extends(s, t) && Put(t, u, n, off) && off >= |s.data| && t.data <= u.data
    ensures Extends(s, u)
  {
    forall i | |s.dnames| <= i < |u.dnames| ensures u.dnames[i] !in s.offsets {
      if i < |t.dnames| { assert u.dnames[i] == t.dnames[i]; }
    }
  }

  lemma PutStack(t: State, u: State, n: nat, off: nat)
    requires StackOk(t) && Put(t, u, n, off) && forall i :: 0 <= i < |t.dnames| ==> t.offsets[t.dnames[i]] < off
    ensures StackOk(u)
  {
    assert u.dnames[|t.dnames|] == n;
    forall m | m in u.offsets && m != 0 ensures m in u.dnames {
      if m != n { var i :| 0 <= i < |t.dnames| && t.dnames[i] == m; assert u.dnames[i] == m; }
    }
    forall i, j | 0 <= i < j < |u.dnames| ensures u.offsets[u.dnames[i]] < u.offsets[u.dnames[j]] {
      assert u.dnames[i] == t.dnames[i];
      if j < |t.dnames| { assert u.dnames[j] == t.dnames[j]; }
    }
  }

  /** While a name is being written: the labels in `todo` are in place, `cur` is still missing, and every
      table entry is an old one or the start of one of these labels. */
  ghost predicate Writing(s: State, t: State, names: map<nat, seq<Label>>, todo: seq<(nat, Domain)>, cur: Domain,
                          hole: int)
  {
    && Extends(s, t) && StackOk(t)
    && Chain(t.data, todo, cur, |t.data|, hole)
    && TodoOk(s, names, todo, cur)
    && (forall n :: n in t.offsets && n !in s.offsets ==> Pending(t, todo, n))
    && (forall n :: n in t.offsets ==> t.offsets[n] < |t.data|)
  }

  ghost predicate Pending(t: State, todo: seq<(nat, Domain)>, n: nat)
    requires n in t.offsets
  {
    exists i :: 0 <= i < |todo| && todo[i].1.Sub? && todo[i].1.number == n
                && t.offsets[n] == todo[i].0 <= MAX_COMPRESSION_OFFSET
  }

  lemma StartWriting(s: State, names: map<nat, seq<Label>>, domain: Domain, hole: int)
    requires Sound(s, names, hole)
    ensures Writing(s, s, names, [], domain, hole)
  {
    assert forall i :: 0 <= i < |s.dnames| ==> s.dnames[i] in s.offsets;
  }

  /** One label further. */
  lemma WriteLabel(s: State, t: State, u: State, names: map<nat, seq<Label>>, todo: seq<(nat, Domain)>, cur: Domain,
                   hole: int)
    requires Writing(s, t, names, todo, cur, hole) && cur.Sub? && Numbered(names, cur) && hole + 1 < |s.data|
    requires u.data == t.data + [|cur.lab|] + cur.lab
    requires (u.offsets == t.offsets && u.dnames == t.dnames) || Put(t, u, cur.number, |t.data|)
    ensures Writing(s, u, names, todo + [(|t.data|, cur)], cur.parent, hole)
  {
    var todo' := todo + [(|t.data|, cur)];
    if Put(t, u, cur.number, |t.data|) { PutExtends(s, t, u, cur.number, |t.data|);
                                         PutStack(t, u, cur.number, |t.data|); }
    ChainSnoc(t.data, u.data, todo, cur, hole);
    forall n | n in u.offsets && n !in s.offsets
      ensures Pending(u, todo', n)
    {
      PendingSnoc(s, t, u, todo, cur, n);
    }
    TodoSnoc(s, t.data, names, todo, cur);
  }

  ghost predicate TodoOk(s: State, names: map<nat, seq<Label>>, todo: seq<(nat, Domain)>, cur: Domain)
  {
    forall i :: 0 <= i < |todo| ==> Numbered(names, todo[i].1) && |Labels(todo[i].1)| > |Labels(cur)|
                                    && todo[i].0 >= |s.data|
  }

  lemma TodoSnoc(s: State, d: seq<byte>, names: map<nat, seq<Label>>, todo: seq<(nat, Domain)>, cur: Domain)
    requires TodoOk(s, names, todo, cur) && cur.Sub? && Numbered(names, cur) && |s.data| <= |d|
    ensures TodoOk(s, names, todo + [(|d|, cur)], cur.parent)
  {
    assert |Labels(cur)| == 1 + |Labels(cur.parent)|;
  }

  lemma ChainSnoc(d: seq<byte>, d': seq<byte>, todo: seq<(nat, Domain)>, cur: Domain, hole: int)
    requires Chain(d, todo, cur, |d|, hole) && cur.Sub? && 1 <= |cur.lab| < 64 && hole + 1 < |d|
    requires d' == d + [|cur.lab|] + cur.lab
    ensures Chain(d', todo + [(|d|, cur)], cur.parent, |d'|, hole)
  {
    var todo' := todo + [(|d|, cur)];
    forall i | 0 <= i < |todo'|
      ensures Link(d', todo', cur.parent, |d'|, hole, i)
    {
      if i < |todo| {
        assert Link(d, todo, cur, |d|, hole, i);
        assert d'[todo[i].0 + 1..todo[i].0 + 1 + |todo[i].1.lab|] == d[todo[i].0 + 1..todo[i].0 + 1 + |todo[i].1.lab|];
      } else {
        assert d'[|d| + 1..|d| + 1 + |cur.lab|] == cur.lab;
      }
    }
  }

  lemma PendingSnoc(s: State, t: State, u: State, todo: seq<(nat, Domain)>, cur: Domain, n: nat)
    requires cur.Sub? && n in u.offsets && n !in s.offsets
             && (n in t.offsets ==> Pending(t, todo, n) && u.offsets[n] == t.offsets[n])
    requires n !in t.offsets ==> n == cur.number && u.offsets[n] == |t.data| <= MAX_COMPRESSION_OFFSET
    ensures Pending(u, todo + [(|t.data|, cur)], n)
  {
    var todo' := todo + [(|t.data|, cur)];
    if n in t.offsets {
      var i :| 0 <= i < |todo| && todo[i].1.Sub? && todo[i].1.number == n
               && t.offsets[n] == todo[i].0 <= MAX_COMPRESSION_OFFSET;
      assert todo'[i] == todo[i];
    } else {
      assert todo'[|todo|] == (|t.data|, cur);
    }
  }

  /** A number that is in the table while `cur` is next was there from the start. */
  lemma NotPending(s: State, t: State, names: map<nat, seq<Label>>, todo: seq<(nat, Domain)>, cur: Domain, hole: int)
    requires Writing(s, t, names, todo, cur, hole) && cur.Sub? && Numbered(names, cur) && cur.number in t.offsets
    ensures cur.number in s.offsets
  {
  }

  /** A table entry made for this name, after the name was completed. */
  lemma PendingDecodes(t: State, data: seq<byte>, names: map<nat, seq<Label>>, todo: seq<(nat, Domain)>, cur: Domain,
                       end: int, hole: int, n: nat)
    requires n in t.offsets && Pending(t, todo, n) && forall i :: 0 <= i < |todo| ==> Numbered(names, todo[i].1)
    requires Chain(data, todo, cur, end, hole) && Decodes(data, end, Labels(cur), hole)
    ensures n in names && t.offsets[n] <= MAX_COMPRESSION_OFFSET && Decodes(data, t.offsets[n], names[n], hole)
  {
    var i :| 0 <= i < |todo| && todo[i].1.Sub? && todo[i].1.number == n
             && t.offsets[n] == todo[i].0 <= MAX_COMPRESSION_OFFSET;
    ChainDecodes(data, todo, cur, end, hole, i);
  }

  /** The root label or a pointer completes the name, and with it all entries made for it. */
  lemma FinishName(s: State, t: State, u: State, names: map<nat, seq<Label>>, todo: seq<(nat, Domain)>, domain: Domain,
                   cur: Domain, hole: int)
    requires Sound(s, names, hole) && Writing(s, t, names, todo, cur, hole) && 0 < |s.data|
    requires t.data <= u.data && u.offsets == t.offsets && u.dnames == t.dnames
    requires Decodes(u.data, |t.data|, Labels(cur), hole)
    requires if todo == [] then cur == domain && |t.data| == |s.data| else todo[0] == (|s.data|, domain)
    ensures Sound(u, names, hole) && Extends(s, u)
    ensures Decodes(u.data, |s.data|, Labels(domain), hole)
    ensures NameEnd(u.data, |s.data|, Labels(domain), hole) == NameEnd(u.data, |t.data|, Labels(cur), hole)
  {
    ChainGrow(t.data, u.data, todo, cur, |t.data|, hole);
    if todo != [] { ChainDecodes(u.data, todo, cur, |t.data|, hole, 0); }
    forall n | n in u.offsets
      ensures n in names && 0 < u.offsets[n] <= MAX_COMPRESSION_OFFSET && Decodes(u.data, u.offsets[n], names[n], hole)
    {
      if n in s.offsets {
        DecodesGrow(s.data, u.data, s.offsets[n], names[n], hole);
      } else {
        PendingDecodes(t, u.data, names, todo, cur, |t.data|, hole, n);
      }
    }
  }

  lemma ChainGrow(d: seq<byte>, d': seq<byte>, todo: seq<(nat, Domain)>, cur: Domain, end: int, hole: int)
    requires d <= d' && Chain(d, todo, cur, end, hole)
    ensures Chain(d', todo, cur, end, hole)
  {
    forall i | 0 <= i < |todo|
      ensures Link(d', todo, cur, end, hole, i)
    {
      assert Link(d, todo, cur, end, hole, i);
      assert d'[todo[i].0 + 1..todo[i].0 + 1 + |todo[i].1.lab|] == d[todo[i].0 + 1..todo[i].0 + 1 + |todo[i].1.lab|];
    }
  }

  /** The uncompressed name of `domain` is at `pos`. */
  ghost predicate Plain(d: seq<byte>, pos: int, domain: Domain)
    decreases domain
  {
    match domain
    case Root => 0 <= pos < |d| && d[pos] == 0
    case Sub(n, l, p) => n > 0 && LabelAt(d, pos, l, NO_HOLE) && Plain(d, pos + 1 + |l|, p)
  }

  lemma {:induction false} PlainDecodes(d: seq<byte>, pos: int, domain: Domain)
    requires Plain(d, pos, domain)
    ensures Decodes(d, pos, Labels(domain), NO_HOLE)
    decreases domain
  {
    if domain.Sub? {
      PlainDecodes(d, pos + 1 + |domain.lab|, domain.parent);
      assert Labels(domain)[1..] == Labels(domain.parent);
    }
  }

  /** While query_add_compression_domain runs: entries so far are for longer names, at smaller offsets. */
  ghost predicate Adding(t: State, names: map<nat, seq<Label>>, cur: Domain, off: nat)
  {
    && Sound(t, names, NO_HOLE) && Numbered(names, cur) && Plain(t.data, off, cur) && off > 0
    && (forall i :: 0 <= i < |t.dnames| ==> t.offsets[t.dnames[i]] < off)
    && (forall i :: 0 <= i < |t.dnames| ==> |names[t.dnames[i]]| > |Labels(cur)|)
  }

  ghost predicate SubTable(a: map<nat, nat>, b: map<nat, nat>)
  {
    forall n :: n in a ==> n in b && b[n] == a[n]
  }

  lemma AddingFresh(t: State, names: map<nat, seq<Label>>, cur: Domain, off: nat)
    requires Adding(t, names, cur, off) && cur.Sub?
    ensures cur.number > 0 && cur.number !in t.offsets
  {
  }

  lemma AddingStep(t: State, u: State, names: map<nat, seq<Label>>, cur: Domain, off: nat, next: nat)
    requires Adding(t, names, cur, off) && cur.Sub? && u.data == t.data && next == off + |cur.lab| + 1
    requires (u.offsets == t.offsets && u.dnames == t.dnames) || Put(t, u, cur.number, off)
    ensures Adding(u, names, cur.parent, next)
  {
    PlainDecodes(t.data, off, cur);
    if Put(t, u, cur.number, off) {
      PutStack(t, u, cur.number, off);
      forall i | 0 <= i < |u.dnames| ensures u.offsets[u.dnames[i]] <= off && |names[u.dnames[i]]| >= |Labels(cur)| {
        if i < |t.dnames| { assert u.dnames[i] == t.dnames[i]; }
      }
    }
  }

  /** A domain with number 0 stands for the query name, whose offset is always recorded. */
  predicate Encodable(offsets: map<nat, nat>, d: Domain)
  {
    match d
    case Root => true
    case Sub(n, _, p) => if n == 0 then 0 in offsets else Encodable(offsets, p)
  }

  lemma EncodableMore(offsets: map<nat, nat>, offsets': map<nat, nat>, d: Domain)
    requires Encodable(offsets, d) && (0 in offsets ==> 0 in offsets')
    ensures Encodable(offsets', d)
  {
  }

  lemma WireLenCons(d: Domain)
    requires d.Sub?
    ensures WireLen(Labels(d)) == 1 + |d.lab| + WireLen(Labels(d.parent))
  {
    assert Labels(d)[1..] == Labels(d.parent);
  }

  /** One rdata field: a compressible name, a name that is never compressed, or other bytes. */
  datatype Atom = CompressedDname(d: Domain) | UncompressedDname(d: Domain) | Data(b: seq<byte>)

  datatype RR = RR(rrtype: nat, klass: nat, ttl: nat, rdata: seq<Atom>)

  ghost predicate AtomsOk(names: map<nat, seq<Label>>, offsets: map<nat, nat>, rdata: seq<Atom>)
  {
    forall a :: a in rdata && !a.Data? ==> Numbered(names, a.d) && Encodable(offsets, a.d)
  }

  lemma AtomsOkMore(names: map<nat, seq<Label>>, offsets: map<nat, nat>, offsets': map<nat, nat>, rdata: seq<Atom>)
    requires AtomsOk(names, offsets, rdata) && (0 in offsets ==> 0 in offsets')
    ensures AtomsOk(names, offsets', rdata)
  {
    forall a | a in rdata && !a.Data? ensures Encodable(offsets', a.d) { EncodableMore(offsets, offsets', a.d); }
  }

  lemma NumberedLabels(names: map<nat, seq<Label>>, d: Domain)
    requires Numbered(names, d)
    ensures forall l :: l in Labels(d) ==> 1 <= |l| < 64
  {
  }

  function AtomSize(a: Atom): (n: nat)
  {
    if a.Data? then |a.b| else WireLen(Labels(a.d))
  }

  /** The size of rdata without compression. */
  function RdataSize(rdata: seq<Atom>): (n: nat)
  {
    if rdata == [] then 0 else AtomSize(rdata[0]) + RdataSize(rdata[1..])
  }

  /** The size of a record without compression. */
  function RRSize(owner: Domain, rr: RR): (n: nat)
  {
    WireLen(Labels(owner)) + 10 + RdataSize(rr.rdata)
  }

  // -------------------------------------------------------------------- what a written record is

  /** The message holds atom `a` from `pos` to `end`. */
  ghost predicate AtomAt(d: seq<byte>, pos: int, a: Atom, end: int, hole: int, sound: bool)
  {
    && 0 <= pos <= end <= |d|
    && match a
       case CompressedDname(n) => NameAt(d, pos, n, end, hole, sound)
       case UncompressedDname(n) => (forall l :: l in Labels(n) ==> |l| < 64) && d[pos..end] == WireBytes(Labels(n))
       case Data(b) => d[pos..end] == b
  }

  /** The message holds the atoms one after the other; atom `i` goes from `cuts[i]` to `cuts[i + 1]`. */
  ghost predicate AtomsAt(d: seq<byte>, cuts: seq<int>, atoms: seq<Atom>, hole: int, sound: bool)
  {
    && |cuts| == |atoms| + 1
    && forall i {:trigger AtomAt(d, cuts[i], atoms[i], cuts[i + 1], hole, sound)} :: 0 <= i < |atoms| ==>
         AtomAt(d, cuts[i], atoms[i], cuts[i + 1], hole, sound)
  }

  lemma AtomGrow(d: seq<byte>, d': seq<byte>, pos: int, a: Atom, end: int, hole: int, sound: bool, sound': bool)
    requires d <= d' && AtomAt(d, pos, a, end, hole, sound) && (sound' ==> sound)
    ensures AtomAt(d', pos, a, end, hole, sound')
  {
    if a.CompressedDname? { NameGrow(d, d', pos, a.d, end, hole, sound); }
    else { assert d'[pos..end] == d[pos..end]; }
  }

  lemma AtomsGrow(d: seq<byte>, d': seq<byte>, cuts: seq<int>, atoms: seq<Atom>, hole: int, sound: bool)
    requires d <= d' && AtomsAt(d, cuts, atoms, hole, sound)
    ensures AtomsAt(d', cuts, atoms, hole, sound)
  {
    forall i | 0 <= i < |atoms|
      ensures AtomAt(d', cuts[i], atoms[i], cuts[i + 1], hole, sound)
    {
      AtomGrow(d, d', cuts[i], atoms[i], cuts[i + 1], hole, sound, sound);
    }
  }

  lemma AtomsSnoc(d: seq<byte>, d': seq<byte>, cuts: seq<int>, atoms: seq<Atom>, a: Atom, hole: int, sound: bool,
                  sound': bool)
    requires d <= d' && AtomsAt(d, cuts, atoms, hole, sound) && (sound' ==> sound)
    requires AtomAt(d', cuts[|atoms|], a, |d'|, hole, sound')
    ensures AtomsAt(d', cuts + [|d'|], atoms + [a], hole, sound')
  {
    var cuts', atoms' := cuts + [|d'|], atoms + [a];
    forall i | 0 <= i < |atoms'|
      ensures AtomAt(d', cuts'[i], atoms'[i], cuts'[i + 1], hole, sound')
    {
      if i < |atoms| { AtomGrow(d, d', cuts[i], atoms[i], cuts[i + 1], hole, sound, sound'); }
    }
  }

  lemma AtomFill(d: seq<byte>, d': seq<byte>, pos: int, a: Atom, end: int, hole: int, sound: bool)
    requires |d| == |d'| && (forall i :: 0 <= i < |d| && Outside(hole, i) ==> d[i] == d'[i])
    requires hole + 2 <= pos && AtomAt(d, pos, a, end, hole, sound)
    ensures AtomAt(d', pos, a, end, NO_HOLE, sound)
  {
    if a.CompressedDname? { NameFill(d, d', pos, a.d, end, hole, sound); }
    else { assert d'[pos..end] == d[pos..end]; }
  }

  /** Filling in the two length bytes before the rdata leaves the rdata as it is. */
  lemma AtomsFill(d: seq<byte>, d': seq<byte>, cuts: seq<int>, atoms: seq<Atom>, hole: int, sound: bool)
    requires |d| == |d'| && (forall i :: 0 <= i < |d| && Outside(hole, i) ==> d[i] == d'[i])
    requires AtomsAt(d, cuts, atoms, hole, sound) && forall i :: 0 <= i < |cuts| ==> hole + 2 <= cuts[i]
    ensures AtomsAt(d', cuts, atoms, NO_HOLE, sound)
  {
    forall i | 0 <= i < |atoms|
      ensures AtomAt(d', cuts[i], atoms[i], cuts[i + 1], NO_HOLE, sound)
    {
      AtomFill(d, d', cuts[i], atoms[i], cuts[i + 1], hole, sound);
    }
  }

  /** A record in the message: where it starts, where its rdata atoms begin and end, what it holds, and whether all
      positions recorded up to then fitted into 16 bits. */
  datatype Record = Record(start: nat, cuts: seq<int>, owner: Domain, rr: RR, sound: bool)

  /** The message holds this record, complete: owner name, fixed fields, the length of the rdata, the rdata. */
  ghost predicate RecordAt(d: seq<byte>, r: Record)
  {
    && |r.cuts| > 0
    && var e, end := r.cuts[0], r.cuts[|r.cuts| - 1];
    && 10 <= e <= end <= |d|
    && NameAt(d, r.start, r.owner, e - 10, NO_HOLE, r.sound)
    && d[e - 10..e - 2] == Fixed(r.rr) && d[e - 2..e] == U16(end - e)
    && AtomsAt(d, r.cuts, r.rr.rdata, NO_HOLE, r.sound)
  }

  lemma RecordGrow(d: seq<byte>, d': seq<byte>, r: Record)
    requires d <= d' && RecordAt(d, r)
    ensures RecordAt(d', r)
  {
    var e := r.cuts[0];
    NameGrow(d, d', r.start, r.owner, e - 10, NO_HOLE, r.sound);
    assert d'[e - 10..e - 2] == d[e - 10..e - 2] && d'[e - 2..e] == d[e - 2..e];
    AtomsGrow(d, d', r.cuts, r.rr.rdata, NO_HOLE, r.sound);
  }

  function U16(n: nat): (b: seq<byte>)
    ensures |b| == 2
  {
    [n / 256 % 256, n % 256]
  }

  function U32(n: nat): (b: seq<byte>)
    ensures |b| == 4
  {
    U16(n / 0x1_0000) + U16(n)
  }

  /** Type, class and TTL of a record. */
  function Fixed(rr: RR): (b: seq<byte>)
    ensures |b| == 8
  {
    U16(rr.rrtype) + U16(rr.klass) + U32(rr.ttl)
  }

  /** The message ends with the owner name, from `start`, and the eight fixed bytes of a record. */
  ghost predicate HeaderAt(d: seq<byte>, start: nat, owner: Domain, fixed: seq<byte>, sound: bool)
  {
    && |fixed| == 8 && 8 <= |d| && d[|d| - 8..] == fixed
    && NameAt(d, start, owner, |d| - 8, NO_HOLE, sound)
  }

  /** Owner name, fixed fields, and two bytes left open at the end. */
  lemma HeaderSteps(s: State, t: State, u: State, names: map<nat, seq<Label>>, hole: nat, more: seq<byte>)
    requires Sound(t, names, NO_HOLE) && Extends(s, t) && hole >= |t.data|
    requires u == t.(data := t.data + more) && hole <= |u.data|
    ensures Sound(u, names, hole) && Extends(s, u)
  {
    SoundHole(t, names, hole);
    SoundGrow(t, u.data, names, hole);
  }

  lemma HeaderWritten(d: seq<byte>, start: nat, owner: Domain, fixed: seq<byte>, sound: bool)
    requires NameAt(d, start, owner, |d|, NO_HOLE, sound) && |fixed| == 8
    ensures HeaderAt(d + fixed, start, owner, fixed, sound)
  {
    NameGrow(d, d + fixed, start, owner, |d|, NO_HOLE, sound);
  }

  lemma HeaderComplete(d: seq<byte>, lengthPos: nat, start: nat, cuts: seq<int>, owner: Domain, rr: RR, before: bool,
                       sound: bool)
    requires lengthPos + 2 <= |d| && HeaderAt(d[..lengthPos], start, owner, Fixed(rr), before) && (sound ==> before)
    requires d[lengthPos..lengthPos + 2] == U16(|d| - lengthPos - 2)
    requires AtomsAt(d, cuts, rr.rdata, NO_HOLE, sound) && cuts[0] == lengthPos + 2 && cuts[|rr.rdata|] == |d|
    ensures RecordAt(d, Record(start, cuts, owner, rr, sound))
  {
    NameGrow(d[..lengthPos], d, start, owner, lengthPos - 8, NO_HOLE, before);
    assert d[lengthPos - 8..lengthPos] == d[..lengthPos][lengthPos - 8..];
  }

  // -------------------------------------------------------------------- where labels start

  /** The labels of a name written from `pos` on start at positions that fit into 16 bits. */
  predicate StartsFit(pos: nat, d: Domain)
    decreases d
  {
    d.Root? || (pos < 0x1_0000 && StartsFit(pos + 1 + |d.lab|, d.parent))
  }

  /** So do those of the compressed names in rdata. */
  predicate AtomsFit(pos: nat, rdata: seq<Atom>)
    decreases |rdata|
  {
    rdata == [] || ((rdata[0].CompressedDname? ==> StartsFit(pos, rdata[0].d))
                    && AtomsFit(pos + AtomSize(rdata[0]), rdata[1..]))
  }

  predicate RecordFits(pos: nat, owner: Domain, rr: RR)
  {
    StartsFit(pos, owner) && AtomsFit(pos + WireLen(Labels(owner)) + 10, rr.rdata)
  }

  lemma {:induction false} StartsFitBefore(pos: nat, pos': nat, d: Domain)
    requires pos <= pos' && StartsFit(pos', d)
    ensures StartsFit(pos, d)
    decreases d
  {
    if d.Sub? { StartsFitBefore(pos + 1 + |d.lab|, pos' + 1 + |d.lab|, d.parent); }
  }

  lemma {:induction false} AtomsFitBefore(pos: nat, pos': nat, rdata: seq<Atom>)
    requires pos <= pos' && AtomsFit(pos', rdata)
    ensures AtomsFit(pos, rdata)
    decreases |rdata|
  {
    if rdata != [] {
      if rdata[0].CompressedDname? { StartsFitBefore(pos, pos', rdata[0].d); }
      AtomsFitBefore(pos + AtomSize(rdata[0]), pos' + AtomSize(rdata[0]), rdata[1..]);
    }
  }

  lemma {:induction false} StartsFitSmall(pos: nat, d: Domain)
    requires pos + WireLen(Labels(d)) <= 0x1_0000
    ensures StartsFit(pos, d)
    decreases d
  {
    if d.Sub? { StartsFitSmall(pos + 1 + |d.lab|, d.parent); }
  }

  lemma {:induction false} AtomsFitSmall(pos: nat, rdata: seq<Atom>)
    requires pos + RdataSize(rdata) <= 0x1_0000
    ensures AtomsFit(pos, rdata)
    decreases |rdata|
  {
    if rdata != [] {
      if rdata[0].CompressedDname? { StartsFitSmall(pos, rdata[0].d); }
      AtomsFitSmall(pos + AtomSize(rdata[0]), rdata[1..]);
    }
  }

  /** A record that ends below 65536 without compression has its labels there. */
  lemma SmallRecord(pos: nat, owner: Domain, rr: RR)
    requires pos + RRSize(owner, rr) <= 0x1_0000
    ensures RecordFits(pos, owner, rr)
  {
    StartsFitSmall(pos, owner);
    AtomsFitSmall(pos + WireLen(Labels(owner)) + 10, rr.rdata);
  }

  lemma RecordFitsBefore(pos: nat, pos': nat, owner: Domain, rr: RR)
    requires pos <= pos' && RecordFits(pos', owner, rr)
    ensures RecordFits(pos, owner, rr)
  {
    StartsFitBefore(pos, pos', owner);
    AtomsFitBefore(pos + WireLen(Labels(owner)) + 10, pos' + WireLen(Labels(owner)) + 10, rr.rdata);
  }

  // -------------------------------------------------------------------- the table in any case

  /** What holds of the table even when positions were cut to 16 bits; an absent entry reads as 0. */
  ghost predicate TableOk(s: State)
  {
    && (forall n :: n in s.offsets ==> s.offsets[n] <= MAX_COMPRESSION_OFFSET)
    && 0 !in s.dnames && (0 in s.offsets ==> s.offsets[0] > 0)
  }

  function OffsetOf(offsets: map<nat, nat>, n: nat): (o: nat)
  {
    if n in offsets then offsets[n] else 0
  }

  /** In a sound table an entry that reads as 0 is absent. */
  lemma Absent(s: State, t: State, names: map<nat, seq<Label>>, hole: int, n: nat)
    requires Sound(s, names, hole) && Extends(s, t) && 0 < |s.data| && OffsetOf(t.offsets, n) == 0
    ensures n !in t.offsets
  {
  }

  /** query_put_dname_offset as a function. */
  function PutEntry(offsets: map<nat, nat>, dnames: seq<nat>, number: nat,
                    position: nat): (r: (map<nat, nat>, seq<nat>))
  {
    var offset := position % 0x1_0000;
    if offset > MAX_COMPRESSION_OFFSET || |dnames| >= MAX_COMPRESSED_DNAMES then (offsets, dnames)
    else (offsets[number := offset], dnames + [number])
  }

  lemma PutTable(t: State, u: State, number: nat, position: nat)
    requires TableOk(t) && number > 0 && (u.offsets, u.dnames) == PutEntry(t.offsets, t.dnames, number, position)
    ensures TableOk(u) && (0 in t.offsets ==> 0 in u.offsets)
  {
  }

  /** A pointer or the root label after the labels completes the name. */
  lemma NameComplete(s: State, t: State, u: State, names: map<nat, seq<Label>>, todo: seq<(nat, Domain)>,
                     domain: Domain, cur: Domain, hole: int, sound: bool)
    requires Chain(t.data, todo, cur, |t.data|, hole) && t.data <= u.data && u.offsets == t.offsets
             && u.dnames == t.dnames && 0 < |s.data|
    requires NameAt(u.data, |t.data|, cur, |u.data|, hole, sound)
    requires if todo == [] then cur == domain && t.data == s.data else todo[0] == (|s.data|, domain)
    requires sound ==> Sound(s, names, hole) && Writing(s, t, names, todo, cur, hole)
    ensures NameAt(u.data, |s.data|, domain, |u.data|, hole, sound)
    ensures sound ==> Sound(u, names, hole) && Extends(s, u)
  {
    ChainGrow(t.data, u.data, todo, cur, |t.data|, hole);
    if todo != [] { ChainWritten(u.data, todo, cur, |t.data|, |u.data|, hole, 0); }
    if sound { FinishName(s, t, u, names, todo, domain, cur, hole); }
  }

  lemma SameExtends(s: State, names: map<nat, seq<Label>>, hole: int)
    requires Sound(s, names, hole)
    ensures Extends(s, s)
  {
    assert forall i :: 0 <= i < |s.dnames| ==> s.dnames[i] in s.offsets;
  }

  lemma RdataFirst(rdata: seq<Atom>, j: nat)
    requires j < |rdata|
    ensures rdata[j..] == [rdata[j]] + rdata[j + 1..] && rdata[..j + 1] == rdata[..j] + [rdata[j]]
    ensures RdataSize(rdata[j..]) == AtomSize(rdata[j]) + RdataSize(rdata[j + 1..])
    ensures forall p: nat :: AtomsFit(p, rdata[j..]) <==>
              (rdata[j].CompressedDname? ==> StartsFit(p, rdata[j].d))
              && AtomsFit(p + AtomSize(rdata[j]), rdata[j + 1..])
  {
    assert rdata[j..][1..] == rdata[j + 1..];
  }

  /** Popping keeps what holds of the table in any case. */
  lemma {:induction false} ClearedTable(offsets: map<nat, nat>, dnames: seq<nat>, mark: nat)
    requires (forall n :: n in offsets ==> offsets[n] <= MAX_COMPRESSION_OFFSET) && 0 !in dnames
             && (0 in offsets ==> offsets[0] > 0)
    ensures var (o, d) := Cleared(offsets, dnames, mark);
            && (forall n :: n in o ==> o[n] <= MAX_COMPRESSION_OFFSET) && 0 !in d && (0 in o ==> o[0] > 0)
            && (0 in offsets ==> 0 in o)
    decreases |dnames|
  {
    if dnames != [] {
      var n := |dnames| - 1;
      ClearedTable(offsets - {dnames[n]}, dnames[..n], mark);
    }
  }

  /** One record more, from `start` to `end`. */
  ghost predicate Appended(k: seq<Record>, k': seq<Record>, owner: Domain, rr: RR, start: nat, end: nat)
  {
    && |k'| == |k| + 1 && k'[..|k|] == k
    && var r := k'[|k|];
       r.owner == owner && r.rr == rr && r.start == start && |r.cuts| > 0 && r.cuts[|r.cuts| - 1] == end
  }

  /** The message under construction, the records in it, the size it may have, and whether all positions recorded in
      the compression table fitted into 16 bits. */
  datatype Message = Message(state: State, kept: seq<Record>, limit: int, sound: bool)

  /** The message fits and holds its records; if no position was cut, its table is sound and all names decode. */
  ghost predicate Good(m: Message, names: map<nat, seq<Label>>)
  {
    && 0 < |m.state.data| <= m.limit
    && TableOk(m.state) && (m.sound ==> Sound(m.state, names, NO_HOLE))
    && (forall r {:trigger RecordAt(m.state.data, r)} :: r in m.kept ==> RecordAt(m.state.data, r))
    && (m.sound ==> forall r :: r in m.kept ==> r.sound)
  }

  class Query {
    var data: seq<byte>
    var offsets: map<nat, nat>
    var dnames: seq<nat>
    /** The records in the message, for the specification. */
    ghost var kept: seq<Record>
    var maxlen: nat
    var reservedSpace: nat
    /** The TC bit and the record counts of the message header. */
    var tc: bool
    var ancount: nat
    var nscount: nat
    var arcount: nat
    /** What the rest of the server decided about this query. */
    var tcp: bool
    var dnssecOk: bool
    var isDelegation: bool

    /** All positions given to the 16-bit offset argument so far were below 65536. */
    ghost var sound: bool

    /** The message after the question section: header, question, and in the table the name asked for. */
    constructor (header: seq<byte>, qname: seq<Label>, qtype: nat, qclass: nat, maxlen: nat, reservedSpace: nat,
                 tcp: bool, dnssecOk: bool, ghost names: map<nat, seq<Label>>)
      requires |header| == QHEADERSZ && 0 in names && names[0] == qname && forall l :: l in qname ==> 1 <= |l| < 64
      requires reservedSpace <= maxlen && QHEADERSZ + WireLen(qname) + 4 <= maxlen - reservedSpace
      ensures Good(Msg(), names) && sound && kept == [] && offsets == map[0 := QHEADERSZ] && dnames == []
      ensures data == header + WireBytes(qname) + U16(qtype) + U16(qclass)
      ensures this.maxlen == maxlen && this.reservedSpace == reservedSpace && this.tcp == tcp
      ensures this.dnssecOk == dnssecOk && !tc
    {
      data := header + WireBytes(qname) + U16(qtype) + U16(qclass);
      offsets, dnames, kept, sound := map[0 := QHEADERSZ], [], [], true;
      this.maxlen, this.reservedSpace, this.tcp, this.dnssecOk := maxlen, reservedSpace, tcp, dnssecOk;
      tc, isDelegation, ancount, nscount, arcount := false, false, 0, 0, 0;
      new;
      assert data == header + WireBytes(qname) + (U16(qtype) + U16(qclass));
      WireDecodes(data, QHEADERSZ, qname);
    }

    function View(): State
      reads this`data, this`offsets, this`dnames
    {
      State(data, offsets, dnames)
    }

    /** The table is usable; if no position was cut, it is sound. */
    ghost predicate Usable(names: map<nat, seq<Label>>, hole: int)
      reads this`data, this`offsets, this`dnames, this`sound
    {
      TableOk(View()) && (sound ==> Sound(View(), names, hole))
    }

    /** Since the message was `s`, there was only writing. */
    ghost predicate Since(s: State, was: bool)
      reads this`data, this`offsets, this`dnames, this`sound
    {
      s.data <= data && (0 in s.offsets ==> 0 in offsets) && (sound ==> was && Extends(s, View()))
    }

    /** query_put_dname_offset; the offset argument is 16 bits wide. */
    method PutDnameOffset(number: nat, position: nat)
      requires number > 0
      modifies this`offsets, this`dnames, this`sound
      ensures (offsets, dnames) == PutEntry(old(offsets), old(dnames), number, position)
      ensures sound == (old(sound) && position < 0x1_0000)
    {
      sound := sound && position < 0x1_0000;
      var offset := position % 0x1_0000;
      if offset > MAX_COMPRESSION_OFFSET { return; }
      if |dnames| >= MAX_COMPRESSED_DNAMES { return; }
      offsets := offsets[number := offset];
      dnames := dnames + [number];
    }

    /** query_overflow */
    predicate Overflow()
      requires reservedSpace <= maxlen
      reads this`data, this`maxlen, this`reservedSpace
    {
      |data| > maxlen - reservedSpace
    }

    /** While a name is being written: its labels are in place, and if no position was cut the table is in order. */
    ghost predicate Midway(s: State, names: map<nat, seq<Label>>, todo: seq<(nat, Domain)>, cur: Domain, hole: int)
      reads this`data, this`offsets, this`dnames, this`sound
    {
      && TableOk(View()) && s.data <= data && (0 in s.offsets ==> 0 in offsets)
      && Chain(data, todo, cur, |data|, hole)
      && (sound ==> Sound(s, names, hole) && Writing(s, View(), names, todo, cur, hole))
    }

    /** One round of the loop of encode_dname: record the position, write the label. */
    method EncodeLabel(cur: Domain, ghost s: State, ghost names: map<nat, seq<Label>>, ghost todo: seq<(nat, Domain)>,
                       ghost hole: int)
      requires Midway(s, names, todo, cur, hole) && hole + 1 < |s.data| && 0 < |s.data|
      requires cur.Sub? && cur.number > 0 && OffsetOf(offsets, cur.number) == 0 && Numbered(names, cur)
      modifies this`data, this`offsets, this`dnames, this`sound
      ensures Midway(s, names, todo + [(|old(data)|, cur)], cur.parent, hole)
      ensures data == old(data) + [|cur.lab|] + cur.lab && (0 in old(offsets) ==> 0 in offsets)
      ensures sound == (old(sound) && |old(data)| < 0x1_0000)
    {
      ghost var t := View();
      PutDnameOffset(cur.number, |data|);
      data := data + [|cur.lab|] + cur.lab;
      ghost var u := View();
      ChainSnoc(t.data, u.data, todo, cur, hole);
      PutTable(t, u, cur.number, |t.data|);
      if sound {
        Absent(s, t, names, hole, cur.number);
        WriteLabel(s, t, u, names, todo, cur, hole);
      }
    }

    /** The end of encode_dname: a pointer to the rest of the name, or the root label. */
    method EncodeEnd(cur: Domain, ghost s: State, ghost names: map<nat, seq<Label>>, ghost hole: int)
      requires s.data <= data && hole + 1 < |s.data| && Numbered(names, cur) && TableOk(View())
      requires sound ==> Sound(s, names, hole)
      requires sound && cur.Sub? ==> cur.number in s.offsets && cur.number in offsets
                                     && offsets[cur.number] == s.offsets[cur.number]
      modifies this`data
      ensures old(data) <= data && |old(data)| < |data| <= |old(data)| + WireLen(Labels(cur))
      ensures NameAt(data, |old(data)|, cur, |data|, hole, sound)
    {
      ghost var end := |data|;
      if cur.Sub? {
        var o := OffsetOf(offsets, cur.number);
        data := data + [192 + o / 256, o % 256];
        if sound { DecodesGrow(s.data, data, o, names[cur.number], hole); }
        assert Pointer(data[end], data[end + 1]) == o;
        WireLenCons(cur);
      } else {
        data := data + [0];
      }
    }

    /** encode_dname: labels until a domain with a recorded offset, then a pointer, or all labels. */
    method EncodeDname(domain: Domain, ghost names: map<nat, seq<Label>>, ghost hole: int)
      requires Usable(names, hole) && hole + 1 < |data| && 0 < |data|
      requires Numbered(names, domain) && Encodable(offsets, domain)
      modifies this`data, this`offsets, this`dnames, this`sound
      ensures Usable(names, hole) && Since(old(View()), old(sound))
      ensures NameAt(data, |old(data)|, domain, |data|, hole, sound)
      ensures |old(data)| < |data| <= |old(data)| + WireLen(Labels(domain))
      ensures old(sound) && StartsFit(|old(data)|, domain) ==> sound
    {
      ghost var s := View();
      var cur; ghost var todo;
      cur, todo := EncodeLabels(domain, names, hole);
      ghost var t := View();
      if sound && cur.Sub? { NotPending(s, t, names, todo, cur, hole); }
      EncodeEnd(cur, s, names, hole);
      ghost var u := View();
      NameComplete(s, t, u, names, todo, domain, cur, hole, sound);
    }

    /** The loop of encode_dname. */
    method EncodeLabels(domain: Domain, ghost names: map<nat, seq<Label>>, ghost hole: int)
      returns (cur: Domain, ghost todo: seq<(nat, Domain)>)
      requires Usable(names, hole) && hole + 1 < |data| && 0 < |data|
      requires Numbered(names, domain) && Encodable(offsets, domain)
      modifies this`data, this`offsets, this`dnames, this`sound
      ensures Midway(old(View()), names, todo, cur, hole) && Numbered(names, cur)
              && (cur.Root? || OffsetOf(offsets, cur.number) != 0)
      ensures |data| + WireLen(Labels(cur)) == |old(data)| + WireLen(Labels(domain))
      ensures if todo == [] then cur == domain && data == old(data) else todo[0] == (|old(data)|, domain)
      ensures (sound ==> old(sound)) && (old(sound) && StartsFit(|old(data)|, domain) ==> sound)
    {
      ghost var s := View();
      cur, todo := domain, [];
      if sound { StartWriting(s, names, domain, hole); }
      while cur.Sub? && OffsetOf(offsets, cur.number) == 0
        invariant Midway(s, names, todo, cur, hole) && Numbered(names, cur) && Encodable(offsets, cur)
        invariant |data| + WireLen(Labels(cur)) == |s.data| + WireLen(Labels(domain))
        invariant if todo == [] then cur == domain && data == s.data else todo[0] == (|s.data|, domain)
        invariant (sound ==> old(sound))
                  && (old(sound) && StartsFit(|s.data|, domain) ==> sound && StartsFit(|data|, cur))
        decreases cur
      {
        ghost var t := View();
        WireLenCons(cur);
        EncodeLabel(cur, s, names, todo, hole);
        EncodableMore(t.offsets, offsets, cur.parent);
        todo := todo + [(|t.data|, cur)];
        cur := cur.parent;
      }
    }

    /** One round of query_add_compression_domain. */
    method AddOne(cur: Domain, off: nat, ghost names: map<nat, seq<Label>>) returns (next: nat)
      requires Adding(View(), names, cur, off) && cur.Sub? && |data| <= 0x1_0000 && TableOk(View())
      modifies this`offsets, this`dnames, this`sound
      ensures Adding(View(), names, cur.parent, next) && next == off + |cur.lab| + 1 && TableOk(View())
              && sound == old(sound)
      ensures SubTable(old(offsets), offsets)
      ensures old(dnames) == [] && off <= MAX_COMPRESSION_OFFSET ==> cur.number in offsets && offsets[cur.number] == off
    {
      ghost var t := View();
      AddingFresh(t, names, cur, off);
      assert off < |data|;
      PutDnameOffset(cur.number, off);
      ghost var u := View();
      PutTable(t, u, cur.number, off);
      next := off + |cur.lab| + 1;
      AddingStep(t, u, names, cur, off, next);
    }

    /** query_add_compression_domain: the question name and its ancestors become targets for pointers. */
    method AddCompressionDomain(domain: Domain, offset: nat, ghost names: map<nat, seq<Label>>)
      requires Sound(View(), names, NO_HOLE) && TableOk(View()) && dnames == [] && offset > 0 && |data| <= 0x1_0000
      requires Numbered(names, domain) && Plain(data, offset, domain)
      modifies this`offsets, this`dnames, this`sound
      ensures Sound(View(), names, NO_HOLE) && TableOk(View()) && SubTable(old(offsets), offsets) && sound == old(sound)
      ensures domain.Sub? && offset <= MAX_COMPRESSION_OFFSET ==>
                domain.number in offsets && offsets[domain.number] == offset
    {
      var cur: Domain, off: nat := domain, offset;
      ghost var first := true;
      while cur.Sub?
        invariant Adding(View(), names, cur, off) && TableOk(View()) && sound == old(sound)
        invariant SubTable(old(offsets), offsets)
        invariant first ==> cur == domain && dnames == [] && off == offset
        invariant !first ==> domain.Sub?
        invariant !first && offset <= MAX_COMPRESSION_OFFSET ==>
                    domain.number in offsets && offsets[domain.number] == offset
        decreases cur
      {
        off := AddOne(cur, off, names);
        cur := cur.parent;
        first := false;
      }
    }

    /** query_clear_compression_tables: only the entry for the query name stays. */
    method ClearCompressionTables()
      requires StackOk(View())
      modifies this`offsets, this`dnames
      ensures dnames == [] && offsets == map n | n in old(offsets) && n == 0 :: old(offsets)[n]
    {
      var i := 0;
      while i < |dnames|
        invariant 0 <= i <= |dnames| && dnames == old(dnames)
        invariant forall n :: n in offsets <==> n in old(offsets) && n !in old(dnames)[..i]
        invariant forall n :: n in offsets ==> offsets[n] == old(offsets)[n]
      {
        offsets := offsets - {dnames[i]};
        assert old(dnames)[..i + 1] == old(dnames)[..i] + [dnames[i]];
        i := i + 1;
      }
      assert old(dnames)[..i] == old(dnames);
      dnames := [];
    }

    /** query_clear_dname_offsets: when only writing happened since the message ended at `mark`, and no position was
        cut,
        this takes back exactly the entries made since then. */
    method ClearDnameOffsets(mark: nat, ghost s: State)
      requires TableOk(View())
      requires sound ==> Extends(s, View()) && StackOk(s) && StackOk(View()) && mark == |s.data|
      requires sound ==> forall n :: n in s.offsets ==> s.offsets[n] < mark
      modifies this`offsets, this`dnames
      ensures (offsets, dnames) == Cleared(old(offsets), old(dnames), mark)
      ensures TableOk(View()) && (0 in old(offsets) ==> 0 in offsets)
      ensures sound ==> offsets == s.offsets && dnames == s.dnames
    {
      ClearedTable(offsets, dnames, mark);
      if sound {
        assert AtHeight(View(), |dnames|, offsets) && dnames[..|dnames|] == dnames;
        ClearedBack(s, View(), |dnames|, offsets);
      }
      offsets, dnames := PopTo(mark, offsets, dnames);
    }

    /** Back to an earlier message end: buffer_set_position and query_clear_dname_offsets. */
    method Rollback(mark: nat, ghost s: State, ghost names: map<nat, seq<Label>>)
      requires TableOk(View()) && s.data <= data && mark == |s.data| && (0 in s.offsets ==> 0 in offsets)
      requires sound ==> Sound(s, names, NO_HOLE) && Extends(s, View()) && StackOk(View())
      modifies this`data, this`offsets, this`dnames
      ensures data == s.data && TableOk(View()) && (0 in s.offsets ==> 0 in offsets) && (sound ==> View() == s)
    {
      data := data[..mark];
      ClearDnameOffsets(mark, s);
    }

    /** One rdata atom. */
    method EncodeAtom(a: Atom, ghost names: map<nat, seq<Label>>, ghost hole: int)
      requires Usable(names, hole) && hole + 1 < |data| && 0 < |data| && AtomsOk(names, offsets, [a])
      modifies this`data, this`offsets, this`dnames, this`sound
      ensures Usable(names, hole) && Since(old(View()), old(sound))
      ensures |old(data)| <= |data| <= |old(data)| + AtomSize(a) && AtomAt(data, |old(data)|, a, |data|, hole, sound)
      ensures old(sound) && (a.CompressedDname? ==> StartsFit(|old(data)|, a.d)) ==> sound
    {
      ghost var t := View();
      assert a in [a];
      if sound { SameExtends(t, names, hole); }
      match a {
        case CompressedDname(d) =>
          EncodeDname(d, names, hole);
        case UncompressedDname(d) =>
          NumberedLabels(names, d);
          data := data + WireBytes(Labels(d));
          if sound { SoundGrow(t, data, names, hole); }
        case Data(b) =>
          data := data + b;
          if sound { SoundGrow(t, data, names, hole); }
      }
    }

    /** The loop of packet_encode_rr over the rdata atoms. */
    method EncodeRdata(rdata: seq<Atom>, ghost names: map<nat, seq<Label>>, ghost hole: int)
      returns (ghost cuts: seq<int>)
      requires Usable(names, hole) && hole + 1 < |data| && 0 < |data| && AtomsOk(names, offsets, rdata)
      modifies this`data, this`offsets, this`dnames, this`sound
      ensures Usable(names, hole) && Since(old(View()), old(sound))
      ensures |old(data)| <= |data| <= |old(data)| + RdataSize(rdata)
      ensures AtomsAt(data, cuts, rdata, hole, sound) && cuts[0] == |old(data)| && cuts[|rdata|] == |data|
      ensures forall i :: 0 <= i < |cuts| ==> |old(data)| <= cuts[i]
      ensures old(sound) && AtomsFit(|old(data)|, rdata) ==> sound
    {
      ghost var s, was := View(), sound;
      var j := 0;
      cuts := [|data|];
      assert rdata[0..] == rdata && rdata[..0] == [];
      if sound { SameExtends(s, names, hole); }
      while j < |rdata|
        invariant 0 <= j <= |rdata| && |s.data| <= |data|
        invariant Usable(names, hole) && Since(s, was)
        invariant AtomsOk(names, offsets, rdata[j..]) && |data| + RdataSize(rdata[j..]) <= |s.data| + RdataSize(rdata)
        invariant AtomsAt(data, cuts, rdata[..j], hole, sound) && cuts[0] == |s.data| && cuts[j] == |data|
        invariant forall i :: 0 <= i < |cuts| ==> |s.data| <= cuts[i]
        invariant was && AtomsFit(|s.data|, rdata) ==> sound && AtomsFit(|data|, rdata[j..])
      {
        cuts := EncodeNext(rdata, j, names, hole, s, was, cuts);
        j := j + 1;
      }
      assert rdata[..j] == rdata && rdata[j..] == [];
    }

    /** One round of that loop. */
    method EncodeNext(rdata: seq<Atom>, j: nat, ghost names: map<nat, seq<Label>>, ghost hole: int, ghost s: State,
                      ghost was: bool, ghost cuts0: seq<int>)
      returns (ghost cuts: seq<int>)
      requires Usable(names, hole) && hole + 1 < |data| && 0 < |data| && Since(s, was) && j < |rdata|
               && AtomsOk(names, offsets, rdata[j..])
      requires AtomsAt(data, cuts0, rdata[..j], hole, sound) && cuts0[j] == |data|
      modifies this`data, this`offsets, this`dnames, this`sound
      ensures Usable(names, hole) && Since(s, was) && AtomsOk(names, offsets, rdata[j + 1..])
      ensures |old(data)| <= |data| && |data| + RdataSize(rdata[j + 1..]) <= |old(data)| + RdataSize(rdata[j..])
      ensures AtomsAt(data, cuts, rdata[..j + 1], hole, sound) && cuts == cuts0 + [|data|]
      ensures old(sound) && AtomsFit(|old(data)|, rdata[j..]) ==> sound && AtomsFit(|data|, rdata[j + 1..])
    {
      ghost var t, before := View(), sound;
      RdataFirst(rdata, j);
      EncodeAtom(rdata[j], names, hole);
      if sound { ExtendsTransitive(s, t, View()); }
      AtomsOkMore(names, t.offsets, offsets, rdata[j + 1..]);
      AtomsSnoc(t.data, data, cuts0, rdata[..j], rdata[j], hole, before, sound);
      cuts := cuts0 + [|data|];
      if before && AtomsFit(|t.data|,
                            rdata[j..]) { AtomsFitBefore(|data|, |t.data| + AtomSize(rdata[j]), rdata[j + 1..]); }
    }

    ghost function Msg(): Message
      reads this`data, this`offsets, this`dnames, this`kept, this`maxlen, this`reservedSpace, this`sound
    {
      Message(View(), kept, maxlen - reservedSpace, sound)
    }

    /** The owner name and the fixed fields of a record, with two bytes left open for the rdata length. */
    method EncodeHeader(owner: Domain, fixed: seq<byte>, ghost names: map<nat, seq<Label>>) returns (lengthPos: nat)
      requires Usable(names, NO_HOLE) && 0 < |data| && |fixed| == 8 && Numbered(names, owner)
               && Encodable(offsets, owner)
      modifies this`data, this`offsets, this`dnames, this`sound
      ensures |old(data)| + 10 < |data| <= |old(data)| + WireLen(Labels(owner)) + 10 && lengthPos == |data| - 2
      ensures Usable(names, lengthPos) && Since(old(View()), old(sound))
      ensures HeaderAt(data[..lengthPos], |old(data)|, owner, fixed, sound)
      ensures old(sound) && StartsFit(|old(data)|, owner) ==> sound
    {
      EncodeDname(owner, names, NO_HOLE);
      ghost var t := View();
      HeaderWritten(t.data, |old(data)|, owner, fixed, sound);
      data := data + (fixed + [0, 0]);
      lengthPos := |data| - 2;
      assert data[..lengthPos] == t.data + fixed;
      ghost var u := View();
      if sound { HeaderSteps(old(View()), t, u, names, lengthPos, fixed + [0, 0]); }
    }

    /** Write the rdata length into its place; the record is complete. */
    method FillLength(lengthPos: nat, ghost start: nat, ghost cuts: seq<int>, ghost owner: Domain, ghost rr: RR,
                      ghost names: map<nat, seq<Label>>, ghost before: bool)
      requires lengthPos + 2 <= |data| && Usable(names, lengthPos)
      requires AtomsAt(data, cuts, rr.rdata, lengthPos, sound) && cuts[0] == lengthPos + 2 && cuts[|rr.rdata|] == |data|
      requires forall i :: 0 <= i < |cuts| ==> lengthPos + 2 <= cuts[i]
      requires HeaderAt(data[..lengthPos], start, owner, Fixed(rr), before) && (sound ==> before)
      modifies this`data
      ensures Usable(names, NO_HOLE) && |data| == |old(data)| && data[..lengthPos] == old(data)[..lengthPos]
      ensures RecordAt(data, Record(start, cuts, owner, rr, sound))
    {
      var rdlength := |data| - lengthPos - 2;
      ghost var t := View();
      ghost var pre := data[..lengthPos];
      data := data[..lengthPos] + U16(rdlength) + data[lengthPos + 2..];
      if sound { SoundFill(t, data, names, lengthPos); }
      AtomsFill(t.data, data, cuts, rr.rdata, lengthPos, sound);
      assert data[..lengthPos] == pre;
      HeaderComplete(data, lengthPos, start, cuts, owner, rr, before, sound);
    }

    /** The complete record joins the kept ones. */
    method Keep(lengthPos: nat, mark: nat, ghost s: State, ghost cuts: seq<int>, ghost owner: Domain, ghost rr: RR,
                ghost names: map<nat, seq<Label>>, ghost before: bool, ghost was: bool)
      requires lengthPos + 2 <= |data| && Usable(names, lengthPos) && Since(s, was) && mark == |s.data| <= lengthPos
      requires AtomsAt(data, cuts, rr.rdata, lengthPos, sound) && cuts[0] == lengthPos + 2 && cuts[|rr.rdata|] == |data|
      requires forall i :: 0 <= i < |cuts| ==> lengthPos + 2 <= cuts[i]
      requires HeaderAt(data[..lengthPos], mark, owner, Fixed(rr), before) && (sound ==> before)
      requires (forall r {:trigger RecordAt(s.data, r)} :: r in kept ==> RecordAt(s.data, r))
               && (was ==> forall r :: r in kept ==> r.sound)
      modifies this`data, this`kept
      ensures Usable(names, NO_HOLE) && Since(s, was) && |data| == |old(data)|
      ensures (forall r {:trigger RecordAt(data, r)} :: r in kept ==> RecordAt(data, r))
              && (sound ==> forall r :: r in kept ==> r.sound)
      ensures Appended(old(kept), kept, owner, rr, mark, |data|)
    {
      assert s.data == data[..lengthPos][..mark];
      FillLength(lengthPos, mark, cuts, owner, rr, names, before);
      assert s.data <= data by { assert data[..mark] == data[..lengthPos][..mark]; }
      forall r | r in kept ensures RecordAt(data, r) { RecordGrow(s.data, data, r); }
      kept := kept + [Record(mark, cuts, owner, rr, sound)];
    }

    /** The part of packet_encode_rr that only writes; the rdata length, at `lengthPos`, is still open. */
    method EncodeBody(owner: Domain, rr: RR, ghost names: map<nat, seq<Label>>)
      returns (lengthPos: nat, ghost cuts: seq<int>, ghost before: bool)
      requires Usable(names, NO_HOLE) && 0 < |data|
      requires Numbered(names, owner) && Encodable(offsets, owner) && AtomsOk(names, offsets, rr.rdata)
      modifies this`data, this`offsets, this`dnames, this`sound
      ensures Usable(names, lengthPos) && Since(old(View()), old(sound)) && (sound ==> before)
      ensures |old(data)| <= lengthPos && lengthPos + 2 <= |data| <= |old(data)| + RRSize(owner, rr)
      ensures AtomsAt(data, cuts, rr.rdata, lengthPos, sound) && cuts[0] == lengthPos + 2 && cuts[|rr.rdata|] == |data|
      ensures forall i :: 0 <= i < |cuts| ==> lengthPos + 2 <= cuts[i]
      ensures HeaderAt(data[..lengthPos], |old(data)|, owner, Fixed(rr), before)
      ensures old(sound) && RecordFits(|old(data)|, owner, rr) ==> sound
    {
      lengthPos := EncodeHeader(owner, Fixed(rr), names);
      ghost var t := View();
      before := sound;
      AtomsOkMore(names, old(offsets), offsets, rr.rdata);
      if before && RecordFits(|old(data)|, owner,
                              rr) { AtomsFitBefore(|data|, |old(data)| + WireLen(Labels(owner)) + 10, rr.rdata); }
      cuts := EncodeRdata(rr.rdata, names, lengthPos);
      if sound { ExtendsTransitive(old(View()), t, View()); }
      assert data[..lengthPos] == t.data[..lengthPos];
    }

    /** packet_encode_rr: the record is written completely, or the message is as before and the record does not fit.
        If no label starts beyond 16 bits the table stays sound, and a record that does not fit leaves no trace in it.
        */
    method EncodeRR(owner: Domain, rr: RR, ttl: nat, ghost names: map<nat, seq<Label>>) returns (ok: bool)
      requires Good(Msg(), names)
      requires Numbered(names, owner) && Encodable(offsets, owner) && AtomsOk(names, offsets, rr.rdata)
      modifies this`data, this`offsets, this`dnames, this`kept, this`sound
      ensures Good(Msg(), names) && Since(old(View()), old(sound))
      ensures ok ==> Appended(old(kept), kept, owner, rr.(ttl := ttl), |old(data)|, |data|)
      ensures !ok ==> data == old(data) && kept == old(kept) && |data| + RRSize(owner, rr) > maxlen - reservedSpace
      ensures !ok && sound ==> View() == old(View())
      ensures |data| <= |old(data)| + RRSize(owner, rr)
      ensures old(sound) && RecordFits(|old(data)|, owner, rr) ==> sound
    {
      ghost var s, was := View(), sound;
      var mark := |data|;
      var written := rr.(ttl := ttl);
      var lengthPos; ghost var cuts, before;
      lengthPos, cuts, before := EncodeBody(owner, written, names);
      ok := !Overflow();
      if ok {
        Keep(lengthPos, mark, s, cuts, owner, written, names, before, was);
      } else {
        Rollback(mark, s, names);
        if sound { SameExtends(s, names, NO_HOLE); }
      }
    }
  }

  /** The loop of query_clear_dname_offsets. */
  method PopTo(mark: nat, offsets0: map<nat, nat>, dnames0: seq<nat>) returns (offsets: map<nat, nat>, dnames: seq<nat>)
    ensures (offsets, dnames) == Cleared(offsets0, dnames0, mark)
  {
    offsets, dnames := offsets0, dnames0;
    while dnames != [] && (if dnames[|dnames| - 1] in offsets then offsets[dnames[|dnames| - 1]] else 0) >= mark
      invariant Cleared(offsets0, dnames0, mark) == Cleared(offsets, dnames, mark)
      decreases |dnames|
    {
      offsets := offsets - {dnames[|dnames| - 1]};
      dnames := dnames[..|dnames| - 1];
    }
  }

  /** Popping `t` at height `k` leads to the table and stack of `s`. */
  ghost predicate LeadsBack(s: State, t: State, k: nat, offsets: map<nat, nat>)
  {
    k <= |t.dnames| && Cleared(offsets, t.dnames[..k], |s.data|) == (s.offsets, s.dnames)
  }

  /** `t` was reached from `s` by writing, and its stack was popped down to height `k`. */
  ghost predicate PoppedTo(s: State, t: State, k: nat, offsets: map<nat, nat>)
  {
    && Extends(s, t) && StackOk(t) && StackOk(s) && |s.dnames| <= k && AtHeight(t, k, offsets)
    && forall n :: n in s.offsets ==> s.offsets[n] < |s.data|
  }

  lemma PoppedMore(s: State, t: State, k: nat, offsets: map<nat, nat>)
    requires PoppedTo(s, t, k, offsets) && k > 0 && t.offsets[t.dnames[k - 1]] >= |s.data|
    ensures PoppedTo(s, t, k - 1, offsets - {t.dnames[k - 1]})
  {
    BottomStays(s, t);
    PopStep(t, k - 1, offsets);
  }

  /** When only writing happened since the message was `s`, the pops lead back to the table and stack of `s`. */
  lemma {:induction false} ClearedBack(s: State, t: State, k: nat, offsets: map<nat, nat>)
    requires PoppedTo(s, t, k, offsets)
    ensures LeadsBack(s, t, k, offsets)
    decreases k
  {
    if k > 0 && t.offsets[t.dnames[k - 1]] >= |s.data| {
      PoppedMore(s, t, k, offsets);
      ClearedBack(s, t, k - 1, offsets - {t.dnames[k - 1]});
      ClearedOne(s, t, k, offsets);
    } else {
      ClearedStop(s, t, k, offsets);
    }
  }

  lemma ClearedOne(s: State, t: State, k: nat, offsets: map<nat, nat>)
    requires StackOk(t) && 0 < k <= |t.dnames| && AtHeight(t, k, offsets) && t.offsets[t.dnames[k - 1]] >= |s.data|
    requires LeadsBack(s, t, k - 1, offsets - {t.dnames[k - 1]})
    ensures LeadsBack(s, t, k, offsets)
  {
    TopOf(t, k, offsets);
  }

  lemma ClearedStop(s: State, t: State, k: nat, offsets: map<nat, nat>)
    requires PoppedTo(s, t, k, offsets) && (k > 0 ==> t.offsets[t.dnames[k - 1]] < |s.data|)
    ensures LeadsBack(s, t, k, offsets)
  {
    if k > 0 { TopOf(t, k, offsets); }
    AllPopped(s, t, k, offsets);
    assert t.dnames[..k] == s.dnames;
  }

  lemma BottomStays(s: State, t: State)
    requires Extends(s, t) && StackOk(s) && forall n :: n in s.offsets ==> s.offsets[n] < |s.data|
    ensures forall i :: 0 <= i < |s.dnames| ==> t.dnames[i] in t.offsets && t.offsets[t.dnames[i]] < |s.data|
  {
    assert forall i :: 0 <= i < |s.dnames| ==> t.dnames[i] == s.dnames[i];
  }

  lemma TopOf(t: State, k: nat, offsets: map<nat, nat>)
    requires StackOk(t) && 0 < k <= |t.dnames| && AtHeight(t, k, offsets)
    ensures var d := t.dnames[..k]; d != [] && d[|d| - 1] == t.dnames[k - 1] && d[..|d| - 1] == t.dnames[..k - 1]
    ensures t.dnames[k - 1] in offsets && offsets[t.dnames[k - 1]] == t.offsets[t.dnames[k - 1]]
  {
  }

  /** query_clear_dname_offsets as a function: pop the stack while its top has an offset at or beyond the mark. */
  function Cleared(offsets: map<nat, nat>, dnames: seq<nat>, mark: nat): (r: (map<nat, nat>, seq<nat>))
  {
    if dnames == [] then (offsets, dnames)
    else
      var n := |dnames| - 1;
      if (if dnames[n] in offsets then offsets[dnames[n]] else 0) < mark then (offsets, dnames)
      else Cleared(offsets - {dnames[n]}, dnames[..n], mark)
  }

  /** Labels recorded one after the other: the number and the position of each. */
  function PutAll(offsets: map<nat, nat>, dnames: seq<nat>, labels: seq<(nat, nat)>): (r: (map<nat, nat>, seq<nat>))
  {
    if labels == [] then (offsets, dnames)
    else
      var k := |labels| - 1;
      var (o, d) := PutAll(offsets, dnames, labels[..k]);
      PutEntry(o, d, labels[k].0, labels[k].1)
  }

  /** Label `k` got an entry: its position, cut to 16 bits, is small enough for a pointer, and the stack is not full. */
  predicate Recorded(offsets: map<nat, nat>, dnames: seq<nat>, labels: seq<(nat, nat)>, k: nat)
    requires k < |labels|
  {
    labels[k].1 % 0x1_0000 <= MAX_COMPRESSION_OFFSET && |PutAll(offsets, dnames, labels[..k]).1| < MAX_COMPRESSED_DNAMES
  }

  /** The labels are of domains that are not in the table yet, all different. */
  ghost predicate NewLabels(offsets: map<nat, nat>, labels: seq<(nat, nat)>)
  {
    && (forall k :: 0 <= k < |labels| ==> labels[k].0 !in offsets)
    && (forall j, k :: 0 <= j < k < |labels| ==> labels[j].0 != labels[k].0)
  }

  lemma {:induction false} PutAllKeys(offsets: map<nat, nat>, dnames: seq<nat>, labels: seq<(nat, nat)>, n: nat)
    requires n !in offsets && forall k :: 0 <= k < |labels| ==> labels[k].0 != n
    ensures n !in PutAll(offsets, dnames, labels).0
  {
    if labels != [] { PutAllKeys(offsets, dnames, labels[..|labels| - 1], n); }
  }

  lemma TopGoes(offsets: map<nat, nat>, dnames: seq<nat>, number: nat, off: nat, mark: nat)
    requires number !in offsets && off >= mark
    ensures Cleared(offsets[number := off], dnames + [number], mark) == Cleared(offsets, dnames, mark)
  {
    assert (dnames + [number])[..|dnames|] == dnames && offsets[number := off] - {number} == offsets;
  }

  lemma TopStays(offsets: map<nat, nat>, dnames: seq<nat>, number: nat, off: nat, mark: nat)
    requires number !in offsets && off < mark
    ensures Cleared(offsets[number := off], dnames + [number], mark) == (offsets[number := off], dnames + [number])
  {
  }

  /** After the labels were recorded, popping to the mark gives back table and stack. */
  ghost predicate TakenBack(offsets: map<nat, nat>, dnames: seq<nat>, labels: seq<(nat, nat)>, mark: nat)
  {
    var (o, d) := PutAll(offsets, dnames, labels);
    Cleared(o, d, mark) == (offsets, dnames)
  }

  /** The position of every label that got an entry, cut to 16 bits, is at or beyond the mark. */
  ghost predicate AllBeyond(offsets: map<nat, nat>, dnames: seq<nat>, labels: seq<(nat, nat)>, mark: nat)
  {
    forall k {:trigger Recorded(offsets, dnames, labels, k)} ::
      0 <= k < |labels| && Recorded(offsets, dnames, labels, k) ==>
      labels[k].1 % 0x1_0000 >= mark
  }

  /** What is recorded after a mark is taken back by the rollback exactly when the position of every label that got an
      entry is still at or beyond the mark after it was cut to 16 bits. */
  lemma {:induction false} ForgottenExactly(offsets: map<nat, nat>, dnames: seq<nat>, labels: seq<(nat, nat)>,
                                            mark: nat)
    requires NewLabels(offsets, labels) && Cleared(offsets, dnames, mark) == (offsets, dnames)
    ensures TakenBack(offsets, dnames, labels, mark) <==> AllBeyond(offsets, dnames, labels, mark)
  {
    if labels != [] {
      var k := |labels| - 1;
      var init := labels[..k];
      var (o, d) := PutAll(offsets, dnames, init);
      ForgottenExactly(offsets, dnames, init, mark);
      forall j | 0 <= j < k ensures Recorded(offsets, dnames, labels, j) == Recorded(offsets, dnames, init, j) {
        assert init[..j] == labels[..j];
      }
      if Recorded(offsets, dnames, labels, k) {
        var n, off := labels[k].0, labels[k].1 % 0x1_0000;
        PutAllKeys(offsets, dnames, init, n);
        if off >= mark { TopGoes(o, d, n, off, mark); } else { TopStays(o, d, n, off, mark); }
      }
    }
  }

  /** Labels that start after the mark and below 65536 are always taken back. */
  lemma ForgottenBelow(offsets: map<nat, nat>, dnames: seq<nat>, labels: seq<(nat, nat)>, mark: nat)
    requires NewLabels(offsets, labels) && Cleared(offsets, dnames, mark) == (offsets, dnames)
    requires forall k :: 0 <= k < |labels| ==> mark <= labels[k].1 < 0x1_0000
    ensures TakenBack(offsets, dnames, labels, mark)
  {
    assert forall k :: 0 <= k < |labels| ==> labels[k].1 % 0x1_0000 == labels[k].1;
    ForgottenExactly(offsets, dnames, labels, mark);
  }

  /** Whatever the table is, a label at position 65540 leaves the offset 4, inside the message header, in it after a
      rollback to 60000. */
  lemma WrappedOffsetStays(offsets: map<nat, nat>, dnames: seq<nat>, number: nat)
    requires number !in offsets && |dnames| < MAX_COMPRESSED_DNAMES
    ensures var (o, d) := PutEntry(offsets, dnames, number, 65540);
            Cleared(o, d, 60000) == (offsets[number := 4], dnames + [number])
  {
    TopStays(offsets, dnames, number, 4, 60000);
  }

  /** Number `n` is on the stack of `t` at or above height `k`. */
  ghost predicate Popped(t: State, k: nat, n: nat)
  {
    exists j :: k <= j < |t.dnames| && t.dnames[j] == n
  }

  /** The table of `t` after its stack was popped down to height `k`. */
  ghost predicate AtHeight(t: State, k: nat, offsets: map<nat, nat>)
  {
    && k <= |t.dnames|
    && (forall n :: n in offsets <==> n in t.offsets && !Popped(t, k, n))
    && (forall n :: n in offsets ==> offsets[n] == t.offsets[n])
    && (forall i :: 0 <= i < k ==> t.dnames[i] in offsets)
  }

  lemma PopStep(t: State, k: nat, offsets: map<nat, nat>)
    requires StackOk(t) && k < |t.dnames| && AtHeight(t, k + 1, offsets)
    ensures AtHeight(t, k, offsets - {t.dnames[k]})
  {
    forall i | 0 <= i < k ensures t.dnames[i] != t.dnames[k] {
      assert t.offsets[t.dnames[i]] < t.offsets[t.dnames[k]];
    }
    assert forall m :: Popped(t, k, m) <==> Popped(t, k + 1, m) || m == t.dnames[k];
  }

  /** When the pops stop, table and stack are those of `s`. */
  lemma AllPopped(s: State, t: State, k: nat, offsets: map<nat, nat>)
    requires Extends(s, t) && StackOk(t) && StackOk(s) && |s.dnames| <= k && AtHeight(t, k, offsets)
    requires k > 0 ==> t.offsets[t.dnames[k - 1]] < |s.data|
    ensures k == |s.dnames| && offsets == s.offsets
  {
    forall n | n in offsets ensures n in s.offsets {
      if n != 0 {
        var i :| 0 <= i < |t.dnames| && t.dnames[i] == n;
        assert i < k;
        assert s.dnames[i] == n;
      }
    }
  }

  // -------------------------------------------------------------------- reading back what was written

  /** The owner of a record in the message reads back, up to case, as the name of the domain. */
  method ReadOwner(d: seq<byte>, start: nat, ghost r: Record)
    returns (ok: bool, buf: seq<byte>, end: int, ghost read: seq<Label>)
    requires RecordAt(d, r) && r.sound && start == r.start && WireLen(Labels(r.owner)) <= MAXDOMAINLEN
    ensures ok && SameLabels(read, Labels(r.owner)) && (forall l :: l in read ==> |l| < 64) && buf == WireBytes(read)
            && end + 10 == r.cuts[0]
  {
    ok, buf, end, read := DecodeName(d, start, Labels(r.owner));
  }

  /** So does each compressed name in its rdata, and it ends where the next rdata field begins. */
  method ReadRdataName(d: seq<byte>, pos: nat, ghost r: Record, ghost i: nat)
    returns (ok: bool, buf: seq<byte>, end: int, ghost read: seq<Label>)
    requires RecordAt(d, r) && r.sound && i < |r.rr.rdata| && r.rr.rdata[i].CompressedDname? && pos == r.cuts[i]
             && WireLen(Labels(r.rr.rdata[i].d)) <= MAXDOMAINLEN
    ensures ok && SameLabels(read, Labels(r.rr.rdata[i].d)) && (forall l :: l in read ==> |l| < 64)
            && buf == WireBytes(read) && end == r.cuts[i + 1]
  {
    assert AtomAt(d, r.cuts[i], r.rr.rdata[i], r.cuts[i + 1], NO_HOLE, true);
    ok, buf, end, read := DecodeName(d, pos, Labels(r.rr.rdata[i].d));
  }
}
