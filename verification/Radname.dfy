/** Domain names as radix tree keys (the radname routines of radtree.c).
    A name becomes its labels, most significant first, lowercased, joined by a 00 byte;
    bytes below 'A' move up by one to make room for the separator. */
module Radname {
  import opened Bytes
  import opened Dname
  import opened RadShape
  import opened RadOrder
  import Wire

  const MAXLABELLEN := 63

  // -------------------------------------------------------------------- characters

  /** char_d2r */
  function CharD2R(c: byte): (r: byte)
    ensures r != 0
  {
    if c < UPPER_A then c + 1 else if c <= UPPER_Z then c + 32 else c
  }

  /** char_r2d */
  function CharR2D(c: byte): (r: byte)
    requires c != 0
  {
    if c <= UPPER_A then c - 1 else c
  }

  function LowerLabel(l: Label): (r: Label)
    ensures |r| == |l| && forall i :: 0 <= i < |l| ==> r[i] == Lower(l[i])
  {
    seq(|l|, i requires 0 <= i < |l| => Lower(l[i]))
  }

  function LowerName(n: Name): (r: Name)
    ensures |r| == |n| && forall i :: 0 <= i < |n| ==> r[i] == LowerLabel(n[i])
  {
    seq(|n|, i requires 0 <= i < |n| => LowerLabel(n[i]))
  }

  /** cpy_d2r */
  function LabelD2R(l: Label): (r: seq<byte>)
    ensures |r| == |l| && forall i :: 0 <= i < |l| ==> r[i] == CharD2R(l[i])
  {
    seq(|l|, i requires 0 <= i < |l| => CharD2R(l[i]))
  }

  /** cpy_r2d */
  function LabelR2D(k: seq<byte>): (r: Label)
    requires forall i :: 0 <= i < |k| ==> k[i] != 0
    ensures |r| == |k| && forall i :: 0 <= i < |k| ==> r[i] == CharR2D(k[i])
  {
    seq(|k|, i requires 0 <= i < |k| => CharR2D(k[i]))
  }

  predicate NoEmptyLabel(n: Name)
  {
    forall i :: 0 <= i < |n| ==> n[i] != []
  }

  // -------------------------------------------------------------------- keys

  /** The key of a name. */
  function D2R(n: Name): (k: seq<byte>)
    decreases |n|, 0
  {
    if n == [] then [] else LabelD2R(n[0]) + Tail(n[1..])
  }

  /** What follows a label in a key: nothing, or the separator and the rest. */
  function Tail(n: Name): (k: seq<byte>)
    ensures n == [] <==> k == []
    ensures k != [] ==> k[0] == 0
    decreases |n|, 1
  {
    if n == [] then [] else [0] + D2R(n)
  }

  /** The name of a key, most significant label first. */
  function R2D(k: seq<byte>): (n: Name)
    decreases |k|
  {
    if k == [] then []
    else
      var e := LabelEnd(k);
      [LabelR2D(k[..e])] + if e == |k| then [] else R2D(k[e + 1..])
  }

  /** Where the first label of a key ends: at its first 00 byte. */
  function LabelEnd(k: seq<byte>): (e: nat)
    ensures e <= |k| && (e < |k| ==> k[e] == 0)
    ensures forall i :: 0 <= i < e ==> k[i] != 0
  {
    if k == [] || k[0] == 0 then 0 else 1 + LabelEnd(k[1..])
  }

  lemma LabelEndIs(k: seq<byte>, e: nat)
    requires e <= |k| && (e < |k| ==> k[e] == 0) && forall i :: 0 <= i < e ==> k[i] != 0
    ensures LabelEnd(k) == e
  {
  }

  /** radname_r2d undoes radname_d2r up to lowercasing. */
  lemma {:induction false} RoundTrip(n: Name)
    requires NoEmptyLabel(n)
    ensures R2D(D2R(n)) == LowerName(n)
  {
    if n != [] {
      var l, k := LabelD2R(n[0]), D2R(n);
      assert k[..|l|] == l;
      LabelEndIs(k, |l|);
      assert LabelR2D(l) == LowerLabel(n[0]);
      if |n| > 1 {
        assert Tail(n[1..]) == [0] + D2R(n[1..]);
        assert k == l + ([0] + D2R(n[1..]));
        assert k[|l| + 1..] == D2R(n[1..]);
        RoundTrip(n[1..]);
      }
      assert LowerName(n) == [LowerLabel(n[0])] + LowerName(n[1..]);
    }
  }

  // -------------------------------------------------------------------- order isomorphism

  lemma {:induction false} KeyIgnoresCase(n: Name)
    ensures D2R(n) == D2R(LowerName(n))
  {
    if n != [] {
      KeyIgnoresCase(n[1..]);
      assert LowerName(n)[1..] == LowerName(n[1..]);
      assert LabelD2R(n[0]) == LabelD2R(LowerLabel(n[0]));
    }
  }

  predicate IsLower(n: Name)
  {
    forall i, j :: 0 <= i < |n| && 0 <= j < |n[i]| ==> !(UPPER_A <= n[i][j] <= UPPER_Z)
  }

  /** On lowercase labels the byte map is strictly monotone, and no byte maps to the separator. */
  lemma LabelOrder(a: Label, b: Label, ra: seq<byte>, rb: seq<byte>)
    requires forall j :: 0 <= j < |a| ==> !(UPPER_A <= a[j] <= UPPER_Z)
    requires forall j :: 0 <= j < |b| ==> !(UPPER_A <= b[j] <= UPPER_Z)
    requires LexLess(a, b) && (ra == [] || ra[0] == 0)
    ensures LexLess(LabelD2R(a) + ra, LabelD2R(b) + rb)
  {
    var i :| LexAt(a, b, i);
    var x, y := LabelD2R(a) + ra, LabelD2R(b) + rb;
    assert x[..i] == y[..i] by {
      assert forall j :: 0 <= j < i ==> a[j] == a[..i][j] == b[..i][j] == b[j];
    }
    assert LexAt(x, y, i);
  }

  /** The canonical order of lowercase names is the byte order of their keys. */
  lemma {:induction false} KeyOrderForward(a: Name, b: Name)
    requires IsLower(a) && IsLower(b) && NoEmptyLabel(a) && NoEmptyLabel(b) && NameLess(a, b)
    ensures LexLess(D2R(a), D2R(b))
    decreases |a|
  {
    var i :| NameAt(a, b, i);
    if a == [] {
      assert LexAt(D2R(a), D2R(b), 0);
    } else if i == 0 {
      LabelOrder(a[0], b[0], Tail(a[1..]), Tail(b[1..]));
    } else {
      var x, y := a[1..], b[1..];
      assert a[0] == a[..i][0] == b[..i][0] == b[0];
      assert x[..i - 1] == a[..i][1..] && y[..i - 1] == b[..i][1..];
      assert NameAt(x, y, i - 1);
      KeyOrderForward(x, y);
      if x == [] {
        assert LexAt(Tail(x), Tail(y), 0);
      } else {
        CommonPrefixOrder([0], D2R(x), D2R(y));
      }
      CommonPrefixOrder(LabelD2R(a[0]), Tail(x), Tail(y));
    }
  }

  /** radname_d2r is a strict order isomorphism on lowercase names. */
  lemma KeyOrder(a: Name, b: Name)
    requires IsLower(a) && IsLower(b) && NoEmptyLabel(a) && NoEmptyLabel(b)
    ensures NameLess(a, b) <==> LexLess(D2R(a), D2R(b))
    ensures a == b <==> D2R(a) == D2R(b)
  {
    NameTotal(a, b);
    if NameLess(a, b) {
      KeyOrderForward(a, b);
      LexAsymmetric(D2R(a), D2R(b));
      NameAsymmetric(a, b);
    } else if NameLess(b, a) {
      KeyOrderForward(b, a);
      LexAsymmetric(D2R(b), D2R(a));
      NameAsymmetric(b, a);
    } else if LexLess(D2R(a), D2R(b)) {
      LexAsymmetric(D2R(a), D2R(b));
    }
  }

  // -------------------------------------------------------------------- wire format

  predicate ValidName(n: Name)
  {
    forall i :: 0 <= i < |n| ==> 1 <= |n[i]| <= MAXLABELLEN
  }

  /** The uncompressed wire format: length-prefixed labels, least significant first, then the root label. */
  function WireOf(n: Name): (d: seq<byte>)
    requires ValidName(n)
    ensures d != []
  {
    if n == [] then [0] else [|n[|n| - 1]|] + n[|n| - 1] + WireOf(n[..|n| - 1])
  }

  /** The labels of a name, least significant first. */
  function LeastFirst(n: Name): (labels: seq<Label>)
    ensures |labels| == |n|
    ensures forall l :: l in labels ==> l in n
  {
    if n == [] then [] else [n[|n| - 1]] + LeastFirst(n[..|n| - 1])
  }

  /** It is what a name without compression looks like in a message. */
  lemma {:induction false} WireOfIsWireBytes(n: Name)
    requires ValidName(n)
    ensures WireOf(n) == Wire.WireBytes(LeastFirst(n))
  {
    if n != [] {
      WireOfIsWireBytes(n[..|n| - 1]);
      assert LeastFirst(n)[1..] == LeastFirst(n[..|n| - 1]);
    }
  }

  /** The labels found from position `pos` on, most significant first; None on a format error. */
  function ParseName(d: seq<byte>, pos: nat): (r: Option<Name>)
    requires pos < |d|
    ensures r.Some? ==> r.value != []
    decreases |d| - pos
  {
    var len := d[pos];
    if len > MAXLABELLEN || pos + len + 1 >= |d| then None
    else
      var l := d[pos + 1..pos + 1 + len];
      if d[pos + len + 1] == 0 then Some([l])
      else
        match ParseName(d, pos + len + 1)
        case None => None
        case Some(n) => Some(n + [l])
  }

  lemma ParseStep(d: seq<byte>, pos: nat, l: Label, m: Name)
    requires pos < |d| && d[pos] == |l| <= MAXLABELLEN && pos + 1 + |l| < |d|
    requires d[pos + 1..pos + 1 + |l|] == l
    requires if m == [] then d[pos + 1 + |l|] == 0
             else d[pos + 1 + |l|] != 0 && ParseName(d, pos + 1 + |l|) == Some(m)
    ensures ParseName(d, pos) == Some(m + [l])
  {
    assert pos + d[pos] + 1 == pos + 1 + |l|;
    if m == [] { assert m + [l] == [l]; }
  }

  /** The wire format of `n` is in `d`, from `pos` to the end. */
  ghost predicate WireAt(d: seq<byte>, pos: nat, n: Name)
    decreases |n|
  {
    if n == [] then pos + 1 == |d| && d[pos] == 0
    else
      var l := n[|n| - 1];
      && 1 <= |l| <= MAXLABELLEN && pos + 1 + |l| < |d| && d[pos] == |l| && d[pos + 1..pos + 1 + |l|] == l
      && WireAt(d, pos + 1 + |l|, n[..|n| - 1])
  }

  lemma {:induction false} WireIsAt(n: Name, pre: seq<byte>, d: seq<byte>)
    requires ValidName(n) && d == pre + WireOf(n)
    ensures WireAt(d, |pre|, n)
    decreases |n|
  {
    if n != [] {
      var l := n[|n| - 1];
      WireStep(n, pre);
      WireIsAt(n[..|n| - 1], pre + [|l|] + l, d);
    }
  }

  lemma {:induction false} ParseAt(d: seq<byte>, pos: nat, n: Name)
    requires WireAt(d, pos, n) && n != []
    ensures pos < |d| && ParseName(d, pos) == Some(n)
    decreases |n|
  {
    var m, l := n[..|n| - 1], n[|n| - 1];
    if m != [] { ParseAt(d, pos + 1 + |l|, m); }
    ParseStep(d, pos, l, m);
    assert n == m + [l];
  }

  /** Parsing a wire format gives the name back. */
  lemma ParseWire(n: Name, pre: seq<byte>, d: seq<byte>)
    requires ValidName(n) && n != [] && d == pre + WireOf(n)
    ensures |pre| < |d| && ParseName(d, |pre|) == Some(n)
  {
    WireIsAt(n, pre, d);
    ParseAt(d, |pre|, n);
  }

  lemma WireHead(m: Name)
    requires ValidName(m)
    ensures WireOf(m)[0] == if m == [] then 0 else |m[|m| - 1]|
  {
  }

  /** One length-prefixed label `l` between `pre` and `rest`. */
  lemma LabelBetween(pre: seq<byte>, l: Label, rest: seq<byte>)
    requires |l| <= MAXLABELLEN
    ensures var d, pre' := pre + ([|l|] + l + rest), pre + [|l|] + l;
            && d == pre' + rest
            && d[|pre|] == |l| && d[|pre| + 1..|pre| + 1 + |l|] == l
  {
  }

  lemma WireStep(n: Name, pre: seq<byte>)
    requires ValidName(n) && n != []
    ensures var m, l := n[..|n| - 1], n[|n| - 1];
            var d, pre' := pre + WireOf(n), pre + [|l|] + l;
            && d == pre' + WireOf(m) && |pre'| < |d|
            && d[|pre|] == |l| && d[|pre| + 1..|pre| + 1 + |l|] == l
            && (d[|pre'|] == 0 <==> m == [])
  {
    WireHead(n[..|n| - 1]);
    LabelBetween(pre, n[|n| - 1], WireOf(n[..|n| - 1]));
  }

  // -------------------------------------------------------------------- position in the key

  /** Where label `j` starts in the key. */
  function LabelStart(n: Name, j: nat): (s: nat)
    requires j < |n|
  {
    if j == 0 then 0 else |n[0]| + 1 + LabelStart(n[1..], j - 1)
  }

  lemma ConsKey(n: Name, k: seq<byte>)
    requires n != [] && k == D2R(n)
    ensures |n| == 1 ==> k == LabelD2R(n[0])
    ensures |n| > 1 ==> k == LabelD2R(n[0]) + [0] + D2R(n[1..])
  {
    if |n| > 1 { assert Tail(n[1..]) == [0] + D2R(n[1..]); }
  }

  /** The bytes of the key, label by label. */
  lemma {:induction false} KeyBytes(n: Name, j: nat, k: seq<byte>)
    requires j < |n| && k == D2R(n)
    ensures LaidOut(n, j, k)
    decreases j
  {
    ConsKey(n, k);
    if j > 0 {
      KeyBytes(n[1..], j - 1, D2R(n[1..]));
      KeyBytesStep(n, j, k, D2R(n[1..]));
    }
  }

  /** The layout that KeyBytes states for label `j`. */
  ghost predicate LaidOut(n: Name, j: nat, k: seq<byte>)
    requires j < |n|
  {
    var s := LabelStart(n, j);
    && s + |n[j]| <= |k|
    && (forall i :: 0 <= i < |n[j]| ==> k[s + i] == CharD2R(n[j][i]))
    && (if j + 1 < |n| then s + |n[j]| < |k| && k[s + |n[j]|] == 0 && LabelStart(n, j + 1) == s + |n[j]| + 1
        else s + |n[j]| == |k|)
  }

  lemma KeyBytesStep(n: Name, j: nat, k: seq<byte>, km: seq<byte>)
    requires 0 < j < |n| && k == LabelD2R(n[0]) + [0] + km && LaidOut(n[1..], j - 1, km)
    ensures LaidOut(n, j, k)
  {
    var m, d := n[1..], |n[0]| + 1;
    var s := LabelStart(m, j - 1);
    assert LabelStart(n, j) == d + s;
    forall i | 0 <= i < |km| ensures k[d + i] == km[i] { }
    forall i | 0 <= i < |n[j]|
      ensures k[d + s + i] == CharD2R(n[j][i])
    {
      assert km[s + i] == CharD2R(m[j - 1][i]);
    }
  }

  // -------------------------------------------------------------------- streaming search

  /** The label stack: `labstart[lab]` is where label `|name| - 1 - lab` of the name starts in `d`. */
  ghost predicate Stacked(d: seq<byte>, labstart: seq<nat>, name: Name)
  {
    && |labstart| == |name|
    && forall lab {:trigger StackedAt(d, labstart, name, lab)} :: 0 <= lab < |labstart| ==>
         StackedAt(d, labstart, name, lab)
  }

  ghost predicate StackedAt(d: seq<byte>, labstart: seq<nat>, name: Name, lab: nat)
    requires lab < |labstart| == |name|
  {
    LabelAt(d, labstart[lab], name[|name| - 1 - lab])
  }

  /** The label `l` is at `start`, after its length. */
  ghost predicate LabelAt(d: seq<byte>, start: nat, l: Label)
  {
    start < |d| && start + 1 + d[start] <= |d| && l == d[start + 1..start + 1 + d[start]]
  }

  lemma StackedMore(d: seq<byte>, labstart: seq<nat>, name: Name, start: nat, l: Label)
    requires Stacked(d, labstart, name) && LabelAt(d, start, l)
    ensures Stacked(d, labstart + [start], [l] + name)
  {
    var s, n := labstart + [start], [l] + name;
    forall lab | 0 <= lab < |s|
      ensures StackedAt(d, s, n, lab)
    {
      if lab < |labstart| {
        assert StackedAt(d, labstart, name, lab);
      }
    }
  }

  /** One label of the loop, if it is well formed. */
  lemma ParseLabel(d: seq<byte>, pos: nat, lower: Name)
    requires pos < |d| && d[pos] <= MAXLABELLEN && pos + d[pos] + 1 < |d|
    ensures var l, next := d[pos + 1..pos + 1 + d[pos]], pos + d[pos] + 1;
            Joined(ParseName(d, pos), lower)
            == if d[next] == 0 then Some([l] + lower) else Joined(ParseName(d, next), [l] + lower)
  {
    var l, next := d[pos + 1..pos + 1 + d[pos]], pos + d[pos] + 1;
    if d[next] != 0 {
      assert ParseName(d, pos) == Joined(ParseName(d, next), [l]);
      JoinedMore(ParseName(d, next), l, lower);
    }
  }

  /** The labels found further on, followed by those found so far. */
  ghost function Joined(rest: Option<Name>, lower: Name): Option<Name>
  {
    if rest.None? then None else Some(rest.value + lower)
  }

  lemma JoinedNothing(rest: Option<Name>)
    ensures Joined(rest, []) == rest
  {
    if rest.Some? { assert rest.value + [] == rest.value; }
  }

  lemma JoinedMore(rest: Option<Name>, l: Label, lower: Name)
    ensures Joined(Joined(rest, [l]), lower) == Joined(rest, [l] + lower)
  {
    if rest.Some? { assert rest.value + [l] + lower == rest.value + ([l] + lower); }
  }

  /** The loop that walks the labels and pushes their starts. */
  method LabelStack(d: seq<byte>) returns (ok: bool, labstart: seq<nat>)
    requires d != []
    ensures ok <==> ParseName(d, 0).Some?
    ensures ok ==> Stacked(d, labstart, ParseName(d, 0).value)
  {
    labstart := [];
    var dpos := 0;
    ghost var lower: Name := [];
    JoinedNothing(ParseName(d, 0));
    while true
      invariant 0 <= dpos < |d|
      invariant Stacked(d, labstart, lower) && ParseName(d, 0) == Joined(ParseName(d, dpos), lower)
      decreases |d| - dpos
    {
      if d[dpos] > MAXLABELLEN { return false, []; }
      if dpos + d[dpos] + 1 >= |d| { return false, []; }
      ghost var l := d[dpos + 1..dpos + 1 + d[dpos]];
      ParseLabel(d, dpos, lower);
      StackedMore(d, labstart, lower, dpos, l);
      labstart := labstart + [dpos];
      dpos := dpos + d[dpos] + 1;
      lower := [l] + lower;
      if d[dpos] == 0 { break; }
    }
    return true, labstart;
  }

  /** The cursor (label, position in label) stands at byte `pos` of the key. */
  ghost predicate CursorAt(name: Name, lab: nat, lpos: nat, pos: nat)
  {
    && lab < |name|
    && var j := |name| - 1 - lab;
    && lpos <= |name[j]| && pos == LabelStart(name, j) + lpos
  }

  /** The byte of the key at the cursor, and where the cursor is after it. */
  lemma CursorByte(name: Name, lab: nat, lpos: nat, pos: nat)
    requires CursorAt(name, lab, lpos, pos)
    ensures var l, k := name[|name| - 1 - lab], D2R(name);
            if lpos < |l| then pos < |k| && k[pos] == CharD2R(l[lpos]) && CursorAt(name, lab, lpos + 1, pos + 1)
            else if lab == 0 then pos == |k|
            else pos < |k| && k[pos] == 0 && CursorAt(name, lab - 1, 0, pos + 1)
  {
    KeyBytes(name, |name| - 1 - lab, D2R(name));
  }

  /** Fetch the next byte of the key, or find that it has ended. */
  method NextByte(d: seq<byte>, labstart: seq<nat>, lab: nat, lpos: nat, ghost name: Name, ghost pos: nat)
    returns (ended: bool, byt: byte, lab': nat, lpos': nat)
    requires Stacked(d, labstart, name) && CursorAt(name, lab, lpos, pos)
    ensures ended <==> pos == |D2R(name)|
    ensures !ended ==> pos < |D2R(name)| && byt == D2R(name)[pos] && CursorAt(name, lab', lpos', pos + 1)
  {
    CursorByte(name, lab, lpos, pos);
    assert StackedAt(d, labstart, name, lab);
    lab', lpos' := lab, lpos;
    if lpos < d[labstart[lab]] {
      byt := CharD2R(d[labstart[lab] + 1 + lpos]);
      lpos' := lpos + 1;
      ended := false;
    } else if lab == 0 {
      ended, byt := true, 0;
    } else {
      ended, byt, lpos', lab' := false, 0, 0, lab - 1;
    }
  }

  /** What radname_find_less_equal answers: as radix_find_less_equal on the converted name. */
  ghost predicate LessEqualAnswer(t: Tree, k: seq<byte>, exact: bool, r: Ptr)
  {
    && Greatest(t, r, UpTo(t, k))
    && (exact <==> k in Contents(t))
    && (exact ==> r in t.mem && t.mem[r].key == k)
  }

  /** radname_find_less_equal: the wire name is consumed byte by byte while the tree is walked. */
  method FindNameLessEqual(t: Tree, d: seq<byte>) returns (exact: bool, r: Ptr)
    requires Shape(t)
    ensures t.root == NULL || d == [] || (d[0] != 0 && ParseName(d, 0).None?) ==> !exact && r == NULL
    ensures d != [] && d[0] == 0 ==> LessEqualAnswer(t, D2R([]), exact, r)
    ensures d != [] && d[0] != 0 && ParseName(d, 0).Some? ==> LessEqualAnswer(t, D2R(ParseName(d, 0).value), exact, r)
  {
    if t.root == NULL {
      EmptyTree(t);
      return false, NULL;
    }
    if d == [] { return false, NULL; }
    OwnKey(t, t.root);
    if d[0] == 0 {
      forall x | x in Contents(t) && LexLeq(x, []) ensures x == [] { }
      return t.mem[t.root].elem.Some?, if t.mem[t.root].elem.Some? then t.root else NULL;
    }
    var ok, labstart := LabelStack(d);
    if !ok { return false, NULL; }
    ghost var name := ParseName(d, 0).value;
    ghost var k := D2R(name);
    var n := t.root;
    var lab: nat, lpos: nat := |labstart| - 1, 0;
    ghost var pos := 0;
    while true
      invariant n in t.mem && 0 <= pos <= |k| && t.mem[n].key == k[..pos] && CursorAt(name, lab, lpos, pos)
      decreases |k| - pos
    {
      assert NodeOk(t, n);
      var ended, byt;
      ended, byt, lab, lpos := NextByte(d, labstart, lab, lpos, name, pos);
      if ended {
        assert t.mem[n].key == k;
        OwnKey(t, n);
        if t.mem[n].elem.Some? { return true, n; }
        r := Prev(t, n);
        assert UpTo(t, k) == Before(t, k);
        return false, r;
      }
      var i := byt - t.mem[n].offset;
      if i < 0 || i >= |t.mem[n].sels| || t.mem[n].sels[i].node == NULL {
        r := LeaveAtNode(t, n, byt, k);
        return false, r;
      }
      pos := pos + 1;
      var decided;
      decided, r, lab, lpos := MatchEdge(t, d, labstart, n, i, lab, lpos, name, k, pos);
      if decided { return false, r; }
      pos := pos + |t.mem[n].sels[i].str|;
      EdgeOrder(t, n, i, k);
      n := t.mem[n].sels[i].node;
    }
  }

  /** The inner loop: match the additional string of an edge, or decide the search inside it. */
  method MatchEdge(t: Tree, d: seq<byte>, labstart: seq<nat>, n: Ptr, i: nat, lab0: nat, lpos0: nat,
                   ghost name: Name, ghost k: seq<byte>, ghost pos: nat)
    returns (decided: bool, r: Ptr, lab: nat, lpos: nat)
    requires Shape(t) && n in t.mem && i < |t.mem[n].sels| && t.mem[n].sels[i].node != NULL
    requires Stacked(d, labstart, name) && k == D2R(name)
    requires t.mem[n].key < k && pos == |t.mem[n].key| + 1 && k[pos - 1] == t.mem[n].offset + i
    requires CursorAt(name, lab0, lpos0, pos)
    ensures decided ==> Greatest(t, r, UpTo(t, k)) && k !in Contents(t)
    ensures !decided ==> var str := t.mem[n].sels[i].str; str <= k[pos..] && CursorAt(name, lab, lpos, pos + |str|)
  {
    var str, c := t.mem[n].sels[i].str, t.mem[n].sels[i].node;
    EdgeOrder(t, n, i, k);
    lab, lpos := lab0, lpos0;
    ghost var rest := k[pos..];
    var j := 0;
    while j < |str|
      invariant 0 <= j <= |str| && j <= |rest| && rest[..j] == str[..j]
      invariant CursorAt(name, lab, lpos, pos + j)
    {
      var ended, b;
      ended, b, lab, lpos := NextByte(d, labstart, lab, lpos, name, pos + j);
      if ended || b < str[j] {
        assert LexAt(rest, str, j);
        LexAsymmetric(rest, str);
        LeavesInEdge(t, n, i, k);
        r := Prev(t, c);
        decided := true;
        return;
      } else if b > str[j] {
        assert LexAt(str, rest, j);
        LexAsymmetric(str, rest);
        LeavesInEdge(t, n, i, k);
        r := LastOrPrev(t, c);
        decided := true;
        return;
      }
      j := j + 1;
    }
    decided, r := false, NULL;
  }

  // -------------------------------------------------------------------- whole-name conversion

  lemma {:induction false} KeySnoc(n: Name, l: Label)
    ensures D2R(n + [l]) == (if n == [] then [] else D2R(n) + [0]) + LabelD2R(l)
  {
    var a := n + [l];
    if n == [] {
      assert a[1..] == [] && a[0] == l;
    } else {
      KeySnoc(n[1..], l);
      assert a[1..] == n[1..] + [l] && a[0] == n[0];
      assert D2R(a) == LabelD2R(n[0]) + ([0] + D2R(a[1..]));
      if |n| == 1 {
        assert D2R(n) == LabelD2R(n[0]) + Tail([]) && D2R(a[1..]) == LabelD2R(l);
        Regroup(LabelD2R(n[0]), [], [0], LabelD2R(l));
      } else {
        assert D2R(n) == LabelD2R(n[0]) + ([0] + D2R(n[1..]));
        Regroup(LabelD2R(n[0]), [0] + D2R(n[1..]), [0], LabelD2R(l));
        assert [0] + D2R(a[1..]) == ([0] + D2R(n[1..])) + ([0] + LabelD2R(l));
      }
    }
  }

  lemma Regroup(a: seq<byte>, b: seq<byte>, c: seq<byte>, d: seq<byte>)
    ensures a + (b + (c + d)) == ((a + b) + c) + d
  {
  }

  /** radname_d2r: the empty key for the root and on a format error. */
  method NameToKey(d: seq<byte>) returns (k: seq<byte>)
    requires d != []
    ensures k == if |d| > 1 && ParseName(d, 0).Some? then D2R(ParseName(d, 0).value) else []
  {
    if |d| == 1 { return []; }
    var ok, labstart := LabelStack(d);
    if !ok { return []; }
    ghost var name := ParseName(d, 0).value;
    var lab := |labstart| - 1;
    assert StackedAt(d, labstart, name, lab);
    KeySnoc([], name[0]);
    assert name[..1] == [] + [name[0]];
    k := LabelD2R(d[labstart[lab] + 1..labstart[lab] + 1 + d[labstart[lab]]]);
    while lab > 0
      invariant 0 <= lab < |name|
      invariant k == D2R(name[..|name| - lab])
    {
      k := k + [0];
      lab := lab - 1;
      assert StackedAt(d, labstart, name, lab);
      k := k + LabelD2R(d[labstart[lab] + 1..labstart[lab] + 1 + d[labstart[lab]]]);
      ghost var j := |name| - 1 - lab;
      KeySnoc(name[..j], name[j]);
      assert name[..j + 1] == name[..j] + [name[j]];
    }
    assert name[..|name|] == name;
  }

  method SkipLabel(k: seq<byte>, start: nat) returns (end: nat)
    requires start < |k|
    ensures start <= end <= |k| && (end < |k| ==> k[end] == 0)
    ensures forall i :: start <= i < end ==> k[i] != 0
  {
    end := start;
    while end < |k| && k[end] != 0
      invariant start <= end <= |k|
      invariant forall i :: start <= i < end ==> k[i] != 0
    {
      end := end + 1;
    }
  }

  /** The label-finding loop of radname_r2d. */
  method KeyToLabels(k: seq<byte>) returns (labels: Name)
    ensures labels == R2D(k)
  {
    labels := [];
    var kpos := 0;
    assert k[0..] == k && [] + R2D(k) == R2D(k);
    while kpos < |k|
      invariant 0 <= kpos <= |k|
      invariant R2D(k) == labels + R2D(k[kpos..])
    {
      ghost var rest := R2D(k[kpos..]);
      var l;
      l, kpos := TakeLabel(k, kpos);
      MoveOver(labels, l, R2D(k[kpos..]));
      labels := labels + [l];
    }
    assert k[kpos..] == [] && labels + [] == labels;
  }

  /** The next label, and where the one after it starts. */
  method TakeLabel(k: seq<byte>, start: nat) returns (l: Label, next: nat)
    requires start < |k|
    ensures start < next <= |k| && R2D(k[start..]) == [l] + R2D(k[next..])
  {
    var end := SkipLabel(k, start);
    R2DStep(k, start, end);
    l := LabelR2D(k[start..end]);
    next := if end < |k| then end + 1 else end;
  }

  lemma MoveOver(a: Name, l: Label, b: Name)
    ensures a + ([l] + b) == (a + [l]) + b
  {
  }

  lemma R2DStep(k: seq<byte>, start: nat, end: nat)
    requires start <= end <= |k| && start < |k| && (end < |k| ==> k[end] == 0)
    requires forall i :: start <= i < end ==> k[i] != 0
    ensures R2D(k[start..]) == [LabelR2D(k[start..end])] + R2D(k[if end < |k| then end + 1 else end..])
  {
    var s := k[start..];
    LabelEndIs(s, end - start);
    assert s[..end - start] == k[start..end];
    if end < |k| { assert s[end - start + 1..] == k[end + 1..]; } else { assert k[end..] == []; }
  }

  /** radname_r2d: the labels of the key, written out least significant first. */
  method KeyToName(k: seq<byte>) returns (d: seq<byte>)
    requires ValidName(R2D(k))
    ensures d == WireOf(R2D(k))
  {
    var labels := KeyToLabels(k);
    d := [0];
    var lab := 0;
    assert labels[..0] == [];
    while lab < |labels|
      invariant 0 <= lab <= |labels|
      invariant d == WireOf(labels[..lab])
    {
      assert labels[..lab + 1][..lab] == labels[..lab];
      d := [|labels[lab]|] + labels[lab] + d;
      lab := lab + 1;
    }
    assert labels[..lab] == labels;
  }
}
