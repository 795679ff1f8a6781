/** The list that numbers the domains of the table 1, 2, 3, ..., after allocate_domain_info, numlist_make_last
    and numlist_pop_last in namedb.c. */
module NumList {
  import opened Bytes
  import opened Dname

  /** Links and numbers of the domains; the list itself is for the specification. */
  datatype Links = Links(prev: map<Name, Option<Name>>, next: map<Name, Option<Name>>, number: map<Name, nat>,
                         list: seq<Name>)

  /** Place `i` of the list: both links and the number. */
  ghost predicate PlaceOk(l: Links, i: int)
    requires 0 <= i < |l.list|
  {
    var d := l.list[i];
    && d in l.prev && d in l.next && d in l.number && l.number[d] == i + 1
    && l.prev[d] == (if i == 0 then None else Some(l.list[i - 1]))
    && l.next[d] == (if i == |l.list| - 1 then None else Some(l.list[i + 1]))
  }

  ghost predicate LinksOk(l: Links)
  {
    forall i {:trigger PlaceOk(l, i)} :: 0 <= i < |l.list| ==> PlaceOk(l, i)
  }

  /** No domain is in the list twice: it would have two numbers. */
  lemma NotTwice(l: Links, i: nat, j: nat)
    requires LinksOk(l) && i < j < |l.list|
    ensures l.list[i] != l.list[j]
  {
    assert PlaceOk(l, i) && PlaceOk(l, j);
  }

  lemma AllDifferent(l: Links)
    requires LinksOk(l)
    ensures forall i, j :: 0 <= i < j < |l.list| ==> l.list[i] != l.list[j]
  {
    forall i, j | 0 <= i < j < |l.list|
      ensures l.list[i] != l.list[j]
    {
      NotTwice(l, i, j);
    }
  }

  /** The list with the elements at two places exchanged. */
  ghost function Exchanged(s: seq<Name>, i: nat, j: nat): seq<Name>
    requires i < |s| && j < |s|
  {
    s[i := s[j]][j := s[i]]
  }

  /** The fields after the domain at place `at` and the last one have been exchanged, as numlist_make_last computes
      them. */
  ghost predicate Swapped(l: Links, l': Links, at: nat)
    requires at < |l.list| - 1 && LinksOk(l)
  {
    assert PlaceOk(l, at) && PlaceOk(l, |l.list| - 1);
    var n := |l.list| - 1;
    var d, e, before := l.list[at], l.list[n], l.prev[l.list[at]];
    var next1 := if before.Some? then l.next[before.value := Some(e)] else l.next;
    && l'.list == Exchanged(l.list, at, n)
    && l'.number == l.number[d := n + 1][e := at + 1]
    && if at + 1 == n then l'.prev == l.prev[e := before][d := Some(e)] && l'.next == next1[e := Some(d)][d := None]
       else
         && l'.prev == l.prev[e := before][l.list[at + 1] := Some(e)][d := Some(l.list[n - 1])]
         && l'.next == next1[e := Some(l.list[at + 1])][l.list[n - 1] := Some(d)][d := None]
  }

  lemma SwappedOk(l: Links, l': Links, at: nat)
    requires at < |l.list| - 1 && LinksOk(l) && Swapped(l, l', at)
    ensures LinksOk(l')
  {
    forall i | 0 <= i < |l'.list| ensures PlaceOk(l', i) {
      SwappedNext(l, l', at, i);
      SwappedPrev(l, l', at, i);
    }
  }

  lemma SwappedNext(l: Links, l': Links, at: nat, i: nat)
    requires at < |l.list| - 1 && LinksOk(l) && Swapped(l, l', at) && i < |l.list|
    ensures l'.list[i] in l'.next && l'.list[i] in l'.number && l'.number[l'.list[i]] == i + 1
    ensures l'.next[l'.list[i]] == (if i == |l.list| - 1 then None else Some(l'.list[i + 1]))
  {
    assert PlaceOk(l, at) && PlaceOk(l, |l.list| - 1) && PlaceOk(l, i);
    AllDifferent(l);
  }

  lemma SwappedPrev(l: Links, l': Links, at: nat, i: nat)
    requires at < |l.list| - 1 && LinksOk(l) && Swapped(l, l', at) && i < |l.list|
    ensures l'.list[i] in l'.prev && l'.prev[l'.list[i]] == (if i == 0 then None else Some(l'.list[i - 1]))
  {
    assert PlaceOk(l, at) && PlaceOk(l, |l.list| - 1) && PlaceOk(l, i);
    AllDifferent(l);
  }

  class NumList {
    var prev: map<Name, Option<Name>>
    var next: map<Name, Option<Name>>
    var number: map<Name, nat>
    var last: Name
    ghost var list: seq<Name>

    ghost function View(): Links
      reads this
    {
      Links(prev, next, number, list)
    }

    ghost predicate Valid()
      reads this
    {
      LinksOk(View()) && |list| > 0 && last == list[|list| - 1]
    }

    constructor (root: Name)
      ensures Valid() && list == [root]
    {
      prev, next, number, last, list := map[root := None], map[root := None], map[root := 1], root, [root];
    }

    /** The end of allocate_domain_info: the new domain gets the next number. */
    method Push(d: Name)
      requires Valid() && d !in list
      modifies this
      ensures Valid() && list == old(list) + [d]
    {
      ghost var l := View();
      assert PlaceOk(l, |list| - 1);
      number := number[d := number[last] + 1];
      next := next[d := None];
      prev := prev[d := Some(last)];
      next := next[last := Some(d)];
      last := d;
      list := list + [d];
      forall i | 0 <= i < |list| ensures PlaceOk(View(), i) {
        if i < |l.list| { assert PlaceOk(l, i); }
      }
    }

    /** The links when there are domains between the two. */
    method SwapApart(d: Name, e: Name, before: Option<Name>, spanStart: Name, spanEnd: Name)
      modifies this`prev, this`next
      ensures prev == old(prev)[e := before][spanStart := Some(e)][d := Some(spanEnd)]
      ensures next == (if before.Some? then old(next)[before.value := Some(e)]
                       else old(next))[e := Some(spanStart)][spanEnd := Some(d)][d := None]
    {
      if before.Some? { next := next[before.value := Some(e)]; }
      prev := prev[e := before];
      next := next[e := Some(spanStart)];
      prev := prev[spanStart := Some(e)];
      next := next[spanEnd := Some(d)];
      prev := prev[d := Some(spanEnd)];
      next := next[d := None];
    }

    /** The links when the two are neighbours. */
    method SwapNeighbours(d: Name, e: Name, before: Option<Name>)
      modifies this`prev, this`next
      ensures prev == old(prev)[e := before][d := Some(e)]
      ensures next == (if before.Some? then old(next)[before.value := Some(e)] else old(next))[e := Some(d)][d := None]
    {
      if before.Some? { next := next[before.value := Some(e)]; }
      prev := prev[e := before];
      next := next[e := Some(d)];
      prev := prev[d := Some(e)];
      next := next[d := None];
    }

    /** numlist_make_last: the domain and the last one exchange places and numbers. */
    method MakeLast(d: Name, ghost at: nat)
      requires Valid() && at < |list| && list[at] == d
      modifies this
      ensures Valid() && list == Exchanged(old(list), at, |old(list)| - 1)
    {
      if d == last { return; }
      ghost var l := View();
      ghost var n := |list| - 1;
      assert PlaceOk(l, at) && PlaceOk(l, n);
      AllDifferent(l);
      var e := last;
      number := number[d := number[e]][e := number[d]];
      if next[d].value != e {
        SwapApart(d, e, prev[d], next[d].value, prev[e].value);
      } else {
        SwapNeighbours(d, e, prev[d]);
      }
      last := d;
      list := Exchanged(list, at, n);
      SwappedOk(l, View(), at);
    }

    /** numlist_pop_last */
    method PopLast() returns (d: Name)
      requires Valid() && |list| > 1
      modifies this
      ensures Valid() && d == old(last) && list == old(list)[..|old(list)| - 1]
    {
      ghost var l := View();
      assert PlaceOk(l, |list| - 1) && PlaceOk(l, |list| - 2);
      d := last;
      last := prev[last].value;
      next := next[last := None];
      list := list[..|list| - 1];
      forall i | 0 <= i < |list| ensures PlaceOk(View(), i) {
        assert PlaceOk(l, i);
      }
    }
  }
}
