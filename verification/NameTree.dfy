/** The name tree of the domain table as a radix tree: searching it for a name in wire format is the search in the
    ordered names that module DomainTable works with. */
module NameTree {
  import opened Bytes
  import opened Dname
  import opened RadShape
  import opened RadOrder
  import opened Radname
  import opened DomainTable

  ghost predicate Stored(n: Name)
  {
    IsLower(n) && ValidName(n)
  }

  /** The tree has exactly the names of the table, each with its key. */
  ghost predicate Holds(t: Tree, names: seq<Name>)
  {
    && Shape(t) && TableOk(names)
    && (forall i :: 0 <= i < |names| ==> Stored(names[i]) && D2R(names[i]) in Contents(t))
    && (forall k :: k in Contents(t) ==> exists i :: 0 <= i < |names| && D2R(names[i]) == k)
  }

  /** Place `i` has the last name that is not after `q`. */
  ghost predicate LastNotAfter(names: seq<Name>, q: Name, i: nat)
  {
    i < |names| && NameLeq(names[i], q) && forall j :: 0 <= j < |names| && NameLeq(names[j], q) ==> j <= i
  }

  lemma StoredOrder(a: Name, b: Name)
    requires Stored(a) && Stored(b)
    ensures NameLeq(a, b) <==> LexLeq(D2R(a), D2R(b))
    ensures a == b <==> D2R(a) == D2R(b)
  {
    KeyOrder(a, b);
  }

  /** No key up to that of `q` is greater than the key of the last name not after `q`. */
  lemma LastIsGreatest(t: Tree, names: seq<Name>, q: Name, i: nat, k: seq<byte>)
    requires Holds(t, names) && Stored(q) && LastNotAfter(names, q, i) && k in UpTo(t, D2R(q))
    ensures LexLeq(k, D2R(names[i]))
  {
    var j :| 0 <= j < |names| && D2R(names[j]) == k;
    StoredOrder(names[j], q);
    StoredOrder(names[j], names[i]);
    if j < i { assert NameLess(names[j], names[i]); }
  }

  /** The answer of the tree is the answer of the ordered names. */
  lemma SearchesAgree(t: Tree, names: seq<Name>, q: Name, i: nat, exact: bool, r: Ptr)
    requires Holds(t, names) && Stored(q) && LastNotAfter(names, q, i) && LessEqualAnswer(t, D2R(q), exact, r)
    ensures r != NULL && r in t.mem && t.mem[r].key == D2R(names[i])
    ensures exact <==> names[i] == q
  {
    var key := D2R(names[i]);
    StoredOrder(names[i], q);
    assert key in UpTo(t, D2R(q));
    LastIsGreatest(t, names, q, i, t.mem[r].key);
    if t.mem[r].key != key { LexAsymmetric(key, t.mem[r].key); }
    if exact {
      var j :| 0 <= j < |names| && D2R(names[j]) == D2R(q);
      StoredOrder(names[j], q);
      if j != i { assert NameLess(names[j], q); NameIrreflexive(q); }
    }
  }

  lemma {:induction false} LastUpTo(names: seq<Name>, q: Name, n: nat) returns (i: nat)
    requires 0 < n <= |names| && NameLeq(names[0], q)
    ensures i < n && NameLeq(names[i], q) && forall j :: 0 <= j < n && NameLeq(names[j], q) ==> j <= i
  {
    if NameLeq(names[n - 1], q) {
      i := n - 1;
    } else {
      assert n > 1;
      i := LastUpTo(names, q, n - 1);
    }
  }

  /** The first step of domain_table_search on the radix tree: the node found is the one of the closest match. */
  method FindMatch(t: Tree, q: Name, ghost names: seq<Name>) returns (exact: bool, r: Ptr, ghost i: nat)
    requires Holds(t, names) && Stored(q)
    ensures LastNotAfter(names, q, i) && r in t.mem && t.mem[r].key == D2R(names[i])
    ensures exact <==> q in names
  {
    exact, r := FindNameLessEqual(t, WireOf(q));
    RootFirst(names);
    if q != [] { AncestorLess([], q); }
    i := LastUpTo(names, q, |names|);
    assert D2R(names[0]) in Contents(t);
    assert t.root != NULL by {
      if t.root == NULL { EmptyTree(t); }
    }
    if q == [] {
      assert WireOf(q) == [0];
    } else {
      ParseWire(q, [], WireOf(q));
      assert WireOf(q)[0] == |q[|q| - 1]|;
    }
    SearchesAgree(t, names, q, i, exact, r);
    if q in names {
      var j :| 0 <= j < |names| && names[j] == q;
      if j != i { assert NameLess(q, names[i]); NameAsymmetric(q, names[i]); }
    }
  }
}
