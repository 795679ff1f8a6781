/** The table of domains: search, insertion, reference counts, existence and removal, after namedb.c and the
    parts of add_RR and delete_RR in difffile.c that concern it.

    A domain is identified by its name; the names are kept in canonical order, as the name tree does. */
module DomainTable {
  import opened Dname
  import opened NumList
  import ZoneData

  // -------------------------------------------------------------------- the names

  ghost predicate Sorted(names: seq<Name>)
  {
    forall i, j {:trigger NameLess(names[i], names[j])} :: 0 <= i < j < |names| ==> NameLess(names[i], names[j])
  }

  function Parent(n: Name): Name
    requires n != []
  {
    n[..|n| - 1]
  }

  /** The root is there, and with a name its parent. */
  ghost predicate Closed(names: seq<Name>)
  {
    [] in names && forall n {:trigger Parent(n)} :: n in names && n != [] ==> Parent(n) in names
  }

  ghost predicate TableOk(names: seq<Name>)
  {
    Sorted(names) && Closed(names)
  }

  /** With a name all its ancestors are there. */
  lemma {:induction false} AncestorsThere(names: seq<Name>, n: Name, k: nat)
    requires Closed(names) && n in names && k <= |n|
    ensures n[..k] in names
    decreases |n|
  {
    if k == |n| {
      assert n[..k] == n;
    } else {
      AncestorsThere(names, Parent(n), k);
      assert Parent(n)[..k] == n[..k];
    }
  }

  /** The last name that is not after `q`. */
  method FindLessEqual(names: seq<Name>, q: Name) returns (i: nat)
    requires TableOk(names)
    ensures i < |names| && NameLeq(names[i], q)
    ensures forall j :: 0 <= j < |names| && NameLeq(names[j], q) ==> j <= i
  {
    RootFirst(names);
    if q != [] { AncestorLess([], q); }
    i := 0;
    while i + 1 < |names|
      invariant 0 <= i < |names| && NameLeq(names[i], q)
    {
      var r := CompareNames(names[i + 1], q);
      if r > 0 {
        forall j | i < j < |names| ensures !NameLeq(names[j], q) {
          Beyond(names[i + 1], names[j], q);
        }
        return;
      }
      i := i + 1;
    }
  }

  lemma Beyond(a: Name, b: Name, q: Name)
    requires NameLess(q, a) && NameLeq(a, b)
    ensures !NameLeq(b, q)
  {
    if a != b { NameTransitive(q, a, b); }
    NameAsymmetric(q, b);
    NameIrreflexive(q);
  }

  lemma RootFirst(names: seq<Name>)
    requires TableOk(names)
    ensures |names| > 0 && names[0] == []
  {
    var i :| 0 <= i < |names| && names[i] == [];
    assert !NameLess(names[0], []);
  }

  /** An ancestor of `q` that is in the table is an ancestor of the last name not after `q`. */
  lemma AncestorOfMatch(names: seq<Name>, q: Name, i: nat, p: Name)
    requires TableOk(names) && i < |names| && NameLeq(names[i], q) && p <= q && p in names
    requires forall j :: 0 <= j < |names| && NameLeq(names[j], q) ==> j <= i
    ensures p <= names[i]
  {
    var k :| 0 <= k < |names| && names[k] == p;
    if p != q { AncestorLess(p, q); }
    assert k <= i;
    SubtreeContiguous(p, p, names[i], q);
  }

  /** domain_table_search: the closest match, and the longest ancestor of the name, or the name itself, that is in the
      table. */
  method Search(names: seq<Name>, q: Name) returns (exact: bool, match': nat, encloser: Name)
    requires TableOk(names)
    ensures match' < |names| && NameLeq(names[match'], q) && exact == (names[match'] == q)
    ensures exact <==> q in names
    ensures encloser in names && encloser <= q && forall p :: p in names && p <= q ==> |p| <= |encloser|
  {
    match' := FindLessEqual(names, q);
    exact := names[match'] == q;
    encloser := names[match'];
    if !exact {
      var count := LabelMatchCount(encloser, q);
      while count < |encloser|
        invariant count <= |encloser| && encloser in names && encloser == names[match'][..|encloser|]
                  && |encloser| <= |names[match']|
      {
        AncestorsThere(names, encloser, |encloser| - 1);
        encloser := Parent(encloser);
      }
      assert encloser == q[..count];
    }
    forall p | p in names && p <= q ensures |p| <= |encloser| {
      AncestorOfMatch(names, q, match', p);
    }
    if q in names { AncestorOfMatch(names, q, match', q); NotBoth(names[match'], q); }
  }

  lemma NotBoth(a: Name, q: Name)
    requires q <= a && NameLeq(a, q)
    ensures a == q
  {
    if a != q {
      AncestorLess(q, a);
      NameAsymmetric(q, a);
    }
  }

  // -------------------------------------------------------------------- one name more, one name less

  /** `s` is `names` with `n` after place `i`. */
  ghost predicate Spliced(s: seq<Name>, names: seq<Name>, i: nat, n: Name)
  {
    && |s| == |names| + 1 && i < |names| && s[i + 1] == n
    && (forall j {:trigger s[j]} :: 0 <= j <= i ==> s[j] == names[j])
    && (forall j {:trigger s[j]} :: i + 1 < j < |s| ==> s[j] == names[j - 1])
  }

  lemma SplicedMember(s: seq<Name>, names: seq<Name>, i: nat, n: Name, x: Name)
    requires Spliced(s, names, i, n)
    ensures x in s <==> x in names || x == n
  {
    if x in names {
      var j :| 0 <= j < |names| && names[j] == x;
      if j <= i { assert s[j] == x; } else { assert s[j + 1] == x; }
    }
  }

  lemma SplicedSorted(s: seq<Name>, names: seq<Name>, i: nat, n: Name)
    requires Sorted(names) && Spliced(s, names, i, n) && NameLess(names[i], n)
             && (i + 1 < |names| ==> NameLess(n, names[i + 1]))
    ensures Sorted(s)
  {
    forall j, k | 0 <= j < k < |s| ensures NameLess(s[j], s[k]) {
      if k == i + 1 {
        if j < i { NameTransitive(names[j], names[i], n); }
      } else if j == i + 1 {
        if k > i + 2 { NameTransitive(n, names[i + 1], names[k - 1]); }
      } else {
        var j', k' := if j <= i then j else j - 1, if k <= i then k else k - 1;
        assert s[j] == names[j'] && s[k] == names[k'];
      }
    }
  }

  lemma InsertSorted(s: seq<Name>, names: seq<Name>, i: nat, n: Name)
    requires TableOk(names) && Spliced(s, names, i, n) && NameLess(names[i], n)
             && (i + 1 < |names| ==> NameLess(n, names[i + 1])) && n != [] && Parent(n) in names
    ensures TableOk(s) && forall x :: x in s <==> x in names || x == n
  {
    SplicedSorted(s, names, i, n);
    forall x ensures x in s <==> x in names || x == n { SplicedMember(s, names, i, n, x); }
    assert [] in s;
    forall x | x in s && x != [] ensures Parent(x) in s {
      assert x in names || x == n;
    }
  }

  /** `s` is `names` without place `i`. */
  ghost predicate Cut(s: seq<Name>, names: seq<Name>, i: nat)
  {
    && i < |names| && |s| == |names| - 1
    && (forall j {:trigger s[j]} :: 0 <= j < i ==> s[j] == names[j])
    && (forall j {:trigger s[j]} :: i <= j < |s| ==> s[j] == names[j + 1])
  }

  lemma CutMember(s: seq<Name>, names: seq<Name>, i: nat, x: Name)
    requires Sorted(names) && Cut(s, names, i)
    ensures x in s <==> x in names && x != names[i]
  {
    if x in names && x != names[i] {
      var j :| 0 <= j < |names| && names[j] == x;
      if j < i { assert s[j] == x; } else { assert s[j - 1] == x; }
    }
    if x in s && x == names[i] {
      var j :| 0 <= j < |s| && s[j] == x;
      NameIrreflexive(x);
    }
  }

  lemma RemoveSorted(s: seq<Name>, names: seq<Name>, i: nat)
    requires TableOk(names) && Cut(s, names, i) && names[i] != []
             && forall n {:trigger Parent(n)} :: n in names && n != [] ==> Parent(n) != names[i]
    ensures TableOk(s) && forall x :: x in s <==> x in names && x != names[i]
  {
    forall x ensures x in s <==> x in names && x != names[i] { CutMember(s, names, i, x); }
    assert [] in s;
    forall x | x in s && x != [] ensures Parent(x) in s {
      assert x in names;
    }
    forall j, k | 0 <= j < k < |s| ensures NameLess(s[j], s[k]) {
      var j', k' := if j < i then j else j + 1, if k < i then k else k + 1;
      assert s[j] == names[j'] && s[k] == names[k'];
    }
  }

  lemma NotParent(names: seq<Name>, d: Name)
    requires forall n :: n in names ==> !(d < n)
    ensures forall n {:trigger Parent(n)} :: n in names && n != [] ==> Parent(n) != d
  {
    forall n | n in names && n != [] ensures Parent(n) != d { assert Parent(n) < n; }
  }

  /** Removal from the name tree. */
  method CutName(names: seq<Name>, i: nat) returns (s: seq<Name>)
    requires TableOk(names) && i < |names| && names[i] != []
             && forall n {:trigger Parent(n)} :: n in names && n != [] ==> Parent(n) != names[i]
    ensures TableOk(s) && forall x :: x in s <==> x in names && x != names[i]
  {
    s := names[..i] + names[i + 1..];
    RemoveSorted(s, names, i);
  }

  /** Insertion into the name tree. */
  method InsertName(names: seq<Name>, n: Name) returns (s: seq<Name>)
    requires TableOk(names) && n !in names && n != [] && Parent(n) in names
    ensures TableOk(s) && forall x :: x in s <==> x in names || x == n
  {
    var i := FindLessEqual(names, n);
    assert names[i] != n;
    if i + 1 < |names| {
      assert !NameLeq(names[i + 1], n);
      NameTotal(n, names[i + 1]);
    }
    s := names[..i + 1] + [n] + names[i + 1..];
    InsertSorted(s, names, i, n);
  }

  // -------------------------------------------------------------------- the contents

  /** A record: its owner, the RRset it belongs to, what find_rr_num compares (of a SOA only the serial), and
      the domains its rdata refers to. */
  datatype Rec = Rec(owner: Name, rrset: nat, ident: nat, refs: seq<Name>)

  /** The table with its reference counts and existence flags, the records at its domains, and the references
      that the counts have to cover. */
  datatype Db = Db(names: seq<Name>, usage: map<Name, nat>, existing: map<Name, bool>, records: seq<Rec>,
                   counted: multiset<Name>)

  ghost predicate Core(db: Db)
  {
    && TableOk(db.names) && db.usage.Keys == db.existing.Keys
    && (forall n :: n in db.names <==> n in db.usage)
    && (forall n :: n in db.counted ==> n in db.usage && db.usage[n] >= db.counted[n])
    && [] in db.counted
    && (forall i :: 0 <= i < |db.records| ==> db.records[i].owner in db.usage)
  }

  /** The domain holds an RRset. */
  predicate HasData(records: seq<Rec>, n: Name)
  {
    exists i :: 0 <= i < |records| && records[i].owner == n
  }

  /** It or a domain below it does. */
  ghost predicate DataWithin(records: seq<Rec>, n: Name)
  {
    exists i :: 0 <= i < |records| && n <= records[i].owner
  }

  /** The existence flags are right, except that the ancestors of `d` with fewer than `k` labels may have to be
      cleared. */
  ghost predicate Clearing(db: Db, d: Name, k: nat)
    requires Core(db)
  {
    && (forall n {:trigger db.existing[n]} :: n in db.usage && !(n <= d && |n| < k) ==>
          (db.existing[n] <==> DataWithin(db.records, n)))
    && (forall n {:trigger db.existing[n]} :: n in db.usage && n <= d && |n| < k ==> db.existing[n])
    && (forall n {:trigger db.existing[n]} :: n in db.usage && n <= d && |n| >= k ==> !db.existing[n])
  }

  ghost predicate ExistOk(db: Db)
    requires Core(db)
  {
    forall n {:trigger db.existing[n]} :: n in db.usage ==> (db.existing[n] <==> DataWithin(db.records, n))
  }

  /** The references held by the records. */
  ghost function Refs(records: seq<Rec>): multiset<Name>
  {
    if records == [] then multiset{} else Refs(records[..|records| - 1]) + multiset(records[|records| - 1].refs)
  }

  /** Exactly the references of the records, the apexes and one for the root are counted. */
  ghost predicate Complete(counted: multiset<Name>, records: seq<Rec>, apexes: seq<Name>)
  {
    counted == Refs(records) + multiset(apexes) + multiset{[]}
  }

  ghost predicate DbOk(db: Db, apexes: seq<Name>)
  {
    Core(db) && ExistOk(db) && Complete(db.counted, db.records, apexes)
  }

  /** A new domain with no data, no references, not existing. */
  ghost predicate Added(db: Db, db': Db, n: Name)
  {
    && n !in db.usage && n != [] && Parent(n) in db.usage
    && TableOk(db'.names) && (forall x :: x in db'.names <==> x in db.names || x == n)
    && db' == db.(names := db'.names, usage := db.usage[n := 0], existing := db.existing[n := false])
  }

  lemma AddedOk(db: Db, db': Db, n: Name)
    requires Core(db) && Added(db, db', n)
    ensures Core(db') && (ExistOk(db) ==> ExistOk(db'))
  {
    assert Core(db');
    if ExistOk(db) {
      NoDataAtNew(db, n);
      forall x | x in db'.usage ensures db'.existing[x] <==> DataWithin(db'.records, x) {
        if x != n { assert db.existing[x] == db'.existing[x]; }
      }
    }
  }

  /** Where there is data, all domains above are in the table. */
  lemma NoDataAtNew(db: Db, n: Name)
    requires Core(db) && n !in db.usage
    ensures !DataWithin(db.records, n)
  {
    if DataWithin(db.records, n) {
      var i :| 0 <= i < |db.records| && n <= db.records[i].owner;
      var o := db.records[i].owner;
      assert o[..|n|] == n;
      AncestorsThere(db.names, o, |n|);
    }
  }

  /** A domain without data, usage and children goes. */
  ghost predicate Dropped(db: Db, db': Db, n: Name)
  {
    && n in db.usage && n != [] && db.usage[n] == 0 && !HasData(db.records, n)
    && TableOk(db'.names) && (forall x :: x in db'.names <==> x in db.names && x != n)
    && db' == db.(names := db'.names, usage := db.usage - {n}, existing := db.existing - {n})
  }

  lemma DroppedOk(db: Db, db': Db, n: Name)
    requires Core(db) && Dropped(db, db', n)
    ensures Core(db') && (ExistOk(db) ==> ExistOk(db'))
  {
  }

  /** The table got the missing ancestors of `q` and `q` itself, nothing else changed. */
  ghost predicate Grew(db: Db, db': Db, q: Name)
  {
    && db'.records == db.records && db'.counted == db.counted
    && (forall n :: n in db'.usage <==> n in db.usage || n <= q)
    && (forall n :: n in db.usage && n in db.existing && n in db'.usage && n in db'.existing ==>
          db'.usage[n] == db.usage[n] && db'.existing[n] == db.existing[n])
    && (forall n :: n !in db.usage && n in db'.existing ==> !db'.existing[n])
  }

  /** The existence flags are right for the records together with one more at `owner`. */
  ghost predicate ExistWith(db: Db, owner: Name)
    requires Core(db)
  {
    forall n {:trigger db.existing[n]} :: n in db.usage ==>
      (db.existing[n] <==> DataWithin(db.records, n) || n <= owner)
  }

  lemma GrewExist(db: Db, db': Db, q: Name, owner: Name)
    requires Core(db) && Core(db') && Grew(db, db', q) && ExistWith(db, owner) && owner in db.usage
    ensures ExistWith(db', owner)
  {
    forall n | n in db'.usage ensures db'.existing[n] <==> DataWithin(db'.records, n) || n <= owner {
      if n in db.usage {
        assert db.existing[n] == db'.existing[n];
      } else {
        NoDataAtNew(db, n);
        if n <= owner { assert owner[..|n|] == n; AncestorsThere(db.names, owner, |n|); }
      }
    }
  }

  /** The flags of `d` and of its ancestors with at least `from` labels are set. */
  ghost predicate Marked(db: Db, db': Db, d: Name, from: nat)
    requires Core(db)
  {
    && db' == db.(existing := db'.existing) && db'.existing.Keys == db.existing.Keys
    && forall n {:trigger db'.existing[n]} :: n in db.usage ==>
         db'.existing[n] == (db.existing[n] || (n <= d && |n| >= from))
  }

  lemma PrefixesThere(db: Db, d: Name)
    requires Core(db) && d in db.usage
    ensures forall k :: 0 <= k <= |d| ==> d[..k] in db.usage
  {
    forall k | 0 <= k <= |d| ensures d[..k] in db.usage { AncestorsThere(db.names, d, k); }
  }

  lemma MarkedStep(db: Db, db1: Db, db2: Db, d: Name, k: nat)
    requires Core(db) && Core(db1) && k <= |d| && d[..k] in db.usage && Marked(db, db1, d, k + 1)
             && db2 == db1.(existing := db1.existing[d[..k] := true])
    ensures Core(db2) && Marked(db, db2, d, k)
  {
    forall n | n in db.usage ensures db2.existing[n] == (db.existing[n] || (n <= d && |n| >= k)) {
      assert db1.existing[n] == (db.existing[n] || (n <= d && |n| >= k + 1));
      assert n <= d && |n| == k <==> n == d[..k];
    }
  }

  /** The loop stops at a domain that exists already, and so do those above it. */
  lemma MarkedAll(db: Db, db': Db, d: Name, k: nat)
    requires Core(db) && Core(db') && ExistOk(db) && k <= |d| + 1 && Marked(db, db', d, k) && d in db.usage
    requires k > 0 ==> d[..k - 1] in db.usage && db'.existing[d[..k - 1]]
    ensures ExistWith(db', d)
  {
    if k > 0 {
      var c := d[..k - 1];
      assert db.existing[c];
      assert DataWithin(db.records, c);
    }
    forall n | n in db'.usage ensures db'.existing[n] <==> DataWithin(db'.records, n) || n <= d {
      assert db.existing[n] <==> DataWithin(db.records, n);
      if n <= d && |n| < k { WithinUp(db.records, n, d[..k - 1]); }
    }
  }

  lemma WithinUp(records: seq<Rec>, n: Name, m: Name)
    requires n <= m && DataWithin(records, m)
    ensures DataWithin(records, n)
  {
    var i :| 0 <= i < |records| && m <= records[i].owner;
    assert n <= records[i].owner;
  }

  lemma OwnerExists(db: Db, d: Name, k: nat, i: nat)
    requires Core(db) && Clearing(db, d, k) && i < |db.records|
    ensures db.existing[db.records[i].owner]
  {
    var o := db.records[i].owner;
    assert o <= o && DataWithin(db.records, o);
  }

  /** A domain without data, and without an existing one below, has nothing below: its flag goes. */
  lemma ClearStep(db: Db, db': Db, d: Name, k: nat)
    requires Core(db) && k <= |d| && d[..k] in db.usage && Clearing(db, d, k + 1) && !HasData(db.records, d[..k])
    requires forall n :: n in db.usage && d[..k] < n ==> !db.existing[n]
    requires db' == db.(existing := db.existing[d[..k] := false])
    ensures Core(db') && Clearing(db', d, k)
  {
    var p := d[..k];
    assert !DataWithin(db.records, p) by {
      forall i | 0 <= i < |db.records| ensures !(p <= db.records[i].owner) {
        OwnerExists(db, d, k + 1, i);
      }
    }
    forall n | n in db.usage && n != p ensures db'.existing[n] == db.existing[n] { }
    assert forall n :: n <= d && |n| == k ==> n == p;
  }

  /** There is something at or below the next ancestor: all remaining flags are right. */
  lemma ClearedEnough(db: Db, d: Name, k: nat)
    requires Core(db) && 0 < k <= |d| + 1 && Clearing(db, d, k) && d[..k - 1] in db.usage
    requires HasData(db.records, d[..k - 1]) || exists n :: n in db.usage && d[..k - 1] < n && db.existing[n]
    ensures ExistOk(db)
  {
    var p := d[..k - 1];
    assert DataWithin(db.records, p) by {
      if HasData(db.records, p) {
        var i :| 0 <= i < |db.records| && db.records[i].owner == p;
        assert p <= db.records[i].owner;
      } else {
        var n :| n in db.usage && p < n && db.existing[n];
        WithinUp(db.records, p, n);
      }
    }
    forall n | n in db.usage ensures db.existing[n] <==> DataWithin(db.records, n) {
      if n <= d && |n| < k { WithinUp(db.records, n, p); }
    }
  }

  /** Names below the one at `i` lie between it and the first name that is not below it. */
  lemma BelowBehind(names: seq<Name>, i: nat, j: nat, k: nat)
    requires Sorted(names) && i < |names| && j < |names| && i < k <= |names| && names[i] < names[j]
             && (k < |names| ==> !(names[i] <= names[k]))
    ensures i < j < k
  {
    var d := names[i];
    AncestorLess(d, names[j]);
    if j < i { NameAsymmetric(d, names[j]); }
    if k < |names| && j > k { SubtreeContiguous(d, d, names[k], names[j]); }
    NameIrreflexive(d);
  }

  /** One use and one reference more. */
  lemma OneUseMore(db: Db, db': Db, n: Name, owner: Name)
    requires Core(db) && n in db.usage && ExistWith(db, owner) && owner in db.usage
    requires db' == db.(usage := db.usage[n := db.usage[n] + 1], counted := db.counted + multiset{n})
    ensures Core(db') && ExistWith(db', owner) && owner in db'.usage && db'.usage.Keys == db.usage.Keys
  {
    assert db'.usage.Keys == db.usage.Keys;
    forall x | x in db'.counted ensures x in db'.usage && db'.usage[x] >= db'.counted[x] {
      if x != n { assert x in db.counted; }
    }
  }

  lemma OneApexMore(db: Db, db': Db, n: Name)
    requires Core(db) && n in db.usage && ExistOk(db)
    requires db' == db.(usage := db.usage[n := db.usage[n] + 1], counted := db.counted + multiset{n})
    ensures Core(db') && ExistOk(db') && db'.usage.Keys == db.usage.Keys
  {
    assert db'.usage.Keys == db.usage.Keys;
    forall x | x in db'.counted ensures x in db'.usage && db'.usage[x] >= db'.counted[x] {
      if x != n { assert x in db.counted; }
    }
  }

  lemma CompleteApex(counted: multiset<Name>, counted': multiset<Name>, records: seq<Rec>, apexes: seq<Name>, n: Name)
    requires Complete(counted, records, apexes) && counted' == counted + multiset{n}
    ensures Complete(counted', records, apexes + [n])
  {
  }

  lemma RefsSnoc(refs: seq<Name>, k: nat)
    requires k < |refs|
    ensures multiset(refs[..k + 1]) == multiset(refs[..k]) + multiset{refs[k]}
  {
    assert refs[..k + 1] == refs[..k] + [refs[k]];
  }

  lemma RefsFirst(refs: seq<Name>, k: nat)
    requires k < |refs|
    ensures multiset(refs[k..]) == multiset{refs[k]} + multiset(refs[k + 1..])
    ensures refs[..k + 1] == refs[..k] + [refs[k]]
  {
    assert refs[k..] == [refs[k]] + refs[k + 1..];
  }

  /** Nothing needs domain `n` once `d` goes: no data, no use, and only domains on the way to `d` below it. */
  ghost predicate Free(db: Db, n: Name, d: Name)
    requires n in db.usage
  {
    !HasData(db.records, n) && db.usage[n] == 0 && forall x :: x in db.usage && n < x ==> x <= d
  }

  /** The domains from `d` up to below `stop` are gone, all of them free; nothing else changed. */
  ghost predicate Pruned(db: Db, db': Db, d: Name, stop: Name)
  {
    && db'.records == db.records && db'.counted == db.counted && stop <= d
    && (forall n :: n in db'.usage <==> n in db.usage && !(stop < n && n <= d))
    && (forall n :: n in db'.usage && n in db.usage ==> db'.usage[n] == db.usage[n])
    && (forall n :: n in db'.existing ==> n in db.existing && db'.existing[n] == db.existing[n])
    && (forall n {:trigger Free(db, n, d)} :: n in db.usage && stop < n && n <= d ==> Free(db, n, d))
  }

  /** The domain has no data, and all of its references are among `refs`, where it or a domain below it is. */
  ghost predicate OnlyFor(db: Db, refs: seq<Name>, n: Name)
    requires n in db.usage
  {
    !HasData(db.records, n) && db.usage[n] == multiset(refs)[n] && exists r :: r in refs && n <= r
  }

  /** Only the references `refs` need the domain: that is so for all domains at or below it. */
  ghost predicate Gone(db: Db, refs: seq<Name>, m: Name)
  {
    forall n {:trigger OnlyFor(db, refs, n)} :: n in db.usage && m <= n ==> OnlyFor(db, refs, n)
  }

  /** The usage when the references `refs` have been given up: exactly the domains that only they needed are gone. */
  ghost predicate GivenUp(db: Db, refs: seq<Name>, usage: map<Name, nat>)
  {
    forall n {:trigger GivenUpAt(db, refs, usage, n)} :: GivenUpAt(db, refs, usage, n)
  }

  ghost predicate GivenUpAt(db: Db, refs: seq<Name>, usage: map<Name, nat>, n: Name)
  {
    && (n in usage <==> n in db.usage && !Gone(db, refs, n))
    && (n in usage ==> usage[n] + multiset(refs)[n] == db.usage[n])
  }

  /** The table with one reference less. */
  ghost function Lowered(db: Db, r: Name): Db
    requires r in db.usage && db.usage[r] > 0
  {
    db.(usage := db.usage[r := db.usage[r] - 1], counted := db.counted - multiset{r})
  }

  lemma GivenUpStep(db: Db, db1: Db, db2: Db, refs: seq<Name>, r: Name, stop: Name)
    requires GivenUp(db, refs, db1.usage) && db1.records == db.records && r in db1.usage && db1.usage[r] > 0
    requires Pruned(Lowered(db1, r), db2, r, stop) && stop in db1.usage && !Free(Lowered(db1, r), stop, r)
    ensures GivenUp(db, refs + [r], db2.usage)
  {
    assert GivenUpAt(db, refs, db1.usage, r);
    forall m
      ensures GivenUpAt(db, refs + [r], db2.usage, m)
    {
      assert GivenUpAt(db, refs, db1.usage, m);
      if m in db.usage {
        OneMoreRef(db, refs, r, m);
        if m !in db1.usage {
          StaysGone(db, refs, r, m);
        } else if m <= r {
          OnWayGone(db, db1, db2, refs, r, stop, m);
        } else {
          OffWayStays(db, refs, r, m);
        }
      }
    }
  }

  lemma NothingGivenUp(db: Db)
    ensures GivenUp(db, [], db.usage)
  {
    forall n
      ensures GivenUpAt(db, [], db.usage, n)
    {
      if n in db.usage { assert !OnlyFor(db, [], n); }
    }
  }

  lemma StaysGone(db: Db, refs: seq<Name>, r: Name, m: Name)
    requires m in db.usage && Gone(db, refs, m) && r in db.usage && !Gone(db, refs, r)
    ensures Gone(db, refs + [r], m)
  {
    forall n | n in db.usage && m <= n
      ensures OnlyFor(db, refs + [r], n)
    {
      assert OnlyFor(db, refs, n);
      assert n != r by { BelowGone(db, refs, m, n); }
      OneMoreRef(db, refs, r, n);
    }
  }

  lemma BelowGone(db: Db, refs: seq<Name>, m: Name, n: Name)
    requires Gone(db, refs, m) && m <= n
    ensures Gone(db, refs, n)
  {
    forall x | x in db.usage && n <= x ensures OnlyFor(db, refs, x) { assert m <= x; }
  }

  /** A reference more to `r` matters to `r` and the domains above. */
  lemma OneMoreRef(db: Db, refs: seq<Name>, r: Name, n: Name)
    requires n in db.usage
    ensures n != r && OnlyFor(db, refs, n) ==> OnlyFor(db, refs + [r], n)
    ensures !(n <= r) && OnlyFor(db, refs + [r], n) ==> OnlyFor(db, refs, n)
    ensures multiset(refs + [r])[n] == multiset(refs)[n] + (if n == r then 1 else 0)
    ensures n <= r && !HasData(db.records, n) && db.usage[n] == multiset(refs + [r])[n] ==> OnlyFor(db, refs + [r], n)
  {
    var more := refs + [r];
    assert multiset(more) == multiset(refs) + multiset{r};
    assert more[|refs|] == r && r in more;
    if n != r && OnlyFor(db, refs, n) {
      var x :| x in refs && n <= x;
      assert x in more;
    }
    if !(n <= r) && OnlyFor(db, more, n) {
      var x :| x in more && n <= x;
      assert x in refs;
    }
  }

  lemma OffWayStays(db: Db, refs: seq<Name>, r: Name, m: Name)
    requires m in db.usage && !Gone(db, refs, m) && !(m <= r)
    ensures !Gone(db, refs + [r], m)
  {
    var n :| n in db.usage && m <= n && !OnlyFor(db, refs, n);
    OneMoreRef(db, refs, r, n);
    assert !OnlyFor(db, refs + [r], n);
  }

  /** On the way up from the domain that lost a reference, exactly those below the end of the walk go. */
  lemma OnWayGone(db: Db, db1: Db, db2: Db, refs: seq<Name>, r: Name, stop: Name, m: Name)
    requires GivenUp(db, refs, db1.usage) && db1.records == db.records && r in db1.usage && db1.usage[r] > 0
    requires Pruned(Lowered(db1, r), db2, r, stop) && stop in db1.usage && !Free(Lowered(db1, r), stop, r)
    requires m in db1.usage && m <= r
    ensures Gone(db, refs + [r], m) <==> stop < m
  {
    if stop < m {
      forall n | n in db.usage && m <= n
        ensures OnlyFor(db, refs + [r], n)
      {
        assert GivenUpAt(db, refs, db1.usage, n) && GivenUpAt(db, refs, db1.usage, r);
        if n in db1.usage {
          FreeOnlyFor(db, db1, db2, refs, r, stop, m, n);
        } else {
          StaysGone(db, refs, r, n);
        }
      }
    } else {
      assert m <= stop by { assert m == r[..|m|] && stop == r[..|stop|]; }
      StopNeeded(db, db1, refs, r, stop);
      if Gone(db, refs + [r], m) { BelowGone(db, refs + [r], m, stop); }
    }
  }

  lemma FreeOnlyFor(db: Db, db1: Db, db2: Db, refs: seq<Name>, r: Name, stop: Name, m: Name, n: Name)
    requires GivenUp(db, refs, db1.usage) && db1.records == db.records && r in db1.usage && db1.usage[r] > 0
    requires Pruned(Lowered(db1, r), db2, r, stop) && stop < m && m <= r
    requires m in db1.usage && n in db1.usage && m <= n && n in db.usage
    ensures OnlyFor(db, refs + [r], n)
  {
    var low := Lowered(db1, r);
    assert Free(low, m, r);
    assert n <= r && stop < n;
    assert Free(low, n, r);
    assert GivenUpAt(db, refs, db1.usage, n);
    OneMoreRef(db, refs, r, n);
  }

  lemma StopNeeded(db: Db, db1: Db, refs: seq<Name>, r: Name, stop: Name)
    requires GivenUp(db, refs, db1.usage) && db1.records == db.records && r in db1.usage && db1.usage[r] > 0
    requires stop in db1.usage && !Free(Lowered(db1, r), stop, r)
    ensures !Gone(db, refs + [r], stop)
  {
    var low := Lowered(db1, r);
    assert GivenUpAt(db, refs, db1.usage, stop);
    OneMoreRef(db, refs, r, stop);
    if !HasData(low.records, stop) && low.usage[stop] == 0 {
      var x :| x in low.usage && stop < x && !(x <= r);
      assert GivenUpAt(db, refs, db1.usage, x);
      OffWayStays(db, refs, r, x);
      if Gone(db, refs + [r], stop) { BelowGone(db, refs + [r], stop, x); }
    } else {
      assert !OnlyFor(db, refs + [r], stop);
    }
  }

  lemma PruneStep(db: Db, db1: Db, db2: Db, d: Name, cur: Name)
    requires Pruned(db, db1, d, cur) && cur in db1.usage && Dropped(db1, db2, cur)
    requires forall n :: n in db1.usage ==> !(cur < n)
    ensures Pruned(db, db2, d, Parent(cur))
  {
    assert Free(db, cur, d);
    forall n | n in db.usage && n <= d
      ensures Parent(cur) < n <==> n == cur || cur < n
    {
      assert n == d[..|n|] && cur == d[..|cur|];
    }
  }

  lemma PruneStop(db: Db, db': Db, d: Name, stop: Name)
    requires Pruned(db, db', d, stop) && stop in db'.usage
    requires HasData(db'.records, stop) || db'.usage[stop] > 0 || exists n :: n in db'.usage && stop < n
    ensures !Free(db, stop, d)
  {
  }

  /** The next name tells whether there is a child: names below are right behind. */
  lemma NextIsChild(names: seq<Name>, i: nat, j: nat)
    requires Sorted(names) && i < |names| && j < |names| && names[i] < names[j]
    ensures i + 1 < |names| && names[i] < names[i + 1]
  {
    var d := names[i];
    AncestorLess(d, names[j]);
    if j < i { NameAsymmetric(d, names[j]); }
    assert j > i;
    if j > i + 1 { SubtreeContiguous(d, d, names[i + 1], names[j]); }
    NameIrreflexive(d);
    assert NameLess(d, names[i + 1]);
  }

  // -------------------------------------------------------------------- the class

  class Table {
    var names: seq<Name>
    var usage: map<Name, nat>
    var existing: map<Name, bool>
    const numlist: NumList
    var records: seq<Rec>
    /** Zone apexes; each counts as a use of its domain. */
    var apexes: seq<Name>
    /** The references that the usage counts cover. */
    ghost var counted: multiset<Name>

    ghost function View(): Db
      reads this`names, this`usage, this`existing, this`records, this`counted
    {
      Db(names, usage, existing, records, counted)
    }

    /** The domains are numbered 1, 2, 3, ... in the order of the list, the root first. */
    ghost predicate Numbered()
      reads this`usage, numlist
    {
      && numlist.Valid() && numlist.list[0] == []
      && forall n :: n in numlist.list <==> n in usage
    }

    ghost predicate Valid()
      reads this, numlist
    {
      DbOk(View(), apexes) && Numbered()
    }

    /** domain_table_create: only the root, with number 1 and usage 1. */
    constructor ()
      ensures Valid() && names == [[]] && records == [] && apexes == [] && fresh(numlist)
    {
      names, usage, existing, records, apexes, counted := [[]], map[[] := 1], map[[] := false], [], [], multiset{[]};
      numlist := new NumList([]);
      new;
      assert names[0] == [];
    }

    /** allocate_domain_info and the insertion into the name tree: one domain whose parent is there. */
    method Allocate(n: Name)
      requires Core(View()) && Numbered() && n !in usage && n != [] && Parent(n) in usage
      modifies this`names, this`usage, this`existing, numlist
      ensures Added(old(View()), View(), n) && Numbered()
    {
      ghost var db := View();
      names := InsertName(names, n);
      usage, existing := usage[n := 0], existing[n := false];
      assert Added(db, View(), n);
      numlist.Push(n);
    }

    /** The next missing ancestor. */
    method InsertChild(n: Name, ghost db: Db)
      requires Core(View()) && Numbered() && Core(db) && n != [] && Grew(db, View(), Parent(n)) && n !in db.usage
      modifies this`names, this`usage, this`existing, numlist
      ensures Core(View()) && Numbered() && Grew(db, View(), n) && n in usage
    {
      ghost var db1 := View();
      assert !(n <= Parent(n)) && Parent(n) <= Parent(n);
      Allocate(n);
      ghost var db2 := View();
      AddedOk(db1, db2, n);
      GrewOne(db, db1, db2, Parent(n), n);
    }

    /** domain_table_insert */
    method Insert(q: Name)
      requires Core(View()) && Numbered()
      modifies this`names, this`usage, this`existing, numlist
      ensures Core(View()) && Numbered() && Grew(old(View()), View(), q) && q in usage
    {
      var exact, i, encloser := Search(names, q);
      GrewNone(View(), encloser);
      assert encloser == q[..|encloser|];
      PrefixLengths(View(), q, |encloser|);
      InsertMissing(q, |encloser|);
    }

    /** The loop of domain_table_insert: the domains from the closest encloser down to the name itself. */
    method InsertMissing(q: Name, from: nat)
      requires Core(View()) && Numbered() && from <= |q| && Grew(View(), View(), q[..from])
               && forall j :: from < j <= |q| ==> q[..j] !in usage
      modifies this`names, this`usage, this`existing, numlist
      ensures Core(View()) && Numbered() && Grew(old(View()), View(), q) && q in usage
    {
      ghost var db := View();
      var k := from;
      while k < |q|
        invariant from <= k <= |q| && Core(View()) && Numbered() && Grew(db, View(), q[..k])
      {
        PrefixParent(q, k);
        InsertChild(q[..k + 1], db);
        k := k + 1;
      }
      assert q[..k] == q;
    }

    // ------------------------------------------------------------------ removing domains

    /** The place of a domain in the name tree. */
    method Find(d: Name) returns (i: nat)
      requires Core(View()) && d in usage
      ensures i < |names| && names[i] == d
    {
      assert d in names;
      i := FindLessEqual(names, d);
      ghost var j :| 0 <= j < |names| && names[j] == d;
      if j < i { NotAfter(names, j, i); }
    }

    /** do_deldomain: out of the number list and out of the name tree. */
    method DoDelDomain(d: Name)
      requires Core(View()) && Numbered() && d in usage && d != [] && usage[d] == 0 && !HasData(records, d)
               && forall n :: n in usage ==> !(d < n)
      modifies this`names, this`usage, this`existing, numlist
      ensures Dropped(old(View()), View(), d) && Numbered()
    {
      ghost var db := View();
      RemoveNumber(d);
      names := RemoveName(d);
      usage, existing := usage - {d}, existing - {d};
    }

    method RemoveNumber(d: Name)
      requires Numbered() && d in usage && d != []
      modifies numlist
      ensures numlist.Valid() && numlist.list[0] == [] && forall n :: n in numlist.list <==> n in usage && n != d
    {
      ghost var l := numlist.list;
      ghost var at :| 0 <= at < |l| && l[at] == d;
      forall j | 0 <= j < |l| && j != at ensures l[j] != d {
        NotTwice(numlist.View(), if j < at then j else at, if j < at then at else j);
      }
      numlist.MakeLast(d, at);
      var _ := numlist.PopLast();
      ListWithout(l, numlist.list, at);
    }

    method RemoveName(d: Name) returns (s: seq<Name>)
      requires Core(View()) && d in usage && d != [] && forall n :: n in usage ==> !(d < n)
      ensures TableOk(s) && forall x :: x in s <==> x in names && x != d
    {
      var i := Find(d);
      NotParent(names, d);
      s := CutName(names, i);
    }

    /** domain_table_deldomain: the domain and then its ancestors, as far as nothing needs them. */
    method DelDomain(d: Name) returns (ghost stop: Name)
      requires Core(View()) && Numbered() && d in usage
      modifies this`names, this`usage, this`existing, numlist
      ensures Core(View()) && Numbered()
      ensures Pruned(old(View()), View(), d, stop) && stop in old(usage) && !Free(old(View()), stop, d)
    {
      ghost var db := View();
      var cur := d;
      var go := CanBeDeleted(cur);
      while go
        invariant Core(View()) && Numbered() && Pruned(db, View(), d, cur) && cur in usage
        invariant !go ==> HasData(records, cur) || usage[cur] > 0 || exists n :: n in usage && cur < n
        invariant go ==> !HasData(records, cur) && usage[cur] == 0 && forall n :: n in usage ==> !(cur < n)
        decreases |cur|, go
      {
        assert cur != [] by { assert usage[[]] >= counted[[]]; }
        ghost var db1 := View();
        assert Parent(cur) in names;
        DoDelDomain(cur);
        DroppedOk(db1, View(), cur);
        PruneStep(db, db1, View(), d, cur);
        cur := Parent(cur);
        go := CanBeDeleted(cur);
      }
      stop := cur;
      PruneStop(db, View(), d, stop);
    }

    /** domain_can_be_deleted: no data, no use, and no domain below it. */
    method CanBeDeleted(d: Name) returns (r: bool)
      requires Core(View()) && d in usage
      ensures r ==> !HasData(records, d) && usage[d] == 0 && forall n :: n in usage ==> !(d < n)
      ensures !r ==> HasData(records, d) || usage[d] > 0 || exists n :: n in usage && d < n
    {
      if HasData(records, d) { return false; }
      if usage[d] != 0 { return false; }
      var i := Find(d);
      r := !(i + 1 < |names| && d <= names[i + 1]);
      if r {
        forall n | n in usage ensures !(d < n) {
          assert n in names;
          var j :| 0 <= j < |names| && names[j] == n;
          if d < n { NextIsChild(names, i, j); }
        }
      } else {
        assert names[i + 1] in names;
        NameIrreflexive(d);
        assert NameLess(d, names[i + 1]);
      }
    }

    // ------------------------------------------------------------------ existence

    /** The end of domain_add_rrset: the domain and the domains above it exist. */
    method MarkExisting(d: Name)
      requires Core(View()) && ExistOk(View()) && d in usage
      modifies this`existing
      ensures Core(View()) && ExistWith(View(), d)
    {
      ghost var db := View();
      var k := |d| + 1;
      PrefixesThere(db, d);
      while k > 0 && !existing[d[..k - 1]]
        invariant 0 <= k <= |d| + 1 && Core(View()) && Marked(db, View(), d, k)
      {
        ghost var db1 := View();
        k := k - 1;
        existing := existing[d[..k] := true];
        MarkedStep(db, db1, View(), d, k);
      }
      MarkedAll(db, View(), d, k);
    }

    /** has_data_below: the scan forward from the domain is exact. */
    method HasDataBelow(top: Name) returns (r: bool)
      requires Core(View()) && top in usage
      ensures r <==> exists n :: n in usage && top < n && existing[n]
    {
      var i := Find(top);
      var k := i + 1;
      while k < |names| && top <= names[k]
        invariant i < k <= |names|
        invariant forall j :: i < j < k ==> names[j] in usage && !existing[names[j]]
      {
        assert names[k] in names;
        if existing[names[k]] {
          NotAfter(names, i, k);
          return true;
        }
        k := k + 1;
      }
      forall n | n in usage && top < n ensures !existing[n] {
        assert n in names;
        var j :| 0 <= j < |names| && names[j] == n;
        BelowBehind(names, i, j, k);
      }
      r := false;
    }

    /** rrset_zero_nonexist_check without a closest encloser: clear the flags that the last RRset of the domain kept
        up. */
    method ZeroNonexistCheck(d: Name)
      requires Core(View()) && Clearing(View(), d, |d| + 1) && d in usage
      modifies this`existing
      ensures Core(View()) && ExistOk(View())
    {
      PrefixesThere(View(), d);
      assert d[..|d|] == d;
      if HasData(records, d) { ClearedEnough(View(), d, |d| + 1); return; }
      var below := HasDataBelow(d);
      if below { ClearedEnough(View(), d, |d| + 1); return; }
      ClearUpwards(d);
    }

    /** The loop of rrset_zero_nonexist_check. */
    method ClearUpwards(d: Name)
      requires Core(View()) && Clearing(View(), d, |d| + 1) && forall k :: 0 <= k <= |d| ==> d[..k] in usage
      modifies this`existing
      ensures Core(View()) && ExistOk(View())
    {
      var below;
      var k := |d| + 1;
      while k > 0 && !HasData(records, d[..k - 1])
        invariant 0 <= k <= |d| + 1 && Core(View()) && Clearing(View(), d, k)
      {
        below := HasDataBelow(d[..k - 1]);
        if below { ClearedEnough(View(), d, k); return; }
        ghost var db := View();
        k := k - 1;
        existing := existing[d[..k] := false];
        ClearStep(db, View(), d, k);
      }
      if k > 0 { ClearedEnough(View(), d, k); }
    }

    // ------------------------------------------------------------------ records

    /** The state between the creation of an RRset at `owner` and the arrival of its record. */
    ghost predicate With(owner: Name)
      reads this, numlist
    {
      Core(View()) && Numbered() && ExistWith(View(), owner) && owner in usage
    }

    method UseMore(n: Name, ghost owner: Name)
      requires With(owner) && n in usage
      modifies this`usage, this`counted
      ensures With(owner) && counted == old(counted) + multiset{n}
      ensures old(usage).Keys <= usage.Keys
    {
      ghost var db := View();
      usage := usage[n := usage[n] + 1];
      counted := counted + multiset{n};
      ghost var db' := View();
      OneUseMore(db, db', n, owner);
    }

    /** A domain name in rdata: its domain is in the table and has one use more. */
    method Refer(n: Name, ghost owner: Name)
      requires With(owner)
      modifies this`names, this`usage, this`existing, numlist, this`counted
      ensures With(owner) && counted == old(counted) + multiset{n}
      ensures old(usage).Keys <= usage.Keys
    {
      ghost var db := View();
      Insert(n);
      GrewExist(db, View(), n, owner);
      UseMore(n, owner);
    }

    /** namedb_zone_create: the domain of a zone apex is in use. */
    method AddApex(n: Name)
      requires Valid()
      modifies this`names, this`usage, this`existing, this`counted, this`apexes, numlist
      ensures Valid() && apexes == old(apexes) + [n] && records == old(records)
    {
      ghost var known := counted;
      UseApex(n);
      CompleteApex(known, counted, records, apexes, n);
      apexes := apexes + [n];
    }

    method UseApex(n: Name)
      requires Right()
      modifies this`names, this`usage, this`existing, this`counted, numlist
      ensures Right() && counted == old(counted) + multiset{n}
    {
      ghost var db := View();
      Insert(n);
      ghost var db1 := View();
      GrewExistOk(db, db1, n);
      CountUse(n);
    }

    method CountUse(n: Name)
      requires Right() && n in usage
      modifies this`usage, this`counted
      ensures Right() && counted == old(counted) + multiset{n}
    {
      ghost var db := View();
      usage := usage[n := usage[n] + 1];
      counted := counted + multiset{n};
      ghost var db' := View();
      OneApexMore(db, db', n);
    }

    /** The domain names in the rdata of a record. */
    method ReferAll(refs: seq<Name>, ghost owner: Name, ghost base: multiset<Name>)
      requires With(owner) && counted == base
      modifies this`names, this`usage, this`existing, numlist, this`counted
      ensures With(owner) && counted == base + multiset(refs)
      ensures old(usage).Keys <= usage.Keys
    {
      ghost var keys := usage.Keys;
      var k := 0;
      ghost var done: multiset<Name> := multiset{};
      while k < |refs|
        invariant 0 <= k <= |refs| && With(owner) && counted == base + done && done == multiset(refs[..k])
        invariant keys <= usage.Keys
      {
        Refer(refs[k], owner);
        RefsSnoc(refs, k);
        done := done + multiset{refs[k]};
        k := k + 1;
      }
      assert refs[..k] == refs;
    }

    /** Everything but the accounting of references. */
    ghost predicate Right()
      reads this, numlist
    {
      Core(View()) && Numbered() && ExistOk(View())
    }

    /** The first half of add_RR: the owner is in the table and has the RRset. */
    method OpenRRset(rec: Rec)
      requires Right()
      modifies this`names, this`usage, this`existing, numlist
      ensures With(rec.owner)
      ensures old(usage).Keys <= usage.Keys
    {
      ghost var db := View();
      Insert(rec.owner);
      ghost var db' := View();
      GrewExistOk(db, db', rec.owner);
      if !HasRRset(records, rec.owner, rec.rrset) {
        MarkExisting(rec.owner);
      } else {
        ExistAlready(db', rec.owner);
      }
    }

    /** The second half of add_RR; the references of a record that is not added are used, but not held. */
    method CloseRRset(rec: Rec, ghost known: multiset<Name>, ghost tops: seq<Name>) returns (r: Addition)
      requires With(rec.owner) && Complete(known, records, tops) && counted == known + multiset(rec.refs)
      modifies this`records, this`counted
      ensures Right() && Complete(counted, records, tops) && rec.owner in usage && usage == old(usage)
      ensures apexes == old(apexes)
      ensures r == AdditionOf(old(records), rec) && records == if r.NewRecord? then old(records) + [rec]
              else old(records)
    {
      ghost var db := View();
      r := AdditionOf(records, rec);
      var more := if r.NewRecord? then records + [rec] else records;
      ghost var held := if r.NewRecord? then counted else known;
      ghost var db' := db.(records := more, counted := held);
      if r.NewRecord? {
        CompleteMore(known, counted, records, tops, rec);
        AddedRecord(db, db', rec);
      } else {
        OwnerHasData(records, rec);
        NotAdded(db, db', rec);
      }
      Keep(more, held);
    }

    method Keep(more: seq<Rec>, ghost held: multiset<Name>)
      modifies this`records, this`counted
      ensures View() == old(View()).(records := more, counted := held) && apexes == old(apexes) && unchanged(numlist)
    {
      records, counted := more, held;
    }

    /** add_RR */
    method AddRR(rec: Rec) returns (r: Addition)
      requires Valid()
      modifies this`names, this`usage, this`existing, this`records, this`counted, numlist
      ensures Valid() && rec.owner in usage && old(usage).Keys <= usage.Keys
      ensures r == AdditionOf(old(records), rec) && records == if r.NewRecord? then old(records) + [rec]
              else old(records)
    {
      ghost var tops := apexes;
      r := AddHeld(rec, tops);
      assert apexes == tops;
    }

    method AddHeld(rec: Rec, ghost tops: seq<Name>) returns (r: Addition)
      requires Right() && Complete(counted, records, tops)
      modifies this`names, this`usage, this`existing, this`records, this`counted, numlist
      ensures Right() && Complete(counted, records, tops) && rec.owner in usage && old(usage).Keys <= usage.Keys
      ensures r == AdditionOf(old(records), rec) && records == if r.NewRecord? then old(records) + [rec]
              else old(records)
      ensures apexes == old(apexes)
    {
      ghost var known := counted;
      OpenAndRefer(rec);
      r := CloseRRset(rec, known, tops);
    }

    method OpenAndRefer(rec: Rec)
      requires Right()
      modifies this`names, this`usage, this`existing, this`counted, numlist
      ensures With(rec.owner) && counted == old(counted) + multiset(rec.refs) && apexes == old(apexes)
      ensures old(usage).Keys <= usage.Keys
    {
      ghost var known := counted;
      OpenRRset(rec);
      ReferAll(rec.refs, rec.owner, known);
    }

    // ------------------------------------------------------------------ deleting records

    /** The usage of one domain in rdata is lowered; a domain that nothing needs any more goes. */
    method Unrefer(n: Name) returns (ghost stop: Name)
      requires Right() && n in counted && counted[n] > (if n == [] then 1 else 0)
      modifies this`names, this`usage, this`existing, numlist, this`counted
      ensures Right() && n in old(usage) && old(usage)[n] > 0 && stop in old(usage)
      ensures records == old(records) && apexes == old(apexes) && counted == old(counted) - multiset{n}
      ensures Pruned(Lowered(old(View()), n), View(), n, stop) && !Free(Lowered(old(View()), n), stop, n)
    {
      UseLess(n);
      stop := n;
      if usage[n] == 0 {
        stop := Prune(n);
      }
    }

    /** domain_table_deldomain does not touch the records or what they refer to. */
    method Prune(d: Name) returns (ghost stop: Name)
      requires Right() && d in usage
      modifies this`names, this`usage, this`existing, numlist
      ensures Right() && apexes == old(apexes)
      ensures Pruned(old(View()), View(), d, stop) && stop in old(usage) && !Free(old(View()), stop, d)
    {
      ghost var db := View();
      stop := DelDomain(d);
      PrunedExist(db, View(), d, stop);
    }

    method UseLess(n: Name)
      requires Right() && n in counted && counted[n] > (if n == [] then 1 else 0)
      modifies this`usage, this`counted
      ensures Right() && n in old(usage) && old(usage)[n] > 0 && View() == Lowered(old(View()), n)
      ensures apexes == old(apexes)
    {
      ghost var db := View();
      LowerUsage(n);
      ghost var db' := View();
      OneUseLess(db, db', n);
    }

    method LowerUsage(n: Name)
      requires n in usage && usage[n] > 0
      modifies this`usage, this`counted
      ensures View() == Lowered(old(View()), n)
    {
      usage := usage[n := usage[n] - 1];
      counted := counted - multiset{n};
    }

    /** rr_lower_usage */
    method UnreferAll(refs: seq<Name>, ghost base: multiset<Name>)
      requires Right() && counted == base + multiset(refs) && [] in base
      modifies this`names, this`usage, this`existing, numlist, this`counted
      ensures Right() && counted == base && records == old(records) && apexes == old(apexes)
      ensures GivenUp(old(View()), refs, usage)
    {
      ghost var db := View();
      var k := 0;
      assert refs[0..] == refs;
      NothingGivenUp(db);
      assert refs[..0] == [];
      while k < |refs|
        invariant 0 <= k <= |refs| && Right() && counted == base + multiset(refs[k..])
        invariant records == db.records && apexes == old(apexes) && GivenUp(db, refs[..k], usage)
      {
        RefsFirst(refs, k);
        UnreferNext(refs[k], db, refs[..k]);
        k := k + 1;
      }
      assert refs[..k] == refs;
    }

    /** One reference more is given up. */
    method UnreferNext(n: Name, ghost db: Db, ghost refs: seq<Name>)
      requires Right() && n in counted && counted[n] > (if n == [] then 1 else 0)
      requires records == db.records && GivenUp(db, refs, usage)
      modifies this`names, this`usage, this`existing, numlist, this`counted
      ensures Right() && counted == old(counted) - multiset{n}
      ensures records == old(records) && apexes == old(apexes) && GivenUp(db, refs + [n], usage)
    {
      ghost var db1 := View();
      ghost var stop := Unrefer(n);
      GivenUpStep(db, db1, View(), refs, n, stop);
    }

    /** The record goes; with the last one of its RRset the RRset goes, and perhaps existence and the domain. */
    method DropRecord(i: nat)
      requires Right() && i < |records|
      modifies this`names, this`usage, this`existing, this`records, numlist
      ensures Right() && records == TakenOut(old(records), i)
    {
      var rec := CutRecord(i);
      LeaveRRset(rec);
    }

    /** The record leaves its RRset. */
    method CutRecord(i: nat) returns (rec: Rec)
      requires Right() && i < |records|
      modifies this`records
      ensures rec == old(records)[i] && records == TakenOut(old(records), i)
      ensures Core(View()) && Numbered() && Clearing(View(), rec.owner, |rec.owner| + 1) && rec.owner in usage
      ensures View() == old(View()).(records := records) && apexes == old(apexes)
    {
      ghost var db := View();
      rec := records[i];
      records := TakenOut(records, i);
      DroppedRecord(db, View(), i);
    }

    method LeaveRRset(rec: Rec)
      requires Core(View()) && Numbered() && Clearing(View(), rec.owner, |rec.owner| + 1) && rec.owner in usage
      modifies this`names, this`usage, this`existing, numlist
      ensures Right()
    {
      if HasRRset(records, rec.owner, rec.rrset) {
        StillData(View(), rec.owner);
      } else {
        ZeroNonexistCheck(rec.owner);
        ghost var stop := Prune(rec.owner);
      }
    }

    /** delete_RR: false, and nothing is changed, for a record that is not there; `soa` stands for the SOA type
        at the apex of the zone. */
    method DeleteRR(owner: Name, rrset: nat, ident: nat, soa: bool) returns (found: bool)
      requires Valid()
      modifies this`names, this`usage, this`existing, this`records, this`counted, numlist
      ensures Valid()
      ensures var i := DeletePlace(old(records), owner, rrset, ident, soa);
              if i >= 0 then found && records == TakenOut(old(records), i)
              else !found && View() == old(View())
    {
      var i := DeletePlace(records, owner, rrset, ident, soa);
      if owner !in usage || i == -1 {
        return false;
      }
      DeleteAt(i);
      found := true;
    }

    method DeleteAt(i: nat)
      requires Valid() && i < |records|
      modifies this`names, this`usage, this`existing, this`records, this`counted, numlist
      ensures Valid() && records == TakenOut(old(records), i)
    {
      ghost var base := CompleteLess(counted, records, apexes, i);
      TakeRecord(i, base);
    }

    method TakeRecord(i: nat, ghost base: multiset<Name>)
      requires Right() && i < |records| && counted == base + multiset(records[i].refs) && [] in base
      modifies this`names, this`usage, this`existing, this`records, this`counted, numlist
      ensures Right() && records == TakenOut(old(records), i) && counted == base
    {
      UnreferAll(records[i].refs, base);
      DropRecord(i);
    }
  }

  // -------------------------------------------------------------------- the records of an RRset

  /** find_rr_num: the first record of the RRset that says the same, or -1. */
  function FindRec(records: seq<Rec>, owner: Name, rrset: nat, ident: nat): (i: int)
    ensures -1 <= i < |records|
    ensures i >= 0 ==> records[i].owner == owner && records[i].rrset == rrset && records[i].ident == ident
    ensures i == -1 <==> forall j :: 0 <= j < |records| ==>
                           !(records[j].owner == owner && records[j].rrset == rrset && records[j].ident == ident)
  {
    if records == [] then -1
    else if records[0].owner == owner && records[0].rrset == rrset && records[0].ident == ident then 0
    else
      var i := FindRec(records[1..], owner, rrset, ident);
      if i == -1 then -1 else i + 1
  }

  /** The first record of the RRset, or -1. */
  function FirstOf(records: seq<Rec>, owner: Name, rrset: nat): (i: int)
    ensures -1 <= i < |records|
    ensures i >= 0 ==> records[i].owner == owner && records[i].rrset == rrset
    ensures i == -1 <==> !HasRRset(records, owner, rrset)
  {
    if records == [] then -1
    else if records[0].owner == owner && records[0].rrset == rrset then 0
    else
      var i := FirstOf(records[1..], owner, rrset);
      assert HasRRset(records[1..], owner, rrset) <==> HasRRset(records, owner, rrset) by {
        if HasRRset(records, owner, rrset) {
          var j :| 0 <= j < |records| && records[j].owner == owner && records[j].rrset == rrset;
          assert records[1..][j - 1] == records[j];
        }
      }
      if i == -1 then -1 else i + 1
  }

  /** The record that delete_RR takes: the one that says the same, or else the SOA whatever its serial. */
  function DeletePlace(records: seq<Rec>, owner: Name, rrset: nat, ident: nat, soa: bool): (i: int)
    ensures -1 <= i < |records|
    ensures i >= 0 ==> records[i].owner == owner && records[i].rrset == rrset && (records[i].ident == ident || soa)
    ensures i == -1 ==> FindRec(records, owner, rrset, ident) == -1 && (soa ==> !HasRRset(records, owner, rrset))
  {
    var i := FindRec(records, owner, rrset, ident);
    if i == -1 && soa then FirstOf(records, owner, rrset) else i
  }

  /** The number of records of an RRset. */
  function CountRRset(records: seq<Rec>, owner: Name, rrset: nat): (n: nat)
  {
    if records == [] then 0
    else (if records[0].owner == owner && records[0].rrset == rrset then 1 else 0)
         + CountRRset(records[1..], owner, rrset)
  }

  lemma {:induction false} CountedIsThere(records: seq<Rec>, owner: Name, rrset: nat)
    requires CountRRset(records, owner, rrset) > 0
    ensures HasRRset(records, owner, rrset)
  {
    if records[0].owner != owner || records[0].rrset != rrset {
      CountedIsThere(records[1..], owner, rrset);
      var j :| 0 <= j < |records| - 1 && records[1..][j].owner == owner && records[1..][j].rrset == rrset;
      assert records[j + 1].owner == owner;
    }
  }

  /** What add_RR makes of a record: it is added, it is there already, or its RRset is full. */
  datatype Addition = NewRecord | KnownRecord | FullRRset

  function AdditionOf(records: seq<Rec>, rec: Rec): Addition
  {
    if FindRec(records, rec.owner, rec.rrset, rec.ident) != -1 then KnownRecord
    else if CountRRset(records, rec.owner, rec.rrset) == ZoneData.MAX_RRS then FullRRset
    else NewRecord
  }

  /** The last record of the RRset of record `i`. */
  function LastOf(records: seq<Rec>, i: nat): (j: nat)
    requires i < |records|
    ensures i <= j < |records| && records[j].owner == records[i].owner && records[j].rrset == records[i].rrset
    ensures forall k :: j < k < |records| ==>
              records[k].owner != records[i].owner || records[k].rrset != records[i].rrset
    decreases |records|
  {
    var n := |records| - 1;
    if i == n || (records[n].owner == records[i].owner && records[n].rrset == records[i].rrset) then n
    else LastOf(records[..n], i)
  }

  /** The last record of the RRset takes the place of record `i`. */
  function TakenOut(records: seq<Rec>, i: nat): (r: seq<Rec>)
    requires i < |records|
  {
    var j := LastOf(records, i);
    Without(records[i := records[j]], j)
  }

  /** Every domain that a record is at or refers to is in the table, and in use if it is referred to. */
  lemma NothingDangles(db: Db, apexes: seq<Name>, i: nat, k: nat)
    requires DbOk(db, apexes) && i < |db.records| && k < |db.records[i].refs|
    ensures db.records[i].owner in db.usage && db.records[i].refs[k] in db.usage && db.usage[db.records[i].refs[k]] > 0
  {
    var n := db.records[i].refs[k];
    RefsTakenOut(db.records, i);
    assert n in multiset(db.records[i].refs);
    assert n in db.counted;
  }

  lemma {:induction false} RefsWithout(records: seq<Rec>, i: nat)
    requires i < |records|
    ensures Refs(records) == Refs(Without(records, i)) + multiset(records[i].refs)
    decreases |records|
  {
    var k := |records| - 1;
    WithoutLast(records, i);
    if i < k { RefsWithout(records[..k], i); }
  }

  lemma WithoutLast(records: seq<Rec>, i: nat)
    requires i < |records|
    ensures var k, r := |records| - 1, Without(records, i);
            if i == k then r == records[..k]
               else |r| == k && r[..k - 1] == Without(records[..k], i) && r[k - 1] == records[k]
  {
  }

  function Without(records: seq<Rec>, i: nat): (r: seq<Rec>)
    requires i < |records|
  {
    records[..i] + records[i + 1..]
  }

  lemma {:induction false} RefsUpdate(records: seq<Rec>, i: nat, r: Rec)
    requires i < |records|
    ensures Refs(records[i := r]) + multiset(records[i].refs) == Refs(records) + multiset(r.refs)
    decreases |records|
  {
    var k, u := |records| - 1, records[i := r];
    if i < k {
      assert u[..k] == records[..k][i := r] && u[k] == records[k];
      RefsUpdate(records[..k], i, r);
      BothMore(Refs(u[..k]), multiset(records[i].refs), Refs(records[..k]), multiset(r.refs), multiset(u[k].refs));
    } else {
      assert u[..k] == records[..k] && u[k] == r;
    }
  }

  lemma BothMore(a: multiset<Name>, x: multiset<Name>, b: multiset<Name>, y: multiset<Name>, m: multiset<Name>)
    requires a + x == b + y
    ensures (a + m) + x == (b + m) + y
  {
    assert (a + m) + x == (a + x) + m;
    assert (b + m) + y == (b + y) + m;
  }

  lemma BothLess(a: multiset<Name>, x: multiset<Name>, b: multiset<Name>, y: multiset<Name>)
    requires (a + y) + x == b + y
    ensures a + x == b
  {
    assert (a + y) + x - y == a + x;
    assert b + y - y == b;
  }

  lemma RefsTakenOut(records: seq<Rec>, i: nat)
    requires i < |records|
    ensures Refs(records) == Refs(TakenOut(records, i)) + multiset(records[i].refs)
  {
    var j := LastOf(records, i);
    RefsUpdate(records, i, records[j]);
    RefsWithout(records[i := records[j]], j);
    BothLess(Refs(TakenOut(records, i)), multiset(records[i].refs), Refs(records), multiset(records[j].refs));
  }

  lemma CompleteLess(counted: multiset<Name>, records: seq<Rec>, apexes: seq<Name>, i: nat)
    returns (base: multiset<Name>)
    requires i < |records| && Complete(counted, records, apexes)
    ensures Complete(base, TakenOut(records, i), apexes) && counted == base + multiset(records[i].refs) && [] in base
  {
    RefsTakenOut(records, i);
    base := Refs(TakenOut(records, i)) + multiset(apexes) + multiset{[]};
  }

  lemma DroppedRecord(db: Db, db': Db, i: nat)
    requires Core(db) && ExistOk(db) && i < |db.records| && db' == db.(records := TakenOut(db.records, i))
    ensures Core(db') && Clearing(db', db.records[i].owner, |db.records[i].owner| + 1)
  {
    var o := db.records[i].owner;
    forall n | n in db'.usage
      ensures if n <= o then db'.existing[n] else db'.existing[n] <==> DataWithin(db'.records, n) {
      assert db.existing[n] <==> DataWithin(db.records, n);
      WithinTakenOut(db.records, i, n);
    }
  }

  lemma WithinWithout(records: seq<Rec>, i: nat, n: Name)
    requires i < |records|
    ensures DataWithin(records, n) <==> DataWithin(Without(records, i), n) || n <= records[i].owner
  {
    var r := Without(records, i);
    if DataWithin(records, n) {
      var j :| 0 <= j < |records| && n <= records[j].owner;
      assert j < i ==> r[j] == records[j];
      assert j > i ==> r[j - 1] == records[j];
    }
    if DataWithin(r, n) {
      var j :| 0 <= j < |r| && n <= r[j].owner;
      assert r[j] == records[if j < i then j else j + 1];
    }
  }

  lemma WithinTakenOut(records: seq<Rec>, i: nat, n: Name)
    requires i < |records|
    ensures DataWithin(records, n) <==> DataWithin(TakenOut(records, i), n) || n <= records[i].owner
  {
    var j := LastOf(records, i);
    var r := records[i := records[j]];
    WithinWithout(r, j, n);
    assert forall k :: 0 <= k < |records| ==> r[k].owner == records[k].owner;
  }

  /** With another record at the owner all flags are right. */
  lemma StillData(db: Db, o: Name)
    requires Core(db) && Clearing(db, o, |o| + 1) && HasData(db.records, o)
    ensures ExistOk(db)
  {
    var i :| 0 <= i < |db.records| && db.records[i].owner == o;
    assert o[..|o|] == o;
    ClearedEnough(db, o, |o| + 1);
  }

  predicate HasRRset(records: seq<Rec>, owner: Name, rrset: nat)
  {
    exists i :: 0 <= i < |records| && records[i].owner == owner && records[i].rrset == rrset
  }

  lemma GrewExistOk(db: Db, db': Db, q: Name)
    requires Core(db) && Core(db') && Grew(db, db', q) && ExistOk(db)
    ensures ExistOk(db')
  {
    forall n | n in db'.usage ensures db'.existing[n] <==> DataWithin(db'.records, n) {
      if n in db.usage { assert db.existing[n] == db'.existing[n]; } else { NoDataAtNew(db, n); }
    }
  }

  lemma ExistAlready(db: Db, owner: Name)
    requires Core(db) && ExistOk(db) && HasData(db.records, owner)
    ensures ExistWith(db, owner)
  {
    var i :| 0 <= i < |db.records| && db.records[i].owner == owner;
    forall n | n in db.usage ensures db.existing[n] <==> DataWithin(db.records, n) || n <= owner {
      if n <= owner { assert n <= db.records[i].owner; }
    }
  }

  lemma OwnerHasData(records: seq<Rec>, rec: Rec)
    requires !AdditionOf(records, rec).NewRecord?
    ensures HasData(records, rec.owner)
  {
    if CountRRset(records, rec.owner, rec.rrset) > 0 {
      CountedIsThere(records, rec.owner, rec.rrset);
    }
  }

  lemma NotAdded(db: Db, db': Db, rec: Rec)
    requires Core(db) && ExistWith(db, rec.owner) && HasData(db.records, rec.owner)
    requires db.counted == db'.counted + multiset(rec.refs) && db' == db.(counted := db'.counted) && [] in db'.counted
    ensures Core(db') && ExistOk(db')
  {
    forall n | n in db'.counted ensures n in db'.usage && db'.usage[n] >= db'.counted[n] { assert n in db.counted; }
    var i :| 0 <= i < |db.records| && db.records[i].owner == rec.owner;
    forall n | n in db'.usage ensures db'.existing[n] <==> DataWithin(db'.records, n) {
      assert db.existing[n] <==> DataWithin(db.records, n) || n <= rec.owner;
      if n <= rec.owner { assert n <= db.records[i].owner; }
    }
  }

  lemma AddedRecord(db: Db, db': Db, rec: Rec)
    requires Core(db) && ExistWith(db, rec.owner) && rec.owner in db.usage && db' == db.(records := db.records + [rec])
    ensures Core(db') && ExistOk(db')
  {
    assert db'.records[|db'.records| - 1] == rec;
    forall n | n in db'.usage ensures db'.existing[n] <==> DataWithin(db'.records, n) {
      assert db.existing[n] <==> DataWithin(db.records, n) || n <= rec.owner;
      WithinSnoc(db.records, rec, n);
    }
  }

  lemma CompleteMore(counted: multiset<Name>, counted': multiset<Name>, records: seq<Rec>, apexes: seq<Name>, rec: Rec)
    requires Complete(counted, records, apexes) && counted' == counted + multiset(rec.refs)
    ensures Complete(counted', records + [rec], apexes)
  {
    assert (records + [rec])[..|records|] == records;
  }

  lemma WithinSnoc(records: seq<Rec>, rec: Rec, n: Name)
    ensures DataWithin(records + [rec], n) <==> DataWithin(records, n) || n <= rec.owner
  {
    var r := records + [rec];
    assert r[|records|] == rec;
    if DataWithin(records, n) {
      var i :| 0 <= i < |records| && n <= records[i].owner;
      assert r[i] == records[i];
    }
  }

  lemma OneUseLess(db: Db, db': Db, n: Name)
    requires Core(db) && ExistOk(db) && n in db.counted && db.counted[n] > (if n == [] then 1 else 0)
    requires db' == db.(usage := db.usage[n := db.usage[n] - 1], counted := db.counted - multiset{n})
    ensures Core(db') && ExistOk(db') && db'.usage.Keys == db.usage.Keys
  {
    assert db'.usage.Keys == db.usage.Keys;
    forall x | x in db'.counted ensures x in db'.usage && db'.usage[x] >= db'.counted[x] { assert x in db.counted; }
  }

  lemma PrunedExist(db: Db, db': Db, d: Name, stop: Name)
    requires Core(db) && ExistOk(db) && Core(db') && Pruned(db, db', d, stop)
    ensures ExistOk(db')
  {
    forall n | n in db'.usage ensures db'.existing[n] <==> DataWithin(db'.records, n) {
      assert n in db'.existing && n in db.usage && n in db.existing;
      assert db.existing[n] <==> DataWithin(db.records, n);
    }
  }

  /** The list of numbers without its element at `at`, the last one in its place. */
  lemma ListWithout(l: seq<Name>, l': seq<Name>, at: nat)
    requires at < |l| && l' == Exchanged(l, at, |l| - 1)[..|l| - 1]
    requires forall j :: 0 <= j < |l| && j != at ==> l[j] != l[at]
    ensures forall n :: n in l' <==> n in l && n != l[at]
  {
    var k := |l| - 1;
    assert forall j :: 0 <= j < k ==> l'[j] == if j == at then l[k] else l[j];
    forall n | n in l && n != l[at] ensures n in l' {
      var j :| 0 <= j < |l| && l[j] == n;
      if j == k { assert l'[at] == n; } else { assert l'[j] == n; }
    }
  }

  lemma GrewNone(db: Db, e: Name)
    requires Core(db) && e in db.usage
    ensures Grew(db, db, e)
  {
    forall n | n <= e ensures n in db.usage { assert e[..|n|] == n; AncestorsThere(db.names, e, |n|); }
  }

  lemma PrefixParent(q: Name, k: nat)
    requires k < |q|
    ensures q[..k + 1] != [] && Parent(q[..k + 1]) == q[..k]
  {
  }

  /** No longer ancestor of `q` is in the table. */
  lemma PrefixLengths(db: Db, q: Name, k: nat)
    requires Core(db) && forall p :: p in db.names && p <= q ==> |p| <= k
    ensures forall j :: k < j <= |q| ==> q[..j] !in db.usage
  {
    forall j | k < j <= |q| ensures q[..j] !in db.usage {
      assert q[..j] <= q && |q[..j]| == j;
    }
  }

  lemma NotAfter(names: seq<Name>, j: nat, i: nat)
    requires Sorted(names) && j < i < |names|
    ensures !NameLeq(names[i], names[j])
  {
    NameAsymmetric(names[j], names[i]);
    NameIrreflexive(names[j]);
  }

  lemma GrewOne(db: Db, db1: Db, db2: Db, e: Name, n: Name)
    requires Core(db) && Core(db1) && Core(db2) && Grew(db, db1, e) && Added(db1, db2, n) && n != [] && Parent(n) == e
    ensures Grew(db, db2, n)
  {
    forall x ensures x in db2.usage <==> x in db.usage || x <= n {
      if x <= n && x != n { assert x <= e; }
      if x <= e { assert x <= n; }
    }
  }
}
