/** Domain names and their canonical order (section 6.1 of RFC 4034), after dname.c.
    A name is its sequence of labels starting with the most significant one; the root
    label, which dname.c keeps at index 0, is left out, so label i here is label i + 1 there. */
module Dname {
  import opened Bytes

  type Name = seq<Label>

  /** A name sorts before another where, at the first differing label, its label does, or it ends. */
  ghost predicate NameAt(a: Name, b: Name, i: int)
  {
    && 0 <= i <= |a| && i < |b|
    && a[..i] == b[..i]
    && (i == |a| || LexLess(a[i], b[i]))
  }

  ghost predicate NameLess(a: Name, b: Name)
  {
    exists i :: NameAt(a, b, i)
  }

  ghost predicate NameLeq(a: Name, b: Name)
  {
    a == b || NameLess(a, b)
  }

  // -------------------------------------------------------------------- comparing

  /** dname_label_match_count, without the root label: how many leading labels agree. */
  method LabelMatchCount(left: Name, right: Name) returns (c: nat)
    ensures c <= |left| && c <= |right| && left[..c] == right[..c]
    ensures c < |left| && c < |right| ==> left[c] != right[c]
    ensures forall p: Name :: p <= left && p <= right ==> |p| <= c
  {
    c := 0;
    while c < |left| && c < |right|
      invariant 0 <= c <= |left| && c <= |right| && left[..c] == right[..c]
    {
      CompareIsLex(left[c], right[c]);
      if Compare(left[c], right[c]) != 0 {
        break;
      }
      c := c + 1;
    }
  }

  /** dname_compare: its sign is the canonical order. */
  method CompareNames(left: Name, right: Name) returns (r: int)
    ensures r < 0 <==> NameLess(left, right)
    ensures r == 0 <==> left == right
    ensures r > 0 <==> NameLess(right, left)
  {
    var count := if |left| <= |right| then |left| else |right|;
    var i := 0;
    while i < count
      invariant 0 <= i <= count && left[..i] == right[..i]
    {
      r := Compare(left[i], right[i]);
      CompareIsLex(left[i], right[i]);
      if r != 0 {
        if r < 0 { assert NameAt(left, right, i); NameAsymmetric(left, right); }
        else { assert NameAt(right, left, i); NameAsymmetric(right, left); }
        return;
      }
      i := i + 1;
    }
    r := |left| - |right|;
    if r < 0 { assert NameAt(left, right, i); NameAsymmetric(left, right); }
    else if r > 0 { assert NameAt(right, left, i); NameAsymmetric(right, left); }
    else {
      assert left[..i] == left && right[..i] == right;
      NameIrreflexive(left);
    }
  }

  /** dname_is_subdomain: `right` is an ancestor of `left`, or `left` itself. */
  method IsSubdomain(left: Name, right: Name) returns (r: bool)
    ensures r <==> right <= left
  {
    if |left| < |right| { return false; }
    var i := 0;
    while i < |right|
      invariant 0 <= i <= |right| && left[..i] == right[..i]
    {
      CompareIsLex(left[i], right[i]);
      if Compare(left[i], right[i]) != 0 { return false; }
      i := i + 1;
    }
    assert right[..i] == right;
    return true;
  }

  // -------------------------------------------------------------------- a total order

  lemma NameIrreflexive(a: Name)
    ensures !NameLess(a, a)
  {
    forall i | NameAt(a, a, i)
      ensures false
    {
      LexAsymmetric(a[i], a[i]);
    }
  }

  lemma NameAsymmetric(a: Name, b: Name)
    requires NameLess(a, b)
    ensures !NameLess(b, a) && a != b
  {
    var i :| NameAt(a, b, i);
    forall j | NameAt(b, a, j)
      ensures false
    {
      if i < |a| { LexAsymmetric(a[i], b[i]); }
      if j < |b| { LexAsymmetric(b[j], a[j]); }
    }
    if a == b { NameIrreflexive(a); }
  }

  lemma NameTransitive(a: Name, b: Name, c: Name)
    requires NameLess(a, b) && NameLess(b, c)
    ensures NameLess(a, c)
  {
    var i :| NameAt(a, b, i);
    var j :| NameAt(b, c, j);
    var m := if i < j then i else j;
    assert a[..m] == b[..m] by { assert a[..m] == a[..i][..m]; assert b[..m] == b[..i][..m]; }
    assert b[..m] == c[..m] by { assert b[..m] == b[..j][..m]; assert c[..m] == c[..j][..m]; }
    if i < j { assert b[..j][i] == c[..j][i]; }
    if j < i { assert a[..i][j] == b[..i][j]; }
    if i == j && i < |a| { LexTransitive(a[i], b[i], c[i]); }
    assert NameAt(a, c, m);
  }

  function MatchCount(a: Name, b: Name): (c: nat)
    ensures c <= |a| && c <= |b| && a[..c] == b[..c]
    ensures c < |a| && c < |b| ==> a[c] != b[c]
  {
    if a == [] || b == [] || a[0] != b[0] then 0
    else
      var c := MatchCount(a[1..], b[1..]);
      assert a[..c + 1] == [a[0]] + a[1..][..c];
      assert b[..c + 1] == [b[0]] + b[1..][..c];
      c + 1
  }

  lemma NameTotal(a: Name, b: Name)
    ensures a == b || NameLess(a, b) || NameLess(b, a)
  {
    var c := MatchCount(a, b);
    if c < |a| && c < |b| {
      LexTotal(a[c], b[c]);
      if LexLess(a[c], b[c]) { assert NameAt(a, b, c); } else { assert NameAt(b, a, c); }
    } else if c < |b| {
      assert NameAt(a, b, c);
    } else if c < |a| {
      assert NameAt(b, a, c);
    } else {
      assert a[..c] == a && b[..c] == b;
    }
  }

  lemma AncestorLess(a: Name, b: Name)
    requires a < b
    ensures NameLess(a, b)
  {
    assert NameAt(a, b, |a|);
  }

  /** If `x` is not in the subtree of `p`, all of that subtree is on one side of `x`. */
  lemma SubtreeSameSide(p: Name, x: Name, m: Name)
    requires p <= m && !(p <= x)
    ensures NameLess(p, x) <==> NameLess(m, x)
    ensures NameLess(x, p) <==> NameLess(x, m)
  {
    var c := MatchCount(p, x);
    assert c < |p|;
    assert m[..c] == p[..c] && m[c] == p[c];
    NameTotal(p, x);
    if c == |x| {
      assert x[..c] == x;
      assert NameAt(x, p, c) && NameAt(x, m, c);
      NameAsymmetric(x, p);
      NameAsymmetric(x, m);
    } else {
      LexTotal(p[c], x[c]);
      if LexLess(p[c], x[c]) {
        assert NameAt(p, x, c) && NameAt(m, x, c);
        NameAsymmetric(p, x);
        NameAsymmetric(m, x);
      } else {
        assert NameAt(x, p, c) && NameAt(x, m, c);
        NameAsymmetric(x, p);
        NameAsymmetric(x, m);
      }
    }
  }

  /** Subtrees are contiguous in canonical order. */
  lemma SubtreeContiguous(p: Name, a: Name, x: Name, b: Name)
    requires p <= a && p <= b && NameLeq(a, x) && NameLeq(x, b)
    ensures p <= x
  {
    if !(p <= x) {
      SubtreeSameSide(p, x, a);
      SubtreeSameSide(p, x, b);
      NameAsymmetric(p, x);
      assert false;
    }
  }
}
