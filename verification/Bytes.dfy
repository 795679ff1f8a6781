/** Byte strings and the order that memcmp induces on them: a byte string sorts
    before every proper extension of itself, otherwise the first differing byte decides. */
module Bytes {

  type byte = x: int | 0 <= x < 256

  datatype Option<+T> = None | Some(value: T)

  /** One label of a domain name. */
  type Label = seq<byte>

  const UPPER_A: byte := 65
  const UPPER_Z: byte := 90

  /** ASCII lower case */
  function Lower(c: byte): (r: byte)
  {
    if UPPER_A <= c <= UPPER_Z then c + 32 else c
  }

  /** `a` sorts before `b`, and position `i` is where this is decided. */
  predicate LexAt(a: seq<byte>, b: seq<byte>, i: int)
  {
    && 0 <= i <= |a| && i < |b|
    && a[..i] == b[..i]
    && (i == |a| || a[i] < b[i])
  }

  ghost predicate LexLess(a: seq<byte>, b: seq<byte>)
  {
    exists i :: LexAt(a, b, i)
  }

  ghost predicate LexLeq(a: seq<byte>, b: seq<byte>)
  {
    a == b || LexLess(a, b)
  }

  /** Length of the longest common prefix (bstr_common). */
  function Common(a: seq<byte>, b: seq<byte>): (c: nat)
    ensures c <= |a| && c <= |b|
    ensures a[..c] == b[..c]
    ensures c < |a| && c < |b| ==> a[c] != b[c]
  {
    if a == [] || b == [] || a[0] != b[0] then 0
    else
      var c := Common(a[1..], b[1..]);
      assert a[..c + 1] == [a[0]] + a[1..][..c];
      assert b[..c + 1] == [b[0]] + b[1..][..c];
      c + 1
  }

  /** The sign of memcmp, extended to strings of different lengths. */
  function Compare(a: seq<byte>, b: seq<byte>): (r: int)
  {
    var c := Common(a, b);
    if c < |a| && c < |b| then a[c] - b[c] else |a| - |b|
  }

  lemma CompareIsLex(a: seq<byte>, b: seq<byte>)
    ensures Compare(a, b) < 0 <==> LexLess(a, b)
    ensures Compare(a, b) == 0 <==> a == b
    ensures Compare(a, b) > 0 <==> LexLess(b, a)
  {
    var c := Common(a, b);
    if Compare(a, b) < 0 {
      assert LexAt(a, b, c);
      LexAsymmetric(a, b);
    } else if Compare(a, b) > 0 {
      assert LexAt(b, a, c);
      LexAsymmetric(b, a);
    } else {
      assert a[..c] == a && b[..c] == b;
      if LexLess(a, b) { LexAsymmetric(a, b); }
      if LexLess(b, a) { LexAsymmetric(b, a); }
    }
  }

  lemma LexAsymmetric(a: seq<byte>, b: seq<byte>)
    requires LexLess(a, b)
    ensures !LexLess(b, a) && a != b
  {
    var i :| LexAt(a, b, i);
    forall j | LexAt(b, a, j)
      ensures false
    {
    }
  }

  lemma LexTransitive(a: seq<byte>, b: seq<byte>, c: seq<byte>)
    requires LexLess(a, b) && LexLess(b, c)
    ensures LexLess(a, c)
  {
    var i :| LexAt(a, b, i);
    var j :| LexAt(b, c, j);
    var m := if i < j then i else j;
    assert a[..m] == b[..m] by { assert a[..m] == a[..i][..m]; assert b[..m] == b[..i][..m]; }
    assert b[..m] == c[..m] by { assert b[..m] == b[..j][..m]; assert c[..m] == c[..j][..m]; }
    if i < j { assert b[..j][i] == c[..j][i]; }
    if j < i { assert a[..i][j] == b[..i][j]; }
    assert LexAt(a, c, m);
  }

  lemma LexTotal(a: seq<byte>, b: seq<byte>)
    ensures a == b || LexLess(a, b) || LexLess(b, a)
  {
    CompareIsLex(a, b);
  }

  lemma PrefixLess(a: seq<byte>, b: seq<byte>)
    requires a < b
    ensures LexLess(a, b)
  {
    assert LexAt(a, b, |a|);
  }

  /** Strings that agree up to `i` are ordered by byte `i`. */
  lemma BranchLess(a: seq<byte>, b: seq<byte>, i: int)
    requires 0 <= i < |a| && i < |b| && a[..i] == b[..i] && a[i] < b[i]
    ensures LexLess(a, b)
  {
    assert LexAt(a, b, i);
  }

  /** If `a` differs from `k` before `a` ends, every extension of `a` is on the same side of `k` as `a`. */
  lemma ExtensionsSameSide(a: seq<byte>, k: seq<byte>, m: seq<byte>)
    requires a <= m && !(a <= k)
    ensures LexLess(a, k) <==> LexLess(m, k)
    ensures LexLess(k, a) <==> LexLess(k, m)
    ensures m != k
  {
    var c := Common(a, k);
    assert m[..c] == a[..c] && m[c] == a[c];
    CompareIsLex(a, k);
    CompareIsLex(m, k);
    if c < |k| {
      if a[c] < k[c] { assert LexAt(m, k, c); assert LexAt(a, k, c); }
      else { assert LexAt(k, m, c); assert LexAt(k, a, c); }
    } else {
      assert k[..c] == k;
      assert LexAt(k, a, c);
      assert LexAt(k, m, c);
    }
    CompareIsLex(m, k);
  }

  /** A common prefix does not matter for the order. */
  lemma CommonPrefixOrder(p: seq<byte>, a: seq<byte>, b: seq<byte>)
    ensures LexLess(p + a, p + b) <==> LexLess(a, b)
  {
    var x, y := p + a, p + b;
    if LexLess(a, b) {
      var i :| LexAt(a, b, i);
      assert x[..|p| + i] == p + a[..i] && y[..|p| + i] == p + b[..i];
      assert LexAt(x, y, |p| + i);
    }
    if LexLess(x, y) {
      var i :| LexAt(x, y, i);
      assert i >= |p|;
      assert a[..i - |p|] == x[|p|..i] == x[..i][|p|..] && b[..i - |p|] == y[|p|..i] == y[..i][|p|..];
      assert LexAt(a, b, i - |p|);
    }
  }
}
