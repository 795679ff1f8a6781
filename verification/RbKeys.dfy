/** Keys under a comparison function, as rbtree_create takes one, and where they stand in its order. */
module RbKeys {
  import opened Dname

  /** The comparison function orders the keys: its sign turns with its arguments, and it is transitive. */
  ghost predicate Comparison<K(!new)>(keys: set<K>, cmp: (K, K) -> int)
  {
    && (forall a, b {:trigger cmp(a, b)} :: a in keys && b in keys ==> (cmp(a, b) < 0 <==> cmp(b, a) > 0))
    && (forall a, b, c {:trigger cmp(a, b), cmp(b, c)} ::
         a in keys && b in keys && c in keys && cmp(a, b) <= 0 && cmp(b, c) <= 0 ==> cmp(a, c) <= 0)
  }

  /** So does the canonical order of names. */
  lemma NamesCompare(all: set<Name>, cmp: (Name, Name) -> int)
    requires forall a, b :: (cmp(a, b) < 0 <==> NameLess(a, b)) && (cmp(a, b) == 0 <==> a == b)
    ensures Comparison(all, cmp)
  {
    forall a, b | a in all && b in all
      ensures cmp(a, b) < 0 <==> cmp(b, a) > 0
    {
      NameTotal(a, b);
      if NameLess(a, b) { NameAsymmetric(a, b); }
      if NameLess(b, a) { NameAsymmetric(b, a); }
    }
    forall a, b, c | a in all && b in all && c in all && cmp(a, b) <= 0 && cmp(b, c) <= 0
      ensures cmp(a, c) <= 0
    {
      if a != b && b != c { NameTransitive(a, b, c); }
    }
  }

  /** The keys before `k`. */
  ghost function Before<K(!new)>(keys: set<K>, cmp: (K, K) -> int, k: K): set<K>
  {
    set m | m in keys && cmp(m, k) < 0
  }

  ghost function Rank<K(!new)>(keys: set<K>, cmp: (K, K) -> int, k: K): nat
  {
    |Before(keys, cmp, k)|
  }

  /** Keys compare as their ranks do. */
  lemma Ranked<K(!new)>(keys: set<K>, cmp: (K, K) -> int, a: K, b: K)
    requires Comparison(keys, cmp) && a in keys && b in keys
    ensures cmp(a, b) < 0 <==> Rank(keys, cmp, a) < Rank(keys, cmp, b)
    ensures cmp(a, b) == 0 <==> Rank(keys, cmp, a) == Rank(keys, cmp, b)
  {
    if cmp(a, b) < 0 {
      RankLess(keys, cmp, a, b);
    } else if cmp(a, b) > 0 {
      RankLess(keys, cmp, b, a);
    } else {
      BeforeMore(keys, cmp, a, b);
      BeforeMore(keys, cmp, b, a);
      assert Before(keys, cmp, a) == Before(keys, cmp, b);
    }
  }

  /** What is before a key is before all keys that are not before it. */
  lemma BeforeMore<K(!new)>(keys: set<K>, cmp: (K, K) -> int, a: K, b: K)
    requires Comparison(keys, cmp) && a in keys && b in keys && cmp(a, b) <= 0
    ensures Before(keys, cmp, a) <= Before(keys, cmp, b)
  {
    forall m | m in Before(keys, cmp, a)
      ensures cmp(m, b) < 0
    {
      assert cmp(m, b) <= 0;
      assert cmp(b, m) <= 0 ==> cmp(a, m) <= 0;
    }
  }

  lemma RankLess<K(!new)>(keys: set<K>, cmp: (K, K) -> int, a: K, b: K)
    requires Comparison(keys, cmp) && a in keys && b in keys && cmp(a, b) < 0
    ensures Rank(keys, cmp, a) < Rank(keys, cmp, b)
  {
    BeforeMore(keys, cmp, a, b);
    assert a in Before(keys, cmp, b) && a !in Before(keys, cmp, a);
    SubsetSize(Before(keys, cmp, a), Before(keys, cmp, b) - {a});
  }

  lemma {:induction false} SubsetSize<K>(s: set<K>, t: set<K>)
    requires s <= t
    ensures |s| <= |t|
  {
    if s != {} {
      var x :| x in s;
      SubsetSize(s - {x}, t - {x});
    }
  }
}
