/** Response rate limiting: smoothed rates per source class in a table of buckets, after rrl.c. */
module Rrl {

  const WORD := 0x1_0000_0000

  /** A class of queries: its source, the hash that picks its bucket, and its flags. */
  datatype Class = Class(source: nat, hash: nat, flags: nat)

  datatype Bucket = Bucket(owner: Class, rate: nat, counter: nat, stamp: int)

  /** A query of a class at a clock second. */
  datatype Event = Event(owner: Class, now: int)

  /** Difference of two 32-bit times in circular arithmetic. */
  function Elapsed(now: int, stamp: int): (d: int)
    ensures -0x8000_0000 <= d < 0x8000_0000
  {
    (now - stamp + 0x8000_0000) % WORD - 0x8000_0000
  }

  /** `x` shifted right by `n` bits. */
  function Shifted(x: nat, n: nat): (r: nat)
    ensures r <= x
  {
    if n == 0 then x else Shifted(x / 2, n - 1)
  }

  // -------------------------------------------------------------------- ageing a bucket

  /** rrl_attenuate_bucket */
  function Attenuated(rate: nat, counter: nat, elapsed: nat): (r: nat)
    requires elapsed >= 1
  {
    if elapsed > 16 then 0 else Shifted(rate, elapsed) + Shifted(counter, elapsed - 1)
  }

  /** One time step: half of the old rate and the queries of the step. */
  function Smoothed(rate: nat, counter: nat): (r: nat)
  {
    rate / 2 + counter
  }

  /** Several time steps, without queries after the first one. */
  function SmoothedTimes(rate: nat, counter: nat, steps: nat): (r: nat)
    requires steps >= 1
  {
    if steps == 1 then Smoothed(rate, counter) else Smoothed(SmoothedTimes(rate, counter, steps - 1), 0)
  }

  lemma {:induction false} ShiftedLast(x: nat, n: nat)
    ensures Shifted(x, n + 1) == Shifted(x, n) / 2
  {
    if n > 0 { ShiftedLast(x / 2, n - 1); }
  }

  lemma {:induction false} SmoothedIs(rate: nat, counter: nat, steps: nat)
    requires steps >= 1
    ensures SmoothedTimes(rate, counter, steps) == Shifted(rate / 2 + counter, steps - 1)
  {
    if steps > 1 {
      SmoothedIs(rate, counter, steps - 1);
      ShiftedLast(rate / 2 + counter, steps - 2);
    }
  }

  /** Shifting a sum, with or without a carry, against the sum of the shifted. */
  lemma {:induction false} ShiftedSum(a: nat, b: nat, carry: nat, n: nat)
    requires carry <= 1
    ensures Shifted(a, n) + Shifted(b, n) <= Shifted(a + b + carry, n) <= Shifted(a, n) + Shifted(b, n) + 1
  {
    if n > 0 {
      var c := (a % 2 + b % 2 + carry) / 2;
      assert (a + b + carry) / 2 == a / 2 + b / 2 + c;
      ShiftedSum(a / 2, b / 2, c, n - 1);
    }
  }

  /** Ageing a bucket at once by 2 to 16 steps is never above, and at most 1 below, ageing it step by step. */
  lemma AttenuatedWithinOne(rate: nat, counter: nat, elapsed: nat)
    requires 2 <= elapsed <= 16
    ensures Attenuated(rate, counter,
                       elapsed) <= SmoothedTimes(rate, counter, elapsed) <= Attenuated(rate, counter, elapsed) + 1
  {
    SmoothedIs(rate, counter, elapsed);
    ShiftedSum(rate / 2, counter, 0, elapsed - 1);
  }

  // -------------------------------------------------------------------- one query

  /** The bucket after a query; all arithmetic is on 32-bit words. */
  function Updated(b: Bucket, e: Event): (b': Bucket)
  {
    if b.owner != e.owner then Bucket(e.owner, 0, 1, e.now)
    else
      var d := Elapsed(e.now, b.stamp);
      if d == 1 then Bucket(b.owner, Smoothed(b.rate, b.counter) % WORD, 1, e.now)
      else if d > 0 then Bucket(b.owner, Attenuated(b.rate, b.counter, d) % WORD, 1, e.now)
      else if e.now != b.stamp then Bucket(b.owner, 0, 1, e.now)
      else b.(counter := (b.counter + 1) % WORD)
  }

  /** The rate that is compared with the limit. */
  function Rate(b: Bucket): (r: nat)
  {
    if b.counter > b.rate / 2 then (b.counter + b.rate / 2) % WORD else b.rate
  }

  const EMPTY := Bucket(Class(0, 0, 0), 0, 0, 0)

  /** The array of buckets; they start out empty. */
  class Limiter {
    const buckets: array<Bucket>

    constructor (size: nat)
      requires size > 0
      ensures fresh(buckets) && buckets.Length == size && forall i :: 0 <= i < size ==> buckets[i] == EMPTY
    {
      buckets := new Bucket[size](i => EMPTY);
    }

    /** rrl_update */
    method Update(e: Event) returns (r: nat)
      requires buckets.Length > 0
      modifies buckets
      ensures var slot := e.owner.hash % buckets.Length;
              buckets[..] == old(buckets[..])[slot := Updated(old(buckets[slot]), e)] && r == Rate(buckets[slot])
    {
      var slot := e.owner.hash % buckets.Length;
      var b := buckets[slot];
      if b.owner != e.owner {
        buckets[slot] := Bucket(e.owner, 0, 1, e.now);
        return 1;
      }
      var d := Elapsed(e.now, b.stamp);
      if d == 1 {
        b := b.(rate := (b.rate / 2 + b.counter) % WORD, counter := 1, stamp := e.now);
      } else if d > 0 {
        b := b.(rate := Attenuated(b.rate, b.counter, d) % WORD, counter := 1, stamp := e.now);
      } else if e.now != b.stamp {
        b := b.(rate := 0, counter := 1, stamp := e.now);
      } else {
        b := b.(counter := (b.counter + 1) % WORD);
      }
      buckets[slot] := b;
      r := if b.counter > b.rate / 2 then (b.counter + b.rate / 2) % WORD else b.rate;
    }
  }

  // -------------------------------------------------------------------- runs

  /** How many queries of the class came in clock second `t`. */
  function Count(events: seq<Event>, c: Class, t: int): (n: nat)
  {
    if events == [] then 0
    else Count(events[..|events| - 1], c, t) + if events[|events| - 1] == Event(c, t) then 1 else 0
  }

  /** The state of the bucket of class `c` after the queries `events`, whoever has it. */
  ghost predicate Calm(b: Bucket, c: Class, events: seq<Event>, m: nat)
  {
    b.owner == c ==> b.rate < 2 * m && b.counter <= Count(events, c, b.stamp)
  }

  /** A rate below 2m and a counter up to m stay below a limit of at least 2m. */
  lemma CalmRate(b: Bucket, m: nat, lm: nat)
    requires 1 <= m && 2 * m <= lm < WORD && b.rate < 2 * m && b.counter <= m
    ensures Rate(b) < lm
  {
  }

  lemma CalmAge(rate: nat, counter: nat, d: nat, m: nat)
    requires 1 <= m && 2 * m < WORD && rate < 2 * m && counter <= m && 1 <= d
    ensures Smoothed(rate, counter) % WORD < 2 * m && Attenuated(rate, counter, d) % WORD < 2 * m
  {
    if d <= 16 { assert Shifted(rate, d) == Shifted(rate / 2, d - 1); }
  }

  /** A query of the class leaves its bucket calm, and is answered. */
  lemma StaysCalm(b: Bucket, events: seq<Event>, e: Event, m: nat, lm: nat)
    requires 1 <= m && 2 * m <= lm < WORD && Calm(b, e.owner, events, m)
             && forall t :: Count(events + [e], e.owner, t) <= m
    ensures Calm(Updated(b, e), e.owner, events + [e], m) && Rate(Updated(b, e)) < lm
  {
    var c, b' := e.owner, Updated(b, e);
    assert (events + [e])[..|events|] == events;
    assert Count(events + [e], c, b.stamp) <= m && Count(events + [e], c, e.now) <= m;
    if b.owner == c {
      var d := Elapsed(e.now, b.stamp);
      if d > 0 { CalmAge(b.rate, b.counter, d, m); }
    }
    CalmRate(b', m, lm);
  }

  /** The run of a limiter: the table before each query and after the last one. */
  ghost predicate IsRun(size: nat, events: seq<Event>, tables: seq<seq<Bucket>>)
  {
    && size > 0 && |tables| == |events| + 1
    && (forall k :: 0 <= k < |tables| ==> |tables[k]| == size)
    && (forall i :: 0 <= i < size ==> tables[0][i] == EMPTY)
    && forall k :: 0 <= k < |events| ==>
         var slot := events[k].owner.hash % size;
         tables[k + 1] == tables[k][slot := Updated(tables[k][slot], events[k])]
  }

  lemma {:induction false} CalmThroughout(size: nat, events: seq<Event>, tables: seq<seq<Bucket>>, c: Class, m: nat,
                                          lm: nat, k: nat)
    requires IsRun(size, events, tables) && 1 <= m && 2 * m <= lm < WORD && (forall t :: Count(events, c, t) <= m)
             && k <= |events|
    ensures Calm(tables[k][c.hash % size], c, events[..k], m)
    ensures k > 0 && events[k - 1].owner == c ==> Rate(tables[k][c.hash % size]) < lm
  {
    if k > 0 {
      CalmThroughout(size, events, tables, c, m, lm, k - 1);
      var e, b := events[k - 1], tables[k - 1][c.hash % size];
      assert events[..k] == events[..k - 1] + [e];
      forall t ensures Count(events[..k], c, t) <= m { CountPrefix(events, c, t, k); }
      if e.owner == c {
        StaysCalm(b, events[..k - 1], e, m, lm);
      } else {
        CountMore(events[..k - 1], e, c, b.stamp);
      }
    }
  }

  lemma CountMore(events: seq<Event>, e: Event, c: Class, t: int)
    ensures Count(events + [e], c, t) >= Count(events, c, t)
  {
    assert (events + [e])[..|events|] == events;
  }

  lemma {:induction false} CountPrefix(events: seq<Event>, c: Class, t: int, k: nat)
    requires k <= |events|
    ensures Count(events[..k], c, t) <= Count(events, c, t)
    decreases |events|
  {
    var n := |events| - 1;
    if k <= n {
      CountPrefix(events[..n], c, t, k);
      assert events[..n][..k] == events[..k];
    } else {
      assert events[..k] == events;
    }
  }

  /** A class with at most lm / 2 queries in each clock second is never limited, whatever the other classes send,
      whichever buckets collide and however the clock jumps. */
  lemma NeverLimited(size: nat, events: seq<Event>, tables: seq<seq<Bucket>>, c: Class, lm: nat, k: nat)
    requires IsRun(size, events, tables) && 2 <= lm < WORD && (forall t :: Count(events, c, t) <= lm / 2)
             && k < |events| && events[k].owner == c
    ensures Rate(tables[k + 1][c.hash % size]) < lm
  {
    CalmThroughout(size, events, tables, c, lm / 2, lm, k + 1);
  }

  // -------------------------------------------------------------------- the bound is sharp

  /** The rate after `j` seconds with `k` queries each. */
  function RateAfter(k: nat, j: nat): (r: nat)
  {
    if j == 0 then 0 else Smoothed(RateAfter(k, j - 1), k)
  }

  lemma {:induction false} RateRises(k: nat, j: nat)
    requires k >= 1
    ensures RateAfter(k, j) <= 2 * k - 1 && (RateAfter(k, j) >= j || RateAfter(k, j) == 2 * k - 1)
  {
    if j > 0 { RateRises(k, j - 1); }
  }

  /** Where the last query of the class is when it sends `k` in each second: the second, counted from 0, and the
      place in that second, counted from 1. */
  datatype Place = Place(second: nat, nth: nat)

  function NextPlace(p: Place, k: nat): (r: Place)
  {
    if p.nth == k then Place(p.second + 1, 1) else Place(p.second, p.nth + 1)
  }

  function PlaceAfter(events: seq<Event>, c: Class, k: nat): (p: Place)
  {
    if events == [] then Place(0, 0)
    else
      var p := PlaceAfter(events[..|events| - 1], c, k);
      if events[|events| - 1].owner == c then NextPlace(p, k) else p
  }

  /** The class sends `k` queries in each second from `t` on, and no other class has its bucket. */
  ghost predicate Steady(size: nat, events: seq<Event>, c: Class, k: nat, t: int)
    requires size > 0
  {
    forall i :: 0 <= i < |events| ==>
      if events[i].owner == c then events[i].now == t + NextPlace(PlaceAfter(events[..i], c, k), k).second
      else events[i].owner.hash % size != c.hash % size
  }

  /** The bucket of the class after its query at a place. */
  ghost predicate SteadyAt(b: Bucket, c: Class, k: nat, t: int, p: Place)
  {
    if p.nth == 0 then b == EMPTY && p.second == 0
    else p.nth <= k && b == Bucket(c, RateAfter(k, p.second), p.nth, t + p.second)
  }

  /** One query more of the class. */
  lemma SteadyUpdate(b: Bucket, c: Class, k: nat, t: int, p: Place)
    requires 1 <= k && 2 * k < WORD && SteadyAt(b, c, k, t, p)
    ensures SteadyAt(Updated(b, Event(c, t + NextPlace(p, k).second)), c, k, t, NextPlace(p, k))
  {
    var now := t + NextPlace(p, k).second;
    if p.nth == 0 {
      StartsEmpty(c, now);
    } else {
      SoonAfter(now, b.stamp);
      if p.nth == k {
        RateRises(k, p.second + 1);
        InWord(RateAfter(k, p.second + 1));
      } else {
        InWord(b.counter + 1);
      }
    }
  }

  lemma InWord(x: nat)
    requires x < WORD
    ensures x % WORD == x
  {
  }

  lemma SoonAfter(now: int, stamp: int)
    requires 0 <= now - stamp <= 1
    ensures Elapsed(now, stamp) == now - stamp
  {
  }

  /** The first query finds an empty bucket. */
  lemma StartsEmpty(c: Class, now: int)
    ensures Updated(EMPTY, Event(c, now)) == Bucket(c, 0, 1, now)
  {
    var d := Elapsed(now, 0);
    if d >= 1 {
      AgedEmpty(d);
    }
  }

  lemma AgedEmpty(d: nat)
    requires d >= 1
    ensures Attenuated(0, 0, d) == 0
  {
  }

  lemma {:induction false} SteadyThroughout(size: nat, events: seq<Event>, tables: seq<seq<Bucket>>, c: Class,
                                            k: nat, t: int, i: nat)
    requires IsRun(size, events, tables) && 1 <= k && 2 * k < WORD && Steady(size, events, c, k, t) && i <= |events|
    ensures SteadyAt(tables[i][c.hash % size], c, k, t, PlaceAfter(events[..i], c, k))
  {
    if i > 0 {
      SteadyThroughout(size, events, tables, c, k, t, i - 1);
      assert events[..i][..i - 1] == events[..i - 1];
      var e, p := events[i - 1], PlaceAfter(events[..i - 1], c, k);
      if e.owner == c {
        assert e == Event(c, t + NextPlace(p, k).second);
        SteadyUpdate(tables[i - 1][c.hash % size], c, k, t, p);
      }
    }
  }

  /** A class that sends a steady `k` queries per second, and has its bucket for itself, has the rate 2k - 1 with
      the last query of every second after the first 2k ones, which is below the limit exactly when `k` is at
      most half the limit. */
  lemma SteadyRate(size: nat, events: seq<Event>, tables: seq<seq<Bucket>>, c: Class, k: nat, t: int, lm: nat, i: nat)
    requires IsRun(size, events, tables) && 1 <= k && 2 * k < WORD && Steady(size, events, c, k, t) && i <= |events|
    requires var p := PlaceAfter(events[..i], c, k); p.second >= 2 * k && p.nth == k
    ensures Rate(tables[i][c.hash % size]) == 2 * k - 1
    ensures Rate(tables[i][c.hash % size]) < lm <==> k <= lm / 2
  {
    SteadyThroughout(size, events, tables, c, k, t, i);
    SteadyTop(tables[i][c.hash % size], c, k, t, PlaceAfter(events[..i], c, k));
  }

  lemma SteadyTop(b: Bucket, c: Class, k: nat, t: int, p: Place)
    requires 1 <= k && 2 * k < WORD && SteadyAt(b, c, k, t, p) && p.second >= 2 * k && p.nth == k
    ensures Rate(b) == 2 * k - 1
  {
    RateRises(k, p.second);
  }
}
