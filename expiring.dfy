/**
 * `getExpiringChecks` (src/firebase/firestore.ts): two queries over the
 * `checks` collection, all shared checks and the shared checks expiring
 * within a week, and a pass over the second result that pushes every check
 * into the hour, day or week list. Times are milliseconds since the epoch;
 * `now` is the one clock reading the function takes.
 */
module Expiring {
  import opened Wrappers
  import opened Records

  const HourMs: int := 60 * 60 * 1000
  const DayMs: int := 24 * 60 * 60 * 1000
  const WeekMs: int := 7 * 24 * 60 * 60 * 1000

  // ---------------------------------------------------------------------
  // The two queries
  // ---------------------------------------------------------------------

  /** A test a record is filtered by: one of the queries' `where` clauses, or the loop's bucket test. */
  datatype Criterion =
    | SharedTrue
    | WithinWeekOf(now: int)
    | HasExpire
    | ExpiresIn(now: int, bucket: Bucket)

  predicate Meets(r: SpellCheck, c: Criterion)
  {
    match c
    case SharedTrue => IsShared(r)
    case WithinWeekOf(now) => InHorizon(r, now)
    case HasExpire => r.expire.Some?
    case ExpiresIn(now, b) => InBucket(r, now, b)
  }

  /** The records of `xs` that meet `c`, in their order. */
  function Filter(xs: seq<SpellCheck>, c: Criterion): seq<SpellCheck>
  {
    if xs == [] then []
    else Filter(xs[..|xs| - 1], c) + (if Meets(xs[|xs| - 1], c) then [xs[|xs| - 1]] else [])
  }

  /** `where("shared", "==", true)` */
  predicate IsShared(r: SpellCheck)
  {
    r.shared == Some(true)
  }

  /** `where("shared", "==", true)`, `where("expire", ">=", now)`, `where("expire", "<=", weekFromNow)` */
  predicate InHorizon(r: SpellCheck, now: int)
  {
    IsShared(r) && r.expire.Some? && now <= r.expire.value <= now + WeekMs
  }

  /** The snapshot of the shared-checks query over the collection `store`. */
  function SharedQuery(store: seq<SpellCheck>): seq<SpellCheck>
  {
    Filter(store, SharedTrue)
  }

  /** The snapshot of the expiring-checks query over the same collection. */
  function ExpiringQuery(store: seq<SpellCheck>, now: int): seq<SpellCheck>
  {
    Filter(store, WithinWeekOf(now))
  }

  lemma {:induction false} FilterMembers(xs: seq<SpellCheck>, c: Criterion, x: SpellCheck)
    ensures x in Filter(xs, c) <==> x in xs && Meets(x, c)
  {
    if xs != [] {
      var init := xs[..|xs| - 1];
      FilterMembers(init, c, x);
      assert xs == init + [xs[|xs| - 1]];
    }
  }

  /** Whatever `narrow` keeps, `wide` keeps too, so `narrow` keeps no more records. */
  lemma {:induction false} FilterNarrower(xs: seq<SpellCheck>, narrow: Criterion, wide: Criterion)
    requires forall i :: 0 <= i < |xs| ==> Meets(xs[i], narrow) ==> Meets(xs[i], wide)
    ensures |Filter(xs, narrow)| <= |Filter(xs, wide)|
  {
    if xs != [] {
      FilterNarrower(xs[..|xs| - 1], narrow, wide);
    }
  }

  // ---------------------------------------------------------------------
  // Buckets
  // ---------------------------------------------------------------------

  datatype Bucket = InHour | InDay | InWeek

  /** The `if`/`else if`/`else` of the loop: inclusive upper bounds at one hour and one day from now. */
  function BucketOf(expire: int, now: int): (b: Bucket)
    ensures b == InHour <==> expire <= now + HourMs
    ensures b == InDay <==> now + HourMs < expire <= now + DayMs
    ensures b == InWeek <==> now + DayMs < expire
  {
    if expire <= now + HourMs then InHour
    else if expire <= now + DayMs then InDay
    else InWeek
  }

  function Rank(b: Bucket): nat
  {
    match b
    case InHour => 0
    case InDay => 1
    case InWeek => 2
  }

  /** A later expiry never lands in an earlier bucket. */
  lemma BucketMonotone(e1: int, e2: int, now: int)
    requires e1 <= e2
    ensures Rank(BucketOf(e1, now)) <= Rank(BucketOf(e2, now))
  {
  }

  /** Exactly one hour from now is still the hour bucket; a second later is the day bucket. */
  lemma BucketBoundaries(now: int)
    ensures BucketOf(now + HourMs, now) == InHour
    ensures BucketOf(now + HourMs + 1000, now) == InDay
    ensures BucketOf(now + DayMs, now) == InDay
    ensures BucketOf(now + DayMs + 1000, now) == InWeek
  {
  }

  /** A check with no `expire` is skipped (`if (!expireDate) return`). */
  predicate InBucket(r: SpellCheck, now: int, b: Bucket)
  {
    r.expire.Some? && BucketOf(r.expire.value, now) == b
  }

  /** The list the loop builds for bucket `b`: the fetched checks that go there, in fetch order. */
  function Select(docs: seq<SpellCheck>, now: int, b: Bucket): seq<SpellCheck>
  {
    Filter(docs, ExpiresIn(now, b))
  }

  /** The checks that have an `expire` at all. */
  function Dated(docs: seq<SpellCheck>): seq<SpellCheck>
  {
    Filter(docs, HasExpire)
  }

  // ---------------------------------------------------------------------
  // The loop
  // ---------------------------------------------------------------------

  /** `expiringSnapshot.docs.forEach(...)`: three lists, each appended to in fetch order. */
  method BucketChecks(docs: seq<SpellCheck>, now: int) returns (hour: seq<SpellCheck>, day: seq<SpellCheck>, week: seq<SpellCheck>)
    ensures hour == Select(docs, now, InHour)
    ensures day == Select(docs, now, InDay)
    ensures week == Select(docs, now, InWeek)
  {
    hour, day, week := [], [], [];
    var i := 0;
    while i < |docs|
      invariant 0 <= i <= |docs|
      invariant hour == Select(docs[..i], now, InHour)
      invariant day == Select(docs[..i], now, InDay)
      invariant week == Select(docs[..i], now, InWeek)
    {
      var d := docs[i];
      assert docs[..i + 1][..i] == docs[..i];
      if d.expire.Some? {
        var expireDate := d.expire.value;
        if expireDate <= now + HourMs {
          hour := hour + [d];
        } else if expireDate <= now + DayMs {
          day := day + [d];
        } else {
          week := week + [d];
        }
      }
      i := i + 1;
    }
    assert docs[..i] == docs;
  }

  datatype ExpiringChecks = ExpiringChecks(
    expiringInHour: seq<SpellCheck>,
    expiringInDay: seq<SpellCheck>,
    expiringInWeek: seq<SpellCheck>,
    totalShared: nat)

  /**
   * `getExpiringChecks()` over the collection `store` at clock reading `now`:
   * both queries see the same collection, the buckets come from the
   * expiring query and `totalShared` is the size of the shared query.
   */
  method GetExpiringChecks(store: seq<SpellCheck>, now: int) returns (r: ExpiringChecks)
    ensures r.totalShared == |SharedQuery(store)|
    ensures r.expiringInHour == Select(ExpiringQuery(store, now), now, InHour)
    ensures r.expiringInDay == Select(ExpiringQuery(store, now), now, InDay)
    ensures r.expiringInWeek == Select(ExpiringQuery(store, now), now, InWeek)
    ensures forall x :: x in r.expiringInHour ==>
              x in store && IsShared(x) && x.expire.Some? && now <= x.expire.value <= now + HourMs
    ensures forall x :: x in r.expiringInDay ==>
              x in store && IsShared(x) && x.expire.Some? && now + HourMs < x.expire.value <= now + DayMs
    ensures forall x :: x in r.expiringInWeek ==>
              x in store && IsShared(x) && x.expire.Some? && now + DayMs < x.expire.value <= now + WeekMs
    ensures |r.expiringInHour| + |r.expiringInDay| + |r.expiringInWeek| == |ExpiringQuery(store, now)|
    ensures |r.expiringInHour| + |r.expiringInDay| + |r.expiringInWeek| <= r.totalShared
  {
    var shared := SharedQuery(store);
    var expiring := ExpiringQuery(store, now);
    var hour, day, week := BucketChecks(expiring, now);
    r := ExpiringChecks(hour, day, week, |shared|);
    BucketsWithinQuery(store, now);
    ExpiringAllDated(store, now);
    BucketsPartition(expiring, now);
    BucketsBelowShared(store, now);
  }

  // ---------------------------------------------------------------------
  // What the buckets are
  // ---------------------------------------------------------------------

  lemma SelectMembers(docs: seq<SpellCheck>, now: int, b: Bucket, x: SpellCheck)
    ensures x in Select(docs, now, b) <==> x in docs && InBucket(x, now, b)
  {
    FilterMembers(docs, ExpiresIn(now, b), x);
  }

  /** A fetched check with an `expire` lands in its own bucket and in neither other one; one without lands in none. */
  lemma ExactlyOneBucket(docs: seq<SpellCheck>, now: int, x: SpellCheck)
    requires x in docs
    ensures x.expire.Some? ==>
      && x in Select(docs, now, BucketOf(x.expire.value, now))
      && forall b :: b != BucketOf(x.expire.value, now) ==> x !in Select(docs, now, b)
    ensures x.expire.None? ==> forall b :: x !in Select(docs, now, b)
  {
    forall b {
      SelectMembers(docs, now, b, x);
    }
  }

  /** The buckets are pairwise disjoint. */
  lemma BucketsDisjoint(docs: seq<SpellCheck>, now: int, x: SpellCheck)
    ensures !(x in Select(docs, now, InHour) && x in Select(docs, now, InDay))
    ensures !(x in Select(docs, now, InHour) && x in Select(docs, now, InWeek))
    ensures !(x in Select(docs, now, InDay) && x in Select(docs, now, InWeek))
  {
    SelectMembers(docs, now, InHour, x);
    SelectMembers(docs, now, InDay, x);
    SelectMembers(docs, now, InWeek, x);
  }

  /** Together the buckets hold every dated check exactly as often as the fetch does. */
  lemma BucketsPartition(docs: seq<SpellCheck>, now: int)
    ensures multiset(Select(docs, now, InHour)) + multiset(Select(docs, now, InDay)) + multiset(Select(docs, now, InWeek))
         == multiset(Dated(docs))
    ensures |Select(docs, now, InHour)| + |Select(docs, now, InDay)| + |Select(docs, now, InWeek)| == |Dated(docs)|
  {
    BucketsCover(docs, now);
    var h, d, w := Select(docs, now, InHour), Select(docs, now, InDay), Select(docs, now, InWeek);
    assert |multiset(h) + multiset(d) + multiset(w)| == |multiset(h)| + |multiset(d)| + |multiset(w)|;
  }

  lemma {:induction false} BucketsCover(docs: seq<SpellCheck>, now: int)
    ensures multiset(Select(docs, now, InHour)) + multiset(Select(docs, now, InDay)) + multiset(Select(docs, now, InWeek))
         == multiset(Dated(docs))
  {
    if docs != [] {
      var init, last := docs[..|docs| - 1], docs[|docs| - 1];
      BucketsCover(init, now);
      SelectSnoc(docs, now, InHour);
      SelectSnoc(docs, now, InDay);
      SelectSnoc(docs, now, InWeek);
      assert Dated(docs) == Dated(init) + (if last.expire.Some? then [last] else []);
      CoverStep(Select(init, now, InHour), Select(init, now, InDay), Select(init, now, InWeek), Dated(init), last,
                InBucket(last, now, InHour), InBucket(last, now, InDay), InBucket(last, now, InWeek), last.expire.Some?);
    }
  }

  /** Adding one record to at most one of three pieces, and to their union when it is added at all, keeps the pieces a cover. */
  lemma CoverStep(h: seq<SpellCheck>, d: seq<SpellCheck>, w: seq<SpellCheck>, dt: seq<SpellCheck>, x: SpellCheck,
                  inH: bool, inD: bool, inW: bool, dated: bool)
    requires multiset(h) + multiset(d) + multiset(w) == multiset(dt)
    requires dated ==> (inH && !inD && !inW) || (!inH && inD && !inW) || (!inH && !inD && inW)
    requires !dated ==> !inH && !inD && !inW
    ensures multiset(h + (if inH then [x] else [])) + multiset(d + (if inD then [x] else []))
          + multiset(w + (if inW then [x] else [])) == multiset(dt + (if dated then [x] else []))
  {
  }

  /** Every check of the expiring query has an `expire`, so none is skipped. */
  lemma ExpiringAllDated(store: seq<SpellCheck>, now: int)
    ensures Dated(ExpiringQuery(store, now)) == ExpiringQuery(store, now)
  {
    AllKept(store, WithinWeekOf(now), HasExpire);
  }

  /** Filtering again by a weaker test keeps everything. */
  lemma {:induction false} AllKept(xs: seq<SpellCheck>, first: Criterion, c: Criterion)
    requires forall x :: Meets(x, first) ==> Meets(x, c)
    ensures Filter(Filter(xs, first), c) == Filter(xs, first)
  {
    if xs != [] {
      var init, last := xs[..|xs| - 1], xs[|xs| - 1];
      AllKept(init, first, c);
      var ys := Filter(init, first);
      if Meets(last, first) {
        assert (ys + [last])[..|ys|] == ys;
        assert Filter(xs, first) == ys + [last];
      } else {
        assert Filter(xs, first) == ys;
      }
    }
  }

  /** Every bucketed check is shared and expires within its window. */
  lemma BucketsWithinQuery(store: seq<SpellCheck>, now: int)
    ensures forall x :: x in Select(ExpiringQuery(store, now), now, InHour) ==>
              x in store && IsShared(x) && x.expire.Some? && now <= x.expire.value <= now + HourMs
    ensures forall x :: x in Select(ExpiringQuery(store, now), now, InDay) ==>
              x in store && IsShared(x) && x.expire.Some? && now + HourMs < x.expire.value <= now + DayMs
    ensures forall x :: x in Select(ExpiringQuery(store, now), now, InWeek) ==>
              x in store && IsShared(x) && x.expire.Some? && now + DayMs < x.expire.value <= now + WeekMs
  {
    var expiring := ExpiringQuery(store, now);
    forall x | x in Select(expiring, now, InHour)
      ensures x in store && IsShared(x) && x.expire.Some? && now <= x.expire.value <= now + HourMs
    {
      BucketedInHorizon(store, now, InHour, x);
    }
    forall x | x in Select(expiring, now, InDay)
      ensures x in store && IsShared(x) && x.expire.Some? && now + HourMs < x.expire.value <= now + DayMs
    {
      BucketedInHorizon(store, now, InDay, x);
    }
    forall x | x in Select(expiring, now, InWeek)
      ensures x in store && IsShared(x) && x.expire.Some? && now + DayMs < x.expire.value <= now + WeekMs
    {
      BucketedInHorizon(store, now, InWeek, x);
    }
  }

  lemma BucketedInHorizon(store: seq<SpellCheck>, now: int, b: Bucket, x: SpellCheck)
    requires x in Select(ExpiringQuery(store, now), now, b)
    ensures x in store && InHorizon(x, now) && InBucket(x, now, b)
  {
    SelectMembers(ExpiringQuery(store, now), now, b, x);
    FilterMembers(store, WithinWeekOf(now), x);
  }

  /** A shared check that has already expired, or expires after a week, or has no `expire`, is in no bucket. */
  lemma OutsideHorizonInNoBucket(store: seq<SpellCheck>, now: int, x: SpellCheck, b: Bucket)
    requires x.expire.None? || x.expire.value < now || x.expire.value > now + WeekMs
    ensures x !in Select(ExpiringQuery(store, now), now, b)
  {
    SelectMembers(ExpiringQuery(store, now), now, b, x);
    FilterMembers(store, WithinWeekOf(now), x);
  }

  /** The three buckets together never hold more checks than `totalShared` counts. */
  lemma BucketsBelowShared(store: seq<SpellCheck>, now: int)
    ensures |Select(ExpiringQuery(store, now), now, InHour)| + |Select(ExpiringQuery(store, now), now, InDay)|
          + |Select(ExpiringQuery(store, now), now, InWeek)| <= |SharedQuery(store)|
  {
    BucketsPartition(ExpiringQuery(store, now), now);
    ExpiringAllDated(store, now);
    FilterNarrower(store, WithinWeekOf(now), SharedTrue);
  }

  // ---------------------------------------------------------------------
  // Order
  // ---------------------------------------------------------------------

  /** `xs` can be read off `ys` left to right, skipping some elements. */
  predicate IsSubsequence(xs: seq<SpellCheck>, ys: seq<SpellCheck>)
    decreases |ys|
  {
    if xs == [] then true
    else if ys == [] then false
    else if xs[|xs| - 1] == ys[|ys| - 1] then IsSubsequence(xs[..|xs| - 1], ys[..|ys| - 1])
    else IsSubsequence(xs, ys[..|ys| - 1])
  }

  lemma {:induction false} FilterIsSubsequence(xs: seq<SpellCheck>, c: Criterion)
    ensures IsSubsequence(Filter(xs, c), xs)
  {
    if xs != [] {
      var init, last := xs[..|xs| - 1], xs[|xs| - 1];
      FilterIsSubsequence(init, c);
      var f := Filter(init, c);
      if Meets(last, c) {
        assert Filter(xs, c) == f + [last];
        assert (f + [last])[..|f|] == f;
      } else {
        assert Filter(xs, c) == f;
        if f != [] {
          FilterMembers(init, c, f[|f| - 1]);
          assert f[|f| - 1] in f;
          assert f[|f| - 1] != last;
        }
      }
    }
  }

  /** Each bucket keeps the relative order of the fetched snapshot. */
  lemma BucketKeepsOrder(docs: seq<SpellCheck>, now: int, b: Bucket)
    ensures IsSubsequence(Select(docs, now, b), docs)
  {
    FilterIsSubsequence(docs, ExpiresIn(now, b));
  }

  /** Every check is dated and the expiries never decrease along the fetch. */
  predicate SortedByExpire(docs: seq<SpellCheck>)
  {
    && (forall i :: 0 <= i < |docs| ==> docs[i].expire.Some?)
    && (forall i, j :: 0 <= i < j < |docs| ==> docs[i].expire.value <= docs[j].expire.value)
  }

  lemma {:induction false} SelectNone(docs: seq<SpellCheck>, now: int, b: Bucket)
    requires forall i :: 0 <= i < |docs| ==> !InBucket(docs[i], now, b)
    ensures Select(docs, now, b) == []
  {
    if docs != [] {
      SelectNone(docs[..|docs| - 1], now, b);
    }
  }

  /** In a sorted fetch, nothing before the last check lands in a later bucket than the last check. */
  lemma SortedEarlierBuckets(docs: seq<SpellCheck>, now: int)
    requires docs != [] && SortedByExpire(docs)
    ensures var init, b := docs[..|docs| - 1], BucketOf(docs[|docs| - 1].expire.value, now);
      && (b != InWeek ==> Select(init, now, InWeek) == [])
      && (b == InHour ==> Select(init, now, InDay) == [])
  {
    var init, last := docs[..|docs| - 1], docs[|docs| - 1];
    var b := BucketOf(last.expire.value, now);
    forall i | 0 <= i < |init|
      ensures init[i].expire.Some? && init[i].expire.value <= last.expire.value
    {
      assert init[i] == docs[i];
    }
    if b != InWeek {
      SelectNone(init, now, InWeek);
    }
    if b == InHour {
      SelectNone(init, now, InDay);
    }
  }

  lemma SortedInit(docs: seq<SpellCheck>)
    requires docs != [] && SortedByExpire(docs)
    ensures SortedByExpire(docs[..|docs| - 1])
  {
  }

  /** Selecting from a fetch one check longer: the last check joins its own bucket only. */
  lemma SelectSnoc(docs: seq<SpellCheck>, now: int, b: Bucket)
    requires docs != []
    ensures Select(docs, now, b) ==
              Select(docs[..|docs| - 1], now, b) + (if InBucket(docs[|docs| - 1], now, b) then [docs[|docs| - 1]] else [])
  {
  }

  /** A fetch sorted by expiry is cut into three consecutive pieces: hour, then day, then week. */
  lemma {:induction false} SortedBucketsConcat(docs: seq<SpellCheck>, now: int)
    requires SortedByExpire(docs)
    ensures Select(docs, now, InHour) + Select(docs, now, InDay) + Select(docs, now, InWeek) == docs
  {
    if docs != [] {
      var init, last := docs[..|docs| - 1], docs[|docs| - 1];
      SortedInit(docs);
      SortedBucketsConcat(init, now);
      SortedEarlierBuckets(docs, now);
      SelectSnoc(docs, now, InHour);
      SelectSnoc(docs, now, InDay);
      SelectSnoc(docs, now, InWeek);
      var h, d, w := Select(init, now, InHour), Select(init, now, InDay), Select(init, now, InWeek);
      assert docs == h + d + w + [last];
      match BucketOf(last.expire.value, now)
      case InHour =>
        assert InBucket(last, now, InHour) && !InBucket(last, now, InDay) && !InBucket(last, now, InWeek);
        assert d == [] && w == [];
        assert h + [last] + d + w == h + d + w + [last];
      case InDay =>
        assert !InBucket(last, now, InHour) && InBucket(last, now, InDay) && !InBucket(last, now, InWeek);
        assert w == [];
        assert h + (d + [last]) + w == h + d + w + [last];
      case InWeek =>
        assert !InBucket(last, now, InHour) && !InBucket(last, now, InDay) && InBucket(last, now, InWeek);
        assert h + d + (w + [last]) == h + d + w + [last];
    }
  }

  // ---------------------------------------------------------------------
  // A concrete day
  // ---------------------------------------------------------------------

  /**
   * Five shared checks: expiring in 30 minutes, in 5 hours and in 3 days,
   * and two with no expiry. Each bucket holds one check and all five count
   * as shared.
   */
  lemma ThreeExpiringTwoOpen(now: int, r1: SpellCheck, r2: SpellCheck, r3: SpellCheck, r4: SpellCheck, r5: SpellCheck)
    requires IsShared(r1) && IsShared(r2) && IsShared(r3) && IsShared(r4) && IsShared(r5)
    requires r1.expire == Some(now + 30 * 60 * 1000)
    requires r2.expire == Some(now + 5 * HourMs)
    requires r3.expire == Some(now + 3 * DayMs)
    requires r4.expire.None? && r5.expire.None?
    ensures var store := [r1, r2, r3, r4, r5];
      && Select(ExpiringQuery(store, now), now, InHour) == [r1]
      && Select(ExpiringQuery(store, now), now, InDay) == [r2]
      && Select(ExpiringQuery(store, now), now, InWeek) == [r3]
      && |SharedQuery(store)| == 5
  {
    var store := [r1, r2, r3, r4, r5];
    FilterFive(store, WithinWeekOf(now));
    assert ExpiringQuery(store, now) == [r1, r2, r3];
    FilterFive(store, SharedTrue);
    var e := [r1, r2, r3];
    FilterThree(e, ExpiresIn(now, InHour));
    FilterThree(e, ExpiresIn(now, InDay));
    FilterThree(e, ExpiresIn(now, InWeek));
  }

  /** Filtering a record at a time, written out for three and for five records. */
  lemma FilterThree(xs: seq<SpellCheck>, c: Criterion)
    requires |xs| == 3
    ensures Filter(xs, c) == (if Meets(xs[0], c) then [xs[0]] else [])
                           + (if Meets(xs[1], c) then [xs[1]] else [])
                           + (if Meets(xs[2], c) then [xs[2]] else [])
  {
    var one, two := xs[..1], xs[..2];
    assert one[..0] == [] && two[..1] == one && xs[..2] == two;
    assert Filter(one, c) == (if Meets(xs[0], c) then [xs[0]] else []);
    assert Filter(two, c) == Filter(one, c) + (if Meets(xs[1], c) then [xs[1]] else []);
  }

  lemma FilterFive(xs: seq<SpellCheck>, c: Criterion)
    requires |xs| == 5
    ensures Filter(xs, c) == Filter(xs[..3], c)
                           + (if Meets(xs[3], c) then [xs[3]] else [])
                           + (if Meets(xs[4], c) then [xs[4]] else [])
    ensures Filter(xs[..3], c) == (if Meets(xs[0], c) then [xs[0]] else [])
                           + (if Meets(xs[1], c) then [xs[1]] else [])
                           + (if Meets(xs[2], c) then [xs[2]] else [])
  {
    assert xs[..4][..3] == xs[..3];
    FilterThree(xs[..3], c);
  }
}
