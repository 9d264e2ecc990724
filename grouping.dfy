/**
 * `_get_contributions_by_date`: drops deleted contributions, buckets the ones
 * with a start instant by the calendar date of that instant, orders every
 * bucket by start instant and the buckets by date, and keeps the ones without
 * a start instant apart, in input order.
 */
module Grouping {
  import opened Seqs
  import opened Records
  import opened Sorting

  predicate IsTimed(c: Contribution) { !c.isDeleted && c.start.Some? }

  predicate IsUntimed(c: Contribution) { !c.isDeleted && c.start.None? }

  predicate StartsOn(c: Contribution, d: Date) { c.start.Some? && c.start.value.date == d }

  /** `[c for c in contributions if not c.is_deleted and c.start_dt]` */
  function Timed(cs: seq<Contribution>): (r: seq<Contribution>)
    ensures forall c :: c in r ==> IsTimed(c)
  {
    if cs == [] then []
    else (if IsTimed(cs[0]) then [cs[0]] else []) + Timed(cs[1..])
  }

  /** `[c for c in contributions if not c.is_deleted and not c.start_dt]` */
  function Untimed(cs: seq<Contribution>): (r: seq<Contribution>)
    ensures forall c :: c in r ==> IsUntimed(c)
  {
    if cs == [] then []
    else (if IsUntimed(cs[0]) then [cs[0]] else []) + Untimed(cs[1..])
  }

  /** The contributions of `ts` that start on `d`, in order. */
  function OnDate(ts: seq<Contribution>, d: Date): seq<Contribution> {
    if ts == [] then []
    else OnDate(ts[..|ts| - 1], d) + (if StartsOn(ts[|ts| - 1], d) then [ts[|ts| - 1]] else [])
  }

  /** The start dates of `ts`, each once, in order of first appearance. */
  function FirstDates(ts: seq<Contribution>): seq<Date> {
    if ts == [] then []
    else
      var r := FirstDates(ts[..|ts| - 1]);
      var last := ts[|ts| - 1];
      if last.start.Some? && last.start.value.date !in r then r + [last.start.value.date] else r
  }

  ghost predicate Distinct<T>(s: seq<T>) {
    forall i, j :: 0 <= i < j < |s| ==> s[i] != s[j]
  }

  /**
   * The dictionary `_get_contributions_by_date` returns: its keys in
   * iteration order, and the list stored under each key.
   */
  datatype DateGroups = DateGroups(order: seq<Date>, buckets: map<Date, seq<Contribution>>) {
    ghost predicate Valid() {
      Distinct(order) && forall d :: d in buckets <==> d in order
    }
  }

  /** The date order of the returned dictionary. */
  function GroupOrder(cs: seq<Contribution>): seq<Date> {
    SortBy(FirstDates(Timed(cs)), DateLe)
  }

  /** The bucket for date `d`. */
  function Bucket(cs: seq<Contribution>, d: Date): seq<Contribution> {
    SortBy(OnDate(Timed(cs), d), StartLe)
  }

  function Buckets(cs: seq<Contribution>): map<Date, seq<Contribution>> {
    map d | d in FirstDates(Timed(cs)) :: Bucket(cs, d)
  }

  lemma {:induction false} TimedCount(cs: seq<Contribution>, c: Contribution)
    ensures multiset(Timed(cs))[c] == if IsTimed(c) then multiset(cs)[c] else 0
  {
    if cs != [] {
      TimedCount(cs[1..], c);
      assert cs == [cs[0]] + cs[1..];
    }
  }

  lemma {:induction false} UntimedCount(cs: seq<Contribution>, c: Contribution)
    ensures multiset(Untimed(cs))[c] == if IsUntimed(c) then multiset(cs)[c] else 0
  {
    if cs != [] {
      UntimedCount(cs[1..], c);
      assert cs == [cs[0]] + cs[1..];
    }
  }

  /** Filtering the concatenation is concatenating the filtered parts: input order is kept. */
  lemma {:induction false} UntimedKeepsOrder(a: seq<Contribution>, b: seq<Contribution>)
    ensures Untimed(a + b) == Untimed(a) + Untimed(b)
  {
    if a == [] {
      assert a + b == b;
    } else {
      var head := if IsUntimed(a[0]) then [a[0]] else [];
      UntimedKeepsOrder(a[1..], b);
      assert (a + b)[0] == a[0];
      assert (a + b)[1..] == a[1..] + b;
      assert Untimed(a + b) == head + Untimed(a[1..] + b);
      AppendAssociates(head, Untimed(a[1..]), Untimed(b));
    }
  }

  lemma {:induction false} OnDateCount(ts: seq<Contribution>, d: Date, c: Contribution)
    ensures multiset(OnDate(ts, d))[c] == if StartsOn(c, d) then multiset(ts)[c] else 0
  {
    if ts != [] {
      var init := ts[..|ts| - 1];
      OnDateCount(init, d, c);
      assert ts == init + [ts[|ts| - 1]];
    }
  }

  lemma {:induction false} OnDateEmpty(ts: seq<Contribution>, d: Date)
    requires d !in FirstDates(ts)
    ensures OnDate(ts, d) == []
  {
    if ts != [] {
      var init := ts[..|ts| - 1];
      OnDateEmpty(init, d);
    }
  }

  lemma {:induction false} FirstDatesFacts(ts: seq<Contribution>)
    ensures Distinct(FirstDates(ts))
    ensures forall d :: d in FirstDates(ts) <==> exists c :: c in ts && StartsOn(c, d)
  {
    if ts != [] {
      var init := ts[..|ts| - 1];
      FirstDatesFacts(init);
      assert ts == init + [ts[|ts| - 1]];
      forall d ensures d in FirstDates(ts) <==> exists c :: c in ts && StartsOn(c, d) {
        if d in FirstDates(ts) && d !in FirstDates(init) {
          assert StartsOn(ts[|ts| - 1], d);
        }
        if d !in FirstDates(ts) {
          forall c | c in ts ensures !StartsOn(c, d) {
            if c != ts[|ts| - 1] {
              assert c in init;
            }
          }
        }
      }
    }
  }

  /** What the filling loop has built after `i` contributions of `ts`. */
  ghost predicate Filled(ts: seq<Contribution>, i: nat, order: seq<Date>, buckets: map<Date, seq<Contribution>>)
    requires i <= |ts|
  {
    order == FirstDates(ts[..i]) &&
    (forall d :: d in buckets <==> d in order) &&
    (forall d :: d in buckets ==> buckets[d] == OnDate(ts[..i], d)) &&
    (forall d :: d !in buckets ==> OnDate(ts[..i], d) == [])
  }

  lemma FillStep(ts: seq<Contribution>, i: nat, order: seq<Date>, buckets: map<Date, seq<Contribution>>)
    requires i < |ts| && ts[i].start.Some?
    requires Filled(ts, i, order, buckets)
    ensures var key := ts[i].start.value.date;
      Filled(ts, i + 1,
             if key in buckets then order else order + [key],
             buckets[key := (if key in buckets then buckets[key] else []) + [ts[i]]])
  {
    var key := ts[i].start.value.date;
    var prefix, prefix' := ts[..i], ts[..i + 1];
    assert prefix' == prefix + [ts[i]];
    OnDateAppend(prefix, ts[i]);
    FirstDatesAppend(prefix, ts[i]);
  }

  lemma OnDateAppend(ts: seq<Contribution>, c: Contribution)
    ensures forall d :: OnDate(ts + [c], d) == OnDate(ts, d) + (if StartsOn(c, d) then [c] else [])
  {
    var ts' := ts + [c];
    assert ts'[..|ts'| - 1] == ts && ts'[|ts'| - 1] == c;
  }

  lemma FirstDatesAppend(ts: seq<Contribution>, c: Contribution)
    requires c.start.Some?
    ensures FirstDates(ts + [c]) ==
      if c.start.value.date in FirstDates(ts) then FirstDates(ts) else FirstDates(ts) + [c.start.value.date]
  {
    var ts' := ts + [c];
    assert ts'[..|ts'| - 1] == ts && ts'[|ts'| - 1] == c;
  }

  ghost predicate SortedBefore(order: seq<Date>, unsorted: map<Date, seq<Contribution>>,
                              buckets: map<Date, seq<Contribution>>, i: int)
  {
    buckets.Keys == unsorted.Keys &&
    forall j :: 0 <= j < |order| ==>
      order[j] in buckets && buckets[order[j]] == if j < i then SortBy(unsorted[order[j]], StartLe) else unsorted[order[j]]
  }

  lemma SortStep(order: seq<Date>, unsorted: map<Date, seq<Contribution>>, buckets: map<Date, seq<Contribution>>, i: int)
    requires 0 <= i < |order| && Distinct(order)
    requires SortedBefore(order, unsorted, buckets, i)
    ensures SortedBefore(order, unsorted, buckets[order[i] := SortBy(buckets[order[i]], StartLe)], i + 1)
  {
    var key := order[i];
    var buckets' := buckets[key := SortBy(buckets[key], StartLe)];
    forall j | 0 <= j < |order|
      ensures buckets'[order[j]] == if j < i + 1 then SortBy(unsorted[order[j]], StartLe) else unsorted[order[j]]
    {
      if j != i {
        assert order[j] != key;
      }
    }
  }

  /**
   * `_get_contributions_by_date`, with the dictionary given as its key order
   * and its key-to-list map.
   */
  method ContributionsByDate(contributions: seq<Contribution>) returns (groups: DateGroups, noTime: seq<Contribution>)
    ensures groups.order == GroupOrder(contributions)
    ensures groups.buckets == Buckets(contributions)
    ensures groups.Valid()
    ensures noTime == Untimed(contributions)
  {
    var withTime := Timed(contributions);
    noTime := Untimed(contributions);

    // date_groups = defaultdict(list), filled by appending
    var order: seq<Date> := [];
    var buckets: map<Date, seq<Contribution>> := map[];
    for i := 0 to |withTime|
      invariant Filled(withTime, i, order, buckets)
    {
      var contrib := withTime[i];
      assert contrib in withTime;
      FillStep(withTime, i, order, buckets);
      var dateKey := contrib.start.value.date;
      // a missing key reads as a fresh empty list and joins the key order
      var bucket := if dateKey in buckets then buckets[dateKey] else [];
      if dateKey !in buckets {
        order := order + [dateKey];
      }
      buckets := buckets[dateKey := bucket + [contrib]];
    }
    assert withTime[..|withTime|] == withTime;
    FirstDatesFacts(withTime);
    assert Distinct(order);

    // every bucket sorted in place by start instant, in key order
    ghost var unsorted := buckets;
    for i := 0 to |order|
      invariant SortedBefore(order, unsorted, buckets, i)
    {
      SortStep(order, unsorted, buckets, i);
      buckets := buckets[order[i] := SortBy(buckets[order[i]], StartLe)];
    }

    // dict(sorted(date_groups.items())): same lists, keys in ascending order
    groups := DateGroups(SortBy(order, DateLe), buckets);
    GroupsAssembled(contributions, order, unsorted, buckets);
  }

  /** What the two loops built is the specified dictionary, with its keys sorted. */
  lemma GroupsAssembled(cs: seq<Contribution>, order: seq<Date>, unsorted: map<Date, seq<Contribution>>,
                        buckets: map<Date, seq<Contribution>>)
    requires Filled(Timed(cs), |Timed(cs)|, order, unsorted) && Distinct(order)
    requires SortedBefore(order, unsorted, buckets, |order|)
    ensures DateGroups(SortBy(order, DateLe), buckets).Valid()
    ensures SortBy(order, DateLe) == GroupOrder(cs)
    ensures buckets == Buckets(cs)
  {
    var ts := Timed(cs);
    assert ts[..|ts|] == ts;
    forall j | 0 <= j < |order| ensures buckets[order[j]] == SortBy(OnDate(ts, order[j]), StartLe) {
      assert unsorted[order[j]] == OnDate(ts, order[j]);
    }
    SortedBuckets(cs, order, buckets);
    SortedKeys(order, buckets);
  }

  /** The sorted buckets are the specified ones. */
  lemma SortedBuckets(cs: seq<Contribution>, order: seq<Date>, buckets: map<Date, seq<Contribution>>)
    requires order == FirstDates(Timed(cs))
    requires forall d :: d in buckets <==> d in order
    requires forall j :: 0 <= j < |order| ==> buckets[order[j]] == SortBy(OnDate(Timed(cs), order[j]), StartLe)
    ensures buckets == Buckets(cs)
  {
    forall d | d in buckets ensures buckets[d] == Bucket(cs, d) {
      var j :| 0 <= j < |order| && order[j] == d;
    }
  }

  /** Putting the distinct keys in ascending order keeps them distinct and keeps the key set. */
  lemma SortedKeys(order: seq<Date>, buckets: map<Date, seq<Contribution>>)
    requires Distinct(order)
    requires forall d :: d in buckets <==> d in order
    ensures DateGroups(SortBy(order, DateLe), buckets).Valid()
  {
    DateLeIsTotalOrder();
    var sorted := SortBy(order, DateLe);
    SortByIsOrderedPermutation(order, DateLe);
    SortedPermutationOfDistinct(order, sorted);
    forall d ensures d in sorted <==> d in order {
      assert d in multiset(sorted) <==> d in multiset(order);
    }
  }

  lemma {:induction false} DistinctAtMostOnce<T>(s: seq<T>, x: T)
    requires Distinct(s)
    ensures multiset(s)[x] <= 1
  {
    if s != [] {
      assert Distinct(s[1..]) by {
        forall i, j | 0 <= i < j < |s| - 1 ensures s[1..][i] != s[1..][j] {
          assert s[1..][i] == s[i + 1] && s[1..][j] == s[j + 1];
        }
      }
      DistinctAtMostOnce(s[1..], x);
      assert s == [s[0]] + s[1..];
      if s[0] == x {
        assert x !in s[1..];
      }
    }
  }

  lemma RepeatedTwice<T>(s: seq<T>, i: int, j: int)
    requires 0 <= i < j < |s| && s[i] == s[j]
    ensures multiset(s)[s[i]] >= 2
  {
    assert s == s[..j] + [s[j]] + s[j + 1..];
    assert s[i] in s[..j];
  }

  lemma SortedPermutationOfDistinct(s: seq<Date>, t: seq<Date>)
    requires Distinct(s) && multiset(s) == multiset(t)
    ensures Distinct(t)
  {
    forall i, j | 0 <= i < j < |t| ensures t[i] != t[j] {
      if t[i] == t[j] {
        RepeatedTwice(t, i, j);
        DistinctAtMostOnce(s, t[i]);
        assert false;
      }
    }
  }

  /**
   * The buckets come in strictly ascending date order, one per date on which
   * some non-deleted contribution starts.
   */
  lemma GroupOrderIsAscending(cs: seq<Contribution>)
    ensures forall i, j :: 0 <= i < j < |GroupOrder(cs)| ==>
      DateLe(GroupOrder(cs)[i], GroupOrder(cs)[j]) && GroupOrder(cs)[i] != GroupOrder(cs)[j]
    ensures forall d :: d in GroupOrder(cs) <==> exists c :: c in cs && IsTimed(c) && StartsOn(c, d)
  {
    var dates := FirstDates(Timed(cs));
    DateLeIsTotalOrder();
    FirstDatesFacts(Timed(cs));
    SortByIsOrderedPermutation(dates, DateLe);
    SortedPermutationOfDistinct(dates, GroupOrder(cs));
    forall d ensures d in GroupOrder(cs) <==> exists c :: c in cs && IsTimed(c) && StartsOn(c, d) {
      assert d in multiset(GroupOrder(cs)) <==> d in multiset(dates);
      assert d in GroupOrder(cs) <==> d in dates;
      if d in dates {
        var c :| c in Timed(cs) && StartsOn(c, d);
        TimedCount(cs, c);
        assert c in multiset(cs);
        assert c in cs && IsTimed(c) && StartsOn(c, d);
      }
      if c :| c in cs && IsTimed(c) && StartsOn(c, d) {
        TimedCount(cs, c);
        assert c in multiset(Timed(cs));
        assert c in Timed(cs);
      }
    }
  }

  /**
   * The grouping partitions the non-deleted contributions: one with a start
   * instant occurs in the bucket of its start date as often as in the input
   * and in no other bucket; one without occurs in the no-time list as often
   * as in the input; a deleted one occurs nowhere.
   */
  lemma GroupingIsPartition(cs: seq<Contribution>, c: Contribution)
    ensures c in cs && IsTimed(c) ==>
      (c.start.value.date in Buckets(cs) && multiset(Buckets(cs)[c.start.value.date])[c] == multiset(cs)[c])
    ensures forall d :: d in Buckets(cs) && c in Buckets(cs)[d] ==>
      c in cs && IsTimed(c) && StartsOn(c, d)
    ensures multiset(Untimed(cs))[c] == if IsUntimed(c) then multiset(cs)[c] else 0
  {
    StartLeIsTotalPreorder();
    TimedCount(cs, c);
    UntimedCount(cs, c);
    FirstDatesFacts(Timed(cs));
    if c in cs && IsTimed(c) {
      var d := c.start.value.date;
      SortByIsOrderedPermutation(OnDate(Timed(cs), d), StartLe);
      OnDateCount(Timed(cs), d, c);
      assert c in multiset(Timed(cs));
      assert c in Timed(cs) && StartsOn(c, d);
      assert d in FirstDates(Timed(cs));
    }
    forall d | d in Buckets(cs) && c in Buckets(cs)[d] ensures c in cs && IsTimed(c) && StartsOn(c, d) {
      SortByIsOrderedPermutation(OnDate(Timed(cs), d), StartLe);
      OnDateCount(Timed(cs), d, c);
      assert c in multiset(Bucket(cs, d));
    }
  }

  /**
   * Each bucket is ordered by start instant, and contributions that start at
   * the same instant keep their input order.
   */
  lemma BucketIsSortedAndStable(cs: seq<Contribution>, d: Date, k: Contribution)
    ensures Sorted(Bucket(cs, d), StartLe)
    ensures Equivalents(Bucket(cs, d), StartLe, k) == Equivalents(OnDate(Timed(cs), d), StartLe, k)
  {
    StartLeIsTotalPreorder();
    SortByIsOrderedPermutation(OnDate(Timed(cs), d), StartLe);
    SortByIsStable(OnDate(Timed(cs), d), StartLe, k);
  }
}
