/**
 * The per-transaction features that Scripts/creation.py derives from the cleaned table:
 * seconds from the first day, transaction counts per entity and per entity-day, time since
 * the entity's previous transaction, and amount statistics per entity and per entity-day.
 *
 * Times are Unix seconds. `pd.to_datetime(unit="s").dt.date` and `utcfromtimestamp` read
 * them in UTC, so a transaction's day is `unix_time div 86400`.
 */
module Features {
  import opened Wrappers
  import opened Ordering

  const SecondsPerDay: int := 86400

  datatype FeatureError =
    | EmptySeries          // `datetime.utcfromtimestamp(nan)`: the minimum of no times
    | KeyError(column: string)

  /** The UTC day of a Unix time. */
  function Day(t: int): (d: int)
    ensures d * SecondsPerDay <= t < d * SecondsPerDay + SecondsPerDay
  {
    t / SecondsPerDay
  }

  // ---------------------------------------------------------------------------------------
  // standardise_time
  // ---------------------------------------------------------------------------------------

  function SeqMin(s: seq<int>): (m: int)
    requires s != []
    ensures m in s && forall x :: x in s ==> m <= x
  {
    if |s| == 1 then s[0]
    else
      var rest := SeqMin(s[1..]);
      assert forall x :: x in s[1..] ==> x in s;
      assert forall x :: x in s ==> x == s[0] || x in s[1..];
      if s[0] <= rest then s[0] else rest
  }

  /** `standardise_time`: seconds since midnight (UTC) of the earliest transaction's day. */
  function StandardiseTime(times: seq<int>): (r: Result<seq<int>, FeatureError>)
    ensures r.Failure? <==> times == []
    ensures r.Failure? ==> r.error == EmptySeries
    ensures r.Success? ==> |r.value| == |times|
  {
    if times == [] then Failure(EmptySeries)
    else
      var origin := Day(SeqMin(times)) * SecondsPerDay;
      Success(seq(|times|, i requires 0 <= i < |times| => times[i] - origin))
  }

  /**
   * The standardised times keep all differences, are never negative, and the earliest one
   * falls within the first day.
   */
  lemma StandardiseTimeShape(times: seq<int>)
    ensures StandardiseTime(times).Failure? <==> times == []
    ensures StandardiseTime(times).Success? ==>
      var r := StandardiseTime(times).value;
      && |r| == |times|
      && (forall i, j :: 0 <= i < |r| && 0 <= j < |r| ==> r[i] - r[j] == times[i] - times[j])
      && (forall i :: 0 <= i < |r| ==> r[i] >= 0)
      && (exists i :: 0 <= i < |r| && r[i] < SecondsPerDay)
      && (forall i :: 0 <= i < |r| ==> r[i] % SecondsPerDay == times[i] % SecondsPerDay)
  {
    if times != [] {
      var m := SeqMin(times);
      var r := StandardiseTime(times).value;
      var i :| 0 <= i < |times| && times[i] == m;
      assert r[i] < SecondsPerDay;
      forall j | 0 <= j < |r|
        ensures r[j] >= 0
        ensures r[j] % SecondsPerDay == times[j] % SecondsPerDay
      {
        assert times[j] in times;
        ShiftByDays(times[j], Day(m));
      }
    }
  }

  /** Moving a time by whole days keeps its time of day. */
  lemma ShiftByDays(t: int, d: int)
    ensures (t - d * SecondsPerDay) % SecondsPerDay == t % SecondsPerDay
  {
    var q := t / SecondsPerDay;
    assert t - d * SecondsPerDay == (q - d) * SecondsPerDay + t % SecondsPerDay;
  }

  // ---------------------------------------------------------------------------------------
  // transactions_per_entity, transaction_on_date
  // ---------------------------------------------------------------------------------------

  /** How often `x` occurs in `s`: `value_counts()[x]`. */
  function Occurrences<T(==)>(s: seq<T>, x: T): (c: nat)
    ensures c == multiset(s)[x]
    ensures x in s <==> c >= 1
  {
    if s == [] then 0
    else
      assert s == [s[0]] + s[1..];
      (if s[0] == x then 1 else 0) + Occurrences(s[1..], x)
  }

  /** `transactions_per_entity`: each row's number of rows with the same id. */
  function TransactionsPerEntity(ids: seq<int>): (r: seq<nat>)
    ensures |r| == |ids|
    ensures forall i :: 0 <= i < |ids| ==> r[i] == multiset(ids)[ids[i]] && r[i] >= 1
  {
    seq(|ids|, i requires 0 <= i < |ids| => Occurrences(ids, ids[i]))
  }

  /** The (person, day) pair of every row. */
  function PersonDays(ids: seq<int>, times: seq<int>): (pairs: seq<(int, int)>)
    requires |ids| == |times|
    ensures |pairs| == |ids|
  {
    seq(|ids|, i requires 0 <= i < |ids| => (ids[i], Day(times[i])))
  }

  /**
   * `transaction_on_date`: each row's number of rows with the same `person_id` and the same
   * day. The group-by names the column `person_id` whatever `id_col` is, so any other
   * column name fails to be found.
   */
  function TransactionOnDate(idCol: string, ids: seq<int>, times: seq<int>): (r: Result<seq<nat>, FeatureError>)
    requires |ids| == |times|
    ensures r.Failure? <==> idCol != "person_id"
    ensures r.Failure? ==> r.error == KeyError("person_id")
    ensures r.Success? ==> |r.value| == |ids| && forall i :: 0 <= i < |ids| ==> r.value[i] >= 1
  {
    if idCol != "person_id" then Failure(KeyError("person_id"))
    else
      var pairs := PersonDays(ids, times);
      Success(seq(|ids|, i requires 0 <= i < |ids| => assert pairs[i] in pairs; Occurrences(pairs, pairs[i])))
  }

  /** Rows with the same key count fewer rows once the day is also required to match. */
  lemma {:induction false} PairCountBound(ids: seq<int>, times: seq<int>, x: int, d: int)
    requires |ids| == |times|
    ensures Occurrences(PersonDays(ids, times), (x, d)) <= Occurrences(ids, x)
  {
    if ids != [] {
      PairCountBound(ids[1..], times[1..], x, d);
      assert PersonDays(ids, times)[1..] == PersonDays(ids[1..], times[1..]);
    }
  }

  /**
   * Each row's same-day count is between 1 and its entity's total count: it is the number
   * of rows holding the same (person, day) pair.
   */
  lemma TransactionOnDateBounds(ids: seq<int>, times: seq<int>, i: nat)
    requires |ids| == |times| && i < |ids|
    ensures TransactionOnDate("person_id", ids, times).Success?
    ensures var r := TransactionOnDate("person_id", ids, times).value;
      && |r| == |ids|
      && r[i] == multiset(PersonDays(ids, times))[(ids[i], Day(times[i]))]
      && 1 <= r[i] <= TransactionsPerEntity(ids)[i]
  {
    var pairs := PersonDays(ids, times);
    PairCountBound(ids, times, ids[i], Day(times[i]));
    assert pairs[i] in pairs;
  }

  // ---------------------------------------------------------------------------------------
  // time_since_last_transaction
  // ---------------------------------------------------------------------------------------

  /** The last row before `j` whose id is `x`. */
  function Last(ids: seq<int>, x: int, j: nat): (r: Option<nat>)
    requires j <= |ids|
    ensures r.Some? ==> r.value < j && ids[r.value] == x && forall m :: r.value < m < j ==> ids[m] != x
    ensures r.None? ==> forall m :: 0 <= m < j ==> ids[m] != x
  {
    if j == 0 then None
    else if ids[j - 1] == x then Some(j - 1)
    else Last(ids, x, j - 1)
  }

  /** Each row's time minus the time of the previous row with the same id, -1 for an id's
      first row. */
  function SinceLast(ids: seq<int>, times: seq<int>): (r: seq<int>)
    requires |ids| == |times|
    ensures |r| == |ids|
  {
    seq(|ids|, i requires 0 <= i < |ids| =>
      match Last(ids, ids[i], i)
      case None => -1
      case Some(j) => times[i] - times[j])
  }

  /** `df[id_col].unique()`: the distinct ids in order of first appearance. */
  function Unique(s: seq<int>): (u: seq<int>)
    ensures Distinct(u)
    ensures forall x :: x in u <==> x in s
  {
    if s == [] then []
    else
      var u := Unique(s[..|s| - 1]);
      assert forall x :: x in s <==> x in s[..|s| - 1] || x == s[|s| - 1];
      if s[|s| - 1] in u then u else u + [s[|s| - 1]]
  }

  /**
   * `time_since_last_transaction`: `times` starts as a copy of the id column; for every
   * distinct id, the rows of that id are overwritten by the differences of their times, the
   * first of them missing (-1 in the returned column). As a side effect the caller's
   * `time_since_last_transaction_person` column is set to -1 throughout.
   */
  method TimeSinceLastTransaction(ids: seq<int>, times: seq<int>, cleanSince: array<int>)
    returns (r: seq<int>)
    requires |ids| == |times|
    modifies cleanSince
    ensures forall j :: 0 <= j < cleanSince.Length ==> cleanSince[j] == -1
    ensures r == SinceLast(ids, times)
  {
    var n := |ids|;
    var spec := SinceLast(ids, times);
    var out := new int[n](j requires 0 <= j < n => ids[j]);
    var uniq := Unique(ids);
    for u := 0 to |uniq|
      invariant forall m :: 0 <= m < n ==> out[m] == if ids[m] in uniq[..u] then spec[m] else ids[m]
    {
      FillGaps(ids, times, uniq[u], out);
      assert uniq[..u + 1] == uniq[..u] + [uniq[u]];
    }
    assert uniq[..|uniq|] == uniq;
    r := out[..];
    forall j | 0 <= j < cleanSince.Length {
      cleanSince[j] := -1;
    }
  }

  /** The inner loop for one id: its rows get their gaps, every other row is left alone. */
  method FillGaps(ids: seq<int>, times: seq<int>, cur: int, out: array<int>)
    requires |ids| == |times| == out.Length
    modifies out
    ensures forall m :: 0 <= m < out.Length ==>
      out[m] == if ids[m] == cur then SinceLast(ids, times)[m] else old(out[m])
  {
    var spec := SinceLast(ids, times);
    var prev: Option<nat> := None;
    for j := 0 to out.Length
      invariant prev == Last(ids, cur, j)
      invariant forall m :: 0 <= m < out.Length ==>
        out[m] == if ids[m] == cur && m < j then spec[m] else old(out[m])
    {
      if ids[j] == cur {
        assert spec[j] == if prev.None? then -1 else times[j] - times[prev.value];
        out[j] := if prev.None? then -1 else times[j] - times[prev.value];
        prev := Some(j);
      }
      assert prev == Last(ids, cur, j + 1);
    }
  }

  /**
   * With times in non-decreasing row order, a row's value is -1 exactly when it is its
   * id's first row, and every other row gets the non-negative gap to the id's previous row.
   */
  lemma SinceLastFirstRow(ids: seq<int>, times: seq<int>, i: nat)
    requires |ids| == |times| && i < |ids|
    requires forall a, b :: 0 <= a < b < |times| ==> times[a] <= times[b]
    ensures SinceLast(ids, times)[i] == -1 <==> forall j :: 0 <= j < i ==> ids[j] != ids[i]
    ensures SinceLast(ids, times)[i] != -1 ==> SinceLast(ids, times)[i] >= 0
  {
    match Last(ids, ids[i], i)
    case None =>
    case Some(j) =>
      assert SinceLast(ids, times)[i] == times[i] - times[j];
  }

  // ---------------------------------------------------------------------------------------
  // entity_amount_statistic, entity_amount_statistic_by_day
  // ---------------------------------------------------------------------------------------

  /** The aggregations the script asks for. */
  datatype Agg = Mean | Max | Min

  function SumOf(s: seq<real>): real {
    if s == [] then 0.0 else s[0] + SumOf(s[1..])
  }

  function MaxOf(s: seq<real>): (m: real)
    requires s != []
    ensures m in s && forall x :: x in s ==> x <= m
  {
    if |s| == 1 then s[0]
    else
      var rest := MaxOf(s[1..]);
      assert forall x :: x in s ==> x == s[0] || x in s[1..];
      if s[0] >= rest then s[0] else rest
  }

  function MinOf(s: seq<real>): (m: real)
    requires s != []
    ensures m in s && forall x :: x in s ==> m <= x
  {
    if |s| == 1 then s[0]
    else
      var rest := MinOf(s[1..]);
      assert forall x :: x in s ==> x == s[0] || x in s[1..];
      if s[0] <= rest then s[0] else rest
  }

  /** `SeriesGroupBy.agg(agg_calc)` of one group's amounts. */
  function Statistic(agg: Agg, s: seq<real>): (v: real)
    requires s != []
    ensures MinOf(s) <= v <= MaxOf(s)
    ensures agg != Mean ==> v in s
  {
    match agg
    case Mean =>
      var mean := SumOf(s) / |s| as real;
      MeanBetween(s, mean);
      mean
    case Max => MaxOf(s)
    case Min => MinOf(s)
  }

  /** A group's mean lies between its minimum and its maximum. */
  lemma MeanBetween(s: seq<real>, mean: real)
    requires s != [] && mean == SumOf(s) / |s| as real
    ensures MinOf(s) <= mean <= MaxOf(s)
  {
    var lo, hi := MinOf(s), MaxOf(s);
    SumBounds(s, lo, hi);
    DivBounds(SumOf(s), |s| as real, lo, hi, mean);
  }

  lemma {:induction false} SumBounds(s: seq<real>, lo: real, hi: real)
    requires forall x :: x in s ==> lo <= x <= hi
    ensures |s| as real * lo <= SumOf(s) <= |s| as real * hi
  {
    if s != [] {
      assert s[0] in s;
      assert forall x :: x in s[1..] ==> x in s;
      SumBounds(s[1..], lo, hi);
      AddBounds(|s[1..]| as real, lo, hi, s[0], SumOf(s[1..]));
    }
  }

  lemma AddBounds(m: real, lo: real, hi: real, x: real, rest: real)
    requires lo <= x <= hi && m * lo <= rest <= m * hi
    ensures (m + 1.0) * lo <= x + rest <= (m + 1.0) * hi
  {
  }

  lemma DivBounds(sum: real, n: real, lo: real, hi: real, q: real)
    requires n > 0.0 && n * lo <= sum <= n * hi && q == sum / n
    ensures lo <= q <= hi
  {
    assert q * n == sum;
  }

  /** The (key, amount) pair of every row. */
  function Rows<K>(keys: seq<K>, amts: seq<real>): (ps: seq<(K, real)>)
    requires |keys| == |amts|
    ensures |ps| == |keys| && forall j :: 0 <= j < |ps| ==> ps[j] == (keys[j], amts[j])
  {
    seq(|keys|, j requires 0 <= j < |keys| => (keys[j], amts[j]))
  }

  /** The amounts of the rows whose key is `x`, in row order: one entry per such row, each
      amount as often as a row with key `x` carries it. */
  function GroupAmounts<K(==)>(keys: seq<K>, amts: seq<real>, x: K): (g: seq<real>)
    requires |keys| == |amts|
    ensures x in keys ==> g != []
    ensures forall j :: 0 <= j < |keys| && keys[j] == x ==> amts[j] in g
    ensures forall a :: a in g ==> exists j :: 0 <= j < |keys| && keys[j] == x && amts[j] == a
  {
    if keys == [] then []
    else
      var rest := GroupAmounts(keys[1..], amts[1..], x);
      assert forall j :: 1 <= j < |keys| ==> keys[1..][j - 1] == keys[j] && amts[1..][j - 1] == amts[j];
      if keys[0] == x then [amts[0]] + rest else rest
  }

  /** A group has one entry per row with key `x`. */
  lemma {:induction false} GroupAmountsCount<K>(keys: seq<K>, amts: seq<real>, x: K)
    requires |keys| == |amts|
    ensures |GroupAmounts(keys, amts, x)| == multiset(keys)[x]
  {
    if keys != [] {
      GroupAmountsCount(keys[1..], amts[1..], x);
      assert keys == [keys[0]] + keys[1..];
    }
  }

  /** A group holds each amount exactly as often as the rows with key `x` carry it. */
  lemma {:induction false} GroupAmountsMultiset<K>(keys: seq<K>, amts: seq<real>, x: K, a: real)
    requires |keys| == |amts|
    ensures multiset(GroupAmounts(keys, amts, x))[a] == multiset(Rows(keys, amts))[(x, a)]
  {
    if keys != [] {
      var head := if keys[0] == x then [amts[0]] else [];
      var rest, rows := GroupAmounts(keys[1..], amts[1..], x), Rows(keys[1..], amts[1..]);
      assert GroupAmounts(keys, amts, x) == head + rest;
      assert Rows(keys, amts) == [(keys[0], amts[0])] + rows;
      GroupAmountsMultiset(keys[1..], amts[1..], x, a);
      assert multiset(head)[a] == multiset([(keys[0], amts[0])])[(x, a)];
    }
  }

  /** Each row's statistic over the rows with the same key. */
  function PerRowStatistic<K(==)>(keys: seq<K>, amts: seq<real>, agg: Agg): (r: seq<real>)
    requires |keys| == |amts|
    ensures |r| == |keys|
  {
    seq(|keys|, i requires 0 <= i < |keys| =>
      assert keys[i] in keys; Statistic(agg, GroupAmounts(keys, amts, keys[i])))
  }

  /** `entity_amount_statistic`: group by the id, aggregate, and look each row's id up. */
  function EntityAmountStatistic(ids: seq<int>, amts: seq<real>, agg: Agg): (r: seq<real>)
    requires |ids| == |amts|
    ensures |r| == |ids|
  {
    PerRowStatistic(ids, amts, agg)
  }

  /**
   * `entity_amount_statistic_by_day`: group by (id, day), aggregate, and bring the values
   * back by an inner merge on (id, day), which keeps the rows in their original order.
   */
  function EntityAmountStatisticByDay(ids: seq<int>, amts: seq<real>, times: seq<int>, agg: Agg): (r: seq<real>)
    requires |ids| == |amts| == |times|
    ensures |r| == |ids|
  {
    PerRowStatistic(PersonDays(ids, times), amts, agg)
  }

  /**
   * Per-key statistics: equal keys get equal values; a maximum is at least the row's own
   * amount and is some amount of the group, a minimum symmetrically; a mean lies between
   * the group's minimum and maximum.
   */
  lemma PerRowStatisticSpec<K>(keys: seq<K>, amts: seq<real>, i: nat, j: nat)
    requires |keys| == |amts| && i < |keys| && j < |keys| && keys[i] == keys[j]
    ensures forall agg :: PerRowStatistic(keys, amts, agg)[i] == PerRowStatistic(keys, amts, agg)[j]
    ensures amts[i] <= PerRowStatistic(keys, amts, Max)[i]
    ensures PerRowStatistic(keys, amts, Min)[i] <= amts[i]
    ensures exists m :: 0 <= m < |keys| && keys[m] == keys[i] && amts[m] == PerRowStatistic(keys, amts, Max)[i]
    ensures exists m :: 0 <= m < |keys| && keys[m] == keys[i] && amts[m] == PerRowStatistic(keys, amts, Min)[i]
    ensures PerRowStatistic(keys, amts, Min)[i] <= PerRowStatistic(keys, amts, Mean)[i] <= PerRowStatistic(keys, amts, Max)[i]
  {
    assert keys[i] in keys;
  }

  /** An entity's maximum on one day never exceeds its maximum over all days. */
  lemma DayMaxAtMostEntityMax(ids: seq<int>, amts: seq<real>, times: seq<int>, i: nat)
    requires |ids| == |amts| == |times| && i < |ids|
    ensures EntityAmountStatisticByDay(ids, amts, times, Max)[i] <= EntityAmountStatistic(ids, amts, Max)[i]
  {
    var pairs := PersonDays(ids, times);
    assert pairs[i] in pairs;
    var dayMax := MaxOf(GroupAmounts(pairs, amts, pairs[i]));
    var m :| 0 <= m < |pairs| && pairs[m] == pairs[i] && amts[m] == dayMax;
    assert ids[m] == ids[i];
    assert ids[i] in ids;
    assert amts[m] in GroupAmounts(ids, amts, ids[i]);
  }
}
