/**
 * The column anonymisation shared, word for word, by Preparation/anonymise.py and
 * Scripts/creation.py: category codes, k-anonymous job categories, k-anonymous binning of
 * a numeric column, age from date of birth, and the assembly of the cleaned table.
 */
module Anonymise {
  import opened Wrappers
  import opened Ordering

  // ---------------------------------------------------------------------------------------
  // anonymise_to_cats
  // ---------------------------------------------------------------------------------------

  /**
   * `series.astype("category").cat.codes`: the categories are the distinct values in
   * increasing order, and each value is replaced by the position of its category.
   */
  function Codes<T(==,!new)>(lt: (T, T) -> bool, s: seq<T>): (codes: seq<nat>)
    requires StrictTotalOrder(lt)
    ensures |codes| == |s|
    ensures forall i :: 0 <= i < |s| ==> codes[i] < |SortedDistinct(lt, s)|
    ensures forall i, j :: 0 <= i < |s| && 0 <= j < |s| ==> (s[i] == s[j] <==> codes[i] == codes[j])
    ensures forall i, j :: 0 <= i < |s| && 0 <= j < |s| ==> (lt(s[i], s[j]) <==> codes[i] < codes[j])
  {
    var cats := SortedDistinct(lt, s);
    var codes := seq(|s|, i requires 0 <= i < |s| => IndexOf(cats, s[i]));
    assert forall i :: 0 <= i < |s| ==> cats[codes[i]] == s[i];
    forall i, j | 0 <= i < |s| && 0 <= j < |s|
      ensures (s[i] == s[j] <==> codes[i] == codes[j])
      ensures (lt(s[i], s[j]) <==> codes[i] < codes[j])
    {
      SortedPositions(lt, cats, codes[i], codes[j]);
    }
    codes
  }

  /** A value's code is the number of distinct values below it. */
  lemma CodeIsRank<T(!new)>(lt: (T, T) -> bool, s: seq<T>, i: nat)
    requires StrictTotalOrder(lt) && i < |s|
    ensures Codes(lt, s)[i] == |set y | y in s && lt(y, s[i])|
  {
    RankIsCountBelow(lt, s, s[i]);
  }

  /** Every code from 0 up to the number of categories is used. */
  lemma CodesCover<T(!new)>(lt: (T, T) -> bool, s: seq<T>, c: nat)
    requires StrictTotalOrder(lt) && c < |SortedDistinct(lt, s)|
    ensures exists i :: 0 <= i < |s| && Codes(lt, s)[i] == c
  {
    var cats := SortedDistinct(lt, s);
    assert cats[c] in cats;
    var i :| 0 <= i < |s| && s[i] == cats[c];
    SortedDenotesDistinct(lt, cats);
    assert Codes(lt, s)[i] == IndexOf(cats, s[i]);
  }

  // ---------------------------------------------------------------------------------------
  // k_anon_jobs
  // ---------------------------------------------------------------------------------------

  /** Python's `str.isspace()` characters, which `str.strip()` removes. */
  predicate IsPySpace(c: char) {
    || ('\t' <= c <= '\r')
    || ('\U{1C}' <= c <= '\U{1F}')
    || c == ' ' || c == '\U{85}' || c == '\U{A0}' || c == '\U{1680}'
    || ('\U{2000}' <= c <= '\U{200A}')
    || c == '\U{2028}' || c == '\U{2029}' || c == '\U{202F}' || c == '\U{205F}' || c == '\U{3000}'
  }

  /** Nothing but whitespace (or nothing at all). */
  predicate AllSpace(s: string) {
    forall i :: 0 <= i < |s| ==> IsPySpace(s[i])
  }

  /** `s.split(",")[0]`: the text before the first comma, or all of it. */
  function BeforeComma(s: string): (r: string)
    ensures r <= s && ',' !in r
    ensures r == s || s[|r|] == ','
  {
    if s == [] || s[0] == ',' then ""
    else [s[0]] + BeforeComma(s[1..])
  }

  /** The number of leading whitespace characters. */
  function Lead(s: string): (a: nat)
    ensures a <= |s|
    ensures forall i :: 0 <= i < a ==> IsPySpace(s[i])
    ensures a == |s| || !IsPySpace(s[a])
  {
    if s != [] && IsPySpace(s[0]) then 1 + Lead(s[1..]) else 0
  }

  /** The number of trailing whitespace characters. */
  function Trail(s: string): (b: nat)
    ensures b <= |s|
    ensures forall i :: |s| - b <= i < |s| ==> IsPySpace(s[i])
    ensures b == |s| || !IsPySpace(s[|s| - b - 1])
  {
    if s != [] && IsPySpace(s[|s| - 1]) then 1 + Trail(s[..|s| - 1]) else 0
  }

  /** `key` occurs in `s` starting at index `lo`. */
  predicate SliceAt(key: string, s: string, lo: nat) {
    lo + |key| <= |s| && key == s[lo..lo + |key|]
  }

  /** `str.strip()`: the text between the leading and the trailing whitespace. */
  function Strip(s: string): (r: string)
    ensures r == [] || (!IsPySpace(r[0]) && !IsPySpace(r[|r| - 1]))
    ensures r == [] <==> AllSpace(s)
    ensures r != [] ==> Lead(s) + |r| + Trail(s) == |s| && SliceAt(r, s, Lead(s))
    ensures forall c :: c in r ==> c in s
  {
    var a := Lead(s);
    if a == |s| then ""
    else
      var b := Trail(s);
      assert a < |s| - b;
      s[a..|s| - b]
  }

  /** The key a job is grouped under: the text before its first comma, stripped. */
  function JobKey(job: string): (key: string)
    ensures ',' !in key
    ensures key == [] || (!IsPySpace(key[0]) && !IsPySpace(key[|key| - 1]))
  {
    Strip(BeforeComma(job))
  }

  /** A job's key is empty exactly when the text before its first comma is all whitespace. */
  lemma JobKeyEmpty(job: string)
    ensures JobKey(job) == [] <==> AllSpace(BeforeComma(job))
  {
    assert JobKey(job) == Strip(BeforeComma(job));
  }

  /**
   * A non-empty job key is the slice of the job between the leading and the trailing
   * whitespace of the text before its first comma.
   */
  lemma JobKeyIsStrippedPrefix(job: string)
    ensures var b, key := BeforeComma(job), JobKey(job);
      key != [] ==> Lead(b) + |key| + Trail(b) == |b| && SliceAt(key, job, Lead(b))
  {
    StripOfPrefix(BeforeComma(job), job, JobKey(job));
  }

  /** Stripping a prefix of `s` gives a slice of `s` itself. */
  lemma StripOfPrefix(b: string, s: string, key: string)
    requires b <= s && key == Strip(b)
    ensures key != [] ==> Lead(b) + |key| + Trail(b) == |b| && SliceAt(key, s, Lead(b))
  {
    if key != [] {
      SliceChain(key, b, s, Lead(b));
    }
  }

  lemma SliceChain(key: string, b: string, s: string, lo: nat)
    requires b <= s && SliceAt(key, b, lo)
    ensures SliceAt(key, s, lo)
  {
    SliceOfPrefix(b, s, lo, lo + |key|);
  }

  lemma SliceOfPrefix<T>(b: seq<T>, s: seq<T>, i: nat, j: nat)
    requires b <= s && i <= j <= |b|
    ensures s[i..j] == b[i..j]
  {
  }

  /** A qualifier after a comma does not change a job's key. */
  lemma {:induction false} JobKeyIgnoresQualifier(job: string, qualifier: string)
    requires ',' !in job
    ensures JobKey(job + "," + qualifier) == JobKey(job)
  {
    BeforeCommaOfPrefix(job, qualifier);
    assert BeforeComma(job) == job;
  }

  lemma {:induction false} BeforeCommaOfPrefix(job: string, qualifier: string)
    requires ',' !in job
    ensures BeforeComma(job + "," + qualifier) == job
  {
    if job != [] {
      assert (job + "," + qualifier)[1..] == job[1..] + "," + qualifier;
      BeforeCommaOfPrefix(job[1..], qualifier);
    }
  }

  /** The distinct persons among the rows whose job code is `c`:
      `group_by["person_id"].nunique()` of group `c`. */
  function PersonsWithCode(codes: seq<int>, persons: seq<int>, c: int): set<int>
    requires |codes| == |persons|
  {
    set j | 0 <= j < |codes| && codes[j] == c :: persons[j]
  }

  /** The distinct persons holding the job key `key`. */
  function PersonsWithKey(keys: seq<string>, persons: seq<int>, key: string): set<int>
    requires |keys| == |persons|
  {
    set j | 0 <= j < |keys| && keys[j] == key :: persons[j]
  }

  /**
   * `k_anon_jobs`: job codes from the job keys; `np.where(nunique < k)[0]` collects the
   * POSITIONS, in the group-by index, of the groups held by fewer than k persons; a row
   * whose code is among them becomes -1.
   */
  function KAnonJobs(jobs: seq<string>, persons: seq<int>, k: int): (r: seq<int>)
    requires |jobs| == |persons|
    ensures |r| == |jobs|
  {
    var keys := seq(|jobs|, i requires 0 <= i < |jobs| => JobKey(jobs[i]));
    StrLessIsStrictTotal();
    IntOrdersAreStrictTotal();
    var codes: seq<int> := Codes(StrLess, keys);
    var groups := SortedDistinct<int>(IntLess, codes);
    var rare := set p | 0 <= p < |groups| && |PersonsWithCode(codes, persons, groups[p])| < k;
    seq(|jobs|, i requires 0 <= i < |jobs| => if codes[i] in rare then -1 else codes[i])
  }

  /** In a strictly increasing sequence of naturals the value at position p is at least p. */
  lemma {:induction false} SortedAtLeastIndex(groups: seq<int>, p: nat)
    requires Sorted(IntLess, groups) && (forall x :: x in groups ==> x >= 0) && p < |groups|
    ensures groups[p] >= p
  {
    if p > 0 {
      SortedAtLeastIndex(groups, p - 1);
      assert groups[p - 1] < groups[p];
    } else {
      assert groups[0] in groups;
    }
  }

  /**
   * The group-by index of codes that take every value 0 .. C-1 is 0, 1, ..., C-1, so the
   * position of a group is its code.
   */
  lemma {:induction false} GroupIndexIsCodes(codes: seq<int>, c: nat, groups: seq<int>, p: nat)
    requires forall x :: x in codes ==> 0 <= x < c
    requires forall x :: 0 <= x < c ==> x in codes
    requires Sorted(IntLess, groups) && (forall x :: x in groups <==> x in codes)
    requires p < |groups|
    ensures groups[p] == p
  {
    assert groups[p] in groups;
    SortedAtLeastIndex(groups, p);
    assert p in groups;
    var j :| 0 <= j < |groups| && groups[j] == p;
    if j < p {
      GroupIndexIsCodes(codes, c, groups, j);
    }
  }

  /**
   * A row's job category is -1 exactly when fewer than k distinct persons hold its job key;
   * otherwise it is the key's category code.
   */
  lemma KAnonJobsRare(jobs: seq<string>, persons: seq<int>, k: int, i: nat)
    requires |jobs| == |persons| && i < |jobs|
    requires StrictTotalOrder(StrLess)
    ensures var keys := seq(|jobs|, j requires 0 <= j < |jobs| => JobKey(jobs[j]));
      && (KAnonJobs(jobs, persons, k)[i] == -1 <==> |PersonsWithKey(keys, persons, keys[i])| < k)
      && (KAnonJobs(jobs, persons, k)[i] != -1 ==> KAnonJobs(jobs, persons, k)[i] == Codes(StrLess, keys)[i])
  {
    var keys := seq(|jobs|, j requires 0 <= j < |jobs| => JobKey(jobs[j]));
    var codes: seq<int> := Codes(StrLess, keys);
    var c := |SortedDistinct(StrLess, keys)|;
    CodesRange(keys, codes, c);
    IntOrdersAreStrictTotal();
    var groups := SortedDistinct<int>(IntLess, codes);
    assert codes[i] in groups;
    var p :| 0 <= p < |groups| && groups[p] == codes[i];
    GroupIndexIsCodes(codes, c, groups, p);
    assert PersonsWithCode(codes, persons, codes[i]) == PersonsWithKey(keys, persons, keys[i]);
    var rare := set p | 0 <= p < |groups| && |PersonsWithCode(codes, persons, groups[p])| < k;
    assert codes[i] in rare <==> |PersonsWithCode(codes, persons, codes[i])| < k;
  }

  /** The job codes take exactly the values 0 .. c-1. */
  lemma CodesRange(keys: seq<string>, codes: seq<int>, c: nat)
    requires StrictTotalOrder(StrLess)
    requires codes == Codes(StrLess, keys) && c == |SortedDistinct(StrLess, keys)|
    ensures forall x :: x in codes ==> 0 <= x < c
    ensures forall x :: 0 <= x < c ==> x in codes
  {
    forall x | 0 <= x < c ensures x in codes {
      CodesCover(StrLess, keys, x);
    }
  }

  // ---------------------------------------------------------------------------------------
  // k_anon_clustering
  // ---------------------------------------------------------------------------------------

  /** `range(0, stop, 0)` raises ValueError. */
  datatype ClusteringError = ZeroRangeStep

  function Min(a: int, b: int): int { if a <= b then a else b }

  /** `series.unique()` sorted with `sort_values(ascending=False)`. */
  function Descending(series: seq<int>): (vals: seq<int>)
    ensures Sorted(IntGreater, vals)
    ensures forall x :: x in vals <==> x in series
  {
    IntOrdersAreStrictTotal();
    SortedDistinct(IntGreater, series)
  }

  /**
   * The bin of the value at position `p` of the `u` distinct values in descending order:
   * consecutive runs of k, the last run absorbing the fewer-than-k tail.
   */
  function BinOf(u: nat, k: nat, p: nat): (b: int)
    requires 1 <= k
  {
    Min(p / k, u / k - 1)
  }

  /**
   * `k_anon_clustering`: each value replaced by its bin when there are at least k distinct
   * values; otherwise (and for a negative k, whose range is empty) by itself.
   */
  function Clustered(series: seq<int>, k: int): (r: Result<seq<int>, ClusteringError>)
    ensures r.Failure? <==> k == 0
    ensures r.Success? ==> |r.value| == |series|
  {
    if k == 0 then Failure(ZeroRangeStep)
    else
      var vals := Descending(series);
      var bins := BinTable(vals, k);
      Success(seq(|series|, i requires 0 <= i < |series| => bins[IndexOf(vals, series[i])]))
  }

  /** `unique_vals` after the loop: the bin of every slot, or, when the loop never runs,
      the slot's own value. */
  function BinTable(vals: seq<int>, k: int): (bins: seq<int>)
    requires k != 0
    ensures |bins| == |vals|
  {
    if k < 0 || |vals| < k then vals
    else seq(|vals|, p requires 0 <= p < |vals| => BinOf(|vals|, k, p))
  }

  /** How far the loop has written: the first `i` slots, or all of them once the tail went
      into the last bin. */
  function Written(u: nat, k: int, i: int): int {
    if i > 0 && i + k > u then u else i
  }

  lemma DivBlock(b: int, k: int, j: int)
    requires k >= 1 && b * k <= j < b * k + k
    ensures j / k == b
  {
    var d := j / k;
    assert k * d <= j < k * d + k;
    if d < b {
      MulMono(k, d + 1, b);
    } else if d > b {
      MulMono(k, b + 1, d);
    }
  }

  lemma MulMono(k: int, a: int, b: int)
    requires k >= 0 && a <= b
    ensures k * a <= k * b
  {
  }

  /** With u >= k there is at least one bin. */
  lemma SomeBin(u: int, k: int)
    requires 1 <= k <= u
    ensures u / k >= 1
  {
    DivMono(k, u, k);
    DivBlock(1, k, k);
  }

  lemma BinOfBounds(u: nat, k: int, p: nat)
    requires 1 <= k <= u
    ensures 0 <= BinOf(u, k, p) < u / k
  {
    SomeBin(u, k);
  }

  /** Bin b's first k slots exist. */
  lemma BlockFits(u: int, k: int, b: int)
    requires 1 <= k && 0 <= b < u / k
    ensures b * k + k <= u
  {
    assert k * (u / k) <= u;
    MulMono(k, b + 1, u / k);
  }

  /** The last bin starts fewer than 2k slots before the end; earlier bins are followed by a
      whole further bin. */
  lemma LastBlock(u: int, k: int, b: int)
    requires 1 <= k && 0 <= b < u / k
    ensures b == u / k - 1 ==> b * k + 2 * k > u
    ensures b < u / k - 1 ==> b * k + 2 * k <= u
  {
    assert k * (u / k) <= u < k * (u / k) + k;
    if b < u / k - 1 {
      MulMono(k, b + 2, u / k);
    }
  }

  lemma SlotOfBlock(u: nat, k: int, b: int, j: int)
    requires 1 <= k && 0 <= b && b * k <= u - k && b * k <= j < b * k + k
    ensures BinOf(u, k, j) == b
  {
    DivBlock(b, k, j);
    assert u / k >= b + 1 by {
      var q := u / k;
      assert k * q <= u < k * q + k;
      if q < b + 1 { MulMono(k, q + 1, b + 1); }
    }
  }

  lemma SlotOfTail(u: nat, k: int, b: int, j: int)
    requires 1 <= k && 0 <= b && b * k <= u - k && b * k + 2 * k > u && b * k + k <= j < u
    ensures BinOf(u, k, j) == b
  {
    assert u / k == b + 1 by { DivBlock(b + 1, k, u); }
    assert j / k >= b + 1 by {
      var d := j / k;
      assert k * d <= j < k * d + k;
      if d < b + 1 { MulMono(k, d + 1, b + 1); }
    }
  }

  /**
   * The `for` loop of `k_anon_clustering` on the descending distinct values: every slot
   * first holds its value; each round overwrites slots `i..i+k` with the bin id, and the
   * last round also the tail.
   */
  method FillBins(vals: seq<int>, k: int) returns (binned: seq<int>)
    requires k != 0
    ensures binned == BinTable(vals, k)
  {
    var u := |vals|;
    var bins := new int[u](j requires 0 <= j < u => vals[j]);
    var binId := 0;
    var i := 0;
    while 0 < k && i < u - k + 1
      invariant 0 <= binId && i == binId * k && (k < 0 || u < k ==> i == 0)
      invariant 0 <= i <= u || i == 0
      invariant forall j :: 0 <= j < u ==>
        bins[j] == if j < Written(u, k, i) then BinOf(u, k, j) else vals[j]
      decreases u - i
    {
      NewSlots(u, k, binId, i);
      // `unique_vals[i:i+k] = bin_id`, and on the last round `unique_vals[i:] = bin_id`
      var upTo := if i + 2 * k > u then u else i + k;
      forall j | i <= j < upTo {
        bins[j] := binId;
      }
      binId := binId + 1;
      i := i + k;
    }
    binned := bins[..];
    LoopDone(vals, k, i, binned);
  }

  /** When the loop stops, every slot holds its bin, or, if the loop never ran, its value. */
  lemma LoopDone(vals: seq<int>, k: int, i: int, binned: seq<int>)
    requires k != 0 && (k < 0 || |vals| < k ==> i == 0) && (0 <= i <= |vals| || i == 0)
    requires !(0 < k && i < |vals| - k + 1)
    requires |binned| == |vals|
    requires forall j :: 0 <= j < |vals| ==>
      binned[j] == if j < Written(|vals|, k, i) then BinOf(|vals|, k, j) else vals[j]
    ensures binned == BinTable(vals, k)
  {
    var u := |vals|;
    if 0 < k <= u {
      assert Written(u, k, i) == u;
    } else {
      assert Written(u, k, i) == 0;
    }
  }

  /** One round of the loop writes bin `binId` into exactly the slots that belong to it. */
  lemma NewSlots(u: nat, k: int, binId: int, i: int)
    requires 1 <= k && 0 <= binId && i == binId * k && i < u - k + 1
    ensures i + k == (binId + 1) * k
    ensures Written(u, k, i) == i
    ensures Written(u, k, i + k) == if i + 2 * k > u then u else i + k
    ensures forall j :: i <= j < Written(u, k, i + k) ==> BinOf(u, k, j) == binId
  {
    forall j | i <= j < Written(u, k, i + k) ensures BinOf(u, k, j) == binId {
      if j < i + k {
        SlotOfBlock(u, k, binId, j);
      } else {
        SlotOfTail(u, k, binId, j);
      }
    }
  }

  /** The script's `k_anon_clustering`: bin the distinct values, then look each value up. */
  method KAnonClustering(series: seq<int>, k: int) returns (r: Result<seq<int>, ClusteringError>)
    ensures r == Clustered(series, k)
  {
    if k == 0 {
      return Failure(ZeroRangeStep);
    }
    var vals := Descending(series);
    var bins := FillBins(vals, k);
    r := Success(seq(|series|, x requires 0 <= x < |series| => bins[IndexOf(vals, series[x])]));
  }

  /** Equal values get equal bins, and the output has one entry per input. */
  lemma ClusteredIsPerValue(series: seq<int>, k: int, i: nat, j: nat)
    requires k != 0 && i < |series| && j < |series| && series[i] == series[j]
    ensures |Clustered(series, k).value| == |series|
    ensures Clustered(series, k).value[i] == Clustered(series, k).value[j]
  {
  }

  /** With fewer than k distinct values (or a negative k) every value maps to itself. */
  lemma ClusteredIdentity(series: seq<int>, k: int)
    requires k < 0 || (k > 0 && |Elems(series)| < k)
    ensures Clustered(series, k) == Success(series)
  {
    IntOrdersAreStrictTotal();
    var vals := Descending(series);
    SortedDenotesDistinct(IntGreater, vals);
    DistinctCard(vals);
    assert Elems(vals) == Elems(series);
    assert Clustered(series, k).value == series;
  }

  /** With at least k distinct values, a value's bin is the bin of its slot. */
  lemma ClusteredAt(series: seq<int>, k: int, i: nat)
    requires k >= 1 && |Descending(series)| >= k && i < |series|
    ensures Clustered(series, k).value[i]
         == BinOf(|Descending(series)|, k, IndexOf(Descending(series), series[i]))
  {
  }

  /** The bin ids are exactly 0 .. u/k - 1, where u is the number of distinct values. */
  lemma ClusteredBinIds(series: seq<int>, k: int)
    requires k >= 1 && |Descending(series)| >= k
    ensures forall b :: b in Clustered(series, k).value <==> 0 <= b < |Descending(series)| / k
  {
    var vals := Descending(series);
    var u := |vals|;
    var r := Clustered(series, k).value;
    SomeBin(u, k);
    forall b | b in r ensures 0 <= b < u / k {
      var i :| 0 <= i < |r| && r[i] == b;
      ClusteredAt(series, k, i);
      BinOfBounds(u, k, IndexOf(vals, series[i]));
    }
    forall b | 0 <= b < u / k ensures b in r {
      var p := b * k;
      BlockFits(u, k, b);
      SlotOfBlock(u, k, b, p);
      assert vals[p] in vals;
      var i :| 0 <= i < |series| && series[i] == vals[p];
      IntOrdersAreStrictTotal();
      SortedDenotesDistinct(IntGreater, vals);
      assert IndexOf(vals, series[i]) == p;
      ClusteredAt(series, k, i);
      assert r[i] == b;
    }
  }

  /** Larger values never get a larger bin id than smaller values. */
  lemma ClusteredDescending(series: seq<int>, k: int, i: nat, j: nat)
    requires k >= 1 && |Descending(series)| >= k
    requires i < |series| && j < |series| && series[i] > series[j]
    ensures Clustered(series, k).value[i] <= Clustered(series, k).value[j]
  {
    IntOrdersAreStrictTotal();
    var vals := Descending(series);
    var pi, pj := IndexOf(vals, series[i]), IndexOf(vals, series[j]);
    SortedPositions(IntGreater, vals, pi, pj);
    DivMono(pi, pj, k);
    ClusteredAt(series, k, i);
    ClusteredAt(series, k, j);
  }

  lemma DivMono(a: nat, b: nat, k: int)
    requires a <= b && k >= 1
    ensures a / k <= b / k
  {
    if a / k > b / k {
      MulMono(k, b / k + 1, a / k);
    }
  }

  /** The distinct values of `series` that land in bin `b`. */
  function ValuesInBin(series: seq<int>, k: int, b: int): set<int>
    requires k >= 1
  {
    var vals := Descending(series);
    set v | v in series && BinOf(|vals|, k, IndexOf(vals, v)) == b
  }

  /**
   * Bin sizes: every bin but the last holds exactly k distinct values; the last holds the
   * rest, between k and 2k - 1.
   */
  lemma ClusteredBinSizes(series: seq<int>, k: int, b: int)
    requires k >= 1 && |Descending(series)| >= k
    requires 0 <= b < |Descending(series)| / k
    ensures b < |Descending(series)| / k - 1 ==> |ValuesInBin(series, k, b)| == k
    ensures b == |Descending(series)| / k - 1 ==> k <= |ValuesInBin(series, k, b)| < 2 * k
  {
    var vals := Descending(series);
    var u := |vals|;
    var q := u / k;
    var lo := b * k;
    var hi := if b < q - 1 then lo + k else u;
    BlockFits(u, k, b);
    LastBlock(u, k, b);
    IntOrdersAreStrictTotal();
    SortedDenotesDistinct(IntGreater, vals);
    assert Distinct(vals[lo..hi]);
    DistinctCard(vals[lo..hi]);
    BinIsSlice(series, k, b, lo, hi);
  }

  /** The values of bin b are the slots [b*k, b*k + k), or [b*k, u) for the last bin. */
  lemma BinIsSlice(series: seq<int>, k: int, b: int, lo: int, hi: int)
    requires k >= 1 && |Descending(series)| >= k && 0 <= b < |Descending(series)| / k
    requires lo == b * k
    requires hi == if b < |Descending(series)| / k - 1 then lo + k else |Descending(series)|
    requires 0 <= lo <= hi <= |Descending(series)|
    ensures ValuesInBin(series, k, b) == Elems(Descending(series)[lo..hi])
  {
    BinWithinSlice(series, k, b, lo, hi);
    SliceWithinBin(series, k, b, lo, hi);
  }

  lemma BinWithinSlice(series: seq<int>, k: int, b: int, lo: int, hi: int)
    requires k >= 1 && |Descending(series)| >= k && 0 <= b < |Descending(series)| / k
    requires lo == b * k
    requires hi == if b < |Descending(series)| / k - 1 then lo + k else |Descending(series)|
    requires 0 <= lo <= hi <= |Descending(series)|
    ensures ValuesInBin(series, k, b) <= Elems(Descending(series)[lo..hi])
  {
    forall v | v in ValuesInBin(series, k, b) ensures v in Elems(Descending(series)[lo..hi]) {
      BinMemberInSlice(series, k, b, lo, hi, v);
    }
  }

  lemma SliceWithinBin(series: seq<int>, k: int, b: int, lo: int, hi: int)
    requires k >= 1 && |Descending(series)| >= k && 0 <= b < |Descending(series)| / k
    requires lo == b * k
    requires hi == if b < |Descending(series)| / k - 1 then lo + k else |Descending(series)|
    requires 0 <= lo <= hi <= |Descending(series)|
    ensures Elems(Descending(series)[lo..hi]) <= ValuesInBin(series, k, b)
  {
    var slice := Descending(series)[lo..hi];
    forall v | v in Elems(slice) ensures v in ValuesInBin(series, k, b) {
      var t :| 0 <= t < |slice| && slice[t] == v;
      assert Descending(series)[lo + t] == v;
      SliceMemberInBin(series, k, b, lo, hi, t);
    }
  }

  lemma BinMemberInSlice(series: seq<int>, k: int, b: int, lo: int, hi: int, v: int)
    requires k >= 1 && |Descending(series)| >= k && 0 <= b < |Descending(series)| / k
    requires lo == b * k
    requires hi == if b < |Descending(series)| / k - 1 then lo + k else |Descending(series)|
    requires 0 <= lo <= hi <= |Descending(series)|
    requires v in ValuesInBin(series, k, b)
    ensures v in Elems(Descending(series)[lo..hi])
  {
    var vals := Descending(series);
    IntOrdersAreStrictTotal();
    var p := IndexOf(vals, v);
    BinRange(|vals|, k, b, p);
    assert vals[lo..hi][p - lo] == v;
  }

  lemma SliceMemberInBin(series: seq<int>, k: int, b: int, lo: int, hi: int, t: int)
    requires k >= 1 && |Descending(series)| >= k && 0 <= b < |Descending(series)| / k
    requires lo == b * k
    requires hi == if b < |Descending(series)| / k - 1 then lo + k else |Descending(series)|
    requires 0 <= lo <= hi <= |Descending(series)| && 0 <= t < hi - lo
    ensures Descending(series)[lo + t] in ValuesInBin(series, k, b)
  {
    var vals := Descending(series);
    var u := |vals|;
    var v := vals[lo + t];
    assert v in vals;
    IntOrdersAreStrictTotal();
    SortedPositions(IntGreater, vals, IndexOf(vals, v), lo + t);
    BlockFits(u, k, b);
    LastBlock(u, k, b);
    assert IndexOf(vals, v) == lo + t;
    if t < k {
      SlotOfBlock(u, k, b, lo + t);
    } else {
      SlotOfTail(u, k, b, lo + t);
    }
    assert v in series && BinOf(u, k, IndexOf(vals, v)) == b;
  }

  /** The slots of bin b are [b*k, b*k + k), and the last bin runs to the end. */
  lemma BinRange(u: nat, k: int, b: int, p: nat)
    requires 1 <= k <= u && 0 <= b < u / k && p < u && BinOf(u, k, p) == b
    ensures b * k <= p
    ensures b < u / k - 1 ==> p < b * k + k
  {
    var d := p / k;
    assert k * d <= p < k * d + k;
    MulMono(k, b, d);
  }

  // ---------------------------------------------------------------------------------------
  // dob_to_age
  // ---------------------------------------------------------------------------------------

  /** numpy's one-year time unit, 365.2425 days, in seconds. */
  const SecondsPerYear: int := 31556952

  /** `(trans_date_trans_time - dob) // np.timedelta64(1, "Y")`, times in seconds. */
  function DobToAge(transTime: int, dob: int): (age: int)
    ensures age * SecondsPerYear <= transTime - dob < (age + 1) * SecondsPerYear
  {
    (transTime - dob) / SecondsPerYear
  }

  // ---------------------------------------------------------------------------------------
  // anonymise_data
  // ---------------------------------------------------------------------------------------

  /** One raw transaction, with its two date columns already parsed into seconds. */
  datatype Transaction = Transaction(
    transTime: int,       // trans_date_trans_time
    ccNum: int,
    merchant: string,
    category: string,
    amt: real,
    first: string,
    last: string,
    gender: string,
    job: string,
    cityPop: int,
    dob: string,          // the "%Y-%m-%d" text of the date of birth
    dobTime: int,         // midnight of the date of birth
    unixTime: int,
    isFraud: int)

  /** The cleaned table, column by column. */
  datatype CleanTable = CleanTable(
    isFraud: seq<int>,
    unixTime: seq<int>,
    amt: seq<real>,
    ccId: seq<nat>,
    personId: seq<nat>,
    genderId: seq<nat>,
    jobCategory: seq<int>,
    age: seq<int>,
    cityPopClusterId: seq<int>,
    merchantId: seq<nat>,
    merchantCategory: seq<nat>)

  /** `first + "_" + last + "_" + job + "_" + dob`. */
  function PersonKey(t: Transaction): (key: string)
    ensures |key| == |t.first| + |t.last| + |t.job| + |t.dob| + 3
    ensures key[..|t.first|] == t.first && key[|t.first|] == '_'
    ensures key[|key| - |t.dob|..] == t.dob && key[|key| - |t.dob| - 1] == '_'
  {
    t.first + "_" + t.last + "_" + t.job + "_" + t.dob
  }

  predicate SamePerson(t: Transaction, u: Transaction) {
    t.first == u.first && t.last == u.last && t.job == u.job && t.dob == u.dob
  }

  /** One key per row. */
  function PersonKeys(df: seq<Transaction>): (keys: seq<string>)
    ensures |keys| == |df|
  {
    seq(|df|, i requires 0 <= i < |df| => PersonKey(df[i]))
  }

  /** Rows that agree on the four fields share a key. */
  lemma PersonKeysSamePerson(df: seq<Transaction>, i: nat, j: nat)
    requires i < |df| && j < |df| && SamePerson(df[i], df[j])
    ensures PersonKeys(df)[i] == PersonKeys(df)[j]
  {
    assert PersonKeys(df)[i] == PersonKey(df[i]) && PersonKeys(df)[j] == PersonKey(df[j]);
  }

  /** `anonymise_data`, with k = 5 for jobs and k = 10 for the city population. */
  function AnonymiseData(df: seq<Transaction>): (clean: CleanTable)
    ensures |clean.isFraud| == |clean.unixTime| == |clean.amt| == |clean.ccId| == |df|
    ensures |clean.personId| == |clean.genderId| == |clean.jobCategory| == |clean.age| == |df|
    ensures |clean.cityPopClusterId| == |clean.merchantId| == |clean.merchantCategory| == |df|
  {
    StrLessIsStrictTotal();
    IntOrdersAreStrictTotal();
    var n := |df|;
    var personId := Codes(StrLess, PersonKeys(df));
    var cityPop := seq(n, i requires 0 <= i < n => df[i].cityPop);
    CleanTable(
      seq(n, i requires 0 <= i < n => df[i].isFraud),
      seq(n, i requires 0 <= i < n => df[i].unixTime),
      seq(n, i requires 0 <= i < n => df[i].amt),
      Codes(IntLess, seq(n, i requires 0 <= i < n => df[i].ccNum)),
      personId,
      Codes(StrLess, seq(n, i requires 0 <= i < n => df[i].gender)),
      KAnonJobs(seq(n, i requires 0 <= i < n => df[i].job), personId, 5),
      seq(n, i requires 0 <= i < n => DobToAge(df[i].transTime, df[i].dobTime)),
      Clustered(cityPop, 10).value,
      Codes(StrLess, seq(n, i requires 0 <= i < n => df[i].merchant)),
      Codes(StrLess, seq(n, i requires 0 <= i < n => df[i].category)))
  }

  /** Transaction fields are copied row by row, and every age is the floor of the elapsed
      years. */
  lemma AnonymiseDataCopies(df: seq<Transaction>, i: nat)
    requires i < |df|
    ensures var clean := AnonymiseData(df);
      && clean.isFraud[i] == df[i].isFraud && clean.unixTime[i] == df[i].unixTime
      && clean.amt[i] == df[i].amt
      && clean.age[i] * SecondsPerYear <= df[i].transTime - df[i].dobTime
      && df[i].transTime - df[i].dobTime < (clean.age[i] + 1) * SecondsPerYear
  {
  }

  /** Rows share a card id, a person id or a merchant id exactly when they share the card
      number, the person key or the merchant. */
  lemma AnonymiseDataIds(df: seq<Transaction>, i: nat, j: nat)
    requires i < |df| && j < |df|
    ensures var clean := AnonymiseData(df);
      && (clean.ccId[i] == clean.ccId[j] <==> df[i].ccNum == df[j].ccNum)
      && (clean.personId[i] == clean.personId[j] <==> PersonKey(df[i]) == PersonKey(df[j]))
      && (clean.merchantId[i] == clean.merchantId[j] <==> df[i].merchant == df[j].merchant)
  {
    StrLessIsStrictTotal();
    IntOrdersAreStrictTotal();
    var n := |df|;
    var keys := PersonKeys(df);
    var cc := seq(n, m requires 0 <= m < n => df[m].ccNum);
    var merchants := seq(n, m requires 0 <= m < n => df[m].merchant);
    assert cc[i] == df[i].ccNum && cc[j] == df[j].ccNum;
    assert keys[i] == PersonKey(df[i]) && keys[j] == PersonKey(df[j]);
    assert merchants[i] == df[i].merchant && merchants[j] == df[j].merchant;
  }

  /** A job category is -1 exactly when fewer than 5 persons hold the row's job key. */
  lemma AnonymiseDataJobs(df: seq<Transaction>, i: nat)
    requires i < |df|
    ensures var clean := AnonymiseData(df);
      clean.jobCategory[i] == -1 <==>
        |PersonsWithKey(seq(|df|, m requires 0 <= m < |df| => JobKey(df[m].job)),
                        clean.personId, JobKey(df[i].job))| < 5
  {
    StrLessIsStrictTotal();
    var clean := AnonymiseData(df);
    var jobs := seq(|df|, m requires 0 <= m < |df| => df[m].job);
    KAnonJobsRare(jobs, clean.personId, 5, i);
    assert seq(|jobs|, m requires 0 <= m < |jobs| => JobKey(jobs[m]))
        == seq(|df|, m requires 0 <= m < |df| => JobKey(df[m].job));
  }

  /**
   * The person key joins its parts with "_", which may itself occur in a name: two
   * different people can share a key, and then a person id.
   */
  lemma PersonKeyCollides()
    ensures var a := Transaction(0, 0, "", "", 0.0, "a_b", "c", "F", "j", 0, "d", 0, 0, 0);
      var b := Transaction(0, 0, "", "", 0.0, "a", "b_c", "F", "j", 0, "d", 0, 0, 0);
      a.first != b.first && AnonymiseData([a, b]).personId[0] == AnonymiseData([a, b]).personId[1]
  {
    var a := Transaction(0, 0, "", "", 0.0, "a_b", "c", "F", "j", 0, "d", 0, 0, 0);
    var b := Transaction(0, 0, "", "", 0.0, "a", "b_c", "F", "j", 0, "d", 0, 0, 0);
    assert PersonKey(a) == PersonKey(b);
    AnonymiseDataIds([a, b], 0, 1);
  }
}
