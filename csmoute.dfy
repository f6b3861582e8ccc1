/**
 * CSMOUTE resampling (Scripts/CSMOUTE.py): SMOTE appends minority rows interpolated between
 * a minority row and one of its nearest minority neighbours; SMUTE repeatedly replaces two
 * nearby majority rows by one row interpolated between them; CSMOUTE splits the gap between
 * the class sizes into a SMOTE share and a SMUTE share.
 *
 * Rows are sequences of reals (the feature columns, without `is_fraud`), labels are ints.
 * The random draws and the faiss nearest-neighbour search are parameters:
 *   - a `Draw` holds one iteration's `sample()` position, `randrange(5)` and `uniform(0, 1)`;
 *   - `search(X, q)` is `IndexFlatL2` fitted on `X` and searched for `q` with 6 neighbours.
 */
module Csmoute {
  import opened Wrappers

  type Row = seq<real>

  /** One iteration's random draws: `pick` chooses the sampled row (taken modulo the current
      row count, so every row is reachable), `slot` is `randrange(5)`, `r` is `uniform(0, 1)`. */
  datatype Draw = Draw(pick: nat, slot: nat, r: real)

  datatype SampleError =
    | EmptySample          // `sample()` of an empty frame raises ValueError
    | KeyError(key: int) // `drop` of a label the frame does not have
    | Unfinished           // the draws ran out before the loop condition failed

  predicate ValidDraws(draws: seq<Draw>) {
    forall t :: 0 <= t < |draws| ==> draws[t].slot < 5 && 0.0 <= draws[t].r <= 1.0
  }

  /**
   * What a flat faiss index over `n` vectors returns for 6 neighbours: six labels, the
   * first min(6, n) of them row positions and the rest -1.
   */
  predicate KnnShaped(knn: seq<int>, n: nat) {
    |knn| == 6 && forall j :: 0 <= j < 6 ==> -1 <= knn[j] < n && (knn[j] == -1 <==> j >= n)
  }

  ghost predicate FaissSearch(search: (seq<Row>, Row) -> seq<int>) {
    forall X: seq<Row>, q: Row :: KnnShaped(search(X, q), |X|)
  }

  predicate SameWidth(X: seq<Row>) {
    forall i, j :: 0 <= i < |X| && 0 <= j < |X| ==> |X[i]| == |X[j]|
  }

  /** `X.iloc[i]`, where -1 is the last row. */
  function ILoc<T>(X: seq<T>, i: int): (x: T)
    requires X != [] && -1 <= i < |X|
    ensures x in X
    ensures x == if i == -1 then X[|X| - 1] else X[i]
  {
    if i == -1 then X[|X| - 1] else X[i]
  }

  /** `x1 + r * (x2 - x1)`, column by column. */
  function Interp(a: Row, b: Row, r: real): (p: Row)
    requires |a| == |b|
    ensures |p| == |a|
  {
    seq(|a|, j requires 0 <= j < |a| => a[j] + r * (b[j] - a[j]))
  }

  /** The point lies on the segment from `a` to `b`. */
  ghost predicate OnSegment(p: Row, a: Row, b: Row) {
    |a| == |b| && exists r: real :: 0.0 <= r <= 1.0 && p == Interp(a, b, r)
  }

  // ---------------------------------------------------------------------------------------
  // Interpolation stays within the bounds of its end points
  // ---------------------------------------------------------------------------------------

  /** Each column of the row lies within `[lo, hi]`. */
  predicate InBox(p: Row, lo: Row, hi: Row) {
    |p| == |lo| == |hi| && forall j :: 0 <= j < |p| ==> lo[j] <= p[j] <= hi[j]
  }

  lemma Between(a: real, b: real, r: real, lo: real, hi: real)
    requires 0.0 <= r <= 1.0 && lo <= a <= hi && lo <= b <= hi
    ensures lo <= a + r * (b - a) <= hi
  {
    var t := r * (b - a);
    if a <= b {
      Fraction(r, b - a, t);
    } else {
      Fraction(r, a - b, -t);
    }
  }

  /** A fraction `r` in [0, 1] of a non-negative `d` lies between 0 and `d`. */
  lemma Fraction(r: real, d: real, t: real)
    requires 0.0 <= r <= 1.0 && 0.0 <= d && t == r * d
    ensures 0.0 <= t <= d
  {
    assert d - t == (1.0 - r) * d;
  }

  /** A point between two rows inside a box is inside the box. */
  lemma InterpInBox(a: Row, b: Row, r: real, lo: Row, hi: Row)
    requires 0.0 <= r <= 1.0 && InBox(a, lo, hi) && InBox(b, lo, hi)
    ensures InBox(Interp(a, b, r), lo, hi)
  {
    var p := Interp(a, b, r);
    forall j | 0 <= j < |p|
      ensures lo[j] <= p[j] <= hi[j]
    {
      Between(a[j], b[j], r, lo[j], hi[j]);
    }
  }

  // ---------------------------------------------------------------------------------------
  // SMOTE
  // ---------------------------------------------------------------------------------------

  /** One SMOTE row: the index is fitted once on the minority rows `X`, and both end points
      are rows of `X`. */
  function Synthetic(X: seq<Row>, d: Draw, search: (seq<Row>, Row) -> seq<int>): (p: Row)
    requires X != [] && SameWidth(X) && d.slot < 5 && FaissSearch(search)
    ensures |p| == |X[0]|
  {
    var x1 := X[d.pick % |X|];
    var neighbours := search(X, x1)[1..6];
    var x2 := ILoc(X, neighbours[d.slot]);
    Interp(x1, x2, d.r)
  }

  /** `SMOTE`: the minority rows followed by `max(n_smote, 0)` synthetic rows, all labelled
      with the one label sampled before the loop. */
  function Oversampled(X: seq<Row>, Y: seq<int>, nSmote: int, labelPick: nat, draws: seq<Draw>,
                       search: (seq<Row>, Row) -> seq<int>): (res: Result<(seq<Row>, seq<int>), SampleError>)
    requires |X| == |Y| && SameWidth(X) && ValidDraws(draws) && FaissSearch(search)
    requires |draws| >= nSmote
    ensures res.Failure? ==> res.error == EmptySample
    ensures res.Success? ==> |res.value.0| == |res.value.1| && SameWidth(res.value.0)
  {
    if Y == [] then Failure(EmptySample)
    else
      var m := if nSmote > 0 then nSmote else 0;
      Success((X + seq(m, t requires 0 <= t < m => Synthetic(X, draws[t], search)),
               Y + seq(m, t requires 0 <= t < m => Y[labelPick % |Y|])))
  }

  method Smote(X: seq<Row>, Y: seq<int>, nSmote: int, labelPick: nat, draws: seq<Draw>,
               search: (seq<Row>, Row) -> seq<int>)
    returns (out: Result<(seq<Row>, seq<int>), SampleError>)
    requires |X| == |Y| && SameWidth(X) && ValidDraws(draws) && FaissSearch(search)
    requires |draws| >= nSmote
    ensures out == Oversampled(X, Y, nSmote, labelPick, draws, search)
  {
    if |Y| == 0 {
      return Failure(EmptySample);
    }
    var newLabel := Y[labelPick % |Y|];
    var xs, ys := X, Y;
    while |xs| - |X| < nSmote
      invariant |X| <= |xs| && (|xs| == |X| || |xs| - |X| <= nSmote)
      invariant xs == X + seq(|xs| - |X|, t requires 0 <= t < |xs| - |X| => Synthetic(X, draws[t], search))
      invariant ys == Y + seq(|xs| - |X|, t requires 0 <= t < |xs| - |X| => newLabel)
      decreases nSmote - (|xs| - |X|)
    {
      var d := draws[|xs| - |X|];
      var x1 := X[d.pick % |X|];
      var neighbours := search(X, x1)[1..6];
      var x2 := ILoc(X, neighbours[d.slot]);
      var x3 := Interp(x1, x2, d.r);
      xs := xs + [x3];
      ys := ys + [newLabel];
    }
    return Success((xs, ys));
  }

  /**
   * SMOTE fails only on an empty minority; otherwise it keeps the minority rows as a prefix,
   * appends exactly `n_smote` rows (none when `n_smote <= 0`), and labels them all alike
   * with a minority label.
   */
  lemma OversampledSpec(X: seq<Row>, Y: seq<int>, nSmote: int, labelPick: nat, draws: seq<Draw>,
                        search: (seq<Row>, Row) -> seq<int>)
    requires |X| == |Y| && SameWidth(X) && ValidDraws(draws) && FaissSearch(search)
    requires |draws| >= nSmote
    ensures Oversampled(X, Y, nSmote, labelPick, draws, search).Failure? <==> Y == []
    ensures Oversampled(X, Y, nSmote, labelPick, draws, search).Success? ==>
      var (xs, ys) := Oversampled(X, Y, nSmote, labelPick, draws, search).value;
      && |xs| == |ys| == |X| + (if nSmote > 0 then nSmote else 0)
      && xs[..|X|] == X && ys[..|Y|] == Y
      && (forall t :: |Y| <= t < |ys| ==> ys[t] == ys[|Y|] && ys[t] in Y)
  {
    if Y != [] {
      assert Y[labelPick % |Y|] in Y;
    }
  }

  /**
   * Each SMOTE row lies on the segment from a minority row to the minority row in one of
   * the neighbour slots 1 to 5 that the search, fitted on the minority, returned for it.
   */
  lemma OversampledOnSegments(X: seq<Row>, Y: seq<int>, nSmote: int, labelPick: nat, draws: seq<Draw>,
                              search: (seq<Row>, Row) -> seq<int>, t: nat)
    requires |X| == |Y| && SameWidth(X) && ValidDraws(draws) && FaissSearch(search)
    requires |draws| >= nSmote
    requires Oversampled(X, Y, nSmote, labelPick, draws, search).Success?
    requires |X| <= t < |Oversampled(X, Y, nSmote, labelPick, draws, search).value.0|
    ensures var xs := Oversampled(X, Y, nSmote, labelPick, draws, search).value.0;
      exists i, s :: 0 <= i < |X| && 1 <= s < 6 && OnSegment(xs[t], X[i], ILoc(X, search(X, X[i])[s]))
  {
    var xs := Oversampled(X, Y, nSmote, labelPick, draws, search).value.0;
    var d := draws[t - |X|];
    var i := d.pick % |X|;
    var s := d.slot + 1;
    assert xs[t] == Synthetic(X, d, search);
    assert search(X, X[i])[1..6][d.slot] == search(X, X[i])[s];
    assert xs[t] == Interp(X[i], ILoc(X, search(X, X[i])[s]), d.r);
    assert OnSegment(xs[t], X[i], ILoc(X, search(X, X[i])[s]));
  }

  /** Every SMOTE row stays within any box holding all minority rows. */
  lemma OversampledInBox(X: seq<Row>, Y: seq<int>, nSmote: int, labelPick: nat, draws: seq<Draw>,
                         search: (seq<Row>, Row) -> seq<int>, lo: Row, hi: Row)
    requires |X| == |Y| && SameWidth(X) && ValidDraws(draws) && FaissSearch(search)
    requires |draws| >= nSmote
    requires forall i :: 0 <= i < |X| ==> InBox(X[i], lo, hi)
    requires Oversampled(X, Y, nSmote, labelPick, draws, search).Success?
    ensures forall p :: p in Oversampled(X, Y, nSmote, labelPick, draws, search).value.0 ==> InBox(p, lo, hi)
  {
    var xs := Oversampled(X, Y, nSmote, labelPick, draws, search).value.0;
    forall p | p in xs
      ensures InBox(p, lo, hi)
    {
      var t :| 0 <= t < |xs| && xs[t] == p;
      if t >= |X| {
        var d := draws[t - |X|];
        var x1 := X[d.pick % |X|];
        var x2 := ILoc(X, search(X, x1)[1..6][d.slot]);
        assert p == Interp(x1, x2, d.r);
        InterpInBox(x1, x2, d.r, lo, hi);
      }
    }
  }

  // ---------------------------------------------------------------------------------------
  // SMUTE
  // ---------------------------------------------------------------------------------------

  /** The rows `drop([a, b])` removes: one when `a == b`, two otherwise. */
  function Dropped<T>(s: seq<T>, a: nat, b: nat): multiset<T>
    requires a < |s| && b < |s|
  {
    if a == b then multiset{s[a]} else multiset{s[a], s[b]}
  }

  /** `drop([a, b]).reset_index(drop=True)` for labels that are row positions: removes one
      row when `a == b`, two otherwise, keeping the order of the rest. */
  function DropTwo<T>(s: seq<T>, a: nat, b: nat): (r: seq<T>)
    requires a < |s| && b < |s|
    ensures |r| == if a == b then |s| - 1 else |s| - 2
    ensures forall x :: x in r ==> x in s
  {
    if a == b then
      s[..a] + s[a + 1..]
    else
      var hi := if a < b then b else a;
      var lo := if a < b then a else b;
      var once := s[..hi] + s[hi + 1..];
      assert forall x :: x in once ==> x in s;
      once[..lo] + once[lo + 1..]
  }

  /** `DropTwo` removes exactly the rows at `a` and `b`, and nothing else. */
  lemma DropTwoRows<T>(s: seq<T>, a: nat, b: nat)
    requires a < |s| && b < |s|
    ensures multiset(DropTwo(s, a, b)) + Dropped(s, a, b) == multiset(s)
  {
    if a == b {
      RemoveAt(s, a);
    } else {
      var hi := if a < b then b else a;
      var lo := if a < b then a else b;
      var once := s[..hi] + s[hi + 1..];
      var r := once[..lo] + once[lo + 1..];
      assert DropTwo(s, a, b) == r;
      assert Dropped(s, a, b) == multiset{s[lo], s[hi]};
      RemoveTwoAt(s, once, r, lo, hi);
    }
  }

  lemma RemoveTwoAt<T>(s: seq<T>, once: seq<T>, r: seq<T>, lo: nat, hi: nat)
    requires lo < hi < |s| && once == s[..hi] + s[hi + 1..] && r == once[..lo] + once[lo + 1..]
    ensures multiset(r) + multiset{s[lo], s[hi]} == multiset(s)
  {
    RemoveAt(s, hi);
    RemoveAt(once, lo);
    assert once[lo] == s[lo];
  }

  lemma RemoveAt<T>(s: seq<T>, i: nat)
    requires i < |s|
    ensures multiset(s[..i] + s[i + 1..]) + multiset{s[i]} == multiset(s)
  {
    assert s == s[..i] + [s[i]] + s[i + 1..];
  }

  /**
   * One SMUTE iteration on the current majority rows: the index is refitted on them, so the
   * second end point may be a row appended by an earlier iteration. A -1 neighbour (fewer
   * than six rows left) is read as the last row but cannot be dropped.
   */
  function SmuteStep(xs: seq<Row>, ys: seq<int>, newLabel: int, d: Draw,
                     search: (seq<Row>, Row) -> seq<int>): (res: Result<(seq<Row>, seq<int>), SampleError>)
    requires |xs| == |ys| >= 1 && SameWidth(xs) && d.slot < 5 && 0.0 <= d.r <= 1.0 && FaissSearch(search)
    ensures res.Success? ==>
      var x2Id := search(xs, xs[d.pick % |xs|])[1 + d.slot];
      && 0 <= x2Id < |xs|
      && |res.value.0| == |res.value.1| >= 1
      && |res.value.0| == (if x2Id == d.pick % |xs| then |xs| else |xs| - 1)
    ensures res.Failure? ==> res.error == KeyError(-1) && |xs| < 6
  {
    var x1Id := d.pick % |xs|;
    var x1 := xs[x1Id];
    var neighbours := search(xs, x1)[1..6];
    var x2Id := neighbours[d.slot];
    var x2 := ILoc(xs, x2Id);
    var x3 := Interp(x1, x2, d.r);
    if x2Id == -1 then Failure(KeyError(-1))
    else Success((DropTwo(xs, x1Id, x2Id) + [x3], DropTwo(ys, x1Id, x2Id) + [newLabel]))
  }

  /**
   * A successful step keeps every row but the two end points (one when they coincide) and
   * appends the interpolated row, labelled with the new label.
   */
  lemma SmuteStepRows(xs: seq<Row>, ys: seq<int>, newLabel: int, d: Draw,
                      search: (seq<Row>, Row) -> seq<int>)
    requires |xs| == |ys| >= 1 && SameWidth(xs) && d.slot < 5 && 0.0 <= d.r <= 1.0 && FaissSearch(search)
    requires SmuteStep(xs, ys, newLabel, d, search).Success?
    ensures var x1Id := d.pick % |xs|;
      var x2Id := search(xs, xs[x1Id])[1 + d.slot];
      var (xs', ys') := SmuteStep(xs, ys, newLabel, d, search).value;
      && 0 <= x2Id < |xs|
      && xs'[|xs'| - 1] == Interp(xs[x1Id], xs[x2Id], d.r)
      && ys'[|ys'| - 1] == newLabel
      && multiset(xs'[..|xs'| - 1]) + Dropped(xs, x1Id, x2Id) == multiset(xs)
      && multiset(ys'[..|ys'| - 1]) + Dropped(ys, x1Id, x2Id) == multiset(ys)
  {
    var x1Id := d.pick % |xs|;
    var x2Id := search(xs, xs[x1Id])[1 + d.slot];
    var (xs', ys') := SmuteStep(xs, ys, newLabel, d, search).value;
    assert xs'[..|xs'| - 1] == DropTwo(xs, x1Id, x2Id);
    assert ys'[..|ys'| - 1] == DropTwo(ys, x1Id, x2Id);
    DropTwoRows(xs, x1Id, x2Id);
    DropTwoRows(ys, x1Id, x2Id);
  }

  lemma SmuteStepShape(xs: seq<Row>, ys: seq<int>, newLabel: int, d: Draw,
                       search: (seq<Row>, Row) -> seq<int>, lo: Row, hi: Row, labels: set<int>)
    requires |xs| == |ys| >= 1 && SameWidth(xs) && d.slot < 5 && 0.0 <= d.r <= 1.0 && FaissSearch(search)
    requires SmuteStep(xs, ys, newLabel, d, search).Success?
    ensures SameWidth(SmuteStep(xs, ys, newLabel, d, search).value.0)
    ensures (forall p :: p in xs ==> InBox(p, lo, hi)) ==>
      forall p :: p in SmuteStep(xs, ys, newLabel, d, search).value.0 ==> InBox(p, lo, hi)
    ensures (forall y :: y in ys ==> y in labels) && newLabel in labels ==>
      forall y :: y in SmuteStep(xs, ys, newLabel, d, search).value.1 ==> y in labels
  {
    var x1 := xs[d.pick % |xs|];
    var x2 := ILoc(xs, search(xs, x1)[1..6][d.slot]);
    var x3 := Interp(x1, x2, d.r);
    var (xs', ys') := SmuteStep(xs, ys, newLabel, d, search).value;
    assert xs'[|xs'| - 1] == x3;
    assert forall p :: p in xs' ==> p in xs || p == x3;
    assert forall y :: y in ys' ==> y in ys || y == newLabel;
    assert x1 in xs && x2 in xs;
    if forall p :: p in xs ==> InBox(p, lo, hi) {
      InterpInBox(x1, x2, d.r, lo, hi);
    }
    forall i, j | 0 <= i < |xs'| && 0 <= j < |xs'|
      ensures |xs'[i]| == |xs'[j]|
    {
      assert xs'[i] in xs' && xs'[j] in xs';
    }
  }

  /** The `while` loop of `SMUTE`, one draw per iteration, from a frame of `n0` rows. */
  function SmuteLoop(n0: nat, xs: seq<Row>, ys: seq<int>, nSmute: int, newLabel: int, draws: seq<Draw>,
                     search: (seq<Row>, Row) -> seq<int>): (res: Result<(seq<Row>, seq<int>), SampleError>)
    requires |xs| == |ys| >= 1 && SameWidth(xs) && ValidDraws(draws) && FaissSearch(search)
    ensures res.Failure? ==> res.error == Unfinished || res.error == KeyError(-1)
    ensures res.Success? ==>
      |res.value.0| == |res.value.1| >= 1 && SameWidth(res.value.0) && n0 - |res.value.0| >= nSmute
    decreases |draws|
  {
    if n0 - |xs| >= nSmute then Success((xs, ys))
    else if draws == [] then Failure(Unfinished)
    else
      match SmuteStep(xs, ys, newLabel, draws[0], search)
      case Failure(e) => Failure(e)
      case Success((xs', ys')) =>
        SmuteStepShape(xs, ys, newLabel, draws[0], search, [], [], {});
        SmuteLoop(n0, xs', ys', nSmute, newLabel, draws[1..], search)
  }

  /** One turn of the loop: the step's failure ends it, its success continues from the new frame. */
  lemma SmuteLoopUnfold(n0: nat, xs: seq<Row>, ys: seq<int>, nSmute: int, newLabel: int, draws: seq<Draw>,
                        search: (seq<Row>, Row) -> seq<int>)
    requires |xs| == |ys| >= 1 && SameWidth(xs) && ValidDraws(draws) && FaissSearch(search)
    requires n0 - |xs| < nSmute && draws != []
    ensures var step := SmuteStep(xs, ys, newLabel, draws[0], search);
      && (step.Failure? ==> SmuteLoop(n0, xs, ys, nSmute, newLabel, draws, search) == Failure(step.error))
      && (step.Success? ==>
            && |step.value.0| == |step.value.1| >= 1 && SameWidth(step.value.0)
            && SmuteLoop(n0, xs, ys, nSmute, newLabel, draws, search)
               == SmuteLoop(n0, step.value.0, step.value.1, nSmute, newLabel, draws[1..], search))
  {
    if SmuteStep(xs, ys, newLabel, draws[0], search).Success? {
      SmuteStepShape(xs, ys, newLabel, draws[0], search, [], [], {});
    }
  }

  /** `SMUTE`: the label of the new rows is sampled once, before the loop. */
  function Undersampled(X: seq<Row>, Y: seq<int>, nSmute: int, labelPick: nat, draws: seq<Draw>,
                        search: (seq<Row>, Row) -> seq<int>): (res: Result<(seq<Row>, seq<int>), SampleError>)
    requires |X| == |Y| && SameWidth(X) && ValidDraws(draws) && FaissSearch(search)
    ensures res.Failure? ==> res.error in {EmptySample, Unfinished, KeyError(-1)}
    ensures res.Success? ==> |res.value.0| == |res.value.1| && SameWidth(res.value.0)
  {
    if Y == [] then Failure(EmptySample)
    else SmuteLoop(|X|, X, Y, nSmute, Y[labelPick % |Y|], draws, search)
  }

  method Smute(X: seq<Row>, Y: seq<int>, nSmute: int, labelPick: nat, draws: seq<Draw>,
               search: (seq<Row>, Row) -> seq<int>)
    returns (out: Result<(seq<Row>, seq<int>), SampleError>)
    requires |X| == |Y| && SameWidth(X) && ValidDraws(draws) && FaissSearch(search)
    ensures out == Undersampled(X, Y, nSmute, labelPick, draws, search)
  {
    if |Y| == 0 {
      return Failure(EmptySample);
    }
    var newLabel := Y[labelPick % |Y|];
    var xs, ys := X, Y;
    var t := 0;
    while |X| - |xs| < nSmute
      invariant t <= |draws| && |xs| == |ys| >= 1 && SameWidth(xs)
      invariant Undersampled(X, Y, nSmute, labelPick, draws, search)
             == SmuteLoop(|X|, xs, ys, nSmute, newLabel, draws[t..], search)
      decreases |draws| - t
    {
      if t == |draws| {
        return Failure(Unfinished);
      }
      var d := draws[t];
      assert draws[t..][0] == d && draws[t..][1..] == draws[t + 1..];
      SmuteLoopUnfold(|X|, xs, ys, nSmute, newLabel, draws[t..], search);
      var x1Id := d.pick % |xs|;
      var x1 := xs[x1Id];
      var neighbours := search(xs, x1)[1..6];
      var x2Id := neighbours[d.slot];
      var x2 := ILoc(xs, x2Id);
      var x3 := Interp(x1, x2, d.r);
      if x2Id == -1 {
        return Failure(KeyError(-1));
      }
      xs, ys := DropTwo(xs, x1Id, x2Id) + [x3], DropTwo(ys, x1Id, x2Id) + [newLabel];
      t := t + 1;
    }
    return Success((xs, ys));
  }

  /**
   * SMUTE's loop only ever shrinks the frame by at most one row per iteration, so when it
   * finishes it has shrunk by exactly `n_smute` rows (by none when `n_smute <= 0`).
   */
  lemma {:induction false} SmuteLoopShrinks(n0: nat, xs: seq<Row>, ys: seq<int>, nSmute: int, newLabel: int,
                                            draws: seq<Draw>, search: (seq<Row>, Row) -> seq<int>)
    requires |xs| == |ys| >= 1 && SameWidth(xs) && ValidDraws(draws) && FaissSearch(search)
    requires |xs| <= n0 && (|xs| == n0 || n0 - |xs| <= nSmute)
    ensures SmuteLoop(n0, xs, ys, nSmute, newLabel, draws, search).Success? ==>
      var (xs', ys') := SmuteLoop(n0, xs, ys, nSmute, newLabel, draws, search).value;
      |xs'| == |ys'| == n0 - (if nSmute > 0 then nSmute else 0)
    decreases |draws|
  {
    if n0 - |xs| < nSmute && draws != [] {
      var step := SmuteStep(xs, ys, newLabel, draws[0], search);
      if step.Success? {
        SmuteStepShape(xs, ys, newLabel, draws[0], search, [], [], {});
        SmuteLoopShrinks(n0, step.value.0, step.value.1, nSmute, newLabel, draws[1..], search);
      }
    }
  }

  /** SMUTE's rows stay within any box holding the original majority rows, and its labels
      are original majority labels. */
  lemma {:induction false} SmuteLoopInBox(n0: nat, xs: seq<Row>, ys: seq<int>, nSmute: int, newLabel: int,
                                          draws: seq<Draw>, search: (seq<Row>, Row) -> seq<int>,
                                          lo: Row, hi: Row, labels: set<int>)
    requires |xs| == |ys| >= 1 && SameWidth(xs) && ValidDraws(draws) && FaissSearch(search)
    requires (forall y :: y in ys ==> y in labels) && newLabel in labels
    requires SmuteLoop(n0, xs, ys, nSmute, newLabel, draws, search).Success?
    ensures (forall p :: p in xs ==> InBox(p, lo, hi)) ==>
      forall p :: p in SmuteLoop(n0, xs, ys, nSmute, newLabel, draws, search).value.0 ==> InBox(p, lo, hi)
    ensures forall y :: y in SmuteLoop(n0, xs, ys, nSmute, newLabel, draws, search).value.1 ==> y in labels
    decreases |draws|
  {
    if n0 - |xs| < nSmute {
      var step := SmuteStep(xs, ys, newLabel, draws[0], search);
      SmuteStepShape(xs, ys, newLabel, draws[0], search, lo, hi, labels);
      SmuteLoopInBox(n0, step.value.0, step.value.1, nSmute, newLabel, draws[1..], search, lo, hi, labels);
    }
  }

  /** Every row an iteration appends carries `newLabel`: no other label gains a row. */
  lemma SmuteStepLabels(xs: seq<Row>, ys: seq<int>, newLabel: int, d: Draw,
                        search: (seq<Row>, Row) -> seq<int>, y: int)
    requires |xs| == |ys| >= 1 && SameWidth(xs) && d.slot < 5 && 0.0 <= d.r <= 1.0 && FaissSearch(search)
    requires SmuteStep(xs, ys, newLabel, d, search).Success? && y != newLabel
    ensures multiset(SmuteStep(xs, ys, newLabel, d, search).value.1)[y] <= multiset(ys)[y]
  {
    var ys' := SmuteStep(xs, ys, newLabel, d, search).value.1;
    SmuteStepRows(xs, ys, newLabel, d, search);
    assert ys' == ys'[..|ys'| - 1] + [newLabel];
  }

  /** Over the whole loop, only the label drawn before it gains rows. */
  lemma {:induction false} SmuteLoopLabels(n0: nat, xs: seq<Row>, ys: seq<int>, nSmute: int, newLabel: int,
                                           draws: seq<Draw>, search: (seq<Row>, Row) -> seq<int>, y: int)
    requires |xs| == |ys| >= 1 && SameWidth(xs) && ValidDraws(draws) && FaissSearch(search)
    requires SmuteLoop(n0, xs, ys, nSmute, newLabel, draws, search).Success? && y != newLabel
    ensures multiset(SmuteLoop(n0, xs, ys, nSmute, newLabel, draws, search).value.1)[y] <= multiset(ys)[y]
    decreases |draws|
  {
    if n0 - |xs| < nSmute {
      var step := SmuteStep(xs, ys, newLabel, draws[0], search);
      SmuteStepShape(xs, ys, newLabel, draws[0], search, [], [], {});
      SmuteStepLabels(xs, ys, newLabel, draws[0], search, y);
      SmuteLoopLabels(n0, step.value.0, step.value.1, nSmute, newLabel, draws[1..], search, y);
    }
  }

  /** `SMUTE`'s new rows all carry the one label `y_maj_prime.sample()` drew before the loop. */
  lemma UndersampledLabels(X: seq<Row>, Y: seq<int>, nSmute: int, labelPick: nat, draws: seq<Draw>,
                           search: (seq<Row>, Row) -> seq<int>, y: int)
    requires |X| == |Y| && SameWidth(X) && ValidDraws(draws) && FaissSearch(search)
    requires Undersampled(X, Y, nSmute, labelPick, draws, search).Success?
    requires y != Y[labelPick % |Y|]
    ensures multiset(Undersampled(X, Y, nSmute, labelPick, draws, search).value.1)[y] <= multiset(Y)[y]
  {
    SmuteLoopLabels(|X|, X, Y, nSmute, Y[labelPick % |Y|], draws, search, y);
  }

  /**
   * While at least six rows remain at every iteration, the search never pads with -1 and no
   * KeyError can arise: this holds whenever the frame starts with at least `n_smute + 5`
   * rows.
   */
  lemma {:induction false} SmuteLoopNoKeyError(n0: nat, xs: seq<Row>, ys: seq<int>, nSmute: int, newLabel: int,
                                               draws: seq<Draw>, search: (seq<Row>, Row) -> seq<int>)
    requires |xs| == |ys| >= 1 && SameWidth(xs) && ValidDraws(draws) && FaissSearch(search)
    requires |xs| <= n0 && n0 >= nSmute + 5
    ensures !SmuteLoop(n0, xs, ys, nSmute, newLabel, draws, search).Failure?
         || SmuteLoop(n0, xs, ys, nSmute, newLabel, draws, search).error != KeyError(-1)
    decreases |draws|
  {
    if n0 - |xs| < nSmute && draws != [] {
      var step := SmuteStep(xs, ys, newLabel, draws[0], search);
      assert step.Success?;
      SmuteStepShape(xs, ys, newLabel, draws[0], search, [], [], {});
      SmuteLoopNoKeyError(n0, step.value.0, step.value.1, nSmute, newLabel, draws[1..], search);
    }
  }

  /** The SMUTE-level statements: only an empty majority gives the empty-sample error; a
      finished run has shrunk by `n_smute` and keeps majority labels; a large enough frame
      never meets the KeyError. */
  lemma UndersampledSpec(X: seq<Row>, Y: seq<int>, nSmute: int, labelPick: nat, draws: seq<Draw>,
                         search: (seq<Row>, Row) -> seq<int>)
    requires |X| == |Y| && SameWidth(X) && ValidDraws(draws) && FaissSearch(search)
    ensures Undersampled(X, Y, nSmute, labelPick, draws, search) == Failure(EmptySample) <==> Y == []
    ensures Undersampled(X, Y, nSmute, labelPick, draws, search).Success? ==>
      var (xs, ys) := Undersampled(X, Y, nSmute, labelPick, draws, search).value;
      && |xs| == |ys| == |X| - (if nSmute > 0 then nSmute else 0)
      && (forall y :: y in ys ==> y in Y)
    ensures |X| >= nSmute + 5 ==> Undersampled(X, Y, nSmute, labelPick, draws, search) != Failure(KeyError(-1))
  {
    if Y != [] {
      var newLabel := Y[labelPick % |Y|];
      SmuteLoopNoEmpty(|X|, X, Y, nSmute, newLabel, draws, search);
      SmuteLoopShrinks(|X|, X, Y, nSmute, newLabel, draws, search);
      if |X| >= nSmute + 5 {
        SmuteLoopNoKeyError(|X|, X, Y, nSmute, newLabel, draws, search);
      }
      if Undersampled(X, Y, nSmute, labelPick, draws, search).Success? {
        SmuteLoopInBox(|X|, X, Y, nSmute, newLabel, draws, search, [], [], set y | y in Y);
      }
    }
  }

  /** A finished SMUTE run keeps every row within any box holding the majority rows. */
  lemma UndersampledInBox(X: seq<Row>, Y: seq<int>, nSmute: int, labelPick: nat, draws: seq<Draw>,
                          search: (seq<Row>, Row) -> seq<int>, lo: Row, hi: Row)
    requires |X| == |Y| && SameWidth(X) && ValidDraws(draws) && FaissSearch(search)
    requires forall p :: p in X ==> InBox(p, lo, hi)
    requires Undersampled(X, Y, nSmute, labelPick, draws, search).Success?
    ensures forall p :: p in Undersampled(X, Y, nSmute, labelPick, draws, search).value.0 ==> InBox(p, lo, hi)
  {
    var newLabel := Y[labelPick % |Y|];
    SmuteLoopInBox(|X|, X, Y, nSmute, newLabel, draws, search, lo, hi, set y | y in Y);
  }

  /** The loop never raises the empty-sample error: the frame never becomes empty. */
  lemma {:induction false} SmuteLoopNoEmpty(n0: nat, xs: seq<Row>, ys: seq<int>, nSmute: int, newLabel: int,
                                            draws: seq<Draw>, search: (seq<Row>, Row) -> seq<int>)
    requires |xs| == |ys| >= 1 && SameWidth(xs) && ValidDraws(draws) && FaissSearch(search)
    ensures SmuteLoop(n0, xs, ys, nSmute, newLabel, draws, search) != Failure(EmptySample)
    decreases |draws|
  {
    if n0 - |xs| < nSmute && draws != [] {
      var step := SmuteStep(xs, ys, newLabel, draws[0], search);
      if step.Success? {
        SmuteStepShape(xs, ys, newLabel, draws[0], search, [], [], {});
        SmuteLoopNoEmpty(n0, step.value.0, step.value.1, nSmute, newLabel, draws[1..], search);
      }
    }
  }

  // ---------------------------------------------------------------------------------------
  // CSMOUTE
  // ---------------------------------------------------------------------------------------

  /** Python's `round` of a float to an int: nearest integer, ties to the even one. */
  function RoundHalfEven(x: real): (n: int)
    ensures -0.5 <= n as real - x <= 0.5
    ensures x - x.Floor as real == 0.5 ==> n % 2 == 0
  {
    var f := x.Floor;
    var frac := x - f as real;
    if frac < 0.5 then f
    else if frac > 0.5 then f + 1
    else if f % 2 == 0 then f else f + 1
  }

  /** The split of the class gap: `(n_smote, n_smute)`. */
  function Split(n: int, ratio: real): (parts: (int, int))
    ensures parts.0 + parts.1 == n
    ensures 0 <= n && 0.0 <= ratio <= 1.0 ==> 0 <= parts.0 <= n && 0 <= parts.1 <= n
  {
    var nSmote := RoundHalfEven(n as real * ratio);
    RoundWithin(n, ratio);
    (nSmote, n - nSmote)
  }

  lemma RoundWithin(n: int, ratio: real)
    ensures 0 <= n && 0.0 <= ratio <= 1.0 ==> 0 <= RoundHalfEven(n as real * ratio) <= n
  {
    if 0 <= n && 0.0 <= ratio <= 1.0 {
      var x := n as real * ratio;
      Fraction(ratio, n as real, x);
      assert 0.0 <= x <= n as real;
      var k := RoundHalfEven(x);
      assert -0.5 <= k as real - x <= 0.5;
      assert -1.0 < k as real && k as real < n as real + 1.0;
    }
  }

  /** `CSMOUTE`: SMOTE on the minority with `n_smote`, then SMUTE on the majority with
      `n_smute`; the result is (majority rows, labels, minority rows, labels). */
  function Resampled(xMaj: seq<Row>, yMaj: seq<int>, xMin: seq<Row>, yMin: seq<int>, ratio: real,
                     minPick: nat, majPick: nat, smoteDraws: seq<Draw>, smuteDraws: seq<Draw>,
                     search: (seq<Row>, Row) -> seq<int>): (res: Result<(seq<Row>, seq<int>, seq<Row>, seq<int>), SampleError>)
    requires |xMaj| == |yMaj| && |xMin| == |yMin| && SameWidth(xMaj) && SameWidth(xMin)
    requires ValidDraws(smoteDraws) && ValidDraws(smuteDraws) && FaissSearch(search)
    requires |smoteDraws| >= Split(|xMaj| - |xMin|, ratio).0
    ensures res.Failure? ==> res.error in {EmptySample, Unfinished, KeyError(-1)}
    ensures res.Success? ==> |res.value.0| == |res.value.1| && |res.value.2| == |res.value.3|
    ensures res.Success? ==> SameWidth(res.value.0) && SameWidth(res.value.2)
  {
    var (nSmote, nSmute) := Split(|xMaj| - |xMin|, ratio);
    match Oversampled(xMin, yMin, nSmote, minPick, smoteDraws, search)
    case Failure(e) => Failure(e)
    case Success((xMin', yMin')) =>
      match Undersampled(xMaj, yMaj, nSmute, majPick, smuteDraws, search)
      case Failure(e) => Failure(e)
      case Success((xMaj', yMaj')) => Success((xMaj', yMaj', xMin', yMin'))
  }

  method Csmoute(xMaj: seq<Row>, yMaj: seq<int>, xMin: seq<Row>, yMin: seq<int>, ratio: real,
                 minPick: nat, majPick: nat, smoteDraws: seq<Draw>, smuteDraws: seq<Draw>,
                 search: (seq<Row>, Row) -> seq<int>)
    returns (out: Result<(seq<Row>, seq<int>, seq<Row>, seq<int>), SampleError>)
    requires |xMaj| == |yMaj| && |xMin| == |yMin| && SameWidth(xMaj) && SameWidth(xMin)
    requires ValidDraws(smoteDraws) && ValidDraws(smuteDraws) && FaissSearch(search)
    requires |smoteDraws| >= Split(|xMaj| - |xMin|, ratio).0
    ensures out == Resampled(xMaj, yMaj, xMin, yMin, ratio, minPick, majPick, smoteDraws, smuteDraws, search)
  {
    var n := |xMaj| - |xMin|;
    var (nSmote, nSmute) := Split(n, ratio);
    var minority := Smote(xMin, yMin, nSmote, minPick, smoteDraws, search);
    if minority.Failure? {
      return Failure(minority.error);
    }
    var majority := Smute(xMaj, yMaj, nSmute, majPick, smuteDraws, search);
    if majority.Failure? {
      return Failure(majority.error);
    }
    var (xMaj', yMaj') := majority.value;
    var (xMin', yMin') := minority.value;
    return Success((xMaj', yMaj', xMin', yMin'));
  }

  /**
   * With a majority at least as large as the minority and a ratio in [0, 1], a finished
   * CSMOUTE leaves both classes with `|min| + n_smote` rows: they are balanced.
   */
  lemma ResampledBalanced(xMaj: seq<Row>, yMaj: seq<int>, xMin: seq<Row>, yMin: seq<int>, ratio: real,
                          minPick: nat, majPick: nat, smoteDraws: seq<Draw>, smuteDraws: seq<Draw>,
                          search: (seq<Row>, Row) -> seq<int>)
    requires |xMaj| == |yMaj| && |xMin| == |yMin| && SameWidth(xMaj) && SameWidth(xMin)
    requires ValidDraws(smoteDraws) && ValidDraws(smuteDraws) && FaissSearch(search)
    requires |smoteDraws| >= Split(|xMaj| - |xMin|, ratio).0
    requires |xMin| <= |xMaj| && 0.0 <= ratio <= 1.0
    requires Resampled(xMaj, yMaj, xMin, yMin, ratio, minPick, majPick, smoteDraws, smuteDraws, search).Success?
    ensures var (xMaj', yMaj', xMin', yMin') :=
        Resampled(xMaj, yMaj, xMin, yMin, ratio, minPick, majPick, smoteDraws, smuteDraws, search).value;
      && |xMaj'| == |yMaj'| == |xMin'| == |yMin'| == |xMin| + Split(|xMaj| - |xMin|, ratio).0
  {
    var (nSmote, nSmute) := Split(|xMaj| - |xMin|, ratio);
    assert 0 <= nSmote && 0 <= nSmute && nSmote + nSmute == |xMaj| - |xMin|;
    OversampledSpec(xMin, yMin, nSmote, minPick, smoteDraws, search);
    UndersampledSpec(xMaj, yMaj, nSmute, majPick, smuteDraws, search);
    var minority := Oversampled(xMin, yMin, nSmote, minPick, smoteDraws, search);
    var majority := Undersampled(xMaj, yMaj, nSmute, majPick, smuteDraws, search);
    assert minority.Success? && majority.Success?;
    assert |minority.value.0| == |minority.value.1| == |xMin| + nSmote;
    assert |majority.value.0| == |majority.value.1| == |xMaj| - nSmute;
  }
}
