/**
 * MDAV (Maximum Distance to Average Vector) micro-aggregation of the (lat, long) columns,
 * as the script Preparation/MDAV.py runs it: standardise both columns, repeatedly peel two
 * clusters of k rows off the working table while more than 2k rows remain, then overwrite
 * every clustered row's coordinates with its cluster's de-standardised mean.
 *
 * The working table `stand` is represented by its row labels. It starts with the default
 * index 0..N-1 and is only ever filtered with `drop`, so its row order is ascending label
 * order and "first occurrence" (idxmax, nsmallest with keep="first") means "smallest label".
 * Distances are compared squared: the square root is monotone, so the arg-max and the k
 * smallest are the same.
 */
module Mdav {
  import opened Wrappers
  import opened Ordering

  /** One row's coordinates. */
  datatype Point = Point(lat: real, long: real)

  datatype MdavError =
    | KeyError(key: nat)      // `stand["lat"][s]` after row s left with r's cluster
    | NoObjectsToConcatenate    // `pd.concat([])`: not a single cluster was formed

  /** The result of the script: the loop's clusters (`k_list` before the remainder step),
      the rows still in `stand` after the loop, and the new lat/long of every input row
      (None where the index-aligned write-back finds no row, i.e. a missing value). */
  datatype Aggregation = Aggregation(clusters: seq<seq<nat>>, remainder: seq<nat>, coords: seq<Option<Point>>)

  /** Square of the Euclidean distance. */
  function SqDist(p: Point, q: Point): real {
    (p.lat - q.lat) * (p.lat - q.lat) + (p.long - q.long) * (p.long - q.long)
  }

  lemma SqDistNonNegative(p: Point, q: Point)
    ensures SqDist(p, q) >= 0.0
    ensures SqDist(p, p) == 0.0
  {
    var a, b := p.lat - q.lat, p.long - q.long;
    assert a * a >= 0.0 && b * b >= 0.0;
  }

  ghost predicate InRange(ws: seq<nat>, n: nat) {
    forall x :: x in ws ==> x < n
  }

  ghost predicate Increasing(ws: seq<nat>) {
    forall i, j :: 0 <= i < j < |ws| ==> ws[i] < ws[j]
  }

  /** `ws` is a valid label list of a table filtered from one with `n` rows. */
  ghost predicate Labels(ws: seq<nat>, n: nat) {
    Increasing(ws) && InRange(ws, n)
  }

  lemma Tail(ws: seq<nat>, n: nat)
    requires ws != []
    ensures forall x :: x in ws <==> x == ws[0] || x in ws[1..]
    ensures InRange(ws, n) ==> InRange(ws[1..], n)
    ensures Increasing(ws) ==> Increasing(ws[1..]) && forall x :: x in ws[1..] ==> ws[0] < x
  {
    assert ws == [ws[0]] + ws[1..];
  }

  /** The default index 0..n-1. */
  function Range(n: nat): (ws: seq<nat>)
    ensures |ws| == n && Labels(ws, n)
    ensures forall x: nat :: x in ws <==> x < n
  {
    var ws := seq(n, i => i);
    assert forall x: nat :: x in ws <==> x < n by {
      forall x: nat ensures x in ws <==> x < n {
        if x < n { assert ws[x] == x; }
        if x in ws { var i :| 0 <= i < n && ws[i] == x; }
      }
    }
    ws
  }

  function Sum(pts: seq<Point>, ws: seq<nat>): Point
    requires InRange(ws, |pts|)
  {
    if ws == [] then Point(0.0, 0.0)
    else
      Tail(ws, |pts|);
      var rest := Sum(pts, ws[1..]);
      assert ws[0] in ws;
      Point(pts[ws[0]].lat + rest.lat, pts[ws[0]].long + rest.long)
  }

  /** `DataFrame.mean()` over the rows labelled `ws`. */
  function Mean(pts: seq<Point>, ws: seq<nat>): (m: Point)
    requires ws != [] && InRange(ws, |pts|)
    ensures m.lat * |ws| as real == Sum(pts, ws).lat
    ensures m.long * |ws| as real == Sum(pts, ws).long
  {
    var s := Sum(pts, ws);
    var n := |ws| as real;
    DivBack(s.lat, n, s.lat / n);
    DivBack(s.long, n, s.long / n);
    Point(s.lat / n, s.long / n)
  }

  lemma DivBack(x: real, d: real, q: real)
    requires d != 0.0 && q == x / d
    ensures q * d == x
  {
  }

  /** `(values - mean) / stdev`. */
  function Standardise(values: seq<Point>, mean: Point, stdev: Point): (stand: seq<Point>)
    requires stdev.lat != 0.0 && stdev.long != 0.0
    ensures |stand| == |values|
  {
    seq(|values|, i requires 0 <= i < |values| =>
      Point((values[i].lat - mean.lat) / stdev.lat, (values[i].long - mean.long) / stdev.long))
  }

  /** `centroid * stdev + mean`. */
  function Denormalise(c: Point, mean: Point, stdev: Point): (p: Point)
    ensures stdev.lat != 0.0 && stdev.long != 0.0 ==>
      (p.lat - mean.lat) / stdev.lat == c.lat && (p.long - mean.long) / stdev.long == c.long
  {
    var p := Point(c.lat * stdev.lat + mean.lat, c.long * stdev.long + mean.long);
    Unscale(c.lat, stdev.lat, p.lat - mean.lat);
    Unscale(c.long, stdev.long, p.long - mean.long);
    p
  }

  /** Standardising undoes the write-back's `* stdev + mean`. */
  lemma Unscale(c: real, sd: real, t: real)
    requires t == c * sd
    ensures sd != 0.0 ==> t / sd == c
  {
  }

  /**
   * `distance.idxmax()`: the first row (smallest label) whose distance to `c` is maximal.
   */
  function Farthest(pts: seq<Point>, ws: seq<nat>, c: Point): (r: nat)
    requires ws != [] && Labels(ws, |pts|)
    ensures r in ws
    ensures forall j :: j in ws ==> SqDist(pts[j], c) <= SqDist(pts[r], c)
    ensures forall j :: j in ws && j < r ==> SqDist(pts[j], c) < SqDist(pts[r], c)
  {
    if |ws| == 1 then ws[0]
    else
      Tail(ws, |pts|);
      var m := Farthest(pts, ws[1..], c);
      if SqDist(pts[ws[0]], c) >= SqDist(pts[m], c) then ws[0] else m
  }

  /** The order of `nsmallest(k)` with keep="first": by distance to `c`, ties by row order. */
  ghost predicate Closer(pts: seq<Point>, c: Point, i: nat, j: nat)
    requires i < |pts| && j < |pts|
  {
    SqDist(pts[i], c) < SqDist(pts[j], c) || (SqDist(pts[i], c) == SqDist(pts[j], c) && i < j)
  }

  /** The first row in the `Closer` order. */
  function Closest(pts: seq<Point>, ws: seq<nat>, c: Point): (m: nat)
    requires ws != [] && Labels(ws, |pts|)
    ensures m in ws
    ensures forall j :: j in ws && j != m ==> Closer(pts, c, m, j)
  {
    if |ws| == 1 then ws[0]
    else
      Tail(ws, |pts|);
      var m := Closest(pts, ws[1..], c);
      if SqDist(pts[ws[0]], c) <= SqDist(pts[m], c) then ws[0] else m
  }

  /** `stand.drop(index=kr)`: the rows of `ws` whose label is not in `kr`, order kept. */
  function Drop(ws: seq<nat>, kr: seq<nat>): (rest: seq<nat>)
    ensures forall x :: x in rest <==> x in ws && x !in kr
    ensures Increasing(ws) ==> Increasing(rest)
    ensures |rest| <= |ws|
  {
    if ws == [] then []
    else
      Tail(ws, 0);
      var tail := Drop(ws[1..], kr);
      if ws[0] in kr then tail
      else
        var r := [ws[0]] + tail;
        assert Increasing(ws) ==> Increasing(r) by {
          if Increasing(ws) {
            forall i, j | 0 <= i < j < |r| ensures r[i] < r[j] {
              assert r[j] == tail[j - 1] && tail[j - 1] in tail;
              if i > 0 { assert r[i] == tail[i - 1]; }
            }
          }
        }
        r
  }

  /** Dropping labels that are all present removes exactly that many rows. */
  lemma DropSize(ws: seq<nat>, kr: seq<nat>)
    requires Increasing(ws) && Distinct(kr) && forall x :: x in kr ==> x in ws
    ensures |Drop(ws, kr)| == |ws| - |kr|
  {
    var rest := Drop(ws, kr);
    assert Elems(rest) == Elems(ws) - Elems(kr);
    assert Elems(ws) == Elems(rest) + Elems(kr);
    assert Elems(rest) !! Elems(kr);
    DistinctCard(ws);
    DistinctCard(kr);
    DistinctCard(rest);
  }

  /**
   * `distance.nsmallest(k).index`: the k rows first in the `Closer` order. Every chosen row
   * comes before every row that is not chosen.
   */
  function Nearest(pts: seq<Point>, ws: seq<nat>, c: Point, k: nat): (kr: seq<nat>)
    requires Labels(ws, |pts|)
    ensures |kr| == if k < |ws| then k else |ws|
    ensures Distinct(kr)
    ensures forall x :: x in kr ==> x in ws
    ensures forall x, y :: x in kr && y in ws && y !in kr ==> Closer(pts, c, x, y)
    decreases k
  {
    if k == 0 || ws == [] then []
    else
      var m := Closest(pts, ws, c);
      var rest := Drop(ws, [m]);
      DropSize(ws, [m]);
      var tail := Nearest(pts, rest, c, k - 1);
      ConsDistinct(m, tail);
      ConsCloser(pts, ws, c, m, rest, tail);
      [m] + tail
  }

  lemma ConsDistinct(m: nat, tail: seq<nat>)
    requires Distinct(tail) && m !in tail
    ensures Distinct([m] + tail)
  {
    var kr := [m] + tail;
    forall i, j | 0 <= i < j < |kr| ensures kr[i] != kr[j] {
      assert kr[j] == tail[j - 1] && tail[j - 1] in tail;
      if i > 0 { assert kr[i] == tail[i - 1]; }
    }
  }

  /** The first row in the order, followed by the nearest of the others, comes before
      every row left out. */
  lemma ConsCloser(pts: seq<Point>, ws: seq<nat>, c: Point, m: nat, rest: seq<nat>, tail: seq<nat>)
    requires Labels(ws, |pts|) && m in ws
    requires forall j :: j in ws && j != m ==> Closer(pts, c, m, j)
    requires forall x :: x in rest <==> x in ws && x != m
    requires forall x :: x in tail ==> x in rest
    requires forall x, y :: x in tail && y in rest && y !in tail ==> Closer(pts, c, x, y)
    ensures forall x, y :: x in [m] + tail && y in ws && y !in [m] + tail ==> Closer(pts, c, x, y)
  {
    forall x, y | x in [m] + tail && y in ws && y !in [m] + tail
      ensures Closer(pts, c, x, y)
    {
      if x != m {
        assert x in tail && y in rest;
      }
    }
  }

  /** A row's own r-cluster (or s-cluster) holds it, unless k rows that coincide with it
      come earlier in row order. */
  lemma NearestHoldsCentre(pts: seq<Point>, ws: seq<nat>, x: nat, k: nat)
    requires Labels(ws, |pts|) && x in ws
    ensures x in Nearest(pts, ws, pts[x], k)
         || forall y :: y in Nearest(pts, ws, pts[x], k) ==> SqDist(pts[y], pts[x]) == 0.0
  {
    var kr := Nearest(pts, ws, pts[x], k);
    if x !in kr {
      forall y | y in kr ensures SqDist(pts[y], pts[x]) == 0.0 {
        assert Closer(pts, pts[x], y, x);
        SqDistNonNegative(pts[y], pts[x]);
      }
    }
  }

  /** What one iteration of the `while` loop computes. */
  datatype Step = Step(r: nat, s: nat, kr: seq<nat>, ks: seq<nat>, rest: seq<nat>)

  /**
   * One iteration: centroid, r, s, the k rows nearest r, then the k rows nearest s among
   * the rows left. Looking up s fails when s already left with r's cluster.
   */
  function PeelStep(pts: seq<Point>, ws: seq<nat>, k: nat): (st: Result<Step, MdavError>)
    requires k >= 1 && |ws| > 2 * k && Labels(ws, |pts|)
    ensures st.Success? ==> Labels(st.value.rest, |pts|) && |st.value.rest| == |ws| - 2 * k
  {
    var centroid := Mean(pts, ws);
    var r := Farthest(pts, ws, centroid);
    var s := Farthest(pts, ws, pts[r]);
    var kr := Nearest(pts, ws, pts[r], k);
    var ws1 := Drop(ws, kr);
    if s !in ws1 then Failure(KeyError(s))
    else
      var ks := Nearest(pts, ws1, pts[s], k);
      DropSize(ws, kr);
      DropSize(ws1, ks);
      Success(Step(r, s, kr, ks, Drop(ws1, ks)))
  }

  /** The loop's clusters and the rows it leaves. */
  datatype Peeled = Peeled(clusters: seq<seq<nat>>, rest: seq<nat>)

  function Prefixed(cs: seq<seq<nat>>, p: Result<Peeled, MdavError>): Result<Peeled, MdavError> {
    match p
    case Failure(e) => Failure(e)
    case Success(q) => Success(Peeled(cs + q.clusters, q.rest))
  }

  lemma PrefixedNil(p: Result<Peeled, MdavError>)
    ensures Prefixed([], p) == p
  {
    if p.Success? {
      assert [] + p.value.clusters == p.value.clusters;
    }
  }

  lemma PrefixedTwice(cs: seq<seq<nat>>, ds: seq<seq<nat>>, p: Result<Peeled, MdavError>)
    ensures Prefixed(cs, Prefixed(ds, p)) == Prefixed(cs + ds, p)
  {
    if p.Success? {
      assert cs + (ds + p.value.clusters) == (cs + ds) + p.value.clusters;
    }
  }

  /** The whole `while (len(stand) > 2*k)` loop. */
  function Peel(pts: seq<Point>, ws: seq<nat>, k: nat): (p: Result<Peeled, MdavError>)
    requires k >= 1 && Labels(ws, |pts|)
    ensures p.Failure? ==> p.error.KeyError? && |ws| > 2 * k
    decreases |ws|
  {
    if |ws| <= 2 * k then Success(Peeled([], ws))
    else
      match PeelStep(pts, ws, k)
      case Failure(e) => Failure(e)
      case Success(st) => Prefixed([st.kr, st.ks], Peel(pts, st.rest, k))
  }

  /** Every label of `ws` is in exactly one cluster or in `rest`, and nothing else is. */
  ghost predicate Partitions(ws: seq<nat>, cs: seq<seq<nat>>, rest: seq<nat>) {
    && (forall i, x :: 0 <= i < |cs| && x in cs[i] ==> x in ws && x !in rest)
    && (forall i, j, x :: 0 <= i < j < |cs| && x in cs[i] ==> x !in cs[j])
    && (forall x :: x in rest ==> x in ws)
    && (forall x :: x in ws ==> x in rest || exists i :: 0 <= i < |cs| && x in cs[i])
  }

  /** The two clusters of one iteration: k rows each, disjoint, taken from the working
      table, and the table afterwards holds exactly the other rows. */
  lemma PeelStepShape(pts: seq<Point>, ws: seq<nat>, k: nat)
    requires k >= 1 && |ws| > 2 * k && Labels(ws, |pts|)
    ensures var st := PeelStep(pts, ws, k);
      st.Success? ==>
        && |st.value.kr| == k && |st.value.ks| == k
        && Distinct(st.value.kr) && Distinct(st.value.ks)
        && (forall x :: x in st.value.kr ==> x in ws)
        && (forall x :: x in st.value.ks ==> x in ws && x !in st.value.kr)
        && (forall x :: x in st.value.rest <==> x in ws && x !in st.value.kr && x !in st.value.ks)
  {
    var centroid := Mean(pts, ws);
    var r := Farthest(pts, ws, centroid);
    var s := Farthest(pts, ws, pts[r]);
    var kr := Nearest(pts, ws, pts[r], k);
    var ws1 := Drop(ws, kr);
    DropSize(ws, kr);
    if s in ws1 {
      var ks := Nearest(pts, ws1, pts[s], k);
      assert PeelStep(pts, ws, k) == Success(Step(r, s, kr, ks, Drop(ws1, ks)));
    }
  }

  /**
   * The shape the loop leaves: at most 2k leftover rows, an even number of clusters of
   * exactly k distinct rows each, and clusters plus leftover rows partition `ws`.
   */
  ghost predicate Shaped(ws: seq<nat>, cs: seq<seq<nat>>, rest: seq<nat>, k: nat, n: nat) {
    && Labels(rest, n) && |rest| <= 2 * k
    && (forall i :: 0 <= i < |cs| ==> |cs[i]| == k && Distinct(cs[i]))
    && |cs| % 2 == 0
    && |ws| == |rest| + k * |cs|
    && Partitions(ws, cs, rest)
  }

  /**
   * What the loop leaves behind: at most 2k rows; an even number of clusters, each of
   * exactly k rows; clusters and leftover rows partition the working table; and no
   * cluster at all when the table starts with at most 2k rows.
   */
  lemma {:induction false} PeelShape(pts: seq<Point>, ws: seq<nat>, k: nat)
    requires k >= 1 && Labels(ws, |pts|)
    ensures Peel(pts, ws, k).Success? ==>
      Shaped(ws, Peel(pts, ws, k).value.clusters, Peel(pts, ws, k).value.rest, k, |pts|)
    ensures |ws| <= 2 * k ==> Peel(pts, ws, k) == Success(Peeled([], ws))
    decreases |ws|
  {
    if |ws| <= 2 * k {
      assert Partitions(ws, [], ws);
    } else if PeelStep(pts, ws, k).Success? {
      var st := PeelStep(pts, ws, k).value;
      PeelStepShape(pts, ws, k);
      PeelShape(pts, st.rest, k);
      if Peel(pts, st.rest, k).Success? {
        var q := Peel(pts, st.rest, k).value;
        assert Peel(pts, ws, k) == Success(Peeled([st.kr, st.ks] + q.clusters, q.rest));
        ShapedExtend(ws, st.kr, st.ks, st.rest, q.clusters, q.rest, k, |pts|);
      }
    }
  }

  lemma ShapedExtend(ws: seq<nat>, kr: seq<nat>, ks: seq<nat>, mid: seq<nat>,
                     cs: seq<seq<nat>>, rest: seq<nat>, k: nat, n: nat)
    requires |kr| == k && |ks| == k && Distinct(kr) && Distinct(ks)
    requires forall x :: x in kr ==> x in ws
    requires forall x :: x in ks ==> x in ws && x !in kr
    requires forall x :: x in mid <==> x in ws && x !in kr && x !in ks
    requires |mid| == |ws| - 2 * k
    requires Shaped(mid, cs, rest, k, n)
    ensures Shaped(ws, [kr, ks] + cs, rest, k, n)
  {
    var all := [kr, ks] + cs;
    assert |all| == |cs| + 2 && |all| % 2 == 0;
    assert forall i :: 0 <= i < |all| ==> |all[i]| == k && Distinct(all[i]) by {
      assert forall i :: 2 <= i < |all| ==> all[i] == cs[i - 2];
    }
    assert |ws| == |rest| + k * |all| by {
      MulAddTwo(k, |cs|);
    }
    assert Partitions(ws, all, rest) by {
      PartitionsExtend(ws, kr, ks, mid, cs, rest);
    }
  }

  lemma PartitionsExtend(ws: seq<nat>, kr: seq<nat>, ks: seq<nat>, mid: seq<nat>, cs: seq<seq<nat>>, rest: seq<nat>)
    requires forall x :: x in kr ==> x in ws
    requires forall x :: x in ks ==> x in ws && x !in kr
    requires forall x :: x in mid <==> x in ws && x !in kr && x !in ks
    requires Partitions(mid, cs, rest)
    ensures Partitions(ws, [kr, ks] + cs, rest)
  {
    var all := [kr, ks] + cs;
    assert forall i :: 2 <= i < |all| ==> all[i] == cs[i - 2];
    forall i, x | 0 <= i < |all| && x in all[i] ensures x in ws && x !in rest {
      if i >= 2 { assert x in cs[i - 2]; }
    }
    forall i, j, x | 0 <= i < j < |all| && x in all[i] ensures x !in all[j] {
      if j >= 2 {
        assert all[j] == cs[j - 2];
        if i >= 2 { assert x in cs[i - 2]; }
      }
    }
    forall x | x in ws ensures x in rest || exists i :: 0 <= i < |all| && x in all[i] {
      if x in kr {
        assert x in all[0];
      } else if x in ks {
        assert x in all[1];
      } else if x !in rest {
        assert x in mid;
        var i :| 0 <= i < |cs| && x in cs[i];
        assert x in all[i + 2];
      }
    }
  }

  lemma MulAddTwo(k: int, a: int)
    ensures k * (a + 2) == k * a + 2 * k
  {
  }

  lemma SumHead(pts: seq<Point>, ws: seq<nat>)
    requires ws != [] && InRange(ws, |pts|)
    ensures ws[0] < |pts| && InRange(ws[1..], |pts|)
    ensures Sum(pts, ws).lat == pts[ws[0]].lat + Sum(pts, ws[1..]).lat
    ensures Sum(pts, ws).long == pts[ws[0]].long + Sum(pts, ws[1..]).long
  {
    Tail(ws, |pts|);
    assert ws[0] in ws;
  }

  /** Summing standardised latitudes: `sum((v - mean) / stdev) * stdev == sum(v) - n * mean`. */
  lemma {:induction false} SumScaledLat(values: seq<Point>, mean: Point, stdev: Point, ws: seq<nat>)
    requires stdev.lat != 0.0 && stdev.long != 0.0 && InRange(ws, |values|)
    ensures Sum(Standardise(values, mean, stdev), ws).lat * stdev.lat
            == Sum(values, ws).lat - |ws| as real * mean.lat
  {
    if ws != [] {
      var stand := Standardise(values, mean, stdev);
      SumHead(stand, ws);
      SumHead(values, ws);
      SumScaledLat(values, mean, stdev, ws[1..]);
      StepScaled(values[ws[0]].lat, mean.lat, stdev.lat, stand[ws[0]].lat,
                 Sum(stand, ws[1..]).lat, Sum(values, ws[1..]).lat, |ws[1..]| as real, |ws| as real);
    }
  }

  /** Summing standardised longitudes: `sum((v - mean) / stdev) * stdev == sum(v) - n * mean`. */
  lemma {:induction false} SumScaledLong(values: seq<Point>, mean: Point, stdev: Point, ws: seq<nat>)
    requires stdev.lat != 0.0 && stdev.long != 0.0 && InRange(ws, |values|)
    ensures Sum(Standardise(values, mean, stdev), ws).long * stdev.long
            == Sum(values, ws).long - |ws| as real * mean.long
  {
    if ws != [] {
      var stand := Standardise(values, mean, stdev);
      SumHead(stand, ws);
      SumHead(values, ws);
      SumScaledLong(values, mean, stdev, ws[1..]);
      StepScaled(values[ws[0]].long, mean.long, stdev.long, stand[ws[0]].long,
                 Sum(stand, ws[1..]).long, Sum(values, ws[1..]).long, |ws[1..]| as real, |ws| as real);
    }
  }

  /** One more standardised value `p == (v - mu) / sd` added to a scaled sum. */
  lemma StepScaled(v: real, mu: real, sd: real, p: real, s: real, t: real, m: real, n: real)
    requires sd != 0.0 && p == (v - mu) / sd && s * sd == t - m * mu && n == m + 1.0
    ensures (p + s) * sd == (v + t) - n * mu
  {
    assert p * sd == v - mu;
    assert (p + s) * sd == p * sd + s * sd;
    assert n * mu == m * mu + mu;
  }

  /** `(s / n) * sd + mu == t / n` when `s * sd == t - n * mu`. */
  lemma MeanBack(s: real, t: real, n: real, mu: real, sd: real, q: real, r: real)
    requires n != 0.0 && q == s / n && r == t / n && s * sd == t - n * mu
    ensures q * sd + mu == r
  {
    assert q * n == s;
    assert r * n == t;
    assert (q * sd) * n == s * sd;
    assert (q * sd + mu) * n == (q * sd) * n + mu * n;
    assert (q * sd + mu) * n == r * n;
  }

  /**
   * The write-back value of a cluster, `cluster.mean() * stdev + mean` over standardised
   * rows, is the plain mean of the cluster's original coordinates.
   */
  lemma CentroidIsPlainMean(values: seq<Point>, mean: Point, stdev: Point, c: seq<nat>)
    requires stdev.lat != 0.0 && stdev.long != 0.0 && c != [] && InRange(c, |values|)
    ensures Denormalise(Mean(Standardise(values, mean, stdev), c), mean, stdev) == Mean(values, c)
  {
    SumScaledLat(values, mean, stdev, c);
    SumScaledLong(values, mean, stdev, c);
    var n := |c| as real;
    var s := Sum(Standardise(values, mean, stdev), c);
    var t := Sum(values, c);
    MeanBack(s.lat, t.lat, n, mean.lat, stdev.lat, s.lat / n, t.lat / n);
    MeanBack(s.long, t.long, n, mean.long, stdev.long, s.long / n, t.long / n);
  }

  /** The rows of one cluster, all set to the same coordinates. */
  function ClusterMap(c: seq<nat>, centroid: Point): (m: map<nat, Point>)
    ensures forall x :: x in m <==> x in c
    ensures forall x :: x in m ==> m[x] == centroid
  {
    map x | x in c :: centroid
  }

  ghost predicate Clusters(cs: seq<seq<nat>>, n: nat) {
    forall i :: 0 <= i < |cs| ==> cs[i] != [] && InRange(cs[i], n)
  }

  ghost predicate PairwiseDisjoint(cs: seq<seq<nat>>) {
    forall i, j, x :: 0 <= i < j < |cs| && x in cs[i] ==> x !in cs[j]
  }

  /** `pd.concat(k_list).sort_index()` after every cluster's lat/long were set to
      `cluster.mean() * stdev + mean`, keyed by row label. */
  function Replacement(stand: seq<Point>, cs: seq<seq<nat>>, mean: Point, stdev: Point): (m: map<nat, Point>)
    requires Clusters(cs, |stand|)
    ensures forall x :: x in m <==> exists i :: 0 <= i < |cs| && x in cs[i]
  {
    if cs == [] then map[]
    else
      var last := cs[|cs| - 1];
      var init := cs[..|cs| - 1];
      var m := Replacement(stand, init, mean, stdev)
        + ClusterMap(last, Denormalise(Mean(stand, last), mean, stdev));
      assert forall x :: x in m <==> exists i :: 0 <= i < |cs| && x in cs[i] by {
        forall x | exists i :: 0 <= i < |cs| && x in cs[i] ensures x in m {
          var i :| 0 <= i < |cs| && x in cs[i];
          if i < |cs| - 1 { assert x in init[i]; }
        }
        forall x | x in m ensures exists i :: 0 <= i < |cs| && x in cs[i] {
          if x !in last {
            var i :| 0 <= i < |init| && x in init[i];
            assert x in cs[i];
          }
        }
      }
      m
  }

  /** With disjoint clusters, each row of a cluster is written its own cluster's centroid,
      and rows in no cluster are not written at all. */
  lemma {:induction false} ReplacementAt(stand: seq<Point>, cs: seq<seq<nat>>, mean: Point, stdev: Point, x: nat)
    requires Clusters(cs, |stand|) && PairwiseDisjoint(cs)
    ensures x in Replacement(stand, cs, mean, stdev) <==> exists i :: 0 <= i < |cs| && x in cs[i]
    ensures forall i :: 0 <= i < |cs| && x in cs[i] ==>
      Replacement(stand, cs, mean, stdev)[x] == Denormalise(Mean(stand, cs[i]), mean, stdev)
  {
    if cs != [] {
      var init := cs[..|cs| - 1];
      var last := cs[|cs| - 1];
      assert forall i :: 0 <= i < |init| ==> init[i] == cs[i];
      ReplacementAt(stand, init, mean, stdev, x);
      if x !in last {
        forall i | 0 <= i < |cs| && x in cs[i] ensures i < |init| { }
      } else {
        assert x in cs[|cs| - 1];
      }
    }
  }

  /**
   * The write-back after the loop: every cluster of `k_list`, and the leftover rows when
   * there are more than k of them, get their cluster's de-standardised mean; `pd.concat`
   * of no cluster at all fails.
   */
  function WrittenBack(stand: seq<Point>, p: Peeled, k: nat, mean: Point, stdev: Point): (r: Result<Aggregation, MdavError>)
    requires k >= 1 && Shaped(Range(|stand|), p.clusters, p.rest, k, |stand|)
    ensures r.Failure? <==> p.clusters == [] && |p.rest| <= k
    ensures r.Failure? ==> r.error == NoObjectsToConcatenate
    ensures r.Success? ==>
      r.value.clusters == p.clusters && r.value.remainder == p.rest && |r.value.coords| == |stand|
  {
    FinalClusters(|stand|, p.clusters, p.rest, k);
    var all := if |p.rest| > k then p.clusters + [p.rest] else p.clusters;
    if all == [] then Failure(NoObjectsToConcatenate)
    else
      var repl := Replacement(stand, all, mean, stdev);
      Success(Aggregation(p.clusters, p.rest,
        seq(|stand|, i => if i in repl then Some(repl[i]) else None)))
  }

  /** The whole script over the lat/long columns of `values`, with k and the columns'
      standard deviations given. */
  function Aggregated(values: seq<Point>, k: nat, stdev: Point): (r: Result<Aggregation, MdavError>)
    requires k >= 1 && stdev.lat != 0.0 && stdev.long != 0.0
    ensures r.Success? ==> |r.value.coords| == |values|
    ensures r.Failure? ==> r.error == NoObjectsToConcatenate || (r.error.KeyError? && |values| > 2 * k)
  {
    var n := |values|;
    var mean := if n == 0 then Point(0.0, 0.0) else Mean(values, Range(n));
    var stand := Standardise(values, mean, stdev);
    PeelShape(stand, Range(n), k);
    match Peel(stand, Range(n), k)
    case Failure(e) => Failure(e)
    case Success(p) => WrittenBack(stand, p, k, mean, stdev)
  }

  /** The loop's clusters, with the remainder appended when it has more than k rows, are
      non-empty, disjoint and within the table. */
  lemma FinalClusters(n: nat, cs: seq<seq<nat>>, rest: seq<nat>, k: nat)
    requires k >= 1 && Shaped(Range(n), cs, rest, k, n)
    ensures Clusters(cs, n) && PairwiseDisjoint(cs)
    ensures |rest| > k ==> Clusters(cs + [rest], n) && PairwiseDisjoint(cs + [rest])
  {
    forall i | 0 <= i < |cs| ensures cs[i] != [] && InRange(cs[i], n) {
      assert |cs[i]| == k;
      forall x | x in cs[i] ensures x < n { assert x in Range(n); }
    }
    if |rest| > k {
      var all := cs + [rest];
      assert forall i :: 0 <= i < |cs| ==> all[i] == cs[i];
      assert all[|cs|] == rest;
    }
  }

  /**
   * Every row that ends up in a cluster gets the plain mean of its cluster's original
   * coordinates; leftover rows get the plain mean of the leftover rows when there are more
   * than k of them and a missing value otherwise.
   */
  ghost predicate WrittenAsMeans(values: seq<Point>, a: Aggregation, k: nat)
    requires Clusters(a.clusters, |values|) && Labels(a.remainder, |values|) && |a.coords| == |values|
  {
    && (forall i, x :: 0 <= i < |a.clusters| && x in a.clusters[i] ==>
          a.coords[x] == Some(Mean(values, a.clusters[i])))
    && (forall x :: x in a.remainder ==>
          a.coords[x] == if |a.remainder| > k then Some(Mean(values, a.remainder)) else None)
  }

  /** The write-back gives each clustered row the plain mean of its cluster. */
  lemma ClusterRowsMean(values: seq<Point>, mean: Point, stdev: Point, cs: seq<seq<nat>>,
                        all: seq<seq<nat>>, i: nat, x: nat)
    requires stdev.lat != 0.0 && stdev.long != 0.0
    requires Clusters(all, |values|) && PairwiseDisjoint(all)
    requires i < |cs| <= |all| && all[..|cs|] == cs && x in cs[i]
    ensures var repl := Replacement(Standardise(values, mean, stdev), all, mean, stdev);
      x in repl && repl[x] == Mean(values, cs[i])
  {
    assert all[i] == cs[i];
    ReplacementAt(Standardise(values, mean, stdev), all, mean, stdev, x);
    CentroidIsPlainMean(values, mean, stdev, cs[i]);
  }

  /** The write-back gives a leftover row the mean of the leftover rows when there are more
      than k of them, and nothing otherwise. */
  lemma RemainderRowsMean(values: seq<Point>, mean: Point, stdev: Point, p: Peeled, k: nat,
                          all: seq<seq<nat>>, x: nat)
    requires k >= 1 && stdev.lat != 0.0 && stdev.long != 0.0
    requires Shaped(Range(|values|), p.clusters, p.rest, k, |values|) && x in p.rest
    requires all == if |p.rest| > k then p.clusters + [p.rest] else p.clusters
    requires Clusters(all, |values|) && PairwiseDisjoint(all)
    ensures var repl := Replacement(Standardise(values, mean, stdev), all, mean, stdev);
      if |p.rest| > k then x in repl && repl[x] == Mean(values, p.rest) else x !in repl
  {
    ReplacementAt(Standardise(values, mean, stdev), all, mean, stdev, x);
    if |p.rest| > k {
      assert all[|p.clusters|] == p.rest;
      CentroidIsPlainMean(values, mean, stdev, p.rest);
    } else {
      assert forall i :: 0 <= i < |all| ==> x !in all[i];
    }
  }

  /** What the write-back produces from the loop's result. */
  lemma WrittenBackMeans(values: seq<Point>, mean: Point, stdev: Point, p: Peeled, k: nat)
    requires k >= 1 && stdev.lat != 0.0 && stdev.long != 0.0
    requires Shaped(Range(|values|), p.clusters, p.rest, k, |values|)
    ensures var out := WrittenBack(Standardise(values, mean, stdev), p, k, mean, stdev);
      && (out == Failure(NoObjectsToConcatenate) <==> p.clusters == [] && |p.rest| <= k)
      && (out.Success? ==>
            && out.value.clusters == p.clusters && out.value.remainder == p.rest
            && Clusters(p.clusters, |values|) && |out.value.coords| == |values|
            && WrittenAsMeans(values, out.value, k))
  {
    var n := |values|;
    var stand := Standardise(values, mean, stdev);
    FinalClusters(n, p.clusters, p.rest, k);
    var all := if |p.rest| > k then p.clusters + [p.rest] else p.clusters;
    if all != [] {
      var repl := Replacement(stand, all, mean, stdev);
      var a := Aggregation(p.clusters, p.rest, seq(n, i => if i in repl then Some(repl[i]) else None));
      assert WrittenBack(stand, p, k, mean, stdev) == Success(a);
      assert all[..|p.clusters|] == p.clusters;
      forall i, x | 0 <= i < |p.clusters| && x in p.clusters[i]
        ensures a.coords[x] == Some(Mean(values, p.clusters[i]))
      {
        assert x in Range(n);
        ClusterRowsMean(values, mean, stdev, p.clusters, all, i, x);
      }
      forall x | x in p.rest
        ensures a.coords[x] == if |p.rest| > k then Some(Mean(values, p.rest)) else None
      {
        RemainderRowsMean(values, mean, stdev, p, k, all, x);
      }
    }
  }

  /**
   * The result of the script: clusters of exactly k rows, at most 2k leftover rows, all of
   * them partitioning the input rows, and every row's new coordinates the plain mean of its
   * own cluster.
   */
  lemma AggregatedShape(values: seq<Point>, k: nat, stdev: Point)
    requires k >= 1 && stdev.lat != 0.0 && stdev.long != 0.0
    ensures var out := Aggregated(values, k, stdev);
      out.Success? ==>
        && Shaped(Range(|values|), out.value.clusters, out.value.remainder, k, |values|)
        && Clusters(out.value.clusters, |values|)
        && |out.value.coords| == |values|
        && WrittenAsMeans(values, out.value, k)
  {
    var n := |values|;
    var mean := if n == 0 then Point(0.0, 0.0) else Mean(values, Range(n));
    var stand := Standardise(values, mean, stdev);
    PeelShape(stand, Range(n), k);
    var peeled := Peel(stand, Range(n), k);
    if peeled.Success? {
      WrittenBackMeans(values, mean, stdev, peeled.value, k);
    }
  }

  /** `pd.concat` has nothing to concatenate exactly when the table has at most k rows. */
  lemma NoClusterIffAtMostK(values: seq<Point>, k: nat, stdev: Point)
    requires k >= 1 && stdev.lat != 0.0 && stdev.long != 0.0
    ensures Aggregated(values, k, stdev) == Failure(NoObjectsToConcatenate) <==> |values| <= k
  {
    var n := |values|;
    var mean := if n == 0 then Point(0.0, 0.0) else Mean(values, Range(n));
    var stand := Standardise(values, mean, stdev);
    PeelShape(stand, Range(n), k);
    var peeled := Peel(stand, Range(n), k);
    if peeled.Failure? {
      assert Aggregated(values, k, stdev) == Failure(peeled.error);
    } else {
      var p := peeled.value;
      assert Aggregated(values, k, stdev) == WrittenBack(stand, p, k, mean, stdev);
      WrittenBackMeans(values, mean, stdev, p, k);
      if p.clusters == [] {
        assert n == |p.rest| + k * 0;
      }
    }
  }

  /**
   * With more than k but at most 2k rows the loop never runs: the whole table is one
   * cluster and every row gets the mean of all rows.
   */
  lemma OneClusterWhenSmall(values: seq<Point>, k: nat, stdev: Point)
    requires k >= 1 && stdev.lat != 0.0 && stdev.long != 0.0
    requires k < |values| <= 2 * k
    ensures var out := Aggregated(values, k, stdev);
      && out.Success? && out.value.clusters == [] && out.value.remainder == Range(|values|)
      && |out.value.coords| == |values|
      && forall i :: 0 <= i < |values| ==> out.value.coords[i] == Some(Mean(values, Range(|values|)))
  {
    AggregatedShape(values, k, stdev);
    var n := |values|;
    var mean := Mean(values, Range(n));
    PeelShape(Standardise(values, mean, stdev), Range(n), k);
    var out := Aggregated(values, k, stdev);
    forall i | 0 <= i < n ensures out.value.coords[i] == Some(Mean(values, Range(n))) {
      assert i in Range(n);
    }
  }

  /**
   * When more than 2k rows of the working table all have the same coordinates, r and s are
   * the same row, r's cluster takes it, and looking s up afterwards fails.
   */
  lemma CoincidentRowsKeyError(pts: seq<Point>, ws: seq<nat>, k: nat)
    requires k >= 1 && |ws| > 2 * k && Labels(ws, |pts|)
    requires forall x :: x in ws ==> pts[x] == pts[ws[0]]
    ensures PeelStep(pts, ws, k) == Failure(KeyError(ws[0]))
  {
    assert ws[0] in ws;
    var r := Farthest(pts, ws, Mean(pts, ws));
    assert r == ws[0];
    var kr := Nearest(pts, ws, pts[r], k);
    assert kr[0] in kr;
    assert ws[0] in kr;
  }

  /** When the loop stops, its clusters and the rows left are what `Peel` computes. */
  lemma LoopExit(stand: seq<Point>, kList: seq<seq<nat>>, ws: seq<nat>, k: nat)
    requires k >= 1 && Labels(ws, |stand|) && |ws| <= 2 * k
    requires Peel(stand, Range(|stand|), k) == Prefixed(kList, Peel(stand, ws, k))
    ensures Peel(stand, Range(|stand|), k) == Success(Peeled(kList, ws))
  {
    PeelShape(stand, ws, k);
    assert kList + [] == kList;
  }

  /** The `while (len(stand) > 2*k)` loop of the script, on the standardised rows. */
  method PeelLoop(stand: seq<Point>, k: nat) returns (out: Result<Peeled, MdavError>)
    requires k >= 1
    ensures out == Peel(stand, Range(|stand|), k)
  {
    var ws := Range(|stand|);
    var kList: seq<seq<nat>> := [];
    PrefixedNil(Peel(stand, ws, k));
    while |ws| > 2 * k
      invariant Labels(ws, |stand|)
      invariant Peel(stand, Range(|stand|), k) == Prefixed(kList, Peel(stand, ws, k))
      decreases |ws|
    {
      var centroid := Mean(stand, ws);
      var r := Farthest(stand, ws, centroid);
      var s := Farthest(stand, ws, stand[r]);
      var kr := Nearest(stand, ws, stand[r], k);
      var ws1 := Drop(ws, kr);
      if s !in ws1 {
        return Failure(KeyError(s));
      }
      var ks := Nearest(stand, ws1, stand[s], k);
      DropSize(ws, kr);
      DropSize(ws1, ks);
      assert PeelStep(stand, ws, k) == Success(Step(r, s, kr, ks, Drop(ws1, ks)));
      PrefixedTwice(kList, [kr, ks], Peel(stand, Drop(ws1, ks), k));
      kList := kList + [kr, ks];
      ws := Drop(ws1, ks);
    }
    LoopExit(stand, kList, ws, k);
    out := Success(Peeled(kList, ws));
  }

  /** The `for cluster in k_list` loop: each cluster's rows get its denormalised mean. */
  method Centroids(stand: seq<Point>, kList: seq<seq<nat>>, mean: Point, stdev: Point)
    returns (replacement: map<nat, Point>)
    requires Clusters(kList, |stand|)
    ensures replacement == Replacement(stand, kList, mean, stdev)
  {
    replacement := map[];
    for i := 0 to |kList|
      invariant replacement == Replacement(stand, kList[..i], mean, stdev)
    {
      assert kList[..i + 1][..i] == kList[..i];
      replacement := replacement + ClusterMap(kList[i], Denormalise(Mean(stand, kList[i]), mean, stdev));
    }
    assert kList[..|kList|] == kList;
  }

  /** The remainder step, `pd.concat` and the
      index-aligned assignment of the new columns. */
  method WriteBack(stand: seq<Point>, p: Peeled, k: nat, mean: Point, stdev: Point)
    returns (out: Result<Aggregation, MdavError>)
    requires k >= 1 && Shaped(Range(|stand|), p.clusters, p.rest, k, |stand|)
    ensures out == WrittenBack(stand, p, k, mean, stdev)
  {
    var kList, ws := p.clusters, p.rest;
    FinalClusters(|stand|, kList, ws, k);
    var replacement := Centroids(stand, kList, mean, stdev);
    var all := kList;
    if |ws| > k {
      all := kList + [ws];
      assert all[..|kList|] == kList;
      replacement := replacement + ClusterMap(ws, Denormalise(Mean(stand, ws), mean, stdev));
    }
    if all == [] {
      return Failure(NoObjectsToConcatenate);
    }
    out := Success(Aggregation(kList, ws, seq(|stand|, i => if i in replacement then Some(replacement[i]) else None)));
  }

  /** The whole script: standardise, peel, write back. */
  method Microaggregate(values: seq<Point>, k: nat, stdev: Point) returns (out: Result<Aggregation, MdavError>)
    requires k >= 1 && stdev.lat != 0.0 && stdev.long != 0.0
    ensures out == Aggregated(values, k, stdev)
  {
    var n := |values|;
    var mean := if n == 0 then Point(0.0, 0.0) else Mean(values, Range(n));
    var stand := Standardise(values, mean, stdev);
    var peeled := PeelLoop(stand, k);
    if peeled.Failure? {
      return Failure(peeled.error);
    }
    PeelShape(stand, Range(n), k);
    out := WriteBack(stand, peeled.value, k, mean, stdev);
  }
}
