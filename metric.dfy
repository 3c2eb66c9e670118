/** The metric function: cumulative path length along a track in the
    (log Teff, log L) plane, each axis multiplied by its scale factor.  It
    is what secondary EEPs are spaced evenly along. */
module HrdMetric {
  import opened Tracks

  /** The square root the metric uses is a parameter: all the model needs
      of it is that it maps non-negative numbers to non-negative numbers. */
  ghost predicate NonNegativeRoot(root: real -> real)
  {
    forall x :: 0.0 <= x ==> 0.0 <= root(x)
  }

  /** Squared scaled distance between rows i-1 and i. */
  function SquaredStep(t: Track, s: MetricScales, i: nat): (d: real)
    requires 0 < i < |t|
    ensures 0.0 <= d
  {
    var dT := (t[i].logTeff - t[i - 1].logTeff) * s.teffScale;
    var dL := (t[i].logL - t[i - 1].logL) * s.lumScale;
    dT * dT + dL * dL
  }

  /** Under the default scales (teff_scale 5, lum_scale 1) a change in
      log Teff weighs 25 times as much in the squared step as the same
      change in log L. */
  lemma DefaultScalesStep(t: Track, i: nat)
    requires 0 < i < |t|
    ensures SquaredStep(t, DefaultScales, i)
         == 25.0 * (t[i].logTeff - t[i - 1].logTeff) * (t[i].logTeff - t[i - 1].logTeff)
            + (t[i].logL - t[i - 1].logL) * (t[i].logL - t[i - 1].logL)
  {
  }

  /** Path length from row 0 to row i: 0 at row 0, and each later row adds
      the root of its squared step. */
  function PathLength(t: Track, s: MetricScales, root: real -> real, i: nat): real
    requires i < |t|
  {
    if i == 0 then 0.0
    else PathLength(t, s, root, i - 1) + root(SquaredStep(t, s, i))
  }

  /** The metric of a whole track: one path length per row. */
  function HrdDistance(t: Track, s: MetricScales, root: real -> real): seq<real>
  {
    seq(|t|, i requires 0 <= i < |t| => PathLength(t, s, root, i))
  }

  /** With a non-negative root the path length never decreases along the
      track. */
  lemma {:induction false} PathLengthMonotone(t: Track, s: MetricScales, root: real -> real, i: nat, j: nat)
    requires NonNegativeRoot(root)
    requires i <= j < |t|
    ensures PathLength(t, s, root, i) <= PathLength(t, s, root, j)
    decreases j
  {
    if i < j {
      PathLengthMonotone(t, s, root, i, j - 1);
      assert 0.0 <= root(SquaredStep(t, s, j));
    }
  }

  /** The metric array starts at 0 and is non-decreasing. */
  lemma HrdDistanceMonotone(t: Track, s: MetricScales, root: real -> real)
    requires NonNegativeRoot(root)
    ensures |HrdDistance(t, s, root)| == |t|
    ensures |t| > 0 ==> HrdDistance(t, s, root)[0] == 0.0
    ensures forall i, j :: 0 <= i <= j < |t| ==> HrdDistance(t, s, root)[i] <= HrdDistance(t, s, root)[j]
  {
    forall i, j | 0 <= i <= j < |t|
      ensures HrdDistance(t, s, root)[i] <= HrdDistance(t, s, root)[j]
    {
      PathLengthMonotone(t, s, root, i, j);
    }
  }

  /** The path length up to row i reads rows 0..i only: cutting the track
      after row n leaves the metric of rows 0..n-1 unchanged. */
  lemma {:induction false} PathLengthOfPrefix(t: Track, s: MetricScales, root: real -> real, n: nat, i: nat)
    requires i < n <= |t|
    ensures PathLength(t[..n], s, root, i) == PathLength(t, s, root, i)
    decreases i
  {
    if i > 0 {
      PathLengthOfPrefix(t, s, root, n, i - 1);
      assert SquaredStep(t[..n], s, i) == SquaredStep(t, s, i);
    }
  }

  /** The metric of a truncated track is the truncated metric. */
  lemma HrdDistanceOfPrefix(t: Track, s: MetricScales, root: real -> real, n: nat)
    requires n <= |t|
    ensures HrdDistance(t[..n], s, root) == HrdDistance(t, s, root)[..n]
  {
    forall i | 0 <= i < n
      ensures HrdDistance(t[..n], s, root)[i] == HrdDistance(t, s, root)[i]
    {
      PathLengthOfPrefix(t, s, root, n, i);
    }
  }

  /** my_HRD: fills a fresh zero array with the cumulative path length, one
      step per loop iteration. */
  method HRD(t: Track, s: MetricScales, root: real -> real) returns (dist: array<real>)
    requires NonNegativeRoot(root)
    ensures fresh(dist)
    ensures dist[..] == HrdDistance(t, s, root)
    ensures dist.Length > 0 ==> dist[0] == 0.0
    ensures forall i, j :: 0 <= i <= j < dist.Length ==> dist[i] <= dist[j]
  {
    ghost var spec := HrdDistance(t, s, root);
    HrdDistanceMonotone(t, s, root);
    var n := |t|;
    dist := new real[n](_ => 0.0);
    var i := 1;
    while i < n
      invariant 1 <= i && (n > 0 ==> i <= n)
      invariant forall k :: 0 <= k < i && k < n ==> dist[k] == spec[k]
    {
      var tempDist := SquaredStep(t, s, i);
      dist[i] := dist[i - 1] + root(tempDist);
      i := i + 1;
    }
    assert dist[..] == spec;
  }
}
