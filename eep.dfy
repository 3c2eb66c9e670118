/** The five primary-EEP detectors.  Each takes one track and a start row
    `i0` and returns the row of its landmark, or the sentinel -1 when the
    landmark does not occur in rows i0.. of the track.  The detectors are
    pure: they read the track and never change it. */
module EepDetectors {
  import opened Tracks

  /** The value every detector returns when its landmark is not found. */
  const NotFound: int := -1

  /** Default threshold of core hydrogen fraction that marks the TAMS. */
  const DefaultXMin: real := 0.0001

  /** Drop in core hydrogen fraction, from its value at the start row,
      that marks the ZAMS. */
  const ZamsDrop: real := 0.001

  /** The first row k >= i of `t` where `p` holds, or -1: a boolean mask
      over rows i.. followed by `any()` and `idxmax()`. */
  function FirstWhere(t: Track, i: nat, p: Row -> bool): (k: int)
    ensures k == NotFound <==> forall j :: i <= j < |t| ==> !p(t[j])
    ensures k != NotFound ==> i <= k < |t| && p(t[k])
    ensures k != NotFound ==> forall j :: i <= j < k ==> !p(t[j])
    decreases |t| - i
  {
    if i >= |t| then NotFound
    else if p(t[i]) then i
    else FirstWhere(t, i + 1, p)
  }

  /** The first row k >= i of `xs` holding the largest value of xs[i..]:
      `idxmax()` on a series, which picks the first of equal maxima. */
  function ArgMaxFrom(xs: seq<real>, i: nat): (k: nat)
    requires i < |xs|
    ensures i <= k < |xs|
    ensures forall j :: i <= j < |xs| ==> xs[j] <= xs[k]
    ensures forall j :: i <= j < k ==> xs[j] < xs[k]
    decreases |xs| - i
  {
    if i == |xs| - 1 then i
    else
      var k := ArgMaxFrom(xs, i + 1);
      if xs[i] >= xs[k] then i else k
  }

  /** PreMS: the first row of the track, whatever the track and start. */
  function PreMS(t: Track, i0: nat): (k: int)
    ensures k == 0
  {
    0
  }

  /** ZAMS: the first row from i0 on whose core hydrogen fraction has dropped
      by at least 0.001 below its value at row i0.  Reading the value at row
      i0 fails on an empty suffix, hence the precondition. */
  function ZAMS(t: Track, i0: nat): (k: int)
    requires i0 < |t|
    ensures k == NotFound <==> forall j :: i0 <= j < |t| ==> t[j].xCen > t[i0].xCen - ZamsDrop
    ensures k != NotFound ==> i0 < k < |t| && t[k].xCen <= t[i0].xCen - ZamsDrop
    ensures k != NotFound ==> forall j :: i0 <= j < k ==> t[j].xCen > t[i0].xCen - ZamsDrop
  {
    var x0 := t[i0].xCen;
    FirstWhere(t, i0, (r: Row) => r.xCen <= x0 - ZamsDrop)
  }

  /** TAMS: the first row from i0 on whose core hydrogen fraction is at most
      `xMin` (1e-4 by default).  An empty suffix gives -1. */
  function TAMS(t: Track, i0: nat, xMin: real): (k: int)
    ensures k == NotFound <==> forall j :: i0 <= j < |t| ==> t[j].xCen > xMin
    ensures k != NotFound ==> i0 <= k < |t| && t[k].xCen <= xMin
    ensures k != NotFound ==> forall j :: i0 <= j < k ==> t[j].xCen > xMin
  {
    FirstWhere(t, i0, (r: Row) => r.xCen <= xMin)
  }

  /** RGB tip: the first row of largest luminosity among rows i0...  The
      mass and core helium columns are read by the source but do not take
      part; `idxmax()` on an empty suffix fails, hence the precondition. */
  function RGBTip(t: Track, i0: nat): (k: int)
    requires i0 < |t|
    ensures i0 <= k < |t|
    ensures forall j :: i0 <= j < |t| ==> t[j].logL <= t[k].logL
    ensures forall j :: i0 <= j < k ==> t[j].logL < t[k].logL
  {
    ArgMaxFrom(LogLColumn(t), i0)
  }

  /** The core helium burning condition of the ZAHB, with the core metal
      fraction `z0` taken at the start row. */
  predicate HeBurning(r: Row, z0: real)
  {
    r.l3a > 0.001 && r.yCen > 0.5 && r.yCen < 1.0 - z0 - 0.04
  }

  /** ZAHB: the first row from i0 on where triple-alpha luminosity exceeds
      0.001 and 0.5 < Yc < 1 - Zc[i0] - 0.04.  Reading Zc at row i0 fails on
      an empty suffix, hence the precondition. */
  function ZAHB(t: Track, i0: nat): (k: int)
    requires i0 < |t|
    ensures k == NotFound <==> forall j :: i0 <= j < |t| ==> !HeBurning(t[j], t[i0].zCen)
    ensures k != NotFound ==> i0 <= k < |t| && HeBurning(t[k], t[i0].zCen)
    ensures k != NotFound ==> forall j :: i0 <= j < k ==> !HeBurning(t[j], t[i0].zCen)
  {
    var z0 := t[i0].zCen;
    FirstWhere(t, i0, (r: Row) => HeBurning(r, z0))
  }

  /** The RGB tip depends on the luminosity column alone: two tracks that
      agree on log L from i0 on (whatever their mass, core helium and other
      columns) have their tip at the same row. */
  lemma RGBTipReadsOnlyLuminosity(t: Track, u: Track, i0: nat)
    requires i0 < |t| == |u|
    requires forall j :: i0 <= j < |t| ==> t[j].logL == u[j].logL
    ensures RGBTip(t, i0) == RGBTip(u, i0)
  {
  }

  /** Each detector, when it finds its landmark, returns a row at or after
      its start row (ZAMS strictly after).  So when every detector starts at
      the landmark found before it, the primary EEPs come out in order
      PreMS <= ZAMS <= TAMS <= TRGB <= ZAHB. */
  lemma PrimaryEepsOrdered(t: Track, xMin: real, zams: nat, tams: nat, tip: nat, zahb: nat)
    requires |t| > 0
    requires zams == ZAMS(t, PreMS(t, 0))
    requires tams == TAMS(t, zams, xMin)
    requires tip == RGBTip(t, tams)
    requires zahb == ZAHB(t, tip)
    ensures PreMS(t, 0) < zams <= tams <= tip <= zahb < |t|
  {
  }

  /** A track whose core hydrogen fraction is 0.70 for rows 0-9 and 0.65
      from row 10 on has its ZAMS at row 10. */
  lemma ZamsOfStepTrack(t: Track)
    requires |t| > 10
    requires forall j :: 0 <= j < 10 ==> t[j].xCen == 0.70
    requires forall j :: 10 <= j < |t| ==> t[j].xCen == 0.65
    ensures ZAMS(t, 0) == 10
  {
    assert t[10].xCen <= t[0].xCen - ZamsDrop;
  }

  /** On the same step track, core hydrogen never falls to the default
      threshold Xmin = 1e-4, so the TAMS is not found. */
  lemma TamsNotReachedOnStepTrack(t: Track)
    requires |t| > 10
    requires forall j :: 0 <= j < 10 ==> t[j].xCen == 0.70
    requires forall j :: 10 <= j < |t| ==> t[j].xCen == 0.65
    ensures TAMS(t, 0, DefaultXMin) == NotFound
  {
  }

  /** On a track whose core hydrogen fraction never increases, the TAMS is
      the first row at or below the threshold; if the fraction never gets
      there, the TAMS is not found. */
  lemma TamsOfDecreasingTrack(t: Track, xMin: real, c: nat)
    requires forall j, k :: 0 <= j <= k < |t| ==> t[k].xCen <= t[j].xCen
    requires c < |t| && t[c].xCen <= xMin
    requires c > 0 ==> t[c - 1].xCen > xMin
    ensures TAMS(t, 0, xMin) == c
  {
  }

  /** A track whose core helium fraction never exceeds 0.5 has no ZAHB. */
  lemma ZahbNotFoundWithoutHelium(t: Track, i0: nat)
    requires i0 < |t|
    requires forall j :: i0 <= j < |t| ==> t[j].yCen <= 0.5
    ensures ZAHB(t, i0) == NotFound
  {
  }
}
