/** The decision logic of `_reproject` (gps_xyt.py:126-170): which azimuths the
    oblique Mercator projection refuses, which it takes directly, and the
    south-facing workaround that projects with the opposite bearing and flips the
    result. The geodesic azimuth is an input and the projection itself is a
    function parameter: only the policy around them is modelled. */
module Reprojector {
  import opened Wrappers

  /** The three cases of gps_xyt.py:143-168. */
  datatype AzimuthCase = Unsupported | Standard | SouthFacing

  /** An oblique Mercator projection `omerc` centred on `(lat0, lonc)` with
      central-line bearing `alpha` and `gamma = 0` (gps_xyt.py:149-154). */
  datatype Omerc = Omerc(lat0: real, lonc: real, alpha: real)

  /** A projected point in metres. */
  datatype XY = XY(x: real, y: real)

  /** The projected coordinate arrays `xs, ys`. */
  datatype Projected = Projected(xs: seq<real>, ys: seq<real>)

  /** `NotImplementedError` of gps_xyt.py:146. */
  datatype ReprojectError = UnsupportedGeometry

  /** The guard of gps_xyt.py:143: bearing along a meridian, along the equator
      at the equator, or an origin at or beyond a pole. */
  predicate IsUnsupported(latA: real, alpha: real) {
    || alpha == 0.0 || alpha == 180.0
    || (latA == 0.0 && (alpha == 90.0 || alpha == 270.0))
    || latA >= 90.0 || latA <= -90.0
  }

  /** The bearings the projection takes directly (gps_xyt.py:148). */
  predicate IsNorthFacing(alpha: real) {
    alpha <= 90.0 || alpha > 270.0
  }

  /** The tagged decision: the guard first, then the facing test. */
  function Classify(latA: real, alpha: real): (c: AzimuthCase)
    ensures c == Unsupported <==> IsUnsupported(latA, alpha)
    ensures c == Standard <==> !IsUnsupported(latA, alpha) && IsNorthFacing(alpha)
    ensures c == SouthFacing <==> !IsUnsupported(latA, alpha) && 90.0 < alpha <= 270.0
  {
    if IsUnsupported(latA, alpha) then Unsupported
    else if IsNorthFacing(alpha) then Standard
    else SouthFacing
  }

  /** Python's `x % 360` on floats: the result lies in `[0, 360)` and differs
      from `x` by a whole number of turns. */
  function Mod360(x: real): (r: real)
    ensures 0.0 <= r < 360.0
    ensures ((x - r) / 360.0).Floor as real == (x - r) / 360.0
  {
    x - 360.0 * (x / 360.0).Floor as real
  }

  /** `Mod360` is determined by its contract: the one value in `[0, 360)` that
      differs from `x` by `k` whole turns. */
  lemma Mod360Unique(x: real, r: real, k: int)
    requires 0.0 <= r < 360.0 && x == r + 360.0 * k as real
    ensures Mod360(x) == r
  {
    assert x / 360.0 == k as real + r / 360.0;
    assert (x / 360.0).Floor == k;
  }

  /** The bearing used for a south-facing axis, `(alpha - 180) % 360` (gps_xyt.py:159). */
  function SubstitutedBearing(alpha: real): (r: real)
    ensures 0.0 <= r < 360.0
    ensures ((alpha - 180.0 - r) / 360.0).Floor as real == (alpha - 180.0 - r) / 360.0
  {
    Mod360(alpha - 180.0)
  }

  /** For a south-facing bearing the substitute is the opposite direction, and it
      lies in `[0, 90] ∪ (270, 360)`, the range the projection takes directly. */
  lemma SubstitutedBearingFacesNorth(alpha: real)
    requires 90.0 < alpha <= 270.0
    ensures SubstitutedBearing(alpha) == if alpha >= 180.0 then alpha - 180.0 else alpha + 180.0
    ensures 0.0 <= SubstitutedBearing(alpha) <= 90.0 || 270.0 < SubstitutedBearing(alpha) < 360.0
  {
    if alpha >= 180.0 {
      Mod360Unique(alpha - 180.0, alpha - 180.0, 0);
    } else {
      Mod360Unique(alpha - 180.0, alpha + 180.0, -1);
    }
  }

  /** A supported south-facing case becomes a supported standard case after the
      substitution: the workaround never feeds the projection a refused bearing. */
  lemma SubstitutedCaseIsStandard(latA: real, alpha: real)
    requires Classify(latA, alpha) == SouthFacing
    ensures Classify(latA, SubstitutedBearing(alpha)) == Standard
  {
    SubstitutedBearingFacesNorth(alpha);
  }

  /** `pyproj.transform(p1, p2, lngs, lats)`: every point through the projection,
      longitude first. */
  function ProjectAll(proj: (Omerc, real, real) -> XY, o: Omerc, lats: seq<real>, lngs: seq<real>): (r: Projected)
    requires |lats| == |lngs|
    ensures |r.xs| == |r.ys| == |lats|
    ensures forall i :: 0 <= i < |lats| ==> XY(r.xs[i], r.ys[i]) == proj(o, lngs[i], lats[i])
  {
    Projected(seq(|lats|, i requires 0 <= i < |lats| => proj(o, lngs[i], lats[i]).x),
              seq(|lats|, i requires 0 <= i < |lats| => proj(o, lngs[i], lats[i]).y))
  }

  /** `xs = -xs; ys = -ys` (gps_xyt.py:167-168). */
  function Negate(p: Projected): (r: Projected)
    ensures |r.xs| == |p.xs| && |r.ys| == |p.ys|
    ensures forall i :: 0 <= i < |p.xs| ==> r.xs[i] + p.xs[i] == 0.0
    ensures forall i :: 0 <= i < |p.ys| ==> r.ys[i] + p.ys[i] == 0.0
  {
    Projected(seq(|p.xs|, i requires 0 <= i < |p.xs| => -p.xs[i]),
              seq(|p.ys|, i requires 0 <= i < |p.ys| => -p.ys[i]))
  }

  /** Negating twice gives back the coordinates. */
  lemma NegateInvolutive(p: Projected)
    ensures Negate(Negate(p)) == p
  {
    var q := Negate(Negate(p));
    assert q.xs == p.xs;
    assert q.ys == p.ys;
  }

  /** `_reproject` with the azimuth `alpha` already computed from the axis. */
  function Reproject(proj: (Omerc, real, real) -> XY, lats: seq<real>, lngs: seq<real>,
                     latA: real, lngA: real, alpha: real): (r: Result<Projected, ReprojectError>)
    requires |lats| == |lngs|
    ensures r.Err? <==> IsUnsupported(latA, alpha)
    ensures r.Ok? ==> |r.value.xs| == |r.value.ys| == |lats|
    ensures Classify(latA, alpha) == Standard ==> forall i :: 0 <= i < |lats| ==>
      XY(r.value.xs[i], r.value.ys[i]) == proj(Omerc(latA, lngA, alpha), lngs[i], lats[i])
    ensures Classify(latA, alpha) == SouthFacing ==> forall i :: 0 <= i < |lats| ==>
      var p := proj(Omerc(latA, lngA, SubstitutedBearing(alpha)), lngs[i], lats[i]);
      r.value.xs[i] == -p.x && r.value.ys[i] == -p.y
  {
    match Classify(latA, alpha)
    case Unsupported => Err(UnsupportedGeometry)
    case Standard => Ok(ProjectAll(proj, Omerc(latA, lngA, alpha), lats, lngs))
    case SouthFacing => Ok(Negate(ProjectAll(proj, Omerc(latA, lngA, SubstitutedBearing(alpha)), lats, lngs)))
  }

  /** A south-facing axis gives the negation of what its substituted, north-facing
      bearing gives directly. */
  lemma SouthFacingIsNegatedSubstitute(proj: (Omerc, real, real) -> XY, lats: seq<real>, lngs: seq<real>,
                                       latA: real, lngA: real, alpha: real)
    requires |lats| == |lngs|
    requires Classify(latA, alpha) == SouthFacing
    ensures Reproject(proj, lats, lngs, latA, lngA, SubstitutedBearing(alpha)).Ok?
    ensures Reproject(proj, lats, lngs, latA, lngA, alpha)
         == Ok(Negate(Reproject(proj, lats, lngs, latA, lngA, SubstitutedBearing(alpha)).value))
  {
    SubstitutedCaseIsStandard(latA, alpha);
  }

  /** Bearing 200 is handled as bearing 20 with both coordinates negated. */
  lemma Bearing200IsNegatedBearing20(proj: (Omerc, real, real) -> XY, lats: seq<real>, lngs: seq<real>,
                                     latA: real, lngA: real)
    requires |lats| == |lngs|
    requires -90.0 < latA < 90.0
    ensures Reproject(proj, lats, lngs, latA, lngA, 200.0)
         == Ok(Negate(ProjectAll(proj, Omerc(latA, lngA, 20.0), lats, lngs)))
  {
    SubstitutedBearingFacesNorth(200.0);
  }

  /** Reversing a supported axis (bearing plus 180 degrees, modulo 360) keeps it
      supported and negates every coordinate: the frame turns by half a circle. */
  lemma ReversedAxisNegates(proj: (Omerc, real, real) -> XY, lats: seq<real>, lngs: seq<real>,
                            latA: real, lngA: real, alpha: real)
    requires |lats| == |lngs|
    requires 0.0 <= alpha < 360.0
    requires Classify(latA, alpha) == Standard
    ensures Classify(latA, Mod360(alpha + 180.0)) == SouthFacing
    ensures Reproject(proj, lats, lngs, latA, lngA, Mod360(alpha + 180.0))
         == Ok(Negate(Reproject(proj, lats, lngs, latA, lngA, alpha).value))
  {
    var back := Mod360(alpha + 180.0);
    if alpha <= 90.0 {
      Mod360Unique(alpha + 180.0, alpha + 180.0, 0);
    } else {
      Mod360Unique(alpha + 180.0, alpha - 180.0, 1);
    }
    SubstitutedBearingFacesNorth(back);
    assert SubstitutedBearing(back) == alpha;
  }
}
