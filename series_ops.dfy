/**
 * Two small computations the plotting step of
 * examples/cavitationonset/plot_results.py performs on a loaded series:
 * keeping every tenth sample of the quasi-acoustic pressure so that it lines
 * up with the incompressible one, and locating the first maximum of a radius
 * series to read off the time of maximal expansion.
 */
module SeriesOps {
  import opened Wrappers

  /**
   * Keeps the samples at indices 9, 19, 29, ... in order, as the loop over
   * range(9, len(s), 10) does.
   */
  method Decimate<T>(s: seq<T>) returns (r: seq<T>)
    ensures |r| == |s| / 10
    ensures forall k :: 0 <= k < |r| ==> r[k] == s[10 * k + 9]
    ensures forall j :: 0 <= j < |s| && j % 10 == 9 ==> j / 10 < |r| && r[j / 10] == s[j]
  {
    r := [];
    var j := 9;
    while j < |s|
      invariant j == 10 * |r| + 9
      invariant 10 * |r| <= |s|
      invariant forall k :: 0 <= k < |r| ==> r[k] == s[10 * k + 9]
    {
      r := r + [s[j]];
      j := j + 10;
    }
    forall i | 0 <= i < |s| && i % 10 == 9 ensures i / 10 < |r| && r[i / 10] == s[i] {
      assert 10 * (i / 10) + 9 == i;
    }
  }

  /** The largest element of a non-empty series: max(s). */
  function Max(s: seq<real>): (m: real)
    requires |s| > 0
    ensures m in s
    ensures forall j :: 0 <= j < |s| ==> s[j] <= m
  {
    if |s| == 1 then s[0]
    else
      var rest := Max(s[1..]);
      if s[0] >= rest then s[0] else rest
  }

  /** list.index(x): the first position holding x, or None where it raises ValueError. */
  function IndexOf(s: seq<real>, x: real): (r: Option<nat>)
    ensures r.None? <==> x !in s
    ensures r.Some? ==> r.value < |s| && s[r.value] == x
    ensures r.Some? ==> forall j :: 0 <= j < r.value ==> s[j] != x
  {
    if s == [] then None
    else if s[0] == x then Some(0)
    else match IndexOf(s[1..], x)
      case None => None
      case Some(k) => Some(k + 1)
  }

  /**
   * s.index(max(s)): the first position of the maximum, or None for an empty
   * series, where max raises ValueError.
   */
  function FirstMaxIndex(s: seq<real>): (r: Option<nat>)
    ensures r.None? <==> |s| == 0
    ensures r.Some? ==> r.value < |s|
    ensures r.Some? ==> forall j :: 0 <= j < |s| ==> s[j] <= s[r.value]
    ensures r.Some? ==> forall j :: 0 <= j < r.value ==> s[j] < s[r.value]
  {
    if |s| == 0 then None else IndexOf(s, Max(s))
  }

  /**
   * times[radii.index(max(radii))]: the time at which the radius first peaks,
   * or None where the script raises (an empty radius series, or a time series
   * too short to index).
   */
  function TimeOfMaxRadius(times: seq<real>, radii: seq<real>): (r: Option<real>)
    ensures r.Some? <==> |radii| > 0 && FirstMaxIndex(radii).value < |times|
    ensures |radii| > 0 && |times| >= |radii| ==> r.Some?
    ensures r.Some? ==> exists k :: (
      && 0 <= k < |radii| && k < |times| && r.value == times[k]
      && (forall j :: 0 <= j < |radii| ==> radii[j] <= radii[k])
      && (forall j :: 0 <= j < k ==> radii[j] < radii[k]))
  {
    match FirstMaxIndex(radii)
    case None => None
    case Some(k) => if k < |times| then Some(times[k]) else None
  }
}
