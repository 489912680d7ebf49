/**
 * `compute_burst_centre`: one geographic centre per burst from the sparse GCP
 * grid. The grid is first averaged over range (one latitude and one longitude
 * per azimuth line); the centre of burst i is then the midpoint of azimuth
 * lines i and i + 1, latitude and longitude taken separately. Longitudes are
 * averaged naively, with no handling of the +/-180 degree seam.
 */
module BurstCentre {
  import opened Wrappers
  import opened Annotation

  datatype GeoPoint = GeoPoint(latitude: real, longitude: real)

  function Sum(s: seq<real>): real {
    if s == [] then 0.0 else Sum(s[..|s| - 1]) + s[|s| - 1]
  }

  function Mean(s: seq<real>): real
    requires |s| > 0
  {
    Sum(s) / |s| as real
  }

  /** Every row has `width` samples. */
  predicate Rectangular(rows: seq<seq<real>>, width: nat) {
    forall i :: 0 <= i < |rows| ==> |rows[i]| == width
  }

  /**
   * The grid's contract: `burst_count + 1` azimuth lines, and latitude and
   * longitude of one common shape with at least one range sample.
   */
  predicate WellShaped(g: Gcp) {
    && |g.latitude| == g.burstCount + 1
    && |g.longitude| == g.burstCount + 1
    && |g.latitude[0]| > 0
    && Rectangular(g.latitude, |g.latitude[0]|)
    && Rectangular(g.longitude, |g.latitude[0]|)
  }

  /** The range-averaged value of each azimuth line. */
  function CollapseRange(rows: seq<seq<real>>): (c: seq<real>)
    requires forall i :: 0 <= i < |rows| ==> |rows[i]| > 0
    ensures |c| == |rows|
    ensures forall i :: 0 <= i < |rows| ==> c[i] == Mean(rows[i])
  {
    seq(|rows|, i requires 0 <= i < |rows| => Mean(rows[i]))
  }

  /** The midpoints of consecutive values. */
  function Midpoints(c: seq<real>): (m: seq<real>)
    requires |c| >= 1
    ensures |m| == |c| - 1
    ensures forall i :: 0 <= i < |m| ==> m[i] == (c[i] + c[i + 1]) / 2.0
  {
    seq(|c| - 1, i requires 0 <= i < |c| - 1 => (c[i] + c[i + 1]) / 2.0)
  }

  function ComputeBurstCentre(g: Gcp): (r: Result<seq<GeoPoint>, MetadataError>)
    // a grid is accepted exactly when it keeps its contract ...
    ensures r.Ok? <==> WellShaped(g)
    // ... and a wrong number of azimuth lines is reported as such
    ensures |g.latitude| != g.burstCount + 1 ==> r == Err(AzimuthCountMismatch(|g.latitude|, g.burstCount))
    // one centre per burst: the midpoint of its two bounding range-averaged lines
    ensures r.Ok? ==> |r.value| == g.burstCount
    ensures r.Ok? ==> forall i :: 0 <= i < g.burstCount ==>
      r.value[i] == GeoPoint((Mean(g.latitude[i]) + Mean(g.latitude[i + 1])) / 2.0,
                             (Mean(g.longitude[i]) + Mean(g.longitude[i + 1])) / 2.0)
  {
    if |g.latitude| != g.burstCount + 1 then
      Err(AzimuthCountMismatch(|g.latitude|, g.burstCount))
    else if !WellShaped(g) then
      Err(IrregularGrid)
    else
      var lat := Midpoints(CollapseRange(g.latitude));
      var lon := Midpoints(CollapseRange(g.longitude));
      Ok(seq(g.burstCount, i requires 0 <= i < g.burstCount => GeoPoint(lat[i], lon[i])))
  }

  lemma {:induction false} SumAppend(a: seq<real>, b: seq<real>)
    ensures Sum(a + b) == Sum(a) + Sum(b)
    decreases |b|
  {
    if b != [] {
      assert (a + b)[..|a + b| - 1] == a + b[..|b| - 1];
      SumAppend(a, b[..|b| - 1]);
    } else {
      assert a + b == a;
    }
  }

  lemma {:induction false} SumBounds(s: seq<real>, lo: real, hi: real)
    requires forall j :: 0 <= j < |s| ==> lo <= s[j] <= hi
    ensures |s| as real * lo <= Sum(s) <= |s| as real * hi
    decreases |s|
  {
    if s != [] {
      SumBounds(s[..|s| - 1], lo, hi);
    }
  }

  /** A mean lies between the smallest and the largest sample. */
  lemma MeanBounds(s: seq<real>, lo: real, hi: real)
    requires |s| > 0
    requires forall j :: 0 <= j < |s| ==> lo <= s[j] <= hi
    ensures lo <= Mean(s) <= hi
  {
    SumBounds(s, lo, hi);
    var n := |s| as real;
    assert Sum(s) / n >= lo by { assert Sum(s) >= n * lo; }
    assert Sum(s) / n <= hi by { assert Sum(s) <= n * hi; }
  }

  /** The mean of two equally wide rows together is the midpoint of their means. */
  lemma WindowMean(a: seq<real>, b: seq<real>)
    requires |a| > 0 && |a| == |b|
    ensures Mean(a + b) == (Mean(a) + Mean(b)) / 2.0
  {
    SumAppend(a, b);
    var n := |a| as real;
    assert |a + b| as real == 2.0 * n;
    var ma, mb := Mean(a), Mean(b);
    assert Sum(a) == ma * n;
    assert Sum(b) == mb * n;
    assert (ma * n + mb * n) / (2.0 * n) == (ma + mb) / 2.0;
  }

  /**
   * The centre of burst i is the plain mean over all the samples of its two
   * bounding azimuth lines (the 2 x range window), for both coordinates.
   */
  lemma CentreIsWindowMean(g: Gcp, i: nat)
    requires WellShaped(g) && i < g.burstCount
    ensures ComputeBurstCentre(g).Ok?
    ensures ComputeBurstCentre(g).value[i]
         == GeoPoint(Mean(g.latitude[i] + g.latitude[i + 1]), Mean(g.longitude[i] + g.longitude[i + 1]))
  {
    WindowMean(g.latitude[i], g.latitude[i + 1]);
    WindowMean(g.longitude[i], g.longitude[i + 1]);
  }

  /**
   * A burst's centre lies inside the latitude and longitude span of the GCPs
   * on its two bounding azimuth lines.
   */
  lemma CentreWithinSpan(g: Gcp, i: nat, latLo: real, latHi: real, lonLo: real, lonHi: real)
    requires WellShaped(g) && i < g.burstCount
    requires forall k, j :: i <= k <= i + 1 && 0 <= j < |g.latitude[k]| ==> latLo <= g.latitude[k][j] <= latHi
    requires forall k, j :: i <= k <= i + 1 && 0 <= j < |g.longitude[k]| ==> lonLo <= g.longitude[k][j] <= lonHi
    ensures ComputeBurstCentre(g).Ok?
    ensures latLo <= ComputeBurstCentre(g).value[i].latitude <= latHi
    ensures lonLo <= ComputeBurstCentre(g).value[i].longitude <= lonHi
  {
    CentreIsWindowMean(g, i);
    var lat, lon := g.latitude[i] + g.latitude[i + 1], g.longitude[i] + g.longitude[i + 1];
    var w := |g.latitude[i]|;
    assert |g.latitude[i]| == |g.latitude[0]| == |g.latitude[i + 1]|;
    assert |g.longitude[i]| == |g.latitude[0]| == |g.longitude[i + 1]|;
    forall j | 0 <= j < |lat| ensures latLo <= lat[j] <= latHi {
      if j < w {
        assert lat[j] == g.latitude[i][j];
      } else {
        assert lat[j] == g.latitude[i + 1][j - w];
      }
    }
    forall j | 0 <= j < |lon| ensures lonLo <= lon[j] <= lonHi {
      if j >= w {
        assert lon[j] == g.longitude[i + 1][j - w];
      }
    }
    MeanBounds(lat, latLo, latHi);
    MeanBounds(lon, lonLo, lonHi);
  }

  /**
   * The example grid: five azimuth lines of one range sample each, latitude
   * 0..4 and longitude 0, 10, .., 40, four bursts.
   */
  lemma ComputeBurstCentreExample()
    ensures ComputeBurstCentre(Gcp([[0.0], [1.0], [2.0], [3.0], [4.0]],
                                   [[0.0], [10.0], [20.0], [30.0], [40.0]], 4))
         == Ok([GeoPoint(0.5, 5.0), GeoPoint(1.5, 15.0), GeoPoint(2.5, 25.0), GeoPoint(3.5, 35.0)])
  {
    var g := Gcp([[0.0], [1.0], [2.0], [3.0], [4.0]], [[0.0], [10.0], [20.0], [30.0], [40.0]], 4);
    assert WellShaped(g);
    MeanOfOne(0.0); MeanOfOne(1.0); MeanOfOne(2.0); MeanOfOne(3.0); MeanOfOne(4.0);
    MeanOfOne(10.0); MeanOfOne(20.0); MeanOfOne(30.0); MeanOfOne(40.0);
    var r := ComputeBurstCentre(g);
    var expected := [GeoPoint(0.5, 5.0), GeoPoint(1.5, 15.0), GeoPoint(2.5, 25.0), GeoPoint(3.5, 35.0)];
    assert r.value[0] == expected[0];
    assert r.value[1] == expected[1];
    assert r.value[2] == expected[2];
    assert r.value[3] == expected[3];
    assert r.value == expected;
  }

  lemma MeanOfOne(x: real)
    ensures Mean([x]) == x
  {
    assert [x][..0] == [];
    assert Sum([x]) == Sum([]) + x;
  }

  /** A grid with the wrong number of azimuth lines is refused, not silently used. */
  lemma ComputeBurstCentreRefusesShortGrid()
    ensures ComputeBurstCentre(Gcp([[0.0], [1.0], [2.0], [3.0]], [[0.0], [10.0], [20.0], [30.0]], 4))
         == Err(AzimuthCountMismatch(4, 4))
  {
  }
}
