/**
 * `get_burst_info`: one record per burst of a sub-swath, keyed by the burst's
 * identifier. The line extent of burst position p is [p * L, p * L + L] for L
 * lines per burst, the pixel extent [0, S - 1] for S samples per burst, and
 * the centre comes from the GCP grid. Records are written in burst order, so
 * when two bursts round to the same identifier the later one is kept.
 */
module BurstInfo {
  import opened Wrappers
  import opened Annotation
  import opened BurstCentre
  import opened BurstId

  /** The ancillary-data category whose files are the annotation files. */
  const AnnotationCategory: string := "annotation_path"

  /** One sub-swath's ancillary paths: category -> polarization -> path. */
  type SwathPaths = map<string, map<string, string>>

  datatype BurstRecord = BurstRecord(
    burstPos: nat,
    firstLine: int, lastLine: int,
    firstPixel: int, lastPixel: int,
    centreLatitude: real, centreLongitude: real)

  function CentreOf(r: BurstRecord): GeoPoint {
    GeoPoint(r.centreLatitude, r.centreLongitude)
  }

  /** The key a record is filed under: the identifier of its own centre. */
  function IdOf(orbit: nat, r: BurstRecord): string {
    BuildBurstId(orbit, CentreOf(r))
  }

  /** The record of one burst: its raster extent and its centre. */
  function MakeRecord(g: BurstGeometry, centre: GeoPoint): BurstRecord {
    var first := g.burstPos * g.linesPerBurst;
    BurstRecord(g.burstPos, first, first + g.linesPerBurst, 0, g.samplesPerBurst - 1,
                centre.latitude, centre.longitude)
  }

  /** Record k of a sub-swath pairs burst geometry k with burst centre k. */
  function Records(bursts: seq<BurstGeometry>, centres: seq<GeoPoint>): (rs: seq<BurstRecord>)
    requires |bursts| == |centres|
    ensures |rs| == |bursts|
    ensures forall k :: 0 <= k < |rs| ==> rs[k] == MakeRecord(bursts[k], centres[k])
  {
    seq(|bursts|, k requires 0 <= k < |bursts| => MakeRecord(bursts[k], centres[k]))
  }

  /** No item after position k has the same key as item k. */
  predicate LastWithItsKey<K(==), R>(key: R -> K, rs: seq<R>, k: nat)
    requires k < |rs|
  {
    forall j :: k < j < |rs| ==> key(rs[j]) != key(rs[k])
  }

  /** Files items under their keys, in order; a later item overwrites an earlier one. */
  function IndexBy<K(==), R>(key: R -> K, rs: seq<R>): (info: map<K, R>)
    // the keys are exactly the items' keys
    ensures info.Keys == set r | r in rs :: key(r)
    // every entry is one of the items, filed under its own key
    ensures forall id :: id in info ==> info[id] in rs && key(info[id]) == id
  {
    if rs == [] then map[]
    else
      var init, last := rs[..|rs| - 1], rs[|rs| - 1];
      assert forall r :: r in rs ==> r in init || r == last;
      assert forall r :: r in init ==> r in rs;
      IndexBy(key, init)[key(last) := last]
  }

  /** The item kept for a key is the last one that has it: later writes win. */
  lemma {:induction false} IndexByKeepsLast<K, R>(key: R -> K, rs: seq<R>, k: nat)
    requires k < |rs| && LastWithItsKey(key, rs, k)
    ensures IndexBy(key, rs)[key(rs[k])] == rs[k]
  {
    var init, last := rs[..|rs| - 1], rs[|rs| - 1];
    if k < |init| {
      assert key(last) != key(rs[k]);
      assert LastWithItsKey(key, init, k) by {
        forall j | k < j < |init| ensures key(init[j]) != key(init[k]) {
          assert init[j] == rs[j];
        }
      }
      IndexByKeepsLast(key, init, k);
      assert init[k] == rs[k];
    }
  }

  /** The records filed under their burst identifiers. */
  function IndexById(orbit: nat, rs: seq<BurstRecord>): map<string, BurstRecord> {
    IndexBy(r => IdOf(orbit, r), rs)
  }

  /** The burst records of one annotation file, or the reason its metadata is unusable. */
  function BurstInfoOf(orbit: nat, ann: SwathAnnotation): (r: Result<map<string, BurstRecord>, MetadataError>)
    // the grid's contract and one geometry record per burst are both required ...
    ensures r.Ok? <==> WellShaped(ann.gcp) && |ann.bursts| == ann.gcp.burstCount
    ensures WellShaped(ann.gcp) && |ann.bursts| != ann.gcp.burstCount ==>
      r == Err(BurstCountMismatch(|ann.bursts|, ann.gcp.burstCount))
    // ... and then the records are those of the bursts, filed by identifier
    ensures r.Ok? ==> r.value == IndexById(orbit, Records(ann.bursts, ComputeBurstCentre(ann.gcp).value))
  {
    match ComputeBurstCentre(ann.gcp)
    case Err(e) => Err(e)
    case Ok(centres) =>
      if |ann.bursts| != |centres| then Err(BurstCountMismatch(|ann.bursts|, ann.gcp.burstCount))
      else Ok(IndexById(orbit, Records(ann.bursts, centres)))
  }

  /** True when the sub-swath lists at least one annotation file. */
  predicate HasAnnotation(swath: SwathPaths) {
    AnnotationCategory in swath && |swath[AnnotationCategory]| > 0
  }

  /**
   * The burst records of a sub-swath, read from any one of its annotation
   * files (all polarizations of a sub-swath share one burst geometry);
   * `None` when it lists no annotation file.
   */
  ghost function GetBurstInfo(orbit: nat, swath: SwathPaths, read: string -> SwathAnnotation)
    : (r: Result<Option<map<string, BurstRecord>>, MetadataError>)
    ensures r == Ok(None) <==> !HasAnnotation(swath)
    ensures HasAnnotation(swath) ==>
      exists pol :: pol in swath[AnnotationCategory] && r == Lift(BurstInfoOf(orbit, read(swath[AnnotationCategory][pol])))
  {
    if !HasAnnotation(swath) then Ok(None)
    else
      var pol :| pol in swath[AnnotationCategory];
      Lift(BurstInfoOf(orbit, read(swath[AnnotationCategory][pol])))
  }

  /** A found index, or the error that prevented it. */
  function Lift(r: Result<map<string, BurstRecord>, MetadataError>): (l: Result<Option<map<string, BurstRecord>>, MetadataError>)
    ensures l != Ok(None)
  {
    match r
    case Ok(info) => Ok(Some(info))
    case Err(e) => Err(e)
  }

  /** Every record is filed under the identifier built from its own centre. */
  lemma KeyedByOwnId(orbit: nat, ann: SwathAnnotation)
    requires BurstInfoOf(orbit, ann).Ok?
    ensures var info := BurstInfoOf(orbit, ann).value;
      forall id :: id in info ==> id == BuildBurstId(orbit, CentreOf(info[id]))
  {
  }

  /**
   * A record describes a burst when it carries the burst's position, the line
   * extent [p * L, p * L + L], the pixel extent [0, S - 1] and the centre.
   */
  predicate Describes(rec: BurstRecord, g: BurstGeometry, centre: GeoPoint) {
    && rec.burstPos == g.burstPos
    && rec.firstLine == g.burstPos * g.linesPerBurst
    && rec.lastLine == rec.firstLine + g.linesPerBurst
    && rec.firstPixel == 0
    && rec.lastPixel == g.samplesPerBurst - 1
    && CentreOf(rec) == centre
  }

  /** Every record in the index describes one burst k of the annotation, with centre k. */
  lemma RecordExtents(orbit: nat, ann: SwathAnnotation, id: string)
    requires BurstInfoOf(orbit, ann).Ok? && id in BurstInfoOf(orbit, ann).value
    ensures exists k ::
      0 <= k < |ann.bursts| && Describes(BurstInfoOf(orbit, ann).value[id], ann.bursts[k], ComputeBurstCentre(ann.gcp).value[k])
  {
    var centres := ComputeBurstCentre(ann.gcp).value;
    var rs := Records(ann.bursts, centres);
    var rec := BurstInfoOf(orbit, ann).value[id];
    assert rec in rs;
    var k :| 0 <= k < |rs| && rs[k] == rec;
    assert Describes(rec, ann.bursts[k], centres[k]);
  }

  /** Every burst is in the index; when identifiers do not collide, under its own record. */
  lemma EveryBurstIndexed(orbit: nat, ann: SwathAnnotation, k: nat)
    requires BurstInfoOf(orbit, ann).Ok? && k < |ann.bursts|
    ensures var centre := ComputeBurstCentre(ann.gcp).value[k];
      var info := BurstInfoOf(orbit, ann).value;
      && BuildBurstId(orbit, centre) in info
      && ((forall j :: k < j < |ann.bursts| ==> BuildBurstId(orbit, ComputeBurstCentre(ann.gcp).value[j]) != BuildBurstId(orbit, centre))
          ==> info[BuildBurstId(orbit, centre)] == MakeRecord(ann.bursts[k], centre))
  {
    var centres := ComputeBurstCentre(ann.gcp).value;
    var rs := Records(ann.bursts, centres);
    assert CentreOf(rs[k]) == centres[k];
    assert rs[k] in rs;
    if forall j :: k < j < |ann.bursts| ==> BuildBurstId(orbit, centres[j]) != BuildBurstId(orbit, centres[k]) {
      forall j | k < j < |rs| ensures IdOf(orbit, rs[j]) != IdOf(orbit, rs[k]) {
        assert CentreOf(rs[j]) == centres[j];
      }
      IndexByKeepsLast(r => IdOf(orbit, r), rs, k);
    }
  }

  /**
   * Which annotation file is read does not matter when every polarization of
   * the sub-swath carries the same burst geometry.
   */
  lemma AnyPolarizationGivesSameInfo(orbit: nat, swath: SwathPaths, read: string -> SwathAnnotation, ann: SwathAnnotation)
    requires HasAnnotation(swath)
    requires forall pol :: pol in swath[AnnotationCategory] ==> read(swath[AnnotationCategory][pol]) == ann
    ensures GetBurstInfo(orbit, swath, read) == Lift(BurstInfoOf(orbit, ann))
  {
  }

  /**
   * The example burst: position 0 of a sub-swath with 1500 lines and 21632
   * samples per burst, centred at (47.0869..., 11.8069...) on orbit 168, is
   * filed under "R168-N471-E0118" with lines 0..1500 and pixels 0..21631.
   */
  lemma ExampleBurstRecord(ann: SwathAnnotation)
    requires BurstInfoOf(168, ann).Ok? && |ann.bursts| >= 1
    requires ann.bursts[0] == BurstGeometry(0, 1500, 21632)
    requires ComputeBurstCentre(ann.gcp).value[0] == GeoPoint(47.086949354032605, 11.806954918616803)
    requires forall j :: 0 < j < |ann.bursts| ==>
      BuildBurstId(168, ComputeBurstCentre(ann.gcp).value[j]) != "R168-N471-E0118"
    ensures "R168-N471-E0118" in BurstInfoOf(168, ann).value
    ensures BurstInfoOf(168, ann).value["R168-N471-E0118"]
         == BurstRecord(0, 0, 1500, 0, 21631, 47.086949354032605, 11.806954918616803)
  {
    BuildBurstIdRoundsToNearest();
    EveryBurstIndexed(168, ann, 0);
  }

  /**
   * The same burst reached as the example does: through a sub-swath whose
   * only annotation file is the "vh" one, which yields a burst index (not
   * None) holding that record.
   */
  lemma GetBurstInfoExample(annotationFile: string, read: string -> SwathAnnotation, ann: SwathAnnotation)
    requires read(annotationFile) == ann
    requires BurstInfoOf(168, ann).Ok? && |ann.bursts| >= 1
    requires ann.bursts[0] == BurstGeometry(0, 1500, 21632)
    requires ComputeBurstCentre(ann.gcp).value[0] == GeoPoint(47.086949354032605, 11.806954918616803)
    requires forall j :: 0 < j < |ann.bursts| ==>
      BuildBurstId(168, ComputeBurstCentre(ann.gcp).value[j]) != "R168-N471-E0118"
    ensures GetBurstInfo(168, map[AnnotationCategory := map["vh" := annotationFile]], read)
         == Ok(Some(BurstInfoOf(168, ann).value))
    ensures "R168-N471-E0118" in BurstInfoOf(168, ann).value
    ensures BurstInfoOf(168, ann).value["R168-N471-E0118"]
         == BurstRecord(0, 0, 1500, 0, 21631, 47.086949354032605, 11.806954918616803)
  {
    var swath: SwathPaths := map[AnnotationCategory := map["vh" := annotationFile]];
    assert "vh" in swath[AnnotationCategory];
    AnyPolarizationGivesSameInfo(168, swath, read, ann);
    ExampleBurstRecord(ann);
  }

  /**
   * Line extents of consecutive burst positions meet: the last line of
   * position p is the first line of position p + 1, so each extent spans
   * L + 1 lines while a pixel extent spans exactly S pixels.
   */
  lemma ConsecutiveLineExtents(g1: BurstGeometry, g2: BurstGeometry, c1: GeoPoint, c2: GeoPoint)
    requires g2.burstPos == g1.burstPos + 1 && g1.linesPerBurst == g2.linesPerBurst
    ensures MakeRecord(g1, c1).lastLine == MakeRecord(g2, c2).firstLine
    ensures MakeRecord(g1, c1).lastLine - MakeRecord(g1, c1).firstLine + 1 == g1.linesPerBurst + 1
    ensures MakeRecord(g1, c1).lastPixel - MakeRecord(g1, c1).firstPixel + 1 == g1.samplesPerBurst
  {
    assert (g1.burstPos + 1) * g1.linesPerBurst == g1.burstPos * g1.linesPerBurst + g1.linesPerBurst;
  }

  /** A sub-swath that lists no annotation file has no burst index (and is not an error). */
  lemma NoAnnotationNoInfo(orbit: nat, swath: SwathPaths, read: string -> SwathAnnotation)
    requires AnnotationCategory in swath && swath[AnnotationCategory] == map[]
    ensures GetBurstInfo(orbit, swath, read) == Ok(None)
  {
  }
}
