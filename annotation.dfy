/**
 * What the annotation-file reader supplies to the burst index: the sub-swath's
 * ground-control-point grid and one geometry record per burst. Reading and
 * parsing the annotation XML is not part of this model; the reader is a
 * parameter of the operations that need it.
 */
module Annotation {

  /**
   * The GCP grid: latitude and longitude sampled at (azimuth line, range
   * sample), rows indexed by azimuth line, plus the grid's `burst_count`
   * attribute. A well-formed grid has `burst_count + 1` azimuth lines, the
   * interior ones shared by two consecutive bursts.
   */
  datatype Gcp = Gcp(latitude: seq<seq<real>>, longitude: seq<seq<real>>, burstCount: nat)

  /** Per burst: its 0-based position in the sub-swath and the raster size of one burst. */
  datatype BurstGeometry = BurstGeometry(burstPos: nat, linesPerBurst: nat, samplesPerBurst: nat)

  /** Everything the reader returns for one annotation file. */
  datatype SwathAnnotation = SwathAnnotation(gcp: Gcp, bursts: seq<BurstGeometry>)

  /** Metadata that breaks the grid's contract; it is reported, never corrected. */
  datatype MetadataError =
    | AzimuthCountMismatch(azimuthLines: nat, burstCount: nat)
    | IrregularGrid
    | BurstCountMismatch(bursts: nat, burstCount: nat)
}
