# Sentinel-1 SLC burst index, modelled in Dafny

This project models the burst-indexing and naming core of xarray-sentinel, a
reader for Sentinel-1 single-look-complex (SLC) products. An SLC product has
several sub-swaths (IW1, IW2, ...), and each sub-swath holds a sequence of
overlapping bursts. The core does five things:

- `filter_missing_path` keeps the ancillary files that exist.
  It works on a catalogue `{category -> {polarization -> path}}`.
- `compute_burst_centre` reduces the ground-control-point (GCP) grid to one
  (latitude, longitude) per burst.
- `build_burst_id` names a burst by orbit and rounded centre, for example
  `R168-N471-E0118`.
- `get_burst_info` builds one record per burst, with line/pixel extents and
  centre, keyed by the burst identifier.
- `find_avalable_groups` lists the group names a product exposes: `IW1`,
  `IW1/attitude`, `IW1/gcp`, `IW1/orbit` and one `IW1/<burst id>` per burst.

All five are pure functions, so the model is datatypes, functions and lemmas:

| file | module | models |
|---|---|---|
| `wrappers.dfy` | `Wrappers` | `Option` (Python `None`) and `Result` (a raised error) |
| `decimal.dfy` | `Decimal` | Python's `{n:0W}` zero-padded decimal formatting and its inverse |
| `rounding.dfy` | `Rounding` | Python's `round` over the reals: nearest integer, ties to even |
| `path_filter.dfy` | `PathFilter` | `filter_missing_path` |
| `annotation.dfy` | `Annotation` | what the annotation reader supplies: GCP grid, burst geometry, metadata errors |
| `burst_centre.dfy` | `BurstCentre` | `compute_burst_centre` |
| `burst_id.dfy` | `BurstId` | `build_burst_id`, plus a parser that reads an identifier back |
| `burst_info.dfy` | `BurstInfo` | `get_burst_info` |
| `groups.dfy` | `Groups` | `find_avalable_groups` |

Modelling choices:

- **Coordinates.** Coordinates are reals, so the averages and `round(|x| * 10)`
  are exact.
- **Parameters for I/O.** File existence is a parameter `pathExists`. The
  annotation reader is a parameter `read`.
- **Which annotation file is read.** Any one polarization's annotation file is
  used. `GetBurstInfo` picks one with `:|`, so it is a ghost function, as are
  the catalogue functions built on it. `AnyPolarizationGivesSameInfo` shows the
  choice does not matter when all polarizations share one geometry.
- **Metadata errors.** Malformed metadata is a hard failure, returned as `Err`.
  This covers a grid whose azimuth-line count is not `burst_count + 1`, a
  grid that is ragged or has no range samples, and a burst list whose length
  differs from `burst_count`. The catalogue reports the error of a failing
  sub-swath. A sub-swath with no existing annotation file is not an error: it
  contributes no names.
- **Burst identifiers.** The identifier format comes from the assertions on
  `build_burst_id`. The sign prefixes are 'N' for latitude >= 0 and 'E' for
  longitude >= 0, applied to the rounded magnitudes. Fields are zero-padded
  but never truncated. `BurstIdFixedWidth` proves the identifier is 15
  characters for valid coordinates and an orbit below 1000, with the fields at
  fixed places.
- **Rounding ties.** The test does not pin the tie-break. The model uses
  Python's built-in `round`, which rounds ties to even; `Rounding.TiesToEven`
  states it.
- **Line and pixel bounds.** Bounds follow the asserted values. The line extent
  of burst position p is `[p * L, p * L + L]`, so burst 0 with 1500 lines gives
  0..1500. The pixel extent is `[0, S - 1]`, so 21632 samples give 0..21631.
  The two ends are therefore not of the same kind: consecutive line extents
  share a boundary line (`ConsecutiveLineExtents`), while pixel extents do not.
  The model keeps the behaviour as asserted.

## Model

| member | source | states |
|---|---|---|
| `PathFilter.FilterMissingPath` | tests/test_sentinel1.py:12-27 | every group key survives (possibly with an empty inner map); an inner entry is kept exactly when its path exists; kept paths are unchanged |
| `PathFilter.FilterExample` | tests/test_sentinel1.py:12-27 | the example catalogue filters to `{"paths1": {"path1": existing}, "paths2": {}}` |
| `PathFilter.FilterIsSubCatalogue` | tests/test_sentinel1.py:24-27 | every path in the result exists and sits at the same group and key as in the input |
| `PathFilter.FilterIdempotent` | tests/test_sentinel1.py:24-27 | filtering an already filtered catalogue changes nothing |
| `PathFilter.FilterAllPresent` | tests/test_sentinel1.py:24-27 | when every listed path exists the catalogue is returned unchanged |
| `PathFilter.FilterDependsOnlyOnListedPaths` | tests/test_sentinel1.py:24-27 | two file systems that agree on the listed paths give the same result |
| `Decimal.Digits` | tests/test_sentinel1.py:37-38 | the plain decimal rendering is a non-empty digit string, one character exactly for numbers below 10 |
| `Decimal.Pad` | tests/test_sentinel1.py:37-38 | a zero-padded field is all digits and has length max(width, number of digits) |
| `Decimal.PadValue` | tests/test_sentinel1.py:37-38 | a zero-padded field reads back as the number it renders |
| `Decimal.PadFixedWidth` | tests/test_sentinel1.py:37-38 | a number below 10^width renders in exactly `width` characters |
| `Rounding.RoundHalfEven` | tests/test_sentinel1.py:38 | the result is within one half of the input, and an exact half goes to the even neighbour |
| `Rounding.RoundNearest` | tests/test_sentinel1.py:38 | an integer strictly within one half of x is round(x), so 118.47... gives 118 and 471.66... gives 472 |
| `Rounding.RoundAtMost` | tests/test_sentinel1.py:38 | rounding never exceeds an integer bound that the input stays below |
| `BurstCentre.ComputeBurstCentre` | tests/test_sentinel1.py:119-134 | accepted exactly for a grid of burst_count + 1 azimuth lines with a common non-empty range size; then one centre per burst, the midpoint of the range-averaged lines i and i + 1 for latitude and longitude separately |
| `BurstCentre.CentreIsWindowMean` | tests/test_sentinel1.py:132-134 | a burst centre equals the mean over all samples of its two bounding azimuth lines |
| `BurstCentre.CentreWithinSpan` | tests/test_sentinel1.py:132-134 | a burst centre lies within the latitude and longitude span of the GCPs on its two bounding lines |
| `BurstCentre.MeanBounds` | tests/test_sentinel1.py:132-134 | a range average lies between the smallest and largest sample |
| `BurstCentre.ComputeBurstCentreExample` | tests/test_sentinel1.py:119-134 | latitude rows 0..4 and longitude rows 0..40 with burst_count 4 give centres (0.5, 5), (1.5, 15), (2.5, 25), (3.5, 35) |
| `BurstCentre.ComputeBurstCentreRefusesShortGrid` | tests/test_sentinel1.py:120-131 | a grid with 4 azimuth lines and burst_count 4 is refused with the azimuth-count error; the cited lines build the accepted 5-line grid, and the refusal is the modelled malformed-metadata error, not something those lines show |
| `BurstId.CellOf` | tests/test_sentinel1.py:37-38 | the cell of a centre: hemispheres from the signs, magnitudes as round(abs(coordinate) * 10) |
| `BurstId.BuildBurstId` | tests/test_sentinel1.py:30-38 | the identifier starts with 'R', has at least 15 characters and parses back to the orbit and the rounded cell of the centre; its three fields are the zero-padded orbit (3 digits at least), latitude tenths (3) and longitude tenths (4), separated by the two dashes |
| `BurstId.RenderLayout` | tests/test_sentinel1.py:37-38 | a rendered cell puts 'R', the padded orbit, '-', the hemisphere letter and padded latitude, '-', the hemisphere letter and padded longitude at the positions the field lengths determine |
| `BurstId.ParseRender` | tests/test_sentinel1.py:37-38 | rendering a cell loses nothing: the text parses back to the same cell |
| `BurstId.SameIdSameCell` | tests/test_sentinel1.py:37-38 | two bursts get the same identifier exactly when orbit, hemispheres and rounded magnitudes all agree |
| `BurstId.BurstIdFixedWidth` | tests/test_sentinel1.py:38 | for an orbit below 1000 and valid latitude/longitude the identifier is exactly 15 characters, with dashes at positions 4 and 9 and the padded fields at 1..4, 6..9 and 11..15 |
| `BurstId.BuildBurstIdExample` | tests/test_sentinel1.py:30-38 | orbit 168 and centre (11.8475875, 47.16626783) give "R168-N118-E0472" |
| `BurstId.BuildBurstIdRoundsToNearest` | tests/test_sentinel1.py:56-59 | orbit 168 and centre (47.0869..., 11.8069...) give "R168-N471-E0118" |
| `BurstId.BuildBurstIdSouthWest` | tests/test_sentinel1.py:30-38 | negative coordinates take the 'S' and 'W' prefixes with the same padded magnitudes; the cited test uses a northern, eastern centre only, so this follows the identifier format rather than those lines |
| `BurstInfo.Records` | tests/test_sentinel1.py:56-65 | record k pairs burst geometry k with burst centre k |
| `BurstInfo.IndexBy` | tests/test_sentinel1.py:68-73 | the keys are exactly the records' identifiers, and each entry is one of the records filed under its own identifier |
| `BurstInfo.IndexByKeepsLast` | tests/test_sentinel1.py:68-73 | when identifiers collide, the record kept is the last one with that identifier |
| `BurstInfo.BurstInfoOf` | tests/test_sentinel1.py:56-68 | succeeds exactly for a well-shaped grid with one geometry record per burst (otherwise the metadata error); then it is the identifier index of the burst records |
| `BurstInfo.GetBurstInfo` | tests/test_sentinel1.py:68-70 | None exactly when the sub-swath lists no annotation file; otherwise the burst index (or error) of one of its annotation files |
| `BurstInfo.KeyedByOwnId` | tests/test_sentinel1.py:70-77 | every record is filed under the identifier built from its own centre |
| `BurstInfo.RecordExtents` | tests/test_sentinel1.py:78-82 | every record describes some burst k: its position, lines [p*L, p*L + L], pixels [0, S - 1] and centre k |
| `BurstInfo.EveryBurstIndexed` | tests/test_sentinel1.py:70-73 | every burst's identifier is a key, and it holds that burst's record when no later burst shares the identifier |
| `BurstInfo.ConsecutiveLineExtents` | tests/test_sentinel1.py:79-82 | the last line of burst position p is the first line of position p + 1; line extents span L + 1 lines and pixel extents S pixels |
| `BurstInfo.AnyPolarizationGivesSameInfo` | tests/test_sentinel1.py:46-53 | which polarization's annotation file is read does not matter when all carry the same geometry; the cited lines list a single polarization, so this follows from the modelled choice to read any one annotation file rather than from those lines |
| `BurstInfo.NoAnnotationNoInfo` | tests/test_sentinel1.py:68-70 | a sub-swath with an empty annotation catalogue gives None, not an error |
| `BurstInfo.ExampleBurstRecord` | tests/test_sentinel1.py:56-82 | in the burst index of an annotation file, burst 0 with 1500 lines, 21632 samples and centre (47.0869..., 11.8069...) on orbit 168 is filed under "R168-N471-E0118" with lines 0..1500 and pixels 0..21631 |
| `BurstInfo.GetBurstInfoExample` | tests/test_sentinel1.py:46-82 | a sub-swath whose only annotation file is the "vh" one gives a burst index, not None, and that index holds the example record under "R168-N471-E0118" |
| `Groups.Upper` | tests/test_sentinel1.py:91-100 | upper-casing keeps the length and maps each lower-case ASCII letter to upper case |
| `Groups.SwathGroups` | tests/test_sentinel1.py:99-113 | the swath's own upper-cased name, its attitude, gcp and orbit groups and one group per burst identifier are all listed |
| `Groups.FindAvailableGroups` | tests/test_sentinel1.py:115-116 | an error exactly when some sub-swath's metadata is unusable; otherwise a name is listed exactly when some sub-swath contributes it |
| `Groups.MissingSwathContributesNothing` | tests/test_sentinel1.py:115-116 | removing a sub-swath without existing annotation files does not change whether the catalogue fails or what it lists |
| `Groups.SwathGroupSize` | tests/test_sentinel1.py:99-113 | a sub-swath contributes exactly 4 + (number of burst identifiers) distinct names |
| `Groups.SwathGroupCount` | tests/test_sentinel1.py:99-113 | the same count for a burst index built from an annotation file, whose keys all start with 'R' |
| `Groups.BurstKeysStartWithR` | tests/test_sentinel1.py:104-112 | every key of a burst index is a burst identifier of at least 15 characters starting with 'R' |
| `Groups.OneSwathCatalogue` | tests/test_sentinel1.py:115-116 | a product of one sub-swath lists exactly what that sub-swath contributes |
| `Groups.OneAnnotationOutcome` | tests/test_sentinel1.py:90-97 | a sub-swath with one existing annotation file contributes the group names of that file's burst index |
| `Groups.SingleSwathCatalogue` | tests/test_sentinel1.py:85-116 | a product whose only sub-swath has one existing annotation file lists that sub-swath's names |
| `Groups.ExampleNames` | tests/test_sentinel1.py:99-113 | the nine example identifiers under "iw1" give exactly the thirteen example names (`ExampleGroups`) |
| `Groups.FindAvailableGroupsExample` | tests/test_sentinel1.py:85-116 | the example product's catalogue is exactly the thirteen expected names (`ExampleGroups`), compared as a set |

## Left out

- Checking that a file exists on disk, including permission errors counted as missing, is the parameter `pathExists`. Temporary file creation is not modelled.
- Reading and parsing the annotation XML is the parameter `read`. The product files the examples read are not part of this model.
- GetBurstInfoExample: the centre of burst 0 comes from a data file, so the lemma takes it as a premise. It does not recompute it from the real GCP grid.
- ExampleBurstRecord: takes the same premise, the centre of burst 0, for the same reason.
- FindAvailableGroupsExample: the nine burst identifiers come from a data file, so the lemma takes them as a premise. It does not derive them from the real GCP grid.
- MissingSwathContributesNothing: when the catalogue fails, the lemma does not claim the same error is reported with and without the sub-swath. The model only says that some failing sub-swath's error is reported.
- `xarray_sentinel.sentinel1` itself is not modelled. Its behaviour follows the assertions in tests/test_sentinel1.py. The metadata errors are the modelling choice described under 'Metadata errors'.
- Product attributes are reduced to the relative orbit, passed as a natural number. A missing `relative_orbit` key is not modelled.
- A missing `annotation_path` category is treated like an empty one (no burst index).
- xarray/numpy datasets, lazy group opening and SAFE directory naming are not modelled. They are wrappers over libraries.
- Floating-point arithmetic and `np.isclose` tolerances are not modelled: coordinates are exact reals.
- Longitude wrap-around at +/-180 degrees is not handled. The average is the plain arithmetic mean of the two lines, with no handling of the seam.
- Upper-casing covers ASCII letters only. Sub-swath names are ASCII.
- Order is not modelled. Python dict insertion order is not kept, and the group list is returned as a set, which is how it is compared.
- Out-of-range coordinates are not rejected. They give wider identifier fields, as zero padding never truncates.
