/**
 * `find_avalable_groups`: the names of the logical groups a product exposes.
 * A sub-swath with at least one existing annotation file contributes its own
 * upper-cased name, "<SWATH>/attitude", "<SWATH>/gcp", "<SWATH>/orbit" and one
 * "<SWATH>/<burst id>" per burst; a sub-swath without one contributes nothing.
 * The result is a set: order and repetition carry no meaning.
 */
module Groups {
  import opened Wrappers
  import opened PathFilter
  import opened Annotation
  import opened BurstInfo

  /** ASCII upper-casing of one character. */
  function UpperChar(c: char): (u: char)
    ensures 'a' <= c <= 'z' ==> u as int == c as int - 32
    ensures !('a' <= c <= 'z') ==> u == c
  {
    if 'a' <= c <= 'z' then (c as int - 32) as char else c
  }

  function Upper(s: string): (u: string)
    ensures |u| == |s|
    ensures forall i :: 0 <= i < |s| ==> u[i] == UpperChar(s[i])
  {
    seq(|s|, i requires 0 <= i < |s| => UpperChar(s[i]))
  }

  /** The names a sub-swath with burst index `info` contributes. */
  function SwathGroups(swath: string, info: map<string, BurstRecord>): (names: set<string>)
    ensures Upper(swath) in names
    ensures Upper(swath) + "/attitude" in names && Upper(swath) + "/gcp" in names && Upper(swath) + "/orbit" in names
    ensures forall id :: id in info ==> Upper(swath) + "/" + id in names
  {
    var u := Upper(swath);
    {u, u + "/attitude", u + "/gcp", u + "/orbit"} + set id | id in info :: u + "/" + id
  }

  /**
   * What one sub-swath contributes: its paths are filtered first, then its
   * burst index is built from an existing annotation file.
   */
  ghost function SwathOutcome(orbit: nat, swath: string, data: SwathPaths,
                              pathExists: string -> bool, read: string -> SwathAnnotation)
    : (r: Result<set<string>, MetadataError>)
    ensures !HasAnnotation(FilterMissingPath(data, pathExists)) ==> r == Ok({})
  {
    match GetBurstInfo(orbit, FilterMissingPath(data, pathExists), read)
    case Err(e) => Err(e)
    case Ok(None) => Ok({})
    case Ok(Some(info)) => Ok(SwathGroups(swath, info))
  }

  /** The names a sub-swath contributes; none when its metadata is unusable. */
  ghost function Contribution(orbit: nat, swath: string, data: SwathPaths,
                              pathExists: string -> bool, read: string -> SwathAnnotation): set<string>
  {
    var r := SwathOutcome(orbit, swath, data, pathExists, read);
    if r.Ok? then r.value else {}
  }

  ghost predicate AnyFails(paths: map<string, SwathPaths>, orbit: nat,
                           pathExists: string -> bool, read: string -> SwathAnnotation)
  {
    exists s :: s in paths && SwathOutcome(orbit, s, paths[s], pathExists, read).Err?
  }

  ghost function FindAvailableGroups(paths: map<string, SwathPaths>, orbit: nat,
                                     pathExists: string -> bool, read: string -> SwathAnnotation)
    : (r: Result<set<string>, MetadataError>)
    // unusable metadata in any sub-swath is reported, with that sub-swath's error
    ensures r.Err? <==> AnyFails(paths, orbit, pathExists, read)
    ensures r.Err? ==> exists s :: s in paths && SwathOutcome(orbit, s, paths[s], pathExists, read) == Err(r.error)
    // otherwise a name is listed exactly when some sub-swath contributes it
    ensures r.Ok? ==> forall s, g :: s in paths && g in Contribution(orbit, s, paths[s], pathExists, read) ==> g in r.value
    ensures r.Ok? ==> forall g :: g in r.value ==>
      exists s :: s in paths && g in Contribution(orbit, s, paths[s], pathExists, read)
  {
    if AnyFails(paths, orbit, pathExists, read) then
      var s :| s in paths && SwathOutcome(orbit, s, paths[s], pathExists, read).Err?;
      Err(SwathOutcome(orbit, s, paths[s], pathExists, read).error)
    else
      Ok(set s, g | s in paths && g in Contribution(orbit, s, paths[s], pathExists, read) :: g)
  }

  /**
   * A sub-swath with no existing annotation file changes nothing: the
   * catalogue fails, or lists the same names, as it would without it.
   */
  lemma MissingSwathContributesNothing(paths: map<string, SwathPaths>, orbit: nat, swath: string,
                                       pathExists: string -> bool, read: string -> SwathAnnotation)
    requires swath in paths && !HasAnnotation(FilterMissingPath(paths[swath], pathExists))
    ensures FindAvailableGroups(paths, orbit, pathExists, read).Err?
        == FindAvailableGroups(paths - {swath}, orbit, pathExists, read).Err?
    ensures FindAvailableGroups(paths, orbit, pathExists, read).Ok? ==>
      FindAvailableGroups(paths, orbit, pathExists, read) == FindAvailableGroups(paths - {swath}, orbit, pathExists, read)
  {
    var rest := paths - {swath};
    MissingSwathSameFailure(paths, orbit, swath, pathExists, read);
    var r1 := FindAvailableGroups(paths, orbit, pathExists, read);
    var r2 := FindAvailableGroups(rest, orbit, pathExists, read);
    if r1.Ok? {
      MissingSwathSameNames(paths, orbit, swath, pathExists, read);
      assert r1.value == r2.value;
    }
  }

  lemma MissingSwathSameFailure(paths: map<string, SwathPaths>, orbit: nat, swath: string,
                                pathExists: string -> bool, read: string -> SwathAnnotation)
    requires swath in paths && !HasAnnotation(FilterMissingPath(paths[swath], pathExists))
    ensures AnyFails(paths, orbit, pathExists, read) == AnyFails(paths - {swath}, orbit, pathExists, read)
  {
    var rest := paths - {swath};
    assert SwathOutcome(orbit, swath, paths[swath], pathExists, read) == Ok({});
    if AnyFails(paths, orbit, pathExists, read) {
      var s :| s in paths && SwathOutcome(orbit, s, paths[s], pathExists, read).Err?;
      assert s in rest;
    }
    if AnyFails(rest, orbit, pathExists, read) {
      var s :| s in rest && SwathOutcome(orbit, s, rest[s], pathExists, read).Err?;
      assert s in paths;
    }
  }

  lemma MissingSwathSameNames(paths: map<string, SwathPaths>, orbit: nat, swath: string,
                              pathExists: string -> bool, read: string -> SwathAnnotation)
    requires swath in paths && !HasAnnotation(FilterMissingPath(paths[swath], pathExists))
    requires FindAvailableGroups(paths, orbit, pathExists, read).Ok?
    requires FindAvailableGroups(paths - {swath}, orbit, pathExists, read).Ok?
    ensures FindAvailableGroups(paths, orbit, pathExists, read).value
         == FindAvailableGroups(paths - {swath}, orbit, pathExists, read).value
  {
    var rest := paths - {swath};
    var r1 := FindAvailableGroups(paths, orbit, pathExists, read);
    var r2 := FindAvailableGroups(rest, orbit, pathExists, read);
    assert Contribution(orbit, swath, paths[swath], pathExists, read) == {};
    forall g | g in r1.value ensures g in r2.value {
      var s :| s in paths && g in Contribution(orbit, s, paths[s], pathExists, read);
      assert s in rest;
    }
    forall g | g in r2.value ensures g in r1.value {
      var s :| s in rest && g in Contribution(orbit, s, rest[s], pathExists, read);
      assert s in paths;
    }
  }

  /** Distinct burst identifiers give distinct group names. */
  lemma NameInjective(u: string, a: string, b: string)
    requires u + "/" + a == u + "/" + b
    ensures a == b
  {
    assert a == (u + "/" + a)[|u| + 1..];
    assert b == (u + "/" + b)[|u| + 1..];
  }

  lemma {:induction false} BurstNamesSize(u: string, ids: set<string>)
    ensures |set id | id in ids :: u + "/" + id| == |ids|
    decreases |ids|
  {
    if ids != {} {
      var x :| x in ids;
      var rest := ids - {x};
      BurstNamesSize(u, rest);
      var names := set id | id in ids :: u + "/" + id;
      var restNames := set id | id in rest :: u + "/" + id;
      assert names == restNames + {u + "/" + x};
      if u + "/" + x in restNames {
        var y :| y in rest && u + "/" + y == u + "/" + x;
        NameInjective(u, y, x);
      }
    }
  }

  /** Every key of a burst index is a burst identifier, so it starts with 'R'. */
  lemma BurstKeysStartWithR(orbit: nat, ann: SwathAnnotation)
    requires BurstInfoOf(orbit, ann).Ok?
    ensures forall id :: id in BurstInfoOf(orbit, ann).value ==> |id| >= 15 && id[0] == 'R'
  {
    var info := BurstInfoOf(orbit, ann).value;
    forall id | id in info ensures |id| >= 15 && id[0] == 'R' {
      assert id == IdOf(orbit, info[id]);
    }
  }

  /**
   * A sub-swath contributes exactly four names of its own plus one per
   * indexed burst when no burst key can be mistaken for "attitude", "gcp" or
   * "orbit" (burst identifiers start with 'R'): none of the names coincide.
   */
  lemma SwathGroupSize(swath: string, info: map<string, BurstRecord>)
    requires forall id :: id in info ==> |id| >= 1 && id[0] == 'R'
    ensures |SwathGroups(swath, info)| == 4 + |info|
  {
    var u := Upper(swath);
    var fixed := {u, u + "/attitude", u + "/gcp", u + "/orbit"};
    var names := set id | id in info :: u + "/" + id;
    assert |u + "/attitude"| == |u| + 9 && |u + "/gcp"| == |u| + 4 && |u + "/orbit"| == |u| + 6;
    assert |fixed| == 4;
    BurstNamesSize(u, info.Keys);
    assert |names| == |info|;
    forall id | id in info ensures u + "/" + id !in fixed {
      var n := u + "/" + id;
      assert n[|u| + 1] == id[0] == 'R';
      assert (u + "/attitude")[|u| + 1] == 'a';
      assert (u + "/gcp")[|u| + 1] == 'g';
      assert (u + "/orbit")[|u| + 1] == 'o';
    }
    assert fixed * names == {};
    assert SwathGroups(swath, info) == fixed + names;
  }

  /** For a burst index built from an annotation file: 4 + (number of indexed bursts) names. */
  lemma SwathGroupCount(swath: string, orbit: nat, ann: SwathAnnotation)
    requires BurstInfoOf(orbit, ann).Ok?
    ensures |SwathGroups(swath, BurstInfoOf(orbit, ann).value)| == 4 + |BurstInfoOf(orbit, ann).value|
  {
    BurstKeysStartWithR(orbit, ann);
    SwathGroupSize(swath, BurstInfoOf(orbit, ann).value);
  }

  /** A product of one sub-swath lists exactly what that sub-swath contributes. */
  lemma OneSwathCatalogue(swath: string, data: SwathPaths, orbit: nat,
                          pathExists: string -> bool, read: string -> SwathAnnotation)
    requires SwathOutcome(orbit, swath, data, pathExists, read).Ok?
    ensures FindAvailableGroups(map[swath := data], orbit, pathExists, read)
         == SwathOutcome(orbit, swath, data, pathExists, read)
  {
    var paths := map[swath := data];
    var names := SwathOutcome(orbit, swath, data, pathExists, read).value;
    assert !AnyFails(paths, orbit, pathExists, read);
    var r := FindAvailableGroups(paths, orbit, pathExists, read);
    assert Contribution(orbit, swath, data, pathExists, read) == names;
    forall g | g in r.value ensures g in names {
      var s :| s in paths && g in Contribution(orbit, s, paths[s], pathExists, read);
      assert s == swath;
    }
    forall g | g in names ensures g in r.value {
      assert g in Contribution(orbit, swath, paths[swath], pathExists, read);
    }
    assert r.value == names;
  }

  /** A sub-swath with one existing annotation file contributes the names of its burst index. */
  lemma OneAnnotationOutcome(swath: string, pol: string, annotationFile: string, orbit: nat,
                             pathExists: string -> bool, read: string -> SwathAnnotation)
    requires pathExists(annotationFile)
    requires BurstInfoOf(orbit, read(annotationFile)).Ok?
    ensures SwathOutcome(orbit, swath, map[AnnotationCategory := map[pol := annotationFile]], pathExists, read)
         == Ok(SwathGroups(swath, BurstInfoOf(orbit, read(annotationFile)).value))
  {
    var data := map[AnnotationCategory := map[pol := annotationFile]];
    var info := BurstInfoOf(orbit, read(annotationFile)).value;
    assert FilterMissingPath(data, pathExists) == data by {
      FilterAllPresent(data, pathExists);
    }
    assert GetBurstInfo(orbit, data, read) == Ok(Some(info)) by {
      assert HasAnnotation(data);
      assert forall p :: p in data[AnnotationCategory] ==> p == pol;
    }
  }

  /** A product whose only sub-swath has an existing annotation file lists that sub-swath's names. */
  lemma SingleSwathCatalogue(swath: string, pol: string, annotationFile: string, orbit: nat,
                             pathExists: string -> bool, read: string -> SwathAnnotation)
    requires pathExists(annotationFile)
    requires BurstInfoOf(orbit, read(annotationFile)).Ok?
    ensures FindAvailableGroups(map[swath := map[AnnotationCategory := map[pol := annotationFile]]],
                                orbit, pathExists, read)
         == Ok(SwathGroups(swath, BurstInfoOf(orbit, read(annotationFile)).value))
  {
    OneAnnotationOutcome(swath, pol, annotationFile, orbit, pathExists, read);
    OneSwathCatalogue(swath, map[AnnotationCategory := map[pol := annotationFile]], orbit, pathExists, read);
  }

  /** The nine burst identifiers of the example product, in file order. */
  const ExampleIds: seq<string> :=
    ["R168-N471-E0118", "R168-N469-E0118", "R168-N468-E0117",
     "R168-N466-E0117", "R168-N464-E0116", "R168-N463-E0116",
     "R168-N461-E0116", "R168-N459-E0115", "R168-N458-E0115"]

  const ExampleIdSet: set<string> := set i | 0 <= i < |ExampleIds| :: ExampleIds[i]

  /** The corresponding burst group names under sub-swath "iw1". */
  const ExampleBurstGroups: seq<string> :=
    ["IW1/R168-N471-E0118", "IW1/R168-N469-E0118", "IW1/R168-N468-E0117",
     "IW1/R168-N466-E0117", "IW1/R168-N464-E0116", "IW1/R168-N463-E0116",
     "IW1/R168-N461-E0116", "IW1/R168-N459-E0115", "IW1/R168-N458-E0115"]

  /** The thirteen group names the example product lists. */
  const ExampleGroups: set<string> :=
    {"IW1", "IW1/attitude", "IW1/gcp", "IW1/orbit"}
    + set i | 0 <= i < |ExampleBurstGroups| :: ExampleBurstGroups[i]

  lemma PrefixedExampleIds()
    ensures forall i | 0 <= i < |ExampleIds| :: Upper("iw1") + "/" + ExampleIds[i] == ExampleBurstGroups[i]
  {
    var u := Upper("iw1");
    assert u == "IW1";
    assert u + "/" + ExampleIds[0] == ExampleBurstGroups[0];
    assert u + "/" + ExampleIds[1] == ExampleBurstGroups[1];
    assert u + "/" + ExampleIds[2] == ExampleBurstGroups[2];
    assert u + "/" + ExampleIds[3] == ExampleBurstGroups[3];
    assert u + "/" + ExampleIds[4] == ExampleBurstGroups[4];
    assert u + "/" + ExampleIds[5] == ExampleBurstGroups[5];
    assert u + "/" + ExampleIds[6] == ExampleBurstGroups[6];
    assert u + "/" + ExampleIds[7] == ExampleBurstGroups[7];
    assert u + "/" + ExampleIds[8] == ExampleBurstGroups[8];
  }

  /** Prefixing listed identifiers gives the correspondingly listed names. */
  lemma PrefixImage(u: string, keys: set<string>, ids: seq<string>, names: seq<string>)
    requires |ids| == |names|
    requires keys == set i | 0 <= i < |ids| :: ids[i]
    requires forall i | 0 <= i < |ids| :: u + "/" + ids[i] == names[i]
    ensures (set id | id in keys :: u + "/" + id) == set i | 0 <= i < |names| :: names[i]
  {
    var lhs := set id | id in keys :: u + "/" + id;
    var rhs := set i | 0 <= i < |names| :: names[i];
    forall x | x in lhs ensures x in rhs {
      var id :| id in keys && x == u + "/" + id;
      var i :| 0 <= i < |ids| && id == ids[i];
      assert x == names[i];
    }
    forall x | x in rhs ensures x in lhs {
      var i :| 0 <= i < |names| && x == names[i];
      assert ids[i] in keys;
    }
  }

  /** The example's thirteen names from the nine burst identifiers. */
  lemma ExampleNames(info: map<string, BurstRecord>)
    requires info.Keys == ExampleIdSet
    ensures SwathGroups("iw1", info) == ExampleGroups
  {
    var u := Upper("iw1");
    assert u == "IW1";
    assert u + "/attitude" == "IW1/attitude" && u + "/gcp" == "IW1/gcp" && u + "/orbit" == "IW1/orbit";
    PrefixedExampleIds();
    PrefixImage(u, info.Keys, ExampleIds, ExampleBurstGroups);
  }

  /**
   * The example product: one sub-swath "iw1" whose single (existing)
   * annotation file indexes the nine example bursts; the catalogue is the
   * thirteen example names.
   */
  lemma FindAvailableGroupsExample(annotationFile: string, pathExists: string -> bool,
                                   read: string -> SwathAnnotation)
    requires pathExists(annotationFile)
    requires BurstInfoOf(168, read(annotationFile)).Ok?
    requires BurstInfoOf(168, read(annotationFile)).value.Keys == ExampleIdSet
    ensures FindAvailableGroups(map["iw1" := map[AnnotationCategory := map["vv" := annotationFile]]],
                                168, pathExists, read)
         == Ok(ExampleGroups)
  {
    SingleSwathCatalogue("iw1", "vv", annotationFile, 168, pathExists, read);
    ExampleNames(BurstInfoOf(168, read(annotationFile)).value);
  }
}
