/**
 * `filter_missing_path`: prunes a two-level catalogue of ancillary file paths,
 * `{group -> {key -> path}}`, down to the paths that exist. Whether a path
 * exists on disk is the parameter `pathExists` (the file-system check, with
 * "cannot be stat-ed" counted as missing).
 */
module PathFilter {

  /** A category (or sub-swath) name mapped to its keyed paths. */
  type Catalogue<G, K, P> = map<G, map<K, P>>

  /** The keys of `inner` whose path exists. */
  ghost function Surviving<K, P>(inner: map<K, P>, pathExists: P -> bool): set<K> {
    set k | k in inner && pathExists(inner[k])
  }

  function FilterMissingPath<G, K, P>(paths: Catalogue<G, K, P>, pathExists: P -> bool): (r: Catalogue<G, K, P>)
    // every group survives, even when none of its paths does
    ensures r.Keys == paths.Keys
    // an entry is kept exactly when its path exists ...
    ensures forall g :: g in r ==> r[g].Keys == Surviving(paths[g], pathExists)
    // ... and a kept path is the one that was asked for
    ensures forall g, k :: g in r && k in r[g] ==> k in paths[g] && r[g][k] == paths[g][k]
  {
    map g | g in paths :: map k | k in paths[g] && pathExists(paths[g][k]) :: paths[g][k]
  }

  /** Every path in the result exists and comes from the input at the same place. */
  lemma FilterIsSubCatalogue<G, K, P>(paths: Catalogue<G, K, P>, pathExists: P -> bool)
    ensures var r := FilterMissingPath(paths, pathExists);
      forall g, k :: g in r && k in r[g] ==>
        pathExists(r[g][k]) && k in paths[g] && r[g][k] == paths[g][k]
  {
  }

  /** Filtering twice under the same file system is filtering once. */
  lemma FilterIdempotent<G, K, P>(paths: Catalogue<G, K, P>, pathExists: P -> bool)
    ensures FilterMissingPath(FilterMissingPath(paths, pathExists), pathExists)
         == FilterMissingPath(paths, pathExists)
  {
    var r := FilterMissingPath(paths, pathExists);
    var rr := FilterMissingPath(r, pathExists);
    forall g | g in r ensures rr[g] == r[g] {
      assert rr[g].Keys == r[g].Keys;
    }
  }

  /** When every path exists nothing is removed. */
  lemma FilterAllPresent<G, K, P>(paths: Catalogue<G, K, P>, pathExists: P -> bool)
    requires forall g, k :: g in paths && k in paths[g] ==> pathExists(paths[g][k])
    ensures FilterMissingPath(paths, pathExists) == paths
  {
    var r := FilterMissingPath(paths, pathExists);
    forall g | g in r ensures r[g] == paths[g] {
      assert r[g].Keys == paths[g].Keys;
    }
  }

  /** Two file systems that agree on the catalogue's paths give the same result. */
  lemma FilterDependsOnlyOnListedPaths<G, K, P>(paths: Catalogue<G, K, P>, e1: P -> bool, e2: P -> bool)
    requires forall g, k :: g in paths && k in paths[g] ==> e1(paths[g][k]) == e2(paths[g][k])
    ensures FilterMissingPath(paths, e1) == FilterMissingPath(paths, e2)
  {
    var r1 := FilterMissingPath(paths, e1);
    var r2 := FilterMissingPath(paths, e2);
    forall g | g in paths ensures r1[g] == r2[g] {
      assert r1[g].Keys == r2[g].Keys;
    }
  }

  /**
   * The example: one path exists, the other does not; the group whose paths
   * are all missing stays, with nothing under it.
   */
  lemma FilterExample(existing: string, missing: string)
    requires existing != missing
    ensures var paths := map[
        "paths1" := map["path1" := existing, "path2" := missing],
        "paths2" := map["path1" := missing, "path2" := missing]];
      FilterMissingPath(paths, p => p == existing)
        == map["paths1" := map["path1" := existing], "paths2" := map[]]
  {
    var paths := map[
        "paths1" := map["path1" := existing, "path2" := missing],
        "paths2" := map["path1" := missing, "path2" := missing]];
    var r := FilterMissingPath(paths, p => p == existing);
    var expected := map["paths1" := map["path1" := existing], "paths2" := map[]];
    assert r.Keys == expected.Keys;
    assert "path2" !in r["paths1"];
    assert r["paths1"].Keys == {"path1"};
    assert r["paths1"] == expected["paths1"];
    assert r["paths2"].Keys == {};
    assert r["paths2"] == expected["paths2"];
  }
}
