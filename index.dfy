/**
 * Index assembly (`generate_index_file`) and the per-version manifest cache
 * paths (`save_manifest`). The head manifests and the version lists arrive
 * already fetched, as sequences parallel to the repository list; fetching,
 * the task group and the JSON writer stay outside the model.
 */
module IndexBuilder {
  import opened Wrappers
  import opened SemVer
  import opened Strings
  import opened VersionResolver

  /** The descriptive part of a manifest, as the crawler's own model declares it (tags unconstrained). */
  datatype ManifestInfo = ManifestInfo(name: string, description: string, tags: seq<string>, avatarUrl: string)

  /** A `tooth.json` as the crawler validates it: format fields, package id, version and info. */
  datatype PackageManifest = PackageManifest(
    formatVersion: int, formatUuid: string, tooth: string, version: string, info: ManifestInfo)

  /** One value of the index: the head manifest's info and the version strings. */
  datatype IndexEntry = IndexEntry(info: ManifestInfo, versions: seq<string>)

  /** One position of `zip(repositories, versions, manifests)`. */
  datatype Row = Row(repository: string, versions: seq<Version>, manifest: Option<PackageManifest>)

  const Host: string := "github.com/"

  /** The index key of a repository: `github.com/<owner>/<name>`. */
  function PackageKey(repository: string): string {
    Host + repository
  }

  lemma PackageKeyInjective(a: string, b: string)
    requires PackageKey(a) == PackageKey(b)
    ensures a == b
  {
    assert a == PackageKey(a)[|Host|..];
  }

  /** `[str(ver) for ver in vers]`. */
  function VersionTexts(versions: seq<Version>): (r: seq<string>)
    ensures |r| == |versions|
  {
    seq(|versions|, k requires 0 <= k < |versions| => Format(versions[k]))
  }

  /** The version strings keep the order of the list, and each parses back to its version. */
  lemma VersionTextsParse(versions: seq<Version>, k: nat)
    requires k < |versions| && ValidVersion(versions[k])
    ensures Parse(VersionTexts(versions)[k]) == Some(versions[k])
  {
    FormatThenParse(versions[k]);
  }

  function Min(a: nat, b: nat): nat {
    if a < b then a else b
  }

  /** Python's `zip`: as many rows as the shortest input has elements. */
  function Zip(repositories: seq<string>, versions: seq<seq<Version>>,
               manifests: seq<Option<PackageManifest>>): (rows: seq<Row>)
    ensures |rows| == Min(|repositories|, Min(|versions|, |manifests|))
    ensures forall k :: 0 <= k < |rows| ==>
      rows[k] == Row(repositories[k], versions[k], manifests[k])
  {
    var n := Min(|repositories|, Min(|versions|, |manifests|));
    seq(n, k requires 0 <= k < n => Row(repositories[k], versions[k], manifests[k]))
  }

  /** The repositories whose head manifest was fetched, as index keys. */
  function IndexedKeys(rows: seq<Row>): set<string> {
    set k | 0 <= k < |rows| && rows[k].manifest.Some? :: PackageKey(rows[k].repository)
  }

  /**
   * The dict comprehension over the rows: rows without a head manifest are
   * skipped, and a later row for the same repository replaces an earlier one.
   */
  function Index(rows: seq<Row>): (index: map<string, IndexEntry>)
    ensures index.Keys == IndexedKeys(rows)
  {
    if rows == [] then map[]
    else
      var last := rows[|rows| - 1];
      var earlier := Index(rows[..|rows| - 1]);
      assert forall k :: 0 <= k < |rows| - 1 ==> rows[..|rows| - 1][k] == rows[k];
      match last.manifest
      case None => earlier
      case Some(m) => earlier[PackageKey(last.repository) := IndexEntry(m.info, VersionTexts(last.versions))]
  }

  /** The index `generate_index_file` writes, before JSON serialisation. */
  function GenerateIndex(repositories: seq<string>, versions: seq<seq<Version>>,
                         manifests: seq<Option<PackageManifest>>): map<string, IndexEntry> {
    Index(Zip(repositories, versions, manifests))
  }

  /**
   * The entry of a repository comes from the last row that names it with a
   * head manifest: that manifest's info and the row's versions, stringified
   * in order (an empty version list gives an empty entry list).
   */
  lemma {:induction false} IndexEntryOfLastRow(rows: seq<Row>, k: nat)
    requires k < |rows| && rows[k].manifest.Some?
    requires forall j :: k < j < |rows| && rows[j].manifest.Some? ==> rows[j].repository != rows[k].repository
    ensures PackageKey(rows[k].repository) in Index(rows)
    ensures Index(rows)[PackageKey(rows[k].repository)]
         == IndexEntry(rows[k].manifest.value.info, VersionTexts(rows[k].versions))
  {
    var n := |rows| - 1;
    if k < n {
      var prefix := rows[..n];
      IndexEntryOfLastRow(prefix, k);
      if rows[n].manifest.Some? {
        if PackageKey(rows[n].repository) == PackageKey(rows[k].repository) {
          PackageKeyInjective(rows[n].repository, rows[k].repository);
        }
      }
    }
  }

  /**
   * With distinct repository names, every repository whose head manifest
   * was fetched has exactly its own entry, and no other key is present.
   */
  lemma GenerateIndexDistinct(repositories: seq<string>, versions: seq<seq<Version>>,
                              manifests: seq<Option<PackageManifest>>, k: nat)
    requires forall i, j :: 0 <= i < j < |repositories| ==> repositories[i] != repositories[j]
    requires k < |repositories| && k < |versions| && k < |manifests| && manifests[k].Some?
    ensures GenerateIndex(repositories, versions, manifests)[PackageKey(repositories[k])]
         == IndexEntry(manifests[k].value.info, VersionTexts(versions[k]))
  {
    IndexEntryOfLastRow(Zip(repositories, versions, manifests), k);
  }

  /** A key is in the index exactly when some zipped position has that repository and a head manifest. */
  lemma GenerateIndexKeys(repositories: seq<string>, versions: seq<seq<Version>>,
                          manifests: seq<Option<PackageManifest>>, key: string)
    ensures key in GenerateIndex(repositories, versions, manifests) <==>
      exists k :: 0 <= k < |repositories| && k < |versions| && k < |manifests|
               && manifests[k].Some? && key == Host + repositories[k]
  {
    var rows := Zip(repositories, versions, manifests);
    if key in GenerateIndex(repositories, versions, manifests) {
      var k :| 0 <= k < |rows| && rows[k].manifest.Some? && PackageKey(rows[k].repository) == key;
      assert k < |repositories| && k < |versions| && k < |manifests|;
    }
    if exists k :: 0 <= k < |repositories| && k < |versions| && k < |manifests|
                && manifests[k].Some? && key == Host + repositories[k] {
      var k :| 0 <= k < |repositories| && k < |versions| && k < |manifests|
            && manifests[k].Some? && key == Host + repositories[k];
      assert rows[k].manifest.Some? && PackageKey(rows[k].repository) == key;
    }
  }

  // ---------------------------------------------------------------------
  // save_manifest

  /** `BASE_DIR` once `pathlib` has dropped its leading `./`. */
  const BaseDir: string := "workspace/lipr/github.com"

  /** The tag `save_manifest` fetches for a version: `f"v{version}"`. */
  function TagRef(v: Version): string {
    "v" + Format(v)
  }

  /** `BASE_DIR / repository / str(version) / "tooth.json"`, for a relative `owner/name`. */
  function ManifestPath(repository: string, v: Version): string {
    BaseDir + "/" + repository + "/" + Format(v) + "/tooth.json"
  }

  /** A file `save_manifest` writes. */
  datatype ManifestWrite = ManifestWrite(path: string, manifest: PackageManifest)

  /**
   * `save_manifest`: fetch the manifest at the version's tag; write nothing
   * when that yields no manifest, otherwise write it under the version's path.
   */
  function SaveManifest(repository: string, v: Version,
                        fetch: (string, string) -> Option<PackageManifest>): (w: Option<ManifestWrite>)
    ensures w.Some? <==> fetch(repository, TagRef(v)).Some?
    ensures w.Some? ==> w.value.path == ManifestPath(repository, v)
    ensures w.Some? ==> w.value.manifest == fetch(repository, TagRef(v)).value
  {
    match fetch(repository, TagRef(v))
    case None => None
    case Some(m) => Some(ManifestWrite(ManifestPath(repository, v), m))
  }

  /**
   * The tag fetched for a resolved version is the tag it was read from: the
   * listing has a line whose ref is `refs/tags/` followed by `TagRef(v)`.
   */
  lemma TagRefRoundTrip(listing: string, v: Version)
    requires v in ResolveVersions(listing)
    ensures exists k :: 0 <= k < |Lines(listing)| && HasRef(Lines(listing)[k])
                        && RefOf(Lines(listing)[k]) == "refs/tags/" + TagRef(v)
  {
    ResolvedFromTag(listing, v);
    var lines := Lines(listing);
    var k :| 0 <= k < |lines| && HasRef(lines[k]) && RefOf(lines[k]) == TagPrefix + Format(v);
    TagRefPrefix(v);
    assert HasRef(lines[k]) && RefOf(lines[k]) == "refs/tags/" + TagRef(v);
  }

  lemma TagRefPrefix(v: Version)
    ensures "refs/tags/" + TagRef(v) == TagPrefix + Format(v)
  {
    assert "refs/tags/" + "v" == TagPrefix;
  }

  /** Two well-formed versions of one repository share a cache path only if they are the same version. */
  lemma ManifestPathInjective(repository: string, v: Version, w: Version)
    requires ValidVersion(v) && ValidVersion(w)
    requires ManifestPath(repository, v) == ManifestPath(repository, w)
    ensures v == w
  {
    var prefix := BaseDir + "/" + repository + "/";
    var suffix := "/tooth.json";
    var p := ManifestPath(repository, v);
    assert p == prefix + Format(v) + suffix;
    assert Format(v) == p[|prefix|..|p| - |suffix|];
    assert Format(w) == p[|prefix|..|p| - |suffix|];
    FormatThenParse(v);
    FormatThenParse(w);
  }
}
