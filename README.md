# lipr crawler core in Dafny

This project models the deterministic core of the lipr crawler. The crawler
discovers GitHub repositories that carry a `tooth.json` manifest. For each
one it resolves the released versions from the repository's tags, caches the
manifest of every version, and writes an index of all packages.

Three pieces are modelled, and properties are proved about each:

- **Version resolution** (`fetch_versions`). The input is the text that
  `git ls-remote -t --refs` prints.
  - Every line is split on whitespace and its second field is the ref.
  - Refs beginning with `refs/tags/v` have that prefix removed. The rest is
    parsed as a Semantic Versioning 2.0.0 version (sections 2, 9 and 10 of
    that standard); text that does not parse is dropped.
  - The versions are sorted stably by precedence (section 11).
  - A line without a second field raises an exception, and the handler turns
    that into an empty result.
  - The loop is the imperative method `VersionResolver.FetchVersions`. It is
    proved equal to the function `VersionResolver.ResolveVersions`, whose
    properties are proved as lemmas.
- **Index assembly** (`generate_index_file`) and the per-version manifest
  cache (`save_manifest`).
  - The head manifests and version lists arrive as sequences parallel to the
    repository list.
  - The index is the map the dict comprehension builds over their `zip`.
  - `save_manifest` is a function of the version plus a fetch function passed
    in as a parameter. It yields the file it would write, if any.
- **Schema entities** (`entities.py`).
  - The `Tag` pattern `^[a-z0-9-]+(:[a-z0-9-]+)?$` is stated declaratively
    (`Entities.IsTag`) and decided by a small automaton (`Entities.MatchesTag`).
  - The records appear as datatypes, with pydantic's validation as functions
    from records of optional fields. Each such function fills in the defaults
    and rejects what the schema rejects.

Modules:

- `Wrappers`: an `Option` type.
- `Strings`: models of Python's `str.splitlines`, `str.split()`,
  `startswith` and `removeprefix`.
- `SemVer`: the grammar, `Format` (`str(version)`), `Parse`, and both round trips.
- `Precedence`: comparison and a stable insertion sort.
- `VersionResolver`: `fetch_versions`.
- `IndexBuilder`: `generate_index_file` and `save_manifest`.
- `Entities`: `entities.py`.

Notes on the code of `main.py`, which the model follows:

- The crawler does no manifest migration.
- A repository whose version list is empty still gets an index entry, with
  an empty list, as long as its head manifest was fetched.
- The index uses `main.py`'s own manifest classes (lines 25-37), whose `tags`
  are unconstrained. It does not use the `entities.py` classes.

## Model

| member | source | states |
|---|---|---|
| Strings.Lines | main.py:77 | the lines of the listing contain no line break, and together they hold exactly the listing's non-break characters in order |
| Strings.LinesOfLine | main.py:77 | a nonempty text without line breaks is a single line |
| Strings.LinesAtBreak | main.py:77 | a line break ends the line before it, and the rest is split on its own (so two breaks in a row give an empty line) |
| Strings.LinesAtCrLf | main.py:77 | `\r\n` ends one line, not two |
| Strings.LinesOfJoin | main.py:77 | splitting lines joined by `\n` gives back exactly those lines |
| Strings.Fields | main.py:78 | every field is nonempty and free of whitespace, and the fields together are exactly the line's non-whitespace characters in order |
| Strings.FieldsOfWord | main.py:78 | a nonempty word without whitespace is a single field |
| Strings.FieldsAtSpace | main.py:78 | a whitespace character separates fields: the fields of the text before it, then those after it |
| Strings.FieldsOfJoin | main.py:78 | splitting words joined by single spaces gives back exactly those words |
| Strings.RemovePrefix | main.py:83 | when the ref starts with the prefix, prefix followed by the result is the ref; otherwise the ref is unchanged |
| SemVer.ParseThenFormat | main.py:83-86 | every version the parser accepts is well formed, and printing it gives back exactly the tag text it was parsed from |
| SemVer.FormatThenParse | main.py:143 | every well-formed version parses back from its own text, so `str(version)` identifies the version |
| Precedence.Compare | main.py:91 | the comparison is -1, 0 or 1, and it is 0 exactly when major, minor, patch and pre-release agree (build metadata ignored) |
| Precedence.CoreDecides | main.py:91 | the first differing major, minor or patch number decides, and the larger one ranks higher |
| Precedence.PreReleaseBelowRelease | main.py:91 | with equal major, minor and patch, a pre-release ranks below the release |
| Precedence.ProperPrefixBelow | main.py:91 | a pre-release extended by more identifiers ranks higher than the original |
| Precedence.FirstDifferenceDecides | main.py:91 | between two pre-releases, the first differing identifier decides |
| Precedence.PrecedenceChain | main.py:91 | 1.0.0-alpha < 1.0.0-alpha.1 < 1.0.0-alpha.beta < 1.0.0-beta < 1.0.0-beta.2 < 1.0.0-beta.11 < 1.0.0-rc.1 < 1.0.0 |
| Precedence.CompareAntisymmetric | main.py:91 | swapping the two versions negates the comparison, so any two versions are ordered one way or the other |
| Precedence.CompareTransitive | main.py:91 | lower-or-equal precedence is transitive |
| Precedence.Sort | main.py:91 | `sorted` returns an ascending list that is a permutation of its input (nothing added, duplicates kept) |
| Precedence.SortStable | main.py:91 | versions of equal precedence keep their input order |
| Precedence.SortPair | main.py:91 | two versions given in descending order come out swapped |
| VersionResolver.RefVersion | main.py:80-86 | a ref yields a version only if it is `refs/tags/v` followed by that version's text, and the version is well formed |
| VersionResolver.FetchVersions | main.py:76-95 | the loop returns exactly the resolved versions: sorted, and empty when some line lacks a ref field |
| VersionResolver.TagVersionsSnoc | main.py:86 | appending one ref to the listing appends exactly that ref's version, or nothing |
| VersionResolver.TagVersionsAppend | main.py:77-89 | the loop's filtering distributes over concatenated ref lists, so each ref is judged on its own |
| VersionResolver.SkippedRefChangesNothing | main.py:80-89 | a ref that is not a version tag, or whose version does not parse, can be removed from any position without changing the result |
| VersionResolver.BlankLineHasNoRef | main.py:78 | a line of only whitespace has no fields, so taking its second field fails |
| VersionResolver.BlankLineEmptiesResult | main.py:97-100 | one blank line anywhere in the listing makes the whole result empty |
| VersionResolver.TagVersionsMember | main.py:77-89 | a version is kept iff it is well formed and some ref is `refs/tags/v` followed by its text |
| VersionResolver.ResolvedFromTag | main.py:76-95 | every returned version is well formed and comes from a listing line whose ref is `refs/tags/v` plus its text |
| VersionResolver.TagResolved | main.py:76-95 | on a listing where every line has a ref, every line whose ref names a well-formed version contributes that version |
| VersionResolver.ResolvedIsStableSort | main.py:91 | on a listing where every line has a ref, the result is sorted and a permutation of the parsed tags, and equal-precedence versions keep listing order |
| VersionResolver.RefVersionOfTag | main.py:80-86 | the ref `refs/tags/v` plus a well-formed version's text resolves to that version |
| VersionResolver.BadTagSkipped | main.py:80-81 | the ref `refs/tags/bad-tag` yields no version |
| VersionResolver.LineRef | main.py:78 | on a line `<hash><TAB><ref>` the ref field is `<ref>`, and the line holds no line break |
| VersionResolver.ResolveListing | main.py:76-91 | on a listing of `<hash><TAB><ref>` lines, every line has a ref and the result is the stably sorted versions of the refs |
| VersionResolver.TagVersionsOfFour | main.py:77-89 | four refs keep, in order, what each of them keeps on its own |
| VersionResolver.KeptTag | main.py:80-86 | a ref that is `refs/tags/v` plus a well-formed version's text keeps exactly that version |
| VersionResolver.FourTagVersions | main.py:77-89 | refs `v1.0.0`, `v1.2.0`, `bad-tag`, `v1.1.0-rc1` keep 1.0.0, 1.2.0 and 1.1.0-rc1, in that order |
| VersionResolver.FourTagListing | main.py:76-95 | a listing of those four tags resolves to 1.0.0, 1.1.0-rc1, 1.2.0 |
| VersionResolver.ExampleReleaseTexts | main.py:123 | 1.0.0 and 1.2.0 print as `1.0.0` and `1.2.0` |
| VersionResolver.ExamplePreReleaseText | main.py:123 | 1.1.0-rc1 prints as `1.1.0-rc1` |
| VersionResolver.ExampleSort | main.py:91 | 1.0.0, 1.2.0, 1.1.0-rc1 sort to 1.0.0, 1.1.0-rc1, 1.2.0: a pre-release sorts below the next minor release |
| VersionResolver.SortMiddleDown | main.py:91 | of three versions, when the middle one outranks the last and the first does not, the sort swaps only the last two |
| IndexBuilder.PackageKeyInjective | main.py:121 | distinct repositories get distinct `github.com/` keys |
| IndexBuilder.VersionTexts | main.py:123 | the stringified list has one text per version |
| IndexBuilder.VersionTextsParse | main.py:123 | the k-th text parses back to the k-th version, so order and content are kept |
| IndexBuilder.Zip | main.py:125 | `zip` has as many rows as its shortest input, and row k pairs the k-th elements |
| IndexBuilder.Index | main.py:120-127 | the index keys are exactly the keys of the rows that have a head manifest |
| IndexBuilder.IndexEntryOfLastRow | main.py:120-127 | a repository's entry holds its last manifest-bearing row's info and that row's versions as text, in order (empty when it has none) |
| IndexBuilder.GenerateIndexDistinct | main.py:120-127 | with distinct repositories, every repository whose head manifest was fetched has its own info and stringified versions |
| IndexBuilder.GenerateIndexKeys | main.py:120-127 | a key is in the index iff it is `github.com/` plus the repository at some zipped position whose manifest is not `None` |
| IndexBuilder.SaveManifest | main.py:142-151 | a file is written iff the fetch at tag `v<version>` yields a manifest; it is that manifest, at `<base>/<repository>/<version>/tooth.json` |
| IndexBuilder.TagRefRoundTrip | main.py:143 | for every resolved version, the tag fetched is exactly the tag it was resolved from |
| IndexBuilder.ManifestPathInjective | main.py:151 | two well-formed versions of one repository share a cache path only if they are the same version |
| Entities.MatchesTag | entities.py:10 | the automaton accepts a string iff it is one or more of `[a-z0-9-]`, optionally followed by `:` and one or more of `[a-z0-9-]` |
| Entities.TagRejects | entities.py:10 | the empty string and any string holding a character outside `[a-z0-9-:]` are not tags |
| Entities.TagColons | entities.py:10 | a tag has at most one `:`, never as its first or last character |
| Entities.HyphensAreTags | entities.py:10 | a string of hyphens only is a tag |
| Entities.ValidateInfo | entities.py:13-17 | the info validates iff every given tag is a `Tag`; absent fields default to empty |
| Entities.DefaultInfo | entities.py:27 | the default info is what an info with every field absent validates to: empty name, description, tags and avatar URL |
| Entities.ValidateVariant | entities.py:20-21 | any label is accepted as given, and an absent one is `""` |
| Entities.ValidateManifest | entities.py:24-28 | a manifest validates iff `tooth` and `version` are present and any given info validates; `tooth` and `version` are kept, a given info is its validated form and an absent one the default, and the k-th variant is the k-th input variant validated |
| Entities.ValidatePackage | entities.py:31-35 | a package validates iff `updated_at`, `stars` and `versions` are present and any given info validates; those three are kept, and the info is the validated given info or the default |
| Entities.ValidateIndex | entities.py:38-41 | an index validates iff `packages` is present and every package validates; the keys are kept and each value is its package validated; given format fields are kept, and absent ones default to 3 and `289f771f-2c9a-4d73-9f3f-8492495a924d` |

## Left out

- Network, subprocesses and files:
  - The HTTP fetch of `tooth.json` (`fetch_manifest`), the `git ls-remote` subprocess, the `aiofiles` writes, the directory creation, and the workspace wipe with `shutil.rmtree`.
  - The listing text and the fetched manifests are inputs of the model.
  - `save_manifest`'s fetch is a function parameter.
- The GitHub code search, pagination, the throttling sleep and the rate-limit wait. These depend on the network and the wall clock.
- Concurrency: the `Semaphore`, the `TaskGroup` and the `gather` fan-out. Version lists and head manifests are taken as already-computed sequences.
- Exceptions other than the missing ref field. A `git ls-remote` failure, which also yields `[]`, is not modelled: the listing is an input.
- JSON: `json.dumps`, `model_dump_json` and pydantic's JSON parsing (`model_validate_json`).
  - The model stops at the map and the records before serialisation.
  - `sort_keys=True` only fixes the key order in the text.
- VersionResolver.FetchVersions: follows SemVer 2.0.0 exactly, not the internals of python-semver's `VersionInfo.parse` and comparison, which are not part of this model. The library's patterns use `\d`, which in Python also matches non-ASCII decimal digits, so it may accept texts the standard rejects.
- Entities.ValidatePackage: `updated_at` is kept as text, because parsing a `datetime` is not modelled.
- IndexBuilder.ManifestPath: covers only relative `owner/name` repositories. `pathlib`'s treatment of absolute or `..` components is not modelled.
- Not implemented by the code, so not modelled: the manifest migration, grouping by variants, and dropping repositories with no versions.
- The label pattern the entity tests expect (`_` and `/` accepted, upper case rejected) is not modelled. `entities.py` leaves `label` unconstrained, and the model follows it.
- Strings are sequences of characters. Unicode line breaks and whitespace follow Python's `splitlines` and `isspace` sets for the characters they list. No other Unicode processing is modelled.
