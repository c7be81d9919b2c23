/**
 * Version resolution for one repository (`fetch_versions`): from the text
 * `git ls-remote -t --refs` prints, keep the refs `refs/tags/v<semver>`,
 * parse what follows the `v`, drop what does not parse, and sort the rest
 * by precedence. A line with fewer than two whitespace-separated fields
 * raises inside the loop, and the handler turns that into an empty result.
 */
module VersionResolver {
  import opened Wrappers
  import opened Strings
  import opened SemVer
  import opened Precedence

  /** The ref prefix a version tag must carry. */
  const TagPrefix: string := "refs/tags/v"

  /** A line `line.split()[1]` can be taken from. */
  predicate HasRef(line: string) {
    |Fields(line)| >= 2
  }

  /** `line.split()[1]`: the ref name on a line of `git ls-remote` output. */
  function RefOf(line: string): string
    requires HasRef(line)
  {
    Fields(line)[1]
  }

  /** The version a ref names, or `None` when it is not a `v` tag or its version does not parse. */
  function RefVersion(ref: string): (r: Option<Version>)
    ensures r.Some? ==> ref == TagPrefix + Format(r.value) && ValidVersion(r.value)
  {
    if !StartsWith(ref, TagPrefix) then None
    else
      var r := Parse(RemovePrefix(ref, TagPrefix));
      if r.Some? then
        ParseThenFormat(RemovePrefix(ref, TagPrefix), r.value);
        r
      else r
  }

  /** What one ref adds to the list: its version, or nothing. */
  function Kept(ref: string): seq<Version> {
    match RefVersion(ref) case Some(v) => [v] case None => []
  }

  /** The versions of the refs, in ref order, skipping the refs that name none. */
  function TagVersions(refs: seq<string>): seq<Version> {
    if refs == [] then [] else Kept(refs[0]) + TagVersions(refs[1..])
  }

  /** The ref of every line; meaningful only when every line has one. */
  function Refs(lines: seq<string>): (r: seq<string>)
    requires forall k :: 0 <= k < |lines| ==> HasRef(lines[k])
    ensures |r| == |lines|
    ensures forall k :: 0 <= k < |lines| ==> r[k] == RefOf(lines[k])
  {
    seq(|lines|, k requires 0 <= k < |lines| => RefOf(lines[k]))
  }

  /** Every line of the listing has a ref field; otherwise indexing `[1]` raises. */
  predicate WellFormedListing(listing: string) {
    forall k :: 0 <= k < |Lines(listing)| ==> HasRef(Lines(listing)[k])
  }

  /** What `fetch_versions` returns for a given `git ls-remote` output. */
  function ResolveVersions(listing: string): seq<Version> {
    if WellFormedListing(listing) then Sort(TagVersions(Refs(Lines(listing)))) else []
  }

  /**
   * The loop of `fetch_versions`: line by line, skip refs that are not
   * version tags and tags that do not parse, append the rest, and sort at
   * the end. The first line without a ref field makes the result empty.
   */
  method FetchVersions(listing: string) returns (versions: seq<Version>)
    ensures versions == ResolveVersions(listing)
    ensures !WellFormedListing(listing) ==> versions == []
    ensures Sorted(versions)
  {
    var lines := Lines(listing);
    var found: seq<Version> := [];
    ghost var refs: seq<string> := [];
    var i := 0;
    while i < |lines|
      invariant 0 <= i <= |lines|
      invariant ListedRefs(lines[..i], refs)
      invariant found == TagVersions(refs)
    {
      var fields := Fields(lines[i]);
      if |fields| < 2 {
        NotWellFormed(listing, i);
        return [];
      }
      var ref := fields[1];
      ListedRefsStep(lines, i, refs);
      TagVersionsSnoc(refs, ref);
      refs := refs + [ref];
      if !StartsWith(ref, TagPrefix) {
        assert Kept(ref) == [];
        i := i + 1;
        continue;
      }
      var text := RemovePrefix(ref, TagPrefix);
      var parsed := Parse(text);
      if parsed.None? {
        assert Kept(ref) == [];
        i := i + 1;
        continue;
      }
      assert Kept(ref) == [parsed.value];
      found := found + [parsed.value];
      i := i + 1;
    }
    ListedRefsAll(listing, refs);
    versions := Sort(found);
  }

  /** `refs` holds the ref of each line, and every line has one. */
  predicate ListedRefs(lines: seq<string>, refs: seq<string>) {
    |refs| == |lines| && forall k :: 0 <= k < |lines| ==> HasRef(lines[k]) && refs[k] == RefOf(lines[k])
  }

  lemma ListedRefsStep(lines: seq<string>, i: nat, refs: seq<string>)
    requires i < |lines| && ListedRefs(lines[..i], refs) && HasRef(lines[i])
    ensures ListedRefs(lines[..i + 1], refs + [RefOf(lines[i])])
  {
  }

  lemma ListedRefsAll(listing: string, refs: seq<string>)
    requires ListedRefs(Lines(listing)[..|Lines(listing)|], refs)
    ensures WellFormedListing(listing) && refs == Refs(Lines(listing))
  {
    assert Lines(listing)[..|Lines(listing)|] == Lines(listing);
  }

  lemma NotWellFormed(listing: string, i: nat)
    requires i < |Lines(listing)| && |Fields(Lines(listing)[i])| < 2
    ensures ResolveVersions(listing) == []
  {
  }

  /** Appending one ref appends what that ref contributes. */
  lemma TagVersionsSnoc(refs: seq<string>, ref: string)
    ensures TagVersions(refs + [ref]) == TagVersions(refs) + Kept(ref)
  {
    assert TagVersions([ref]) == Kept(ref) + TagVersions([]) by {
      assert [ref][1..] == [];
    }
    TagVersionsAppend(refs, [ref]);
  }

  // ---------------------------------------------------------------------
  // Properties of the resolved list

  lemma {:induction false} TagVersionsAppend(a: seq<string>, b: seq<string>)
    ensures TagVersions(a + b) == TagVersions(a) + TagVersions(b)
  {
    if a == [] {
      assert a + b == b;
    } else {
      assert (a + b)[1..] == a[1..] + b;
      TagVersionsAppend(a[1..], b);
      assert TagVersions(a + b) == Kept(a[0]) + TagVersions(a[1..] + b);
    }
  }

  /** A ref that names no version contributes nothing, wherever it stands, and leaves the others alone. */
  lemma SkippedRefChangesNothing(before: seq<string>, ref: string, after: seq<string>)
    requires RefVersion(ref).None?
    ensures TagVersions(before + [ref] + after) == TagVersions(before + after)
  {
    TagVersionsAppend(before + [ref], after);
    TagVersionsAppend(before, [ref]);
    TagVersionsAppend(before, after);
  }

  /** A line of nothing but whitespace, a blank line included, has no ref field. */
  lemma {:induction false} BlankLineHasNoRef(line: string)
    requires NoneOf(line, x => !IsSpace(x))
    ensures Fields(line) == [] && !HasRef(line)
    decreases |line|
  {
    if line != [] {
      BlankLineHasNoRef(line[1..]);
      assert Without(line, IsSpace) == Without(line[1..], IsSpace);
    }
  }

  /** One blank line anywhere in the listing empties the whole result. */
  lemma BlankLineEmptiesResult(listing: string, k: nat)
    requires k < |Lines(listing)| && NoneOf(Lines(listing)[k], x => !IsSpace(x))
    ensures ResolveVersions(listing) == []
  {
    BlankLineHasNoRef(Lines(listing)[k]);
  }

  /** A version is among the tag versions exactly when some ref is `refs/tags/v` followed by its text. */
  lemma {:induction false} TagVersionsMember(refs: seq<string>, v: Version)
    ensures v in TagVersions(refs) <==>
      ValidVersion(v) && exists k :: 0 <= k < |refs| && refs[k] == TagPrefix + Format(v)
  {
    if refs != [] {
      TagVersionsMember(refs[1..], v);
      if ValidVersion(v) && refs[0] == TagPrefix + Format(v) {
        FormatThenParse(v);
        assert StartsWith(refs[0], TagPrefix) && RemovePrefix(refs[0], TagPrefix) == Format(v);
      }
      if exists k :: 0 <= k < |refs[1..]| && refs[1..][k] == TagPrefix + Format(v) {
        var k :| 0 <= k < |refs[1..]| && refs[1..][k] == TagPrefix + Format(v);
        assert refs[k + 1] == TagPrefix + Format(v);
      }
      if exists k :: 0 <= k < |refs| && refs[k] == TagPrefix + Format(v) {
        var k :| 0 <= k < |refs| && refs[k] == TagPrefix + Format(v);
        if k > 0 {
          assert refs[1..][k - 1] == TagPrefix + Format(v);
        }
      }
    }
  }

  /** Every version returned is well-formed and came from a line whose ref is `refs/tags/v` plus its text. */
  lemma ResolvedFromTag(listing: string, v: Version)
    requires v in ResolveVersions(listing)
    ensures WellFormedListing(listing) && ValidVersion(v)
    ensures exists k :: 0 <= k < |Lines(listing)| && HasRef(Lines(listing)[k])
                        && RefOf(Lines(listing)[k]) == TagPrefix + Format(v)
  {
    var lines := Lines(listing);
    var refs := Refs(lines);
    assert v in multiset(Sort(TagVersions(refs)));
    TagVersionsMember(refs, v);
  }

  /** On a well-formed listing, every line whose ref is `refs/tags/v` plus a version's text yields that version. */
  lemma TagResolved(listing: string, k: nat, v: Version)
    requires WellFormedListing(listing)
    requires k < |Lines(listing)| && RefOf(Lines(listing)[k]) == TagPrefix + Format(v)
    requires ValidVersion(v)
    ensures v in ResolveVersions(listing)
  {
    var refs := Refs(Lines(listing));
    TagVersionsMember(refs, v);
    assert v in multiset(TagVersions(refs));
  }

  /**
   * On a well-formed listing the result is the parsed tag versions, each as
   * often as it was listed, sorted stably by precedence.
   */
  lemma ResolvedIsStableSort(listing: string, v: Version)
    requires WellFormedListing(listing)
    ensures Sorted(ResolveVersions(listing))
    ensures multiset(ResolveVersions(listing)) == multiset(TagVersions(Refs(Lines(listing))))
    ensures Peers(ResolveVersions(listing), v) == Peers(TagVersions(Refs(Lines(listing))), v)
  {
    SortStable(TagVersions(Refs(Lines(listing))), v);
  }

  /** The ref of a well-formed version's tag resolves to that version. */
  lemma RefVersionOfTag(v: Version)
    requires ValidVersion(v)
    ensures RefVersion(TagPrefix + Format(v)) == Some(v)
  {
    FormatThenParse(v);
    assert (TagPrefix + Format(v))[..|TagPrefix|] == TagPrefix;
    assert (TagPrefix + Format(v))[|TagPrefix|..] == Format(v);
  }

  /** A nonempty run of non-whitespace characters: an object name or a ref name. */
  predicate Word(s: string) {
    s != [] && NoneOf(s, IsSpace)
  }

  /** The lines `git ls-remote` prints: an object name, a tab, and a ref. */
  function ListingLines(hashes: seq<string>, refs: seq<string>): (lines: seq<string>)
    requires |hashes| == |refs|
    ensures |lines| == |refs|
  {
    seq(|refs|, k requires 0 <= k < |refs| => hashes[k] + ['\t'] + refs[k])
  }

  /** A listing of `git ls-remote` output, its lines joined by `\n`. */
  function Listing(hashes: seq<string>, refs: seq<string>): string
    requires |hashes| == |refs|
  {
    Join(ListingLines(hashes, refs), '\n')
  }

  /** The ref taken from `hash<TAB>ref` is `ref`, and the line holds no line break. */
  lemma LineRef(hash: string, ref: string)
    requires Word(hash) && Word(ref)
    ensures HasRef(hash + ['\t'] + ref) && RefOf(hash + ['\t'] + ref) == ref
    ensures NoneOf(hash + ['\t'] + ref, IsLineBreak)
  {
    var line := hash + ['\t'] + ref;
    FieldsAtSpace(hash, '\t', ref);
    FieldsOfWord(hash);
    FieldsOfWord(ref);
    SpaceFreeIsBreakFree(hash);
    SpaceFreeIsBreakFree(ref);
    NoneOfAppend(hash, ['\t'], IsLineBreak);
    NoneOfAppend(hash + ['\t'], ref, IsLineBreak);
  }

  /** On a listing of `hash<TAB>ref` lines, the result is the sorted versions of the refs. */
  lemma ResolveListing(hashes: seq<string>, refs: seq<string>)
    requires |hashes| == |refs|
    requires forall k :: 0 <= k < |refs| ==> Word(hashes[k]) && Word(refs[k])
    ensures WellFormedListing(Listing(hashes, refs))
    ensures ResolveVersions(Listing(hashes, refs)) == Sort(TagVersions(refs))
  {
    var lines := ListingLines(hashes, refs);
    forall k | 0 <= k < |lines|
      ensures lines[k] != [] && NoneOf(lines[k], IsLineBreak)
      ensures HasRef(lines[k]) && RefOf(lines[k]) == refs[k]
    {
      LineRef(hashes[k], refs[k]);
    }
    LinesOfJoin(lines);
    assert Refs(lines) == refs;
  }

  /** One ref keeps what `Kept` says. */
  lemma TagVersionsOne(x: string)
    ensures TagVersions([x]) == Kept(x)
  {
    assert [x][1..] == [];
  }

  /** The versions of four refs are what each of them keeps, in order. */
  lemma TagVersionsOfFour(a: string, b: string, c: string, d: string)
    ensures TagVersions([a, b, c, d]) == Kept(a) + Kept(b) + Kept(c) + Kept(d)
  {
    var abc := [a, b, c];
    assert [a, b, c, d] == abc + [d] && abc == [a, b] + [c] && [a, b] == [a] + [b];
    TagVersionsSnoc(abc, d);
    TagVersionsSnoc([a, b], c);
    TagVersionsSnoc([a], b);
    TagVersionsOne(a);
  }

  /** A ref that is `refs/tags/v` plus a well-formed version's text keeps exactly that version. */
  lemma KeptTag(v: Version, ref: string)
    requires ValidVersion(v) && ref == TagPrefix + Format(v)
    ensures Kept(ref) == [v]
  {
    RefVersionOfTag(v);
  }

  /** `rc1` is a valid alphanumeric identifier. */
  lemma Rc1Valid(c: Version)
    requires c == Version(1, 1, 0, [AlphaNumeric("rc1")], [])
    ensures ValidVersion(c)
  {
    assert ValidIdentifier(c.pre[0]) by {
      assert !IsDigit(c.pre[0].text[0]);
    }
  }

  /** The refs `v1.0.0`, `v1.2.0`, `bad-tag`, `v1.1.0-rc1` keep 1.0.0, 1.2.0 and 1.1.0-rc1, in that order. */
  lemma FourTagVersions(refs: seq<string>, a: Version, b: Version, c: Version)
    requires refs == [TagPrefix + "1.0.0", TagPrefix + "1.2.0", "refs/tags/bad-tag", TagPrefix + "1.1.0-rc1"]
    requires a == Version(1, 0, 0, [], [])
    requires b == Version(1, 2, 0, [], [])
    requires c == Version(1, 1, 0, [AlphaNumeric("rc1")], [])
    ensures TagVersions(refs) == [a, b, c]
  {
    ExampleReleaseTexts();
    ExamplePreReleaseText();
    Rc1Valid(c);
    assert Format(a) == "1.0.0" && Format(b) == "1.2.0" && Format(c) == "1.1.0-rc1";
    KeptTag(a, refs[0]);
    KeptTag(b, refs[1]);
    BadTagSkipped();
    KeptTag(c, refs[3]);
    TagVersionsOfFour(refs[0], refs[1], refs[2], refs[3]);
    assert refs == [refs[0], refs[1], refs[2], refs[3]];
  }

  /**
   * Tags `v1.0.0`, `v1.2.0`, `bad-tag` and `v1.1.0-rc1`, listed in that
   * order, resolve to 1.0.0, 1.1.0-rc1, 1.2.0: the tag without `v` is
   * skipped and the pre-release sorts below the next minor release.
   */
  lemma FourTagListing(hashes: seq<string>, refs: seq<string>, a: Version, b: Version, c: Version)
    requires |hashes| == 4 && forall k :: 0 <= k < 4 ==> Word(hashes[k])
    requires refs == [TagPrefix + "1.0.0", TagPrefix + "1.2.0", "refs/tags/bad-tag", TagPrefix + "1.1.0-rc1"]
    requires a == Version(1, 0, 0, [], [])
    requires b == Version(1, 2, 0, [], [])
    requires c == Version(1, 1, 0, [AlphaNumeric("rc1")], [])
    ensures ResolveVersions(Listing(hashes, refs)) == [a, c, b]
  {
    forall k | 0 <= k < 4 ensures Word(refs[k]) {
    }
    ResolveListing(hashes, refs);
    FourTagVersions(refs, a, b, c);
    ExampleSort(a, b, c);
  }

  /** How two concrete releases print. */
  lemma ExampleReleaseTexts()
    ensures Format(Version(1, 0, 0, [], [])) == "1.0.0"
    ensures Format(Version(1, 2, 0, [], [])) == "1.2.0"
  {
    assert NatToText(0) == "0" && NatToText(1) == "1" && NatToText(2) == "2";
  }

  /** How a concrete pre-release prints. */
  lemma ExamplePreReleaseText()
    ensures Format(Version(1, 1, 0, [AlphaNumeric("rc1")], [])) == "1.1.0-rc1"
  {
    assert NatToText(0) == "0" && NatToText(1) == "1";
    assert IdentifierTexts([AlphaNumeric("rc1")]) == ["rc1"];
  }

  /** A tag that does not start with `v` is skipped. */
  lemma BadTagSkipped()
    ensures RefVersion("refs/tags/bad-tag") == None
  {
    var ref := "refs/tags/bad-tag";
    assert ref[10] != TagPrefix[10];
  }

  /**
   * The versions of tags `v1.0.0`, `v1.2.0` and `v1.1.0-rc1`, in that
   * order, sort to 1.0.0, 1.1.0-rc1, 1.2.0: the pre-release sorts below the
   * release of the next minor version.
   */
  lemma ExampleSort(a: Version, b: Version, c: Version)
    requires a == Version(1, 0, 0, [], [])
    requires b == Version(1, 2, 0, [], [])
    requires c == Version(1, 1, 0, [AlphaNumeric("rc1")], [])
    ensures Sort([a, b, c]) == [a, c, b]
  {
    assert Compare(b, c) == 1 && Compare(a, c) == -1;
    SortMiddleDown(a, b, c);
  }

  /** When the middle of three versions outranks the last, and the first does not, only the last two swap. */
  lemma SortMiddleDown(a: Version, b: Version, c: Version)
    requires Compare(a, c) <= 0 && Compare(b, c) > 0
    ensures Sort([a, b, c]) == [a, c, b]
  {
    SortPair(b, c);
    assert [a, b, c][1..] == [b, c];
  }

  /** A pair already in descending order is swapped by the sort. */
  lemma SortPair(b: Version, c: Version)
    requires Compare(b, c) > 0
    ensures Sort([b, c]) == [c, b]
  {
    assert [b, c][1..] == [c] && [c][1..] == [];
    assert Sort([c]) == [c];
    assert Insert(b, [c]) == [c] + Insert(b, []);
  }
}
