/**
 * The index schema (entities.py): the tag slug pattern, the manifest and
 * index records, and the defaults validation fills in for absent fields.
 * A JSON object reaching validation is modelled as a record of optional
 * fields; validation either yields the entity or fails.
 */
module Entities {
  import opened Wrappers

  /** The schema family every index document declares. */
  const FormatUuid: string := "289f771f-2c9a-4d73-9f3f-8492495a924d"

  /** The schema revision every index document declares. */
  const FormatVersion: int := 3

  // ---------------------------------------------------------------------
  // The tag pattern ^[a-z0-9-]+(:[a-z0-9-]+)?$

  /** `[a-z0-9-]` */
  predicate IsSlugChar(c: char) {
    'a' <= c <= 'z' || '0' <= c <= '9' || c == '-'
  }

  /** `[a-z0-9-]*` */
  predicate AllSlugChars(s: string) {
    forall k :: 0 <= k < |s| ==> IsSlugChar(s[k])
  }

  /** `[a-z0-9-]+` */
  predicate IsSlug(s: string) {
    |s| > 0 && AllSlugChars(s)
  }

  /** The pattern read as a language: one slug, or two slugs joined by one `:`. */
  predicate IsTag(s: string) {
    IsSlug(s) || exists i :: 0 < i < |s| && s[i] == ':' && IsSlug(s[..i]) && IsSlug(s[i + 1..])
  }

  /** States of a left-to-right matcher for the pattern. */
  datatype State = Start | First | Colon | Second | Dead

  function Step(q: State, c: char): State {
    match q
    case Start => if IsSlugChar(c) then First else Dead
    case First => if IsSlugChar(c) then First else if c == ':' then Colon else Dead
    case Colon => if IsSlugChar(c) then Second else Dead
    case Second => if IsSlugChar(c) then Second else Dead
    case Dead => Dead
  }

  function Run(q: State, s: string): State
    decreases |s|
  {
    if s == [] then q else Run(Step(q, s[0]), s[1..])
  }

  predicate Accepting(q: State) {
    q == First || q == Second
  }

  lemma {:induction false} RunDead(s: string)
    ensures Run(Dead, s) == Dead
  {
    if s != [] {
      RunDead(s[1..]);
    }
  }

  lemma {:induction false} RunSecond(s: string)
    ensures Accepting(Run(Second, s)) <==> AllSlugChars(s)
  {
    if s != [] {
      if IsSlugChar(s[0]) {
        RunSecond(s[1..]);
      } else {
        RunDead(s[1..]);
      }
    }
  }

  lemma RunColon(s: string)
    ensures Accepting(Run(Colon, s)) <==> IsSlug(s)
  {
    if s != [] {
      if IsSlugChar(s[0]) {
        RunSecond(s[1..]);
      } else {
        RunDead(s[1..]);
      }
    }
  }

  /** After at least one slug character: the rest is slug characters, or slug characters, `:`, and a slug. */
  predicate FirstTail(s: string) {
    AllSlugChars(s) || exists i :: 0 <= i < |s| && s[i] == ':' && AllSlugChars(s[..i]) && IsSlug(s[i + 1..])
  }

  lemma {:induction false} RunFirst(s: string)
    ensures Accepting(Run(First, s)) <==> FirstTail(s)
  {
    if s == [] {
    } else if IsSlugChar(s[0]) {
      assert Run(First, s) == Run(First, s[1..]);
      RunFirst(s[1..]);
      if FirstTail(s[1..]) {
        FirstTailGrow(s);
      }
      if FirstTail(s) {
        FirstTailShrink(s);
      }
    } else if s[0] == ':' {
      RunColon(s[1..]);
      if IsSlug(s[1..]) {
        assert s[..0] == [];
      }
    } else {
      RunDead(s[1..]);
    }
  }

  /** A slug character in front of a first-slug tail leaves a first-slug tail. */
  lemma FirstTailGrow(s: string)
    requires s != [] && IsSlugChar(s[0]) && FirstTail(s[1..])
    ensures FirstTail(s)
  {
    var t := s[1..];
    if !AllSlugChars(t) {
      var i :| 0 <= i < |t| && t[i] == ':' && AllSlugChars(t[..i]) && IsSlug(t[i + 1..]);
      assert s[..i + 1] == [s[0]] + t[..i];
      assert s[i + 2..] == t[i + 1..];
      assert s[i + 1] == ':';
    }
  }

  /** Dropping a leading slug character from a first-slug tail leaves a first-slug tail. */
  lemma FirstTailShrink(s: string)
    requires s != [] && IsSlugChar(s[0]) && FirstTail(s)
    ensures FirstTail(s[1..])
  {
    var t := s[1..];
    if !AllSlugChars(s) {
      var i :| 0 <= i < |s| && s[i] == ':' && AllSlugChars(s[..i]) && IsSlug(s[i + 1..]);
      assert i > 0;
      assert t[..i - 1] == s[1..i];
      assert t[i..] == s[i + 1..];
      assert t[i - 1] == ':';
    }
  }

  lemma TagFromFirstTail(s: string)
    requires s != [] && IsSlugChar(s[0]) && FirstTail(s[1..])
    ensures IsTag(s)
  {
    FirstTailGrow(s);
    if !AllSlugChars(s) {
      var i :| 0 <= i < |s| && s[i] == ':' && AllSlugChars(s[..i]) && IsSlug(s[i + 1..]);
      assert i > 0 && IsSlug(s[..i]);
    }
  }

  lemma FirstTailFromTag(s: string)
    requires s != [] && IsTag(s)
    ensures FirstTail(s[1..])
  {
    var t := s[1..];
    if IsSlug(s) {
      assert forall k :: 0 <= k < |t| ==> t[k] == s[k + 1];
      assert AllSlugChars(t);
    } else {
      var i :| 0 < i < |s| && s[i] == ':' && IsSlug(s[..i]) && IsSlug(s[i + 1..]);
      assert t[..i - 1] == s[1..i];
      assert t[i..] == s[i + 1..];
      assert t[i - 1] == ':';
    }
  }

  lemma NoTagAfterOtherChar(s: string)
    requires s != [] && !IsSlugChar(s[0])
    ensures !IsTag(s)
  {
  }

  /** The matcher accepts exactly the strings the pattern describes. */
  lemma MatcherAcceptsTags(s: string)
    ensures Accepting(Run(Start, s)) <==> IsTag(s)
  {
    if s != [] {
      if IsSlugChar(s[0]) {
        RunFirst(s[1..]);
        if FirstTail(s[1..]) {
          TagFromFirstTail(s);
        }
        if IsTag(s) {
          FirstTailFromTag(s);
        }
      } else {
        RunDead(s[1..]);
        NoTagAfterOtherChar(s);
      }
    }
  }

  /** Whether a string satisfies the `Tag` constraint, decided in one left-to-right pass. */
  function MatchesTag(s: string): (r: bool)
    ensures r <==> IsTag(s)
  {
    MatcherAcceptsTags(s);
    Accepting(Run(Start, s))
  }

  /**
   * Rejected: the empty string, and any string with a character outside
   * `[a-z0-9-:]` (an upper-case letter, `_`, a space, `/`, ...).
   */
  lemma TagRejects(s: string, k: nat)
    requires k < |s| && !IsSlugChar(s[k]) && s[k] != ':'
    ensures !IsTag(s) && !IsTag([])
  {
  }

  /** A tag has at most one `:`, and never as its first or last character. */
  lemma TagColons(s: string)
    requires IsTag(s)
    ensures s[0] != ':' && s[|s| - 1] != ':'
    ensures forall i, j :: 0 <= i < j < |s| && s[i] == ':' ==> s[j] != ':'
  {
    if !IsSlug(s) {
      var c :| 0 < c < |s| && s[c] == ':' && IsSlug(s[..c]) && IsSlug(s[c + 1..]);
      OnlyColonAt(s, c);
    }
  }

  /** In two slugs joined by a `:` at `c`, position `c` holds the only `:`. */
  lemma OnlyColonAt(s: string, c: nat)
    requires 0 < c < |s| && s[c] == ':' && IsSlug(s[..c]) && IsSlug(s[c + 1..])
    ensures forall i :: 0 <= i < |s| && s[i] == ':' ==> i == c
    ensures c != |s| - 1
  {
    forall i | 0 <= i < |s| && i != c ensures s[i] != ':' {
      if i < c {
        assert s[..c][i] == s[i];
      } else {
        assert s[c + 1..][i - c - 1] == s[i];
      }
    }
  }

  /** Hyphens alone form a tag: `-`, `--`, ... */
  lemma HyphensAreTags(n: nat)
    requires n > 0
    ensures IsTag(seq(n, _ => '-'))
  {
  }

  // ---------------------------------------------------------------------
  // Records

  datatype PackageManifestInfo = PackageManifestInfo(
    name: string, description: string, tags: seq<string>, avatarUrl: string)

  /** A build variant; its label is any string, `""` for the default variant. */
  datatype PackageManifestVariant = PackageManifestVariant(variantLabel: string)

  datatype PackageManifest = PackageManifest(
    tooth: string, version: string, info: PackageManifestInfo, variants: seq<PackageManifestVariant>)

  /** One package of the index; `updatedAt` is the ISO-8601 text of the timestamp. */
  datatype PackageIndexPackage = PackageIndexPackage(
    info: PackageManifestInfo, updatedAt: string, stars: int, versions: map<string, seq<string>>)

  datatype PackageIndex = PackageIndex(
    formatVersion: int, formatUuid: string, packages: map<string, PackageIndexPackage>)

  /** Every tag of the info satisfies the `Tag` constraint. */
  predicate ValidInfo(info: PackageManifestInfo) {
    forall k :: 0 <= k < |info.tags| ==> IsTag(info.tags[k])
  }

  // ---------------------------------------------------------------------
  // Validation: absent fields take their defaults, required ones must be present

  datatype InfoInput = InfoInput(
    name: Option<string>, description: Option<string>, tags: Option<seq<string>>, avatarUrl: Option<string>)

  datatype VariantInput = VariantInput(variantLabel: Option<string>)

  datatype ManifestInput = ManifestInput(
    tooth: Option<string>, version: Option<string>, info: Option<InfoInput>, variants: Option<seq<VariantInput>>)

  datatype PackageInput = PackageInput(
    info: Option<InfoInput>, updatedAt: Option<string>, stars: Option<int>, versions: Option<map<string, seq<string>>>)

  datatype IndexInput = IndexInput(
    formatVersion: Option<int>, formatUuid: Option<string>, packages: Option<map<string, PackageInput>>)

  /** `PackageManifestInfo`: every field defaults to empty; given tags must each be a `Tag`. */
  function ValidateInfo(input: InfoInput): (r: Option<PackageManifestInfo>)
    ensures r.Some? <==> forall k :: 0 <= k < |input.tags.GetOr([])| ==> IsTag(input.tags.GetOr([])[k])
    ensures r.Some? ==> ValidInfo(r.value)
    ensures r.Some? ==> r.value.tags == input.tags.GetOr([])
    ensures r.Some? ==> r.value.name == input.name.GetOr("") && r.value.description == input.description.GetOr("")
                        && r.value.avatarUrl == input.avatarUrl.GetOr("")
  {
    var tags := input.tags.GetOr([]);
    if forall k :: 0 <= k < |tags| ==> MatchesTag(tags[k]) then
      Some(PackageManifestInfo(input.name.GetOr(""), input.description.GetOr(""), tags, input.avatarUrl.GetOr("")))
    else None
  }

  /** The info an absent `info` field stands for. */
  function DefaultInfo(): (info: PackageManifestInfo)
    ensures ValidateInfo(InfoInput(None, None, None, None)) == Some(info)
    ensures ValidInfo(info) && info.tags == []
    ensures info.name == "" && info.description == "" && info.avatarUrl == ""
  {
    PackageManifestInfo("", "", [], "")
  }

  /** `PackageManifestVariant`: the label defaults to `""` and is not constrained. */
  function ValidateVariant(input: VariantInput): (r: PackageManifestVariant)
    ensures input.variantLabel.Some? ==> r.variantLabel == input.variantLabel.value
    ensures input.variantLabel.None? ==> r.variantLabel == ""
  {
    PackageManifestVariant(input.variantLabel.GetOr(""))
  }

  /** `PackageManifest`: `tooth` and `version` are required; `info` and `variants` default to empty. */
  function ValidateManifest(input: ManifestInput): (r: Option<PackageManifest>)
    ensures r.Some? <==> input.tooth.Some? && input.version.Some?
                         && (input.info.Some? ==> ValidateInfo(input.info.value).Some?)
    ensures r.Some? ==> ValidInfo(r.value.info)
    ensures r.Some? ==> r.value.tooth == input.tooth.value && r.value.version == input.version.value
    ensures r.Some? && input.info.None? ==> r.value.info == DefaultInfo()
    ensures r.Some? && input.info.Some? ==> r.value.info == ValidateInfo(input.info.value).value
    ensures r.Some? ==> |r.value.variants| == |input.variants.GetOr([])|
    ensures r.Some? ==> forall k :: 0 <= k < |r.value.variants| ==>
                          r.value.variants[k] == ValidateVariant(input.variants.GetOr([])[k])
  {
    var info := match input.info case None => Some(DefaultInfo()) case Some(i) => ValidateInfo(i);
    if input.tooth.None? || input.version.None? || info.None? then None
    else
      var variants := input.variants.GetOr([]);
      Some(PackageManifest(input.tooth.value, input.version.value, info.value,
                           seq(|variants|, k requires 0 <= k < |variants| => ValidateVariant(variants[k]))))
  }

  /** `PackageIndexPackage`: `updated_at`, `stars` and `versions` are required; `info` defaults to empty. */
  function ValidatePackage(input: PackageInput): (r: Option<PackageIndexPackage>)
    ensures r.Some? <==> input.updatedAt.Some? && input.stars.Some? && input.versions.Some?
                         && (input.info.Some? ==> ValidateInfo(input.info.value).Some?)
    ensures r.Some? ==> ValidInfo(r.value.info)
    ensures r.Some? && input.info.None? ==> r.value.info == DefaultInfo()
    ensures r.Some? && input.info.Some? ==> r.value.info == ValidateInfo(input.info.value).value
    ensures r.Some? ==> r.value.updatedAt == input.updatedAt.value && r.value.stars == input.stars.value
                        && r.value.versions == input.versions.value
  {
    var info := match input.info case None => Some(DefaultInfo()) case Some(i) => ValidateInfo(i);
    if input.updatedAt.None? || input.stars.None? || input.versions.None? || info.None? then None
    else Some(PackageIndexPackage(info.value, input.updatedAt.value, input.stars.value, input.versions.value))
  }

  /**
   * `PackageIndex`: `packages` is required and each package must validate;
   * the format fields default to the current schema's identity.
   */
  function ValidateIndex(input: IndexInput): (r: Option<PackageIndex>)
    ensures r.Some? <==> input.packages.Some?
                         && forall key :: key in input.packages.value ==> ValidatePackage(input.packages.value[key]).Some?
    ensures r.Some? ==> r.value.packages.Keys == input.packages.value.Keys
    ensures r.Some? ==> forall key :: key in r.value.packages ==>
                          Some(r.value.packages[key]) == ValidatePackage(input.packages.value[key])
    ensures r.Some? && input.formatVersion.Some? ==> r.value.formatVersion == input.formatVersion.value
    ensures r.Some? && input.formatUuid.Some? ==> r.value.formatUuid == input.formatUuid.value
    ensures r.Some? && input.formatVersion.None? ==> r.value.formatVersion == FormatVersion
    ensures r.Some? && input.formatUuid.None? ==> r.value.formatUuid == FormatUuid
  {
    match input.packages
    case None => None
    case Some(packages) =>
      if forall key :: key in packages ==> ValidatePackage(packages[key]).Some? then
        Some(PackageIndex(input.formatVersion.GetOr(FormatVersion), input.formatUuid.GetOr(FormatUuid),
                          map key | key in packages :: ValidatePackage(packages[key]).value))
      else None
  }
}
