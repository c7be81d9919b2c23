/**
 * Semantic Versioning 2.0.0: the grammar of sections 2, 9 and 10 (a version
 * core `MAJOR.MINOR.PATCH`, an optional pre-release after `-`, optional
 * build metadata after `+`), the parser that accepts exactly that grammar,
 * and the formatter that prints a version back, the way `str(version)` does.
 * The crawler relies on the two being inverse: the tag `v<text>` whose text
 * parsed to a version is fetched again as `"v" + str(version)`.
 */
module SemVer {
  import opened Wrappers
  import opened Strings

  predicate IsDigit(c: char) {
    '0' <= c <= '9'
  }

  /** `[0-9A-Za-z-]`, the characters an identifier may use (section 9). */
  predicate IsIdentifierChar(c: char) {
    IsDigit(c) || 'a' <= c <= 'z' || 'A' <= c <= 'Z' || c == '-'
  }

  predicate AllDigits(s: string) {
    forall k :: 0 <= k < |s| ==> IsDigit(s[k])
  }

  predicate AllIdentifierChars(s: string) {
    forall k :: 0 <= k < |s| ==> IsIdentifierChar(s[k])
  }

  /** A non-negative integer written without leading zeroes (sections 2 and 9). */
  predicate IsNumericText(s: string) {
    |s| > 0 && AllDigits(s) && (s[0] == '0' ==> |s| == 1)
  }

  /** A build-metadata identifier: one or more identifier characters (section 10). */
  predicate IsBuildText(s: string) {
    |s| > 0 && AllIdentifierChars(s)
  }

  /**
   * A pre-release identifier: a number, compared numerically, or text with
   * at least one non-digit, compared lexically (sections 9 and 11).
   */
  datatype Identifier = Numeric(number: nat) | AlphaNumeric(text: string)

  /** A parsed version; `pre == []` means "no pre-release", `build == []` "no build metadata". */
  datatype Version = Version(major: nat, minor: nat, patch: nat, pre: seq<Identifier>, build: seq<string>)

  predicate ValidIdentifier(id: Identifier) {
    match id
    case Numeric(_) => true
    case AlphaNumeric(t) => |t| > 0 && AllIdentifierChars(t) && !AllDigits(t)
  }

  /** The versions the grammar can describe. */
  predicate ValidVersion(v: Version) {
    (forall k :: 0 <= k < |v.pre| ==> ValidIdentifier(v.pre[k])) &&
    (forall k :: 0 <= k < |v.build| ==> IsBuildText(v.build[k]))
  }

  // ---------------------------------------------------------------------
  // Decimal numerals

  function DigitChar(d: nat): (c: char)
    requires d < 10
    ensures IsDigit(c)
  {
    ('0' as int + d) as char
  }

  function DigitValue(c: char): (d: nat)
    requires IsDigit(c)
    ensures d < 10 && DigitChar(d) == c
  {
    c as int - '0' as int
  }

  /** The decimal numeral of `n`, as `%d` prints it. */
  function NatToText(n: nat): (s: string)
    ensures |s| > 0 && AllDigits(s)
    ensures s[0] == '0' ==> n == 0 && |s| == 1
  {
    if n < 10 then [DigitChar(n)]
    else NatToText(n / 10) + [DigitChar(n % 10)]
  }

  /** The value of a string of decimal digits. */
  function TextToNat(s: string): nat
    requires AllDigits(s)
  {
    if s == [] then 0
    else TextToNat(s[..|s| - 1]) * 10 + DigitValue(s[|s| - 1])
  }

  lemma {:induction false} TextToNatOfNatToText(n: nat)
    ensures TextToNat(NatToText(n)) == n
  {
    var s := NatToText(n);
    if n >= 10 {
      assert s[..|s| - 1] == NatToText(n / 10);
      TextToNatOfNatToText(n / 10);
    } else {
      assert s[..|s| - 1] == [];
    }
  }

  lemma {:induction false} TextToNatPositive(s: string)
    requires |s| > 0 && AllDigits(s) && s[0] != '0'
    ensures TextToNat(s) >= 1
  {
    if |s| > 1 {
      TextToNatPositive(s[..|s| - 1]);
    }
  }

  /** A numeral without leading zeroes is exactly what `NatToText` prints for its value. */
  lemma {:induction false} NatToTextOfTextToNat(s: string)
    requires IsNumericText(s)
    ensures NatToText(TextToNat(s)) == s
  {
    if |s| == 1 {
      assert s[..0] == [];
    } else {
      var p := s[..|s| - 1];
      TextToNatPositive(p);
      NatToTextOfTextToNat(p);
      var n := TextToNat(s);
      assert n / 10 == TextToNat(p) && n % 10 == DigitValue(s[|s| - 1]);
      assert s == p + [s[|s| - 1]];
    }
  }

  // ---------------------------------------------------------------------
  // Identifiers

  function IdentifierText(id: Identifier): string {
    match id
    case Numeric(n) => NatToText(n)
    case AlphaNumeric(t) => t
  }

  function IdentifierTexts(ids: seq<Identifier>): (r: seq<string>)
    ensures |r| == |ids|
  {
    seq(|ids|, k requires 0 <= k < |ids| => IdentifierText(ids[k]))
  }

  /** One dot-separated pre-release identifier; `None` when section 9 forbids it. */
  function ParseIdentifier(t: string): (r: Option<Identifier>)
    ensures r.Some? ==> ValidIdentifier(r.value) && IdentifierText(r.value) == t
  {
    if |t| == 0 || !AllIdentifierChars(t) then None
    else if AllDigits(t) then
      if IsNumericText(t) then
        NatToTextOfTextToNat(t);
        Some(Numeric(TextToNat(t)))
      else None
    else Some(AlphaNumeric(t))
  }

  lemma ParseIdentifierText(id: Identifier)
    requires ValidIdentifier(id)
    ensures ParseIdentifier(IdentifierText(id)) == Some(id)
  {
    if id.Numeric? {
      TextToNatOfNatToText(id.number);
    }
  }

  /** Every piece of a pre-release, or `None` as soon as one piece is invalid. */
  function ParseIdentifiers(parts: seq<string>): (r: Option<seq<Identifier>>)
    ensures r.Some? ==> |r.value| == |parts|
    ensures r.Some? ==> forall k :: 0 <= k < |parts| ==>
      ValidIdentifier(r.value[k]) && IdentifierText(r.value[k]) == parts[k]
  {
    if parts == [] then Some([])
    else
      match ParseIdentifier(parts[0])
      case None => None
      case Some(id) =>
        match ParseIdentifiers(parts[1..])
        case None => None
        case Some(ids) => Some([id] + ids)
  }

  lemma {:induction false} ParseIdentifiersTexts(ids: seq<Identifier>)
    requires forall k :: 0 <= k < |ids| ==> ValidIdentifier(ids[k])
    ensures ParseIdentifiers(IdentifierTexts(ids)) == Some(ids)
  {
    if ids != [] {
      ParseIdentifierText(ids[0]);
      assert IdentifierTexts(ids)[1..] == IdentifierTexts(ids[1..]);
      ParseIdentifiersTexts(ids[1..]);
      assert [ids[0]] + ids[1..] == ids;
    }
  }

  // ---------------------------------------------------------------------
  // The three pieces of a version string

  /** The text before the first `-`, the pre-release after it, the build metadata after the first `+`. */
  datatype Pieces = Pieces(core: string, pre: Option<string>, build: Option<string>)

  /** Puts the pieces back together with their `-` and `+` separators. */
  function Unsplit(p: Pieces): string {
    Attach(Attach(p.core, '-', p.pre), '+', p.build)
  }

  /** Cuts a version string at its first `+`, then the head at its first `-`. */
  function Split(text: string): (p: Pieces)
    ensures Unsplit(p) == text
    ensures '-' !in p.core && '+' !in p.core
    ensures p.pre.Some? ==> '+' !in p.pre.value
  {
    var plus := Find(text, '+');
    var head := text[..plus];
    var dash := Find(head, '-');
    CutAtFirst(text, plus, '+');
    CutAtFirst(head, dash, '-');
    Pieces(head[..dash], After(head, dash), After(text, plus))
  }

  /** Appends `c` and `rest` to a `c`-free `a` when `rest` is present; `Find` then cuts back at `a`. */
  function Attach(a: string, c: char, rest: Option<string>): string {
    a + (if rest.Some? then [c] + rest.value else [])
  }

  /** What follows position `i`, when `i` is inside `t`. */
  function After(t: string, i: nat): Option<string> {
    if i < |t| then Some(t[i + 1..]) else None
  }

  /** Cutting `t` at an occurrence of `c`, or at its end, and attaching the rest gives `t` back. */
  lemma CutAtFirst(t: string, i: nat, c: char)
    requires i <= |t| && (i < |t| ==> t[i] == c)
    ensures Attach(t[..i], c, After(t, i)) == t
  {
    if i < |t| {
      assert t[..i] + [c] + t[i + 1..] == t;
    } else {
      assert t[..i] == t;
    }
  }

  lemma CutAttached(a: string, c: char, rest: Option<string>)
    requires c !in a
    ensures Find(Attach(a, c, rest), c) == |a|
    ensures Attach(a, c, rest)[..|a|] == a
    ensures rest.Some? ==> Attach(a, c, rest)[|a| + 1..] == rest.value
  {
    var t := Attach(a, c, rest);
    if rest.Some? {
      assert t == a + [c] + rest.value;
      FindAt(a, c, rest.value);
      assert t[|a| + 1..] == rest.value;
    } else {
      assert t == a;
      FindAbsent(a, c);
    }
    assert t[..|a|] == a;
  }

  /** Pieces that carry no stray separator are exactly what `Split` recovers. */
  lemma SplitUnsplit(p: Pieces)
    requires '-' !in p.core && '+' !in p.core
    requires p.pre.Some? ==> '+' !in p.pre.value
    ensures Split(Unsplit(p)) == p
  {
    var head := Attach(p.core, '-', p.pre);
    assert '+' !in head;
    assert Unsplit(p) == Attach(head, '+', p.build);
    CutAttached(head, '+', p.build);
    CutAttached(p.core, '-', p.pre);
  }

  lemma {:induction false} JoinAvoids(parts: seq<string>, c: char, x: char)
    requires x != c
    requires forall k :: 0 <= k < |parts| ==> x !in parts[k]
    ensures x !in Join(parts, c)
  {
    if |parts| > 1 {
      JoinAvoids(parts[1..], c, x);
    }
  }

  // ---------------------------------------------------------------------
  // Each piece on its own

  function CoreText(major: nat, minor: nat, patch: nat): string {
    Join([NatToText(major), NatToText(minor), NatToText(patch)], '.')
  }

  /** `MAJOR.MINOR.PATCH`, three numerals without leading zeroes (section 2). */
  function ParseCore(text: string): (r: Option<(nat, nat, nat)>)
    ensures r.Some? ==> CoreText(r.value.0, r.value.1, r.value.2) == text
  {
    var parts := SplitOn(text, '.');
    if |parts| == 3 && IsNumericText(parts[0]) && IsNumericText(parts[1]) && IsNumericText(parts[2]) then
      NatToTextOfTextToNat(parts[0]);
      NatToTextOfTextToNat(parts[1]);
      NatToTextOfTextToNat(parts[2]);
      assert [NatToText(TextToNat(parts[0])), NatToText(TextToNat(parts[1])), NatToText(TextToNat(parts[2]))] == parts;
      Some((TextToNat(parts[0]), TextToNat(parts[1]), TextToNat(parts[2])))
    else None
  }

  lemma ParseCoreText(major: nat, minor: nat, patch: nat)
    ensures ParseCore(CoreText(major, minor, patch)) == Some((major, minor, patch))
    ensures '-' !in CoreText(major, minor, patch) && '+' !in CoreText(major, minor, patch)
  {
    var texts := [NatToText(major), NatToText(minor), NatToText(patch)];
    JoinAvoids(texts, '.', '-');
    JoinAvoids(texts, '.', '+');
    SplitJoin(texts, '.');
    TextToNatOfNatToText(major);
    TextToNatOfNatToText(minor);
    TextToNatOfNatToText(patch);
  }

  /** The text of a pre-release, `None` when there is none. */
  function PreText(pre: seq<Identifier>): Option<string> {
    if pre == [] then None else Some(Join(IdentifierTexts(pre), '.'))
  }

  /** A pre-release: dot-separated identifiers, none of them empty (section 9). */
  function ParsePre(text: Option<string>): (r: Option<seq<Identifier>>)
    ensures r.Some? ==> PreText(r.value) == text
    ensures r.Some? ==> forall k :: 0 <= k < |r.value| ==> ValidIdentifier(r.value[k])
  {
    match text
    case None => Some([])
    case Some(t) =>
      var parts := SplitOn(t, '.');
      var r := ParseIdentifiers(parts);
      if r.Some? then
        assert IdentifierTexts(r.value) == parts;
        r
      else None
  }

  lemma ParsePreText(pre: seq<Identifier>)
    requires forall k :: 0 <= k < |pre| ==> ValidIdentifier(pre[k])
    ensures ParsePre(PreText(pre)) == Some(pre)
    ensures PreText(pre).Some? ==> '+' !in PreText(pre).value
  {
    if pre != [] {
      var texts := IdentifierTexts(pre);
      forall k | 0 <= k < |pre| ensures '.' !in texts[k] && '+' !in texts[k] {
        assert ValidIdentifier(pre[k]);
      }
      SplitJoin(texts, '.');
      ParseIdentifiersTexts(pre);
      JoinAvoids(texts, '.', '+');
    }
  }

  /** The text of the build metadata, `None` when there is none. */
  function BuildText(build: seq<string>): Option<string> {
    if build == [] then None else Some(Join(build, '.'))
  }

  /** Build metadata: dot-separated identifiers, none of them empty (section 10). */
  function ParseBuild(text: Option<string>): (r: Option<seq<string>>)
    ensures r.Some? ==> BuildText(r.value) == text
    ensures r.Some? ==> forall k :: 0 <= k < |r.value| ==> IsBuildText(r.value[k])
  {
    match text
    case None => Some([])
    case Some(t) =>
      var parts := SplitOn(t, '.');
      if forall k :: 0 <= k < |parts| ==> IsBuildText(parts[k]) then Some(parts) else None
  }

  lemma ParseBuildText(build: seq<string>)
    requires forall k :: 0 <= k < |build| ==> IsBuildText(build[k])
    ensures ParseBuild(BuildText(build)) == Some(build)
  {
    if build != [] {
      forall k | 0 <= k < |build| ensures '.' !in build[k] {
        assert IsBuildText(build[k]);
      }
      SplitJoin(build, '.');
    }
  }

  // ---------------------------------------------------------------------
  // Whole versions

  function PiecesOf(v: Version): Pieces {
    Pieces(CoreText(v.major, v.minor, v.patch), PreText(v.pre), BuildText(v.build))
  }

  /** `str(version)`: `MAJOR.MINOR.PATCH`, then `-pre` and `+build` when present. */
  function Format(v: Version): string {
    Unsplit(PiecesOf(v))
  }

  /** Parses `text` against the grammar of sections 2, 9 and 10 of Semantic Versioning 2.0.0. */
  function Parse(text: string): Option<Version> {
    var p := Split(text);
    match (ParseCore(p.core), ParsePre(p.pre), ParseBuild(p.build))
    case (Some(core), Some(pre), Some(build)) => Some(Version(core.0, core.1, core.2, pre, build))
    case _ => None
  }

  /** Every version the parser returns is well-formed and prints back as the text it came from. */
  lemma ParseThenFormat(text: string, v: Version)
    requires Parse(text) == Some(v)
    ensures ValidVersion(v)
    ensures Format(v) == text
  {
    assert PiecesOf(v) == Split(text);
  }

  /** Every well-formed version parses back from the text it prints as. */
  lemma FormatThenParse(v: Version)
    requires ValidVersion(v)
    ensures Parse(Format(v)) == Some(v)
  {
    ParseCoreText(v.major, v.minor, v.patch);
    ParsePreText(v.pre);
    ParseBuildText(v.build);
    SplitUnsplit(PiecesOf(v));
  }
}
