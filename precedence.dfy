/**
 * Precedence of Semantic Versioning 2.0.0 (section 11) and the stable sort
 * the crawler applies to a repository's versions. Build metadata plays no
 * part in precedence, so two versions that differ only in their build
 * metadata are equal for the sort, which keeps them in input order.
 */
module Precedence {
  import opened SemVer

  function CompareNat(a: nat, b: nat): int {
    if a < b then -1 else if a > b then 1 else 0
  }

  /** Lexical order of two strings by character code (ASCII order for identifier text). */
  function CompareText(a: string, b: string): (r: int)
    ensures -1 <= r <= 1
    ensures r == 0 <==> a == b
  {
    if a == [] && b == [] then 0
    else if a == [] then -1
    else if b == [] then 1
    else if a[0] < b[0] then -1
    else if a[0] > b[0] then 1
    else
      var r := CompareText(a[1..], b[1..]);
      assert a == [a[0]] + a[1..] && b == [b[0]] + b[1..];
      r
  }

  /** Item 11.4.1: numeric identifiers numerically, others lexically, numeric below alphanumeric. */
  function CompareIdentifier(a: Identifier, b: Identifier): (r: int)
    ensures -1 <= r <= 1
    ensures r == 0 <==> a == b
  {
    match (a, b)
    case (Numeric(x), Numeric(y)) => CompareNat(x, y)
    case (Numeric(_), AlphaNumeric(_)) => -1
    case (AlphaNumeric(_), Numeric(_)) => 1
    case (AlphaNumeric(x), AlphaNumeric(y)) => CompareText(x, y)
  }

  /** Item 11.4: identifier by identifier from the left; a proper prefix is the lower. */
  function CompareIdentifiers(a: seq<Identifier>, b: seq<Identifier>): (r: int)
    ensures -1 <= r <= 1
    ensures r == 0 <==> a == b
  {
    if a == [] && b == [] then 0
    else if a == [] then -1
    else if b == [] then 1
    else
      var c := CompareIdentifier(a[0], b[0]);
      if c != 0 then c
      else
        var r := CompareIdentifiers(a[1..], b[1..]);
        assert a == [a[0]] + a[1..] && b == [b[0]] + b[1..];
        r
  }

  /** Item 11.3: a version with a pre-release is lower than the same version without one. */
  function ComparePre(a: seq<Identifier>, b: seq<Identifier>): (r: int)
    ensures -1 <= r <= 1
    ensures r == 0 <==> a == b
  {
    if a == [] && b == [] then 0
    else if a == [] then 1
    else if b == [] then -1
    else CompareIdentifiers(a, b)
  }

  /** The part of a version that decides its precedence: everything except build metadata. */
  function Key(v: Version): (nat, nat, nat, seq<Identifier>) {
    (v.major, v.minor, v.patch, v.pre)
  }

  /**
   * Section 11: negative when `a` has lower precedence than `b`, zero when
   * they have the same precedence, positive when `a` is higher.
   */
  function Compare(a: Version, b: Version): (r: int)
    ensures -1 <= r <= 1
    ensures r == 0 <==> Key(a) == Key(b)
  {
    if a.major != b.major then CompareNat(a.major, b.major)
    else if a.minor != b.minor then CompareNat(a.minor, b.minor)
    else if a.patch != b.patch then CompareNat(a.patch, b.patch)
    else ComparePre(a.pre, b.pre)
  }

  lemma {:induction false} CompareTextAntisymmetric(a: string, b: string)
    ensures CompareText(a, b) == -CompareText(b, a)
  {
    if a != [] && b != [] && a[0] == b[0] {
      CompareTextAntisymmetric(a[1..], b[1..]);
    }
  }

  lemma {:induction false} CompareTextTransitive(a: string, b: string, c: string)
    requires CompareText(a, b) <= 0 && CompareText(b, c) <= 0
    ensures CompareText(a, c) <= 0
  {
    if a != [] && b != [] && c != [] && a[0] == b[0] == c[0] {
      CompareTextTransitive(a[1..], b[1..], c[1..]);
    }
  }

  lemma CompareIdentifierAntisymmetric(a: Identifier, b: Identifier)
    ensures CompareIdentifier(a, b) == -CompareIdentifier(b, a)
  {
    if a.AlphaNumeric? && b.AlphaNumeric? {
      CompareTextAntisymmetric(a.text, b.text);
    }
  }

  lemma CompareIdentifierTransitive(a: Identifier, b: Identifier, c: Identifier)
    requires CompareIdentifier(a, b) <= 0 && CompareIdentifier(b, c) <= 0
    ensures CompareIdentifier(a, c) <= 0
  {
    if a.AlphaNumeric? && b.AlphaNumeric? && c.AlphaNumeric? {
      CompareTextTransitive(a.text, b.text, c.text);
    }
  }

  lemma {:induction false} CompareIdentifiersAntisymmetric(a: seq<Identifier>, b: seq<Identifier>)
    ensures CompareIdentifiers(a, b) == -CompareIdentifiers(b, a)
  {
    if a != [] && b != [] {
      CompareIdentifierAntisymmetric(a[0], b[0]);
      if a[0] == b[0] {
        CompareIdentifiersAntisymmetric(a[1..], b[1..]);
      }
    }
  }

  lemma {:induction false} CompareIdentifiersTransitive(a: seq<Identifier>, b: seq<Identifier>, c: seq<Identifier>)
    requires CompareIdentifiers(a, b) <= 0 && CompareIdentifiers(b, c) <= 0
    ensures CompareIdentifiers(a, c) <= 0
  {
    if a != [] && b != [] && c != [] {
      CompareIdentifierTransitive(a[0], b[0], c[0]);
      CompareIdentifierAntisymmetric(a[0], b[0]);
      if a[0] == b[0] == c[0] {
        CompareIdentifiersTransitive(a[1..], b[1..], c[1..]);
      }
    }
  }

  /** Swapping the arguments negates the comparison; in particular any two versions are comparable. */
  lemma CompareAntisymmetric(a: Version, b: Version)
    ensures Compare(a, b) == -Compare(b, a)
  {
    if a.pre != [] && b.pre != [] {
      CompareIdentifiersAntisymmetric(a.pre, b.pre);
    }
  }

  /** "Lower or equal precedence" is transitive. */
  lemma CompareTransitive(a: Version, b: Version, c: Version)
    requires Compare(a, b) <= 0 && Compare(b, c) <= 0
    ensures Compare(a, c) <= 0
  {
    if a.major == b.major == c.major && a.minor == b.minor == c.minor && a.patch == b.patch == c.patch
      && a.pre != [] && b.pre != [] && c.pre != []
    {
      CompareIdentifiersTransitive(a.pre, b.pre, c.pre);
    }
  }

  /** Items 11.2 and 11.3: the first differing core number decides, and a larger number ranks higher. */
  lemma CoreDecides(a: Version, b: Version)
    requires a.major < b.major
          || (a.major == b.major && a.minor < b.minor)
          || (a.major == b.major && a.minor == b.minor && a.patch < b.patch)
    ensures Compare(a, b) == -1
  {
  }

  /** Item 11.3: with equal core numbers, a pre-release ranks below the release. */
  lemma PreReleaseBelowRelease(a: Version, b: Version)
    requires a.major == b.major && a.minor == b.minor && a.patch == b.patch
    requires a.pre != [] && b.pre == []
    ensures Compare(a, b) == -1
  {
  }

  /** Item 11.4.4: a pre-release extended by more identifiers ranks higher. */
  lemma {:induction false} ProperPrefixBelow(a: seq<Identifier>, b: seq<Identifier>)
    requires b != []
    ensures CompareIdentifiers(a, a + b) == -1
  {
    if a != [] {
      assert (a + b)[0] == a[0];
      assert (a + b)[1..] == a[1..] + b;
      ProperPrefixBelow(a[1..], b);
    }
  }

  /** The first differing identifier decides between two pre-releases. */
  lemma {:induction false} FirstDifferenceDecides(p: seq<Identifier>, x: Identifier, y: Identifier,
                                                  a: seq<Identifier>, b: seq<Identifier>)
    requires x != y
    ensures CompareIdentifiers(p + [x] + a, p + [y] + b) == CompareIdentifier(x, y)
  {
    if p != [] {
      assert (p + [x] + a)[0] == p[0] && (p + [y] + b)[0] == p[0];
      assert (p + [x] + a)[1..] == p[1..] + [x] + a;
      assert (p + [y] + b)[1..] == p[1..] + [y] + b;
      FirstDifferenceDecides(p[1..], x, y, a, b);
    } else {
      assert (p + [x] + a)[0] == x && (p + [y] + b)[0] == y;
    }
  }

  /** Version 1.0.0 with the given pre-release. */
  function OnePre(pre: seq<Identifier>): Version {
    Version(1, 0, 0, pre, [])
  }

  /**
   * The example of item 11.4.4: 1.0.0-alpha < 1.0.0-alpha.1 < 1.0.0-alpha.beta
   * < 1.0.0-beta < 1.0.0-beta.2 < 1.0.0-beta.11 < 1.0.0-rc.1 < 1.0.0.
   */
  lemma PrecedenceChain()
    ensures var alpha, beta, rc := AlphaNumeric("alpha"), AlphaNumeric("beta"), AlphaNumeric("rc");
      && Compare(OnePre([alpha]), OnePre([alpha, Numeric(1)])) == -1
      && Compare(OnePre([alpha, Numeric(1)]), OnePre([alpha, beta])) == -1
      && Compare(OnePre([alpha, beta]), OnePre([beta])) == -1
      && Compare(OnePre([beta]), OnePre([beta, Numeric(2)])) == -1
      && Compare(OnePre([beta, Numeric(2)]), OnePre([beta, Numeric(11)])) == -1
      && Compare(OnePre([beta, Numeric(11)]), OnePre([rc, Numeric(1)])) == -1
      && Compare(OnePre([rc, Numeric(1)]), OnePre([])) == -1
  {
    var alpha, beta, rc := AlphaNumeric("alpha"), AlphaNumeric("beta"), AlphaNumeric("rc");
    ProperPrefixBelow([alpha], [Numeric(1)]);
    FirstDifferenceDecides([alpha], Numeric(1), beta, [], []);
    assert [alpha] + [Numeric(1)] + [] == [alpha, Numeric(1)] && [alpha] + [beta] + [] == [alpha, beta];
    assert CompareText("alpha", "beta") == -1;
    FirstDifferenceDecides([], alpha, beta, [beta], []);
    ProperPrefixBelow([beta], [Numeric(2)]);
    FirstDifferenceDecides([beta], Numeric(2), Numeric(11), [], []);
    assert [beta] + [Numeric(2)] + [] == [beta, Numeric(2)] && [beta] + [Numeric(11)] + [] == [beta, Numeric(11)];
    assert CompareText("beta", "rc") == -1;
    FirstDifferenceDecides([], beta, rc, [Numeric(11)], [Numeric(1)]);
    PreReleaseBelowRelease(OnePre([rc, Numeric(1)]), OnePre([]));
  }

  // ---------------------------------------------------------------------
  // Sorting

  /** Ascending by precedence: no version is followed by one of lower precedence. */
  predicate Sorted(s: seq<Version>) {
    forall i, j :: 0 <= i < j < |s| ==> Compare(s[i], s[j]) <= 0
  }

  /** Puts `x` in front of the first element of `s` that does not have lower precedence. */
  function Insert(x: Version, s: seq<Version>): (r: seq<Version>)
    ensures multiset(r) == multiset(s) + multiset{x}
  {
    if s == [] then [x]
    else if Compare(x, s[0]) <= 0 then [x] + s
    else
      var r := [s[0]] + Insert(x, s[1..]);
      assert s == [s[0]] + s[1..];
      r
  }

  lemma {:induction false} InsertSorted(x: Version, s: seq<Version>)
    requires Sorted(s)
    ensures Sorted(Insert(x, s))
  {
    if s == [] {
    } else if Compare(x, s[0]) <= 0 {
      var r := [x] + s;
      forall i, j | 0 <= i < j < |r| ensures Compare(r[i], r[j]) <= 0 {
        if i == 0 && j > 1 {
          CompareTransitive(x, s[0], s[j - 1]);
        }
      }
    } else {
      CompareAntisymmetric(x, s[0]);
      var t := Insert(x, s[1..]);
      InsertSorted(x, s[1..]);
      var r := [s[0]] + t;
      forall i, j | 0 <= i < j < |r| ensures Compare(r[i], r[j]) <= 0 {
        if i == 0 {
          assert r[j] in multiset(t);
          assert r[j] == x || r[j] in multiset(s[1..]);
          if r[j] != x {
            var m :| 0 <= m < |s[1..]| && s[1..][m] == r[j];
            assert s[m + 1] == r[j];
          }
        }
      }
    }
  }

  /**
   * Python's `sorted` on versions: ascending by precedence, and a
   * permutation of its input, so nothing is added and duplicates are kept.
   */
  function Sort(s: seq<Version>): (r: seq<Version>)
    ensures Sorted(r)
    ensures multiset(r) == multiset(s)
  {
    if s == [] then []
    else
      var t := Sort(s[1..]);
      InsertSorted(s[0], t);
      assert s == [s[0]] + s[1..];
      Insert(s[0], t)
  }

  /** The elements of `s` with the same precedence as `v`, in their order in `s`. */
  function Peers(s: seq<Version>, v: Version): seq<Version> {
    if s == [] then []
    else (if Compare(s[0], v) == 0 then [s[0]] else []) + Peers(s[1..], v)
  }

  lemma PeersCons(x: Version, s: seq<Version>, v: Version)
    ensures Peers([x] + s, v) == Peers([x], v) + Peers(s, v)
  {
    assert ([x] + s)[1..] == s;
  }

  lemma {:induction false} InsertPeers(x: Version, s: seq<Version>, v: Version)
    ensures Peers(Insert(x, s), v) == Peers([x], v) + Peers(s, v)
  {
    if s == [] {
    } else if Compare(x, s[0]) <= 0 {
      PeersCons(x, s, v);
    } else {
      InsertPeers(x, s[1..], v);
      PeersPast(x, s, Insert(x, s[1..]), v);
    }
  }

  /**
   * Putting the head of `s` in front of `t`, whose peers are `x`'s and those
   * of the rest of `s`, moves it past `x`'s peers: at most one of the two
   * is a peer of `v`.
   */
  lemma PeersPast(x: Version, s: seq<Version>, t: seq<Version>, v: Version)
    requires s != [] && Compare(x, s[0]) != 0
    requires Peers(t, v) == Peers([x], v) + Peers(s[1..], v)
    ensures Peers([s[0]] + t, v) == Peers([x], v) + Peers(s, v)
  {
    var h, r := s[0], s[1..];
    calc {
      Peers([h] + t, v);
      { PeersCons(h, t, v); }
      Peers([h], v) + Peers(t, v);
      Peers([h], v) + (Peers([x], v) + Peers(r, v));
      { PeersApart(x, h, v); }
      Peers([x], v) + (Peers([h], v) + Peers(r, v));
      { PeersCons(h, r, v); }
      Peers([x], v) + Peers([h] + r, v);
      { assert [h] + r == s; }
      Peers([x], v) + Peers(s, v);
    }
  }

  /** Two versions of different precedence are never both peers of `v`. */
  lemma PeersApart(x: Version, y: Version, v: Version)
    requires Compare(x, y) != 0
    ensures Peers([x], v) == [] || Peers([y], v) == []
  {
    assert [x][1..] == [] && [y][1..] == [];
  }

  /**
   * The sort is stable: versions of equal precedence (such as `1.0.0+a` and
   * `1.0.0+b`) come out in the order they went in.
   */
  lemma {:induction false} SortStable(s: seq<Version>, v: Version)
    ensures Peers(Sort(s), v) == Peers(s, v)
  {
    if s != [] {
      calc {
        Peers(Sort(s), v);
        { assert Sort(s) == Insert(s[0], Sort(s[1..])); }
        Peers(Insert(s[0], Sort(s[1..])), v);
        { InsertPeers(s[0], Sort(s[1..]), v); }
        Peers([s[0]], v) + Peers(Sort(s[1..]), v);
        { SortStable(s[1..], v); }
        Peers([s[0]], v) + Peers(s[1..], v);
        { PeersCons(s[0], s[1..], v); assert [s[0]] + s[1..] == s; }
        Peers(s, v);
      }
    }
  }
}
