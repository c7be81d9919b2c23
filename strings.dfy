/**
 * The handful of Python string operations the crawler relies on:
 * `str.splitlines()`, `str.split()` with no separator, `str.startswith`,
 * `str.removeprefix`, and splitting/joining on one character (the way a
 * dotted version string is taken apart and put back together).
 */
module Strings {

  /** Characters at which Python's `str.splitlines()` ends a line. */
  predicate IsLineBreak(c: char) {
    c == '\n' || c == '\r' || c == '\U{000B}' || c == '\U{000C}' ||
    c == '\U{001C}' || c == '\U{001D}' || c == '\U{001E}' || c == '\U{0085}' ||
    c == '\U{2028}' || c == '\U{2029}'
  }

  /** Characters Python's `str.isspace()` accepts; `str.split()` splits on runs of them. */
  predicate IsSpace(c: char) {
    c == ' ' || c == '\t' || c == '\n' || c == '\r' || c == '\U{000B}' || c == '\U{000C}' ||
    c == '\U{001C}' || c == '\U{001D}' || c == '\U{001E}' || c == '\U{001F}' ||
    c == '\U{0085}' || c == '\U{00A0}' || c == '\U{1680}' ||
    ('\U{2000}' <= c <= '\U{200A}') ||
    c == '\U{2028}' || c == '\U{2029}' || c == '\U{202F}' || c == '\U{205F}' || c == '\U{3000}'
  }

  /** No character of `s` satisfies `p`. */
  predicate NoneOf(s: string, p: char -> bool) {
    forall k :: 0 <= k < |s| ==> !p(s[k])
  }

  /** Index of the first character satisfying `p`, or `|s|` when there is none. */
  function IndexWhere(s: string, p: char -> bool): (i: nat)
    ensures i <= |s|
    ensures i < |s| ==> p(s[i])
    ensures NoneOf(s[..i], p)
  {
    if s == [] then 0
    else if p(s[0]) then 0
    else
      var j := IndexWhere(s[1..], p);
      assert s[1..][..j] == s[1..j + 1];
      1 + j
  }

  /** `s` with every character satisfying `p` removed. */
  function Without(s: string, p: char -> bool): string {
    if s == [] then []
    else (if p(s[0]) then [] else [s[0]]) + Without(s[1..], p)
  }

  /** All the pieces glued together, with nothing in between. */
  function Concat(parts: seq<string>): string {
    if parts == [] then [] else parts[0] + Concat(parts[1..])
  }

  lemma {:induction false} WithoutAppend(a: string, b: string, p: char -> bool)
    ensures Without(a + b, p) == Without(a, p) + Without(b, p)
    decreases |a|
  {
    if a != [] {
      assert (a + b)[1..] == a[1..] + b;
      WithoutAppend(a[1..], b, p);
    } else {
      assert a + b == b;
    }
  }

  lemma {:induction false} WithoutNoneOf(s: string, p: char -> bool)
    requires NoneOf(s, p)
    ensures Without(s, p) == s
    decreases |s|
  {
    if s != [] {
      WithoutNoneOf(s[1..], p);
    }
  }

  /** Length of the line break that starts at `i`: `\r\n` counts as one break. */
  function BreakLength(s: string, i: nat): nat
    requires i < |s|
  {
    if s[i] == '\r' && i + 1 < |s| && s[i + 1] == '\n' then 2 else 1
  }

  lemma BreakRemoved(s: string, i: nat)
    requires i < |s| && IsLineBreak(s[i])
    ensures Without(s[i..i + BreakLength(s, i)], IsLineBreak) == []
  {
    var b := s[i..i + BreakLength(s, i)];
    assert Without(b, IsLineBreak) == Without(b[1..], IsLineBreak);
    if |b| == 2 {
      assert IsLineBreak(b[1..][0]);
      assert Without(b[1..], IsLineBreak) == Without(b[1..][1..], IsLineBreak);
    }
  }

  /**
   * Python's `str.splitlines()`: the lines of `s` without their breaks; a
   * final break does not start an empty last line, but a break that follows
   * another break yields an empty line.
   */
  function Lines(s: string): (r: seq<string>)
    ensures forall k :: 0 <= k < |r| ==> NoneOf(r[k], IsLineBreak)
    ensures Concat(r) == Without(s, IsLineBreak)
    decreases |s|
  {
    if s == [] then []
    else
      var i := IndexWhere(s, IsLineBreak);
      if i == |s| then
        assert s[..i] == s;
        WithoutNoneOf(s, IsLineBreak);
        [s]
      else
        var rest := Lines(s[i + BreakLength(s, i)..]);
        LineCut(s, i);
        assert ([s[..i]] + rest)[1..] == rest;
        [s[..i]] + rest
  }

  /** Cutting at the first line break keeps the text before it and drops the break itself. */
  lemma LineCut(s: string, i: nat)
    requires i < |s| && IsLineBreak(s[i]) && NoneOf(s[..i], IsLineBreak)
    ensures Without(s, IsLineBreak) == s[..i] + Without(s[i + BreakLength(s, i)..], IsLineBreak)
  {
    BreakRemoved(s, i);
    WithoutCut(s, i, i + BreakLength(s, i), IsLineBreak);
  }

  lemma SliceThree(s: string, i: nat, j: nat)
    requires i <= j <= |s|
    ensures s[..i] + s[i..j] + s[j..] == s
  {
    assert s[..i] + s[i..j] == s[..j];
  }

  /** Removing from `s` keeps a `p`-free prefix and drops a stretch that has only `p` characters. */
  lemma WithoutCut(s: string, i: nat, j: nat, p: char -> bool)
    requires i <= j <= |s| && NoneOf(s[..i], p) && Without(s[i..j], p) == []
    ensures Without(s, p) == s[..i] + Without(s[j..], p)
  {
    var a, b, c := s[..i], s[i..j], s[j..];
    calc {
      Without(s, p);
      { SliceThree(s, i, j); }
      Without(a + b + c, p);
      { WithoutAppend(a + b, c, p); }
      Without(a + b, p) + Without(c, p);
      { WithoutAppend(a, b, p); WithoutNoneOf(a, p); }
      a + Without(c, p);
    }
  }

  /**
   * Python's `str.split()` with no separator: the maximal runs of
   * non-whitespace characters, in order; leading, trailing and repeated
   * whitespace produce no empty field.
   */
  function Fields(s: string): (r: seq<string>)
    ensures forall k :: 0 <= k < |r| ==> r[k] != [] && NoneOf(r[k], IsSpace)
    ensures Concat(r) == Without(s, IsSpace)
    decreases |s|
  {
    if s == [] then []
    else if IsSpace(s[0]) then
      Fields(s[1..])
    else
      var j := IndexWhere(s, IsSpace);
      var rest := Fields(s[j..]);
      assert s == s[..j] + s[j..];
      WithoutAppend(s[..j], s[j..], IsSpace);
      WithoutNoneOf(s[..j], IsSpace);
      [s[..j]] + rest
  }

  /** The first position where `p` holds is the one before which it never holds. */
  lemma IndexWhereIs(s: string, p: char -> bool, i: nat)
    requires i <= |s| && (i < |s| ==> p(s[i])) && NoneOf(s[..i], p)
    ensures IndexWhere(s, p) == i
  {
    var k := IndexWhere(s, p);
    forall j | 0 <= j < i ensures !p(s[j]) {
      assert s[..i][j] == s[j];
    }
    forall j | 0 <= j < k ensures !p(s[j]) {
      assert s[..k][j] == s[j];
    }
  }

  // ---------------------------------------------------------------------
  // Where `splitlines` and `split` cut

  /** A nonempty text without line breaks is one line. */
  lemma LinesOfLine(x: string)
    requires x != [] && NoneOf(x, IsLineBreak)
    ensures Lines(x) == [x]
  {
    IndexWhereIs(x, IsLineBreak, |x|);
  }

  /**
   * A line break ends the line before it, and the text after it is split on
   * its own; a line break right after another yields an empty line.
   */
  lemma LinesAtBreak(x: string, c: char, y: string)
    requires NoneOf(x, IsLineBreak) && IsLineBreak(c)
    requires !(c == '\r' && y != [] && y[0] == '\n')
    ensures Lines(x + [c] + y) == [x] + Lines(y)
  {
    var s := x + [c] + y;
    assert s[..|x|] == x;
    IndexWhereIs(s, IsLineBreak, |x|);
    assert BreakLength(s, |x|) == 1;
    assert s[|x| + 1..] == y;
  }

  /** `\r\n` is one line break, not two. */
  lemma LinesAtCrLf(x: string, y: string)
    requires NoneOf(x, IsLineBreak)
    ensures Lines(x + ['\r', '\n'] + y) == [x] + Lines(y)
  {
    var s := x + ['\r', '\n'] + y;
    assert s[..|x|] == x;
    IndexWhereIs(s, IsLineBreak, |x|);
    assert BreakLength(s, |x|) == 2;
    assert s[|x| + 2..] == y;
  }

  /** Splitting lines joined by `\n` gives the lines back. */
  lemma {:induction false} LinesOfJoin(ls: seq<string>)
    requires forall k :: 0 <= k < |ls| ==> ls[k] != [] && NoneOf(ls[k], IsLineBreak)
    ensures Lines(Join(ls, '\n')) == ls
  {
    if |ls| == 1 {
      LinesOfLine(ls[0]);
    } else if |ls| > 1 {
      LinesAtBreak(ls[0], '\n', Join(ls[1..], '\n'));
      LinesOfJoin(ls[1..]);
      assert [ls[0]] + ls[1..] == ls;
    }
  }

  /** A concatenation avoids `p` when both parts do. */
  lemma NoneOfAppend(a: string, b: string, p: char -> bool)
    requires NoneOf(a, p) && NoneOf(b, p)
    ensures NoneOf(a + b, p)
  {
    forall k | 0 <= k < |a + b| ensures !p((a + b)[k]) {
      if k < |a| {
        assert (a + b)[k] == a[k];
      } else {
        assert (a + b)[k] == b[k - |a|];
      }
    }
  }

  /** Every line break is whitespace, so a text free of whitespace is free of line breaks. */
  lemma SpaceFreeIsBreakFree(s: string)
    requires NoneOf(s, IsSpace)
    ensures NoneOf(s, IsLineBreak)
  {
  }

  /** A nonempty word without whitespace is one field. */
  lemma FieldsOfWord(w: string)
    requires w != [] && NoneOf(w, IsSpace)
    ensures Fields(w) == [w]
  {
    assert !IsSpace(w[0]);
    assert w[..|w|] == w;
    IndexWhereIs(w, IsSpace, |w|);
    assert w[|w|..] == [];
    assert Fields([]) == [];
  }

  /** Leading whitespace is skipped. */
  lemma FieldsSkip(s: string)
    requires s != [] && IsSpace(s[0])
    ensures Fields(s) == Fields(s[1..])
  {
  }

  /** A field runs up to the first whitespace character. */
  lemma FieldsCut(s: string, j: nat)
    requires s != [] && !IsSpace(s[0]) && j == IndexWhere(s, IsSpace)
    ensures 0 < j <= |s| && Fields(s) == [s[..j]] + Fields(s[j..])
  {
  }

  /** A whitespace character separates fields: the fields before it and after it, in order. */
  lemma {:induction false} FieldsAtSpace(a: string, c: char, b: string)
    requires IsSpace(c)
    ensures Fields(a + [c] + b) == Fields(a) + Fields(b)
    decreases |a|
  {
    var s := a + [c] + b;
    if a == [] {
      FieldsSkip(s);
      assert s[1..] == b;
    } else if IsSpace(a[0]) {
      FieldsSkip(s);
      FieldsSkip(a);
      assert s[1..] == a[1..] + [c] + b;
      FieldsAtSpace(a[1..], c, b);
    } else {
      FieldsWordAtSpace(a, c, b);
    }
  }

  /** The case of `FieldsAtSpace` where the text starts with a field. */
  lemma {:induction false} FieldsWordAtSpace(a: string, c: char, b: string)
    requires IsSpace(c) && a != [] && !IsSpace(a[0])
    ensures Fields(a + [c] + b) == Fields(a) + Fields(b)
    decreases |a|, 0
  {
    var j := IndexWhere(a, IsSpace);
    FieldsCut(a, j);
    if j < |a| {
      var s := a + [c] + b;
      FieldsCutInside(a, c, b, j);
      FieldsAtSpace(a[j..], c, b);
      var head, tail, after := [a[..j]], Fields(a[j..]), Fields(b);
      calc {
        Fields(s);
        head + Fields(a[j..] + [c] + b);
        head + (tail + after);
        { ConcatAssociative(head, tail, after); }
        (head + tail) + after;
      }
    } else {
      FieldsLastWord(a, c, b);
    }
  }

  lemma ConcatAssociative<T>(x: seq<T>, y: seq<T>, z: seq<T>)
    ensures x + (y + z) == (x + y) + z
  {
  }

  /** Cutting the first field off `a + [c] + b` when `a` holds whitespace after it. */
  lemma FieldsCutInside(a: string, c: char, b: string, j: nat)
    requires a != [] && !IsSpace(a[0]) && j == IndexWhere(a, IsSpace) && j < |a|
    ensures Fields(a + [c] + b) == [a[..j]] + Fields(a[j..] + [c] + b)
  {
    var s := a + [c] + b;
    assert s[..j] == a[..j];
    assert s[j] == a[j];
    IndexWhereIs(s, IsSpace, j);
    FieldsCut(s, j);
    assert s[j..] == a[j..] + [c] + b;
  }

  /** When `a` is one field, `a + [c] + b` is that field followed by the fields of `b`. */
  lemma FieldsLastWord(a: string, c: char, b: string)
    requires IsSpace(c) && a != [] && !IsSpace(a[0]) && IndexWhere(a, IsSpace) == |a|
    ensures Fields(a + [c] + b) == Fields(a) + Fields(b)
  {
    var s := a + [c] + b;
    assert s[..|a|] == a;
    assert s[|a|] == c;
    IndexWhereIs(s, IsSpace, |a|);
    FieldsCut(s, |a|);
    assert s[|a|..] == [c] + b;
    FieldsSkip([c] + b);
    assert ([c] + b)[1..] == b;
    FieldsOfWord(a);
  }

  /** Splitting words joined by single spaces gives the words back. */
  lemma {:induction false} FieldsOfJoin(ws: seq<string>)
    requires forall k :: 0 <= k < |ws| ==> ws[k] != [] && NoneOf(ws[k], IsSpace)
    ensures Fields(Join(ws, ' ')) == ws
  {
    if |ws| == 1 {
      FieldsOfWord(ws[0]);
    } else if |ws| > 1 {
      FieldsAtSpace(ws[0], ' ', Join(ws[1..], ' '));
      FieldsOfWord(ws[0]);
      FieldsOfJoin(ws[1..]);
      assert [ws[0]] + ws[1..] == ws;
    }
  }

  /** Python's `s.startswith(prefix)`. */
  predicate StartsWith(s: string, prefix: string) {
    |prefix| <= |s| && s[..|prefix|] == prefix
  }

  /** Python's `s.removeprefix(prefix)`. */
  function RemovePrefix(s: string, prefix: string): (r: string)
    ensures StartsWith(s, prefix) ==> prefix + r == s
    ensures !StartsWith(s, prefix) ==> r == s
  {
    if StartsWith(s, prefix) then s[|prefix|..] else s
  }

  /** The pieces of `parts` separated by `c`; the inverse of `SplitOn`. */
  function Join(parts: seq<string>, c: char): string {
    if parts == [] then []
    else if |parts| == 1 then parts[0]
    else parts[0] + [c] + Join(parts[1..], c)
  }

  /** Index of the first `c` in `s`, or `|s|`. */
  function Find(s: string, c: char): (i: nat)
    ensures i <= |s|
    ensures i < |s| ==> s[i] == c
    ensures c !in s[..i]
  {
    var i := IndexWhere(s, x => x == c);
    assert forall k :: 0 <= k < i ==> s[..i][k] != c;
    i
  }

  /** Python's `s.split(c)`: the pieces of `s` between occurrences of `c`. */
  function SplitOn(s: string, c: char): (r: seq<string>)
    ensures |r| >= 1
    ensures forall k :: 0 <= k < |r| ==> c !in r[k]
    ensures Join(r, c) == s
    decreases |s|
  {
    var i := Find(s, c);
    if i == |s| then
      assert s[..i] == s;
      [s]
    else
      var rest := SplitOn(s[i + 1..], c);
      assert s == s[..i] + [c] + s[i + 1..];
      [s[..i]] + rest
  }

  lemma FindAt(a: string, c: char, b: string)
    requires c !in a
    ensures Find(a + [c] + b, c) == |a|
  {
    var s := a + [c] + b;
    assert s[|a|] == c;
    assert s[..|a|] == a;
  }

  lemma FindAbsent(a: string, c: char)
    requires c !in a
    ensures Find(a, c) == |a|
  {
  }

  /** Splitting a joined list of `c`-free pieces gives the pieces back. */
  lemma {:induction false} SplitJoin(parts: seq<string>, c: char)
    requires parts != []
    requires forall k :: 0 <= k < |parts| ==> c !in parts[k]
    ensures SplitOn(Join(parts, c), c) == parts
  {
    if |parts| == 1 {
      FindAbsent(parts[0], c);
      assert parts[0][..|parts[0]|] == parts[0];
    } else {
      var tail := Join(parts[1..], c);
      var s := parts[0] + [c] + tail;
      FindAt(parts[0], c, tail);
      assert s[..|parts[0]|] == parts[0];
      assert s[|parts[0]| + 1..] == tail;
      SplitJoin(parts[1..], c);
      assert [parts[0]] + parts[1..] == parts;
    }
  }
}
