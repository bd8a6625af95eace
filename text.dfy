/**
 * String primitives that the backend (Python) and the browser script
 * (JavaScript) rely on: the two languages' notions of whitespace, trimming,
 * lower-casing and substring search.
 */
module Text {

  /** Python's `str.isspace()`, which is also what `\s` matches in a `str`
      regular expression: ASCII \t \n \v \f \r, the separators \x1c-\x1f,
      space, and the Unicode whitespace characters. */
  predicate IsPySpace(c: char) {
    ('\t' <= c <= '\r') || ('\U{1C}' <= c <= ' ') || c == '\U{85}' || c == '\U{A0}'
    || c == '\U{1680}' || ('\U{2000}' <= c <= '\U{200A}') || c == '\U{2028}' || c == '\U{2029}'
    || c == '\U{202F}' || c == '\U{205F}' || c == '\U{3000}'
  }

  /** The characters JavaScript's `String.prototype.trim` removes: WhiteSpace
      (\t \v \f space, NBSP, ZWNBSP and the Zs separators) and LineTerminator
      (\n \r LS PS). Unlike Python it keeps \x1c-\x1f and \x85. */
  predicate IsJsSpace(c: char) {
    ('\t' <= c <= '\r') || c == ' ' || c == '\U{A0}' || c == '\U{FEFF}'
    || c == '\U{1680}' || ('\U{2000}' <= c <= '\U{200A}') || c == '\U{2028}' || c == '\U{2029}'
    || c == '\U{202F}' || c == '\U{205F}' || c == '\U{3000}'
  }

  /** Drops the longest prefix of `ws` characters. */
  function TrimStart(s: string, ws: char -> bool): string
  {
    if s != [] && ws(s[0]) then TrimStart(s[1..], ws) else s
  }

  /** Drops the longest suffix of `ws` characters. */
  function TrimEnd(s: string, ws: char -> bool): string
  {
    if s != [] && ws(s[|s| - 1]) then TrimEnd(s[..|s| - 1], ws) else s
  }

  /** `TrimStart` keeps a suffix, drops only `ws` characters, and stops at
      the first character that is not one. */
  lemma {:induction false} TrimStartSpec(s: string, ws: char -> bool)
    ensures var r := TrimStart(s, ws);
      && |r| <= |s| && r == s[|s| - |r|..]
      && (forall k :: 0 <= k < |s| - |r| ==> ws(s[k]))
      && (r == [] || !ws(r[0]))
  {
    if s != [] && ws(s[0]) {
      var tail := s[1..];
      TrimStartSpec(tail, ws);
      var r := TrimStart(tail, ws);
      assert tail[|tail| - |r|..] == s[|s| - |r|..];
      forall k | 1 <= k < |s| - |r| ensures ws(s[k]) {
        assert s[k] == tail[k - 1];
      }
    }
  }

  /** `TrimEnd` keeps a prefix, drops only `ws` characters, and stops at
      the last character that is not one. */
  lemma {:induction false} TrimEndSpec(s: string, ws: char -> bool)
    ensures var r := TrimEnd(s, ws);
      && |r| <= |s| && r == s[..|r|]
      && (forall k :: |r| <= k < |s| ==> ws(s[k]))
      && (r == [] || !ws(r[|r| - 1]))
  {
    if s != [] && ws(s[|s| - 1]) {
      var init := s[..|s| - 1];
      TrimEndSpec(init, ws);
      var r := TrimEnd(init, ws);
      assert init[..|r|] == s[..|r|];
      forall k | |r| <= k < |s| - 1 ensures ws(s[k]) {
        assert s[k] == init[k];
      }
    }
  }

  /** Removes `ws` characters at both ends. */
  function Trim(s: string, ws: char -> bool): (r: string)
  {
    TrimEnd(TrimStart(s, ws), ws)
  }

  /** `str.strip()` with no argument. */
  function PyStrip(s: string): string { Trim(s, IsPySpace) }

  /** `String.prototype.trim()`. */
  function JsTrim(s: string): string { Trim(s, IsJsSpace) }

  /** Trimming keeps exactly the middle slice of `s` between two runs of
      whitespace. */
  lemma TrimIsSlice(s: string, ws: char -> bool)
    ensures exists i, j ::
              0 <= i <= j <= |s| && Trim(s, ws) == s[i..j]
              && (forall k :: 0 <= k < i ==> ws(s[k]))
              && (forall k :: j <= k < |s| ==> ws(s[k]))
  {
    var t := TrimStart(s, ws);
    var r := TrimEnd(t, ws);
    TrimStartSpec(s, ws);
    TrimEndSpec(t, ws);
    var i := |s| - |t|;
    var j := i + |r|;
    assert r == s[i..j];
    forall k | j <= k < |s| ensures ws(s[k]) {
      assert s[k] == t[k - i];
    }
  }

  /** What trimming leaves neither starts nor ends with whitespace. */
  lemma TrimEnds(s: string, ws: char -> bool)
    ensures var r := Trim(s, ws); r == [] || (!ws(r[0]) && !ws(r[|r| - 1]))
  {
    var t := TrimStart(s, ws);
    TrimStartSpec(s, ws);
    TrimEndSpec(t, ws);
  }

  /** A string with no whitespace at either end is its own trim. */
  lemma TrimOfTrimmed(s: string, ws: char -> bool)
    requires s == [] || (!ws(s[0]) && !ws(s[|s| - 1]))
    ensures Trim(s, ws) == s
  {
  }

  /** A string is its own trim exactly when it has no whitespace at either end. */
  lemma TrimFixedIff(s: string, ws: char -> bool)
    ensures Trim(s, ws) == s <==> s == [] || (!ws(s[0]) && !ws(s[|s| - 1]))
  {
    if s != [] && (!ws(s[0]) && !ws(s[|s| - 1])) {
      TrimOfTrimmed(s, ws);
    }
    TrimEnds(s, ws);
  }

  /** Trimming twice is trimming once (the second `.strip()` at app.py:103 changes nothing). */
  lemma TrimIdempotent(s: string, ws: char -> bool)
    ensures Trim(Trim(s, ws), ws) == Trim(s, ws)
  {
    TrimEnds(s, ws);
    TrimOfTrimmed(Trim(s, ws), ws);
  }

  /** Only whitespace trims to nothing: the test `message === ''` after `trim()`. */
  lemma TrimEmptyIff(s: string, ws: char -> bool)
    ensures Trim(s, ws) == [] <==> forall k :: 0 <= k < |s| ==> ws(s[k])
  {
    var t := TrimStart(s, ws);
    TrimStartSpec(s, ws);
    TrimEndSpec(t, ws);
    assert t != [] ==> t[0] == s[|s| - |t|];
  }

  /** `s` is non-empty and has no Python whitespace at either end: what
      `str.strip()` leaves of a string that is not blank. */
  predicate Stripped(s: string) {
    s != [] && !IsPySpace(s[0]) && !IsPySpace(s[|s| - 1])
  }

  /** `s` is non-empty and has no JavaScript whitespace at either end: what
      `trim()` leaves of a string that is not blank. */
  predicate JsTrimmed(s: string) {
    s != [] && !IsJsSpace(s[0]) && !IsJsSpace(s[|s| - 1])
  }

  /** ASCII lower-casing; every other character is left as it is. */
  function Lower(c: char): char {
    if 'A' <= c <= 'Z' then (c as int - 'A' as int + 'a' as int) as char else c
  }

  /** `str.lower()`, character by character. */
  function LowerStr(s: string): (r: string)
    ensures |r| == |s|
    ensures forall k :: 0 <= k < |s| ==> r[k] == Lower(s[k])
  {
    if s == [] then [] else [Lower(s[0])] + LowerStr(s[1..])
  }

  /** Lower-casing twice is lower-casing once. */
  lemma LowerStrIdempotent(s: string)
    ensures LowerStr(LowerStr(s)) == LowerStr(s)
  {
    assert forall k :: 0 <= k < |s| ==> Lower(Lower(s[k])) == Lower(s[k]);
  }

  /** `p` occurs at the start of `s`. */
  predicate StartsWith(s: string, p: string) {
    |p| <= |s| && s[..|p|] == p
  }

  /** Python's `k in s` for strings: `k` occurs somewhere in `s`. */
  predicate Contains(s: string, k: string) {
    exists i :: 0 <= i <= |s| - |k| && OccursAt(s, k, i)
  }

  /** `k` occurs in `s` starting at index `i`. */
  predicate OccursAt(s: string, k: string, i: int) {
    0 <= i && i + |k| <= |s| && s[i..i + |k|] == k
  }

  /** Whatever contains a string contains each of its substrings. */
  lemma ContainsTransitive(s: string, k: string, part: string, at: nat)
    requires Contains(s, k)
    requires at + |part| <= |k| && k[at..at + |part|] == part
    ensures Contains(s, part)
  {
    var i :| 0 <= i <= |s| - |k| && OccursAt(s, k, i);
    forall m | 0 <= m < |part| ensures s[i + at + m] == part[m] {
      assert s[i + at + m] == s[i..i + |k|][at + m] == k[at..at + |part|][m];
    }
    assert OccursAt(s, part, i + at);
  }

  /** A slice of a slice is a slice of the original. */
  lemma SliceOfSlice(s: string, i: nat, j: nat, a: nat, b: nat)
    requires i <= j <= |s| && a <= b <= j - i
    ensures s[i..j][a..b] == s[i + a..i + b]
  {
    forall m | 0 <= m < b - a ensures s[i..j][a..b][m] == s[i + a..i + b][m] {
      assert s[i..j][a..b][m] == s[i..j][a + m] == s[i + a + m];
    }
  }
}
