/**
 * The three methods of Python's `str` that the payment validator calls:
 * `replace` (every non-overlapping occurrence, scanned left to right),
 * `strip` with no argument (Unicode whitespace at both ends) and `upper`.
 */
module Strings {

  // ---------------------------------------------------------------------
  // str.replace
  // ---------------------------------------------------------------------

  /** True when `pat` occurs in `s` starting at index `i`. */
  predicate OccursAt(s: string, pat: string, i: int) {
    0 <= i && i + |pat| <= |s| && s[i..i + |pat|] == pat
  }

  /**
   * `s.replace(pat, rep)`: scanning from the left, each occurrence of `pat`
   * is replaced by `rep` and the scan resumes after it.
   */
  function Replace(s: string, pat: string, rep: string): (r: string)
    requires pat != []
    ensures |pat| == |rep| ==> |r| == |s|
    ensures (forall i :: 0 <= i < |s| ==> !OccursAt(s, pat, i)) ==> r == s
    decreases |s|
  {
    if |s| < |pat| then s
    else if s[..|pat|] == pat then
      assert OccursAt(s, pat, 0);
      rep + Replace(s[|pat|..], pat, rep)
    else
      var t := s[1..];
      assert forall i :: 0 <= i < |t| && OccursAt(t, pat, i) ==> OccursAt(s, pat, i + 1) by {
        forall i | 0 <= i < |t| && OccursAt(t, pat, i) ensures OccursAt(s, pat, i + 1) {
          assert s[i + 1..i + 1 + |pat|] == t[i..i + |pat|];
        }
      }
      [s[0]] + Replace(t, pat, rep)
  }

  /**
   * What `s.replace(p0 + p1, q0 + q1)` puts at index `i`, stated without
   * reference to the scan: the first character of an occurrence becomes
   * `q0`, the second `q1`, and every other character stays.
   */
  function PairReplacedAt(s: string, p0: char, p1: char, q0: char, q1: char, i: int): char
    requires 0 <= i < |s|
  {
    if s[i] == p0 && i + 1 < |s| && s[i + 1] == p1 then q0
    else if s[i] == p1 && 0 < i && s[i - 1] == p0 then q1
    else s[i]
  }

  /**
   * With two distinct pattern characters occurrences cannot overlap, so the
   * scan rewrites exactly the occurrences, character by character.
   */
  lemma {:induction false} ReplacePairPointwise(s: string, p0: char, p1: char, q0: char, q1: char)
    requires p0 != p1
    ensures |Replace(s, [p0, p1], [q0, q1])| == |s|
    ensures forall i :: 0 <= i < |s| ==> Replace(s, [p0, p1], [q0, q1])[i] == PairReplacedAt(s, p0, p1, q0, q1, i)
    decreases |s|
  {
    var r := Replace(s, [p0, p1], [q0, q1]);
    if |s| < 2 {
    } else if s[..2] == [p0, p1] {
      var t := s[2..];
      ReplacePairPointwise(t, p0, p1, q0, q1);
      assert r == [q0, q1] + Replace(t, [p0, p1], [q0, q1]);
      forall i | 0 <= i < |s| ensures r[i] == PairReplacedAt(s, p0, p1, q0, q1, i) {
        if i == 0 {
          assert s[0] == p0 && s[1] == p1;
        } else if i == 1 {
          assert s[0] == p0 && s[1] == p1;
        } else {
          assert r[i] == PairReplacedAt(t, p0, p1, q0, q1, i - 2);
          assert t[i - 2] == s[i];
          if i + 1 < |s| { assert t[i - 1] == s[i + 1]; }
          if i > 2 { assert t[i - 3] == s[i - 1]; } else { assert s[i - 1] == p1; }
        }
      }
    } else {
      var t := s[1..];
      ReplacePairPointwise(t, p0, p1, q0, q1);
      assert r == [s[0]] + Replace(t, [p0, p1], [q0, q1]);
      forall i | 0 <= i < |s| ensures r[i] == PairReplacedAt(s, p0, p1, q0, q1, i) {
        if i > 0 {
          assert r[i] == PairReplacedAt(t, p0, p1, q0, q1, i - 1);
          assert t[i - 1] == s[i];
          if i + 1 < |s| { assert t[i] == s[i + 1]; }
          if i > 1 { assert t[i - 2] == s[i - 1]; }
        }
      }
    }
  }

  // ---------------------------------------------------------------------
  // str.strip
  // ---------------------------------------------------------------------

  /** The characters for which Python's `str.isspace` holds. */
  predicate IsSpace(c: char) {
    c == ' ' || ('\t' <= c <= '\r') || ('\U{001C}' <= c <= '\U{001F}') ||
    c == '\U{0085}' || c == '\U{00A0}' || c == '\U{1680}' ||
    ('\U{2000}' <= c <= '\U{200A}') || c == '\U{2028}' || c == '\U{2029}' ||
    c == '\U{202F}' || c == '\U{205F}' || c == '\U{3000}'
  }

  /** `s.lstrip()`: the longest whitespace prefix removed. */
  function StripLeft(s: string): (r: string)
    ensures |r| <= |s| && r == s[|s| - |r|..]
    ensures forall i :: 0 <= i < |s| - |r| ==> IsSpace(s[i])
    ensures r != [] ==> !IsSpace(r[0])
    decreases |s|
  {
    if s != [] && IsSpace(s[0]) then StripLeft(s[1..]) else s
  }

  /** `s.rstrip()`: the longest whitespace suffix removed. */
  function StripRight(s: string): (r: string)
    ensures |r| <= |s| && r == s[..|r|]
    ensures forall i :: |r| <= i < |s| ==> IsSpace(s[i])
    ensures r != [] ==> !IsSpace(r[|r| - 1])
    decreases |s|
  {
    if s != [] && IsSpace(s[|s| - 1]) then StripRight(s[..|s| - 1]) else s
  }

  /** `s.strip()`. */
  function Strip(s: string): string {
    StripRight(StripLeft(s))
  }

  /** `s.strip()` is the slice of `s` from where the leading whitespace ends. */
  lemma StripSlice(s: string)
    ensures var a := |s| - |StripLeft(s)|;
      0 <= a <= a + |Strip(s)| <= |s| && Strip(s) == s[a..a + |Strip(s)|]
  {
    var l := StripLeft(s);
    var a := |s| - |l|;
    assert l == s[a..];
    assert Strip(s) == l[..|Strip(s)|];
  }

  /** What `s.strip()` cuts from either end is whitespace. */
  lemma StripCutsSpace(s: string)
    ensures var a := |s| - |StripLeft(s)|;
      (forall i :: 0 <= i < a ==> IsSpace(s[i])) &&
      (forall i :: a + |Strip(s)| <= i < |s| ==> IsSpace(s[i]))
  {
    var l := StripLeft(s);
    var r := StripRight(l);
    var a := |s| - |l|;
    assert l == s[a..];
    forall i | a + |r| <= i < |s| ensures IsSpace(s[i]) {
      assert |r| <= i - a < |l|;
      assert IsSpace(l[i - a]);
      assert s[i] == l[i - a];
    }
  }

  /** `s.strip()` neither starts nor ends with whitespace. */
  lemma StripEnds(s: string)
    ensures var r := Strip(s); r != [] ==> !IsSpace(r[0]) && !IsSpace(r[|r| - 1])
  {
    var l := StripLeft(s);
    var r := Strip(s);
    if r != [] {
      assert r[0] == l[0];
    }
  }

  /** Stripping twice strips nothing more. */
  lemma StripIdempotent(s: string)
    ensures Strip(Strip(s)) == Strip(s)
  {
    var r := Strip(s);
    StripEnds(s);
    assert StripLeft(r) == r;
    assert StripRight(r) == r;
  }

  /** A string with no whitespace at either end is its own strip. */
  lemma StripUnchanged(s: string)
    requires s != [] ==> !IsSpace(s[0]) && !IsSpace(s[|s| - 1])
    ensures Strip(s) == s
  {
  }

  /** A leading whitespace character does not change the strip. */
  lemma StripPastSpace(c: char, s: string)
    requires IsSpace(c)
    ensures Strip([c] + s) == Strip(s)
  {
    assert ([c] + s)[1..] == s;
  }

  /** A trailing whitespace character does not change the strip. */
  lemma StripBeforeSpace(s: string, c: char)
    requires IsSpace(c)
    ensures Strip(s + [c]) == Strip(s)
  {
    var l := StripLeft(s + [c]);
    if forall i :: 0 <= i < |s| ==> IsSpace(s[i]) {
      StripLeftAllSpace(s + [c]);
      StripLeftAllSpace(s);
    } else {
      StripLeftSnoc(s, c);
      assert (l[..|l| - 1] + [c])[..|l| - 1] == l[..|l| - 1];
    }
  }

  lemma {:induction false} StripLeftAllSpace(s: string)
    requires forall i :: 0 <= i < |s| ==> IsSpace(s[i])
    ensures StripLeft(s) == []
    decreases |s|
  {
    if s != [] {
      assert forall i :: 0 <= i < |s| - 1 ==> s[1..][i] == s[i + 1];
      StripLeftAllSpace(s[1..]);
    }
  }

  lemma {:induction false} StripLeftSnoc(s: string, c: char)
    requires exists i :: 0 <= i < |s| && !IsSpace(s[i])
    ensures StripLeft(s + [c]) == StripLeft(s) + [c]
    decreases |s|
  {
    if IsSpace(s[0]) {
      assert (s + [c])[1..] == s[1..] + [c];
      var i :| 0 <= i < |s| && !IsSpace(s[i]);
      assert i > 0 && s[1..][i - 1] == s[i];
      StripLeftSnoc(s[1..], c);
    }
  }

  // ---------------------------------------------------------------------
  // str.upper
  // ---------------------------------------------------------------------

  predicate IsAscii(c: char) {
    c < '\U{0080}'
  }

  /** ASCII upper case: `a`..`z` to `A`..`Z`, everything else unchanged. */
  function AsciiUpper(c: char): char {
    if 'a' <= c <= 'z' then (c as int - 32) as char else c
  }

  /**
   * Python's upper case of one character, for the characters whose upper
   * case consists of ASCII characters only: the ASCII letters, dotless i,
   * long s, sharp s and the Latin ligatures. Any other character is kept.
   */
  function UpperChar(c: char): string {
    if IsAscii(c) then [AsciiUpper(c)]
    else if c == '\U{0131}' then "I"
    else if c == '\U{017F}' then "S"
    else if c == '\U{00DF}' then "SS"
    else if c == '\U{FB00}' then "FF"
    else if c == '\U{FB01}' then "FI"
    else if c == '\U{FB02}' then "FL"
    else if c == '\U{FB03}' then "FFI"
    else if c == '\U{FB04}' then "FFL"
    else if c == '\U{FB05}' || c == '\U{FB06}' then "ST"
    else [c]
  }

  /** `s.upper()`, character by character. */
  function Upper(s: string): string
    decreases |s|
  {
    if s == [] then [] else UpperChar(s[0]) + Upper(s[1..])
  }

  /** On ASCII text upper-casing keeps the length and maps each character. */
  lemma {:induction false} UpperAscii(s: string)
    requires forall i :: 0 <= i < |s| ==> IsAscii(s[i])
    ensures |Upper(s)| == |s| && forall i :: 0 <= i < |s| ==> Upper(s)[i] == AsciiUpper(s[i])
    decreases |s|
  {
    if s != [] {
      var t := s[1..];
      assert forall i :: 0 <= i < |t| ==> t[i] == s[i + 1];
      UpperAscii(t);
      assert Upper(s) == [AsciiUpper(s[0])] + Upper(t);
    }
  }

  /** ASCII text without lower-case letters is its own upper case. */
  lemma UpperUnchanged(s: string)
    requires forall i :: 0 <= i < |s| ==> IsAscii(s[i]) && !('a' <= s[i] <= 'z')
    ensures Upper(s) == s
  {
    UpperAscii(s);
  }

  /**
   * Two strings are equal up to ASCII case: same length, and at each index
   * the same character or the same letter in the other case.
   */
  predicate EqualIgnoringAsciiCase(s: string, t: string) {
    |s| == |t| && forall i :: 0 <= i < |s| ==> AsciiUpper(s[i]) == AsciiUpper(t[i])
  }

  /**
   * On ASCII text, `s.upper() == w` for an upper-case word `w` holds
   * exactly when `s` spells `w` in any mixture of cases.
   */
  lemma UpperEqualsWord(s: string, w: string)
    requires forall i :: 0 <= i < |s| ==> IsAscii(s[i])
    requires forall c :: c in w ==> !('a' <= c <= 'z')
    ensures Upper(s) == w <==> EqualIgnoringAsciiCase(s, w)
  {
    UpperAscii(s);
    assert forall i :: 0 <= i < |w| ==> AsciiUpper(w[i]) == w[i] by {
      forall i | 0 <= i < |w| ensures AsciiUpper(w[i]) == w[i] {
        assert w[i] in w;
      }
    }
    if EqualIgnoringAsciiCase(s, w) {
      assert forall i :: 0 <= i < |s| ==> Upper(s)[i] == w[i];
    }
  }
}
