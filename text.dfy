/**
 * The character classes and string operations of JavaScript that the
 * publisher relies on: the white-space class `\s` (which is also the set of
 * characters `String.prototype.trim` removes), `trim` itself, and the
 * case folding of a case-insensitive regular expression.
 */
module Text {

  /** JavaScript's white space and line terminators: the class `\s`. */
  predicate IsSpace(c: char) {
    c == '\t' || c == '\n' || c == '\U{B}' || c == '\U{C}' || c == '\r' || c == ' '
    || c == '\U{A0}' || c == '\U{1680}' || ('\U{2000}' <= c <= '\U{200A}')
    || c == '\U{2028}' || c == '\U{2029}' || c == '\U{202F}' || c == '\U{205F}'
    || c == '\U{3000}' || c == '\U{FEFF}'
  }

  /**
   * The same class listed character by character: the white-space characters
   * (tab, vertical tab, form feed, space, no-break space, the byte order mark
   * and the space separators of Unicode) and the line terminators.
   */
  const SpaceChars: set<char> := {
    '\t', '\U{B}', '\U{C}', ' ', '\U{A0}', '\U{FEFF}',
    '\U{1680}', '\U{2000}', '\U{2001}', '\U{2002}', '\U{2003}', '\U{2004}', '\U{2005}',
    '\U{2006}', '\U{2007}', '\U{2008}', '\U{2009}', '\U{200A}', '\U{202F}', '\U{205F}',
    '\U{3000}',
    '\n', '\r', '\U{2028}', '\U{2029}'
  }

  /** `IsSpace` holds for exactly the listed characters. */
  lemma IsSpaceExactly(c: char)
    ensures IsSpace(c) <==> c in SpaceChars
  {
    if '\U{2000}' <= c <= '\U{200A}' {
      assert c as int - 0x2000 in {0, 1, 2, 3, 4, 5, 6, 7, 8, 9, 10};
    }
  }

  /** Every character of `s[i..j]` is white space. */
  ghost predicate AllSpaceIn(s: string, i: nat, j: nat)
    requires i <= j <= |s|
  {
    forall k :: i <= k < j ==> IsSpace(s[k])
  }

  ghost predicate AllSpace(s: string) {
    forall k :: 0 <= k < |s| ==> IsSpace(s[k])
  }

  /** The end of the run of white space that starts at `i`. */
  function SkipSpace(s: string, i: nat): (e: nat)
    requires i <= |s|
    ensures i <= e <= |s| && AllSpaceIn(s, i, e)
    ensures e == |s| || !IsSpace(s[e])
    decreases |s| - i
  {
    if i < |s| && IsSpace(s[i]) then SkipSpace(s, i + 1) else i
  }

  /** The run found by SkipSpace is the longest: it covers every all-space stretch from `i`. */
  lemma SkipSpaceMaximal(s: string, i: nat, j: nat)
    requires i <= j <= |s| && AllSpaceIn(s, i, j)
    ensures j <= SkipSpace(s, i)
  {
  }

  /** The start of the run of white space that ends just before `j`. */
  function SkipSpaceBack(s: string, j: nat): (b: nat)
    requires j <= |s|
    ensures b <= j && AllSpaceIn(s, b, j)
    ensures b == 0 || !IsSpace(s[b - 1])
  {
    if 0 < j && IsSpace(s[j - 1]) then SkipSpaceBack(s, j - 1) else j
  }

  /**
   * `String.prototype.trim`: `s` without its leading and trailing white
   * space. The result is the slice of `s` between two all-space margins,
   * and it neither starts nor ends with white space.
   */
  function Trim(s: string): (r: string)
    ensures r == "" <==> AllSpace(s)
    ensures r != "" ==> !IsSpace(r[0]) && !IsSpace(r[|r| - 1])
    ensures exists i, j :: 0 <= i <= j <= |s| && r == s[i..j]
                           && AllSpaceIn(s, 0, i) && AllSpaceIn(s, j, |s|)
  {
    var i := SkipSpace(s, 0);
    if i == |s| then
      assert AllSpaceIn(s, |s|, |s|);
      ""
    else
      var j := SkipSpaceBack(s, |s|);
      assert !IsSpace(s[i]);
      s[i..j]
  }

  /** A string that neither starts nor ends with whitespace is its own trim. */
  lemma TrimUnchanged(s: string)
    requires s == "" || (!IsSpace(s[0]) && !IsSpace(s[|s| - 1]))
    ensures Trim(s) == s
  {
    if s != "" {
      assert SkipSpace(s, 0) == 0;
      assert SkipSpaceBack(s, |s|) == |s|;
      assert s[0..|s|] == s;
    }
  }

  /** Trimming twice is trimming once. */
  lemma TrimIdempotent(s: string)
    ensures Trim(Trim(s)) == Trim(s)
  {
    TrimUnchanged(Trim(s));
  }

  /** Upper-casing of ASCII letters; every other character is its own fold. */
  function Upper(c: char): (u: char)
    ensures ('a' <= c <= 'z') ==> u as int == c as int - 32
    ensures !('a' <= c <= 'z') ==> u == c
  {
    if 'a' <= c <= 'z' then (c as int - 32) as char else c
  }

  /** Two characters are equal up to ASCII case. */
  predicate SameLetter(a: char, b: char) {
    Upper(a) == Upper(b)
  }

  /** Two strings are equal up to ASCII case. */
  predicate SameIgnoringCase(a: string, b: string) {
    |a| == |b| && forall k :: 0 <= k < |a| ==> SameLetter(a[k], b[k])
  }
}
