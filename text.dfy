/** ASCII approximations of the java.lang.String operations the services rely on:
    toLowerCase, trim, isBlank, equalsIgnoreCase, contains, split("\\s+") and
    the decimal rendering of integers done by StringBuilder.append. */
module Text {

  /** A character of the regular-expression class \s: space, \t, \n, \u000B, \f, \r. */
  predicate IsRegexSpace(c: char) {
    c == ' ' || '\t' <= c <= '\r'
  }

  /** Character.isWhitespace on ASCII: the \s characters and the separators U+001C..U+001F. */
  predicate IsWhitespace(c: char) {
    IsRegexSpace(c) || '\U{1C}' <= c <= '\U{1F}'
  }

  function LowerChar(c: char): char {
    if 'A' <= c <= 'Z' then (c as int + 32) as char else c
  }

  /** String.toLowerCase, ASCII letters only. */
  function ToLower(s: string): (r: string)
    ensures |r| == |s|
    ensures forall i :: 0 <= i < |s| ==> r[i] == LowerChar(s[i])
  {
    if s == [] then [] else [LowerChar(s[0])] + ToLower(s[1..])
  }

  /** lower is the lower-case form of upper, character by character. */
  lemma LowerName(upper: string, lower: string)
    requires |upper| == |lower| && forall i :: 0 <= i < |upper| ==> lower[i] == LowerChar(upper[i])
    ensures ToLower(upper) == lower
  {
  }

  /** String.equalsIgnoreCase, ASCII letters only. */
  predicate EqualsIgnoreCase(a: string, b: string) {
    ToLower(a) == ToLower(b)
  }

  /** String.isBlank: empty or only white space. */
  predicate IsBlank(s: string) {
    forall i :: 0 <= i < |s| ==> IsWhitespace(s[i])
  }

  /** String.trim: drops every leading and trailing character whose code is at most
      U+0020, and nothing else. */
  function Trim(s: string): (r: string)
    ensures var i := TrimStart(s);
      i + |r| <= |s| && r == s[i..i + |r|] &&
      (forall k :: 0 <= k < i ==> s[k] <= ' ') && (forall k :: i + |r| <= k < |s| ==> s[k] <= ' ')
    ensures r == [] || (r[0] > ' ' && r[|r| - 1] > ' ')
  {
    var i := TrimStart(s);
    var j := TrimEnd(s);
    if i == |s| then [] else s[i..j]
  }

  /** The number of leading characters at most U+0020. */
  function TrimStart(s: string): (i: nat)
    ensures i <= |s| && forall k :: 0 <= k < i ==> s[k] <= ' '
    ensures i < |s| ==> s[i] > ' '
  {
    if s != [] && s[0] <= ' ' then 1 + TrimStart(s[1..]) else 0
  }

  /** The end of s without its trailing characters at most U+0020; it lies past the
      first character above U+0020, when there is one. */
  function TrimEnd(s: string): (j: nat)
    ensures j <= |s| && forall k :: j <= k < |s| ==> s[k] <= ' '
    ensures j > 0 ==> s[j - 1] > ' '
    ensures forall k :: 0 <= k < |s| && s[k] > ' ' ==> k < j
  {
    if s != [] && s[|s| - 1] <= ' ' then TrimEnd(s[..|s| - 1]) else |s|
  }

  /** String.contains: t occurs in s as a contiguous substring. */
  predicate Contains(s: string, t: string)
    decreases |s|
  {
    t <= s || (s != [] && Contains(s[1..], t))
  }

  /** Contains(s, t) holds exactly when t starts at some position of s. */
  lemma ContainsAt(s: string, t: string)
    ensures Contains(s, t) <==> exists i :: 0 <= i && i + |t| <= |s| && t <= s[i..]
  {
    if Contains(s, t) {
      var i := ContainsWitness(s, t);
    }
    if exists i :: 0 <= i && i + |t| <= |s| && t <= s[i..] {
      var i :| 0 <= i && i + |t| <= |s| && t <= s[i..];
      ContainsFrom(s, t, i);
    }
  }

  lemma {:induction false} ContainsWitness(s: string, t: string) returns (i: nat)
    requires Contains(s, t)
    ensures i + |t| <= |s| && t <= s[i..]
    decreases |s|
  {
    if t <= s {
      i := 0;
    } else {
      var j := ContainsWitness(s[1..], t);
      assert s[1..][j..] == s[j + 1..];
      i := j + 1;
    }
  }

  lemma {:induction false} ContainsFrom(s: string, t: string, i: nat)
    requires i + |t| <= |s| && t <= s[i..]
    ensures Contains(s, t)
    decreases i
  {
    if i > 0 {
      assert s[1..][i - 1..] == s[i..];
      ContainsFrom(s[1..], t, i - 1);
    }
  }

  /** Length of the longest prefix of s holding no \s character. */
  function WordLength(s: string): (n: nat)
    ensures n <= |s|
    ensures forall i :: 0 <= i < n ==> !IsRegexSpace(s[i])
    ensures n < |s| ==> IsRegexSpace(s[n])
  {
    if s == [] || IsRegexSpace(s[0]) then 0 else 1 + WordLength(s[1..])
  }

  /** s with its leading \s characters removed. */
  function SkipSpaces(s: string): (r: string)
    ensures |r| <= |s|
    ensures r == [] || !IsRegexSpace(r[0])
  {
    if s != [] && IsRegexSpace(s[0]) then SkipSpaces(s[1..]) else s
  }

  /** The pieces of s around its maximal runs of \s, empty pieces included. */
  function Pieces(s: string): (r: seq<string>)
    ensures |r| > 0
    ensures forall k, i :: 0 <= k < |r| && 0 <= i < |r[k]| ==> !IsRegexSpace(r[k][i])
    decreases |s|
  {
    var n := WordLength(s);
    if n == |s| then [s] else [s[..n]] + Pieces(SkipSpaces(s[n + 1..]))
  }

  function DropTrailingEmpty(r: seq<string>): (d: seq<string>)
    ensures d <= r
    ensures d == [] || d[|d| - 1] != []
  {
    if r != [] && r[|r| - 1] == [] then DropTrailingEmpty(r[..|r| - 1]) else r
  }

  /** String.split("\\s+"): the pieces around runs of white space with trailing empty
      pieces removed; a string without any white space, the empty string included,
      yields itself as the only piece. A leading run of white space yields a leading
      empty piece. */
  function Split(s: string): (r: seq<string>)
    ensures forall k, i :: 0 <= k < |r| && 0 <= i < |r[k]| ==> !IsRegexSpace(r[k][i])
  {
    if s == [] then [[]] else DropTrailingEmpty(Pieces(s))
  }

  /** The quirk of split: a string that starts with white space and holds a word
      splits into an empty first term followed by that word. */
  lemma SplitLeadingSpace(s: string)
    requires s != [] && IsRegexSpace(s[0])
    requires exists i :: 0 <= i < |s| && !IsRegexSpace(s[i])
    ensures |Split(s)| >= 2 && Split(s)[0] == []
  {
    var i :| 0 <= i < |s| && !IsRegexSpace(s[i]);
    assert WordLength(s) == 0;
    var rest := SkipSpaces(s[1..]);
    SkipSpacesKeepsWord(s[1..], i - 1);
    assert rest != [] && !IsRegexSpace(rest[0]);
    assert WordLength(rest) > 0;
    var p := Pieces(rest);
    assert p[0] == rest[..WordLength(rest)];
    assert Pieces(s) == [[]] + p;
    DropTrailingEmptyKeeps(Pieces(s), 1);
  }

  lemma {:induction false} SkipSpacesKeepsWord(s: string, i: int)
    requires 0 <= i < |s| && !IsRegexSpace(s[i])
    ensures SkipSpaces(s) != []
    decreases |s|
  {
    if IsRegexSpace(s[0]) {
      SkipSpacesKeepsWord(s[1..], i - 1);
    }
  }

  lemma {:induction false} DropTrailingEmptyKeeps(r: seq<string>, k: nat)
    requires k < |r| && r[k] != []
    ensures |DropTrailingEmpty(r)| > k && DropTrailingEmpty(r)[..k + 1] == r[..k + 1]
    decreases |r|
  {
    if r[|r| - 1] == [] {
      DropTrailingEmptyKeeps(r[..|r| - 1], k);
    }
  }

  /** A run of characters that are all \s at least once, or none. */
  predicate NoRegexSpace(s: string) {
    forall i :: 0 <= i < |s| ==> !IsRegexSpace(s[i])
  }

  predicate AllRegexSpace(s: string) {
    forall i :: 0 <= i < |s| ==> IsRegexSpace(s[i])
  }

  /** A string without white space is its own only term (the empty string included). */
  lemma SplitNoSpace(s: string)
    requires NoRegexSpace(s)
    ensures Split(s) == [s]
  {
    if s != [] {
      assert WordLength(s) == |s| by { WordLengthOfWord(s, []); }
    }
  }

  /** A string of white space only yields no term at all. */
  lemma SplitAllSpace(sp: string)
    requires sp != [] && AllRegexSpace(sp)
    ensures Split(sp) == []
  {
    assert WordLength(sp) == 0;
    SkipSpacesOfRun(sp[1..], []);
    assert sp[1..] + [] == sp[1..];
    assert Pieces(sp) == [[], []];
  }

  /** A word, a run of white space and the rest: the word is the first term and the
      rest splits on its own. */
  lemma SplitWord(w: string, sp: string, rest: string)
    requires w != [] && NoRegexSpace(w)
    requires sp != [] && AllRegexSpace(sp)
    requires rest != [] && !IsRegexSpace(rest[0])
    ensures Split(w + sp + rest) == [w] + Split(rest)
  {
    var s := w + sp + rest;
    WordLengthOfWord(w, sp + rest);
    assert s == w + (sp + rest);
    assert s[|w| + 1..] == sp[1..] + rest;
    SkipSpacesOfRun(sp[1..], rest);
    assert Pieces(s) == [w] + Pieces(rest);
    DropTrailingEmptyAfter([w], Pieces(rest));
  }

  /** A word followed by trailing white space: the trailing empty term is dropped. */
  lemma SplitTrailingSpace(w: string, sp: string)
    requires w != [] && NoRegexSpace(w)
    requires sp != [] && AllRegexSpace(sp)
    ensures Split(w + sp) == [w]
  {
    var s := w + sp;
    WordLengthOfWord(w, sp);
    assert s[|w| + 1..] == sp[1..] + [];
    SkipSpacesOfRun(sp[1..], []);
    assert sp[1..] + [] == sp[1..];
    assert Pieces(s) == [w] + [[]];
    DropTrailingEmptyAfter([w], [[]]);
    assert DropTrailingEmpty([[]]) == [];
  }

  /** Leading white space before a word gives an empty first term. */
  lemma SplitLeadingRun(sp: string, rest: string)
    requires sp != [] && AllRegexSpace(sp)
    requires rest != [] && !IsRegexSpace(rest[0])
    ensures Split(sp + rest) == [[]] + Split(rest)
  {
    var s := sp + rest;
    assert WordLength(s) == 0;
    assert s[1..] == sp[1..] + rest;
    SkipSpacesOfRun(sp[1..], rest);
    var p := Pieces(rest);
    assert Pieces(s) == [[]] + p;
    assert p[0] != [];
    assert [[]] + p == [[], p[0]] + p[1..];
    assert p == [p[0]] + p[1..];
    DropTrailingEmptyAfter([[], p[0]], p[1..]);
    DropTrailingEmptyAfter([p[0]], p[1..]);
  }

  lemma {:induction false} WordLengthOfWord(w: string, x: string)
    requires NoRegexSpace(w)
    requires x == [] || IsRegexSpace(x[0])
    ensures WordLength(w + x) == |w|
    decreases |w|
  {
    if w != [] {
      assert (w + x)[1..] == w[1..] + x;
      WordLengthOfWord(w[1..], x);
    }
  }

  lemma {:induction false} SkipSpacesOfRun(sp: string, rest: string)
    requires AllRegexSpace(sp)
    requires rest == [] || !IsRegexSpace(rest[0])
    ensures SkipSpaces(sp + rest) == rest
    decreases |sp|
  {
    if sp == [] {
      assert sp + rest == rest;
    } else {
      assert (sp + rest)[1..] == sp[1..] + rest;
      SkipSpacesOfRun(sp[1..], rest);
    }
  }

  /** Trailing empty pieces are never dropped past a non-empty last piece of a. */
  lemma {:induction false} DropTrailingEmptyAfter(a: seq<string>, p: seq<string>)
    requires a != [] && a[|a| - 1] != []
    ensures DropTrailingEmpty(a + p) == a + DropTrailingEmpty(p)
    decreases |p|
  {
    if p == [] {
      assert a + p == a;
    } else if p[|p| - 1] == [] {
      assert (a + p)[..|a + p| - 1] == a + p[..|p| - 1];
      DropTrailingEmptyAfter(a, p[..|p| - 1]);
    }
  }

  function DigitChar(d: nat): (c: char)
    requires d < 10
    ensures '0' <= c <= '9'
  {
    (48 + d) as char
  }

  function DigitValue(c: char): int {
    c as int - 48
  }

  /** The number a string of decimal digits spells, most significant digit first. */
  function DecimalValue(s: string): int {
    if s == [] then 0 else 10 * DecimalValue(s[..|s| - 1]) + DigitValue(s[|s| - 1])
  }

  /** Decimal digits of n, as StringBuilder.append(int) writes them for n >= 0. */
  function NatToString(n: nat): (r: string)
    ensures |r| > 0
    ensures forall i :: 0 <= i < |r| ==> '0' <= r[i] <= '9'
  {
    if n < 10 then [DigitChar(n)] else NatToString(n / 10) + [DigitChar(n % 10)]
  }

  /** The digits spell n, and only zero is written with a leading '0'. */
  lemma {:induction false} NatToStringValue(n: nat)
    ensures DecimalValue(NatToString(n)) == n
    ensures NatToString(n)[0] == '0' <==> n == 0
  {
    if n >= 10 {
      NatToStringValue(n / 10);
      var p := NatToString(n / 10);
      assert (p + [DigitChar(n % 10)])[..|p|] == p;
      assert (p + [DigitChar(n % 10)])[0] == p[0];
    }
  }

  /** Decimal rendering of an int, with a leading '-' for a negative value. */
  function IntToString(n: int): (r: string)
    ensures |r| > 0
  {
    if n < 0 then "-" + NatToString(-n) else NatToString(n)
  }
}
