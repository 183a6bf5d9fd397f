/**
 * `cleanUpHTML`: the sanitiser applied to the markup before it is rendered.
 * It is two regular-expression replacements, each without the `g` flag, so
 * each rewrites at most its first match:
 *
 *   1. `/\bundefined\b\s*$/i`  ->  ""
 *   2. `/<\/section>\s*undefined\s*$/i`  ->  "</section>"
 *
 * Both patterns are anchored at the end, so a match is a suffix of the string.
 * Neither literal can overlap a shifted copy of itself, so each pattern has at
 * most one match, and the rewrites below locate it from the end of the string
 * after skipping trailing white space. The predicates `TrailingUndefinedAt` and
 * `TrailingSectionUndefinedAt` are the regular expressions' own meaning; the
 * rewrites are proved to agree with them.
 */
module Sanitize {
  import opened Wrappers

  /** White space as `\s` and `String.prototype.trim` understand it (WhiteSpace and LineTerminator). */
  predicate IsSpace(c: char)
  {
    || c == ' ' || c == '\t' || c == '\n' || c == '\r' || c == '\U{000B}' || c == '\U{000C}'
    || c == '\U{00A0}' || c == '\U{1680}' || ('\U{2000}' <= c <= '\U{200A}')
    || c == '\U{2028}' || c == '\U{2029}' || c == '\U{202F}' || c == '\U{205F}'
    || c == '\U{3000}' || c == '\U{FEFF}'
  }

  /** A word character as `\w` and `\b` understand it: `[A-Za-z0-9_]`. */
  predicate IsWordChar(c: char)
  {
    ('a' <= c <= 'z') || ('A' <= c <= 'Z') || ('0' <= c <= '9') || c == '_'
  }

  /** Upper case of an ASCII letter; any other character is its own upper case. */
  function Upper(c: char): char
  {
    if 'a' <= c <= 'z' then (c as int - 32) as char else c
  }

  const Undefined: string := "undefined"
  const SectionClose: string := "</section>"

  /**
   * The lower-case literal `pat` occurs at index i of s, ignoring case. Without
   * the `u` flag, `/i` only lets an ASCII letter match its other case.
   */
  predicate MatchesAt(s: string, i: int, pat: string)
  {
    0 <= i && i + |pat| <= |s| &&
    forall k :: 0 <= k < |pat| ==> s[i + k] == pat[k] || s[i + k] == Upper(pat[k])
  }

  /** Every character of s in [i, j) is white space. */
  predicate AllSpaceBetween(s: string, i: int, j: int)
  {
    forall k :: i <= k < j && 0 <= k < |s| ==> IsSpace(s[k])
  }

  /** The match of `/\bundefined\b\s*$/i` at index p. */
  predicate TrailingUndefinedAt(s: string, p: int)
  {
    && MatchesAt(s, p, Undefined)
    && AllSpaceBetween(s, p + 9, |s|)
    && (p == 0 || !IsWordChar(s[p - 1]))
  }

  /** The match of `/<\/section>\s*undefined\s*$/i` at index p, with the word at index q. */
  predicate TrailingSectionUndefinedAt(s: string, p: int, q: int)
  {
    && MatchesAt(s, p, SectionClose)
    && p + 10 <= q
    && AllSpaceBetween(s, p + 10, q)
    && MatchesAt(s, q, Undefined)
    && AllSpaceBetween(s, q + 9, |s|)
  }

  /**
   * The length of s[..n] without its trailing white space: the unique m such
   * that s[m..n] is all white space and s[m - 1] (if any) is not.
   */
  function TrimEnd(s: string, n: nat): (m: nat)
    requires n <= |s|
    ensures m <= n
    ensures AllSpaceBetween(s, m, n)
    ensures m == 0 || !IsSpace(s[m - 1])
  {
    if n > 0 && IsSpace(s[n - 1]) then TrimEnd(s, n - 1) else n
  }

  lemma TrimEndUnique(s: string, n: nat, m: nat)
    requires m <= n <= |s|
    requires AllSpaceBetween(s, m, n)
    requires m == 0 || !IsSpace(s[m - 1])
    ensures m == TrimEnd(s, n)
  {
  }

  /** A match of `undefined` followed only by white space ends where the trimmed string ends. */
  lemma WordBeforeTrailingSpace(s: string, q: int, n: nat)
    requires n <= |s|
    requires MatchesAt(s, q, Undefined) && q + 9 <= n && AllSpaceBetween(s, q + 9, n)
    ensures q + 9 == TrimEnd(s, n)
  {
    assert s[q + 8] == Undefined[8] || s[q + 8] == Upper(Undefined[8]);
    assert !IsSpace(s[q + 8]);
    TrimEndUnique(s, n, q + 9);
  }

  /** Step 1: remove a trailing whole-word `undefined` (any case) and the white space after it. */
  function StripTrailingUndefined(s: string): (r: string)
    ensures forall p {:trigger TrailingUndefinedAt(s, p)} :: TrailingUndefinedAt(s, p) ==> r == s[..p]
    ensures (forall p {:trigger TrailingUndefinedAt(s, p)} :: !TrailingUndefinedAt(s, p)) ==> r == s
  {
    UndefinedMatchUnique(s);
    var n := TrimEnd(s, |s|);
    if n >= 9 && MatchesAt(s, n - 9, Undefined) && (n == 9 || !IsWordChar(s[n - 10])) then
      assert TrailingUndefinedAt(s, n - 9);
      s[..n - 9]
    else
      s
  }

  /** The first regular expression has at most one match: it ends where the trimmed string ends. */
  lemma UndefinedMatchUnique(s: string)
    ensures forall p {:trigger TrailingUndefinedAt(s, p)} :: TrailingUndefinedAt(s, p) ==> p == TrimEnd(s, |s|) - 9
  {
    forall p | TrailingUndefinedAt(s, p) ensures p == TrimEnd(s, |s|) - 9 {
      WordBeforeTrailingSpace(s, p, |s|);
    }
  }

  /** Step 2: collapse a trailing `</section>`, white space, `undefined`, white space into `</section>`. */
  function CollapseSectionUndefined(s: string): (r: string)
    ensures forall p, q {:trigger TrailingSectionUndefinedAt(s, p, q)} ::
      TrailingSectionUndefinedAt(s, p, q) ==> r == s[..p] + SectionClose
    ensures (forall p, q {:trigger TrailingSectionUndefinedAt(s, p, q)} :: !TrailingSectionUndefinedAt(s, p, q)) ==> r == s
  {
    SectionMatchUnique(s);
    var n := TrimEnd(s, |s|);
    if n >= 9 && MatchesAt(s, n - 9, Undefined) then
      var m := TrimEnd(s, n - 9);
      if m >= 10 && MatchesAt(s, m - 10, SectionClose) then
        assert TrailingSectionUndefinedAt(s, m - 10, n - 9);
        s[..m - 10] + SectionClose
      else
        s
    else
      s
  }

  /** The second regular expression has at most one match, found from the end of the string. */
  lemma SectionMatchUnique(s: string)
    ensures forall p, q {:trigger TrailingSectionUndefinedAt(s, p, q)} :: TrailingSectionUndefinedAt(s, p, q) ==>
      && q == TrimEnd(s, |s|) - 9
      && p == TrimEnd(s, q) - 10
  {
    forall p, q | TrailingSectionUndefinedAt(s, p, q)
      ensures q == TrimEnd(s, |s|) - 9 && p == TrimEnd(s, q) - 10
    {
      WordBeforeTrailingSpace(s, q, |s|);
      assert s[p + 9] == SectionClose[9] || s[p + 9] == Upper(SectionClose[9]);
      assert !IsSpace(s[p + 9]);
      TrimEndUnique(s, q, p + 10);
    }
  }

  /**
   * `cleanUpHTML(html)`: `null` and `undefined` become the empty string, then
   * the two rewrites run in order. The result is never longer than the input.
   */
  function CleanUpHtml(html: Option<string>): (r: string)
    ensures html.None? ==> r == ""
    ensures html.Some? ==> |r| <= |html.value|
  {
    var s := html.GetOr("");
    StripShortens(s);
    CollapseShortens(StripTrailingUndefined(s));
    CollapseSectionUndefined(StripTrailingUndefined(s))
  }

  lemma StripShortens(s: string)
    ensures |StripTrailingUndefined(s)| <= |s|
  {
  }

  lemma CollapseShortens(s: string)
    ensures |CollapseSectionUndefined(s)| <= |s|
  {
  }

  /**
   * A trailing `undefined` in any case, at the start of the string or after a
   * non-word character, is removed together with the white space after it; the
   * white space before it is kept. Unless what is left itself ends in
   * `</section>`, white space and `undefined`, that is the sanitiser's result.
   */
  lemma {:induction false} RemovesTrailingWord(pre: string, word: string, ws: string)
    requires |word| == 9 && MatchesAt(word, 0, Undefined)
    requires AllSpaceBetween(ws, 0, |ws|)
    requires pre == [] || !IsWordChar(pre[|pre| - 1])
    ensures StripTrailingUndefined(pre + word + ws) == pre
    ensures (forall p, q {:trigger TrailingSectionUndefinedAt(pre, p, q)} :: !TrailingSectionUndefinedAt(pre, p, q)) ==>
      CleanUpHtml(Some(pre + word + ws)) == pre
  {
    var s := pre + word + ws;
    forall k | 0 <= k < 9 ensures s[|pre| + k] == word[k] { }
    forall k | |pre| + 9 <= k < |s| ensures s[k] == ws[k - |pre| - 9] { }
    assert TrailingUndefinedAt(s, |pre|);
    assert s[..|pre|] == pre;
  }

  /**
   * `xundefined`: a trailing `undefined` glued to a word character is left
   * alone, with or without white space after it.
   */
  lemma {:induction false} KeepsGluedWord(pre: string, word: string, ws: string)
    requires |word| == 9 && MatchesAt(word, 0, Undefined)
    requires AllSpaceBetween(ws, 0, |ws|)
    requires pre != [] && IsWordChar(pre[|pre| - 1])
    ensures CleanUpHtml(Some(pre + word + ws)) == pre + word + ws
  {
    var s := pre + word + ws;
    UndefinedMatchUnique(s);
    SectionMatchUnique(s);
    assert word[0 + 8] == Undefined[8] || word[0 + 8] == Upper(Undefined[8]);
    assert s[|pre| + 8] == word[8];
    assert !IsSpace(s[|pre| + 8]);
    forall k | |pre| + 9 <= k < |s| ensures IsSpace(s[k]) {
      assert s[k] == ws[k - |pre| - 9];
    }
    TrimEndUnique(s, |s|, |pre| + 9);
    assert s[|pre| - 1] == pre[|pre| - 1];
    assert !IsSpace(s[|pre| - 1]);
    assert TrimEnd(s, |pre|) == |pre|;
    assert StripTrailingUndefined(s) == s;
    assert !MatchesAt(s, |pre| - 10, SectionClose) by {
      assert s[|pre| - 1] != SectionClose[9] && s[|pre| - 1] != Upper(SectionClose[9]);
    }
  }

  /**
   * When the string, trimmed of trailing white space, does not end in
   * `undefined` (any case), neither regular expression matches, so the
   * sanitiser leaves it unchanged; `undefinedx` is such a string.
   */
  lemma KeepsStringWithoutTrailingWord(s: string)
    requires var n := TrimEnd(s, |s|); n < 9 || !MatchesAt(s, n - 9, Undefined)
    ensures forall p {:trigger TrailingUndefinedAt(s, p)} :: !TrailingUndefinedAt(s, p)
    ensures forall p, q {:trigger TrailingSectionUndefinedAt(s, p, q)} :: !TrailingSectionUndefinedAt(s, p, q)
    ensures CleanUpHtml(Some(s)) == s
  {
    UndefinedMatchUnique(s);
    SectionMatchUnique(s);
    assert StripTrailingUndefined(s) == s;
    assert CollapseSectionUndefined(s) == s;
  }

  lemma ExampleSectionClose()
    ensures CleanUpHtml(Some("<section>foo</section>undefined")) == "<section>foo</section>"
  {
    var sec := "<section>foo</section>";
    assert "<section>foo</section>undefined" == sec + Undefined + "";
    assert TrimEnd(sec, |sec|) == |sec|;
    assert sec[13 + 0] != Undefined[0] && sec[13 + 0] != Upper(Undefined[0]);
    KeepsStringWithoutTrailingWord(sec);
    RemovesTrailingWord(sec, Undefined, "");
  }

  lemma ExampleSpaceKept()
    ensures CleanUpHtml(Some("bar undefined")) == "bar "
  {
    assert "bar undefined" == "bar " + Undefined + "";
    assert TrimEnd("bar ", 4) == 3;
    KeepsStringWithoutTrailingWord("bar ");
    RemovesTrailingWord("bar ", Undefined, "");
  }

  lemma ExampleGlued()
    ensures CleanUpHtml(Some("bar undefinedx")) == "bar undefinedx"
  {
    var glued := "bar undefinedx";
    assert TrimEnd(glued, |glued|) == |glued|;
    assert glued[5 + 0] != Undefined[0] && glued[5 + 0] != Upper(Undefined[0]);
    KeepsStringWithoutTrailingWord(glued);
  }

  /** Two passes differ: the sanitiser is not idempotent. */
  lemma ExampleNotIdempotent()
    ensures CleanUpHtml(Some("a undefined undefined")) == "a undefined "
    ensures CleanUpHtml(Some("a undefined ")) == "a "
  {
    ExampleFirstPass();
    ExampleSecondPass();
  }

  lemma ExampleFirstPass()
    ensures CleanUpHtml(Some("a undefined undefined")) == "a undefined "
  {
    var once := "a undefined ";
    assert "a undefined undefined" == once + Undefined + "";
    assert TrimEnd(once, |once|) == 11;
    assert TrimEnd(once, 2) == 1;
    SectionMatchUnique(once);
    RemovesTrailingWord(once, Undefined, "");
  }

  lemma ExampleSecondPass()
    ensures CleanUpHtml(Some("a undefined ")) == "a "
  {
    assert "a undefined " == "a " + Undefined + " ";
    assert TrimEnd("a ", 2) == 1;
    KeepsStringWithoutTrailingWord("a ");
    RemovesTrailingWord("a ", Undefined, " ");
  }
}
