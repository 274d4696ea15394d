/**
 * The one regular expression of src/renderer/npm.ts,
 *
 *     /require\(['"]{1}([\w\d\/\-\_]*)['"]{1}\)/
 *
 * and what `String.prototype.match` does with it when the expression has no
 * `g` flag: find the leftmost position where the whole pattern matches and
 * return the matched text together with its single capture group.
 */
module RequireRegex {
  import opened Wrappers

  /** The character class `[\w\d\/\-\_]`: `\w` without the `u` flag is ASCII. */
  predicate IsNameChar(c: char) {
    || ('a' <= c <= 'z')
    || ('A' <= c <= 'Z')
    || ('0' <= c <= '9')
    || c == '_'
    || c == '/'
    || c == '-'
  }

  /** `['"]{1}`: the opening and the closing quote are matched independently. */
  predicate IsQuote(c: char) {
    c == '\'' || c == '"'
  }

  /** A string made of class characters only (the empty string included). */
  predicate IsName(n: string) {
    forall k :: 0 <= k < |n| ==> IsNameChar(n[k])
  }

  const RequireOpen: string := "require("

  /** The length of a match whose capture is empty: `require(`, two quotes, `)`. */
  const FixedLength: nat := 11

  /**
   * Reference definition: the pattern matches `s` at position `i` with
   * `name` as its capture.
   */
  ghost predicate IsMatchAt(s: string, i: nat, name: string) {
    && i + |name| + FixedLength <= |s|
    && s[i..i + 8] == RequireOpen
    && IsQuote(s[i + 8])
    && s[i + 9..i + 9 + |name|] == name
    && IsName(name)
    && IsQuote(s[i + 9 + |name|])
    && s[i + 10 + |name|] == ')'
  }

  /** What `match` returns: the index, the whole match, and group 1. */
  datatype RegExpMatch = RegExpMatch(index: nat, whole: string, capture: string) {
    /** The match array `[whole, capture]` that the source slices. */
    function Array(): seq<string> {
      [whole, capture]
    }
  }

  /** The end of the greedy run of class characters starting at `j`. */
  function NameEnd(s: string, j: nat): (k: nat)
    requires j <= |s|
    ensures j <= k <= |s|
    ensures forall t :: j <= t < k ==> IsNameChar(s[t])
    ensures k < |s| ==> !IsNameChar(s[k])
    decreases |s| - j
  {
    if j < |s| && IsNameChar(s[j]) then NameEnd(s, j + 1) else j
  }

  /**
   * Tries the pattern at position `i` only. The greedy star takes the whole
   * run of class characters; since a quote is not a class character, giving
   * characters back can never let the closing quote match, so no
   * backtracking is needed.
   */
  function MatchAt(s: string, i: nat): (m: Option<RegExpMatch>)
    ensures m.Some? ==> m.value.index == i && IsMatchAt(s, i, m.value.capture)
    ensures m.Some? ==> m.value.whole == s[i..i + |m.value.capture| + FixedLength]
  {
    if i + 9 <= |s| && s[i..i + 8] == RequireOpen && IsQuote(s[i + 8]) then
      var k := NameEnd(s, i + 9);
      if k + 2 <= |s| && IsQuote(s[k]) && s[k + 1] == ')' then
        Some(RegExpMatch(i, s[i..k + 2], s[i + 9..k]))
      else
        None
    else
      None
  }

  /** MatchAt finds every match the reference definition admits, with the same capture. */
  lemma MatchAtComplete(s: string, i: nat, name: string)
    requires IsMatchAt(s, i, name)
    ensures MatchAt(s, i) == Some(RegExpMatch(i, s[i..i + |name| + FixedLength], name))
  {
  }

  /** The leftmost match at or after `from`, scanning one position at a time. */
  function SearchFrom(s: string, from: nat): (r: Option<RegExpMatch>)
    requires from <= |s|
    ensures r.Some? ==> from <= r.value.index < |s| && r == MatchAt(s, r.value.index)
    ensures r.None? ==> forall j :: from <= j < |s| ==> MatchAt(s, j).None?
    ensures r.Some? ==> forall j :: from <= j < r.value.index ==> MatchAt(s, j).None?
    decreases |s| - from
  {
    if from == |s| then
      None
    else
      match MatchAt(s, from)
      case Some(m) => Some(m)
      case None => SearchFrom(s, from + 1)
  }

  /** `input.match(matchRequire)`: `None` stands for `null`. */
  function Exec(s: string): Option<RegExpMatch> {
    SearchFrom(s, 0)
  }

  /** Exec finds exactly the leftmost match of the reference definition. */
  lemma ExecIsLeftmost(s: string)
    ensures Exec(s).Some? ==>
      && IsMatchAt(s, Exec(s).value.index, Exec(s).value.capture)
      && forall j: nat, n: string :: j < Exec(s).value.index ==> !IsMatchAt(s, j, n)
    ensures Exec(s).None? ==> forall j: nat, n: string :: !IsMatchAt(s, j, n)
  {
    forall j: nat, n | IsMatchAt(s, j, n)
      ensures j < |s| && MatchAt(s, j).Some?
    {
      MatchAtComplete(s, j, n);
    }
  }

  /** Characterises Exec from a known leftmost match. */
  lemma ExecOfLeftmost(s: string, i: nat, name: string)
    requires IsMatchAt(s, i, name)
    requires forall j: nat, n: string :: j < i ==> !IsMatchAt(s, j, n)
    ensures Exec(s) == Some(RegExpMatch(i, s[i..i + |name| + FixedLength], name))
  {
    ExecIsLeftmost(s);
    MatchAtComplete(s, i, name);
  }

  /** The text of a call `require(<open><name><close>)`. */
  function RequireCall(open: char, name: string, close: char): string {
    RequireOpen + [open] + name + [close, ')']
  }

  /** A require call with class-only argument, between any texts, is a match where it starts. */
  lemma MatchOfParts(before: string, open: char, name: string, close: char, after: string)
    requires IsQuote(open) && IsName(name) && IsQuote(close)
    ensures IsMatchAt(before + RequireCall(open, name, close) + after, |before|, name)
  {
  }

  /**
   * A require whose argument starts with `.` is not a match at that
   * position: `.` is not in the class, so the closing quote cannot follow.
   */
  lemma DotArgumentNotMatched(s: string, i: nat)
    requires i + 10 <= |s| && s[i..i + 8] == RequireOpen && s[i + 9] == '.'
    ensures MatchAt(s, i).None?
    ensures forall n :: !IsMatchAt(s, i, n)
  {
  }
}
