/**
 * `YouTubeVideoIDExtractor.extract`: Python's
 * `re.search(r"https://studio\.youtube\.com/video/([a-zA-Z0-9_-]+)", url)`
 * written out as a leftmost scan followed by a greedy token run.
 */
module Extractor {
  import opened Wrappers
  import opened Text

  /** The literal part of the pattern, dots escaped, case-sensitive. */
  const Prefix: string := "https://studio.youtube.com/video/"

  /** The character class `[a-zA-Z0-9_-]`. */
  predicate IsTokenChar(c: char) {
    ('a' <= c <= 'z') || ('A' <= c <= 'Z') || ('0' <= c <= '9') || c == '_' || c == '-'
  }

  /** The pattern matches at position `i`: the prefix, then at least one token character. */
  predicate MatchesAt(s: string, i: nat) {
    i + |Prefix| < |s| && s[i..i + |Prefix|] == Prefix && IsTokenChar(s[i + |Prefix|])
  }

  /** `i` is where `re.search` finds its match: the first position that matches. */
  predicate IsLeftmostMatch(s: string, i: nat) {
    MatchesAt(s, i) && forall k: nat :: k < i ==> !MatchesAt(s, k)
  }

  /** `t` is what the greedy group `([a-zA-Z0-9_-]+)` captures when it starts at `j`:
      a non-empty run of token characters not followed by another one. */
  predicate IsMaximalRun(s: string, j: nat, t: string) {
    j + |t| <= |s| && |t| > 0 && s[j..j + |t|] == t
    && (forall k :: j <= k < j + |t| ==> IsTokenChar(s[k]))
    && (j + |t| == |s| || !IsTokenChar(s[j + |t|]))
  }

  /** What `re.search` followed by `group(1)` yields: the greedy run after the leftmost match. */
  ghost predicate IsSearchResult(s: string, t: string) {
    exists i: nat :: IsLeftmostMatch(s, i) && IsMaximalRun(s, i + |Prefix|, t)
  }

  /** The position of the match behind a search result. */
  lemma SearchWitness(s: string, t: string) returns (i: nat)
    requires IsSearchResult(s, t)
    ensures IsLeftmostMatch(s, i) && IsMaximalRun(s, i + |Prefix|, t)
  {
    i :| IsLeftmostMatch(s, i) && IsMaximalRun(s, i + |Prefix|, t);
  }

  /** Length of the longest run of token characters starting at `j`. */
  function RunLength(s: string, j: nat): (n: nat)
    requires j <= |s|
    ensures j + n <= |s|
    ensures forall k :: j <= k < j + n ==> IsTokenChar(s[k])
    ensures j + n == |s| || !IsTokenChar(s[j + n])
    decreases |s| - j
  {
    if j == |s| || !IsTokenChar(s[j]) then 0 else 1 + RunLength(s, j + 1)
  }

  /** The first position at or after `from` where the pattern matches. */
  function FirstMatch(s: string, from: nat): (r: Option<nat>)
    ensures r.None? ==> forall i: nat :: from <= i ==> !MatchesAt(s, i)
    ensures r.Some? ==> from <= r.value && MatchesAt(s, r.value)
                        && forall i: nat :: from <= i < r.value ==> !MatchesAt(s, i)
    decreases |s| - from
  {
    if from + |Prefix| >= |s| then None
    else if MatchesAt(s, from) then Some(from)
    else FirstMatch(s, from + 1)
  }

  /** `extract(url)`: the token after the leftmost studio-video prefix, or `None`. */
  function Extract(url: string): (r: Option<string>)
    ensures r.None? <==> forall i: nat :: !MatchesAt(url, i)
    ensures r.Some? ==> IsSearchResult(url, r.value)
  {
    match FirstMatch(url, 0)
    case None => None
    case Some(i) =>
      var j := i + |Prefix|;
      var t := url[j..j + RunLength(url, j)];
      assert IsLeftmostMatch(url, i) && IsMaximalRun(url, j, t);
      Some(t)
  }

  /** Two greedy runs from the same start are the same run. */
  lemma MaximalRunUnique(s: string, j: nat, t: string, u: string)
    requires IsMaximalRun(s, j, t) && IsMaximalRun(s, j, u)
    ensures t == u
  {
  }

  /** Completeness: whatever the search yields, `extract` returns. */
  lemma ExtractComplete(url: string, t: string)
    requires IsSearchResult(url, t)
    ensures Extract(url) == Some(t)
  {
    var i := SearchWitness(url, t);
    var r := Extract(url);
    assert r.Some?;
    var i' := SearchWitness(url, r.value);
    LeftmostUnique(url, i, i');
    MaximalRunUnique(url, i + |Prefix|, r.value, t);
  }

  /** A string has at most one leftmost match. */
  lemma LeftmostUnique(s: string, i: nat, i': nat)
    requires IsLeftmostMatch(s, i) && IsLeftmostMatch(s, i')
    ensures i == i'
  {
  }

  /** `w` occurs in `s` at position `i`. */
  predicate OccursAt(s: string, i: nat, w: string) {
    i + |w| <= |s| && s[i..i + |w|] == w
  }

  /** Any returned token is non-empty and drawn from `[a-zA-Z0-9_-]`, and it follows the prefix in `url`. */
  lemma ExtractedTokenWellFormed(url: string, t: string)
    requires Extract(url) == Some(t)
    ensures |t| > 0 && forall k :: 0 <= k < |t| ==> IsTokenChar(t[k])
    ensures exists i: nat :: OccursAt(url, i, Prefix + t)
  {
    var i := SearchWitness(url, t);
    MaximalRunIsToken(url, i + |Prefix|, t);
    MatchOccurs(url, i, t);
  }

  /** A greedy run consists of token characters. */
  lemma MaximalRunIsToken(s: string, j: nat, t: string)
    requires IsMaximalRun(s, j, t)
    ensures forall k :: 0 <= k < |t| ==> IsTokenChar(t[k])
  {
    assert forall k :: 0 <= k < |t| ==> t[k] == s[j + k];
  }

  /** The matched text is the prefix followed by the captured group. */
  lemma MatchOccurs(s: string, i: nat, t: string)
    requires IsLeftmostMatch(s, i) && IsMaximalRun(s, i + |Prefix|, t)
    ensures OccursAt(s, i, Prefix + t)
  {
    var j := i + |Prefix|;
    SliceJoin(s, i, j, j + |t|);
  }

  /** Adjacent slices join up. */
  lemma SliceJoin<T>(s: seq<T>, i: nat, j: nat, k: nat)
    requires i <= j <= k <= |s|
    ensures s[i..k] == s[i..j] + s[j..k]
  {
  }

  /** A URL that starts with the prefix yields the greedy run right after it. */
  lemma {:induction false} ExtractAtStart(t: string, rest: string)
    requires |t| > 0 && forall k :: 0 <= k < |t| ==> IsTokenChar(t[k])
    requires rest == [] || !IsTokenChar(rest[0])
    ensures Extract(Prefix + t + rest) == Some(t)
  {
    var url := Prefix + t + rest;
    assert url[..|Prefix|] == Prefix;
    assert url[|Prefix|..|Prefix| + |t|] == t;
    assert forall k :: |Prefix| <= k < |Prefix| + |t| ==> url[k] == t[k - |Prefix|];
    assert rest != [] ==> url[|Prefix| + |t|] == rest[0];
    assert IsLeftmostMatch(url, 0) && IsMaximalRun(url, |Prefix|, t);
    ExtractComplete(url, t);
  }

  /** The example the prompt shows the operator. */
  lemma ExtractPromptExample()
    ensures Extract("https://studio.youtube.com/video/krtVKlwt-1o") == Some("krtVKlwt-1o")
  {
    var url, t := "https://studio.youtube.com/video/krtVKlwt-1o", "krtVKlwt-1o";
    assert url == Prefix + t + "";
    ExtractAtStart(t, "");
  }

  /** Of two matches, the leftmost one wins. */
  lemma ExtractPicksFirstOfTwo()
    ensures Extract(Prefix + "A " + Prefix + "B") == Some("A")
  {
    assert Prefix + "A " + Prefix + "B" == Prefix + "A" + (" " + Prefix + "B");
    ExtractAtStart("A", " " + Prefix + "B");
  }

  /** A position where `s` disagrees with the prefix is not a match. */
  lemma MismatchAt(s: string, i: nat, k: nat)
    requires k < |Prefix| && i + k < |s| && s[i + k] != Prefix[k]
    ensures !MatchesAt(s, i)
  {
    if i + |Prefix| < |s| {
      assert s[i..i + |Prefix|][k] == s[i + k];
    }
  }

  /** The scheme is part of the literal: `http://` does not match. */
  lemma ExtractRejectsHttp()
    ensures Extract("http://studio.youtube.com/video/abc") == None
  {
    var url := "http://studio.youtube.com/video/abc";
    assert url[4] == ':' && url[1] == 't';
    MismatchAt(url, 0, 4);
    MismatchAt(url, 1, 0);
  }

  /** The dots are escaped: `studio-youtube.com` does not match. */
  lemma ExtractRejectsUnescapedDot()
    ensures Extract("https://studio-youtube.com/video/abc") == None
  {
    var url := "https://studio-youtube.com/video/abc";
    assert url[14] == '-' && url[1] == 't' && url[2] == 't';
    MismatchAt(url, 0, 14);
    MismatchAt(url, 1, 0);
    MismatchAt(url, 2, 0);
  }

  /** The group needs at least one token character: a bare `.../video/` does not match. */
  lemma ExtractRejectsBarePath()
    ensures Extract("https://studio.youtube.com/video/") == None
    ensures Extract("https://studio.youtube.com/video/?x") == None
  {
    var url := "https://studio.youtube.com/video/?x";
    assert url[|Prefix|] == '?' && url[1] == 't';
    MismatchAt(url, 1, 0);
  }

  /** No token character is whitespace. */
  lemma TokenCharIsNotSpace(c: char)
    ensures IsTokenChar(c) ==> !IsSpace(c)
  {
  }

  /** A match in `pre + m + post` lies inside `m` when `pre` and `post` are whitespace. */
  lemma MatchInside(pre: string, m: string, post: string, i: nat)
    requires AllSpace(pre) && AllSpace(post)
    requires MatchesAt(pre + m + post, i)
    ensures |pre| <= i && MatchesAt(m, i - |pre|)
  {
    var s, p := pre + m + post, |pre|;
    assert forall k :: 0 <= k < p ==> s[k] == pre[k];
    assert forall k :: p + |m| <= k < |s| ==> s[k] == post[k - p - |m|];
    assert s[i] == s[i..i + |Prefix|][0] == 'h';
    TokenCharIsNotSpace(s[i + |Prefix|]);
    assert p <= i && i + |Prefix| < p + |m|;
    assert forall k :: p <= k < p + |m| ==> s[k] == m[k - p];
    assert s[i..i + |Prefix|] == m[i - p..i - p + |Prefix|];
  }

  /** A match in `m` is still a match once text is put around `m`. */
  lemma MatchOutside(pre: string, m: string, post: string, k: nat)
    requires MatchesAt(m, k)
    ensures MatchesAt(pre + m + post, k + |pre|)
  {
    var s, p := pre + m + post, |pre|;
    assert forall j :: p <= j < p + |m| ==> s[j] == m[j - p];
    assert s[k + p..k + p + |Prefix|] == m[k..k + |Prefix|];
  }

  /** A greedy run in `m` stays greedy once whitespace is put around `m`. */
  lemma RunOutside(pre: string, m: string, post: string, j: nat, t: string)
    requires AllSpace(post)
    requires IsMaximalRun(m, j, t)
    ensures IsMaximalRun(pre + m + post, j + |pre|, t)
  {
    var s, p := pre + m + post, |pre|;
    assert forall k :: p <= k < p + |m| ==> s[k] == m[k - p];
    assert s[j + p..j + p + |t|] == m[j..j + |t|];
    if j + |t| == |m| && post != [] {
      assert s[j + p + |t|] == post[0];
      TokenCharIsNotSpace(post[0]);
    }
  }

  /** The matches of `pre + m + post` are those of `m`, shifted by `|pre|`. */
  lemma MatchesShifted(pre: string, m: string, post: string)
    requires AllSpace(pre) && AllSpace(post)
    ensures forall i: nat :: MatchesAt(pre + m + post, i) ==> |pre| <= i && MatchesAt(m, i - |pre|)
    ensures forall k: nat :: MatchesAt(m, k) ==> MatchesAt(pre + m + post, k + |pre|)
  {
    forall i: nat | MatchesAt(pre + m + post, i) ensures |pre| <= i && MatchesAt(m, i - |pre|) {
      MatchInside(pre, m, post, i);
    }
    forall k: nat | MatchesAt(m, k) ensures MatchesAt(pre + m + post, k + |pre|) {
      MatchOutside(pre, m, post, k);
    }
  }

  /** With whitespace around it, a URL without a match still has none. */
  lemma ExtractNoneShifted(pre: string, m: string, post: string)
    requires AllSpace(pre) && AllSpace(post) && Extract(m).None?
    ensures Extract(pre + m + post).None?
  {
    MatchesShifted(pre, m, post);
  }

  /** With whitespace around it, a URL's search result stays the same. */
  lemma SearchResultShifted(pre: string, m: string, post: string, t: string)
    requires AllSpace(pre) && AllSpace(post) && IsSearchResult(m, t)
    ensures IsSearchResult(pre + m + post, t)
  {
    var k := SearchWitness(m, t);
    LeftmostShifted(pre, m, post, k);
    RunOutside(pre, m, post, k + |Prefix|, t);
  }

  /** With whitespace around it, a URL that yields `t` still yields `t`. */
  lemma ExtractSomeShifted(pre: string, m: string, post: string, t: string)
    requires AllSpace(pre) && AllSpace(post) && Extract(m) == Some(t)
    ensures Extract(pre + m + post) == Some(t)
  {
    SearchResultShifted(pre, m, post, t);
    ExtractComplete(pre + m + post, t);
  }

  /** With whitespace around it, the leftmost match of a URL moves by `|pre|`. */
  lemma LeftmostShifted(pre: string, m: string, post: string, k: nat)
    requires AllSpace(pre) && AllSpace(post) && IsLeftmostMatch(m, k)
    ensures IsLeftmostMatch(pre + m + post, k + |pre|)
  {
    MatchesShifted(pre, m, post);
  }

  /** Whitespace around the URL never changes what is extracted. */
  lemma ExtractIgnoresSurroundingSpace(pre: string, m: string, post: string)
    requires AllSpace(pre) && AllSpace(post)
    ensures Extract(pre + m + post) == Extract(m)
  {
    match Extract(m)
    case None => ExtractNoneShifted(pre, m, post);
    case Some(t) => ExtractSomeShifted(pre, m, post, t);
  }

  /** So stripping the operator's line first, as the prompt loop does, is immaterial. */
  lemma ExtractOfStripped(url: string)
    ensures Extract(Strip(url)) == Extract(url)
  {
    var pre, post := StripSplit(url);
    ExtractIgnoresSurroundingSpace(pre, Strip(url), post);
  }
}
