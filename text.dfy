/**
 * Python's `str.strip()` with no argument: remove every leading and
 * trailing character for which `str.isspace()` holds.
 */
module Text {

  /** `str.isspace()` on one character: the Unicode whitespace Python recognises. */
  predicate IsSpace(c: char) {
    var n := c as int;
    (0x09 <= n <= 0x0D) || (0x1C <= n <= 0x20) || n == 0x85 || n == 0xA0 || n == 0x1680
    || (0x2000 <= n <= 0x200A) || n == 0x2028 || n == 0x2029 || n == 0x202F
    || n == 0x205F || n == 0x3000
  }

  predicate AllSpace(s: string) {
    forall i :: 0 <= i < |s| ==> IsSpace(s[i])
  }

  /** A string that neither starts nor ends with whitespace. */
  predicate IsTrimmed(s: string) {
    s == [] || (!IsSpace(s[0]) && !IsSpace(s[|s| - 1]))
  }

  /** The first index at or after `i` that holds no whitespace, or `|s|`. */
  function SkipSpaces(s: string, i: nat): (j: nat)
    requires i <= |s|
    ensures i <= j <= |s|
    ensures forall k :: i <= k < j ==> IsSpace(s[k])
    ensures j < |s| ==> !IsSpace(s[j])
    decreases |s| - i
  {
    if i == |s| || !IsSpace(s[i]) then i else SkipSpaces(s, i + 1)
  }

  /** Walking back from `hi`, but not below `lo`: the start of the whitespace that ends at `hi`. */
  function BackOverSpaces(s: string, lo: nat, hi: nat): (j: nat)
    requires lo <= hi <= |s|
    ensures lo <= j <= hi
    ensures forall k :: j <= k < hi ==> IsSpace(s[k])
    ensures lo < j ==> !IsSpace(s[j - 1])
    decreases hi - lo
  {
    if hi == lo || !IsSpace(s[hi - 1]) then hi else BackOverSpaces(s, lo, hi - 1)
  }

  /** `s.strip()`: no whitespace left at either end, and nothing left at all
      exactly when `s` was whitespace only. */
  function Strip(s: string): (r: string)
    ensures IsTrimmed(r)
    ensures r == [] <==> AllSpace(s)
  {
    var a := SkipSpaces(s, 0);
    var b := BackOverSpaces(s, a, |s|);
    assert a < b ==> s[a..b][0] == s[a] && s[a..b][b - a - 1] == s[b - 1];
    s[a..b]
  }

  /** `s` is its stripped form with whitespace on either side. */
  lemma StripSplit(s: string) returns (pre: string, post: string)
    ensures AllSpace(pre) && AllSpace(post) && s == pre + Strip(s) + post
  {
    var a := SkipSpaces(s, 0);
    var b := BackOverSpaces(s, a, |s|);
    assert Strip(s) == s[a..b];
    pre, post := s[..a], s[b..];
    SpacePrefix(s, a);
    SpaceSuffix(s, b);
    SplitInThree(s, a, b);
  }

  /** A prefix made of whitespace characters. */
  lemma SpacePrefix(s: string, a: nat)
    requires a <= |s| && forall k :: 0 <= k < a ==> IsSpace(s[k])
    ensures AllSpace(s[..a])
  {
    assert forall k :: 0 <= k < a ==> s[..a][k] == s[k];
  }

  /** A suffix made of whitespace characters. */
  lemma SpaceSuffix(s: string, b: nat)
    requires b <= |s| && forall k :: b <= k < |s| ==> IsSpace(s[k])
    ensures AllSpace(s[b..])
  {
    assert forall k :: 0 <= k < |s| - b ==> s[b..][k] == s[b + k];
  }

  /** The reference definition: stripping `pre + r + post` yields `r`
      whenever `pre` and `post` are whitespace and `r` is trimmed. */
  lemma StripUnique(pre: string, r: string, post: string)
    requires AllSpace(pre) && AllSpace(post) && IsTrimmed(r)
    ensures Strip(pre + r + post) == r
  {
    var s := pre + r + post;
    var m := |pre| + |r|;
    assert forall k :: 0 <= k < |pre| ==> s[k] == pre[k];
    assert forall k :: m <= k < |s| ==> s[k] == post[k - m];
    if r != [] {
      assert s[|pre|] == r[0] && s[m - 1] == r[|r| - 1];
      var a := SkipSpaces(s, 0);
      assert a == |pre|;
      var b := BackOverSpaces(s, a, |s|);
      assert b == m;
      assert forall k :: |pre| <= k < m ==> s[k] == r[k - |pre|];
      assert s[a..b] == r;
    }
  }

  /** Stripping is idempotent. */
  lemma StripIdempotent(s: string)
    ensures Strip(Strip(s)) == Strip(s)
  {
    StripUnique([], Strip(s), []);
    assert [] + Strip(s) + [] == Strip(s);
  }

  /** Whitespace followed by whitespace is whitespace. */
  lemma AllSpaceConcat(x: string, y: string)
    requires AllSpace(x) && AllSpace(y)
    ensures AllSpace(x + y)
  {
    assert forall i :: |x| <= i < |x + y| ==> (x + y)[i] == y[i - |x|];
  }

  /** Cutting a sequence at `a` and `b` and rejoining the three parts gives it back. */
  lemma SplitInThree<T>(s: seq<T>, a: nat, b: nat)
    requires a <= b <= |s|
    ensures s == s[..a] + s[a..b] + s[b..]
  {
  }

  /** Concatenation regrouped. */
  lemma Regroup<T>(p: seq<T>, x: seq<T>, r: seq<T>, y: seq<T>, q: seq<T>)
    ensures p + (x + r + y) + q == (p + x) + r + (y + q)
  {
  }

  /** Whitespace added around a string does not change what it strips to. */
  lemma StripAbsorbsSpace(pre: string, s: string, post: string)
    requires AllSpace(pre) && AllSpace(post)
    ensures Strip(pre + s + post) == Strip(s)
  {
    var x, y := StripSplit(s);
    var r := Strip(s);
    AllSpaceConcat(pre, x);
    AllSpaceConcat(y, post);
    Regroup(pre, x, r, y, post);
    StripUnique(pre + x, r, y + post);
  }
}
