/**
  Character classes and the `trim` operation of JavaScript strings, as the
  note card uses them. Characters are Unicode scalar values; every character
  class below is a set of BMP code points, so working on code points instead
  of UTF-16 code units changes nothing for them.
 */
module JsString {

  /** The ECMAScript LineTerminator code points: LF, CR, LINE SEPARATOR and
      PARAGRAPH SEPARATOR. A regular expression `.` (without the `s` flag)
      matches every character but these, and `^`/`$` under the `m` flag
      anchor next to them. */
  predicate IsLineTerminator(c: char)
  {
    c == '\n' || c == '\r' || c == '\U{2028}' || c == '\U{2029}'
  }

  /** The ECMAScript WhiteSpace code points: TAB, VT, FF, ZWNBSP and every
      code point of Unicode category Zs. */
  predicate IsWhiteSpace(c: char)
  {
    c == '\t' || c == '\U{000B}' || c == '\U{000C}' || c == '\U{FEFF}' ||
    c == ' ' || c == '\U{00A0}' || c == '\U{1680}' ||
    ('\U{2000}' <= c <= '\U{200A}') ||
    c == '\U{202F}' || c == '\U{205F}' || c == '\U{3000}'
  }

  /** What `String.prototype.trim` strips from both ends: WhiteSpace and
      LineTerminator. */
  predicate IsTrimmable(c: char)
  {
    IsWhiteSpace(c) || IsLineTerminator(c)
  }

  /** `\d` of an ECMAScript regular expression: ASCII digits only. */
  predicate IsDigit(c: char)
  {
    '0' <= c <= '9'
  }

  ghost predicate AllTrimmable(s: string)
  {
    forall i :: 0 <= i < |s| ==> IsTrimmable(s[i])
  }

  /** The first position at or after `i` whose character is kept by `trim`,
      or `|s|`. */
  function FirstKept(s: string, i: nat): (k: nat)
    requires i <= |s|
    ensures i <= k <= |s|
    ensures forall m :: i <= m < k ==> IsTrimmable(s[m])
    ensures k < |s| ==> !IsTrimmable(s[k])
    decreases |s| - i
  {
    if i == |s| || !IsTrimmable(s[i]) then i else FirstKept(s, i + 1)
  }

  /** One past the last position before `e` whose character is kept by
      `trim`, or 0. */
  function LastKeptEnd(s: string, e: nat): (k: nat)
    requires e <= |s|
    ensures k <= e
    ensures forall m :: k <= m < e ==> IsTrimmable(s[m])
    ensures k > 0 ==> !IsTrimmable(s[k - 1])
  {
    if e == 0 || !IsTrimmable(s[e - 1]) then e else LastKeptEnd(s, e - 1)
  }

  /** `s.trim()`: `s` without its leading and trailing white space and line
      terminators. The result is the slice of `s` between a trimmable prefix
      and a trimmable suffix, it neither starts nor ends with a trimmable
      character, and it is empty exactly when all of `s` is trimmable. */
  function Trim(s: string): (r: string)
    ensures exists i, j :: 0 <= i <= j <= |s| && r == s[i..j] && AllTrimmable(s[..i]) && AllTrimmable(s[j..])
    ensures r != [] ==> !IsTrimmable(r[0]) && !IsTrimmable(r[|r| - 1])
    ensures r == [] <==> AllTrimmable(s)
  {
    var i := FirstKept(s, 0);
    if i == |s| then
      TrimAll(s);
      []
    else
      var j := LastKeptEnd(s, |s|);
      TrimBounds(s, i, j);
      s[i..j]
  }

  lemma AllTrimmableRange(s: string, i: nat, j: nat)
    requires i <= j <= |s|
    requires forall m :: i <= m < j ==> IsTrimmable(s[m])
    ensures AllTrimmable(s[i..j])
  {
    forall m | 0 <= m < j - i ensures IsTrimmable(s[i..j][m]) {
      assert s[i..j][m] == s[i + m];
    }
  }

  lemma TrimAll(s: string)
    requires FirstKept(s, 0) == |s|
    ensures AllTrimmable(s)
    ensures exists i, j :: 0 <= i <= j <= |s| && [] == s[i..j] && AllTrimmable(s[..i]) && AllTrimmable(s[j..])
  {
    assert s[..|s|] == s;
    assert [] == s[|s|..|s|] && AllTrimmable(s[|s|..]);
  }

  lemma TrimBounds(s: string, i: nat, j: nat)
    requires i == FirstKept(s, 0) < |s| && j == LastKeptEnd(s, |s|)
    ensures i < j <= |s| && AllTrimmable(s[..i]) && AllTrimmable(s[j..])
    ensures !IsTrimmable(s[i..j][0]) && !IsTrimmable(s[i..j][|s[i..j]| - 1])
    ensures !AllTrimmable(s)
  {
    assert i < j;
    AllTrimmableRange(s, 0, i);
    AllTrimmableRange(s, j, |s|);
    assert s[..i] == s[0..i] && s[j..] == s[j..|s|];
    assert s[i..j][0] == s[i] && s[i..j][j - i - 1] == s[j - 1];
    assert !IsTrimmable(s[i]);
  }

  /** Neither end of `x` is white space or a line terminator. */
  predicate IsTrimmed(x: string)
  {
    x == [] || (!IsTrimmable(x[0]) && !IsTrimmable(x[|x| - 1]))
  }

  /** The strings that trimming leaves as they are are exactly the trimmed
      ones. */
  lemma TrimFixesTrimmed(x: string)
    ensures Trim(x) == x <==> IsTrimmed(x)
  {
    if x != [] && IsTrimmed(x) {
      assert FirstKept(x, 0) == 0;
      assert LastKeptEnd(x, |x|) == |x|;
      assert x[0..|x|] == x;
    }
  }

  /** Trimming a trimmed string changes nothing. */
  lemma TrimIdempotent(s: string)
    ensures Trim(Trim(s)) == Trim(s)
  {
    TrimFixesTrimmed(Trim(s));
  }

  /** Trimming keeps what lies between the outer white space untouched. */
  lemma TrimSurrounded(pre: string, x: string, post: string)
    requires AllTrimmable(pre) && AllTrimmable(post)
    requires x != [] && !IsTrimmable(x[0]) && !IsTrimmable(x[|x| - 1])
    ensures Trim(pre + x + post) == x
  {
    var s := pre + x + post;
    var i := |pre|;
    var j := |pre| + |x|;
    forall m | 0 <= m < i ensures IsTrimmable(s[m]) {
      assert s[m] == pre[m];
    }
    forall m | j <= m < |s| ensures IsTrimmable(s[m]) {
      assert s[m] == post[m - j];
    }
    assert s[i] == x[0] && s[j - 1] == x[|x| - 1];
    FirstKeptIs(s, 0, i);
    LastKeptEndIs(s, |s|, j);
    assert s[i..j] == x;
  }

  /** `FirstKept` from `i` is `k` when everything in between is trimmable and
      `s[k]` is not. */
  lemma {:induction false} FirstKeptIs(s: string, i: nat, k: nat)
    requires i <= k < |s|
    requires forall m :: i <= m < k ==> IsTrimmable(s[m])
    requires !IsTrimmable(s[k])
    ensures FirstKept(s, i) == k
    decreases k - i
  {
    if i < k {
      FirstKeptIs(s, i + 1, k);
    }
  }

  /** `LastKeptEnd` before `e` is `k` when everything in between is trimmable
      and `s[k - 1]` is not. */
  lemma {:induction false} LastKeptEndIs(s: string, e: nat, k: nat)
    requires 0 < k <= e <= |s|
    requires forall m :: k <= m < e ==> IsTrimmable(s[m])
    requires !IsTrimmable(s[k - 1])
    ensures LastKeptEnd(s, e) == k
    decreases e - k
  {
    if k < e {
      LastKeptEndIs(s, e - 1, k);
    }
  }
}
