/**
  Global replacement of a regular expression of the shape `D(.*?)D` by
  `L$1R`, where `D` is a literal delimiter: the bold, italic and code rules of
  the note card's formatter. Without the `s` flag (`dotAll` false) `.` does
  not match a line terminator; with it, it matches everything.

  `ReplaceFrom` is the left-to-right scan that a global
  `String.prototype.replace` performs, with the scan position standing for
  the regular expression's `lastIndex`; the lemmas tie it to the declarative
  meaning of a match (leftmost start, shortest capture, no overlap).
 */
module Spans {
  import opened JsString

  datatype Option<T> = None | Some(value: T)

  type Delimiter = d: string | d != [] witness "*"

  /** The literal `p` occurs in `s` at position `i`. */
  predicate OccursAt(s: string, i: nat, p: string)
  {
    i + |p| <= |s| && s[i..i + |p|] == p
  }

  /** `.` of the rule: every character, or every character but a line
      terminator. */
  predicate DotMatches(dotAll: bool, c: char)
  {
    dotAll || !IsLineTerminator(c)
  }

  /** Declarative meaning of the lazy `(.*?)` started at `from` and followed by
      `D`: the capture is `s[from..j]`, each of its characters matches `.`,
      `D` occurs at `j`, and it occurs at no earlier position of the capture. */
  ghost predicate LazyClose(s: string, d: Delimiter, dotAll: bool, from: nat, j: nat)
  {
    from <= j && OccursAt(s, j, d) &&
    (forall k :: from <= k < j ==> DotMatches(dotAll, s[k])) &&
    (forall k :: from <= k < j ==> !OccursAt(s, k, d))
  }

  /** The regular expression matches at position `i` of `s`, with capture
      `s[i + |D|..j]`; the match ends at `j + |D|`. */
  ghost predicate MatchAt(s: string, d: Delimiter, dotAll: bool, i: nat, j: nat)
  {
    OccursAt(s, i, d) && LazyClose(s, d, dotAll, i + |d|, j)
  }

  ghost predicate Matches(s: string, d: Delimiter, dotAll: bool, i: nat)
  {
    exists j :: MatchAt(s, d, dotAll, i, j)
  }

  /** The lazy quantifier's search: try the closing delimiter at `k`, else let
      `.` take `s[k]` and try again one further on. */
  function FindClose(s: string, d: Delimiter, dotAll: bool, k: nat): (res: Option<nat>)
    requires k <= |s|
    ensures res.Some? ==> k <= res.value && OccursAt(s, res.value, d)
    decreases |s| - k
  {
    if OccursAt(s, k, d) then Some(k)
    else if k == |s| || !DotMatches(dotAll, s[k]) then None
    else FindClose(s, d, dotAll, k + 1)
  }

  /** The search finds exactly the declarative lazy match, and finds nothing
      when there is none. */
  lemma FindCloseCorrect(s: string, d: Delimiter, dotAll: bool, from: nat)
    requires from <= |s|
    ensures forall j: nat :: FindClose(s, d, dotAll, from) == Some(j) <==> LazyClose(s, d, dotAll, from, j)
  {
    FindCloseFrom(s, d, dotAll, from, from);
  }

  lemma {:induction false} FindCloseFrom(s: string, d: Delimiter, dotAll: bool, from: nat, k: nat)
    requires from <= k <= |s|
    requires forall m :: from <= m < k ==> DotMatches(dotAll, s[m]) && !OccursAt(s, m, d)
    ensures forall j: nat :: FindClose(s, d, dotAll, k) == Some(j) <==> LazyClose(s, d, dotAll, from, j)
    decreases |s| - k
  {
    if OccursAt(s, k, d) {
      forall j: nat | LazyClose(s, d, dotAll, from, j) ensures j == k {
      }
    } else if k == |s| || !DotMatches(dotAll, s[k]) {
      forall j: nat | LazyClose(s, d, dotAll, from, j) ensures false {
      }
    } else {
      FindCloseFrom(s, d, dotAll, from, k + 1);
    }
  }

  /** The scan finds a match starting at `p`: the opening delimiter is there
      and the lazy search finds a closing one. */
  predicate StartsMatch(s: string, d: Delimiter, dotAll: bool, p: nat)
  {
    OccursAt(s, p, d) && FindClose(s, d, dotAll, p + |d|).Some?
  }

  /** The scan's test agrees with the declarative match, and its closing
      position is the one of the (unique) lazy match. */
  lemma StartsMatchIff(s: string, d: Delimiter, dotAll: bool, p: nat)
    ensures StartsMatch(s, d, dotAll, p) <==> Matches(s, d, dotAll, p)
    ensures forall j: nat :: MatchAt(s, d, dotAll, p, j) ==> FindClose(s, d, dotAll, p + |d|) == Some(j)
  {
    if OccursAt(s, p, d) {
      FindCloseCorrect(s, d, dotAll, p + |d|);
      if StartsMatch(s, d, dotAll, p) {
        assert MatchAt(s, d, dotAll, p, FindClose(s, d, dotAll, p + |d|).value);
      }
    }
  }

  /** The scan from position `p`: where a match starts, it is replaced by
      `L capture R` and the scan resumes after it; elsewhere the character is
      copied and the scan moves on by one. */
  function ReplaceFrom(s: string, d: Delimiter, dotAll: bool, left: string, right: string, p: nat): string
    requires p <= |s|
    decreases |s| - p
  {
    if p == |s| then []
    else Emit(s, d, dotAll, left, right, p) + ReplaceFrom(s, d, dotAll, left, right, Resume(s, d, dotAll, p))
  }

  /** What the scan emits at `p < |s|`: the replacement of the match that
      starts there, or the character there. */
  function Emit(s: string, d: Delimiter, dotAll: bool, left: string, right: string, p: nat): string
    requires p < |s|
  {
    if StartsMatch(s, d, dotAll, p) then
      left + s[p + |d|..FindClose(s, d, dotAll, p + |d|).value] + right
    else
      [s[p]]
  }

  /** Where the scan goes on after `p < |s|`: right after the match, or at
      the next character. */
  function Resume(s: string, d: Delimiter, dotAll: bool, p: nat): (q: nat)
    requires p < |s|
    ensures p < q <= |s|
  {
    if StartsMatch(s, d, dotAll, p) then FindClose(s, d, dotAll, p + |d|).value + |d| else p + 1
  }

  /** `s.replace(/D(.*?)D/g, 'L$1R')` (with flag `s` when `dotAll`). */
  function Replace(s: string, d: Delimiter, dotAll: bool, left: string, right: string): string
  {
    ReplaceFrom(s, d, dotAll, left, right, 0)
  }

  lemma ScanStep(s: string, d: Delimiter, dotAll: bool, left: string, right: string, p: nat)
    requires p < |s|
    ensures ReplaceFrom(s, d, dotAll, left, right, p) ==
      Emit(s, d, dotAll, left, right, p) + ReplaceFrom(s, d, dotAll, left, right, Resume(s, d, dotAll, p))
  {
  }

  lemma EmitAtMatch(s: string, d: Delimiter, dotAll: bool, left: string, right: string, p: nat, j: nat)
    requires p < |s| && StartsMatch(s, d, dotAll, p) && FindClose(s, d, dotAll, p + |d|) == Some(j)
    ensures p + |d| <= j && j + |d| <= |s| && Resume(s, d, dotAll, p) == j + |d|
    ensures Emit(s, d, dotAll, left, right, p) == left + s[p + |d|..j] + right
  {
  }

  lemma EmitAtCopy(s: string, d: Delimiter, dotAll: bool, left: string, right: string, p: nat)
    requires p < |s| && !StartsMatch(s, d, dotAll, p)
    ensures Resume(s, d, dotAll, p) == p + 1
    ensures Emit(s, d, dotAll, left, right, p) == [s[p]]
  {
  }

  /** A match at the scan position is replaced. */
  lemma ReplaceAtMatch(s: string, d: Delimiter, dotAll: bool, left: string, right: string, p: nat, j: nat)
    requires MatchAt(s, d, dotAll, p, j)
    ensures j + |d| <= |s|
    ensures ReplaceFrom(s, d, dotAll, left, right, p) ==
      left + s[p + |d|..j] + right + ReplaceFrom(s, d, dotAll, left, right, j + |d|)
  {
    StartsMatchIff(s, d, dotAll, p);
    ScanAtMatch(s, d, dotAll, left, right, p, j);
  }

  /** One step of the scan where a match starts. */
  lemma ScanAtMatch(s: string, d: Delimiter, dotAll: bool, left: string, right: string, p: nat, j: nat)
    requires p < |s| && StartsMatch(s, d, dotAll, p) && FindClose(s, d, dotAll, p + |d|) == Some(j)
    ensures p + |d| <= j && j + |d| <= |s|
    ensures ReplaceFrom(s, d, dotAll, left, right, p) ==
      left + s[p + |d|..j] + right + ReplaceFrom(s, d, dotAll, left, right, j + |d|)
  {
    ScanStep(s, d, dotAll, left, right, p);
    EmitAtMatch(s, d, dotAll, left, right, p, j);
  }

  /** One step of the scan where no match starts. */
  lemma ScanAtCopy(s: string, d: Delimiter, dotAll: bool, left: string, right: string, p: nat)
    requires p < |s| && !StartsMatch(s, d, dotAll, p)
    ensures ReplaceFrom(s, d, dotAll, left, right, p) == [s[p]] + ReplaceFrom(s, d, dotAll, left, right, p + 1)
  {
    ScanStep(s, d, dotAll, left, right, p);
    EmitAtCopy(s, d, dotAll, left, right, p);
  }

  /** Up to the next match, the scan copies the text as it is. */
  lemma {:induction false} ScanCopies(s: string, d: Delimiter, dotAll: bool, left: string, right: string, p: nat, i: nat)
    requires p <= i <= |s|
    requires forall m :: p <= m < i ==> !StartsMatch(s, d, dotAll, m)
    ensures ReplaceFrom(s, d, dotAll, left, right, p) == s[p..i] + ReplaceFrom(s, d, dotAll, left, right, i)
    decreases i - p
  {
    if p < i {
      ScanCopies(s, d, dotAll, left, right, p + 1, i);
      CopyStep(s, d, dotAll, left, right, p, i);
    } else {
      assert s[p..i] == [];
    }
  }

  lemma CopyStep(s: string, d: Delimiter, dotAll: bool, left: string, right: string, p: nat, i: nat)
    requires p < i <= |s| && !StartsMatch(s, d, dotAll, p)
    requires ReplaceFrom(s, d, dotAll, left, right, p + 1) == s[p + 1..i] + ReplaceFrom(s, d, dotAll, left, right, i)
    ensures ReplaceFrom(s, d, dotAll, left, right, p) == s[p..i] + ReplaceFrom(s, d, dotAll, left, right, i)
  {
    ScanAtCopy(s, d, dotAll, left, right, p);
    Prepend(s, p, i, ReplaceFrom(s, d, dotAll, left, right, i));
  }

  lemma Prepend(s: string, p: nat, i: nat, rest: string)
    requires p < i <= |s|
    ensures [s[p]] + (s[p + 1..i] + rest) == s[p..i] + rest
  {
    assert s[p..i] == [s[p]] + s[p + 1..i];
  }

  /** Declarative form of `ScanCopies`: no match starts before `i`. */
  lemma ReplaceCopies(s: string, d: Delimiter, dotAll: bool, left: string, right: string, p: nat, i: nat)
    requires p <= i <= |s|
    requires forall m :: p <= m < i ==> !Matches(s, d, dotAll, m)
    ensures ReplaceFrom(s, d, dotAll, left, right, p) == s[p..i] + ReplaceFrom(s, d, dotAll, left, right, i)
  {
    forall m | p <= m < i ensures !StartsMatch(s, d, dotAll, m) {
      StartsMatchIff(s, d, dotAll, m);
    }
    ScanCopies(s, d, dotAll, left, right, p, i);
  }

  lemma Regroup(a: string, b: string, c: string, e: string, f: string)
    ensures a + (b + c + e + f) == a + b + c + e + f
  {
  }

  /** Global replacement semantics: the leftmost match, with the shortest
      capture, becomes `L capture R`, the text before it is kept, and the
      scan resumes right after the match. */
  lemma ReplaceLeftmost(s: string, d: Delimiter, dotAll: bool, left: string, right: string, i: nat, j: nat)
    requires MatchAt(s, d, dotAll, i, j)
    requires forall m :: 0 <= m < i ==> !Matches(s, d, dotAll, m)
    ensures j + |d| <= |s|
    ensures Replace(s, d, dotAll, left, right) ==
      s[..i] + left + s[i + |d|..j] + right + ReplaceFrom(s, d, dotAll, left, right, j + |d|)
  {
    ReplaceCopies(s, d, dotAll, left, right, 0, i);
    ReplaceAtMatch(s, d, dotAll, left, right, i, j);
    Regroup(s[..i], left, s[i + |d|..j], right, ReplaceFrom(s, d, dotAll, left, right, j + |d|));
  }

  /** A text that is one match from end to end becomes `L capture R`. */
  lemma ReplaceWholeMatch(s: string, d: Delimiter, dotAll: bool, left: string, right: string, j: nat)
    requires MatchAt(s, d, dotAll, 0, j) && j + |d| == |s|
    ensures Replace(s, d, dotAll, left, right) == left + s[|d|..j] + right
  {
    ReplaceLeftmost(s, d, dotAll, left, right, 0, j);
    assert s[..0] == [];
  }

  /** Where the regular expression matches nowhere, the text is unchanged. */
  lemma ReplaceNoMatch(s: string, d: Delimiter, dotAll: bool, left: string, right: string)
    requires forall m :: 0 <= m < |s| ==> !Matches(s, d, dotAll, m)
    ensures Replace(s, d, dotAll, left, right) == s
  {
    ReplaceCopies(s, d, dotAll, left, right, 0, |s|);
    assert s[0..|s|] == s;
  }

  /** A text that does not contain the delimiter's first character is left
      as it is. */
  lemma ReplaceWithoutDelimiter(s: string, d: Delimiter, dotAll: bool, left: string, right: string)
    requires d[0] !in s
    ensures Replace(s, d, dotAll, left, right) == s
  {
    forall m | 0 <= m < |s| ensures !StartsMatch(s, d, dotAll, m) {
      if m + |d| <= |s| {
        assert s[m..m + |d|][0] == s[m];
      }
    }
    ScanCopies(s, d, dotAll, d, d, 0, |s|);
    ScanCopies(s, d, dotAll, left, right, 0, |s|);
    assert s[0..|s|] == s;
  }

  /** A scan with a replacement that puts the delimiters back reproduces the
      text from the scan position on. */
  lemma {:induction false} ReplaceFromByDelimiter(s: string, d: Delimiter, dotAll: bool, p: nat)
    requires p <= |s|
    ensures ReplaceFrom(s, d, dotAll, d, d, p) == s[p..]
    decreases |s| - p
  {
    if p < |s| {
      ReplaceFromByDelimiter(s, d, dotAll, Resume(s, d, dotAll, p));
      ScanStep(s, d, dotAll, d, d, p);
      EmitRestores(s, d, dotAll, p);
    }
  }

  /** With the delimiters put back, what one step emits is the text it
      consumed. */
  lemma EmitRestores(s: string, d: Delimiter, dotAll: bool, p: nat)
    requires p < |s|
    ensures Emit(s, d, dotAll, d, d, p) + s[Resume(s, d, dotAll, p)..] == s[p..]
  {
    if StartsMatch(s, d, dotAll, p) {
      EmitRestoresMatch(s, d, dotAll, p, FindClose(s, d, dotAll, p + |d|).value);
    } else {
      EmitRestoresCopy(s, d, dotAll, p);
    }
  }

  lemma EmitRestoresMatch(s: string, d: Delimiter, dotAll: bool, p: nat, j: nat)
    requires p < |s| && StartsMatch(s, d, dotAll, p) && FindClose(s, d, dotAll, p + |d|) == Some(j)
    ensures Emit(s, d, dotAll, d, d, p) + s[Resume(s, d, dotAll, p)..] == s[p..]
  {
    EmitAtMatch(s, d, dotAll, d, d, p, j);
    Rebuild(s, d, p, j);
  }

  lemma EmitRestoresCopy(s: string, d: Delimiter, dotAll: bool, p: nat)
    requires p < |s| && !StartsMatch(s, d, dotAll, p)
    ensures Emit(s, d, dotAll, d, d, p) + s[Resume(s, d, dotAll, p)..] == s[p..]
  {
    EmitAtCopy(s, d, dotAll, d, d, p);
    SliceSplit(s, p, p + 1);
    assert s[p..p + 1] == [s[p]];
  }

  lemma Rebuild(s: string, d: string, p: nat, j: nat)
    requires p + |d| <= j && j + |d| <= |s|
    requires s[p..p + |d|] == d && s[j..j + |d|] == d
    ensures d + s[p + |d|..j] + d + s[j + |d|..] == s[p..]
  {
    var n := |d|;
    SliceSplit(s, p, p + n);
    SliceSplit(s, p + n, j);
    SliceSplit(s, j, j + n);
  }

  lemma SliceSplit(s: string, a: nat, b: nat)
    requires a <= b <= |s|
    ensures s[a..] == s[a..b] + s[b..]
  {
  }

  /** A rule whose replacement puts the delimiters back (`_(.*?)_` to `_$1_`)
      returns its input unchanged. */
  lemma ReplaceByDelimiterIsIdentity(s: string, d: Delimiter, dotAll: bool)
    ensures Replace(s, d, dotAll, d, d) == s
  {
    ReplaceFromByDelimiter(s, d, dotAll, 0);
  }
}
