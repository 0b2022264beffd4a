/**
  Global, multi-line replacement of a regular expression of the shape
  `^M(.*$)` by `G$1`: the header, list, numbered-list and quote rules of the
  note card's formatter. With the `m` flag, `^` matches at the start of the
  text and right after every line terminator; the greedy `.*` takes the rest
  of the line and `$` then always holds. `M` is either a literal marker such
  as `### ` or the numbered-list marker `\d+\. `.

  `ScanFrom` is the left-to-right scan of a global replace; `MapLinesFrom` is
  an independent line-by-line description (every line that begins with the
  marker gets the marker replaced by the glyph), and `ScanIsLineMap` proves
  that the two agree.
 */
module Lines {
  import opened JsString
  import opened Spans

  /** The marker after `^`: a literal, or one or more ASCII digits followed by
      `. `. */
  datatype Marker = Literal(text: Delimiter) | Numbered

  /** A marker that cannot reach across a line: no line terminator in it. */
  predicate ValidMarker(m: Marker)
  {
    m.Literal? ==> forall k :: 0 <= k < |m.text| ==> !IsLineTerminator(m.text[k])
  }

  /** `^` under the `m` flag. */
  predicate AtLineStart(s: string, p: nat)
  {
    p == 0 || (p <= |s| && IsLineTerminator(s[p - 1]))
  }

  /** End of the run of ASCII digits starting at `p` (greedy `\d+`). */
  function DigitRunEnd(s: string, p: nat): (e: nat)
    requires p <= |s|
    ensures p <= e <= |s|
    ensures forall k :: p <= k < e ==> IsDigit(s[k])
    ensures e < |s| ==> !IsDigit(s[e])
    decreases |s| - p
  {
    if p == |s| || !IsDigit(s[p]) then p else DigitRunEnd(s, p + 1)
  }

  /** Where the marker ends when it matches at `p`. A greedy `\d+` followed by
      `.` cannot give back digits, since a digit is not a `.`. */
  function MarkerEnd(s: string, p: nat, m: Marker): (r: Option<nat>)
    requires p <= |s|
    ensures r.Some? ==> p < r.value <= |s|
  {
    match m
    case Literal(t) => if OccursAt(s, p, t) then Some(p + |t|) else None
    case Numbered =>
      var e := DigitRunEnd(s, p);
      if p < e && OccursAt(s, e, ". ") then Some(e + 2) else None
  }

  /** The numbered-list marker `\d+\. ` matches at `p` and ends at `e + 2`
      exactly when `s[p..e]` is a non-empty run of digits followed by `. `:
      the greedy digit run never has to give a digit back. */
  lemma NumberedMarkerIff(s: string, p: nat, e: nat)
    requires p <= |s|
    ensures (MarkerEnd(s, p, Numbered) == Some(e + 2)) <==>
      (p < e && OccursAt(s, e, ". ") && (forall k :: p <= k < e ==> IsDigit(s[k])))
  {
    var r := DigitRunEnd(s, p);
    if p < e && OccursAt(s, e, ". ") && (forall k :: p <= k < e ==> IsDigit(s[k])) {
      assert s[e] == ". "[0] == '.' && !IsDigit(s[e]);
      assert r == e;
    }
  }

  /** End of the line that contains position `k`: the first line terminator
      at or after `k`, or the end of the text. */
  function LineEnd(s: string, k: nat): (e: nat)
    requires k <= |s|
    ensures k <= e <= |s|
    ensures forall i :: k <= i < e ==> !IsLineTerminator(s[i])
    ensures e < |s| ==> IsLineTerminator(s[e])
    decreases |s| - k
  {
    if k == |s| || IsLineTerminator(s[k]) then k else LineEnd(s, k + 1)
  }

  /** The scan from position `p`: at a line start where the marker matches,
      the marker is replaced by the glyph and the rest of the line is kept;
      the scan resumes at the end of the line. Elsewhere the character is
      copied. */
  function ScanFrom(s: string, m: Marker, glyph: string, p: nat): string
    requires p <= |s|
    decreases |s| - p
  {
    if p == |s| then [] else Emit(s, m, glyph, p) + ScanFrom(s, m, glyph, Resume(s, m, p))
  }

  /** The marker matches at `p`, which is a line start. */
  predicate MatchesAt(s: string, m: Marker, p: nat)
    requires p <= |s|
  {
    AtLineStart(s, p) && MarkerEnd(s, p, m).Some?
  }

  /** What the scan emits at `p < |s|`. */
  function Emit(s: string, m: Marker, glyph: string, p: nat): string
    requires p < |s|
  {
    if MatchesAt(s, m, p) then
      var q := MarkerEnd(s, p, m).value;
      glyph + s[q..LineEnd(s, q)]
    else
      [s[p]]
  }

  /** Where the scan goes on after `p < |s|`. */
  function Resume(s: string, m: Marker, p: nat): (r: nat)
    requires p < |s|
    ensures p < r <= |s|
  {
    if MatchesAt(s, m, p) then LineEnd(s, MarkerEnd(s, p, m).value) else p + 1
  }

  /** `s.replace(/^M(.*$)/gm, 'G$1')`. */
  function Scan(s: string, m: Marker, glyph: string): string
  {
    ScanFrom(s, m, glyph, 0)
  }

  /** One line `s[p..e]`, rewritten when it begins with the marker. */
  function RewriteLine(s: string, m: Marker, glyph: string, p: nat, e: nat): string
    requires p <= e <= |s|
  {
    if MarkerEnd(s, p, m).Some? && MarkerEnd(s, p, m).value <= e then
      glyph + s[MarkerEnd(s, p, m).value..e]
    else
      s[p..e]
  }

  /** The text from the line start `p` on, rewritten line by line; every
      line terminator is kept. */
  function MapLinesFrom(s: string, m: Marker, glyph: string, p: nat): string
    requires p <= |s|
    decreases |s| - p, 1
  {
    RewriteLine(s, m, glyph, p, LineEnd(s, p)) + AfterLine(s, m, glyph, LineEnd(s, p))
  }

  /** What follows a line that ends at `e`: its terminator and the next
      lines, or nothing at the end of the text. */
  function AfterLine(s: string, m: Marker, glyph: string, e: nat): string
    requires e <= |s|
    decreases |s| - e, 0
  {
    if e < |s| then [s[e]] + MapLinesFrom(s, m, glyph, e + 1) else []
  }

  function MapLines(s: string, m: Marker, glyph: string): string
  {
    MapLinesFrom(s, m, glyph, 0)
  }

  /** A valid marker never matches at a line terminator, and a match stays in
      its line. */
  lemma MarkerWithinLine(s: string, p: nat, m: Marker)
    requires ValidMarker(m) && p <= |s|
    requires MarkerEnd(s, p, m).Some?
    ensures forall i :: p <= i < MarkerEnd(s, p, m).value ==> !IsLineTerminator(s[i])
  {
    match m
    case Literal(t) =>
      forall i | p <= i < p + |t| ensures !IsLineTerminator(s[i]) {
        assert s[p + (i - p)] == t[i - p];
      }
    case Numbered =>
      assert ". "[0] == '.' && ". "[1] == ' ';
  }

  lemma LineEndInside(s: string, p: nat, q: nat)
    requires p <= q <= |s|
    requires forall i :: p <= i < q ==> !IsLineTerminator(s[i])
    ensures LineEnd(s, q) == LineEnd(s, p)
    decreases q - p
  {
    if p < q {
      LineEndInside(s, p + 1, q);
    }
  }

  lemma ScanStep(s: string, m: Marker, glyph: string, p: nat)
    requires p < |s|
    ensures ScanFrom(s, m, glyph, p) == Emit(s, m, glyph, p) + ScanFrom(s, m, glyph, Resume(s, m, p))
  {
  }

  lemma EmitAtMarker(s: string, m: Marker, glyph: string, p: nat, q: nat, e: nat)
    requires p < |s| && AtLineStart(s, p) && MarkerEnd(s, p, m) == Some(q) && e == LineEnd(s, q)
    ensures q <= e && Resume(s, m, p) == e && Emit(s, m, glyph, p) == glyph + s[q..e]
  {
  }

  lemma EmitAtCopy(s: string, m: Marker, glyph: string, p: nat)
    requires p < |s| && !MatchesAt(s, m, p)
    ensures Resume(s, m, p) == p + 1 && Emit(s, m, glyph, p) == [s[p]]
  {
  }

  lemma ScanAtMarker(s: string, m: Marker, glyph: string, p: nat, q: nat, e: nat)
    requires p < |s| && AtLineStart(s, p) && MarkerEnd(s, p, m) == Some(q) && e == LineEnd(s, q)
    ensures ScanFrom(s, m, glyph, p) == glyph + s[q..e] + ScanFrom(s, m, glyph, e)
  {
    ScanStep(s, m, glyph, p);
    EmitAtMarker(s, m, glyph, p, q, e);
  }

  lemma ScanAtCopy(s: string, m: Marker, glyph: string, p: nat)
    requires p < |s| && !MatchesAt(s, m, p)
    ensures ScanFrom(s, m, glyph, p) == [s[p]] + ScanFrom(s, m, glyph, p + 1)
  {
    ScanStep(s, m, glyph, p);
    EmitAtCopy(s, m, glyph, p);
  }

  /** Between line starts, the scan copies the text. */
  lemma {:induction false} ScanCopies(s: string, m: Marker, glyph: string, p: nat, i: nat)
    requires p <= i <= |s|
    requires forall k :: p <= k < i ==> !MatchesAt(s, m, k)
    ensures ScanFrom(s, m, glyph, p) == s[p..i] + ScanFrom(s, m, glyph, i)
    decreases i - p
  {
    if p < i {
      ScanCopies(s, m, glyph, p + 1, i);
      CopyStep(s, m, glyph, p, i);
    } else {
      assert s[p..i] == [];
    }
  }

  lemma CopyStep(s: string, m: Marker, glyph: string, p: nat, i: nat)
    requires p < i <= |s| && !MatchesAt(s, m, p)
    requires ScanFrom(s, m, glyph, p + 1) == s[p + 1..i] + ScanFrom(s, m, glyph, i)
    ensures ScanFrom(s, m, glyph, p) == s[p..i] + ScanFrom(s, m, glyph, i)
  {
    ScanAtCopy(s, m, glyph, p);
    Prepend(s, p, i, ScanFrom(s, m, glyph, i));
  }

  /** A valid marker does not match at a line terminator: the scan copies
      it. */
  lemma ScanAtTerminator(s: string, m: Marker, glyph: string, e: nat)
    requires ValidMarker(m) && e < |s| && IsLineTerminator(s[e])
    ensures ScanFrom(s, m, glyph, e) == [s[e]] + ScanFrom(s, m, glyph, e + 1)
  {
    if MarkerEnd(s, e, m).Some? {
      MarkerWithinLine(s, e, m);
    }
    ScanAtCopy(s, m, glyph, e);
  }

  /** The scan from the end `e` of a line: the terminator (if any) and then
      the lines after it. */
  lemma ScanAtLineEnd(s: string, m: Marker, glyph: string, p: nat, e: nat)
    requires ValidMarker(m) && p <= |s| && e == LineEnd(s, p)
    requires e < |s| ==> ScanFrom(s, m, glyph, e + 1) == MapLinesFrom(s, m, glyph, e + 1)
    ensures ScanFrom(s, m, glyph, e) ==
      AfterLine(s, m, glyph, e)
  {
    if e < |s| {
      ScanAtTerminator(s, m, glyph, e);
      AfterLineStep(s, m, glyph, e);
    }
  }

  lemma AfterLineStep(s: string, m: Marker, glyph: string, e: nat)
    requires e < |s|
    ensures AfterLine(s, m, glyph, e) == [s[e]] + MapLinesFrom(s, m, glyph, e + 1)
  {
  }

  /** From every line start, the regular-expression scan and the line-by-line
      rewrite give the same text. */
  lemma {:induction false} ScanIsLineMapFrom(s: string, m: Marker, glyph: string, p: nat)
    requires ValidMarker(m) && p <= |s| && AtLineStart(s, p)
    ensures ScanFrom(s, m, glyph, p) == MapLinesFrom(s, m, glyph, p)
    decreases |s| - p
  {
    var e := LineEnd(s, p);
    if e < |s| {
      assert AtLineStart(s, e + 1);
      ScanIsLineMapFrom(s, m, glyph, e + 1);
    }
    ScanAtLineEnd(s, m, glyph, p, e);
    if p < |s| && MarkerEnd(s, p, m).Some? {
      LineMapAtMarker(s, m, glyph, p, e);
    } else {
      LineMapAtPlain(s, m, glyph, p, e);
    }
  }

  lemma LineMapAtMarker(s: string, m: Marker, glyph: string, p: nat, e: nat)
    requires ValidMarker(m) && p < |s| && AtLineStart(s, p) && MarkerEnd(s, p, m).Some?
    requires e == LineEnd(s, p)
    requires ScanFrom(s, m, glyph, e) == AfterLine(s, m, glyph, e)
    ensures ScanFrom(s, m, glyph, p) == MapLinesFrom(s, m, glyph, p)
  {
    var q := MarkerEnd(s, p, m).value;
    MarkerWithinLine(s, p, m);
    LineEndInside(s, p, q);
    ScanAtMarker(s, m, glyph, p, q, e);
    MapLinesStep(s, m, glyph, p, e);
    assert RewriteLine(s, m, glyph, p, e) == glyph + s[q..e];
  }

  lemma MapLinesStep(s: string, m: Marker, glyph: string, p: nat, e: nat)
    requires p <= |s| && e == LineEnd(s, p)
    ensures MapLinesFrom(s, m, glyph, p) ==
      RewriteLine(s, m, glyph, p, e) + AfterLine(s, m, glyph, e)
  {
  }

  lemma LineMapAtPlain(s: string, m: Marker, glyph: string, p: nat, e: nat)
    requires ValidMarker(m) && p <= |s| && AtLineStart(s, p) && !(p < |s| && MarkerEnd(s, p, m).Some?)
    requires e == LineEnd(s, p)
    requires ScanFrom(s, m, glyph, e) == AfterLine(s, m, glyph, e)
    ensures ScanFrom(s, m, glyph, p) == MapLinesFrom(s, m, glyph, p)
  {
    if p < e {
      ScanAtCopy(s, m, glyph, p);
      forall k | p + 1 <= k < e ensures !MatchesAt(s, m, k) {
        assert !IsLineTerminator(s[k - 1]);
      }
      ScanCopies(s, m, glyph, p + 1, e);
      Prepend(s, p, e, ScanFrom(s, m, glyph, e));
    } else {
      assert s[p..e] == [];
    }
    MapLinesStep(s, m, glyph, p, e);
  }

  /** `s.replace(/^M(.*$)/gm, 'G$1')` rewrites `s` line by line: a line that
      begins with the marker loses the marker and gains the glyph in front,
      every other line and every line terminator stays as it is. */
  lemma ScanIsLineMap(s: string, m: Marker, glyph: string)
    requires ValidMarker(m)
    ensures Scan(s, m, glyph) == MapLines(s, m, glyph)
  {
    ScanIsLineMapFrom(s, m, glyph, 0);
  }

  /** Where no line begins with the marker, the text is unchanged. */
  lemma ScanNoMarker(s: string, m: Marker, glyph: string)
    requires forall k :: 0 <= k < |s| && AtLineStart(s, k) ==> MarkerEnd(s, k, m).None?
    ensures Scan(s, m, glyph) == s
  {
    ScanCopies(s, m, glyph, 0, |s|);
    assert s[0..|s|] == s;
  }

  /** The first character the marker needs: its own first character, or a
      digit. */
  predicate CanStartMarker(m: Marker, c: char)
  {
    match m
    case Literal(t) => c == t[0]
    case Numbered => IsDigit(c)
  }

  /** A text in which no character could start the marker is unchanged. */
  lemma ScanWithoutMarkerStart(s: string, m: Marker, glyph: string)
    requires forall k :: 0 <= k < |s| ==> !CanStartMarker(m, s[k])
    ensures Scan(s, m, glyph) == s
  {
    forall k | 0 <= k < |s| && AtLineStart(s, k) ensures MarkerEnd(s, k, m).None? {
    }
    ScanNoMarker(s, m, glyph);
  }
}
