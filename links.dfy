/**
  Global replacement of `\[([^\]]+)\]\(([^)]+)\)` by a link glyph followed by
  the label (`$1`); the URL (`$2`) is dropped. Both character classes are
  negated, so they also match line terminators, and both are greedy: the
  label runs up to the first `]`, the URL up to the first `)`. A greedy run
  cannot give characters back here, because the character after a shorter
  run would be one of the run's own characters and never the closing
  bracket, so a match is unique where it exists.
 */
module Links {
  import opened Spans

  /** The replacement's fixed part: U+1F517 LINK SYMBOL and a space. */
  const LinkGlyph: string := "\U{1F517} "

  /** Where a link that starts at `p` closes its label (`close`, the `]`) and
      ends (`end`, the `)`). */
  datatype LinkMatch = LinkMatch(close: nat, end: nat)

  /** First position at or after `k` holding `c`, or `|s|`. */
  function FirstFrom(s: string, c: char, k: nat): (e: nat)
    requires k <= |s|
    ensures k <= e <= |s|
    ensures forall i :: k <= i < e ==> s[i] != c
    ensures e < |s| ==> s[e] == c
    decreases |s| - k
  {
    if k == |s| || s[k] == c then k else FirstFrom(s, c, k + 1)
  }

  /** Declarative meaning of a match at `p`: `[`, a non-empty label without
      `]`, `](`, a non-empty URL without `)`, and `)`. */
  ghost predicate IsLinkAt(s: string, p: nat, close: nat, end: nat)
  {
    p + 1 < close && close + 2 < end < |s| &&
    s[p] == '[' && s[close] == ']' && s[close + 1] == '(' && s[end] == ')' &&
    (forall i :: p + 1 <= i < close ==> s[i] != ']') &&
    (forall i :: close + 2 <= i < end ==> s[i] != ')')
  }

  /** The regular-expression engine's attempt at position `p`. */
  function LinkAt(s: string, p: nat): (r: Option<LinkMatch>)
    requires p <= |s|
    ensures r.Some? ==> p + 1 < r.value.close && r.value.close + 2 < r.value.end < |s|
  {
    if p < |s| && s[p] == '[' then
      var close := FirstFrom(s, ']', p + 1);
      if p + 1 < close && close + 1 < |s| && s[close + 1] == '(' then
        var end := FirstFrom(s, ')', close + 2);
        if close + 2 < end < |s| then Some(LinkMatch(close, end)) else None
      else None
    else None
  }

  /** The attempt finds exactly the declarative match, and no match where
      there is none. */
  lemma LinkAtCorrect(s: string, p: nat, close: nat, end: nat)
    requires p <= |s|
    ensures LinkAt(s, p) == Some(LinkMatch(close, end)) <==> IsLinkAt(s, p, close, end)
  {
    if IsLinkAt(s, p, close, end) {
      FirstFromIs(s, ']', p + 1, close);
      FirstFromIs(s, ')', close + 2, end);
    }
  }

  lemma FirstFromIs(s: string, c: char, k: nat, e: nat)
    requires k <= e < |s| && s[e] == c
    requires forall i :: k <= i < e ==> s[i] != c
    ensures FirstFrom(s, c, k) == e
    decreases e - k
  {
    if k < e {
      FirstFromIs(s, c, k + 1, e);
    }
  }

  /** The scan of a global replace from position `p`. */
  function ReplaceLinksFrom(s: string, p: nat): string
    requires p <= |s|
    decreases |s| - p
  {
    if p == |s| then [] else Emit(s, p) + ReplaceLinksFrom(s, Resume(s, p))
  }

  /** What the scan emits at `p < |s|`: the glyph and label of a link, or
      the character there. */
  function Emit(s: string, p: nat): string
    requires p < |s|
  {
    match LinkAt(s, p)
    case Some(lm) => LinkGlyph + s[p + 1..lm.close]
    case None => [s[p]]
  }

  /** Where the scan goes on: after the link's `)`, or at the next
      character. */
  function Resume(s: string, p: nat): (q: nat)
    requires p < |s|
    ensures p < q <= |s|
  {
    match LinkAt(s, p)
    case Some(lm) => lm.end + 1
    case None => p + 1
  }

  /** `s.replace(/\[([^\]]+)\]\(([^)]+)\)/g, '🔗 $1')`. */
  function ReplaceLinks(s: string): string
  {
    ReplaceLinksFrom(s, 0)
  }

  lemma ScanAtLink(s: string, p: nat, close: nat, end: nat)
    requires p < |s| && LinkAt(s, p) == Some(LinkMatch(close, end))
    ensures ReplaceLinksFrom(s, p) == LinkGlyph + s[p + 1..close] + ReplaceLinksFrom(s, end + 1)
  {
    ScanStep(s, p);
    EmitAtLink(s, p, close, end);
  }

  lemma ScanStep(s: string, p: nat)
    requires p < |s|
    ensures ReplaceLinksFrom(s, p) == Emit(s, p) + ReplaceLinksFrom(s, Resume(s, p))
  {
  }

  lemma EmitAtLink(s: string, p: nat, close: nat, end: nat)
    requires p < |s| && LinkAt(s, p) == Some(LinkMatch(close, end))
    ensures p + 1 < close < |s| && Resume(s, p) == end + 1
    ensures Emit(s, p) == LinkGlyph + s[p + 1..close]
  {
  }

  lemma EmitAtCopy(s: string, p: nat)
    requires p < |s| && LinkAt(s, p).None?
    ensures Resume(s, p) == p + 1 && Emit(s, p) == [s[p]]
  {
  }

  lemma ScanAtCopy(s: string, p: nat)
    requires p < |s| && LinkAt(s, p).None?
    ensures ReplaceLinksFrom(s, p) == [s[p]] + ReplaceLinksFrom(s, p + 1)
  {
    ScanStep(s, p);
    EmitAtCopy(s, p);
  }

  /** Up to the next link, the scan copies the text. */
  lemma {:induction false} ScanCopies(s: string, p: nat, i: nat)
    requires p <= i <= |s|
    requires forall k :: p <= k < i ==> LinkAt(s, k).None?
    ensures ReplaceLinksFrom(s, p) == s[p..i] + ReplaceLinksFrom(s, i)
    decreases i - p
  {
    if p < i {
      ScanCopies(s, p + 1, i);
      CopyStep(s, p, i);
    } else {
      assert s[p..i] == [];
    }
  }

  lemma CopyStep(s: string, p: nat, i: nat)
    requires p < i <= |s| && LinkAt(s, p).None?
    requires ReplaceLinksFrom(s, p + 1) == s[p + 1..i] + ReplaceLinksFrom(s, i)
    ensures ReplaceLinksFrom(s, p) == s[p..i] + ReplaceLinksFrom(s, i)
  {
    ScanAtCopy(s, p);
    Prepend(s, p, i, ReplaceLinksFrom(s, i));
  }

  /** Global replacement semantics from any scan position `p`: the first
      link at or after `p` becomes the glyph and its label, its URL is
      dropped, the text before it is kept, and the scan resumes right after
      its `)`. */
  lemma ReplaceLinksNext(s: string, p: nat, i: nat, close: nat, end: nat)
    requires p <= i && IsLinkAt(s, i, close, end)
    requires forall k, c, e :: p <= k < i ==> !IsLinkAt(s, k, c, e)
    ensures ReplaceLinksFrom(s, p) == s[p..i] + LinkGlyph + s[i + 1..close] + ReplaceLinksFrom(s, end + 1)
  {
    NoLinkBetween(s, p, i);
    ScanCopies(s, p, i);
    ScanAtIsLink(s, i, close, end);
    Associate(s[p..i], LinkGlyph, s[i + 1..close], ReplaceLinksFrom(s, end + 1));
  }

  /** A link at the scan position is replaced. */
  lemma ScanAtIsLink(s: string, i: nat, close: nat, end: nat)
    requires IsLinkAt(s, i, close, end)
    ensures ReplaceLinksFrom(s, i) == LinkGlyph + s[i + 1..close] + ReplaceLinksFrom(s, end + 1)
  {
    LinkAtCorrect(s, i, close, end);
    ScanAtLink(s, i, close, end);
  }

  lemma Associate(a: string, b: string, c: string, e: string)
    ensures a + (b + c + e) == a + b + c + e
  {
  }

  /** Where no link starts, the matcher finds none. */
  lemma NoLinkBetween(s: string, p: nat, i: nat)
    requires i <= |s|
    requires forall k, c, e :: p <= k < i ==> !IsLinkAt(s, k, c, e)
    ensures forall k :: p <= k < i ==> LinkAt(s, k).None?
  {
    forall k | p <= k < i ensures LinkAt(s, k).None? {
      if LinkAt(s, k).Some? {
        LinkAtCorrect(s, k, LinkAt(s, k).value.close, LinkAt(s, k).value.end);
      }
    }
  }

  /** The leftmost link of the text: the replacement keeps the text before
      it, and the scan resumes right after its `)`. */
  lemma ReplaceLinksLeftmost(s: string, i: nat, close: nat, end: nat)
    requires IsLinkAt(s, i, close, end)
    requires forall k, c, e :: 0 <= k < i ==> !IsLinkAt(s, k, c, e)
    ensures ReplaceLinks(s) == s[..i] + LinkGlyph + s[i + 1..close] + ReplaceLinksFrom(s, end + 1)
  {
    ReplaceLinksNext(s, 0, i, close, end);
    assert s[0..i] == s[..i];
  }

  /** A text that is one link from end to end becomes the glyph and its
      label. */
  lemma ReplaceLinksWhole(s: string, close: nat, end: nat)
    requires IsLinkAt(s, 0, close, end) && end + 1 == |s|
    ensures ReplaceLinks(s) == LinkGlyph + s[1..close]
  {
    ReplaceLinksLeftmost(s, 0, close, end);
    assert s[..0] == [];
  }

  /** Where no link matches, the text is unchanged. */
  lemma ReplaceLinksNoMatch(s: string)
    requires forall k, c, e :: 0 <= k < |s| ==> !IsLinkAt(s, k, c, e)
    ensures ReplaceLinks(s) == s
  {
    forall k | 0 <= k < |s| ensures LinkAt(s, k).None? {
      if LinkAt(s, k).Some? {
        LinkAtCorrect(s, k, LinkAt(s, k).value.close, LinkAt(s, k).value.end);
      }
    }
    ScanCopies(s, 0, |s|);
    assert s[0..|s|] == s;
  }

  /** A text without `[` is unchanged. */
  lemma ReplaceLinksWithoutBracket(s: string)
    requires '[' !in s
    ensures ReplaceLinks(s) == s
  {
    forall k | 0 <= k < |s| ensures LinkAt(s, k).None? {
      assert s[k] in s;
    }
    ScanCopies(s, 0, |s|);
    assert s[0..|s|] == s;
  }
}
