/**
  `parseMarkdown` of the note card: a fixed list of global regular-expression
  replacements applied one after the other to the note's text. Each rule is
  one of three kinds of scanner: a delimited span (`D(.*?)D`), a line-start
  rule (`^M(.*$)` under the `g` and `m` flags), or the link rule.
 */
module Markdown {
  import opened JsString
  import Spans
  import Lines
  import Links

  /** One `.replace` step of the chain. */
  datatype Rule =
    | Span(delim: Spans.Delimiter, dotAll: bool, left: string, right: string)
    | Line(marker: Lines.Marker, glyph: string)
    | Link

  /** The glyphs of the replacements, as code points. */
  const Bullet: string := "\U{2022}"
  const Memo: string := "\U{1F4DD}"
  const Clipboard: string := "\U{1F4CB}"
  const Pushpin: string := "\U{1F4CC}"
  const Computer: string := "\U{1F4BB}"
  const Voltage: string := "\U{26A1}"
  const Numbers: string := "\U{1F522}"
  const Speech: string := "\U{1F4AC}"

  /** The chain, in the order the calls are made. */
  const Rules: seq<Rule> := [
    Span("**", false, Bullet, Bullet),
    Span("__", false, Bullet, Bullet),
    Span("*", false, "_", "_"),
    Span("_", false, "_", "_"),
    Line(Lines.Literal("### "), Memo + " "),
    Line(Lines.Literal("## "), Clipboard + " "),
    Line(Lines.Literal("# "), Pushpin + " "),
    Span("```", true, Computer + " ", " " + Computer),
    Span("`", false, Voltage, Voltage),
    Line(Lines.Literal("- "), Bullet + " "),
    Line(Lines.Literal("* "), Bullet + " "),
    Line(Lines.Numbered, Numbers + " "),
    Link,
    Line(Lines.Literal("> "), Speech + " ")
  ]

  /** One replacement. */
  function ApplyRule(r: Rule, s: string): string
  {
    match r
    case Span(d, dotAll, left, right) => Spans.Replace(s, d, dotAll, left, right)
    case Line(m, glyph) => Lines.Scan(s, m, glyph)
    case Link => Links.ReplaceLinks(s)
  }

  /** The rules applied in order, the first one first. */
  function ApplyAll(rules: seq<Rule>, s: string): string
    decreases |rules|
  {
    if rules == [] then s else ApplyAll(rules[1..], ApplyRule(rules[0], s))
  }

  /** `parseMarkdown(text)`. */
  function ParseMarkdown(text: string): string
  {
    ApplyAll(Rules, text)
  }

  /** Running two lists of rules is running their concatenation. */
  lemma {:induction false} ApplyAllAppend(a: seq<Rule>, b: seq<Rule>, s: string)
    ensures ApplyAll(a + b, s) == ApplyAll(b, ApplyAll(a, s))
    decreases |a|
  {
    if a != [] {
      assert (a + b)[0] == a[0];
      assert (a + b)[1..] == a[1..] + b;
      ApplyAllAppend(a[1..], b, ApplyRule(a[0], s));
    } else {
      assert a + b == b;
    }
  }

  /** The character a rule needs to find before it can change anything:
      the delimiter's or marker's first character, a digit for the numbered
      list, `[` for a link. */
  predicate CanTrigger(r: Rule, c: char)
  {
    match r
    case Span(d, _, _, _) => c == d[0]
    case Line(m, _) => Lines.CanStartMarker(m, c)
    case Link => c == '['
  }

  /** No character of `s` can trigger `r`. */
  predicate Inert(r: Rule, s: string)
  {
    forall k :: 0 <= k < |s| ==> !CanTrigger(r, s[k])
  }

  /** A rule that finds nothing to trigger on leaves the text as it is. */
  lemma InertRuleKeepsText(r: Rule, s: string)
    requires Inert(r, s)
    ensures ApplyRule(r, s) == s
  {
    match r
    case Span(d, dotAll, left, right) =>
      assert d[0] !in s by {
        forall k | 0 <= k < |s| ensures s[k] != d[0] {
          assert !CanTrigger(r, s[k]);
        }
      }
      Spans.ReplaceWithoutDelimiter(s, d, dotAll, left, right);
    case Line(m, glyph) =>
      Lines.ScanWithoutMarkerStart(s, m, glyph);
    case Link =>
      assert '[' !in s by {
        forall k | 0 <= k < |s| ensures s[k] != '[' {
          assert !CanTrigger(r, s[k]);
        }
      }
      Links.ReplaceLinksWithoutBracket(s);
  }

  /** A text that no rule of a list can trigger on passes the whole list
      unchanged. */
  lemma {:induction false} InertRulesKeepText(rules: seq<Rule>, s: string)
    requires forall i :: 0 <= i < |rules| ==> Inert(rules[i], s)
    ensures ApplyAll(rules, s) == s
    decreases |rules|
  {
    if rules != [] {
      InertRuleKeepsText(rules[0], s);
      assert forall i :: 0 <= i < |rules[1..]| ==> Inert(rules[1..][i], s) by {
        forall i | 0 <= i < |rules[1..]| ensures Inert(rules[1..][i], s) {
          assert rules[1..][i] == rules[i + 1];
        }
      }
      InertRulesKeepText(rules[1..], s);
    }
  }

  /** The characters that some rule of the chain can start a match with. */
  predicate IsMarkupChar(c: char)
  {
    c == '*' || c == '_' || c == '#' || c == '`' || c == '-' || c == '>' || c == '[' || IsDigit(c)
  }

  /** No character of `s` is a markup character. */
  predicate Plain(s: string)
  {
    forall k :: 0 <= k < |s| ==> !IsMarkupChar(s[k])
  }

  /** A text without any of the characters `*_#`, a backquote, `->[` and
      without digits is shown as it is. */
  lemma PlainTextUnchanged(s: string)
    requires Plain(s)
    ensures ParseMarkdown(s) == s
  {
    forall i | 0 <= i < |Rules| ensures Inert(Rules[i], s) {
      forall k | 0 <= k < |s| ensures !CanTrigger(Rules[i], s[k]) {
        assert !IsMarkupChar(s[k]);
      }
    }
    InertRulesKeepText(Rules, s);
  }

  /** The fourth rule, `_(.*?)_` to `_$1_`, changes no text. */
  lemma UnderscoreRuleIsIdentity(s: string)
    ensures ApplyRule(Rules[3], s) == s
  {
    Spans.ReplaceByDelimiterIsIdentity(s, "_", false);
  }

  /** Every line-start rule of the chain has a marker inside one line, so
      the line-by-line reading of those rules applies to each of them. */
  lemma LineRulesReadLineByLine(i: nat, s: string)
    requires i < |Rules| && Rules[i].Line?
    ensures ApplyRule(Rules[i], s) == Lines.MapLines(s, Rules[i].marker, Rules[i].glyph)
  {
    var m := Rules[i].marker;
    if m.Literal? {
      forall k | 0 <= k < |m.text| ensures !IsLineTerminator(m.text[k]) {
      }
    }
    Lines.ScanIsLineMap(s, m, Rules[i].glyph);
  }

  /** An empty capture is allowed: `****` becomes two bullets. */
  lemma EmptyBoldExample()
    ensures ApplyRule(Rules[0], "****") == Bullet + Bullet
  {
  }

  /** The number of an ordered-list item is dropped. */
  lemma NumberedExample()
    ensures ApplyRule(Rules[11], "12. x") == Numbers + " x"
  {
  }

  /** The chain is the rules `0..|Rules|`. */
  lemma ChainIsRange(s: string)
    ensures ParseMarkdown(s) == ApplyAll(Rules[0..|Rules|], s)
  {
    assert Rules[0..|Rules|] == Rules;
  }

  /** Rules `lo..hi` are rules `lo..mid` followed by rules `mid..hi`. */
  lemma ApplyRange(lo: nat, mid: nat, hi: nat, s: string)
    requires lo <= mid <= hi <= |Rules|
    ensures ApplyAll(Rules[lo..hi], s) == ApplyAll(Rules[mid..hi], ApplyAll(Rules[lo..mid], s))
  {
    assert Rules[lo..hi] == Rules[lo..mid] + Rules[mid..hi];
    ApplyAllAppend(Rules[lo..mid], Rules[mid..hi], s);
  }

  /** Rules `i..hi` are rule `i` followed by rules `i + 1..hi`. */
  lemma ApplyFirst(i: nat, hi: nat, s: string)
    requires i < hi <= |Rules|
    ensures ApplyAll(Rules[i..hi], s) == ApplyAll(Rules[i + 1..hi], ApplyRule(Rules[i], s))
  {
    assert Rules[i..hi][0] == Rules[i];
    assert Rules[i..hi][1..] == Rules[i + 1..hi];
  }

  /** Rules `lo..hi` that are all inert on `s` leave it unchanged. */
  lemma InertRangeKeepsText(lo: nat, hi: nat, s: string)
    requires lo <= hi <= |Rules|
    requires forall i :: lo <= i < hi ==> Inert(Rules[i], s)
    ensures ApplyAll(Rules[lo..hi], s) == s
  {
    forall i | 0 <= i < hi - lo ensures Inert(Rules[lo..hi][i], s) {
      assert Rules[lo..hi][i] == Rules[lo + i];
    }
    InertRulesKeepText(Rules[lo..hi], s);
  }

  /** Every rule is inert on a text without markup characters. */
  lemma PlainIsInert(s: string, i: nat)
    requires Plain(s)
    requires i < |Rules|
    ensures Inert(Rules[i], s)
  {
    forall k | 0 <= k < |s| ensures !CanTrigger(Rules[i], s[k]) {
      assert !IsMarkupChar(s[k]);
    }
  }

  /** A word between `**` is shown between bullets, as `**bold**` is shown
      as `•bold•`. */
  lemma FormatsBold(w: string)
    requires Plain(w) && OneLine(w)
    ensures ParseMarkdown("**" + w + "**") == Bullet + w + Bullet
  {
    var s := "**" + w + "**";
    var t := Bullet + w + Bullet;
    BoldRule(w);
    ChainIsRange(s);
    ApplyFirst(0, |Rules|, s);
    PrefixedPlain(Bullet, w);
    PrefixedPlain(Bullet + w, Bullet);
    forall i | 1 <= i < |Rules| ensures Inert(Rules[i], t) {
      PlainIsInert(t, i);
    }
    InertRangeKeepsText(1, |Rules|, t);
  }

  /** The first rule turns `**w**` into `•w•`. */
  lemma BoldRule(w: string)
    requires Plain(w) && OneLine(w)
    ensures ApplyRule(Rules[0], "**" + w + "**") == Bullet + w + Bullet
  {
    assert Rules[0] == Span("**", false, Bullet, Bullet);
    BoldSpan(w);
  }

  /** `**w**` is replaced by the bullets around `w`. */
  lemma BoldSpan(w: string)
    requires Plain(w) && OneLine(w)
    ensures Spans.Replace("**" + w + "**", "**", false, Bullet, Bullet) == Bullet + w + Bullet
  {
    var s := "**" + w + "**";
    var j := |w| + 2;
    BoldMatch(w);
    Spans.ReplaceWholeMatch(s, "**", false, Bullet, Bullet, j);
    assert s[2..j] == w;
  }

  /** `**w**` is one match of `\*\*(.*?)\*\*` with capture `w`. */
  lemma BoldMatch(w: string)
    requires Plain(w) && OneLine(w)
    ensures Spans.MatchAt("**" + w + "**", "**", false, 0, |w| + 2)
  {
    var s := "**" + w + "**";
    var j := |w| + 2;
    forall k | 2 <= k < j ensures Spans.DotMatches(false, s[k]) && !Spans.OccursAt(s, k, "**") {
      assert s[k] == w[k - 2] && !IsMarkupChar(w[k - 2]) && "**"[0] == '*';
    }
    assert s[0] == '*' && s[1] == '*' && s[j] == '*' && s[j + 1] == '*';
  }

  /** Which characters can trigger which rules: only markup characters
      trigger any, `#` triggers only the header rules and `[` only the link
      rule. */
  lemma TriggerChars(i: nat, c: char)
    requires i < |Rules|
    ensures CanTrigger(Rules[i], c) ==> IsMarkupChar(c)
    ensures c == '#' ==> (CanTrigger(Rules[i], c) <==> 4 <= i < 7)
    ensures c == '[' ==> (CanTrigger(Rules[i], c) <==> i == 12)
  {
  }

  /** No character of `s` is a line terminator. */
  predicate OneLine(s: string)
  {
    forall k :: 0 <= k < |s| ==> !IsLineTerminator(s[k])
  }

  /** A plain text after a plain prefix is plain. */
  lemma PrefixedPlain(g: string, w: string)
    requires Plain(g) && Plain(w)
    ensures Plain(g + w)
  {
    forall k | 0 <= k < |g + w| ensures !IsMarkupChar((g + w)[k]) {
      if k < |g| {
        assert (g + w)[k] == g[k];
      } else {
        assert (g + w)[k] == w[k - |g|];
      }
    }
  }

  /** A header line `# w` is shown as the pushpin glyph, a space and `w`, as
      `# Title` is. */
  lemma FormatsHeader(w: string)
    requires Plain(w) && OneLine(w)
    ensures ParseMarkdown("# " + w) == Pushpin + " " + w
  {
    var s := "# " + w;
    var t := Pushpin + " " + w;
    HeaderBeforeRule(w);
    HeaderRule(w);
    ApplyFirst(6, |Rules|, s);
    HeaderAfterRule(w);
  }

  /** Rules `0..6` leave `# w` as it is. */
  lemma HeaderBeforeRule(w: string)
    requires Plain(w) && OneLine(w)
    ensures ParseMarkdown("# " + w) == ApplyAll(Rules[6..|Rules|], "# " + w)
  {
    var s := "# " + w;
    HeaderInert(w);
    ChainIsRange(s);
    ApplyRange(0, 4, |Rules|, s);
    InertRangeKeepsText(0, 4, s);
    HeaderPassesLongerHeaders(w);
  }

  /** The `###` and `##` rules leave `# w` as it is. */
  lemma HeaderPassesLongerHeaders(w: string)
    requires Plain(w) && OneLine(w)
    ensures ApplyAll(Rules[4..|Rules|], "# " + w) == ApplyAll(Rules[6..|Rules|], "# " + w)
  {
    var s := "# " + w;
    HeaderInert(w);
    ApplyFirst(4, |Rules|, s);
    HeaderSkipsLongerMarker(s, 4);
    ApplyFirst(5, |Rules|, s);
    HeaderSkipsLongerMarker(s, 5);
  }

  /** `# w` is one line, and the emphasis rules `0..4` are inert on it. */
  lemma HeaderInert(w: string)
    requires Plain(w) && OneLine(w)
    ensures OneLine("# " + w) && ("# " + w)[1] == ' '
    ensures forall i :: 0 <= i < 4 ==> Inert(Rules[i], "# " + w)
  {
    var s := "# " + w;
    forall k | 0 <= k < |s| ensures (k == 0 || !IsMarkupChar(s[k])) && !IsLineTerminator(s[k]) {
      if 2 <= k {
        assert s[k] == w[k - 2];
      }
    }
    forall i | 0 <= i < 4 ensures Inert(Rules[i], s) {
      forall k | 0 <= k < |s| ensures !CanTrigger(Rules[i], s[k]) {
        TriggerChars(i, s[k]);
      }
    }
  }

  /** Rules `7..` leave the formatted header as it is. */
  lemma HeaderAfterRule(w: string)
    requires Plain(w)
    ensures ApplyAll(Rules[7..|Rules|], Pushpin + " " + w) == Pushpin + " " + w
  {
    var t := Pushpin + " " + w;
    PrefixedPlain(Pushpin + " ", w);
    forall i | 7 <= i < |Rules| ensures Inert(Rules[i], t) {
      PlainIsInert(t, i);
    }
    InertRangeKeepsText(7, |Rules|, t);
  }

  /** The `###` and `##` rules (`4` and `5`) leave a one-line text whose
      second character is a space as it is. */
  lemma HeaderSkipsLongerMarker(s: string, i: nat)
    requires i == 4 || i == 5
    requires |s| >= 2 && s[1] == ' ' && OneLine(s)
    ensures ApplyRule(Rules[i], s) == s
  {
    var m := Rules[i].marker;
    assert m.Literal? && m.text[1] == '#';
    forall k | 0 <= k < |s| && Lines.AtLineStart(s, k) ensures Lines.MarkerEnd(s, k, m).None? {
    }
    Lines.ScanNoMarker(s, m, Rules[i].glyph);
  }

  /** The seventh rule turns `# w` into the pushpin glyph, a space and `w`. */
  lemma HeaderRule(w: string)
    requires OneLine(w)
    ensures ApplyRule(Rules[6], "# " + w) == Pushpin + " " + w
  {
    assert Rules[6] == Line(Lines.Literal("# "), Pushpin + " ");
    HeaderLine(w);
  }

  /** `# w`, one line, is replaced by the glyph and `w`. */
  lemma HeaderLine(w: string)
    requires OneLine(w)
    ensures Lines.Scan("# " + w, Lines.Literal("# "), Pushpin + " ") == Pushpin + " " + w
  {
    var s := "# " + w;
    forall k | 2 <= k < |s| ensures !IsLineTerminator(s[k]) {
      assert s[k] == w[k - 2];
    }
    var e := Lines.LineEnd(s, 2);
    assert e == |s|;
    Lines.ScanAtMarker(s, Lines.Literal("# "), Pushpin + " ", 0, 2, e);
    assert s[2..e] == w;
  }

  /** A link `[label](url)` is shown as the link glyph and its label, without
      the URL, as `[See](http://x)` is shown as `🔗 See`. */
  lemma FormatsLink(caption: string, url: string)
    requires caption != [] && url != []
    requires Plain(caption) && forall k :: 0 <= k < |caption| ==> caption[k] != ']'
    requires Plain(url) && forall k :: 0 <= k < |url| ==> url[k] != ')'
    ensures ParseMarkdown("[" + caption + "](" + url + ")") == Links.LinkGlyph + caption
  {
    var s := "[" + caption + "](" + url + ")";
    LinkBeforeRule(caption, url);
    LinkRule(caption, url);
    ApplyFirst(12, |Rules|, s);
    LinkAfterRule(caption);
  }

  /** Rules `0..12` leave `[label](url)` as it is. */
  lemma LinkBeforeRule(caption: string, url: string)
    requires Plain(caption) && Plain(url)
    ensures ParseMarkdown("[" + caption + "](" + url + ")") == ApplyAll(Rules[12..|Rules|], "[" + caption + "](" + url + ")")
  {
    var s := "[" + caption + "](" + url + ")";
    LinkInert(caption, url);
    ChainIsRange(s);
    ApplyRange(0, 12, |Rules|, s);
    InertRangeKeepsText(0, 12, s);
  }

  /** The rules `0..12` before the link rule are inert on `[label](url)`. */
  lemma LinkInert(caption: string, url: string)
    requires Plain(caption) && Plain(url)
    ensures forall i :: 0 <= i < 12 ==> Inert(Rules[i], "[" + caption + "](" + url + ")")
  {
    var s := "[" + caption + "](" + url + ")";
    forall k | 0 <= k < |s| ensures k == 0 || !IsMarkupChar(s[k]) {
      if 1 <= k < |caption| + 1 {
        assert s[k] == caption[k - 1];
      } else if |caption| + 3 <= k < |caption| + 3 + |url| {
        assert s[k] == url[k - |caption| - 3];
      }
    }
    forall i | 0 <= i < 12 ensures Inert(Rules[i], s) {
      forall k | 0 <= k < |s| ensures !CanTrigger(Rules[i], s[k]) {
        TriggerChars(i, s[k]);
      }
    }
  }

  /** The last rule leaves the formatted link as it is. */
  lemma LinkAfterRule(caption: string)
    requires Plain(caption)
    ensures ApplyAll(Rules[13..|Rules|], Links.LinkGlyph + caption) == Links.LinkGlyph + caption
  {
    var t := Links.LinkGlyph + caption;
    PrefixedPlain(Links.LinkGlyph, caption);
    PlainIsInert(t, 13);
    InertRangeKeepsText(13, |Rules|, t);
  }

  /** The thirteenth rule turns `[label](url)` into the glyph and the caption. */
  lemma LinkRule(caption: string, url: string)
    requires caption != [] && url != []
    requires forall k :: 0 <= k < |caption| ==> caption[k] != ']'
    requires forall k :: 0 <= k < |url| ==> url[k] != ')'
    ensures ApplyRule(Rules[12], "[" + caption + "](" + url + ")") == Links.LinkGlyph + caption
  {
    assert Rules[12] == Link;
    LinkReplaced(caption, url);
  }

  /** `[label](url)` alone is replaced by the glyph and the label. */
  lemma LinkReplaced(caption: string, url: string)
    requires caption != [] && url != []
    requires forall k :: 0 <= k < |caption| ==> caption[k] != ']'
    requires forall k :: 0 <= k < |url| ==> url[k] != ')'
    ensures Links.ReplaceLinks("[" + caption + "](" + url + ")") == Links.LinkGlyph + caption
  {
    var s := "[" + caption + "](" + url + ")";
    var close := |caption| + 1;
    var end := close + 2 + |url|;
    LinkMatch(caption, url);
    Links.ReplaceLinksWhole(s, close, end);
    assert s[1..close] == caption;
  }

  /** `[label](url)` is one link, with its `]` and `)` where they are
      written. */
  lemma LinkMatch(caption: string, url: string)
    requires caption != [] && url != []
    requires forall k :: 0 <= k < |caption| ==> caption[k] != ']'
    requires forall k :: 0 <= k < |url| ==> url[k] != ')'
    ensures Links.IsLinkAt("[" + caption + "](" + url + ")", 0, |caption| + 1, |caption| + 3 + |url|)
  {
    var s := "[" + caption + "](" + url + ")";
    var close := |caption| + 1;
    var end := close + 2 + |url|;
    forall i | 1 <= i < close ensures s[i] != ']' {
      assert s[i] == caption[i - 1];
    }
    forall i | close + 2 <= i < end ensures s[i] != ')' {
      assert s[i] == url[i - close - 2];
    }
    assert s[0] == '[' && s[close] == ']' && s[close + 1] == '(' && s[end] == ')';
  }

  lemma BoldWordExample()
    ensures ParseMarkdown("**bold**") == Bullet + "bold" + Bullet
  {
    assert "**" + "bold" + "**" == "**bold**";
    FormatsBold("bold");
  }

  lemma TitleExample()
    ensures ParseMarkdown("# Title") == Pushpin + " Title"
  {
    assert "# " + "Title" == "# Title" && Pushpin + " " + "Title" == Pushpin + " Title";
    FormatsHeader("Title");
  }

  /** The URL of a link is not shown. */
  lemma LinkExample()
    ensures ParseMarkdown("[See](http://x)") == Links.LinkGlyph + "See"
  {
    assert "[" + "See" + "](" + "http://x" + ")" == "[See](http://x)";
    FormatsLink("See", "http://x");
  }

}
