# Note card: formatting and edit state

This project models the note card component of a note-taking app. The
component shows one note, formats the note's text with a small
markdown-like formatter, and lets the user edit, save, cancel and delete the
note. The model has two parts.

- **The formatter `parseMarkdown`.** It is a chain of fourteen global
  regular-expression replacements. The model has one exact, parameterised
  scanner per kind of regular expression, and the chain is the list `Markdown.Rules` applied
  in source order.
  - `spans.dfy` handles delimited spans `D(.*?)D`: bold, italic, fenced code
    and inline code. The lazy capture takes the shortest match. `.` does not
    match a line terminator unless the `s` flag is set, and only the fenced
    code rule sets it.
  - `lines.dfy` handles line-start rules `^M(.*$)` under the `g` and `m`
    flags: headers, list items, numbered items and quotes. The lemmas prove
    that this scan is the same as rewriting the text line by line.
  - `links.dfy` handles the link rule `[label](url)`.
  - `jsstring.dfy` gives the ECMAScript line terminators and white space,
    and `trim`.
- **The component state.** The note is a value that the component receives
  and never changes. The three state hooks are `isEditing`, the content
  draft and the topic draft. The handlers change them and make the
  `onUpdate` and `onDelete` callbacks. `NoteCardView.Step` states what one
  user action does. The class `NoteCardView.NoteCard` carries out the same
  actions in place and logs the callbacks it makes. `NoteCardView.View` is
  what the card renders in each mode.

Characters are Unicode code points. Every delimiter, marker and character
class in the formatter is a Basic Multilingual Plane (BMP) code point, and
each glyph is an atom in the output. So counting code points instead of
UTF-16 code units changes no match.

Three points of the component's behaviour are easy to get wrong, and the
model follows what the code does.
- Pressing edit only sets `isEditing` (components/NoteCard.tsx:134). It does
  not copy the note into the drafts.
- A successful save does not reset the drafts. They keep the text as typed,
  untrimmed (components/NoteCard.tsx:43-51).
- The state is three independent hooks (components/NoteCard.tsx:39-41), not
  a tagged union of viewing and editing. In viewing mode the drafts still exist, and a later edit shows
  them (`NoteCardView.EditAgainShowsOldDraft`).

## Model

| member | source | states |
|---|---|---|
| JsString.Trim | components/NoteCard.tsx:44-47 | `trim` returns the slice between an all-trimmable prefix and an all-trimmable suffix. The result does not start or end with white space or a line terminator. It is empty exactly when the whole text is trimmable. |
| JsString.TrimFixesTrimmed | components/NoteCard.tsx:44-47 | `trim` leaves a string unchanged exactly when neither end is trimmable. |
| JsString.TrimIdempotent | components/NoteCard.tsx:44-47 | Trimming twice is trimming once. |
| JsString.TrimSurrounded | components/NoteCard.tsx:44-47 | Trimming removes exactly the white space around a text that starts and ends visibly. |
| Spans.Replace | components/NoteCard.tsx:10-14 | `s.replace(/D(.*?)D/g, 'L$1R')`, with the `s` flag when `dotAll` is set. It has no `ensures` of its own. Its meaning is given by `Spans.ReplaceLeftmost`, `Spans.ReplaceNoMatch` and `Spans.ReplaceByDelimiterIsIdentity`. It also serves lines 20-21. |
| Spans.FindClose | components/NoteCard.tsx:10-14 | The lazy search returns a position at or after its start where the closing delimiter occurs. |
| Spans.FindCloseCorrect | components/NoteCard.tsx:10-14 | The lazy search finds exactly these closing positions: the delimiter occurs there, every character before it matches `.`, and the delimiter occurs at no earlier position. |
| Spans.StartsMatchIff | components/NoteCard.tsx:10-14 | The scan's test at a position holds exactly when the regular expression matches there. It then picks the one shortest capture. |
| Spans.ReplaceLeftmost | components/NoteCard.tsx:10-14 | A global `D(.*?)D` replace keeps the text before the leftmost match. It replaces that match by `L capture R` and resumes right after the match. The same scanner serves lines 20-21. |
| Spans.ReplaceWholeMatch | components/NoteCard.tsx:10-14 | A text that is one match from end to end, such as `**b**` for `\*\*(.*?)\*\*`, becomes the left replacement, the capture and the right replacement. |
| Spans.ReplaceNoMatch | components/NoteCard.tsx:10-14 | Text where the expression matches nowhere is returned unchanged. |
| Spans.ReplaceWithoutDelimiter | components/NoteCard.tsx:20-21 | Text without the delimiter's first character is returned unchanged. |
| Spans.ReplaceByDelimiterIsIdentity | components/NoteCard.tsx:14 | A replacement that puts its own delimiters back, such as `_(.*?)_` with `_$1_`, changes no text. |
| Lines.Scan | components/NoteCard.tsx:16-18 | `s.replace(/^M(.*$)/gm, 'G$1')`. It has no `ensures` of its own. Its meaning is given by `Lines.ScanIsLineMap` and `Lines.ScanNoMarker`. It also serves lines 23-25 and 29. |
| Lines.DigitRunEnd | components/NoteCard.tsx:25 | `\d+` takes the longest run of ASCII digits. |
| Lines.NumberedMarkerIff | components/NoteCard.tsx:25 | `^\d+\. ` matches at a line start and ends at position `e + 2` exactly when one or more digits run up to `e` and `. ` follows them. |
| Lines.LineEnd | components/NoteCard.tsx:16-18 | `.*$` under the `m` flag runs to the first line terminator, or to the end of the text. |
| Lines.MarkerWithinLine | components/NoteCard.tsx:16-25 | A marker without line terminators never spans a line break. |
| Lines.ScanIsLineMap | components/NoteCard.tsx:16-18 | A `^M(.*$)` `gm` replace is the same as rewriting line by line. A line that begins with the marker has its marker replaced by the glyph and keeps the rest. Every other line and every terminator stays. |
| Lines.ScanNoMarker | components/NoteCard.tsx:23-25 | Text with no line that begins with the marker is unchanged. |
| Lines.ScanWithoutMarkerStart | components/NoteCard.tsx:23-29 | Text with no character that can start the marker is unchanged. |
| Links.ReplaceLinks | components/NoteCard.tsx:27 | The global link replace. It has no `ensures` of its own. Its meaning is given by `Links.ReplaceLinksLeftmost` and `Links.ReplaceLinksNoMatch`. |
| Links.LinkAt | components/NoteCard.tsx:27 | The matcher's attempt at one position. A match it reports has a non-empty label and URL and ends inside the text. `Links.LinkAtCorrect` states its full meaning. |
| Links.FirstFrom | components/NoteCard.tsx:27 | The greedy `[^\]]+` and `[^)]+` runs stop at the first `]` or `)`. |
| Links.LinkAtCorrect | components/NoteCard.tsx:27 | The matcher finds a link at a position exactly when there is a `[`, a label without `]`, `](`, a URL without `)` and a `)`. Both label and URL are non-empty. |
| Links.ReplaceLinksLeftmost | components/NoteCard.tsx:27 | The leftmost link becomes the link glyph and its label. The URL is dropped, the text before the link is kept, and the scan resumes after the `)`. |
| Links.ReplaceLinksNext | components/NoteCard.tsx:27 | From any scan position, the scan keeps the text up to the first link at or after it, turns that link into the glyph and its label, drops the URL and resumes right after the `)`. |
| Links.ReplaceLinksWhole | components/NoteCard.tsx:27 | A text that is one link from end to end becomes the glyph and its label. |
| Links.ReplaceLinksNoMatch | components/NoteCard.tsx:27 | Text with no link is unchanged. |
| Links.ReplaceLinksWithoutBracket | components/NoteCard.tsx:27 | Text without `[` is unchanged. |
| Markdown.ParseMarkdown | components/NoteCard.tsx:7-30 | `parseMarkdown`: the chain `Markdown.Rules` applied to the text. It has no `ensures` of its own. Its meaning is given by `Markdown.PlainTextUnchanged`, `Markdown.FormatsBold`, `Markdown.FormatsHeader` and `Markdown.FormatsLink`. |
| Markdown.ApplyRule | components/NoteCard.tsx:10-29 | One `.replace` call: a span, line-start or link rule run by its scanner. It has no `ensures` of its own. `Markdown.InertRuleKeepsText`, `Markdown.UnderscoreRuleIsIdentity` and `Markdown.LineRulesReadLineByLine` state what it does. |
| Markdown.ApplyAll | components/NoteCard.tsx:8-29 | The rules of a list applied in order, first one first. `Markdown.Rules` holds the fourteen calls in source order. It has no `ensures` of its own. `Markdown.ApplyAllAppend` and `Markdown.InertRulesKeepText` state its meaning. |
| Markdown.ApplyAllAppend | components/NoteCard.tsx:8-29 | Running two lists of rules one after the other is running them as one chain. |
| Markdown.InertRuleKeepsText | components/NoteCard.tsx:10-29 | A rule whose trigger character is absent leaves the text unchanged. |
| Markdown.InertRulesKeepText | components/NoteCard.tsx:8-29 | A text that no rule of a list can trigger on passes the whole list unchanged. |
| Markdown.PlainTextUnchanged | components/NoteCard.tsx:7-30 | `parseMarkdown` returns unchanged a text without any of the characters `*`, `_`, `#`, backquote, `-`, `>`, `[` or a digit. |
| Markdown.UnderscoreRuleIsIdentity | components/NoteCard.tsx:14 | The fourth replacement of the chain never changes its input. |
| Markdown.LineRulesReadLineByLine | components/NoteCard.tsx:16-29 | Each of the seven line-start rules of the chain rewrites its input line by line. |
| Markdown.EmptyBoldExample | components/NoteCard.tsx:10 | An empty capture is allowed: `****` becomes two bullets. |
| Markdown.FormatsBold | components/NoteCard.tsx:7-30 | `parseMarkdown` shows `**w**` as `•w•`, for any one-line `w` without markup characters. The later rules leave the result alone. |
| Markdown.FormatsHeader | components/NoteCard.tsx:7-30 | `parseMarkdown` shows `# w` as the pushpin glyph, a space and `w`, for any one-line `w` without markup characters. The `###` and `##` rules do not fire on it. |
| Markdown.FormatsLink | components/NoteCard.tsx:7-30 | `parseMarkdown` shows `[label](url)` as the link glyph, a space and the label, without the URL. This holds for any non-empty label without `]` and non-empty URL without `)`, neither containing markup characters. |
| Markdown.BoldWordExample | components/NoteCard.tsx:7-30 | `parseMarkdown("**bold**")` is `•bold•`. |
| Markdown.TitleExample | components/NoteCard.tsx:7-30 | `parseMarkdown("# Title")` is the pushpin glyph followed by ` Title`. |
| Markdown.LinkExample | components/NoteCard.tsx:7-30 | `parseMarkdown("[See](http://x)")` is the link glyph, a space and `See`. The URL is gone. |
| Markdown.NumberedExample | components/NoteCard.tsx:25 | `12. x` becomes the numbers glyph, a space and `x`. The number is dropped. |
| NoteCardView.Mount | components/NoteCard.tsx:39-41 | The initial state: not editing, with the drafts taken from the note. It has no `ensures` of its own. `NoteCardView.CancelRemounts` and `NoteCardView.NoteCard.constructor` use it. |
| NoteCardView.Step | components/NoteCard.tsx:43-72 | Every action makes at most one callback. That callback names the card's note, and an update carries non-blank, trimmed content and a trimmed topic. |
| NoteCardView.Save | components/NoteCard.tsx:43-51 | Saving makes at most one callback, and it is a clean update for the note. |
| NoteCardView.Run | components/NoteCard.tsx:43-72 | Over any sequence of actions, every callback names the note, every update is clean, and there are no more callbacks than actions. |
| NoteCardView.RunAppend | components/NoteCard.tsx:43-72 | Splitting a sequence of actions splits the final state and the callback list. |
| NoteCardView.CleanUpdateIsTrimmed | components/NoteCard.tsx:45-48 | Trimming the content and topic of a sent update again changes nothing. |
| NoteCardView.SaveCallsIffVisible | components/NoteCard.tsx:43-51 | Save calls `onUpdate` exactly when the content draft has a character that is neither white space nor a line terminator. Otherwise the state is left exactly as it was, including `isEditing`. |
| NoteCardView.SaveTrimsExample | components/NoteCard.tsx:44-48 | Saving the draft `  world  ` sends `world` and the trimmed topic. |
| NoteCardView.SaveKeepsDrafts | components/NoteCard.tsx:44-49 | A successful save leaves edit mode and keeps both drafts as typed. |
| NoteCardView.CancelRemounts | components/NoteCard.tsx:53-57 | Cancel, from any state and with no callback, gives the state the card had when it was first shown. |
| NoteCardView.DeleteCallsIffConfirmed | components/NoteCard.tsx:59-72 | Delete changes no state. It calls `onDelete(note.id)` exactly when the user confirms, and nothing when the user cancels. |
| NoteCardView.EditAgainShowsOldDraft | components/NoteCard.tsx:134 | Pressing edit does not refresh the drafts. After an accepted save, editing again shows the typed draft, not the note's content. |
| NoteCardView.ResaveAfterCancel | components/NoteCard.tsx:43-57 | From any state, cancel, edit and save send the note's own trimmed content and topic. They send nothing when the note's content is blank. |
| NoteCardView.View | components/NoteCard.tsx:78-111 | What the card shows in each mode: the topic and the formatted content, or the two drafts, plus the `auto` flag in both. It has no `ensures` of its own. `NoteCardView.CancelShowsNote`, `NoteCardView.PlainNoteShownVerbatim` and `NoteCardView.EditAgainShowsOldDraft` state its meaning. |
| NoteCardView.CancelShowsNote | components/NoteCard.tsx:78-111 | After a cancel the card shows the note's topic and its formatted content. |
| NoteCardView.PlainNoteShownVerbatim | components/NoteCard.tsx:108-110 | Outside edit mode, a note without markup characters is shown exactly as written. |
| NoteCardView.NoteCard.constructor | components/NoteCard.tsx:39-41 | The card starts outside edit mode, with the drafts taken from the note and no callbacks made. |
| NoteCardView.NoteCard.BeginEdit | components/NoteCard.tsx:134 | Pressing edit sets only `isEditing`. The drafts and the callback log stay. |
| NoteCardView.NoteCard.SetEditedTopic | components/NoteCard.tsx:82 | Typing in the topic field replaces the topic draft only. |
| NoteCardView.NoteCard.SetEditedContent | components/NoteCard.tsx:103 | Typing in the content field replaces the content draft only. |
| NoteCardView.NoteCard.HandleSave | components/NoteCard.tsx:43-51 | The handler's new state and callbacks are those of `Step`. It makes one call `onUpdate(note.id, {content: trim, topic: trim})` exactly when the trimmed content is not empty, and then leaves edit mode. The drafts are never changed. It keeps every logged callback valid. |
| NoteCardView.NoteCard.HandleCancel | components/NoteCard.tsx:53-57 | The drafts are reset from the note and edit mode ends, with no callback. |
| NoteCardView.NoteCard.HandleDelete | components/NoteCard.tsx:59-72 | The state is unchanged. There is exactly one `onDelete(note.id)` for the Delete choice and none for Cancel. |

## Left out

- Rendering is not modelled: the JSX layout, the style sheet and the icons (components/NoteCard.tsx:74-146, 148-223). `NoteCardView.View` keeps only what each mode shows. It keeps the source indicator (components/NoteCard.tsx:90-96) only as the `auto` flag, which both modes carry.
- The confirmation dialog itself (components/NoteCard.tsx:60-71) is not modelled. The user's answer is an input to `HandleDelete`.
- The time stamp is not formatted (components/NoteCard.tsx:115-120). Locale date formatting depends on the platform, so the time stamp is only carried as a number.
- React re-rendering is not modelled. The note is a constant of the card, so the card cannot receive a new `note` prop. The state hooks are not re-initialised on a new prop anyway.
- The parent's handling of `onUpdate` and `onDelete` is not modelled. The model only records the calls.
- UTF-16 code units are not modelled. Strings are sequences of code points, and each emoji glyph is one code point.
- `@/types` is not part of this model. `Note` has the fields the component uses, and `source` is `Manual` or `Auto`.
- No general regular-expression engine is modelled. There are three parameterised scanners, one per kind of expression: delimited spans, line-start rules and links. Each of the fourteen expressions is one `Markdown.Rule` value for one of them. The lemmas relate each scanner to the declarative meaning of its kind of expression.
- `NoteCardView.Step`, `NoteCardView.Run` and the class accept every action in every mode. The card offers edit and delete only outside edit mode, and typing, save and cancel only in edit mode (components/NoteCard.tsx:78-87, 99-111, 123-141). So `Run` covers more action sequences than the card's buttons allow, and its properties hold for those too.
- `NoteCardView.NoteCard.calls` is a ghost log. The handlers also return the callbacks they make.
