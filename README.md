# ThinkTact argument analyzer — a Dafny model

This project models the logic at the centre of the ThinkTact web app and
proves properties of it. ThinkTact sends a user's argument to an analysis
service and shows the reply. The parts modelled are:

- **The reply sectioner** `formatResponse` in
  `components/argument-analyzer.tsx`. It splits the service's reply into
  named sections, using six bold markers such as `**Fallacies:**`. The text
  before the first marker becomes an "Argument" section. A reply without
  any marker becomes a single "Analysis" section. Each section is rendered
  by `formatMarkdownText`, which applies six regular-expression rewrites and
  then a paragraph wrapper.
  - `Markers` models the six patterns.
  - `Markdown` models the renderer, one rewrite at a time.
  - `Sectioner` models the line loop, for any rule that says which lines
    open a section. `Sectioner.CollectSections` is that loop as an
    imperative method, proved against the reference `Sectioner.Collected`.
  - `Response` puts these together. `Response.FormatResponse` is proved to
    compute the reference `Response.Sections`.
  - The JavaScript object holding the sections is an insertion-ordered
    association list (`OrderedDict`). Assigning to a present key keeps the
    key where it is.
- **The analyzer's state rules** (`AnalyzerState`):
  - the session transcript, kept newest first, and its 30-minute expiry;
  - the first-visit tutorial and its stepper;
  - which sections are collapsed;
  - the blank-input guard.

  Session storage and the clock are parameters.
- **The price-id check** of `lib/stripe.ts` (`Stripe`).
- **The treemap's classifiers** of `components/argument-visualization.tsx`
  (`Visualization`): box colour by strength, box size by impact, the
  tooltip labels, the defaults for missing lists, the groups of each tab,
  and the label rules.
- **The dashboard's colour rules** of `components/argument-dashboard.tsx`
  (`Dashboard`).

Strings are `seq<char>`. JavaScript numbers are `real`, and timestamps are
`int` milliseconds.

Only the section patterns of components/argument-analyzer.tsx lines 76-79
accept a leading ordinal such as `1. **Fallacies:**`. The patterns of line
75 ("Argument Analysis") and line 80 ("Revised Argument") do not. See
`Markers.OrdinalRemoved` and `Markers.NumberKept`.

## Model

| member | source | states |
|---|---|---|
| JsText.Trim | components/argument-analyzer.tsx:106 | `trim()` gives a slice of the input with only white space outside it. The result has non-space ends, and it is empty exactly when the text is all white space |
| JsText.StripBothEnds | components/argument-analyzer.tsx:106 | cutting a stripped run from the front and then from the back leaves a slice whose outside is all stripped characters; the slice is empty exactly when every character is stripped |
| JsText.TrimStart | components/argument-analyzer.tsx:106 | the result is a suffix of the input; what was cut is white space; the result does not start with white space |
| JsText.TrimEnd | components/argument-analyzer.tsx:106 | the result is a prefix of the input; what was cut is white space; the result does not end with white space |
| JsText.SplitLines | components/argument-analyzer.tsx:93 | `split('\n')` gives at least one piece, no piece holds a newline, and joining the pieces with newlines gives back the input |
| JsText.SplitJoin | components/argument-analyzer.tsx:93 | splitting undoes joining, for newline-free lines |
| JsText.Contains | components/argument-analyzer.tsx:84 | the text occurs somewhere, which is what the pattern's `test` reduces to (see `Markers.TestIsContains`) |
| JsText.OccursAcrossNewline | components/argument-analyzer.tsx:93 | a newline-free text occurs in `a + "\n" + b` exactly when it occurs in `a` or in `b` |
| JsText.OccursJoin | components/argument-analyzer.tsx:93 | a newline-free text occurs in the joined lines exactly when it occurs in one line |
| JsText.ContainsSplit | components/argument-analyzer.tsx:84-100 | a marker occurs in the whole reply exactly when it occurs in one of its lines |
| JsText.IndexOf | components/argument-analyzer.tsx:111 | the first occurrence at or after the start position, with `None` when there is none |
| JsText.FindIndex | components/argument-analyzer.tsx:99-101 | `find` picks the first element that satisfies the test; no element before it does |
| OrderedDict.FirstIndex | components/argument-analyzer.tsx:106 | the first position of a key, with `None` exactly when the key is absent |
| OrderedDict.Get | components/argument-analyzer.tsx:117 | reading a key gives `None` exactly when it is absent; otherwise an entry with that key holds the value |
| OrderedDict.Put | components/argument-analyzer.tsx:106 | an assignment keeps the keys when the key is present and appends it otherwise. The key then reads the new value, every other key reads as before, and distinct keys stay distinct |
| OrderedDict.PutAfter | components/argument-analyzer.tsx:126 | assigning a key that the front part lacks leaves the front part in place |
| OrderedDict.GetAfter | components/argument-analyzer.tsx:130 | reading a key that the front part lacks looks only at the rest |
| OrderedDict.PutAllKeys | components/argument-analyzer.tsx:106 | after a run of assignments, the keys are the old keys, then the new keys in first-seen order; distinct keys stay distinct |
| OrderedDict.PutAllUntouched | components/argument-analyzer.tsx:106 | a key that no assignment names keeps its value |
| OrderedDict.PutAllLastWins | components/argument-analyzer.tsx:106 | a key holds the value of its last assignment |
| OrderedDict.AppendNewMembers | components/argument-analyzer.tsx:106 | a key is present after the run exactly when it was present before or the run assigns it |
| OrderedDict.FirstKey | components/argument-analyzer.tsx:132 | the first entry reads its value, and reassigning it changes only its value |
| OrderedDict.SingleEntry | components/argument-analyzer.tsx:118 | assigning to the empty object gives one entry, which reads back and can be reassigned in place |
| OrderedDict.ConsDistinct | components/argument-analyzer.tsx:118 | putting a new key in front of distinct keys keeps them distinct |
| Markdown.Run | components/argument-analyzer.tsx:46 | a greedy `\s*`-style run takes every character of the class and stops at the first that is not |
| Markdown.LastNonTerminator | components/argument-analyzer.tsx:46-49 | the last character in a range that is not a line terminator. This is where `(.+)$` starts once `\s+` has given characters back |
| Markdown.ListTail | components/argument-analyzer.tsx:46 | after `\s+`, `(.+)$` takes a non-empty rest of the line up to the line end. It fails exactly when there is no white space, or the white space runs to the end of the text with only line terminators after its first character. Otherwise the capture starts right after the greedy white space, or, when that white space reaches the end, at the last character that is not a line terminator |
| Markdown.HeaderAt | components/argument-analyzer.tsx:37 | a header matches exactly at a line start with one to six `#` followed by white space. It then covers the `#`s, all the white space after them (which may run past a line end), and the rest of that line, and is replaced by that rest |
| Markdown.HeaderCrossesLine | components/argument-analyzer.tsx:37 | on `"# \nfoo"` the header's white space runs past the line end, so the match takes all six characters and is replaced by `foo` |
| Markdown.HeaderFrom | components/argument-analyzer.tsx:37 | after `h` `#`s and a white-space character, the capture starts where the greedy white space ends, even past a line end, and the match ends at the end of that line |
| Markdown.BoldAt | components/argument-analyzer.tsx:40 | a match is `**`, a non-empty run without `*`, and `**`, and it is replaced by `<strong>` around that run. When there is no match, no such span starts there |
| Markdown.ItalicAt | components/argument-analyzer.tsx:43 | a match is `*`, a non-empty run without `*`, and `*`, and it is replaced by `<em>` around that run. When there is no match, no such span starts there |
| Markdown.IndentEnd | components/argument-analyzer.tsx:46-49 | `^(\s*)` ends at the first character that is not white space |
| Markdown.BulletAt | components/argument-analyzer.tsx:46 | a bullet matches only at a line start. There it matches exactly when the indent is followed by `-` and a list tail, and it is replaced by the bullet markup around the tail |
| Markdown.BulletFrom | components/argument-analyzer.tsx:46 | after the indent, a bullet matches exactly when `-` and a list tail follow; the match ends where the tail ends |
| Markdown.NumberedAt | components/argument-analyzer.tsx:49 | a numbered item matches only at a line start. There it matches exactly when the indent is followed by digits, `.` and a list tail, and it is replaced by the item markup around the digits and the tail |
| Markdown.NumberedFrom | components/argument-analyzer.tsx:49 | after the indent, an item matches exactly when digits, `.` and a list tail follow; the match ends where the tail ends |
| Markdown.ParagraphAt | components/argument-analyzer.tsx:52 | a paragraph break matches exactly two newlines and is replaced by the paragraph break markup |
| Markdown.MatcherAdvances | components/argument-analyzer.tsx:37-52 | every rewrite reports only non-empty matches that lie inside the text |
| Markdown.Wrap | components/argument-analyzer.tsx:54-57 | text that starts with `<p` or `<div` is returned unchanged; any other text is put inside a paragraph. Either way the result starts with `<p` or `<div` |
| Markdown.FormatMarkdownText | components/argument-analyzer.tsx:33-60 | the empty text stays empty; any other text comes back starting with `<p` or `<div`, so it is never empty |
| Markdown.ScanCopies | components/argument-analyzer.tsx:37-52 | where no match starts, a global `replace` copies the text |
| Markdown.ScanJoin | components/argument-analyzer.tsx:37-52 | two consecutive stretches of a global `replace` put together |
| Markdown.RewriteIdentity | components/argument-analyzer.tsx:37-52 | a rewrite that matches nowhere leaves the text as it is |
| Markdown.PlainTextIsWrapped | components/argument-analyzer.tsx:33-60 | text with no `#`, `*`, `-` or digit anywhere, no blank line, and no leading `<p` or `<div` comes back unchanged inside one paragraph |
| Markdown.InertPrefixKept | components/argument-analyzer.tsx:37-52 | a rewrite keeps a prefix that none of the patterns can start in |
| Markdown.LabelHasNoHeader | components/argument-analyzer.tsx:37 | the header rewrite leaves the `**Argument:** ` label alone |
| Markdown.BoldLabelMatch | components/argument-analyzer.tsx:40 | at the start of the label, the bold pattern matches `**Argument:**` and captures `Argument:` |
| Markdown.BoldLabelScan | components/argument-analyzer.tsx:40 | the bold rewrite renders `**Argument:**` and resumes after it |
| Markdown.BoldLabelBlank | components/argument-analyzer.tsx:40 | the blank after the label is copied |
| Markdown.RenderedLabel | components/argument-analyzer.tsx:40 | `<strong>` around `Argument:`, and a blank, is the rendered label |
| Markdown.LabelIsBold | components/argument-analyzer.tsx:40 | the bold rewrite turns the label into `<strong>Argument:</strong> ` |
| Markdown.KeepsRenderedLabel | components/argument-analyzer.tsx:43-52 | the later rewrites keep the rendered label at the front |
| Markdown.RenderedLabelInert | components/argument-analyzer.tsx:43-52 | the rendered label has no character the later patterns could start on, and it does not open with white space |
| Markdown.RenderedLabelWrapped | components/argument-analyzer.tsx:54-57 | text that opens with the rendered label is wrapped in a paragraph |
| Markdown.ArgumentLabelRendered | components/argument-analyzer.tsx:132 | whatever follows the label, the rendered "Argument" section opens with a paragraph holding the bold label |
| Markers.Name | components/argument-analyzer.tsx:75-80 | each section name is non-empty and has no newline |
| Markers.Order | components/argument-analyzer.tsx:74-81 | a label's place in the declared list |
| Markers.DeclaredOrder | components/argument-analyzer.tsx:74-81 | the place of the label at position `n` is `n` |
| Markers.NamesDistinct | components/argument-analyzer.tsx:75-80 | different labels have different names, and no name is "Argument" or "Analysis" |
| Markers.Marker | components/argument-analyzer.tsx:75-80 | every marker is longer than four characters and opens with `**` |
| Markers.MarkerOneLine | components/argument-analyzer.tsx:75-80 | no marker holds a newline |
| Markers.PatternOf | components/argument-analyzer.tsx:75-80 | each pattern is its label's marker; only lines 76-79 add the numbered alternative |
| Markers.OrdinalMarkerAt | components/argument-analyzer.tsx:76 | a `\d+\.\s+` match ends just after an occurrence of the marker |
| Markers.PatternAt | components/argument-analyzer.tsx:76 | a match at a position ends after an occurrence of the marker; only a numbered pattern matches anything in front of it |
| Markers.PatternPrefix | components/argument-analyzer.tsx:76 | what a match takes in front of the marker holds no `*` |
| Markers.LeftmostMatch | components/argument-analyzer.tsx:111 | the leftmost position where the pattern matches; none matches before it |
| Markers.Remove | components/argument-analyzer.tsx:111 | `replace(pattern, '')` leaves the line as it is when nothing matches, and otherwise removes at least the marker |
| Markers.TestIsContains | components/argument-analyzer.tsx:100 | a pattern matches a line exactly when the line contains the marker; the numbered alternative matches no extra line |
| Markers.FindLabel | components/argument-analyzer.tsx:99-101 | the first label in declared order whose marker the line contains; no earlier label's marker is in the line |
| Markers.LeftmostSkips | components/argument-analyzer.tsx:111 | the leftmost match does not change when the search skips positions where nothing starts |
| Markers.OrdinalMatchesAt | components/argument-analyzer.tsx:76-79 | digits, a dot, white space and the marker together form a numbered match |
| Markers.NumberedCut | components/argument-analyzer.tsx:111 | with the numbered alternative, `replace` cuts a leading `N. ` together with the marker |
| Markers.NumberedRemoved | components/argument-analyzer.tsx:76-79 | a numbered pattern removes `N. ` together with the marker |
| Markers.NoMatchBeforeStar | components/argument-analyzer.tsx:75 | without the numbered alternative, no match starts before the first `*` |
| Markers.MarkerCut | components/argument-analyzer.tsx:111 | without the numbered alternative, `replace` cuts out the first marker that no `*` precedes |
| Markers.NumberKept | components/argument-analyzer.tsx:80 | a pattern without the numbered alternative removes the marker but keeps the number |
| Markers.OrdinalRemoved | components/argument-analyzer.tsx:75-80 | four labels lose a leading `N. ` with the marker; "Argument Analysis" and "Revised Argument" keep it |
| Markers.RemoveCutsFirstMarker | components/argument-analyzer.tsx:111 | `replace` cuts out the first occurrence of the marker. Only a numbered pattern cuts anything more, and only just before it |
| Sectioner.NextOpening | components/argument-analyzer.tsx:99-103 | the next opening line at or after a position; no line before it opens a section |
| Sectioner.BlocksFrom | components/argument-analyzer.tsx:103-114 | the blocks from an opening line on are non-empty, and every block has a valid section name |
| Sectioner.Blocks | components/argument-analyzer.tsx:95-122 | every block has a valid section name; there are no blocks exactly when no line opens a section |
| Sectioner.Preamble | components/argument-analyzer.tsx:115-121 | the preamble is the longest prefix of lines that open nothing; the next line, if any, opens a section |
| Sectioner.FlushAll | components/argument-analyzer.tsx:106 | every block is stored under its name, with its buffer rendered |
| Sectioner.NextOpeningSnoc | components/argument-analyzer.tsx:95-103 | reading one more line moves the next opening only when the old search ran to the end |
| Sectioner.BlocksFromSnoc | components/argument-analyzer.tsx:103-114 | one more line extends the blocks from an opening line as the loop body does |
| Sectioner.OpeningAfterLast | components/argument-analyzer.tsx:103-111 | an opening line read after the last block starts a new block |
| Sectioner.PlainAfterLast | components/argument-analyzer.tsx:112-114 | a plain line read after the last block is appended to that block |
| Sectioner.FirstOpening | components/argument-analyzer.tsx:103-111 | the first opening line opens the first block |
| Sectioner.BlocksSnoc | components/argument-analyzer.tsx:95-122 | one more line grows the blocks; the preamble grows only while no section is open |
| Sectioner.FlushLast | components/argument-analyzer.tsx:105-106 | flushing the open block stores it after the blocks flushed before |
| Sectioner.StepOpening | components/argument-analyzer.tsx:103-111 | an opening line flushes the open block and opens its own, with the name and seed it gives |
| Sectioner.StepPlain | components/argument-analyzer.tsx:112-114 | a plain line in an open section leaves the object alone and extends the buffer by the line and `"\n"` |
| Sectioner.StepPreamble | components/argument-analyzer.tsx:115-121 | a plain line before any section extends the "Argument" entry by the line and `"\n"` |
| Sectioner.Finish | components/argument-analyzer.tsx:124-127 | flushing the open block at the end gives the collected object |
| Sectioner.BlockNames | components/argument-analyzer.tsx:103-111 | there is one block per opening line, named by that line, in line order |
| Sectioner.OpeningNameSource | components/argument-analyzer.tsx:110 | every opening name is the name that some line opens |
| Sectioner.StoredKeys | components/argument-analyzer.tsx:106 | the stored keys are the opening names in first-seen order |
| Sectioner.StoredDistinct | components/argument-analyzer.tsx:106 | each name is stored once |
| Sectioner.StoredReserved | components/argument-analyzer.tsx:110 | no block is stored under "Argument" or "Analysis" |
| Sectioner.StoredLastWins | components/argument-analyzer.tsx:106 | a section opened more than once holds its last block |
| Sectioner.StoredNotEmpty | components/argument-analyzer.tsx:136 | storing at least one block leaves the object non-empty |
| Sectioner.PreambleEntry | components/argument-analyzer.tsx:117-120 | the two assignments append the line and `"\n"` to the "Argument" entry |
| Sectioner.ReservedNotNamed | components/argument-analyzer.tsx:110 | no block is named "Argument" or "Analysis" |
| Sectioner.ReadLine | components/argument-analyzer.tsx:96-121 | the loop body maps the state after some lines to the state after one more line |
| Sectioner.Start | components/argument-analyzer.tsx:89-90 | before the first line, nothing is stored and no section is open |
| Sectioner.End | components/argument-analyzer.tsx:124-127 | flushing the open section after the last line gives the collected object |
| Sectioner.CollectSections | components/argument-analyzer.tsx:89-127 | the loop and the final flush compute the collected object: the preamble as "Argument", then every block stored under its name |
| Response.OpensValid | components/argument-analyzer.tsx:75-80 | a line opens only sections with valid names |
| Response.FormatResponse | components/argument-analyzer.tsx:63-141 | the method computes the reference sections of the reply |
| Response.ArgumentEntry | components/argument-analyzer.tsx:130-133 | formatting the "Argument" entry replaces the raw preamble with the rendered, labelled one, in the same place |
| Response.MarkedHasBlock | components/argument-analyzer.tsx:84-103 | if a marker occurs anywhere in the reply, some line opens a section |
| Response.NotEmpty | components/argument-analyzer.tsx:136 | once a block exists, the object is non-empty, so the default at line 136 is never taken for a marked reply |
| Response.FallbackIffUnmarked | components/argument-analyzer.tsx:84-86 | the result has an "Analysis" key exactly when no marker occurs; then it is the single "Analysis" entry |
| Response.EmptyReply | components/argument-analyzer.tsx:65-67 | the empty reply gives `{"Analysis": ""}` |
| Response.PlainReply | components/argument-analyzer.tsx:65-67 | an unmarked reply without markdown is one "Analysis" paragraph |
| Response.SectionKeys | components/argument-analyzer.tsx:95-133 | the keys are "Argument" when there is a preamble, then the opening names in first-seen order |
| Response.KeysAreLabels | components/argument-analyzer.tsx:95-133 | for a marked reply, every key is "Argument" or a label's name |
| Response.SectionsDistinct | components/argument-analyzer.tsx:136 | a marked reply has at least one section and no key twice |
| Response.ArgumentPresent | components/argument-analyzer.tsx:115-133 | there is an "Argument" key exactly when the first line opens no section. It holds the trimmed preamble rendered behind the bold label |
| Response.LastBlockWins | components/argument-analyzer.tsx:103-127 | a label that opens more than once keeps the rendering of its last block |
| AnalyzerState.Prepend | components/argument-analyzer.tsx:248 | the new message goes first and the rest follows unchanged |
| AnalyzerState.PrependKeepsOrder | components/argument-analyzer.tsx:314 | prepending a message no older than the newest keeps the transcript newest first |
| AnalyzerState.LastTimestamp | components/argument-analyzer.tsx:193-194 | the timestamp of element 0, or 0 when there is none |
| AnalyzerState.RestoreTranscript | components/argument-analyzer.tsx:188-204 | nothing stored gives an empty transcript; an expired one is removed; a live one is restored unchanged |
| AnalyzerState.Persist | components/argument-analyzer.tsx:215-219 | a non-empty transcript is written; an empty one leaves storage alone |
| AnalyzerState.RestoreAfterPersist | components/argument-analyzer.tsx:193-202 | a saved transcript comes back exactly when its newest message is at most 30 minutes old; otherwise it is dropped |
| AnalyzerState.ExpiryBoundary | components/argument-analyzer.tsx:24 | at exactly 1 800 000 ms the transcript is live; one millisecond later it has expired |
| AnalyzerState.EmptyTranscriptTime | components/argument-analyzer.tsx:194 | a transcript without messages counts as sent at time 0 |
| AnalyzerState.FirstVisit | components/argument-analyzer.tsx:206-211 | the tutorial opens unless the flag reads "false", and the flag is then set to "false" |
| AnalyzerState.TutorialOnce | components/argument-analyzer.tsx:207-210 | a second mount changes nothing |
| AnalyzerState.NextTutorialStep | components/argument-analyzer.tsx:356-363 | below step 3 the step advances with the tutorial still shown; at step 3 the tutorial closes and the step resets to 0 |
| AnalyzerState.TutorialStepInRange | components/argument-analyzer.tsx:356-363 | the step stays within 0..3 |
| AnalyzerState.Steps | components/argument-analyzer.tsx:356-363 | however many times "Next" is pressed, the step stays among the screens 0 to 3 |
| AnalyzerState.TutorialRunsOut | components/argument-analyzer.tsx:356-363 | from step `s`, the first `3 - s` presses advance one screen each, and press `4 - s` closes the tutorial at step 0 |
| AnalyzerState.ToggleSection | components/argument-analyzer.tsx:365-370 | the key becomes the negation of its old value, with a missing key read as false; every other key is unchanged |
| AnalyzerState.ToggleTwice | components/argument-analyzer.tsx:365-370 | toggling a present key twice restores the map |
| AnalyzerState.ExpandAll | components/argument-analyzer.tsx:324-330 | every section of a new reply gets `true`; the other entries are kept |
| AnalyzerState.ToggleFlipsPresent | components/argument-analyzer.tsx:365-370 | on a present key, a toggle flips what is drawn |
| AnalyzerState.ToggleAfterExpandAll | components/argument-analyzer.tsx:324-330 | a section of a reply from this session is drawn open and collapses on the first click |
| AnalyzerState.FirstClickIgnored | components/argument-analyzer.tsx:479 | a section without an entry is drawn open and is still open after the first click |
| AnalyzerState.ToggleDisplayed | components/argument-analyzer.tsx:365-370 | the corrected toggle flips what is drawn; every other key is unchanged |
| AnalyzerState.ToggleAgreesWhenPresent | components/argument-analyzer.tsx:365-370 | the corrected toggle equals the written one wherever a key is present |
| AnalyzerState.SubmittableIffNotBlank | components/argument-analyzer.tsx:229-236 | an argument is sent exactly when it holds a character that is not white space |
| Stripe.EnvOr | lib/stripe.ts:15 | an unset variable reads as `""` |
| Stripe.Configured | lib/stripe.ts:14-18 | each configured price id is its variable, or `""` when the variable is unset |
| Stripe.ValidIffPrefix | lib/stripe.ts:29-37 | an id is valid exactly when it starts with `price_` |
| Stripe.ConfigurationIrrelevant | lib/stripe.ts:31-36 | the configured ids play no part in the result |
| Stripe.UnsetRejected | lib/stripe.ts:15-17 | the empty id is rejected, so a price id left unset is never valid |
| Stripe.ValidExtends | lib/stripe.ts:36 | appending to a valid id keeps it valid |
| Dashboard.BandsAgree | components/argument-dashboard.tsx:59-69 | two scores share a text colour exactly when they share a bar colour |
| Dashboard.RatingBands | components/argument-dashboard.tsx:59-63 | green exactly from 80, red exactly below 60 |
| Dashboard.CredibilityColorsDistinct | components/argument-dashboard.tsx:71-80 | the five named ratings have five different colours |
| Dashboard.CredibilityDefault | components/argument-dashboard.tsx:78 | a rating is gray exactly when it is not one of the five |
| Dashboard.IconAgreesWithColor | components/argument-dashboard.tsx:82-91 | the icon is the warning triangle exactly for "Shaky" and "Flimsy", and its colour is the rating's colour |
| Visualization.StrengthBands | components/argument-visualization.tsx:51-62 | coral up to 30, amber above 30 up to 70, green above 70, with each upper bound included |
| Visualization.TooltipAgreesWithColor | components/argument-visualization.tsx:76-77 | the tooltip names the band that colours the box |
| Visualization.ImpactSizes | components/argument-visualization.tsx:64-71 | sizes strictly fall from critical to important to minor; an unknown impact gets the "important" size |
| Visualization.UnknownImpact | components/argument-visualization.tsx:64-79 | an unknown impact is sized like "important" but labelled like "minor" |
| Visualization.OrEmpty | components/argument-visualization.tsx:205 | a missing list becomes the empty list; a present one is kept |
| Visualization.SafeData | components/argument-visualization.tsx:204-210 | each of the five lists defaults to empty |
| Visualization.Leaves | components/argument-visualization.tsx:224-230 | one box per item, in item order |
| Visualization.CoreTab | components/argument-visualization.tsx:215-253 | two groups: the premises then the conclusions in order under "Main Ideas", then the supporting items under "Supporting Ideas" |
| Visualization.CounterAndFeedbackTabs | components/argument-visualization.tsx:255-287 | "Opposing Ideas" from the counters and "Areas to Improve" from the weaknesses; the feedback tab is empty |
| Visualization.LeavesFaithful | components/argument-visualization.tsx:224-282 | each box takes the item's text, the size of its impact, its strength and impact, and its list's tag |
| Visualization.TabTypes | components/argument-visualization.tsx:213-289 | every box carries its group's tag, except the conclusions among the main ideas |
| Visualization.LabelContrast | components/argument-visualization.tsx:164 | the label is dark exactly above strength 50: always on green boxes, never on coral ones |

## Left out

- The `try`/`catch` around the sectioner (components/argument-analyzer.tsx:69, 137-140) is not modelled. Nothing in the modelled body can throw, so the `catch` branch is unreachable in the model.
- JSON encoding of the stored transcript is not modelled. A stored transcript reads back as the list that was written, so a corrupt entry that makes `JSON.parse` throw is not covered.
- A message always has a timestamp. The `|| 0` of line 194 is therefore modelled only for the empty transcript.
- Session storage, `Date.now()` and the first-visit flag are parameters. `console.log` is left out.
- `analyzeArgument` (components/argument-analyzer.tsx:228-347) is left out: `fetch`, the JSON reply, the status-specific errors and the toasts are network and UI effects. Only the blank-input guard (lines 229-236), the two prepends (lines 248 and 314) and the expansion of the new sections (lines 324-330, `AnalyzerState.ExpandAll`) are modelled.
- `exportAsPDF`, `shareAnalysis` and scrolling (components/argument-analyzer.tsx:144-173, 221-226) are DOM effects, so they are left out.
- All React rendering is left out: the JSX, the section header colours (components/argument-analyzer.tsx:489-498), recharts and framer-motion. Only the rules that decide what is drawn are modelled: lines 156, 164 and 479.
- `formatCurrency` and the Stripe client (lib/stripe.ts:4-11, 21-26) are left out. They use `Intl` and the Stripe SDK, which are foreign code.
- The treemap's font sizing (components/argument-visualization.tsx:137-138) uses floating-point arithmetic and is left out. So are the bold weight for critical boxes (line 166) and the tooltip's capitalised type line (line 95).
- Visualization.ShowsLabel: the label-visibility rule of line 156 is modelled as a predicate only, with no lemma about it.
- Numbers are reals, so NaN and the infinities are not modelled. In JavaScript a NaN strength fails every `<=` test and is coloured green; the model has no such value.
- Dashboard.CredibilityIcon: the icons' size classes `h-5 w-5` are the same for every rating and are not part of the modelled value.
- Markdown.FormatMarkdownText: its contract states only emptiness and the opening tag. The rewrites themselves are in its body, and the lemmas above state what they do to plain text and to the argument label.
- The "No Data Available" message (components/argument-visualization.tsx:193-201) is rendering. The model builds boxes only from data that is present.
- Text is a sequence of characters. JavaScript's UTF-16 code units are not modelled separately: all the patterns and white-space classes are checked character by character.

## Findings

| source | as written | input that shows it | evidently intended | confidence | as-written member | corrected member |
|---|---|---|---|---|---|---|
| components/argument-analyzer.tsx:365-370 | `toggleSection` writes `!prev[id]`, which reads a missing entry as false. The renderer (line 479) draws a missing entry as open | a section of a transcript restored from session storage, which has no entry: it is drawn open, and the first click writes `true`, so it stays open | the first click collapses the section: the entry becomes the negation of what is drawn | not executed | AnalyzerState.FirstClickIgnored | AnalyzerState.ToggleDisplayed |
