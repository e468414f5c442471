/**
 * `formatMarkdownText` (components/argument-analyzer.tsx): six global
 * regular-expression rewrites applied one after another, then a paragraph
 * wrapper.  Each rewrite is modelled as JavaScript's `String.prototype.replace`
 * with a `g` flag: scan left to right, at each position try the pattern, and
 * on a match emit the replacement and resume after the match.  The matchers
 * spell out what backtracking settles on for these particular patterns.
 */
module Markdown {
  import opened Wrappers
  import opened JsText

  datatype Rule = Headers | Bold | Italic | Bullets | Numbered | Paragraphs

  /** What a match is replaced by, before it is spelt out as HTML by `Render`. */
  datatype Markup =
    | Plain(text: string)                       // `$1` of the header rewrite
    | Strong(text: string)                      // `<strong>$1</strong>`
    | Emphasis(text: string)                    // `<em>$1</em>`
    | BulletItem(text: string)                  // the bullet markup around `$2`
    | NumberedItem(number: string, text: string) // the numbered markup around `$2` and `$3`
    | Break                                     // the paragraph break

  /** Where a match ends and what replaces it. */
  datatype Match = Match(end: nat, replacement: Markup)

  datatype CharClass = Space | Hash | Digit | NotStar | NotTerminator

  predicate InClass(c: char, cls: CharClass) {
    match cls
    case Space => IsSpace(c)
    case Hash => c == '#'
    case Digit => IsDigit(c)
    case NotStar => c != '*'
    case NotTerminator => !IsLineTerminator(c)
  }

  /** The length of the longest run of `cls` characters starting at `i` (what a greedy `x*` takes). */
  function Run(s: string, i: nat, cls: CharClass): (n: nat)
    requires i <= |s|
    ensures i + n <= |s|
    ensures forall k :: i <= k < i + n ==> InClass(s[k], cls)
    ensures i + n == |s| || !InClass(s[i + n], cls)
    decreases |s| - i
  {
    if i < |s| && InClass(s[i], cls) then 1 + Run(s, i + 1, cls) else 0
  }

  /** `^` in multiline mode. */
  predicate AtLineStart(s: string, i: nat) {
    i == 0 || (0 < i <= |s| && IsLineTerminator(s[i - 1]))
  }

  /** The last position in `[lo, hi)` holding a character other than a line terminator. */
  function LastNonTerminator(s: string, lo: nat, hi: nat): (r: Option<nat>)
    requires lo <= hi <= |s|
    ensures r.Some? ==> lo <= r.value < hi && !IsLineTerminator(s[r.value])
    ensures r.Some? ==> forall k :: r.value < k < hi ==> IsLineTerminator(s[k])
    ensures r.None? ==> forall k :: lo <= k < hi ==> IsLineTerminator(s[k])
    decreases hi - lo
  {
    if lo == hi then None
    else if !IsLineTerminator(s[hi - 1]) then Some(hi - 1)
    else LastNonTerminator(s, lo, hi - 1)
  }

  /**
   * `\s+(.+)$` tried at `j`: the bounds of what `(.+)` captures.  When the
   * white space runs to the end of the text, `\s+` gives back characters
   * until `.+` can take one.
   */
  function ListTail(s: string, j: nat): (r: Option<(nat, nat)>)
    requires j <= |s|
    ensures r.Some? ==> j < r.value.0 < r.value.1 <= |s|
    ensures r.Some? ==> forall k :: j <= k < r.value.0 ==> IsSpace(s[k])
    ensures r.Some? ==> forall k :: r.value.0 <= k < r.value.1 ==> !IsLineTerminator(s[k])
    ensures r.Some? ==> r.value.1 == |s| || IsLineTerminator(s[r.value.1])
    ensures r.None? <==> (Run(s, j, Space) == 0 ||
                          (j + Run(s, j, Space) == |s| && forall k :: j < k < |s| ==> IsLineTerminator(s[k])))
    ensures r.Some? && j + Run(s, j, Space) < |s| ==> r.value.0 == j + Run(s, j, Space)
    ensures r.Some? && j + Run(s, j, Space) == |s| ==> forall k :: r.value.0 < k < |s| ==> IsLineTerminator(s[k])
  {
    var w := Run(s, j, Space);
    if w == 0 then None
    else if j + w < |s| then
      var n := Run(s, j + w, NotTerminator);
      assert n > 0;
      Some((j + w, j + w + n))
    else
      match LastNonTerminator(s, j + 1, |s|)
      case None => None
      case Some(q) => Some((q, q + 1))
  }

  const BulletOpen: string := "<div class=\"ml-4 mb-2 flex\"><span class=\"mr-2 text-port-500\">\U{00E2}\U{20AC}\U{00A2}</span><span>"
  const NumberedOpen: string := "<div class=\"ml-4 mb-2 flex\"><span class=\"mr-2 font-medium text-port-500\">"
  const ParagraphBreak: string := "</p><p class=\"mb-3\">"
  const ParagraphOpen: string := "<p class=\"mb-3\">"

  /** The HTML each replacement is written as. */
  function Render(m: Markup): string {
    match m
    case Plain(text) => text
    case Strong(text) => "<strong>" + text + "</strong>"
    case Emphasis(text) => "<em>" + text + "</em>"
    case BulletItem(text) => BulletOpen + text + "</span></div>"
    case NumberedItem(number, text) => NumberedOpen + number + ".</span><span>" + text + "</span></div>"
    case Break => ParagraphBreak
  }

  /** `/^#{1,6}\s+(.*)$/gm` replaced by `$1`. */
  function HeaderAt(s: string, i: nat): (r: Option<Match>)
    requires i <= |s|
    ensures r.Some? ==> i < r.value.end <= |s| && s[i] == '#' && AtLineStart(s, i)
    ensures r.Some? <==> (AtLineStart(s, i) && 1 <= Run(s, i, Hash) <= 6 &&
                          i + Run(s, i, Hash) < |s| && IsSpace(s[i + Run(s, i, Hash)]))
    ensures r.Some? ==> HeaderLine(s, i, Run(s, i, Hash), r.value)
  {
    var h := Run(s, i, Hash);
    if !AtLineStart(s, i) || h < 1 || h > 6 || i + h == |s| || !IsSpace(s[i + h]) then None
    else Some(HeaderFrom(s, i, h))
  }

  /**
   * `m` replaces `s[i..m.end]`, which runs to the end of the line, by its
   * text: the rest of the line once the `h` leading `#`s and all the white
   * space after them (greedy `\s+`, which may cross line ends) are gone.
   */
  predicate HeaderLine(s: string, i: nat, h: nat, m: Match) {
    i + h <= |s| && m.replacement.Plain? &&
    var c := IndentEnd(s, i + h);
    i < c <= m.end <= |s| && m.replacement.text == s[c..m.end] &&
    (forall k :: c <= k < m.end ==> !IsLineTerminator(s[k])) &&
    (m.end == |s| || IsLineTerminator(s[m.end]))
  }

  /** A header of `h` hashes at `i`, followed by white space: what it is replaced by. */
  function HeaderFrom(s: string, i: nat, h: nat): (r: Match)
    requires 1 <= h && i + h < |s| && IsSpace(s[i + h])
    requires forall k :: i <= k < i + h ==> s[k] == '#'
    ensures HeaderLine(s, i, h, r)
  {
    var c := IndentEnd(s, i + h);
    Match(c + Run(s, c, NotTerminator), Plain(s[c..c + Run(s, c, NotTerminator)]))
  }

  /** The white space after `#` runs past the line end, and the next line is the header's text. */
  lemma HeaderCrossesLine()
    ensures HeaderAt("# \nfoo", 0) == Some(Match(6, Plain("foo")))
  {
    var s := "# \nfoo";
    RunExact(s, 0, Hash, 1);
    RunExact(s, 1, Space, 2);
    RunExact(s, 3, NotTerminator, 3);
    assert s[3..6] == "foo";
  }

  /** `s[i..e]` is `**`, then at least one character other than `*`, then `**`. */
  predicate BoldSpan(s: string, i: nat, e: nat) {
    i + 5 <= e <= |s| && s[i] == '*' && s[i + 1] == '*' && s[e - 2] == '*' && s[e - 1] == '*' &&
    forall k :: i + 2 <= k < e - 2 ==> s[k] != '*'
  }

  // /\*\*([^*]+)\*\*/g replaced by <strong>$1</strong>
  function BoldAt(s: string, i: nat): (r: Option<Match>)
    requires i <= |s|
    ensures r.Some? ==> i < r.value.end <= |s| && s[i] == '*'
    ensures r.Some? ==> (BoldSpan(s, i, r.value.end) &&
                         r.value.replacement == Strong(s[i + 2..r.value.end - 2]))
    ensures r.None? ==> forall e: nat :: !BoldSpan(s, i, e)
  {
    if i + 1 < |s| && s[i] == '*' && s[i + 1] == '*' then
      var n := Run(s, i + 2, NotStar);
      if n >= 1 && i + 3 + n < |s| && s[i + 3 + n] == '*' then
        Some(Match(i + 4 + n, Strong(s[i + 2..i + 2 + n])))
      else
        assert forall e: nat :: !BoldSpan(s, i, e) by {
          forall e: nat ensures !BoldSpan(s, i, e) {
            if i + 5 <= e <= |s| {
              if i + 2 + n < e - 2 {
                assert s[i + 2 + n] == '*';
              } else if e - 2 < i + 2 + n {
                assert s[e - 2] != '*';
              }
            }
          }
        }
        None
    else None
  }

  /** `s[i..e]` is `*`, then at least one character other than `*`, then `*`. */
  predicate ItalicSpan(s: string, i: nat, e: nat) {
    i + 3 <= e <= |s| && s[i] == '*' && s[e - 1] == '*' &&
    forall k :: i + 1 <= k < e - 1 ==> s[k] != '*'
  }

  // /\*([^*]+)\*/g replaced by <em>$1</em>
  function ItalicAt(s: string, i: nat): (r: Option<Match>)
    requires i <= |s|
    ensures r.Some? ==> i < r.value.end <= |s| && s[i] == '*'
    ensures r.Some? ==> (ItalicSpan(s, i, r.value.end) &&
                         r.value.replacement == Emphasis(s[i + 1..r.value.end - 1]))
    ensures r.None? ==> forall e: nat :: !ItalicSpan(s, i, e)
  {
    if i < |s| && s[i] == '*' then
      var n := Run(s, i + 1, NotStar);
      if n >= 1 && i + 1 + n < |s| then
        Some(Match(i + 2 + n, Emphasis(s[i + 1..i + 1 + n])))
      else
        assert forall e: nat :: !ItalicSpan(s, i, e) by {
          forall e: nat ensures !ItalicSpan(s, i, e) {
            if i + 3 <= e <= |s| {
              if i + 1 + n < e - 1 {
                assert s[i + 1 + n] == '*';
              } else if e - 1 < i + 1 + n {
                assert s[e - 1] != '*';
              }
            }
          }
        }
        None
    else None
  }

  /** Where the leading white space (`^(\s*)`, taken greedily) ends. */
  function IndentEnd(s: string, i: nat): (p: nat)
    requires i <= |s|
    ensures i <= p <= |s|
    ensures forall k :: i <= k < p ==> IsSpace(s[k])
    ensures p == |s| || !IsSpace(s[p])
  {
    i + Run(s, i, Space)
  }

  /** `/^(\s*)-\s+(.+)$/gm` replaced by the bullet markup around `$2`. */
  function BulletAt(s: string, i: nat): (r: Option<Match>)
    requires i <= |s|
    ensures r.Some? ==> i < r.value.end <= |s| && AtLineStart(s, i)
    ensures r.Some? ==> IndentEnd(s, i) < |s| && s[IndentEnd(s, i)] == '-'
    ensures !AtLineStart(s, i) ==> r.None?
    ensures AtLineStart(s, i) ==> BulletItemAt(s, IndentEnd(s, i), r)
  {
    if !AtLineStart(s, i) then None else BulletFrom(s, IndentEnd(s, i))
  }

  /**
   * What `-\s+(.+)$` gives at `p`: a match exactly when a dash and a list
   * tail follow, and then the bullet markup around the tail, ending where
   * the tail ends.
   */
  predicate BulletItemAt(s: string, p: nat, r: Option<Match>) {
    p <= |s| &&
    (r.Some? <==> p < |s| && s[p] == '-' && ListTail(s, p + 1).Some?) &&
    (r.Some? ==> var t := ListTail(s, p + 1).value;
       r.value.end == t.1 && r.value.replacement == BulletItem(s[t.0..t.1]))
  }

  /** `-\s+(.+)$` tried at `p`, the end of the indent. */
  function BulletFrom(s: string, p: nat): (r: Option<Match>)
    requires p <= |s|
    ensures r.Some? ==> p < r.value.end <= |s| && s[p] == '-'
    ensures BulletItemAt(s, p, r)
  {
    if p == |s| || s[p] != '-' then None
    else
      var t := ListTail(s, p + 1);
      if t.None? then None else Some(Match(t.value.1, BulletItem(s[t.value.0..t.value.1])))
  }

  /** `/^(\s*)(\d+)\.\s+(.+)$/gm` replaced by the numbered-item markup around `$2` and `$3`. */
  function NumberedAt(s: string, i: nat): (r: Option<Match>)
    requires i <= |s|
    ensures r.Some? ==> i < r.value.end <= |s| && AtLineStart(s, i)
    ensures r.Some? ==> IndentEnd(s, i) < |s| && IsDigit(s[IndentEnd(s, i)])
    ensures !AtLineStart(s, i) ==> r.None?
    ensures AtLineStart(s, i) ==> NumberedItemAt(s, IndentEnd(s, i), r)
  {
    if !AtLineStart(s, i) then None else NumberedFrom(s, IndentEnd(s, i))
  }

  /**
   * What `(\d+)\.\s+(.+)$` gives at `p`: a match exactly when digits, a dot
   * and a list tail follow, and then the item markup around the digits
   * and the tail, ending where the tail ends.
   */
  predicate NumberedItemAt(s: string, p: nat, r: Option<Match>) {
    p <= |s| &&
    var d := Run(s, p, Digit);
    (r.Some? <==> d > 0 && p + d < |s| && s[p + d] == '.' && ListTail(s, p + d + 1).Some?) &&
    (r.Some? ==> var t := ListTail(s, p + d + 1).value;
       r.value.end == t.1 && r.value.replacement == NumberedItem(s[p..p + d], s[t.0..t.1]))
  }

  /** `(\d+)\.\s+(.+)$` tried at `p`, the end of the indent. */
  function NumberedFrom(s: string, p: nat): (r: Option<Match>)
    requires p <= |s|
    ensures r.Some? ==> p < r.value.end <= |s| && IsDigit(s[p])
    ensures NumberedItemAt(s, p, r)
  {
    var d := Run(s, p, Digit);
    if d == 0 || p + d == |s| || s[p + d] != '.' then None
    else
      var t := ListTail(s, p + d + 1);
      if t.None? then None
      else Some(Match(t.value.1, NumberedItem(s[p..p + d], s[t.value.0..t.value.1])))
  }

  /** `/\n\n/g` replaced by a paragraph break. */
  function ParagraphAt(s: string, i: nat): (r: Option<Match>)
    requires i <= |s|
    ensures r.Some? <==> i + 2 <= |s| && s[i] == '\n' && s[i + 1] == '\n'
    ensures r.Some? ==> r.value.end == i + 2 && r.value.replacement == Break
  {
    if i + 1 < |s| && s[i] == '\n' && s[i + 1] == '\n' then Some(Match(i + 2, Break)) else None
  }

  /** A compiled pattern: tried at a position, it matches there or not. */
  type Matcher = (string, nat) --> Option<Match>

  /** The matcher for each of the six rewrites. */
  function MatcherOf(rule: Rule): Matcher {
    match rule
    case Headers => HeaderAt
    case Bold => BoldAt
    case Italic => ItalicAt
    case Bullets => BulletAt
    case Numbered => NumberedAt
    case Paragraphs => ParagraphAt
  }

  /** Wherever `m` is tried in `s`, it is defined there and a match it reports is non-empty and inside `s`. */
  ghost predicate Advances(m: Matcher, s: string) {
    forall i: nat :: i <= |s| ==> m.requires(s, i) && (m(s, i).Some? ==> i < m(s, i).value.end <= |s|)
  }

  lemma MatcherAdvances(rule: Rule, s: string)
    ensures Advances(MatcherOf(rule), s)
  {
  }

  /** The rewrite `rule` tried at position `i`. */
  function MatchAt(rule: Rule, s: string, i: nat): Option<Match>
    requires i <= |s|
  {
    MatcherOf(rule)(s, i)
  }

  /** `s.replace(pattern, replacement)` from position `i` on, for a global pattern. */
  function Scan(m: Matcher, s: string, i: nat): string
    requires i <= |s| && Advances(m, s)
    decreases |s| - i
  {
    if i == |s| then ""
    else match m(s, i)
      case Some(mt) => Render(mt.replacement) + Scan(m, s, mt.end)
      case None => [s[i]] + Scan(m, s, i + 1)
  }

  function Rewrite(rule: Rule, s: string): string {
    MatcherAdvances(rule, s);
    Scan(MatcherOf(rule), s, 0)
  }

  /** Lines 54-57: wrap in a paragraph unless the text already opens with `<p` or `<div`. */
  function Wrap(s: string): (r: string)
    ensures StartsWith(r, "<p") || StartsWith(r, "<div")
    ensures !StartsWith(s, "<p") && !StartsWith(s, "<div") ==> r == ParagraphOpen + s + "</p>"
    ensures StartsWith(s, "<p") || StartsWith(s, "<div") ==> r == s
  {
    if !StartsWith(s, "<p") && !StartsWith(s, "<div") then ParagraphOpen + s + "</p>" else s
  }

  /**
   * `formatMarkdownText`: the empty text stays empty; anything else comes back
   * as HTML that opens with a paragraph or a list item, so it is never empty.
   */
  function FormatMarkdownText(text: string): (r: string)
    ensures text == "" <==> r == ""
    ensures text != "" ==> StartsWith(r, "<p") || StartsWith(r, "<div")
  {
    if text == "" then ""
    else
      var h := Rewrite(Headers, text);
      var b := Rewrite(Bold, h);
      var it := Rewrite(Italic, b);
      var bl := Rewrite(Bullets, it);
      var nl := Rewrite(Numbered, bl);
      var p := Rewrite(Paragraphs, nl);
      Wrap(p)
  }

  /** A greedy run is pinned down by where the class starts and stops holding. */
  lemma RunExact(s: string, i: nat, cls: CharClass, n: nat)
    requires i + n <= |s|
    requires forall k :: i <= k < i + n ==> InClass(s[k], cls)
    requires i + n == |s| || !InClass(s[i + n], cls)
    ensures Run(s, i, cls) == n
  {
  }

  /** Where no match starts, a rewrite copies the text. */
  lemma {:induction false} ScanCopies(m: Matcher, s: string, i: nat, k: nat)
    requires i <= k <= |s| && Advances(m, s)
    requires forall j: nat :: i <= j < k ==> m(s, j).None?
    ensures Scan(m, s, i) == s[i..k] + Scan(m, s, k)
    decreases k - i
  {
    if i < k {
      ScanCopies(m, s, i + 1, k);
      ScanCopyStep(m, s, i);
      ConsSlice(s, i, k, Scan(m, s, k));
    }
  }

  /** Where no match starts, a rewrite copies one character and moves on. */
  lemma ScanCopyStep(m: Matcher, s: string, i: nat)
    requires i < |s| && Advances(m, s) && m(s, i).None?
    ensures Scan(m, s, i) == [s[i]] + Scan(m, s, i + 1)
  {
  }

  /** A character put before the slice after it, and what follows. */
  lemma ConsSlice<T>(s: seq<T>, i: nat, k: nat, x: seq<T>)
    requires i < k <= |s|
    ensures [s[i]] + (s[i + 1..k] + x) == s[i..k] + x
  {
    assert [s[i]] + s[i + 1..k] == s[i..k];
  }

  /** A rewrite that matches nowhere is the identity. */
  lemma RewriteIdentity(rule: Rule, s: string)
    requires forall j :: 0 <= j < |s| ==> MatchAt(rule, s, j).None?
    ensures Rewrite(rule, s) == s
  {
    MatcherAdvances(rule, s);
    forall j: nat | j < |s| ensures MatcherOf(rule)(s, j).None? {
      assert MatchAt(rule, s, j).None?;
    }
    ScanCopies(MatcherOf(rule), s, 0, |s|);
  }

  /** Text without any of the characters the rewrites look for, and without a blank line. */
  predicate PlainText(s: string) {
    (forall k :: 0 <= k < |s| ==> s[k] != '#' && s[k] != '*' && s[k] != '-' && !IsDigit(s[k])) &&
    (forall k :: 0 <= k < |s| - 1 ==> !(s[k] == '\n' && s[k + 1] == '\n')) &&
    !StartsWith(s, "<p") && !StartsWith(s, "<div")
  }

  /** Plain text comes back unchanged, wrapped in a single paragraph. */
  lemma PlainTextIsWrapped(text: string)
    requires text != "" && PlainText(text)
    ensures FormatMarkdownText(text) == ParagraphOpen + text + "</p>"
  {
    forall rule, j | 0 <= j < |text| ensures MatchAt(rule, text, j).None? {
      match rule
      case Bullets =>
        var p := j + Run(text, j, Space);
        assert p < |text| ==> text[p] != '-';
      case Numbered =>
        var p := j + Run(text, j, Space);
        assert p < |text| ==> !IsDigit(text[p]);
      case _ =>
    }
    RewriteIdentity(Headers, text);
    RewriteIdentity(Bold, text);
    RewriteIdentity(Italic, text);
    RewriteIdentity(Bullets, text);
    RewriteIdentity(Numbered, text);
    RewriteIdentity(Paragraphs, text);
  }

  const ArgumentLabel: string := "**Argument:** "
  const RenderedArgumentLabel: string := "<strong>Argument:</strong> "

  /** A prefix with no line terminator and no `*`, `#`, `-`, digit or `<` that a rewrite could start on. */
  predicate Inert(q: string) {
    forall k :: 0 <= k < |q| ==>
      !IsLineTerminator(q[k]) && q[k] != '*' && q[k] != '#' && q[k] != '-' && !IsDigit(q[k])
  }

  /** A rewrite leaves an inert prefix that opens with a non-space in place. */
  lemma InertPrefixKept(rule: Rule, q: string, x: string)
    requires |q| > 0 && Inert(q) && !IsSpace(q[0])
    ensures StartsWith(Rewrite(rule, q + x), q)
  {
    var s := q + x;
    forall j | 0 <= j < |q| ensures MatchAt(rule, s, j).None? {
      assert s[j] == q[j];
      if j > 0 {
        assert s[j - 1] == q[j - 1];
        assert !AtLineStart(s, j);
      } else {
        RunExact(s, 0, Space, 0);
      }
    }
    MatcherAdvances(rule, s);
    ScanCopies(MatcherOf(rule), s, 0, |q|);
    assert s[..|q|] == q;
  }

  /** No header starts inside the argument label. */
  lemma LabelHasNoHeader(text: string)
    requires StartsWith(text, ArgumentLabel)
    ensures Rewrite(Headers, text) == ArgumentLabel + Scan(HeaderAt, text, |ArgumentLabel|)
  {
    MatcherAdvances(Headers, text);
    forall j: nat | j < |ArgumentLabel| ensures HeaderAt(text, j).None? {
      assert text[j] == ArgumentLabel[j];
      if j > 0 {
        assert text[j - 1] == ArgumentLabel[j - 1];
      }
    }
    ScanCopies(HeaderAt, text, 0, |ArgumentLabel|);
  }

  /** At the start of the argument label, the bold pattern matches `**Argument:**`. */
  lemma BoldLabelMatch(h: string)
    requires StartsWith(h, ArgumentLabel)
    ensures BoldAt(h, 0).Some? && BoldAt(h, 0).value.end == 13
    ensures BoldAt(h, 0).value.replacement == Strong("Argument:")
  {
    assert h[..14] == ArgumentLabel;
    forall k | 2 <= k < 11 ensures h[k] != '*' {
      assert h[k] == ArgumentLabel[k];
    }
    assert h[11] == ArgumentLabel[11] == '*';
    assert h[12] == ArgumentLabel[12] == '*';
    RunExact(h, 2, NotStar, 9);
    assert h[2..11] == "Argument:";
  }

  /** The bold rewrite renders `**Argument:**` and resumes at the blank after it. */
  lemma BoldLabelScan(h: string)
    requires StartsWith(h, ArgumentLabel) && Advances(BoldAt, h)
    ensures Scan(BoldAt, h, 0) == Render(Strong("Argument:")) + Scan(BoldAt, h, 13)
  {
    BoldLabelMatch(h);
  }

  /** The blank after the label is copied. */
  lemma BoldLabelBlank(h: string)
    requires StartsWith(h, ArgumentLabel) && Advances(BoldAt, h)
    ensures Scan(BoldAt, h, 13) == " " + Scan(BoldAt, h, 14)
  {
    assert h[13] == ArgumentLabel[13] == ' ';
  }

  /** The bold rewrite turns the argument label into `<strong>Argument:</strong>`. */
  lemma LabelIsBold(h: string)
    requires StartsWith(h, ArgumentLabel)
    ensures Rewrite(Bold, h) == RenderedArgumentLabel + Scan(BoldAt, h, |ArgumentLabel|)
  {
    MatcherAdvances(Bold, h);
    BoldLabelScan(h);
    BoldLabelBlank(h);
    ScanJoin(BoldAt, h, 0, 13, 14, Render(Strong("Argument:")), " ");
    RenderedLabel();
  }

  /** Two stretches of a rewrite put together. */
  lemma ScanJoin(m: Matcher, s: string, a: nat, b: nat, c: nat, x: string, y: string)
    requires a <= b <= c <= |s| && Advances(m, s)
    requires Scan(m, s, a) == x + Scan(m, s, b) && Scan(m, s, b) == y + Scan(m, s, c)
    ensures Scan(m, s, a) == (x + y) + Scan(m, s, c)
  {
  }

  /** The rendered label is the strong markup of `Argument:` and the blank. */
  lemma RenderedLabel()
    ensures Render(Strong("Argument:")) + " " == RenderedArgumentLabel
  {
    var r := Render(Strong("Argument:"));
    assert r == "<strong>" + "Argument:" + "</strong>";
    assert |r + " "| == |RenderedArgumentLabel|;
    forall k | 0 <= k < |RenderedArgumentLabel| ensures (r + " ")[k] == RenderedArgumentLabel[k] {
    }
  }

  /** The later rewrites leave the rendered label at the front alone. */
  lemma KeepsRenderedLabel(rule: Rule, x: string)
    requires StartsWith(x, RenderedArgumentLabel)
    ensures StartsWith(Rewrite(rule, x), RenderedArgumentLabel)
  {
    var q := RenderedArgumentLabel;
    RenderedLabelInert();
    assert x == q + x[|q|..];
    InertPrefixKept(rule, q, x[|q|..]);
  }

  /** The rendered label holds nothing a later rewrite could start on. */
  lemma RenderedLabelInert()
    ensures Inert(RenderedArgumentLabel) && !IsSpace(RenderedArgumentLabel[0])
  {
    var q := RenderedArgumentLabel;
    forall k | 0 <= k < |q|
      ensures !IsLineTerminator(q[k]) && q[k] != '*' && q[k] != '#' && q[k] != '-' && !IsDigit(q[k])
    {
    }
  }

  /** Text that opens with the rendered label is wrapped in a paragraph. */
  lemma RenderedLabelWrapped(p: string)
    requires StartsWith(p, RenderedArgumentLabel)
    ensures StartsWith(Wrap(p), ParagraphOpen + RenderedArgumentLabel)
  {
    assert p[1] == RenderedArgumentLabel[1] == 's';
    var r := Wrap(p);
    assert r == ParagraphOpen + p + "</p>";
    assert r[..|ParagraphOpen| + |RenderedArgumentLabel|] == ParagraphOpen + p[..|RenderedArgumentLabel|];
  }

  /**
   * The "Argument" section opens with its label in bold: whatever follows
   * `**Argument:** `, the rendered text starts with a paragraph holding
   * `<strong>Argument:</strong> `.
   */
  lemma ArgumentLabelRendered(rest: string)
    ensures StartsWith(FormatMarkdownText(ArgumentLabel + rest), ParagraphOpen + RenderedArgumentLabel)
  {
    var text := ArgumentLabel + rest;
    LabelHasNoHeader(text);
    var h := Rewrite(Headers, text);
    LabelIsBold(h);
    var b := Rewrite(Bold, h);
    KeepsRenderedLabel(Italic, b);
    var it := Rewrite(Italic, b);
    KeepsRenderedLabel(Bullets, it);
    var bl := Rewrite(Bullets, it);
    KeepsRenderedLabel(Numbered, bl);
    var nl := Rewrite(Numbered, bl);
    KeepsRenderedLabel(Paragraphs, nl);
    RenderedLabelWrapped(Rewrite(Paragraphs, nl));
  }
}
