/**
 * `formatResponse` (components/argument-analyzer.tsx:63-141): the reply of
 * the analysis service split into named sections, each rendered by
 * `formatMarkdownText`.  `Sections` is the reference definition, built from
 * the blocks of `Sectioner`; the method `FormatResponse` is the loop of the
 * source, proved to compute it.
 */
module Response {
  import opened Wrappers
  import opened JsText
  import opened OrderedDict
  import opened Markdown
  import opened Markers
  import opened Sectioner

  /** What an opening line leaves in its section's buffer: the line without its marker, trimmed (line 111). */
  function Seed(l: Label, line: string): string {
    Trim(Remove(PatternOf(l), line)) + "\n"
  }

  /** A line opens the section of the first pattern it matches (lines 99-101). */
  function Opens(line: string): Option<(string, string)> {
    match FindLabel(line)
    case Some(l) => Some((Name(l), Seed(l, line)))
    case None => None
  }

  /** How a block's buffer is stored (lines 106 and 126). */
  function RenderBlock(buffer: string): string {
    FormatMarkdownText(Trim(buffer))
  }

  lemma OpensValid()
    ensures ValidOpener(Opens)
  {
    forall line | Opens(line).Some? ensures SectionName(Opens(line).value.0) {
      var l := FindLabel(line).value;
      NamesDistinct(l, l);
    }
  }

  /** `defaultSections` (lines 65-67). */
  function Fallback(content: string): seq<(string, string)> {
    [("Analysis", FormatMarkdownText(content))]
  }

  /** The "Argument" entry once formatted (lines 130-133): present only when the preamble is not empty. */
  function ArgumentSection(pre: seq<string>): seq<(string, string)> {
    if pre == [] then [] else [("Argument", FormatMarkdownText(ArgumentLabel + Trim(Terminated(pre))))]
  }

  /**
   * The sections of a reply: the whole reply rendered as "Analysis" when no
   * pattern occurs in it; otherwise "Argument" for the lines before the
   * first opening line, then one entry per section name in the order the
   * names first open, holding the last block opened under that name.
   */
  function Sections(content: string): seq<(string, string)> {
    if FindLabel(content).None? then Fallback(content)
    else
      var lines := SplitLines(content);
      ArgumentSection(Preamble(Opens, lines)) + PutAll([], FlushAll(RenderBlock, Blocks(Opens, lines)))
  }

  // ---------------------------------------------------------------------
  // The loop

  method FormatResponse(content: string) returns (sections: seq<(string, string)>)
    ensures sections == Sections(content)
  {
    var defaultSections := Fallback(content);
    if FindLabel(content).None? {
      return defaultSections;
    }
    var lines := SplitLines(content);
    OpensValid();
    sections := CollectSections(Opens, RenderBlock, lines);
    ArgumentEntry(lines);
    var argument := Get(sections, "Argument");
    if argument.Some? && argument.value != "" {
      sections := Put(sections, "Argument", FormatMarkdownText(ArgumentLabel + Trim(argument.value)));
    }
    MarkedHasBlock(content);
    NotEmpty(lines);
    sections := if |sections| > 0 then sections else defaultSections;
  }

  /** Formatting the "Argument" entry at the end (lines 130-133). */
  lemma ArgumentEntry(lines: seq<string>)
    ensures var pre := Preamble(Opens, lines);
      var d := Collected(Opens, RenderBlock, lines);
      var a := Get(d, "Argument");
      (if a.Some? && a.value != "" then Put(d, "Argument", FormatMarkdownText(ArgumentLabel + Trim(a.value))) else d)
        == ArgumentSection(pre) + PutAll([], FlushAll(RenderBlock, Blocks(Opens, lines)))
  {
    var pre := Preamble(Opens, lines);
    var rest := PutAll([], FlushAll(RenderBlock, Blocks(Opens, lines)));
    OpensValid();
    StoredReserved(Opens, RenderBlock, lines);
    if pre == [] {
      assert Collected(Opens, RenderBlock, lines) == rest;
    } else {
      var t := Terminated(pre);
      assert |t| > 0;
      FirstKey("Argument", t, rest, FormatMarkdownText(ArgumentLabel + Trim(t)));
    }
  }

  /** A reply in which some pattern occurs has a line in which one does. */
  lemma MarkedHasBlock(content: string)
    requires FindLabel(content).Some?
    ensures Blocks(Opens, SplitLines(content)) != []
  {
    var l := FindLabel(content).value;
    var lines := SplitLines(content);
    MarkerOneLine(l);
    ContainsSplit(content, Marker(l));
    var k :| 0 <= k < |lines| && Contains(lines[k], Marker(l));
    DeclaredOrder(Order(l));
    assert FindLabel(lines[k]).Some?;
  }

  /** Storing at least one block leaves the object non-empty. */
  lemma NotEmpty(lines: seq<string>)
    requires Blocks(Opens, lines) != []
    ensures |ArgumentSection(Preamble(Opens, lines)) + PutAll([], FlushAll(RenderBlock, Blocks(Opens, lines)))| > 0
  {
    StoredNotEmpty(RenderBlock, Blocks(Opens, lines));
  }

  // ---------------------------------------------------------------------
  // What the sections are

  /** A reply falls back to a single "Analysis" entry exactly when no pattern occurs in it. */
  lemma FallbackIffUnmarked(content: string)
    ensures FindLabel(content).None? <==> "Analysis" in Keys(Sections(content))
    ensures FindLabel(content).None? ==> Sections(content) == Fallback(content)
  {
    if FindLabel(content).Some? {
      var lines := SplitLines(content);
      var pre := Preamble(Opens, lines);
      var rest := PutAll([], FlushAll(RenderBlock, Blocks(Opens, lines)));
      OpensValid();
    StoredReserved(Opens, RenderBlock, lines);
      KeysAppend(ArgumentSection(pre), rest);
    }
  }

  /** The empty reply becomes an empty "Analysis" entry. */
  lemma EmptyReply()
    ensures Sections("") == [("Analysis", "")]
  {
    assert FindLabel("").None?;
  }

  /** An unmarked reply without markdown is shown as one paragraph. */
  lemma PlainReply(content: string)
    requires content != "" && PlainText(content)
    ensures Sections(content) == [("Analysis", ParagraphOpen + content + "</p>")]
  {
    assert FindLabel(content).None? by {
      forall l ensures !Contains(content, Marker(l)) {
      }
    }
    PlainTextIsWrapped(content);
  }

  /**
   * The keys of a marked reply: "Argument" when there is a preamble, then the
   * names of the opening lines in the order they first occur.
   */
  lemma SectionKeys(content: string)
    requires FindLabel(content).Some?
    ensures var lines := SplitLines(content);
      Keys(Sections(content)) ==
        (if Preamble(Opens, lines) == [] then [] else ["Argument"]) + AppendNew([], OpeningNames(Opens, lines))
  {
    var lines := SplitLines(content);
    var front := ArgumentSection(Preamble(Opens, lines));
    var rest := PutAll([], FlushAll(RenderBlock, Blocks(Opens, lines)));
    assert Sections(content) == front + rest;
    assert Keys(front) == if Preamble(Opens, lines) == [] then [] else ["Argument"];
    StoredKeys(Opens, RenderBlock, lines);
    KeysAppend(front, rest);
  }

  /** The keys of a marked reply are "Argument" and names of section labels, never anything else. */
  lemma KeysAreLabels(content: string, x: string)
    requires FindLabel(content).Some? && x in Keys(Sections(content))
    ensures x == "Argument" || exists l :: x == Name(l)
  {
    var lines := SplitLines(content);
    SectionKeys(content);
    if x != "Argument" {
      AppendNewMembers([], OpeningNames(Opens, lines), x);
      OpeningNameSource(Opens, lines, x);
      var k :| 0 <= k < |lines| && Opens(lines[k]).Some? && Opens(lines[k]).value.0 == x;
      assert x == Name(FindLabel(lines[k]).value);
    }
  }

  /** A marked reply has at least one section, and no key twice. */
  lemma SectionsDistinct(content: string)
    requires FindLabel(content).Some?
    ensures DistinctKeys(Sections(content)) && |Sections(content)| > 0
  {
    var lines := SplitLines(content);
    var pre := Preamble(Opens, lines);
    var rest := PutAll([], FlushAll(RenderBlock, Blocks(Opens, lines)));
    StoredDistinct(RenderBlock, Blocks(Opens, lines));
    if pre != [] {
      OpensValid();
      StoredReserved(Opens, RenderBlock, lines);
      ConsDistinct("Argument", ArgumentSection(pre)[0].1, rest);
    }
    MarkedHasBlock(content);
    NotEmpty(lines);
  }

  /**
   * A marked reply has an "Argument" entry exactly when its first line opens
   * no section; the entry is the preamble, trimmed, behind the bold label.
   */
  lemma ArgumentPresent(content: string)
    requires FindLabel(content).Some?
    ensures var lines := SplitLines(content);
      "Argument" in Keys(Sections(content)) <==> FindLabel(lines[0]).None?
    ensures var pre := Preamble(Opens, SplitLines(content));
      pre != [] ==> Get(Sections(content), "Argument") == Some(FormatMarkdownText(ArgumentLabel + Trim(Terminated(pre))))
    ensures Get(Sections(content), "Argument").Some? ==>
      StartsWith(Get(Sections(content), "Argument").value, ParagraphOpen + RenderedArgumentLabel)
  {
    var lines := SplitLines(content);
    var pre := Preamble(Opens, lines);
    var rest := PutAll([], FlushAll(RenderBlock, Blocks(Opens, lines)));
    OpensValid();
    StoredReserved(Opens, RenderBlock, lines);
    KeysAppend(ArgumentSection(pre), rest);
    if pre != [] {
      var v := FormatMarkdownText(ArgumentLabel + Trim(Terminated(pre)));
      FirstKey("Argument", v, rest, v);
      ArgumentLabelRendered(Trim(Terminated(pre)));
    } else {
      GetAfter([], rest, "Argument");
    }
  }

  /** A section opened more than once keeps the last of its blocks. */
  lemma LastBlockWins(content: string, j: nat)
    requires FindLabel(content).Some?
    requires var bs := Blocks(Opens, SplitLines(content));
      j < |bs| && forall j' :: j < j' < |bs| ==> bs[j'].0 != bs[j].0
    ensures var bs := Blocks(Opens, SplitLines(content));
      Get(Sections(content), bs[j].0) == Some(RenderBlock(bs[j].1))
  {
    var lines := SplitLines(content);
    OpensValid();
    var pre := Preamble(Opens, lines);
    assert ArgumentOnly(ArgumentSection(pre));
    StoredLastWins(Opens, RenderBlock, lines, ArgumentSection(pre), j);
  }
}
