/**
 * The line-splitting core of `formatResponse`
 * (components/argument-analyzer.tsx:89-127), stated for any way of
 * recognising the lines that open a section.  A line either opens a section,
 * giving its name and the first line of its buffer, or it does not.  The
 * lines before the first such line form the preamble; every opening line
 * starts a block that runs up to the next opening line.
 *
 * `Response` instantiates this with the six section patterns and the
 * markdown renderer.
 */
module Sectioner {
  import opened JsText
  import opened Wrappers
  import opened OrderedDict

  /** What a line opens: the section name and the buffer's first line, or nothing for a plain line. */
  type Opener = string -> Option<(string, string)>

  /** A section name and the raw text gathered for it. */
  type Block = (string, string)

  /** A name a section can be stored under: not empty, and neither of the two reserved keys. */
  predicate SectionName(n: string) {
    n != "" && n != "Argument" && n != "Analysis"
  }

  ghost predicate ValidOpener(open: Opener) {
    forall line :: open(line).Some? ==> SectionName(open(line).value.0)
  }

  /** The first opening line at or after `from`, or `|lines|` when there is none. */
  function NextOpening(open: Opener, lines: seq<string>, from: nat): (j: nat)
    requires from <= |lines|
    ensures from <= j <= |lines|
    ensures j < |lines| ==> open(lines[j]).Some?
    ensures forall k :: from <= k < j ==> open(lines[k]).None?
    decreases |lines| - from
  {
    if from == |lines| || open(lines[from]).Some? then from else NextOpening(open, lines, from + 1)
  }

  /**
   * The blocks from opening line `i` on: each opening line with the lines up
   * to the next opening line, every line followed by a newline.
   */
  function BlocksFrom(open: Opener, lines: seq<string>, i: nat): (bs: seq<Block>)
    requires i < |lines| && open(lines[i]).Some?
    ensures |bs| > 0
    ensures ValidOpener(open) ==> forall k :: 0 <= k < |bs| ==> SectionName(bs[k].0)
    decreases |lines| - i
  {
    var (name, seed) := open(lines[i]).value;
    var j := NextOpening(open, lines, i + 1);
    var rest := if j < |lines| then BlocksFrom(open, lines, j) else [];
    assert forall k :: 0 < k <= |rest| ==> ([(name, "")] + rest)[k] == rest[k - 1];
    [(name, seed + Terminated(lines[i + 1..j]))] + rest
  }

  /** All blocks, in order. */
  function Blocks(open: Opener, lines: seq<string>): (bs: seq<Block>)
    ensures ValidOpener(open) ==> forall k :: 0 <= k < |bs| ==> SectionName(bs[k].0)
    ensures bs == [] <==> forall k :: 0 <= k < |lines| ==> open(lines[k]).None?
  {
    var f := NextOpening(open, lines, 0);
    if f < |lines| then BlocksFrom(open, lines, f) else []
  }

  /** The lines before the first opening line. */
  function Preamble(open: Opener, lines: seq<string>): (pre: seq<string>)
    ensures |pre| <= |lines| && pre == lines[..|pre|]
    ensures forall k :: 0 <= k < |pre| ==> open(lines[k]).None?
    ensures |pre| < |lines| ==> open(lines[|pre|]).Some?
  {
    lines[..NextOpening(open, lines, 0)]
  }

  /** Every block stored under its name, its buffer rendered by `render`. */
  function FlushAll(render: string -> string, bs: seq<Block>): (ps: seq<(string, string)>)
    ensures |ps| == |bs| && forall k :: 0 <= k < |bs| ==> ps[k] == (bs[k].0, render(bs[k].1))
  {
    if bs == [] then [] else FlushAll(render, bs[..|bs| - 1]) + [(bs[|bs| - 1].0, render(bs[|bs| - 1].1))]
  }

  // ---------------------------------------------------------------------
  // Reading one more line

  /** How the blocks change when one more line is read. */
  function Grow(open: Opener, bs: seq<Block>, line: string): seq<Block> {
    match open(line)
    case Some((name, seed)) => bs + [(name, seed)]
    case None =>
      if bs == [] then []
      else bs[..|bs| - 1] + [(bs[|bs| - 1].0, bs[|bs| - 1].1 + line + "\n")]
  }

  lemma {:induction false} NextOpeningSnoc(open: Opener, lines: seq<string>, line: string, from: nat)
    requires from <= |lines|
    ensures NextOpening(open, lines + [line], from) ==
      if NextOpening(open, lines, from) < |lines| then NextOpening(open, lines, from)
      else if open(line).Some? then |lines| else |lines| + 1
    decreases |lines| - from
  {
    var s := lines + [line];
    if from < |lines| {
      assert s[from] == lines[from];
      if open(lines[from]).None? {
        NextOpeningSnoc(open, lines, line, from + 1);
      }
    } else {
      assert s[from] == line;
    }
  }

  lemma GrowCons(open: Opener, b: Block, rest: seq<Block>, line: string)
    requires rest != []
    ensures Grow(open, [b] + rest, line) == [b] + Grow(open, rest, line)
  {
    assert ([b] + rest)[..|rest|] == [b] + rest[..|rest| - 1];
  }

  lemma SliceSnoc<T>(xs: seq<T>, x: T, k: nat)
    requires k <= |xs|
    ensures (xs + [x])[k..] == xs[k..] + [x]
  {
  }

  lemma TerminatedSnoc(lines: seq<string>, line: string)
    ensures Terminated(lines + [line]) == Terminated(lines) + line + "\n"
  {
    assert (lines + [line])[..|lines|] == lines;
  }

  /** The block opened at `i` and the ones after it, when the next opening line `j` is among the lines. */
  lemma BlocksFromNext(open: Opener, lines: seq<string>, i: nat, j: nat)
    requires i < j < |lines| && open(lines[i]).Some? && NextOpening(open, lines, i + 1) == j
    ensures BlocksFrom(open, lines, i) ==
      [(open(lines[i]).value.0, open(lines[i]).value.1 + Terminated(lines[i + 1..j]))] + BlocksFrom(open, lines, j)
  {
  }

  /** The block opened at `i`, when it is the last one. */
  lemma BlocksFromLast(open: Opener, lines: seq<string>, i: nat)
    requires i < |lines| && open(lines[i]).Some? && NextOpening(open, lines, i + 1) == |lines|
    ensures BlocksFrom(open, lines, i) ==
      [(open(lines[i]).value.0, open(lines[i]).value.1 + Terminated(lines[i + 1..]))]
  {
    assert lines[i + 1..|lines|] == lines[i + 1..];
  }

  /** An opening line read after the last block starts a new last block. */
  lemma OpeningAfterLast(open: Opener, lines: seq<string>, line: string, i: nat)
    requires i < |lines| && open(lines[i]).Some? && NextOpening(open, lines, i + 1) == |lines|
    requires open(line).Some?
    ensures BlocksFrom(open, lines + [line], i) == BlocksFrom(open, lines, i) + [open(line).value]
  {
    var s := lines + [line];
    assert s[i] == lines[i];
    assert s[i + 1..|lines|] == lines[i + 1..];
    assert s[|lines|] == line;
    NextOpeningSnoc(open, lines, line, i + 1);
    BlocksFromLast(open, lines, i);
    BlocksFromNext(open, s, i, |lines|);
    assert NextOpening(open, s, |lines| + 1) == |s|;
    BlocksFromLast(open, s, |lines|);
    var v := open(line).value;
    assert s[|lines| + 1..] == [];
    assert Terminated(s[|lines| + 1..]) == "";
    assert v.1 + "" == v.1;
    assert BlocksFrom(open, s, |lines|) == [(v.0, v.1)];
  }

  /** A plain line read after the last block is appended to it. */
  lemma PlainAfterLast(open: Opener, lines: seq<string>, line: string, i: nat)
    requires i < |lines| && open(lines[i]).Some? && NextOpening(open, lines, i + 1) == |lines|
    requires open(line).None?
    ensures BlocksFrom(open, lines + [line], i) == Grow(open, BlocksFrom(open, lines, i), line)
  {
    var s := lines + [line];
    assert s[i] == lines[i];
    NextOpeningSnoc(open, lines, line, i + 1);
    SliceSnoc(lines, line, i + 1);
    BlocksFromLast(open, lines, i);
    BlocksFromLast(open, s, i);
    TerminatedSnoc(lines[i + 1..], line);
    var v := open(lines[i]).value;
    var b := (v.0, v.1 + Terminated(lines[i + 1..]));
    assert Terminated(s[i + 1..]) == Terminated(lines[i + 1..]) + line + "\n";
    assert v.1 + (Terminated(lines[i + 1..]) + line + "\n") == b.1 + line + "\n";
    assert BlocksFrom(open, s, i) == [(b.0, b.1 + line + "\n")];
    assert Grow(open, [b], line) == [b][..0] + [(b.0, b.1 + line + "\n")];
  }

  lemma {:induction false} BlocksFromSnoc(open: Opener, lines: seq<string>, line: string, i: nat)
    requires i < |lines| && open(lines[i]).Some?
    ensures BlocksFrom(open, lines + [line], i) == Grow(open, BlocksFrom(open, lines, i), line)
    decreases |lines| - i
  {
    var s := lines + [line];
    assert s[i] == lines[i];
    var j := NextOpening(open, lines, i + 1);
    NextOpeningSnoc(open, lines, line, i + 1);
    if j < |lines| {
      assert s[i + 1..j] == lines[i + 1..j];
      assert s[j] == lines[j];
      BlocksFromNext(open, lines, i, j);
      BlocksFromNext(open, s, i, j);
      BlocksFromSnoc(open, lines, line, j);
      GrowCons(open, (open(lines[i]).value.0, open(lines[i]).value.1 + Terminated(lines[i + 1..j])),
        BlocksFrom(open, lines, j), line);
    } else if open(line).Some? {
      OpeningAfterLast(open, lines, line, i);
    } else {
      PlainAfterLast(open, lines, line, i);
    }
  }

  /** The first opening line opens the first block. */
  lemma FirstOpening(open: Opener, read: seq<string>, line: string)
    requires NextOpening(open, read, 0) == |read| && open(line).Some?
    ensures Blocks(open, read + [line]) == [open(line).value]
  {
    var s := read + [line];
    NextOpeningSnoc(open, read, line, 0);
    assert s[|read|] == line;
    assert NextOpening(open, s, |read| + 1) == |s|;
    BlocksFromLast(open, s, |read|);
    var v := open(line).value;
    assert s[|read| + 1..] == [];
    assert Terminated(s[|read| + 1..]) == "";
    assert v.1 + "" == v.1;
  }

  /** One more line: the blocks grow, and the preamble grows only while no opening line has been seen. */
  lemma BlocksSnoc(open: Opener, read: seq<string>, line: string)
    ensures Blocks(open, read + [line]) == Grow(open, Blocks(open, read), line)
    ensures Preamble(open, read + [line]) ==
      if Blocks(open, read) == [] && open(line).None? then read + [line] else Preamble(open, read)
  {
    var s := read + [line];
    NextOpeningSnoc(open, read, line, 0);
    var f := NextOpening(open, read, 0);
    if f < |read| {
      BlocksFromSnoc(open, read, line, f);
      assert s[..f] == read[..f];
    } else if open(line).Some? {
      FirstOpening(open, read, line);
      assert s[..|read|] == read;
    } else {
      assert s[..|s|] == s;
    }
  }

  // ---------------------------------------------------------------------
  // The state of the loop

  function Front(bs: seq<Block>): seq<Block> {
    if bs == [] then [] else bs[..|bs| - 1]
  }

  /** `lastSectionName`: the name of the open block, `''` before the first opening line. */
  function LastName(bs: seq<Block>): string {
    if bs == [] then "" else bs[|bs| - 1].0
  }

  /** `lastSectionContent`: the buffer of the open block. */
  function LastBuffer(bs: seq<Block>): string {
    if bs == [] then "" else bs[|bs| - 1].1
  }

  /** The "Argument" entry while the preamble is being read (lines 115-121). */
  function ArgumentBuffer(pre: seq<string>): seq<(string, string)> {
    if pre == [] then [] else [("Argument", Terminated(pre))]
  }

  /** What the `sections` object holds once the lines `read` have been read: every block but the open one flushed. */
  function Buffered(open: Opener, render: string -> string, read: seq<string>): seq<(string, string)> {
    ArgumentBuffer(Preamble(open, read)) + PutAll([], FlushAll(render, Front(Blocks(open, read))))
  }

  /** Flushing the open block stores it after the ones flushed before. */
  lemma FlushLast(render: string -> string, bs: seq<Block>, front: seq<(string, string)>)
    requires bs != [] && SectionName(bs[|bs| - 1].0) && (front == [] || front == [("Argument", front[0].1)])
    ensures Put(front + PutAll([], FlushAll(render, Front(bs))), LastName(bs), render(LastBuffer(bs)))
         == front + PutAll([], FlushAll(render, bs))
  {
    var ps := FlushAll(render, Front(bs));
    var last := (LastName(bs), render(LastBuffer(bs)));
    assert FlushAll(render, bs) == ps + [last];
    assert (ps + [last])[..|ps|] == ps;
    assert Keys(front) == [] || Keys(front) == ["Argument"];
    PutAfter(front, PutAll([], ps), last.0, last.1);
  }

  /** An opening line flushes the open block, if any, and opens a new one. */
  lemma StepOpening(open: Opener, render: string -> string, read: seq<string>, line: string)
    requires ValidOpener(open) && open(line).Some?
    ensures var bs := Blocks(open, read);
      Buffered(open, render, read + [line]) ==
        if bs == [] then Buffered(open, render, read)
        else Put(Buffered(open, render, read), LastName(bs), render(LastBuffer(bs)))
    ensures Blocks(open, read + [line]) != []
    ensures LastName(Blocks(open, read + [line])) == open(line).value.0
    ensures LastBuffer(Blocks(open, read + [line])) == open(line).value.1
  {
    BlocksSnoc(open, read, line);
    var bs := Blocks(open, read);
    var bs' := bs + [open(line).value];
    assert Front(bs') == bs;
    if bs != [] {
      FlushLast(render, bs, ArgumentBuffer(Preamble(open, read)));
    }
  }

  /** A plain line inside a block is appended to that block's buffer. */
  lemma StepPlain(open: Opener, render: string -> string, read: seq<string>, line: string)
    requires open(line).None? && Blocks(open, read) != []
    ensures Blocks(open, read + [line]) != []
    ensures Buffered(open, render, read + [line]) == Buffered(open, render, read)
    ensures LastName(Blocks(open, read + [line])) == LastName(Blocks(open, read))
    ensures LastBuffer(Blocks(open, read + [line])) == LastBuffer(Blocks(open, read)) + line + "\n"
  {
    BlocksSnoc(open, read, line);
    assert Front(Blocks(open, read + [line])) == Front(Blocks(open, read));
  }

  /** A plain line before any opening line is appended to the "Argument" entry. */
  lemma StepPreamble(open: Opener, render: string -> string, read: seq<string>, line: string)
    requires open(line).None? && Blocks(open, read) == []
    ensures Blocks(open, read + [line]) == []
    ensures Buffered(open, render, read) == ArgumentBuffer(read)
    ensures Buffered(open, render, read + [line]) == [("Argument", Terminated(read) + line + "\n")]
    ensures read == [] <==> Terminated(read) == ""
  {
    BlocksSnoc(open, read, line);
    var s := read + [line];
    assert Preamble(open, read) == read;
    assert Preamble(open, s) == s;
    assert Front([]) == [];
    assert PutAll([], FlushAll(render, [])) == [];
    TerminatedSnoc(read, line);
    if read != [] {
      assert |Terminated(read)| > 0;
    }
  }

  /** The object once every line has been read and the open block flushed (lines 124-127). */
  function Collected(open: Opener, render: string -> string, lines: seq<string>): seq<(string, string)> {
    ArgumentBuffer(Preamble(open, lines)) + PutAll([], FlushAll(render, Blocks(open, lines)))
  }

  /** Flushing the open block at the end of the input gives the collected object. */
  lemma Finish(open: Opener, render: string -> string, lines: seq<string>)
    requires ValidOpener(open)
    ensures var bs := Blocks(open, lines);
      Collected(open, render, lines) ==
        if bs == [] then Buffered(open, render, lines)
        else Put(Buffered(open, render, lines), LastName(bs), render(LastBuffer(bs)))
  {
    var bs := Blocks(open, lines);
    if bs != [] {
      FlushLast(render, bs, ArgumentBuffer(Preamble(open, lines)));
    }
  }

  // ---------------------------------------------------------------------
  // Which sections there are

  function Names(bs: seq<Block>): (ns: seq<string>)
    ensures |ns| == |bs| && forall k :: 0 <= k < |bs| ==> ns[k] == bs[k].0
  {
    if bs == [] then [] else Names(bs[..|bs| - 1]) + [bs[|bs| - 1].0]
  }

  /** The names given by the opening lines, in the order of the lines. */
  function OpeningNames(open: Opener, lines: seq<string>): seq<string> {
    if lines == [] then []
    else
      OpeningNames(open, lines[..|lines| - 1]) +
      match open(lines[|lines| - 1]) case Some(o) => [o.0] case None => []
  }

  /** There is one block per opening line, named by it, in the order of the lines. */
  lemma {:induction false} BlockNames(open: Opener, lines: seq<string>)
    ensures Names(Blocks(open, lines)) == OpeningNames(open, lines)
  {
    if lines == [] {
      assert Blocks(open, lines) == [];
    } else {
      var read := lines[..|lines| - 1];
      var line := lines[|lines| - 1];
      assert lines == read + [line];
      BlockNames(open, read);
      BlocksSnoc(open, read, line);
      var bs := Blocks(open, read);
      if open(line).Some? {
        assert Names(bs + [open(line).value]) == Names(bs) + [open(line).value.0];
      } else if bs != [] {
        var bs' := Grow(open, bs, line);
        assert Names(bs') == Names(bs);
      }
    }
  }

  /** Every name among the opening names is the name some line opens. */
  lemma {:induction false} OpeningNameSource(open: Opener, lines: seq<string>, x: string)
    requires x in OpeningNames(open, lines)
    ensures exists k :: 0 <= k < |lines| && open(lines[k]).Some? && open(lines[k]).value.0 == x
  {
    var read := lines[..|lines| - 1];
    var last := lines[|lines| - 1];
    if x in OpeningNames(open, read) {
      OpeningNameSource(open, read, x);
      var k :| 0 <= k < |read| && open(read[k]).Some? && open(read[k]).value.0 == x;
      assert lines[k] == read[k];
    } else {
      assert open(last).Some? && open(last).value.0 == x;
    }
  }

  /** What may stand before the stored blocks: nothing, or the "Argument" entry. */
  predicate ArgumentOnly(front: seq<(string, string)>) {
    front == [] || front == [("Argument", front[0].1)]
  }

  /** The keys of the stored blocks: the names of the opening lines in first-seen order. */
  lemma StoredKeys(open: Opener, render: string -> string, lines: seq<string>)
    ensures Keys(PutAll([], FlushAll(render, Blocks(open, lines)))) == AppendNew([], OpeningNames(open, lines))
  {
    var bs := Blocks(open, lines);
    var ps := FlushAll(render, bs);
    PutAllKeys([], ps);
    assert Keys(ps) == Names(bs);
    BlockNames(open, lines);
  }

  /** Each name is stored once. */
  lemma StoredDistinct(render: string -> string, bs: seq<Block>)
    ensures DistinctKeys(PutAll([], FlushAll(render, bs)))
  {
    PutAllKeys([], FlushAll(render, bs));
  }

  /** No block is stored under "Argument" or "Analysis". */
  lemma StoredReserved(open: Opener, render: string -> string, lines: seq<string>)
    requires ValidOpener(open)
    ensures "Argument" !in Keys(PutAll([], FlushAll(render, Blocks(open, lines))))
    ensures "Analysis" !in Keys(PutAll([], FlushAll(render, Blocks(open, lines))))
  {
    var bs := Blocks(open, lines);
    var ps := FlushAll(render, bs);
    PutAllKeys([], ps);
    assert Keys(ps) == Names(bs);
    ReservedNotNamed(open, lines);
    AppendNewMembers([], Keys(ps), "Argument");
    AppendNewMembers([], Keys(ps), "Analysis");
  }

  /** A section opened more than once keeps the last of its blocks. */
  lemma StoredLastWins(open: Opener, render: string -> string, lines: seq<string>, front: seq<(string, string)>, j: nat)
    requires ValidOpener(open) && ArgumentOnly(front)
    requires j < |Blocks(open, lines)|
    requires forall j' :: j < j' < |Blocks(open, lines)| ==> Blocks(open, lines)[j'].0 != Blocks(open, lines)[j].0
    ensures Get(front + PutAll([], FlushAll(render, Blocks(open, lines))), Blocks(open, lines)[j].0)
      == Some(render(Blocks(open, lines)[j].1))
  {
    var bs := Blocks(open, lines);
    var ps := FlushAll(render, bs);
    PutAllLastWins([], ps, bs[j].0, j);
    assert Keys(front) == [] || Keys(front) == ["Argument"];
    GetAfter(front, PutAll([], ps), bs[j].0);
  }

  /** Storing at least one block leaves the object non-empty. */
  lemma StoredNotEmpty(render: string -> string, bs: seq<Block>)
    requires bs != []
    ensures |PutAll([], FlushAll(render, bs))| > 0
  {
    var ps := FlushAll(render, bs);
    assert Get(PutAll([], ps), ps[|ps| - 1].0).Some?;
  }

  /** The two assignments of lines 117-120 append the line to the "Argument" entry. */
  lemma PreambleEntry(read: seq<string>, line: string)
    ensures var d := ArgumentBuffer(read);
      var d' := if Get(d, "Argument").None? || Get(d, "Argument").value == "" then Put(d, "Argument", "") else d;
      Put(d', "Argument", Get(d', "Argument").value + line + "\n") == [("Argument", Terminated(read) + line + "\n")]
  {
    var t := Terminated(read);
    if read == [] {
      assert t == "";
      SingleEntry("Argument", "", t + line + "\n");
    } else {
      assert |t| > 0;
      SingleEntry("Argument", t, t + line + "\n");
    }
  }

  /** No block is named "Argument" or "Analysis". */
  lemma ReservedNotNamed(open: Opener, lines: seq<string>)
    requires ValidOpener(open)
    ensures "Argument" !in Names(Blocks(open, lines)) && "Analysis" !in Names(Blocks(open, lines))
  {
    var ns := Names(Blocks(open, lines));
    assert forall k :: 0 <= k < |ns| ==> SectionName(ns[k]);
  }

  /**
   * The body of the loop of lines 95-122, for one more line: the line either
   * opens a section (flushing the open one), continues the open section, or,
   * before any section has opened, goes to "Argument".
   */
  method ReadLine(open: Opener, render: string -> string, ghost read: seq<string>, line: string,
                  sections: seq<(string, string)>, lastSectionName: string, lastSectionContent: string)
    returns (sections': seq<(string, string)>, lastSectionName': string, lastSectionContent': string)
    requires ValidOpener(open)
    requires sections == Buffered(open, render, read)
    requires lastSectionName == LastName(Blocks(open, read)) && lastSectionContent == LastBuffer(Blocks(open, read))
    ensures sections' == Buffered(open, render, read + [line])
    ensures lastSectionName' == LastName(Blocks(open, read + [line]))
    ensures lastSectionContent' == LastBuffer(Blocks(open, read + [line]))
  {
    assert lastSectionName != "" <==> Blocks(open, read) != [];
    sections', lastSectionName', lastSectionContent' := sections, lastSectionName, lastSectionContent;
    var matchedSection := open(line);
    if matchedSection.Some? {
      StepOpening(open, render, read, line);
      if lastSectionName != "" {
        sections' := Put(sections, lastSectionName, render(lastSectionContent));
      }
      lastSectionName' := matchedSection.value.0;
      lastSectionContent' := matchedSection.value.1;
    } else if lastSectionName != "" {
      StepPlain(open, render, read, line);
      lastSectionContent' := lastSectionContent + line + "\n";
    } else {
      StepPreamble(open, render, read, line);
      PreambleEntry(read, line);
      if Get(sections', "Argument").None? || Get(sections', "Argument").value == "" {
        sections' := Put(sections', "Argument", "");
      }
      sections' := Put(sections', "Argument", Get(sections', "Argument").value + line + "\n");
    }
  }

  /** Before the first line: nothing stored and no section open (lines 71 and 89-90). */
  lemma Start(open: Opener, render: string -> string)
    ensures Buffered(open, render, []) == []
    ensures LastName(Blocks(open, [])) == "" && LastBuffer(Blocks(open, [])) == ""
  {
    assert Blocks(open, []) == [];
    assert Preamble(open, []) == [];
  }

  lemma PrefixSnoc<T>(xs: seq<T>, i: nat)
    requires i < |xs|
    ensures xs[..i + 1] == xs[..i] + [xs[i]]
  {
  }

  /** After the last line, flushing the open section (lines 124-127) gives the collected object. */
  lemma End(open: Opener, render: string -> string, lines: seq<string>,
            sections: seq<(string, string)>, lastSectionName: string, lastSectionContent: string)
    requires ValidOpener(open)
    requires sections == Buffered(open, render, lines)
    requires lastSectionName == LastName(Blocks(open, lines)) && lastSectionContent == LastBuffer(Blocks(open, lines))
    ensures (if lastSectionName != "" then Put(sections, lastSectionName, render(lastSectionContent)) else sections)
      == Collected(open, render, lines)
  {
    Finish(open, render, lines);
  }

  /** The loop of lines 95-122 and the flush of the last section (lines 124-127). */
  method CollectSections(open: Opener, render: string -> string, lines: seq<string>) returns (sections: seq<(string, string)>)
    requires ValidOpener(open)
    ensures sections == Collected(open, render, lines)
  {
    sections := [];
    var lastSectionName := "";
    var lastSectionContent := "";
    Start(open, render);
    var i := 0;
    while i < |lines|
      invariant i <= |lines|
      invariant sections == Buffered(open, render, lines[..i])
      invariant lastSectionName == LastName(Blocks(open, lines[..i]))
      invariant lastSectionContent == LastBuffer(Blocks(open, lines[..i]))
    {
      PrefixSnoc(lines, i);
      sections, lastSectionName, lastSectionContent :=
        ReadLine(open, render, lines[..i], lines[i], sections, lastSectionName, lastSectionContent);
      i := i + 1;
    }
    assert lines[..i] == lines;
    End(open, render, lines, sections, lastSectionName, lastSectionContent);
    if lastSectionName != "" {
      sections := Put(sections, lastSectionName, render(lastSectionContent));
    }
  }
}
