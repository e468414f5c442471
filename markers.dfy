/**
 * The six section patterns of `formatResponse`
 * (components/argument-analyzer.tsx:74-81): which label a line opens
 * (`sectionPatterns.find(p => p.pattern.test(line))`) and what is left of
 * the line once its pattern is removed (`line.replace(pattern, '')`).
 *
 * Every pattern matches the bold marker `**L:**` of its label, and four of
 * them add the alternative `\d+\.\s+` followed by the marker, a numbered
 * marker such as `2. **Fallacies:**`.
 * Neither regular expression is anchored and neither has the `g` flag, so
 * `test` asks whether a match exists anywhere and `replace` removes the
 * leftmost match only.
 */
module Markers {
  import opened Wrappers
  import opened JsText
  import Markdown

  datatype Label = ArgumentAnalysis | LogicalStructure | Fallacies | Strength | Improvements | RevisedArgument

  /** The section name a label is stored under. */
  function Name(l: Label): (n: string)
    ensures |n| > 0 && '\n' !in n
  {
    match l
    case ArgumentAnalysis => "Argument Analysis"
    case LogicalStructure => "Logical Structure"
    case Fallacies => "Fallacies"
    case Strength => "Strength"
    case Improvements => "Improvements"
    case RevisedArgument => "Revised Argument"
  }

  /** The patterns in the order `find` tries them. */
  const Declared: seq<Label> := [ArgumentAnalysis, LogicalStructure, Fallacies, Strength, Improvements, RevisedArgument]

  /** A label's place in `Declared`. */
  function Order(l: Label): (n: nat)
    ensures n < |Declared| && Declared[n] == l
  {
    match l
    case ArgumentAnalysis => 0
    case LogicalStructure => 1
    case Fallacies => 2
    case Strength => 3
    case Improvements => 4
    case RevisedArgument => 5
  }

  /** `Order` undoes indexing into `Declared`. */
  lemma DeclaredOrder(n: nat)
    requires n < |Declared|
    ensures Order(Declared[n]) == n
  {
  }

  /** Different labels have different names, and none is "Argument" or "Analysis". */
  lemma NamesDistinct(l: Label, l': Label)
    ensures Name(l) == Name(l') <==> l == l'
    ensures Name(l) != "Argument" && Name(l) != "Analysis"
  {
  }

  /** `**L:**`, the bold marker of a label. */
  function Marker(l: Label): (m: string)
    ensures |m| > 4 && m[0] == '*' && m[1] == '*'
  {
    "**" + Name(l) + ":**"
  }

  /** No marker spans two lines. */
  lemma MarkerOneLine(l: Label)
    ensures '\n' !in Marker(l)
  {
  }

  /** Whether the pattern has the numbered alternative (lines 76-79, not 75 and 80). */
  predicate AllowsOrdinal(l: Label) {
    match l
    case ArgumentAnalysis => false
    case RevisedArgument => false
    case _ => true
  }

  /** A section pattern: the bold marker, and whether the numbered alternative is offered. */
  datatype Pattern = Pattern(marker: string, numbered: bool)

  /** The pattern tried for a label (lines 75-80). */
  function PatternOf(l: Label): (pt: Pattern)
    ensures pt.marker == Marker(l) && pt.numbered == AllowsOrdinal(l)
  {
    Pattern(Marker(l), AllowsOrdinal(l))
  }

  /** The marker opens with `*`, which is neither a digit, a dot nor white space. */
  predicate StarMarker(pt: Pattern) {
    |pt.marker| > 0 && pt.marker[0] == '*'
  }

  /**
   * `\d+\.\s+` followed by `m`, tried at `p`: where the match ends.  Neither
   * greedy run can give anything back, because the character after the
   * digits must be `.` and the marker must open with `*`.
   */
  function OrdinalMarkerAt(s: string, m: string, p: nat): (r: Option<nat>)
    requires p <= |s|
    ensures r.Some? ==> p + |m| < r.value <= |s| && OccursAt(s, m, r.value - |m|)
  {
    var d := Markdown.Run(s, p, Markdown.Digit);
    if d == 0 || p + d == |s| || s[p + d] != '.' then None
    else
      var w := Markdown.Run(s, p + d + 1, Markdown.Space);
      if w == 0 || !OccursAt(s, m, p + d + 1 + w) then None
      else Some(p + d + 1 + w + |m|)
  }

  /** The pattern tried at `p`: the marker itself first, then the numbered alternative. */
  function PatternAt(pt: Pattern, s: string, p: nat): (r: Option<nat>)
    requires p <= |s|
    ensures r.Some? ==> p + |pt.marker| <= r.value <= |s| && OccursAt(s, pt.marker, r.value - |pt.marker|)
    ensures r.Some? && r.value != p + |pt.marker| ==> pt.numbered
  {
    if OccursAt(s, pt.marker, p) then Some(p + |pt.marker|)
    else if pt.numbered then OrdinalMarkerAt(s, pt.marker, p)
    else None
  }

  /** What a match swallows in front of the marker is digits, a dot and white space, so never a `*`. */
  lemma PatternPrefix(pt: Pattern, s: string, p: nat)
    requires p <= |s| && PatternAt(pt, s, p).Some?
    ensures forall k :: p <= k < PatternAt(pt, s, p).value - |pt.marker| ==> s[k] != '*'
  {
    if !OccursAt(s, pt.marker, p) {
      var d := Markdown.Run(s, p, Markdown.Digit);
      var w := Markdown.Run(s, p + d + 1, Markdown.Space);
      assert PatternAt(pt, s, p).value - |pt.marker| == p + d + 1 + w;
      forall k | p <= k < p + d + 1 + w ensures s[k] != '*' {
        if k < p + d {
          assert Markdown.InClass(s[k], Markdown.Digit);
        } else if k > p + d {
          assert Markdown.InClass(s[k], Markdown.Space);
        }
      }
    }
  }

  /** The leftmost match at or after `p`, as start and end. */
  function LeftmostMatch(pt: Pattern, s: string, p: nat): (r: Option<(nat, nat)>)
    requires p <= |s|
    ensures r.Some? ==> p <= r.value.0 <= |s| && PatternAt(pt, s, r.value.0) == Some(r.value.1)
    ensures r.Some? ==> forall q :: p <= q < r.value.0 ==> PatternAt(pt, s, q).None?
    ensures r.None? ==> forall q :: p <= q <= |s| ==> PatternAt(pt, s, q).None?
    decreases |s| - p
  {
    match PatternAt(pt, s, p)
    case Some(e) => Some((p, e))
    case None => if p == |s| then None else LeftmostMatch(pt, s, p + 1)
  }

  /** `pattern.test(s)`. */
  predicate Test(pt: Pattern, s: string) {
    LeftmostMatch(pt, s, 0).Some?
  }

  /** `s.replace(pattern, '')`: the leftmost match cut out, or `s` itself when there is none. */
  function Remove(pt: Pattern, s: string): (r: string)
    ensures !Test(pt, s) ==> r == s
    ensures Test(pt, s) ==> |r| + |pt.marker| <= |s|
  {
    match LeftmostMatch(pt, s, 0)
    case None => s
    case Some((p, e)) => s[..p] + s[e..]
  }

  /** A pattern matches exactly when the line holds the bold marker: the numbered alternative adds no line. */
  lemma TestIsContains(pt: Pattern, s: string)
    ensures Test(pt, s) <==> Contains(s, pt.marker)
  {
    match LeftmostMatch(pt, s, 0)
    case Some((p, e)) =>
      assert OccursAt(s, pt.marker, e - |pt.marker|);
    case None =>
      forall q ensures !OccursAt(s, pt.marker, q) {
        if 0 <= q <= |s| {
          assert PatternAt(pt, s, q).None?;
        }
      }
  }

  /**
   * `sectionPatterns.find(p => p.pattern.test(line))`: the first label in
   * declared order whose bold marker the line holds.
   */
  function FindLabel(line: string): (r: Option<Label>)
    ensures r.Some? ==> Contains(line, Marker(r.value))
    ensures forall j :: 0 <= j < |Declared| && (r.None? || j < Order(r.value)) ==> !Contains(line, Marker(Declared[j]))
  {
    match FindIndex(Declared, l => Test(PatternOf(l), line))
    case None =>
      forall j | 0 <= j < |Declared| ensures !Contains(line, Marker(Declared[j])) {
        TestIsContains(PatternOf(Declared[j]), line);
      }
      None
    case Some(n) =>
      var l := Declared[n];
      DeclaredOrder(n);
      TestIsContains(PatternOf(l), line);
      forall j | 0 <= j < n ensures !Contains(line, Marker(Declared[j])) {
        TestIsContains(PatternOf(Declared[j]), line);
      }
      Some(l)
  }

  /** Where no pattern starts, the leftmost match lies further on. */
  lemma {:induction false} LeftmostSkips(pt: Pattern, s: string, p: nat, q: nat)
    requires p <= q <= |s|
    requires forall k :: p <= k < q ==> PatternAt(pt, s, k).None?
    ensures LeftmostMatch(pt, s, p) == LeftmostMatch(pt, s, q)
    decreases q - p
  {
    if p < q {
      LeftmostSkips(pt, s, p + 1, q);
    }
  }

  /** `\d+\.\s+` then the marker, tried where digits, a dot, white space and the marker follow. */
  lemma OrdinalMatchesAt(s: string, m: string, d: nat, w: nat)
    requires |m| > 0 && m[0] == '*' && OccursAt(s, m, d + 1 + w)
    requires 0 < d && forall k :: 0 <= k < d ==> IsDigit(s[k])
    requires s[d] == '.'
    requires 0 < w && forall k :: d < k <= d + w ==> IsSpace(s[k])
    ensures OrdinalMarkerAt(s, m, 0) == Some(d + 1 + w + |m|)
  {
    assert s[d + 1 + w] == m[0];
    Markdown.RunExact(s, 0, Markdown.Digit, d);
    Markdown.RunExact(s, d + 1, Markdown.Space, w);
  }

  /** With the numbered alternative, `replace` cuts a leading `N. ` together with the marker. */
  lemma NumberedCut(pt: Pattern, s: string, d: nat, w: nat)
    requires StarMarker(pt) && pt.numbered && OccursAt(s, pt.marker, d + 1 + w)
    requires 0 < d && forall k :: 0 <= k < d ==> IsDigit(s[k])
    requires s[d] == '.'
    requires 0 < w && forall k :: d < k <= d + w ==> IsSpace(s[k])
    ensures Remove(pt, s) == s[d + 1 + w + |pt.marker|..]
  {
    OrdinalMatchesAt(s, pt.marker, d, w);
    assert s[0] != pt.marker[0];
    NotOccursAt(s, pt.marker, 0);
    assert PatternAt(pt, s, 0) == Some(d + 1 + w + |pt.marker|);
  }

  /** A pattern with the numbered alternative removes `N. ` together with the marker. */
  lemma NumberedRemoved(pt: Pattern, n: string, ws: string, rest: string)
    requires StarMarker(pt) && pt.numbered
    requires |n| > 0 && forall k :: 0 <= k < |n| ==> IsDigit(n[k])
    requires |ws| > 0 && forall k :: 0 <= k < |ws| ==> IsSpace(ws[k])
    ensures Remove(pt, n + "." + ws + pt.marker + rest) == rest
  {
    var m := pt.marker;
    var s := n + "." + ws + m + rest;
    var d, w := |n|, |ws|;
    forall k | 0 <= k < d ensures IsDigit(s[k]) {
      assert s[k] == n[k];
    }
    forall k | d < k <= d + w ensures IsSpace(s[k]) {
      assert s[k] == ws[k - d - 1];
    }
    assert s[d + 1 + w..d + 1 + w + |m|] == m;
    NumberedCut(pt, s, d, w);
    assert s[d + 1 + w + |m|..] == rest;
  }

  lemma NotOccursAt(s: string, m: string, k: nat)
    requires |m| > 0 && k < |s| && s[k] != m[0]
    ensures !OccursAt(s, m, k)
  {
  }

  /** Without the numbered alternative, a pattern cannot start before the first `*`. */
  lemma NoMatchBeforeStar(pt: Pattern, s: string, q: nat)
    requires StarMarker(pt) && !pt.numbered && q <= |s|
    requires forall k :: 0 <= k < q ==> s[k] != '*'
    ensures LeftmostMatch(pt, s, 0) == LeftmostMatch(pt, s, q)
  {
    forall k | 0 <= k < q ensures PatternAt(pt, s, k).None? {
      NotOccursAt(s, pt.marker, k);
    }
    LeftmostSkips(pt, s, 0, q);
  }

  /** Without the numbered alternative, `replace` cuts the first marker out when no `*` comes before it. */
  lemma MarkerCut(pt: Pattern, s: string, q: nat)
    requires StarMarker(pt) && !pt.numbered && OccursAt(s, pt.marker, q)
    requires forall k :: 0 <= k < q ==> s[k] != '*'
    ensures Remove(pt, s) == s[..q] + s[q + |pt.marker|..]
  {
    NoMatchBeforeStar(pt, s, q);
    assert PatternAt(pt, s, q) == Some(q + |pt.marker|);
  }

  /** A pattern without the numbered alternative removes the marker only: the number stays. */
  lemma NumberKept(pt: Pattern, n: string, ws: string, rest: string)
    requires StarMarker(pt) && !pt.numbered
    requires |n| > 0 && forall k :: 0 <= k < |n| ==> IsDigit(n[k])
    requires |ws| > 0 && forall k :: 0 <= k < |ws| ==> IsSpace(ws[k])
    ensures Remove(pt, n + "." + ws + pt.marker + rest) == n + "." + ws + rest
  {
    var m := pt.marker;
    var front := n + "." + ws;
    var s := front + m + rest;
    var q := |front|;
    forall k | 0 <= k < q ensures s[k] != '*' {
      if k < |n| {
        assert s[k] == n[k];
      } else if k > |n| {
        assert s[k] == ws[k - |n| - 1];
      }
    }
    assert s[q..q + |m|] == m;
    MarkerCut(pt, s, q);
    assert s[..q] == front;
    assert s[q + |m|..] == rest;
  }

  /**
   * For Logical Structure, Fallacies, Strength and Improvements, a numbered
   * marker line loses its number along with the marker; for Argument
   * Analysis and Revised Argument the number stays in the line.
   */
  lemma OrdinalRemoved(l: Label, n: string, ws: string, rest: string)
    requires |n| > 0 && forall k :: 0 <= k < |n| ==> IsDigit(n[k])
    requires |ws| > 0 && forall k :: 0 <= k < |ws| ==> IsSpace(ws[k])
    ensures AllowsOrdinal(l) ==> Remove(PatternOf(l), n + "." + ws + Marker(l) + rest) == rest
    ensures !AllowsOrdinal(l) ==> Remove(PatternOf(l), n + "." + ws + Marker(l) + rest) == n + "." + ws + rest
  {
    if AllowsOrdinal(l) {
      NumberedRemoved(PatternOf(l), n, ws, rest);
    } else {
      NumberKept(PatternOf(l), n, ws, rest);
    }
  }

  /**
   * `replace` cuts out the first occurrence of the marker.  Only a pattern
   * with the numbered alternative may cut more, and then only from further
   * left, where the number stands.
   */
  lemma RemoveCutsFirstMarker(pt: Pattern, s: string, q: nat)
    requires StarMarker(pt) && IndexOf(s, pt.marker, 0) == Some(q)
    ensures exists p :: 0 <= p <= q && Remove(pt, s) == s[..p] + s[q + |pt.marker|..] && (p < q ==> pt.numbered)
  {
    var m := pt.marker;
    assert PatternAt(pt, s, q).Some?;
    var (p, e) := LeftmostMatch(pt, s, 0).value;
    PatternPrefix(pt, s, p);
    assert s[q] == m[0];
    assert e - |m| == q;
    assert 0 <= p <= q && Remove(pt, s) == s[..p] + s[q + |m|..];
  }
}
