/**
 * The JavaScript string built-ins that the analyzer core relies on:
 * the `\s` class (which is also the set `String.prototype.trim` strips),
 * `.` (anything but a line terminator), `\d`, `trim`, `startsWith`,
 * `includes`/`indexOf` and `split('\n')`.
 */
module JsText {
  import opened Wrappers

  /** JavaScript's `\s`: WhiteSpace and LineTerminator code points. */
  predicate IsSpace(c: char) {
    c == '\t' || c == '\n' || c == '\U{000B}' || c == '\U{000C}' || c == '\r' || c == ' ' ||
    c == '\U{00A0}' || c == '\U{1680}' || ('\U{2000}' <= c <= '\U{200A}') ||
    c == '\U{2028}' || c == '\U{2029}' || c == '\U{202F}' || c == '\U{205F}' ||
    c == '\U{3000}' || c == '\U{FEFF}'
  }

  /** The characters that `.` does not match and at which `^`/`$` anchor in multiline mode. */
  predicate IsLineTerminator(c: char) {
    c == '\n' || c == '\r' || c == '\U{2028}' || c == '\U{2029}'
  }

  /** JavaScript's `\d` (ASCII digits only). */
  predicate IsDigit(c: char) {
    '0' <= c <= '9'
  }

  predicate StartsWith(s: string, prefix: string) {
    |prefix| <= |s| && s[..|prefix|] == prefix
  }

  /** `t` occurs in `s` starting at position `p`. */
  predicate OccursAt(s: string, t: string, p: int) {
    0 <= p && p + |t| <= |s| && s[p..p + |t|] == t
  }

  /** `t` occurs somewhere in `s`. */
  ghost predicate Occurs(s: string, t: string) {
    exists p :: OccursAt(s, t, p)
  }

  /** `s.indexOf(t, from)`, with `None` for -1: the first occurrence at or after `from`. */
  function IndexOf(s: string, t: string, from: nat): (r: Option<nat>)
    ensures r.Some? ==> from <= r.value && OccursAt(s, t, r.value)
    ensures r.Some? ==> forall q :: from <= q < r.value ==> !OccursAt(s, t, q)
    ensures r.None? ==> forall q :: from <= q ==> !OccursAt(s, t, q)
    decreases |s| - from
  {
    if from + |t| > |s| then None
    else if OccursAt(s, t, from) then Some(from)
    else IndexOf(s, t, from + 1)
  }

  /** `s.includes(t)`. */
  predicate Contains(s: string, t: string)
    ensures Contains(s, t) <==> Occurs(s, t)
  {
    var r := IndexOf(s, t, 0);
    assert r.None? ==> forall p :: !OccursAt(s, t, p) by {
      if r.None? {
        forall p ensures !OccursAt(s, t, p) {
          if p >= 0 {
            assert 0 <= p;
          }
        }
      }
    }
    r.Some?
  }

  /** `s.trimStart()`. */
  function TrimStart(s: string): (r: string)
    ensures |r| <= |s| && r == s[|s| - |r|..]
    ensures forall k :: 0 <= k < |s| - |r| ==> IsSpace(s[k])
    ensures r == [] || !IsSpace(r[0])
  {
    if s != [] && IsSpace(s[0]) then TrimStart(s[1..]) else s
  }

  /** `s.trimEnd()`. */
  function TrimEnd(s: string): (r: string)
    ensures |r| <= |s| && r == s[..|r|]
    ensures forall k :: |r| <= k < |s| ==> IsSpace(s[k])
    ensures r == [] || !IsSpace(r[|r| - 1])
  {
    if s != [] && IsSpace(s[|s| - 1]) then TrimEnd(s[..|s| - 1]) else s
  }

  /** `r` is `s[i..j]`, and everything of `s` outside that slice is white space. */
  predicate TrimmedTo(s: string, r: string, i: int, j: int) {
    0 <= i <= j <= |s| && r == s[i..j] &&
    (forall k :: 0 <= k < i ==> IsSpace(s[k])) && (forall k :: j <= k < |s| ==> IsSpace(s[k]))
  }

  /** `s.trim()`: what is left once the white space at both ends is gone. */
  function Trim(s: string): (r: string)
    ensures |r| <= |s|
    ensures r == [] || (!IsSpace(r[0]) && !IsSpace(r[|r| - 1]))
    ensures (forall k :: 0 <= k < |s| ==> IsSpace(s[k])) <==> r == []
    ensures exists i, j :: TrimmedTo(s, r, i, j)
  {
    var a := TrimStart(s);
    var r := TrimEnd(a);
    StripBothEnds(s, a, r, IsSpace);
    assert TrimmedTo(s, r, |s| - |a|, |s| - |a| + |r|);
    r
  }

  /**
   * Stripping `strip` elements from the front and then from the back leaves a
   * slice with only `strip` elements around it.
   */
  lemma StripBothEnds<T>(s: seq<T>, a: seq<T>, r: seq<T>, strip: T -> bool)
    requires |a| <= |s| && a == s[|s| - |a|..] && (forall k :: 0 <= k < |s| - |a| ==> strip(s[k]))
    requires a == [] || !strip(a[0])
    requires |r| <= |a| && r == a[..|r|] && (forall k :: |r| <= k < |a| ==> strip(a[k]))
    requires r == [] || !strip(r[|r| - 1])
    ensures r == s[|s| - |a|..|s| - |a| + |r|]
    ensures forall k :: |s| - |a| + |r| <= k < |s| ==> strip(s[k])
    ensures r == [] || (!strip(r[0]) && !strip(r[|r| - 1]))
    ensures (forall k :: 0 <= k < |s| ==> strip(s[k])) <==> r == []
  {
    var i := |s| - |a|;
    PrefixOfSuffix(s, a, r);
    forall k | i + |r| <= k < |s| ensures strip(s[k]) {
      assert s[k] == a[k - i];
    }
    if r != [] {
      assert r[0] == a[0];
    }
  }

  /** A prefix of a suffix is a slice. */
  lemma PrefixOfSuffix<T>(s: seq<T>, a: seq<T>, r: seq<T>)
    requires |a| <= |s| && a == s[|s| - |a|..] && |r| <= |a| && r == a[..|r|]
    ensures r == s[|s| - |a|..|s| - |a| + |r|]
  {
  }

  /** `lines.join('\n')`. */
  function Join(lines: seq<string>): string {
    if |lines| == 0 then ""
    else if |lines| == 1 then lines[0]
    else lines[0] + "\n" + Join(lines[1..])
  }

  /** `s.split('\n')`: never empty, no piece holds a newline, and joining the pieces gives back `s`. */
  function SplitLines(s: string): (lines: seq<string>)
    ensures |lines| >= 1
    ensures forall i :: 0 <= i < |lines| ==> '\n' !in lines[i]
    ensures Join(lines) == s
    decreases |s|
  {
    match IndexOf(s, "\n", 0)
    case None =>
      assert forall k :: 0 <= k < |s| ==> !OccursAt(s, "\n", k);
      assert forall k :: 0 <= k < |s| ==> s[k] != '\n' by {
        forall k | 0 <= k < |s| ensures s[k] != '\n' {
          assert !OccursAt(s, "\n", k);
          assert s[k..k + 1] == [s[k]];
        }
      }
      [s]
    case Some(i) =>
      assert s[i..i + 1] == "\n";
      var first := s[..i];
      assert '\n' !in first by {
        forall k | 0 <= k < i ensures first[k] != '\n' {
          assert !OccursAt(s, "\n", k);
          assert s[k..k + 1] == [s[k]];
        }
      }
      var rest := SplitLines(s[i + 1..]);
      assert s == first + "\n" + s[i + 1..];
      [first] + rest
  }

  /** Splitting undoes joining lines that hold no newline. */
  lemma {:induction false} SplitJoin(lines: seq<string>)
    requires |lines| >= 1
    requires forall i :: 0 <= i < |lines| ==> '\n' !in lines[i]
    ensures SplitLines(Join(lines)) == lines
  {
    var s := Join(lines);
    if |lines| == 1 {
      forall q | 0 <= q < |s| ensures !OccursAt(s, "\n", q) {
        assert s[q] == lines[0][q];
      }
    } else {
      var a := lines[0];
      assert s == a + "\n" + Join(lines[1..]);
      assert OccursAt(s, "\n", |a|);
      forall q | 0 <= q < |a| ensures !OccursAt(s, "\n", q) {
        assert s[q] == a[q];
      }
      assert IndexOf(s, "\n", 0) == Some(|a|);
      assert s[..|a|] == a;
      assert s[|a| + 1..] == Join(lines[1..]);
      SplitJoin(lines[1..]);
    }
  }

  lemma OccursInLeft(a: string, b: string, t: string, p: int)
    requires OccursAt(a, t, p)
    ensures OccursAt(a + b, t, p)
  {
    assert (a + b)[p..p + |t|] == a[p..p + |t|];
  }

  lemma OccursInRight(a: string, b: string, t: string, q: int)
    requires OccursAt(b, t, q)
    ensures OccursAt(a + b, t, q + |a|)
  {
    assert (a + b)[q + |a|..q + |a| + |t|] == b[q..q + |t|];
  }

  lemma NewlineInside(s: string, t: string, p: int, k: int)
    requires OccursAt(s, t, p) && p <= k < p + |t| && s[k] == '\n'
    ensures '\n' in t
  {
    assert t[k - p] == s[p..p + |t|][k - p];
  }

  /** A newline-free text occurs in `a + "\n" + b` exactly when it occurs in `a` or in `b`. */
  lemma OccursAcrossNewline(a: string, b: string, t: string)
    requires '\n' !in t
    ensures Occurs(a + "\n" + b, t) <==> Occurs(a, t) || Occurs(b, t)
  {
    var s := a + "\n" + b;
    if p :| OccursAt(s, t, p) {
      if p + |t| <= |a| {
        assert s[p..p + |t|] == a[p..p + |t|];
        assert OccursAt(a, t, p);
      } else if p <= |a| {
        NewlineInside(s, t, p, |a|);
        assert false;
      } else {
        var q := p - |a| - 1;
        assert s[p..p + |t|] == b[q..q + |t|];
        assert OccursAt(b, t, q);
      }
    }
    if p :| OccursAt(a, t, p) {
      OccursInLeft(a, "\n" + b, t, p);
      assert a + ("\n" + b) == s;
    }
    if q :| OccursAt(b, t, q) {
      OccursInRight(a + "\n", b, t, q);
    }
  }

  /** A newline-free text occurs in the joined lines exactly when it occurs in one of the lines. */
  lemma {:induction false} OccursJoin(lines: seq<string>, t: string)
    requires '\n' !in t && t != ""
    ensures Occurs(Join(lines), t) <==> exists i :: 0 <= i < |lines| && Occurs(lines[i], t)
  {
    if |lines| == 0 {
      assert forall p :: !OccursAt("", t, p);
    } else if |lines| > 1 {
      var rest := lines[1..];
      OccursJoin(rest, t);
      OccursAcrossNewline(lines[0], Join(rest), t);
      if exists i :: 1 <= i < |lines| && Occurs(lines[i], t) {
        var i :| 1 <= i < |lines| && Occurs(lines[i], t);
        assert rest[i - 1] == lines[i];
      }
      if exists j :: 0 <= j < |rest| && Occurs(rest[j], t) {
        var j :| 0 <= j < |rest| && Occurs(rest[j], t);
        assert lines[j + 1] == rest[j];
      }
    }
  }

  /** The same, for `includes` on the whole text and on the pieces of `split('\n')`. */
  lemma {:induction false} ContainsSplit(s: string, t: string)
    requires '\n' !in t && t != ""
    ensures Contains(s, t) ==> exists i :: 0 <= i < |SplitLines(s)| && Contains(SplitLines(s)[i], t)
    ensures (exists i :: 0 <= i < |SplitLines(s)| && Contains(SplitLines(s)[i], t)) ==> Contains(s, t)
  {
    var lines := SplitLines(s);
    OccursJoin(lines, t);
    assert Join(lines) == s;
    if Contains(s, t) {
      var i :| 0 <= i < |lines| && Occurs(lines[i], t);
      assert Contains(lines[i], t);
    }
    if i :| 0 <= i < |lines| && Contains(lines[i], t) {
      assert Occurs(lines[i], t);
    }
  }

  /** `xs.findIndex(p)`, with `None` for -1: the first element that satisfies `p`. */
  function FindIndex<T>(xs: seq<T>, p: T -> bool): (r: Option<nat>)
    ensures r.Some? ==> r.value < |xs| && p(xs[r.value])
    ensures forall j :: 0 <= j < |xs| && (r.None? || j < r.value) ==> !p(xs[j])
  {
    if xs == [] then None
    else if p(xs[0]) then Some(0)
    else
      match FindIndex(xs[1..], p)
      case None => None
      case Some(i) => Some(i + 1)
  }

  /** Each line followed by a newline, the way the sectioner accumulates a buffer. */
  function Terminated(lines: seq<string>): string {
    if lines == [] then "" else Terminated(lines[..|lines| - 1]) + lines[|lines| - 1] + "\n"
  }
}
