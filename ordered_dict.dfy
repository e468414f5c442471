/**
 * A JavaScript object with string keys, as the sectioner uses it: an
 * association list in insertion order.  Assigning to a key that is already
 * present replaces its value where it stands; a new key goes to the end.
 */
module OrderedDict {
  import opened Wrappers

  function Keys(d: seq<(string, string)>): (ks: seq<string>)
    ensures |ks| == |d| && forall i :: 0 <= i < |d| ==> ks[i] == d[i].0
  {
    if d == [] then [] else Keys(d[..|d| - 1]) + [d[|d| - 1].0]
  }

  predicate DistinctKeys(d: seq<(string, string)>) {
    forall i, j :: 0 <= i < j < |d| ==> d[i].0 != d[j].0
  }

  /** The position of the first `k` in `ks`. */
  function FirstIndex(ks: seq<string>, k: string): (r: Option<nat>)
    ensures r.None? <==> k !in ks
    ensures r.Some? ==> r.value < |ks| && ks[r.value] == k && k !in ks[..r.value]
  {
    if ks == [] then None
    else if ks[0] == k then Some(0)
    else
      match FirstIndex(ks[1..], k)
      case None => None
      case Some(i) =>
        assert ks[..i + 1] == [ks[0]] + ks[1..][..i];
        Some(i + 1)
  }

  /** `d[k]`, with `None` for `undefined`. */
  function Get(d: seq<(string, string)>, k: string): (r: Option<string>)
    ensures r.None? <==> k !in Keys(d)
    ensures r.Some? ==> exists i :: 0 <= i < |d| && d[i] == (k, r.value)
  {
    match FirstIndex(Keys(d), k)
    case None => None
    case Some(i) => Some(d[i].1)
  }

  /** `d[k] = v`: the key keeps its place if present, otherwise it is appended. */
  function Put(d: seq<(string, string)>, k: string, v: string): (r: seq<(string, string)>)
    ensures Keys(r) == if k in Keys(d) then Keys(d) else Keys(d) + [k]
    ensures Get(r, k) == Some(v)
    ensures forall k' :: k' != k ==> Get(r, k') == Get(d, k')
    ensures DistinctKeys(d) ==> DistinctKeys(r)
  {
    match FirstIndex(Keys(d), k)
    case Some(i) =>
      var r := d[i := (k, v)];
      assert Keys(r) == Keys(d);
      r
    case None =>
      var r := d + [(k, v)];
      assert Keys(r) == Keys(d) + [k];
      assert forall k' :: k' != k ==> FirstIndex(Keys(r), k') == FirstIndex(Keys(d), k') by {
        forall k' | k' != k ensures FirstIndex(Keys(r), k') == FirstIndex(Keys(d), k') {
          FirstIndexAppend(Keys(d), k, k');
        }
      }
      r
  }

  lemma {:induction false} FirstIndexAppend(ks: seq<string>, k: string, k': string)
    requires k' != k
    ensures FirstIndex(ks + [k], k') == FirstIndex(ks, k')
  {
    if ks != [] {
      assert (ks + [k])[1..] == ks[1..] + [k];
      FirstIndexAppend(ks[1..], k, k');
    }
  }

  lemma {:induction false} FirstIndexShift(a: seq<string>, b: seq<string>, k: string)
    requires k !in a
    ensures FirstIndex(b, k).None? ==> FirstIndex(a + b, k).None?
    ensures FirstIndex(b, k).Some? ==> FirstIndex(a + b, k).Some? && FirstIndex(a + b, k).value == FirstIndex(b, k).value + |a|
  {
    if a == [] {
      assert a + b == b;
    } else {
      assert (a + b)[1..] == a[1..] + b;
      FirstIndexShift(a[1..], b, k);
    }
  }

  /** Assigning to a key that an earlier part of the object does not hold leaves that part alone. */
  lemma PutAfter(front: seq<(string, string)>, d: seq<(string, string)>, k: string, v: string)
    requires k !in Keys(front)
    ensures Put(front + d, k, v) == front + Put(d, k, v)
  {
    IndexAfter(front, d, k);
    if FirstIndex(Keys(d), k).Some? {
      var i := FirstIndex(Keys(d), k).value;
      assert Put(front + d, k, v) == (front + d)[i + |front| := (k, v)];
      assert Put(d, k, v) == d[i := (k, v)];
      UpdateAfter(front, d, i, (k, v), Put(front + d, k, v), Put(d, k, v));
    } else {
      AppendAfter(front, d, (k, v), Put(front + d, k, v), Put(d, k, v));
    }
  }

  /** Where the first `k` of the keys stands once `front` is put before them. */
  lemma IndexAfter(front: seq<(string, string)>, d: seq<(string, string)>, k: string)
    requires k !in Keys(front)
    ensures FirstIndex(Keys(d), k).None? ==> FirstIndex(Keys(front + d), k).None?
    ensures FirstIndex(Keys(d), k).Some? ==>
      FirstIndex(Keys(front + d), k).Some? && FirstIndex(Keys(front + d), k).value == FirstIndex(Keys(d), k).value + |front|
  {
    var kf, kd := Keys(front), Keys(d);
    KeysAppend(front, d);
    FirstIndexShift(kf, kd, k);
    assert |kf| == |front|;
    assert FirstIndex(Keys(front + d), k) == FirstIndex(kf + kd, k);
  }

  /** Replacing an element of the later part of a sequence, seen from the whole sequence. */
  lemma UpdateAfter<T>(front: seq<T>, d: seq<T>, i: nat, x: T, whole: seq<T>, part: seq<T>)
    requires i < |d| && whole == (front + d)[i + |front| := x] && part == d[i := x]
    ensures whole == front + part
  {
  }

  /** Appending to the later part of a sequence, seen from the whole sequence. */
  lemma AppendAfter<T>(front: seq<T>, d: seq<T>, x: T, whole: seq<T>, part: seq<T>)
    requires whole == (front + d) + [x] && part == d + [x]
    ensures whole == front + part
  {
  }

  lemma KeysAppend(a: seq<(string, string)>, b: seq<(string, string)>)
    ensures Keys(a + b) == Keys(a) + Keys(b)
  {
  }

  /** Assignments `d[k] = v` for every pair of `ps`, in order. */
  function PutAll(d: seq<(string, string)>, ps: seq<(string, string)>): seq<(string, string)> {
    if ps == [] then d
    else Put(PutAll(d, ps[..|ps| - 1]), ps[|ps| - 1].0, ps[|ps| - 1].1)
  }

  /** The keys of `ks` and then, in order of first appearance, those of `more` not yet seen. */
  function AppendNew(ks: seq<string>, more: seq<string>): seq<string> {
    if more == [] then ks
    else
      var front := AppendNew(ks, more[..|more| - 1]);
      if more[|more| - 1] in front then front else front + [more[|more| - 1]]
  }

  /** After a run of assignments, the keys are the old ones followed by the new ones in first-seen order. */
  lemma {:induction false} PutAllKeys(d: seq<(string, string)>, ps: seq<(string, string)>)
    ensures Keys(PutAll(d, ps)) == AppendNew(Keys(d), Keys(ps))
    ensures DistinctKeys(d) ==> DistinctKeys(PutAll(d, ps))
  {
    if ps != [] {
      var front := ps[..|ps| - 1];
      PutAllKeys(d, front);
      assert Keys(ps)[..|ps| - 1] == Keys(front);
    }
  }

  /** A key that no assignment of the run names keeps its value. */
  lemma {:induction false} PutAllUntouched(d: seq<(string, string)>, ps: seq<(string, string)>, k: string)
    requires forall j :: 0 <= j < |ps| ==> ps[j].0 != k
    ensures Get(PutAll(d, ps), k) == Get(d, k)
  {
    if ps != [] {
      PutAllUntouched(d, ps[..|ps| - 1], k);
    }
  }

  /** After a run of assignments, a key holds the value of its last assignment: the last write wins. */
  lemma {:induction false} PutAllLastWins(d: seq<(string, string)>, ps: seq<(string, string)>, k: string, j: int)
    requires 0 <= j < |ps| && ps[j].0 == k
    requires forall j' :: j < j' < |ps| ==> ps[j'].0 != k
    ensures Get(PutAll(d, ps), k) == Some(ps[j].1)
  {
    var front := ps[..|ps| - 1];
    if j < |ps| - 1 {
      PutAllLastWins(d, front, k, j);
    }
  }

  /** A key is among the keys after a run of assignments iff it was there before or the run assigns it. */
  lemma {:induction false} AppendNewMembers(ks: seq<string>, more: seq<string>, x: string)
    ensures x in AppendNew(ks, more) <==> x in ks || x in more
  {
    if more != [] {
      AppendNewMembers(ks, more[..|more| - 1], x);
      assert more == more[..|more| - 1] + [more[|more| - 1]];
    }
  }

  /** Reading a key that an earlier part of the object does not hold looks only at the later part. */
  lemma GetAfter(front: seq<(string, string)>, d: seq<(string, string)>, k: string)
    requires k !in Keys(front)
    ensures Get(front + d, k) == Get(d, k)
  {
    IndexAfter(front, d, k);
    if FirstIndex(Keys(d), k).Some? {
      var i := FirstIndex(Keys(d), k).value;
      GetAt(front + d, k, i + |front|);
      GetAt(d, k, i);
      assert (front + d)[i + |front|] == d[i];
    }
  }

  lemma GetAt(d: seq<(string, string)>, k: string, i: nat)
    requires FirstIndex(Keys(d), k).Some? && FirstIndex(Keys(d), k).value == i
    ensures i < |d| && Get(d, k).Some? && Get(d, k).value == d[i].1
  {
  }

  /** Reading and assigning the first key of an object. */
  lemma FirstKey(k: string, v: string, d: seq<(string, string)>, w: string)
    ensures Get([(k, v)] + d, k) == Some(v)
    ensures Put([(k, v)] + d, k, w) == [(k, w)] + d
  {
    assert Keys([(k, v)] + d)[0] == k;
    assert ([(k, v)] + d)[0 := (k, w)] == [(k, w)] + d;
  }

  /** An object with one key. */
  lemma SingleEntry(k: string, v: string, w: string)
    ensures Put([], k, v) == [(k, v)]
    ensures Get([(k, v)], k) == Some(v)
    ensures Put([(k, v)], k, w) == [(k, w)]
  {
    FirstKey(k, v, [], w);
    assert [(k, v)] + [] == [(k, v)];
  }

  /** Putting a key the object lacks in front of it keeps the keys distinct. */
  lemma ConsDistinct(k: string, v: string, d: seq<(string, string)>)
    requires k !in Keys(d) && DistinctKeys(d)
    ensures DistinctKeys([(k, v)] + d)
  {
    var r := [(k, v)] + d;
    forall i, j | 0 <= i < j < |r| ensures r[i].0 != r[j].0 {
      if i == 0 {
        assert r[j].0 == Keys(d)[j - 1];
      } else {
        assert r[i] == d[i - 1] && r[j] == d[j - 1];
      }
    }
  }
}
