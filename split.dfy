/**
 * Python's `str.split(sep)` for a non-empty separator, and the idiom
 * `s.split(sep)[-1]` that freelists_stat.py uses to derive years, senders
 * and month labels.
 *
 * `str.split` scans left to right and cuts at each occurrence of the
 * separator it meets, resuming after it (occurrences never overlap); the
 * pieces are the slices of the string between the cuts.
 */
module StrSplit {

  /** `d` occurs in `s` starting at index `i`. */
  predicate OccursAt(s: string, d: string, i: nat)
  {
    i + |d| <= |s| && forall k :: 0 <= k < |d| ==> s[i + k] == d[k]
  }

  /** No occurrence of `d` starts in `s` at an index in `[lo, hi)`. */
  predicate FreeBetween(s: string, d: string, lo: nat, hi: nat)
  {
    forall j: nat :: lo <= j < hi ==> !OccursAt(s, d, j)
  }

  /** `d` occurs somewhere in `s`. */
  ghost predicate Contains(s: string, d: string)
  {
    exists i: nat :: OccursAt(s, d, i)
  }

  /** Index of the first occurrence of `d` in `s` at or after `from`, or `|s|` when there is none. */
  function Find(s: string, d: string, from: nat): (i: nat)
    requires d != "" && from <= |s|
    ensures from <= i <= |s|
    ensures i < |s| ==> i + |d| <= |s|
    decreases |s| - from
  {
    if from + |d| > |s| then |s|
    else if OccursAt(s, d, from) then from
    else Find(s, d, from + 1)
  }

  /** What `Find` gives, short of `|s|`, is an occurrence. */
  lemma {:induction false} FindOccurs(s: string, d: string, from: nat)
    requires d != "" && from <= |s|
    ensures Find(s, d, from) < |s| ==> OccursAt(s, d, Find(s, d, from))
    decreases |s| - from
  {
    if from + |d| <= |s| && !OccursAt(s, d, from) {
      FindOccurs(s, d, from + 1);
    }
  }

  /** `Find` gives the first occurrence: there is none before it, and none at all when it gives `|s|`. */
  lemma {:induction false} FindIsFirst(s: string, d: string, from: nat)
    requires d != "" && from <= |s|
    ensures FreeBetween(s, d, from, Find(s, d, from))
    decreases |s| - from
  {
    if from + |d| <= |s| && !OccursAt(s, d, from) {
      FindIsFirst(s, d, from + 1);
    }
  }

  /** Every pair of `b` is a start and an end of a slice of a string of length `n`. */
  predicate Bounded(b: seq<(nat, nat)>, n: nat)
  {
    |b| == 0 || (b[0].0 <= b[0].1 <= n && Bounded(b[1..], n))
  }

  /**
   * Where each piece of `s[from..]` starts and ends: a piece runs up to the
   * next occurrence the scan meets, and the scan resumes right after it.
   */
  function Cuts(s: string, d: string, from: nat): (b: seq<(nat, nat)>)
    requires d != "" && from <= |s|
    ensures |b| >= 1 && Bounded(b, |s|)
    decreases |s| - from
  {
    var i := Find(s, d, from);
    if i == |s| then
      assert [(from, |s|)][1..] == [];
      [(from, |s|)]
    else
      var rest := Cuts(s, d, i + |d|);
      assert ([(from, i)] + rest)[1..] == rest;
      [(from, i)] + rest
  }

  /** The slices of `s` that the bounds `b` delimit, in order. */
  function Pieces(s: string, b: seq<(nat, nat)>): (parts: seq<string>)
    requires Bounded(b, |s|)
    ensures |parts| == |b|
  {
    if |b| == 0 then [] else [s[b[0].0..b[0].1]] + Pieces(s, b[1..])
  }

  /** `s.split(d)`. */
  function Split(s: string, d: string): (parts: seq<string>)
    requires d != ""
    ensures |parts| >= 1
  {
    Pieces(s, Cuts(s, d, 0))
  }

  /** `d.join(parts)`, the inverse of `Split`. */
  function Join(parts: seq<string>, d: string): string
    requires |parts| >= 1
  {
    if |parts| == 1 then parts[0] else parts[0] + d + Join(parts[1..], d)
  }

  /**
   * Where the last piece of `s[from..]` starts: the scan skips past each
   * occurrence it meets; it stays at `from` exactly when it meets none.
   */
  function LastStart(s: string, d: string, from: nat): (p: nat)
    requires d != "" && from <= |s|
    ensures from <= p <= |s|
    ensures p == from <==> Find(s, d, from) == |s|
    decreases |s| - from
  {
    var i := Find(s, d, from);
    if i == |s| then from else LastStart(s, d, i + |d|)
  }

  /** `s.split(d)[-1]`: the text from where the scan leaves off to the end (see `LastSegmentIsLastPiece`). */
  function LastSegment(s: string, d: string): string
    requires d != ""
  {
    s[LastStart(s, d, 0)..]
  }

  /** Joining a piece in front of at least one other. */
  lemma JoinCons(head: string, tail: seq<string>, d: string)
    requires |tail| >= 1
    ensures Join([head] + tail, d) == head + d + Join(tail, d)
  {
    assert ([head] + tail)[1..] == tail;
  }

  /** Slicing at one more pair of bounds puts one more piece in front. */
  lemma PiecesCons(s: string, x: (nat, nat), rest: seq<(nat, nat)>)
    requires Bounded([x] + rest, |s|)
    ensures Bounded(rest, |s|)
    ensures Pieces(s, [x] + rest) == [s[x.0..x.1]] + Pieces(s, rest)
  {
    assert ([x] + rest)[1..] == rest;
  }

  /** The `k`-th piece is the slice between the `k`-th pair of bounds. */
  lemma {:induction false} PiecesIndex(s: string, b: seq<(nat, nat)>, k: nat)
    requires Bounded(b, |s|) && k < |b|
    ensures b[k].0 <= b[k].1 <= |s| && Pieces(s, b)[k] == s[b[k].0..b[k].1]
  {
    if k > 0 {
      PiecesIndex(s, b[1..], k - 1);
    }
  }

  /** An occurrence of `d` at `i` cuts `s[lo..]` into the text before it, `d`, and the text after it. */
  lemma CutAt(s: string, d: string, lo: nat, i: nat)
    requires lo <= i && OccursAt(s, d, i)
    ensures s[lo..] == s[lo..i] + d + s[i + |d|..]
  {
    var r := s[lo..i] + d + s[i + |d|..];
    forall k | 0 <= k < |r|
      ensures r[k] == s[lo..][k]
    {
      if i - lo <= k < i - lo + |d| {
        assert r[k] == d[k - (i - lo)];
        assert s[i + (k - (i - lo))] == d[k - (i - lo)];
      }
    }
  }

  /** Joining the pieces of `s[from..]` gives `s[from..]` back. */
  lemma {:induction false} CutsJoin(s: string, d: string, from: nat)
    requires d != "" && from <= |s|
    ensures Join(Pieces(s, Cuts(s, d, from)), d) == s[from..]
    decreases |s| - from, 1
  {
    if Find(s, d, from) == |s| {
      assert Pieces(s, Cuts(s, d, from)) == [s[from..|s|]];
      assert s[from..|s|] == s[from..];
    } else {
      CutsJoinCons(s, d, from);
    }
  }

  /** The step of `CutsJoin` where the scan meets an occurrence of `d`. */
  lemma {:induction false} CutsJoinCons(s: string, d: string, from: nat)
    requires d != "" && from <= |s| && Find(s, d, from) < |s|
    ensures Join(Pieces(s, Cuts(s, d, from)), d) == s[from..]
    decreases |s| - from, 0
  {
    var i := Find(s, d, from);
    var rest := Cuts(s, d, i + |d|);
    calc {
      Join(Pieces(s, Cuts(s, d, from)), d);
      { assert Cuts(s, d, from) == [(from, i)] + rest;
        PiecesCons(s, (from, i), rest); }
      Join([s[from..i]] + Pieces(s, rest), d);
      { JoinCons(s[from..i], Pieces(s, rest), d); }
      s[from..i] + d + Join(Pieces(s, rest), d);
      { CutsJoin(s, d, i + |d|); }
      s[from..i] + d + s[i + |d|..];
      { FindOccurs(s, d, from);
        CutAt(s, d, from, i); }
      s[from..];
    }
  }

  /** Splitting loses nothing: joining the pieces back gives the original string. */
  lemma SplitJoin(s: string, d: string)
    requires d != ""
    ensures Join(Split(s, d), d) == s
  {
    CutsJoin(s, d, 0);
    assert s[0..] == s;
  }

  /** An occurrence in a slice of `s` is an occurrence in `s`, shifted by where the slice starts. */
  lemma OccursInSlice(s: string, d: string, lo: nat, hi: nat, j: nat)
    requires lo <= hi <= |s|
    ensures OccursAt(s[lo..hi], d, j) ==> OccursAt(s, d, lo + j)
  {
    if OccursAt(s[lo..hi], d, j) {
      forall k | 0 <= k < |d|
        ensures s[lo + j + k] == d[k]
      {
        assert s[lo..hi][j + k] == d[k];
      }
    }
  }

  /** A stretch of `s` in which no occurrence of `d` starts does not contain `d`. */
  lemma NoOccurrenceBetween(s: string, d: string, lo: nat, hi: nat)
    requires d != "" && lo <= hi <= |s| && FreeBetween(s, d, lo, hi)
    ensures !Contains(s[lo..hi], d)
  {
    forall j: nat
      ensures !OccursAt(s[lo..hi], d, j)
    {
      OccursInSlice(s, d, lo, hi, j);
    }
  }

  /** No occurrence of `d` starts inside a piece of `s[from..]`. */
  lemma {:induction false} CutsFree(s: string, d: string, from: nat)
    requires d != "" && from <= |s|
    ensures forall k :: 0 <= k < |Cuts(s, d, from)| ==>
      FreeBetween(s, d, Cuts(s, d, from)[k].0, Cuts(s, d, from)[k].1)
    decreases |s| - from
  {
    var i := Find(s, d, from);
    FindIsFirst(s, d, from);
    if i < |s| {
      var rest := Cuts(s, d, i + |d|);
      var b := [(from, i)] + rest;
      assert Cuts(s, d, from) == b;
      CutsFree(s, d, i + |d|);
      forall k | 0 <= k < |b|
        ensures FreeBetween(s, d, b[k].0, b[k].1)
      {
        if k == 0 {
          assert b[k] == (from, i);
        } else {
          assert b[k] == rest[k - 1];
        }
      }
    } else {
      assert Cuts(s, d, from) == [(from, |s|)];
    }
  }

  /** No piece produced by `Split` contains the separator. */
  lemma SplitPiecesFree(s: string, d: string)
    requires d != ""
    ensures forall k :: 0 <= k < |Split(s, d)| ==> !Contains(Split(s, d)[k], d)
  {
    var b := Cuts(s, d, 0);
    CutsFree(s, d, 0);
    forall k | 0 <= k < |b|
      ensures !Contains(Split(s, d)[k], d)
    {
      PiecesIndex(s, b, k);
      NoOccurrenceBetween(s, d, b[k].0, b[k].1);
    }
  }

  /** `d` occurs in `s` exactly when the scan from the start finds it. */
  lemma FindContains(s: string, d: string)
    requires d != ""
    ensures Contains(s, d) <==> Find(s, d, 0) < |s|
  {
    FindIsFirst(s, d, 0);
    FindOccurs(s, d, 0);
  }

  /** Putting an element in front keeps the last element. */
  lemma LastOfCons<T>(x: T, tail: seq<T>)
    requires |tail| >= 1
    ensures ([x] + tail)[|tail|] == tail[|tail| - 1]
  {
  }

  /** The last piece of `s[from..]` runs from `LastStart` to the end of `s`. */
  lemma {:induction false} CutsLast(s: string, d: string, from: nat)
    requires d != "" && from <= |s|
    ensures var b := Cuts(s, d, from); b[|b| - 1] == (LastStart(s, d, from), |s|)
    decreases |s| - from
  {
    var i := Find(s, d, from);
    if i < |s| {
      var rest := Cuts(s, d, i + |d|);
      assert Cuts(s, d, from) == [(from, i)] + rest;
      assert LastStart(s, d, from) == LastStart(s, d, i + |d|);
      LastOfCons((from, i), rest);
      CutsLast(s, d, i + |d|);
    }
  }

  /** `LastSegment` is the last of the pieces `Split` produces. */
  lemma LastSegmentIsLastPiece(s: string, d: string)
    requires d != ""
    ensures var parts := Split(s, d); LastSegment(s, d) == parts[|parts| - 1]
  {
    var b := Cuts(s, d, 0);
    CutsLast(s, d, 0);
    PiecesIndex(s, b, |b| - 1);
    var p := LastStart(s, d, 0);
    assert s[p..|s|] == s[p..];
  }

  /** When the scan from `from` meets `d`, an occurrence of `d` ends where the last piece starts. */
  lemma {:induction false} LastStartPreceded(s: string, d: string, from: nat)
    requires d != "" && from <= |s| && Find(s, d, from) < |s|
    ensures var p := LastStart(s, d, from); from + |d| <= p && OccursAt(s, d, p - |d|)
    decreases |s| - from
  {
    var i := Find(s, d, from);
    var next := i + |d|;
    assert LastStart(s, d, from) == LastStart(s, d, next);
    if Find(s, d, next) < |s| {
      LastStartPreceded(s, d, next);
    } else {
      FindOccurs(s, d, from);
      assert LastStart(s, d, from) - |d| == i;
    }
  }

  /** No occurrence of `d` starts at or after the last piece's start. */
  lemma {:induction false} LastStartFree(s: string, d: string, from: nat)
    requires d != "" && from <= |s|
    ensures FreeBetween(s, d, LastStart(s, d, from), |s|)
    decreases |s| - from
  {
    var i := Find(s, d, from);
    if i == |s| {
      FindIsFirst(s, d, from);
    } else {
      LastStartFree(s, d, i + |d|);
    }
  }

  /** The last piece does not contain the separator. */
  lemma LastSegmentFree(s: string, d: string)
    requires d != ""
    ensures !Contains(LastSegment(s, d), d)
  {
    var p := LastStart(s, d, 0);
    LastStartFree(s, d, 0);
    NoOccurrenceBetween(s, d, p, |s|);
    assert s[p..|s|] == s[p..];
  }

  /** The last piece is all of `s` exactly when `s` does not contain the separator. */
  lemma LastSegmentWhole(s: string, d: string)
    requires d != ""
    ensures LastSegment(s, d) == s <==> !Contains(s, d)
  {
    FindContains(s, d);
    assert s[0..] == s;
  }

  /** When `s` contains the separator, an occurrence of it stands right before the last piece. */
  lemma LastSegmentPreceded(s: string, d: string)
    requires d != "" && Contains(s, d)
    ensures var r := LastSegment(s, d); |r| + |d| <= |s| && OccursAt(s, d, |s| - |r| - |d|)
  {
    FindContains(s, d);
    LastStartPreceded(s, d, 0);
    assert |s| - |LastSegment(s, d)| == LastStart(s, d, 0);
  }

  /**
   * `s.split(d)[-1]` is what follows the last occurrence of `d` met by the
   * scan, or all of `s` when `d` does not occur: it is a suffix of `s`, it
   * does not contain `d`, it is `s` itself exactly when `d` is absent, and
   * otherwise an occurrence of `d` stands right before it.
   */
  lemma LastSegmentSpec(s: string, d: string)
    requires d != ""
    ensures var r := LastSegment(s, d);
      && |r| <= |s| && s[|s| - |r|..] == r
      && !Contains(r, d)
      && (r == s <==> !Contains(s, d))
      && (Contains(s, d) ==> |r| + |d| <= |s| && OccursAt(s, d, |s| - |r| - |d|))
  {
    LastSegmentFree(s, d);
    LastSegmentWhole(s, d);
    if Contains(s, d) {
      LastSegmentPreceded(s, d);
    }
  }

  /** A one-character separator occurs in `s` exactly when the character does. */
  lemma ContainsChar(s: string, c: char)
    ensures Contains(s, [c]) <==> c in s
  {
    if c in s {
      var k :| 0 <= k < |s| && s[k] == c;
      assert OccursAt(s, [c], k);
    }
    if Contains(s, [c]) {
      var k: nat :| OccursAt(s, [c], k);
      assert s[k + 0] == [c][0];
    }
  }

  /**
   * With a one-character separator `c`, `s.split(c)[-1]` is the text after
   * the last `c` of `s`, or all of `s` when `c` does not occur; the result
   * never contains `c`.
   */
  lemma LastSegmentChar(s: string, c: char)
    ensures var r := LastSegment(s, [c]);
      && c !in r
      && (c !in s ==> r == s)
      && (c in s ==> |r| < |s| && s[|s| - |r| - 1] == c && s[|s| - |r|..] == r)
  {
    var r := LastSegment(s, [c]);
    LastSegmentSpec(s, [c]);
    ContainsChar(r, c);
    ContainsChar(s, c);
    if c in s {
      var k := |s| - |r| - 1;
      assert s[k + 0] == [c][0];
    }
  }

  /** An occurrence of `d` at `j` has the `k`-th character of `d` at `j + k`. */
  lemma OccursAtChar(s: string, d: string, j: nat, k: nat)
    requires k < |d|
    ensures OccursAt(s, d, j) ==> s[j + k] == d[k]
  {
  }

  /** A string without the first character of `d` does not contain `d`. */
  lemma AbsentFirstChar(s: string, d: string)
    requires d != "" && d[0] !in s
    ensures !Contains(s, d)
  {
    forall j: nat
      ensures !OccursAt(s, d, j)
    {
      OccursAtChar(s, d, j, 0);
    }
  }

  /** An occurrence in the suffix of `s` from `lo` is an occurrence in `s`, shifted by `lo`, and conversely. */
  lemma OccursShift(s: string, d: string, lo: nat, j: nat)
    requires lo <= |s|
    ensures OccursAt(s[lo..], d, j) <==> OccursAt(s, d, lo + j)
  {
    if OccursAt(s, d, lo + j) {
      forall k | 0 <= k < |d|
        ensures s[lo..][j + k] == d[k]
      {
        OccursAtChar(s, d, lo + j, k);
      }
    }
    if OccursAt(s[lo..], d, j) {
      forall k | 0 <= k < |d|
        ensures s[lo + j + k] == d[k]
      {
        OccursAtChar(s[lo..], d, j, k);
      }
    }
  }

  /** An occurrence with no earlier character equal to the separator's first one is the first found. */
  lemma FindFirst(s: string, d: string, i: nat)
    requires d != "" && OccursAt(s, d, i)
    requires forall j :: 0 <= j < i ==> s[j] != d[0]
    ensures Find(s, d, 0) == i
  {
    FindIsFirst(s, d, 0);
    FindOccurs(s, d, 0);
    OccursAtChar(s, d, Find(s, d, 0), 0);
  }

  /** The scan from `from` finds nothing when no later character is the separator's first one. */
  lemma FindAbsent(s: string, d: string, from: nat)
    requires d != "" && from <= |s|
    requires forall j :: from <= j < |s| ==> s[j] != d[0]
    ensures Find(s, d, from) == |s|
  {
    FindOccurs(s, d, from);
    OccursAtChar(s, d, Find(s, d, from), 0);
  }
}
