/** The three ways the scan accumulates per-line matches, for any per-line matcher `f`:
    keep the first hit (a guard skips later ones), keep the last hit (every hit
    overwrites), and append every hit. Each is defined the way the loop computes it, one
    line at a time, and then characterised by positions in the input. */
module Folds {
  import opened Text

  /** The value after scanning `lines` with "set it only while it is still unset". */
  function FirstHit<T>(f: string -> Option<T>, lines: seq<string>): (r: Option<T>)
    ensures r.Some? ==> exists i :: 0 <= i < |lines| && f(lines[i]) == r
  {
    if lines == [] then None
    else
      var before := FirstHit(f, lines[..|lines| - 1]);
      assert forall i :: 0 <= i < |lines| - 1 ==> lines[..|lines| - 1][i] == lines[i];
      if before.Some? then before else f(lines[|lines| - 1])
  }

  /** The value after scanning `lines` with "every hit overwrites". */
  function LastHit<T>(f: string -> Option<T>, lines: seq<string>): (r: Option<T>)
    ensures r.Some? ==> exists i :: 0 <= i < |lines| && f(lines[i]) == r
  {
    if lines == [] then None
    else
      assert forall i :: 0 <= i < |lines| - 1 ==> lines[..|lines| - 1][i] == lines[i];
      match f(lines[|lines| - 1])
      case Some(v) => Some(v)
      case None => LastHit(f, lines[..|lines| - 1])
  }

  /** The list after scanning `lines` with "append every hit". */
  function AllHits<T>(f: string -> Option<T>, lines: seq<string>): (r: seq<T>)
    ensures |r| <= |lines|
    ensures forall k :: 0 <= k < |r| ==> exists i :: 0 <= i < |lines| && f(lines[i]) == Some(r[k])
  {
    if lines == [] then []
    else
      var n := |lines| - 1;
      var found := f(lines[n]);
      var front := AllHits(f, lines[..n]);
      assert forall i :: 0 <= i < n ==> lines[..n][i] == lines[i];
      front + (if found.Some? then [found.value] else [])
  }

  /** The indices of the lines with a hit, in increasing order. */
  function HitLines<T>(f: string -> Option<T>, lines: seq<string>): (r: seq<nat>)
    ensures forall k :: 0 <= k < |r| ==> r[k] < |lines| && f(lines[r[k]]).Some?
    ensures forall k, m :: 0 <= k < m < |r| ==> r[k] < r[m]
    ensures forall i :: 0 <= i < |lines| && f(lines[i]).Some? ==> i in r
  {
    if lines == [] then []
    else
      var n := |lines| - 1;
      var front := HitLines(f, lines[..n]);
      assert forall i :: 0 <= i < n ==> lines[..n][i] == lines[i];
      front + (if f(lines[n]).Some? then [n] else [])
  }

  /** One more line, as the loop sees it. */
  lemma FirstHitSnoc<T>(f: string -> Option<T>, lines: seq<string>, line: string)
    ensures FirstHit(f, lines + [line]) == if FirstHit(f, lines).Some? then FirstHit(f, lines) else f(line)
  {
    assert (lines + [line])[..|lines|] == lines;
  }

  lemma LastHitSnoc<T>(f: string -> Option<T>, lines: seq<string>, line: string)
    ensures LastHit(f, lines + [line]) == if f(line).Some? then f(line) else LastHit(f, lines)
  {
    assert (lines + [line])[..|lines|] == lines;
  }

  lemma AllHitsSnoc<T>(f: string -> Option<T>, lines: seq<string>, line: string)
    ensures AllHits(f, lines + [line]) == AllHits(f, lines) + if f(line).Some? then [f(line).value] else []
  {
    assert (lines + [line])[..|lines|] == lines;
  }

  /** Line `i` has a hit and no line before it has one. */
  predicate IsFirstHitLine<T>(f: string -> Option<T>, lines: seq<string>, i: int) {
    0 <= i < |lines| && f(lines[i]).Some? && forall k :: 0 <= k < i ==> f(lines[k]).None?
  }

  /** Line `i` has a hit and no line after it has one. */
  predicate IsLastHitLine<T>(f: string -> Option<T>, lines: seq<string>, i: int) {
    0 <= i < |lines| && f(lines[i]).Some? && forall k :: i < k < |lines| ==> f(lines[k]).None?
  }

  /** With the guard, the value kept is the hit of the first line that has one. */
  lemma {:induction false} FirstHitIsFirstLine<T>(f: string -> Option<T>, lines: seq<string>, i: int)
    requires IsFirstHitLine(f, lines, i)
    ensures FirstHit(f, lines) == f(lines[i])
    decreases |lines|
  {
    var n := |lines| - 1;
    var front := lines[..n];
    if i < n {
      assert IsFirstHitLine(f, front, i);
      FirstHitIsFirstLine(f, front, i);
    } else {
      assert forall k :: 0 <= k < n ==> f(front[k]).None?;
      FirstHitNone(f, front);
    }
  }

  /** Nothing is kept exactly when no line has a hit. */
  lemma {:induction false} FirstHitNone<T>(f: string -> Option<T>, lines: seq<string>)
    ensures FirstHit(f, lines).None? <==> forall i :: 0 <= i < |lines| ==> f(lines[i]).None?
    decreases |lines|
  {
    if lines != [] {
      var n := |lines| - 1;
      FirstHitNone(f, lines[..n]);
      assert forall i :: 0 <= i < n ==> lines[..n][i] == lines[i];
    }
  }

  /** Once a value is kept, the lines after never change it. */
  lemma {:induction false} FirstHitAppend<T>(f: string -> Option<T>, a: seq<string>, b: seq<string>)
    ensures FirstHit(f, a + b) == if FirstHit(f, a).Some? then FirstHit(f, a) else FirstHit(f, b)
    decreases |b|
  {
    if b == [] {
      assert a + b == a;
    } else {
      var n := |b| - 1;
      assert (a + b)[..|a + b| - 1] == a + b[..n];
      assert (a + b)[|a + b| - 1] == b[n];
      FirstHitAppend(f, a, b[..n]);
    }
  }

  /** Without a guard, the value kept is the hit of the last line that has one. */
  lemma {:induction false} LastHitIsLastLine<T>(f: string -> Option<T>, lines: seq<string>, i: int)
    requires IsLastHitLine(f, lines, i)
    ensures LastHit(f, lines) == f(lines[i])
    decreases |lines|
  {
    var n := |lines| - 1;
    var front := lines[..n];
    if i < n {
      assert f(lines[n]).None?;
      assert IsLastHitLine(f, front, i);
      LastHitIsLastLine(f, front, i);
    }
  }

  /** Nothing is kept exactly when no line has a hit. */
  lemma {:induction false} LastHitNone<T>(f: string -> Option<T>, lines: seq<string>)
    ensures LastHit(f, lines).None? <==> forall i :: 0 <= i < |lines| ==> f(lines[i]).None?
    decreases |lines|
  {
    if lines != [] {
      var n := |lines| - 1;
      LastHitNone(f, lines[..n]);
      assert forall i :: 0 <= i < n ==> lines[..n][i] == lines[i];
    }
  }

  /** A later hit always replaces an earlier one. */
  lemma {:induction false} LastHitAppend<T>(f: string -> Option<T>, a: seq<string>, b: seq<string>)
    ensures LastHit(f, a + b) == if LastHit(f, b).Some? then LastHit(f, b) else LastHit(f, a)
    decreases |b|
  {
    if b == [] {
      assert a + b == a;
    } else {
      var n := |b| - 1;
      assert (a + b)[..|a + b| - 1] == a + b[..n];
      assert (a + b)[|a + b| - 1] == b[n];
      LastHitAppend(f, a, b[..n]);
    }
  }

  /** Every line with a hit contributes exactly its own hit, in line order; equal hits
      are all kept. */
  lemma {:induction false} AllHitsAreHitLines<T>(f: string -> Option<T>, lines: seq<string>)
    ensures |AllHits(f, lines)| == |HitLines(f, lines)|
    ensures forall k :: 0 <= k < |AllHits(f, lines)| ==>
      f(lines[HitLines(f, lines)[k]]) == Some(AllHits(f, lines)[k])
    decreases |lines|
  {
    if lines != [] {
      var n := |lines| - 1;
      var front := lines[..n];
      AllHitsAreHitLines(f, front);
      var hits, at := AllHits(f, front), HitLines(f, front);
      assert AllHits(f, lines) == hits + (if f(lines[n]).Some? then [f(lines[n]).value] else []);
      assert HitLines(f, lines) == at + (if f(lines[n]).Some? then [n] else []);
      forall k | 0 <= k < |hits| ensures f(lines[at[k]]) == Some(hits[k]) {
        assert front[at[k]] == lines[at[k]];
      }
    }
  }

  /** The hits of two runs of lines, one after the other. */
  lemma {:induction false} AllHitsAppend<T>(f: string -> Option<T>, a: seq<string>, b: seq<string>)
    ensures AllHits(f, a + b) == AllHits(f, a) + AllHits(f, b)
    decreases |b|
  {
    if b == [] {
      assert a + b == a;
    } else {
      var n := |b| - 1;
      assert (a + b)[..|a + b| - 1] == a + b[..n];
      assert (a + b)[|a + b| - 1] == b[n];
      AllHitsAppend(f, a, b[..n]);
    }
  }
}
