/**
  Points, colours and committed strokes, and the erase-and-split algorithm
  of `Device.remove_point` (device.py) as a specification:
  an eraser at `pos` removes every point closer than `EraserRadius`, each
  stroke falls apart into its maximal runs of surviving points, and runs
  shorter than two points are dropped.

  The run structure is stated over the line's keep-mask (one boolean per
  point), so that the distance arithmetic stays out of the proofs about runs.
*/
module Strokes {

  datatype Point = Point(x: int, y: int)

  /** An RGB triple, as the source's `(r, g, b)` tuples. */
  datatype Color = Color(r: int, g: int, b: int)

  /** A committed `(points, color)` pair of an undo or redo stack. */
  datatype Stroke = Stroke(points: seq<Point>, color: Color)

  const EraserRadius: int := 10

  function SqDist(a: Point, b: Point): int
  {
    (a.x - b.x) * (a.x - b.x) + (a.y - b.y) * (a.y - b.y)
  }

  /** A point survives an eraser at `pos` when its squared distance is at least the radius squared. */
  predicate Kept(p: Point, pos: Point)
  {
    SqDist(pos, p) >= EraserRadius * EraserRadius
  }

  predicate AllKept(line: seq<Point>, pos: Point)
  {
    forall t :: 0 <= t < |line| ==> Kept(line[t], pos)
  }

  /** A stroke as it may stand after an erase at `pos`: two points or more, none of them erased. */
  predicate Survivor(s: Stroke, pos: Point)
  {
    |s.points| >= 2 && AllKept(s.points, pos)
  }

  /** Which points of a line an eraser at `pos` keeps. */
  function KeepMask(line: seq<Point>, pos: Point): (m: seq<bool>)
    ensures |m| == |line|
    ensures forall t :: 0 <= t < |line| ==> m[t] == Kept(line[t], pos)
  {
    seq(|line|, t requires 0 <= t < |line| => Kept(line[t], pos))
  }

  // ---------------------------------------------------------------------
  // Reference definition: maximal runs of kept points
  // ---------------------------------------------------------------------

  /** The half-open index range `[lo, hi)` of one piece of a line. */
  datatype Span = Span(lo: nat, hi: nat)

  /** The span of the run `[i, e)` when it holds two points or more, else nothing. */
  function RunSpan(i: nat, e: nat): seq<Span>
  {
    if e - i >= 2 then [Span(i, e)] else []
  }

  /** The end of the run of kept points that starts at `i`. */
  function RunEnd(m: seq<bool>, i: nat): (e: nat)
    requires i <= |m|
    ensures i <= e <= |m|
    ensures forall t :: i <= t < e ==> m[t]
    ensures e == |m| || !m[e]
    decreases |m| - i
  {
    if i < |m| && m[i] then RunEnd(m, i + 1) else i
  }

  /**
    The maximal runs of kept points of `m[i..]` that hold two points or
    more, left to right.
  */
  function Spans(m: seq<bool>, i: nat): (r: seq<Span>)
    requires i <= |m|
    ensures forall k :: 0 <= k < |r| ==> i <= r[k].lo && r[k].lo + 2 <= r[k].hi <= |m|
    decreases |m| - i
  {
    if i == |m| then []
    else if !m[i] then Spans(m, i + 1)
    else
      var e := RunEnd(m, i);
      RunSpan(i, e) + Spans(m, e)
  }

  predicate SpansInBounds(line: seq<Point>, sp: seq<Span>)
  {
    forall k :: 0 <= k < |sp| ==> sp[k].lo <= sp[k].hi <= |line|
  }

  function Slices(line: seq<Point>, sp: seq<Span>): (r: seq<seq<Point>>)
    requires SpansInBounds(line, sp)
    ensures |r| == |sp|
    ensures forall k :: 0 <= k < |sp| ==> r[k] == line[sp[k].lo..sp[k].hi]
  {
    seq(|sp|, k requires 0 <= k < |sp| => line[sp[k].lo..sp[k].hi])
  }

  /** The pieces of one line that survive an eraser at `pos`, in order. */
  function Pieces(line: seq<Point>, pos: Point): seq<seq<Point>>
  {
    Slices(line, Spans(KeepMask(line, pos), 0))
  }

  /** Gives every piece the colour of the stroke it came from. */
  function Tag(pieces: seq<seq<Point>>, c: Color): (r: seq<Stroke>)
    ensures |r| == |pieces|
    ensures forall k :: 0 <= k < |r| ==> r[k] == Stroke(pieces[k], c)
  {
    seq(|pieces|, k requires 0 <= k < |pieces| => Stroke(pieces[k], c))
  }

  /** What an eraser at `pos` leaves of one stroke. */
  function EraseStroke(s: Stroke, pos: Point): seq<Stroke>
  {
    Tag(Pieces(s.points, pos), s.color)
  }

  /** What an eraser at `pos` leaves of a whole undo stack: the strokes' pieces, stroke after stroke. */
  function EraseStack(stack: seq<Stroke>, pos: Point): seq<Stroke>
    decreases |stack|
  {
    if stack == [] then []
    else EraseStack(stack[..|stack| - 1], pos) + EraseStroke(stack[|stack| - 1], pos)
  }

  // ---------------------------------------------------------------------
  // The scan that remove_point performs, one point at a time
  // ---------------------------------------------------------------------

  /** Appends the current segment when it holds two points or more. */
  function Flush(segments: seq<seq<Point>>, current: seq<Point>): seq<seq<Point>>
  {
    if |current| >= 2 then segments + [current] else segments
  }

  /**
    The segments that the point-by-point walk of remove_point produces from
    `line[j..]`, given the segments and the current segment built so far;
    `m` tells which points the eraser keeps.
  */
  function ScanFrom(line: seq<Point>, m: seq<bool>, j: nat, segments: seq<seq<Point>>, current: seq<Point>): seq<seq<Point>>
    requires |m| == |line| && j <= |line|
    decreases |line| - j
  {
    if j == |line| then Flush(segments, current)
    else if m[j] then ScanFrom(line, m, j + 1, segments, current + [line[j]])
    else ScanFrom(line, m, j + 1, Flush(segments, current), [])
  }

  /** Walking through a run of kept points only grows the current segment. */
  lemma {:induction false} ScanThroughRun(line: seq<Point>, m: seq<bool>, c: nat, i: nat, segments: seq<seq<Point>>)
    requires |m| == |line| && c <= i <= |line|
    ensures ScanFrom(line, m, i, segments, line[c..i])
         == ScanFrom(line, m, RunEnd(m, i), segments, line[c..RunEnd(m, i)])
    decreases |line| - i
  {
    if i < |line| && m[i] {
      assert line[c..i] + [line[i]] == line[c..i + 1];
      ScanThroughRun(line, m, c, i + 1, segments);
    }
  }

  /** The walk of remove_point computes exactly the maximal runs of the reference definition. */
  lemma {:induction false} ScanMatchesSpans(line: seq<Point>, m: seq<bool>, i: nat, segments: seq<seq<Point>>)
    requires |m| == |line| && i <= |line|
    ensures ScanFrom(line, m, i, segments, []) == segments + Slices(line, Spans(m, i))
    decreases |line| - i
  {
    if i == |line| {
    } else if !m[i] {
      ScanMatchesSpans(line, m, i + 1, segments);
    } else {
      ScanRunStep(line, m, i, segments);
    }
  }

  lemma {:induction false} ScanRunStep(line: seq<Point>, m: seq<bool>, i: nat, segments: seq<seq<Point>>)
    requires |m| == |line| && i < |line| && m[i]
    ensures ScanFrom(line, m, i, segments, []) == segments + Slices(line, Spans(m, i))
    decreases |line| - i, 0
  {
    var e := RunEnd(m, i);
    if e < |line| {
      var flushed := Flush(segments, line[i..e]);
      ScanEntersRun(line, m, i, segments);
      ScanMatchesSpans(line, m, e + 1, flushed);
      SlicesOfRun(line, m, i, segments);
    } else {
      ScanLastRun(line, m, i, segments);
    }
  }

  /** The slices from a run that ends before the line does: the flushed run, then the slices after it. */
  lemma SlicesOfRun(line: seq<Point>, m: seq<bool>, i: nat, segments: seq<seq<Point>>)
    requires |m| == |line| && i < |line| && m[i] && RunEnd(m, i) < |line|
    ensures var e := RunEnd(m, i);
      segments + Slices(line, Spans(m, i)) == Flush(segments, line[i..e]) + Slices(line, Spans(m, e + 1))
  {
    var e := RunEnd(m, i);
    SpansOfRun(m, i);
    FlushIsSlice(line, segments, i, e, Spans(m, e + 1));
  }

  /** Flushing the run `line[i..e]` adds the slice of its span, if it has one. */
  lemma FlushIsSlice(line: seq<Point>, segments: seq<seq<Point>>, i: nat, e: nat, rest: seq<Span>)
    requires i <= e <= |line| && SpansInBounds(line, rest)
    ensures segments + Slices(line, RunSpan(i, e) + rest)
         == Flush(segments, line[i..e]) + Slices(line, rest)
  {
    var head := RunSpan(i, e);
    SlicesAppend(line, head, rest);
    var sh, sr := Slices(line, head), Slices(line, rest);
    assert Flush(segments, line[i..e]) == segments + sh;
    assert segments + (sh + sr) == (segments + sh) + sr;
  }

  /** The step of ScanRunStep when the run reaches the end of the line. */
  lemma ScanLastRun(line: seq<Point>, m: seq<bool>, i: nat, segments: seq<seq<Point>>)
    requires |m| == |line| && i < |line| && m[i] && RunEnd(m, i) == |line|
    ensures ScanFrom(line, m, i, segments, []) == segments + Slices(line, Spans(m, i))
  {
    var e := |line|;
    var head := RunSpan(i, e);
    ScanEntersRun(line, m, i, segments);
    SpansOfRun(m, i);
    assert Spans(m, i) == head;
    assert Flush(segments, line[i..e]) == segments + Slices(line, head);
  }

  /** From the first kept point of a run, the walk reaches the run's end holding the whole run. */
  lemma ScanEntersRun(line: seq<Point>, m: seq<bool>, i: nat, segments: seq<seq<Point>>)
    requires |m| == |line| && i < |line| && m[i]
    ensures var e := RunEnd(m, i);
      ScanFrom(line, m, i, segments, [])
        == if e == |line| then Flush(segments, line[i..e])
           else ScanFrom(line, m, e + 1, Flush(segments, line[i..e]), [])
  {
    assert [] + [line[i]] == line[i..i + 1];
    ScanThroughRun(line, m, i, i + 1, segments);
  }

  /** The spans from the first point of a run: the run itself if long enough, then what follows it. */
  lemma SpansOfRun(m: seq<bool>, i: nat)
    requires i < |m| && m[i]
    ensures var e := RunEnd(m, i);
      Spans(m, i) == RunSpan(i, e) + (if e == |m| then [] else Spans(m, e + 1))
  {
  }

  lemma SlicesAppend(line: seq<Point>, a: seq<Span>, b: seq<Span>)
    requires SpansInBounds(line, a) && SpansInBounds(line, b)
    ensures SpansInBounds(line, a + b)
    ensures Slices(line, a + b) == Slices(line, a) + Slices(line, b)
  {
    assert forall k :: 0 <= k < |a| ==> (a + b)[k] == a[k];
    assert forall k :: |a| <= k < |a| + |b| ==> (a + b)[k] == b[k - |a|];
  }

  /** The pieces remove_point builds for one line, from an empty start. */
  lemma ScanIsPieces(line: seq<Point>, pos: Point)
    ensures ScanFrom(line, KeepMask(line, pos), 0, [], []) == Pieces(line, pos)
  {
    ScanMatchesSpans(line, KeepMask(line, pos), 0, []);
  }

  // ---------------------------------------------------------------------
  // What the reference definition promises
  // ---------------------------------------------------------------------

  predicate Covered(sp: seq<Span>, t: int)
  {
    exists k :: 0 <= k < |sp| && sp[k].lo <= t < sp[k].hi
  }

  /** Every point inside a span is kept. */
  predicate RunsKept(m: seq<bool>, r: seq<Span>)
  {
    forall k, t :: 0 <= k < |r| && r[k].lo <= t < r[k].hi && t < |m| ==> m[t]
  }

  /** No span can be extended: the point before it and the point after it are erased or absent. */
  predicate RunsMaximal(m: seq<bool>, i: nat, r: seq<Span>)
  {
    forall k :: 0 <= k < |r| ==>
      && (r[k].lo == i || (0 < r[k].lo <= |m| && !m[r[k].lo - 1]))
      && (r[k].hi == |m| || (r[k].hi < |m| && !m[r[k].hi]))
  }

  /** Spans come left to right, with at least one point between two of them. */
  predicate RunsOrdered(r: seq<Span>)
  {
    forall k :: 0 <= k < |r| - 1 ==> r[k].hi < r[k + 1].lo
  }

  /** The spans from the first point of a run: the run itself if long enough, then the spans from its end. */
  lemma SpansFromRun(m: seq<bool>, i: nat)
    requires i < |m| && m[i]
    ensures Spans(m, i) == RunSpan(i, RunEnd(m, i)) + Spans(m, RunEnd(m, i))
  {
  }

  lemma PrependKept(m: seq<bool>, i: nat, e: nat, rest: seq<Span>)
    requires i <= e <= |m| && forall t :: i <= t < e ==> m[t]
    requires RunsKept(m, rest)
    ensures RunsKept(m, RunSpan(i, e) + rest)
  {
    var r := RunSpan(i, e) + rest;
    var h := |RunSpan(i, e)|;
    forall k, t | 0 <= k < |r| && r[k].lo <= t < r[k].hi && t < |m| ensures m[t] {
      if k >= h { assert r[k] == rest[k - h]; } else { assert r[k] == Span(i, e); }
    }
  }

  lemma PrependMaximal(m: seq<bool>, i: nat, e: nat, rest: seq<Span>)
    requires i <= e <= |m| && (i == 0 || !m[i - 1]) && (e == |m| || !m[e])
    requires RunsMaximal(m, e, rest) && forall k :: 0 <= k < |rest| ==> e < rest[k].lo
    ensures RunsMaximal(m, i, RunSpan(i, e) + rest)
  {
    var r := RunSpan(i, e) + rest;
    var h := |RunSpan(i, e)|;
    forall k | 0 <= k < |r|
      ensures r[k].lo == i || (0 < r[k].lo <= |m| && !m[r[k].lo - 1])
      ensures r[k].hi == |m| || (r[k].hi < |m| && !m[r[k].hi])
    {
      if k >= h { assert r[k] == rest[k - h]; } else { assert r[k] == Span(i, e); }
    }
  }

  lemma PrependOrdered(i: nat, e: nat, rest: seq<Span>)
    requires RunsOrdered(rest) && forall k :: 0 <= k < |rest| ==> e < rest[k].lo
    ensures RunsOrdered(RunSpan(i, e) + rest)
  {
    var r := RunSpan(i, e) + rest;
    var h := |RunSpan(i, e)|;
    forall k | 0 <= k < |r| - 1 ensures r[k].hi < r[k + 1].lo {
      if k >= h {
        assert r[k] == rest[k - h] && r[k + 1] == rest[k + 1 - h];
      } else {
        assert r[k] == Span(i, e) && r[k + 1] == rest[0];
      }
    }
  }

  /** Every point inside a span is kept. */
  lemma {:induction false} SpansKept(m: seq<bool>, i: nat)
    requires i <= |m|
    ensures RunsKept(m, Spans(m, i))
    decreases |m| - i
  {
    if i < |m| && !m[i] {
      SpansKept(m, i + 1);
    } else if i < |m| {
      var e := RunEnd(m, i);
      SpansKept(m, e);
      SpansFromRun(m, i);
      PrependKept(m, i, e, Spans(m, e));
    }
  }

  /** The spans after a run start past the erased point that ends it. */
  lemma SpansPastRun(m: seq<bool>, i: nat)
    requires i < |m| && m[i]
    ensures forall k :: 0 <= k < |Spans(m, RunEnd(m, i))| ==> RunEnd(m, i) < Spans(m, RunEnd(m, i))[k].lo
  {
    var e := RunEnd(m, i);
    var rest := Spans(m, e);
    SpansKept(m, e);
    forall k | 0 <= k < |rest| ensures e < rest[k].lo {
      assert m[rest[k].lo];
    }
  }

  /**
    No span of `m[i..]` can be extended: the point before it is erased or
    is `i` itself, and the point after it is erased or past the end.
  */
  lemma {:induction false} SpansMaximal(m: seq<bool>, i: nat)
    requires i <= |m| && (i == 0 || i == |m| || !m[i - 1] || !m[i])
    ensures RunsMaximal(m, i, Spans(m, i))
    decreases |m| - i
  {
    if i < |m| && !m[i] {
      SpansMaximal(m, i + 1);
    } else if i < |m| {
      var e := RunEnd(m, i);
      SpansMaximal(m, e);
      SpansPastRun(m, i);
      SpansFromRun(m, i);
      PrependMaximal(m, i, e, Spans(m, e));
    }
  }

  /** Spans come left to right, with at least one erased point between two of them. */
  lemma {:induction false} SpansOrdered(m: seq<bool>, i: nat)
    requires i <= |m|
    ensures RunsOrdered(Spans(m, i))
    decreases |m| - i
  {
    if i < |m| && !m[i] {
      SpansOrdered(m, i + 1);
    } else if i < |m| {
      var e := RunEnd(m, i);
      SpansOrdered(m, e);
      SpansPastRun(m, i);
      SpansFromRun(m, i);
      PrependOrdered(i, e, Spans(m, e));
    }
  }

  /**
    Every span is a maximal run of kept points (its neighbours are erased or
    lie outside the line), and spans come left to right with an erased
    point between any two of them.
  */
  lemma SpansAreMaximalRuns(m: seq<bool>)
    ensures RunsKept(m, Spans(m, 0))
    ensures RunsMaximal(m, 0, Spans(m, 0))
    ensures RunsOrdered(Spans(m, 0))
  {
    SpansKept(m, 0);
    SpansMaximal(m, 0);
    SpansOrdered(m, 0);
  }

  lemma CoveredAppend(a: seq<Span>, b: seq<Span>, t: int)
    ensures Covered(a + b, t) <==> Covered(a, t) || Covered(b, t)
  {
    if Covered(a + b, t) {
      var k :| 0 <= k < |a + b| && (a + b)[k].lo <= t < (a + b)[k].hi;
      if k < |a| {
        assert (a + b)[k] == a[k];
      } else {
        assert (a + b)[k] == b[k - |a|];
      }
    }
    if Covered(a, t) {
      var k :| 0 <= k < |a| && a[k].lo <= t < a[k].hi;
      assert (a + b)[k] == a[k];
    }
    if Covered(b, t) {
      var k :| 0 <= k < |b| && b[k].lo <= t < b[k].hi;
      assert (a + b)[k + |a|] == b[k];
    }
  }

  /** Nothing before `i` is covered by the spans of `m[i..]`. */
  lemma NotCoveredBefore(m: seq<bool>, i: nat, t: int)
    requires i <= |m| && t < i
    ensures !Covered(Spans(m, i), t)
  {
    var r := Spans(m, i);
    forall k | 0 <= k < |r| ensures !(r[k].lo <= t < r[k].hi) {
    }
  }

  /**
    A point of `m[i..]` survives (lies in some span) exactly when it is kept
    and has a kept neighbour inside `m[i..]`: an isolated kept point is
    dropped together with the run it would have formed.
  */
  lemma {:induction false} SpansCoverExactly(m: seq<bool>, i: nat, t: nat)
    requires i <= t < |m|
    ensures Covered(Spans(m, i), t) <==> m[t] && ((t > i && m[t - 1]) || (t + 1 < |m| && m[t + 1]))
    decreases |m| - i, 1
  {
    if !m[i] {
      assert Spans(m, i) == Spans(m, i + 1);
      if t == i {
        NotCoveredBefore(m, i + 1, t);
      } else {
        SpansCoverExactly(m, i + 1, t);
      }
    } else {
      SpansCoverFromRun(m, i, t);
    }
  }

  /** The case of `SpansCoverExactly` where a run starts at `i`. */
  lemma {:induction false} SpansCoverFromRun(m: seq<bool>, i: nat, t: nat)
    requires i <= t < |m| && m[i]
    ensures Covered(Spans(m, i), t) <==> m[t] && ((t > i && m[t - 1]) || (t + 1 < |m| && m[t + 1]))
    decreases |m| - i, 0
  {
    var e := RunEnd(m, i);
    var head := RunSpan(i, e);
    var rest := Spans(m, e);
    assert Spans(m, i) == head + rest;
    CoveredAppend(head, rest, t);
    assert Covered(head, t) <==> e - i >= 2 && i <= t < e by {
      if e - i >= 2 && i <= t < e { assert head[0] == Span(i, e); }
    }
    if t < e {
      NotCoveredBefore(m, e, t);
      assert m[t];
      if t > i {
        assert m[t - 1] && e - i >= 2;
      } else {
        assert (t + 1 < |m| && m[t + 1]) <==> e - i >= 2;
      }
    } else if t == e {
      NotCoveredBefore(m, e + 1, t);
      assert rest == Spans(m, e + 1);
      assert !m[t];
    } else {
      SpansCoverExactly(m, e, t);
    }
  }


  /** A kept run `line[lo..hi]` of two points or more is a survivor stroke. */
  lemma PieceSurvives(line: seq<Point>, pos: Point, lo: nat, hi: nat, c: Color)
    requires lo + 2 <= hi <= |line|
    requires forall t :: lo <= t < hi ==> KeepMask(line, pos)[t]
    ensures Survivor(Stroke(line[lo..hi], c), pos)
  {
    var m := KeepMask(line, pos);
    forall t | 0 <= t < hi - lo
      ensures Kept(line[lo..hi][t], pos)
    {
      assert m[lo + t];
      assert line[lo..hi][t] == line[lo + t];
    }
  }

  /** Every piece of an erased stroke has two points or more and carries that stroke's colour. */
  lemma EraseStrokeSurvivors(s: Stroke, pos: Point)
    ensures forall k :: 0 <= k < |EraseStroke(s, pos)| ==>
      Survivor(EraseStroke(s, pos)[k], pos) && EraseStroke(s, pos)[k].color == s.color
  {
    var m := KeepMask(s.points, pos);
    SpansAreMaximalRuns(m);
    var sp := Spans(m, 0);
    var r := EraseStroke(s, pos);
    forall k | 0 <= k < |r|
      ensures Survivor(r[k], pos) && r[k].color == s.color
    {
      assert r[k] == Stroke(s.points[sp[k].lo..sp[k].hi], s.color);
      PieceSurvives(s.points, pos, sp[k].lo, sp[k].hi, s.color);
    }
  }

  lemma {:induction false} RunEndAllKept(m: seq<bool>, i: nat)
    requires i <= |m| && forall t :: 0 <= t < |m| ==> m[t]
    ensures RunEnd(m, i) == |m|
    decreases |m| - i
  {
    if i < |m| {
      RunEndAllKept(m, i + 1);
    }
  }

  /** A stroke that is already a survivor is left whole. */
  lemma EraseSurvivorUnchanged(s: Stroke, pos: Point)
    requires Survivor(s, pos)
    ensures EraseStroke(s, pos) == [s]
  {
    var line := s.points;
    var m := KeepMask(line, pos);
    RunEndAllKept(m, 0);
    assert Spans(m, |m|) == [];
    assert Spans(m, 0) == [Span(0, |line|)];
    assert line[0..|line|] == line;
  }

  /** Erasing a stack erases its parts independently. */
  lemma {:induction false} EraseStackAppend(a: seq<Stroke>, b: seq<Stroke>, pos: Point)
    ensures EraseStack(a + b, pos) == EraseStack(a, pos) + EraseStack(b, pos)
    decreases |b|
  {
    if b == [] {
      assert a + b == a;
    } else {
      var b' := b[..|b| - 1];
      assert (a + b)[..|a + b| - 1] == a + b';
      assert (a + b)[|a + b| - 1] == b[|b| - 1];
      EraseStackAppend(a, b', pos);
    }
  }

  /** After an erase every stroke of the stack has two points or more, none within the radius. */
  lemma {:induction false} EraseStackSurvivors(stack: seq<Stroke>, pos: Point)
    ensures forall k :: 0 <= k < |EraseStack(stack, pos)| ==> Survivor(EraseStack(stack, pos)[k], pos)
    decreases |stack|
  {
    if stack != [] {
      EraseStackSurvivors(stack[..|stack| - 1], pos);
      EraseStrokeSurvivors(stack[|stack| - 1], pos);
    }
  }

  /** A stack of survivors is left as it is. */
  lemma {:induction false} EraseStackOfSurvivors(stack: seq<Stroke>, pos: Point)
    requires forall k :: 0 <= k < |stack| ==> Survivor(stack[k], pos)
    ensures EraseStack(stack, pos) == stack
    decreases |stack|
  {
    if stack != [] {
      var init, last := stack[..|stack| - 1], stack[|stack| - 1];
      assert forall k :: 0 <= k < |init| ==> init[k] == stack[k];
      EraseStackOfSurvivors(init, pos);
      EraseSurvivorUnchanged(last, pos);
      EraseStackLast(stack, pos);
      SplitLast(stack);
    }
  }

  lemma EraseStackLast(stack: seq<Stroke>, pos: Point)
    requires stack != []
    ensures EraseStack(stack, pos) == EraseStack(stack[..|stack| - 1], pos) + EraseStroke(stack[|stack| - 1], pos)
  {
  }

  lemma SplitLast(stack: seq<Stroke>)
    requires stack != []
    ensures stack[..|stack| - 1] + [stack[|stack| - 1]] == stack
  {
  }

  /** Erasing twice at the same position is the same as erasing once. */
  lemma EraseStackIdempotent(stack: seq<Stroke>, pos: Point)
    ensures EraseStack(EraseStack(stack, pos), pos) == EraseStack(stack, pos)
  {
    EraseStackSurvivors(stack, pos);
    EraseStackOfSurvivors(EraseStack(stack, pos), pos);
  }

  // ---------------------------------------------------------------------
  // Where each surviving stroke comes from
  // ---------------------------------------------------------------------

  /** The original stroke index and the span of it that a surviving stroke is. */
  datatype Origin = Origin(stroke: nat, span: Span)

  /** Comes strictly before, in stack order and then left to right within one stroke. */
  predicate Before(a: Origin, b: Origin)
  {
    a.stroke < b.stroke || (a.stroke == b.stroke && a.span.hi < b.span.lo)
  }

  function StrokeOrigins(n: nat, sp: seq<Span>): (r: seq<Origin>)
    ensures |r| == |sp|
    ensures forall k :: 0 <= k < |sp| ==> r[k] == Origin(n, sp[k])
  {
    seq(|sp|, k requires 0 <= k < |sp| => Origin(n, sp[k]))
  }

  function Origins(stack: seq<Stroke>, pos: Point): seq<Origin>
    decreases |stack|
  {
    if stack == [] then []
    else
      var n := |stack| - 1;
      Origins(stack[..n], pos) + StrokeOrigins(n, Spans(KeepMask(stack[n].points, pos), 0))
  }

  predicate Traces(stack: seq<Stroke>, o: Origin, s: Stroke)
  {
    && o.stroke < |stack|
    && o.span.lo < o.span.hi <= |stack[o.stroke].points|
    && s == Stroke(stack[o.stroke].points[o.span.lo..o.span.hi], stack[o.stroke].color)
  }

  /** Each surviving stroke is the slice of the original stroke its origin names. */
  predicate AllTrace(stack: seq<Stroke>, o: seq<Origin>, r: seq<Stroke>)
  {
    |o| == |r| && forall k :: 0 <= k < |r| ==> Traces(stack, o[k], r[k])
  }

  predicate InOrder(o: seq<Origin>)
  {
    forall k :: 0 <= k < |o| - 1 ==> Before(o[k], o[k + 1])
  }

  lemma TracesInLonger(stack: seq<Stroke>, o: seq<Origin>, r: seq<Stroke>)
    requires stack != [] && AllTrace(stack[..|stack| - 1], o, r)
    ensures AllTrace(stack, o, r)
    ensures forall k :: 0 <= k < |o| ==> o[k].stroke < |stack| - 1
  {
    var prefix := stack[..|stack| - 1];
    forall k | 0 <= k < |r| ensures Traces(stack, o[k], r[k]) && o[k].stroke < |stack| - 1 {
      assert Traces(prefix, o[k], r[k]);
      assert stack[o[k].stroke] == prefix[o[k].stroke];
    }
  }

  lemma TracesOfLast(stack: seq<Stroke>, pos: Point)
    requires stack != []
    ensures var n := |stack| - 1;
      AllTrace(stack, StrokeOrigins(n, Spans(KeepMask(stack[n].points, pos), 0)), EraseStroke(stack[n], pos))
  {
    var n := |stack| - 1;
    var s := stack[n];
    var sp := Spans(KeepMask(s.points, pos), 0);
    var o := StrokeOrigins(n, sp);
    var r := EraseStroke(s, pos);
    forall k | 0 <= k < |r| ensures Traces(stack, o[k], r[k]) {
      assert r[k] == Stroke(s.points[sp[k].lo..sp[k].hi], s.color);
    }
  }

  lemma TracesAppend(stack: seq<Stroke>, o1: seq<Origin>, r1: seq<Stroke>, o2: seq<Origin>, r2: seq<Stroke>)
    requires AllTrace(stack, o1, r1) && AllTrace(stack, o2, r2)
    ensures AllTrace(stack, o1 + o2, r1 + r2)
  {
    var o, r := o1 + o2, r1 + r2;
    forall k | 0 <= k < |r| ensures Traces(stack, o[k], r[k]) {
      if k < |r1| {
        assert o[k] == o1[k] && r[k] == r1[k];
      } else {
        assert o[k] == o2[k - |o1|] && r[k] == r2[k - |r1|];
      }
    }
  }

  lemma StrokeOriginsInOrder(n: nat, sp: seq<Span>)
    requires RunsOrdered(sp)
    ensures InOrder(StrokeOrigins(n, sp))
  {
  }

  lemma InOrderAppend(o1: seq<Origin>, o2: seq<Origin>, n: nat)
    requires InOrder(o1) && InOrder(o2)
    requires forall k :: 0 <= k < |o1| ==> o1[k].stroke < n
    requires forall k :: 0 <= k < |o2| ==> o2[k].stroke == n
    ensures InOrder(o1 + o2)
  {
    var o := o1 + o2;
    forall k | 0 <= k < |o| - 1 ensures Before(o[k], o[k + 1]) {
      if k + 1 < |o1| {
        assert o[k] == o1[k] && o[k + 1] == o1[k + 1];
      } else if k + 1 == |o1| {
        assert o[k] == o1[k] && o[k + 1] == o2[0];
      } else {
        assert o[k] == o2[k - |o1|] && o[k + 1] == o2[k + 1 - |o1|];
      }
    }
  }

  /**
    Each stroke left by an erase is a contiguous run of one original
    stroke, with that stroke's colour, and the survivors appear in the
    original order: stroke by stroke, left to right inside each stroke.
  */
  lemma {:induction false} EraseStackProvenance(stack: seq<Stroke>, pos: Point)
    ensures AllTrace(stack, Origins(stack, pos), EraseStack(stack, pos))
    ensures InOrder(Origins(stack, pos))
    decreases |stack|
  {
    if stack != [] {
      var n := |stack| - 1;
      var s := stack[n];
      var sp := Spans(KeepMask(s.points, pos), 0);
      EraseStackProvenance(stack[..n], pos);
      TracesInLonger(stack, Origins(stack[..n], pos), EraseStack(stack[..n], pos));
      TracesOfLast(stack, pos);
      TracesAppend(stack, Origins(stack[..n], pos), EraseStack(stack[..n], pos), StrokeOrigins(n, sp), EraseStroke(s, pos));
      SpansAreMaximalRuns(KeepMask(s.points, pos));
      StrokeOriginsInOrder(n, sp);
      InOrderAppend(Origins(stack[..n], pos), StrokeOrigins(n, sp), n);
    }
  }

  // ---------------------------------------------------------------------
  // Two concrete erases
  // ---------------------------------------------------------------------

  /** Five points four apart on a horizontal line. */
  const FiveInRow: seq<Point> := [Point(0, 0), Point(4, 0), Point(8, 0), Point(12, 0), Point(16, 0)]

  /** Nine points four apart on a horizontal line. */
  const NineInRow: seq<Point> :=
    [Point(0, 0), Point(4, 0), Point(8, 0), Point(12, 0), Point(16, 0), Point(20, 0), Point(24, 0), Point(28, 0), Point(32, 0)]

  /** Five points erased at the middle one: every point lies within the radius. */
  lemma EraseFiveInRow()
    ensures EraseStroke(Stroke(FiveInRow, Color(0, 0, 0)), Point(8, 0)) == []
  {
    var m := KeepMask(FiveInRow, Point(8, 0));
    assert m == [false, false, false, false, false];
    assert Spans(m, 5) == [];
    assert Spans(m, 4) == [];
    assert Spans(m, 3) == [];
    assert Spans(m, 2) == [];
    assert Spans(m, 1) == [];
    assert Spans(m, 0) == [];
  }

  /** Nine points erased at the middle one: two pieces of two points remain. */
  lemma EraseNineInRow()
    ensures EraseStroke(Stroke(NineInRow, Color(0, 0, 0)), Point(16, 0))
         == [Stroke([Point(0, 0), Point(4, 0)], Color(0, 0, 0)), Stroke([Point(28, 0), Point(32, 0)], Color(0, 0, 0))]
  {
    var m := KeepMask(NineInRow, Point(16, 0));
    NineMask();
    var sp := Spans(m, 0);
    NineSpans();
    NineSlices();
    assert Pieces(NineInRow, Point(16, 0)) == [[Point(0, 0), Point(4, 0)], [Point(28, 0), Point(32, 0)]];
  }

  /** The two pieces the runs of the mask cut out. */
  lemma NineSlices()
    ensures Slices(NineInRow, [Span(0, 2), Span(7, 9)]) == [[Point(0, 0), Point(4, 0)], [Point(28, 0), Point(32, 0)]]
  {
    var r := Slices(NineInRow, [Span(0, 2), Span(7, 9)]);
    assert r[0] == NineInRow[0..2] == [Point(0, 0), Point(4, 0)];
    assert r[1] == NineInRow[7..9] == [Point(28, 0), Point(32, 0)];
  }

  /** Which of the nine points lie outside the eraser's radius. */
  lemma NineMask()
    ensures KeepMask(NineInRow, Point(16, 0)) == [true, true, false, false, false, false, false, true, true]
  {
  }

  /** The runs of that mask. */
  lemma NineSpans()
    ensures Spans([true, true, false, false, false, false, false, true, true], 0) == [Span(0, 2), Span(7, 9)]
  {
    var m := [true, true, false, false, false, false, false, true, true];
    assert RunEnd(m, 8) == 9;
    assert RunEnd(m, 7) == 9 && Spans(m, 9) == [];
    assert Spans(m, 7) == [Span(7, 9)];
    assert Spans(m, 5) == Spans(m, 7);
    assert Spans(m, 3) == Spans(m, 5);
    assert Spans(m, 2) == Spans(m, 3);
    assert RunEnd(m, 1) == 2;
    assert RunEnd(m, 0) == 2;
  }
}
