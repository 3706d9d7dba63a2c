/** What splitting a pen trajectory into strokes means, stated independently of
    the single-pass loop that performs it: a trajectory is cut right after every
    pen-up point, and each piece becomes one stroke. */
module Strokes {
  import opened PenPositions

  /** A run is a non-empty stretch of a trajectory in which only the last point
      may have the pen lifted. */
  ghost predicate IsRun<C>(r: seq<PenPosition<C>>) {
    |r| > 0 && forall i :: 0 <= i < |r| - 1 ==> !r[i].penUp
  }

  /** A trajectory that is empty or whose last point lifts the pen: nothing of it
      is left open for the next point to join. */
  ghost predicate IsClosed<C>(ps: seq<PenPosition<C>>) {
    |ps| == 0 || ps[|ps| - 1].penUp
  }

  /** A list of runs in which every run except possibly the last ends at a
      pen-up point. */
  ghost predicate IsSplit<C>(parts: seq<seq<PenPosition<C>>>) {
    (forall j :: 0 <= j < |parts| ==> IsRun(parts[j])) &&
    (forall j :: 0 <= j < |parts| - 1 ==> IsClosed(parts[j]))
  }

  /** The runs laid end to end. */
  ghost function Concat<C>(parts: seq<seq<C>>): seq<C> {
    if |parts| == 0 then [] else parts[0] + Concat(parts[1..])
  }

  /** Index of the point that ends the first stroke of a non-empty trajectory:
      its first pen-up point, or its last point when the pen is never lifted. */
  ghost function FirstStop<C>(ps: seq<PenPosition<C>>): (k: nat)
    requires |ps| > 0
    ensures k < |ps|
    ensures forall i :: 0 <= i < k ==> !ps[i].penUp
    ensures k < |ps| - 1 ==> ps[k].penUp
  {
    if ps[0].penUp || |ps| == 1 then 0 else 1 + FirstStop(ps[1..])
  }

  /** The runs of a trajectory, cut from the front at each first stop. */
  ghost function Runs<C>(ps: seq<PenPosition<C>>): seq<seq<PenPosition<C>>>
    decreases |ps|
  {
    if |ps| == 0 then []
    else
      var k := FirstStop(ps);
      [ps[..k + 1]] + Runs(ps[k + 1..])
  }

  /** The runs reproduce the trajectory exactly and form a split: each is
      non-empty, only its last point may lift the pen, and every run but the
      last ends at a pen-up point. */
  lemma {:induction false} RunsSplit<C>(ps: seq<PenPosition<C>>)
    ensures Concat(Runs(ps)) == ps
    ensures IsSplit(Runs(ps))
    decreases |ps|
  {
    if |ps| > 0 {
      var k := FirstStop(ps);
      var rest := ps[k + 1..];
      RunsSplit(rest);
      var parts := Runs(ps);
      assert parts == [ps[..k + 1]] + Runs(rest);
      assert parts[1..] == Runs(rest);
      assert ps[..k + 1] + rest == ps;
      forall j | 0 <= j < |parts| ensures IsRun(parts[j]) {
        if j > 0 { assert parts[j] == Runs(rest)[j - 1]; }
      }
      forall j | 0 <= j < |parts| - 1 ensures IsClosed(parts[j]) {
        if j > 0 { assert parts[j] == Runs(rest)[j - 1]; }
      }
    }
  }

  /** The stroke records of a list of runs. */
  ghost function StrokesOf<C>(parts: seq<seq<PenPosition<C>>>): seq<Stroke<C>> {
    seq(|parts|, j requires 0 <= j < |parts| => ToStroke(parts[j]))
  }

  /** The strokes the segmenter emits for a trajectory: one stroke per run. There
      is a stroke exactly when there is a point, and every stroke is non-empty
      with as many x as y coordinates. */
  ghost function Segment<C>(ps: seq<PenPosition<C>>): (strokes: seq<Stroke<C>>)
    ensures |strokes| == 0 <==> |ps| == 0
    ensures forall j :: 0 <= j < |strokes| ==> 0 < |strokes[j].xs| == |strokes[j].ys|
  {
    var parts := Runs(ps);
    RunsSplit(ps);
    assert |ps| > 0 ==> |parts| > 0;
    StrokesOf(parts)
  }

  /** The first stop is the first pen-up point whenever there is one. */
  lemma FirstStopAt<C>(ps: seq<PenPosition<C>>, k: nat)
    requires k < |ps| && ps[k].penUp
    requires forall i :: 0 <= i < k ==> !ps[i].penUp
    ensures FirstStop(ps) == k
  {
  }

  /** Appending to a non-empty closed trajectory does not move its first stop,
      and what follows that stop is again closed. */
  lemma FirstRunOfAppend<C>(a: seq<PenPosition<C>>, b: seq<PenPosition<C>>)
    requires |a| > 0 && IsClosed(a)
    ensures var k := FirstStop(a);
      Runs(a + b) == [a[..k + 1]] + Runs(a[k + 1..] + b) && IsClosed(a[k + 1..])
  {
    var k := FirstStop(a);
    var ab, tail := a + b, a[k + 1..];
    assert a[k].penUp;
    FirstStopAt(ab, k);
    assert ab[..k + 1] == a[..k + 1];
    assert ab[k + 1..] == tail + b;
    if |tail| > 0 { assert tail[|tail| - 1] == a[|a| - 1]; }
  }

  /** Appending to a closed trajectory leaves its strokes in place and adds the
      strokes of the appended part after them. */
  lemma {:induction false} RunsAppend<C>(a: seq<PenPosition<C>>, b: seq<PenPosition<C>>)
    requires IsClosed(a)
    ensures Runs(a + b) == Runs(a) + Runs(b)
    decreases |a|
  {
    if |a| == 0 {
      assert a + b == b;
    } else {
      var k := FirstStop(a);
      var first, tail := a[..k + 1], a[k + 1..];
      FirstRunOfAppend(a, b);
      RunsAppend(tail, b);
      var rt, rb := Runs(tail), Runs(b);
      calc {
        Runs(a + b);
        [first] + Runs(tail + b);
        [first] + (rt + rb);
        { assert [first] + (rt + rb) == ([first] + rt) + rb; }
        ([first] + rt) + rb;
        Runs(a) + rb;
      }
    }
  }

  /** Segmentation composes over a closed prefix: the strokes of `a + b` are those
      of `a` followed by those of `b`. */
  lemma SegmentAppend<C>(a: seq<PenPosition<C>>, b: seq<PenPosition<C>>)
    requires IsClosed(a)
    ensures Segment(a + b) == Segment(a) + Segment(b)
  {
    RunsAppend(a, b);
  }

  /** A single run, in particular a trajectory in which the pen is never lifted,
      becomes exactly one stroke holding all of its points. */
  lemma SingleStroke<C>(r: seq<PenPosition<C>>)
    requires IsRun(r)
    ensures Segment(r) == [Stroke(Xs(r), Ys(r))]
  {
    var k := FirstStop(r);
    assert k == |r| - 1;
    assert r[..k + 1] == r;
    assert Runs(r) == [r];
  }

  /** Closing a run after a closed prefix adds exactly one stroke. */
  lemma SegmentCloseRun<C>(a: seq<PenPosition<C>>, r: seq<PenPosition<C>>)
    requires IsClosed(a) && IsRun(r)
    ensures Segment(a + r) == Segment(a) + [Stroke(Xs(r), Ys(r))]
  {
    SegmentAppend(a, r);
    SingleStroke(r);
  }

  /** A split that reproduces a trajectory is its runs: the cut points are forced. */
  lemma {:induction false} RunsUnique<C>(ps: seq<PenPosition<C>>, parts: seq<seq<PenPosition<C>>>)
    requires Concat(parts) == ps
    requires IsSplit(parts)
    ensures parts == Runs(ps)
    decreases |parts|
  {
    if |parts| > 0 {
      var p, rest := parts[0], parts[1..];
      var n := |p|;
      assert IsRun(p);
      assert ps == p + Concat(rest);
      assert ps[..n] == p;
      assert ps[n..] == Concat(rest);
      if |rest| > 0 {
        assert IsClosed(parts[0]);
        FirstStopAt(ps, n - 1);
      } else {
        assert ps == p;
      }
      assert FirstStop(ps) == n - 1;
      assert IsSplit(rest) by {
        forall j | 0 <= j < |rest| ensures IsRun(rest[j]) {
          assert rest[j] == parts[j + 1];
        }
        forall j | 0 <= j < |rest| - 1 ensures IsClosed(rest[j]) {
          assert rest[j] == parts[j + 1];
        }
      }
      RunsUnique(ps[n..], rest);
      assert parts == [p] + rest;
    }
  }

  /** Coordinates of strokes cut from runs, read stroke after stroke, are the
      coordinates of the runs laid end to end. */
  lemma {:induction false} ConcatStrokesOf<C>(parts: seq<seq<PenPosition<C>>>)
    ensures ConcatXs(StrokesOf(parts)) == Xs(Concat(parts))
    ensures ConcatYs(StrokesOf(parts)) == Ys(Concat(parts))
    decreases |parts|
  {
    if |parts| > 0 {
      var s := StrokesOf(parts);
      assert s[1..] == StrokesOf(parts[1..]);
      ConcatStrokesOf(parts[1..]);
      var c := Concat(parts[1..]);
      assert Xs(parts[0] + c) == Xs(parts[0]) + Xs(c);
      assert Ys(parts[0] + c) == Ys(parts[0]) + Ys(c);
    }
  }

  /** No point is dropped, duplicated or reordered: the x lists of all strokes,
      in order, are the input's x coordinates, and likewise for y. */
  lemma SegmentConserves<C>(ps: seq<PenPosition<C>>)
    ensures ConcatXs(Segment(ps)) == Xs(ps)
    ensures ConcatYs(Segment(ps)) == Ys(ps)
  {
    RunsSplit(ps);
    ConcatStrokesOf(Runs(ps));
  }

  /** Dropping a pen-down prefix that ends at index k leaves the pen-up count of
      the rest, plus one if the point at k lifts the pen. */
  lemma {:induction false} PenUpsSkip<C>(ps: seq<PenPosition<C>>, k: nat)
    requires k < |ps|
    requires forall i :: 0 <= i < k ==> !ps[i].penUp
    ensures PenUps(ps) == PenUps(ps[k + 1..]) + (if ps[k].penUp then 1 else 0)
    decreases k
  {
    if k > 0 {
      PenUpsSkip(ps[1..], k - 1);
      assert ps[1..][k..] == ps[k + 1..];
    }
  }

  /** There is one stroke per pen-up point, plus one more exactly when the input
      is non-empty and its last point leaves the pen down. In particular a final
      pen-up point adds no empty or duplicate trailing stroke. */
  lemma {:induction false} StrokeCount<C>(ps: seq<PenPosition<C>>)
    ensures |Segment(ps)| == PenUps(ps) + (if |ps| > 0 && !ps[|ps| - 1].penUp then 1 else 0)
    decreases |ps|
  {
    if |ps| > 0 {
      var k := FirstStop(ps);
      var rest := ps[k + 1..];
      PenUpsSkip(ps, k);
      StrokeCount(rest);
      assert |Runs(ps)| == 1 + |Runs(rest)|;
      if |rest| > 0 {
        assert rest[|rest| - 1] == ps[|ps| - 1];
      }
    }
  }

  /** Laid end to end, non-empty runs end at the last point of the last run. */
  lemma {:induction false} ConcatLast<C>(parts: seq<seq<PenPosition<C>>>)
    requires |parts| > 0 && forall j :: 0 <= j < |parts| ==> |parts[j]| > 0
    ensures var c, l := Concat(parts), parts[|parts| - 1];
      |c| > 0 && c[|c| - 1] == l[|l| - 1]
    decreases |parts|
  {
    if |parts| > 1 {
      ConcatLast(parts[1..]);
      assert parts[1..][|parts| - 2] == parts[|parts| - 1];
    }
  }

  /** The last stroke ends at the input's last point, so it ends at a pen-up
      point exactly when the input does (that every earlier stroke ends at one is
      part of RunsSplit). */
  lemma LastRunEnd<C>(ps: seq<PenPosition<C>>)
    requires |ps| > 0
    ensures var parts := Runs(ps); var l := parts[|parts| - 1];
      |parts| > 0 && |l| > 0 && l[|l| - 1] == ps[|ps| - 1]
  {
    RunsSplit(ps);
    ConcatLast(Runs(ps));
  }

  /** A pen-up point in the middle splits [(0,0,down), (1,1,up), (2,2,down)]
      into the strokes x=[0,1], y=[0,1] and x=[2], y=[2]. */
  lemma TwoStrokeExample()
    ensures Segment([PenPosition(0, 0, false), PenPosition(1, 1, true), PenPosition(2, 2, false)])
         == [Stroke([0, 1], [0, 1]), Stroke([2], [2])]
  {
    var a := [PenPosition(0, 0, false), PenPosition(1, 1, true)];
    var b := [PenPosition(2, 2, false)];
    assert a + b == [PenPosition(0, 0, false), PenPosition(1, 1, true), PenPosition(2, 2, false)];
    SegmentAppend(a, b);
    SingleStroke(a);
    SingleStroke(b);
    assert Xs(a) == [0, 1] && Ys(a) == [0, 1];
    assert Xs(b) == [2] && Ys(b) == [2];
  }
}
