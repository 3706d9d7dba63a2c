/** The stroke segmenter of the handwriting-mimicking front end: the step that
    turns the aligned pen positions of a synthesised text into strokes. */
module Mimicking {
  import opened PenPositions
  import opened Strokes

  /** Walks the pen positions once, appending each point's coordinates to an
      open stroke record; a pen-up point closes the record and opens a fresh
      one, and an open record is still emitted at the last point. The result is
      the segmentation of the input, which is only read. */
  method FilterStrokes<C>(newPenPositions: array<PenPosition<C>>) returns (strokes: seq<Stroke<C>>)
    ensures strokes == Segment(newPenPositions[..])
  {
    var ps := newPenPositions;
    strokes := [];
    var accX: seq<C>, accY: seq<C> := [], [];
    // the open record holds the points from `start` on
    ghost var start := 0;
    for i := 0 to ps.Length
      invariant start <= i
      invariant IsClosed(ps[..start])
      invariant forall k :: start <= k < i ==> !ps[k].penUp
      invariant accX == Xs(ps[start..i]) && accY == Ys(ps[start..i])
      invariant i < ps.Length || start == i ==> strokes == Segment(ps[..start])
      invariant i == ps.Length && start < i ==> strokes == Segment(ps[..start]) + [Stroke(accX, accY)]
    {
      accX := accX + [ps[i].x];
      accY := accY + [ps[i].y];
      assert accX == Xs(ps[start..i + 1]) && accY == Ys(ps[start..i + 1]);
      if ps[i].penUp {
        assert strokes + [Stroke(accX, accY)] == Segment(ps[..i + 1]) by {
          assert ps[..i + 1] == ps[..start] + ps[start..i + 1];
          assert IsRun(ps[start..i + 1]);
          SegmentCloseRun(ps[..start], ps[start..i + 1]);
        }
        strokes := strokes + [Stroke(accX, accY)];
        accX, accY := [], [];
        start := i + 1;
        continue;
      }
      // last element
      if i == ps.Length - 1 {
        strokes := strokes + [Stroke(accX, accY)];
      }
    }
    if start < ps.Length {
      var open := ps[start..];
      assert ps[..] == ps[..start] + open;
      assert IsRun(open) && accX == Xs(open) && accY == Ys(open);
      SegmentCloseRun(ps[..start], open);
    } else {
      assert ps[..] == ps[..start];
    }
  }
}
