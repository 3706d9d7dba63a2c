/** The values that flow between the handwriting synthesiser, the aligner and the
    stroke segmenter: sampled pen positions and the strokes built from them. */
module PenPositions {

  /** One sampled point of a pen trajectory. The coordinates are values of an
      opaque type C: the segmenter copies them but never computes with them.
      `penUp` is set on the last point before the pen is lifted. */
  datatype PenPosition<C> = PenPosition(x: C, y: C, penUp: bool)

  /** One emitted stroke: the parallel lists of x and y coordinates of its
      points, in drawing order (the `{'x': [...], 'y': [...]}` record). */
  datatype Stroke<C> = Stroke(xs: seq<C>, ys: seq<C>)

  /** The x coordinates of a run of pen positions, in order. */
  function Xs<C>(ps: seq<PenPosition<C>>): seq<C> {
    seq(|ps|, i requires 0 <= i < |ps| => ps[i].x)
  }

  /** The y coordinates of a run of pen positions, in order. */
  function Ys<C>(ps: seq<PenPosition<C>>): seq<C> {
    seq(|ps|, i requires 0 <= i < |ps| => ps[i].y)
  }

  /** The stroke record drawn by a run of pen positions. */
  function ToStroke<C>(run: seq<PenPosition<C>>): Stroke<C> {
    Stroke(Xs(run), Ys(run))
  }

  /** All x coordinates of a list of strokes, stroke after stroke. */
  function ConcatXs<C>(strokes: seq<Stroke<C>>): seq<C> {
    if |strokes| == 0 then [] else strokes[0].xs + ConcatXs(strokes[1..])
  }

  /** All y coordinates of a list of strokes, stroke after stroke. */
  function ConcatYs<C>(strokes: seq<Stroke<C>>): seq<C> {
    if |strokes| == 0 then [] else strokes[0].ys + ConcatYs(strokes[1..])
  }

  /** Number of points at which the pen is lifted. */
  function PenUps<C>(ps: seq<PenPosition<C>>): nat {
    if |ps| == 0 then 0 else (if ps[0].penUp then 1 else 0) + PenUps(ps[1..])
  }
}
