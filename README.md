# Stroke segmentation of synthesised handwriting

This project models the stroke segmenter of a handwriting-mimicking pipeline,
`Mimicking.filter_strokes` in `main.py`. The segmenter receives the pen positions
that the handwriting-synthesis model produced, after they have been aligned to
the source image. Each pen position has an `(x, y)` position and a `penUp` flag.
The segmenter cuts the flat sequence into strokes. Each stroke is a record of two
parallel lists, the x coordinates and the y coordinates of its points.

The project has three modules:

- `PenPositions` (`pen_positions.dfy`) holds the values: `PenPosition(x, y, penUp)`,
  with coordinates of an opaque type `C`, and `Stroke(xs, ys)`. It also has the
  functions that read coordinate lists off positions and strokes.
- `Strokes` (`strokes.dfy`) states what segmentation means. The definition is
  independent of the loop. `Runs` cuts the sequence from the front, right after its
  first pen-up point, and repeats on the rest. `Segment` turns each run into a
  stroke record. The lemmas prove the segmenter's properties about `Segment`.
- `Mimicking` (`mimicking.dfy`) holds `FilterStrokes`, the imperative single-pass
  loop of the source. It keeps the open record as two lists that it reassigns.
  It is proved to return exactly `Segment` of its input. The input is an array
  that the method may not modify, so Dafny checks that it is only read.

Two points about the intended behaviour, as the code fixes them:

- A stroke could be thought of as a list of pen positions. The code emits
  `{'x': [...], 'y': [...]}` records, which drop the `penUp` flags. The model emits
  `Stroke(xs, ys)`. Facts about where pen-up points fall are stated on `Runs`.
- A pen-position sequence is normally expected to end with a pen-up point. The
  segmenter does not rely on that. It emits an open last stroke when the final
  point leaves the pen down. The model covers both cases.

## Model

| member | source | states |
|---|---|---|
| `Mimicking.FilterStrokes` | main.py:19-32 | The single pass returns exactly the segmentation of its input. The input array is only read. |
| `Strokes.Segment` | main.py:20-31 | There is no stroke exactly when the input is empty. Every stroke is non-empty and has as many x as y coordinates. |
| `Strokes.FirstStop` | main.py:22-28 | The first stroke ends at the first pen-up point, or at the last point if the pen is never lifted. No point before it lifts the pen. |
| `Strokes.RunsSplit` | main.py:22-31 | The runs laid end to end give back the input. Each run is non-empty. Only its last point may lift the pen. Every run except the last ends at a pen-up point. |
| `Strokes.RunsUnique` | main.py:22-31 | Any split with those properties that reproduces the input is the runs. So the cut points are forced: one right after each pen-up point and none elsewhere. |
| `Strokes.RunsAppend` | main.py:25-28 | Once a pen-up point has closed the record, later points do not change the runs before it. The runs of `a + b` are those of `a` followed by those of `b`. |
| `Strokes.FirstRunOfAppend` | main.py:25-28 | Appending points after a closed prefix does not move the prefix's first cut. The part after that cut is still closed. |
| `Strokes.SegmentAppend` | main.py:25-28 | Segmentation is conserved under concatenation after a closed prefix: strokes of `a + b` = strokes of `a` followed by strokes of `b`. |
| `Strokes.SingleStroke` | main.py:29-31 | A non-empty input that lifts the pen at most at its last point gives exactly one stroke with all its coordinates. This includes input where the pen is never lifted. |
| `Strokes.SegmentCloseRun` | main.py:23-28 | Closing a run after a closed prefix adds exactly one stroke, which holds the run's coordinates. |
| `Strokes.ConcatStrokesOf` | main.py:23-24 | For strokes cut from runs, the x lists (and the y lists) read in order are the coordinates of the runs laid end to end. |
| `Strokes.SegmentConserves` | main.py:22-24 | The x lists of all strokes, in order, are the input's x coordinates. The same holds for y. No point is dropped, duplicated or reordered. |
| `Strokes.StrokeCount` | main.py:25-31 | The number of strokes is the number of pen-up points, plus one exactly when the input is non-empty and its last point leaves the pen down. So a final pen-up point adds no empty or duplicate trailing stroke. |
| `Strokes.LastRunEnd` | main.py:25-31 | The last run ends at the input's last point. So it ends at a pen-up point exactly when the input does. |
| `Strokes.TwoStrokeExample` | main.py:19-32 | `[(0,0,down), (1,1,up), (2,2,down)]` gives the strokes x=[0,1], y=[0,1] and x=[2], y=[2]. |

## Left out

- `Mimicking.__init__` and `Mimicking.mimick` (main.py:12-17, 34-39) are left out. They call the skeletonizer and the handwriting-synthesis model, which are learned black boxes and may be stochastic.
- `sample_to_penpositions`, `align`, `render_skeleton` and `PenStyleTransfer` are left out. The source of `pipeline.sampling`, `pipeline.align`, `pipeline.render_skeleton` and `pipeline.pen_style_transfer` is not part of this model.
- `main()` in main.py (lines 41-47) and the whole of tools/full_pipeline.py are left out. They are orchestration: they load the input image and call the stages above in order, with no logic of their own. tools/full_pipeline.py also parses arguments, prints, exports CSV and plots.
- Coordinates are left as an opaque type `C`. The segmenter only copies them and never does arithmetic on them, so no floating-point behaviour comes into play.
- `FilterStrokes` does not take the unused `self` receiver. `filter_strokes` reads no field of the object.
- Python object identity is not modelled. Strokes are values, not dictionaries shared by reference. The only record still live when it is emitted is the last one, and the loop ends right after it is emitted, so no later mutation can reach it.
