/**
 * The drawing surface the sketch engine talks to, reduced to what it can observe:
 * the sequence of 2D-context calls it issues and the context's `lineWidth`,
 * which is shared mutable state (the engine both writes and reads it).
 */
module Canvas {

  /** The board is a 256 by 256 canvas. */
  const BoardWidth: int := 256
  const BoardHeight: int := 256

  /** A fresh 2D context starts with a line width of 1. */
  const DefaultLineWidth: real := 1.0

  /** A pointer position, already translated into board coordinates. */
  datatype Point = Point(x: real, y: real)

  /** One call on the 2D context, as recorded in its trace. */
  datatype CanvasOp =
    | ClearRect(left: int, top: int, width: int, height: int)
    | BeginPath
    | MoveTo(to: Point)
    | LineTo(to: Point)
    | SetLineWidth(lineWidth: real)
    | StrokePath

  /**
   * The line width a context holds after `lineWidth = w`: zero and negative values are
   * ignored, so a context whose width is positive keeps a positive width.
   */
  function NextLineWidth(current: real, w: real): (r: real)
    ensures w > 0.0 ==> r == w
    ensures w <= 0.0 ==> r == current
    ensures current > 0.0 ==> r > 0.0
  {
    if w > 0.0 then w else current
  }

  /** A 2D rendering context: every primitive appends itself to `ops`. */
  class Context {
    var lineWidth: real
    var ops: seq<CanvasOp>

    constructor ()
      ensures lineWidth == DefaultLineWidth && ops == []
    {
      lineWidth := DefaultLineWidth;
      ops := [];
    }

    method ClearRect(left: int, top: int, width: int, height: int)
      modifies this
      ensures ops == old(ops) + [CanvasOp.ClearRect(left, top, width, height)]
      ensures lineWidth == old(lineWidth)
    {
      ops := ops + [CanvasOp.ClearRect(left, top, width, height)];
    }

    method BeginPath()
      modifies this
      ensures ops == old(ops) + [CanvasOp.BeginPath]
      ensures lineWidth == old(lineWidth)
    {
      ops := ops + [CanvasOp.BeginPath];
    }

    method MoveTo(p: Point)
      modifies this
      ensures ops == old(ops) + [CanvasOp.MoveTo(p)]
      ensures lineWidth == old(lineWidth)
    {
      ops := ops + [CanvasOp.MoveTo(p)];
    }

    method LineTo(p: Point)
      modifies this
      ensures ops == old(ops) + [CanvasOp.LineTo(p)]
      ensures lineWidth == old(lineWidth)
    {
      ops := ops + [CanvasOp.LineTo(p)];
    }

    method SetLineWidth(w: real)
      modifies this
      ensures ops == old(ops) + [CanvasOp.SetLineWidth(w)]
      ensures lineWidth == NextLineWidth(old(lineWidth), w)
    {
      ops := ops + [CanvasOp.SetLineWidth(w)];
      lineWidth := NextLineWidth(lineWidth, w);
    }

    method Stroke()
      modifies this
      ensures ops == old(ops) + [CanvasOp.StrokePath]
      ensures lineWidth == old(lineWidth)
    {
      ops := ops + [CanvasOp.StrokePath];
    }
  }
}
