/**
 * The drawing command built by `drawCommand`: a growing list of points and the
 * thickness captured when the stroke was started, with `drag` (append a point)
 * and `display` (trace one path through every point).
 *
 * `Decode` reads a trace of context calls back into the strokes that produced it;
 * with `DecodeDisplayAll` it shows that displaying strokes in order loses nothing
 * and adds nothing.
 */
module Strokes {
  import opened Canvas
  import opened Wrappers

  /** A stroke: the points it was dragged through, in order, and its line width. */
  datatype Stroke = Stroke(points: seq<Point>, thickness: real) {
    /** `drawCommand` seeds one point and `drag` only appends, so a stroke is never empty. */
    predicate Valid() {
      |points| > 0
    }
  }

  predicate AllValid(ss: seq<Stroke>) {
    forall s :: s in ss ==> s.Valid()
  }

  /** `drawCommand(firstX, firstY, thickness)`: a new stroke holding exactly its first point. */
  function DrawCommand(firstX: real, firstY: real, thickness: real): (s: Stroke)
    ensures s.Valid() && |s.points| == 1
    ensures s.points[0] == Point(firstX, firstY) && s.thickness == thickness
  {
    Stroke([Point(firstX, firstY)], thickness)
  }

  /** `drag(x, y)`: the point becomes the new last point; nothing earlier moves. */
  function Drag(s: Stroke, x: real, y: real): (r: Stroke)
    ensures |r.points| == |s.points| + 1
    ensures r.points[|s.points|] == Point(x, y)
    ensures forall i :: 0 <= i < |s.points| ==> r.points[i] == s.points[i]
    ensures r.thickness == s.thickness
    ensures r.Valid()
  {
    s.(points := s.points + [Point(x, y)])
  }

  /** The stroke after one `drag` per point of `ps`, in order. */
  function DragAll(s: Stroke, ps: seq<Point>): Stroke
    decreases |ps|
  {
    if ps == [] then s else DragAll(Drag(s, ps[0].x, ps[0].y), ps[1..])
  }

  /** Dragging through `ps` appends exactly `ps`, in order, and keeps the thickness. */
  lemma {:induction false} DragAllAppends(s: Stroke, ps: seq<Point>)
    ensures DragAll(s, ps) == Stroke(s.points + ps, s.thickness)
    decreases |ps|
  {
    if ps != [] {
      var s' := Drag(s, ps[0].x, ps[0].y);
      DragAllAppends(s', ps[1..]);
      assert s'.points + ps[1..] == s.points + ps by {
        assert s'.points == s.points + [ps[0]];
        assert [ps[0]] + ps[1..] == ps;
      }
    }
  }

  /** One `lineTo` per point, in order. */
  function LineTos(ps: seq<Point>): (r: seq<CanvasOp>)
    ensures |r| == |ps|
    ensures forall i :: 0 <= i < |ps| ==> r[i] == LineTo(ps[i])
  {
    if ps == [] then [] else [LineTo(ps[0])] + LineTos(ps[1..])
  }

  lemma LineTosSnoc(ps: seq<Point>, p: Point)
    ensures LineTos(ps + [p]) == LineTos(ps) + [LineTo(p)]
  {
  }

  /**
   * The calls `display` makes: begin a path, move to the first point, a line to
   * each later point in order, set the stroke's width, stroke the path.
   */
  function DisplayOps(s: Stroke): (r: seq<CanvasOp>)
    requires s.Valid()
    ensures |r| == |s.points| + 3
    ensures r[0] == BeginPath && r[1] == MoveTo(s.points[0])
    ensures forall i :: 1 <= i < |s.points| ==> r[i + 1] == LineTo(s.points[i])
    ensures r[|r| - 2] == SetLineWidth(s.thickness) && r[|r| - 1] == StrokePath
  {
    [BeginPath, MoveTo(s.points[0])] + LineTos(s.points[1..]) + [SetLineWidth(s.thickness), StrokePath]
  }

  /** `display(ctx)`: walks the points with a loop; note that it leaves its thickness in `ctx.lineWidth`. */
  method Display(s: Stroke, ctx: Context)
    requires s.Valid()
    modifies ctx
    ensures ctx.ops == old(ctx.ops) + DisplayOps(s)
    ensures ctx.lineWidth == NextLineWidth(old(ctx.lineWidth), s.thickness)
  {
    ctx.BeginPath();
    ctx.MoveTo(s.points[0]);
    ghost var start := ctx.ops;
    for i := 1 to |s.points|
      invariant ctx.ops == start + LineTos(s.points[1..i])
      invariant ctx.lineWidth == old(ctx.lineWidth)
    {
      ctx.LineTo(s.points[i]);
      assert s.points[1..i + 1] == s.points[1..i] + [s.points[i]];
      LineTosSnoc(s.points[1..i], s.points[i]);
    }
    assert s.points[1..|s.points|] == s.points[1..];
    ghost var lines := ctx.ops;
    ctx.SetLineWidth(s.thickness);
    ctx.Stroke();
    assert ctx.ops == lines + [SetLineWidth(s.thickness), StrokePath];
    DisplayOpsSplit(s, old(ctx.ops), lines);
  }

  lemma DisplayOpsSplit(s: Stroke, before: seq<CanvasOp>, lines: seq<CanvasOp>)
    requires s.Valid()
    requires lines == before + [BeginPath, MoveTo(s.points[0])] + LineTos(s.points[1..])
    ensures lines + [SetLineWidth(s.thickness), StrokePath] == before + DisplayOps(s)
  {
  }

  /** The calls made by displaying each stroke of `ss` in order. */
  function DisplayAll(ss: seq<Stroke>): seq<CanvasOp>
    requires AllValid(ss)
  {
    if ss == [] then [] else DisplayOps(ss[0]) + DisplayAll(ss[1..])
  }

  /** Displaying one more stroke appends exactly its calls. */
  lemma {:induction false} DisplayAllSnoc(ss: seq<Stroke>, s: Stroke)
    requires AllValid(ss) && s.Valid()
    ensures AllValid(ss + [s])
    ensures DisplayAll(ss + [s]) == DisplayAll(ss) + DisplayOps(s)
  {
    if ss == [] {
      assert ss + [s] == [s];
      assert [s][1..] == [];
    } else {
      assert (ss + [s])[1..] == ss[1..] + [s];
      DisplayAllSnoc(ss[1..], s);
    }
  }

  /** Reads the longest run of `lineTo` calls at the front of `ops`: their points and what follows. */
  function ReadLines(ops: seq<CanvasOp>): (r: (seq<Point>, seq<CanvasOp>))
    ensures ops == LineTos(r.0) + r.1
    ensures r.1 == [] || !r.1[0].LineTo?
  {
    if ops != [] && ops[0].LineTo? then
      var (ps, rest) := ReadLines(ops[1..]);
      assert LineTos([ops[0].to] + ps) == [ops[0]] + LineTos(ps);
      ([ops[0].to] + ps, rest)
    else
      ([], ops)
  }

  /** Reads one displayed stroke from the front of `ops`, if the calls there have that shape. */
  function ReadStroke(ops: seq<CanvasOp>): (r: Option<(Stroke, seq<CanvasOp>)>)
    ensures r.Some? ==> r.value.0.Valid() && ops == DisplayOps(r.value.0) + r.value.1
  {
    if |ops| >= 2 && ops[0] == BeginPath && ops[1].MoveTo? then
      var (ps, rest) := ReadLines(ops[2..]);
      if |rest| >= 2 && rest[0].SetLineWidth? && rest[1] == StrokePath then
        var s := Stroke([ops[1].to] + ps, rest[0].lineWidth);
        assert s.points[1..] == ps;
        assert ops == [ops[0], ops[1]] + ops[2..];
        assert rest == [rest[0], rest[1]] + rest[2..];
        Some((s, rest[2..]))
      else
        None
    else
      None
  }

  /** Reads a whole trace of `display` calls back into the strokes displayed, in order. */
  function Decode(ops: seq<CanvasOp>): (r: Option<seq<Stroke>>)
    ensures r.Some? ==> AllValid(r.value) && DisplayAll(r.value) == ops
    decreases |ops|
  {
    if ops == [] then Some([])
    else
      match ReadStroke(ops)
      case None => None
      case Some((s, rest)) =>
        match Decode(rest)
        case None => None
        case Some(ss) =>
          assert ([s] + ss)[1..] == ss;
          Some([s] + ss)
  }

  lemma {:induction false} ReadLinesOf(ps: seq<Point>, rest: seq<CanvasOp>)
    requires rest == [] || !rest[0].LineTo?
    ensures ReadLines(LineTos(ps) + rest) == (ps, rest)
    decreases |ps|
  {
    if ps != [] {
      var ops := LineTos(ps) + rest;
      assert ops != [] && ops[0] == LineTo(ps[0]);
      assert ops[1..] == LineTos(ps[1..]) + rest;
      ReadLinesOf(ps[1..], rest);
      assert ReadLines(ops[1..]) == (ps[1..], rest);
      assert [ps[0]] + ps[1..] == ps;
      assert ReadLines(ops) == ([ps[0]] + ps[1..], rest);
    } else {
      assert LineTos(ps) + rest == rest;
    }
  }

  lemma ReadStrokeOf(s: Stroke, rest: seq<CanvasOp>)
    requires s.Valid()
    ensures ReadStroke(DisplayOps(s) + rest) == Some((s, rest))
  {
    var ops := DisplayOps(s) + rest;
    var tail := [SetLineWidth(s.thickness), StrokePath] + rest;
    assert ops[2..] == LineTos(s.points[1..]) + tail;
    ReadLinesOf(s.points[1..], tail);
    assert [s.points[0]] + s.points[1..] == s.points;
    assert tail[2..] == rest;
  }

  /** Displaying strokes in order and reading the trace back gives exactly those strokes. */
  lemma {:induction false} DecodeDisplayAll(ss: seq<Stroke>)
    requires AllValid(ss)
    ensures Decode(DisplayAll(ss)) == Some(ss)
  {
    if ss != [] {
      ReadStrokeOf(ss[0], DisplayAll(ss[1..]));
      DecodeDisplayAll(ss[1..]);
      assert [ss[0]] + ss[1..] == ss;
    }
  }
}
