/**
 * The sketching page as an object: the program's module-level variables become
 * fields, each event listener a method. Every method is proved to take the state
 * to what `History.Step` says and to make on the context exactly the calls
 * `History.Paint` says.
 */
module Sketch {
  import opened Canvas
  import opened Strokes
  import opened History
  import opened Wrappers

  lemma AppendAssoc<T>(a: seq<T>, b: seq<T>, c: seq<T>)
    ensures a + b + c == a + (b + c)
  {
  }

  class Sketchpad {
    /** Committed strokes, oldest first. */
    var strokes: seq<Stroke>
    /** Undone strokes; the last one is the next to come back. */
    var redoStrokes: seq<Stroke>
    /** The stroke between mousedown and mouseup, if any. */
    var currentStroke: Option<Stroke>
    /** The width of the selected Thin/Thick button, which new strokes take. */
    var toolWidth: real
    /** The board's 2D context. */
    const drawing: Context

    function Model(): State
      reads this, drawing
    {
      State(strokes, redoStrokes, currentStroke, drawing.lineWidth, toolWidth)
    }

    predicate Valid()
      reads this, drawing
    {
      Model().Valid()
    }

    constructor ()
      ensures Valid() && Model() == Initial
      ensures fresh(drawing) && drawing.ops == []
    {
      strokes := [];
      redoStrokes := [];
      currentStroke := None;
      toolWidth := DefaultLineWidth;
      drawing := new Context();
    }

    /** `redraw`: clear the board, display the committed strokes in order, then the stroke in progress. */
    method Redraw()
      requires Valid()
      modifies drawing
      ensures Model() == Redrawn(old(Model()))
      ensures drawing.ops == old(drawing.ops) + RedrawOps(old(Model()))
    {
      ghost var w0 := drawing.lineWidth;
      drawing.ClearRect(0, 0, BoardWidth, BoardHeight);
      ghost var start := drawing.ops;
      var committed := strokes;
      assert AllValid(committed);
      for i := 0 to |committed|
        invariant AllValid(committed)
        invariant drawing.ops == start + DisplayAll(committed[..i])
        invariant drawing.lineWidth == WidthAfter(w0, committed[..i])
      {
        assert committed[i] in committed;
        Display(committed[i], drawing);
        AppendAssoc(start, DisplayAll(committed[..i]), DisplayOps(committed[i]));
        DisplayAllSnoc(committed[..i], committed[i]);
        WidthAfterSnoc(w0, committed[..i], committed[i]);
        assert committed[..i + 1] == committed[..i] + [committed[i]];
      }
      assert committed[..|committed|] == committed;
      if currentStroke.Some? {
        Display(currentStroke.value, drawing);
        AppendAssoc(start, DisplayAll(committed), DisplayOps(currentStroke.value));
        DisplayAllSnoc(committed, currentStroke.value);
        WidthAfterSnoc(w0, committed, currentStroke.value);
      } else {
        assert committed + Pending(currentStroke) == committed;
      }
      ghost var shown := committed + Pending(currentStroke);
      assert drawing.ops == start + DisplayAll(shown);
      assert drawing.lineWidth == WidthAfter(w0, shown);
      AppendAssoc(old(drawing.ops), [ClearRect(0, 0, BoardWidth, BoardHeight)], DisplayAll(shown));
    }

    /** mousedown: start a new stroke at the pointer, dropping any stroke in progress, and redraw. */
    method MouseDown(x: real, y: real)
      requires Valid()
      modifies this, drawing
      ensures Valid()
      ensures Model() == Step(old(Model()), Event.MouseDown(x, y))
      ensures drawing.ops == old(drawing.ops) + Paint(old(Model()), Event.MouseDown(x, y))
    {
      currentStroke := Some(DrawCommand(x, y, toolWidth));
      Redraw();
    }

    /** mousemove: with a stroke in progress, drag it to the pointer and redraw; otherwise do nothing. */
    method MouseMove(x: real, y: real)
      requires Valid()
      modifies this, drawing
      ensures Valid()
      ensures Model() == Step(old(Model()), Event.MouseMove(x, y))
      ensures drawing.ops == old(drawing.ops) + Paint(old(Model()), Event.MouseMove(x, y))
    {
      if currentStroke.None? {
        return;
      }
      currentStroke := Some(Drag(currentStroke.value, x, y));
      Redraw();
    }

    /** mouseup: with a stroke in progress, push it onto the committed strokes and redraw. */
    method MouseUp()
      requires Valid()
      modifies this, drawing
      ensures Valid()
      ensures Model() == Step(old(Model()), Event.MouseUp)
      ensures drawing.ops == old(drawing.ops) + Paint(old(Model()), Event.MouseUp)
    {
      if currentStroke.Some? {
        strokes := strokes + [currentStroke.value];
        currentStroke := None;
        Redraw();
      }
    }

    /** The clear button: clear the board and empty both stacks (without a redraw). */
    method Clear()
      requires Valid()
      modifies this, drawing
      ensures Valid()
      ensures Model() == Step(old(Model()), Event.ClearClick)
      ensures drawing.ops == old(drawing.ops) + Paint(old(Model()), Event.ClearClick)
    {
      drawing.ClearRect(0, 0, BoardWidth, BoardHeight);
      strokes := [];
      redoStrokes := [];
    }

    /** `undo`: pop the newest committed stroke onto the redo stack and redraw, if there is one. */
    method Undo()
      requires Valid()
      modifies this, drawing
      ensures Valid()
      ensures Model() == Step(old(Model()), Event.UndoClick)
      ensures drawing.ops == old(drawing.ops) + Paint(old(Model()), Event.UndoClick)
    {
      if |strokes| > 0 {
        var top := strokes[|strokes| - 1];
        strokes := strokes[..|strokes| - 1];
        redoStrokes := redoStrokes + [top];
        Redraw();
      }
    }

    /** `redo`: pop the top of the redo stack back onto the committed strokes and redraw, if there is one. */
    method Redo()
      requires Valid()
      modifies this, drawing
      ensures Valid()
      ensures Model() == Step(old(Model()), Event.RedoClick)
      ensures drawing.ops == old(drawing.ops) + Paint(old(Model()), Event.RedoClick)
    {
      if |redoStrokes| > 0 {
        var top := redoStrokes[|redoStrokes| - 1];
        redoStrokes := redoStrokes[..|redoStrokes| - 1];
        strokes := strokes + [top];
        Redraw();
      }
    }

    /** The Thin button: line width 1. */
    method Thin()
      requires Valid()
      modifies this, drawing
      ensures Valid()
      ensures Model() == Step(old(Model()), Event.ThinClick)
      ensures drawing.ops == old(drawing.ops) + Paint(old(Model()), Event.ThinClick)
    {
      drawing.SetLineWidth(ThinWidth);
      toolWidth := ThinWidth;
    }

    /** The Thick button: line width 5. */
    method Thick()
      requires Valid()
      modifies this, drawing
      ensures Valid()
      ensures Model() == Step(old(Model()), Event.ThickClick)
      ensures drawing.ops == old(drawing.ops) + Paint(old(Model()), Event.ThickClick)
    {
      drawing.SetLineWidth(ThickWidth);
      toolWidth := ThickWidth;
    }
  }
}
