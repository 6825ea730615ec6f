/**
 * The sketch engine as values: its whole state, one function per event handler,
 * and what each handler paints. The class in module Sketch is proved against these
 * functions; the lemmas here state what the handlers do over sequences of events.
 *
 * Stacks are sequences whose LAST element is the top, as with `push`/`pop` on a
 * JavaScript array: `strokes` is oldest first, `redoStrokes` has the most recently
 * undone stroke last.
 */
module History {
  import opened Canvas
  import opened Strokes
  import opened Wrappers

  /** The widths the Thin and Thick buttons select. */
  const ThinWidth: real := 1.0
  const ThickWidth: real := 5.0

  /** The inputs the handlers react to; mouse coordinates are already relative to the board. */
  datatype Event =
    | MouseDown(x: real, y: real)
    | MouseMove(x: real, y: real)
    | MouseUp
    | ClearClick
    | UndoClick
    | RedoClick
    | ThinClick
    | ThickClick

  /**
   * strokes, redoStrokes and current are the program's three variables; lineWidth is
   * the drawing context's line width, and tool the width of the selected Thin/Thick
   * button (the canvas default before either is pressed).
   */
  datatype State = State(
    strokes: seq<Stroke>,
    redoStrokes: seq<Stroke>,
    current: Option<Stroke>,
    lineWidth: real,
    tool: real)
  {
    predicate Valid() {
      AllValid(strokes) && AllValid(redoStrokes) && (current.Some? ==> current.value.Valid())
    }
  }

  /** The state when the page has loaded: nothing drawn, nothing undone, no stroke in progress. */
  const Initial: State := State([], [], None, DefaultLineWidth, DefaultLineWidth)

  function Last(s: seq<Stroke>): Stroke
    requires |s| > 0
  {
    s[|s| - 1]
  }

  function Pending(current: Option<Stroke>): seq<Stroke> {
    if current.Some? then [current.value] else []
  }

  /** What `redraw` displays, bottom layer first: the committed strokes in order, then the stroke in progress. */
  function Shown(st: State): (r: seq<Stroke>)
    ensures |r| == |st.strokes| + |Pending(st.current)|
    ensures r[..|st.strokes|] == st.strokes
    ensures st.current.Some? ==> r[|r| - 1] == st.current.value
    ensures st.Valid() ==> AllValid(r)
  {
    st.strokes + Pending(st.current)
  }

  /** The context's line width after displaying `ss` in order, starting from `w`: the last stroke with a positive width wins. */
  function WidthAfter(w: real, ss: seq<Stroke>): (r: real)
    ensures ss == [] ==> r == w
    ensures ss != [] && Last(ss).thickness > 0.0 ==> r == Last(ss).thickness
    ensures w > 0.0 ==> r > 0.0
  {
    if ss == [] then w else NextLineWidth(WidthAfter(w, ss[..|ss| - 1]), Last(ss).thickness)
  }

  lemma WidthAfterSnoc(w: real, ss: seq<Stroke>, s: Stroke)
    ensures WidthAfter(w, ss + [s]) == NextLineWidth(WidthAfter(w, ss), s.thickness)
  {
  }

  /**
   * What `redraw` leaves behind in the state: `display` has overwritten the context's
   * line width with the width of the last stroke shown; with nothing shown it is kept.
   */
  function Redrawn(st: State): (r: State)
    ensures r.strokes == st.strokes && r.redoStrokes == st.redoStrokes
    ensures r.current == st.current && r.tool == st.tool
    ensures Shown(st) == [] ==> r.lineWidth == st.lineWidth
    ensures Shown(st) != [] && Last(Shown(st)).thickness > 0.0 ==> r.lineWidth == Last(Shown(st)).thickness
    ensures st.lineWidth > 0.0 ==> r.lineWidth > 0.0
  {
    st.(lineWidth := WidthAfter(st.lineWidth, Shown(st)))
  }

  /** The calls `redraw` makes: clear the whole board, then display everything shown in order. */
  function RedrawOps(st: State): seq<CanvasOp>
    requires st.Valid()
  {
    [ClearRect(0, 0, BoardWidth, BoardHeight)] + DisplayAll(Shown(st))
  }

  /**
   * mousedown: a new stroke seeded at the pointer with width `w` replaces the stroke
   * in progress, which is dropped, not committed; the stacks are untouched.
   */
  function Down(st: State, x: real, y: real, w: real): (r: State)
    ensures r.current == Some(DrawCommand(x, y, w))
    ensures r.strokes == st.strokes && r.redoStrokes == st.redoStrokes && r.tool == st.tool
    ensures w > 0.0 ==> r.lineWidth == w
  {
    Redrawn(st.(current := Some(DrawCommand(x, y, w))))
  }

  /**
   * mousemove: with no stroke in progress nothing happens; otherwise that stroke grows,
   * the stacks are kept, and the redraw leaves the stroke's width in `lineWidth`.
   */
  function Move(st: State, x: real, y: real): (r: State)
    ensures st.current.None? ==> r == st
    ensures st.current.Some? ==> r.current == Some(Drag(st.current.value, x, y))
    ensures r.strokes == st.strokes && r.redoStrokes == st.redoStrokes && r.tool == st.tool
    ensures st.current.Some? && st.current.value.thickness > 0.0 ==> r.lineWidth == st.current.value.thickness
  {
    if st.current.None? then st
    else Redrawn(st.(current := Some(Drag(st.current.value, x, y))))
  }

  /**
   * mouseup: commits the stroke in progress on top of `strokes`; the redo stack is kept,
   * and the redraw leaves the committed stroke's width in `lineWidth`.
   */
  function Up(st: State): (r: State)
    ensures st.current.None? ==> r == st
    ensures st.current.Some? ==> r.strokes == st.strokes + [st.current.value] && r.current.None?
    ensures r.redoStrokes == st.redoStrokes && r.tool == st.tool
    ensures st.current.Some? && st.current.value.thickness > 0.0 ==> r.lineWidth == st.current.value.thickness
  {
    if st.current.None? then st
    else Redrawn(st.(strokes := st.strokes + [st.current.value], current := None))
  }

  /** The clear button: both stacks emptied; the stroke in progress and both widths kept. */
  function Clear(st: State): (r: State)
    ensures r.strokes == [] && r.redoStrokes == []
    ensures r.current == st.current && r.lineWidth == st.lineWidth && r.tool == st.tool
  {
    st.(strokes := [], redoStrokes := [])
  }

  /** undo: moves the newest committed stroke onto the redo stack; a no-op with nothing committed. */
  function Undo(st: State): (r: State)
    ensures |st.strokes| == 0 ==> r == st
    ensures |st.strokes| > 0 ==>
      r.strokes + [Last(st.strokes)] == st.strokes &&
      r.redoStrokes == st.redoStrokes + [Last(st.strokes)]
    ensures |r.strokes| + |r.redoStrokes| == |st.strokes| + |st.redoStrokes|
    ensures multiset(r.strokes) + multiset(r.redoStrokes) == multiset(st.strokes) + multiset(st.redoStrokes)
    ensures r.current == st.current && r.tool == st.tool
    ensures Positive(st) && |st.strokes| > 0 && Shown(r) != [] ==> r.lineWidth == Last(Shown(r)).thickness
  {
    if |st.strokes| == 0 then st
    else
      var top := Last(st.strokes);
      var rest := st.strokes[..|st.strokes| - 1];
      assert rest + [top] == st.strokes;
      Redrawn(st.(strokes := rest, redoStrokes := st.redoStrokes + [top]))
  }

  /** redo: moves the top of the redo stack back on top of `strokes`; a no-op with nothing undone. */
  function Redo(st: State): (r: State)
    ensures |st.redoStrokes| == 0 ==> r == st
    ensures |st.redoStrokes| > 0 ==>
      r.strokes == st.strokes + [Last(st.redoStrokes)] &&
      r.redoStrokes + [Last(st.redoStrokes)] == st.redoStrokes
    ensures |r.strokes| + |r.redoStrokes| == |st.strokes| + |st.redoStrokes|
    ensures multiset(r.strokes) + multiset(r.redoStrokes) == multiset(st.strokes) + multiset(st.redoStrokes)
    ensures r.current == st.current && r.tool == st.tool
    ensures Positive(st) && |st.redoStrokes| > 0 ==> r.lineWidth == Last(Shown(r)).thickness
  {
    if |st.redoStrokes| == 0 then st
    else
      var top := Last(st.redoStrokes);
      var rest := st.redoStrokes[..|st.redoStrokes| - 1];
      assert rest + [top] == st.redoStrokes;
      Redrawn(st.(strokes := st.strokes + [top], redoStrokes := rest))
  }

  /** The Thin and Thick buttons: set the context's line width (and select that button). */
  function SelectWidth(st: State, w: real): (r: State)
    ensures r.lineWidth == w && r.tool == w
    ensures r.strokes == st.strokes && r.redoStrokes == st.redoStrokes && r.current == st.current
  {
    st.(lineWidth := w, tool := w)
  }

  /**
   * One event, with the fix of the Findings applied: a new stroke takes the width of
   * the selected button, not whatever width the last `display` left in the context.
   */
  function Step(st: State, e: Event): (r: State)
    ensures st.Valid() ==> r.Valid()
  {
    match e
    case MouseDown(x, y) => Down(st, x, y, st.tool)
    case MouseMove(x, y) => Move(st, x, y)
    case MouseUp => Up(st)
    case ClearClick => Clear(st)
    case UndoClick => Undo(st)
    case RedoClick => Redo(st)
    case ThinClick => SelectWidth(st, ThinWidth)
    case ThickClick => SelectWidth(st, ThickWidth)
  }

  /** One event as the program is written: mousedown reads the context's current line width. */
  function StepAsWritten(st: State, e: Event): (r: State)
    ensures st.Valid() ==> r.Valid()
    ensures !e.MouseDown? ==> r == Step(st, e)
    ensures e.MouseDown? ==> r.current == Some(DrawCommand(e.x, e.y, st.lineWidth))
  {
    match e
    case MouseDown(x, y) => Down(st, x, y, st.lineWidth)
    case _ => Step(st, e)
  }

  /** Whether the handler for `e` calls `redraw` in state `st`. */
  predicate Redraws(st: State, e: Event) {
    match e
    case MouseDown(_, _) => true
    case MouseMove(_, _) => st.current.Some?
    case MouseUp => st.current.Some?
    case UndoClick => |st.strokes| > 0
    case RedoClick => |st.redoStrokes| > 0
    case _ => false
  }

  /**
   * The calls the handler for `e` makes on the context. When it redraws, the board is
   * cleared and then shows exactly the committed strokes in order with the stroke in
   * progress on top; the clear button only clears the board, and Thin and Thick only
   * set the line width.
   */
  function Paint(st: State, e: Event): (r: seq<CanvasOp>)
    requires st.Valid()
    ensures Redraws(st, e) ==>
      |r| > 0 && r[0] == ClearRect(0, 0, BoardWidth, BoardHeight) &&
      Decode(r[1..]) == Some(Step(st, e).strokes + Pending(Step(st, e).current))
    ensures e == ClearClick ==> r == [ClearRect(0, 0, BoardWidth, BoardHeight)]
    ensures e == ThinClick ==> r == [SetLineWidth(ThinWidth)]
    ensures e == ThickClick ==> r == [SetLineWidth(ThickWidth)]
    ensures !Redraws(st, e) && !e.ClearClick? && !e.ThinClick? && !e.ThickClick? ==> r == []
  {
    if Redraws(st, e) then
      RedrawLayers(Step(st, e));
      RedrawOps(Step(st, e))
    else
      match e
      case ClearClick => [ClearRect(0, 0, BoardWidth, BoardHeight)]
      case ThinClick => [SetLineWidth(ThinWidth)]
      case ThickClick => [SetLineWidth(ThickWidth)]
      case _ => []
  }

  /** A redraw clears the board, then displays every committed stroke in order, then the stroke in progress. */
  lemma RedrawLayers(st: State)
    requires st.Valid()
    ensures RedrawOps(st)[0] == ClearRect(0, 0, BoardWidth, BoardHeight)
    ensures Decode(RedrawOps(st)[1..]) == Some(st.strokes + Pending(st.current))
  {
    DecodeDisplayAll(Shown(st));
    assert RedrawOps(st)[1..] == DisplayAll(Shown(st));
  }

  /** The state after the events `es`, one after the other. */
  function Run(st: State, es: seq<Event>): State
    decreases |es|
  {
    if es == [] then st else Run(Step(st, es[0]), es[1..])
  }

  function RunAsWritten(st: State, es: seq<Event>): State
    decreases |es|
  {
    if es == [] then st else RunAsWritten(StepAsWritten(st, es[0]), es[1..])
  }

  lemma {:induction false} RunAppend(st: State, a: seq<Event>, b: seq<Event>)
    ensures Run(st, a + b) == Run(Run(st, a), b)
    decreases |a|
  {
    if a == [] {
      assert a + b == b;
    } else {
      assert (a + b)[1..] == a[1..] + b;
      RunAppend(Step(st, a[0]), a[1..], b);
    }
  }

  lemma RunSnoc(st: State, es: seq<Event>, e: Event)
    ensures Run(st, es + [e]) == Step(Run(st, es), e)
  {
    RunAppend(st, es, [e]);
  }

  /** Every reachable state is well formed: each stroke, committed, undone or in progress, has a point. */
  lemma {:induction false} RunKeepsValid(st: State, es: seq<Event>)
    requires st.Valid()
    ensures Run(st, es).Valid() && RunAsWritten(st, es).Valid()
    decreases |es|
  {
    if es != [] {
      RunKeepsValid(Step(st, es[0]), es[1..]);
      RunKeepsValid(StepAsWritten(st, es[0]), es[1..]);
    }
  }

  /** Undo followed by redo gives back both stacks exactly, and the stroke in progress. */
  lemma UndoRedo(st: State)
    requires |st.strokes| > 0
    ensures Redo(Undo(st)).strokes == st.strokes
    ensures Redo(Undo(st)).redoStrokes == st.redoStrokes
    ensures Redo(Undo(st)).current == st.current
  {
  }

  /** Redo followed by undo gives back both stacks exactly, and the stroke in progress. */
  lemma RedoUndo(st: State)
    requires |st.redoStrokes| > 0
    ensures Undo(Redo(st)).strokes == st.strokes
    ensures Undo(Redo(st)).redoStrokes == st.redoStrokes
    ensures Undo(Redo(st)).current == st.current
  {
  }

  /**
   * Only mouseup (which adds the stroke in progress) and clear (which empties both
   * stacks) change which strokes are in the history; every other event keeps the
   * multiset of committed and undone strokes together.
   */
  lemma StepKeepsHistory(st: State, e: Event)
    requires !e.MouseUp? && !e.ClearClick?
    ensures multiset(Step(st, e).strokes) + multiset(Step(st, e).redoStrokes)
         == multiset(st.strokes) + multiset(st.redoStrokes)
    ensures multiset(StepAsWritten(st, e).strokes) + multiset(StepAsWritten(st, e).redoStrokes)
         == multiset(st.strokes) + multiset(st.redoStrokes)
  {
  }

  /** A new stroke does not discard the redo stack: a stroke undone before it stays on the redo stack. */
  lemma NewStrokeKeepsRedo(st: State, x: real, y: real)
    requires |st.strokes| > 0
    ensures Run(st, [UndoClick, MouseDown(x, y), MouseUp]).redoStrokes == st.redoStrokes + [Last(st.strokes)]
  {
    var u := Undo(st);
    var d := Down(u, x, y, u.tool);
    var es := [UndoClick, MouseDown(x, y), MouseUp];
    assert es[1..][1..][1..] == [];
    assert Run(st, es) == Run(u, es[1..]);
    assert Run(u, es[1..]) == Run(d, es[1..][1..]);
    assert Run(d, es[1..][1..]) == Up(d);
  }

  /** The same in the program as written. */
  lemma NewStrokeKeepsRedoAsWritten(st: State, x: real, y: real)
    requires |st.strokes| > 0
    ensures RunAsWritten(st, [UndoClick, MouseDown(x, y), MouseUp]).redoStrokes == st.redoStrokes + [Last(st.strokes)]
  {
    var u := Undo(st);
    var d := Down(u, x, y, u.lineWidth);
    var es := [UndoClick, MouseDown(x, y), MouseUp];
    assert es[1..][1..][1..] == [];
    assert RunAsWritten(st, es) == RunAsWritten(u, es[1..]);
    assert RunAsWritten(u, es[1..]) == RunAsWritten(d, es[1..][1..]);
    assert RunAsWritten(d, es[1..][1..]) == Up(d);
  }

  /** One mousemove per point. */
  function Moves(ps: seq<Point>): (r: seq<Event>)
    ensures |r| == |ps|
    ensures forall i :: 0 <= i < |ps| ==> r[i] == MouseMove(ps[i].x, ps[i].y)
  {
    if ps == [] then [] else [MouseMove(ps[0].x, ps[0].y)] + Moves(ps[1..])
  }

  /**
   * Moving the pointer through `ps` during a stroke drags the stroke through `ps` and
   * keeps the stacks and the selected width; the redraws leave the stroke's width in
   * `lineWidth`, which is kept when there is no move.
   */
  lemma {:induction false} MovesDrag(st: State, ps: seq<Point>)
    requires st.current.Some?
    ensures Run(st, Moves(ps)).current == Some(DragAll(st.current.value, ps))
    ensures Run(st, Moves(ps)).strokes == st.strokes
    ensures Run(st, Moves(ps)).redoStrokes == st.redoStrokes
    ensures Run(st, Moves(ps)).tool == st.tool
    ensures ps == [] ==> Run(st, Moves(ps)).lineWidth == st.lineWidth
    ensures ps != [] && st.current.value.thickness > 0.0 ==> Run(st, Moves(ps)).lineWidth == st.current.value.thickness
    decreases |ps|
  {
    if ps != [] {
      MovesDrag(Move(st, ps[0].x, ps[0].y), ps[1..]);
    }
  }

  /**
   * A whole gesture — mousedown at (x, y), a mousemove through each point of `ps`,
   * mouseup — commits one stroke on top of `strokes` whose points are exactly (x, y)
   * followed by `ps`, with the selected width; the redo stack is left as it was.
   */
  lemma Gesture(st: State, x: real, y: real, ps: seq<Point>)
    ensures Run(st, [MouseDown(x, y)] + Moves(ps) + [MouseUp]).strokes
         == st.strokes + [Stroke([Point(x, y)] + ps, st.tool)]
    ensures Run(st, [MouseDown(x, y)] + Moves(ps) + [MouseUp]).redoStrokes == st.redoStrokes
    ensures Run(st, [MouseDown(x, y)] + Moves(ps) + [MouseUp]).current.None?
  {
    var down := Step(st, MouseDown(x, y));
    RunAppend(st, [MouseDown(x, y)] + Moves(ps), [MouseUp]);
    RunAppend(st, [MouseDown(x, y)], Moves(ps));
    assert Run(st, [MouseDown(x, y)]) == down;
    MovesDrag(down, ps);
    DragAllAppends(DrawCommand(x, y, st.tool), ps);
  }

  lemma {:induction false} RunAsWrittenAppend(st: State, a: seq<Event>, b: seq<Event>)
    ensures RunAsWritten(st, a + b) == RunAsWritten(RunAsWritten(st, a), b)
    decreases |a|
  {
    if a == [] {
      assert a + b == b;
    } else {
      assert (a + b)[1..] == a[1..] + b;
      RunAsWrittenAppend(StepAsWritten(st, a[0]), a[1..], b);
    }
  }

  /** Mousemoves behave the same in the program as written and with the fix. */
  lemma {:induction false} MovesAsWritten(st: State, ps: seq<Point>)
    ensures RunAsWritten(st, Moves(ps)) == Run(st, Moves(ps))
    decreases |ps|
  {
    if ps != [] {
      MovesAsWritten(Step(st, Moves(ps)[0]), ps[1..]);
    }
  }

  /**
   * The same gesture in the program as written: the committed stroke has the width the
   * context held at mousedown, which is the width of the last button pressed only if no
   * redraw has changed it since.
   */
  lemma GestureAsWritten(st: State, x: real, y: real, ps: seq<Point>)
    ensures RunAsWritten(st, [MouseDown(x, y)] + Moves(ps) + [MouseUp]).strokes
         == st.strokes + [Stroke([Point(x, y)] + ps, st.lineWidth)]
    ensures RunAsWritten(st, [MouseDown(x, y)] + Moves(ps) + [MouseUp]).redoStrokes == st.redoStrokes
    ensures RunAsWritten(st, [MouseDown(x, y)] + Moves(ps) + [MouseUp]).current.None?
  {
    var down := StepAsWritten(st, MouseDown(x, y));
    RunAsWrittenAppend(st, [MouseDown(x, y)] + Moves(ps), [MouseUp]);
    RunAsWrittenAppend(st, [MouseDown(x, y)], Moves(ps));
    assert RunAsWritten(st, [MouseDown(x, y)]) == down;
    MovesAsWritten(down, ps);
    MovesDrag(down, ps);
    DragAllAppends(DrawCommand(x, y, st.lineWidth), ps);
    assert RunAsWritten(down, Moves(ps)).current.Some?;
  }

  /** Every width the program ever handles: the context's, the selected one and each stroke's. */
  predicate Positive(st: State) {
    && st.lineWidth > 0.0
    && st.tool > 0.0
    && (forall s :: s in st.strokes ==> s.thickness > 0.0)
    && (forall s :: s in st.redoStrokes ==> s.thickness > 0.0)
    && (st.current.Some? ==> st.current.value.thickness > 0.0)
  }

  /** Widths stay positive on every event, as written and with the fix. */
  lemma StepKeepsPositive(st: State, e: Event)
    requires Positive(st)
    ensures Positive(Step(st, e)) && Positive(StepAsWritten(st, e))
  {
  }

  /**
   * From the loaded page, every width stays positive, so the canvas never ignores the
   * `lineWidth = thickness` of `display`: each display leaves exactly its stroke's width.
   */
  lemma {:induction false} RunKeepsPositive(st: State, es: seq<Event>)
    requires Positive(st)
    ensures Positive(Run(st, es)) && Positive(RunAsWritten(st, es))
    decreases |es|
  {
    if es != [] {
      StepKeepsPositive(st, es[0]);
      RunKeepsPositive(Step(st, es[0]), es[1..]);
      RunKeepsPositive(StepAsWritten(st, es[0]), es[1..]);
    }
  }

  /** In every state the page can reach, every width is positive. */
  lemma ReachablePositive(es: seq<Event>)
    ensures Positive(Run(Initial, es)) && Positive(RunAsWritten(Initial, es))
  {
    RunKeepsPositive(Initial, es);
  }

  /** The width of the last Thin/Thick button pressed in `es`, or `w` if neither was. */
  function SelectedWidth(w: real, es: seq<Event>): real {
    if es == [] then w
    else match es[|es| - 1]
      case ThinClick => ThinWidth
      case ThickClick => ThickWidth
      case _ => SelectedWidth(w, es[..|es| - 1])
  }

  /** The selected width always follows the buttons, as written and with the fix: it is the last selected width. */
  lemma {:induction false} ToolIsSelected(st: State, es: seq<Event>)
    ensures Run(st, es).tool == SelectedWidth(st.tool, es)
    ensures RunAsWritten(st, es).tool == SelectedWidth(st.tool, es)
    decreases |es|
  {
    if es != [] {
      var init := es[..|es| - 1];
      assert init + [es[|es| - 1]] == es;
      RunSnoc(st, init, es[|es| - 1]);
      RunAsWrittenSnoc(st, init, es[|es| - 1]);
      ToolIsSelected(st, init);
    }
  }

  /** With the fix: a stroke started after any events has the width of the last Thin/Thick pressed (1 before either). */
  lemma NewStrokeUsesSelectedWidth(es: seq<Event>, x: real, y: real)
    ensures Run(Initial, es + [MouseDown(x, y)]).current == Some(DrawCommand(x, y, SelectedWidth(DefaultLineWidth, es)))
  {
    RunSnoc(Initial, es, MouseDown(x, y));
    ToolIsSelected(Initial, es);
  }

  /** The events of the finding: a thin stroke, Thick, a thick stroke, undo, then a new stroke at (2, 2). */
  function ThickThenUndo(): seq<Event> {
    [ThinClick, MouseDown(0.0, 0.0), MouseUp, ThickClick, MouseDown(1.0, 1.0), MouseUp, UndoClick, MouseDown(2.0, 2.0)]
  }

  /** The states the program goes through for the first seven events of ThickThenUndo. */
  function Trace(k: nat): State
    requires k <= 7
  {
    var a := DrawCommand(0.0, 0.0, ThinWidth);
    var b := DrawCommand(1.0, 1.0, ThickWidth);
    if k == 0 then Initial
    else if k == 1 then State([], [], None, ThinWidth, ThinWidth)
    else if k == 2 then State([], [], Some(a), ThinWidth, ThinWidth)
    else if k == 3 then State([a], [], None, ThinWidth, ThinWidth)
    else if k == 4 then State([a], [], None, ThickWidth, ThickWidth)
    else if k == 5 then State([a], [], Some(b), ThickWidth, ThickWidth)
    else if k == 6 then State([a, b], [], None, ThickWidth, ThickWidth)
    else State([a], [b], None, ThinWidth, ThickWidth)
  }

  /** Each of the first seven events, as written, takes Trace(k) to Trace(k + 1). */
  lemma TraceStep(k: nat)
    requires k < 7
    ensures StepAsWritten(Trace(k), ThickThenUndo()[k]) == Trace(k + 1)
  {
    var a := DrawCommand(0.0, 0.0, ThinWidth);
    var b := DrawCommand(1.0, 1.0, ThickWidth);
    if k == 1 {
      assert Shown(Trace(2)) == [a];
    } else if k == 2 {
      assert Shown(Trace(3)) == [a];
    } else if k == 4 {
      assert Shown(Trace(5)) == [a, b];
    } else if k == 5 {
      assert Shown(Trace(6)) == [a, b];
    } else if k == 6 {
      assert [a, b][..1] == [a] && Shown(Trace(7)) == [a];
    }
  }

  lemma {:induction false} TraceRun(k: nat)
    requires k <= 7
    ensures RunAsWritten(Initial, ThickThenUndo()[..k]) == Trace(k)
  {
    if k > 0 {
      TraceRun(k - 1);
      assert ThickThenUndo()[..k] == ThickThenUndo()[..k - 1] + [ThickThenUndo()[k - 1]];
      RunAsWrittenSnoc(Initial, ThickThenUndo()[..k - 1], ThickThenUndo()[k - 1]);
      TraceStep(k - 1);
    }
  }

  lemma {:induction false} RunAsWrittenSnoc(st: State, es: seq<Event>, e: Event)
    ensures RunAsWritten(st, es + [e]) == StepAsWritten(RunAsWritten(st, es), e)
    decreases |es|
  {
    if es == [] {
      assert es + [e] == [e];
    } else {
      assert (es + [e])[1..] == es[1..] + [e];
      RunAsWrittenSnoc(StepAsWritten(st, es[0]), es[1..], e);
    }
  }

  /** Thick is the last width button pressed before the final mousedown. */
  lemma ThickSelected()
    ensures SelectedWidth(DefaultLineWidth, ThickThenUndo()[..7]) == ThickWidth
  {
    TraceRun(7);
    ToolIsSelected(Initial, ThickThenUndo()[..7]);
  }

  /**
   * As written, undo redraws the remaining thin stroke, which leaves width 1 in the
   * context, so the next stroke is thin although Thick is the selected button; with
   * the fix it is thick.
   */
  lemma ThickLostAfterUndo()
    ensures SelectedWidth(DefaultLineWidth, ThickThenUndo()[..7]) == ThickWidth
    ensures RunAsWritten(Initial, ThickThenUndo()).current == Some(DrawCommand(2.0, 2.0, ThinWidth))
    ensures Run(Initial, ThickThenUndo()).current == Some(DrawCommand(2.0, 2.0, ThickWidth))
  {
    var es := ThickThenUndo();
    assert es[..7] + [MouseDown(2.0, 2.0)] == es;
    ThickSelected();
    TraceRun(7);
    RunAsWrittenSnoc(Initial, es[..7], MouseDown(2.0, 2.0));
    NewStrokeUsesSelectedWidth(es[..7], 2.0, 2.0);
  }
}
