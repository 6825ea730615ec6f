# Sketching: stroke history engine

A Dafny model of the drawing engine of the Sketching page (`src/main.ts`). The page
has a 256 × 256 canvas. Pressing the mouse starts a stroke (a drawing command holding
the points it was dragged through and a line width). Moving the mouse drags the
stroke. Releasing the mouse commits it to the `strokes` stack. Undo and redo move
strokes between `strokes` and `redoStrokes`. Clear empties both stacks. Thin and Thick
set the line width (1 or 5). Pressing the mouse, dragging a stroke in progress,
releasing it, and an undo or redo that moves a stroke all call `redraw`. It clears the
board, displays the committed strokes in order, and displays the stroke in progress
on top. Clear only clears the board. Thin and Thick only set the line width. A
mousemove, mouseup, undo or redo with nothing to act on draws nothing.

Modules:

- `Canvas`: the 2D context as a class with the shared `lineWidth` and a trace `ops` of
  the calls made on it (clear a rectangle, begin a path, move to, line to, set line
  width, stroke). Pixels are not modelled. A set of `lineWidth` to zero or a negative
  value is ignored, following the HTML canvas rules.
- `Strokes`: the drawing command as a value (`DrawCommand`, `Drag`, `Display` with
  its loop). `Decode` reads a trace back into the strokes displayed, and
  `DecodeDisplayAll` proves that displaying strokes in order and reading the trace
  back gives exactly those strokes.
- `History`: the whole page state as a value, and one function per handler. `Step`
  (and `StepAsWritten`, see Findings) folds them into one event step. `Paint` gives
  the context calls each handler makes. The lemmas cover undo/redo round trips,
  gestures, and the Thin/Thick selection.
- `Sketch`: the page as a class `Sketchpad`. Its fields are `strokes`,
  `redoStrokes`, `currentStroke`, `toolWidth` and the context `drawing`. There is one
  method per listener. Each method is proved to move `Model()` by `History.Step` and
  to append `History.Paint` to the context's trace.

Stacks are sequences whose last element is the top, as with JavaScript's
`push`/`pop`. Coordinates are `real`s, already relative to the board.

Behaviours worth noting:
- Starting or committing a stroke does not discard the redo stack (`NewStrokeKeepsRedo`,
  `NewStrokeKeepsRedoAsWritten`).
- Clear does not cancel the stroke in progress, and it does not redraw.
- Pressing the mouse again while a stroke is in progress drops that stroke without
  committing it.
- There are no sticker marks and no hover preview.

## Model

| member | source | states |
|---|---|---|
| Canvas.NextLineWidth | src/main.ts:45 | the assignment `ctx.lineWidth = thickness` under the canvas rule that ignores non-positive widths; a positive width stays positive (see `History.ReachablePositive`, which shows the ignored case never arises here) |
| Canvas.Context.SetLineWidth | src/main.ts:45 | records the call and updates the shared `lineWidth` that later mousedowns read |
| Strokes.DrawCommand | src/main.ts:31-37 | a new stroke holds exactly one point, (firstX, firstY), and the thickness it was given |
| Strokes.Drag | src/main.ts:48-50 | `drag` adds (x, y) as the new last point; every earlier point and the thickness are unchanged |
| Strokes.DragAllAppends | src/main.ts:48-50 | dragging through a list of points appends exactly that list, in order, with the thickness kept |
| Strokes.LineTos | src/main.ts:42-44 | one `lineTo` per point, the i-th to the i-th point |
| Strokes.DisplayOps | src/main.ts:39-47 | `display` begins a path, moves to the first point, draws a line to each later point in order, sets the stroke's width, then strokes |
| Strokes.Display | src/main.ts:39-47 | the loop makes exactly the calls of `DisplayOps` and leaves the stroke's thickness in the context's `lineWidth` |
| Strokes.DisplayAllSnoc | src/main.ts:57-59 | displaying one more stroke appends exactly its calls to the trace |
| Strokes.ReadLines | src/main.ts:42-44 | not code of the program: reads back the `lineTo` calls lines 42-44 make, splitting a trace into its leading `lineTo` points and a rest that does not start with a `lineTo` |
| Strokes.ReadStroke | src/main.ts:39-47 | not code of the program: reads back the calls lines 39-47 make; a stroke read from the front of a trace is non-empty, and the trace is exactly that stroke's display calls followed by the rest |
| Strokes.Decode | src/main.ts:55-63 | not code of the program: reads back a whole redraw's display calls; strokes read back from a trace are non-empty and display to exactly that trace |
| Strokes.DecodeDisplayAll | src/main.ts:57-62 | reading back the display calls of any strokes gives exactly those strokes, in order: nothing lost, reordered or added |
| History.Shown | src/main.ts:57-62 | redraw shows the committed strokes in order, then the stroke in progress last |
| History.WidthAfter | src/main.ts:45 | after displaying strokes in order the context holds the last stroke's (positive) thickness; with none displayed it keeps its width; a positive width stays positive |
| History.Redrawn | src/main.ts:55-63 | redraw changes no stroke, stack or stroke in progress; it leaves the last shown stroke's width in the context's `lineWidth` (through line 45), or keeps the width when nothing is shown |
| History.Down | src/main.ts:66-71 | mousedown replaces any stroke in progress with a new one-point stroke and commits nothing; both stacks are untouched; a positive stroke width also becomes the context's line width |
| History.Move | src/main.ts:73-79 | mousemove with no stroke in progress changes nothing; otherwise the stroke in progress is dragged, both stacks and the selected width are kept, and the redraw leaves the stroke's (positive) width in `lineWidth` |
| History.Up | src/main.ts:80-86 | mouseup with a stroke in progress pushes it on top of `strokes` and clears it; with none, nothing changes; `redoStrokes` is never touched; the redraw leaves the committed stroke's (positive) width in `lineWidth` |
| History.Clear | src/main.ts:95-99 | both stacks become empty; the stroke in progress and the widths are kept |
| History.Undo | src/main.ts:110-115 | the top of `strokes` moves to the top of `redoStrokes`; a no-op when `strokes` is empty; total count and multiset of both stacks preserved; when all widths are positive and a stroke remains shown, the redraw leaves that last shown stroke's width in the context's line width |
| History.Redo | src/main.ts:118-123 | the top of `redoStrokes` moves to the top of `strokes`; a no-op when `redoStrokes` is empty; total count and multiset preserved; when all widths are positive, the redraw leaves the last shown stroke's width in the context's line width |
| History.SelectWidth | src/main.ts:145-158 | Thin and Thick set the line width (1 or 5) and nothing else in the history |
| History.Step | src/main.ts:66-158 | every event keeps the state well formed: every stroke anywhere has at least one point |
| History.StepAsWritten | src/main.ts:69 | as written, mousedown seeds the new stroke with the context's current `lineWidth`; every other event is as in `Step` |
| History.Paint | src/main.ts:55-63 | a redrawing handler clears the board and then displays exactly the committed strokes in order with the stroke in progress on top; clear only clears; Thin/Thick only set the width; the rest draw nothing |
| History.RedrawLayers | src/main.ts:55-63 | a redraw's trace is a full-board clear followed by the display of `strokes` in order and then `currentStroke` |
| History.RunKeepsValid | src/main.ts:31-50 | as written and with the fix: after any sequence of events every stroke, committed, undone or in progress, still has its first point |
| History.UndoRedo | src/main.ts:110-123 | undo then redo, from non-empty `strokes`, restores both stacks and the stroke in progress exactly |
| History.RedoUndo | src/main.ts:110-123 | redo then undo, from non-empty `redoStrokes`, restores both stacks and the stroke in progress exactly |
| History.StepKeepsHistory | src/main.ts:66-158 | as written and with the fix: every event except mouseup and clear keeps the multiset of strokes in both stacks |
| History.NewStrokeKeepsRedo | src/main.ts:80-86 | with the fix: undo, then a new stroke, leaves the undone stroke on top of `redoStrokes` |
| History.NewStrokeKeepsRedoAsWritten | src/main.ts:80-86 | as written: undo, then a new stroke, leaves the undone stroke on top of `redoStrokes` |
| History.MovesDrag | src/main.ts:73-79 | mousemoves during a stroke drag it through exactly those points and keep both stacks and the selected width; after at least one move the redraws leave the stroke's (positive) width in `lineWidth`, and with no move it is kept |
| History.Gesture | src/main.ts:66-86 | with the fix: mousedown at (x, y), moves through ps, mouseup commits one stroke with points (x, y) then ps and the selected width; `redoStrokes` unchanged |
| History.MovesAsWritten | src/main.ts:73-79 | mousemoves do the same in the program as written and with the fix |
| History.GestureAsWritten | src/main.ts:66-86 | as written: the same gesture commits one stroke with points (x, y) then ps and the width the context held at mousedown; `redoStrokes` unchanged |
| History.StepKeepsPositive | src/main.ts:45 | every event, as written and with the fix, keeps the context's width, the selected width and every stroke's thickness positive |
| History.RunKeepsPositive | src/main.ts:45 | any sequence of events from a state with positive widths keeps them positive |
| History.ReachablePositive | src/main.ts:45 | every state reachable from the loaded page has only positive widths, so the canvas never ignores the width `display` sets |
| History.ToolIsSelected | src/main.ts:145-158 | as written and with the fix: the selected width is always that of the last Thin/Thick pressed |
| History.NewStrokeUsesSelectedWidth | src/main.ts:69 | with the fix, a stroke started after any events has the width of the last Thin/Thick pressed, or 1 if neither was |
| History.ThickLostAfterUndo | src/main.ts:45 | as written, Thin, stroke, Thick, stroke, undo, mousedown yields a stroke of width 1 although Thick (5) is selected; with the fix it has width 5 |
| Sketch.Sketchpad.constructor | src/main.ts:15-17 | the page starts with empty stacks, no stroke in progress, line width 1 and an empty trace |
| Sketch.Sketchpad.Redraw | src/main.ts:55-63 | the loop makes exactly the calls of `RedrawOps` and leaves the width of the last stroke displayed |
| Sketch.Sketchpad.MouseDown | src/main.ts:66-71 | the listener moves the state by `Step` and paints what `Paint` says |
| Sketch.Sketchpad.MouseMove | src/main.ts:73-79 | the listener moves the state by `Step` and paints what `Paint` says |
| Sketch.Sketchpad.MouseUp | src/main.ts:80-86 | the listener moves the state by `Step` and paints what `Paint` says |
| Sketch.Sketchpad.Clear | src/main.ts:95-99 | clears the board and empties both stacks; the stroke in progress is kept |
| Sketch.Sketchpad.Undo | src/main.ts:110-115 | pops `strokes` onto `redoStrokes` and redraws, if `strokes` is non-empty |
| Sketch.Sketchpad.Redo | src/main.ts:118-123 | pops `redoStrokes` onto `strokes` and redraws, if `redoStrokes` is non-empty |
| Sketch.Sketchpad.Thin | src/main.ts:145-151 | sets the context's line width to 1 and selects width 1 |
| Sketch.Sketchpad.Thick | src/main.ts:152-158 | sets the context's line width to 5 and selects width 5 |

## Left out

- Page construction: the title, the heading, the buttons and their `selectedTool` class and `disabled` flags. This is markup with no logic. The selected width is kept as `toolWidth`.
- Pixels: `clearRect`, `beginPath`, `moveTo`, `lineTo` and `stroke` are recorded as a trace of calls, not rasterised.
- The translation from `clientX`/`clientY` to board coordinates through `getBoundingClientRect`. The handlers take board coordinates.
- Event-listener registration and dispatch. Each listener is a method, called one at a time.
- Floating point: coordinates and widths are mathematical reals. A `lineWidth` of NaN or infinity, which the canvas would also ignore, cannot arise.
- Object identity of the command objects: strokes are values. The program never shares one command between `strokes`, `redoStrokes` and `currentStroke`, because mouseup sets `currentStroke` to null right after pushing it. So no aliasing is lost.
- History.Step: is the program with the fix of the Findings applied (mousedown takes `tool`, not `lineWidth`); the program as written is `History.StepAsWritten`.
- History.Paint: describes the calls of the program with the fix; it differs from the program as written only in the width of the stroke a mousedown starts.
- History.Gesture: is stated for the program with the fix (the selected width); `History.GestureAsWritten` states the gesture as written, with the context's width at mousedown.
- History.NewStrokeUsesSelectedWidth: is stated for the program with the fix; as written it fails (`History.ThickLostAfterUndo`).
- Sketch.Sketchpad.MouseDown: the new stroke takes `toolWidth`, the width of the selected button, rather than `drawing.lineWidth` as line 69 does. This is the fix described under Findings. The code as written is `History.StepAsWritten`.

## Findings

| source | as written | input that shows it | evidently intended | confidence | as-written member | corrected member |
|---|---|---|---|---|---|---|
| src/main.ts:45 | `display` writes each stroke's thickness into the shared `drawing.lineWidth`, and mousedown (line 69) reads `drawing.lineWidth` as the new stroke's width, so a redraw leaves the last displayed stroke's width in `drawing.lineWidth`, and an undo or redo can change the width the next mousedown reads | Thin, draw a stroke, Thick, draw a stroke, undo, press the mouse at (2, 2): the new stroke has width 1 while Thick is still the selected (disabled) button | a new stroke takes the width of the last Thin/Thick pressed (5 here) | high; not executed | History.StepAsWritten | History.NewStrokeUsesSelectedWidth |
