# Collaborative Canvas — a Dafny model of the drawing core

Collaborative Canvas lets several mice draw on one full-screen canvas at the same time. Each mouse is handled as a
*device*. A device has a cursor position, a colour, a tool (Marker or Eraser), a size, a line in progress, and an
undo and a redo stack of committed strokes. A *registry* (`InputManager`) maps device ids to devices. It pairs and
unpairs them and forwards every operation to one device. One mouse, the *admin* (named
`ImExPS/2 Generic Explorer Mouse`), erases and clears every device's strokes at once. A *header* bar holds six
tool buttons and a colour palette. A click there is debounced, commits every line in progress, and then runs the
first button hit, or a palette swatch. A *canvas* redraws, at most every 0.1 s, all committed strokes and then all
lines in progress. A *worker* per mouse turns that mouse's events into registry calls and header clicks.

The model is split into modules that follow the source files; `Options` and `Strokes` hold what several of them share:

| file | module | models |
|---|---|---|
| `options.dfy` | `Options` | Python's value-or-`None` results |
| `strokes.dfy` | `Strokes` | points, strokes, and the erase-and-split algorithm as a reference definition (maximal runs of kept points), with its properties |
| `devices.dfy` | `DeviceState` | `device.py`: the device as a value (`DeviceRec`) with its pure transitions, and the `Device` class whose methods update its fields in place |
| `input_manager.dfy` | `Registry` | `input_manager.py`: the `InputManager` class over a map of devices, with the snapshot functions that specify it |
| `header_manager.dfy` | `Header` | `header_manager.py`: the button and palette layout and `handle_click` |
| `canvas.dfy` | `Composition` | `canvas.py`: `refresh`, with the surface as the list of drawing commands issued since the last fill |
| `worker.dfy` | `Worker` | `main.py`: the per-event step of `handle_device`, the worker loop, and `find_device_paths` |

The classes are specified against pure functions, and the properties are proved about those functions:
- Every `Device` method states its new `Rec()` as a function of the old one.
- Every `InputManager` method states its new `Snapshot()` (id → device record) as a function of the old snapshot.
- `HeaderManager.HandleClick`, `Canvas.Refresh` and `Worker.HandleDevice` state their results in terms of `Click`, `Frame` and `Run`.

Times are integer milliseconds: the debounce time and the refresh interval are both 100.

## Model

| member | source | states |
|---|---|---|
| Strokes.Pieces | device.py:80-90 | reference definition: the pieces of one line that survive, as the maximal runs of kept points of two points or more, left to right |
| Strokes.Flush | device.py:86-90 | the current segment is kept when it has two points or more |
| Strokes.ScanFrom | device.py:80-90 | the point-by-point walk of one line: a kept point extends the current segment, an erased one flushes it, and the end flushes it once more |
| Strokes.EraseStroke | device.py:80-92 | one stroke becomes its surviving pieces, each with the stroke's colour |
| Strokes.EraseStack | device.py:77-93 | the new undo stack: the pieces of every stroke, stroke after stroke |
| Strokes.KeepMask | device.py:83 | definition: one flag per point, true exactly when the point's squared distance from the eraser is at least 10²; its consequences are stated by `SpansCoverExactly` and `EraseStackSurvivors` |
| Strokes.RunEnd | device.py:82-88 | the end of the run of kept points that starts at `i`: every point up to it is kept, and the point at it is erased or past the end |
| Strokes.Spans | device.py:82-90 | the maximal runs of two points or more lie within the line and start no earlier than `i` |
| Strokes.ScanIsPieces | device.py:80-90 | the point-by-point walk (extend the current segment, close it at an erased point, keep only segments of two points or more) yields exactly the reference pieces |
| Strokes.SpansAreMaximalRuns | device.py:82-90 | every piece consists of kept points, is maximal (its neighbours are erased or outside the line), and pieces come left to right with an erased point between them |
| Strokes.SpansCoverExactly | device.py:82-90 | a point survives if and only if it is kept and has a kept neighbour: an isolated kept point is dropped |
| Strokes.EraseStrokeSurvivors | device.py:91-92 | every piece of an erased stroke has at least two points, none within the radius, and the stroke's colour |
| Strokes.EraseSurvivorUnchanged | device.py:79-93 | a stroke with at least two points, none within the radius, is left whole |
| Strokes.EraseStackAppend | device.py:79-93 | erasing a stack erases its parts independently |
| Strokes.EraseStackSurvivors | device.py:77-93 | after an erase every stroke on the stack has two points or more, none within the radius |
| Strokes.EraseStackIdempotent | device.py:77-93 | erasing twice at one position equals erasing once |
| Strokes.EraseStackProvenance | device.py:79-93 | each surviving stroke is a contiguous slice of one original stroke with that stroke's colour; survivors keep stack order, and left-to-right order within a stroke |
| Strokes.EraseFiveInRow | device.py:77-93 | five points 4 apart erased at the middle point: nothing survives, since every point lies within the radius |
| Strokes.EraseNineInRow | device.py:77-93 | nine points 4 apart erased at the middle point: exactly the two end pairs survive, as two strokes |
| DeviceState.NewRec | device.py:6-16 | a new device record: black, Marker, size 5, empty stacks and no line, at the given position |
| DeviceState.IsAdminRec | device.py:18-19 | a device is the admin when its name is `ImExPS/2 Generic Explorer Mouse` |
| DeviceState.CommitLine | device.py:42-46 | a non-empty line in progress is pushed with the current colour, the redo stack and the line are emptied; an empty line changes nothing |
| DeviceState.UndoRec | device.py:49-56 | the top of the undo stack moves onto the redo stack, when there is one |
| DeviceState.RedoRec | device.py:59-66 | the top of the redo stack moves back onto the undo stack, when there is one |
| DeviceState.EraseRec | device.py:77-93 | the undo stack is erased at the position; nothing else changes |
| DeviceState.ClearRec | device.py:96-98 | both stacks become empty; nothing else changes |
| DeviceState.UndoView | device.py:69-70 | `get_undo_stack` gives the stack if and only if it is not empty |
| DeviceState.UndoRedoKeepHistory | device.py:49-66 | undo and redo never lose or reorder a stroke: undo stack followed by reversed redo stack is unchanged |
| DeviceState.UndoKeepsHistory | device.py:49-56 | an undo keeps the undo stack followed by the reversed redo stack |
| DeviceState.RedoKeepsHistory | device.py:59-66 | a redo keeps the undo stack followed by the reversed redo stack |
| DeviceState.UndoEffect | device.py:49-56 | undo on an empty stack changes nothing; otherwise it moves exactly the top stroke onto the redo stack and changes nothing else |
| DeviceState.RedoAfterUndo | device.py:49-66 | a redo after a successful undo restores both stacks exactly |
| DeviceState.UndoAfterRedo | device.py:49-66 | an undo after a successful redo restores both stacks exactly |
| DeviceState.RedoTimesAfterUndoTimes | device.py:49-66 | any k undos (k at most the stack height) are reverted by k redos |
| DeviceState.CommitEffect | device.py:42-46 | committing a non-empty line (even one point) pushes it with the current colour, empties the redo stack and the line, and leaves nothing to redo; an empty line changes nothing |
| DeviceState.UndoAfterCommit | device.py:42-56 | undo right after a commit takes back exactly the committed stroke |
| DeviceState.EraseRecSurvivors | device.py:77-93 | after `remove_point` every committed stroke has two points or more, none within the radius; redo stack and line in progress are untouched |
| DeviceState.EraseRecIdempotent | device.py:77-93 | `remove_point` twice at one position equals once |
| DeviceState.ClearEffect | device.py:96-98 | `clear` empties both stacks and keeps line, colour, tool and size; undo and redo then do nothing |
| DeviceState.SplitLine | device.py:80-90 | the inner loop of `remove_point` over one stroke produces exactly the reference pieces |
| DeviceState.Device.constructor | device.py:6-16 | a new device is a black marker of size 5 with empty stacks and no line |
| DeviceState.Device.SetPosition | device.py:22-23 | only the position changes |
| DeviceState.Device.GetPosition | device.py:26-27 | returns the stored position, the position of the device's record |
| DeviceState.Device.GetCurrentLine | device.py:38-39 | returns the stored line in progress, that of the device's record |
| DeviceState.Device.AddToCurrentLine | device.py:30-31 | the point is appended to the line in progress |
| DeviceState.Device.ResetCurrentLine | device.py:34-35 | the line in progress becomes empty |
| DeviceState.Device.AddLine | device.py:42-46 | the new record is the commit of the old one |
| DeviceState.Device.Undo | device.py:49-56 | returns true if and only if the undo stack was not empty; the new record is the undo of the old one |
| DeviceState.Device.Redo | device.py:59-66 | returns true if and only if the redo stack was not empty; the new record is the redo of the old one |
| DeviceState.Device.GetUndoStack | device.py:69-70 | the record's undo stack when it is not empty, as `UndoView` characterises |
| DeviceState.Device.IsAdmin | device.py:18-19 | the device's name is the admin name |
| DeviceState.Device.GetRedoStack | device.py:73-74 | definition: the redo stack when it is not empty, otherwise nothing |
| DeviceState.Device.RemovePoint | device.py:77-93 | the new undo stack is the reference erase of the old one, and nothing else changes |
| DeviceState.Device.Clear | device.py:96-98 | the new record is the old one with both stacks empty |
| DeviceState.Device.SetColor | device.py:102-103 | only the colour changes |
| DeviceState.Device.GetColor | device.py:107-108 | returns the stored colour, that of the device's record |
| DeviceState.Device.SetTool | device.py:111-112 | only the tool changes |
| DeviceState.Device.GetTool | device.py:116-117 | returns the stored tool, that of the device's record |
| DeviceState.Device.SetSize | device.py:120-121 | only the size changes |
| DeviceState.Device.GetSize | device.py:124-125 | returns the stored size, that of the device's record |
| Registry.Clamp | input_manager.py:43-44 | `max(lo, min(hi, v))` |
| Registry.ClampPosition | input_manager.py:42-45 | x clamped to [0, w], y to [10, h - 10], in that order of `min` then `max` |
| Registry.Center | input_manager.py:18 | the screen centre `(w // 2, h // 2)` |
| Registry.ClampFacts | input_manager.py:42-45 | `max(lo, min(hi, v))` is at least `lo`, at most `hi` when `lo <= hi`, and leaves a value already in range alone |
| Registry.ClampPositionBounds | input_manager.py:41-45 | a stored x lies in [0, w]; a stored y is at least 10, at most h - 10 when h >= 20, and exactly 10 on a screen lower than 20; a position inside the box is stored as it is |
| Registry.ApplyTo | input_manager.py:47-160 | an operation on an unknown id changes nothing; otherwise only the named device changes |
| Registry.ApplyToAll | input_manager.py:75-76 | applying an operation to every device keeps the set of paired ids |
| Registry.ApplyInOrder | input_manager.py:75-76 | applying an operation device by device, in listed order, keeps the set of paired ids |
| Registry.ApplyInOrderIsApplyToAll | input_manager.py:75-76 | for a list without repeats, the one-device-at-a-time loop gives the same snapshot as applying the operation to the listed set: the order does not matter |
| Registry.Without | input_manager.py:33 | removing an id from the pairing order keeps exactly the other ids |
| Registry.WithoutAt | input_manager.py:33 | in a list without repeats, removing the id at position k leaves the ids before and after it, in their order |
| Registry.EraseBy | input_manager.py:71-77 | reference definition of `erase`: nothing for an unknown id; for the admin, every device erases and then the admin once more; otherwise only the issuer |
| Registry.ClearBy | input_manager.py:96-102 | reference definition of `clear`, with the same cascade as `erase` |
| Registry.EraseScope | input_manager.py:71-77 | an admin's erase erases every paired device exactly once (the admin's second erase is absorbed by idempotence); anyone else's erase changes only the issuer; an unknown id changes nothing |
| Registry.ClearScope | input_manager.py:96-102 | an admin's clear empties every device's stacks; anyone else's clear only the issuer's; an unknown id changes nothing |
| Registry.UndoResult | input_manager.py:80-85 | what `undo` returns: the issuer's undo stack after a successful undo, when it is not empty; otherwise nothing |
| Registry.RedoResult | input_manager.py:88-93 | what `redo` returns: the issuer's undo stack after a successful redo; otherwise nothing |
| Registry.UndoResultCases | input_manager.py:80-85 | `undo` reports the remaining strokes if and only if the issuer had at least two strokes; it reports `None` both on failure and after undoing the last stroke |
| Registry.RedoResultCases | input_manager.py:88-93 | `redo` reports `None` if and only if there was nothing to redo; otherwise it reports the old undo stack plus the redone stroke |
| Registry.InputManager.IsAdmin | input_manager.py:25-27 | the id is paired and its device is the admin |
| Registry.InputManager.constructor | input_manager.py:7-11 | the registry starts with no devices |
| Registry.InputManager.PairDevice | input_manager.py:14-23 | succeeds if and only if the id is not paired, adding a fresh device at the screen centre `(w // 2, h // 2)`; otherwise nothing changes |
| Registry.InputManager.UnpairDevice | input_manager.py:30-38 | succeeds if and only if the id was paired; afterwards the id is gone, every other device is as before, and the pairing order loses exactly that id |
| Registry.InputManager.SetPosition | input_manager.py:41-48 | the issuer's position becomes the clamped position; unknown ids are ignored |
| Registry.InputManager.GetDevice | input_manager.py:51-55 | the device if and only if the id is paired |
| Registry.InputManager.GetPosition | input_manager.py:58-62 | the stored position of a paired id, else the screen centre |
| Registry.InputManager.AddLine | input_manager.py:65-68 | commits the issuer's line in progress |
| Registry.InputManager.Erase | input_manager.py:71-77 | the new snapshot is the erase cascade of the old one |
| Registry.InputManager.EraseEach | input_manager.py:75-76 | every paired device erases once |
| Registry.InputManager.EraseOwn | input_manager.py:77 | the issuer alone erases at the position; an unknown id changes nothing |
| Registry.InputManager.Undo | input_manager.py:80-85 | the issuer undoes, and the result is the reported undo stack |
| Registry.InputManager.Redo | input_manager.py:88-93 | the issuer redoes, and the result is the reported undo stack |
| Registry.InputManager.Clear | input_manager.py:96-102 | the new snapshot is the clear cascade of the old one |
| Registry.InputManager.ClearEach | input_manager.py:100-101 | every paired device clears once |
| Registry.InputManager.ClearOwn | input_manager.py:102 | the issuer alone clears both stacks; an unknown id changes nothing |
| Registry.InputManager.SetColor | input_manager.py:105-108 | only the issuer's colour changes |
| Registry.InputManager.GetColor | input_manager.py:111-115 | the issuer's colour if and only if it is paired |
| Registry.InputManager.SetTool | input_manager.py:118-121 | only the issuer's tool changes |
| Registry.InputManager.GetTool | input_manager.py:124-128 | the issuer's tool if and only if it is paired |
| Registry.InputManager.SetSize | input_manager.py:131-134 | only the issuer's size changes |
| Registry.InputManager.GetSize | input_manager.py:137-141 | the issuer's size if and only if it is paired |
| Registry.InputManager.GetCurrentLine | input_manager.py:144-148 | the issuer's line in progress if and only if it is paired |
| Registry.InputManager.AddToCurrentLine | input_manager.py:151-154 | the point is appended to the issuer's line in progress |
| Registry.InputManager.ClearCurrentLine | input_manager.py:157-160 | the issuer's line in progress becomes empty |
| Registry.InputManager.GetActiveInputs | input_manager.py:163-165 | exactly the paired ids, each once |
| Header.Collides | tool_button.py:25-26 | pygame's `collidepoint`: the left and top edges are inside the rectangle, the right and bottom edges are not |
| Header.ToolRect | tool_button.py:11-12 | the symbol's rectangle centred on the button position, grown by 40 in width and 20 in height |
| Header.SwatchRect | color_button.py:7 | the 20 × 20 square centred on the swatch position |
| Header.Buttons | header_manager.py:10-17 | the six buttons Undo, Redo, Clear, Eraser, Marker and Change Color, in that order, 150 apart from (100, 50) |
| Header.Palette | header_manager.py:19-21 | one swatch per colour, centred 50 apart from (950, 50) |
| Header.CommitAll | header_manager.py:54-57 | every paired device's line in progress is committed |
| Header.RunButton | header_manager.py:62-75 | what each button label does to the registry on behalf of the issuer: Undo, Redo, Clear, Eraser and Marker run their commands; any other label changes nothing |
| Header.Press | header_manager.py:62-76 | a hit on a button: Change Color toggles the palette; any other button runs its command and keeps the palette |
| Header.Pick | header_manager.py:79-85 | with the palette shown: the first swatch hit gives the issuer its colour and the Marker tool and hides the palette; a miss on every swatch changes nothing |
| Header.Route | header_manager.py:59-85 | the first button hit is pressed and ends the click; with no button hit, the palette is looked at only when it is shown |
| Header.Click | header_manager.py:54-85 | an accepted click: every line in progress is committed, then the click is routed |
| Header.AdminClear | header_manager.py:66-67 | the first button hit is Clear and the issuer is the admin: the one click that reaches other devices' stacks |
| Header.PaletteLayout | header_manager.py:19-21 | one swatch per colour, in order; swatch i shows colour i and is hit exactly inside the 20 × 20 square around (950 + 50 i, 50) |
| Header.SwatchesDisjoint | color_button.py:7 | no point lies in two swatches |
| Header.FirstHit | header_manager.py:59-60 | the index of the first rectangle containing the point; no earlier one contains it; with no index, none does |
| Header.ClickTouchesOnlyIssuer | header_manager.py:54-85 | apart from committing every line in progress, a click changes only the issuing device, whoever issues it; an admin's Clear instead empties every device's stacks after the commit |
| Header.RouteTouchesOnlyIssuer | header_manager.py:59-85 | the button or swatch hit keeps the paired ids and changes no other device, unless it is an admin's Clear, which clears every device |
| Header.RunButtonTouchesOnlyIssuer | header_manager.py:62-75 | a button's command keeps the paired ids and changes no other device, except the admin's Clear, which clears every device |
| Header.ToolButtonEffect | header_manager.py:70-75 | Eraser and Marker set the issuer's tool to that name and its size to 5 |
| Header.SwatchEffect | header_manager.py:78-85 | with no button hit and the palette shown, the first swatch hit sets the issuer's colour and the Marker tool, keeps its size and hides the palette; with the palette hidden, only the commit happens |
| Header.RunTool | header_manager.py:62-75 | the Undo, Redo, Clear, Eraser and Marker branches act on the registry as the button's command |
| Header.CommitEach | header_manager.py:54-57 | every paired device's non-empty line in progress is committed |
| Header.CommitOne | header_manager.py:55-57 | one device's line in progress is committed if it is non-empty; an empty or unknown one changes nothing |
| Header.HeaderManager.constructor | header_manager.py:8-23 | the six buttons in order and the palette; the palette starts hidden and the last click time at 0 |
| Header.HeaderManager.HandleClick | header_manager.py:48-85 | a click within 100 ms of the last accepted one changes nothing, not even the last click time; otherwise the time is recorded and the new palette flag and snapshot are those of `Click` |
| Header.HeaderManager.Dispatch | header_manager.py:59-85 | after the commit, the palette flag and snapshot are those of `Route` |
| Header.HeaderManager.PressButton | header_manager.py:62-75 | Change Color toggles the palette and nothing else; any other button runs its command and keeps the palette |
| Header.HeaderManager.PickSwatch | header_manager.py:82-84 | sets the issuer's colour and Marker tool, and hides the palette |
| Header.HeaderManager.PickColor | header_manager.py:78-85 | with the palette shown, the first swatch hit sets the issuer's colour and the Marker tool and hides the palette; a miss on every swatch changes nothing |
| Header.HeaderManager.FindButton | header_manager.py:59-60 | the loop finds the first button hit |
| Header.HeaderManager.FindSwatch | header_manager.py:79-80 | the loop finds the first swatch hit |
| Composition.StrokeCmd | canvas.py:31-34 | a stroke drawn as an open polyline in its colour, at the device's size, shifted up by the header height |
| Composition.StrokeCmds | canvas.py:30-34 | the strokes of two points or more, oldest first |
| Composition.DrawnAt | canvas.py:30-32 | the positions of the strokes with two points or more, in increasing order: every such position appears, and only those |
| Composition.DeviceCmds | canvas.py:28-34 | the committed strokes of one paired device at its size; nothing for an id that is not paired |
| Composition.CommittedCmds | canvas.py:27-34 | the committed strokes of the listed devices, device by device |
| Composition.LiveCmd | canvas.py:38-43 | one device's line in progress of two points or more, in its colour and size |
| Composition.LiveCmds | canvas.py:37-43 | the lines in progress of the listed devices, device by device |
| Composition.Frame | canvas.py:23-43 | the white fill, then the committed strokes, then the lines in progress |
| Composition.Shift | canvas.py:33 | definition: every point moves up by the header height; used by `StrokeCmd` and `LiveCmd` |
| Composition.Shown | canvas.py:30 | `get_undo_stack() or []` is the undo stack itself |
| Composition.StrokeCmdsExactly | canvas.py:30-34 | the commands drawn for a stack are exactly those of its strokes with two points or more, in the stroke's colour and the device's size |
| Composition.StrokeCmdsInOrder | canvas.py:30-34 | for every stack, command k draws the k-th stroke of two points or more: oldest first, and strokes of one point are skipped |
| Composition.CommittedCmdsExactly | canvas.py:26-34 | the committed part draws exactly the committed strokes of two points or more of the listed paired devices |
| Composition.LiveCmdsExactly | canvas.py:36-43 | the live part draws exactly the lines in progress of two points or more, in the device's current colour and size |
| Composition.FrameShape | canvas.py:23-43 | a frame starts with the white fill; every command after it is a polyline of two points or more; committed strokes come before lines in progress |
| Composition.Canvas.constructor | canvas.py:5-10 | a canvas starts with last refresh time 0 |
| Composition.Canvas.Clear | canvas.py:13-14 | the surface is filled white |
| Composition.Canvas.Refresh | canvas.py:17-43 | within 100 ms of the last refresh nothing changes; otherwise the time is recorded and the surface is exactly the frame of the registry's snapshot in pairing order |
| Composition.Canvas.DrawCommitted | canvas.py:27-34 | appends the committed commands of the listed devices |
| Composition.Canvas.DrawDevice | canvas.py:28-34 | appends exactly the commands of one device's committed strokes, and leaves the registry and the refresh time alone |
| Composition.Canvas.DrawStrokes | canvas.py:30-34 | appends one polyline per stroke of two points or more |
| Composition.Canvas.DrawLive | canvas.py:37-43 | appends the lines in progress of the listed devices |
| Composition.Canvas.DrawLine | canvas.py:38-43 | appends the command for one device's line in progress when it has two points or more, and nothing else |
| Worker.Moved | main.py:74-87 | the cursor after a motion event: the delta, limited to 7 while the button is held, added to the named axis, then both coordinates clamped to the screen |
| Worker.Release | main.py:66-71 | on release, a non-empty line in progress is committed and then emptied |
| Worker.Draw | main.py:92-98 | with the button held below the header, the Eraser erases at the cursor and any other tool extends the line in progress |
| Worker.Step | main.py:58-98 | what one event does to the cursor, the registry and the posted clicks |
| Worker.Run | main.py:54-98 | the events folded one after the other |
| Worker.Start | main.py:45-52 | the state right after pairing: the cursor at the screen centre with the button up, the new device paired, nothing posted |
| Worker.MoveBounds | main.py:74-87 | after a motion event the cursor is on screen; while the button is held each coordinate moves by at most 7; while it is up, an on-screen move is taken whole; only the named axis moves |
| Worker.RunStaysInBox | main.py:54-98 | a cursor that starts on screen stays on screen whatever the events |
| Worker.ButtonPosts | main.py:58-65 | a button event posts exactly one click at the cursor when the button was up and the cursor is in the header, and nothing otherwise; afterwards the button is held if and only if the value is 1 |
| Worker.RunPostsHeaderClicks | main.py:59-64 | every posted click carries the worker's own device and a position in the header |
| Worker.ReleaseCommits | main.py:65-71 | a release commits a non-empty line in progress (emptying the redo stack) and leaves no line in progress; with no line it changes nothing; a press changes no device |
| Worker.MoveDraws | main.py:86-98 | a motion stores the clamped cursor; while held below the header, the Eraser erases at the cursor and any other tool extends the line; otherwise no stroke or line changes; other devices change only when the admin erases, and then each is erased at the cursor |
| Worker.LocalAndStoredDiffer | main.py:87 | the worker clamps y to [0, h] but the registry stores y in [10, h - 10]: a move to the top leaves local y = 0 and stored y = 10 |
| Worker.StepKeepsNames | main.py:54-98 | no event changes which devices are paired or any device's name |
| Worker.RunNonAdminLocal | main.py:54-98 | the worker of a non-admin mouse never changes another device |
| Worker.HandleEvent | main.py:58-98 | the loop body for one event performs exactly `Step` on the cursor, the registry and the posted clicks |
| Worker.ReleaseLine | main.py:66-71 | a release commits the issuer's line in progress when it is non-empty and then empties it |
| Worker.DrawAt | main.py:93-98 | with the Eraser the issuer erases at the point, cascading when it is the admin; with any other tool the point extends its line in progress |
| Worker.MoveCursor | main.py:74-87 | a motion event moves the cursor as `Moved` does: clamped to 7 while held, then kept on screen |
| Worker.ReadLoop | main.py:54-98 | the event loop posts the clicks of `Run` and leaves the registry as `Run` does |
| Worker.HandleDevice | main.py:45-101 | if pairing fails the worker returns at once and unpairs nothing; otherwise its posts are those of `Run` and the registry ends as `Run` leaves it, minus the unpaired device |
| Worker.FirstPaths | main.py:35-39 | the dictionary entries of `find_device_paths` in insertion order: the first listed device of each wanted name |
| Worker.FirstPathsChoice | main.py:34-40 | every chosen device is listed and wanted; no name is chosen twice; the first listed device of every wanted name is chosen |
| Worker.FindDevicePaths | main.py:34-40 | the dictionary loop returns the chosen paths in first-seen order |
| Worker.CollectPaths | main.py:35-39 | the dictionary maps each chosen name, in first-seen order, to the first listed path with that name, and holds no other name |
| Worker.ValuesInOrder | main.py:40 | the values are read out in key order, one per key |
| Worker.ZippedAssignments | main.py:109 | a launch pair for each position both lists share |
| Worker.ZippedAssignmentsMislabel | main.py:104-110 | as written, a lone Microsoft Arc mouse is started under the admin name |
| Worker.NamedAssignments | main.py:35-40 | the intended launch: each chosen path with the name of the device found at it |
| Worker.NamedAssignmentsFaithful | main.py:34-40 | the intended launch gives each chosen path the name listed at that path, for the same paths |

## Left out

- Threads, `threading.Lock`, `draw_lock` and the `stop_event`: every call is modelled as sequential, and the end of a worker's event sequence stands for the stop event.
- The blocking evdev `read_loop` and the device enumeration: events are a finite sequence of `Event` values, and the device listing is a sequence of (path, name) pairs.
- The `try`/`finally` in `handle_device`: exceptions are not modelled, so the unpair on exit is the last statement.
- pygame rendering: fonts, surfaces, hover colours, the header drawing, the cursor squares and the screen blits. A button's hit rectangle depends on its rendered symbol size, which the header constructor takes as a parameter (`Glyph`). The canvas surface is the list of drawing commands issued since its last fill.
- Wall-clock `time.time()` floats: time is an integer number of milliseconds passed by the caller.
- Logging: every `logger` call.
- The main frame loop, ESC handling and thread start-up (main.py:103-154), apart from the pairing of paths with names at main.py:109, which is a finding below.
- `InputManager.is_admin` returns `None` for an unknown id. The model's `IsAdmin` is false there; both are falsy where the source tests them.
- Getters return copies of values, not aliases. In the source, `get_current_line` and `get_undo_stack` hand out the device's own lists. No caller in the source mutates them, so nothing is lost.
- Positions and colours are integers. Python would accept other values, such as floats, which the model does not cover.

## Findings

| source | as written | input that shows it | evidently intended | confidence | as-written member | corrected member |
|---|---|---|---|---|---|---|
| main.py:109 | `zip(device_paths, device_names)` pairs the found paths, in enumeration order, with the wanted names by list position | only the Microsoft Arc mouse is attached at `/dev/input/event5`: its path is paired with `ImExPS/2 Generic Explorer Mouse`, so its erase and clear cascade to every device | each path started with the name of the device found at that path (the `device_paths` dictionary's own entries) | high (not executed) | Worker.ZippedAssignmentsMislabel | Worker.NamedAssignmentsFaithful |
