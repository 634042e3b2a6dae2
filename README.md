# spxe in Dafny

A model of the single-header pixel engine `spxe.h` and of the buffer kernels in its example programs.

The engine part covers these pieces:

- The process-wide input record: the per-key action table, the one-shot key latches, the single-slot character queue and the shared mouse-button state.
- The key-event handler and the edge-triggered queries that read and update that record.
- The letterbox ratio computed from the window and logical resolutions.
- The row-major pixel address of `spxePxGet`.
- The exit status of `spxeEnd`.

The example part covers the code that works on a caller-owned `Px` array:

- the bounded Game of Life step and its cursor write;
- the falling-sand step;
- Bresenham line drawing in the pendulum example;
- the gradient fill;
- the basic example's per-frame clear and plot.

## Layout

- `pixels.dfy` (`Pixels`) holds the shared building blocks:
  - the `Px` record of four bytes and the colours;
  - the row-major offset `Index` and its round trip through `/` and `%`;
  - `PlotInside`, the bounds-checked single-pixel write the examples make at the cursor.
- `spxe_input.dfy` (`InputSpec`) is the input record as a value, `State`.
  - It has one function per handler and query, and `Step`/`Run` over traces of events.
  - It proves the trace properties: `KeyPressed` fires once per hold, `KeyReleased` never fires, and the character queue and mouse state behave as listed below.
- `spxe.dfy` (`Spxe`) is the engine itself: the class `Engine`, whose two key tables are arrays of 1024 entries.
  - Every method is proved to change the record exactly as the matching `InputSpec` function says.
  - The module also holds the letterbox `Ratio` over reals, `PxGet` and `EndStatus`.
- `gameoflife.dfy`, `sandsim.dfy`, `pendulum.dfy`, `gradient.dfy`, `example.dfy` follow the same pattern: the example's loops are methods over `array<Px>`.
  - The four kernels are each proved equal to a function on sequences: `NextGen`, `SandNext`, `Paint` of `BresenhamLine` and `Picture`.
  - The per-frame writes (`Example.Frame`, `Pixels.PlotInside`) are specified pixel by pixel or as a sequence update.
  - Lemmas state what the program promises about those functions.

### Where the code differs from the documented intent

- `spxeKeyReleased` is meant as a one-shot released edge, so a key-up followed by `KeyReleased` should answer true. In the code, the key handler multiplies the latch by `action != 0` (spxe.h:230), so a release event clears the latch before any query can see it. `KeyReleased` tests for a latched key that is up, which no reachable state holds.
  - The model does what the code does.
  - `InputSpec.ReleasedNeverFires` proves that no trace from the initial state makes it fire.
  - `InputSpec.PressReleaseTrace` shows a press/release sequence as the code answers it.
- The character heuristic adds 32 to every key code from 65 up unless the modifiers are exactly Shift or exactly Caps Lock. This turns letters into lower case, and also maps `[`, `\`, `]` and `^` (91..94) to `{`, `|`, `}` and `~`, and `` ` `` (96) to 128, which is outside ASCII. The model keeps this as written (`InputSpec.DecodePunctuation`).
- The record starts with a queued character of value 0 (spxe.h:196), so the first `spxeKeyChar` returns 0 as an empty queue would (`InputSpec.FirstCharIsNull`).

## Model

| member | source | states |
|---|---|---|
| InputSpec.OnKey | spxe.h:219-231 | the action is stored for the key; the latch is cleared exactly on a release and kept on press or repeat; a key below 128 that was up queues its decoded character, overwriting any pending one; otherwise the queue is unchanged |
| InputSpec.KeyPressed | spxe.h:254-261 | fires iff the key is down and not latched, and then latches it; otherwise nothing changes |
| InputSpec.KeyReleased | spxe.h:263-270 | fires iff the key is up and latched, and then clears the latch; otherwise nothing changes |
| InputSpec.DecodeChar | spxe.h:222-225 | the decoded character is the key code or the code plus 32; it is the code itself iff the code is below 65 or the modifiers are exactly Shift or exactly Caps Lock |
| InputSpec.DecodePunctuation | spxe.h:222-225 | without modifiers, codes 91..94 decode to `{`, `|`, `}`, `~` and code 96 to 128, outside ASCII |
| InputSpec.KeyChar | spxe.h:272-280 | returns the pending character (as a `char` bit pattern) or 0 when nothing is pending; afterwards nothing is pending |
| InputSpec.CharOf | spxe.h:272-276 | the `char` result is the low 8 bits, and equal to the code for codes 0..255 |
| InputSpec.MousePressed | spxe.h:303-310 | fires iff the reading is PRESS and the recorded reading is RELEASE; the reading is always recorded |
| InputSpec.HeldStep | spxe.h:229-230 | a key that is down and latched stays so under any event but its own release, and its pressed-query answers false |
| InputSpec.PressedOncePerHold | spxe.h:254-261 | after `KeyPressed` fires, no later pressed-query for that key fires until a release event for it, whatever comes in between |
| InputSpec.HeldTrace | spxe.h:229-230 | a down and latched key stays down and latched over any trace without its release, and every pressed-query for it answers false |
| InputSpec.ReleaseRearms | spxe.h:229-230 | after a release and a new press, `KeyPressed` fires again |
| InputSpec.LatchOnlyWhileDownStep | spxe.h:229-230 | every event and query keeps "no key is latched while up", and a released-query answers false in such a state |
| InputSpec.ReleasedAfterReleaseEvent | spxe.h:263-270 | right after a release event for a key, `KeyReleased` for it does not fire |
| InputSpec.PressReleaseTrace | spxe.h:254-270 | press, two pressed-queries, release, two released-queries answer true, false, false, false |
| InputSpec.ReleasedNeverFires | spxe.h:263-270 | from the initial record, no trace makes `KeyReleased` fire |
| InputSpec.LatchTrace | spxe.h:229-230 | "no key is latched while up" holds after every trace and every released-query in it answers false |
| InputSpec.PressQueuesChar | spxe.h:221-227 | a press of a key below 128 that was up queues its decoded character, which the next `KeyChar` returns, and the one after returns 0 |
| InputSpec.NoCharWhileDown | spxe.h:221 | repeat and release events of a key that is down leave the queue unchanged |
| InputSpec.LastPressWins | spxe.h:222-226 | of two presses without a `KeyChar` between them, the second character is the one returned |
| InputSpec.DecodeLetter | spxe.h:222-225 | a letter key decodes to upper case iff the modifiers are exactly Shift or exactly Caps Lock, and to the matching lower-case letter otherwise |
| InputSpec.DecodeBelowLetters | spxe.h:222 | codes below 65 decode to themselves under any modifiers |
| InputSpec.FirstCharIsNull | spxe.h:196 | the first `KeyChar` from the initial record returns 0 |
| InputSpec.MousePressShared | spxe.h:303-310 | one recorded reading serves every button: after one press is reported, a press of any button reports nothing |
| Spxe.Ratio | spxe.h:203-207 | both components lie in [0,1] and in (0,1] for a non-empty window, and one of them is 1 |
| Spxe.RatioShrinks | spxe.h:203-207 | the width shrinks iff the window is wider than the logical aspect, the height iff it is taller, and neither iff the aspects agree |
| Spxe.RatioKeepsAspect | spxe.h:203-207 | the presented quad has the logical width-to-height proportion |
| Spxe.RatioExamples | spxe.h:203-207 | 800x600 over 320x240 gives (1, 1); 800x600 over 100x100 gives (0.75, 1) |
| Spxe.EndStatus | spxe.h:477-488 | failure iff the buffer handed back is null, success otherwise |
| Spxe.Engine.constructor | spxe.h:191-197 | the static initial record: 400x300 logical, 800x600 window, ratio (1, 1), all keys up and unlatched, queued character 0 |
| Spxe.Engine.OnResize | spxe.h:233-238 | records the window size and recomputes the ratio; the input record is unchanged |
| Spxe.Engine.PxGet | spxe.h:490-493 | the offset of (x, y) is inside the buffer for an in-grid pixel, and dividing it by the width gives back y and x |
| Spxe.Engine.Keyboard | spxe.h:219-231 | the arrays and queue change exactly as `InputSpec.OnKey` |
| Spxe.Engine.KeyDown | spxe.h:249-252 | down iff the stored action is non-zero, so a repeat counts as down |
| Spxe.Engine.KeyPressed | spxe.h:254-261 | answer and new record exactly as `InputSpec.KeyPressed` |
| Spxe.Engine.KeyReleased | spxe.h:263-270 | answer and new record exactly as `InputSpec.KeyReleased` |
| Spxe.Engine.KeyChar | spxe.h:272-280 | answer and new record exactly as `InputSpec.KeyChar` |
| Spxe.Engine.MousePressed | spxe.h:303-310 | answer and new record exactly as `InputSpec.MousePressed` |
| Spxe.Engine.MouseReleased | spxe.h:312-315 | level-triggered: true iff the current reading is RELEASE |
| Pixels.Truth | examples/gameoflife.c:26-34 | a C comparison gives 1 iff it holds, else 0 |
| Pixels.IndexCoords | spxe.h:490-493 | an in-grid offset divided by the width gives back the row and the column |
| Pixels.IndexInRange | spxe.h:490-493 | every in-grid pixel has an offset inside a `width * height` buffer |
| Pixels.CoordsOfIndex | examples/sandsim.c:31-56 | every offset in the buffer is the offset of the pixel (i % width, i / width), which lies in the grid |
| Pixels.PlotInside | examples/gameoflife.c:71-73 | the pixel is set when (x, y) is inside the grid, and the buffer is unchanged otherwise |
| GameOfLife.LiveAround | examples/gameoflife.c:26-34 | a count over n positions lies in 0..n |
| GameOfLife.Neighbours | examples/gameoflife.c:26-34 | the neighbour count lies in 0..8 |
| GameOfLife.NeighboursUnfold | examples/gameoflife.c:26-34 | the count is the sum over the eight positions in the source's order, each 1 only for a live in-grid cell |
| GameOfLife.BorderNeighbours | examples/gameoflife.c:26-34 | nothing wraps around: an edge cell counts at most 5 neighbours, a corner cell at most 3 |
| GameOfLife.Rule | examples/gameoflife.c:36-38 | the result is white or black; white iff a live cell has 2 or 3 neighbours or a dead one exactly 3 |
| GameOfLife.NextGen | examples/gameoflife.c:20-40 | the next generation has one cell per cell, each the rule applied at that cell |
| GameOfLife.OnlyRedMatters | examples/gameoflife.c:7 | two generations with the same non-zero red channels have the same successor |
| GameOfLife.DeadStaysDead | examples/gameoflife.c:36-38 | an all-dead generation becomes all black |
| GameOfLife.CountNeighbours | examples/gameoflife.c:25-34 | the eight guarded reads add up to the reference neighbour count |
| GameOfLife.CellIndex | examples/gameoflife.c:22-24 | the running index is the offset of (x, y), and its next state is the rule at (x, y) |
| GameOfLife.PxUpdate | examples/gameoflife.c:20-43 | `buf` holds the next generation of the old `pixbuf`, computed from it alone, and `pixbuf` equals `buf` afterwards |
| GameOfLife.Frame | examples/gameoflife.c:70-73 | one generation, then the cursor pixel red exactly when the cursor is on the grid |
| SandSim.Air | examples/sandsim.c:11-15 | the air colour of a row is never sand and is free for a grain, with the row's blue channel |
| SandSim.Normalise | examples/sandsim.c:36-37 | normalising keeps a cell sand or not sand, and free or not free |
| SandSim.Target | examples/sandsim.c:38-50 | a grain falls into a free cell; it stays put iff it is on row 0, or the cell below and the in-range diagonal cells below are all taken |
| SandSim.TargetGeometry | examples/sandsim.c:38-50 | a grain lands on the row directly below, at most one column to either side |
| SandSim.TargetOf | examples/sandsim.c:38-50 | for cell (x, y) the target is straight down, then down-right, then down-left, each only when in range and free, and never from row 0; every such offset is in bounds |
| SandSim.SandNext | examples/sandsim.c:29-57 | the scratch buffer after a pass has one cell per cell |
| SandSim.MoverGeometry | examples/sandsim.c:38-50 | a grain only lands on a cell of the row below, visited before it |
| SandSim.BottomRowStays | examples/sandsim.c:38 | a grain on row 0 keeps its previous `buf` cell |
| SandSim.StuckGrainKeepsBuf | examples/sandsim.c:36-52 | a grain that cannot fall leaves its `buf` cell with its previous contents |
| SandSim.FallingGrain | examples/sandsim.c:39-50 | a falling grain leaves air in its own cell and sand where it lands |
| SandSim.EmptyCell | examples/sandsim.c:53 | a non-sand cell becomes air unless a grain from the row above falls onto it, and then it becomes sand |
| SandSim.NormalisedUpTo | examples/sandsim.c:36-37 | `pixbuf` after k visits has the length of the grid |
| SandSim.Partial | examples/sandsim.c:31-56 | `buf` after k visits has the length of the grid |
| SandSim.VisitBuf | examples/sandsim.c:36-53 | one visit writes `buf` only at its own cell and at the cell its grain falls into: air at its own cell unless the grain is stuck, sand at the landing cell, and no write at all for a stuck grain |
| SandSim.PartialStep | examples/sandsim.c:36-55 | visiting cell k takes `buf` from its state after k visits to its state after k + 1 |
| SandSim.PartialStart | examples/sandsim.c:31 | before any visit `buf` is unchanged |
| SandSim.PartialDone | examples/sandsim.c:56-57 | after all visits `buf` is the next state |
| SandSim.NormalisedFree | examples/sandsim.c:36-47 | a normalised cell is free iff it was free before |
| SandSim.Visit | examples/sandsim.c:36-53 | one visit normalises its `pixbuf` cell and writes `buf` as the fall rule says |
| SandSim.Pass | examples/sandsim.c:31-57 | after both loops `pixbuf` is normalised and `buf` is the next state |
| SandSim.PxUpdate | examples/sandsim.c:29-60 | `buf` is the next state of the old buffers and `pixbuf` equals it afterwards |
| Pendulum.Step | examples/pendulum.c:37-48 | one pass of the loop stops at `p1`; otherwise the next point is closer to `p1`, between the current point and `p1` on each axis, and at most one pixel away |
| Pendulum.StepGo | examples/pendulum.c:38-48 | when no break fires, x moves iff `2 * error >= dy` and y iff `2 * error <= dx`, each adding its delta to the error |
| Pendulum.Line | examples/pendulum.c:35-49 | the plotted points start with the current point |
| Pendulum.LineTail | examples/pendulum.c:35-49 | after the first point the loop goes on from the next point, or stops |
| Pendulum.LineShape | examples/pendulum.c:35-49 | every point lies in the bounding box, `p1` occurs only as the last point, and consecutive points touch |
| Pendulum.LineEndsAtTarget | examples/pendulum.c:35-49 | under the error invariant the walk ends at `p1` |
| Pendulum.StepKeepsError | examples/pendulum.c:38-48 | away from `p1` no break fires and the error invariant holds for the next point |
| Pendulum.BresenhamLine | examples/pendulum.c:26-36 | the first point plotted is `p0` |
| Pendulum.StartError | examples/pendulum.c:28-33 | the initial error `dx + dy` satisfies the error invariant |
| Pendulum.BresenhamEnds | examples/pendulum.c:26-50 | the line ends at `p1` |
| Pendulum.BresenhamShape | examples/pendulum.c:26-50 | the line stays in the bounding box, meets `p1` only at its end, and each point touches the one before |
| Pendulum.LineInGrid | examples/pendulum.c:26-50 | with both endpoints in the bitmap, every plotted point is in the bitmap |
| Pendulum.Paint | examples/pendulum.c:21-24 | plotting points keeps the buffer length |
| Pendulum.PaintSpec | examples/pendulum.c:21-24 | after plotting, a pixel has the colour iff some point maps to its offset, else its old value |
| Pendulum.LinePixels | examples/pendulum.c:26-50 | pixel (x, y) has the colour iff (x, y) is on the line, and keeps its value otherwise |
| Pendulum.Plot | examples/pendulum.c:21-24 | writes the colour at `p.y * width + p.x` and nowhere else |
| Pendulum.LineStart | examples/pendulum.c:28-33 | the line from `p0` stays in the bitmap |
| Pendulum.PaintLast | examples/pendulum.c:36-45 | plotting the point at which a break fires finishes the line |
| Pendulum.PaintNext | examples/pendulum.c:36-48 | after plotting the current point and stepping, what remains to plot is the line from the next point |
| Pendulum.PlotLine | examples/pendulum.c:26-50 | with both endpoints in the bitmap every write is in bounds, and the buffer ends up painted with exactly the points of the Bresenham line |
| Gradient.Shade | examples/gradient.c:12 | pixel (x, y) has red x, green 0, blue y and alpha 255, each a byte without truncation |
| Gradient.Picture | examples/gradient.c:10-15 | the picture has 256 x 256 pixels |
| Gradient.PictureAt | examples/gradient.c:12-13 | offset `y * 256 + x` of the picture has the shade of (x, y) |
| Gradient.DrawGradient | examples/gradient.c:8-16 | the whole buffer ends up equal to the picture |
| Example.Dimensions | examples/example.c:10-18 | the logical screen is 80 x 60 and the centre pixel is at offset 30 * 80 + 40 |
| Example.Scaled | examples/example.c:12-17 | `d * 1 / 10` is the tenth of a non-negative dimension rounded down, not 0 |
| Example.Frame | examples/example.c:34-38 | the centre is blue if the cursor is on it and red otherwise; the cursor pixel is blue when on screen; every other pixel is white |

## Left out

- Window, OpenGL context, shaders, texture upload, vertex buffer, buffer swap and event polling (`spxeStart`, `spxeRun`, `spxeFrame`'s upload, `spxeTime`, `spxeMouseDown`, `spxeMouseVisible`): these are foreign calls. The hardware readings they supply are parameters: a key event's action and modifiers, and a mouse button's reading. `spxeStart` also stores the window handle and the window and logical resolutions (spxe.h:390-394) and computes the ratio (spxe.h:428); the model keeps only the resolutions, fixed at the static initial values, as the `Spxe.Engine.constructor` line below says.
- `spxeMousePos`: a `float`/`double` transform of a foreign cursor reading with `(int)` truncation. Float rounding is not modelled.
- Spxe.Ratio: computed over exact reals rather than `float`, so rounding is not modelled.
- Spxe.Engine.constructor: models the static initial value of the record, not `spxeStart`, which fills in the resolutions at run time.
- Spxe.Engine.PxGet: returns the offset rather than a pointer; out-of-grid coordinates give an offset with no promise, as the source checks nothing.
- Key codes outside 0..1023: the tables are indexed without a check in the source. The model requires a valid code (`InputSpec.Key`) instead of modelling the out-of-bounds access.
- InputSpec.CharOf: keeps the low 8 bits of the decoded code as an unsigned value; whether `char` is signed is not modelled.
- Integer overflow: every integer is unbounded. This covers buffer offsets and the Bresenham error term; 32-bit wrap-around is not modelled.
- The air colour in the sand example: the blue channel comes from a `float` expression of the row, and is the parameter `blue`.
- `pxInit` in the Game of Life and sand examples: it depends on `rand()`.
- `main`'s argument parsing (`atoi`), the key checks around each frame, and the pendulum physics: these are control plumbing and `float` numerics.
- Pendulum.PlotLine: requires both endpoints inside the bitmap. The source's green line has an unchecked endpoint, so a `plot` outside the buffer is not modelled.
- `examples/mandelbrot.c`, `examples/hello.c` and `examples/helloWorld.c`: floating-point numerics, or only start/run/end calls.
