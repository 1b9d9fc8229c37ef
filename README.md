# Labyrinth solver — Dafny model

The program loads a picture of a maze and draws a way through it in blue.
There are two strategies:

- **Wave** (`LabyrinthWave`): the user clicks a start and then a finish.
  A breadth-first flood fill runs over the 8-neighbour grid. For every cell
  it reaches, it records the flattened index `row * cols + col` of the cell
  it came from. When it reaches the finish, it follows the records back and
  paints them.
- **Morphology** (`LabyrinthMorphology`): the corridors are thinned by
  repeated openings until the image stops changing. The eroded result is
  then copied onto the displayed image wherever that image is still white.

Both strategies first load the image into two buffers. The search image
`input` gets its border decoration turned light gray (240). The displayed
image `output` gets it turned gray (210).

The model has five modules:

- `Grid`: pixels, points, the saturating channel subtraction that decides
  walkability, the eight directions in expansion order, and the index
  flattening and unflattening.
- `Labyrinth`: the shared base class operations `set_image` and the border
  loop of `Init`.
- `Search`: the breadth-first search theory, on values.
  - Walks (`IsRoute`) go backwards from their end to the start.
  - The visit table is a sequence, the hop depths a map and the queue a
    sequence.
  - The loop invariant `Searching` has six parts:
    - the records form a tree rooted at the start;
    - the queue is layered by depth;
    - expanded cells are closed;
    - every depth is the shortest;
    - every recorded cell not yet expanded is queued, is the cell being
      expanded, or is the finish, which is never queued;
    - and the start is seeded.
  - `WaveStep` is the reference definition of one call of `Wave`.
- `Wave`: the class `LabyrinthWave`.
  - Its fields are the two images, the `visits` array and the `queue`
    sequence.
  - A ghost depth map `dist` sits beside them.
  - Its methods follow the source: `Wave`, `ExtractAndDrawWay`, `FindWay`
    and the mouse handler.
  - The `FindWay` loop body is split by the source's own comment groups:
    one round of the loop (`ExpandFront`), the four straight waves and the
    four diagonal waves. No loop is added.
- `Morphology`: the class `LabyrinthMorphology`, with the mask-copy loop
  of `FindWay` and `IsEqual`.

Points follow the source's convention: `Point.x` is the row, `Point.y` the
column. A pixel is a triple of bytes in OpenCV's blue, green, red order, so
`Blue` is `Pixel(255, 0, 0)`.

The main results:

- **Wave.LabyrinthWave.FindWay** returns `0` exactly when the start is set,
  differs from the finish, and some walk leads from the start to the
  finish. Otherwise it returns `-1`.
  - On success, the painted cells are `route`, the predecessor chain from
    the finish.
  - `trail`, the whole recorded chain, is a walk from the start to the
    finish, and no walk is shorter.
  - `route` is `trail` cut before its first `Point(0, 0)`. That cell is the
    stop mark of the backtrace: the start's record `0` decodes to it.
  - On failure, no pixel changes.
- **Wave.LabyrinthWave.Wave** and the other methods that write the table
  only ever write an entry that is still `-1`.
  - `Search.WaveKeeps` proves that no record is lost and the loop invariant
    holds again after each call.
  - `Search.AcceptKeeps` proves that exactly one entry is filled.

The code has these quirks, and the model keeps them:

- The walkability test is one-directional.
  - OpenCV saturates `Vec3b - Vec3b` at 0, so only a step onto a cell more
    than one unit *brighter* in channel 0 is refused (`Grid.WalkableIff`,
    `Grid.WalkableIsOneWay`).
  - The finish cell is accepted without the test.
- The search image and the displayed image get different grays, 240 and 210.
- The backtrace does not stop at the start. It paints the start, reads the
  start's record `0`, and stops at `Point(0, 0)`.
  - Cell `(0, 0)` is never painted.
  - A chain through `(0, 0)` is cut there (`Search.ChainIsPrefix`).
- When the finish is reached, the remaining directions of the current cell
  are still tried: `isFindFinish |= Wave(...)` does not short-circuit. The
  loop stops after that cell.
- A finish equal to the start is never found, because the start is already
  recorded.
- Unless the recorded chain meets `Point(0, 0)`, where it is cut, the painted
  path has one more cell than the number of hops: it holds both the finish
  and the start. The chain meets `Point(0, 0)` when the start is that cell, or
  when the shortest walk the wave recorded passes through it.

## Model

| member | source | states |
|---|---|---|
| Grid.SatSub | main.cpp:179-180 | `uchar` subtraction saturates at zero: the exact difference when `a >= b`, else 0 |
| Grid.WalkableIff | main.cpp:179-182 | the walkability test holds exactly when the next cell's channel 0 is at most one above the current cell's |
| Grid.DarkerIsWalkable | main.cpp:179-182 | stepping onto a cell no brighter in channel 0 always passes, whatever the other channels |
| Grid.WalkableIsOneWay | main.cpp:179-182 | the test is not symmetric: white to black passes, black to white fails |
| Grid.DirectionsComplete | main.cpp:210-220 | the eight directions in expansion order are exactly the unit neighbour offsets, each listed once |
| Grid.IndexInRange | main.cpp:162-166 | a cell inside the grid has a flattened index inside the `rows * cols` table |
| Grid.DecodeIndex | main.cpp:148-152 | unflattening `idx / cols, idx % cols` the index of a grid cell gives the cell back |
| Grid.IndexDecode | main.cpp:151-152 | every table index unflattens to a grid cell whose index it is |
| Grid.IndexInjective | main.cpp:165-166 | two grid cells with the same flattened index are the same cell |
| Grid.DecodeZero | main.cpp:144-152 | the start's record `0` decodes to `Point(0, 0)`, the stop mark of the backtrace |
| Labyrinth.Cleaned | main.cpp:102-106 | a pixel under a non-black mask becomes the given gray, any other keeps its value |
| Labyrinth.CleanedIdempotent | main.cpp:98-108 | cleaning twice is cleaning once |
| Labyrinth.SetImage | main.cpp:116-120 | the search and display images are two distinct fresh copies of the loaded image |
| Labyrinth.CleanBorders | main.cpp:98-108 | every pixel under a non-black mask becomes 240 gray in the search image and 210 gray in the display image; all others keep their values |
| Labyrinth.Init | main.cpp:90-109 | the two buffers are the loaded image cleaned with the opened mask |
| Search.ParentVisited | main.cpp:151-152 | the predecessor named by any record other than the start's is itself a recorded grid cell |
| Search.BackIsRoute | main.cpp:142-154 | following the records back from a recorded cell yields a walk from the start with as many steps as the cell's depth, each record naming the next cell |
| Search.ChainIsPrefix | main.cpp:142-154 | the painted chain is the recorded chain up to, and excluding, its first `Point(0, 0)` |
| Search.ShortRoutesVisited | main.cpp:201-221 | breadth-first order: every walk of at most `level` steps from the start ends at a recorded cell |
| Search.FreshIsFar | main.cpp:169-186 | a cell not yet recorded is more than `level` steps from the start |
| Search.AllRoutesVisited | main.cpp:205-221 | once the queue is empty while the finish is unrecorded (or is the start), every walk from the start ends at a recorded cell |
| Search.Exhausted | main.cpp:205-227 | a search that runs dry without the finish proves that the finish is the start or that no walk reaches it |
| Search.WriteVisited | main.cpp:185 | writing one `-1` entry records exactly that cell, with that record, and keeps all other records |
| Search.TreeAfterDiscover | main.cpp:169-185 | recording a cell from its parent one hop deeper keeps the records a tree rooted at the start |
| Search.DiscoverKeeps | main.cpp:169-186 | recording an accepted neighbour at depth `level + 1` keeps the loop invariant |
| Search.PushKeeps | main.cpp:184 | queueing a cell of depth `level + 1` keeps the queue layered |
| Search.FinishKeeps | main.cpp:171-175 | the finish is recorded but never queued, and the invariant still holds |
| Search.PopKeeps | main.cpp:207-208 | the popped front cell is recorded, no shallower than `level`, and becomes the cell being expanded at its own depth |
| Search.CloseKeeps | main.cpp:210-220 | once all eight neighbours are tried, every cell the wave may step onto from the expanded cell is recorded |
| Search.SeedKeeps | main.cpp:201-202 | the start recorded as `0` and alone in the queue establishes the invariant; only a finish equal to the start is recorded |
| Search.AcceptKeeps | main.cpp:169-186 | an accepted neighbour fills exactly one `-1` entry, keeps every old record, and leaves the invariant intact |
| Search.WaveKeeps | main.cpp:157-191 | one call of `Wave` keeps the invariant and every record, records the neighbour whenever a step onto it is allowed, reports found exactly when the finish becomes recorded, and does not grow unvisited entries plus queue length |
| Search.BacktracedKeeps | main.cpp:205-221 | later waves only fill `-1` entries, so a painted backtrace stays valid |
| Search.TracedFinish | main.cpp:171-175 | once the finish is recorded, its chain is a shortest walk from the start, and the painted part is its prefix before `Point(0, 0)` |
| Search.ExpandKeeps | main.cpp:211-220 | each or-assignment of a `Wave` result to the flag keeps the expansion state with one more direction tried, and the finish is reported at most once |
| Search.ExpandDone | main.cpp:205-221 | after the eighth direction the expanded cell is closed and the invariant holds with nothing pending |
| Wave.LabyrinthWave.constructor | main.cpp:129-140 | start and finish are unset, the images are loaded and cleaned, and the visit table has `rows * cols` entries, all `-1` |
| Wave.LabyrinthWave.SetStart | main.cpp:113 | sets the start and nothing else |
| Wave.LabyrinthWave.SetFinish | main.cpp:114 | sets the finish and nothing else |
| Wave.LabyrinthWave.ExtractAndDrawWay | main.cpp:142-154 | paints blue exactly the cells of the recorded chain from `index` up to `Point(0, 0)`; every other pixel keeps its value |
| Wave.LabyrinthWave.ReachFinish | main.cpp:171-176 | records the finish as reached from the current cell, one hop deeper, and paints exactly its chain |
| Wave.LabyrinthWave.Enqueue | main.cpp:184-185 | appends the cell to the queue and records it, in an entry that is still `-1`, as reached from the current cell |
| Wave.LabyrinthWave.Wave | main.cpp:157-191 | the new table, queue and result are the reference step `WaveStep`: an in-grid, unvisited neighbour is recorded, queued unless it is the finish, and found when it is the finish; the image changes only by the painted chain |
| Wave.LabyrinthWave.TryDirection | main.cpp:211 | the wave is sent even when the finish is already found, and the flag is the disjunction |
| Wave.LabyrinthWave.WaveStraight | main.cpp:210-214 | up, right, down and left keep the expansion state, four directions further |
| Wave.LabyrinthWave.WaveDiagonal | main.cpp:216-220 | the four diagonals complete the expansion state to all eight directions |
| Wave.LabyrinthWave.ExpandFront | main.cpp:205-221 | one round of the loop keeps the invariant, reports found exactly when the finish is recorded, and shrinks unvisited entries plus queue length |
| Wave.LabyrinthWave.FindWay | main.cpp:193-230 | `-1` with nothing touched without a start; otherwise `0` exactly when a walk reaches a finish other than the start, with the painted cells the cut backtrace of a shortest walk, and no pixel changed on failure |
| Wave.LabyrinthWave.OnMouse | main.cpp:287-311 | only a left press on a white pixel acts: the first sets the start at row `y`, column `x`; the second sets the finish and runs `FindWay` with its outcome; any later one changes nothing |
| Morphology.Marked | main.cpp:264-267 | a pixel becomes blue exactly when it is white in both the mask and the display image; a pixel that changes was white in both |
| Morphology.MarkedIdempotent | main.cpp:259-270 | copying the way a second time changes nothing |
| Morphology.LabyrinthMorphology.constructor | main.cpp:234-238 | the images are loaded and cleaned, and the way mask is then copied onto the display image |
| Morphology.LabyrinthMorphology.FindWay | main.cpp:259-272 | every display pixel inside the mask's bounds is marked from the mask, every other pixel keeps its value, and the result is 0 |
| Morphology.LabyrinthMorphology.IsEqual | main.cpp:275-283 | true exactly when every pixel within the first image's bounds equals the second's; an image equals itself |

## Left out

- The OpenCV operations are computed outside the model: `morphologyEx`,
  `getStructuringElement`, `Morphology_Operation` and `threshold`.
  - The opened mask used by `Init` is the `mask` parameter.
  - The eroded mask of the morphology strategy is the `way` parameter.
  - `convertTo` and `copyTo` are plain copies.
- The fixed-point `do … while (!IsEqual(...))` loop of
  `LabyrinthMorphology::FindWay` and its final erosion are not modelled.
  They consist only of those opaque operations, and their termination
  depends on them. `IsEqual`, the loop's test, is modelled.
- Windows, drawing and input are left out, because they are I/O:
  - `imread`, `imshow`, `namedWindow`, `waitKey` and `setMouseCallback`;
  - `printf`, `Help`, `HelpWave` and `main`'s argument handling.
- Wave.LabyrinthWave.OnMouse: the green and red circles drawn into the
  display image around the clicked points are not modelled. The contract says
  every pixel off the painted route keeps its value; in the program the
  circle outlines change too. This also changes behaviour: the handler's
  white test reads the display image, so in the program a second click on a
  pixel of the start's green outline is ignored, while in the model that
  pixel is still white and the click sets the finish and runs `FindWay`.
- Wave.LabyrinthWave.OnMouse: the event type becomes the flag `leftDown`.
  The click must lie inside the image, as `Mat::at` requires.
- The destructor's `delete[]` and the `new int[]` of `visits_` are left
  out. The table is a Dafny array allocated in the constructor.
- For the wave search, only channel 0 of a pixel is compared. Channels 1
  and 2 matter only for the colour writes and the equality tests.
- Wave.LabyrinthWave.FindWay: requires the state `Start` leaves (every
  record `-1`, the queue empty). The program calls it only once per `Start`,
  through the mouse handler, which `Ready` tracks.
- The `get_start` and `get_finish` getters are not separate members. The
  fields are read directly.
- The morphology strategy's start and finish are unset fields that it never
  reads.
- Indices and `rows * cols` are 32-bit `int` in the program and unbounded
  here; grids of more than 2^31 - 1 cells, where the program overflows, are
  not modelled.
- The hop depths the wave reaches are ghost state (`dist`), as are the
  walks `route` and `trail` that the methods return. The program keeps
  neither.
