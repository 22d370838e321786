# VisibleObjectActivator, modelled in Dafny

`VisibleObjectActivator` is a Unity component that switches its child objects on
and off depending on whether they can be seen. It covers a square of side
`_size`, centred on its own position, with a `2^depth x 2^depth` grid of cells.
Each cell holds a list of the objects whose horizontal position falls inside it.

Every frame, `Update` walks the grid like a quadtree:

- The world rectangle of a range of cells is checked against the camera frustum.
  The test computes a Cohen-Sutherland outcode for each corner and ANDs them.
- A rejected range has all its objects deactivated.
- A visible single row or column has all its objects activated.
- A visible larger range is split into four quadrants.
- While it sweeps a cell, the walk also drops the entries of destroyed objects.
  They are queued in a shared pending-removal list and removed with
  `List<T>.Remove`.

When movement tracking is on, a second pass (`CheckObjectsMovement`) moves every
object whose position now maps to another cell, and drops the objects that left
the region. Changing the side or the depth rebuilds the grid and re-inserts every
entry.

The project is six modules, one per file:

- `seqs.dfy`: filtering, `List<T>.Remove`, and removing a pending list one element at a time.
- `geometry.dfy`: C#'s truncating `(int)`, `2^depth`, and the cell index along one axis.
- `frustum.dfy`: clip-space outcodes, `RectInCamera`, and the no-false-negative theorem.
- `quadtree.dfy`: index ranges, quadrants, and the trace of cells the walk visits with each one's verdict.
- `grid.dfy`: value-level specifications.
  - where an object belongs;
  - what the reindexer leaves in each cell;
  - what a rebuild leaves;
  - which activation state the walk leaves each object in.
- `activator.dfy`: the class `VisibleObjectActivator`.
  - Its fields are `targetCamera`, `size`, `depth`, `checkMovement`, the cell array `gameObjects : array2?<seq<GameObject>>` and `sharedToRemove`.
  - Its methods are proved against the functions of `grid.dfy`.

Some things become explicit inputs:

- The scene (container position, which objects are alive, object positions) is a `Scene` value.
- `Camera.main` is a parameter.
- The children of the container are a sequence parameter.
- The `SetActive` state is a map from object to `bool` that goes in and comes out of the walk.

## Model

| member | source | states |
|---|---|---|
| Seqs.RemoveFirstCount | Assets/Scripts/VisibleObjectActivator.cs:241-244 | `List<T>.Remove` (`RemoveFirst`) takes away exactly one occurrence of the element when the list holds it, and otherwise leaves the list unchanged |
| Seqs.RemoveAllCount | Assets/Scripts/VisibleObjectActivator.cs:324-327 | the loop of `Remove` calls (`RemoveAll`) takes away one occurrence of each listed element that is still there, and nothing else |
| Geometry.TruncateToInt | Assets/Scripts/VisibleObjectActivator.cs:393-394 | C#'s `(int)` conversion truncates toward zero: the result is within one of the argument, on the side of zero (so `(int)(-0.5) == 0`) |
| Geometry.Pow2 | Assets/Scripts/VisibleObjectActivator.cs:100-104 | the doubling loop's side is at least 1, and at least 2 and even once `depth >= 1` |
| Geometry.BlockIndexIff | Assets/Scripts/VisibleObjectActivator.cs:390-394 | a coordinate gets index `k >= 0` exactly when it lies in the cell's stretch `[Edge(k), Edge(k+1))`, or, for `k == 0` only, in the one-cell strip below the low edge that truncation also sends to 0 |
| Geometry.BlockIndexBounds | Assets/Scripts/VisibleObjectActivator.cs:390-394 | the index `BlockIndex` computes is non-negative only for a position in the stretch of the cell it names, or in the one-cell strip below the low edge for index 0; it is negative exactly at or below one cell width under the low edge, and below `n` exactly below the far edge |
| Geometry.RegionEdges | Assets/Scripts/VisibleObjectActivator.cs:390-400 | the far edge `+halfSize` gets index `n` and is rejected; the low edge `-halfSize` lands in cell 0 |
| Frustum.ComputeOutCode | Assets/Scripts/VisibleObjectActivator.cs:159-176 | each of the six bits is set exactly when its clip-space constraint is violated; the code is 0 exactly when the point is inside all six |
| Frustum.OutCodeBit | Assets/Scripts/VisibleObjectActivator.cs:159-176 | bit `k` of the outcode is set exactly when the point's margin from face `k` is negative |
| Frustum.ResolveCamera | Assets/Scripts/VisibleObjectActivator.cs:179-184 | the target camera when set, else the main camera; none exactly when both are missing |
| Quadtree.Corners | Assets/Scripts/VisibleObjectActivator.cs:211-214 | the four corners form an axis-aligned rectangle whose first corner is the low-x, low-z one when the cell side is positive |
| Frustum.RectInCamera | Assets/Scripts/VisibleObjectActivator.cs:179-197 | with no camera the rectangle is reported not visible |
| Frustum.AndOfCodes | Assets/Scripts/VisibleObjectActivator.cs:191-197 | `63` ANDed with four outcodes is zero exactly when no bit is common to all four |
| Frustum.OutCodesAndIff | Assets/Scripts/VisibleObjectActivator.cs:191-197 | the AND of four outcodes is zero exactly when no face has all four points outside it |
| Frustum.QuadVisibleIff | Assets/Scripts/VisibleObjectActivator.cs:191-197 | a rectangle is rejected exactly when one face of the frustum has all four corners outside it |
| Frustum.CornerInsideVisible | Assets/Scripts/VisibleObjectActivator.cs:191-197 | a rectangle with a corner whose outcode is 0 is never rejected |
| Frustum.MarginAffine | Assets/Scripts/VisibleObjectActivator.cs:192-195 | each face margin of a point on the ground plane is an affine function of its `(x, z)` |
| Frustum.FaceSeparates | Assets/Scripts/VisibleObjectActivator.cs:192-197 | a face with all four corners of an axis-aligned rectangle outside has every point of the rectangle outside |
| Frustum.NoFalseNegative | Assets/Scripts/VisibleObjectActivator.cs:156-197 | if any point of the rectangle has outcode 0, the rectangle is reported visible |
| Quadtree.Quadrants | Assets/Scripts/VisibleObjectActivator.cs:252-260 | the four quadrants are non-empty, smaller than their parent, cover it, and do not overlap |
| Quadtree.QuadrantsOfSquare | Assets/Scripts/VisibleObjectActivator.cs:252-260 | a `2^(d+1)` square is not a leaf and splits into four `2^d` squares |
| Quadtree.VisibleVisitsInLeaves | Assets/Scripts/VisibleObjectActivator.cs:216-261 | every cell the walk activates lies in one of the ranges its recursion activates whole (`VisibleLeaves`) |
| Quadtree.SquareLeavesAreCells | Assets/Scripts/VisibleObjectActivator.cs:216-261 | starting from a `2^d` square, such as the `2^depth` grid, every range the walk activates whole is a single cell |
| Quadtree.QuadrantSets | Assets/Scripts/VisibleObjectActivator.cs:252-260 | the quadrants' cell sets partition the parent's cell set |
| Quadtree.RowVisitsAt | Assets/Scripts/VisibleObjectActivator.cs:225-226 | the `k`-th cell of the column loop is column `jStart + k`, and the loop makes `jEnd - jStart` steps |
| Quadtree.RowVisitsCover | Assets/Scripts/VisibleObjectActivator.cs:225-226 | the column loop reaches each column of the row once, nothing else, with one verdict |
| Quadtree.RangeVisitsCover | Assets/Scripts/VisibleObjectActivator.cs:265-268 | the nested loops reach every cell of the range exactly once, nothing else, with one verdict |
| Quadtree.VisitsCover | Assets/Scripts/VisibleObjectActivator.cs:200-292 | the walk's trace `Visits`, which follows the recursion and the nested loops of `SetAreaActiveState`, acts on every cell of its starting range exactly once and on no cell outside it |
| Quadtree.NoCameraHidesAll | Assets/Scripts/VisibleObjectActivator.cs:263-290 | with no camera every cell the walk reaches is deactivated |
| Quadtree.VisibleCellNeverHidden | Assets/Scripts/VisibleObjectActivator.cs:216-260 | a cell whose rectangle holds a point with outcode 0 is activated, never deactivated |
| Grid.BestBlockOk | Assets/Scripts/VisibleObjectActivator.cs:388-402 | `BestBlock`, the block computation of `CalculateBestBlock`, accepts an object exactly when both relative coordinates lie in the accepted stretch |
| Grid.BestBlockIff | Assets/Scripts/VisibleObjectActivator.cs:388-402 | an object's block is `(a, b)` exactly when `(a, b)` is in the grid and the position lies in that cell's stretch on both axes |
| Grid.ReindexedPlaces | Assets/Scripts/VisibleObjectActivator.cs:294-330 | after the reindexer every object in a cell belongs in that cell |
| Grid.ReindexedCount | Assets/Scripts/VisibleObjectActivator.cs:294-330 | the reindexer neither loses nor duplicates: a cell ends with every occurrence in the grid of each object that belongs there, and objects that left the region are in no cell |
| Grid.ReindexSettled | Assets/Scripts/VisibleObjectActivator.cs:294-330 | when no object has moved out of its cell, the reindexer changes nothing |
| Grid.ReindexIdempotent | Assets/Scripts/VisibleObjectActivator.cs:294-330 | reindexing twice gives the same grid as reindexing once |
| Grid.ReachedHeld | Assets/Scripts/VisibleObjectActivator.cs:305-310 | what a cell holds when the reindexer reaches it comes from the starting grid (so every entry it reads is alive) |
| Grid.ProgressEmpty | Assets/Scripts/VisibleObjectActivator.cs:305-308 | before any entry of the cell is handled the grid is as the walk reached it |
| Grid.ProgressStep | Assets/Scripts/VisibleObjectActivator.cs:310-321 | handling one entry appends it to the one other cell it belongs in, if any, and changes nothing else |
| Grid.StageHeld | Assets/Scripts/VisibleObjectActivator.cs:301-329 | every object any cell holds during the reindexer's walk was held in the starting grid |
| Grid.StageUnhandled | Assets/Scripts/VisibleObjectActivator.cs:301-329 | a cell the walk has not handled yet has received only objects that belong in it, so the objects it holds that belong in another cell are exactly those of its starting list that do, in order |
| Grid.WalkedIsStage | Assets/Scripts/VisibleObjectActivator.cs:301-329 | `Walked`, the step-by-step reindexer, which queues leavers and removes them one at a time with `List<T>.Remove`, equals the filter description at every point of the walk |
| Grid.WalkedDone | Assets/Scripts/VisibleObjectActivator.cs:324-327 | removing a handled cell's queued leavers one by one keeps exactly its objects that belong there |
| Grid.DropLeavers | Assets/Scripts/VisibleObjectActivator.cs:324-327 | removing every leaver of a list with `List<T>.Remove` keeps exactly the objects that belong in the cell, in order |
| Grid.WalkedPassed | Assets/Scripts/VisibleObjectActivator.cs:316-321 | every other cell receives, in order, the handled cell's objects that belong in it |
| Grid.StageClosed | Assets/Scripts/VisibleObjectActivator.cs:301-329 | the walk's state at every point equals its closed form: handled cells filtered, plus arrivals from the cells handled before |
| Grid.ClosedDone | Assets/Scripts/VisibleObjectActivator.cs:324-327 | closed form: handling a cell filters its own list |
| Grid.ClosedPassed | Assets/Scripts/VisibleObjectActivator.cs:316-321 | closed form: handling a cell appends its belonging objects to every other cell |
| Grid.WalkedEnd | Assets/Scripts/VisibleObjectActivator.cs:301-329 | after the last row every cell holds exactly its reindexed list |
| Grid.FlattenHeld | Assets/Scripts/VisibleObjectActivator.cs:133-139 | every collected entry was held in the grid |
| Grid.FirstMisfit | Assets/Scripts/VisibleObjectActivator.cs:142-145 | the entries before the returned position all have a block, and the entry at it has none |
| Grid.RebuildPlacesEach | Assets/Scripts/VisibleObjectActivator.cs:410-418 | adding a list to empty cells puts every occurrence of each object in the cell its position gives, and in no other |
| Grid.SweptClean | Assets/Scripts/VisibleObjectActivator.cs:229-246 | with an empty pending list, sweeping a cell keeps exactly its live entries, in order |
| Grid.StaleQueueDropsMovedObject | Assets/Scripts/VisibleObjectActivator.cs:307 | a live object moved into cell (0, 0) is removed from the grid when the next sweep starts from the reindexer's leftover queue; with an empty queue it is kept |
| Grid.PurgedHeld | Assets/Scripts/VisibleObjectActivator.cs:229-246 | after the sweep only live objects are held |
| Grid.ActivatedMap | Assets/Scripts/VisibleObjectActivator.cs:229-234 | the `SetActive` calls of one cell set every live object of it to the verdict and leave every other object as it was |
| Grid.RowActivatedIsWalk | Assets/Scripts/VisibleObjectActivator.cs:225-239 | the column loop performs the walk over its row's visits |
| Grid.RangeActivatedIsWalk | Assets/Scripts/VisibleObjectActivator.cs:223-239 | the nested loops perform the walk over the range's visits |
| Grid.ApplyVisitsAgree | Assets/Scripts/VisibleObjectActivator.cs:227-229 | the walk reads only the cells it visits |
| Grid.ApplyVisitsLast | Assets/Scripts/VisibleObjectActivator.cs:229-234 | an object ends in the state of the last visited cell that holds it |
| Grid.ApplyVisitsUntouched | Assets/Scripts/VisibleObjectActivator.cs:223-290 | an object in no visited cell keeps its state |
| Grid.WalkActivatedIsWalk | Assets/Scripts/VisibleObjectActivator.cs:200-292 | the recursion's `SetActive` calls are those of its trace, in order |
| Grid.WalkVerdict | Assets/Scripts/VisibleObjectActivator.cs:200-292 | a live object held in exactly one cell ends in the verdict the walk applies to that cell |
| Grid.VisibleObjectActive | Assets/Scripts/VisibleObjectActivator.cs:216-239 | a live object held only in a cell whose rectangle holds a point with outcode 0 ends active |
| Grid.ApplyVisitsHidden | Assets/Scripts/VisibleObjectActivator.cs:263-290 | when every visit deactivates its cell, an object live in any visited cell ends inactive, however many cells hold it |
| Grid.NoCameraObjectInactive | Assets/Scripts/VisibleObjectActivator.cs:263-290 | with no camera every live object held in any cell of the walked range ends inactive |
| Activator.InitCheck | Assets/Scripts/VisibleObjectActivator.cs:88-99 | the checks pass exactly when `size > 1` and `depth >= 1`; otherwise the size is reported first |
| Activator.VisibleObjectActivator.constructor | Assets/Scripts/VisibleObjectActivator.cs:7-20 | the serialized defaults: side 100, depth 5, no camera, no movement checks, no grid |
| Activator.VisibleObjectActivator.CalculateBestBlock | Assets/Scripts/VisibleObjectActivator.cs:379-403 | without a grid it fails with `(0, 0)`; otherwise it succeeds exactly when the position is in the accepted stretch on both axes, and then names the cell whose stretch holds it |
| Activator.VisibleObjectActivator.CanAddGameObject | Assets/Scripts/VisibleObjectActivator.cs:405-408 | true exactly when a grid exists and the position is in the accepted region |
| Activator.VisibleObjectActivator.AddGameObject | Assets/Scripts/VisibleObjectActivator.cs:410-418 | throws `InvalidOperationException` exactly when the object cannot be added; otherwise appends it to its own cell only |
| Activator.VisibleObjectActivator.InitContainer | Assets/Scripts/VisibleObjectActivator.cs:88-115 | throws for a rejected side or depth and keeps the grid; otherwise installs a fresh `2^depth x 2^depth` grid of empty lists |
| Activator.VisibleObjectActivator.CollectEntries | Assets/Scripts/VisibleObjectActivator.cs:130-139 | returns every entry of the grid, cell by cell in row-major order |
| Activator.VisibleObjectActivator.AddAll | Assets/Scripts/VisibleObjectActivator.cs:142-145 | each cell holds, in order, the entries before the first misfit that belong there; throws exactly when there is a misfit |
| Activator.VisibleObjectActivator.ChangeContainer | Assets/Scripts/VisibleObjectActivator.cs:122-146 | a rejected side or depth throws and keeps the grid; otherwise a fresh grid holds the old entries re-added up to the first misfit, whose exception is returned |
| Activator.VisibleObjectActivator.SetSize | Assets/Scripts/VisibleObjectActivator.cs:22-30 | stores the side even when the rebuild throws, then rebuilds as `ChangeContainer` says |
| Activator.VisibleObjectActivator.SetDepth | Assets/Scripts/VisibleObjectActivator.cs:31-39 | stores the depth even when the rebuild throws, then rebuilds as `ChangeContainer` says |
| Activator.VisibleObjectActivator.Awake | Assets/Scripts/VisibleObjectActivator.cs:45-59 | after the container checks, each cell holds, in child order, exactly the children whose position maps to it; the others are skipped |
| Activator.VisibleObjectActivator.MarkCell | Assets/Scripts/VisibleObjectActivator.cs:229-239 | every live entry is switched to the verdict; every destroyed entry is queued after what was pending |
| Activator.VisibleObjectActivator.RemoveQueued | Assets/Scripts/VisibleObjectActivator.cs:241-244 | the cell loses the queued entries one `Remove` at a time; no other cell changes |
| Activator.VisibleObjectActivator.SweepCell | Assets/Scripts/VisibleObjectActivator.cs:227-246 | the cell becomes its sweep with the pending list (just its live entries when nothing is pending); the list ends empty; other cells are unchanged |
| Activator.VisibleObjectActivator.SweepRow | Assets/Scripts/VisibleObjectActivator.cs:225-247 | the row's cells lose their destroyed entries, other cells are unchanged, and activation follows the loop |
| Activator.VisibleObjectActivator.SweepRange | Assets/Scripts/VisibleObjectActivator.cs:265-290 | the range's cells lose their destroyed entries, other cells are unchanged, and activation follows the nested loops |
| Activator.VisibleObjectActivator.SetAreaActiveState | Assets/Scripts/VisibleObjectActivator.cs:200-292 | every cell of the range loses its destroyed entries; cells outside are untouched; activation is the recursion's |
| Activator.VisibleObjectActivator.Update | Assets/Scripts/VisibleObjectActivator.cs:64-80 | without a grid nothing changes; otherwise activation is the walk over the whole grid, and each cell ends swept, or swept and then reindexed when movement checks are on |
| Activator.VisibleObjectActivator.MoveEntry | Assets/Scripts/VisibleObjectActivator.cs:308-322 | one entry: queued when it has no block; queued and appended to its new cell when that is another cell; left alone otherwise |
| Activator.VisibleObjectActivator.MoveEntries | Assets/Scripts/VisibleObjectActivator.cs:305-322 | after the cell's entries are handled, other cells hold their arrivals and the queue holds the cell's leavers |
| Activator.VisibleObjectActivator.ReindexCell | Assets/Scripts/VisibleObjectActivator.cs:305-327 | one cell moves the grid one step along the reindexer's walk, leaving the cell's leavers queued |
| Activator.VisibleObjectActivator.ReindexRow | Assets/Scripts/VisibleObjectActivator.cs:303-328 | one row moves the grid from the start of the row to the start of the next |
| Activator.VisibleObjectActivator.ReindexRows | Assets/Scripts/VisibleObjectActivator.cs:301-329 | all rows move the grid to the end of the walk, leaving the last cell's leavers queued |
| Activator.VisibleObjectActivator.CheckObjectsMovementAsWritten | Assets/Scripts/VisibleObjectActivator.cs:294-330 | every cell ends with its reindexed list; the pending list still holds the leavers of cell `(n-1, n-1)` |
| Activator.VisibleObjectActivator.CheckObjectsMovement | Assets/Scripts/VisibleObjectActivator.cs:294-330 | every cell ends with its reindexed list, and the pending list is left empty |

## Left out

- `GizmosArea` and `OnDrawGizmos` (lines 332-377 and 423-437) are not modelled. They only draw debug rectangles and change no state.
- The getters, and the `TargetCamera` and `CheckMovement` setters, only read or assign a field. The model reads and assigns the fields directly.
- Floating point is modelled with exact `real` arithmetic. `float` rounding, overflow, NaN and the C# conversion of out-of-range values to `int` are not modelled.
- A camera is reduced to one view-projection matrix and its near and far planes.
  - That matrix is the product of `projectionMatrix` and `worldToCameraMatrix`.
  - `Camera.main` is a parameter.
  - Unity's camera internals are not modelled.
- `SetActive` is modelled as a map from objects to their activation flag. Unity's hierarchy of active states and the callbacks that `SetActive` triggers are not modelled.
- The container's position, object positions, liveness and the children of `transform` are inputs (`Scene`, a child sequence). They are not read from a scene graph.
- Activator.VisibleObjectActivator.CalculateBestBlock: requires a live object when a grid exists. Reading a destroyed object's transform throws `MissingReferenceException`, which is not modelled.
- Activator.VisibleObjectActivator.CanAddGameObject: requires a live object when a grid exists, for the same reason.
- Activator.VisibleObjectActivator.AddGameObject: requires a live object when a grid exists, for the same reason.
- Activator.VisibleObjectActivator.Awake: requires live children, for the same reason.
- Activator.VisibleObjectActivator.ChangeContainer: requires every held entry to be alive, and the grid square (which every grid `InitContainer` builds is), for the same reason.
- Activator.VisibleObjectActivator.SetSize: same requirement as `ChangeContainer`.
- Activator.VisibleObjectActivator.SetDepth: same requirement as `ChangeContainer`.
- Activator.VisibleObjectActivator.CheckObjectsMovement: requires every held entry to be alive. The source reads each entry's position without a null check and would throw on a destroyed one. `Update` meets this by sweeping first.
- Activator.VisibleObjectActivator.CheckObjectsMovementAsWritten: the same requirement as `CheckObjectsMovement`.
- Activator.VisibleObjectActivator.SetAreaActiveState: requires an empty pending-removal list on entry. This is the corrected behaviour. A non-empty leftover list is the Findings row below; `SweepCell` keeps the general contract for it.
- Activator.VisibleObjectActivator.SweepRow: the same empty-list requirement as `SetAreaActiveState`.
- Activator.VisibleObjectActivator.SweepRange: the same empty-list requirement as `SetAreaActiveState`.
- Activator.VisibleObjectActivator.Update: requires `Valid()`, that is a square grid built with `size > 1`.
  - The `Size` setter can store a side of at most 1 and keep the old grid when the rebuild throws.
  - The frame `Update` would then run with that side is not covered.
  - `Update` also requires an empty pending-removal list; see `SetAreaActiveState`.
  - `Update` runs the corrected `CheckObjectsMovement`, which leaves the pending list empty. The frame as written, which leaves the leavers of the last cell queued, is covered only by `CheckObjectsMovementAsWritten` and the Findings row below.
- Activator.VisibleObjectActivator.InitContainer: does not model the 32-bit overflow of `arraySize *= 2` for `depth >= 31`. `Pow2` is unbounded.
- `InitContainer` and `ChangeContainer` read `size` and `depth` from the fields, not from parameters, because every call site passes `_size` and `_depth`.
- Exceptions are returned as a `Status` value. What Unity does with an exception that escapes `Awake` or `Update` is not modelled.
- The lazy creation of `_sharedGameObjectsToRemove` (lines 206-209 and 296-299) is not modelled. The constructor starts with an empty list, which behaves the same.

In three places the code does something a reader might not expect; the model follows the code:

- The cell index uses C#'s truncation toward zero, not the floor. So positions up to one cell width below the low edge land in cell 0 (`Geometry.BlockIndexIff`).
- With no camera, `RectInCamera` reports every rectangle invisible. The walk therefore deactivates every object (`Grid.NoCameraObjectInactive`); it does not leave the states unchanged.
- A rebuild does not silently drop the entries that no longer fit. It throws `InvalidOperationException` at the first one, and every entry after it is lost as well (`Activator.VisibleObjectActivator.AddAll`).

## Findings

| source | as written | input that shows it | evidently intended | confidence | as-written member | corrected member |
|---|---|---|---|---|---|---|
| Assets/Scripts/VisibleObjectActivator.cs:307 | `_sharedGameObjectsToRemove` is cleared at the start of each cell of `CheckObjectsMovement`, so the leavers of the last cell `(n-1, n-1)` stay queued. The next `SetAreaActiveState` always sweeps cell `(0, 0)` first and removes those objects from it. | 2 x 2 grid, side 4, container at the origin; live object 7 at `(-1, -1)` still listed in cell `(1, 1)`. The reindexer moves it to `(0, 0)` and leaves `[7]` queued, and the next frame's first sweep removes 7 from the grid although it is alive. | the pending list is empty after the reindexer, so a sweep only removes destroyed entries | high (not executed) | Activator.VisibleObjectActivator.CheckObjectsMovementAsWritten, Grid.StaleQueueDropsMovedObject | Activator.VisibleObjectActivator.CheckObjectsMovement |
