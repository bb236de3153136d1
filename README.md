# Grid refinement of a DOLFIN grid hierarchy, in Dafny

This project models `GridRefinement`, the local refinement driver of DOLFIN's grid kernel
(`src/kernel/grid/GridRefinement.cpp`). The driver runs Bey's algorithm on a hierarchy of
nested triangle or tetrahedron grids. It reads the cells the user marked and turns them into
cell markers and edge marks (`initMarks`). It then adjusts the markers from the next finer
grid (`evaluateMarks`) and runs the green closure (`closeGrid` and `closeCell`). The closure
starts from the cells that have a marked edge and takes them off a worklist one at a time.
A cell that fits a refinement rule of its type takes the marker the rule assigns and is
dropped. A cell that fits no rule marks its unmarked edges and is flagged closed. Every
closed, regularly refined neighbour that shares a newly marked edge goes back on the
worklist. Fitting a rule leaves a cell's `closed` flag as it was. A cell of the initial
list had its flag cleared, so once it has fitted a rule it is not re-examined when a
neighbour later marks another of its edges. A cell flagged closed before the pass keeps its
flag when it fits a rule, so it can be put back on the worklist. Finally `refineGrid` hands
every cell not marked according to a rule to the refinement of its type.
`globalRefinement` runs these passes top-down (phase I), then bottom-up (phase II).

Layout:

- `mesh.dfy` (module `Mesh`): the entities.
  - Markers, statuses and cell types.
  - The `Topology` of the hierarchy: each cell's type, status, edges, children, neighbours
    and level, and each grid's cells, edges and marked cells.
  - The predicates the three query loops compute.
  - The count of marked edges.
- `marking.dfy` (module `Marking`): what `initMarks` and `evaluateMarks` leave. Each is a
  function of the state before the pass, with lemmas giving the result cell by cell and
  edge by edge.
- `closure.dfy` (module `Closure`): what `closeCell` does to the edge marks and the
  worklist, the invariant of `closeGrid`'s worklist loop, and why that loop terminates.
- `rules.dfy` (module `Rules`):
  - the dispatch of `checkRule` and `refine(Cell&, Grid&)` on the cell type;
  - what `refineGrid`'s loops produce;
  - the defect in `refineGrid`'s first loop (see Findings).
- `schedule.dfy` (module `Passes`): the order in which `globalRefinement` runs its passes.
- `refinement.dfy` (module `GridRefinement`): class `GridHierarchy`.
  - Its fields are the data the passes overwrite in place: cell markers, `closed` flags,
    edge marks and the refinements handed out. It also has a ghost trace of the passes run.
  - It has one method per C++ member. A long member is split into one method per loop.
  - Every method is proved against the functions of the modules above.

A cell or an edge is named by its index; the index stands for the `Cell*` or `Edge*` the
C++ code passes around. An edge's mark is the set of cells that have marked it; the edge is
marked when the set is not empty.

## Model

| member | source | states |
|---|---|---|
| `GridRefinement.GridHierarchy.Refine` | src/kernel/grid/GridRefinement.cpp:18-35 | It initialises the marks of the finest grid, then runs the global refinement. On success the passes run are exactly the global schedule. A failure implies that some cell has an unknown type. |
| `GridRefinement.GridHierarchy.GlobalRefinement` | src/kernel/grid/GridRefinement.cpp:46-67 | It runs phase I, then phase II. On success the trace grows by exactly `Schedule(n)` for `n` grids. It fails only when some cell has an unknown type. Edge marks only grow, and refinement calls are only appended. |
| `GridRefinement.GridHierarchy.TopDownPhase` | src/kernel/grid/GridRefinement.cpp:51-55 | From the finest grid to the coarsest, it evaluates each grid, then closes it. The trace grows by `TopDown(n, 0)`. No refinement is handed out, and edge marks only grow. |
| `GridRefinement.GridHierarchy.BottomUpPhase` | src/kernel/grid/GridRefinement.cpp:57-63 | From the coarsest grid to the finest, it closes each grid except grid 0, then unrefines it, then refines it. The trace grows by `BottomUp(n)`. Edge marks only grow, and refinement calls are only appended. |
| `Passes.TopDownAt` | src/kernel/grid/GridRefinement.cpp:51-55 | In phase I, grid `j` is evaluated at position `2(n-1-j)` and closed right after; the phase has `2n` steps. |
| `Passes.BottomUpAt` | src/kernel/grid/GridRefinement.cpp:57-63 | In phase II, grid `j` is unrefined at position `3j` and refined right after, and a grid `j > 0` is closed just before; the phase has `3n-1` steps. |
| `Passes.TopDownOnlyEvaluatesAndCloses` | src/kernel/grid/GridRefinement.cpp:51-55 | Phase I does nothing but evaluate and close. |
| `Passes.BottomUpSkipsCoarsestClose` | src/kernel/grid/GridRefinement.cpp:59-60 | Phase II never closes grid 0. |
| `Passes.ScheduleOrder` | src/kernel/grid/GridRefinement.cpp:46-67 | Where each pass stands in the whole run: every grid is evaluated and closed before any grid is refined, and grid 0 is closed only once, in phase I. |
| `GridRefinement.GridHierarchy.InitMarks` | src/kernel/grid/GridRefinement.cpp:69-90 | The markers become `InitialMarkers` of the old markers. The edge marks become `InitialEdgeMarks` of the old marks. Flags, refinements and trace are unchanged. |
| `GridRefinement.GridHierarchy.MarkEdgesOf` | src/kernel/grid/GridRefinement.cpp:86-87 | Cell `c` is added to the marks of each of its edges. Nothing else changes. |
| `Marking.MarkEdgesByAt` | src/kernel/grid/GridRefinement.cpp:86-87 | After one cell marks its edges, each of those edges is marked by that cell in addition to its earlier marks, and every other edge is unchanged. |
| `Marking.MarkCellsAt` | src/kernel/grid/GridRefinement.cpp:80-89 | After the marked cells mark their edges, an edge is marked by its old marks plus exactly the listed cells that have it. |
| `Marking.InitialMarkersAt` | src/kernel/grid/GridRefinement.cpp:69-90 | After initMarks, a cell on the grid's marked list is marked for regular refinement. Any other cell of the grid is marked for no refinement. Cells of other grids keep their markers. |
| `Marking.InitialEdgeMarksAt` | src/kernel/grid/GridRefinement.cpp:69-90 | After initMarks, an edge of the grid is marked by exactly the grid's marked cells that have it, and every marked cell marks all its edges. Edges of other grids keep their marks. |
| `GridRefinement.GridHierarchy.EvaluateMarks` | src/kernel/grid/GridRefinement.cpp:92-110 | The markers become `Evaluated` over the grid's cells. Flags, edge marks and refinements are unchanged. |
| `Marking.EvaluatedAt` | src/kernel/grid/GridRefinement.cpp:92-110 | Each cell of the grid ends with the marker computed from the markers before the pass, because the children it consults lie in the next finer grid. A regularly refined cell whose children are all marked for coarsening gets no refinement. An irregularly refined cell gets regular refinement if an edge of a child is marked, and no refinement otherwise. Every other cell keeps its marker. |
| `GridRefinement.GridHierarchy.ChildrenMarkedForCoarsening` | src/kernel/grid/GridRefinement.cpp:239-246 | The result is true iff every child is marked for coarsening; this holds vacuously for a cell without children. |
| `GridRefinement.GridHierarchy.EdgeOfChildMarkedForRefinement` | src/kernel/grid/GridRefinement.cpp:248-256 | The result is true iff some edge of some child is marked. |
| `GridRefinement.GridHierarchy.EdgeMarkedByOther` | src/kernel/grid/GridRefinement.cpp:258-267 | The result is true iff some edge of the cell is marked, whoever marked it. |
| `GridRefinement.GridHierarchy.CloseGrid` | src/kernel/grid/GridRefinement.cpp:112-135 | The initial worklist is the grid's cells with a marked edge. The loop terminates under the measure (unmarked edges, worklist length). At the end, marks have only grown, cells off the initial list keep their `closed` flag, and every closed cell of the initial list has all its edges marked. A marker changes only for a cell on the initial list or one closed before the pass, the only cells the loop can take off the worklist. A failure implies a cell of unknown type. |
| `GridRefinement.GridHierarchy.OpenMarkedCells` | src/kernel/grid/GridRefinement.cpp:117-123 | The worklist is the grid's cells with a marked edge, in order. Exactly those cells have their `closed` flag cleared. |
| `Closure.WithMarkedEdgeMembers` | src/kernel/grid/GridRefinement.cpp:118-123 | A cell is on the initial worklist iff it belongs to the grid and has a marked edge. |
| `Closure.CloseRound` | src/kernel/grid/GridRefinement.cpp:125-134 | Either outcome of `closeCell` keeps the loop invariant. The number of unmarked edges falls, or it stays the same and the worklist does not grow. |
| `GridRefinement.GridHierarchy.CloseCell` | src/kernel/grid/GridRefinement.cpp:168-207 | It fails iff the cell's type is unknown, and then nothing changes. If a rule fits, the cell takes the marker the rule assigns and nothing else changes. If no rule fits, the cell's unmarked edges are marked by it, the woken neighbours are appended to the worklist, and the cell is flagged closed. |
| `GridRefinement.GridHierarchy.CountMarkedEdges` | src/kernel/grid/GridRefinement.cpp:175-179 | The count is the number of marked edges of the cell. |
| `Mesh.MarkedCount` | src/kernel/grid/GridRefinement.cpp:175-179 | The count is at most the number of edges. It is zero iff no edge is marked, and equals the number of edges iff all are marked. |
| `GridRefinement.GridHierarchy.MarkUnmarkedEdges` | src/kernel/grid/GridRefinement.cpp:189-202 | The edge marks become `MarkUnmarked` of the old marks. The worklist grows by `Enqueued`. Markers and flags are unchanged. |
| `Closure.MarkUnmarkedAt` | src/kernel/grid/GridRefinement.cpp:189-197 | An edge of the cell that was unmarked ends marked by the cell alone. Every other edge keeps its marks. |
| `Closure.MarkUnmarkedMarksAll` | src/kernel/grid/GridRefinement.cpp:189-197 | The loop only adds marks, and it leaves every edge of the cell marked. |
| `Mesh.AllEdgesMarkedPersists` | src/kernel/grid/GridRefinement.cpp:191-196 | A cell with all edges marked keeps that property while marks only grow. |
| `Closure.MarkingShrinksUnmarked` | src/kernel/grid/GridRefinement.cpp:195-196 | Marking an unmarked edge removes exactly that edge from the unmarked ones. |
| `Closure.MarkUnmarkedShrinks` | src/kernel/grid/GridRefinement.cpp:189-202 | The loop never increases the number of unmarked edges, and it decreases it whenever it appends a cell to the worklist. |
| `GridRefinement.GridHierarchy.WakeNeighbors` | src/kernel/grid/GridRefinement.cpp:198-201 | The worklist grows by `Woken`, the neighbours the newly marked edge wakes, in order. |
| `Closure.WokenMembers` | src/kernel/grid/GridRefinement.cpp:199-201 | A neighbour is woken iff it has the edge, is closed, was regularly refined, and is not the cell itself. |
| `Closure.EnqueuedMembers` | src/kernel/grid/GridRefinement.cpp:189-202 | A cell is appended iff it meets all of these: it is a neighbour, is closed, was regularly refined, is not the cell itself, and has an edge of the cell that was unmarked. |
| `Rules.CheckRule` | src/kernel/grid/GridRefinement.cpp:209-223 | Triangles and tetrahedra ask their own rules. Any other type is an error. |
| `Rules.RefineDispatch` | src/kernel/grid/GridRefinement.cpp:225-237 | The cell goes to the refinement of its own type, with its marker. Any other type is an error. |
| `GridRefinement.GridHierarchy.RefineCell` | src/kernel/grid/GridRefinement.cpp:225-237 | One refinement call is recorded exactly when the type is known. Otherwise the result is a failure and nothing is recorded. |
| `GridRefinement.GridHierarchy.RefineGrid` | src/kernel/grid/GridRefinement.cpp:137-158 | As written, the first loop changes no marker: the markers are `ClearCoarseningAsWritten` of the old ones. The recorded calls and the outcome are those of `RunRefine` on the old markers. A failure implies a cell of unknown type. |
| `GridRefinement.GridHierarchy.ClearCoarseningMarkers` | src/kernel/grid/GridRefinement.cpp:142-146 | The first loop as its comment describes it, with the guard negated; this is the corrected half of the finding, and `RefineGrid` does not call it. The markers become `ClearCoarsening` of the old markers over the grid's cells. Nothing else changes. |
| `Rules.ClearCoarseningAt` | src/kernel/grid/GridRefinement.cpp:142-146 | A cell of the grid marked for coarsening ends marked for no refinement. Every other marker is unchanged. |
| `GridRefinement.GridHierarchy.RefineCells` | src/kernel/grid/GridRefinement.cpp:147-157 | The recorded calls and the outcome are those of `RunRefine` over the grid's cells. Markers, flags and marks are unchanged. |
| `Rules.ToRefine` | src/kernel/grid/GridRefinement.cpp:150-152 | The cells handed over are exactly the grid's cells not marked according to a rule. |
| `Rules.RunRefineStops` | src/kernel/grid/GridRefinement.cpp:147-157 | After the first cell of unknown type, the loop hands over nothing more. |
| `Rules.RunRefineFails` | src/kernel/grid/GridRefinement.cpp:147-157 | The loop fails iff some cell it does not skip has an unknown type. |
| `Rules.RunRefineCalls` | src/kernel/grid/GridRefinement.cpp:147-157 | When the loop gets through, it has made exactly one call per cell not marked according to a rule, in grid order. Each call goes to the refinement of that cell's type, with that cell's marker. |
| `Rules.RunRefineMarkers` | src/kernel/grid/GridRefinement.cpp:147-157 | Every call is for a cell of the grid and carries that cell's marker. |
| `Rules.AsWrittenKeepsCoarsening` | src/kernel/grid/GridRefinement.cpp:142-146 | With the first loop as written, a cell marked for coarsening keeps that marker. With the loop as intended, it becomes marked for no refinement. |
| `Rules.CoarseningMarkerReachesRefine` | src/kernel/grid/GridRefinement.cpp:142-157 | On one triangle marked for coarsening, the code as written hands that marker to the triangle refinement. The corrected loop hands it "no refinement" instead. |
| `Rules.NoCoarseningReachesRefine` | src/kernel/grid/GridRefinement.cpp:142-157 | With the first loop as intended, no cell reaches the refinement of its type still marked for coarsening. |
| `GridRefinement.GridHierarchy.UnrefineGrid` | src/kernel/grid/GridRefinement.cpp:160-166 | It changes no marker, flag, mark or refinement. It only records its step in the trace. |

## Left out

- The refinement rules of triangles and tetrahedra (`TriGridRefinement`, `TetGridRefinement`) are not part of this model. Their rule check is a value of `RuleTables`: any function of the cell and its number of marked edges. It yields either no rule, or the marker the matching rule assigns to the cell, which `closeCell` stores. The model does not say which markers the rules assign; in particular, nothing here shows that they assign `marked_according_to_ref`, the marker `refineGrid` skips. A rule check that also reads or writes the marks of the cell's edges is not captured. A refinement of a cell is recorded as a call, with the marker the cell carries; it is not performed.
- `createFineGrid` (lines 37-44) has its body commented out, so it does nothing and is not modelled.
- The log messages and console output (`dolfin_start`, `cout`, `dolfin_end`) are left out: they do not affect the state.
- `dolfin_error("Unknown cell type.")` is modelled as the operation ending with `Fail(UnknownCellType)`. The outcome propagates up and ends the whole refinement. The unreachable `return false` after it in `checkRule` is not modelled.
- `Cell::initMarker` and `Edge::initMarker` are not part of this model. They are taken to set the default marker (no refinement) and an empty edge mark.
- The hierarchy's structure is fixed (`Topology`) while the passes run. Refinement does not add cells or grids here, because the per-type refinements that would add them are not modelled.
- Pointers are indices. Aliasing between cells is therefore not modelled, beyond a cell's neighbour list possibly containing the cell itself.
- `List<Cell*>` is a sequence. `pop` is taken to remove the first element, as the comment at line 128 says, and `add` appends at the end.
- GridRefinement.GridHierarchy.CloseGrid: its contract states the invariant the loop keeps, not that every cell on the initial list ends up closed. A cell that fits a rule is removed from the list without being flagged closed, exactly as the source does.
- Every grid has at least one cell (`Topology.WellFormed`). On an empty grid the first loop of `refineGrid` (line 143) would test its guard at the end iterator, find it true and dereference that iterator. The model does not represent that undefined behaviour; this is also why the loop as written changes nothing.
- GridRefinement.GridHierarchy.GlobalRefinement: its contract states the schedule, the failure condition, that edge marks only grow and that refinement calls are only appended. It does not state the markers, flags and calls the two phases leave; those are stated pass by pass by the members above.
- GridRefinement.GridHierarchy.TopDownPhase: its contract states the schedule, that no refinement is handed out and that edge marks only grow. It does not state the markers and flags the phase leaves; those are stated pass by pass by `EvaluateMarks` and `CloseGrid`.
- GridRefinement.GridHierarchy.BottomUpPhase: its contract states the schedule, that edge marks only grow and that refinement calls are only appended. It does not state which calls are made; that is stated grid by grid by `RefineGrid`.
- GridRefinement.GridHierarchy.Refine: its contract states the schedule of passes and the failure condition, not the markers and marks that the whole run leaves. Those are stated pass by pass by the members above.
- GridRefinement.GridHierarchy.EdgeMarkedByOther follows the code, which tests whether any edge is marked. Its name and the FIXME next to it suggest that marks made by the cell itself were meant to be excluded. With no statement of the intended rule, the code is modelled as written.

## Findings

| source | as written | input that shows it | evidently intended | confidence | as-written member | corrected member |
|---|---|---|---|---|---|---|
| src/kernel/grid/GridRefinement.cpp:143 | The first loop of `refineGrid` runs while `c.end()` holds. On a grid with cells the iterator does not start at the end, so the loop never runs, and cells marked for coarsening keep that marker. | A hierarchy of two or more grids whose grid 0 holds an unrefined triangle marked for coarsening with no marked edge. `initMarks` touches only the finest grid, and `evaluateMarks` keeps an unrefined cell's marker. Phase I's `closeGrid` on grid 0 does not put the triangle on its worklist, because it has no marked edge, and never wakes it, because only regularly refined cells are woken. So no rule overwrites its marker, and the triangle reaches the triangle refinement still marked for coarsening. | The guard is `!c.end()`, as in every other loop of the file, so that every coarsening marker becomes "no refinement" before refinement, as the loop's comment says. | high; not executed | `Rules.AsWrittenKeepsCoarsening` | `Rules.NoCoarseningReachesRefine` |

`Rules.ClearCoarseningAsWritten` is the loop as written, and `GridRefinement.GridHierarchy.RefineGrid` follows it, as the code does. `Rules.CoarseningMarkerReachesRefine` runs both versions on the one-triangle grid. `Rules.ClearCoarsening`, with `GridRefinement.GridHierarchy.ClearCoarseningMarkers` as its loop, is the corrected version. The loop is a no-op only because grids are never empty; on an empty grid it would dereference the end iterator (see "## Left out").
