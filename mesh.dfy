/** The entities the grid refinement works on: cells and edges of a hierarchy of grids,
    their refinement markers, and the predicates over them that the passes evaluate.
    A cell or an edge is named by its index (standing for the Cell* / Edge* the C++ code
    passes around); the fixed structure of the hierarchy is a `Topology` value and the
    data the passes overwrite lives in `GridRefinement.GridHierarchy`. */
module Mesh {

  type CellId = nat
  type EdgeId = nat

  /** Refinement marker of a cell (Cell::marker()). */
  datatype Marker =
    | MarkedForRegRef
    | MarkedForNoRef
    | MarkedForCoarsening
    | MarkedAccordingToRef

  /** Refinement status of a cell (Cell::status()): how the cell was refined last time. */
  datatype Status = RefReg | RefIrr | Unref

  /** Cell::type(); `NoType` is every value other than triangle and tetrahedron. */
  datatype CellType = Triangle | Tetrahedron | NoType

  /** The error `dolfin_error("Unknown cell type.")` reports. */
  datatype Error = UnknownCellType

  datatype Outcome = Pass | Fail(error: Error)

  datatype Result<T> = Ok(value: T) | Err(error: Error)

  datatype Option<T> = None | Some(value: T)

  /** One grid of the hierarchy: its cells and edges in iteration order, and the cells the
      user marked for refinement (grid.rd->marked_cells). */
  datatype Grid = Grid(cells: seq<CellId>, edges: seq<EdgeId>, markedCells: seq<CellId>)

  /** The structure the refinement passes read but never change. Per cell `c`: its type,
      its status, its edges, its children (cells of the next finer grid), its neighbours
      (what CellIterator over a cell visits; it may include `c` itself) and its level, the
      index of the grid that holds it. Grid 0 is the coarsest. */
  datatype Topology = Topology(
    kind: seq<CellType>,
    status: seq<Status>,
    cellEdges: seq<seq<EdgeId>>,
    children: seq<seq<CellId>>,
    neighbors: seq<seq<CellId>>,
    level: seq<nat>,
    grids: seq<Grid>,
    edgeCount: nat)
  {
    function CellCount(): nat { |kind| }

    /** Cell and edge indices are in range; children lie one level finer; every grid lists
        at least one cell, and only cells of its level; a cell's edges belong to the grid of
        its level; the marked cells of a grid are cells of that grid. */
    ghost predicate WellFormed() {
      && |status| == |kind| && |cellEdges| == |kind| && |children| == |kind|
      && |neighbors| == |kind| && |level| == |kind|
      && |grids| > 0
      && (forall c :: 0 <= c < |kind| ==> level[c] < |grids|)
      && (forall c, j :: 0 <= c < |kind| && 0 <= j < |cellEdges[c]| ==>
            cellEdges[c][j] < edgeCount && cellEdges[c][j] in grids[level[c]].edges)
      && (forall c, i :: 0 <= c < |kind| && 0 <= i < |children[c]| ==>
            children[c][i] < |kind| && level[children[c][i]] == level[c] + 1)
      && (forall c, i :: 0 <= c < |kind| && 0 <= i < |neighbors[c]| ==> neighbors[c][i] < |kind|)
      && (forall k :: 0 <= k < |grids| ==> |grids[k].cells| > 0)
      && (forall k, i :: 0 <= k < |grids| && 0 <= i < |grids[k].cells| ==>
            grids[k].cells[i] < |kind| && level[grids[k].cells[i]] == k)
      && (forall k, i :: 0 <= k < |grids| && 0 <= i < |grids[k].edges| ==> grids[k].edges[i] < edgeCount)
      && (forall k, i :: 0 <= k < |grids| && 0 <= i < |grids[k].markedCells| ==>
            grids[k].markedCells[i] in grids[k].cells)
    }
  }

  /** A topology whose indices are consistent: the only kind the passes work on. */
  type WellFormedTopology = t: Topology | t.WellFormed()
    witness Topology([Triangle], [Unref], [[]], [[]], [[]], [0], [Grid([0], [], [])], 0)

  /** An edge is marked when some cell has marked it (Edge::marked()). */
  predicate Marked(marks: seq<set<CellId>>, e: EdgeId)
    requires e < |marks|
  {
    marks[e] != {}
  }

  // ---------------------------------------------------------------------------
  // What the three query loops of the source compute

  /** Every child of `c` is marked for coarsening (vacuously so when `c` has no children). */
  ghost predicate AllChildrenCoarsening(t: WellFormedTopology, marker: seq<Marker>, c: CellId)
    requires c < t.CellCount() && |marker| == t.CellCount()
  {
    forall i :: 0 <= i < |t.children[c]| ==> marker[t.children[c][i]] == MarkedForCoarsening
  }

  /** Some edge of some child of `c` is marked. */
  ghost predicate SomeChildEdgeMarked(t: WellFormedTopology, marks: seq<set<CellId>>, c: CellId)
    requires c < t.CellCount() && |marks| == t.edgeCount
  {
    exists i, j :: 0 <= i < |t.children[c]| && 0 <= j < |t.cellEdges[t.children[c][i]]| &&
      Marked(marks, t.cellEdges[t.children[c][i]][j])
  }

  /** Some edge of `c` is marked. */
  ghost predicate HasMarkedEdge(t: WellFormedTopology, marks: seq<set<CellId>>, c: CellId)
    requires c < t.CellCount() && |marks| == t.edgeCount
  {
    exists j :: 0 <= j < |t.cellEdges[c]| && Marked(marks, t.cellEdges[c][j])
  }

  /** Every edge of `c` is marked: the state closeCell leaves a cell in when no rule fits. */
  ghost predicate AllEdgesMarked(t: WellFormedTopology, marks: seq<set<CellId>>, c: CellId)
    requires c < t.CellCount() && |marks| == t.edgeCount
  {
    forall j :: 0 <= j < |t.cellEdges[c]| ==> Marked(marks, t.cellEdges[c][j])
  }

  /** Marks only grow: an edge marked in `before` keeps its mark in `after`. */
  ghost predicate MarksGrow(before: seq<set<CellId>>, after: seq<set<CellId>>)
  {
    |before| == |after| &&
    forall e :: 0 <= e < |before| && before[e] != {} ==> after[e] == before[e]
  }

  lemma AllEdgesMarkedPersists(t: WellFormedTopology, before: seq<set<CellId>>, after: seq<set<CellId>>, c: CellId)
    requires c < t.CellCount() && |before| == t.edgeCount
    requires MarksGrow(before, after) && AllEdgesMarked(t, before, c)
    ensures AllEdgesMarked(t, after, c)
  {
    forall j | 0 <= j < |t.cellEdges[c]|
      ensures Marked(after, t.cellEdges[c][j])
    {
      assert Marked(before, t.cellEdges[c][j]);
    }
  }

  // ---------------------------------------------------------------------------
  // Counting marked edges

  /** Number of marked edges among `es` (no_marked_edges in closeCell). */
  function MarkedCount(marks: seq<set<CellId>>, es: seq<EdgeId>): (n: nat)
    requires forall j :: 0 <= j < |es| ==> es[j] < |marks|
    ensures n <= |es|
    ensures n == 0 <==> forall j :: 0 <= j < |es| ==> !Marked(marks, es[j])
    ensures n == |es| <==> forall j :: 0 <= j < |es| ==> Marked(marks, es[j])
  {
    if es == [] then 0
    else
      var last := es[|es| - 1];
      MarkedCount(marks, es[..|es| - 1]) + if Marked(marks, last) then 1 else 0
  }

  lemma MarksGrowTransitive(a: seq<set<CellId>>, b: seq<set<CellId>>, c: seq<set<CellId>>)
    requires MarksGrow(a, b) && MarksGrow(b, c)
    ensures MarksGrow(a, c)
  {
  }
}
