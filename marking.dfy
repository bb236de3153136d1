/** What initMarks and evaluateMarks do to the cell markers and the edge marks, as
    functions of the state before the pass. Each function follows its loop: it is defined
    over a prefix of the cells or edges the loop visits, so that a loop invariant states
    the state after `i` steps. The lemmas say what the result is, cell by cell and edge by
    edge. */
module Marking {
  import opened Mesh

  // ---------------------------------------------------------------------------
  // Overwriting entries

  /** `s` with the entries at the positions listed in `idx` set to `v`. */
  function Assign<T>(s: seq<T>, idx: seq<nat>, v: T): (r: seq<T>)
    requires forall i :: 0 <= i < |idx| ==> idx[i] < |s|
    ensures |r| == |s|
  {
    if idx == [] then s else Assign(s, idx[..|idx| - 1], v)[idx[|idx| - 1] := v]
  }

  lemma {:induction false} AssignAt<T>(s: seq<T>, idx: seq<nat>, v: T, x: nat)
    requires forall i :: 0 <= i < |idx| ==> idx[i] < |s|
    requires x < |s|
    ensures Assign(s, idx, v)[x] == if x in idx then v else s[x]
  {
    if idx != [] {
      var init := idx[..|idx| - 1];
      AssignAt(s, init, v, x);
      assert idx == init + [idx[|idx| - 1]];
    }
  }

  // ---------------------------------------------------------------------------
  // initMarks

  /** Every edge among `es` marked by `c` as well (Edge::mark adds the cell to the edge's
      set of marking cells). */
  function MarkEdgesBy(marks: seq<set<CellId>>, c: CellId, es: seq<EdgeId>): (r: seq<set<CellId>>)
    requires forall j :: 0 <= j < |es| ==> es[j] < |marks|
    ensures |r| == |marks|
  {
    if es == [] then marks
    else
      var m := MarkEdgesBy(marks, c, es[..|es| - 1]);
      var e := es[|es| - 1];
      m[e := m[e] + {c}]
  }

  lemma {:induction false} MarkEdgesByAt(marks: seq<set<CellId>>, c: CellId, es: seq<EdgeId>, e: EdgeId)
    requires forall j :: 0 <= j < |es| ==> es[j] < |marks|
    requires e < |marks|
    ensures MarkEdgesBy(marks, c, es)[e] == if e in es then marks[e] + {c} else marks[e]
  {
    if es != [] {
      var init := es[..|es| - 1];
      MarkEdgesByAt(marks, c, init, e);
      assert es == init + [es[|es| - 1]];
    }
  }

  /** The cells among `cs` that have edge `e`. */
  ghost function CellsWithEdge(t: WellFormedTopology, cs: seq<CellId>, e: EdgeId): (r: set<CellId>)
  {
    set x | x in cs && x < t.CellCount() && e in t.cellEdges[x]
  }

  /** Every cell among `cs`, in order, marks each of its edges (initMarks' third loop). */
  ghost function MarkCells(t: WellFormedTopology, marks: seq<set<CellId>>, cs: seq<CellId>): (r: seq<set<CellId>>)
    requires |marks| == t.edgeCount
    requires forall i :: 0 <= i < |cs| ==> cs[i] < t.CellCount()
    ensures |r| == |marks|
  {
    if cs == [] then marks
    else
      var c := cs[|cs| - 1];
      assert c < t.CellCount() && |t.cellEdges| == |t.kind|;
      MarkEdgesBy(MarkCells(t, marks, cs[..|cs| - 1]), c, t.cellEdges[c])
  }

  /** After the marking, an edge is marked by exactly the cells of `cs` that have it, on
      top of the cells that had marked it before. */
  lemma {:induction false} MarkCellsAt(t: WellFormedTopology, marks: seq<set<CellId>>, cs: seq<CellId>, e: EdgeId)
    requires |marks| == t.edgeCount
    requires forall i :: 0 <= i < |cs| ==> cs[i] < t.CellCount()
    requires e < t.edgeCount
    ensures MarkCells(t, marks, cs)[e] == marks[e] + CellsWithEdge(t, cs, e)
  {
    if cs != [] {
      var init := cs[..|cs| - 1];
      var c := cs[|cs| - 1];
      MarkCellsAt(t, marks, init, e);
      MarkEdgesByAt(MarkCells(t, marks, init), c, t.cellEdges[c], e);
      assert cs == init + [c];
      assert CellsWithEdge(t, cs, e) == CellsWithEdge(t, init, e) + if e in t.cellEdges[c] then {c} else {};
    }
  }

  /** The cell markers initMarks leaves: every cell of grid `k` marked for no refinement,
      then every cell on the grid's list of marked cells marked for regular refinement. */
  function InitialMarkers(t: WellFormedTopology, marker: seq<Marker>, k: nat): (r: seq<Marker>)
    requires k < |t.grids| && |marker| == t.CellCount()
    ensures |r| == |marker|
  {
    var g := t.grids[k];
    assert forall i :: 0 <= i < |g.markedCells| ==> g.markedCells[i] < t.CellCount() by {
      forall i | 0 <= i < |g.markedCells| ensures g.markedCells[i] < t.CellCount() {
        var j :| 0 <= j < |g.cells| && g.cells[j] == g.markedCells[i];
      }
    }
    Assign(Assign(marker, g.cells, MarkedForNoRef), g.markedCells, MarkedForRegRef)
  }

  /** The edge marks initMarks leaves: every edge of grid `k` unmarked, then marked by
      each of the grid's marked cells it belongs to. */
  ghost function InitialEdgeMarks(t: WellFormedTopology, marks: seq<set<CellId>>, k: nat): (r: seq<set<CellId>>)
    requires k < |t.grids| && |marks| == t.edgeCount
    ensures |r| == |marks|
  {
    var g := t.grids[k];
    assert forall i :: 0 <= i < |g.markedCells| ==> g.markedCells[i] < t.CellCount() by {
      forall i | 0 <= i < |g.markedCells| ensures g.markedCells[i] < t.CellCount() {
        var j :| 0 <= j < |g.cells| && g.cells[j] == g.markedCells[i];
      }
    }
    MarkCells(t, Assign(marks, g.edges, {}), g.markedCells)
  }

  /** initMarks on grid `k`: a marked cell is marked for regular refinement, any other
      cell of the grid for no refinement, and cells of other grids keep their markers. */
  lemma InitialMarkersAt(t: WellFormedTopology, marker: seq<Marker>, k: nat, c: CellId)
    requires k < |t.grids| && |marker| == t.CellCount()
    requires c < t.CellCount()
    ensures InitialMarkers(t, marker, k)[c] ==
      if c in t.grids[k].markedCells then MarkedForRegRef
      else if c in t.grids[k].cells then MarkedForNoRef
      else marker[c]
  {
    var g := t.grids[k];
    AssignAt(marker, g.cells, MarkedForNoRef, c);
    AssignAt(Assign(marker, g.cells, MarkedForNoRef), g.markedCells, MarkedForRegRef, c);
  }

  /** initMarks on grid `k`: an edge of the grid is marked by exactly the grid's marked
      cells that have it; in particular every marked cell marks all its edges. Edges of
      other grids keep their marks. */
  lemma InitialEdgeMarksAt(t: WellFormedTopology, marks: seq<set<CellId>>, k: nat, e: EdgeId)
    requires k < |t.grids| && |marks| == t.edgeCount
    requires e < t.edgeCount
    ensures InitialEdgeMarks(t, marks, k)[e] ==
      if e in t.grids[k].edges then CellsWithEdge(t, t.grids[k].markedCells, e) else marks[e]
    ensures forall i, j ::
      (0 <= i < |t.grids[k].markedCells| && 0 <= j < |t.cellEdges[t.grids[k].markedCells[i]]| &&
       t.cellEdges[t.grids[k].markedCells[i]][j] == e) ==>
        t.grids[k].markedCells[i] in InitialEdgeMarks(t, marks, k)[e]
  {
    var g := t.grids[k];
    var cleared := Assign(marks, g.edges, {});
    AssignAt(marks, g.edges, {}, e);
    MarkCellsAt(t, cleared, g.markedCells, e);
    // a marked cell of grid k has its edges in grid k
    forall x | x in CellsWithEdge(t, g.markedCells, e) ensures e in g.edges {
      var j :| 0 <= j < |g.cells| && g.cells[j] == x;
      var i :| 0 <= i < |t.cellEdges[x]| && t.cellEdges[x][i] == e;
    }
    forall i, j | 0 <= i < |g.markedCells| && 0 <= j < |t.cellEdges[g.markedCells[i]]| &&
        t.cellEdges[g.markedCells[i]][j] == e
      ensures g.markedCells[i] in InitialEdgeMarks(t, marks, k)[e]
    {
      var x := g.markedCells[i];
      var l :| 0 <= l < |g.cells| && g.cells[l] == x;
      assert x in CellsWithEdge(t, g.markedCells, e);
    }
  }

  // ---------------------------------------------------------------------------
  // evaluateMarks

  /** The marker evaluateMarks gives cell `c`, from the markers and marks it finds. */
  ghost function EvaluatedMarker(t: WellFormedTopology, marker: seq<Marker>, marks: seq<set<CellId>>, c: CellId): (r: Marker)
    requires c < t.CellCount() && |marker| == t.CellCount() && |marks| == t.edgeCount
  {
    match t.status[c]
    case RefReg => if AllChildrenCoarsening(t, marker, c) then MarkedForNoRef else marker[c]
    case RefIrr => if SomeChildEdgeMarked(t, marks, c) then MarkedForRegRef else MarkedForNoRef
    case Unref => marker[c]
  }

  /** evaluateMarks over the cells `cs`, in order, each cell seeing the markers as the
      earlier ones left them. */
  ghost function Evaluated(t: WellFormedTopology, marker: seq<Marker>, marks: seq<set<CellId>>, cs: seq<CellId>): (r: seq<Marker>)
    requires |marker| == t.CellCount() && |marks| == t.edgeCount
    requires forall i :: 0 <= i < |cs| ==> cs[i] < t.CellCount()
    ensures |r| == |marker|
  {
    if cs == [] then marker
    else
      var m := Evaluated(t, marker, marks, cs[..|cs| - 1]);
      var c := cs[|cs| - 1];
      m[c := EvaluatedMarker(t, m, marks, c)]
  }

  /** Over the cells of one grid, each cell ends with the marker computed from the markers
      before the pass: the children a cell consults lie in the next finer grid, which the
      pass does not touch. Cells not visited keep their markers. */
  lemma {:induction false} EvaluatedAt(t: WellFormedTopology, marker: seq<Marker>, marks: seq<set<CellId>>, cs: seq<CellId>, k: nat, x: CellId)
    requires |marker| == t.CellCount() && |marks| == t.edgeCount
    requires forall i :: 0 <= i < |cs| ==> cs[i] < t.CellCount() && t.level[cs[i]] == k
    requires x < t.CellCount()
    ensures Evaluated(t, marker, marks, cs)[x] ==
      if x in cs then EvaluatedMarker(t, marker, marks, x) else marker[x]
  {
    if cs != [] {
      var init := cs[..|cs| - 1];
      var c := cs[|cs| - 1];
      assert cs == init + [c];
      EvaluatedAt(t, marker, marks, init, k, x);
      if x == c {
        var m := Evaluated(t, marker, marks, init);
        forall i | 0 <= i < |t.children[c]|
          ensures m[t.children[c][i]] == marker[t.children[c][i]]
        {
          var d := t.children[c][i];
          assert t.level[d] == k + 1;
          assert d !in init;
          EvaluatedAt(t, marker, marks, init, k, d);
        }
        assert AllChildrenCoarsening(t, m, c) == AllChildrenCoarsening(t, marker, c);
      }
    }
  }
}
