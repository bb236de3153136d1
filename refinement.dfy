/** The marking and closure passes of GridRefinement over a grid hierarchy. The C++ class
    only has static members working on the cells and edges of the grids; here the data
    those members overwrite in place (cell markers, the cells' `closed` flags, the edge
    marks) are fields of `GridHierarchy`, indexed by cell or edge. */
module GridRefinement {
  import opened Mesh
  import opened Rules
  import opened Marking
  import opened Closure
  import opened Passes

  class GridHierarchy {
    /** Cells, edges, grids: fixed while the passes run. */
    const topo: WellFormedTopology
    /** The refinement rules of the two cell types. */
    const rules: RuleTables

    /** Cell::marker() of every cell. */
    var marker: seq<Marker>
    /** Cell::closed() of every cell. */
    var closed: seq<bool>
    /** For every edge, the cells that have marked it (empty: unmarked). */
    var edgeMark: seq<set<CellId>>
    /** The per-cell refinements handed to TriGridRefinement / TetGridRefinement, in order. */
    var refinements: seq<RefineCall>
    /** The passes run so far, for stating the order globalRefinement runs them in. */
    ghost var trace: seq<Step>

    /** One marker and one `closed` flag per cell, one mark per edge. */
    ghost predicate Valid()
      reads this
    {
      && |marker| == topo.CellCount()
      && |closed| == topo.CellCount()
      && |edgeMark| == topo.edgeCount
    }

    constructor (t: WellFormedTopology, r: RuleTables, m: seq<Marker>, cl: seq<bool>, em: seq<set<CellId>>)
      requires |m| == t.CellCount() && |cl| == t.CellCount() && |em| == t.edgeCount
      ensures Valid()
      ensures topo == t && rules == r && marker == m && closed == cl && edgeMark == em
      ensures refinements == [] && trace == []
    {
      topo, rules := t, r;
      marker, closed, edgeMark := m, cl, em;
      refinements, trace := [], [];
    }

    // -------------------------------------------------------------------------
    // refine(GridHierarchy&) and globalRefinement

    /** Initialise the marks of the finest grid, then run the global refinement. */
    method Refine() returns (out: Outcome)
      requires Valid()
      modifies this
      ensures Valid()
      ensures out.Pass? ==> trace == old(trace) + Schedule(|topo.grids|)
      ensures out.Fail? ==> exists c :: 0 <= c < topo.CellCount() && topo.kind[c] == NoType
    {
      InitMarks(|topo.grids| - 1);
      out := GlobalRefinement();
    }

    /** Phase I, then phase II; the first error ends the refinement. */
    method GlobalRefinement() returns (out: Outcome)
      requires Valid()
      modifies this
      ensures Valid()
      ensures old(refinements) <= refinements && MarksGrow(old(edgeMark), edgeMark)
      ensures out.Pass? ==> trace == old(trace) + Schedule(|topo.grids|)
      ensures out.Fail? ==> exists c :: 0 <= c < topo.CellCount() && topo.kind[c] == NoType
    {
      out := TopDownPhase();
      if out.Fail? {
        return;
      }
      ghost var between := edgeMark;
      out := BottomUpPhase();
      MarksGrowTransitive(old(edgeMark), between, edgeMark);
    }

    /** Phase I: visit all grids from the finest to the coarsest, evaluating the marks and
        closing the grid. */
    method TopDownPhase() returns (out: Outcome)
      requires Valid()
      modifies this
      ensures Valid()
      ensures refinements == old(refinements) && MarksGrow(old(edgeMark), edgeMark)
      ensures out.Pass? ==> trace == old(trace) + TopDown(|topo.grids|, 0)
      ensures out.Fail? ==> exists c :: 0 <= c < topo.CellCount() && topo.kind[c] == NoType
    {
      var n := |topo.grids|;
      var k := n;
      out := Pass;
      while k > 0
        invariant Valid() && 0 <= k <= n
        invariant trace == old(trace) + TopDown(n, k)
        invariant refinements == old(refinements) && MarksGrow(old(edgeMark), edgeMark)
        invariant out == Pass
      {
        k := k - 1;
        EvaluateMarks(k);
        ghost var before := edgeMark;
        ghost var initial;
        out, initial := CloseGrid(k);
        MarksGrowTransitive(old(edgeMark), before, edgeMark);
        if out.Fail? {
          return;
        }
      }
    }

    /** Phase II: visit all grids from the coarsest to the finest, closing the grid (all
        but the coarsest), unrefining it and refining it. */
    method BottomUpPhase() returns (out: Outcome)
      requires Valid()
      modifies this
      ensures Valid()
      ensures old(refinements) <= refinements && MarksGrow(old(edgeMark), edgeMark)
      ensures out.Pass? ==> trace == old(trace) + BottomUp(|topo.grids|)
      ensures out.Fail? ==> exists c :: 0 <= c < topo.CellCount() && topo.kind[c] == NoType
    {
      var n := |topo.grids|;
      var k := 0;
      out := Pass;
      while k < n
        invariant Valid() && 0 <= k <= n
        invariant trace == old(trace) + BottomUp(k)
        invariant old(refinements) <= refinements && MarksGrow(old(edgeMark), edgeMark)
        invariant out == Pass
      {
        if k > 0 {
          ghost var before := edgeMark;
          ghost var initial;
          out, initial := CloseGrid(k);
          MarksGrowTransitive(old(edgeMark), before, edgeMark);
          if out.Fail? {
            return;
          }
        }
        UnrefineGrid(k);
        out := RefineGrid(k);
        if out.Fail? {
          return;
        }
        k := k + 1;
      }
    }

    // -------------------------------------------------------------------------
    // initMarks

    /** Give every cell and edge of grid `k` its default marker, then mark every cell on
        the grid's list of marked cells for regular refinement, and let it mark its edges. */
    method InitMarks(k: nat)
      requires Valid() && k < |topo.grids|
      modifies this
      ensures Valid()
      ensures closed == old(closed) && refinements == old(refinements) && trace == old(trace)
      ensures marker == InitialMarkers(topo, old(marker), k)
      ensures edgeMark == InitialEdgeMarks(topo, old(edgeMark), k)
    {
      var g := topo.grids[k];

      // Every cell of the grid starts with the default marker, no refinement
      var i := 0;
      while i < |g.cells|
        invariant Valid() && 0 <= i <= |g.cells|
        invariant closed == old(closed) && edgeMark == old(edgeMark)
        invariant refinements == old(refinements) && trace == old(trace)
        invariant marker == Assign(old(marker), g.cells[..i], MarkedForNoRef)
      {
        assert g.cells[..i + 1][..i] == g.cells[..i];
        marker := marker[g.cells[i] := MarkedForNoRef];
        i := i + 1;
      }
      assert g.cells[..|g.cells|] == g.cells;
      ghost var defaults := marker;

      // Every edge of the grid starts unmarked
      i := 0;
      while i < |g.edges|
        invariant Valid() && 0 <= i <= |g.edges|
        invariant closed == old(closed) && marker == defaults
        invariant refinements == old(refinements) && trace == old(trace)
        invariant edgeMark == Assign(old(edgeMark), g.edges[..i], {})
      {
        assert g.edges[..i + 1][..i] == g.edges[..i];
        edgeMark := edgeMark[g.edges[i] := {}];
        i := i + 1;
      }
      assert g.edges[..|g.edges|] == g.edges;
      ghost var cleared := edgeMark;

      // Each cell on the grid's marked list: regular refinement, and its edges marked by it
      var marked := g.markedCells;
      forall j | 0 <= j < |marked| ensures marked[j] < topo.CellCount() {
        var l :| 0 <= l < |g.cells| && g.cells[l] == marked[j];
      }
      i := 0;
      while i < |marked|
        invariant Valid() && 0 <= i <= |marked|
        invariant closed == old(closed) && refinements == old(refinements) && trace == old(trace)
        invariant marker == Assign(defaults, marked[..i], MarkedForRegRef)
        invariant edgeMark == MarkCells(topo, cleared, marked[..i])
      {
        var c := marked[i];
        assert marked[..i + 1][..i] == marked[..i];

        marker := marker[c := MarkedForRegRef];
        MarkEdgesOf(c);
        i := i + 1;
      }
      assert marked[..|marked|] == marked;
    }

    /** initMarks' innermost loop: cell `c` marks each of its edges. */
    method MarkEdgesOf(c: CellId)
      requires Valid() && c < topo.CellCount()
      modifies this
      ensures Valid()
      ensures marker == old(marker) && closed == old(closed)
      ensures refinements == old(refinements) && trace == old(trace)
      ensures edgeMark == MarkEdgesBy(old(edgeMark), c, topo.cellEdges[c])
    {
      var es := topo.cellEdges[c];
      var j := 0;
      while j < |es|
        invariant Valid() && 0 <= j <= |es|
        invariant marker == old(marker) && closed == old(closed)
        invariant refinements == old(refinements) && trace == old(trace)
        invariant edgeMark == MarkEdgesBy(old(edgeMark), c, es[..j])
      {
        assert es[..j + 1][..j] == es[..j];
        edgeMark := edgeMark[es[j] := edgeMark[es[j]] + {c}];
        j := j + 1;
      }
      assert es[..|es|] == es;
    }

    // -------------------------------------------------------------------------
    // evaluateMarks

    /** Adjust the markers of grid `k` from the marks of the next finer grid, cell by cell
        (what each cell gets is `EvaluatedMarker`). */
    method EvaluateMarks(k: nat)
      requires Valid() && k < |topo.grids|
      modifies this
      ensures Valid()
      ensures closed == old(closed) && edgeMark == old(edgeMark) && refinements == old(refinements)
      ensures trace == old(trace) + [EvaluateStep(k)]
      ensures marker == Evaluated(topo, old(marker), edgeMark, topo.grids[k].cells)
    {
      trace := trace + [EvaluateStep(k)];
      var cells := topo.grids[k].cells;
      var i := 0;
      while i < |cells|
        invariant Valid() && 0 <= i <= |cells|
        invariant closed == old(closed) && edgeMark == old(edgeMark) && refinements == old(refinements)
        invariant trace == old(trace) + [EvaluateStep(k)]
        invariant marker == Evaluated(topo, old(marker), edgeMark, cells[..i])
      {
        var c := cells[i];
        assert cells[..i + 1][..i] == cells[..i];
        if topo.status[c] == RefReg {
          var coarsen := ChildrenMarkedForCoarsening(c);
          if coarsen {
            marker := marker[c := MarkedForNoRef];
          }
        }
        if topo.status[c] == RefIrr {
          var childEdge := EdgeOfChildMarkedForRefinement(c);
          if childEdge {
            marker := marker[c := MarkedForRegRef];
          } else {
            marker := marker[c := MarkedForNoRef];
          }
        }
        i := i + 1;
      }
      assert cells[..|cells|] == cells;
    }

    // -------------------------------------------------------------------------
    // closeGrid and closeCell

    /** The green closure of grid `k`: put every cell with a marked edge on a worklist and
        clear its `closed` flag, then close cells from the front of the list until it is
        empty. The loop ends because a cell is appended only right after an edge goes from
        unmarked to marked. `initial` is the list the first loop builds. */
    method CloseGrid(k: nat) returns (out: Outcome, ghost initial: seq<CellId>)
      requires Valid() && k < |topo.grids|
      modifies this
      ensures Valid()
      ensures refinements == old(refinements)
      ensures trace == old(trace) + [CloseStep(k)]
      ensures initial == WithMarkedEdge(topo, old(edgeMark), topo.grids[k].cells)
      ensures forall x :: 0 <= x < topo.CellCount() && marker[x] != old(marker)[x] ==>
        x in initial || old(closed)[x]
      ensures CloseInvariant(topo, initial, old(closed), old(edgeMark), closed, edgeMark, [])
      ensures out.Fail? ==> exists c :: 0 <= c < topo.CellCount() && topo.kind[c] == NoType
    {
      trace := trace + [CloseStep(k)];

      // The worklist starts as the grid's cells with a marked edge, their flags cleared
      var work := OpenMarkedCells(k);
      initial := work;
      forall x | 0 <= x < topo.CellCount()
        ensures closed[x] == if x in initial then false else old(closed[x])
      {
        AssignAt(old(closed), initial, false, x);
      }

      // Worklist loop: it ends when no cell is left to close
      out := Pass;
      while work != []
        invariant Valid()
        invariant refinements == old(refinements)
        invariant trace == old(trace) + [CloseStep(k)]
        invariant |marker| == |old(marker)|
        invariant forall x :: 0 <= x < topo.CellCount() && marker[x] != old(marker)[x] ==>
          x in initial || old(closed)[x]
        invariant CloseInvariant(topo, initial, old(closed), old(edgeMark), closed, edgeMark, work)
        invariant out == Pass
        decreases |UnmarkedEdges(edgeMark)|, |work|
      {
        // Take the cell at the front off the worklist
        var cell := work[0];
        assert cell in work;
        assert cell in initial || old(closed)[cell];
        assert forall x :: x in work[1..] ==> x in work;
        work := work[1..];

        ghost var closedBefore, marksBefore, workBefore := closed, edgeMark, work;
        work, out := CloseCell(cell, work);
        CloseRound(topo, initial, old(closed), old(edgeMark), closedBefore, marksBefore, workBefore, cell,
                   closed, edgeMark, work);
        if out.Fail? {
          assert topo.kind[cell] == NoType;
          return;
        }
      }
    }

    /** closeGrid's first loop: the cells of grid `k` with a marked edge, in order, each
        with its `closed` flag cleared. */
    method OpenMarkedCells(k: nat) returns (work: seq<CellId>)
      requires Valid() && k < |topo.grids|
      modifies this
      ensures Valid()
      ensures marker == old(marker) && edgeMark == old(edgeMark)
      ensures refinements == old(refinements) && trace == old(trace)
      ensures work == WithMarkedEdge(topo, edgeMark, topo.grids[k].cells)
      ensures closed == Assign(old(closed), work, false)
    {
      var cells := topo.grids[k].cells;
      // the flags are collected in a local copy and stored once the loop is done
      var open := closed;
      work := [];
      var i := 0;
      while i < |cells|
        modifies {}
        invariant 0 <= i <= |cells| && |open| == |closed|
        invariant work == WithMarkedEdge(topo, edgeMark, cells[..i])
        invariant open == Assign(closed, work, false)
      {
        var c := cells[i];
        assert cells[..i + 1][..i] == cells[..i];
        var hit := EdgeMarkedByOther(c);
        if hit {
          assert (work + [c])[..|work|] == work;
          work := work + [c];
          open := open[c := false];
        }
        i := i + 1;
      }
      assert cells[..|cells|] == cells;
      closed := open;
    }

    /** Close cell `c`: count its marked edges and ask the refinement rules of its type.
        When a rule fits, the cell takes the marker the rule assigns. When none fits, the
        cell marks its unmarked edges, the neighbours each newly marked edge wakes are
        appended to the worklist, and the cell is flagged closed. */
    method CloseCell(c: CellId, work: seq<CellId>) returns (work': seq<CellId>, out: Outcome)
      requires Valid() && c < topo.CellCount()
      modifies this
      ensures Valid()
      ensures refinements == old(refinements) && trace == old(trace)
      ensures out.Fail? <==> topo.kind[c] == NoType
      ensures match CheckRule(rules, topo.kind[c], c, MarkedCount(old(edgeMark), topo.cellEdges[c]))
        case Err(_) =>
          marker == old(marker) && closed == old(closed) && edgeMark == old(edgeMark) && work' == work
        case Ok(Some(m)) =>
          marker == old(marker)[c := m] && closed == old(closed) && edgeMark == old(edgeMark) && work' == work
        case Ok(None) =>
          && marker == old(marker)
          && closed == old(closed)[c := true]
          && edgeMark == MarkUnmarked(old(edgeMark), c, topo.cellEdges[c])
          && work' == work + Enqueued(topo, old(closed), old(edgeMark), c, topo.cellEdges[c])
    {
      var count := CountMarkedEdges(c);
      var rule := CheckRule(rules, topo.kind[c], c, count);
      if rule.Err? {
        return work, Fail(rule.error);
      }
      if rule.value.Some? {
        // the matching rule's marker is stored for the later refinement of the cell
        marker := marker[c := rule.value.value];
        return work, Pass;
      }

      // With no rule to apply, `c` marks its unmarked edges and wakes its neighbours
      work' := MarkUnmarkedEdges(c, work);

      // the flag tells later rounds that `c` may be put back on the worklist
      closed := closed[c := true];
      out := Pass;
    }

    /** closeCell's second loop: every edge of `c` still unmarked when the loop reaches it
        is marked by `c`, and the neighbours it wakes are appended to the worklist. */
    method MarkUnmarkedEdges(c: CellId, work: seq<CellId>) returns (work': seq<CellId>)
      requires Valid() && c < topo.CellCount()
      modifies this
      ensures Valid()
      ensures marker == old(marker) && closed == old(closed)
      ensures refinements == old(refinements) && trace == old(trace)
      ensures edgeMark == MarkUnmarked(old(edgeMark), c, topo.cellEdges[c])
      ensures work' == work + Enqueued(topo, closed, old(edgeMark), c, topo.cellEdges[c])
    {
      var es := topo.cellEdges[c];
      work' := work;
      var i := 0;
      while i < |es|
        invariant Valid() && 0 <= i <= |es|
        invariant marker == old(marker) && closed == old(closed)
        invariant refinements == old(refinements) && trace == old(trace)
        invariant edgeMark == MarkUnmarked(old(edgeMark), c, es[..i])
        invariant work' == work + Enqueued(topo, closed, old(edgeMark), c, es[..i])
      {
        var e := es[i];
        assert es[..i + 1][..i] == es[..i];

        if !Marked(edgeMark, e) {
          edgeMark := edgeMark[e := edgeMark[e] + {c}];
          work' := WakeNeighbors(c, e, work');
        }
        i := i + 1;
      }
      assert es[..|es|] == es;
    }

    /** The number of marked edges of `c`. */
    method CountMarkedEdges(c: CellId) returns (count: nat)
      requires Valid() && c < topo.CellCount()
      ensures count == MarkedCount(edgeMark, topo.cellEdges[c])
    {
      var es := topo.cellEdges[c];
      count := 0;
      var i := 0;
      while i < |es|
        invariant 0 <= i <= |es|
        invariant count == MarkedCount(edgeMark, es[..i])
      {
        assert es[..i + 1][..i] == es[..i];
        if Marked(edgeMark, es[i]) {
          count := count + 1;
        }
        i := i + 1;
      }
      assert es[..|es|] == es;
    }

    /** Append to `work` the neighbours of `c` that the newly marked edge `e` wakes. */
    method WakeNeighbors(c: CellId, e: EdgeId, work: seq<CellId>) returns (work': seq<CellId>)
      requires Valid() && c < topo.CellCount()
      ensures work' == work + Woken(topo, closed, c, e, topo.neighbors[c])
    {
      var ns := topo.neighbors[c];
      work' := work;
      var l := 0;
      while l < |ns|
        invariant 0 <= l <= |ns|
        invariant work' == work + Woken(topo, closed, c, e, ns[..l])
      {
        var x := ns[l];
        assert ns[..l + 1] == ns[..l] + [x];
        if e in topo.cellEdges[x] && closed[x] && topo.status[x] == RefReg && x != c {
          work' := work' + [x];
        }
        l := l + 1;
      }
      assert ns[..|ns|] == ns;
    }

    // -------------------------------------------------------------------------
    // refineGrid, unrefineGrid and the per-cell dispatch

    /** Refine grid `k` according to the marks, as the code is written: its first loop,
        meant to turn coarsening markers into no-refinement markers, runs only while the
        cell iterator is at the end of the grid, which it is not at the first cell of a
        grid (grids always have cells), so no marker changes. Every cell not marked
        according to a rule is then handed, with the marker it has, to the refinement of its
        type. `ClearCoarseningMarkers` is the first loop as intended. */
    method RefineGrid(k: nat) returns (out: Outcome)
      requires Valid() && k < |topo.grids|
      modifies this
      ensures Valid()
      ensures closed == old(closed) && edgeMark == old(edgeMark)
      ensures trace == old(trace) + [RefineStep(k)]
      ensures marker == ClearCoarseningAsWritten(old(marker), topo.grids[k].cells)
      ensures var run := RunRefine(topo.kind, old(marker), topo.grids[k].cells);
        refinements == old(refinements) + run.calls && out == run.outcome
      ensures out.Fail? ==> exists c :: 0 <= c < topo.CellCount() && topo.kind[c] == NoType
    {
      trace := trace + [RefineStep(k)];

      // The first loop, as written: its guard asks whether the cell iterator is at the end
      // of the grid. At its first test the iterator stands at the first cell, and a grid
      // always has one, so the guard is false and the body (which would read the cell under
      // the iterator) never runs.
      var cells := topo.grids[k].cells;
      var i := 0;
      if i == |cells| {
        assert false;
      }

      out := RefineCells(k);
    }

    /** refineGrid's first loop as its comment describes it (the guard negated): every cell
        of grid `k` marked for coarsening becomes marked for no refinement. `RefineGrid`
        follows the code as written and does not run it. */
    method ClearCoarseningMarkers(k: nat)
      requires Valid() && k < |topo.grids|
      modifies this
      ensures Valid()
      ensures closed == old(closed) && edgeMark == old(edgeMark)
      ensures refinements == old(refinements) && trace == old(trace)
      ensures marker == ClearCoarsening(old(marker), topo.grids[k].cells)
    {
      var cells := topo.grids[k].cells;
      var i := 0;
      while i < |cells|
        invariant Valid() && 0 <= i <= |cells|
        invariant closed == old(closed) && edgeMark == old(edgeMark)
        invariant refinements == old(refinements) && trace == old(trace)
        invariant marker == ClearCoarsening(old(marker), cells[..i])
      {
        assert cells[..i + 1][..i] == cells[..i];
        if marker[cells[i]] == MarkedForCoarsening {
          marker := marker[cells[i] := MarkedForNoRef];
        }
        i := i + 1;
      }
      assert cells[..|cells|] == cells;
    }

    /** refineGrid's second loop: skip the cells of grid `k` marked according to a rule and
        hand every other one to the refinement of its type, stopping at the first cell of
        unknown type. */
    method RefineCells(k: nat) returns (out: Outcome)
      requires Valid() && k < |topo.grids|
      modifies this
      ensures Valid()
      ensures marker == old(marker) && closed == old(closed) && edgeMark == old(edgeMark)
      ensures trace == old(trace)
      ensures var run := RunRefine(topo.kind, marker, topo.grids[k].cells);
        refinements == old(refinements) + run.calls && out == run.outcome
      ensures out.Fail? ==> exists c :: 0 <= c < topo.CellCount() && topo.kind[c] == NoType
    {
      var cells := topo.grids[k].cells;
      var i := 0;
      out := Pass;
      while i < |cells|
        invariant Valid() && 0 <= i <= |cells|
        invariant marker == old(marker) && closed == old(closed) && edgeMark == old(edgeMark)
        invariant trace == old(trace)
        invariant refinements == old(refinements) + RunRefine(topo.kind, marker, cells[..i]).calls
        invariant out == Pass && RunRefine(topo.kind, marker, cells[..i]).outcome == Pass
      {
        var c := cells[i];
        assert cells[..i + 1][..i] == cells[..i];

        // a cell a rule has already been chosen for is passed over
        if marker[c] != MarkedAccordingToRef {
          out := RefineCell(c);
          if out.Fail? {
            assert topo.kind[c] == NoType;
            RunRefineStops(topo.kind, marker, cells, i + 1);
            return;
          }
        }
        i := i + 1;
      }
      assert cells[..|cells|] == cells;
    }

    /** Hand one cell to the refinement of its type. */
    method RefineCell(c: CellId) returns (out: Outcome)
      requires Valid() && c < topo.CellCount()
      modifies this
      ensures Valid()
      ensures marker == old(marker) && closed == old(closed) && edgeMark == old(edgeMark) && trace == old(trace)
      ensures var r := RefineDispatch(topo.kind[c], c, marker[c]);
        && (r.Ok? ==> out == Pass && refinements == old(refinements) + [r.value])
        && (r.Err? ==> out == Fail(r.error) && refinements == old(refinements))
    {
      var r := RefineDispatch(topo.kind[c], c, marker[c]);
      match r
      case Ok(call) =>
        refinements := refinements + [call];
        out := Pass;
      case Err(e) =>
        out := Fail(e);
    }

    /** Unrefining a grid does nothing yet. */
    method UnrefineGrid(k: nat)
      requires Valid() && k < |topo.grids|
      modifies this
      ensures Valid()
      ensures marker == old(marker) && closed == old(closed) && edgeMark == old(edgeMark)
      ensures refinements == old(refinements) && trace == old(trace) + [UnrefineStep(k)]
    {
      trace := trace + [UnrefineStep(k)];
    }

    // -------------------------------------------------------------------------
    // childrenMarkedForCoarsening, edgeOfChildMarkedForRefinement, edgeMarkedByOther

    method ChildrenMarkedForCoarsening(c: CellId) returns (r: bool)
      requires Valid() && c < topo.CellCount()
      ensures r == AllChildrenCoarsening(topo, marker, c)
    {
      var kids := topo.children[c];
      var i := 0;
      while i < |kids|
        invariant 0 <= i <= |kids|
        invariant forall j :: 0 <= j < i ==> marker[kids[j]] == MarkedForCoarsening
      {
        if marker[kids[i]] != MarkedForCoarsening {
          return false;
        }
        i := i + 1;
      }
      return true;
    }

    method EdgeOfChildMarkedForRefinement(c: CellId) returns (r: bool)
      requires Valid() && c < topo.CellCount()
      ensures r == SomeChildEdgeMarked(topo, edgeMark, c)
    {
      var kids := topo.children[c];
      var i := 0;
      while i < |kids|
        invariant 0 <= i <= |kids|
        invariant forall i', j :: 0 <= i' < i && 0 <= j < |topo.cellEdges[kids[i']]| ==>
          !Marked(edgeMark, topo.cellEdges[kids[i']][j])
      {
        var es := topo.cellEdges[kids[i]];
        var j := 0;
        while j < |es|
          invariant 0 <= j <= |es|
          invariant forall j' :: 0 <= j' < j ==> !Marked(edgeMark, es[j'])
        {
          if Marked(edgeMark, es[j]) {
            return true;
          }
          j := j + 1;
        }
        i := i + 1;
      }
      return false;
    }

    /** Despite its name (and the FIXME beside it in the source), this asks whether any
        edge of the cell is marked, whoever marked it. */
    method EdgeMarkedByOther(c: CellId) returns (r: bool)
      requires Valid() && c < topo.CellCount()
      ensures r == HasMarkedEdge(topo, edgeMark, c)
    {
      var es := topo.cellEdges[c];
      var j := 0;
      while j < |es|
        invariant 0 <= j <= |es|
        invariant forall j' :: 0 <= j' < j ==> !Marked(edgeMark, es[j'])
      {
        if Marked(edgeMark, es[j]) {
          return true;
        }
        j := j + 1;
      }
      return false;
    }
  }
}
