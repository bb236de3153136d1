/** The per-cell-type dispatch of GridRefinement::checkRule and GridRefinement::refine.
    The refinement rules themselves (TriGridRefinement, TetGridRefinement) are not part of
    this model: their rule check is an arbitrary function of the cell and its number of
    marked edges, and their refinement of a cell is recorded as a call, not performed. */
module Rules {
  import opened Mesh

  /** TriGridRefinement::checkRule and TetGridRefinement::checkRule, given the cell and
      its number of marked edges: `None` when no rule of the type fits, `Some(m)` when one
      does, `m` being the marker the matching rule assigns to the cell. */
  datatype RuleTables = RuleTables(
    triangle: (CellId, nat) -> Option<Marker>,
    tetrahedron: (CellId, nat) -> Option<Marker>)

  /** One call of TriGridRefinement::refine or TetGridRefinement::refine, with the marker
      the cell carried when it was handed over. */
  datatype RefineCall =
    | TriangleRefine(cell: CellId, marker: Marker)
    | TetrahedronRefine(cell: CellId, marker: Marker)

  /** The rule of the cell's type that fits a cell with `marked` marked edges, if any, as
      the marker it assigns. Any type other than triangle or tetrahedron is an error. */
  function CheckRule(rules: RuleTables, kind: CellType, c: CellId, marked: nat): (r: Result<Option<Marker>>)
    ensures r.Err? <==> kind == NoType
  {
    match kind
    case Triangle => Ok(rules.triangle(c, marked))
    case Tetrahedron => Ok(rules.tetrahedron(c, marked))
    case NoType => Err(UnknownCellType)
  }

  /** Hands one cell to the refinement of its type; any other type is an error. */
  function RefineDispatch(kind: CellType, c: CellId, m: Marker): (r: Result<RefineCall>)
    ensures r.Err? <==> kind == NoType
    ensures r.Ok? ==> r.value.cell == c && r.value.marker == m
    ensures r.Ok? ==> (r.value.TriangleRefine? <==> kind == Triangle)
  {
    match kind
    case Triangle => Ok(TriangleRefine(c, m))
    case Tetrahedron => Ok(TetrahedronRefine(c, m))
    case NoType => Err(UnknownCellType)
  }

  /** The calls refineGrid's second loop makes, and whether it got through all cells. */
  datatype RefineRun = RefineRun(calls: seq<RefineCall>, outcome: Outcome)

  /** The cells the loop hands over: those not marked_according_to_ref, in order. */
  function ToRefine(marker: seq<Marker>, cells: seq<CellId>): (r: seq<CellId>)
    requires forall i :: 0 <= i < |cells| ==> cells[i] < |marker|
    ensures |r| <= |cells|
    ensures forall j :: 0 <= j < |r| ==> r[j] in cells && r[j] < |marker| && marker[r[j]] != MarkedAccordingToRef
    ensures forall i :: 0 <= i < |cells| && marker[cells[i]] != MarkedAccordingToRef ==> cells[i] in r
  {
    if cells == [] then []
    else
      var c := cells[|cells| - 1];
      ToRefine(marker, cells[..|cells| - 1]) + if marker[c] == MarkedAccordingToRef then [] else [c]
  }

  /** refineGrid's second loop over `cells`: skip cells marked_according_to_ref, dispatch
      the others, stop at the first cell of unknown type. */
  function RunRefine(kinds: seq<CellType>, marker: seq<Marker>, cells: seq<CellId>): (r: RefineRun)
    requires forall i :: 0 <= i < |cells| ==> cells[i] < |marker| && cells[i] < |kinds|
  {
    if cells == [] then RefineRun([], Pass)
    else
      var run := RunRefine(kinds, marker, cells[..|cells| - 1]);
      var c := cells[|cells| - 1];
      if run.outcome.Fail? || marker[c] == MarkedAccordingToRef then run
      else
        match RefineDispatch(kinds[c], c, marker[c])
        case Ok(call) => RefineRun(run.calls + [call], Pass)
        case Err(e) => RefineRun(run.calls, Fail(e))
  }

  /** After the first error the loop hands over nothing more. */
  lemma {:induction false} RunRefineStops(kinds: seq<CellType>, marker: seq<Marker>, cells: seq<CellId>, i: nat)
    requires forall i :: 0 <= i < |cells| ==> cells[i] < |marker| && cells[i] < |kinds|
    requires i <= |cells| && RunRefine(kinds, marker, cells[..i]).outcome.Fail?
    ensures RunRefine(kinds, marker, cells) == RunRefine(kinds, marker, cells[..i])
    decreases |cells| - i
  {
    if i < |cells| {
      var init := cells[..|cells| - 1];
      assert init[..i] == cells[..i];
      RunRefineStops(kinds, marker, init, i);
    } else {
      assert cells[..i] == cells;
    }
  }

  /** The loop fails exactly when some cell it does not skip has an unknown type. */
  lemma {:induction false} RunRefineFails(kinds: seq<CellType>, marker: seq<Marker>, cells: seq<CellId>)
    requires forall i :: 0 <= i < |cells| ==> cells[i] < |marker| && cells[i] < |kinds|
    ensures RunRefine(kinds, marker, cells).outcome.Fail? <==>
      exists i :: 0 <= i < |cells| && marker[cells[i]] != MarkedAccordingToRef && kinds[cells[i]] == NoType
  {
    if cells != [] {
      var init := cells[..|cells| - 1];
      RunRefineFails(kinds, marker, init);
      if exists i :: 0 <= i < |init| && marker[init[i]] != MarkedAccordingToRef && kinds[init[i]] == NoType {
        var i :| 0 <= i < |init| && marker[init[i]] != MarkedAccordingToRef && kinds[init[i]] == NoType;
        assert cells[i] == init[i];
      }
      if exists i :: 0 <= i < |cells| && marker[cells[i]] != MarkedAccordingToRef && kinds[cells[i]] == NoType {
        var i :| 0 <= i < |cells| && marker[cells[i]] != MarkedAccordingToRef && kinds[cells[i]] == NoType;
        if i < |init| {
          assert init[i] == cells[i];
        }
      }
    }
  }

  /** When the loop gets through, it has handed over exactly the cells not marked
      according to a rule, in order, each to the refinement of its own type and with its
      own marker. */
  lemma {:induction false} RunRefineCalls(kinds: seq<CellType>, marker: seq<Marker>, cells: seq<CellId>)
    requires forall i :: 0 <= i < |cells| ==> cells[i] < |marker| && cells[i] < |kinds|
    ensures var run := RunRefine(kinds, marker, cells);
      run.outcome.Pass? ==>
        && |run.calls| == |ToRefine(marker, cells)|
        && forall j :: 0 <= j < |run.calls| ==>
             && run.calls[j].cell == ToRefine(marker, cells)[j]
             && run.calls[j].marker == marker[run.calls[j].cell]
             && (run.calls[j].TriangleRefine? <==> kinds[run.calls[j].cell] == Triangle)
  {
    if cells != [] {
      RunRefineCalls(kinds, marker, cells[..|cells| - 1]);
    }
  }

  /** Every call the loop makes is for one of `cells`, with the marker that cell has. */
  lemma {:induction false} RunRefineMarkers(kinds: seq<CellType>, marker: seq<Marker>, cells: seq<CellId>)
    requires forall i :: 0 <= i < |cells| ==> cells[i] < |marker| && cells[i] < |kinds|
    ensures forall call :: call in RunRefine(kinds, marker, cells).calls ==>
      call.cell in cells && call.cell < |marker| && call.marker == marker[call.cell]
  {
    if cells != [] {
      var init := cells[..|cells| - 1];
      var c := cells[|cells| - 1];
      RunRefineMarkers(kinds, marker, init);
      assert cells == init + [c];
      var run := RunRefine(kinds, marker, init);
      var calls := RunRefine(kinds, marker, cells).calls;
      if !run.outcome.Fail? && marker[c] != MarkedAccordingToRef {
        var d := RefineDispatch(kinds[c], c, marker[c]);
        assert calls == run.calls + if d.Ok? then [d.value] else [];
      } else {
        assert calls == run.calls;
      }
    }
  }

  // ---------------------------------------------------------------------------
  // refineGrid's first loop

  /** refineGrid's first loop as its comment describes it: every cell of `cells` marked for
      coarsening becomes marked for no refinement. */
  function ClearCoarsening(marker: seq<Marker>, cells: seq<CellId>): (r: seq<Marker>)
    requires forall i :: 0 <= i < |cells| ==> cells[i] < |marker|
    ensures |r| == |marker|
  {
    if cells == [] then marker
    else
      var m := ClearCoarsening(marker, cells[..|cells| - 1]);
      var c := cells[|cells| - 1];
      if m[c] == MarkedForCoarsening then m[c := MarkedForNoRef] else m
  }

  lemma {:induction false} ClearCoarseningAt(marker: seq<Marker>, cells: seq<CellId>, x: CellId)
    requires forall i :: 0 <= i < |cells| ==> cells[i] < |marker|
    requires x < |marker|
    ensures ClearCoarsening(marker, cells)[x] ==
      if x in cells && marker[x] == MarkedForCoarsening then MarkedForNoRef else marker[x]
  {
    if cells != [] {
      var init := cells[..|cells| - 1];
      assert cells == init + [cells[|cells| - 1]];
      ClearCoarseningAt(marker, init, x);
    }
  }

  /** refineGrid's first loop as written: it runs while the cell iterator IS at the end,
      which it is not at the first cell of a grid with cells, so it changes nothing. (On a
      grid without cells the body would dereference the end iterator.) */
  function ClearCoarseningAsWritten(marker: seq<Marker>, cells: seq<CellId>): (r: seq<Marker>)
    requires cells != []
  {
    marker
  }

  /** As written, a cell marked for coarsening keeps that marker, where the loop's own
      comment says it should become marked for no refinement; so it reaches the refinement
      of its type still marked for coarsening. */
  lemma AsWrittenKeepsCoarsening(marker: seq<Marker>, cells: seq<CellId>, x: CellId)
    requires forall i :: 0 <= i < |cells| ==> cells[i] < |marker|
    requires x in cells && marker[x] == MarkedForCoarsening
    ensures ClearCoarseningAsWritten(marker, cells)[x] == MarkedForCoarsening
    ensures ClearCoarsening(marker, cells)[x] == MarkedForNoRef
  {
    ClearCoarseningAt(marker, cells, x);
  }

  /** The smallest grid that shows it: one triangle marked for coarsening is handed to
      the triangle refinement with that marker. */
  lemma CoarseningMarkerReachesRefine()
    ensures RunRefine([Triangle], ClearCoarseningAsWritten([MarkedForCoarsening], [0]), [0]) ==
      RefineRun([TriangleRefine(0, MarkedForCoarsening)], Pass)
    ensures RunRefine([Triangle], ClearCoarsening([MarkedForCoarsening], [0]), [0]) ==
      RefineRun([TriangleRefine(0, MarkedForNoRef)], Pass)
  {
  }

  /** With the first loop as intended, no cell reaches the refinement of its type marked
      for coarsening. */
  lemma NoCoarseningReachesRefine(kinds: seq<CellType>, marker: seq<Marker>, cells: seq<CellId>)
    requires forall i :: 0 <= i < |cells| ==> cells[i] < |marker| && cells[i] < |kinds|
    ensures forall call :: call in RunRefine(kinds, ClearCoarsening(marker, cells), cells).calls ==>
      call.marker != MarkedForCoarsening
  {
    var m := ClearCoarsening(marker, cells);
    RunRefineMarkers(kinds, m, cells);
    forall x | x in cells ensures m[x] != MarkedForCoarsening {
      ClearCoarseningAt(marker, cells, x);
    }
  }
}
