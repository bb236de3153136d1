/** The order in which globalRefinement runs its passes over a hierarchy of `n` grids
    (grid 0 the coarsest, grid n - 1 the finest). */
module Passes {

  /** One pass of globalRefinement over one grid. */
  datatype Step =
    | EvaluateStep(grid: nat)
    | CloseStep(grid: nat)
    | UnrefineStep(grid: nat)
    | RefineStep(grid: nat)

  /** Phase I over grids n - 1 down to k: evaluateMarks, then closeGrid, finest first. */
  function TopDown(n: nat, k: nat): (r: seq<Step>)
    requires k <= n
    decreases n - k
  {
    if k == n then [] else TopDown(n, k + 1) + [EvaluateStep(k), CloseStep(k)]
  }

  /** Phase II on grid k: closeGrid except on the coarsest grid, unrefineGrid, refineGrid. */
  function BottomUpOn(k: nat): (r: seq<Step>)
  {
    (if k > 0 then [CloseStep(k)] else []) + [UnrefineStep(k), RefineStep(k)]
  }

  /** Phase II over grids 0 up to m - 1, coarsest first. */
  function BottomUp(m: nat): (r: seq<Step>)
  {
    if m == 0 then [] else BottomUp(m - 1) + BottomUpOn(m - 1)
  }

  function Schedule(n: nat): (r: seq<Step>)
  {
    TopDown(n, 0) + BottomUp(n)
  }

  lemma {:induction false} TopDownAt(n: nat, k: nat, j: nat)
    requires k <= j < n
    ensures |TopDown(n, k)| == 2 * (n - k)
    ensures TopDown(n, k)[2 * (n - 1 - j)] == EvaluateStep(j)
    ensures TopDown(n, k)[2 * (n - 1 - j) + 1] == CloseStep(j)
    decreases n - k
  {
    if k < j {
      TopDownAt(n, k + 1, j);
    } else if k + 1 < n {
      TopDownAt(n, k + 1, k + 1);
    }
  }

  lemma {:induction false} BottomUpAt(m: nat, j: nat)
    requires j < m
    ensures |BottomUp(m)| == 3 * m - 1
    ensures BottomUp(m)[3 * j] == UnrefineStep(j)
    ensures BottomUp(m)[3 * j + 1] == RefineStep(j)
    ensures j > 0 ==> BottomUp(m)[3 * j - 1] == CloseStep(j)
  {
    if j < m - 1 {
      BottomUpAt(m - 1, j);
    } else if m > 1 {
      BottomUpAt(m - 1, 0);
    }
  }

  /** Phase I touches only evaluateMarks and closeGrid. */
  lemma {:induction false} TopDownOnlyEvaluatesAndCloses(n: nat, k: nat)
    requires k <= n
    ensures forall i :: 0 <= i < |TopDown(n, k)| ==> TopDown(n, k)[i].EvaluateStep? || TopDown(n, k)[i].CloseStep?
    decreases n - k
  {
    if k < n {
      TopDownOnlyEvaluatesAndCloses(n, k + 1);
    }
  }

  /** Phase II never closes the coarsest grid. */
  lemma {:induction false} BottomUpSkipsCoarsestClose(m: nat)
    ensures CloseStep(0) !in BottomUp(m)
  {
    if m > 0 {
      BottomUpSkipsCoarsestClose(m - 1);
    }
  }

  /** Where every pass of globalRefinement stands in its schedule: phase I (the first 2n
      steps) evaluates and closes the grids from the finest to the coarsest; phase II
      then, from the coarsest to the finest, closes each grid but the coarsest, unrefines it
      and refines it. So every grid is evaluated and closed before any grid is refined, and
      the coarsest grid is closed exactly once. */
  lemma ScheduleOrder(n: nat, k: nat)
    requires k < n
    ensures |Schedule(n)| == 5 * n - 1
    ensures forall i :: 0 <= i < 2 * n ==> Schedule(n)[i].EvaluateStep? || Schedule(n)[i].CloseStep?
    ensures Schedule(n)[2 * (n - 1 - k)] == EvaluateStep(k)
    ensures Schedule(n)[2 * (n - 1 - k) + 1] == CloseStep(k)
    ensures k > 0 ==> Schedule(n)[2 * n + 3 * k - 1] == CloseStep(k)
    ensures Schedule(n)[2 * n + 3 * k] == UnrefineStep(k)
    ensures Schedule(n)[2 * n + 3 * k + 1] == RefineStep(k)
    ensures forall i :: 2 * n <= i < |Schedule(n)| ==> Schedule(n)[i] != CloseStep(0)
  {
    TopDownAt(n, 0, k);
    BottomUpAt(n, k);
    TopDownOnlyEvaluatesAndCloses(n, 0);
    BottomUpSkipsCoarsestClose(n);
    var s := Schedule(n);
    assert forall i :: 2 * n <= i < |s| ==> s[i] == BottomUp(n)[i - 2 * n];
  }
}
