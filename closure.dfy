/** What closeCell and closeGrid do to the edge marks, the `closed` flags and the
    worklist, as functions of the state they start from, and why closeGrid's worklist loop
    ends. */
module Closure {
  import opened Mesh

  // ---------------------------------------------------------------------------
  // The first component of the termination measure

  /** The edges nobody has marked yet. */
  ghost function UnmarkedEdges(marks: seq<set<CellId>>): (r: set<EdgeId>)
  {
    set e | 0 <= e < |marks| && marks[e] == {}
  }

  /** Marking an unmarked edge takes exactly that edge out of the unmarked ones. */
  lemma {:induction false} MarkingShrinksUnmarked(marks: seq<set<CellId>>, e: EdgeId, s: set<CellId>)
    requires e < |marks| && marks[e] == {} && s != {}
    ensures UnmarkedEdges(marks[e := s]) == UnmarkedEdges(marks) - {e}
    ensures |UnmarkedEdges(marks[e := s])| == |UnmarkedEdges(marks)| - 1
  {
    var after := marks[e := s];
    assert e in UnmarkedEdges(marks);
    forall x ensures x in UnmarkedEdges(after) <==> x in UnmarkedEdges(marks) - {e} {
      if 0 <= x < |marks| && x != e {
        assert after[x] == marks[x];
      }
    }
    assert UnmarkedEdges(after) == UnmarkedEdges(marks) - {e};
  }

  // ---------------------------------------------------------------------------
  // closeCell's marking loop

  /** closeCell's marking loop over the edges `es` of `c`: an edge still unmarked when the
      loop reaches it is marked by `c`; a marked edge is skipped. */
  function MarkUnmarked(marks: seq<set<CellId>>, c: CellId, es: seq<EdgeId>): (r: seq<set<CellId>>)
    requires forall j :: 0 <= j < |es| ==> es[j] < |marks|
    ensures |r| == |marks|
  {
    if es == [] then marks
    else
      var m := MarkUnmarked(marks, c, es[..|es| - 1]);
      var e := es[|es| - 1];
      if Marked(m, e) then m else m[e := m[e] + {c}]
  }

  /** Afterwards an edge of `es` that was unmarked is marked by `c` alone; every other
      edge keeps its marks. */
  lemma {:induction false} MarkUnmarkedAt(marks: seq<set<CellId>>, c: CellId, es: seq<EdgeId>, e: EdgeId)
    requires forall j :: 0 <= j < |es| ==> es[j] < |marks|
    requires e < |marks|
    ensures MarkUnmarked(marks, c, es)[e] == if e in es && !Marked(marks, e) then {c} else marks[e]
  {
    if es != [] {
      var init := es[..|es| - 1];
      assert es == init + [es[|es| - 1]];
      MarkUnmarkedAt(marks, c, init, e);
    }
  }

  /** The marking loop only adds marks, and leaves every edge of `es` marked. */
  lemma MarkUnmarkedMarksAll(marks: seq<set<CellId>>, c: CellId, es: seq<EdgeId>)
    requires forall j :: 0 <= j < |es| ==> es[j] < |marks|
    ensures MarksGrow(marks, MarkUnmarked(marks, c, es))
    ensures forall j :: 0 <= j < |es| ==> Marked(MarkUnmarked(marks, c, es), es[j])
  {
    var r := MarkUnmarked(marks, c, es);
    forall e | 0 <= e < |marks| ensures r[e] == if e in es && !Marked(marks, e) then {c} else marks[e] {
      MarkUnmarkedAt(marks, c, es, e);
    }
  }

  // ---------------------------------------------------------------------------
  // The cells closeCell appends to the worklist

  /** Neighbour `n` of `c` is woken by the newly marked edge `e`: it has `e`, is closed,
      was refined regularly and is not `c` itself. */
  ghost predicate Wakes(t: WellFormedTopology, closed: seq<bool>, c: CellId, e: EdgeId, n: CellId)
    requires n < t.CellCount() && |closed| == t.CellCount()
  {
    e in t.cellEdges[n] && closed[n] && t.status[n] == RefReg && n != c
  }

  /** The neighbours among `ns` that `e` wakes, in order. */
  ghost function Woken(t: WellFormedTopology, closed: seq<bool>, c: CellId, e: EdgeId, ns: seq<CellId>): (r: seq<CellId>)
    requires |closed| == t.CellCount()
    requires forall i :: 0 <= i < |ns| ==> ns[i] < t.CellCount()
  {
    if ns == [] then []
    else
      var n := ns[|ns| - 1];
      Woken(t, closed, c, e, ns[..|ns| - 1]) + if Wakes(t, closed, c, e, n) then [n] else []
  }

  lemma {:induction false} WokenMembers(t: WellFormedTopology, closed: seq<bool>, c: CellId, e: EdgeId, ns: seq<CellId>, x: CellId)
    requires |closed| == t.CellCount()
    requires forall i :: 0 <= i < |ns| ==> ns[i] < t.CellCount()
    ensures x in Woken(t, closed, c, e, ns) <==> x in ns && x < t.CellCount() && Wakes(t, closed, c, e, x)
  {
    if ns != [] {
      var init := ns[..|ns| - 1];
      WokenMembers(t, closed, c, e, init, x);
      assert ns == init + [ns[|ns| - 1]];
    }
  }

  /** Everything closeCell appends to the worklist while its marking loop runs over the
      edges `es` of `c`: the neighbours each newly marked edge wakes. */
  ghost function Enqueued(t: WellFormedTopology, closed: seq<bool>, marks: seq<set<CellId>>, c: CellId, es: seq<EdgeId>): (r: seq<CellId>)
    requires c < t.CellCount() && |closed| == t.CellCount() && |marks| == t.edgeCount
    requires forall j :: 0 <= j < |es| ==> es[j] < |marks|
  {
    if es == [] then []
    else
      var init := es[..|es| - 1];
      var e := es[|es| - 1];
      Enqueued(t, closed, marks, c, init) +
        if Marked(MarkUnmarked(marks, c, init), e) then [] else Woken(t, closed, c, e, t.neighbors[c])
  }

  /** A cell is appended to the worklist iff it is a neighbour of `c`, is closed, was
      refined regularly, is not `c`, and has one of the edges of `es` that were unmarked. */
  lemma {:induction false} EnqueuedMembers(t: WellFormedTopology, closed: seq<bool>, marks: seq<set<CellId>>, c: CellId, es: seq<EdgeId>, x: CellId)
    requires c < t.CellCount() && |closed| == t.CellCount() && |marks| == t.edgeCount
    requires forall j :: 0 <= j < |es| ==> es[j] < |marks|
    ensures x in Enqueued(t, closed, marks, c, es) <==>
      && x in t.neighbors[c] && x < t.CellCount() && closed[x] && t.status[x] == RefReg && x != c
      && exists j :: 0 <= j < |es| && !Marked(marks, es[j]) && es[j] in t.cellEdges[x]
  {
    if es != [] {
      var init := es[..|es| - 1];
      var e := es[|es| - 1];
      assert es == init + [e];
      EnqueuedMembers(t, closed, marks, c, init, x);
      WokenMembers(t, closed, c, e, t.neighbors[c], x);
      MarkUnmarkedAt(marks, c, init, e);
      if x < t.CellCount() && exists j :: 0 <= j < |es| && !Marked(marks, es[j]) && es[j] in t.cellEdges[x] {
        var j :| 0 <= j < |es| && !Marked(marks, es[j]) && es[j] in t.cellEdges[x];
        if j < |init| {
          assert init[j] == es[j];
        } else if e in init {
          var j' :| 0 <= j' < |init| && init[j'] == e;
        }
      }
    }
  }

  /** The marking loop never marks more edges than were unmarked, and it marks at least
      one whenever it appends a cell to the worklist. */
  lemma {:induction false} MarkUnmarkedShrinks(t: WellFormedTopology, closed: seq<bool>, marks: seq<set<CellId>>, c: CellId, es: seq<EdgeId>)
    requires c < t.CellCount() && |closed| == t.CellCount() && |marks| == t.edgeCount
    requires forall j :: 0 <= j < |es| ==> es[j] < |marks|
    ensures |UnmarkedEdges(MarkUnmarked(marks, c, es))| <= |UnmarkedEdges(marks)|
    ensures Enqueued(t, closed, marks, c, es) != [] ==>
      |UnmarkedEdges(MarkUnmarked(marks, c, es))| < |UnmarkedEdges(marks)|
  {
    if es != [] {
      var init := es[..|es| - 1];
      var e := es[|es| - 1];
      var m := MarkUnmarked(marks, c, init);
      MarkUnmarkedShrinks(t, closed, marks, c, init);
      if !Marked(m, e) {
        MarkingShrinksUnmarked(m, e, m[e] + {c});
      }
    }
  }

  // ---------------------------------------------------------------------------
  // closeGrid

  /** The cells among `cs` that have a marked edge, in order: the worklist closeGrid's
      first loop builds. */
  ghost function WithMarkedEdge(t: WellFormedTopology, marks: seq<set<CellId>>, cs: seq<CellId>): (r: seq<CellId>)
    requires |marks| == t.edgeCount
    requires forall i :: 0 <= i < |cs| ==> cs[i] < t.CellCount()
    ensures |r| <= |cs|
    ensures forall i :: 0 <= i < |r| ==> r[i] < t.CellCount()
  {
    if cs == [] then []
    else
      var c := cs[|cs| - 1];
      var init := cs[..|cs| - 1];
      assert cs == init + [c];
      WithMarkedEdge(t, marks, init) + if HasMarkedEdge(t, marks, c) then [c] else []
  }

  /** The initial worklist holds exactly the visited cells that have a marked edge. */
  lemma {:induction false} WithMarkedEdgeMembers(t: WellFormedTopology, marks: seq<set<CellId>>, cs: seq<CellId>, x: CellId)
    requires |marks| == t.edgeCount
    requires forall i :: 0 <= i < |cs| ==> cs[i] < t.CellCount()
    ensures x in WithMarkedEdge(t, marks, cs) <==> x in cs && x < t.CellCount() && HasMarkedEdge(t, marks, x)
  {
    if cs != [] {
      var init := cs[..|cs| - 1];
      assert cs == init + [cs[|cs| - 1]];
      WithMarkedEdgeMembers(t, marks, init, x);
    }
  }

  /** What closeGrid's worklist loop keeps, `initial` being the worklist it started from and
      `closed0`, `marks0` the flags and marks before the pass: the worklist holds cells that
      are on the initial list or closed; marks only grow; cells off the initial list keep
      their flag; and a cell of the initial list that is closed has all its edges marked. */
  ghost predicate CloseInvariant(t: WellFormedTopology, initial: seq<CellId>, closed0: seq<bool>, marks0: seq<set<CellId>>,
                                 closed: seq<bool>, marks: seq<set<CellId>>, work: seq<CellId>)
    requires |closed0| == t.CellCount() && |closed| == t.CellCount()
    requires |marks0| == t.edgeCount && |marks| == t.edgeCount
  {
    && (forall x :: x in work ==> x < t.CellCount() && (x in initial || closed[x]))
    && MarksGrow(marks0, marks)
    && (forall x :: 0 <= x < t.CellCount() && x !in initial ==> closed[x] == closed0[x])
    && (forall x :: 0 <= x < t.CellCount() && x in initial && closed[x] ==> AllEdgesMarked(t, marks, x))
  }

  /** One round of closeGrid's loop, whichever way closeCell went for `cell` (it found a
      rule and changed nothing, or it marked the cell's unmarked edges, woke neighbours and
      closed the cell), keeps the invariant and decreases the measure (unmarked edges,
      length of the worklist) lexicographically. `work` is the worklist after `cell` was
      taken off it. */
  lemma CloseRound(t: WellFormedTopology, initial: seq<CellId>, closed0: seq<bool>, marks0: seq<set<CellId>>,
                   closed: seq<bool>, marks: seq<set<CellId>>, work: seq<CellId>, cell: CellId,
                   closed': seq<bool>, marks': seq<set<CellId>>, work': seq<CellId>)
    requires |closed0| == t.CellCount() && |closed| == t.CellCount()
    requires |marks0| == t.edgeCount && |marks| == t.edgeCount
    requires |closed'| == t.CellCount() && |marks'| == t.edgeCount
    requires cell < t.CellCount() && (cell in initial || closed[cell])
    requires CloseInvariant(t, initial, closed0, marks0, closed, marks, work)
    requires || (closed' == closed && marks' == marks && work' == work)
             || (&& closed' == closed[cell := true]
                 && marks' == MarkUnmarked(marks, cell, t.cellEdges[cell])
                 && work' == work + Enqueued(t, closed, marks, cell, t.cellEdges[cell]))
    ensures CloseInvariant(t, initial, closed0, marks0, closed', marks', work')
    ensures || |UnmarkedEdges(marks')| < |UnmarkedEdges(marks)|
            || (|UnmarkedEdges(marks')| == |UnmarkedEdges(marks)| && |work'| <= |work|)
  {
    if closed' != closed || marks' != marks || work' != work {
      var es := t.cellEdges[cell];
      MarkUnmarkedShrinks(t, closed, marks, cell, es);
      MarkUnmarkedMarksAll(marks, cell, es);
      MarksGrowTransitive(marks0, marks, marks');
      forall x | x in work' ensures x < t.CellCount() && (x in initial || closed'[x]) {
        if x !in work {
          EnqueuedMembers(t, closed, marks, cell, es, x);
        }
      }
      forall x | 0 <= x < t.CellCount() && x in initial && closed'[x]
        ensures AllEdgesMarked(t, marks', x)
      {
        if x != cell {
          AllEdgesMarkedPersists(t, marks, marks', x);
        }
      }
    }
  }
}
