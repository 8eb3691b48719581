/** The data-flow animation as a state machine. A run walks the edges in their
    recorded order: it paints edge i red, waits, paints it back, and moves on to
    edge i + 1; after the last edge it restores every edge's colour. Between
    steps exactly one callback can be scheduled; here it is the `pending` step, and
    the wall-clock delays are abstracted away. */
module Animator {

  /** The two colours an edge line takes: its default blue, or red while highlighted. */
  datatype Colour = Default | Red

  /** The one callback that may be scheduled on the event loop. */
  datatype Step = Idle | Unhighlight | HighlightNext

  /** The animation state: one colour per edge (indexed like the edge order), the
      index of the current edge, and the scheduled step. */
  datatype Anim = Anim(colours: seq<Colour>, index: nat, pending: Step)

  function AllDefault(n: nat): (c: seq<Colour>)
    ensures |c| == n && forall k :: 0 <= k < n ==> c[k] == Default
  {
    seq(n, _ => Default)
  }

  /** What the scheduled step relies on when it runs: the unhighlight step indexes
      the current edge's line. */
  predicate WellFormed(a: Anim)
  {
    a.pending == Unhighlight ==> a.index < |a.colours|
  }

  /** At most one edge is red: the current one, and only while its unhighlight step
      is pending. */
  predicate OneRed(a: Anim)
  {
    WellFormed(a) &&
    forall k :: 0 <= k < |a.colours| ==> (a.colours[k] == Red <==> (a.pending == Unhighlight && k == a.index))
  }

  /** Edge k is red and its unhighlight step is pending: the state a run is in while
      it shows edge k. */
  function Showing(n: nat, k: nat): Anim
    requires k < n
  {
    Anim(AllDefault(n)[k := Red], k, Unhighlight)
  }

  /** The state a finished run leaves: every edge back to default, nothing scheduled. */
  function Finished(n: nat): Anim
  {
    Anim(AllDefault(n), n, Idle)
  }

  // ---------------------------------------------------------------------------
  // The transitions, one per callback of the drawing code

  /** Highlight the current edge and schedule its unhighlight step; once the index
      has passed the last edge, restore every edge's colour and schedule nothing. */
  function AfterHighlightNext(a: Anim): (b: Anim)
    ensures |b.colours| == |a.colours| && b.index == a.index
    ensures a.index < |a.colours| ==> b.pending == Unhighlight && b.colours == a.colours[a.index := Red]
    ensures a.index >= |a.colours| ==> b.pending == a.pending && b.colours == AllDefault(|a.colours|)
  {
    if a.index >= |a.colours| then a.(colours := AllDefault(|a.colours|))
    else a.(colours := a.colours[a.index := Red], pending := Unhighlight)
  }

  /** Restore the current edge's colour, advance to the next edge, and schedule the
      next highlight with no delay. */
  function AfterUnhighlight(a: Anim): (b: Anim)
    requires a.index < |a.colours|
    ensures |b.colours| == |a.colours| && b.index == a.index + 1 && b.pending == HighlightNext
    ensures b.colours[a.index] == Default
    ensures forall k :: 0 <= k < |a.colours| && k != a.index ==> b.colours[k] == a.colours[k]
  {
    a.(colours := a.colours[a.index := Default], index := a.index + 1, pending := HighlightNext)
  }

  /** The event loop runs the scheduled step, which is then no longer scheduled. */
  function AfterStep(a: Anim): (b: Anim)
    requires WellFormed(a)
    ensures WellFormed(b)
    ensures a.pending == Idle ==> b == a
  {
    match a.pending
    case Idle => a
    case Unhighlight => AfterUnhighlight(a.(pending := Idle))
    case HighlightNext => AfterHighlightNext(a.(pending := Idle))
  }

  /** `n` steps of the event loop. */
  function AfterSteps(a: Anim, n: nat): (b: Anim)
    requires WellFormed(a)
    ensures WellFormed(b)
    decreases n
  {
    if n == 0 then a else AfterSteps(AfterStep(a), n - 1)
  }

  /** Starting the animation as the source does: nothing when the graph has no nodes
      or no edge lines; otherwise cancel the scheduled step, go back to the first
      edge and highlight it. Colours are not touched before the restart. */
  function AfterSimulateAsWritten(a: Anim, hasNodes: bool): (b: Anim)
    ensures !hasNodes || |a.colours| == 0 ==> b == a
    ensures hasNodes && |a.colours| > 0 ==>
              b == Anim(a.colours[0 := Red], 0, Unhighlight)
  {
    if !hasNodes || |a.colours| == 0 then a
    else AfterHighlightNext(a.(index := 0, pending := Idle))
  }

  /** Starting the animation with every edge first restored to its default colour,
      so that a restart in the middle of a run leaves no stale red edge behind. */
  function AfterSimulate(a: Anim, hasNodes: bool): (b: Anim)
    ensures !hasNodes || |a.colours| == 0 ==> b == a
    ensures hasNodes && |a.colours| > 0 ==> b == Showing(|a.colours|, 0)
  {
    if !hasNodes || |a.colours| == 0 then a
    else AfterHighlightNext(Anim(AllDefault(|a.colours|), 0, Idle))
  }

  /** Drawing a topology cancels the scheduled step and replaces every edge line by
      a fresh one in the default colour; the index is left as it was. */
  function AfterRedraw(a: Anim, edges: nat): (b: Anim)
    ensures b.colours == AllDefault(edges) && b.index == a.index && b.pending == Idle
  {
    Anim(AllDefault(edges), a.index, Idle)
  }

  // ---------------------------------------------------------------------------
  // Properties of a run

  /** Each scheduled step keeps "at most one edge is red, and it is the current one". */
  lemma StepKeepsOneRed(a: Anim)
    requires OneRed(a)
    ensures OneRed(AfterStep(a))
  {
    var b := AfterStep(a);
    if a.pending == HighlightNext && a.index < |a.colours| {
      forall k | 0 <= k < |b.colours|
        ensures b.colours[k] == Red <==> (b.pending == Unhighlight && k == b.index)
      {
        assert a.colours[k] == Default;
      }
    }
  }

  /** Starting (as corrected) always leaves at most one red edge, whatever came before. */
  lemma SimulateGivesOneRed(a: Anim, hasNodes: bool)
    requires hasNodes && |a.colours| > 0
    ensures OneRed(AfterSimulate(a, hasNodes))
    ensures AfterSimulate(a, hasNodes).colours[0] == Red
  {
    var n := |a.colours|;
    assert AfterSimulate(a, hasNodes).colours == AllDefault(n)[0 := Red];
  }

  /** Pressing the button twice in a row restarts from the first edge: the second
      press changes nothing the first one did not already do. */
  lemma SimulateTwiceIsSimulateOnce(a: Anim, hasNodes: bool)
    ensures AfterSimulate(AfterSimulate(a, hasNodes), hasNodes) == AfterSimulate(a, hasNodes)
    ensures AfterSimulateAsWritten(AfterSimulateAsWritten(a, hasNodes), hasNodes)
            == AfterSimulateAsWritten(a, hasNodes)
  {
    if hasNodes && |a.colours| > 0 {
      var n := |a.colours|;
      assert AllDefault(n)[0 := Red][0 := Red] == AllDefault(n)[0 := Red];
      assert a.colours[0 := Red][0 := Red] == a.colours[0 := Red];
    }
  }

  /** Two steps move the highlight from edge k to edge k + 1, or finish the run after
      the last edge. */
  lemma TwoStepsAdvance(n: nat, k: nat)
    requires k < n
    ensures AfterSteps(Showing(n, k), 2) == if k + 1 < n then Showing(n, k + 1) else Finished(n)
  {
    var mid := AfterStep(Showing(n, k));
    assert AllDefault(n)[k := Red][k := Default] == AllDefault(n);
    assert mid == Anim(AllDefault(n), k + 1, HighlightNext);
    assert AfterSteps(Showing(n, k), 2) == AfterSteps(mid, 1);
  }

  lemma {:induction false} AfterStepsAdd(a: Anim, m: nat, n: nat)
    requires WellFormed(a)
    ensures AfterSteps(a, m + n) == AfterSteps(AfterSteps(a, m), n)
    decreases m
  {
    if m > 0 {
      AfterStepsAdd(AfterStep(a), m - 1, n);
    }
  }

  /** From edge k, the run shows edges k, k + 1, ... in order, two steps apiece, and
      finishes after the last one. */
  lemma {:induction false} RunVisitsEdgesInOrder(n: nat, k: nat, j: nat)
    requires k <= j < n
    ensures AfterSteps(Showing(n, k), 2 * (j - k)) == Showing(n, j)
    ensures AfterSteps(Showing(n, k), 2 * (n - k)) == Finished(n)
    decreases n - k
  {
    if k + 1 < n {
      TwoStepsAdvance(n, k);
      if k < j {
        RunVisitsEdgesInOrder(n, k + 1, j);
        AfterStepsAdd(Showing(n, k), 2, 2 * (j - k - 1));
      }
      RunVisitsEdgesInOrder(n, k + 1, k + 1);
      AfterStepsAdd(Showing(n, k), 2, 2 * (n - k - 1));
    } else {
      TwoStepsAdvance(n, k);
    }
  }

  /** After a start on n > 0 edges, step 2j shows edge j alone, and after 2n steps
      every edge is back to default and nothing further is scheduled, ever. */
  lemma RunFromStart(a: Anim, hasNodes: bool, j: nat, extra: nat)
    requires hasNodes && j < |a.colours|
    ensures AfterSteps(AfterSimulate(a, hasNodes), 2 * j) == Showing(|a.colours|, j)
    ensures AfterSteps(AfterSimulate(a, hasNodes), 2 * |a.colours| + extra) == Finished(|a.colours|)
  {
    var n := |a.colours|;
    RunVisitsEdgesInOrder(n, 0, j);
    AfterStepsAdd(Showing(n, 0), 2 * n, extra);
    FinishedStays(n, extra);
  }

  /** A finished run, or any state with nothing scheduled, stays as it is. */
  lemma {:induction false} FinishedStays(n: nat, m: nat)
    ensures AfterSteps(Finished(n), m) == Finished(n)
  {
    if m > 0 {
      FinishedStays(n, m - 1);
    }
  }

  /** Drawing a topology cancels the animation: no step of the event loop recolours
      any edge afterwards. */
  lemma {:induction false} RedrawStopsAnimation(a: Anim, edges: nat, m: nat)
    ensures AfterSteps(AfterRedraw(a, edges), m) == AfterRedraw(a, edges)
  {
    if m > 0 {
      RedrawStopsAnimation(a, edges, m - 1);
    }
  }

  // ---------------------------------------------------------------------------
  // The restart as written, against the corrected one

  /** As written, pressing the button while edge 1 of a six-edge ring is red leaves
      edge 1 red as well as the newly highlighted edge 0. */
  lemma RestartLeavesStaleRed()
    ensures var shown := AfterSteps(AfterSimulateAsWritten(Anim(AllDefault(6), 0, Idle), true), 2);
            shown == Showing(6, 1) && OneRed(shown) &&
            var again := AfterSimulateAsWritten(shown, true);
            again.colours[0] == Red && again.colours[1] == Red && !OneRed(again)
  {
    var start := AfterSimulateAsWritten(Anim(AllDefault(6), 0, Idle), true);
    assert start == Showing(6, 0);
    TwoStepsAdvance(6, 0);
    var shown := Showing(6, 1);
    var again := AfterSimulateAsWritten(shown, true);
    assert again.colours[1] == Red;
  }

  /** From edge k with its unhighlight pending, whatever the other edges' colours,
      the run walks the remaining edges and ends with every edge back to default:
      a red edge that a restart left behind is cleared at the end of the run. */
  lemma {:induction false} RunFromAnyColours(c: seq<Colour>, k: nat)
    requires k < |c|
    ensures AfterSteps(Anim(c, k, Unhighlight), 2 * (|c| - k)) == Finished(|c|)
    decreases |c| - k
  {
    var n := |c|;
    var a := Anim(c, k, Unhighlight);
    var mid := Anim(c[k := Default], k + 1, HighlightNext);
    assert AfterStep(a) == mid;
    AfterStepsAdd(a, 2, 2 * (n - k - 1));
    if k + 1 < n {
      var next := Anim(c[k := Default][k + 1 := Red], k + 1, Unhighlight);
      assert AfterSteps(a, 2) == next by {
        assert AfterStep(mid) == next;
      }
      RunFromAnyColours(c[k := Default][k + 1 := Red], k + 1);
    } else {
      assert AfterSteps(a, 2) == Finished(n) by {
        assert AfterStep(mid) == Finished(n);
      }
    }
  }

  /** The start as written may show two red edges for a while, but 2n steps after
      it every edge is back to default and nothing further is scheduled. */
  lemma RunAsWrittenFinishes(a: Anim, extra: nat)
    requires |a.colours| > 0
    ensures AfterSteps(AfterSimulateAsWritten(a, true), 2 * |a.colours| + extra) == Finished(|a.colours|)
  {
    var n := |a.colours|;
    var start := AfterSimulateAsWritten(a, true);
    RunFromAnyColours(a.colours[0 := Red], 0);
    AfterStepsAdd(start, 2 * n, extra);
    FinishedStays(n, extra);
  }

  /** The restart as written and as corrected agree whenever no edge is red. */
  lemma SimulateAgreesWhenNothingRed(a: Anim, hasNodes: bool)
    requires OneRed(a) && a.pending != Unhighlight
    ensures AfterSimulateAsWritten(a, hasNodes) == AfterSimulate(a, hasNodes)
  {
    assert a.colours == AllDefault(|a.colours|);
  }
}
