/** The controller of the simulator window: the graph drawn last, one colourable
    line per edge, and the state of the data-flow animation, updated in place by the
    button handlers and by the callbacks the event loop runs. */
module Simulator {
  import opened Topology
  import opened Animator

  class NetworkSimulator {
    /** The edges of the graph drawn last, in the order they were added. */
    var edgeOrder: seq<Edge>
    /** The node set of the graph drawn last. */
    var nodes: set<int>
    /** The colour of each edge's line, indexed like `edgeOrder`. */
    var edgeArtists: array<Colour>
    var currentEdgeIndex: nat
    /** The callback scheduled on the event loop, if any. */
    var pending: Step

    /** One line per edge, and the scheduled step can run. */
    ghost predicate Valid()
      reads this, edgeArtists
    {
      edgeArtists.Length == |edgeOrder| &&
      (nodes == {} <==> edgeOrder == []) &&
      WellFormed(Snapshot())
    }

    /** The animation state held by the fields. */
    ghost function Snapshot(): Anim
      reads this, edgeArtists
    {
      Anim(edgeArtists[..], currentEdgeIndex, pending)
    }

    /** The window opens with the Star topology drawn and no animation running. */
    constructor ()
      ensures Valid() && fresh(edgeArtists)
      ensures edgeOrder == EdgeOrder(Star) && nodes == GraphNodes(Star)
      ensures Snapshot() == Anim(AllDefault(|edgeOrder|), 0, Idle)
    {
      edgeOrder := [];
      nodes := {};
      edgeArtists := new Colour[0];
      currentEdgeIndex := 0;
      pending := Idle;
      new;
      DrawTopology("Star");
    }

    /** Cancel any scheduled step, then build the graph for the selected name and draw it. */
    method DrawTopology(name: string)
      modifies this
      ensures Valid() && fresh(edgeArtists)
      ensures edgeOrder == EdgeOrder(ShapeOf(name)) && nodes == GraphNodes(ShapeOf(name))
      ensures Snapshot() == AfterRedraw(old(Snapshot()), |edgeOrder|)
    {
      if pending != Idle {
        pending := Idle;
      }
      nodes, edgeOrder := BuildGraph(name);
      DisplayGraph();
    }

    /** Replace the edge lines: one in the default colour per edge, when the graph has nodes. */
    method DisplayGraph()
      requires nodes == {} <==> edgeOrder == []
      modifies this`edgeArtists
      ensures fresh(edgeArtists) && edgeArtists[..] == AllDefault(|edgeOrder|)
    {
      if nodes != {} {
        edgeArtists := new Colour[|edgeOrder|](_ => Default);
      } else {
        edgeArtists := new Colour[0];
      }
    }

    /** The "Simulate Data Flow" button as the source has it: when there are edges,
        cancel the scheduled step, go back to the first edge and highlight it. */
    method SimulateDataFlowAsWritten()
      requires Valid()
      modifies this`currentEdgeIndex, this`pending, edgeArtists
      ensures Valid()
      ensures Snapshot() == AfterSimulateAsWritten(old(Snapshot()), nodes != {})
    {
      if nodes == {} || edgeArtists.Length == 0 {
        return;
      }
      if pending != Idle {
        pending := Idle;
      }
      currentEdgeIndex := 0;
      HighlightNextEdge();
    }

    /** The "Simulate Data Flow" button, restoring every edge's colour before the
        restart so that a highlight cut short is not left red. */
    method SimulateDataFlow()
      requires Valid()
      modifies this`currentEdgeIndex, this`pending, edgeArtists
      ensures Valid()
      ensures Snapshot() == AfterSimulate(old(Snapshot()), nodes != {})
    {
      if nodes == {} || edgeArtists.Length == 0 {
        return;
      }
      if pending != Idle {
        pending := Idle;
      }
      ResetEdgeColours();
      currentEdgeIndex := 0;
      HighlightNextEdge();
    }

    /** Highlight the current edge and schedule its unhighlight; past the last edge,
        restore every edge's colour instead. */
    method HighlightNextEdge()
      requires Valid()
      modifies this`pending, edgeArtists
      ensures Valid()
      ensures Snapshot() == AfterHighlightNext(old(Snapshot()))
    {
      if currentEdgeIndex >= |edgeOrder| {
        ResetEdgeColours();
        return;
      }
      edgeArtists[currentEdgeIndex] := Red;
      pending := Unhighlight;
    }

    /** Restore the current edge's colour, advance, and schedule the next highlight. */
    method UnhighlightCurrentEdge()
      requires Valid() && currentEdgeIndex < edgeArtists.Length
      modifies this`currentEdgeIndex, this`pending, edgeArtists
      ensures Valid()
      ensures Snapshot() == AfterUnhighlight(old(Snapshot()))
    {
      edgeArtists[currentEdgeIndex] := Default;
      currentEdgeIndex := currentEdgeIndex + 1;
      pending := HighlightNext;
    }

    /** The event loop runs the scheduled callback, if there is one. */
    method RunPendingStep()
      requires Valid()
      modifies this`currentEdgeIndex, this`pending, edgeArtists
      ensures Valid()
      ensures Snapshot() == AfterStep(old(Snapshot()))
    {
      match pending
      case Idle =>
      case Unhighlight =>
        pending := Idle;
        UnhighlightCurrentEdge();
      case HighlightNext =>
        pending := Idle;
        HighlightNextEdge();
    }

    /** Set every edge's line back to the default colour. */
    method ResetEdgeColours()
      modifies edgeArtists
      ensures edgeArtists[..] == AllDefault(edgeArtists.Length)
    {
      var k := 0;
      while k < edgeArtists.Length
        invariant 0 <= k <= edgeArtists.Length
        invariant forall m :: 0 <= m < k ==> edgeArtists[m] == Default
      {
        edgeArtists[k] := Default;
        k := k + 1;
      }
    }
  }

  /** A window showing the ring, with no animation running. */
  method NewRingWindow() returns (sim: NetworkSimulator)
    ensures fresh(sim) && fresh(sim.edgeArtists) && sim.Valid() && sim.nodes != {}
    ensures sim.Snapshot() == Anim(AllDefault(6), 0, Idle)
  {
    assert |EdgeOrder(Ring)| == 6 && 0 in GraphNodes(Ring);
    sim := new NetworkSimulator();
    sim.DrawTopology("Ring");
  }

  /** Draw the ring, start the animation, let the event loop run until edge 1 is
      shown, and press the button again: as the source does it, edges 0 and 1 are
      then both red. */
  method RestartDuringRunAsWritten() returns (colours: seq<Colour>)
    ensures |colours| == 6 && colours[0] == Red && colours[1] == Red
  {
    var sim := NewRingWindow();
    sim.SimulateDataFlowAsWritten();
    assert sim.Snapshot() == Showing(6, 0);
    sim.RunPendingStep();
    sim.RunPendingStep();
    assert sim.Snapshot() == Showing(6, 1) by {
      TwoStepsAdvance(6, 0);
    }
    sim.SimulateDataFlowAsWritten();
    colours := sim.edgeArtists[..];
  }

  /** The same run with the corrected button: the second press clears the stale
      highlight and leaves only edge 0 red. */
  method RestartDuringRun() returns (colours: seq<Colour>)
    ensures |colours| == 6 && colours[0] == Red
    ensures forall k :: 1 <= k < 6 ==> colours[k] == Default
  {
    var sim := NewRingWindow();
    sim.SimulateDataFlow();
    assert sim.Snapshot() == Showing(6, 0);
    sim.RunPendingStep();
    sim.RunPendingStep();
    assert sim.Snapshot() == Showing(6, 1) by {
      TwoStepsAdvance(6, 0);
    }
    sim.SimulateDataFlow();
    colours := sim.edgeArtists[..];
    assert sim.Snapshot() == Showing(6, 0);
  }
}
