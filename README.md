# Network topology simulator: topology generator and data-flow animator

The Network Simulator is a desktop window. The user picks a topology shape (Star,
Bus, Ring, Mesh or Tree). The window draws the nodes and edges of that shape. A
"Simulate Data Flow" button then highlights the edges one at a time, in the order
they were created. This project models the two pieces of logic under the GUI
wiring and proves properties about them.

- `topology.dfy` (module `Topology`): how the selected name becomes a node set and
  an ordered edge list (`edge_order`). Each shape has a loop that appends edges,
  modelled as a method (`BuildStar` … `BuildTree`, `BuildShape`, `BuildGraph`).
  Each method is proved equal to a declarative description of the shape (`StarEdges`, `BusEdges`,
  `RingEdges`, `MeshEdges`, `TreeEdges`). Lemmas then pin down each shape: its
  exact list, edge count, degrees, path or cycle structure, completeness, the
  binary-tree parent/child rule, and the node ids used.
- `animator.dfy` (module `Animator`): the animation as a state machine over the
  value `Anim`. The state holds one colour per edge, the current edge index, and
  the one callback that may be scheduled on the event loop (`Idle`, `Unhighlight`
  or `HighlightNext`). Each handler and callback becomes a transition function.
  Lemmas prove what a run does after the corrected start (see "## Findings"):
  edges are shown one at a time, in order, two event-loop steps each, and after
  2n steps every edge is back to default and nothing more is scheduled. After the
  start as written, two edges can be red at once, but the run still ends with
  every edge back to default after 2n steps. Redrawing stops the animation.
  Pressing the button twice is the same as pressing it once.
- `simulator.dfy` (module `Simulator`): the controller object
  `NetworkSimulator`. Its fields are the edge list, the node set, an
  `array<Colour>` with one entry per edge line, the current index and the
  scheduled step. The methods update these fields in place, the way the handlers
  and callbacks do. Each method is proved to move the fields exactly as the
  matching `Animator` transition says.

The scheduled callback is one slot of type `Step`. When the event loop runs the
callback, the slot empties (`RunPendingStep`). The source keeps the id of a
callback that has already run in `_animation_id`. Cancelling that id later has no
effect, so the model treats the slot as empty (`Idle`).

## Model

| member | source | states |
|---|---|---|
| `Topology.ShapeOf` | runner.py:74-98 | Only the five names the selector offers pick a shape. Names are compared exactly, and any other name picks `Unknown`. |
| `Topology.BuildStar` | runner.py:78-82 | The loop adds hub 0 and then the spokes (0,1)…(0,5) in order. The node set is the hub plus every endpoint. |
| `Topology.BuildBus` | runner.py:83-87 | The loop skips i = 0 and then adds (i-1,i) for i = 1..5. The node set is the endpoints. |
| `Topology.BuildRing` | runner.py:88-92 | The loop adds (i,(i+1) mod 6) for i = 0..5. The node set is the endpoints. |
| `Topology.BuildMesh` | runner.py:93-97 | The nested loops add (i,j) for each i and each j with i < j < 6, in that order. |
| `Topology.AddMeshRow` | runner.py:95-97 | The inner loop appends row i, the pairs (i,j) for i < j < 6 by increasing j, after the edges already listed, and the node set is the endpoints of the whole list. |
| `Topology.BuildTree` | runner.py:98-106 | For each parent i = 0..4 the loop adds (i,2i+1), then (i,2i+2) only if 2i+2 < 10. The result is the heap edge list: edge k is (k/2, k+1). |
| `Topology.BuildGraph` | runner.py:74-106 | The edge list for a name is `EdgeOrder(ShapeOf(name))`. The node set is ids 0..5 (0..9 for Tree), or empty for an unknown name. The graph has nodes exactly when it has edges. |
| `Topology.BuildShape` | runner.py:75-106 | The loops for a shape build `EdgeOrder(t)` and the nodes 0..5 (0..9 for Tree), or nothing for no shape. The graph has nodes exactly when it has edges. |
| `Topology.StarIsSpokes` | runner.py:78-82 | Star is exactly [(0,1),…,(0,5)]. Every edge touches 0. Node 0 has degree 5 and every other node degree 1. |
| `Topology.BusIsPath` | runner.py:83-87 | Bus is exactly [(0,1),…,(4,5)]. Each edge ends where the next one starts. The two end nodes have degree 1 and the inner nodes degree 2. |
| `Topology.RingIsCycle` | runner.py:88-92 | Ring is exactly [(0,1),…,(4,5),(5,0)], ending with the wrap-around edge. Each edge ends where the next one starts, cyclically. |
| `Topology.RingIsRegular` | runner.py:88-92 | Every ring node has degree 2. |
| `Topology.MeshIsComplete` | runner.py:93-97 | Mesh has 15 edges. (i,j) is an edge exactly when 0 ≤ i < j < 6, and the list is strictly increasing in lexicographic order, so each pair appears once. |
| `Topology.MeshIsRegular` | runner.py:93-97 | Every mesh node has degree 5. |
| `Topology.MeshListed` | runner.py:93-97 | The mesh list is exactly (0,1)…(0,5), then (1,2)…(1,5), and so on to (4,5): 15 edges, in the order the nested loops add them. |
| `Topology.TreeListed` | runner.py:98-106 | Tree is exactly [(0,1),(0,2),(1,3),…,(4,9)]: 9 edges, in the order the loops add them. |
| `Topology.TreeIsBinary` | runner.py:98-106 | (p,c) is an edge exactly when p is in 0..4, c < 10 and c is 2p+1 or 2p+2. Node 4's right child (4,10) is left out. Edge k leads to child k+1 from a smaller parent. |
| `Topology.UnknownIsEmpty` | runner.py:76-106 | The edge list is empty exactly when the name is not one of the five offered. |
| `Topology.NoShapeRepeatsAPair` | runner.py:76-106 | No shape's list contains the same unordered pair twice. |
| `Topology.GraphNodesAreEndpoints` | runner.py:75-106 | The graph's nodes are exactly the endpoints of its edges, plus the hub for Star. That is ids 0..5 (0..9 for Tree), or none for an unknown name. |
| `Topology.EmptyGraphHasNoEdges` | runner.py:123-138 | A graph without nodes has no edges and the other way round, so the number of edge lines always equals the length of the edge list. |
| `Animator.AfterHighlightNext` | runner.py:157-171 | Below the last edge: the current edge turns red and its unhighlight is scheduled. At or past the last edge: every colour returns to default and nothing new is scheduled. |
| `Animator.AfterUnhighlight` | runner.py:173-178 | The current edge returns to default, no other colour changes, the index moves up by exactly 1, and the next highlight is scheduled. |
| `Animator.AfterStep` | runner.py:170-178 | The event loop runs the scheduled step. With nothing scheduled it changes nothing. |
| `Animator.AfterSimulateAsWritten` | runner.py:146-155 | With no nodes or no edge lines, nothing happens. Otherwise the index goes back to 0, edge 0 turns red and the unhighlight is scheduled. All other colours stay as they were. |
| `Animator.AfterSimulate` | runner.py:146-155 | The corrected start. With no nodes or no edge lines, nothing happens. Otherwise every colour is reset first, and the result is the "showing edge 0" state: only edge 0 red, index 0, its unhighlight scheduled. |
| `Animator.AfterRedraw` | runner.py:68-72 | Drawing cancels the scheduled step and gives each new edge line the default colour. The index is left as it was. |
| `Animator.StepKeepsOneRed` | runner.py:157-178 | Every event-loop step keeps the invariant: at most one edge is red, namely the current one, and only while its unhighlight is scheduled. |
| `Animator.SimulateGivesOneRed` | runner.py:146-155 | The corrected start sets up that invariant from any state, with edge 0 red. |
| `Animator.SimulateTwiceIsSimulateOnce` | runner.py:146-155 | Pressing the button twice in a row gives the same state as pressing it once, both as written and as corrected. |
| `Animator.TwoStepsAdvance` | runner.py:157-178 | From "showing edge k", two steps lead to "showing edge k+1", or to the finished state after the last edge. |
| `Animator.RunVisitsEdgesInOrder` | runner.py:157-178 | From "showing edge k", step 2(j−k) shows edge j alone. Edges are visited strictly in list order, and after 2(n−k) steps the run is finished. |
| `Animator.RunFromStart` | runner.py:146-178 | After the corrected start on n edges, step 2j shows edge j alone. From step 2n on, every edge is default, the index equals n and nothing is scheduled. |
| `Animator.FinishedStays` | runner.py:158-163 | Once a run has finished, further event-loop steps change nothing. |
| `Animator.RedrawStopsAnimation` | runner.py:68-72 | After a redraw, no number of event-loop steps recolours any edge. |
| `Animator.AfterStepsAdd` | runner.py:170-178 | Running m steps and then n more equals running m+n steps. |
| `Animator.RestartLeavesStaleRed` | runner.py:150-155 | As written, on a six-edge ring: start, run two steps (edge 1 alone is red), press the button again. Edges 0 and 1 are then both red. |
| `Animator.SimulateAgreesWhenNothingRed` | runner.py:146-155 | The corrected start and the start as written give the same result whenever no edge is red. |
| `Animator.RunFromAnyColours` | runner.py:157-178 | From edge k with its unhighlight pending, whatever colours the other edges have, 2(n-k) steps end the run with every edge default, index n and nothing scheduled. |
| `Animator.RunAsWrittenFinishes` | runner.py:146-178 | After the start as written, from any state with n > 0 edge lines, every step from 2n on leaves every edge default and nothing scheduled: the stale red edge is cleared by the end of the run. |
| `Simulator.NetworkSimulator.constructor` | runner.py:55-66 | The window opens with the Star graph drawn, every edge line default, index 0 and nothing scheduled. |
| `Simulator.NetworkSimulator.DrawTopology` | runner.py:68-110 | Cancels the scheduled step and rebuilds the edge list and node set for the name. The new fields are exactly `AfterRedraw` of the old state. |
| `Simulator.NetworkSimulator.DisplayGraph` | runner.py:118-138 | Makes a fresh set of edge lines, one per edge, all in the default colour. |
| `Simulator.NetworkSimulator.SimulateDataFlowAsWritten` | runner.py:146-155 | The fields change exactly as `AfterSimulateAsWritten` says. |
| `Simulator.NetworkSimulator.SimulateDataFlow` | runner.py:146-155 | The fields change exactly as `AfterSimulate` says (the corrected start). |
| `Simulator.NetworkSimulator.HighlightNextEdge` | runner.py:157-171 | The fields change exactly as `AfterHighlightNext` says. |
| `Simulator.NetworkSimulator.UnhighlightCurrentEdge` | runner.py:173-178 | The fields change exactly as `AfterUnhighlight` says. |
| `Simulator.NetworkSimulator.RunPendingStep` | runner.py:170-178 | The event loop runs the scheduled callback. The fields change exactly as `AfterStep` says. |
| `Simulator.NetworkSimulator.ResetEdgeColours` | runner.py:159-161 | Every edge line is back to the default colour. |
| `Simulator.RestartDuringRunAsWritten` | runner.py:146-178 | Replays the finding's input through the class methods (verified, not executed). Draw Ring, start, run two steps, press again: as written, edges 0 and 1 are both red. |
| `Simulator.RestartDuringRun` | runner.py:146-178 | The same run with the corrected button: only edge 0 is red afterwards. |

## Findings

| source | as written | input that shows it | evidently intended | confidence | as-written member | corrected member |
|---|---|---|---|---|---|---|
| runner.py:150-155 | Restarting the animation cancels the pending unhighlight and turns edge 0 red. It does not restore the colour of the edge that was red. | Draw Ring and press "Simulate Data Flow". Wait one second: edge 0 is restored and edge 1 turns red. Press the button again: edges 0 and 1 are both red. | Edges light up one at a time and never overlap, so a restart clears the old highlight. | high; not executed | `Animator.RestartLeavesStaleRed` | `Animator.SimulateGivesOneRed` |

The as-written behaviour is also modelled on the class, as
`Simulator.NetworkSimulator.SimulateDataFlowAsWritten`.
`Simulator.RestartDuringRunAsWritten` replays the input above through the class
methods, and `Simulator.RestartDuringRun` replays it with the corrected button. The corrected method,
`Simulator.NetworkSimulator.SimulateDataFlow`, restores every edge line before the
restart. It uses the same loop the source runs at the end of a run
(runner.py:160-161). `Animator.SimulateAgreesWhenNothingRed` shows that the
correction changes nothing unless the button is pressed while an edge is red.

Drawing a topology cancels the scheduled step but does not reset
`current_edge_index` (runner.py:68-72). The model follows the code: `AfterRedraw`
keeps the index. Nothing can read the old index before the next start resets it,
because `RedrawStopsAnimation` shows that no step runs after a redraw.

## Left out

- Tk window, labels, buttons and option menu (runner.py:10-53) are UI wiring. The
  selected name is a parameter of `DrawTopology`. The constructor draws "Star",
  the selector's initial value.
- Node positions from `nx.spring_layout` (runner.py:109, 135-136) come from a
  foreign library using a random floating-point force layout. They are not
  modelled.
- Figure, axes, canvas, node circles, labels, the title and `canvas.draw()`
  (runner.py:112-144, 162, 168) are rendering through libraries the model cannot
  see. Only one colourable line per edge is kept: `edgeArtists`, with the two
  colours `Default` (`#3399ff`) and `Red`.
- The 1000 ms and 0 ms delays of `root.after` are not modelled. Timing is reduced
  to the order in which the one scheduled callback runs (`RunPendingStep`).
- The internals of `networkx.Graph` are not modelled. The graph is its node set
  plus the ordered edge list. `NoShapeRepeatsAPair` shows the graph never merges
  two list entries.
- The `graph is None` case of `simulate_data_flow` (runner.py:147) is left out.
  It cannot happen, because the constructor draws a graph before any button can
  be pressed.
