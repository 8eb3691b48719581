/** The topology generator: a selected shape name becomes the node set of the graph
    and the ordered list of undirected edges (`edge_order`) that drives drawing and
    animation. Star, Bus, Ring and Mesh use nodes 0..5; Tree is a binary tree whose
    node ids stay below 10. Any other name gives an empty graph. */
module Topology {

  /** An undirected edge between two node ids, endpoints in the order they were added. */
  type Edge = (int, int)

  datatype Shape = Star | Bus | Ring | Mesh | Tree | Unknown

  /** The names the topology selector offers. */
  const Options: seq<string> := ["Star", "Bus", "Ring", "Mesh", "Tree"]

  /** Number of nodes of the star, bus, ring and mesh. */
  const Size := 6
  /** The tree loop gives children to parents 0 .. TreeParents - 1 ... */
  const TreeParents := 5
  /** ... and adds a child only when its id is below TreeLimit. */
  const TreeLimit := 10

  function Name(s: Shape): string
    requires s != Unknown
  {
    match s
    case Star => "Star"
    case Bus => "Bus"
    case Ring => "Ring"
    case Mesh => "Mesh"
    case Tree => "Tree"
  }

  /** The shape selected by a name: names are compared exactly, and a name the
      selector does not offer selects no shape at all. */
  function ShapeOf(name: string): (s: Shape)
    ensures s == Unknown <==> name !in Options
    ensures s != Unknown ==> Name(s) == name
  {
    if name == "Star" then Star
    else if name == "Bus" then Bus
    else if name == "Ring" then Ring
    else if name == "Mesh" then Mesh
    else if name == "Tree" then Tree
    else Unknown
  }

  // ---------------------------------------------------------------------------
  // The edge lists, stated declaratively

  /** Spokes from the hub 0 to each of 1 .. Size - 1. */
  function StarEdges(): seq<Edge> { seq(Size - 1, k => (0, k + 1)) }

  /** Links between consecutive nodes. */
  function BusEdges(): seq<Edge> { seq(Size - 1, k => (k, k + 1)) }

  /** Links between consecutive nodes, the last one closing the ring back to 0. */
  function RingEdges(): seq<Edge> { seq(Size, k => (k, (k + 1) % Size)) }

  /** The edges from node i to each of lo .. hi - 1, by increasing far end. */
  function Fan(i: int, lo: int, hi: int): seq<Edge>
    requires lo <= hi
  {
    seq(hi - lo, k => (i, lo + k))
  }

  /** The pairs (i, j) with i < j < Size for one fixed i, by increasing j. */
  function MeshRow(i: int): seq<Edge>
    requires 0 <= i < Size
  {
    Fan(i, i + 1, Size)
  }

  /** The rows of the mesh for i = 0 .. n - 1. */
  function MeshRows(n: nat): seq<Edge>
    requires n <= Size
  {
    if n == 0 then [] else MeshRows(n - 1) + MeshRow(n - 1)
  }

  function MeshEdges(): seq<Edge> { MeshRows(Size) }

  /** The first n edges of a binary heap: edge k joins child k + 1 to its parent k / 2. */
  function HeapEdges(n: nat): seq<Edge> { seq(n, k => (k / 2, k + 1)) }

  /** Every node 1 .. TreeLimit - 1 hangs below its heap parent. */
  function TreeEdges(): seq<Edge> { HeapEdges(TreeLimit - 1) }

  function EdgeOrder(t: Shape): seq<Edge>
  {
    match t
    case Star => StarEdges()
    case Bus => BusEdges()
    case Ring => RingEdges()
    case Mesh => MeshEdges()
    case Tree => TreeEdges()
    case Unknown => []
  }

  function NodeCount(t: Shape): nat
  {
    match t
    case Tree => TreeLimit
    case Unknown => 0
    case _ => Size
  }

  /** The node ids 0 .. n - 1. */
  function Span(n: nat): (s: set<int>)
    ensures forall v :: v in s <==> 0 <= v < n
  {
    if n == 0 then {} else Span(n - 1) + {n - 1}
  }

  /** The node set of the graph built for a shape. */
  function GraphNodes(t: Shape): set<int>
  {
    Span(NodeCount(t))
  }

  // ---------------------------------------------------------------------------
  // Vocabulary about edge lists

  predicate Touches(e: Edge, v: int) { e.0 == v || e.1 == v }

  /** Both orientations of an undirected edge denote the same pair. */
  predicate SamePair(a: Edge, b: Edge) { a == b || (a.0 == b.1 && a.1 == b.0) }

  predicate NoDuplicatePairs(es: seq<Edge>)
  {
    forall k, l :: 0 <= k < l < |es| ==> !SamePair(es[k], es[l])
  }

  predicate LexLess(a: Edge, b: Edge) { a.0 < b.0 || (a.0 == b.0 && a.1 < b.1) }

  predicate StrictlyLexSorted(es: seq<Edge>)
  {
    forall k, l :: 0 <= k < l < |es| ==> LexLess(es[k], es[l])
  }

  /** The nodes that the edges of `es` touch. */
  function Endpoints(es: seq<Edge>): set<int>
  {
    if es == [] then {} else {es[0].0, es[0].1} + Endpoints(es[1..])
  }

  /** The number of edges of `es` that touch `v`. */
  function Degree(es: seq<Edge>, v: int): nat
  {
    if es == [] then 0 else (if Touches(es[0], v) then 1 else 0) + Degree(es[1..], v)
  }

  lemma {:induction false} EndpointsAppend(es: seq<Edge>, e: Edge)
    ensures Endpoints(es + [e]) == Endpoints(es) + {e.0, e.1}
  {
    if es != [] {
      assert (es + [e])[1..] == es[1..] + [e];
      EndpointsAppend(es[1..], e);
    }
  }

  lemma {:induction false} DegreeConcat(a: seq<Edge>, b: seq<Edge>, v: int)
    ensures Degree(a + b, v) == Degree(a, v) + Degree(b, v)
  {
    if a == [] {
      assert a + b == b;
    } else {
      assert (a + b)[0] == a[0] && (a + b)[1..] == a[1..] + b;
      DegreeConcat(a[1..], b, v);
    }
  }

  lemma {:induction false} EndpointsContain(es: seq<Edge>, e: Edge)
    requires e in es
    ensures e.0 in Endpoints(es) && e.1 in Endpoints(es)
  {
    if es[0] != e {
      assert e in es[1..];
      EndpointsContain(es[1..], e);
    }
  }

  lemma {:induction false} EndpointsWithin(es: seq<Edge>, n: int)
    requires forall e :: e in es ==> 0 <= e.0 < n && 0 <= e.1 < n
    ensures forall v :: v in Endpoints(es) ==> 0 <= v < n
  {
    if es != [] {
      assert forall e :: e in es[1..] ==> e in es;
      EndpointsWithin(es[1..], n);
    }
  }

  // ---------------------------------------------------------------------------
  // Building the graph, as the drawing code does: loops that append edges

  /** The star loop: hub 0 is added first, then one spoke per i in 1 .. 5. */
  method BuildStar() returns (nodes: set<int>, edges: seq<Edge>)
    ensures edges == StarEdges()
    ensures nodes == {0} + Endpoints(edges)
  {
    nodes, edges := {0}, [];
    var i := 1;
    while i < Size
      invariant 1 <= i <= Size
      invariant edges == StarEdges()[..i - 1]
      invariant nodes == {0} + Endpoints(edges)
    {
      EndpointsAppend(edges, (0, i));
      edges := edges + [(0, i)];
      nodes := nodes + {0, i};
      i := i + 1;
    }
  }

  /** The bus loop: for each i in 0 .. 5 after the first, link i - 1 to i. */
  method BuildBus() returns (nodes: set<int>, edges: seq<Edge>)
    ensures edges == BusEdges()
    ensures nodes == Endpoints(edges)
  {
    nodes, edges := {}, [];
    var i := 0;
    while i < Size
      invariant 0 <= i <= Size
      invariant edges == BusEdges()[..if i == 0 then 0 else i - 1]
      invariant nodes == Endpoints(edges)
    {
      if i > 0 {
        EndpointsAppend(edges, (i - 1, i));
        edges := edges + [(i - 1, i)];
        nodes := nodes + {i - 1, i};
      }
      i := i + 1;
    }
  }

  /** The ring loop: for each i in 0 .. 5, link i to (i + 1) mod 6. */
  method BuildRing() returns (nodes: set<int>, edges: seq<Edge>)
    ensures edges == RingEdges()
    ensures nodes == Endpoints(edges)
  {
    nodes, edges := {}, [];
    var i := 0;
    while i < Size
      invariant 0 <= i <= Size
      invariant edges == RingEdges()[..i]
      invariant nodes == Endpoints(edges)
    {
      var j := (i + 1) % Size;
      EndpointsAppend(edges, (i, j));
      edges := edges + [(i, j)];
      nodes := nodes + {i, j};
      i := i + 1;
    }
  }

  /** The mesh loops: for each i, link i to every j with i < j < 6. */
  method BuildMesh() returns (nodes: set<int>, edges: seq<Edge>)
    ensures edges == MeshEdges()
    ensures nodes == Endpoints(edges)
  {
    nodes, edges := {}, [];
    var i := 0;
    while i < Size
      invariant 0 <= i <= Size
      invariant edges == MeshRows(i)
      invariant nodes == Endpoints(edges)
    {
      nodes, edges := AddMeshRow(i, nodes, edges);
      i := i + 1;
    }
  }

  /** The inner mesh loop: append (i, j) for every j with i < j < 6. */
  method AddMeshRow(i: int, nodes0: set<int>, edges0: seq<Edge>) returns (nodes: set<int>, edges: seq<Edge>)
    requires 0 <= i < Size && nodes0 == Endpoints(edges0)
    ensures edges == edges0 + MeshRow(i)
    ensures nodes == Endpoints(edges)
  {
    nodes, edges := nodes0, edges0;
    var j := i + 1;
    while j < Size
      invariant i + 1 <= j <= Size
      invariant edges == edges0 + MeshRow(i)[..j - (i + 1)]
      invariant nodes == Endpoints(edges)
    {
      assert MeshRow(i)[..j - i] == MeshRow(i)[..j - (i + 1)] + [(i, j)];
      EndpointsAppend(edges, (i, j));
      edges := edges + [(i, j)];
      nodes := nodes + {i, j};
      j := j + 1;
    }
    assert MeshRow(i)[..j - (i + 1)] == MeshRow(i);
  }

  /** The tree loop: each parent i in 0 .. 4 gets its left child 2i + 1, and its
      right child 2i + 2 only when that is below 10. */
  method BuildTree() returns (nodes: set<int>, edges: seq<Edge>)
    ensures edges == TreeEdges()
    ensures nodes == Endpoints(edges)
  {
    nodes, edges := {}, [];
    var i := 0;
    while i < TreeParents
      invariant 0 <= i <= TreeParents
      invariant edges == TreeEdges()[..if 2 * i < TreeLimit then 2 * i else TreeLimit - 1]
      invariant nodes == Endpoints(edges)
    {
      var left := 2 * i + 1;
      EndpointsAppend(edges, (i, left));
      edges := edges + [(i, left)];
      nodes := nodes + {i, left};
      var right := 2 * i + 2;
      if right < TreeLimit {
        EndpointsAppend(edges, (i, right));
        edges := edges + [(i, right)];
        nodes := nodes + {i, right};
      }
      i := i + 1;
    }
  }

  /** The graph drawn for the selected name: its node set and its edges in the
      order they were added. */
  method BuildGraph(name: string) returns (nodes: set<int>, edges: seq<Edge>)
    ensures edges == EdgeOrder(ShapeOf(name))
    ensures nodes == GraphNodes(ShapeOf(name))
    ensures nodes == {} <==> edges == []
  {
    nodes, edges := BuildShape(ShapeOf(name));
  }

  /** The loop that builds the selected shape, or the empty graph for no shape. */
  method BuildShape(t: Shape) returns (nodes: set<int>, edges: seq<Edge>)
    ensures edges == EdgeOrder(t) && nodes == GraphNodes(t)
    ensures nodes == {} <==> edges == []
  {
    match t {
      case Star =>
        nodes, edges := BuildStar();
        StarNodes();
      case Bus =>
        nodes, edges := BuildBus();
        BusNodes();
      case Ring =>
        nodes, edges := BuildRing();
        RingNodes();
      case Mesh =>
        nodes, edges := BuildMesh();
        MeshNodes();
      case Tree =>
        nodes, edges := BuildTree();
        TreeNodes();
      case Unknown =>
        nodes, edges := {}, [];
    }
    EmptyGraphHasNoEdges(t);
  }

  // ---------------------------------------------------------------------------
  // What each shape's edge list is

  /** Five spokes, all at the hub 0: the hub has degree 5 and every other node 1. */
  lemma StarIsSpokes()
    ensures EdgeOrder(Star) == [(0, 1), (0, 2), (0, 3), (0, 4), (0, 5)]
    ensures forall e :: e in EdgeOrder(Star) ==> Touches(e, 0)
    ensures Degree(EdgeOrder(Star), 0) == 5
    ensures forall v :: 1 <= v < Size ==> Degree(EdgeOrder(Star), v) == 1
  {
    assert StarEdges() == [(0, 1), (0, 2), (0, 3), (0, 4), (0, 5)];
  }

  /** The path 0 - 1 - 2 - 3 - 4 - 5: consecutive edges share a node, the ends have
      degree 1 and the inner nodes degree 2. */
  lemma BusIsPath()
    ensures EdgeOrder(Bus) == [(0, 1), (1, 2), (2, 3), (3, 4), (4, 5)]
    ensures forall k :: 0 <= k < |EdgeOrder(Bus)| - 1 ==> EdgeOrder(Bus)[k].1 == EdgeOrder(Bus)[k + 1].0
    ensures Degree(EdgeOrder(Bus), 0) == 1 && Degree(EdgeOrder(Bus), Size - 1) == 1
    ensures forall v :: 0 < v < Size - 1 ==> Degree(EdgeOrder(Bus), v) == 2
  {
    assert BusEdges() == [(0, 1), (1, 2), (2, 3), (3, 4), (4, 5)];
  }

  /** The cycle 0 - 1 - 2 - 3 - 4 - 5 - 0, closed by the wrap-around edge (5, 0):
      each edge ends where the next (cyclically) starts. */
  lemma RingIsCycle()
    ensures EdgeOrder(Ring) == [(0, 1), (1, 2), (2, 3), (3, 4), (4, 5), (5, 0)]
    ensures forall k :: 0 <= k < Size ==> EdgeOrder(Ring)[k].1 == EdgeOrder(Ring)[(k + 1) % Size].0
  {
    assert RingEdges() == [(0, 1), (1, 2), (2, 3), (3, 4), (4, 5), (5, 0)];
  }

  /** Every node of the ring has degree 2. */
  lemma RingIsRegular()
    ensures forall v :: 0 <= v < Size ==> Degree(EdgeOrder(Ring), v) == 2
  {
    assert RingEdges() == [(0, 1), (1, 2), (2, 3), (3, 4), (4, 5), (5, 0)];
    forall v | 0 <= v < Size
      ensures Degree(RingEdges(), v) == 2
    {
      RingDegree(v);
    }
  }

  lemma RingDegree(v: int)
    requires 0 <= v < Size
    ensures Degree([(0, 1), (1, 2), (2, 3), (3, 4), (4, 5), (5, 0)], v) == 2
  {
  }

  lemma {:induction false} MeshRowsMembers(n: nat, e: Edge)
    requires n <= Size
    ensures e in MeshRows(n) <==> 0 <= e.0 < n && e.0 < e.1 < Size
  {
    if n > 0 {
      MeshRowsMembers(n - 1, e);
      var row := MeshRow(n - 1);
      if e.0 == n - 1 && e.0 < e.1 < Size {
        assert row[e.1 - n] == e;
      }
    }
  }

  lemma {:induction false} MeshRowsSorted(n: nat)
    requires n <= Size
    ensures StrictlyLexSorted(MeshRows(n))
  {
    if n > 0 {
      MeshRowsSorted(n - 1);
      var rows, row := MeshRows(n - 1), MeshRow(n - 1);
      forall k | 0 <= k < |rows|
        ensures rows[k].0 < n - 1
      {
        MeshRowsMembers(n - 1, rows[k]);
      }
      assert MeshRows(n) == rows + row;
    }
  }

  lemma {:induction false} MeshRowsLength(n: nat)
    requires n <= Size
    ensures 2 * |MeshRows(n)| == n * (2 * Size - 1 - n)
  {
    if n > 0 {
      MeshRowsLength(n - 1);
    }
  }

  /** Every pair i < j of the six nodes is linked exactly once, in lexicographic order. */
  lemma MeshIsComplete()
    ensures |EdgeOrder(Mesh)| == 15
    ensures forall i, j :: (i, j) in EdgeOrder(Mesh) <==> 0 <= i < j < Size
    ensures StrictlyLexSorted(EdgeOrder(Mesh))
  {
    MeshRowsLength(Size);
    MeshRowsSorted(Size);
    forall i, j
      ensures (i, j) in EdgeOrder(Mesh) <==> 0 <= i < j < Size
    {
      MeshRowsMembers(Size, (i, j));
    }
  }

  /** The mesh loops add the five edges at node 0, then those at node 1, and so on. */
  lemma MeshListed()
    ensures EdgeOrder(Mesh) == [(0, 1), (0, 2), (0, 3), (0, 4), (0, 5),
                                (1, 2), (1, 3), (1, 4), (1, 5),
                                (2, 3), (2, 4), (2, 5),
                                (3, 4), (3, 5),
                                (4, 5)]
  {
    assert MeshRow(0) == [(0, 1), (0, 2), (0, 3), (0, 4), (0, 5)];
    assert MeshRow(1) == [(1, 2), (1, 3), (1, 4), (1, 5)];
    assert MeshRow(2) == [(2, 3), (2, 4), (2, 5)];
    assert MeshRow(3) == [(3, 4), (3, 5)];
    assert MeshRow(4) == [(4, 5)];
    assert MeshRow(5) == [];
    assert MeshRows(6) == MeshRow(0) + MeshRow(1) + MeshRow(2) + MeshRow(3) + MeshRow(4) + MeshRow(5);
  }

  lemma {:induction false} FanDegree(i: int, lo: int, hi: int, v: int)
    requires i < lo <= hi
    ensures Degree(Fan(i, lo, hi), v) == if v == i then hi - lo else if lo <= v < hi then 1 else 0
    decreases hi - lo
  {
    if lo < hi {
      assert Fan(i, lo, hi)[0] == (i, lo) && Fan(i, lo, hi)[1..] == Fan(i, lo + 1, hi);
      FanDegree(i, lo + 1, hi, v);
    }
  }

  /** Node v meets n - 1 - v edges in its own row and one in each earlier row. */
  lemma {:induction false} MeshRowsDegree(n: nat, v: int)
    requires n <= Size && 0 <= v < Size
    ensures Degree(MeshRows(n), v) == (if v < n then v + (Size - 1 - v) else n)
  {
    if n == 0 {
      assert MeshRows(n) == [];
    } else {
      MeshRowsDegree(n - 1, v);
      DegreeConcat(MeshRows(n - 1), MeshRow(n - 1), v);
      FanDegree(n - 1, n, Size, v);
    }
  }

  /** In the mesh every node has degree 5. */
  lemma MeshIsRegular()
    ensures forall v :: 0 <= v < Size ==> Degree(EdgeOrder(Mesh), v) == Size - 1
  {
    forall v | 0 <= v < Size
      ensures Degree(EdgeOrder(Mesh), v) == Size - 1
    {
      MeshRowsDegree(Size, v);
    }
  }

  /** The tree loop adds nine edges, in this order. */
  lemma TreeListed()
    ensures EdgeOrder(Tree) == [(0, 1), (0, 2), (1, 3), (1, 4), (2, 5), (2, 6), (3, 7), (3, 8), (4, 9)]
  {
    assert TreeEdges() == [(0, 1), (0, 2), (1, 3), (1, 4), (2, 5), (2, 6), (3, 7), (3, 8), (4, 9)];
  }

  /** Each edge joins a parent i in 0 .. 4 to its child 2i + 1 or 2i + 2 below 10;
      node 4's right child 10 is the one child left out, and each of the nodes
      1 .. 9 is the child of exactly one edge, with a smaller parent. */
  lemma TreeIsBinary()
    ensures forall p, c :: (p, c) in EdgeOrder(Tree) <==>
              0 <= p < TreeParents && c < TreeLimit && (c == 2 * p + 1 || c == 2 * p + 2)
    ensures (4, 10) !in EdgeOrder(Tree)
    ensures forall k :: 0 <= k < |EdgeOrder(Tree)| ==>
              EdgeOrder(Tree)[k].1 == k + 1 && EdgeOrder(Tree)[k].0 < EdgeOrder(Tree)[k].1
  {
    var es := TreeEdges();
    forall p, c
      ensures (p, c) in es <==>
              0 <= p < TreeParents && c < TreeLimit && (c == 2 * p + 1 || c == 2 * p + 2)
    {
      if (p, c) in es {
        var k :| 0 <= k < |es| && es[k] == (p, c);
        assert p == k / 2 && c == k + 1;
      }
      if 0 <= p < TreeParents && c < TreeLimit && (c == 2 * p + 1 || c == 2 * p + 2) {
        assert es[c - 1] == (p, c);
      }
    }
  }

  /** The shapes the selector offers have edges; any other name has none. */
  lemma UnknownIsEmpty(name: string)
    ensures EdgeOrder(ShapeOf(name)) == [] <==> name !in Options
  {
  }

  /** No shape links the same two nodes twice, in either orientation. */
  lemma NoShapeRepeatsAPair(t: Shape)
    ensures NoDuplicatePairs(EdgeOrder(t))
  {
    match t
    case Star =>
    case Bus =>
    case Ring =>
      forall k, l | 0 <= k < l < Size
        ensures !SamePair(RingEdges()[k], RingEdges()[l])
      {
        if l == Size - 1 {
          assert RingEdges()[l] == (5, 0);
        }
      }
    case Mesh =>
      MeshRowsSorted(Size);
      forall k | 0 <= k < |MeshEdges()|
        ensures MeshEdges()[k].0 < MeshEdges()[k].1
      {
        MeshRowsMembers(Size, MeshEdges()[k]);
      }
    case Tree =>
    case Unknown =>
  }

  /** The nodes touched by the edges (with the hub, added on its own, for Star) are
      exactly ids 0 .. 5, or 0 .. 9 for Tree, and none for any other name. */
  lemma GraphNodesAreEndpoints(t: Shape)
    ensures GraphNodes(t) == Endpoints(EdgeOrder(t)) + (if t == Star then {0} else {})
  {
    match t
    case Star => StarNodes();
    case Bus => BusNodes();
    case Ring => RingNodes();
    case Mesh => MeshNodes();
    case Tree => TreeNodes();
    case Unknown =>
  }

  /** Some edge of `es` has `v` as an endpoint. */
  predicate Covered(es: seq<Edge>, v: int)
  {
    exists e :: e in es && Touches(e, v)
  }

  /** An edge list whose pairs lie in 0 .. n - 1 and touch every node there has
      exactly those nodes as endpoints. */
  lemma EndpointsSpan(es: seq<Edge>, n: nat)
    requires forall e :: e in es ==> 0 <= e.0 < n && 0 <= e.1 < n
    requires forall v :: 0 <= v < n ==> Covered(es, v)
    ensures Endpoints(es) == Span(n)
  {
    forall v | 0 <= v < n
      ensures v in Endpoints(es)
    {
      assert Covered(es, v);
      var e :| e in es && Touches(e, v);
      EndpointsContain(es, e);
    }
    EndpointsWithin(es, n);
  }

  lemma StarNodes()
    ensures Endpoints(StarEdges()) == Span(Size)
  {
    var es := StarEdges();
    forall v | 0 <= v < Size
      ensures Covered(es, v)
    {
      var k := if v == 0 then 0 else v - 1;
      assert es[k] in es && Touches(es[k], v);
    }
    forall e | e in es
      ensures 0 <= e.0 < Size && 0 <= e.1 < Size
    {
      var k :| 0 <= k < |es| && es[k] == e;
    }
    EndpointsSpan(es, Size);
  }

  lemma BusNodes()
    ensures Endpoints(BusEdges()) == Span(Size)
  {
    var es := BusEdges();
    forall v | 0 <= v < Size
      ensures Covered(es, v)
    {
      var k := if v == 0 then 0 else v - 1;
      assert es[k] in es && Touches(es[k], v);
    }
    forall e | e in es
      ensures 0 <= e.0 < Size && 0 <= e.1 < Size
    {
      var k :| 0 <= k < |es| && es[k] == e;
    }
    EndpointsSpan(es, Size);
  }

  lemma RingNodes()
    ensures Endpoints(RingEdges()) == Span(Size)
  {
    var es := RingEdges();
    forall v | 0 <= v < Size
      ensures Covered(es, v)
    {
      assert es[v] in es && Touches(es[v], v);
    }
    forall e | e in es
      ensures 0 <= e.0 < Size && 0 <= e.1 < Size
    {
      var k :| 0 <= k < |es| && es[k] == e;
    }
    EndpointsSpan(es, Size);
  }

  lemma MeshNodes()
    ensures Endpoints(MeshEdges()) == Span(Size)
  {
    var es := MeshEdges();
    forall v | 0 <= v < Size
      ensures Covered(es, v)
    {
      var e := if v == 0 then (0, 1) else (0, v);
      MeshRowsMembers(Size, e);
      assert e in es && Touches(e, v);
    }
    forall e | e in es
      ensures 0 <= e.0 < Size && 0 <= e.1 < Size
    {
      MeshRowsMembers(Size, e);
    }
    EndpointsSpan(es, Size);
  }

  lemma TreeNodes()
    ensures Endpoints(TreeEdges()) == Span(TreeLimit)
  {
    var es := TreeEdges();
    forall v | 0 <= v < TreeLimit
      ensures Covered(es, v)
    {
      var k := if v == 0 then 0 else v - 1;
      assert es[k] in es && Touches(es[k], v);
    }
    forall e | e in es
      ensures 0 <= e.0 < TreeLimit && 0 <= e.1 < TreeLimit
    {
      var k :| 0 <= k < |es| && es[k] == e;
    }
    EndpointsSpan(es, TreeLimit);
  }

  lemma EmptyGraphHasNoEdges(t: Shape)
    ensures GraphNodes(t) == {} <==> EdgeOrder(t) == []
  {
    assert t != Unknown ==> 0 in GraphNodes(t);
  }
}
