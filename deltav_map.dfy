/**
 * A delta-v map: one category tree paired with one undirected cost graph,
 * the leaves of the tree carrying vertex handles. The query resolves two
 * names through the tree and returns the least total delta-v between them.
 */
module DeltavMaps {
  import opened Wrappers
  import opened MenuTrees
  import opened Graphs
  import opened ShortestPaths

  /**
   * The graph under construction. Vertices are appended, each handed the next
   * handle; edges are appended between existing vertices. Vertex payloads
   * (display strings) are not modelled.
   */
  class UnGraph {
    var nodeCount: nat
    var edges: seq<Edge>

    function Value(): Graph
      reads this
    {
      Graph(nodeCount, edges)
    }

    ghost predicate Valid()
      reads this
    {
      EdgesInBounds(Value())
    }

    constructor ()
      ensures Valid() && Value() == Graph(0, [])
    {
      nodeCount := 0;
      edges := [];
    }

    /** Appends a vertex; its handle is the number of vertices before it. */
    method AddNode() returns (h: nat)
      requires Valid()
      modifies this
      ensures Valid()
      ensures h == old(nodeCount) && nodeCount == old(nodeCount) + 1 && edges == old(edges)
    {
      h := nodeCount;
      nodeCount := nodeCount + 1;
    }

    /** Appends an undirected edge; both endpoints must already be vertices. */
    method AddEdge(a: nat, b: nat, weight: int)
      requires Valid() && a < nodeCount && b < nodeCount
      modifies this
      ensures Valid()
      ensures nodeCount == old(nodeCount) && edges == old(edges) + [Edge(a, b, weight)]
    {
      edges := edges + [Edge(a, b, weight)];
    }
  }

  /**
   * Every location handle of the tree is a vertex of the graph and every edge
   * joins two vertices. Deserialized maps are not checked for this.
   */
  predicate WellFormed(m: DeltavMap)
  {
    EdgesInBounds(m.graph) &&
    forall h :: h in Handles(m.menuTree) ==> h < m.graph.nodeCount
  }

  /** If both names resolve, both resolve to locations; a category has no handle and panics. */
  predicate ResolvesToLocations(t: MenuTree, start: string, end: string)
  {
    t.Search(start).Ok? && t.Search(end).Ok? ==>
      t.Search(start).value.EndNode? && t.Search(end).value.EndNode?
  }

  datatype DeltavMap = DeltavMap(menuTree: MenuTree, graph: Graph)
  {
    /**
     * The delta-v from `start` to `end`: the error of the first name that does
     * not resolve, or the least walk cost between the two handles (`None` when
     * no walk connects them).
     */
    ghost function DeltaV(start: string, end: string): (r: Result<Option<int>, NoSuchNodeError>)
      requires WellFormed(this) && NonNegative(graph) && ResolvesToLocations(menuTree, start, end)
      ensures menuTree.Search(start).Err? ==> r == Err(NoSuchNodeError(start))
      ensures menuTree.Search(start).Ok? && menuTree.Search(end).Err? ==> r == Err(NoSuchNodeError(end))
      ensures r.Ok? && r.value.Some? ==> r.value.value >= 0
    {
      match menuTree.Search(start)
      case Err(e) => Err(e)
      case Ok(a) =>
        match menuTree.Search(end)
        case Err(e) => Err(e)
        case Ok(b) => Ok(MinCost(graph, a.Index(), b.Index()))
    }

    /** Resolves `start`, then `end`, then runs the shortest-path search between their handles. */
    method CalculateDeltaV(start: string, end: string) returns (r: Result<Option<int>, NoSuchNodeError>)
      requires WellFormed(this) && NonNegative(graph) && ResolvesToLocations(menuTree, start, end)
      ensures r == DeltaV(start, end)
    {
      match menuTree.Search(start)
      case Err(e) =>
        r := Err(e);
      case Ok(a) =>
        match menuTree.Search(end)
        case Err(e) =>
          r := Err(e);
        case Ok(b) =>
          SearchFindsNamed(menuTree, start);
          SearchFindsNamed(menuTree, end);
          HandleListed(menuTree, a);
          HandleListed(menuTree, b);
          var cost := ShortestPath(graph, a.Index(), b.Index());
          r := Ok(cost);
    }
  }

  // ---------------------------------------------------------------------------
  // Properties of the query
  // ---------------------------------------------------------------------------

  /** An unknown start is reported by name, whatever the end is. */
  lemma DeltaVUnknownStart(m: DeltavMap, start: string, end: string)
    requires WellFormed(m) && NonNegative(m.graph) && ResolvesToLocations(m.menuTree, start, end)
    requires start !in Names(m.menuTree)
    ensures m.DeltaV(start, end) == Err(NoSuchNodeError(start))
  {
    SearchErrIffAbsent(m.menuTree, start);
  }

  /** A known start with an unknown end is reported with the end's name. */
  lemma DeltaVUnknownEnd(m: DeltavMap, start: string, end: string)
    requires WellFormed(m) && NonNegative(m.graph) && ResolvesToLocations(m.menuTree, start, end)
    requires start in Names(m.menuTree) && end !in Names(m.menuTree)
    ensures m.DeltaV(start, end) == Err(NoSuchNodeError(end))
  {
    SearchErrIffAbsent(m.menuTree, start);
    SearchErrIffAbsent(m.menuTree, end);
  }

  /**
   * When both names are known the query succeeds; it yields `None` exactly
   * when no walk joins the two handles, and otherwise the least walk cost.
   */
  lemma DeltaVFound(m: DeltavMap, start: string, end: string)
    requires WellFormed(m) && NonNegative(m.graph) && ResolvesToLocations(m.menuTree, start, end)
    requires start in Names(m.menuTree) && end in Names(m.menuTree)
    ensures m.DeltaV(start, end).Ok?
    ensures m.menuTree.At(start).EndNode? && m.menuTree.At(end).EndNode?
    ensures var s, t := m.menuTree.At(start).Index(), m.menuTree.At(end).Index();
      (m.DeltaV(start, end).value.None? <==> !Reachable(m.graph, s, t)) &&
      (m.DeltaV(start, end).value.Some? ==> IsMinCost(m.graph, s, t, m.DeltaV(start, end).value.value))
  {
    SearchErrIffAbsent(m.menuTree, start);
    SearchErrIffAbsent(m.menuTree, end);
  }

  /** A location is at delta-v 0 from itself. */
  lemma DeltaVSelf(m: DeltavMap, name: string)
    requires WellFormed(m) && NonNegative(m.graph) && ResolvesToLocations(m.menuTree, name, name)
    requires name in Names(m.menuTree)
    ensures m.DeltaV(name, name) == Ok(Some(0))
  {
    SearchErrIffAbsent(m.menuTree, name);
    MinCostSelf(m.graph, m.menuTree.At(name).Index());
  }

  /** The delta-v between two known locations does not depend on the direction. */
  lemma DeltaVSymmetric(m: DeltavMap, a: string, b: string)
    requires WellFormed(m) && NonNegative(m.graph) && ResolvesToLocations(m.menuTree, a, b)
    requires a in Names(m.menuTree) && b in Names(m.menuTree)
    ensures ResolvesToLocations(m.menuTree, b, a)
    ensures m.DeltaV(a, b) == m.DeltaV(b, a)
  {
    SearchErrIffAbsent(m.menuTree, a);
    SearchErrIffAbsent(m.menuTree, b);
    MinCostSymmetric(m.graph, m.menuTree.At(a).Index(), m.menuTree.At(b).Index());
  }

  // ---------------------------------------------------------------------------
  // Construction: handles are handed out consecutively
  // ---------------------------------------------------------------------------

  /** `hs` is 0, 1, ..., n - 1. */
  predicate Consecutive(hs: seq<nat>, n: nat)
  {
    |hs| == n && forall i :: 0 <= i < |hs| ==> hs[i] == i
  }

  /**
   * If the locations, in tree order, carry the handles 0, 1, ..., n - 1 (what
   * appending one vertex per location yields), every handle is a vertex and no
   * two locations share one.
   */
  lemma ConsecutiveHandles(t: MenuTree, n: nat)
    requires Consecutive(Handles(t), n)
    ensures forall h :: h in Handles(t) ==> h < n
    ensures forall x :: x in Preorder(t) && x.EndNode? ==> x.index < n
    ensures forall i, j :: 0 <= i < j < |Handles(t)| ==> Handles(t)[i] != Handles(t)[j]
  {
    forall x | x in Preorder(t) && x.EndNode? ensures x.index < n {
      HandleListed(t, x);
    }
  }

  /**
   * The map of the library's unit tests: four locations under two categories,
   * each location given the next vertex as the tree is built, then three
   * edges whose endpoints are looked up by name.
   */
  method NewTestMap() returns (m: DeltavMap)
    ensures WellFormed(m) && NonNegative(m.graph)
    ensures Consecutive(Handles(m.menuTree), m.graph.nodeCount)
    ensures m.menuTree == TestTree()
    ensures m.graph == Graph(4, [Edge(0, 1, 900), Edge(1, 2, 80), Edge(2, 3, 50)])
  {
    var graph := new UnGraph();
    var menuTree := TestMapLocations(graph);
    AddTestEdges(graph, menuTree);
    m := DeltavMap(menuTree, graph.Value());
    TestTreeNumbering();
  }

  /** The test tree, each location appending its vertex in turn. */
  method TestMapLocations(graph: UnGraph) returns (menuTree: MenuTree)
    requires graph.Valid() && graph.Value() == Graph(0, [])
    modifies graph
    ensures graph.Valid() && graph.Value() == Graph(4, [])
    ensures menuTree == TestTree()
  {
    var node1 := graph.AddNode();
    var node2 := graph.AddNode();
    var node3 := graph.AddNode();
    var node4 := graph.AddNode();
    menuTree :=
      MiddleNode("Category1", [
        MiddleNode("Category2", [EndNode("Node1", node1), EndNode("Node2", node2)]),
        EndNode("Node3", node3),
        EndNode("Node4", node4)]);
  }

  /** The test map's three edges, their endpoints looked up by name. */
  method AddTestEdges(graph: UnGraph, menuTree: MenuTree)
    requires graph.Valid() && graph.nodeCount == 4 && menuTree == TestTree()
    modifies graph
    ensures graph.Valid() && graph.nodeCount == 4
    ensures graph.edges == old(graph.edges) + [Edge(0, 1, 900), Edge(1, 2, 80), Edge(2, 3, 50)]
  {
    TestTreeWiring();
    graph.AddEdge(menuTree.At("Node1").Index(), menuTree.At("Node2").Index(), 900);
    graph.AddEdge(menuTree.At("Node2").Index(), menuTree.At("Node3").Index(), 80);
    graph.AddEdge(menuTree.At("Node3").Index(), menuTree.At("Node4").Index(), 50);
  }

  /** The test tree's locations are numbered consecutively from 0 and all lie below 4. */
  lemma TestTreeNumbering()
    ensures Consecutive(Handles(TestTree()), 4)
    ensures forall h :: h in Handles(TestTree()) ==> h < 4
  {
  }

  /** Each location of the test tree resolves to its own vertex; the handles run 0 to 3 in tree order. */
  lemma TestTreeWiring()
    ensures TestTree().Search("Node1") == Ok(EndNode("Node1", 0))
    ensures TestTree().Search("Node2") == Ok(EndNode("Node2", 1))
    ensures TestTree().Search("Node3") == Ok(EndNode("Node3", 2))
    ensures TestTree().Search("Node4") == Ok(EndNode("Node4", 3))
  {
  }

  /** The test map's graph: a path 0 - 1 - 2 - 3 with weights 900, 80 and 50. */
  lemma TestMapCost()
    ensures MinCost(Graph(4, [Edge(0, 1, 900), Edge(1, 2, 80), Edge(2, 3, 50)]), 0, 3) == Some(1030)
  {
    var g := Graph(4, [Edge(0, 1, 900), Edge(1, 2, 80), Edge(2, 3, 50)]);
    var pot := [0, 900, 980, 1030];
    assert Walk(g, 0, [0, 1, 2]) == Some(Arrival(3, 1030)) by {
      assert [0, 1, 2][..2] == [0, 1] && [0, 1][..1] == [0] && [0][..0] == [];
    }
    forall p | Leads(g, 0, p, 3) ensures 1030 <= Walk(g, 0, p).value.cost {
      PotentialBound(g, pot, 0, p);
    }
    assert Leads(g, 0, [0, 1, 2], 3);
    MinCostUnique(g, 0, 3, 1030);
  }

  /** The unit test's query: from "Node1" to "Node4" on the test map costs 1030. */
  method CalculateCost() returns (cost: Result<Option<int>, NoSuchNodeError>)
    ensures cost == Ok(Some(1030))
  {
    var testMap := NewTestMap();
    TestTreeSearches();
    assert testMap.menuTree.Search("Node4") == Ok(EndNode("Node4", 3));
    cost := testMap.CalculateDeltaV("Node1", "Node4");
    TestMapCost();
  }

  // ---------------------------------------------------------------------------
  // The stock map, Kerbin region
  // ---------------------------------------------------------------------------

  /** The Kerbin part of the stock tree, with the handles its construction hands out. */
  function StockKerbinTree(): MenuTree
  {
    MiddleNode("Kerbol System", [
      MiddleNode("Kerbin", [
        EndNode("Kerbin Surface", 0),
        EndNode("Low Kerbin Orbit (80km)", 1),
        EndNode("Keostationary Orbit (2.868Mm)", 2),
        EndNode("Kerbin Capture", 3),
        MiddleNode("Mun", [
          EndNode("Mun Intercept", 4),
          EndNode("Low Mun Orbit (14km)", 5),
          EndNode("Mun Surface", 6)]),
        MiddleNode("Minmus", [
          EndNode("Minmus Intercept", 7),
          EndNode("Low Minmus Orbit (10km)", 8),
          EndNode("Minmus Surface", 9)])])])
  }

  /** The Kerbin region's handles run 0 to 9 in tree order. */
  lemma StockKerbinHandles()
    ensures Handles(StockKerbinTree()) == [0, 1, 2, 3, 4, 5, 6, 7, 8, 9]
  {
  }

  /** Hence the Kerbin region's locations are numbered consecutively from 0 and all lie below 10. */
  lemma StockKerbinNumbering()
    ensures Consecutive(Handles(StockKerbinTree()), 10)
    ensures forall h :: h in Handles(StockKerbinTree()) ==> h < 10
  {
    StockKerbinHandles();
  }

  /** The Kerbin locations outside the moons resolve to their vertices. */
  lemma StockKerbinLookups()
    ensures StockKerbinTree().Search("Kerbin Surface") == Ok(EndNode("Kerbin Surface", 0))
    ensures StockKerbinTree().Search("Low Kerbin Orbit (80km)") == Ok(EndNode("Low Kerbin Orbit (80km)", 1))
    ensures StockKerbinTree().Search("Keostationary Orbit (2.868Mm)") == Ok(EndNode("Keostationary Orbit (2.868Mm)", 2))
    ensures StockKerbinTree().Search("Kerbin Capture") == Ok(EndNode("Kerbin Capture", 3))
  {
  }

  /** The Mun locations resolve to their vertices. */
  lemma StockMunLookups()
    ensures StockKerbinTree().Search("Mun Intercept") == Ok(EndNode("Mun Intercept", 4))
    ensures StockKerbinTree().Search("Low Mun Orbit (14km)") == Ok(EndNode("Low Mun Orbit (14km)", 5))
    ensures StockKerbinTree().Search("Mun Surface") == Ok(EndNode("Mun Surface", 6))
  {
  }

  /** The Minmus locations resolve to their vertices. */
  lemma StockMinmusLookups()
    ensures StockKerbinTree().Search("Minmus Intercept") == Ok(EndNode("Minmus Intercept", 7))
    ensures StockKerbinTree().Search("Low Minmus Orbit (10km)") == Ok(EndNode("Low Minmus Orbit (10km)", 8))
    ensures StockKerbinTree().Search("Minmus Surface") == Ok(EndNode("Minmus Surface", 9))
  {
  }

  /**
   * The Kerbin region of the stock map, built as the stock map is: one vertex
   * per location in tree order, then the edges region by region, their
   * endpoints looked up by name. Every lookup finds a location, so no step
   * panics.
   */
  method NewStockKerbin() returns (m: DeltavMap)
    ensures WellFormed(m) && NonNegative(m.graph)
    ensures Consecutive(Handles(m.menuTree), m.graph.nodeCount)
    ensures m.menuTree == StockKerbinTree()
    ensures m.graph.edges == [
      Edge(0, 1, 3400), Edge(1, 2, 1115), Edge(1, 3, 950),
      Edge(1, 4, 860), Edge(4, 5, 280), Edge(5, 6, 580),
      Edge(1, 7, 930), Edge(7, 8, 160), Edge(8, 9, 180)]
  {
    var graph := new UnGraph();
    var menuTree := StockKerbinLocations(graph);
    AddKerbinEdges(graph, menuTree);
    AddMunEdges(graph, menuTree);
    AddMinmusEdges(graph, menuTree);
    m := DeltavMap(menuTree, graph.Value());
    StockKerbinNumbering();
  }

  /** The Kerbin part of the stock tree, each location appending its vertex in turn. */
  method StockKerbinLocations(graph: UnGraph) returns (menuTree: MenuTree)
    requires graph.Valid() && graph.Value() == Graph(0, [])
    modifies graph
    ensures graph.Valid() && graph.Value() == Graph(10, [])
    ensures menuTree == StockKerbinTree()
  {
    var kerbinSurface := graph.AddNode();
    var lowKerbinOrbit := graph.AddNode();
    var keostationary := graph.AddNode();
    var kerbinCapture := graph.AddNode();
    var munIntercept := graph.AddNode();
    var lowMunOrbit := graph.AddNode();
    var munSurface := graph.AddNode();
    var minmusIntercept := graph.AddNode();
    var lowMinmusOrbit := graph.AddNode();
    var minmusSurface := graph.AddNode();
    menuTree :=
      MiddleNode("Kerbol System", [
        MiddleNode("Kerbin", [
          EndNode("Kerbin Surface", kerbinSurface),
          EndNode("Low Kerbin Orbit (80km)", lowKerbinOrbit),
          EndNode("Keostationary Orbit (2.868Mm)", keostationary),
          EndNode("Kerbin Capture", kerbinCapture),
          MiddleNode("Mun", [
            EndNode("Mun Intercept", munIntercept),
            EndNode("Low Mun Orbit (14km)", lowMunOrbit),
            EndNode("Mun Surface", munSurface)]),
          MiddleNode("Minmus", [
            EndNode("Minmus Intercept", minmusIntercept),
            EndNode("Low Minmus Orbit (10km)", lowMinmusOrbit),
            EndNode("Minmus Surface", minmusSurface)])])]);
  }

  /** The edges around Kerbin itself, their endpoints looked up by name. */
  method AddKerbinEdges(graph: UnGraph, menuTree: MenuTree)
    requires graph.Valid() && graph.nodeCount == 10 && menuTree == StockKerbinTree()
    modifies graph
    ensures graph.Valid() && graph.nodeCount == 10
    ensures graph.edges == old(graph.edges) + [Edge(0, 1, 3400), Edge(1, 2, 1115), Edge(1, 3, 950)]
  {
    StockKerbinLookups();
    graph.AddEdge(menuTree.At("Kerbin Surface").Index(), menuTree.At("Low Kerbin Orbit (80km)").Index(), 3400);
    graph.AddEdge(menuTree.At("Low Kerbin Orbit (80km)").Index(), menuTree.At("Keostationary Orbit (2.868Mm)").Index(), 1115);
    graph.AddEdge(menuTree.At("Low Kerbin Orbit (80km)").Index(), menuTree.At("Kerbin Capture").Index(), 950);
  }

  /** The edges down to the Mun. */
  method AddMunEdges(graph: UnGraph, menuTree: MenuTree)
    requires graph.Valid() && graph.nodeCount == 10 && menuTree == StockKerbinTree()
    modifies graph
    ensures graph.Valid() && graph.nodeCount == 10
    ensures graph.edges == old(graph.edges) + [Edge(1, 4, 860), Edge(4, 5, 280), Edge(5, 6, 580)]
  {
    StockKerbinLookups();
    StockMunLookups();
    graph.AddEdge(menuTree.At("Low Kerbin Orbit (80km)").Index(), menuTree.At("Mun Intercept").Index(), 860);
    graph.AddEdge(menuTree.At("Mun Intercept").Index(), menuTree.At("Low Mun Orbit (14km)").Index(), 280);
    graph.AddEdge(menuTree.At("Low Mun Orbit (14km)").Index(), menuTree.At("Mun Surface").Index(), 580);
  }

  /** The edges down to Minmus. */
  method AddMinmusEdges(graph: UnGraph, menuTree: MenuTree)
    requires graph.Valid() && graph.nodeCount == 10 && menuTree == StockKerbinTree()
    modifies graph
    ensures graph.Valid() && graph.nodeCount == 10
    ensures graph.edges == old(graph.edges) + [Edge(1, 7, 930), Edge(7, 8, 160), Edge(8, 9, 180)]
  {
    StockKerbinLookups();
    StockMinmusLookups();
    graph.AddEdge(menuTree.At("Low Kerbin Orbit (80km)").Index(), menuTree.At("Minmus Intercept").Index(), 930);
    graph.AddEdge(menuTree.At("Minmus Intercept").Index(), menuTree.At("Low Minmus Orbit (10km)").Index(), 160);
    graph.AddEdge(menuTree.At("Low Minmus Orbit (10km)").Index(), menuTree.At("Minmus Surface").Index(), 180);
  }
}
