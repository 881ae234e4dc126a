# Delta-v map: a verified model

The delta-v calculator answers one question for a Kerbal Space Program
player: how much delta-v does it take to get from one place in the solar
system to another? Its library holds a `DeltavMap`, which has two parts:

- a **menu tree** that files the places under categories ("Kerbol System" >
  "Kerbin" > "Low Kerbin Orbit (80km)"). A category is a middle node. A place
  is an end node that carries the index of its vertex in the graph.
- an **undirected graph** whose vertices are the places and whose weighted
  edges are the delta-v cost of each manoeuvre.

`calculate_delta_v(start, end)` looks up both names in the menu tree. If
either is missing it returns a `NoSuchNodeError` naming it. Otherwise it runs
A* with a zero heuristic between the two vertices. That is Dijkstra's
algorithm, stopping when the end vertex is taken from the frontier. The
result is the cheapest total cost, or none when the end cannot be reached.

This project models that core in Dafny and proves it:

- `wrappers.dfy`: `Option` and `Result`.
- `menutree.dfy` (module `MenuTrees`): the library's menu tree enum and its
  search, the `Index` lookup that panics on a missing name, and the error
  type. Search is proved to return the first node named `n` in pre-order (each
  node before its children, children left to right). It fails, naming `n`,
  exactly when no node has that name.
- `graphs.dfy` (module `Graphs`): the undirected weighted graph as a value.
  Walks are sequences of edge indices. The least walk cost `MinCost` is the
  reference definition of the answer. It has lemmas for existence,
  uniqueness, cost 0 from a place to itself, symmetry, and a potential-based
  lower bound.
- `dijkstra.dfy` (module `ShortestPaths`): the zero-heuristic A* search as an
  imperative loop over distance/reached/settled sequences. It is proved to
  return exactly `MinCost`.
- `deltav_map.dfy` (module `DeltavMaps`): the graph builder as a class with
  `add_node`/`add_edge`, the `DeltavMap` record, and `calculate_delta_v`
  proved against its specification `DeltaV`. The module also covers:
  - the error, symmetry and self-distance properties of the query;
  - the unit tests' four-node map, with the 1030 result of `Node1` → `Node4`
    proved;
  - the Kerbin region of the stock map, built in the same add-node-then-add-edge
    order as the library.
- `legacy_menutree.dfy` (module `LegacyMenuTree`): the application crate's
  older, trait-based menu tree. Here a category reports the largest machine
  word as its id, id search only matches places, and name search checks a
  node before its children.

## Model

| member | source | states |
|---|---|---|
| `MenuTrees.NoSuchNodeError.CauseName` | deltav_calc_lib/src/menutree.rs:9-19 | the error gives back exactly the name that was searched for and not found |
| `MenuTrees.MenuTree.Name` | deltav_calc_lib/src/menutree.rs:58-62 | a node's name, for either variant, is one under which searching that node finds the node itself |
| `MenuTrees.MenuTree.Index` | deltav_calc_lib/src/menutree.rs:47-56 | only an end node has an index, and the result is the one it stores; calling it on a middle node is excluded (the source panics) |
| `MenuTrees.MenuTree.At` | deltav_calc_lib/src/menutree.rs:101-111 | indexing the tree by name succeeds only when search succeeds and yields the node search found, which carries that name; the panicking case is excluded |
| `MenuTrees.MenuTree.Search` | deltav_calc_lib/src/menutree.rs:67-98 | a found node carries the searched name, and a failure is the error naming the searched name |
| `MenuTrees.SearchChildren` | deltav_calc_lib/src/menutree.rs:84-95 | the child loop likewise yields only a node with the searched name, or the error naming it when no child finds one |
| `MenuTrees.FindByName` | deltav_calc_lib/src/menutree.rs:64-98 | reference search over a list: an Ok result is the first entry with the name; Err exactly when no entry has it, and the error names it |
| `MenuTrees.FindByNameAppend` | deltav_calc_lib/src/menutree.rs:84-95 | searching a concatenation searches the first part and falls through to the second only on failure, as the child loop does |
| `MenuTrees.SearchIsPreorderFirst` | deltav_calc_lib/src/menutree.rs:67-98 | tree search returns exactly the first pre-order node with the name, or the error when there is none |
| `MenuTrees.SearchChildrenIsPreorderFirst` | deltav_calc_lib/src/menutree.rs:84-95 | the loop over a category's children returns the first match across the children's concatenated pre-order listings |
| `MenuTrees.SearchFindsNamed` | deltav_calc_lib/src/menutree.rs:67-98 | a successful search returns a node of the tree carrying the searched name |
| `MenuTrees.SearchErrIffAbsent` | deltav_calc_lib/src/menutree.rs:67-98 | search fails if and only if no node of the tree has the name, and the error then names it |
| `MenuTrees.SearchFirstMatchingChild` | deltav_calc_lib/src/menutree.rs:79-91 | under a category whose own name differs, search returns what the first child with a match returns; later children are not consulted |
| `MenuTrees.FirstMatchingChild` | deltav_calc_lib/src/menutree.rs:84-91 | the child loop stops at the first child whose search succeeds |
| `MenuTrees.SearchReturnsFirstInPreorder` | deltav_calc_lib/src/menutree.rs:67-98 | when the first pre-order node named `n` sits at position i, search returns that very node, so an earlier duplicate name wins |
| `MenuTrees.HandleListed` | deltav_calc_lib/src/menutree.rs:43-44 | the index of every end node of a tree appears in the tree's list of handles |
| `MenuTrees.HandleListedAll` | deltav_calc_lib/src/menutree.rs:38-41 | the same for a list of children |
| `MenuTrees.TestTree` | deltav_calc_lib/src/menutree.rs:122-149 | the unit tests' tree, whose locations Node1 to Node4 carry the handles 0 to 3 in tree order |
| `MenuTrees.TestTreeSearches` | deltav_calc_lib/src/menutree.rs:151-210 | on the unit tests' tree: Category2 and Node1 are found (Node1 with index 0), indexing gives the same nodes, and "test" is an error naming "test" |
| `Graphs.Other` | deltav_calc_lib/src/lib.rs:92-95 | crossing an undirected edge from one of its ends arrives at its other end: the start and the result are exactly the edge's two endpoints |
| `Graphs.MinCost` | deltav_calc_lib/src/lib.rs:103-129 | the answer the query promises: none exactly when the end cannot be reached, otherwise the least cost over all walks, achieved by one of them and never negative |
| `Graphs.WalkCostNonNegative` | deltav_calc_lib/src/lib.rs:118-124 | with non-negative edge weights every walk costs at least 0 |
| `Graphs.WalkStaysInBounds` | deltav_calc_lib/src/lib.rs:92-95 | in a graph whose edges name existing vertices a walk ends at an existing vertex |
| `Graphs.WalkExtend` | deltav_calc_lib/src/lib.rs:118-124 | following one more edge moves to its other end and adds its weight |
| `Graphs.MinCostExists` | deltav_calc_lib/src/lib.rs:118-129 | with non-negative weights, a reachable vertex has a least walk cost |
| `Graphs.MinCostUnique` | deltav_calc_lib/src/lib.rs:118-129 | any cost that is achieved and no walk beats is the answer |
| `Graphs.MinCostSelf` | deltav_calc_lib/src/lib.rs:118-129 | from a place to itself the answer is 0 |
| `Graphs.PotentialBound` | deltav_calc_lib/src/lib.rs:118-124 | if no edge drops a potential by more than its weight, every walk costs at least the potential gained |
| `Graphs.WalkPrepend` | deltav_calc_lib/src/lib.rs:94 | an edge followed by a walk from its other end is a walk with the summed cost |
| `Graphs.WalkReverse` | deltav_calc_lib/src/lib.rs:94 | in an undirected graph a walk run backwards returns to its start at the same cost |
| `Graphs.ReachableSymmetric` | deltav_calc_lib/src/lib.rs:94 | reachability in the undirected map is symmetric |
| `Graphs.MinCostSymmetric` | deltav_calc_lib/src/lib.rs:94 | the cheapest cost from a to b equals the cheapest from b to a |
| `ShortestPaths.WalkLowerBound` | deltav_calc_lib/src/lib.rs:118-124 | while the search runs, every walk from the start that ends at a settled vertex costs at least that vertex's recorded distance, and a walk ending at an unsettled one costs at least the recorded distance of some frontier vertex |
| `ShortestPaths.PickClosest` | deltav_calc_lib/src/lib.rs:118-124 | returns a reached, unsettled vertex of least distance, or nothing exactly when the frontier is empty |
| `ShortestPaths.RelaxKeep` | deltav_calc_lib/src/lib.rs:118-124 | an edge out of the settled vertex whose other end is settled, or already no dearer through it, leaves all costs as they are and counts as relaxed |
| `ShortestPaths.ImproveAchieved` | deltav_calc_lib/src/lib.rs:118-124 | lowering the other end's cost to the settled vertex's cost plus the edge weight is backed by a walk: the settled vertex's walk extended by that edge |
| `ShortestPaths.RelaxImprove` | deltav_calc_lib/src/lib.rs:118-124 | that lowering leaves settled costs alone, only decreases costs, keeps the frontier at or above the settled vertex, and relaxes the edge |
| `ShortestPaths.RelaxDone` | deltav_calc_lib/src/lib.rs:118-124 | once every edge out of the settled vertex is relaxed the whole search invariant holds again |
| `ShortestPaths.Relax` | deltav_calc_lib/src/lib.rs:118-124 | relaxing every edge of the newly settled vertex restores the search invariant: every recorded distance is achieved by a walk, settled vertices' edges are relaxed, and settled distances never exceed frontier ones |
| `ShortestPaths.ShortestPath` | deltav_calc_lib/src/lib.rs:118-129 | zero-heuristic A* from s with goal t returns exactly the least walk cost from s to t, or none when t is unreachable |
| `DeltavMaps.DeltavMap.DeltaV` | deltav_calc_lib/src/lib.rs:107-134 | the query's specification: a missing start gives the error naming the start, a known start and missing end the error naming the end, and a cost it reports is never negative |
| `DeltavMaps.UnGraph.constructor` | deltav_calc_lib/src/lib.rs:214 | a new graph has no vertices and no edges |
| `DeltavMaps.UnGraph.AddNode` | deltav_calc_lib/src/lib.rs:226 | adding a vertex returns the next free index and adds one vertex; the edges are unchanged |
| `DeltavMaps.UnGraph.AddEdge` | deltav_calc_lib/src/lib.rs:596-600 | adding an edge between existing vertices appends exactly that edge and leaves the vertex count alone |
| `DeltavMaps.DeltavMap.CalculateDeltaV` | deltav_calc_lib/src/lib.rs:107-134 | the result is the start's search error if the start is missing, else the end's if the end is missing, else Ok of the least cost between the two places' vertices (none when unreachable) |
| `DeltavMaps.DeltaVUnknownStart` | deltav_calc_lib/src/lib.rs:112-113 | an unknown start name gives an error naming the start, whatever the end |
| `DeltavMaps.DeltaVUnknownEnd` | deltav_calc_lib/src/lib.rs:115-116 | a known start and an unknown end give an error naming the end |
| `DeltavMaps.DeltaVFound` | deltav_calc_lib/src/lib.rs:117-129 | with both names known the result is Ok; it is none exactly when the places are not connected, and otherwise the least cost of a walk between them |
| `DeltavMaps.DeltaVSelf` | deltav_calc_lib/src/lib.rs:107-134 | going from a place to itself costs 0 |
| `DeltavMaps.DeltaVSymmetric` | deltav_calc_lib/src/lib.rs:107-134 | swapping start and end gives the same answer, because the map is undirected |
| `DeltavMaps.ConsecutiveHandles` | deltav_calc_lib/src/lib.rs:213-286 | a tree whose places were numbered 0, 1, 2, … as they were added has every place index below the vertex count, and no two places share a vertex |
| `DeltavMaps.NewTestMap` | deltav_calc_lib/src/lib.rs:922-969 | builds the unit tests' map: the test tree, four vertices numbered in tree order, and edges Node1–Node2 900, Node2–Node3 80, Node3–Node4 50, well formed |
| `DeltavMaps.TestMapLocations` | deltav_calc_lib/src/lib.rs:922-950 | adding one vertex per test location while building the tree gives four vertices, no edges, and the test tree |
| `DeltavMaps.AddTestEdges` | deltav_calc_lib/src/lib.rs:952-966 | looking both endpoints up by name appends Node1–Node2 900, Node2–Node3 80 and Node3–Node4 50 |
| `DeltavMaps.TestTreeNumbering` | deltav_calc_lib/src/lib.rs:925-950 | the test locations are numbered 0 to 3 in tree order, all below the vertex count |
| `DeltavMaps.TestTreeWiring` | deltav_calc_lib/src/lib.rs:952-966 | each test place is found under its name with the vertex it was given |
| `DeltavMaps.TestMapCost` | deltav_calc_lib/src/lib.rs:989-998 | in the test graph the least cost from Node1 to Node4 is 1030 |
| `DeltavMaps.CalculateCost` | deltav_calc_lib/src/lib.rs:989-998 | building the test map and asking for Node1 → Node4 gives Ok(Some(1030)) |
| `DeltavMaps.StockKerbinHandles` | deltav_calc_lib/src/lib.rs:219-286 | the Kerbin region's places carry vertices 0 to 9 in tree order |
| `DeltavMaps.StockKerbinNumbering` | deltav_calc_lib/src/lib.rs:216-286 | the Kerbin locations are numbered 0 to 9 in tree order, all below the vertex count |
| `DeltavMaps.StockKerbinLookups` | deltav_calc_lib/src/lib.rs:596-610 | each Kerbin place used by an edge is found under its name with its vertex |
| `DeltavMaps.StockMunLookups` | deltav_calc_lib/src/lib.rs:612-626 | the same for the Mun places |
| `DeltavMaps.StockMinmusLookups` | deltav_calc_lib/src/lib.rs:628-643 | the same for the Minmus places |
| `DeltavMaps.StockKerbinLocations` | deltav_calc_lib/src/lib.rs:216-286 | adding the ten Kerbin-system vertices while building the tree gives ten vertices, no edges, and the stock Kerbin tree |
| `DeltavMaps.AddKerbinEdges` | deltav_calc_lib/src/lib.rs:595-610 | appends surface–low orbit 3400, low orbit–keostationary 1115 and low orbit–capture 950 |
| `DeltavMaps.AddMunEdges` | deltav_calc_lib/src/lib.rs:611-627 | appends low Kerbin orbit–Mun intercept 860, intercept–low Mun orbit 280, low Mun orbit–surface 580 |
| `DeltavMaps.AddMinmusEdges` | deltav_calc_lib/src/lib.rs:628-644 | appends low Kerbin orbit–Minmus intercept 930, intercept–low Minmus orbit 160, low Minmus orbit–surface 180 |
| `DeltavMaps.NewStockKerbin` | deltav_calc_lib/src/lib.rs:213-645 | the Kerbin region of the stock map: its tree, ten consecutively numbered vertices and its nine edges, well formed with non-negative weights |
| `LegacyMenuTree.MenuTree.GetId` | src/menutree.rs:24-26 | a category answers the largest machine word; a place answers the id it stores |
| `LegacyMenuTree.MenuTree.GetName` | src/menutree.rs:28-30 | a node's name is one under which name search on that node returns the node itself |
| `LegacyMenuTree.MenuTree.SearchById` | src/menutree.rs:32-45 | id search only ever returns a location, and one carrying the id asked for |
| `LegacyMenuTree.SearchByIdAll` | src/menutree.rs:33-44 | the child loop of id search likewise returns only a location with that id |
| `LegacyMenuTree.MenuTree.SearchByName` | src/menutree.rs:47-64 | name search only ever returns a node carrying the name asked for |
| `LegacyMenuTree.SearchByNameAll` | src/menutree.rs:52-63 | the child loop of name search likewise returns only a node with that name |
| `LegacyMenuTree.FindById` | src/menutree.rs:32-45 | reference id search over a list: the first place with the id, none exactly when no place has it |
| `LegacyMenuTree.FindByName` | src/menutree.rs:47-64 | reference name search over a list: the first node with the name, none exactly when no node has it |
| `LegacyMenuTree.FindByIdAppend` | src/menutree.rs:33-42 | id search over a concatenation tries the second part only when the first fails |
| `LegacyMenuTree.FindByNameAppend` | src/menutree.rs:52-61 | name search over a concatenation tries the second part only when the first fails |
| `LegacyMenuTree.SearchByIdIsPreorderFirst` | src/menutree.rs:32-45 | id search returns exactly the first place of the pre-order listing with that id |
| `LegacyMenuTree.SearchByIdAllIsPreorderFirst` | src/menutree.rs:33-44 | the child loop of id search returns the first match across the children's listings |
| `LegacyMenuTree.SearchByNameIsPreorderFirst` | src/menutree.rs:47-64 | name search returns exactly the first node of the pre-order listing with that name |
| `LegacyMenuTree.SearchByNameAllIsPreorderFirst` | src/menutree.rs:52-63 | the child loop of name search returns the first match across the children's listings |
| `LegacyMenuTree.SearchByIdSound` | src/menutree.rs:81-87 | id search returns a place of the tree whose id is the one asked for, never a category, and nothing exactly when no place has it |
| `LegacyMenuTree.SearchByNameSound` | src/menutree.rs:47-64 | name search returns a node of the tree with that name, and nothing exactly when no node has it |
| `LegacyMenuTree.CategoryIdNotSearchable` | src/menutree.rs:24-45 | every category reports the largest word as its id, yet id search for that id never returns the category |
| `LegacyMenuTree.TestTree` | src/menutree.rs:102-117 | the unit tests' tree, in which the ids 0 to 3 are found as Node1 to Node4 |
| `LegacyMenuTree.TestTreeSearches` | src/menutree.rs:102-148 | on the unit tests' tree: id 1 is Node2, id 100 is absent, Node1 has id 0, "Doesn't exist" is absent, and Category1 has the largest id |

## Left out

- The graph library's internals (its storage, `NodeIndex` type and A*
  implementation) are not part of this model. The graph is a vertex count
  plus an edge list, and A* with a zero heuristic is modelled as the Dijkstra
  loop it reduces to. The path that A* also returns is discarded by the
  query, so it is not modelled.
- Vertex payloads: the graph stores each place's name as a vertex weight.
  Nothing reads them in the query, so vertices are bare indices.
- Deserialisation from JSON, `Display` of the error, the test-only
  `PartialEq`/`Debug`/`Serialize` derivations and the deserialisation tests
  involve I/O and formatting only.
- `DeltavMap::menu_tree()` is a plain field access on the record.
- Edge weights are `i32` in the library. The model uses unbounded integers,
  so a sum overflowing 32 bits is not modelled. The stock costs are small.
- `DeltavMaps.DeltavMap.CalculateDeltaV`: requires non-negative weights,
  edges between existing vertices, place indices that exist in the graph,
  and that both names name places rather than categories. Outside those the
  library's A* result is not a shortest path, or the library panics, or it
  indexes out of range.
- `MenuTrees.MenuTree.Index` and `MenuTrees.MenuTree.At`: the panics on a
  category and on an unknown name are modelled as preconditions, not as an
  abort.
- `DeltavMaps.NewStockKerbin`: of the stock map, only the Kerbin region (ten
  places, nine edges) is transcribed. The other bodies follow the same
  add-node-then-add-edge pattern with different names and numbers.
- The application crate's `src/lib.rs` is not part of this model. It refers
  to a menu tree interface that no longer matches its own tree module. The
  command-line front end in `deltav_calc_bin` is also left out, because it
  only does I/O.
- `LegacyMenuTree.MenuTree.GetId`: ids are `usize`. The model fixes the word
  at 64 bits.
