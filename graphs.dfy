/**
 * The undirected, integer-weighted cost graph and its single-pair shortest
 * path query. The library calls a best-first search with a zero heuristic,
 * which is Dijkstra's algorithm; it is written out here over an explicit edge
 * list and specified against the minimum cost over all walks.
 */
module Graphs {
  import opened Wrappers

  /** One undirected edge between the vertices `a` and `b`; parallel edges and loops are allowed. */
  datatype Edge = Edge(a: nat, b: nat, weight: int)

  /** Vertices are the handles 0 .. nodeCount - 1; vertex payloads are not modelled. */
  datatype Graph = Graph(nodeCount: nat, edges: seq<Edge>)

  /** Every edge joins two existing vertices (adding an edge to a missing vertex panics). */
  predicate EdgesInBounds(g: Graph)
  {
    forall i :: 0 <= i < |g.edges| ==> g.edges[i].a < g.nodeCount && g.edges[i].b < g.nodeCount
  }

  /** The assumption under which the zero-heuristic search returns the least cost. */
  predicate NonNegative(g: Graph)
  {
    forall i :: 0 <= i < |g.edges| ==> g.edges[i].weight >= 0
  }

  predicate Incident(e: Edge, u: nat)
  {
    e.a == u || e.b == u
  }

  /** The vertex reached by crossing `e` from `u`. */
  function Other(e: Edge, u: nat): (v: nat)
    requires Incident(e, u)
    ensures Incident(e, v)
    ensures (u == e.a && v == e.b) || (u == e.b && v == e.a)
  {
    if e.a == u then e.b else e.a
  }

  /** Where a walk ends and what it costs. */
  datatype Arrival = Arrival(at: nat, cost: int)

  /**
   * Follows the edges `p` (indices into `g.edges`) from `s`; `None` if an
   * index is out of range or an edge does not touch the vertex reached so far.
   */
  function Walk(g: Graph, s: nat, p: seq<nat>): Option<Arrival>
    decreases |p|
  {
    if p == [] then Some(Arrival(s, 0))
    else
      match Walk(g, s, p[..|p| - 1])
      case None => None
      case Some(prev) =>
        var i := p[|p| - 1];
        if i < |g.edges| && Incident(g.edges[i], prev.at)
        then Some(Arrival(Other(g.edges[i], prev.at), prev.cost + g.edges[i].weight))
        else None
  }

  /** `p` is a walk from `s` to `t`. */
  ghost predicate Leads(g: Graph, s: nat, p: seq<nat>, t: nat)
  {
    Walk(g, s, p).Some? && Walk(g, s, p).value.at == t
  }

  ghost predicate Reachable(g: Graph, s: nat, t: nat)
  {
    exists p :: Leads(g, s, p, t)
  }

  /** `c` is the cost of some walk from `s` to `t` and no walk from `s` to `t` costs less. */
  ghost predicate IsMinCost(g: Graph, s: nat, t: nat, c: int)
  {
    (exists p :: Leads(g, s, p, t) && Walk(g, s, p).value.cost == c) &&
    forall p :: Leads(g, s, p, t) ==> c <= Walk(g, s, p).value.cost
  }

  /** The least cost of a walk from `s` to `t`, or `None` when no walk connects them. */
  ghost function MinCost(g: Graph, s: nat, t: nat): (r: Option<int>)
    requires NonNegative(g)
    ensures r.None? <==> !Reachable(g, s, t)
    ensures r.Some? ==> IsMinCost(g, s, t, r.value)
    ensures r.Some? ==> r.value >= 0
  {
    if Reachable(g, s, t) then
      var p :| Leads(g, s, p, t);
      MinCostExists(g, s, t, p);
      var c :| IsMinCost(g, s, t, c);
      var q :| Leads(g, s, q, t) && Walk(g, s, q).value.cost == c;
      WalkCostNonNegative(g, s, q);
      Some(c)
    else
      None
  }

  // ---------------------------------------------------------------------------
  // Facts about walks
  // ---------------------------------------------------------------------------

  lemma {:induction false} WalkCostNonNegative(g: Graph, s: nat, p: seq<nat>)
    requires NonNegative(g) && Walk(g, s, p).Some?
    ensures Walk(g, s, p).value.cost >= 0
    decreases |p|
  {
    if p != [] {
      WalkCostNonNegative(g, s, p[..|p| - 1]);
    }
  }

  lemma {:induction false} WalkStaysInBounds(g: Graph, s: nat, p: seq<nat>)
    requires EdgesInBounds(g) && s < g.nodeCount && Walk(g, s, p).Some?
    ensures Walk(g, s, p).value.at < g.nodeCount
    decreases |p|
  {
    if p != [] {
      WalkStaysInBounds(g, s, p[..|p| - 1]);
    }
  }

  /** Extending a walk by one edge at its end. */
  lemma WalkExtend(g: Graph, s: nat, p: seq<nat>, i: nat)
    requires Walk(g, s, p).Some? && i < |g.edges| && Incident(g.edges[i], Walk(g, s, p).value.at)
    ensures Walk(g, s, p + [i]) ==
            Some(Arrival(Other(g.edges[i], Walk(g, s, p).value.at),
                         Walk(g, s, p).value.cost + g.edges[i].weight))
  {
    assert (p + [i])[..|p|] == p;
  }

  /** Every reachable pair has a least walk cost (costs are natural numbers). */
  lemma {:induction false} MinCostExists(g: Graph, s: nat, t: nat, p: seq<nat>)
    requires NonNegative(g) && Leads(g, s, p, t)
    ensures exists c :: IsMinCost(g, s, t, c)
    decreases Walk(g, s, p).value.cost
  {
    WalkCostNonNegative(g, s, p);
    var c := Walk(g, s, p).value.cost;
    if forall q :: Leads(g, s, q, t) ==> c <= Walk(g, s, q).value.cost {
      assert IsMinCost(g, s, t, c);
    } else {
      var q :| Leads(g, s, q, t) && Walk(g, s, q).value.cost < c;
      WalkCostNonNegative(g, s, q);
      MinCostExists(g, s, t, q);
    }
  }

  /** The least cost is unique, so `MinCost` is determined by `IsMinCost`. */
  lemma MinCostUnique(g: Graph, s: nat, t: nat, c: int)
    requires NonNegative(g) && IsMinCost(g, s, t, c)
    ensures MinCost(g, s, t) == Some(c)
  {
    var d := MinCost(g, s, t).value;
    var p :| Leads(g, s, p, t) && Walk(g, s, p).value.cost == c;
    var q :| Leads(g, s, q, t) && Walk(g, s, q).value.cost == d;
  }

  /** A vertex is reached from itself at cost 0, the goal test succeeding on the start. */
  lemma MinCostSelf(g: Graph, s: nat)
    requires NonNegative(g)
    ensures MinCost(g, s, s) == Some(0)
  {
    assert Leads(g, s, [], s);
    forall p | Leads(g, s, p, s)
      ensures 0 <= Walk(g, s, p).value.cost
    {
      WalkCostNonNegative(g, s, p);
    }
    MinCostUnique(g, s, s, 0);
  }

  /**
   * Any potential that no edge's weight undercuts bounds every walk from
   * below: a walk costs at least the potential difference of its ends.
   */
  lemma {:induction false} PotentialBound(g: Graph, pot: seq<int>, s: nat, p: seq<nat>)
    requires EdgesInBounds(g) && |pot| == g.nodeCount && s < g.nodeCount
    requires forall i :: 0 <= i < |g.edges| ==>
               pot[g.edges[i].b] - pot[g.edges[i].a] <= g.edges[i].weight &&
               pot[g.edges[i].a] - pot[g.edges[i].b] <= g.edges[i].weight
    requires Walk(g, s, p).Some?
    ensures Walk(g, s, p).value.at < g.nodeCount
    ensures Walk(g, s, p).value.cost >= pot[Walk(g, s, p).value.at] - pot[s]
    decreases |p|
  {
    if p != [] {
      PotentialBound(g, pot, s, p[..|p| - 1]);
    }
  }

  // ---------------------------------------------------------------------------
  // Symmetry: the graph is undirected
  // ---------------------------------------------------------------------------

  function Reverse(p: seq<nat>): (r: seq<nat>)
    ensures |r| == |p|
  {
    if p == [] then [] else [p[|p| - 1]] + Reverse(p[..|p| - 1])
  }

  /** Prepending one edge crossed from `s` to `v` turns a walk from `v` into one from `s`. */
  lemma {:induction false} WalkPrepend(g: Graph, s: nat, i: nat, q: seq<nat>)
    requires i < |g.edges| && Incident(g.edges[i], s)
    requires Walk(g, Other(g.edges[i], s), q).Some?
    ensures Walk(g, s, [i] + q).Some?
    ensures Walk(g, s, [i] + q).value ==
            Arrival(Walk(g, Other(g.edges[i], s), q).value.at,
                    g.edges[i].weight + Walk(g, Other(g.edges[i], s), q).value.cost)
    decreases |q|
  {
    var v := Other(g.edges[i], s);
    if q == [] {
      assert ([i] + q)[..0] == [];
    } else {
      var q' := q[..|q| - 1];
      WalkPrepend(g, s, i, q');
      assert ([i] + q)[..|[i] + q| - 1] == [i] + q';
    }
  }

  /** Walking a walk backwards costs the same and leads back to its start. */
  lemma {:induction false} WalkReverse(g: Graph, s: nat, p: seq<nat>)
    requires Walk(g, s, p).Some?
    ensures Walk(g, Walk(g, s, p).value.at, Reverse(p)) == Some(Arrival(s, Walk(g, s, p).value.cost))
    decreases |p|
  {
    if p != [] {
      var p' := p[..|p| - 1];
      var i := p[|p| - 1];
      var mid := Walk(g, s, p').value;
      var e := g.edges[i];
      var t := Other(e, mid.at);
      WalkReverse(g, s, p');
      assert Other(e, t) == mid.at;
      WalkPrepend(g, t, i, Reverse(p'));
    }
  }

  lemma ReachableSymmetric(g: Graph, s: nat, t: nat)
    ensures Reachable(g, s, t) ==> Reachable(g, t, s)
  {
    if Reachable(g, s, t) {
      var p :| Leads(g, s, p, t);
      WalkReverse(g, s, p);
      assert Leads(g, t, Reverse(p), s);
    }
  }

  /** The least cost from `s` to `t` equals the least cost from `t` to `s`. */
  lemma MinCostSymmetric(g: Graph, s: nat, t: nat)
    requires NonNegative(g)
    ensures MinCost(g, s, t) == MinCost(g, t, s)
  {
    forall a, b, p | Leads(g, a, p, b)
      ensures Leads(g, b, Reverse(p), a) && Walk(g, b, Reverse(p)).value.cost == Walk(g, a, p).value.cost
    {
      WalkReverse(g, a, p);
    }
    if MinCost(g, s, t).Some? {
      var c := MinCost(g, s, t).value;
      forall q | Leads(g, t, q, s) ensures c <= Walk(g, t, q).value.cost {
        assert Leads(g, s, Reverse(q), t);
      }
      var p :| Leads(g, s, p, t) && Walk(g, s, p).value.cost == c;
      assert Leads(g, t, Reverse(p), s);
      MinCostUnique(g, t, s, c);
    } else {
      ReachableSymmetric(g, t, s);
    }
  }
}
