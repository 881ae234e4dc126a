/**
 * The shortest-path query the library runs: a best-first search from the
 * start vertex with a zero heuristic, whose goal test is made when a vertex
 * is taken off the frontier. With a zero heuristic this is Dijkstra's
 * algorithm. The frontier is kept as three per-vertex sequences: the best
 * known cost, whether a cost is known at all, and whether the vertex is
 * settled.
 */
module ShortestPaths {
  import opened Wrappers
  import opened Graphs

  /** The shapes of the search state and the facts that hold of it at every step. */
  ghost predicate Shape(g: Graph, s: nat, dist: seq<int>, reached: seq<bool>, done: seq<bool>, via: seq<seq<nat>>)
  {
    |dist| == |reached| == |done| == |via| == g.nodeCount &&
    s < g.nodeCount && reached[s] && dist[s] == 0 &&
    (forall v :: 0 <= v < g.nodeCount && done[v] ==> reached[v]) &&
    (forall v :: 0 <= v < g.nodeCount && reached[v] ==> dist[v] >= 0)
  }

  /** Every known cost is the cost of a walk from the start, recorded in `via`. */
  ghost predicate Achieved(g: Graph, s: nat, dist: seq<int>, reached: seq<bool>, via: seq<seq<nat>>)
    requires |dist| == |reached| == |via| == g.nodeCount
  {
    forall v :: 0 <= v < g.nodeCount && reached[v] ==>
      Leads(g, s, via[v], v) && Walk(g, s, via[v]).value.cost == dist[v]
  }

  /** Every edge out of `u` has been relaxed. */
  ghost predicate RelaxedAt(g: Graph, dist: seq<int>, reached: seq<bool>, u: nat)
    requires EdgesInBounds(g) && |dist| == |reached| == g.nodeCount && u < g.nodeCount
  {
    forall i :: 0 <= i < |g.edges| && Incident(g.edges[i], u) ==>
      reached[Other(g.edges[i], u)] && dist[Other(g.edges[i], u)] <= dist[u] + g.edges[i].weight
  }

  /** Every settled vertex has had its edges relaxed. */
  ghost predicate Relaxed(g: Graph, dist: seq<int>, reached: seq<bool>, done: seq<bool>)
    requires EdgesInBounds(g) && |dist| == |reached| == |done| == g.nodeCount
  {
    forall u :: 0 <= u < g.nodeCount && done[u] ==> RelaxedAt(g, dist, reached, u)
  }

  /** Settled vertices cost no more than any vertex still on the frontier. */
  ghost predicate Settled(dist: seq<int>, reached: seq<bool>, done: seq<bool>)
    requires |dist| == |reached| == |done|
  {
    forall x, z :: 0 <= x < |dist| && 0 <= z < |dist| && done[x] && reached[z] && !done[z] ==> dist[x] <= dist[z]
  }

  ghost predicate SearchInv(g: Graph, s: nat, dist: seq<int>, reached: seq<bool>, done: seq<bool>, via: seq<seq<nat>>)
  {
    EdgesInBounds(g) && NonNegative(g) &&
    Shape(g, s, dist, reached, done, via) &&
    Achieved(g, s, dist, reached, via) &&
    Relaxed(g, dist, reached, done) &&
    Settled(dist, reached, done)
  }

  /**
   * Under the search invariant, a walk from the start costs at least the
   * known cost of its end if that end is settled, and at least the known cost
   * of some frontier vertex if it is not.
   */
  lemma {:induction false} WalkLowerBound(g: Graph, s: nat, dist: seq<int>, reached: seq<bool>, done: seq<bool>,
                                          via: seq<seq<nat>>, p: seq<nat>)
    requires SearchInv(g, s, dist, reached, done, via)
    requires Walk(g, s, p).Some?
    ensures Walk(g, s, p).value.at < g.nodeCount
    ensures var a := Walk(g, s, p).value;
      (done[a.at] ==> dist[a.at] <= a.cost) &&
      (!done[a.at] ==> exists z :: 0 <= z < g.nodeCount && reached[z] && !done[z] && dist[z] <= a.cost)
    decreases |p|
  {
    WalkStaysInBounds(g, s, p);
    if p == [] {
      assert reached[s] && dist[s] == 0;
    } else {
      var q := p[..|p| - 1];
      WalkLowerBound(g, s, dist, reached, done, via, q);
      var b := Walk(g, s, q).value;
      var i := p[|p| - 1];
      var a := Walk(g, s, p).value;
      assert a.at == Other(g.edges[i], b.at) && a.cost == b.cost + g.edges[i].weight;
      if done[b.at] {
        assert RelaxedAt(g, dist, reached, b.at);
      } else {
        var z :| 0 <= z < g.nodeCount && reached[z] && !done[z] && dist[z] <= b.cost;
        assert dist[z] <= a.cost;
      }
    }
  }

  /** The frontier vertex of least known cost, or `None` when the frontier is empty. */
  method PickClosest(dist: seq<int>, reached: seq<bool>, done: seq<bool>) returns (u: Option<nat>)
    requires |dist| == |reached| == |done|
    ensures u.None? <==> forall v :: 0 <= v < |dist| ==> !(reached[v] && !done[v])
    ensures u.Some? ==> u.value < |dist| && reached[u.value] && !done[u.value] &&
                        forall z :: 0 <= z < |dist| && reached[z] && !done[z] ==> dist[u.value] <= dist[z]
  {
    u := None;
    for v := 0 to |dist|
      invariant u.None? <==> forall w :: 0 <= w < v ==> !(reached[w] && !done[w])
      invariant u.Some? ==> u.value < v && reached[u.value] && !done[u.value] &&
                            forall z :: 0 <= z < v && reached[z] && !done[z] ==> dist[u.value] <= dist[z]
    {
      if reached[v] && !done[v] && (u.None? || dist[v] < dist[u.value]) {
        u := Some(v);
      }
    }
  }

  /** The state in which `u` has just been settled, before its edges are relaxed. */
  ghost predicate JustSettled(g: Graph, s: nat, u: nat, dist: seq<int>, reached: seq<bool>, done: seq<bool>, via: seq<seq<nat>>)
  {
    EdgesInBounds(g) && NonNegative(g) &&
    Shape(g, s, dist, reached, done, via) && Achieved(g, s, dist, reached, via) &&
    u < g.nodeCount && done[u] &&
    (forall x :: 0 <= x < g.nodeCount && done[x] && x != u ==> RelaxedAt(g, dist, reached, x)) &&
    (forall x :: 0 <= x < g.nodeCount && done[x] ==> dist[x] <= dist[u]) &&
    (forall z :: 0 <= z < g.nodeCount && reached[z] && !done[z] ==> dist[u] <= dist[z])
  }

  /**
   * After relaxing the first `i` edges out of `u`, the costs `d` and reached
   * flags `r`: settled vertices keep their costs, other costs only go down,
   * the frontier stays at or above `u`, and the first `i` edges out of `u`
   * are relaxed.
   */
  ghost predicate Relaxing(g: Graph, u: nat, dist: seq<int>, reached: seq<bool>, done: seq<bool>,
                           d: seq<int>, r: seq<bool>, i: nat)
  {
    |dist| == |reached| == |done| == |d| == |r| == g.nodeCount && EdgesInBounds(g) &&
    u < g.nodeCount && i <= |g.edges| &&
    d[u] == dist[u] &&
    (forall v :: 0 <= v < g.nodeCount && done[v] ==> d[v] == dist[v]) &&
    (forall v :: 0 <= v < g.nodeCount && reached[v] ==> r[v] && d[v] <= dist[v]) &&
    (forall z :: 0 <= z < g.nodeCount && r[z] && !done[z] ==> dist[u] <= d[z]) &&
    (forall j :: 0 <= j < i && Incident(g.edges[j], u) ==>
       r[Other(g.edges[j], u)] && d[Other(g.edges[j], u)] <= d[u] + g.edges[j].weight)
  }

  /** An edge out of `u` that cannot improve its other end leaves the state as it is. */
  lemma RelaxKeep(g: Graph, u: nat, dist: seq<int>, reached: seq<bool>, done: seq<bool>,
                  d: seq<int>, r: seq<bool>, i: nat)
    requires NonNegative(g) && Relaxing(g, u, dist, reached, done, d, r, i) && i < |g.edges|
    requires forall x :: 0 <= x < g.nodeCount && done[x] ==> reached[x] && dist[x] <= dist[u]
    requires Incident(g.edges[i], u) ==>
               var v := Other(g.edges[i], u); done[v] || (r[v] && d[v] <= d[u] + g.edges[i].weight)
    ensures Relaxing(g, u, dist, reached, done, d, r, i + 1)
  {
    var e := g.edges[i];
    if Incident(e, u) {
      var v := Other(e, u);
      if done[v] {
        assert r[v] && d[v] == dist[v] <= dist[u] == d[u];
      }
    }
  }

  /** Improving the other end of an edge out of a reached `u` keeps every recorded cost achieved. */
  lemma ImproveAchieved(g: Graph, s: nat, u: nat, done: seq<bool>, d: seq<int>, r: seq<bool>, w: seq<seq<nat>>, i: nat)
    requires EdgesInBounds(g) && NonNegative(g)
    requires Shape(g, s, d, r, done, w) && Achieved(g, s, d, r, w)
    requires u < g.nodeCount && r[u] && i < |g.edges| && Incident(g.edges[i], u)
    requires var v := Other(g.edges[i], u); !r[v] || d[u] + g.edges[i].weight < d[v]
    ensures var v := Other(g.edges[i], u);
      var d2, r2, w2 := d[v := d[u] + g.edges[i].weight], r[v := true], w[v := w[u] + [i]];
      Shape(g, s, d2, r2, done, w2) && Achieved(g, s, d2, r2, w2)
  {
    var e := g.edges[i];
    var v := Other(e, u);
    var d2, r2, w2 := d[v := d[u] + e.weight], r[v := true], w[v := w[u] + [i]];
    WalkExtend(g, s, w[u], i);
    forall x | 0 <= x < g.nodeCount && r2[x]
      ensures Leads(g, s, w2[x], x) && Walk(g, s, w2[x]).value.cost == d2[x]
    {
    }
  }

  /** An edge out of `u` that gives its unsettled other end a lower cost keeps the bounds. */
  lemma RelaxImprove(g: Graph, u: nat, dist: seq<int>, reached: seq<bool>, done: seq<bool>,
                     d: seq<int>, r: seq<bool>, i: nat)
    requires NonNegative(g) && Relaxing(g, u, dist, reached, done, d, r, i)
    requires done[u] && i < |g.edges| && Incident(g.edges[i], u)
    requires var v := Other(g.edges[i], u); !done[v] && (!r[v] || d[u] + g.edges[i].weight < d[v])
    ensures var v := Other(g.edges[i], u);
      Relaxing(g, u, dist, reached, done, d[v := d[u] + g.edges[i].weight], r[v := true], i + 1)
  {
    var e := g.edges[i];
    var v := Other(e, u);
    var d2, r2 := d[v := d[u] + e.weight], r[v := true];
    assert u != v && d2[u] == d[u];
    forall j | 0 <= j <= i && Incident(g.edges[j], u)
      ensures r2[Other(g.edges[j], u)] && d2[Other(g.edges[j], u)] <= d2[u] + g.edges[j].weight
    {
      if j < i {
        assert r[Other(g.edges[j], u)] && d[Other(g.edges[j], u)] <= d[u] + g.edges[j].weight;
      }
    }
  }

  /** Once every edge out of `u` is relaxed, the search invariant holds again. */
  lemma RelaxDone(g: Graph, s: nat, u: nat, dist: seq<int>, reached: seq<bool>, done: seq<bool>, via: seq<seq<nat>>,
                  d: seq<int>, r: seq<bool>, w: seq<seq<nat>>)
    requires JustSettled(g, s, u, dist, reached, done, via)
    requires Shape(g, s, d, r, done, w) && Achieved(g, s, d, r, w)
    requires Relaxing(g, u, dist, reached, done, d, r, |g.edges|)
    ensures SearchInv(g, s, d, r, done, w)
  {
    forall x | 0 <= x < g.nodeCount && done[x] && x != u
      ensures RelaxedAt(g, d, r, x)
    {
      assert RelaxedAt(g, dist, reached, x);
    }
    assert RelaxedAt(g, d, r, u);
  }

  /** Relaxes every edge out of the newly settled vertex `u`. */
  method Relax(g: Graph, ghost s: nat, u: nat, dist: seq<int>, reached: seq<bool>, done: seq<bool>, ghost via: seq<seq<nat>>)
    returns (dist': seq<int>, reached': seq<bool>, ghost via': seq<seq<nat>>)
    requires JustSettled(g, s, u, dist, reached, done, via)
    ensures SearchInv(g, s, dist', reached', done, via')
  {
    dist', reached', via' := dist, reached, via;
    for i := 0 to |g.edges|
      invariant Shape(g, s, dist', reached', done, via') && Achieved(g, s, dist', reached', via')
      invariant Relaxing(g, u, dist, reached, done, dist', reached', i)
    {
      var e := g.edges[i];
      if Incident(e, u) && !done[Other(e, u)] &&
         (!reached'[Other(e, u)] || dist'[u] + e.weight < dist'[Other(e, u)]) {
        var v := Other(e, u);
        ImproveAchieved(g, s, u, done, dist', reached', via', i);
        RelaxImprove(g, u, dist, reached, done, dist', reached', i);
        dist' := dist'[v := dist'[u] + e.weight];
        reached' := reached'[v := true];
        via' := via'[v := via'[u] + [i]];
      } else {
        RelaxKeep(g, u, dist, reached, done, dist', reached', i);
      }
    }
    RelaxDone(g, s, u, dist, reached, done, via, dist', reached', via');
  }

  /**
   * The cost of a cheapest walk from `s` to `t`, or `None` when `t` cannot
   * be reached from `s`.
   */
  method ShortestPath(g: Graph, s: nat, t: nat) returns (r: Option<int>)
    requires EdgesInBounds(g) && NonNegative(g)
    requires s < g.nodeCount && t < g.nodeCount
    ensures r == MinCost(g, s, t)
  {
    var n := g.nodeCount;
    var dist := seq(n, _ => 0);
    var reached := seq(n, v => v == s);
    var done := seq(n, _ => false);
    ghost var via: seq<seq<nat>> := seq(n, _ => []);
    while true
      invariant SearchInv(g, s, dist, reached, done, via)
      invariant !done[t]
      decreases set v | 0 <= v < n && !done[v]
    {
      var pick := PickClosest(dist, reached, done);
      if pick.None? {
        forall p | Leads(g, s, p, t) ensures false {
          WalkLowerBound(g, s, dist, reached, done, via, p);
        }
        return None;
      }
      var u := pick.value;
      if u == t {
        forall p | Leads(g, s, p, t) ensures dist[t] <= Walk(g, s, p).value.cost {
          WalkLowerBound(g, s, dist, reached, done, via, p);
        }
        assert Leads(g, s, via[t], t);
        MinCostUnique(g, s, t, dist[t]);
        return Some(dist[t]);
      }
      ghost var before := set v | 0 <= v < n && !done[v];
      done := done[u := true];
      assert u in before && (set v | 0 <= v < n && !done[v]) < before;
      dist, reached, via := Relax(g, s, u, dist, reached, done, via);
    }
  }
}
