/** calculateUnweightedSingleShortestPathsTo of src/base/Topology.cc, and its step-by-step
    agreement with the weighted search on the same graph with unit weights. */
module UnweightedSearch {
  import opened Options
  import opened Weights
  import opened TopologyGraph
  import opened WeightedSearch

  const ONE := Finite(1.0)

  // One pass of the inner loop: link l into v, the node just taken from the deque.
  function Visit(g: Graph, v: NodeId, l: LinkId, s: Search): (r: Search)
    requires Shaped(g, s) && v in g.node
    requires g.Attached(l)
    ensures Shaped(g, r)
  {
    var w := g.Src(l);
    if g.Usable(l) && s.dist[w] == Infinity then
      Search(s.dist[w := s.dist[v].Plus(ONE)], s.outPath[w := Some(l)], s.queue + [w])
    else s
  }

  function VisitFirst(g: Graph, v: NodeId, k: nat, s: Search): (r: Search)
    requires g.WellFormed() && Shaped(g, s) && v in g.node
    requires k <= |g.inLinks[v]|
    ensures Shaped(g, r)
  {
    if k == 0 then s else Visit(g, v, g.inLinks[v][k - 1], VisitFirst(g, v, k - 1, s))
  }

  function VisitRound(g: Graph, s: Search): (r: Search)
    requires g.WellFormed() && Shaped(g, s) && s.queue != []
    ensures Shaped(g, r)
  {
    VisitFirst(g, s.queue[0], |g.inLinks[s.queue[0]]|, s.(queue := s.queue[1..]))
  }

  // The same graph with link weights 1 and node weights 0.
  function Unit(g: Graph): Graph {
    Graph(map n | n in g.node :: g.node[n].(weight := ZERO),
          map l | l in g.link :: g.link[l].(weight := ONE),
          g.inLinks)
  }

  ghost predicate IsUnit(g: Graph) {
    && (forall n :: n in g.node ==> g.node[n].weight == ZERO)
    && (forall l :: l in g.link ==> g.link[l].weight == ONE)
  }

  lemma UnitOfUnit(g: Graph)
    ensures IsUnit(Unit(g))
    ensures IsUnit(g) ==> Unit(g) == g
  {
    if IsUnit(g) {
      assert Unit(g).node == g.node;
      assert Unit(g).link == g.link;
    }
  }

  lemma UnitIsSearchable(g: Graph, t: NodeId)
    requires g.WellFormed()
    ensures Unit(g).WellFormed() && Unit(g).Weighted(t)
  {
    forall l ensures Unit(g).Attached(l) <==> g.Attached(l) {}
  }

  // No reached node is more than one hop farther than v.
  ghost predicate WithinOneHop(dist: map<NodeId, Weight>, v: NodeId) {
    v in dist && forall n :: n in dist && dist[n].Finite? ==> dist[n].AtMost(dist[v].Plus(ONE))
  }

  // Under unit weights nothing reached is ever improved and every insertion is at the end.
  lemma VisitIsRelax(g: Graph, t: NodeId, s: Search, done: seq<NodeId>, l: LinkId)
    requires Shaped(g, s) && Frontier(s.dist, done, s.queue) && done != []
    requires g.Attached(l) && Unit(g).Attached(l) && g.Dest(l) == done[|done| - 1]
    requires WithinOneHop(s.dist, g.Dest(l)) && s.dist[g.Dest(l)].Finite?
    ensures Relax(Unit(g), t, g.Dest(l), l, s) == Visit(g, g.Dest(l), l, s)
    ensures WithinOneHop(Visit(g, g.Dest(l), l, s).dist, g.Dest(l))
  {
    var u, v, w := Unit(g), g.Dest(l), g.Src(l);
    var newdist := s.dist[v].Plus(ONE);
    assert u.Src(l) == w && u.Dest(l) == v && u.Usable(l) == g.Usable(l);
    assert u.Hop(t, l) == ONE;
    if g.Usable(l) && s.dist[w] == Infinity {
      var dist := s.dist[w := newdist];
      var i := InsertPos(s.queue, dist, newdist);
      assert i == |s.queue|;
      assert s.queue[..i] + [w] + s.queue[i..] == s.queue + [w];
    }
  }

  lemma VisitKeepsInnerInv(g: Graph, t: NodeId, s: Search, done: seq<NodeId>, k: nat)
    requires g.WellFormed() && InnerInv(Unit(g), t, s, done, k) && k < |g.inLinks[done[|done| - 1]]|
    requires Shaped(g, s) && WithinOneHop(s.dist, done[|done| - 1])
    ensures var v := done[|done| - 1]; var l := g.inLinks[v][k];
            && Relax(Unit(g), t, v, l, s) == Visit(g, v, l, s)
            && WithinOneHop(Visit(g, v, l, s).dist, v)
            && InnerInv(Unit(g), t, Visit(g, v, l, s), done, k + 1)
  {
    hide Relax, Visit, Tree, RelaxedDone, Relaxed;
    var v := done[|done| - 1];
    VisitIsRelax(g, t, s, done, g.inLinks[v][k]);
    RelaxKeepsInnerInv(Unit(g), t, s, done, k);
  }

  lemma {:induction false} VisitFirstIsRelaxFirst(g: Graph, u: Graph, t: NodeId, s: Search, done: seq<NodeId>, k: nat)
    requires u == Unit(g) && u.inLinks == g.inLinks && u.node.Keys == g.node.Keys
    requires g.WellFormed() && InnerInv(u, t, s, done, 0) && k <= |g.inLinks[done[|done| - 1]]|
    requires Shaped(g, s) && WithinOneHop(s.dist, done[|done| - 1])
    ensures var v := done[|done| - 1];
            && RelaxFirst(u, t, v, k, s) == VisitFirst(g, v, k, s)
            && WithinOneHop(VisitFirst(g, v, k, s).dist, v)
            && InnerInv(u, t, VisitFirst(g, v, k, s), done, k)
  {
    hide Unit, Relax, Visit, Tree, Frontier, RelaxedDone, Relaxed, WithinOneHop;
    if k > 0 {
      var v := done[|done| - 1];
      VisitFirstIsRelaxFirst(g, u, t, s, done, k - 1);
      VisitKeepsInnerInv(g, t, VisitFirst(g, v, k - 1, s), done, k - 1);
    }
  }

  // The bound that lets the next node be taken.
  ghost predicate Levelled(s: Search, done: seq<NodeId>) {
    done != [] ==> WithinOneHop(s.dist, done[|done| - 1])
  }

  lemma FrontIsLevelled(s: Search, t: NodeId, done: seq<NodeId>)
    requires Frontier(s.dist, done, s.queue) && Levelled(s, done) && s.queue != []
    requires done == [] ==> s.queue == [t] && t in s.dist && s.dist[t] == ZERO
    ensures WithinOneHop(s.dist, s.queue[0])
  {
    var all, m := done + s.queue, |done|;
    assert all[m] == s.queue[0];
    if done != [] {
      assert all[m - 1] == done[m - 1];
      assert s.dist[all[m - 1]].AtMost(s.dist[all[m]]);
    }
  }

  // One round of the breadth-first search is one round of the weighted search under unit weights.
  lemma VisitRoundIsRound(g: Graph, t: NodeId, s: Search, done: seq<NodeId>)
    requires g.WellFormed() && Shaped(g, s)
    requires Inv(Unit(g), t, s, done) && AllRelaxed(Unit(g), t, s, done) && Levelled(s, done) && s.queue != []
    ensures VisitRound(g, s) == Round(Unit(g), t, s)
    ensures Levelled(VisitRound(g, s), done + [s.queue[0]])
  {
    hide Relax, Visit, Relaxed, RelaxedDone, RelaxFirst, VisitFirst;
    var v := s.queue[0];
    FrontIsLevelled(s, t, done);
    PopInv(Unit(g), t, s, done);
    VisitFirstIsRelaxFirst(g, Unit(g), t, s.(queue := s.queue[1..]), done + [v], |g.inLinks[v]|);
  }

  // The breadth-first loop run to its end.
  ghost function VisitRun(g: Graph, t: NodeId, s: Search, done: seq<NodeId>): Search
    requires g.WellFormed() && Shaped(g, s)
    requires Inv(Unit(g), t, s, done) && AllRelaxed(Unit(g), t, s, done) && Levelled(s, done)
    decreases g.node.Keys - Taken(done)
  {
    if s.queue == [] then s
    else
      RoundInv(Unit(g), t, s, done);
      VisitRoundIsRound(g, t, s, done);
      assert Unit(g).node.Keys == g.node.Keys;
      VisitRun(g, t, VisitRound(g, s), done + [s.queue[0]])
  }

  // For every graph: the breadth-first search computes exactly what the weighted search
  // computes on the graph with unit weights, distances and next-link pointers alike.
  lemma {:induction false} UnweightedAgreesWithWeighted(g: Graph, t: NodeId, s: Search, done: seq<NodeId>)
    requires g.WellFormed() && Shaped(g, s)
    requires Inv(Unit(g), t, s, done) && AllRelaxed(Unit(g), t, s, done) && Levelled(s, done)
    ensures VisitRun(g, t, s, done) == Run(Unit(g), t, s, done)
    decreases g.node.Keys - Taken(done)
  {
    if s.queue != [] {
      RoundInv(Unit(g), t, s, done);
      VisitRoundIsRound(g, t, s, done);
      assert Unit(g).node.Keys == g.node.Keys;
      UnweightedAgreesWithWeighted(g, t, VisitRound(g, s), done + [s.queue[0]]);
    }
  }

  // ----- hop counts -----

  lemma {:induction false} UnitCostIsLength(g: Graph, t: NodeId, v: NodeId, p: seq<LinkId>)
    ensures Unit(g).Walk(t, v, p) <==> g.Walk(t, v, p)
    ensures g.Walk(t, v, p) ==> Unit(g).Cost(t, v, p) == Finite(|p| as real)
    decreases p
  {
    if p != [] && g.Attached(p[0]) {
      UnitCostIsLength(g, t, g.Dest(p[0]), p[1..]);
    }
  }

  // d is the least number of links of a walk from v to t; infinite when there is no walk.
  ghost predicate IsHopCount(g: Graph, t: NodeId, v: NodeId, d: Weight) {
    && (forall p :: g.Walk(t, v, p) ==> d.AtMost(Finite(|p| as real)))
    && (d.Finite? ==> exists p :: g.Walk(t, v, p) && d == Finite(|p| as real))
  }

  lemma UnitDistanceIsHopCount(g: Graph, t: NodeId, v: NodeId, d: Weight)
    requires Unit(g).IsDistance(t, v, d)
    ensures IsHopCount(g, t, v, d)
  {
    forall p | g.Walk(t, v, p) ensures d.AtMost(Finite(|p| as real)) {
      UnitCostIsLength(g, t, v, p);
    }
    if d.Finite? {
      var p :| Unit(g).WalkOfCost(t, v, p, d);
      UnitCostIsLength(g, t, v, p);
      assert g.Walk(t, v, p) && d == Finite(|p| as real);
    }
  }
}
