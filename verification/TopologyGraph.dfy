/** The directed multigraph of src/base/Topology.h as a value, and the walks in it
    that the shortest-path searches minimise over. */
module TopologyGraph {
  import opened Options
  import opened Weights

  type NodeId = nat
  type LinkId = nat

  datatype Node = Node(moduleId: int, weight: Weight, enabled: bool)

  // A link object that is in no graph has no end nodes (the null pointers of the constructor).
  datatype Link = Link(src: Option<NodeId>, dest: Option<NodeId>,
                       srcGate: int, destGate: int, weight: Weight, enabled: bool)

  datatype Graph = Graph(node: map<NodeId, Node>, link: map<LinkId, Link>, inLinks: map<NodeId, seq<LinkId>>) {

    ghost predicate Attached(l: LinkId) {
      && l in link && link[l].src.Some? && link[l].dest.Some?
      && link[l].src.value in node && link[l].dest.value in node
    }

    ghost predicate WellFormed() {
      && inLinks.Keys == node.Keys
      && (forall n, i :: n in node && 0 <= i < |inLinks[n]| ==>
            Attached(inLinks[n][i]) && link[inLinks[n][i]].dest == Some(n))
      && (forall l :: Attached(l) ==> l in inLinks[link[l].dest.value])
    }

    function Src(l: LinkId): NodeId
      requires Attached(l)
    {
      link[l].src.value
    }

    function Dest(l: LinkId): NodeId
      requires Attached(l)
    {
      link[l].dest.value
    }

    // A search may step backwards over l: the link and the node it starts from are enabled.
    predicate Usable(l: LinkId)
      requires Attached(l)
    {
      link[l].enabled && node[Src(l)].enabled
    }

    // The price of l on the way to target t: the link, plus the transit through its far
    // end unless that end is the target.
    function Hop(t: NodeId, l: LinkId): Weight
      requires Attached(l)
    {
      if Dest(l) == t then link[l].weight else link[l].weight.Plus(node[Dest(l)].weight)
    }

    // The search towards t may reach n: it is the target, or enabled.
    predicate Open(t: NodeId, n: NodeId)
      requires n in node
    {
      n == t || node[n].enabled
    }

    // What the ASSERTs of the weighted search towards t demand of the weights of nodes and links it may look at.
    ghost predicate Weighted(t: NodeId) {
      && (forall n :: n in node && Open(t, n) ==> node[n].weight.NonNegative())
      && (forall l :: Attached(l) && Usable(l) && Open(t, Dest(l)) ==> link[l].weight.Positive())
    }

    // p is a sequence of usable links from v to t.
    ghost predicate Walk(t: NodeId, v: NodeId, p: seq<LinkId>)
      decreases p
    {
      if p == [] then v == t
      else Attached(p[0]) && Usable(p[0]) && Src(p[0]) == v && Walk(t, Dest(p[0]), p[1..])
    }

    ghost function Cost(t: NodeId, v: NodeId, p: seq<LinkId>): Weight
      requires Walk(t, v, p)
      decreases p
    {
      if p == [] then ZERO else Hop(t, p[0]).Plus(Cost(t, Dest(p[0]), p[1..]))
    }

    ghost predicate WalkOfCost(t: NodeId, v: NodeId, p: seq<LinkId>, d: Weight) {
      Walk(t, v, p) && Cost(t, v, p) == d
    }

    // d is the least cost of a walk from v to t; infinite when no walk has a finite cost.
    ghost predicate IsDistance(t: NodeId, v: NodeId, d: Weight) {
      && (forall p :: Walk(t, v, p) ==> d.AtMost(Cost(t, v, p)))
      && (d.Finite? ==> exists p :: WalkOfCost(t, v, p, d))
    }
  }

  // The next-link pointers of a finished search.
  type Pointers = map<NodeId, Option<LinkId>>

  // p is what one gets by following the pointers from v until a node without one: it ends at t.
  ghost predicate Follows(g: Graph, t: NodeId, next: Pointers, v: NodeId, p: seq<LinkId>)
    decreases p
  {
    if p == [] then v == t && v in next && next[v] == None
    else v in next && next[v] == Some(p[0]) && g.Attached(p[0]) && Follows(g, t, next, g.Dest(p[0]), p[1..])
  }
}
