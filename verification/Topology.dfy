/** The Topology class of src/base/Topology.h: a graph edited in place, a node vector ordered
    by module id and searched by bisection, and the two shortest-path searches. */
module Topologies {
  import opened Options
  import opened Sequences
  import opened Weights
  import opened TopologyGraph
  import opened TopologyLinks
  import opened WeightedSearch
  import opened UnweightedSearch

  predicate IsInt(x: int) { -0x8000_0000 <= x < 0x8000_0000 }

  // The (unsigned int) cast of lessByModuleId: -1 becomes the largest key.
  function Unsigned(x: int): nat
    requires IsInt(x)
  {
    if x < 0 then x + 0x1_0000_0000 else x
  }

  function Key(node: map<NodeId, Node>, n: NodeId): nat {
    if n in node && IsInt(node[n].moduleId) then Unsigned(node[n].moduleId) else 0
  }

  // nodes[] holds each node of the graph once, ordered by unsigned module id.
  ghost predicate NodeVector(node: map<NodeId, Node>, nodes: seq<NodeId>) {
    && Distinct(nodes)
    && (forall n :: n in nodes <==> n in node)
    && (forall n :: n in node ==> IsInt(node[n].moduleId))
    && (forall i, j :: 0 <= i < j < |nodes| ==> Key(node, nodes[i]) <= Key(node, nodes[j]))
  }

  // A linear scan for the first node with the module id.
  function Scan(node: map<NodeId, Node>, nodes: seq<NodeId>, id: int): (r: Option<NodeId>)
    requires forall n :: n in nodes ==> n in node
    ensures r.Some? ==> r.value in nodes && node[r.value].moduleId == id
  {
    if nodes == [] then None
    else if node[nodes[0]].moduleId == id then Some(nodes[0])
    else Scan(node, nodes[1..], id)
  }

  lemma {:induction false} ScanFindsFirst(node: map<NodeId, Node>, nodes: seq<NodeId>, id: int, i: nat)
    requires forall n :: n in nodes ==> n in node
    requires i <= |nodes| && forall k :: 0 <= k < i ==> node[nodes[k]].moduleId != id
    ensures i < |nodes| && node[nodes[i]].moduleId == id ==> Scan(node, nodes, id) == Some(nodes[i])
    ensures i == |nodes| ==> Scan(node, nodes, id) == None
  {
    if i > 0 {
      forall n | n in nodes[1..] ensures n in node {}
      ScanFindsFirst(node, nodes[1..], id, i - 1);
    }
  }

  // std::lower_bound with lessByModuleId
  method LowerBound(node: map<NodeId, Node>, nodes: seq<NodeId>, id: int) returns (i: nat)
    requires NodeVector(node, nodes) && IsInt(id)
    ensures i <= |nodes|
    ensures forall k :: 0 <= k < i ==> Key(node, nodes[k]) < Unsigned(id)
    ensures forall k :: i <= k < |nodes| ==> Unsigned(id) <= Key(node, nodes[k])
  {
    i := 0;
    var hi := |nodes|;
    while i < hi
      invariant 0 <= i <= hi <= |nodes|
      invariant forall k :: 0 <= k < i ==> Key(node, nodes[k]) < Unsigned(id)
      invariant forall k :: hi <= k < |nodes| ==> Unsigned(id) <= Key(node, nodes[k])
    {
      var mid := (i + hi) / 2;
      if Unsigned(node[nodes[mid]].moduleId) < Unsigned(id) { i := mid + 1; } else { hi := mid; }
    }
  }

  lemma VectorMembers(node: map<NodeId, Node>, nodes: seq<NodeId>)
    requires NodeVector(node, nodes)
    ensures forall n :: n in nodes <==> n in node
  {
  }

  ghost predicate SlotFor(node: map<NodeId, Node>, nodes: seq<NodeId>, id: int, i: nat)
    requires IsInt(id)
  {
    && i <= |nodes|
    && (forall k :: 0 <= k < i ==> Key(node, nodes[k]) <= Unsigned(id))
    && (forall k :: i <= k < |nodes| ==> Unsigned(id) <= Key(node, nodes[k]))
  }

  // Where addNode puts a node: without module id at the end, else in front of nodes with the same module id.
  method InsertionPoint(node: map<NodeId, Node>, nodes: seq<NodeId>, id: int) returns (i: nat)
    requires NodeVector(node, nodes) && IsInt(id)
    ensures i <= |nodes| && SlotFor(node, nodes, id, i)
    ensures id == -1 ==> i == |nodes|
    ensures id != -1 ==> forall k :: 0 <= k < i ==> Key(node, nodes[k]) < Unsigned(id)
  {
    if id == -1 {
      i := |nodes|;
    } else {
      i := LowerBound(node, nodes, id);
    }
  }

  // std::list::remove
  method RemoveAll(q: seq<NodeId>, x: NodeId) returns (r: seq<NodeId>)
    ensures r == Without(q, x)
  {
    r := [];
    for i := 0 to |q|
      invariant r == Without(q[..i], x)
    {
      assert q[..i + 1][..i] == q[..i];
      if q[i] != x { r := r + [q[i]]; }
    }
    assert q[..|q|] == q;
  }

  // The loop over the ordered list that finds where to insert a node at distance d.
  method FindPlace(q: seq<NodeId>, dist: map<NodeId, Weight>, d: Weight) returns (i: nat)
    requires forall n :: n in q ==> n in dist
    ensures i == InsertPos(q, dist, d)
  {
    i := 0;
    while i < |q|
      invariant i <= |q| && forall k :: 0 <= k < i ==> !d.Less(dist[q[k]])
    {
      if d.Less(dist[q[i]]) { break; }
      i := i + 1;
    }
  }

  // std::find, for an element known to be there once
  method Find(s: seq<LinkId>, l: LinkId) returns (i: nat)
    requires l in s
    ensures i < |s| && s[i] == l
  {
    i := 0;
    while s[i] != l
      invariant i < |s| && l in s[i..]
      decreases |s| - i
    {
      i := i + 1;
    }
  }

  lemma ConsistentIsWellFormed(node: map<NodeId, Node>, t: Tables)
    requires Consistent(node.Keys, t)
    ensures Graph(node, t.link, t.inLinks).WellFormed()
  {
    var g := Graph(node, t.link, t.inLinks);
    forall n, i | n in node && 0 <= i < |t.inLinks[n]|
      ensures g.Attached(t.inLinks[n][i]) && t.link[t.inLinks[n][i]].dest == Some(n)
    {
      var l := t.inLinks[n][i];
      assert l in t.inLinks[n];
      assert l in Dests(t.link);
      assert t.link[l].src.Some?;
      assert l in Srcs(t.link);
    }
    forall l | g.Attached(l) ensures l in g.inLinks[g.Dest(l)] { assert l in Dests(t.link); }
  }

  class Topology {
    var nodes: seq<NodeId>
    var node: map<NodeId, Node>
    var link: map<LinkId, Link>
    var inLinks: map<NodeId, seq<LinkId>>
    var outLinks: map<NodeId, seq<LinkId>>
    var target: Option<NodeId>
    var dist: map<NodeId, Weight>
    var outPath: Pointers

    ghost function AsTables(): Tables
      reads this
    {
      Tables(link, inLinks, outLinks)
    }

    ghost function AsGraph(): Graph
      reads this
    {
      Graph(node, link, inLinks)
    }

    ghost predicate Valid()
      reads this
    {
      && NodeVector(node, nodes)
      && dist.Keys == node.Keys && outPath.Keys == node.Keys
      && Consistent(node.Keys, AsTables())
    }

    // The outPath pointers name links that exist.
    ghost predicate PathsLive()
      reads this
    {
      Live(outPath, link.Keys)
    }

    constructor ()
      ensures Valid() && PathsLive() && nodes == [] && link == map[]
    {
      nodes, node, link, inLinks, outLinks := [], map[], map[], map[], map[];
      target, dist, outPath := None, map[], map[];
    }

    // A link object comes into being outside the graph.
    method NewLink(l: LinkId, weight: Weight)
      requires Valid() && l !in link
      modifies this`link
      ensures Valid() && link == old(link)[l := Link(None, None, -1, -1, weight, true)]
    {
      hide Consistent, NodeVector;
      FreshLink(node.Keys, AsTables(), l, Link(None, None, -1, -1, weight, true));
      link := link[l := Link(None, None, -1, -1, weight, true)];
    }

    method AddNode(n: NodeId, rec: Node) returns (i: nat)
      requires Valid() && n !in node && IsInt(rec.moduleId)
      modifies this
      ensures Valid()
      ensures i <= |old(nodes)| && nodes == old(nodes)[..i] + [n] + old(nodes)[i..]
      ensures rec.moduleId == -1 ==> i == |old(nodes)|
      ensures rec.moduleId != -1 ==> forall k :: 0 <= k < i ==> Key(old(node), old(nodes)[k]) < Unsigned(rec.moduleId)
      ensures forall k :: i <= k < |old(nodes)| ==> Unsigned(rec.moduleId) <= Key(old(node), old(nodes)[k])
      ensures node == old(node)[n := rec] && link == old(link)
      ensures inLinks == old(inLinks)[n := []] && outLinks == old(outLinks)[n := []]
      ensures dist == old(dist)[n := Infinity] && outPath == old(outPath)[n := None] && target == old(target)
    {
      hide Consistent, NodeVector;
      i := InsertionPoint(node, nodes, rec.moduleId);
      nodes := nodes[..i] + [n] + nodes[i..];
      node := node[n := rec];
      inLinks, outLinks := inLinks[n := []], outLinks[n := []];
      dist, outPath := dist[n := Infinity], outPath[n := None];
      InsertedVector(old(node), old(nodes), n, rec, i);
      GrownTables(old(node).Keys, old(AsTables()), n);
      assert node.Keys == old(node).Keys + {n};
    }

    method UnlinkFromSourceNode(l: LinkId)
      requires l in link && link[l].src.Some? && link[l].src.value in outLinks
      requires l in outLinks[link[l].src.value] && Distinct(outLinks[link[l].src.value])
      modifies this`outLinks
      ensures outLinks == Erase(old(outLinks), link[l].src.value, l)
    {
      var n := link[l].src.value;
      var i := Find(outLinks[n], l);
      EraseIsKeep(outLinks[n], i, l);
      outLinks := outLinks[n := outLinks[n][..i] + outLinks[n][i + 1..]];
    }

    method UnlinkFromDestNode(l: LinkId)
      requires l in link && link[l].dest.Some? && link[l].dest.value in inLinks
      requires l in inLinks[link[l].dest.value] && Distinct(inLinks[link[l].dest.value])
      modifies this`inLinks
      ensures inLinks == Erase(old(inLinks), link[l].dest.value, l)
    {
      var n := link[l].dest.value;
      var i := Find(inLinks[n], l);
      EraseIsKeep(inLinks[n], i, l);
      inLinks := inLinks[n := inLinks[n][..i] + inLinks[n][i + 1..]];
    }

    method AddLink(l: LinkId, srcNode: NodeId, destNode: NodeId)
      requires Valid() && l in link && srcNode in node && destNode in node
      modifies this`link, this`inLinks, this`outLinks
      ensures AsTables() == Attach(old(AsTables()), l, srcNode, destNode)
      ensures Linked(old(AsTables()), AsTables(), l, srcNode, destNode)
      ensures Valid()
    {
      hide Consistent, NodeVector, Linked;
      AttachLinks(node.Keys, AsTables(), l, srcNode, destNode);
      AttachKeepsConsistent(node.Keys, AsTables(), l, srcNode, destNode);
      Listed(node.Keys, AsTables(), l);
      if link[l].src.Some? { UnlinkFromSourceNode(l); }
      if link[l].dest.Some? { UnlinkFromDestNode(l); }
      SetEnds(l, srcNode, destNode);
      outLinks := outLinks[srcNode := outLinks[srcNode] + [l]];
      inLinks := inLinks[destNode := inLinks[destNode] + [l]];
    }

    method SetEnds(l: LinkId, srcNode: NodeId, destNode: NodeId)
      requires l in link
      modifies this`link
      ensures link == old(link)[l := Reattach(old(link)[l], srcNode, destNode)]
    {
      if link[l].src != Some(srcNode) { link := link[l := link[l].(srcGate := -1)]; }
      if link[l].dest != Some(destNode) { link := link[l := link[l].(destGate := -1)]; }
      link := link[l := link[l].(src := Some(srcNode), dest := Some(destNode))];
    }

    method DeleteLink(l: LinkId)
      requires Valid() && l in link && link[l].src.Some?
      modifies this`link, this`inLinks, this`outLinks
      ensures InGraph(old(AsTables()), l) && AsTables() == Delete(old(AsTables()), l)
      ensures Unlinked(old(AsTables()), AsTables(), l)
      ensures Valid()
      ensures old(PathsLive()) ==> (PathsLive() <==> forall v :: v in outPath ==> outPath[v] != Some(l))
    {
      hide Consistent, NodeVector, Unlinked;
      DeleteUnlinks(node.Keys, AsTables(), l);
      DeleteKeepsConsistent(node.Keys, AsTables(), l);
      Listed(node.Keys, AsTables(), l);
      UnlinkFromSourceNode(l);
      UnlinkFromDestNode(l);
      link := link - {l};
    }

    // The first loop of deleteNode.
    method DropOutgoing(x: NodeId)
      requires Valid() && x in node
      modifies this`link, this`inLinks, this`outLinks
      ensures x in old(outLinks) && AsTables() == WithoutOutgoing(old(AsTables()), x)
    {
      hide Consistent, NodeVector, Keep, Prune, OutgoingDone, Distinct, WithoutOutgoing;
      ghost var t := AsTables();
      ConsistentLists(node.Keys, t, x);
      OutgoingStarts(t, x);
      for i := 0 to |outLinks[x]|
        invariant outLinks == t.outLinks && AsTables() == OutgoingDone(t, x, i)
      {
        OutgoingStep(node.Keys, t, x, i);
        var l := outLinks[x][i];
        UnlinkFromDestNode(l);
        link := link - {l};
      }
      OutgoingEnds(t, x);
      outLinks := outLinks[x := []];
    }

    // The second loop of deleteNode.
    method DropIncoming(x: NodeId)
      requires Valid() && x in node
      modifies this`link, this`inLinks, this`outLinks
      ensures x in old(inLinks) && AsTables() == WithoutIncoming(old(AsTables()), x)
    {
      hide Consistent, NodeVector, Keep, Prune, IncomingDone, Distinct, WithoutIncoming;
      ghost var t := AsTables();
      ConsistentLists(node.Keys, t, x);
      IncomingStarts(t, x);
      for i := 0 to |inLinks[x]|
        invariant inLinks == t.inLinks && AsTables() == IncomingDone(t, x, i)
      {
        IncomingStep(node.Keys, t, x, i);
        var l := inLinks[x][i];
        UnlinkFromSourceNode(l);
        link := link - {l};
      }
      IncomingEnds(t, x);
      inLinks := inLinks[x := []];
    }

    method DeleteNode(x: NodeId)
      requires Valid() && x in node
      modifies this
      ensures Valid()
      ensures node == old(node) - {x}
      ensures exists i :: 0 <= i < |old(nodes)| && old(nodes)[i] == x && nodes == old(nodes)[..i] + old(nodes)[i + 1..]
      ensures AsTables() == DeleteAround(old(AsTables()), x)
      ensures Cleared(old(AsTables()), AsTables(), x)
      ensures dist == old(dist) - {x} && outPath == old(outPath) - {x} && target == old(target)
      ensures old(PathsLive()) ==> (PathsLive() <==> forall v :: v in outPath && outPath[v].Some? ==>
                                      outPath[v].value !in Incident(old(link), x))
    {
      hide Consistent, NodeVector, Keep, Incident, WithoutOutgoing, WithoutIncoming;
      ghost var t := AsTables();
      hide Cleared;
      DeleteAroundClears(t, x);
      TwoLoopsDeleteAround(node.Keys, t, x);
      DeleteAroundKeepsConsistent(node.Keys, t, x);
      HalfDone(node.Keys, t, x);
      DropOutgoing(x);
      DropIncoming(x);
      DropNode(x);
    }

    // The end of deleteNode: the node itself goes.
    method DropNode(x: NodeId)
      requires NodeVector(node, nodes) && x in node && dist.Keys == node.Keys && outPath.Keys == node.Keys
      modifies this
      ensures NodeVector(node, nodes) && dist.Keys == node.Keys && outPath.Keys == node.Keys
      ensures node == old(node) - {x} && node.Keys == old(node).Keys - {x}
      ensures exists i :: 0 <= i < |old(nodes)| && old(nodes)[i] == x && nodes == old(nodes)[..i] + old(nodes)[i + 1..]
      ensures link == old(link) && inLinks == old(inLinks) - {x} && outLinks == old(outLinks) - {x}
      ensures dist == old(dist) - {x} && outPath == old(outPath) - {x} && target == old(target)
    {
      VectorMembers(node, nodes);
      hide NodeVector;
      var i := Find(nodes, x);
      ErasedVector(node, nodes, i);
      nodes := nodes[..i] + nodes[i + 1..];
      node := node - {x};
      inLinks, outLinks := inLinks - {x}, outLinks - {x};
      dist, outPath := dist - {x}, outPath - {x};
    }

    // Bisection finds what a linear scan finds: the first node with that module id.
    method GetNodeFor(id: int) returns (r: Option<NodeId>)
      requires Valid() && IsInt(id)
      ensures (forall n :: n in nodes ==> n in node) && r == Scan(node, nodes, id)
    {
      hide Consistent;
      var i := LowerBound(node, nodes, id);
      if i == |nodes| || node[nodes[i]].moduleId != id {
        BisectionMiss(node, nodes, id, i);
        r := None;
      } else {
        ScanFindsFirst(node, nodes, id, i);
        r := Some(nodes[i]);
      }
    }

    // The results of a search are forgotten.
    method ClearPaths()
      requires dist.Keys == node.Keys && outPath.Keys == node.Keys && forall n :: n in nodes <==> n in node
      modifies this`dist, this`outPath
      ensures dist == map n | n in node :: Infinity
      ensures outPath == map n | n in node :: None
    {
      for i := 0 to |nodes|
        invariant dist.Keys == node.Keys && outPath.Keys == node.Keys
        invariant forall k :: 0 <= k < i ==> dist[nodes[k]] == Infinity && outPath[nodes[k]] == None
      {
        dist, outPath := dist[nodes[i] := Infinity], outPath[nodes[i] := None];
      }
    }

    // What both searches begin with.
    method Prepare(t: NodeId)
      requires Valid() && t in node
      modifies this`target, this`dist, this`outPath
      ensures target == Some(t) && Search(dist, outPath, [t]) == Start(AsGraph(), t)
    {
      hide Consistent, NodeVector;
      target := Some(t);
      VectorMembers(node, nodes);
      ClearPaths();
      dist := dist[t := ZERO];
    }

    method CalculateWeightedSingleShortestPathsTo(t: Option<NodeId>) returns (ok: bool)
      requires Valid() && (t.Some? ==> t.value in node && AsGraph().Weighted(t.value))
      modifies this`target, this`dist, this`outPath
      ensures ok <==> t.Some?
      ensures !ok ==> target == old(target) && dist == old(dist) && outPath == old(outPath)
      ensures ok ==> target == t && Solved(AsGraph(), t.value, dist, outPath) && PathsLive()
      ensures ok ==> Started(AsGraph(), t.value)
                     && Search(dist, outPath, []) == Run(AsGraph(), t.value, Start(AsGraph(), t.value), [])
      ensures Valid()
    {
      hide Consistent, NodeVector, OnCourse, Started, Graph.WellFormed, Graph.Weighted, Solved, Live;
      if t == None { return false; }
      ghost var g := AsGraph();
      ConsistentIsWellFormed(node, AsTables());
      CourseStarts(g, t.value);
      Prepare(t.value);
      assert AsGraph() == g;
      WeightedLoop(t.value);
      ok := true;
    }

    method WeightedLoop(t: NodeId)
      requires OnCourse(AsGraph(), t, Search(dist, outPath, [t]), [])
      modifies this`dist, this`outPath
      ensures t in AsGraph().node && Started(AsGraph(), t)
      ensures Search(dist, outPath, []) == Run(AsGraph(), t, Start(AsGraph(), t), [])
      ensures Solved(AsGraph(), t, dist, outPath) && dist.Keys == node.Keys && outPath.Keys == node.Keys
      ensures PathsLive()
    {
      hide OnCourse, Started, Graph.WellFormed, Round, Live, Solved;
      var q := [t];
      ghost var g, done := AsGraph(), [];
      while q != []
        invariant g == AsGraph() && OnCourse(g, t, Search(dist, outPath, q), done)
        decreases node.Keys - Taken(done)
      {
        CourseContinues(g, t, Search(dist, outPath, q), done);
        done := done + [q[0]];
        q := WeightedRound(t, q);
      }
      CourseEnds(g, t, Search(dist, outPath, q), done);
      SolvedIsLive(g, t, dist, outPath);
    }

    method CalculateUnweightedSingleShortestPathsTo(t: Option<NodeId>) returns (ok: bool)
      requires Valid() && (t.Some? ==> t.value in node)
      modifies this`target, this`dist, this`outPath
      ensures ok <==> t.Some?
      ensures !ok ==> target == old(target) && dist == old(dist) && outPath == old(outPath)
      ensures ok ==> target == t && Solved(Unit(AsGraph()), t.value, dist, outPath) && PathsLive()
      ensures ok ==> forall v :: v in node ==> IsHopCount(AsGraph(), t.value, v, dist[v])
      ensures ok ==> Started(Unit(AsGraph()), t.value)
                     && Search(dist, outPath, []) == Run(Unit(AsGraph()), t.value, Start(Unit(AsGraph()), t.value), [])
      ensures Valid()
    {
      hide Consistent, NodeVector, OnUnitCourse, Started, Graph.WellFormed, Graph.Weighted, Solved, Unit, IsHopCount, Live;
      if t == None { return false; }
      ghost var g := AsGraph();
      ConsistentIsWellFormed(node, AsTables());
      UnitCourseStarts(g, t.value);
      Prepare(t.value);
      assert AsGraph() == g;
      UnweightedLoop(t.value);
      ok := true;
    }

    method UnweightedLoop(t: NodeId)
      requires OnUnitCourse(AsGraph(), t, Search(dist, outPath, [t]), [])
      modifies this`dist, this`outPath
      ensures t in Unit(AsGraph()).node && Started(Unit(AsGraph()), t)
      ensures Search(dist, outPath, []) == Run(Unit(AsGraph()), t, Start(Unit(AsGraph()), t), [])
      ensures Solved(Unit(AsGraph()), t, dist, outPath) && dist.Keys == node.Keys && outPath.Keys == node.Keys
      ensures forall v :: v in node ==> v in dist && IsHopCount(AsGraph(), t, v, dist[v])
      ensures PathsLive()
    {
      hide OnUnitCourse, Started, Graph.WellFormed, VisitRound, Unit, Live, Solved;
      var q := [t];
      ghost var g, done := AsGraph(), [];
      while q != []
        invariant g == AsGraph() && OnUnitCourse(g, t, Search(dist, outPath, q), done)
        decreases node.Keys - Taken(done)
      {
        UnitCourseContinues(g, t, Search(dist, outPath, q), done);
        done := done + [q[0]];
        q := UnweightedRound(q);
      }
      UnitCourseEnds(g, t, Search(dist, outPath, q), done);
      SolvedIsLive(Unit(g), t, dist, outPath);
      UnitLinks(g);
    }

    // The body of the outer loop of the breadth-first search.
    method UnweightedRound(q0: seq<NodeId>) returns (q: seq<NodeId>)
      requires AsGraph().WellFormed() && Shaped(AsGraph(), Search(dist, outPath, q0)) && q0 != []
      modifies this`dist, this`outPath
      ensures Search(dist, outPath, q) == VisitRound(AsGraph(), old(Search(dist, outPath, q0)))
    {
      var v := q0[0];
      q := q0[1..];
      ghost var g, s := AsGraph(), Search(dist, outPath, q);
      for i := 0 to |inLinks[v]|
        invariant Shaped(g, s) && Search(dist, outPath, q) == VisitFirst(g, v, i, s)
      {
        var l := inLinks[v][i];
        if !link[l].enabled { continue; }
        var w := link[l].src.value;
        if !node[w].enabled { continue; }
        if dist[w] == Infinity {
          dist := dist[w := dist[v].Plus(ONE)];
          outPath := outPath[w := Some(l)];
          q := q + [w];
        }
      }
    }

    // The body of the outer loop of the weighted search.
    method WeightedRound(t: NodeId, q0: seq<NodeId>) returns (q: seq<NodeId>)
      requires AsGraph().WellFormed() && Shaped(AsGraph(), Search(dist, outPath, q0)) && q0 != []
      modifies this`dist, this`outPath
      ensures Search(dist, outPath, q) == Round(AsGraph(), t, old(Search(dist, outPath, q0)))
    {
      var dest := q0[0];
      q := q0[1..];
      ghost var g, s := AsGraph(), Search(dist, outPath, q);
      for i := 0 to |inLinks[dest]|
        invariant Shaped(g, s) && Search(dist, outPath, q) == RelaxFirst(g, t, dest, i, s)
      {
        q := RelaxLink(t, dest, inLinks[dest][i], q);
      }
    }

    // The body of the inner loop of the weighted search.
    method RelaxLink(t: NodeId, dest: NodeId, l: LinkId, q0: seq<NodeId>) returns (q: seq<NodeId>)
      requires Shaped(AsGraph(), Search(dist, outPath, q0)) && dest in node
      requires AsGraph().Attached(l) && AsGraph().Dest(l) == dest
      modifies this`dist, this`outPath
      ensures Search(dist, outPath, q) == Relax(AsGraph(), t, dest, l, old(Search(dist, outPath, q0)))
    {
      hide Without, InsertPos;
      q := q0;
      if !link[l].enabled { return; }
      var src := link[l].src.value;
      if !node[src].enabled { return; }
      var newdist := dist[dest].Plus(link[l].weight);
      if dest != t { newdist := newdist.Plus(node[dest].weight); }
      assert newdist == dist[dest].Plus(AsGraph().Hop(t, l));
      if newdist != Infinity && newdist.Less(dist[src]) {
        if dist[src] != Infinity { q := RemoveAll(q, src); }
        dist := dist[src := newdist];
        outPath := outPath[src := Some(l)];
        var i := FindPlace(q, dist, newdist);
        q := q[..i] + [src] + q[i..];
      }
    }
  }

  // The pointers name these links only.
  ghost predicate Live(next: Pointers, links: set<LinkId>) {
    forall v :: v in next && next[v].Some? ==> next[v].value in links
  }

  // A finished search points to links of its graph only.
  lemma SolvedIsLive(g: Graph, t: NodeId, dist: map<NodeId, Weight>, next: Pointers)
    requires Solved(g, t, dist, next)
    ensures Live(next, g.link.Keys)
  {
    forall v | v in next && next[v].Some? ensures next[v].value in g.link {
      var p :| Follows(g, t, next, v, p) && g.WalkOfCost(t, v, p, dist[v]);
    }
  }

  lemma UnitLinks(g: Graph)
    ensures Unit(g).link.Keys == g.link.Keys
  {
  }

  // ----- the loops of deleteNode -----

  // The first loop after i passes: the first i links out of x are gone from the table and from the inLinks lists.
  ghost function OutgoingDone(t: Tables, x: NodeId, i: nat): Tables
    requires x in t.outLinks && i <= |t.outLinks[x]|
  {
    var gone := Elems(t.outLinks[x][..i]);
    Tables(t.link - gone, Prune(t.inLinks, gone), t.outLinks)
  }

  lemma OutgoingStarts(t: Tables, x: NodeId)
    requires x in t.outLinks
    ensures OutgoingDone(t, x, 0) == t
  {
    assert Elems(t.outLinks[x][..0]) == {};
    PruneNothing(t.inLinks);
  }

  lemma OutgoingEnds(t: Tables, x: NodeId)
    requires x in t.outLinks
    ensures var u := OutgoingDone(t, x, |t.outLinks[x]|);
            u.outLinks == t.outLinks && Tables(u.link, u.inLinks, u.outLinks[x := []]) == WithoutOutgoing(t, x)
  {
    assert t.outLinks[x][..|t.outLinks[x]|] == t.outLinks[x];
  }

  // What a pass finds and leaves.
  lemma OutgoingStep(nodes: set<NodeId>, t: Tables, x: NodeId, i: nat)
    requires Consistent(nodes, t) && x in nodes && x in t.outLinks && i < |t.outLinks[x]|
    ensures var l, u := t.outLinks[x][i], OutgoingDone(t, x, i);
            && l in u.link && u.link[l].dest.Some?
            && var n := u.link[l].dest.value;
            && n in u.inLinks && l in u.inLinks[n] && Distinct(u.inLinks[n])
            && OutgoingDone(t, x, i + 1) == Tables(u.link - {l}, Erase(u.inLinks, n, l), u.outLinks)
  {
    var l, gone := t.outLinks[x][i], Elems(t.outLinks[x][..i]);
    NotYetDropped(nodes, t, x, i, l);
    ElemsNext(t.outLinks[x], i);
    hide Consistent, Keep, Elems, Distinct;
    PruneMore(t.inLinks, gone, t.link[l].dest.value, l);
    assert t.link - (gone + {l}) == (t.link - gone) - {l};
  }

  // The same for the second loop.
  ghost function IncomingDone(t: Tables, x: NodeId, i: nat): Tables
    requires x in t.inLinks && i <= |t.inLinks[x]|
  {
    var gone := Elems(t.inLinks[x][..i]);
    Tables(t.link - gone, t.inLinks, Prune(t.outLinks, gone))
  }

  lemma IncomingStarts(t: Tables, x: NodeId)
    requires x in t.inLinks
    ensures IncomingDone(t, x, 0) == t
  {
    assert Elems(t.inLinks[x][..0]) == {};
    PruneNothing(t.outLinks);
  }

  lemma IncomingEnds(t: Tables, x: NodeId)
    requires x in t.inLinks
    ensures var u := IncomingDone(t, x, |t.inLinks[x]|);
            Tables(u.link, u.inLinks[x := []], u.outLinks) == WithoutIncoming(t, x)
  {
    assert t.inLinks[x][..|t.inLinks[x]|] == t.inLinks[x];
  }

  lemma IncomingStep(nodes: set<NodeId>, t: Tables, x: NodeId, i: nat)
    requires Consistent(nodes, t) && x in nodes && x in t.inLinks && i < |t.inLinks[x]|
    ensures var l, u := t.inLinks[x][i], IncomingDone(t, x, i);
            && l in u.link && u.link[l].src.Some?
            && var n := u.link[l].src.value;
            && n in u.outLinks && l in u.outLinks[n] && Distinct(u.outLinks[n])
            && IncomingDone(t, x, i + 1) == Tables(u.link - {l}, u.inLinks, Erase(u.outLinks, n, l))
  {
    var l, gone := t.inLinks[x][i], Elems(t.inLinks[x][..i]);
    NotYetDroppedIn(nodes, t, x, i, l);
    ElemsNext(t.inLinks[x], i);
    hide Consistent, Keep, Elems, Distinct;
    PruneMore(t.outLinks, gone, t.link[l].src.value, l);
    assert t.link - (gone + {l}) == (t.link - gone) - {l};
  }

  // What the first loop of deleteNode finds at its i-th link.
  lemma NotYetDropped(nodes: set<NodeId>, t: Tables, x: NodeId, i: nat, l: LinkId)
    requires Consistent(nodes, t) && x in nodes && x in t.outLinks && i < |t.outLinks[x]| && l == t.outLinks[x][i]
    ensures l in t.link && l !in Elems(t.outLinks[x][..i]) && t.link[l].dest.Some?
    ensures var n, gone := t.link[l].dest.value, Elems(t.outLinks[x][..i]);
            && n in t.inLinks && l in Prune(t.inLinks, gone)[n] && Distinct(Prune(t.inLinks, gone)[n])
            && forall k :: k in t.inLinks && l in t.inLinks[k] ==> k == n
  {
    assert l in t.outLinks[x] && l in Srcs(t.link) && l in Dests(t.link);
    KeepOnce(t.inLinks[t.link[l].dest.value], Elems(t.outLinks[x][..i]));
  }

  lemma ConsistentLists(nodes: set<NodeId>, t: Tables, x: NodeId)
    requires Consistent(nodes, t) && x in nodes
    ensures t.inLinks.Keys == nodes && t.outLinks.Keys == nodes
    ensures Distinct(t.inLinks[x]) && Distinct(t.outLinks[x])
    ensures forall l :: l in t.outLinks[x] ==> l in t.link && t.link[l].src == Some(x)
    ensures forall l :: l in t.inLinks[x] ==> l in t.link && t.link[l].dest == Some(x)
  {
    forall l | l in t.outLinks[x] ensures l in t.link && t.link[l].src == Some(x) { assert l in Srcs(t.link); }
    forall l | l in t.inLinks[x] ensures l in t.link && t.link[l].dest == Some(x) { assert l in Dests(t.link); }
  }

  lemma Listed(nodes: set<NodeId>, t: Tables, l: LinkId)
    requires Consistent(nodes, t) && l in t.link
    ensures t.inLinks.Keys == nodes && t.outLinks.Keys == nodes
    ensures t.link[l].src.Some? <==> t.link[l].dest.Some?
    ensures t.link[l].src.Some? ==> var n := t.link[l].src.value;
              n in t.outLinks && n in nodes && l in t.outLinks[n] && Distinct(t.outLinks[n])
    ensures t.link[l].dest.Some? ==> var n := t.link[l].dest.value;
              n in t.inLinks && n in nodes && l in t.inLinks[n] && Distinct(t.inLinks[n])
  {
    assert l in Srcs(t.link) && l in Dests(t.link);
  }

  lemma FreshLink(nodes: set<NodeId>, t: Tables, l: LinkId, rec: Link)
    requires Consistent(nodes, t) && l !in t.link && rec.src == None && rec.dest == None
    ensures Consistent(nodes, t.(link := t.link[l := rec]))
  {
    hide Side;
    FreshEnds(t.link, l, rec);
    FreshEnd(nodes, t.inLinks, Dests(t.link), l);
    FreshEnd(nodes, t.outLinks, Srcs(t.link), l);
    hide Dests, Srcs;
  }

  lemma FreshEnds(link: map<LinkId, Link>, l: LinkId, rec: Link)
    requires l !in link && rec.src == None && rec.dest == None
    ensures l !in Dests(link) && Dests(link[l := rec]) == Dests(link)[l := None]
    ensures l !in Srcs(link) && Srcs(link[l := rec]) == Srcs(link)[l := None]
    ensures BothOrNone(link) ==> BothOrNone(link[l := rec])
  {
  }

  lemma FreshEnd(nodes: set<NodeId>, m: Lists, ends: Ends, l: LinkId)
    requires Side(nodes, m, ends) && l !in ends
    ensures Side(nodes, m, ends[l := None])
  {
  }

  lemma GrownTables(nodes: set<NodeId>, t: Tables, n: NodeId)
    requires Consistent(nodes, t) && n !in nodes
    ensures Consistent(nodes + {n}, t.(inLinks := t.inLinks[n := []], outLinks := t.outLinks[n := []]))
  {
    GrownSide(nodes, t.inLinks, Dests(t.link), n);
    GrownSide(nodes, t.outLinks, Srcs(t.link), n);
  }

  lemma GrownSide(nodes: set<NodeId>, m: Lists, ends: Ends, n: NodeId)
    requires Side(nodes, m, ends) && n !in nodes
    ensures Side(nodes + {n}, m[n := []], ends)
  {
  }

  lemma InsertedOrder(node: map<NodeId, Node>, node': map<NodeId, Node>, nodes: seq<NodeId>, n: NodeId, id: int, i: nat)
    requires IsInt(id) && SlotFor(node, nodes, id, i) && Key(node', n) == Unsigned(id)
    requires forall x :: x in nodes ==> Key(node', x) == Key(node, x)
    requires forall a, b :: 0 <= a < b < |nodes| ==> Key(node, nodes[a]) <= Key(node, nodes[b])
    ensures var r := nodes[..i] + [n] + nodes[i..];
            forall a, b :: 0 <= a < b < |r| ==> Key(node', r[a]) <= Key(node', r[b])
  {
    var r := nodes[..i] + [n] + nodes[i..];
    assert forall a :: 0 <= a < i ==> r[a] == nodes[a];
    assert forall a :: i < a < |r| ==> r[a] == nodes[a - 1];
  }

  lemma InsertedVector(node: map<NodeId, Node>, nodes: seq<NodeId>, n: NodeId, rec: Node, i: nat)
    requires NodeVector(node, nodes) && n !in node && IsInt(rec.moduleId) && SlotFor(node, nodes, rec.moduleId, i)
    ensures NodeVector(node[n := rec], nodes[..i] + [n] + nodes[i..])
  {
    var r := nodes[..i] + [n] + nodes[i..];
    assert nodes == nodes[..i] + nodes[i..];
    assert forall x :: x in r <==> x in nodes || x == n;
    InsertedOrder(node, node[n := rec], nodes, n, rec.moduleId, i);
    InsertedDistinct(nodes, n, i);
    hide Distinct, Key, SlotFor;
  }

  // A node with a module id hides those with the same id that were there before: looking the id up finds it.
  lemma AddedIsFound(node: map<NodeId, Node>, nodes: seq<NodeId>, n: NodeId, rec: Node, i: nat)
    requires NodeVector(node, nodes) && n !in node && IsInt(rec.moduleId) && i <= |nodes|
    requires forall k :: 0 <= k < i ==> Key(node, nodes[k]) < Unsigned(rec.moduleId)
    ensures var now := nodes[..i] + [n] + nodes[i..];
            (forall x :: x in now ==> x in node[n := rec]) && Scan(node[n := rec], now, rec.moduleId) == Some(n)
  {
    var now, after := nodes[..i] + [n] + nodes[i..], node[n := rec];
    forall x | x in now ensures x in after {}
    forall k | 0 <= k < i ensures after[now[k]].moduleId != rec.moduleId {
      assert now[k] == nodes[k] && nodes[k] in nodes;
    }
    ScanFindsFirst(after, now, rec.moduleId, i);
  }

  lemma InsertedDistinct(nodes: seq<NodeId>, n: NodeId, i: nat)
    requires Distinct(nodes) && n !in nodes && i <= |nodes|
    ensures Distinct(nodes[..i] + [n] + nodes[i..])
  {
    var r := nodes[..i] + [n] + nodes[i..];
    assert forall a :: 0 <= a < i ==> r[a] == nodes[a];
    assert forall a :: i < a < |r| ==> r[a] == nodes[a - 1];
  }

  ghost predicate Started(g: Graph, t: NodeId) {
    && g.WellFormed() && t in g.node
    && Inv(g, t, Start(g, t), []) && AllRelaxed(g, t, Start(g, t), [])
  }

  // s is a state of the weighted search, and the search will end as it would from its start.
  ghost predicate OnCourse(g: Graph, t: NodeId, s: Search, done: seq<NodeId>) {
    && Started(g, t) && Inv(g, t, s, done) && AllRelaxed(g, t, s, done)
    && Run(g, t, s, done) == Run(g, t, Start(g, t), [])
  }

  lemma CourseStarts(g: Graph, t: NodeId)
    requires g.WellFormed() && g.Weighted(t) && t in g.node
    ensures OnCourse(g, t, Start(g, t), [])
  {
    StartInv(g, t);
  }

  lemma CourseContinues(g: Graph, t: NodeId, s: Search, done: seq<NodeId>)
    requires OnCourse(g, t, s, done) && s.queue != []
    ensures g.WellFormed() && Shaped(g, s)
    ensures OnCourse(g, t, Round(g, t, s), done + [s.queue[0]])
    ensures g.node.Keys - Taken(done + [s.queue[0]]) < g.node.Keys - Taken(done)
  {
    RoundInv(g, t, s, done);
  }

  lemma CourseEnds(g: Graph, t: NodeId, s: Search, done: seq<NodeId>)
    requires OnCourse(g, t, s, done) && s.queue == []
    ensures Started(g, t) && s == Run(g, t, Start(g, t), [])
    ensures Solved(g, t, s.dist, s.outPath) && s.dist.Keys == g.node.Keys && s.outPath.Keys == g.node.Keys
  {
    WeightedSearchIsOptimal(g, t, s, done);
  }

  // The same for the breadth-first search, which runs as the weighted search of the unit graph.
  ghost predicate OnUnitCourse(g: Graph, t: NodeId, s: Search, done: seq<NodeId>) {
    g.WellFormed() && Shaped(g, s) && Levelled(s, done) && OnCourse(Unit(g), t, s, done)
  }

  lemma UnitCourseStarts(g: Graph, t: NodeId)
    requires g.WellFormed() && t in g.node
    ensures OnUnitCourse(g, t, Start(g, t), [])
  {
    UnitIsSearchable(g, t);
    CourseStarts(Unit(g), t);
    assert Start(Unit(g), t) == Start(g, t);
  }

  lemma UnitCourseContinues(g: Graph, t: NodeId, s: Search, done: seq<NodeId>)
    requires OnUnitCourse(g, t, s, done) && s.queue != []
    ensures g.WellFormed() && Shaped(g, s)
    ensures OnUnitCourse(g, t, VisitRound(g, s), done + [s.queue[0]])
    ensures g.node.Keys - Taken(done + [s.queue[0]]) < g.node.Keys - Taken(done)
  {
    hide Round, VisitRound, Levelled;
    VisitRoundIsRound(g, t, s, done);
    CourseContinues(Unit(g), t, s, done);
    assert Unit(g).node.Keys == g.node.Keys;
  }

  lemma UnitCourseEnds(g: Graph, t: NodeId, s: Search, done: seq<NodeId>)
    requires OnUnitCourse(g, t, s, done) && s.queue == []
    ensures t in Unit(g).node
    ensures Started(Unit(g), t) && s == Run(Unit(g), t, Start(Unit(g), t), [])
    ensures Solved(Unit(g), t, s.dist, s.outPath) && s.dist.Keys == g.node.Keys && s.outPath.Keys == g.node.Keys
    ensures forall v :: v in g.node ==> v in s.dist && IsHopCount(g, t, v, s.dist[v])
  {
    CourseEnds(Unit(g), t, s, done);
    forall v | v in g.node ensures v in s.dist && IsHopCount(g, t, v, s.dist[v]) {
      assert v in Unit(g).node;
      UnitDistanceIsHopCount(g, t, v, s.dist[v]);
    }
  }

  lemma NotYetDroppedIn(nodes: set<NodeId>, t: Tables, x: NodeId, i: nat, l: LinkId)
    requires Consistent(nodes, t) && x in nodes && x in t.inLinks && i < |t.inLinks[x]| && l == t.inLinks[x][i]
    ensures l in t.link && l !in Elems(t.inLinks[x][..i]) && t.link[l].src.Some?
    ensures var n, gone := t.link[l].src.value, Elems(t.inLinks[x][..i]);
            && n in t.outLinks && l in Prune(t.outLinks, gone)[n] && Distinct(Prune(t.outLinks, gone)[n])
            && forall k :: k in t.outLinks && l in t.outLinks[k] ==> k == n
  {
    assert l in t.inLinks[x] && l in Srcs(t.link) && l in Dests(t.link);
    KeepOnce(t.outLinks[t.link[l].src.value], Elems(t.inLinks[x][..i]));
  }

  lemma HalfDone(nodes: set<NodeId>, t: Tables, x: NodeId)
    requires Consistent(nodes, t) && x in nodes
    ensures x in t.outLinks && Consistent(nodes, WithoutOutgoing(t, x))
  {
    ConsistentLists(nodes, t, x);
    hide Side, Keep, Elems, Prune;
    EndsOfLess(t.link, Elems(t.outLinks[x]));
    ClearSide(nodes, t.outLinks, Srcs(t.link), x);
    DropSide(nodes, t.inLinks, Dests(t.link), Elems(t.outLinks[x]));
  }

  lemma ErasedMembers(nodes: seq<NodeId>, i: nat)
    requires Distinct(nodes) && i < |nodes|
    ensures forall n :: n in nodes[..i] + nodes[i + 1..] <==> n in nodes && n != nodes[i]
  {
    var r, x := nodes[..i] + nodes[i + 1..], nodes[i];
    forall n ensures n in r <==> n in nodes && n != x {
      if n in nodes && n != x {
        var k :| 0 <= k < |nodes| && nodes[k] == n;
        assert r[if k < i then k else k - 1] == n;
      }
    }
  }

  lemma ErasedOrder(node: map<NodeId, Node>, node': map<NodeId, Node>, nodes: seq<NodeId>, i: nat)
    requires Distinct(nodes) && i < |nodes|
    requires forall a, b :: 0 <= a < b < |nodes| ==> Key(node, nodes[a]) <= Key(node, nodes[b])
    requires forall n :: n in nodes && n != nodes[i] ==> Key(node', n) == Key(node, n)
    ensures var r := nodes[..i] + nodes[i + 1..];
            Distinct(r) && forall a, b :: 0 <= a < b < |r| ==> Key(node', r[a]) <= Key(node', r[b])
  {
    var r := nodes[..i] + nodes[i + 1..];
    assert forall a :: 0 <= a < i ==> r[a] == nodes[a];
    assert forall a :: i <= a < |r| ==> r[a] == nodes[a + 1];
  }

  lemma ErasedVector(node: map<NodeId, Node>, nodes: seq<NodeId>, i: nat)
    requires NodeVector(node, nodes) && i < |nodes|
    ensures NodeVector(node - {nodes[i]}, nodes[..i] + nodes[i + 1..])
  {
    ErasedMembers(nodes, i);
    ErasedOrder(node, node - {nodes[i]}, nodes, i);
  }

  lemma BisectionMiss(node: map<NodeId, Node>, nodes: seq<NodeId>, id: int, i: nat)
    requires NodeVector(node, nodes) && IsInt(id) && i <= |nodes|
    requires forall k :: 0 <= k < i ==> Key(node, nodes[k]) < Unsigned(id)
    requires i < |nodes| ==> Unsigned(id) <= Key(node, nodes[i]) && node[nodes[i]].moduleId != id
    ensures Scan(node, nodes, id) == None
  {
    forall k | 0 <= k < |nodes| ensures node[nodes[k]].moduleId != id {
      if i < k { assert Key(node, nodes[i]) <= Key(node, nodes[k]); }
    }
    ScanFindsFirst(node, nodes, id, |nodes|);
  }
}
