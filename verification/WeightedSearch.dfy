/** calculateWeightedSingleShortestPathsTo of src/base/Topology.cc as functions on the state
    that its loops change, with the invariants that make its distances optimal. */
module WeightedSearch {
  import opened Options
  import opened Sequences
  import opened Weights
  import opened TopologyGraph

  // What the loops change: the dist and outPath fields of all nodes, and the list q.
  datatype Search = Search(dist: map<NodeId, Weight>, outPath: Pointers, queue: seq<NodeId>)

  ghost predicate Shaped(g: Graph, s: Search) {
    && s.dist.Keys == g.node.Keys && s.outPath.Keys == g.node.Keys
    && (forall n :: n in s.queue ==> n in g.node)
  }

  function Start(g: Graph, t: NodeId): Search
    requires t in g.node
  {
    Search((map n | n in g.node :: Infinity)[t := ZERO], map n | n in g.node :: None, [t])
  }

  // std::list::remove
  function Without(q: seq<NodeId>, x: NodeId): (r: seq<NodeId>)
    ensures forall y :: y in r <==> y in q && y != x
    ensures |r| <= |q|
  {
    if q == [] then []
    else
      var init, last := q[..|q| - 1], q[|q| - 1];
      assert q == init + [last];
      if last == x then Without(init, x) else Without(init, x) + [last]
  }

  // The position at which the ordered list takes a node at distance d: behind all that are not farther.
  function InsertPos(q: seq<NodeId>, dist: map<NodeId, Weight>, d: Weight): (i: nat)
    requires forall n :: n in q ==> n in dist
    ensures i <= |q|
    ensures forall k :: 0 <= k < i ==> !d.Less(dist[q[k]])
    ensures i < |q| ==> d.Less(dist[q[i]])
  {
    if q == [] || d.Less(dist[q[0]]) then 0 else 1 + InsertPos(q[1..], dist, d)
  }

  // One pass of the inner loop: link l into dest, the node just taken from the list.
  function Relax(g: Graph, t: NodeId, dest: NodeId, l: LinkId, s: Search): (r: Search)
    requires Shaped(g, s) && dest in g.node
    requires g.Attached(l) && g.Dest(l) == dest
    ensures Shaped(g, r)
  {
    var src, newdist := g.Src(l), s.dist[dest].Plus(g.Hop(t, l));
    if g.Usable(l) && newdist.Finite? && newdist.Less(s.dist[src]) then
      var q := if s.dist[src].Finite? then Without(s.queue, src) else s.queue;
      var dist := s.dist[src := newdist];
      var i := InsertPos(q, dist, newdist);
      Search(dist, s.outPath[src := Some(l)], q[..i] + [src] + q[i..])
    else s
  }

  // The inner loop after its first k passes.
  function RelaxFirst(g: Graph, t: NodeId, dest: NodeId, k: nat, s: Search): (r: Search)
    requires g.WellFormed() && Shaped(g, s) && dest in g.node
    requires k <= |g.inLinks[dest]|
    ensures Shaped(g, r)
  {
    if k == 0 then s else Relax(g, t, dest, g.inLinks[dest][k - 1], RelaxFirst(g, t, dest, k - 1, s))
  }

  // ----- invariants -----

  ghost predicate Ordered(dist: map<NodeId, Weight>, q: seq<NodeId>) {
    && (forall i :: 0 <= i < |q| ==> q[i] in dist)
    && (forall i, j :: 0 <= i < j < |q| ==> dist[q[i]].AtMost(dist[q[j]]))
  }

  // The nodes taken from the list so far, followed by the list, are the reached nodes, each
  // once, by distance. So the list is sorted, a node is taken at most once, and a reached
  // node that can still improve is in the list.
  ghost predicate Frontier(dist: map<NodeId, Weight>, done: seq<NodeId>, queue: seq<NodeId>) {
    && Distinct(done + queue)
    && Ordered(dist, done + queue)
    && (forall n :: n in dist ==> (dist[n].Finite? <==> n in done || n in queue))
  }

  // The outPath pointer of n is a usable link to a taken node, and accounts for n's distance.
  ghost predicate Parented(g: Graph, t: NodeId, s: Search, done: seq<NodeId>, n: NodeId)
    requires Shaped(g, s) && n in g.node
  {
    && s.outPath[n].Some?
    && var l := s.outPath[n].value;
    && g.Attached(l) && g.Usable(l) && g.Src(l) == n && g.Dest(l) in done
    && s.dist[n] == g.Hop(t, l).Plus(s.dist[g.Dest(l)])
  }

  ghost predicate Tree(g: Graph, t: NodeId, s: Search, done: seq<NodeId>)
    requires Shaped(g, s)
  {
    && t in g.node && s.dist[t] == ZERO && s.outPath[t] == None
    && (forall n :: n in g.node && s.dist[n].Infinity? ==> s.outPath[n] == None)
    && (forall n :: n in g.node && n != t && s.dist[n].Finite? ==> Parented(g, t, s, done, n))
    && (forall j :: 0 <= j < |done| && done[j] in g.node && done[j] != t ==> Parented(g, t, s, done[..j], done[j]))
  }

  ghost predicate Inv(g: Graph, t: NodeId, s: Search, done: seq<NodeId>) {
    && g.WellFormed() && Shaped(g, s) && g.Weighted(t) && Frontier(s.dist, done, s.queue) && Tree(g, t, s, done)
    && if done == [] then s.queue == [t] else done[0] == t
  }

  // The first k links into u offer no shorter way.
  ghost predicate Relaxed(g: Graph, t: NodeId, s: Search, u: NodeId, k: nat)
    requires g.WellFormed() && Shaped(g, s) && u in g.node && k <= |g.inLinks[u]|
  {
    forall i :: 0 <= i < k && g.Usable(g.inLinks[u][i]) ==>
      s.dist[g.Src(g.inLinks[u][i])].AtMost(g.Hop(t, g.inLinks[u][i]).Plus(s.dist[u]))
  }

  // All links into the first m taken nodes are relaxed.
  ghost predicate RelaxedDone(g: Graph, t: NodeId, s: Search, done: seq<NodeId>, m: nat)
    requires g.WellFormed() && Shaped(g, s) && m <= |done|
  {
    forall j :: 0 <= j < m && done[j] in g.node ==> Relaxed(g, t, s, done[j], |g.inLinks[done[j]]|)
  }

  ghost predicate AllRelaxed(g: Graph, t: NodeId, s: Search, done: seq<NodeId>)
    requires g.WellFormed() && Shaped(g, s)
  {
    RelaxedDone(g, t, s, done, |done|)
  }

  // ----- one pass of the inner loop keeps the invariants -----

  lemma {:induction false} WithoutKeepsOrder(dist: map<NodeId, Weight>, q: seq<NodeId>, x: NodeId)
    requires Ordered(dist, q) && Distinct(q)
    ensures Ordered(dist, Without(q, x)) && Distinct(Without(q, x))
  {
    if q != [] {
      var init := q[..|q| - 1];
      assert q == init + [q[|q| - 1]];
      WithoutKeepsOrder(dist, init, x);
      var r := Without(init, x);
      forall i | 0 <= i < |r| ensures r[i] in init {}
    }
  }

  // Whatever is nearer than the last taken node is not farther than any node in the list.
  lemma TakenAreNearer(dist: map<NodeId, Weight>, done: seq<NodeId>, queue: seq<NodeId>, n: NodeId)
    requires Frontier(dist, done, queue) && n in done
    ensures n in dist && done[|done| - 1] in dist && dist[n].AtMost(dist[done[|done| - 1]])
  {
    var all, m := done + queue, |done| - 1;
    var j :| 0 <= j < |done| && done[j] == n;
    assert all[j] == n && all[m] == done[m];
    if j != m { assert dist[all[j]].AtMost(dist[all[m]]); }
  }

  // A link into the last taken node can only improve a node that was not taken.
  lemma ImprovedIsNotTaken(g: Graph, t: NodeId, s: Search, done: seq<NodeId>, l: LinkId)
    requires Frontier(s.dist, done, s.queue) && g.Weighted(t) && done != []
    requires g.Attached(l) && g.Dest(l) == done[|done| - 1] && g.Dest(l) in s.dist && g.Src(l) in s.dist
    requires g.Usable(l) && g.Open(t, g.Dest(l))
    requires s.dist[g.Dest(l)].Plus(g.Hop(t, l)).Less(s.dist[g.Src(l)])
    ensures g.Src(l) !in done
    ensures forall n :: n in done ==> n in s.dist && s.dist[n].AtMost(s.dist[g.Dest(l)].Plus(g.Hop(t, l)))
  {
    forall n | n in done
      ensures n in s.dist && s.dist[n].AtMost(s.dist[g.Dest(l)])
    {
      TakenAreNearer(s.dist, done, s.queue, n);
    }
  }

  // Inserting behind everything that is not farther keeps a list ordered and free of duplicates.
  lemma InsertKeepsOrder(dist: map<NodeId, Weight>, a: seq<NodeId>, q: seq<NodeId>, x: NodeId, d: Weight)
    requires Ordered(dist, a + q) && Distinct(a + q) && x !in a && x !in q && d.Finite?
    requires forall n :: n in q ==> n in dist
    requires forall n :: n in a ==> n in dist && dist[n].AtMost(d)
    ensures var i := InsertPos(q, dist[x := d], d);
            Ordered(dist[x := d], a + (q[..i] + [x] + q[i..])) && Distinct(a + (q[..i] + [x] + q[i..]))
  {
    var i := InsertPos(q, dist[x := d], d);
    var was, p := a + q, |a| + i;
    assert a + (q[..i] + [x] + q[i..]) == was[..p] + [x] + was[p..];
    forall k | 0 <= k < p ensures dist[was[k]].AtMost(d) {
      if k < |a| { assert was[k] in a; } else { assert was[k] == q[k - |a|]; }
    }
    if p < |was| { assert was[p] == q[i]; }
    hide InsertPos;
    InsertAt(dist, was, x, d, p);
  }

  lemma InsertAt(dist: map<NodeId, Weight>, was: seq<NodeId>, x: NodeId, d: Weight, p: nat)
    requires Ordered(dist, was) && Distinct(was) && x !in was && p <= |was|
    requires forall k :: 0 <= k < p ==> dist[was[k]].AtMost(d)
    requires p < |was| ==> d.AtMost(dist[was[p]])
    ensures Ordered(dist[x := d], was[..p] + [x] + was[p..]) && Distinct(was[..p] + [x] + was[p..])
  {
    var now := was[..p] + [x] + was[p..];
    assert forall k :: 0 <= k < p ==> now[k] == was[k];
    assert forall k :: p < k < |now| ==> now[k] == was[k - 1];
    forall k | 0 <= k < |was| ensures was[k] != x {}
    forall k | p <= k < |was| ensures d.AtMost(dist[was[k]]) {
      if p < k { assert dist[was[p]].AtMost(dist[was[k]]); }
    }
  }

  lemma OrderedMembers(dist: map<NodeId, Weight>, a: seq<NodeId>, q: seq<NodeId>)
    requires Ordered(dist, a + q)
    ensures forall n :: n in q ==> n in dist
  {
    forall n | n in q ensures n in dist { assert n in a + q; }
  }

  // Moving x, which was not taken, to a new distance that is finite and not less than any taken one.
  lemma MoveKeepsFrontier(dist: map<NodeId, Weight>, done: seq<NodeId>, queue: seq<NodeId>, x: NodeId, d: Weight)
    requires Frontier(dist, done, queue) && x in dist && x !in done && d.Finite?
    requires forall n :: n in done ==> n in dist && dist[n].AtMost(d)
    ensures var q := if dist[x].Finite? then Without(queue, x) else queue;
            && (forall n :: n in q ==> n in dist)
            && var i := InsertPos(q, dist[x := d], d);
            Frontier(dist[x := d], done, q[..i] + [x] + q[i..])
  {
    hide Ordered, Distinct, InsertPos;
    var q := Without(queue, x);
    if dist[x].Infinity? { NothingToRemove(queue, x); }
    WithoutFromAll(done, queue, x);
    WithoutKeepsOrder(dist, done + queue, x);
    OrderedMembers(dist, done, q);
    InsertKeepsOrder(dist, done, q, x, d);
    var i := InsertPos(q, dist[x := d], d);
    InsertMembers(q, i, x);
  }

  lemma InsertMembers(q: seq<NodeId>, i: nat, x: NodeId)
    requires i <= |q|
    ensures forall n :: n in q[..i] + [x] + q[i..] <==> n in q || n == x
  {
    assert q == q[..i] + q[i..];
  }

  lemma RelaxKeepsFrontier(g: Graph, t: NodeId, s: Search, done: seq<NodeId>, l: LinkId)
    requires Shaped(g, s) && g.Weighted(t) && Frontier(s.dist, done, s.queue) && done != []
    requires g.Attached(l) && g.Dest(l) == done[|done| - 1]
    requires g.Open(t, g.Dest(l))
    ensures var r := Relax(g, t, g.Dest(l), l, s); Frontier(r.dist, done, r.queue)
  {
    var r := Relax(g, t, g.Dest(l), l, s);
    if r != s {
      ImprovedIsNotTaken(g, t, s, done, l);
      MoveKeepsFrontier(s.dist, done, s.queue, g.Src(l), s.dist[g.Dest(l)].Plus(g.Hop(t, l)));
    }
  }

  lemma {:induction false} WithoutFromAll(a: seq<NodeId>, q: seq<NodeId>, x: NodeId)
    requires x !in a
    ensures Without(a + q, x) == a + Without(q, x)
  {
    if q == [] {
      assert a + q == a;
      NothingToRemove(a, x);
    } else {
      var init := q[..|q| - 1];
      assert a + q == (a + init) + [q[|q| - 1]];
      assert (a + q)[..|a + q| - 1] == a + init;
      WithoutFromAll(a, init, x);
    }
  }

  lemma {:induction false} NothingToRemove(a: seq<NodeId>, x: NodeId)
    requires x !in a
    ensures Without(a, x) == a
  {
    if a != [] {
      assert a == a[..|a| - 1] + [a[|a| - 1]];
      NothingToRemove(a[..|a| - 1], x);
    }
  }

  lemma RelaxKeepsTree(g: Graph, t: NodeId, s: Search, done: seq<NodeId>, l: LinkId)
    requires Shaped(g, s) && g.Weighted(t) && Frontier(s.dist, done, s.queue) && Tree(g, t, s, done) && t in done
    requires g.Attached(l) && g.Dest(l) == done[|done| - 1]
    requires g.Open(t, g.Dest(l))
    ensures Tree(g, t, Relax(g, t, g.Dest(l), l, s), done)
  {
    var dest, src := g.Dest(l), g.Src(l);
    var r := Relax(g, t, dest, l, s);
    if r != s {
      ImprovedIsNotTaken(g, t, s, done, l);
      TreeGrows(g, t, s, r, done, l);
    }
  }

  // Re-pointing a node that was not taken, over a usable link into a taken node.
  lemma TreeGrows(g: Graph, t: NodeId, s: Search, r: Search, done: seq<NodeId>, l: LinkId)
    requires Shaped(g, s) && Shaped(g, r) && g.Attached(l) && g.Usable(l)
    requires Tree(g, t, s, done) && g.Src(l) !in done && g.Dest(l) in done && g.Src(l) != t
    requires r.outPath == s.outPath[g.Src(l) := Some(l)]
    requires s.dist[g.Dest(l)].Plus(g.Hop(t, l)).Finite?
    requires r.dist == s.dist[g.Src(l) := s.dist[g.Dest(l)].Plus(g.Hop(t, l))]
    ensures Tree(g, t, r, done)
  {
    var src := g.Src(l);
    forall n | n in g.node && n != t && r.dist[n].Finite? ensures Parented(g, t, r, done, n) {
      if n != src { assert Parented(g, t, s, done, n); }
    }
    forall j | 0 <= j < |done| && done[j] in g.node && done[j] != t
      ensures Parented(g, t, r, done[..j], done[j])
    {
      assert Parented(g, t, s, done[..j], done[j]);
      assert done[j] in done;
      assert forall n :: n in done[..j] ==> n in done;
    }
  }

  lemma RelaxKeepsInv(g: Graph, t: NodeId, s: Search, done: seq<NodeId>, l: LinkId)
    requires Inv(g, t, s, done) && done != []
    requires g.Attached(l) && g.Dest(l) == done[|done| - 1]
    ensures Inv(g, t, Relax(g, t, g.Dest(l), l, s), done)
  {
    TakenIsOpen(g, t, s, done);
    RelaxKeepsFrontier(g, t, s, done, l);
    RelaxKeepsTree(g, t, s, done, l);
  }

  // Only the target and enabled nodes are ever taken from the list.
  lemma TakenIsOpen(g: Graph, t: NodeId, s: Search, done: seq<NodeId>)
    requires Inv(g, t, s, done) && done != []
    ensures done[|done| - 1] in g.node && g.Open(t, done[|done| - 1])
  {
    var n := done[|done| - 1];
    assert n == (done + s.queue)[|done| - 1] && n in s.dist;
    if n != t {
      assert Parented(g, t, s, done[..|done| - 1], n);
    }
  }

  // Distances never grow, those of taken nodes stay, and the pass relaxes its own link.
  ghost predicate Improves(g: Graph, t: NodeId, s: Search, r: Search, done: seq<NodeId>, l: LinkId) {
    && Shaped(g, s) && Shaped(g, r) && g.Attached(l)
    && (forall n :: n in done && n in g.node ==> r.dist[n] == s.dist[n])
    && (forall n :: n in g.node ==> r.dist[n].AtMost(s.dist[n]))
    && (g.Usable(l) ==> r.dist[g.Src(l)].AtMost(g.Hop(t, l).Plus(s.dist[g.Dest(l)])))
  }

  lemma RelaxImproves(g: Graph, t: NodeId, s: Search, done: seq<NodeId>, l: LinkId)
    requires Shaped(g, s) && g.Weighted(t) && Frontier(s.dist, done, s.queue) && done != []
    requires g.Attached(l) && g.Dest(l) == done[|done| - 1]
    requires g.Open(t, g.Dest(l))
    ensures Improves(g, t, s, Relax(g, t, g.Dest(l), l, s), done, l)
  {
    var r := Relax(g, t, g.Dest(l), l, s);
    if r != s {
      ImprovedIsNotTaken(g, t, s, done, l);
    }
  }

  lemma StaysRelaxed(g: Graph, t: NodeId, s: Search, r: Search, done: seq<NodeId>, l: LinkId, u: NodeId, k: nat)
    requires g.WellFormed() && Improves(g, t, s, r, done, l)
    requires u in done && u in g.node && k <= |g.inLinks[u]| && Relaxed(g, t, s, u, k)
    ensures Relaxed(g, t, r, u, k)
    ensures k < |g.inLinks[u]| && g.inLinks[u][k] == l ==> Relaxed(g, t, r, u, k + 1)
  {
    forall i | 0 <= i < k && g.Usable(g.inLinks[u][i])
      ensures r.dist[g.Src(g.inLinks[u][i])].AtMost(g.Hop(t, g.inLinks[u][i]).Plus(r.dist[u]))
    {
      var n := g.Src(g.inLinks[u][i]);
      assert r.dist[n].AtMost(s.dist[n]);
    }
  }

  lemma DoneStaysRelaxed(g: Graph, t: NodeId, s: Search, r: Search, done: seq<NodeId>, l: LinkId, m: nat)
    requires g.WellFormed() && Improves(g, t, s, r, done, l) && m <= |done| && RelaxedDone(g, t, s, done, m)
    ensures RelaxedDone(g, t, r, done, m)
  {
    forall j | 0 <= j < m && done[j] in g.node
      ensures Relaxed(g, t, r, done[j], |g.inLinks[done[j]]|)
    {
      StaysRelaxed(g, t, s, r, done, l, done[j], |g.inLinks[done[j]]|);
    }
  }

  // The invariant inside the inner loop, after k passes over the links of the last taken node.
  ghost predicate InnerInv(g: Graph, t: NodeId, s: Search, done: seq<NodeId>, k: nat) {
    && done != [] && Inv(g, t, s, done)
    && var dest := done[|done| - 1];
    && dest in g.node && k <= |g.inLinks[dest]|
    && RelaxedDone(g, t, s, done, |done| - 1) && Relaxed(g, t, s, dest, k)
  }

  lemma RelaxKeepsInnerInv(g: Graph, t: NodeId, s: Search, done: seq<NodeId>, k: nat)
    requires InnerInv(g, t, s, done, k) && k < |g.inLinks[done[|done| - 1]]|
    ensures var dest := done[|done| - 1]; InnerInv(g, t, Relax(g, t, dest, g.inLinks[dest][k], s), done, k + 1)
  {
    var dest := done[|done| - 1];
    var l := g.inLinks[dest][k];
    var r := Relax(g, t, dest, l, s);
    TakenIsOpen(g, t, s, done);
    RelaxKeepsInv(g, t, s, done, l);
    RelaxImproves(g, t, s, done, l);
    DoneStaysRelaxed(g, t, s, r, done, l, |done| - 1);
    StaysRelaxed(g, t, s, r, done, l, dest, k);
  }

  lemma {:induction false} RelaxFirstKeeps(g: Graph, t: NodeId, s: Search, done: seq<NodeId>, k: nat)
    requires InnerInv(g, t, s, done, 0) && k <= |g.inLinks[done[|done| - 1]]|
    ensures InnerInv(g, t, RelaxFirst(g, t, done[|done| - 1], k, s), done, k)
  {
    hide Relax, Tree, Frontier, RelaxedDone, Relaxed;
    if k > 0 {
      RelaxFirstKeeps(g, t, s, done, k - 1);
      RelaxKeepsInnerInv(g, t, RelaxFirst(g, t, done[|done| - 1], k - 1, s), done, k - 1);
    }
  }

  // ----- the outer loop -----

  lemma StartInv(g: Graph, t: NodeId)
    requires g.WellFormed() && g.Weighted(t) && t in g.node
    ensures Inv(g, t, Start(g, t), [])
    ensures AllRelaxed(g, t, Start(g, t), [])
  {
    assert [] + Start(g, t).queue == [t];
  }

  lemma PopKeepsTree(g: Graph, t: NodeId, s: Search, done: seq<NodeId>, n: NodeId)
    requires Shaped(g, s) && Tree(g, t, s, done) && n in g.node && s.dist[n].Finite?
    ensures Tree(g, t, s, done + [n])
  {
    var done' := done + [n];
    forall x | x in g.node && x != t && s.dist[x].Finite? ensures Parented(g, t, s, done', x) {
      assert Parented(g, t, s, done, x);
    }
    forall j | 0 <= j < |done'| && done'[j] in g.node && done'[j] != t
      ensures Parented(g, t, s, done'[..j], done'[j])
    {
      if j < |done| {
        assert done'[..j] == done[..j];
        assert Parented(g, t, s, done[..j], done[j]);
      } else {
        assert done'[..j] == done;
      }
    }
  }

  lemma SameTree(g: Graph, t: NodeId, s: Search, s': Search, done: seq<NodeId>)
    requires Shaped(g, s) && Shaped(g, s') && s'.dist == s.dist && s'.outPath == s.outPath
    requires Tree(g, t, s, done)
    ensures Tree(g, t, s', done)
  {
    forall x | x in g.node && x != t && s.dist[x].Finite? ensures Parented(g, t, s', done, x) {
      assert Parented(g, t, s, done, x);
    }
    forall j | 0 <= j < |done| && done[j] in g.node && done[j] != t
      ensures Parented(g, t, s', done[..j], done[j])
    {
      assert Parented(g, t, s, done[..j], done[j]);
    }
  }

  // Taking the front of the list.
  lemma PopInv(g: Graph, t: NodeId, s: Search, done: seq<NodeId>)
    requires Inv(g, t, s, done) && AllRelaxed(g, t, s, done) && s.queue != []
    ensures InnerInv(g, t, s.(queue := s.queue[1..]), done + [s.queue[0]], 0)
    ensures s.queue[0] !in done
  {
    var n, s' := s.queue[0], s.(queue := s.queue[1..]);
    var done' := done + [n];
    assert done' + s'.queue == done + s.queue;
    assert (done + s.queue)[|done|] == n;
    forall j | 0 <= j < |done| ensures done[j] != n { assert (done + s.queue)[j] == done[j]; }
    PopKeepsTree(g, t, s, done, n);
    SameTree(g, t, s, s', done');
    forall j | 0 <= j < |done| && done'[j] in g.node
      ensures Relaxed(g, t, s', done'[j], |g.inLinks[done'[j]]|)
    {
      assert Relaxed(g, t, s, done[j], |g.inLinks[done[j]]|);
    }
  }

  function Taken(done: seq<NodeId>): set<NodeId> {
    set n | n in done
  }

  // The body of the outer loop: take the front node and pass over all its incoming links.
  function Round(g: Graph, t: NodeId, s: Search): (r: Search)
    requires g.WellFormed() && Shaped(g, s) && s.queue != []
    ensures Shaped(g, r)
  {
    var dest := s.queue[0];
    RelaxFirst(g, t, dest, |g.inLinks[dest]|, s.(queue := s.queue[1..]))
  }

  lemma RoundInv(g: Graph, t: NodeId, s: Search, done: seq<NodeId>)
    requires Inv(g, t, s, done) && AllRelaxed(g, t, s, done) && s.queue != []
    ensures Inv(g, t, Round(g, t, s), done + [s.queue[0]])
    ensures AllRelaxed(g, t, Round(g, t, s), done + [s.queue[0]])
    ensures g.node.Keys - Taken(done + [s.queue[0]]) < g.node.Keys - Taken(done)
  {
    hide Relaxed, RelaxedDone, AllRelaxed, Tree, RelaxFirst;
    var dest := s.queue[0];
    var done' := done + [dest];
    PopInv(g, t, s, done);
    var k := |g.inLinks[dest]|;
    RelaxFirstKeeps(g, t, s.(queue := s.queue[1..]), done', k);
    LastRelaxed(g, t, Round(g, t, s), done', k);
    assert Taken(done') == Taken(done) + {dest};
    assert dest in g.node.Keys - Taken(done);
  }

  lemma LastRelaxed(g: Graph, t: NodeId, s: Search, done: seq<NodeId>, k: nat)
    requires InnerInv(g, t, s, done, k) && k == |g.inLinks[done[|done| - 1]]|
    ensures AllRelaxed(g, t, s, done)
  {
    forall j | 0 <= j < |done| && done[j] in g.node
      ensures Relaxed(g, t, s, done[j], |g.inLinks[done[j]]|)
    {
      if j < |done| - 1 {
        assert RelaxedDone(g, t, s, done, |done| - 1);
      }
    }
  }

  // The loop run to its end. It ends because no node is taken twice.
  ghost function Run(g: Graph, t: NodeId, s: Search, done: seq<NodeId>): (r: Search)
    requires Inv(g, t, s, done) && AllRelaxed(g, t, s, done)
    ensures r.queue == [] && Shaped(g, r)
    decreases g.node.Keys - Taken(done)
  {
    if s.queue == [] then s
    else
      RoundInv(g, t, s, done);
      Run(g, t, Round(g, t, s), done + [s.queue[0]])
  }

  lemma {:induction false} RunInv(g: Graph, t: NodeId, s: Search, done: seq<NodeId>) returns (done': seq<NodeId>)
    requires Inv(g, t, s, done) && AllRelaxed(g, t, s, done)
    ensures Inv(g, t, Run(g, t, s, done), done') && AllRelaxed(g, t, Run(g, t, s, done), done')
    decreases g.node.Keys - Taken(done)
  {
    if s.queue == [] {
      done' := done;
    } else {
      RoundInv(g, t, s, done);
      done' := RunInv(g, t, Round(g, t, s), done + [s.queue[0]]);
    }
  }

  // ----- optimality -----

  // No usable link offers a shorter way: what the empty list certifies.
  ghost predicate Certified(g: Graph, t: NodeId, dist: map<NodeId, Weight>) {
    && dist.Keys == g.node.Keys && t in dist && dist[t] == ZERO
    && forall l :: g.Attached(l) && g.Usable(l) ==> dist[g.Src(l)].AtMost(g.Hop(t, l).Plus(dist[g.Dest(l)]))
  }

  lemma EmptyListCertifies(g: Graph, t: NodeId, s: Search, done: seq<NodeId>)
    requires Inv(g, t, s, done) && AllRelaxed(g, t, s, done) && s.queue == []
    ensures Certified(g, t, s.dist)
  {
    forall l | g.Attached(l) && g.Usable(l)
      ensures s.dist[g.Src(l)].AtMost(g.Hop(t, l).Plus(s.dist[g.Dest(l)]))
    {
      var u := g.Dest(l);
      if s.dist[u].Finite? {
        var j :| 0 <= j < |done| && done[j] == u;
        assert Relaxed(g, t, s, done[j], |g.inLinks[done[j]]|);
        var i :| 0 <= i < |g.inLinks[u]| && g.inLinks[u][i] == l;
      }
    }
  }

  lemma {:induction false} NoWalkIsShorter(g: Graph, t: NodeId, dist: map<NodeId, Weight>, v: NodeId, p: seq<LinkId>)
    requires Certified(g, t, dist) && v in g.node && g.Walk(t, v, p)
    ensures dist[v].AtMost(g.Cost(t, v, p))
    decreases p
  {
    if p != [] {
      NoWalkIsShorter(g, t, dist, g.Dest(p[0]), p[1..]);
    }
  }

  lemma {:induction false} TakenNodeHasItsWalk(g: Graph, t: NodeId, s: Search, done: seq<NodeId>, j: nat)
      returns (p: seq<LinkId>)
    requires Inv(g, t, s, done) && j < |done|
    ensures done[j] in s.dist && g.WalkOfCost(t, done[j], p, s.dist[done[j]])
    ensures Follows(g, t, s.outPath, done[j], p)
  {
    var v := done[j];
    assert v == (done + s.queue)[j] && v in s.dist;
    if v == t {
      p := [];
    } else {
      assert Parented(g, t, s, done[..j], v);
      var l := s.outPath[v].value;
      var i :| 0 <= i < j && done[i] == g.Dest(l);
      var rest := TakenNodeHasItsWalk(g, t, s, done, i);
      p := [l] + rest;
      assert p[1..] == rest;
    }
  }

  // What the search promises of its results.
  ghost predicate Solved(g: Graph, t: NodeId, dist: map<NodeId, Weight>, next: Pointers) {
    && dist.Keys == g.node.Keys && next.Keys == g.node.Keys
    && (forall v :: v in g.node ==> g.IsDistance(t, v, dist[v]))
    && (forall v :: v in g.node && dist[v].Infinity? ==> next[v] == None)
    && (forall v :: v in g.node && dist[v].Finite? ==>
          exists p :: Follows(g, t, next, v, p) && g.WalkOfCost(t, v, p, dist[v]))
  }

  lemma WeightedSearchIsOptimal(g: Graph, t: NodeId, s: Search, done: seq<NodeId>)
    requires Inv(g, t, s, done) && AllRelaxed(g, t, s, done)
    ensures Solved(g, t, Run(g, t, s, done).dist, Run(g, t, s, done).outPath)
  {
    var done' := RunInv(g, t, s, done);
    var r := Run(g, t, s, done);
    EmptyListCertifies(g, t, r, done');
    forall v | v in g.node
      ensures g.IsDistance(t, v, r.dist[v])
      ensures r.dist[v].Finite? ==> exists p :: Follows(g, t, r.outPath, v, p) && g.WalkOfCost(t, v, p, r.dist[v])
    {
      forall p | g.Walk(t, v, p) ensures r.dist[v].AtMost(g.Cost(t, v, p)) {
        NoWalkIsShorter(g, t, r.dist, v, p);
      }
      if r.dist[v].Finite? {
        var j :| 0 <= j < |done'| && done'[j] == v;
        var p := TakenNodeHasItsWalk(g, t, r, done', j);
      }
    }
  }
}
