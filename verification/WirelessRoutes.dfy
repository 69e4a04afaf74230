/** Minimum-hop routes over a proximity graph (src/util/WirelessNumHops.cc): paths, the
    certificate of optimality, and the search with random tie-breaking. */
module WirelessRoutes {

  // A link cache: each undirected link is stored as one pair.
  type Links = set<(nat, nat)>

  predicate Adjacent(links: Links, a: nat, b: nat) {
    (a, b) in links || (b, a) in links
  }

  // The last node of a route that starts at root.
  function Last(root: nat, p: seq<nat>): nat {
    if p == [] then root else p[|p| - 1]
  }

  // p follows links from root; like the routes of the code it leaves out the root itself.
  ghost predicate IsRoute(links: Links, root: nat, p: seq<nat>) {
    p == [] || (IsRoute(links, root, p[..|p| - 1]) && Adjacent(links, Last(root, p[..|p| - 1]), p[|p| - 1]))
  }

  ghost predicate RouteTo(links: Links, root: nat, v: nat, p: seq<nat>) {
    IsRoute(links, root, p) && Last(root, p) == v
  }

  ghost predicate MinHopRoute(links: Links, root: nat, v: nat, p: seq<nat>) {
    RouteTo(links, root, v, p) && forall q :: RouteTo(links, root, v, q) ==> |p| <= |q|
  }

  ghost predicate Reachable(links: Links, root: nat, v: nat) {
    exists p :: RouteTo(links, root, v, p)
  }

  // The entry of a node in routeMap.
  datatype State = State(cost: nat, prev: nat, perm: bool)
  type RouteMap = map<nat, State>

  // Node v points to a neighbour that is one hop nearer.
  ghost predicate LinkedAt(links: Links, r: RouteMap, v: nat) {
    && v in r && r[v].prev in r
    && Adjacent(links, r[v].prev, v) && r[v].cost == r[r[v].prev].cost + 1
  }

  ghost predicate Linked(links: Links, root: nat, r: RouteMap) {
    && root in r && r[root].cost == 0
    && (forall v {:trigger LinkedAt(links, r, v)} :: v in r && v != root ==> LinkedAt(links, r, v))
  }

  // The neighbours of u are known, and at most one hop farther.
  ghost predicate Explored(links: Links, r: RouteMap, u: nat)
    requires u in r
  {
    forall w :: Adjacent(links, u, w) ==> w in r && r[w].cost <= r[u].cost + 1
  }

  ghost predicate Solved(links: Links, root: nat, r: RouteMap) {
    Linked(links, root, r) && forall u :: u in r ==> Explored(links, r, u)
  }

  lemma {:induction false} NoRouteIsShorter(links: Links, root: nat, r: RouteMap, q: seq<nat>)
    requires Solved(links, root, r) && IsRoute(links, root, q)
    ensures Last(root, q) in r && r[Last(root, q)].cost <= |q|
  {
    if q != [] {
      NoRouteIsShorter(links, root, r, q[..|q| - 1]);
      var u := Last(root, q[..|q| - 1]);
      assert Explored(links, r, u);
    }
  }

  // What getRouteCost returns by following the prev entries: a route of exactly the stored cost.
  function Follow(root: nat, r: RouteMap, v: nat, cost: nat): seq<nat>
    requires v in r
    decreases cost
  {
    if v == root || cost == 0 || r[v].prev !in r then []
    else Follow(root, r, r[v].prev, cost - 1) + [v]
  }

  lemma FollowRoot(links: Links, root: nat, r: RouteMap)
    requires root in r
    ensures Follow(root, r, root, r[root].cost) == [] && RouteTo(links, root, root, [])
  {
  }

  lemma FollowStep(links: Links, root: nat, r: RouteMap, v: nat)
    requires Linked(links, root, r) && v in r && v != root
    ensures r[v].prev in r && r[r[v].prev].cost < r[v].cost && Adjacent(links, r[v].prev, v)
    ensures Follow(root, r, v, r[v].cost) == Follow(root, r, r[v].prev, r[r[v].prev].cost) + [v]
    ensures r[v].cost == r[r[v].prev].cost + 1
  {
    assert LinkedAt(links, r, v);
  }

  lemma ExtendRoute(links: Links, root: nat, p: seq<nat>, v: nat)
    requires IsRoute(links, root, p) && Adjacent(links, Last(root, p), v)
    ensures RouteTo(links, root, v, p + [v])
  {
    assert (p + [v])[..|p + [v]| - 1] == p;
  }

  lemma {:induction false} FollowIsRoute(links: Links, root: nat, r: RouteMap, v: nat)
    requires Linked(links, root, r) && v in r
    ensures RouteTo(links, root, v, Follow(root, r, v, r[v].cost))
    ensures |Follow(root, r, v, r[v].cost)| == r[v].cost
    decreases r[v].cost
  {
    hide IsRoute, Follow;
    if v == root {
      FollowRoot(links, root, r);
    } else {
      var u := r[v].prev;
      FollowStep(links, root, r, v);
      FollowIsRoute(links, root, r, u);
      ExtendRoute(links, root, Follow(root, r, u, r[u].cost), v);
    }
  }

  lemma FollowIsMinHop(links: Links, root: nat, r: RouteMap, v: nat)
    requires Solved(links, root, r) && v in r
    ensures MinHopRoute(links, root, v, Follow(root, r, v, r[v].cost))
  {
    FollowIsRoute(links, root, r, v);
    forall q | RouteTo(links, root, v, q) ensures r[v].cost <= |q| { NoRouteIsShorter(links, root, r, q); }
  }

  lemma AbsentIsUnreachable(links: Links, root: nat, r: RouteMap, v: nat)
    requires Solved(links, root, r) && v !in r
    ensures !Reachable(links, root, v)
  {
    forall q | RouteTo(links, root, v, q) ensures false { NoRouteIsShorter(links, root, r, q); }
  }

  // ----- the search -----

  // linkArray lists the neighbours of each node that has any.
  ghost predicate Lists(links: Links, arr: map<nat, seq<nat>>) {
    && (forall a, b :: Adjacent(links, a, b) <==> a in arr && b in arr[a])
    && (forall a, b :: a in arr && b in arr[a] ==> b in arr)
  }

  // heap holds the tentative nodes; level is the cost of the node taken last. Tentative nodes
  // are on that level or the next, so no node is ever found a second, shorter way.
  ghost predicate NodeOk(links: Links, root: nat, r: RouteMap, heap: set<nat>, level: nat, v: nat) {
    && (v in heap <==> v in r && !r[v].perm)
    && (v in r && r[v].perm ==> r[v].cost <= level)
    && (v in heap ==> level <= r[v].cost <= level + 1)
    && (v in r && v != root ==>
          var u := r[v].prev; u in r && r[u].perm && Adjacent(links, u, v) && r[v].cost == r[u].cost + 1)
  }

  ghost predicate Searching(links: Links, root: nat, r: RouteMap, heap: set<nat>, level: nat) {
    root in r && r[root].cost == 0 && forall v: nat :: NodeOk(links, root, r, heap, level, v)
  }

  ghost predicate ExploredBut(links: Links, r: RouteMap, u: nat) {
    forall v :: v in r && r[v].perm && v != u ==> Explored(links, r, v)
  }

  // The first k neighbours of u are known.
  ghost predicate ExploredTo(arr: map<nat, seq<nat>>, r: RouteMap, u: nat, k: nat)
    requires u in arr && u in r && k <= |arr[u]|
  {
    forall i :: 0 <= i < k ==> arr[u][i] in r && r[arr[u][i]].cost <= r[u].cost + 1
  }

  function Take(r: RouteMap, u: nat): RouteMap
    requires u in r
  {
    r[u := r[u].(perm := true)]
  }

  lemma TakeKeeps(links: Links, root: nat, r: RouteMap, heap: set<nat>, level: nat, u: nat)
    requires Searching(links, root, r, heap, level) && u in heap && u in r
    requires forall x :: x in heap ==> x in r && r[u].cost <= r[x].cost
    requires forall v :: v in r && r[v].perm ==> Explored(links, r, v)
    ensures Searching(links, root, Take(r, u), heap - {u}, r[u].cost)
    ensures ExploredBut(links, Take(r, u), u)
  {
    var r', level' := Take(r, u), r[u].cost;
    assert NodeOk(links, root, r, heap, level, u);
    forall v: nat ensures NodeOk(links, root, r', heap - {u}, level', v) {
      assert NodeOk(links, root, r, heap, level, v);
    }
    forall v | v in r' && r'[v].perm && v != u ensures Explored(links, r', v) {
      assert Explored(links, r, v);
    }
  }

  // A neighbour found for the first time.
  function Find(r: RouteMap, u: nat, w: nat): RouteMap
    requires u in r
  {
    if w in r then r else r[w := State(r[u].cost + 1, u, false)]
  }

  lemma FindKeeps(links: Links, root: nat, r: RouteMap, heap: set<nat>, u: nat, w: nat)
    requires u in r && r[u].perm && Searching(links, root, r, heap, r[u].cost) && Adjacent(links, u, w)
    requires ExploredBut(links, r, u)
    ensures w in r ==> r[w].cost <= r[u].cost + 1
    ensures var r' := Find(r, u, w);
            && Searching(links, root, r', if w in r then heap else heap + {w}, r[u].cost)
            && ExploredBut(links, r', u) && r'[u] == r[u]
  {
    assert NodeOk(links, root, r, heap, r[u].cost, w);
    if w !in r {
      FindNew(links, root, r, heap, u, w);
      var r' := Find(r, u, w);
      forall v | v in r' && r'[v].perm && v != u ensures Explored(links, r', v) { assert Explored(links, r, v); }
    }
  }

  lemma FindNew(links: Links, root: nat, r: RouteMap, heap: set<nat>, u: nat, w: nat)
    requires u in r && r[u].perm && Searching(links, root, r, heap, r[u].cost) && Adjacent(links, u, w) && w !in r
    ensures Searching(links, root, Find(r, u, w), heap + {w}, r[u].cost)
  {
    var r' := Find(r, u, w);
    forall v: nat ensures NodeOk(links, root, r', heap + {w}, r[u].cost, v) {
      assert NodeOk(links, root, r, heap, r[u].cost, v);
    }
  }

  // At the end nothing is tentative and everything is explored.
  lemma EmptyHeapSolves(links: Links, root: nat, r: RouteMap, level: nat)
    requires Searching(links, root, r, {}, level)
    requires forall v :: v in r && r[v].perm ==> Explored(links, r, v)
    ensures Solved(links, root, r)
  {
    forall v | v in r ensures r[v].perm { assert NodeOk(links, root, r, {}, level, v); }
    forall v | v in r && v != root ensures LinkedAt(links, r, v) {
      assert NodeOk(links, root, r, {}, level, v);
    }
  }

  // Some element of a non-empty heap has the least cost.
  lemma {:induction false} LeastExists(r: RouteMap, heap: set<nat>) returns (u: nat)
    requires heap != {} && forall x :: x in heap ==> x in r
    ensures u in heap && forall x :: x in heap ==> r[u].cost <= r[x].cost
    decreases heap
  {
    var y :| y in heap;
    if heap == {y} {
      u := y;
    } else {
      var rest := heap - {y};
      assert rest == {} ==> heap == {y};
      var z := LeastExists(r, rest);
      u := if r[y].cost <= r[z].cost then y else z;
      forall x | x in heap ensures r[u].cost <= r[x].cost { assert x == y || x in rest; }
    }
  }
}
