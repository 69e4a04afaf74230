/** The WirelessNumHops class (src/util/WirelessNumHops.cc): a link cache, a route map and a
    route cache over a proximity graph that changes between queries. Non-static scenario, unit
    costs, one address for each node, and a fixed root. */
module WirelessNumHops {
  import opened Sequences
  import opened WirelessRoutes

  type Addr = nat
  datatype Answer = UnknownAddress | NoRoute | Route(path: seq<Addr>)

  // The current proximity graph: all pairs of nodes within range of each other.
  ghost function Proximity(n: nat, near: (nat, nat) -> bool): Links {
    set i, j | 0 <= i < n && 0 <= j < n && i != j && near(i, j) :: (i, j)
  }

  ghost predicate Symmetric(near: (nat, nat) -> bool) {
    forall i, j :: near(i, j) == near(j, i)
  }

  // The links that fillRoutingTables collects: those of the root first, then the others.
  function RootLinks(root: nat, near: (nat, nat) -> bool, k: nat): Links {
    set i | 0 <= i < k && i != root && near(root, i) :: (root, i)
  }

  function RowLinks(root: nat, near: (nat, nat) -> bool, i: nat, k: nat): Links {
    set j | i < j < k && i != root && j != root && near(i, j) :: (i, j)
  }

  function OtherLinks(n: nat, root: nat, near: (nat, nat) -> bool, k: nat): Links {
    if k == 0 then {} else OtherLinks(n, root, near, k - 1) + RowLinks(root, near, k - 1, n)
  }

  // ----- graphs with the same links -----

  ghost predicate SameGraph(a: Links, b: Links) {
    forall x, y :: Adjacent(a, x, y) <==> Adjacent(b, x, y)
  }

  lemma {:induction false} SameRoutes(a: Links, b: Links, root: nat, p: seq<nat>)
    requires SameGraph(a, b)
    ensures IsRoute(a, root, p) <==> IsRoute(b, root, p)
  {
    if p != [] { SameRoutes(a, b, root, p[..|p| - 1]); }
  }

  lemma SameMinHop(a: Links, b: Links, root: nat, v: nat, p: seq<nat>)
    requires SameGraph(a, b) && MinHopRoute(a, root, v, p)
    ensures MinHopRoute(b, root, v, p)
  {
    SameRoutes(a, b, root, p);
    forall q | RouteTo(b, root, v, q) ensures |p| <= |q| { SameRoutes(a, b, root, q); }
  }

  lemma SameReach(a: Links, b: Links, root: nat, v: nat)
    requires SameGraph(a, b) && Reachable(b, root, v)
    ensures Reachable(a, root, v)
  {
    var p :| RouteTo(b, root, v, p);
    SameRoutes(a, b, root, p);
    assert RouteTo(a, root, v, p);
  }

  lemma {:induction false} FirstHop(links: Links, root: nat, p: seq<nat>)
    requires IsRoute(links, root, p) && p != []
    ensures Adjacent(links, root, p[0])
  {
    if |p| > 1 { FirstHop(links, root, p[..|p| - 1]); }
  }

  // A root without links reaches nothing else.
  lemma IsolatedRoot(links: Links, root: nat, v: nat)
    requires (forall w :: !Adjacent(links, root, w)) && v != root
    ensures !Reachable(links, root, v)
  {
    forall p | IsRoute(links, root, p) ensures Last(root, p) == root {
      if p != [] { FirstHop(links, root, p); }
    }
  }

  lemma {:induction false} OtherLinksMembers(n: nat, root: nat, near: (nat, nat) -> bool, k: nat)
    ensures forall i, j :: (i, j) in OtherLinks(n, root, near, k) <==>
              0 <= i < k && i < j < n && i != root && j != root && near(i, j)
  {
    if k > 0 { OtherLinksMembers(n, root, near, k - 1); }
  }

  // The collected links are the proximity graph.
  lemma CollectedIsProximity(n: nat, root: nat, near: (nat, nat) -> bool)
    requires Symmetric(near) && root < n
    ensures SameGraph(RootLinks(root, near, n) + OtherLinks(n, root, near, n), Proximity(n, near))
  {
    OtherLinksMembers(n, root, near, n);
    var a, b := RootLinks(root, near, n) + OtherLinks(n, root, near, n), Proximity(n, near);
    forall x: nat, y: nat ensures Adjacent(a, x, y) <==> Adjacent(b, x, y) {
      assert (x, y) in b <==> x < n && y < n && x != y && near(x, y);
      assert (y, x) in b <==> x < n && y < n && x != y && near(y, x);
      assert near(x, y) == near(y, x);
    }
  }

  lemma RootWithoutLinks(n: nat, root: nat, near: (nat, nat) -> bool)
    requires Symmetric(near) && root < n && RootLinks(root, near, n) == {}
    ensures forall w :: !Adjacent(Proximity(n, near), root, w)
  {
    forall w: nat ensures !Adjacent(Proximity(n, near), root, w) {
      assert near(root, w) == near(w, root);
      assert w < n && w != root && near(root, w) ==> (root, w) in RootLinks(root, near, n);
    }
  }

  // ----- edge lists -----

  predicate Edge(arr: map<nat, seq<nat>>, a: nat, b: nat) {
    a in arr && b in arr[a]
  }

  // No neighbour is listed twice.
  ghost predicate NoneTwice(arr: map<nat, seq<nat>>) {
    forall a :: a in arr ==> Distinct(arr[a])
  }

  // addEdge with a cost that is always 1
  method AddEdge(arr: map<nat, seq<nat>>, x: nat, y: nat) returns (r: map<nat, seq<nat>>)
    requires NoneTwice(arr)
    ensures NoneTwice(r) && forall a, b :: Edge(r, a, b) <==> Edge(arr, a, b) || (a == x && b == y)
  {
    var list := if x in arr then arr[x] else [];
    for i := 0 to |list|
      invariant forall k :: 0 <= k < i ==> list[k] != y
    {
      if list[i] == y {
        assert y in list && x in arr;
        return arr;
      }
    }
    r := arr[x := list + [y]];
  }

  // The loop of fillRoutingTables over the links, in any order.
  method BuildLinkArray(links: Links) returns (arr: map<nat, seq<nat>>)
    ensures Lists(links, arr) && NoneTwice(arr)
  {
    arr := map[];
    var rest := links;
    while rest != {}
      invariant NoneTwice(arr) && rest <= links && forall a, b :: Edge(arr, a, b) <==> Adjacent(links - rest, a, b)
      decreases rest
    {
      var p :| p in rest;
      arr := AddEdge(arr, p.0, p.1);
      arr := AddEdge(arr, p.1, p.0);
      assert links - (rest - {p}) == (links - rest) + {p};
      rest := rest - {p};
    }
    assert links - {} == links;
    EdgesAreLists(links, arr);
  }

  lemma EdgesAreLists(links: Links, arr: map<nat, seq<nat>>)
    requires forall a, b :: Edge(arr, a, b) <==> Adjacent(links, a, b)
    ensures Lists(links, arr)
  {
    forall a, b ensures Adjacent(links, a, b) <==> a in arr && b in arr[a] { assert Edge(arr, a, b) <==> Adjacent(links, a, b); }
    forall a, b | a in arr && b in arr[a] ensures b in arr {
      assert Edge(arr, a, b) && Adjacent(links, b, a);
      assert Edge(arr, b, a);
    }
  }

  // ----- the object -----

  class WirelessNumHops {
    const n: nat
    const root: nat
    const related: map<Addr, nat>
    var linkCache: Links
    var linkArray: map<nat, seq<nat>>
    var routeMap: RouteMap
    var routeCache: map<Addr, seq<Addr>>

    // Every node has exactly one address.
    ghost predicate OneAddressEach() {
      && root < n
      && (forall a :: a in related ==> related[a] < n)
      && (forall v: nat :: v < n ==> v in related.Values)
      && (forall a, b :: a in related && b in related && related[a] == related[b] ==> a == b)
    }

    // The route of addresses names the route of nodes.
    ghost predicate Names(path: seq<Addr>, route: seq<nat>) {
      |path| == |route| && forall i :: 0 <= i < |path| ==> path[i] in related && related[path[i]] == route[i]
    }

    ghost predicate MinHopTo(links: Links, dest: Addr, path: seq<Addr>) {
      dest in related && exists route :: Names(path, route) && MinHopRoute(links, root, related[dest], route)
    }

    // Both caches belong to the links in the link cache.
    ghost predicate Valid()
      reads this
    {
      && OneAddressEach()
      && Lists(linkCache, linkArray) && NoneTwice(linkArray)
      && (forall p :: p in linkCache ==> p.0 < n && p.1 < n)
      && (linkCache == {} || root in linkArray)
      && (routeMap == map[] || Solved(linkCache, root, routeMap))
      && (forall d :: d in routeCache ==> MinHopTo(linkCache, d, routeCache[d]))
    }

    constructor (n: nat, root: nat, related: map<Addr, nat>)
      requires root < n && (forall a :: a in related ==> related[a] < n)
      requires forall v: nat :: v < n ==> v in related.Values
      requires forall a, b :: a in related && b in related && related[a] == related[b] ==> a == b
      ensures Valid() && linkCache == {}
    {
      this.n, this.root, this.related := n, root, related;
      linkCache, linkArray, routeMap, routeCache := {}, map[], map[], map[];
    }

    // The links currently in range, collected by the two loops of fillRoutingTables.
    method CollectRootLinks(near: (nat, nat) -> bool) returns (temp: Links)
      ensures temp == RootLinks(root, near, n)
    {
      temp := {};
      for i := 0 to n
        invariant temp == RootLinks(root, near, i)
      {
        if i == root { continue; }
        if near(root, i) { temp := temp + {(root, i)}; }
      }
    }

    method CollectOtherLinks(near: (nat, nat) -> bool) returns (temp: Links)
      ensures temp == OtherLinks(n, root, near, n)
    {
      temp := {};
      for i := 0 to n
        invariant temp == OtherLinks(n, root, near, i)
      {
        ghost var before := temp;
        assert i == root ==> RowLinks(root, near, i, n) == {};
        if i == root { continue; }
        for j := i to n
          invariant temp == before + RowLinks(root, near, i, j)
        {
          if i == j || j == root { continue; }
          if near(i, j) { temp := temp + {(i, j)}; }
        }
      }
    }

    // fillRoutingTables: nothing is kept that belongs to other links.
    method FillRoutingTables(near: (nat, nat) -> bool)
      requires Valid() && Symmetric(near)
      modifies this
      ensures Valid()
      ensures if RootLinks(root, near, n) == {} then linkCache == {} && routeMap == map[] && routeCache == map[]
              else SameGraph(linkCache, Proximity(n, near)) && linkCache != {}
    {
      CollectedIsProximity(n, root, near);
      var rootLinks := CollectRootLinks(near);
      if rootLinks == {} {
        linkCache, routeCache, routeMap, linkArray := {}, map[], map[], map[];
        return;
      }
      var others := CollectOtherLinks(near);
      var temp := rootLinks + others;
      if linkCache == temp { return; }
      OtherLinksMembers(n, root, near, n);
      linkCache := temp;
      routeCache, routeMap := map[], map[];
      linkArray := BuildLinkArray(linkCache);
      var p :| p in rootLinks;
      assert Adjacent(linkCache, root, p.1);
    }

    // run: all nodes reachable from the root, at their least number of hops, whatever node of
    // least cost is drawn in each round.
    method Run()
      requires Valid()
      modifies this`routeMap
      ensures Valid() && (linkCache == {} ==> routeMap == map[]) && (linkCache != {} ==> Solved(linkCache, root, routeMap))
    {
      routeMap := map[];
      if linkCache == {} { return; }
      routeMap := Search();
    }

    method Search() returns (r: RouteMap)
      requires Lists(linkCache, linkArray) && root in linkArray
      ensures Solved(linkCache, root, r)
    {
      r := map[root := State(0, root, false)];
      var heap := {root};
      ghost var level := 0;
      assert Searching(linkCache, root, r, heap, level);
      while heap != {}
        invariant Searching(linkCache, root, r, heap, level) && r.Keys <= linkArray.Keys
        invariant forall v :: v in r && r[v].perm ==> Explored(linkCache, r, v)
        decreases linkArray.Keys - (set v | v in r && r[v].perm)
      {
        ghost var r0, heap0 := r, heap;
        HeapIsKnown(linkCache, root, r, heap, level);
        ghost var least := LeastExists(r, heap);
        var u :| u in heap && forall x :: x in heap ==> r[u].cost <= r[x].cost;
        TakeKeeps(linkCache, root, r, heap, level, u);
        r, heap, level := Take(r, u), heap - {u}, r[u].cost;
        r, heap := ExpandNode(u, r, heap);
        TakenShrinks(linkArray.Keys, r0, r, u);
      }
      EmptyHeapSolves(linkCache, root, r, level);
    }

    // The loop over the neighbours of u. The branch of the code that lowers the cost of a
    // tentative node cannot be taken with unit costs.
    method ExpandNode(u: nat, r0: RouteMap, heap0: set<nat>) returns (r: RouteMap, heap: set<nat>)
      requires Lists(linkCache, linkArray) && u in linkArray && u in r0 && r0[u].perm && r0.Keys <= linkArray.Keys
      requires Searching(linkCache, root, r0, heap0, r0[u].cost) && ExploredBut(linkCache, r0, u)
      ensures Searching(linkCache, root, r, heap, r0[u].cost) && r.Keys <= linkArray.Keys
      ensures forall v :: v in r && r[v].perm ==> Explored(linkCache, r, v)
      ensures forall v :: v in r0 && r0[v].perm ==> v in r && r[v].perm
    {
      r, heap := r0, heap0;
      var neighbours := linkArray[u];
      for i := 0 to |neighbours|
        invariant u in r && r[u] == r0[u] && r.Keys <= linkArray.Keys
        invariant Searching(linkCache, root, r, heap, r[u].cost) && ExploredBut(linkCache, r, u)
        invariant ExploredTo(linkArray, r, u, i)
        invariant forall v :: v in r0 && r0[v].perm ==> v in r && r[v].perm
      {
        var w := neighbours[i];
        assert Adjacent(linkCache, u, w);
        FindKeeps(linkCache, root, r, heap, u, w);
        FindKeepsKnown(r, u, w);
        var cost := r[u].cost + 1;
        if w !in r {
          r, heap := r[w := State(cost, u, false)], heap + {w};
        } else {
          assert r[w].perm || r[w].cost <= cost;
        }
      }
      ExploredAtLast(linkCache, linkArray, r, u);
    }

    // getRouteCost: the prev entries from v back to the root. None if v is not in the map.
    method GetRoute(v: nat) returns (found: bool, route: seq<nat>)
      requires Valid()
      ensures found <==> v in routeMap
      ensures found ==> MinHopRoute(linkCache, root, v, route)
    {
      route := [];
      found := v in routeMap;
      if !found { return; }
      FollowIsMinHop(linkCache, root, routeMap, v);
      route := FollowBack(v);
    }

    method FollowBack(v: nat) returns (route: seq<nat>)
      requires Linked(linkCache, root, routeMap) && v in routeMap
      ensures route == Follow(root, routeMap, v, routeMap[v].cost)
    {
      hide Follow;
      route := [];
      var current := v;
      ghost var full := Follow(root, routeMap, v, routeMap[v].cost);
      assert full + [] == full;
      while current != root
        invariant current in routeMap && full == Follow(root, routeMap, current, routeMap[current].cost) + route
        decreases routeMap[current].cost
      {
        FollowStep(linkCache, root, routeMap, current);
        ghost var front := Follow(root, routeMap, routeMap[current].prev, routeMap[routeMap[current].prev].cost);
        assert front + [current] + route == front + ([current] + route);
        route := [current] + route;
        current := routeMap[current].prev;
      }
      FollowRoot(linkCache, root, routeMap);
      assert [] + route == route;
    }

    // findRoutePathCost: look the node up, and run the search if it is not there.
    method FindRoutePath(v: nat) returns (found: bool, route: seq<nat>)
      requires Valid()
      modifies this`routeMap
      ensures Valid()
      ensures found ==> MinHopRoute(linkCache, root, v, route)
      ensures !found ==> linkCache == {} || !Reachable(linkCache, root, v)
      ensures v == root ==> (found <==> linkCache != {} || v in old(routeMap))
    {
      found, route := GetRoute(v);
      if found { return; }
      Run();
      found, route := GetRoute(v);
      if !found && linkCache != {} { AbsentIsUnreachable(linkCache, root, routeMap, v); }
    }

    // The loop that turns nodes into addresses.
    method AddressesOf(route: seq<nat>) returns (path: seq<Addr>)
      requires OneAddressEach() && forall i :: 0 <= i < |route| ==> route[i] < n
      ensures Names(path, route)
    {
      path := [];
      for i := 0 to |route|
        invariant Names(path, route[..i])
      {
        assert route[i] in related.Values;
        var a :| a in related && related[a] == route[i];
        path := path + [a];
        assert route[..i + 1] == route[..i] + [route[i]];
      }
      assert route[..|route|] == route;
    }

    // findRoute at any time, after any history: with the graph as it is now, a minimum-hop route, or none if
    // and only if there is none. For the root itself there is none if and only if it has no links.
    method FindRoute(near: (nat, nat) -> bool, dest: Addr) returns (r: Answer)
      requires Valid() && Symmetric(near)
      modifies this
      ensures Valid()
      ensures r.UnknownAddress? <==> dest !in related
      ensures r.Route? ==> MinHopTo(Proximity(n, near), dest, r.path)
      ensures r.NoRoute? <==> dest in related && if related[dest] == root then RootLinks(root, near, n) == {}
                              else !Reachable(Proximity(n, near), root, related[dest])
    {
      FillRoutingTables(near);
      if dest in routeCache {
        InOtherGraph(near, dest, routeCache[dest]);
        return Route(routeCache[dest]);
      }
      if dest !in related { return UnknownAddress; }
      var v := related[dest];
      var found, route := FindRoutePath(v);
      if !found {
        NotFound(near, v);
        return NoRoute;
      }
      RouteInRange(linkCache, root, route, n);
      var path := AddressesOf(route);
      assert MinHopTo(linkCache, dest, path);
      routeCache := routeCache[dest := path];
      InOtherGraph(near, dest, path);
      r := Route(path);
    }

    // A route for the cached links is one for the proximity graph.
    lemma InOtherGraph(near: (nat, nat) -> bool, dest: Addr, path: seq<Addr>)
      requires OneAddressEach() && MinHopTo(linkCache, dest, path) && Symmetric(near)
      requires if RootLinks(root, near, n) == {} then linkCache == {}
               else SameGraph(linkCache, Proximity(n, near))
      ensures MinHopTo(Proximity(n, near), dest, path)
    {
      var links := Proximity(n, near);
      var route :| Names(path, route) && MinHopRoute(linkCache, root, related[dest], route);
      if RootLinks(root, near, n) == {} {
        if route != [] { FirstHop(linkCache, root, route); }
        assert MinHopRoute(links, root, related[dest], route);
      } else {
        SameMinHop(linkCache, links, root, related[dest], route);
      }
    }

    lemma NotFound(near: (nat, nat) -> bool, v: nat)
      requires OneAddressEach() && Symmetric(near) && (linkCache == {} || !Reachable(linkCache, root, v))
      requires if RootLinks(root, near, n) == {} then linkCache == {}
               else SameGraph(linkCache, Proximity(n, near)) && linkCache != {}
      ensures v == root || !Reachable(Proximity(n, near), root, v)
    {
      if RootLinks(root, near, n) == {} {
        RootWithoutLinks(n, root, near);
        if v != root { IsolatedRoot(Proximity(n, near), root, v); }
      } else if Reachable(Proximity(n, near), root, v) {
        SameReach(linkCache, Proximity(n, near), root, v);
      }
    }
  }

  lemma {:induction false} RouteInRange(links: Links, root: nat, p: seq<nat>, n: nat)
    requires IsRoute(links, root, p) && forall e :: e in links ==> e.0 < n && e.1 < n
    ensures forall i :: 0 <= i < |p| ==> p[i] < n
  {
    if p != [] {
      RouteInRange(links, root, p[..|p| - 1], n);
      var u, v := Last(root, p[..|p| - 1]), p[|p| - 1];
      assert (u, v) in links || (v, u) in links;
      forall i | 0 <= i < |p| - 1 ensures p[i] < n { assert p[..|p| - 1][i] == p[i]; }
    }
  }

  lemma HeapIsKnown(links: Links, root: nat, r: RouteMap, heap: set<nat>, level: nat)
    requires Searching(links, root, r, heap, level)
    ensures forall v :: v in heap ==> v in r && !r[v].perm
  {
    forall v | v in heap ensures v in r && !r[v].perm { assert NodeOk(links, root, r, heap, level, v); }
  }

  lemma FindKeepsKnown(r: RouteMap, u: nat, w: nat)
    requires u in r
    ensures forall v :: v in r ==> v in Find(r, u, w) && Find(r, u, w)[v] == r[v]
    ensures w in Find(r, u, w)
  {
  }

  lemma ExploredAtLast(links: Links, arr: map<nat, seq<nat>>, r: RouteMap, u: nat)
    requires Lists(links, arr) && u in arr && u in r && ExploredTo(arr, r, u, |arr[u]|) && ExploredBut(links, r, u)
    ensures forall v :: v in r && r[v].perm ==> Explored(links, r, v)
  {
    forall w | Adjacent(links, u, w) ensures w in r && r[w].cost <= r[u].cost + 1 {
      var i :| 0 <= i < |arr[u]| && arr[u][i] == w;
    }
  }

  lemma TakenShrinks(nodes: set<nat>, r0: RouteMap, r: RouteMap, u: nat)
    requires u in nodes && u in r0 && !r0[u].perm && u in r && r[u].perm
    requires forall v :: v in r0 && r0[v].perm ==> v in r && r[v].perm
    ensures nodes - (set v | v in r && r[v].perm) < nodes - (set v | v in r0 && r0[v].perm)
  {
    assert u in nodes - (set v | v in r0 && r0[v].perm);
    assert u !in nodes - (set v | v in r && r[v].perm);
  }
}
