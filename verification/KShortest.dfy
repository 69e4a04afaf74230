/** The K-routes search as the class runs it (src/util/dijktraKShortest.cc). The heap yields its
    elements in any order: the code's comparison is not a strict weak order. */
module KShortest {
  import opened Options
  import opened Sequences
  import opened KRoutes
  import opened KRoutesThorough

  function SetEdge(es: seq<Edge>, w: nat, c: CostVector): seq<Edge> {
    if es == [] then [Edge(w, c)]
    else if es[0].last == w then [Edge(w, c)] + es[1..]
    else [es[0]] + SetEdge(es[1..], w, c)
  }

  // An edge set later replaces the cost of its target only, and no target is listed twice.
  lemma {:induction false} SetEdgeReplaces(es: seq<Edge>, w: nat, c: CostVector, x: nat)
    ensures CostTo(SetEdge(es, w, c), x) == if x == w then Some(c) else CostTo(es, x)
  {
    if es != [] && es[0].last != w {
      SetEdgeReplaces(es[1..], w, c, x);
      assert SetEdge(es, w, c)[1..] == SetEdge(es[1..], w, c);
    } else if es != [] {
      assert SetEdge(es, w, c)[1..] == es[1..];
    } else {
      assert SetEdge(es, w, c)[1..] == [];
    }
  }

  lemma {:induction false} SetEdgeAt(es: seq<Edge>, w: nat, c: CostVector, j: nat)
    requires j <= |es| && (forall i :: 0 <= i < j ==> es[i].last != w) && (j < |es| ==> es[j].last == w)
    ensures SetEdge(es, w, c) == if j < |es| then es[j := Edge(w, c)] else es + [Edge(w, c)]
  {
    if j > 0 {
      SetEdgeAt(es[1..], w, c, j - 1);
      assert es == [es[0]] + es[1..];
    } else if es != [] {
      assert SetEdge(es, w, c) == [Edge(w, c)] + es[1..];
    }
  }

  lemma SetEdgeKeepsUnique(es: seq<Edge>, w: nat, c: CostVector, j: nat)
    requires Unique(es)
    requires j <= |es| && (forall i :: 0 <= i < j ==> es[i].last != w) && (j < |es| ==> es[j].last == w)
    ensures Unique(SetEdge(es, w, c))
  {
    SetEdgeAt(es, w, c, j);
  }

  method AddCosts(a: CostVector, b: CostVector) returns (val: CostVector)
    ensures val == AddCost(a, b)
  {
    var v: seq<Cost> := [];
    for i := 0 to |a|
      invariant |v| == i && forall j :: 0 <= j < i ==> v[j] == Combine(a[j], b[j])
    {
      v := v + [Combine(a[i], b[i])];
    }
    val := v;
  }

  // The replacement candidate: none if and only if no tentative state is worse than the ceiling; otherwise a
  // tentative state that none behind it is worse than.
  method FindVictim(states: seq<State>) returns (maxCost: CostVector, victim: Option<nat>)
    ensures maxCost == Victim(states, |states|).0 && victim == Victim(states, |states|).1
    ensures victim.None? ==> forall j :: 0 <= j < |states| && !states[j].perm ==> !Less(MAXIMUM, states[j].cost)
    ensures victim.Some? ==>
              && victim.value < |states| && !states[victim.value].perm && states[victim.value].cost == maxCost
              && (exists j :: 0 <= j < |states| && !states[j].perm && Less(MAXIMUM, states[j].cost))
              && (forall j :: victim.value < j < |states| && !states[j].perm ==> !Less(maxCost, states[j].cost))
  {
    maxCost, victim := MAXIMUM, None;
    for i := 0 to |states|
      invariant (maxCost, victim) == Victim(states, i)
    {
      if Less(maxCost, states[i].cost) && !states[i].perm {
        maxCost, victim := states[i].cost, Some(i);
      }
    }
    hide Less, Victim;
    VictimExists(states, |states|);
    VictimIsTentative(states, |states|);
    forall j | 0 <= j < |states| && !states[j].perm && (victim.Some? ==> victim.value < j)
      ensures !Less(maxCost, states[j].cost)
    {
      VictimIsNotBeaten(states, |states|, j);
    }
  }

  method AllPermanent(states: seq<State>) returns (all: bool)
    ensures all <==> forall i :: 0 <= i < |states| ==> states[i].perm
  {
    for i := 0 to |states|
      invariant forall j :: 0 <= j < i ==> states[j].perm
    {
      if !states[i].perm { return false; }
    }
    return true;
  }

  function Backwards(p: Route): Route {
    if p == [] then [] else [p[|p| - 1]] + Backwards(Init(p))
  }

  method Emptied(active: Route) returns (path: Route)
    ensures path == Backwards(active)
  {
    path := [];
    var rest := active;
    while rest != []
      invariant path + Backwards(rest) == Backwards(active)
      decreases |rest|
    {
      path, rest := path + [rest[|rest| - 1]], rest[..|rest| - 1];
    }
  }

  // The slot that an edge writes.
  method ChooseSlot(ghost net: Net, k: nat, limits: Option<CostVector>, rm: RouteMap, path: Route, w: nat, cost: CostVector)
    returns (s: Option<Slot>)
    requires net.k == k && net.limits == limits
    ensures s == Choose(net, rm, path, w, cost)
  {
    hide Less, Victim;
    if w in path || (limits.Some? && Less(limits.value, cost)) {
      return None;
    }
    if w !in rm || |rm[w]| < k {
      return Some(Slot(w, if w in rm then |rm[w]| else 0));
    }
    var maxCost, victim := FindVictim(rm[w]);
    s := if Less(cost, maxCost) && victim.Some? then Some(Slot(w, victim.value)) else None;
  }

  ghost predicate LinksOk(links: LinkArray) {
    ShapedLinks(links) && forall u :: u in links ==> Unique(links[u])
  }

  lemma SetEdgeKeepsLinks(links: LinkArray, u: nat, w: nat, c: CostVector, j: nat)
    requires LinksOk(links) && Shaped(c)
    requires j <= |EdgesOf(links, u)| && (forall i :: 0 <= i < j ==> EdgesOf(links, u)[i].last != w)
    requires j < |EdgesOf(links, u)| ==> EdgesOf(links, u)[j].last == w
    ensures LinksOk(links[u := SetEdge(EdgesOf(links, u), w, c)])
  {
    hide SetEdge, Shaped;
    SetEdgeKeepsUnique(EdgesOf(links, u), w, c, j);
    SetEdgeAt(EdgesOf(links, u), w, c, j);
  }

  class DijkstraKshortest {
    var links: LinkArray
    var root: nat
    var k: nat
    var limits: Option<CostVector>
    var routeMap: RouteMap
    var kRoutes: Routes
    ghost var paths: Paths
    // What the last run was made for, and whether it ended without an error and without limits.
    ghost var ran: Net
    ghost var full: bool

    // The recorded routes are those of the last run.
    ghost predicate Valid()
      reads this
    {
      && LinksOk(links) && ServedOk(ran, kRoutes)
      && (full ==> forall v :: Reaches(ran, v) && v != ran.root ==> v in kRoutes)
    }

    ghost function TheNet(): Net
      reads this
    {
      Net(links, root, k, limits)
    }

    // The state of the search with this heap.
    ghost function Mem(heap: multiset<Slot>): Memory
      reads this
    {
      Memory(routeMap, paths, kRoutes, heap)
    }

    // What every run keeps about the states, the routes and the heap.
    ghost predicate Searching(heap: multiset<Slot>)
      reads this
    {
      LinksOk(links) && SearchInv(TheNet(), routeMap, paths, kRoutes, heap)
    }

    constructor (limit: nat)
      ensures Valid() && links == map[] && k == limit && limits == None && routeMap == map[] && kRoutes == map[]
    {
      links, root, k, limits, routeMap, kRoutes, paths := map[], 0, limit, None, map[], map[], map[];
      ran, full := Net(map[], 0, 0, None), false;
    }

    method AddEdge(u: nat, w: nat, cost: real, delay: real, bandwidth: real, quality: real)
      requires Valid()
      modifies this`links
      ensures Valid()
      ensures links == old(links)[u := SetEdge(EdgesOf(old(links), u), w, Costs(cost, delay, bandwidth, quality))]
    {
      var c := Costs(cost, delay, bandwidth, quality);
      var es := if u in links then links[u] else [];
      var i := 0;
      while i < |es| && es[i].last != w
        invariant 0 <= i <= |es| && forall j :: 0 <= j < i ==> es[j].last != w
      {
        i := i + 1;
      }
      SetEdgeAt(es, w, c, i);
      SetEdgeKeepsLinks(links, u, w, c, i);
      if i < |es| {
        links := links[u := es[i := Edge(w, c)]];
      } else {
        links := links[u := es + [Edge(w, c)]];
      }
    }

    // Follows the predecessors of a slot back to the root; neither "error in data" can occur.
    method PathOf(e: Slot) returns (path: Route)
      requires StatesInv(TheNet(), routeMap, paths) && Has(routeMap, e)
      ensures e in paths && path == paths[e]
    {
      hide PathCost, IsRoute, WithinLimits;
      ghost var net := TheNet();
      assert SlotOk(net, routeMap, paths, e);
      var active: Route := [];
      var s := e;
      while s.id != root
        invariant Has(routeMap, s) && SlotOk(net, routeMap, paths, s)
        invariant paths[s] + Backwards(active) == paths[e]
        decreases |paths[s]|
      {
        ghost var before := active;
        active := active + [s.id];
        assert Init(active) == before;
        assert paths[s] == Init(paths[s]) + [s.id];
        var st := routeMap[s.id][s.idx];
        s := Slot(st.prev, st.prevIdx);
        assert s.id in routeMap && s.idx < |routeMap[s.id]|;
        assert SlotOk(net, routeMap, paths, s);
      }
      assert paths[s] == [] by { RootPath(net, routeMap, paths, s); }
      path := Emptied(active);
    }

    // One edge of a permanent slot.
    method RelaxEdge(e: Slot, path: Route, i: nat, heap: multiset<Slot>) returns (next: multiset<Slot>)
      requires Searching(heap) && PermAt(routeMap, e) && e in paths && path == paths[e]
      requires e.id in links && i < |links[e.id]|
      modifies this`routeMap, this`paths
      ensures Searching(next) && Frozen(old(routeMap), routeMap)
      ensures PermAt(routeMap, e) && e in paths && path == paths[e]
      ensures old(routeMap).Keys <= routeMap.Keys && heap <= next
      ensures next[Slot(root, 0)] == heap[Slot(root, 0)]
      ensures limits.None? ==> links[e.id][i].last in routeMap
      ensures Mem(next) == RelaxOne(TheNet(), old(Mem(heap)), e, path, links[e.id][i])
    {
      var edge := links[e.id][i];
      ghost var net := TheNet();
      ghost var rm := routeMap;
      next := heap;
      EdgeContinues(net, rm, paths, kRoutes, heap, e, i);
      hide AddCost;
      var cost := AddCosts(edge.cost, routeMap[e.id][e.idx].cost);
      ChosenIsWritable(net, routeMap, paths, path, edge.last, cost);
      hide Choose;
      var s := ChooseSlot(net, k, limits, routeMap, path, edge.last, cost);
      hide SearchInv;
      if s.Some? {
        PushKeepsInv(net, rm, paths, kRoutes, heap, e, s.value);
        PutHas(net, rm, s.value, Successor(net, rm, e, edge.last), e);
        PutFreezes(net, rm, s.value, Successor(net, rm, e, edge.last));
        routeMap := Put(routeMap, s.value, State(cost, e.id, e.idx, false));
        paths := paths[s.value := path + [edge.last]];
        next := heap + multiset{s.value};
      }
    }

    // All edges of a slot that has just become permanent.
    method Expand(e: Slot, path: Route, heap: multiset<Slot>) returns (next: multiset<Slot>)
      requires Searching(heap) && PermAt(routeMap, e) && e in paths && path == paths[e]
      requires e.id in links && Progress(TheNet(), routeMap, kRoutes, heap, Some(e.id))
      requires Midway(TheNet(), Mem(heap), e, 0)
      modifies this`routeMap, this`paths
      ensures Through(TheNet(), Mem(next))
      ensures Searching(next) && Frozen(old(routeMap), routeMap)
      ensures Progress(TheNet(), routeMap, kRoutes, next, None)
      ensures next[Slot(root, 0)] == heap[Slot(root, 0)]
      ensures Mem(next) == RelaxFirst(TheNet(), old(Mem(heap)), e, path, |links[e.id]|)
    {
      hide SearchInv, Progress, PermAt, Has, RelaxOne, Midway, Through, Unique;
      assert Has(routeMap, e) by { HasPermanent(routeMap, e); }
      next := heap;
      ghost var net := TheNet();
      FrozenReflexive(routeMap);
      for i := 0 to |links[e.id]|
        invariant Searching(next) && Frozen(old(routeMap), routeMap)
        invariant PermAt(routeMap, e) && e in paths && path == paths[e]
        invariant Progress(net, routeMap, kRoutes, next, Some(e.id))
        invariant limits.None? ==> ExpandedTo(net, routeMap, e.id, i)
        invariant next[Slot(root, 0)] == heap[Slot(root, 0)]
        invariant Mem(next) == RelaxFirst(net, old(Mem(heap)), e, path, i) && Midway(net, Mem(next), e, i)
      {
        ghost var rm, before := routeMap, next;
        OneEdgeOn(net, Mem(next), e, path, i);
        next := RelaxEdge(e, path, i, next);
        FrozenTransitive(old(routeMap), rm, routeMap);
        GrowKeepsProgress(net, rm, kRoutes, before, Some(e.id), routeMap, next);
      }
      ExpandedNow(net, routeMap, kRoutes, next, e.id);
      TurnIsOver(net, Mem(next), e);
    }

    // The route that an element stands for, unless its node is finished or has that route already.
    method NewRoute(e: Slot, heap: multiset<Slot>) returns (path: Option<Route>)
      requires Searching(heap) && e in heap
      ensures e in paths
      ensures path.Some? ==> path.value == paths[e] && (path.value != [] ==> path.value !in RoutesTo(kRoutes, e.id))
      ensures path.None? ==> e.id != root && e.id in kRoutes
      ensures path.None? <==> NothingNew(TheNet(), Mem(heap), e)
    {
      if e.id != root && |routeMap[e.id]| == k {
        var all := AllPermanent(routeMap[e.id]);
        if all {
          PermanentIsServed(TheNet(), routeMap, paths, kRoutes, heap, e);
          assert SlotOk(TheNet(), routeMap, paths, e);
          return None;
        }
      }
      var p := PathOf(e);
      RootOrNot(TheNet(), routeMap, paths, e);
      path := if p != [] && p in RoutesTo(kRoutes, e.id) then None else Some(p);
    }

    // Records the route of an element and makes its slot permanent.
    method Promote(e: Slot, path: Route, ghost heap: multiset<Slot>)
      requires Searching(heap) && Progress(TheNet(), routeMap, kRoutes, heap, None)
      requires e in heap && Has(routeMap, e) && e in paths && path == paths[e]
      requires path != [] ==> path !in RoutesTo(kRoutes, e.id)
      modifies this`routeMap, this`kRoutes
      ensures Mem(heap - multiset{e}) == Promoted(old(Mem(heap)), e)
      ensures Searching(heap - multiset{e}) && Progress(TheNet(), routeMap, kRoutes, heap - multiset{e}, Some(e.id))
      ensures routeMap == Mark(old(routeMap), e) && PermAt(routeMap, e) && Frozen(old(routeMap), routeMap)
      ensures kRoutes == if e.id == root then old(kRoutes) else Record(old(kRoutes), e.id, path)
      ensures if e.id == root then routeMap == old(routeMap) && (heap - multiset{e})[Slot(root, 0)] < heap[Slot(root, 0)]
              else Unmarked(TheNet(), routeMap) < Unmarked(TheNet(), old(routeMap))
    {
      hide SearchInv, Progress, Mark, PermAt, Has, Unmarked;
      ghost var net, rm := TheNet(), routeMap;
      if path != [] {
        RecordKeepsInv(net, rm, paths, kRoutes, heap, e);
        if |RoutesTo(kRoutes, e.id)| < k {
          kRoutes := Record(kRoutes, e.id, path);
        }
      } else {
        RootKeepsInv(net, rm, paths, kRoutes, heap, e);
        FrozenReflexive(rm);
      }
      routeMap := Mark(routeMap, e);
    }

    // Takes a new route: records it, makes its slot permanent and follows the edges of its node.
    method Advance(e: Slot, path: Route, heap: multiset<Slot>) returns (next: multiset<Slot>, ok: bool)
      requires Searching(heap) && Progress(TheNet(), routeMap, kRoutes, heap, None)
      requires e in heap && Has(routeMap, e) && e in paths && path == paths[e]
      requires path != [] ==> path !in RoutesTo(kRoutes, e.id)
      requires Through(TheNet(), Mem(heap)) && !NothingNew(TheNet(), Mem(heap), e)
      modifies this`routeMap, this`kRoutes, this`paths
      ensures ok ==> Through(TheNet(), Mem(next))
      ensures Searching(next) && Frozen(old(routeMap), routeMap)
      ensures ok <==> e.id in links
      ensures kRoutes == if e.id == root then old(kRoutes) else Record(old(kRoutes), e.id, path)
      ensures ok ==> Progress(TheNet(), routeMap, kRoutes, next, None)
      ensures ok ==> Closer(TheNet(), old(Mem(heap)), Mem(next))
      ensures Mem(next) == RelaxFirst(TheNet(), Promoted(old(Mem(heap)), e), e, path, |EdgesOf(links, e.id)|)
    {
      hide SearchInv, Progress, Mark, PermAt, Has, Unmarked, Frozen, LinksOk, RoutesTo;
      ghost var net, rm := TheNet(), routeMap;
      EmptyPathIsRoot(net, rm, paths, kRoutes, heap, e);
      PromotedIsMidway(net, Mem(heap), e);
      hide Midway, Through, NothingNew;
      Promote(e, path, heap);
      ghost var marked := routeMap;
      next, ok := heap - multiset{e}, e.id in links;
      if ok {
        next := Expand(e, path, next);
        FrozenTransitive(rm, marked, routeMap);
        FrozenUnmarked(net, marked, routeMap);
      }
    }

    // One turn of the loop, for a given element of the heap.
    method TakeTurn(e: Slot, heap: multiset<Slot>) returns (next: multiset<Slot>, ok: bool)
      requires Searching(heap) && e in heap && Progress(TheNet(), routeMap, kRoutes, heap, None) && Through(TheNet(), Mem(heap))
      requires root in links && kRoutes.Keys <= links.Keys
      modifies this`routeMap, this`kRoutes, this`paths
      ensures Searching(next) && Frozen(old(routeMap), routeMap)
      ensures ok ==> Progress(TheNet(), routeMap, kRoutes, next, None) && Through(TheNet(), Mem(next))
      ensures ok <==> kRoutes.Keys <= links.Keys
      ensures Has(old(routeMap), e) && e in old(paths) && Mem(next) == Turn(TheNet(), old(Mem(heap)), e)
      ensures ok ==> Closer(TheNet(), old(Mem(heap)), Mem(next))
    {
      hide SearchInv, Progress, Has, Closer, Frozen, LinksOk, RoutesTo, Promoted, RelaxFirst, NothingNew, Through, Turn, Record;
      ghost var net := TheNet();
      TurnIs(net, Mem(heap), e);
      RecordedKeys(kRoutes, e.id, PathAt(Mem(heap), e));
      var path := NewRoute(e, heap);
      if path.None? {
        FrozenReflexive(routeMap);
        DropKeepsAll(net, Mem(heap), e);
        next, ok := heap - multiset{e}, true;
      } else {
        next, ok := Advance(e, path.value, heap);
      }
    }

    // One turn of the loop, for any element that the heap may yield.
    method Round(heap: multiset<Slot>) returns (next: multiset<Slot>, ok: bool)
      requires Searching(heap) && heap != multiset{} && Progress(TheNet(), routeMap, kRoutes, heap, None) && Through(TheNet(), Mem(heap))
      requires root in links && kRoutes.Keys <= links.Keys
      modifies this`routeMap, this`kRoutes, this`paths
      ensures Searching(next) && Frozen(old(routeMap), routeMap)
      ensures ok ==> Progress(TheNet(), routeMap, kRoutes, next, None) && Through(TheNet(), Mem(next))
      ensures ok <==> kRoutes.Keys <= links.Keys
      ensures exists e :: e in heap && Has(old(routeMap), e) && e in old(paths) && Mem(next) == Turn(TheNet(), old(Mem(heap)), e)
      ensures ok ==> Closer(TheNet(), old(Mem(heap)), Mem(next))
    {
      hide SearchInv, Progress, Has, Closer, Frozen, LinksOk, Turn, Through;
      var e :| e in heap;
      next, ok := TakeTurn(e, heap);
    }

    // For every order in which the heap yields its elements: terminates; at most K routes to each node,
    // pairwise distinct, simple, root-avoiding, along edges; and, without limits, routes to exactly the
    // nodes that can be reached, and an error if and only if there are no slots, no edges of the root, or a
    // reachable node without an entry in linkArray.
    method Run() returns (ok: bool)
      requires Valid()
      modifies this`routeMap, this`kRoutes, this`paths, this`ran, this`full
      ensures Valid() && ran == TheNet() && full == (ok && limits.None?)
      ensures ok <==> k > 0 && root in links && kRoutes.Keys <= links.Keys
      ensures limits.None? ==> (ok <==> k > 0 && root in links && forall v :: Reaches(TheNet(), v) ==> v in links)
      ensures k > 0 && root in links && (forall v :: Permits(TheNet(), v) ==> v in links) ==> ok
      ensures !ok && (k == 0 || root !in links) ==> kRoutes == map[]
      ensures k > 0 && root in links ==>
                StatesInv(TheNet(), routeMap, paths) && RoutesInv(TheNet(), routeMap, paths, kRoutes)
      ensures ok && limits.None? ==> forall v :: v != root ==> (v in kRoutes <==> Reaches(TheNet(), v))
      ensures k > 0 && root in links ==> exists order :: Outcome(TheNet(), order, routeMap, kRoutes, ok)
      ensures ok ==> Closed(TheNet(), kRoutes)
      ensures ok && (forall v :: v != root ==> AtMost(TheNet(), v, k)) ==> AllServed(TheNet(), kRoutes)
    {
      hide Closed, AtMost, AllServed, Outcome, StatesInv, RoutesInv, Walk, ServedOk, Reaches, Permits;
      routeMap, kRoutes, paths := map[], map[], map[];
      ran, full := TheNet(), false;
      NothingServed(ran);
      if root !in links || k == 0 {
        return false;
      }
      ok := Search();
      full := ok && limits.None?;
      RecordedIsReached(ran, kRoutes);
      ErrorCondition(ran, kRoutes, full);
      if ok { ClosedIsAll(ran, kRoutes); }
    }

    // The search itself: the states of the root, and rounds until the heap is empty or a node has no edge list.
    method Search() returns (ok: bool)
      requires LinksOk(links) && k > 0 && root in links && kRoutes == map[]
      modifies this`routeMap, this`kRoutes, this`paths
      ensures ok <==> kRoutes.Keys <= links.Keys
      ensures StatesInv(TheNet(), routeMap, paths) && RoutesInv(TheNet(), routeMap, paths, kRoutes)
      ensures ServedOk(TheNet(), kRoutes)
      ensures ok && limits.None? ==> forall v :: Reaches(TheNet(), v) && v != root ==> v in kRoutes
      ensures exists order :: Outcome(TheNet(), order, routeMap, kRoutes, ok)
      ensures ok ==> Closed(TheNet(), kRoutes)
    {
      hide Closed, Through, Turn, Turns, StatesInv, RoutesInv, SearchInv, Progress, Unmarked, Walk, ServedOk, Reaches, RoutesTo;
      ghost var net := TheNet();
      var states: seq<State> := [];
      for i := 0 to k
        invariant |states| == i && forall j :: 0 <= j < i ==> states[j] == State(MINIMUM, 0, -1, true)
      {
        states := states + [State(MINIMUM, 0, -1, true)];
      }
      routeMap := map[root := states];
      paths := map i: nat | i < k :: Slot(root, i) := [];
      StartInv(net, routeMap, paths);
      var heap := multiset{Slot(root, 0)};
      ghost var order: seq<Slot> := [];
      assert Mem(heap) == Start(net) by { assert states == Start(net).rm[root]; }
      NoTurns(net, Mem(heap));
      StartIsThrough(net);
      hide Start;
      ok := true;
      while ok && heap != multiset{}
        invariant Searching(heap) && (ok ==> Progress(net, routeMap, kRoutes, heap, None) && Through(net, Mem(heap)))
        invariant ok <==> kRoutes.Keys <= links.Keys
        invariant Turns(net, Start(net), order) == Some(Mem(heap))
        decreases ok, |Unmarked(net, routeMap)|, heap[Slot(root, 0)], |heap|
      {
        ghost var rm, before := routeMap, Mem(heap);
        heap, ok := Round(heap);
        ghost var e :| e in before.heap && Has(before.rm, e) && e in before.paths && Mem(heap) == Turn(net, before, e);
        OneMoreTurn(net, Start(net), order, before, e);
        order := order + [e];
        if ok {
          SubsetSmaller(Unmarked(net, routeMap), Unmarked(net, rm));
        }
      }
      assert Outcome(net, order, routeMap, kRoutes, ok);
      hide Outcome, Closer, Frozen;
      if ok { FinishedIsClosed(net, Mem(heap)); }
      SearchServes(net, routeMap, paths, kRoutes, heap);
      if ok && limits.None? { AllReachedAreServed(net, routeMap, paths, kRoutes); }
    }

    // The routes of the last run: at most K, pairwise distinct, simple, from its root along its edges to v; after
    // a run without limits and without an error there is one if and only if v can be reached.
    method GetRouteMapK(v: nat) returns (routes: seq<Route>)
      requires Valid()
      ensures |routes| <= ran.k && Distinct(routes)
      ensures forall j :: 0 <= j < |routes| ==> IsRoute(ran, routes[j]) && WithinLimits(ran, routes[j]) && End(ran.root, routes[j]) == v
      ensures routes == RoutesTo(kRoutes, v)
      ensures full && v != ran.root ==> (routes != [] <==> Reaches(ran, v))
      ensures v == ran.root ==> routes == []
    {
      hide IsRoute, WithinLimits, Walk;
      routes := if v in kRoutes then kRoutes[v] else [];
      RecordedIsReached(ran, kRoutes);
    }
  }

  // Dropping an element that stands for nothing new.
  lemma DropKeepsAll(net: Net, m: Memory, e: Slot)
    requires SearchInv(net, m.rm, m.paths, m.kr, m.heap) && Progress(net, m.rm, m.kr, m.heap, None) && Through(net, m)
    requires e in m.heap && Has(m.rm, e) && e in m.paths && NothingNew(net, m, e)
    ensures SearchInv(net, m.rm, m.paths, m.kr, m.heap - multiset{e}) && Progress(net, m.rm, m.kr, m.heap - multiset{e}, None)
    ensures var m' := m.(heap := m.heap - multiset{e}); Through(net, m') && Closer(net, m, m')
  {
    hide SearchInv, Progress, AllFollowed, Tracked, Closer, NothingNew;
    NothingNewIsPermanent(net, m, e);
    DroppingIsCloser(net, m, e);
    NothingNewIsThrough(net, m, e);
    PopKeepsInv(net, m.rm, m.paths, m.kr, m.heap, e);
    DropKeepsProgress(net, m.rm, m.kr, m.heap, e);
  }

  lemma RecordedKeys(kr: Routes, v: nat, p: Route)
    ensures Record(kr, v, p).Keys == kr.Keys + {v}
  {
  }

  // Some route within the limits arrives at v.
  ghost predicate Permits(net: Net, v: nat) {
    exists p :: IsRoute(net, p) && WithinLimits(net, p) && End(net.root, p) == v
  }

  // Some walk from the root arrives at v.
  ghost predicate Reaches(net: Net, v: nat) {
    exists p :: Walk(net, p) && End(net.root, p) == v
  }

  lemma NothingServed(net: Net)
    ensures ServedOk(net, map[])
  {
  }

  lemma AllReachedAreServed(net: Net, rm: RouteMap, paths: Paths, kr: Routes)
    requires SearchInv(net, rm, paths, kr, multiset{}) && Progress(net, rm, kr, multiset{}, None) && net.limits.None?
    ensures forall v :: Reaches(net, v) && v != net.root ==> v in kr
  {
    hide SearchInv, Progress;
    forall v | Reaches(net, v) && v != net.root ensures v in kr {
      var p :| Walk(net, p) && End(net.root, p) == v;
      EveryWalkIsServed(net, rm, paths, kr, p);
    }
  }

  // Stated for the caller: the recorded nodes have edge lists if and only if all reachable nodes have.
  lemma ErrorCondition(net: Net, kr: Routes, full: bool)
    requires net.root in net.links && (forall v :: v in kr ==> Reaches(net, v) && Permits(net, v))
    requires full ==> forall v :: Reaches(net, v) && v != net.root ==> v in kr
    ensures !(kr.Keys <= net.links.Keys) ==> !(forall v :: Reaches(net, v) ==> v in net.links)
    ensures !(kr.Keys <= net.links.Keys) ==> !(forall v :: Permits(net, v) ==> v in net.links)
    ensures full && kr.Keys <= net.links.Keys ==> forall v :: Reaches(net, v) ==> v in net.links
  {
    if !(kr.Keys <= net.links.Keys) {
      var v :| v in kr && v !in net.links;
      assert Reaches(net, v) && Permits(net, v);
    }
  }

  lemma RecordedIsReached(net: Net, kr: Routes)
    requires ServedOk(net, kr)
    ensures forall v :: v in kr ==> Reaches(net, v) && Permits(net, v)
  {
    forall v | v in kr ensures Reaches(net, v) && Permits(net, v) {
      RouteIsWalk(net, kr[v][0]);
    }
  }

  // What a caller of getRouteMapK may rely on.
  ghost predicate ServedOk(net: Net, kr: Routes) {
    forall v :: v in kr ==>
      && v != net.root && 1 <= |kr[v]| <= net.k && Distinct(kr[v])
      && forall j :: 0 <= j < |kr[v]| ==> IsRoute(net, kr[v][j]) && WithinLimits(net, kr[v][j]) && End(net.root, kr[v][j]) == v
  }

  lemma SearchServes(net: Net, rm: RouteMap, paths: Paths, kr: Routes, heap: multiset<Slot>)
    requires SearchInv(net, rm, paths, kr, heap)
    ensures StatesInv(net, rm, paths) && RoutesInv(net, rm, paths, kr) && ServedOk(net, kr)
  {
    hide SlotOk, IsRoute, WithinLimits;
    forall v | v in kr
      ensures v != net.root && 1 <= |kr[v]| <= net.k && Distinct(kr[v])
      ensures forall j :: 0 <= j < |kr[v]| ==> IsRoute(net, kr[v][j]) && WithinLimits(net, kr[v][j]) && End(net.root, kr[v][j]) == v
    {
      assert KeptAt(net, rm, kr, v);
      BelowSize(|rm[v]|);
      SubsetSmaller(PermIndices(rm, v), Below(|rm[v]|));
    }
  }

  lemma StartInv(net: Net, rm: RouteMap, paths: Paths)
    requires net.k > 0 && rm.Keys == {net.root} && |rm[net.root]| == net.k
    requires forall i: nat :: i < net.k ==> rm[net.root][i] == State(MINIMUM, 0, -1, true)
    requires forall i: nat :: i < net.k ==> Slot(net.root, i) in paths && paths[Slot(net.root, i)] == []
    ensures SearchInv(net, rm, paths, map[], multiset{Slot(net.root, 0)})
    ensures Progress(net, rm, map[], multiset{Slot(net.root, 0)}, None)
  {
    forall s | Has(rm, s) ensures SlotOk(net, rm, paths, s) {
      assert s == Slot(net.root, s.idx);
    }
  }

  lemma HasPermanent(rm: RouteMap, e: Slot)
    requires PermAt(rm, e)
    ensures Has(rm, e)
  {
  }

  lemma EmptyPathIsRoot(net: Net, rm: RouteMap, paths: Paths, kr: Routes, heap: multiset<Slot>, e: Slot)
    requires SearchInv(net, rm, paths, kr, heap) && e in heap && Has(rm, e) && e in paths
    ensures e.id == net.root <==> paths[e] == []
  {
    assert SlotOk(net, rm, paths, e);
    RootOrNot(net, rm, paths, e);
  }

  // Every route within the limits is recorded.
  ghost predicate AllServed(net: Net, kr: Routes) {
    forall p :: IsRoute(net, p) && WithinLimits(net, p) && p != [] ==> p in RoutesTo(kr, End(net.root, p))
  }

  lemma ClosedIsAll(net: Net, kr: Routes)
    requires Closed(net, kr) && ServedOk(net, kr)
    ensures (forall v :: v != net.root ==> AtMost(net, v, net.k)) ==> AllServed(net, kr)
  {
    hide Closed, AtMost;
    if forall v :: v != net.root ==> AtMost(net, v, net.k) {
      forall p | IsRoute(net, p) && WithinLimits(net, p) && p != [] ensures p in RoutesTo(kr, End(net.root, p)) {
        AllRoutesAreServed(net, kr, p);
      }
    }
  }

  lemma OneEdgeOn(net: Net, m: Memory, e: Slot, path: Route, i: nat)
    requires LinksOk(net.links) && SearchInv(net, m.rm, m.paths, m.kr, m.heap) && Midway(net, m, e, i)
    requires e.id in net.links && i < |net.links[e.id]| && Has(m.rm, e) && e in m.paths && path == m.paths[e]
    ensures Midway(net, RelaxOne(net, m, e, path, net.links[e.id][i]), e, i + 1)
  {
    hide Midway, RelaxOne;
    RelaxGoesOn(net, m, e, i);
  }

  lemma FrozenReflexive(rm: RouteMap)
    ensures Frozen(rm, rm)
  {
  }

  lemma ExpandedNow(net: Net, rm: RouteMap, kr: Routes, heap: multiset<Slot>, u: nat)
    requires Progress(net, rm, kr, heap, Some(u)) && (net.limits.None? ==> Expanded(net, rm, u))
    ensures Progress(net, rm, kr, heap, None)
  {
  }

  // A node whose slots are all permanent already has a route.
  lemma PermanentIsServed(net: Net, rm: RouteMap, paths: Paths, kr: Routes, heap: multiset<Slot>, e: Slot)
    requires SearchInv(net, rm, paths, kr, heap) && e in heap && e.id != net.root
    requires forall i :: 0 <= i < |rm[e.id]| ==> rm[e.id][i].perm
    ensures e.id in kr
  {
    assert PermAt(rm, e);
    assert Recorded(paths, kr, e);
  }

  // Dropping a non-root element changes nothing about the expanded nodes.
  lemma DropKeepsProgress(net: Net, rm: RouteMap, kr: Routes, heap: multiset<Slot>, e: Slot)
    requires Progress(net, rm, kr, heap, None) && e.id != net.root
    ensures Progress(net, rm, kr, heap - multiset{e}, None)
  {
    GrowKeepsProgress(net, rm, kr, heap, None, rm, heap - multiset{e});
  }

  // A new route of a tentative slot: recorded, the slot made permanent, its node next to be expanded.
  lemma RecordKeepsInv(net: Net, rm: RouteMap, paths: Paths, kr: Routes, heap: multiset<Slot>, e: Slot)
    requires SearchInv(net, rm, paths, kr, heap) && Progress(net, rm, kr, heap, None)
    requires e in heap && e in paths && paths[e] != [] && paths[e] !in RoutesTo(kr, e.id)
    ensures e.id != net.root && |RoutesTo(kr, e.id)| < net.k
    ensures var rm', kr', rest := Mark(rm, e), Record(kr, e.id, paths[e]), heap - multiset{e};
            && SearchInv(net, rm', paths, kr', rest) && Progress(net, rm', kr', rest, Some(e.id))
            && Frozen(rm, rm') && Unmarked(net, rm') < Unmarked(net, rm) && PermAt(rm', e)
  {
    assert SlotOk(net, rm, paths, e);
    if e.id == net.root {
      RootOrNot(net, rm, paths, e);
    }
    assert !PermAt(rm, e) by {
      assert PermAt(rm, e) ==> Recorded(paths, kr, e);
    }
    hide SlotOk, IsRoute, WithinLimits;
    RoomForRoute(net, rm, paths, kr, e);
    RecordKeepsRoutes(net, rm, paths, kr, e);
    MarkKeepsStates(net, rm, paths, e);
    MarkLowersUnmarked(net, rm, paths, e);
    MarkHas(rm, e, e);
    MarkedNodes(rm, e);
    MarkKeepsHeap(net, rm, kr, heap, e, paths[e]);
    MarkKeepsProgress(net, rm, kr, heap, e, paths[e]);
  }

  lemma RootOrNot(net: Net, rm: RouteMap, paths: Paths, e: Slot)
    requires Has(rm, e) && SlotOk(net, rm, paths, e)
    ensures e.id == net.root <==> paths[e] == []
  {
  }

  lemma MarkKeepsHeap(net: Net, rm: RouteMap, kr: Routes, heap: multiset<Slot>, e: Slot, p: Route)
    requires HeapInv(net, rm, heap) && Alive(net, rm, kr, heap) && e in heap
    ensures HeapInv(net, Mark(rm, e), heap - multiset{e})
    ensures Alive(net, Mark(rm, e), Record(kr, e.id, p), heap - multiset{e})
  {
    var rm', kr', rest := Mark(rm, e), Record(kr, e.id, p), heap - multiset{e};
    forall v | v in rm' && v != net.root && v !in kr' ensures Pending(rm', rest, v) {
      assert Pending(rm, heap, v);
      var i :| 0 <= i < |rm[v]| && Slot(v, i) in heap;
      assert Slot(v, i) in rest;
    }
    forall s | s in rest ensures Has(rm', s) && (s.id == net.root ==> s.idx == 0) {
      assert s in heap;
      MarkHas(rm, e, s);
    }
  }

  lemma MarkKeepsProgress(net: Net, rm: RouteMap, kr: Routes, heap: multiset<Slot>, e: Slot, p: Route)
    requires Progress(net, rm, kr, heap, None) && Has(rm, e)
    ensures Progress(net, Mark(rm, e), Record(kr, e.id, p), heap - multiset{e}, Some(e.id))
  {
    var rm', kr', rest := Mark(rm, e), Record(kr, e.id, p), heap - multiset{e};
    if net.limits.None? {
      forall u | (u in kr' || (u == net.root && Slot(net.root, 0) !in rest)) && u != e.id ensures Expanded(net, rm', u) {
        assert Expanded(net, rm, u);
      }
    }
  }

  // The root's element: its state is permanent from the start and it has no route to record.
  lemma RootKeepsInv(net: Net, rm: RouteMap, paths: Paths, kr: Routes, heap: multiset<Slot>, e: Slot)
    requires SearchInv(net, rm, paths, kr, heap) && Progress(net, rm, kr, heap, None)
    requires e in heap && e in paths && paths[e] == []
    ensures e.id == net.root && Mark(rm, e) == rm && PermAt(rm, e)
    ensures var rest := heap - multiset{e};
            && SearchInv(net, rm, paths, kr, rest) && Progress(net, rm, kr, rest, Some(e.id))
            && rest[Slot(net.root, 0)] < heap[Slot(net.root, 0)]
  {
    assert SlotOk(net, rm, paths, e);
    hide SlotOk, IsRoute, WithinLimits;
    PopKeepsInv(net, rm, paths, kr, heap, e);
    MarkKeepsProgress(net, rm, kr, heap, e, []);
    assert rm[e.id][e.idx := At(rm, e).(perm := true)] == rm[e.id];
    if net.limits.None? {
      forall u | (u in kr || (u == net.root && Slot(net.root, 0) !in heap - multiset{e})) && u != e.id ensures Expanded(net, rm, u) {
        assert Expanded(net, rm, u);
      }
    }
  }

  lemma RootPath(net: Net, rm: RouteMap, paths: Paths, s: Slot)
    requires Has(rm, s) && SlotOk(net, rm, paths, s) && s.id == net.root
    ensures paths[s] == []
  {
  }

  lemma EdgeContinues(net: Net, rm: RouteMap, paths: Paths, kr: Routes, heap: multiset<Slot>, e: Slot, i: nat)
    requires SearchInv(net, rm, paths, kr, heap) && PermAt(rm, e) && e in paths
    requires e.id in net.links && i < |net.links[e.id]| && Unique(net.links[e.id])
    ensures CostTo(EdgesOf(net.links, e.id), net.links[e.id][i].last) == Some(net.links[e.id][i].cost)
    ensures net.links[e.id][i].last in paths[e] ==> net.links[e.id][i].last in rm
    ensures net.links[e.id][i].last !in paths[e] && net.links[e.id][i].last != net.root
            ==> Continues(net, rm, paths, e, net.links[e.id][i].last)
  {
    var w := net.links[e.id][i].last;
    CostToUnique(net.links[e.id], i);
    if w in paths[e] {
      PathNodesKnown(net, rm, paths, e, w);
    }
  }
}
