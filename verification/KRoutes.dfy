/** K-routes (src/util/dijktraKShortest.cc): cost vectors, routes, the slots of routeMap and
    what a search keeps about them, whatever the extraction order of the heap. */
module KRoutes {
  import opened Options
  import opened Sequences

  datatype Metric = AdditiveMin | ConcaveMin | AdditiveMax | ConcaveMax
  datatype Cost = Cost(value: real, metric: Metric)
  type CostVector = c: seq<Cost> | |c| == 4
    witness [Cost(0.0, AdditiveMin), Cost(0.0, AdditiveMin), Cost(0.0, AdditiveMin), Cost(0.0, AdditiveMin)]

  function Costs(cost: real, delay: real, bandwidth: real, quality: real): CostVector {
    [Cost(cost, AdditiveMin), Cost(delay, AdditiveMin), Cost(bandwidth, ConcaveMax), Cost(quality, AdditiveMin)]
  }

  // 1e100
  const GOOGOL: real := 10000000000000000000000000000000000000000000000000000000000000000000000000000000000000000000000000000.0
  const MINIMUM: CostVector := Costs(0.0, 0.0, 100.0 * GOOGOL, 0.0)
  const MAXIMUM: CostVector := Costs(10.0 * GOOGOL, GOOGOL, 0.0, 10.0 * GOOGOL)

  function Combine(a: Cost, b: Cost): Cost {
    Cost(match a.metric
         case AdditiveMin => a.value + b.value
         case AdditiveMax => a.value + b.value
         case ConcaveMin => if a.value <= b.value then a.value else b.value
         case ConcaveMax => if a.value >= b.value then a.value else b.value,
         a.metric)
  }

  function AddCost(a: CostVector, b: CostVector): CostVector {
    [Combine(a[0], b[0]), Combine(a[1], b[1]), Combine(a[2], b[2]), Combine(a[3], b[3])]
  }

  predicate Better(x: Cost, y: Cost) {
    if x.metric.AdditiveMin? || x.metric.ConcaveMin? then x.value < y.value else x.value > y.value
  }

  // The comparison of the code: better in some component.
  predicate Less(x: CostVector, y: CostVector) {
    Better(x[0], y[0]) || Better(x[1], y[1]) || Better(x[2], y[2]) || Better(x[3], y[3])
  }

  datatype Edge = Edge(last: nat, cost: CostVector)
  type LinkArray = map<nat, seq<Edge>>

  function EdgesOf(links: LinkArray, u: nat): seq<Edge> {
    if u in links then links[u] else []
  }

  // The cost of the first edge to w.
  function CostTo(es: seq<Edge>, w: nat): Option<CostVector> {
    if es == [] then None else if es[0].last == w then Some(es[0].cost) else CostTo(es[1..], w)
  }

  ghost predicate Unique(es: seq<Edge>) {
    forall i, j :: 0 <= i < j < |es| ==> es[i].last != es[j].last
  }

  lemma {:induction false} CostToUnique(es: seq<Edge>, i: nat)
    requires Unique(es) && i < |es|
    ensures CostTo(es, es[i].last) == Some(es[i].cost)
  {
    if i > 0 { CostToUnique(es[1..], i - 1); }
  }

  datatype Net = Net(links: LinkArray, root: nat, k: nat, limits: Option<CostVector>)

  type Route = seq<nat>

  // The node a route from root arrives at; routes leave out the root itself.
  function End(root: nat, p: Route): nat {
    if p == [] then root else p[|p| - 1]
  }

  function Init(p: Route): Route
    requires p != []
  {
    p[..|p| - 1]
  }

  // A simple, root-avoiding route along existing edges.
  predicate IsRoute(net: Net, p: Route) {
    p == [] || (
      && IsRoute(net, Init(p))
      && CostTo(EdgesOf(net.links, End(net.root, Init(p))), p[|p| - 1]).Some?
      && p[|p| - 1] != net.root && p[|p| - 1] !in Init(p))
  }

  // The cost of the last step of a route.
  function StepCost(net: Net, p: Route): CostVector
    requires IsRoute(net, p) && p != []
  {
    CostTo(EdgesOf(net.links, End(net.root, Init(p))), p[|p| - 1]).value
  }

  // The addCost fold along a route.
  function PathCost(net: Net, p: Route): CostVector
    requires IsRoute(net, p)
  {
    if p == [] then MINIMUM else AddCost(StepCost(net, p), PathCost(net, Init(p)))
  }

  // No beginning of the route is worse than the limits in any component.
  predicate WithinLimits(net: Net, p: Route)
    requires IsRoute(net, p)
  {
    p == [] || (WithinLimits(net, Init(p)) && (net.limits.Some? ==> !Less(net.limits.value, PathCost(net, p))))
  }

  // ----- what the fold means for edges as addEdge makes them -----

  predicate Shaped(c: CostVector) {
    c[0].metric == AdditiveMin && c[1].metric == AdditiveMin && c[2].metric == ConcaveMax && c[3].metric == AdditiveMin
  }

  ghost predicate ShapedLinks(links: LinkArray) {
    forall u, i :: u in links && 0 <= i < |links[u]| ==> Shaped(links[u][i].cost)
  }

  function Total(net: Net, p: Route, c: nat): real
    requires IsRoute(net, p) && c < 4
  {
    if p == [] then 0.0 else StepCost(net, p)[c].value + Total(net, Init(p), c)
  }

  lemma {:induction false} CostToIsAnEdge(es: seq<Edge>, w: nat)
    requires CostTo(es, w).Some?
    ensures exists i :: 0 <= i < |es| && es[i] == Edge(w, CostTo(es, w).value)
  {
    if es[0].last != w {
      CostToIsAnEdge(es[1..], w);
      var i :| 0 <= i < |es[1..]| && es[1..][i] == Edge(w, CostTo(es[1..], w).value);
      assert es[i + 1] == Edge(w, CostTo(es, w).value);
    }
  }

  // Cost, delay and quality add up along a route.
  lemma {:induction false} PathCostAddsUp(net: Net, p: Route)
    requires ShapedLinks(net.links) && IsRoute(net, p)
    ensures Shaped(PathCost(net, p))
    ensures PathCost(net, p)[0].value == Total(net, p, 0)
    ensures PathCost(net, p)[1].value == Total(net, p, 1)
    ensures PathCost(net, p)[3].value == Total(net, p, 3)
  {
    if p != [] {
      PathCostAddsUp(net, Init(p));
      CostToIsAnEdge(EdgesOf(net.links, End(net.root, Init(p))), p[|p| - 1]);
    }
  }

  // The bandwidths of the links of a route.
  function Bandwidths(net: Net, p: Route): seq<real>
    requires IsRoute(net, p)
  {
    if p == [] then [] else Bandwidths(net, Init(p)) + [StepCost(net, p)[2].value]
  }

  // The bandwidth entry is the largest of the starting 1e102 and the bandwidths of the route's links.
  lemma {:induction false} BandwidthIsLargest(net: Net, p: Route)
    requires ShapedLinks(net.links) && IsRoute(net, p)
    ensures PathCost(net, p)[2].metric == ConcaveMax
    ensures PathCost(net, p)[2].value == MINIMUM[2].value || PathCost(net, p)[2].value in Bandwidths(net, p)
    ensures PathCost(net, p)[2].value >= MINIMUM[2].value
    ensures forall b :: b in Bandwidths(net, p) ==> b <= PathCost(net, p)[2].value
  {
    if p != [] {
      BandwidthIsLargest(net, Init(p));
      CostToIsAnEdge(EdgesOf(net.links, End(net.root, Init(p))), p[|p| - 1]);
    }
  }

  // So it says nothing about a route, if and only if no link of the route exceeds 1e102.
  lemma {:induction false} BandwidthIsConstant(net: Net, p: Route)
    requires ShapedLinks(net.links) && IsRoute(net, p)
    ensures PathCost(net, p)[2] == MINIMUM[2] <==> forall b :: b in Bandwidths(net, p) ==> b <= MINIMUM[2].value
  {
    BandwidthIsLargest(net, p);
  }

  // ----- slots -----

  datatype State = State(cost: CostVector, prev: nat, prevIdx: int, perm: bool)
  datatype Slot = Slot(id: nat, idx: nat)
  type RouteMap = map<nat, seq<State>>
  type Paths = map<Slot, Route>
  type Routes = map<nat, seq<Route>>

  predicate Has(rm: RouteMap, s: Slot) {
    s.id in rm && s.idx < |rm[s.id]|
  }

  function At(rm: RouteMap, s: Slot): State
    requires Has(rm, s)
  {
    rm[s.id][s.idx]
  }

  predicate PermAt(rm: RouteMap, s: Slot) {
    Has(rm, s) && At(rm, s).perm
  }

  // No permanent slot of rm differs in rm'.
  ghost predicate Frozen(rm: RouteMap, rm': RouteMap) {
    forall s {:trigger PermAt(rm, s)} :: PermAt(rm, s) ==> Has(rm', s) && At(rm', s) == At(rm, s)
  }

  // paths[s] is the predecessor chain of slot s, and the slot's cost is the fold along it.
  ghost predicate SlotOk(net: Net, rm: RouteMap, paths: Paths, s: Slot)
    requires Has(rm, s)
  {
    && s in paths && IsRoute(net, paths[s]) && WithinLimits(net, paths[s]) && End(net.root, paths[s]) == s.id
    && At(rm, s).cost == PathCost(net, paths[s])
    && (s.id == net.root ==> At(rm, s).perm)
    && (paths[s] != [] ==>
          && At(rm, s).prevIdx >= 0
          && var q := Slot(At(rm, s).prev, At(rm, s).prevIdx);
             PermAt(rm, q) && q in paths && paths[q] == Init(paths[s]) && q.id == End(net.root, Init(paths[s])))
  }

  ghost predicate StatesInv(net: Net, rm: RouteMap, paths: Paths) {
    && net.root in rm && |rm[net.root]| == net.k
    && (forall v :: v in rm ==> 0 < |rm[v]| <= net.k)
    && (forall s {:trigger SlotOk(net, rm, paths, s)} :: Has(rm, s) ==> SlotOk(net, rm, paths, s))
  }

  // ----- recorded routes -----

  function RoutesTo(kr: Routes, v: nat): seq<Route> {
    if v in kr then kr[v] else []
  }

  function PermIndices(rm: RouteMap, v: nat): set<nat>
    requires v in rm
  {
    set i: nat | i < |rm[v]| && rm[v][i].perm
  }

  // At most K distinct routes to v, as many as v has permanent slots.
  ghost predicate KeptAt(net: Net, rm: RouteMap, kr: Routes, v: nat) {
    && v in rm && v != net.root && v in kr && kr[v] != []
    && Distinct(kr[v]) && |kr[v]| == |PermIndices(rm, v)|
    && (forall j :: 0 <= j < |kr[v]| ==> IsRoute(net, kr[v][j]) && WithinLimits(net, kr[v][j]) && End(net.root, kr[v][j]) == v)
  }

  ghost predicate Recorded(paths: Paths, kr: Routes, s: Slot) {
    s in paths && paths[s] in RoutesTo(kr, s.id)
  }

  ghost predicate RoutesInv(net: Net, rm: RouteMap, paths: Paths, kr: Routes) {
    && (forall v {:trigger KeptAt(net, rm, kr, v)} :: v in kr ==> KeptAt(net, rm, kr, v))
    && (forall s {:trigger Recorded(paths, kr, s)} :: PermAt(rm, s) && s.id != net.root ==> Recorded(paths, kr, s))
  }

  // ----- writing a tentative slot -----

  // The states of w after slot s was appended or overwritten.
  function Put(rm: RouteMap, s: Slot, st: State): RouteMap
    requires s.id in rm ==> s.idx <= |rm[s.id]|
    requires s.id !in rm ==> s.idx == 0
  {
    var had := if s.id in rm then rm[s.id] else [];
    rm[s.id := if s.idx < |had| then had[s.idx := st] else had + [st]]
  }

  ghost predicate Writable(net: Net, rm: RouteMap, s: Slot) {
    && s.idx < net.k && s.id != net.root
    && (s.id in rm ==> s.idx <= |rm[s.id]|) && (s.id !in rm ==> s.idx == 0)
    && !PermAt(rm, s)
  }

  lemma PutHas(net: Net, rm: RouteMap, s: Slot, st: State, t: Slot)
    requires Writable(net, rm, s)
    ensures Has(Put(rm, s, st), t) <==> t == s || Has(rm, t)
    ensures Has(Put(rm, s, st), t) ==> At(Put(rm, s, st), t) == if t == s then st else At(rm, t)
  {
  }

  lemma PutFreezes(net: Net, rm: RouteMap, s: Slot, st: State)
    requires Writable(net, rm, s)
    ensures Frozen(rm, Put(rm, s, st))
  {
    forall t | PermAt(rm, t) ensures Has(Put(rm, s, st), t) && At(Put(rm, s, st), t) == At(rm, t) {
      PutHas(net, rm, s, st, t);
    }
  }

  // Slot e reaches w by an edge that its path does not visit.
  ghost predicate Continues(net: Net, rm: RouteMap, paths: Paths, e: Slot, w: nat) {
    && PermAt(rm, e) && e in paths && w != net.root && w !in paths[e]
    && CostTo(EdgesOf(net.links, e.id), w).Some?
  }

  function Successor(net: Net, rm: RouteMap, e: Slot, w: nat): State
    requires Has(rm, e) && CostTo(EdgesOf(net.links, e.id), w).Some?
  {
    State(AddCost(CostTo(EdgesOf(net.links, e.id), w).value, At(rm, e).cost), e.id, e.idx, false)
  }

  predicate Allowed(net: Net, cost: CostVector) {
    net.limits.Some? ==> !Less(net.limits.value, cost)
  }

  lemma {:induction false} NewSlotOk(net: Net, rm: RouteMap, paths: Paths, e: Slot, s: Slot)
    requires Has(rm, e) && SlotOk(net, rm, paths, e) && Continues(net, rm, paths, e, s.id) && Writable(net, rm, s)
    requires Allowed(net, Successor(net, rm, e, s.id).cost)
    ensures Has(Put(rm, s, Successor(net, rm, e, s.id)), s)
    ensures SlotOk(net, Put(rm, s, Successor(net, rm, e, s.id)), paths[s := paths[e] + [s.id]], s)
  {
    hide AddCost;
    var p := paths[e] + [s.id];
    assert Init(p) == paths[e];
    PutHas(net, rm, s, Successor(net, rm, e, s.id), e);
    assert StepCost(net, p) == CostTo(EdgesOf(net.links, e.id), s.id).value;
  }

  lemma {:induction false} OtherSlotOk(net: Net, rm: RouteMap, paths: Paths, s: Slot, st: State, p: Route, t: Slot)
    requires Has(rm, t) && SlotOk(net, rm, paths, t) && Writable(net, rm, s) && t != s
    ensures Has(Put(rm, s, st), t) && SlotOk(net, Put(rm, s, st), paths[s := p], t)
  {
    hide AddCost, PathCost, IsRoute, WithinLimits;
    PutHas(net, rm, s, st, t);
    if paths[t] != [] {
      PutHas(net, rm, s, st, Slot(At(rm, t).prev, At(rm, t).prevIdx));
    }
  }

  lemma PutKeepsStates(net: Net, rm: RouteMap, paths: Paths, e: Slot, s: Slot)
    requires StatesInv(net, rm, paths) && Continues(net, rm, paths, e, s.id) && Writable(net, rm, s)
    requires Allowed(net, Successor(net, rm, e, s.id).cost)
    ensures StatesInv(net, Put(rm, s, Successor(net, rm, e, s.id)), paths[s := paths[e] + [s.id]])
  {
    var st := Successor(net, rm, e, s.id);
    assert SlotOk(net, rm, paths, e);
    hide SlotOk, PathCost, AddCost, IsRoute, WithinLimits, Successor;
    var rm', paths' := Put(rm, s, st), paths[s := paths[e] + [s.id]];
    forall t | Has(rm', t) ensures SlotOk(net, rm', paths', t) {
      PutHas(net, rm, s, st, t);
      if t == s {
        NewSlotOk(net, rm, paths, e, s);
      } else {
        assert SlotOk(net, rm, paths, t);
        OtherSlotOk(net, rm, paths, s, st, paths[e] + [s.id], t);
      }
    }
  }

  lemma PutKeepsRoutes(net: Net, rm: RouteMap, paths: Paths, kr: Routes, s: Slot, st: State, p: Route)
    requires RoutesInv(net, rm, paths, kr) && Writable(net, rm, s) && !st.perm
    ensures RoutesInv(net, Put(rm, s, st), paths[s := p], kr)
  {
    hide IsRoute, WithinLimits;
    var rm' := Put(rm, s, st);
    forall v | v in kr ensures KeptAt(net, rm', kr, v) {
      assert KeptAt(net, rm, kr, v);
      assert PermIndices(rm', v) == PermIndices(rm, v) by {
        forall i: nat ensures i in PermIndices(rm', v) <==> i in PermIndices(rm, v) {
          PutHas(net, rm, s, st, Slot(v, i));
        }
      }
    }
    forall t | PermAt(rm', t) && t.id != net.root ensures Recorded(paths[s := p], kr, t) {
      PutHas(net, rm, s, st, t);
      assert Recorded(paths, kr, t);
    }
  }

  // ----- making a slot permanent and recording its route -----

  function Mark(rm: RouteMap, s: Slot): RouteMap
    requires Has(rm, s)
  {
    rm[s.id := rm[s.id][s.idx := At(rm, s).(perm := true)]]
  }

  function Record(kr: Routes, v: nat, p: Route): Routes {
    kr[v := RoutesTo(kr, v) + [p]]
  }

  lemma MarkHas(rm: RouteMap, s: Slot, t: Slot)
    requires Has(rm, s)
    ensures Has(Mark(rm, s), t) <==> Has(rm, t)
    ensures Has(rm, t) ==> At(Mark(rm, s), t) == if t == s then At(rm, t).(perm := true) else At(rm, t)
  {
  }

  lemma MarkKeepsStates(net: Net, rm: RouteMap, paths: Paths, s: Slot)
    requires StatesInv(net, rm, paths) && Has(rm, s)
    ensures StatesInv(net, Mark(rm, s), paths) && Frozen(rm, Mark(rm, s))
  {
    hide PathCost, AddCost, IsRoute, WithinLimits;
    var rm' := Mark(rm, s);
    forall t | Has(rm', t) ensures SlotOk(net, rm', paths, t) {
      MarkHas(rm, s, t);
      assert SlotOk(net, rm, paths, t);
      if paths[t] != [] {
        MarkHas(rm, s, Slot(At(rm, t).prev, At(rm, t).prevIdx));
      }
    }
    forall t | PermAt(rm, t) ensures Has(rm', t) && At(rm', t) == At(rm, t) {
      MarkHas(rm, s, t);
    }
  }

  lemma {:induction false} SubsetSmaller<T>(a: set<T>, b: set<T>)
    requires a <= b
    ensures |a| <= |b| && (a != b ==> |a| < |b|)
  {
    assert b == a + (b - a);
    assert |b| == |a| + |b - a|;
  }

  ghost function Below(n: nat): set<nat> {
    if n == 0 then {} else Below(n - 1) + {n - 1}
  }

  lemma {:induction false} BelowSize(n: nat)
    ensures |Below(n)| == n && forall i: nat :: i in Below(n) <==> i < n
  {
    if n > 0 { BelowSize(n - 1); }
  }

  // A node with a tentative slot has room for another route: the K_LIMITE test never turns one away.
  lemma RoomForRoute(net: Net, rm: RouteMap, paths: Paths, kr: Routes, s: Slot)
    requires StatesInv(net, rm, paths) && RoutesInv(net, rm, paths, kr)
    requires Has(rm, s) && !At(rm, s).perm
    ensures |RoutesTo(kr, s.id)| < net.k
  {
    if s.id in kr {
      assert KeptAt(net, rm, kr, s.id);
      var all := Below(|rm[s.id]|);
      BelowSize(|rm[s.id]|);
      assert s.idx in all && s.idx !in PermIndices(rm, s.id);
      SubsetSmaller(PermIndices(rm, s.id), all);
    }
  }

  lemma MarkedIndices(rm: RouteMap, s: Slot, v: nat)
    requires Has(rm, s) && !At(rm, s).perm && v in rm
    ensures PermIndices(Mark(rm, s), v) == PermIndices(rm, v) + if v == s.id then {s.idx} else {}
  {
    forall i: nat ensures i in PermIndices(Mark(rm, s), v) <==> i in PermIndices(rm, v) || (v == s.id && i == s.idx) {
      MarkHas(rm, s, Slot(v, i));
    }
  }

  lemma RecordKeepsOthers(net: Net, rm: RouteMap, kr: Routes, s: Slot, p: Route, v: nat)
    requires Has(rm, s) && !At(rm, s).perm && v != s.id && KeptAt(net, rm, kr, v)
    ensures KeptAt(net, Mark(rm, s), Record(kr, s.id, p), v)
  {
    hide IsRoute, WithinLimits;
    MarkedIndices(rm, s, v);
  }

  lemma RecordAddsRoute(net: Net, rm: RouteMap, paths: Paths, kr: Routes, s: Slot)
    requires StatesInv(net, rm, paths) && RoutesInv(net, rm, paths, kr)
    requires Has(rm, s) && !At(rm, s).perm && s in paths && paths[s] !in RoutesTo(kr, s.id)
    ensures KeptAt(net, Mark(rm, s), Record(kr, s.id, paths[s]), s.id)
  {
    var v, had := s.id, RoutesTo(kr, s.id);
    assert SlotOk(net, rm, paths, s);
    hide IsRoute, WithinLimits, SlotOk, Mark, StatesInv, Distinct;
    MarkedIndices(rm, s, v);
    UnmarkedIndex(rm, s);
    MarkedNodes(rm, s);
    assert Distinct(had) && |had| == |PermIndices(rm, v)|
           && (forall j :: 0 <= j < |had| ==> IsRoute(net, had[j]) && WithinLimits(net, had[j]) && End(net.root, had[j]) == v) by {
      if v in kr {
        assert KeptAt(net, rm, kr, v);
      } else {
        FirstRoute(net, rm, paths, kr, v);
        DistinctNone();
      }
    }
    hide RoutesInv, PermIndices;
    DistinctAppend(had, paths[s]);
  }

  lemma DistinctNone()
    ensures Distinct<Route>([])
  {
  }

  lemma DistinctAppend(rs: seq<Route>, p: Route)
    requires Distinct(rs) && p !in rs
    ensures Distinct(rs + [p])
  {
  }

  lemma MarkedNodes(rm: RouteMap, s: Slot)
    requires Has(rm, s)
    ensures Mark(rm, s).Keys == rm.Keys
  {
  }

  lemma UnmarkedIndex(rm: RouteMap, s: Slot)
    requires Has(rm, s) && !At(rm, s).perm
    ensures s.idx !in PermIndices(rm, s.id)
  {
  }

  lemma FirstRoute(net: Net, rm: RouteMap, paths: Paths, kr: Routes, v: nat)
    requires RoutesInv(net, rm, paths, kr) && v in rm && v !in kr && v != net.root
    ensures PermIndices(rm, v) == {}
  {
    forall i: nat ensures i !in PermIndices(rm, v) {
      assert PermAt(rm, Slot(v, i)) ==> Recorded(paths, kr, Slot(v, i));
    }
  }

  lemma RecordKeepsRoutes(net: Net, rm: RouteMap, paths: Paths, kr: Routes, s: Slot)
    requires StatesInv(net, rm, paths) && RoutesInv(net, rm, paths, kr)
    requires Has(rm, s) && !At(rm, s).perm && s in paths && paths[s] !in RoutesTo(kr, s.id)
    ensures RoutesInv(net, Mark(rm, s), paths, Record(kr, s.id, paths[s]))
  {
    hide IsRoute, WithinLimits, SlotOk, KeptAt;
    var rm', kr' := Mark(rm, s), Record(kr, s.id, paths[s]);
    forall v | v in kr' ensures KeptAt(net, rm', kr', v) {
      if v == s.id {
        RecordAddsRoute(net, rm, paths, kr, s);
      } else {
        assert KeptAt(net, rm, kr, v);
        RecordKeepsOthers(net, rm, kr, s, paths[s], v);
      }
    }
    forall t | PermAt(rm', t) && t.id != net.root ensures Recorded(paths, kr', t) {
      MarkHas(rm, s, t);
      if t != s {
        assert Recorded(paths, kr, t);
      }
    }
  }

  // ----- what the search has not done yet -----

  ghost function Targets(links: LinkArray): set<nat> {
    set u, i | u in links && 0 <= i < |links[u]| :: links[u][i].last
  }

  ghost function AllSlots(net: Net): set<Slot> {
    set v, i: nat | v in Targets(net.links) && i < net.k :: Slot(v, i)
  }

  // Slots that can still become permanent; the search is bounded by their number.
  ghost function Unmarked(net: Net, rm: RouteMap): set<Slot> {
    set s | s in AllSlots(net) && !PermAt(rm, s)
  }

  lemma FrozenUnmarked(net: Net, rm: RouteMap, rm': RouteMap)
    requires Frozen(rm, rm')
    ensures Unmarked(net, rm') <= Unmarked(net, rm)
  {
    forall s | s in Unmarked(net, rm') ensures s in Unmarked(net, rm) {
      if PermAt(rm, s) { assert PermAt(rm', s); }
    }
  }

  lemma FrozenTransitive(a: RouteMap, b: RouteMap, c: RouteMap)
    requires Frozen(a, b) && Frozen(b, c)
    ensures Frozen(a, c)
  {
    forall s | PermAt(a, s) ensures Has(c, s) && At(c, s) == At(a, s) {
      assert PermAt(b, s);
    }
  }

  lemma MarkLowersUnmarked(net: Net, rm: RouteMap, paths: Paths, s: Slot)
    requires StatesInv(net, rm, paths) && Has(rm, s) && !At(rm, s).perm
    ensures Unmarked(net, Mark(rm, s)) < Unmarked(net, rm)
  {
    MarkKeepsStates(net, rm, paths, s);
    FrozenUnmarked(net, rm, Mark(rm, s));
    assert SlotOk(net, rm, paths, s);
    var p := paths[s];
    CostToIsAnEdge(EdgesOf(net.links, End(net.root, Init(p))), s.id);
    assert s.id in Targets(net.links);
    assert s in AllSlots(net);
    assert s in Unmarked(net, rm) && s !in Unmarked(net, Mark(rm, s));
  }

  // ----- every reached node gets a route -----

  predicate Pending(rm: RouteMap, heap: multiset<Slot>, v: nat) {
    v in rm && exists i :: 0 <= i < |rm[v]| && Slot(v, i) in heap
  }

  // A node in routeMap has a route or waits in the heap.
  ghost predicate Alive(net: Net, rm: RouteMap, kr: Routes, heap: multiset<Slot>) {
    forall v {:trigger Pending(rm, heap, v)} :: v in rm && v != net.root && v !in kr ==> Pending(rm, heap, v)
  }

  // The first n edges of u lead to known nodes.
  ghost predicate ExpandedTo(net: Net, rm: RouteMap, u: nat, n: nat) {
    forall i :: 0 <= i < n && i < |EdgesOf(net.links, u)| ==> EdgesOf(net.links, u)[i].last in rm
  }

  ghost predicate Expanded(net: Net, rm: RouteMap, u: nat) {
    ExpandedTo(net, rm, u, |EdgesOf(net.links, u)|)
  }

  ghost predicate HeapInv(net: Net, rm: RouteMap, heap: multiset<Slot>) {
    && (forall s :: s in heap ==> Has(rm, s) && (s.id == net.root ==> s.idx == 0))
    && heap[Slot(net.root, 0)] <= 1
  }

  ghost predicate SearchInv(net: Net, rm: RouteMap, paths: Paths, kr: Routes, heap: multiset<Slot>) {
    && StatesInv(net, rm, paths) && RoutesInv(net, rm, paths, kr)
    && HeapInv(net, rm, heap) && Alive(net, rm, kr, heap)
  }

  // Nodes other than x whose routes were taken from the heap are expanded (x = None: all nodes).
  ghost predicate Progress(net: Net, rm: RouteMap, kr: Routes, heap: multiset<Slot>, x: Option<nat>) {
    net.limits.None? ==>
      forall u {:trigger Expanded(net, rm, u)} ::
        (u in kr || (u == net.root && Slot(net.root, 0) !in heap)) && x != Some(u) ==> Expanded(net, rm, u)
  }

  lemma PopKeepsInv(net: Net, rm: RouteMap, paths: Paths, kr: Routes, heap: multiset<Slot>, e: Slot)
    requires SearchInv(net, rm, paths, kr, heap) && e in heap
    requires e.id == net.root || e.id in kr
    ensures SearchInv(net, rm, paths, kr, heap - multiset{e})
  {
    hide StatesInv, RoutesInv;
    var rest := heap - multiset{e};
    forall v | v in rm && v != net.root && v !in kr ensures Pending(rm, rest, v) {
      assert Pending(rm, heap, v);
      var i :| 0 <= i < |rm[v]| && Slot(v, i) in heap;
      assert Slot(v, i) in rest;
    }
  }

  // ----- one edge -----

  // The worst tentative state among the first n, if any is worse than the ceiling.
  function Victim(states: seq<State>, n: nat): (CostVector, Option<nat>)
    requires n <= |states|
  {
    if n == 0 then (MAXIMUM, None)
    else
      var r := Victim(states, n - 1);
      if Less(r.0, states[n - 1].cost) && !states[n - 1].perm then (states[n - 1].cost, Some(n - 1)) else r
  }

  lemma {:induction false} VictimIsTentative(states: seq<State>, n: nat)
    requires n <= |states|
    ensures var j := Victim(states, n).1;
            j.Some? ==> j.value < n && !states[j.value].perm && states[j.value].cost == Victim(states, n).0
  {
    if n > 0 { VictimIsTentative(states, n - 1); }
  }

  // A state is chosen for replacement if and only if some tentative state is worse than the ceiling.
  lemma {:induction false} VictimExists(states: seq<State>, n: nat)
    requires n <= |states|
    ensures Victim(states, n).1.Some? <==> exists j :: 0 <= j < n && !states[j].perm && Less(MAXIMUM, states[j].cost)
    ensures Victim(states, n).1.None? ==> Victim(states, n).0 == MAXIMUM
  {
    if n > 0 { VictimExists(states, n - 1); }
  }

  // No tentative state behind the chosen one is worse.
  lemma {:induction false} VictimIsNotBeaten(states: seq<State>, n: nat, j: nat)
    requires n <= |states| && j < n && !states[j].perm
    requires Victim(states, n).1.Some? ==> Victim(states, n).1.value < j
    ensures !Less(Victim(states, n).0, states[j].cost)
  {
    VictimIsTentative(states, n);
    if j < n - 1 { VictimIsNotBeaten(states, n - 1, j); }
  }

  // Below the ceilings of maximumCost: cost 1e101, delay 1e100, quality 1e101.
  ghost predicate WithinCeilings(net: Net, p: Route)
    requires IsRoute(net, p)
  {
    Total(net, p, 0) <= MAXIMUM[0].value && Total(net, p, 1) <= MAXIMUM[1].value && Total(net, p, 3) <= MAXIMUM[3].value
  }

  // The cost of a route is worse than the ceiling if and only if one of the three sums exceeds its own.
  lemma {:induction false} CeilingIsExceeded(net: Net, p: Route)
    requires ShapedLinks(net.links) && IsRoute(net, p)
    ensures Less(MAXIMUM, PathCost(net, p)) <==> !WithinCeilings(net, p)
  {
    PathCostAddsUp(net, p);
    BandwidthIsLargest(net, p);
  }

  ghost predicate SlotWithin(net: Net, paths: Paths, s: Slot) {
    s in paths && IsRoute(net, paths[s]) && WithinCeilings(net, paths[s])
  }

  // In a full node every tentative slot has a route within the ceilings, if and only if no state is worse than
  // the ceiling.
  lemma {:induction false} CandidateExceeds(net: Net, rm: RouteMap, paths: Paths, w: nat)
    requires StatesInv(net, rm, paths) && ShapedLinks(net.links) && w in rm
    ensures Victim(rm[w], |rm[w]|).1.None? <==>
              forall s: Slot {:trigger SlotWithin(net, paths, s)} :: Has(rm, s) && s.id == w && !At(rm, s).perm ==> SlotWithin(net, paths, s)
  {
    hide PathCost, Less, WithinCeilings, IsRoute, WithinLimits;
    VictimExists(rm[w], |rm[w]|);
    forall s: Slot | Has(rm, s) && s.id == w ensures SlotWithin(net, paths, s) <==> !Less(MAXIMUM, rm[w][s.idx].cost) {
      assert SlotOk(net, rm, paths, s);
      CeilingIsExceeded(net, paths[s]);
    }
    if Victim(rm[w], |rm[w]|).1.Some? {
      var j :| 0 <= j < |rm[w]| && !rm[w][j].perm && Less(MAXIMUM, rm[w][j].cost);
      assert Has(rm, Slot(w, j)) && !SlotWithin(net, paths, Slot(w, j));
    }
  }

  // A full node keeps the K states it has, whatever the cost of a new route to it, if and only if all its
  // tentative slots have routes within the ceilings. Permanent slots do not matter.
  lemma {:induction false} FirstStatesStay(net: Net, rm: RouteMap, paths: Paths, path: Route, w: nat)
    requires StatesInv(net, rm, paths) && ShapedLinks(net.links) && net.limits.None?
    requires w in rm && |rm[w]| == net.k && w !in path
    ensures (forall cost :: Choose(net, rm, path, w, cost) == None) <==>
              forall s: Slot {:trigger SlotWithin(net, paths, s)} :: Has(rm, s) && s.id == w && !At(rm, s).perm ==> SlotWithin(net, paths, s)
  {
    CandidateExceeds(net, rm, paths, w);
    hide StatesInv, ShapedLinks, Victim, SlotWithin;
    var r := Victim(rm[w], |rm[w]|);
    if r.1.Some? {
      var cost := Undercut(r.0);
      assert Choose(net, rm, path, w, cost) == Some(Slot(w, r.1.value));
    }
  }

  // Every cost can be undercut.
  lemma {:induction false} Undercut(c: CostVector) returns (cost: CostVector)
    ensures Less(cost, c)
  {
    var better := if c[0].metric.AdditiveMin? || c[0].metric.ConcaveMin? then c[0].value - 1.0 else c[0].value + 1.0;
    cost := c[0 := Cost(better, c[0].metric)];
  }

  // The slot that an edge to w with the given cost writes, if any.
  function Choose(net: Net, rm: RouteMap, path: Route, w: nat, cost: CostVector): Option<Slot> {
    if w in path then None
    else if net.limits.Some? && Less(net.limits.value, cost) then None
    else if w !in rm then Some(Slot(w, 0))
    else if |rm[w]| < net.k then Some(Slot(w, |rm[w]|))
    else
      var r := Victim(rm[w], |rm[w]|);
      if Less(cost, r.0) && r.1.Some? then Some(Slot(w, r.1.value)) else None
  }

  // The last of the worse and worse tentative states beyond the ceiling.
  ghost predicate IsVictim(states: seq<State>, j: nat) {
    && j < |states| && !states[j].perm
    && (exists i :: 0 <= i <= j && !states[i].perm && Less(MAXIMUM, states[i].cost))
    && forall i :: j < i < |states| && !states[i].perm ==> !Less(states[j].cost, states[i].cost)
  }

  // A full node gives up a state only for a better one, and keeps all of them only if none is beyond the ceiling or the
  // victim is not worse than the new one.
  lemma {:induction false} FullNodeReplaces(net: Net, rm: RouteMap, path: Route, w: nat, cost: CostVector)
    requires w in rm && |rm[w]| >= net.k && w !in path && Allowed(net, cost)
    ensures match Choose(net, rm, path, w, cost)
            case Some(s) => s.id == w && IsVictim(rm[w], s.idx) && Less(cost, rm[w][s.idx].cost)
            case None => (forall j :: 0 <= j < |rm[w]| && !rm[w][j].perm ==> !Less(MAXIMUM, rm[w][j].cost))
                         || exists j: nat :: IsVictim(rm[w], j) && !Less(cost, rm[w][j].cost)
  {
    hide Less;
    var states := rm[w];
    var r := Victim(states, |states|);
    VictimIsTentative(states, |states|);
    VictimExists(states, |states|);
    if r.1.Some? {
      var v := r.1.value;
      forall j | v < j < |states| && !states[j].perm ensures !Less(states[v].cost, states[j].cost) {
        VictimIsNotBeaten(states, |states|, j);
      }
      VictimIsLate(states, |states|);
      assert IsVictim(states, v);
    }
  }

  // The victim does not stand before the first state beyond the ceiling.
  lemma {:induction false} VictimIsLate(states: seq<State>, n: nat)
    requires n <= |states|
    ensures var j := Victim(states, n).1; j.Some? ==> exists i :: 0 <= i <= j.value && i < n && !states[i].perm && Less(MAXIMUM, states[i].cost)
  {
    if n > 0 {
      VictimIsLate(states, n - 1);
      VictimIsTentative(states, n - 1);
      VictimExists(states, n - 1);
    }
  }

  lemma ChosenFits(net: Net, rm: RouteMap, path: Route, w: nat, cost: CostVector)
    ensures var c := Choose(net, rm, path, w, cost);
            c.Some? ==> c.value.id == w && if w in rm then c.value.idx <= |rm[w]| else c.value.idx == 0
  {
    hide Less;
    if w in rm { VictimIsTentative(rm[w], |rm[w]|); }
  }

  // ----- one turn of the search, for a given element of the heap -----

  datatype Memory = Memory(rm: RouteMap, paths: Paths, kr: Routes, heap: multiset<Slot>)

  // An edge of the permanent slot e, whose route is path.
  function RelaxOne(net: Net, m: Memory, e: Slot, path: Route, edge: Edge): (r: Memory)
    requires Has(m.rm, e)
    ensures Has(r.rm, e)
  {
    var cost := AddCost(edge.cost, At(m.rm, e).cost);
    ChosenFits(net, m.rm, path, edge.last, cost);
    match Choose(net, m.rm, path, edge.last, cost)
    case None => m
    case Some(s) =>
      Memory(Put(m.rm, s, State(cost, e.id, e.idx, false)), m.paths[s := path + [s.id]], m.kr, m.heap + multiset{s})
  }

  // The first n edges.
  function RelaxFirst(net: Net, m: Memory, e: Slot, path: Route, n: nat): (r: Memory)
    requires Has(m.rm, e) && n <= |EdgesOf(net.links, e.id)|
    ensures Has(r.rm, e)
  {
    if n == 0 then m else RelaxOne(net, RelaxFirst(net, m, e, path, n - 1), e, path, EdgesOf(net.links, e.id)[n - 1])
  }

  // The element stands for no new route: its node is finished, or has the route already.
  predicate NothingNew(net: Net, m: Memory, e: Slot)
    requires Has(m.rm, e) && e in m.paths
  {
    || (e.id != net.root && |m.rm[e.id]| == net.k && forall i :: 0 <= i < |m.rm[e.id]| ==> m.rm[e.id][i].perm)
    || (m.paths[e] != [] && m.paths[e] in RoutesTo(m.kr, e.id))
  }

  function Promoted(m: Memory, e: Slot): (r: Memory)
    requires Has(m.rm, e) && e in m.paths
    ensures Has(r.rm, e)
  {
    Memory(Mark(m.rm, e), m.paths, if m.paths[e] == [] then m.kr else Record(m.kr, e.id, m.paths[e]), m.heap - multiset{e})
  }

  function Turn(net: Net, m: Memory, e: Slot): Memory
    requires Has(m.rm, e) && e in m.paths
  {
    if NothingNew(net, m, e) then m.(heap := m.heap - multiset{e})
    else RelaxFirst(net, Promoted(m, e), e, m.paths[e], |EdgesOf(net.links, e.id)|)
  }

  lemma TurnIs(net: Net, m: Memory, e: Slot)
    requires SearchInv(net, m.rm, m.paths, m.kr, m.heap) && e in m.heap
    ensures Has(m.rm, e) && e in m.paths
    ensures NothingNew(net, m, e) ==> Turn(net, m, e) == m.(heap := m.heap - multiset{e})
    ensures !NothingNew(net, m, e) ==> Turn(net, m, e) == RelaxFirst(net, Promoted(m, e), e, m.paths[e], |EdgesOf(net.links, e.id)|)
  {
    hide RelaxFirst, Promoted, NothingNew;
    assert SlotOk(net, m.rm, m.paths, e);
  }

  function Start(net: Net): Memory {
    Memory(map[net.root := seq(net.k, i => State(MINIMUM, 0, -1, true))], map i: nat | i < net.k :: Slot(net.root, i) := [],
           map[], multiset{Slot(net.root, 0)})
  }

  // The turns for elements taken from the heap in this order; None if one is not in the heap when its turn comes.
  function Turns(net: Net, m: Memory, order: seq<Slot>): Option<Memory> {
    if order == [] then Some(m)
    else
      var e := order[|order| - 1];
      match Turns(net, m, order[..|order| - 1])
      case None => None
      case Some(mid) => if e in mid.heap && Has(mid.rm, e) && e in mid.paths then Some(Turn(net, mid, e)) else None
  }

  lemma NoTurns(net: Net, m: Memory)
    ensures Turns(net, m, []) == Some(m)
  {
  }

  // From m to m' the search comes closer to its end.
  ghost predicate Closer(net: Net, m: Memory, m': Memory) {
    || Unmarked(net, m'.rm) < Unmarked(net, m.rm)
    || (Unmarked(net, m'.rm) <= Unmarked(net, m.rm) && m'.heap[Slot(net.root, 0)] < m.heap[Slot(net.root, 0)])
    || (m'.rm == m.rm && m'.heap[Slot(net.root, 0)] <= m.heap[Slot(net.root, 0)] && |m'.heap| < |m.heap|)
  }

  lemma DroppingIsCloser(net: Net, m: Memory, e: Slot)
    requires e in m.heap
    ensures Closer(net, m, m.(heap := m.heap - multiset{e}))
  {
  }

  // What a search leaves when the heap yields its elements in this order; finished when the heap is empty.
  ghost predicate Outcome(net: Net, order: seq<Slot>, rm: RouteMap, kr: Routes, finished: bool) {
    match Turns(net, Start(net), order)
    case None => false
    case Some(m) => m.rm == rm && m.kr == kr && (finished ==> m.heap == multiset{})
  }

  lemma {:induction false} OneMoreTurn(net: Net, m: Memory, order: seq<Slot>, mid: Memory, e: Slot)
    requires Turns(net, m, order) == Some(mid) && e in mid.heap && Has(mid.rm, e) && e in mid.paths
    ensures Turns(net, m, order + [e]) == Some(Turn(net, mid, e))
  {
    assert (order + [e])[..|order|] == order;
  }

  lemma ChosenIsWritable(net: Net, rm: RouteMap, paths: Paths, path: Route, w: nat, cost: CostVector)
    requires StatesInv(net, rm, paths)
    ensures Choose(net, rm, path, w, cost).Some? ==>
              w !in path && Choose(net, rm, path, w, cost).value.id == w && Writable(net, rm, Choose(net, rm, path, w, cost).value)
    ensures Choose(net, rm, path, w, cost).Some? ==> Allowed(net, cost)
    ensures net.limits.None? && w !in path && w !in rm ==> Choose(net, rm, path, w, cost).Some?
  {
    hide SlotOk, Less;
    var c := Choose(net, rm, path, w, cost);
    if w in rm {
      VictimIsTentative(rm[w], |rm[w]|);
    }
    if c.Some? && w == net.root {
      assert |rm[w]| == net.k;
      RootIsPermanent(net, rm, paths, c.value);
    }
  }

  lemma RootIsPermanent(net: Net, rm: RouteMap, paths: Paths, s: Slot)
    requires StatesInv(net, rm, paths) && Has(rm, s) && s.id == net.root
    ensures At(rm, s).perm
  {
    assert SlotOk(net, rm, paths, s);
  }

  lemma {:induction false} PathNodesKnown(net: Net, rm: RouteMap, paths: Paths, s: Slot, w: nat)
    requires StatesInv(net, rm, paths) && Has(rm, s) && s in paths && w in paths[s]
    ensures w in rm
    decreases |paths[s]|
  {
    hide PathCost, IsRoute, WithinLimits;
    assert SlotOk(net, rm, paths, s);
    if w != s.id {
      assert paths[s] == Init(paths[s]) + [s.id];
      PathNodesKnown(net, rm, paths, Slot(At(rm, s).prev, At(rm, s).prevIdx), w);
    }
  }

  lemma PushKeepsInv(net: Net, rm: RouteMap, paths: Paths, kr: Routes, heap: multiset<Slot>, e: Slot, s: Slot)
    requires SearchInv(net, rm, paths, kr, heap)
    requires Continues(net, rm, paths, e, s.id) && Writable(net, rm, s) && Allowed(net, Successor(net, rm, e, s.id).cost)
    ensures SearchInv(net, Put(rm, s, Successor(net, rm, e, s.id)), paths[s := paths[e] + [s.id]], kr, heap + multiset{s})
  {
    var st := Successor(net, rm, e, s.id);
    PutKeepsStates(net, rm, paths, e, s);
    PutKeepsRoutes(net, rm, paths, kr, s, st, paths[e] + [s.id]);
    hide StatesInv, RoutesInv, Successor, Continues;
    var rm', heap' := Put(rm, s, st), heap + multiset{s};
    forall t | t in heap' ensures Has(rm', t) && (t.id == net.root ==> t.idx == 0) {
      PutHas(net, rm, s, st, t);
    }
    forall v | v in rm' && v != net.root && v !in kr ensures Pending(rm', heap', v) {
      if v == s.id {
        PutHas(net, rm, s, st, s);
        assert Slot(v, s.idx) in heap';
      } else {
        assert Pending(rm, heap, v);
        var i :| 0 <= i < |rm[v]| && Slot(v, i) in heap;
        assert Slot(v, i) in heap';
      }
    }
  }

  lemma GrowKeepsProgress(net: Net, rm: RouteMap, kr: Routes, heap: multiset<Slot>, x: Option<nat>, rm': RouteMap, heap': multiset<Slot>)
    requires Progress(net, rm, kr, heap, x) && rm.Keys <= rm'.Keys && (Slot(net.root, 0) in heap ==> Slot(net.root, 0) in heap')
    ensures Progress(net, rm', kr, heap', x)
  {
    if net.limits.None? {
      forall u | (u in kr || (u == net.root && Slot(net.root, 0) !in heap')) && x != Some(u) ensures Expanded(net, rm', u) {
        assert Expanded(net, rm, u);
      }
    }
  }

  // ----- every node that any walk reaches -----

  ghost predicate Walk(net: Net, p: Route) {
    p == [] || (Walk(net, Init(p)) && CostTo(EdgesOf(net.links, End(net.root, Init(p))), p[|p| - 1]).Some?)
  }

  lemma {:induction false} RouteIsWalk(net: Net, p: Route)
    requires IsRoute(net, p)
    ensures Walk(net, p)
  {
    if p != [] { RouteIsWalk(net, Init(p)); }
  }

  // Without limits and with an empty heap, every node that any walk from the root reaches has a route.
  lemma {:induction false} EveryWalkIsServed(net: Net, rm: RouteMap, paths: Paths, kr: Routes, p: Route)
    requires SearchInv(net, rm, paths, kr, multiset{}) && Progress(net, rm, kr, multiset{}, None) && net.limits.None?
    requires Walk(net, p)
    ensures End(net.root, p) in rm && (End(net.root, p) != net.root ==> End(net.root, p) in kr)
  {
    if p != [] {
      EveryWalkIsServed(net, rm, paths, kr, Init(p));
      hide StatesInv, RoutesInv;
      var u, v := End(net.root, Init(p)), End(net.root, p);
      assert Expanded(net, rm, u);
      CostToIsAnEdge(EdgesOf(net.links, u), v);
      assert v in rm;
      assert v != net.root && v !in kr ==> Pending(rm, multiset{}, v);
    } else {
      assert net.root in rm;
    }
  }
}
