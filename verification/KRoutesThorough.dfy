/** The K-routes search leaves no route out while a node has room: what a search keeps about the edges it has
    followed, for any order of the heap. */
module KRoutesThorough {
  import opened Options
  import opened Sequences
  import opened KRoutes

  function PathAt(m: Memory, s: Slot): Route {
    if s in m.paths then m.paths[s] else []
  }

  // A tentative slot waits in the heap.
  ghost predicate TentativeWaits(m: Memory) {
    forall s :: Has(m.rm, s) && !PermAt(m.rm, s) ==> s in m.heap
  }

  // No two slots of a node have the same route.
  ghost predicate PathsApart(net: Net, m: Memory) {
    forall s, t :: Has(m.rm, s) && Has(m.rm, t) && s != t && s.id == t.id && s.id != net.root ==> PathAt(m, s) != PathAt(m, t)
  }

  // Routes begin at the first slot of the root, and nothing is known before it is taken from the heap.
  ghost predicate RootFirst(net: Net, m: Memory) {
    && (forall s :: Has(m.rm, s) && s.id != net.root && At(m.rm, s).prev == net.root ==> At(m.rm, s).prevIdx == 0)
    && (Slot(net.root, 0) in m.heap ==> m.rm.Keys == {net.root})
  }

  ghost predicate InSlot(m: Memory, v: nat, p: Route) {
    exists i: nat :: PermAt(m.rm, Slot(v, i)) && PathAt(m, Slot(v, i)) == p
  }

  // Every recorded route is that of a permanent slot.
  ghost predicate RecordedInSlots(m: Memory) {
    forall v, p :: p in RoutesTo(m.kr, v) ==> InSlot(m, v, p)
  }

  ghost predicate Tracked(net: Net, m: Memory) {
    TentativeWaits(m) && PathsApart(net, m) && RootFirst(net, m) && RecordedInSlots(m)
  }

  // t was reached from e.
  ghost predicate ChildOf(net: Net, m: Memory, t: Slot, e: Slot) {
    Has(m.rm, t) && t.id != net.root && At(m.rm, t).prev == e.id && At(m.rm, t).prevIdx == e.idx
  }

  ghost predicate Full(net: Net, m: Memory, w: nat) {
    w in m.rm && |m.rm[w]| == net.k
  }

  // The edge of x leads back, or over the limits, or to a full node, or to a slot that continues x.
  ghost predicate EdgeFollowed(net: Net, m: Memory, x: Slot, edge: Edge)
    requires Has(m.rm, x)
  {
    || edge.last in PathAt(m, x)
    || !Allowed(net, AddCost(edge.cost, At(m.rm, x).cost))
    || Full(net, m, edge.last)
    || exists t :: ChildOf(net, m, t, x) && t.id == edge.last
  }

  // The first n edges of x have been followed.
  ghost predicate Followed(net: Net, m: Memory, x: Slot, n: nat)
    requires Has(m.rm, x)
  {
    forall i :: 0 <= i < n && i < |EdgesOf(net.links, x.id)| ==> EdgeFollowed(net, m, x, EdgesOf(net.links, x.id)[i])
  }

  // Slots of the root other than the first are never used.
  predicate Used(net: Net, m: Memory, x: Slot) {
    PermAt(m.rm, x) && (x.id == net.root ==> x.idx == 0 && x !in m.heap)
  }

  // All edges of permanent slots, except possibly e, have been followed.
  ghost predicate AllFollowed(net: Net, m: Memory, e: Option<Slot>) {
    forall x {:trigger Used(net, m, x)} :: Used(net, m, x) && e != Some(x) ==> Followed(net, m, x, |EdgesOf(net.links, x.id)|)
  }

  // What continues e so far came over its first n edges.
  ghost predicate Untouched(net: Net, m: Memory, e: Slot, n: nat) {
    forall t {:trigger ChildOf(net, m, t, e)} :: ChildOf(net, m, t, e) ==>
      exists i :: 0 <= i < n && i < |EdgesOf(net.links, e.id)| && EdgesOf(net.links, e.id)[i].last == t.id
  }

  // Between turns.
  ghost predicate Through(net: Net, m: Memory) {
    Tracked(net, m) && AllFollowed(net, m, None)
  }

  // In the turn of e, behind its first n edges.
  ghost predicate Midway(net: Net, m: Memory, e: Slot, n: nat) {
    && Tracked(net, m) && AllFollowed(net, m, Some(e)) && Used(net, m, e)
    && Slot(net.root, 0) !in m.heap && Followed(net, m, e, n) && Untouched(net, m, e, n)
  }

  // ----- one edge -----

  // m' is m with slot s of w, continuing e over its n-th edge.
  ghost predicate Extends(net: Net, m: Memory, m': Memory, e: Slot, n: nat, s: Slot) {
    && StatesInv(net, m.rm, m.paths) && Midway(net, m, e, n) && Unique(EdgesOf(net.links, e.id))
    && n < |EdgesOf(net.links, e.id)| && s.id == EdgesOf(net.links, e.id)[n].last && s.id !in PathAt(m, e)
    && Writable(net, m.rm, s) && (Has(m.rm, s) ==> |m.rm[s.id]| == net.k)
    && (exists cost :: m'.rm == Put(m.rm, s, State(cost, e.id, e.idx, false)))
    && m'.paths == m.paths[s := PathAt(m, e) + [s.id]] && m'.kr == m.kr && m'.heap == m.heap + multiset{s}
  }

  lemma {:induction false} ExtendedSlots(net: Net, m: Memory, m': Memory, e: Slot, n: nat, s: Slot, t: Slot)
    requires Extends(net, m, m', e, n, s)
    ensures Has(m'.rm, t) <==> t == s || Has(m.rm, t)
    ensures t != s && Has(m.rm, t) ==> At(m'.rm, t) == At(m.rm, t)
    ensures !PermAt(m'.rm, s) && !PermAt(m.rm, s) && At(m'.rm, s).prev == e.id && At(m'.rm, s).prevIdx == e.idx
    ensures PermAt(m'.rm, t) <==> PermAt(m.rm, t)
    ensures PathAt(m', t) == if t == s then PathAt(m, e) + [s.id] else PathAt(m, t)
    ensures e != s && Has(m.rm, e)
  {
    hide StatesInv, Midway, Unique;
    var cost :| m'.rm == Put(m.rm, s, State(cost, e.id, e.idx, false));
    PutHas(net, m.rm, s, State(cost, e.id, e.idx, false), t);
    PutHas(net, m.rm, s, State(cost, e.id, e.idx, false), s);
    assert Has(m.rm, e) && PermAt(m.rm, e) by { MidwayHas(net, m, e, n); }
  }

  lemma MidwayHas(net: Net, m: Memory, e: Slot, n: nat)
    requires Midway(net, m, e, n)
    ensures PermAt(m.rm, e) && Has(m.rm, e)
  {
  }

  // A slot with the route of another one that continues e continues e too.
  lemma {:induction false} SamePathSameParent(net: Net, m: Memory, e: Slot, t: Slot)
    requires StatesInv(net, m.rm, m.paths) && PathsApart(net, m) && RootFirst(net, m)
    requires PermAt(m.rm, e) && (e.id == net.root ==> e.idx == 0)
    requires Has(m.rm, t) && t.id != net.root
    ensures PathAt(m, t) == PathAt(m, e) + [t.id] ==> ChildOf(net, m, t, e)
  {
    hide PathCost, WithinLimits;
    if PathAt(m, t) == PathAt(m, e) + [t.id] {
      assert SlotOk(net, m.rm, m.paths, t) && SlotOk(net, m.rm, m.paths, e);
      var q := Slot(At(m.rm, t).prev, At(m.rm, t).prevIdx);
      assert Init(m.paths[t]) == PathAt(m, e);
      assert q.id == End(net.root, PathAt(m, e)) == e.id;
      assert PathAt(m, q) == PathAt(m, e);
    }
  }

  // The node of the n-th edge has no slot that continues e yet.
  lemma {:induction false} NoChildYet(net: Net, m: Memory, m': Memory, e: Slot, n: nat, s: Slot, t: Slot)
    requires Extends(net, m, m', e, n, s) && t.id == s.id
    ensures !ChildOf(net, m, t, e)
  {
    hide StatesInv, Tracked, AllFollowed, Followed;
  }

  lemma {:induction false} ExtendKeepsApart(net: Net, m: Memory, m': Memory, e: Slot, n: nat, s: Slot)
    requires Extends(net, m, m', e, n, s)
    ensures PathsApart(net, m')
  {
    forall t | Has(m'.rm, t) && t != s && t.id == s.id ensures PathAt(m', t) != PathAt(m', s) {
      ExtendedSlots(net, m, m', e, n, s, t);
      SamePathSameParent(net, m, e, t);
      NoChildYet(net, m, m', e, n, s, t);
    }
    hide Extends;
    forall t, u | Has(m'.rm, t) && Has(m'.rm, u) && t != u && t.id == u.id && t.id != net.root
      ensures PathAt(m', t) != PathAt(m', u)
    {
      ExtendApartPair(net, m, m', e, n, s, t, u);
    }
  }

  lemma {:induction false} ExtendApartPair(net: Net, m: Memory, m': Memory, e: Slot, n: nat, s: Slot, t: Slot, u: Slot)
    requires Extends(net, m, m', e, n, s)
    requires Has(m'.rm, t) && Has(m'.rm, u) && t != u && t.id == u.id && t.id != net.root
    requires forall x :: Has(m'.rm, x) && x != s && x.id == s.id ==> PathAt(m', x) != PathAt(m', s)
    ensures PathAt(m', t) != PathAt(m', u)
  {
    ExtendedSlots(net, m, m', e, n, s, t);
    ExtendedSlots(net, m, m', e, n, s, u);
    assert PathsApart(net, m);
  }

  lemma {:induction false} ExtendKeepsTracked(net: Net, m: Memory, m': Memory, e: Slot, n: nat, s: Slot)
    requires Extends(net, m, m', e, n, s)
    ensures Tracked(net, m')
  {
    ExtendKeepsApart(net, m, m', e, n, s);
    forall t | Has(m'.rm, t) ensures !PermAt(m'.rm, t) ==> t in m'.heap
                             ensures t.id != net.root && At(m'.rm, t).prev == net.root ==> At(m'.rm, t).prevIdx == 0 {
      ExtendedSlots(net, m, m', e, n, s, t);
    }
    forall v, p | p in RoutesTo(m'.kr, v) ensures InSlot(m', v, p) {
      assert InSlot(m, v, p);
      var i: nat :| PermAt(m.rm, Slot(v, i)) && PathAt(m, Slot(v, i)) == p;
      ExtendedSlots(net, m, m', e, n, s, Slot(v, i));
    }
    hide PathsApart;
    assert s != Slot(net.root, 0);
  }

  lemma {:induction false} ExtendKeepsEdge(net: Net, m: Memory, m': Memory, e: Slot, n: nat, s: Slot, x: Slot, edge: Edge)
    requires Extends(net, m, m', e, n, s) && PermAt(m.rm, x) && EdgeFollowed(net, m, x, edge)
    ensures PermAt(m'.rm, x) && EdgeFollowed(net, m', x, edge)
  {
    ExtendedSlots(net, m, m', e, n, s, x);
    if Full(net, m, edge.last) {
      ExtendKeepsFull(net, m, m', e, n, s, edge.last);
    } else if t :| ChildOf(net, m, t, x) && t.id == edge.last {
      ExtendedSlots(net, m, m', e, n, s, t);
      if t == s {
        ExtendKeepsFull(net, m, m', e, n, s, edge.last);
      } else {
        assert ChildOf(net, m', t, x);
      }
    }
  }

  lemma {:induction false} ExtendKeepsFull(net: Net, m: Memory, m': Memory, e: Slot, n: nat, s: Slot, w: nat)
    requires Extends(net, m, m', e, n, s) && (Full(net, m, w) || (w == s.id && Has(m.rm, s)))
    ensures Full(net, m', w)
  {
    hide StatesInv, Midway, Unique;
    var cost :| m'.rm == Put(m.rm, s, State(cost, e.id, e.idx, false));
  }

  lemma {:induction false} ExtendKeepsFollowed(net: Net, m: Memory, m': Memory, e: Slot, n: nat, s: Slot, x: Slot, k: nat)
    requires Extends(net, m, m', e, n, s) && PermAt(m.rm, x) && Followed(net, m, x, k)
    ensures PermAt(m'.rm, x) && Followed(net, m', x, k)
  {
    ExtendedSlots(net, m, m', e, n, s, x);
    forall i | 0 <= i < k && i < |EdgesOf(net.links, x.id)| ensures EdgeFollowed(net, m', x, EdgesOf(net.links, x.id)[i]) {
      ExtendKeepsEdge(net, m, m', e, n, s, x, EdgesOf(net.links, x.id)[i]);
    }
  }

  lemma {:induction false} ExtendGoesOn(net: Net, m: Memory, m': Memory, e: Slot, n: nat, s: Slot)
    requires Extends(net, m, m', e, n, s)
    ensures Midway(net, m', e, n + 1)
  {
    ExtendKeepsTracked(net, m, m', e, n, s);
    ExtendKeepsFollowed(net, m, m', e, n, s, e, n);
    ExtendedSlots(net, m, m', e, n, s, s);
    assert ChildOf(net, m', s, e) by { assert s.id != net.root; }
    var edges := EdgesOf(net.links, e.id);
    assert EdgeFollowed(net, m', e, edges[n]);
    assert Followed(net, m', e, n + 1);
    hide Tracked, StatesInv;
    forall t | ChildOf(net, m', t, e) ensures exists i :: 0 <= i < n + 1 && i < |edges| && edges[i].last == t.id {
      if t == s {
        assert edges[n].last == t.id;
      } else {
        ExtendedSlots(net, m, m', e, n, s, t);
        assert ChildOf(net, m, t, e);
      }
    }
    forall x | Used(net, m', x) && x != e ensures Followed(net, m', x, |EdgesOf(net.links, x.id)|) {
      ExtendedSlots(net, m, m', e, n, s, x);
      assert Used(net, m, x);
      ExtendKeepsFollowed(net, m, m', e, n, s, x, |EdgesOf(net.links, x.id)|);
    }
  }

  // An edge that writes nothing.
  lemma {:induction false} NothingWritten(net: Net, m: Memory, e: Slot, n: nat)
    requires StatesInv(net, m.rm, m.paths) && Midway(net, m, e, n) && n < |EdgesOf(net.links, e.id)|
    requires var edge := EdgesOf(net.links, e.id)[n];
             Choose(net, m.rm, PathAt(m, e), edge.last, AddCost(edge.cost, At(m.rm, e).cost)) == None
    ensures Midway(net, m, e, n + 1)
  {
    hide StatesInv, Tracked, AllFollowed, Untouched, Victim, Less;
    var edges := EdgesOf(net.links, e.id);
    if edges[n].last in m.rm { StatesBound(net, m, edges[n].last); }
    assert EdgeFollowed(net, m, e, edges[n]);
    UntouchedStays(net, m, e, n);
  }

  lemma StatesBound(net: Net, m: Memory, w: nat)
    requires StatesInv(net, m.rm, m.paths) && w in m.rm
    ensures |m.rm[w]| <= net.k
  {
  }

  lemma UntouchedStays(net: Net, m: Memory, e: Slot, n: nat)
    requires Untouched(net, m, e, n)
    ensures Untouched(net, m, e, n + 1)
  {
  }

  // Following the n-th edge of e.
  lemma {:induction false} RelaxGoesOn(net: Net, m: Memory, e: Slot, n: nat)
    requires StatesInv(net, m.rm, m.paths) && Midway(net, m, e, n) && Has(m.rm, e)
    requires Unique(EdgesOf(net.links, e.id)) && n < |EdgesOf(net.links, e.id)|
    ensures Midway(net, RelaxOne(net, m, e, PathAt(m, e), EdgesOf(net.links, e.id)[n]), e, n + 1)
  {
    var edge, path := EdgesOf(net.links, e.id)[n], PathAt(m, e);
    var cost := AddCost(edge.cost, At(m.rm, e).cost);
    ChosenIsWritable(net, m.rm, m.paths, path, edge.last, cost);
    ChosenIsNewOrFull(net, m, path, edge.last, cost);
    hide AddCost, StatesInv, Midway, Choose, Writable;
    match Choose(net, m.rm, path, edge.last, cost)
    case None => NothingWritten(net, m, e, n);
    case Some(s) =>
      var m' := RelaxOne(net, m, e, path, edge);
      assert Extends(net, m, m', e, n, s);
      ExtendGoesOn(net, m, m', e, n, s);
  }

  lemma {:induction false} ChosenIsNewOrFull(net: Net, m: Memory, path: Route, w: nat, cost: CostVector)
    requires StatesInv(net, m.rm, m.paths)
    ensures var c := Choose(net, m.rm, path, w, cost); c.Some? && Has(m.rm, c.value) ==> |m.rm[w]| == net.k && c.value.id == w
  {
    hide Victim, Less;
  }

  // ----- one turn -----

  lemma {:induction false} StartIsThrough(net: Net)
    requires net.k > 0
    ensures Through(net, Start(net))
  {
    var m := Start(net);
    forall s | Has(m.rm, s) ensures PermAt(m.rm, s) && s.id == net.root {}
  }

  // An element that stands for nothing new can be dropped: it is not tentative.
  lemma {:induction false} NothingNewIsThrough(net: Net, m: Memory, e: Slot)
    requires SearchInv(net, m.rm, m.paths, m.kr, m.heap) && Through(net, m) && e in m.heap
    requires Has(m.rm, e) && e in m.paths && NothingNew(net, m, e)
    ensures Through(net, m.(heap := m.heap - multiset{e}))
  {
    var m' := m.(heap := m.heap - multiset{e});
    NothingNewIsPermanent(net, m, e);
    hide SearchInv, NothingNew;
    DropIsTracked(net, m, e);
    hide Tracked;
    forall x | Used(net, m', x) ensures Followed(net, m', x, |EdgesOf(net.links, x.id)|) {
      assert Used(net, m, x);
      SameFollowed(net, m, m', x, |EdgesOf(net.links, x.id)|);
    }
  }

  lemma {:induction false} DropIsTracked(net: Net, m: Memory, e: Slot)
    requires Tracked(net, m) && PermAt(m.rm, e)
    ensures Tracked(net, m.(heap := m.heap - multiset{e}))
  {
    var m' := m.(heap := m.heap - multiset{e});
    forall s, t | Has(m'.rm, s) && Has(m'.rm, t) && s != t && s.id == t.id && s.id != net.root ensures PathAt(m', s) != PathAt(m', t) {
      assert PathAt(m, s) != PathAt(m, t);
    }
    hide PathsApart;
    forall v, p | p in RoutesTo(m'.kr, v) ensures InSlot(m', v, p) { assert InSlot(m, v, p); }
  }

  lemma {:induction false} SameFollowed(net: Net, m: Memory, m': Memory, x: Slot, n: nat)
    requires Has(m.rm, x) && Followed(net, m, x, n) && m'.rm == m.rm && m'.paths == m.paths
    ensures Followed(net, m', x, n)
  {
    forall i | 0 <= i < n && i < |EdgesOf(net.links, x.id)| ensures EdgeFollowed(net, m', x, EdgesOf(net.links, x.id)[i]) {
      assert EdgeFollowed(net, m, x, EdgesOf(net.links, x.id)[i]);
      if t :| ChildOf(net, m, t, x) && t.id == EdgesOf(net.links, x.id)[i].last {
        assert ChildOf(net, m', t, x);
      }
    }
  }

  lemma {:induction false} NothingNewIsPermanent(net: Net, m: Memory, e: Slot)
    requires SearchInv(net, m.rm, m.paths, m.kr, m.heap) && Tracked(net, m) && e in m.heap
    requires Has(m.rm, e) && e in m.paths && NothingNew(net, m, e)
    ensures e.id != net.root && PermAt(m.rm, e) && e.id in m.kr
  {
    assert SlotOk(net, m.rm, m.paths, e);
    assert e.id != net.root && PermAt(m.rm, e) ==> Recorded(m.paths, m.kr, e);
    if m.paths[e] != [] && m.paths[e] in RoutesTo(m.kr, e.id) {
      assert InSlot(m, e.id, m.paths[e]);
      var i: nat :| PermAt(m.rm, Slot(e.id, i)) && PathAt(m, Slot(e.id, i)) == m.paths[e];
      hide SearchInv, SlotOk;
      assert Slot(e.id, i) == e;
    }
  }

  // A new element is the root's, in its first turn, or a tentative slot; nothing continues it yet.
  lemma {:induction false} NewIsUntouched(net: Net, m: Memory, e: Slot)
    requires SearchInv(net, m.rm, m.paths, m.kr, m.heap) && Through(net, m) && e in m.heap
    requires Has(m.rm, e) && e in m.paths && !NothingNew(net, m, e)
    ensures e.id != net.root ==> !PermAt(m.rm, e)
    ensures forall t :: !ChildOf(net, m, t, e)
    ensures e.id == net.root ==> e == Slot(net.root, 0) && m.paths[e] == [] && PermAt(m.rm, e)
    ensures e.id != net.root ==> Slot(net.root, 0) !in m.heap && m.paths[e] != []
    ensures Slot(net.root, 0) !in m.heap - multiset{e}
  {
    assert SlotOk(net, m.rm, m.paths, e);
    assert e.id != net.root && PermAt(m.rm, e) ==> Recorded(m.paths, m.kr, e);
    forall t ensures !ChildOf(net, m, t, e) { NoParent(net, m, t, e); }
  }

  lemma {:induction false} NoParent(net: Net, m: Memory, t: Slot, e: Slot)
    requires SearchInv(net, m.rm, m.paths, m.kr, m.heap) && Through(net, m) && e in m.heap && Has(m.rm, e)
    requires e.id == net.root || !PermAt(m.rm, e)
    ensures !ChildOf(net, m, t, e)
  {
    if Has(m.rm, t) && t.id != net.root {
      assert SlotOk(net, m.rm, m.paths, t);
    }
  }

  lemma {:induction false} PromotedSlots(m: Memory, e: Slot, t: Slot)
    requires Has(m.rm, e) && e in m.paths
    ensures var m' := Promoted(m, e);
            && (Has(m'.rm, t) <==> Has(m.rm, t)) && (PermAt(m'.rm, t) <==> PermAt(m.rm, t) || t == e)
            && (Has(m.rm, t) ==> At(m'.rm, t) == if t == e then At(m.rm, t).(perm := true) else At(m.rm, t))
            && PathAt(m', t) == PathAt(m, t) && m'.rm.Keys == m.rm.Keys
            && (t.id in m.rm ==> |m'.rm[t.id]| == |m.rm[t.id]|)
  {
    MarkHas(m.rm, e, t);
  }

  lemma {:induction false} PromotedFollowed(net: Net, m: Memory, e: Slot, x: Slot, n: nat)
    requires Has(m.rm, e) && e in m.paths && PermAt(m.rm, x) && x != e && Followed(net, m, x, n)
    ensures PermAt(Promoted(m, e).rm, x) && Followed(net, Promoted(m, e), x, n)
  {
    hide Promoted;
    var m' := Promoted(m, e);
    PromotedSlots(m, e, x);
    forall i | 0 <= i < n && i < |EdgesOf(net.links, x.id)| ensures EdgeFollowed(net, m', x, EdgesOf(net.links, x.id)[i]) {
      var edge := EdgesOf(net.links, x.id)[i];
      assert EdgeFollowed(net, m, x, edge);
      PromotedSlots(m, e, Slot(edge.last, 0));
      if t :| ChildOf(net, m, t, x) && t.id == edge.last {
        PromotedSlots(m, e, t);
        assert ChildOf(net, m', t, x);
      }
    }
  }

  lemma {:induction false} PromotedTracked(net: Net, m: Memory, e: Slot)
    requires Tracked(net, m) && Has(m.rm, e) && e in m.paths && (m.paths[e] == [] || e.id != net.root)
    requires Slot(net.root, 0) !in m.heap - multiset{e}
    ensures Tracked(net, Promoted(m, e))
  {
    var m' := Promoted(m, e);
    forall s | Has(m'.rm, s)
      ensures !PermAt(m'.rm, s) ==> s in m'.heap
      ensures s.id != net.root && At(m'.rm, s).prev == net.root ==> At(m'.rm, s).prevIdx == 0
    {
      PromotedSlots(m, e, s);
    }
    forall s, t | Has(m'.rm, s) && Has(m'.rm, t) && s != t && s.id == t.id && s.id != net.root ensures PathAt(m', s) != PathAt(m', t) {
      PromotedSlots(m, e, s);
      PromotedSlots(m, e, t);
    }
    forall v, p | p in RoutesTo(m'.kr, v) ensures InSlot(m', v, p) {
      PromotedSlots(m, e, e);
      if p in RoutesTo(m.kr, v) {
        assert InSlot(m, v, p);
        var i: nat :| PermAt(m.rm, Slot(v, i)) && PathAt(m, Slot(v, i)) == p;
        PromotedSlots(m, e, Slot(v, i));
      } else {
        assert v == e.id && p == PathAt(m, e) && PermAt(m'.rm, Slot(v, e.idx));
      }
    }
  }

  lemma {:induction false} PromotedIsMidway(net: Net, m: Memory, e: Slot)
    requires SearchInv(net, m.rm, m.paths, m.kr, m.heap) && Through(net, m) && e in m.heap
    requires Has(m.rm, e) && e in m.paths && !NothingNew(net, m, e)
    ensures Midway(net, Promoted(m, e), e, 0)
  {
    NewIsUntouched(net, m, e);
    PromotedTracked(net, m, e);
    var m' := Promoted(m, e);
    assert m'.heap == m.heap - multiset{e};
    hide SearchInv, Tracked, Promoted, NothingNew;
    PromotedSlots(m, e, e);
    assert Used(net, m', e);
    forall t ensures !ChildOf(net, m', t, e) {
      PromotedSlots(m, e, t);
      assert !ChildOf(net, m, t, e);
    }
    forall x | Used(net, m', x) && x != e ensures Followed(net, m', x, |EdgesOf(net.links, x.id)|) {
      PromotedSlots(m, e, x);
      assert Used(net, m, x);
      PromotedFollowed(net, m, e, x, |EdgesOf(net.links, x.id)|);
    }
  }

  // All edges followed: the turn is over.
  lemma {:induction false} TurnIsOver(net: Net, m: Memory, e: Slot)
    requires Midway(net, m, e, |EdgesOf(net.links, e.id)|)
    ensures Through(net, m)
  {
    hide Tracked;
  }

  // ----- what the recorded routes are closed under -----

  // Every one-step continuation, within the limits, of the empty route or of a recorded route is recorded, unless its
  // node already has K routes.
  ghost predicate Closed(net: Net, kr: Routes) {
    forall p, w {:trigger p + [w]} ::
      (IsRoute(net, p + [w]) && WithinLimits(net, p + [w]) && |RoutesTo(kr, w)| < net.k
       && (p == [] || p in RoutesTo(kr, End(net.root, p)))) ==> p + [w] in RoutesTo(kr, w)
  }

  lemma {:induction false} FinishedIsClosed(net: Net, m: Memory)
    requires SearchInv(net, m.rm, m.paths, m.kr, m.heap) && Through(net, m) && m.heap == multiset{}
    ensures Closed(net, m.kr)
  {
    forall p, w | IsRoute(net, p + [w]) && WithinLimits(net, p + [w]) && |RoutesTo(m.kr, w)| < net.k
                  && (p == [] || p in RoutesTo(m.kr, End(net.root, p)))
      ensures p + [w] in RoutesTo(m.kr, w)
    {
      var e := TheSlotOf(net, m, p);
      ContinuationIsRecorded(net, m, e, p, w);
    }
  }

  lemma {:induction false} TheSlotOf(net: Net, m: Memory, p: Route) returns (e: Slot)
    requires SearchInv(net, m.rm, m.paths, m.kr, m.heap) && Through(net, m) && m.heap == multiset{} && net.k > 0
    requires p == [] || p in RoutesTo(m.kr, End(net.root, p))
    ensures Used(net, m, e) && e in m.paths && m.paths[e] == p && e.id == End(net.root, p)
  {
    if p == [] {
      e := Slot(net.root, 0);
      assert SlotOk(net, m.rm, m.paths, e);
    } else {
      assert InSlot(m, End(net.root, p), p);
      var i: nat :| PermAt(m.rm, Slot(End(net.root, p), i)) && PathAt(m, Slot(End(net.root, p), i)) == p;
      e := Slot(End(net.root, p), i);
      assert SlotOk(net, m.rm, m.paths, e);
    }
  }

  lemma {:induction false} ContinuationIsRecorded(net: Net, m: Memory, e: Slot, p: Route, w: nat)
    requires SearchInv(net, m.rm, m.paths, m.kr, m.heap) && Through(net, m) && m.heap == multiset{}
    requires Used(net, m, e) && e in m.paths && m.paths[e] == p && e.id == End(net.root, p)
    requires IsRoute(net, p + [w]) && WithinLimits(net, p + [w]) && |RoutesTo(m.kr, w)| < net.k
    ensures p + [w] in RoutesTo(m.kr, w)
  {
    var q, edges := p + [w], EdgesOf(net.links, e.id);
    assert Init(q) == p;
    CostToIsAnEdge(edges, w);
    var i :| 0 <= i < |edges| && edges[i] == Edge(w, CostTo(edges, w).value);
    assert SlotOk(net, m.rm, m.paths, e);
    assert EdgeFollowed(net, m, e, edges[i]);
    assert PathCost(net, q) == AddCost(edges[i].cost, At(m.rm, e).cost);
    NotFull(net, m, w);
    var t :| ChildOf(net, m, t, e) && t.id == w;
    ChildIsRecorded(net, m, e, t);
  }

  // With an empty heap every slot is permanent, so a full node has K routes.
  lemma {:induction false} NotFull(net: Net, m: Memory, w: nat)
    requires SearchInv(net, m.rm, m.paths, m.kr, m.heap) && Tracked(net, m) && m.heap == multiset{}
    requires w != net.root && |RoutesTo(m.kr, w)| < net.k
    ensures !Full(net, m, w)
  {
    if w in m.rm {
      forall i: nat | i < |m.rm[w]| ensures i in PermIndices(m.rm, w) {
        assert Has(m.rm, Slot(w, i));
        assert PermAt(m.rm, Slot(w, i));
      }
      BelowSize(|m.rm[w]|);
      assert PermIndices(m.rm, w) == Below(|m.rm[w]|);
      if w in m.kr {
        assert KeptAt(net, m.rm, m.kr, w);
      } else {
        FirstRoute(net, m.rm, m.paths, m.kr, w);
      }
    }
  }

  lemma {:induction false} ChildIsRecorded(net: Net, m: Memory, e: Slot, t: Slot)
    requires SearchInv(net, m.rm, m.paths, m.kr, m.heap) && TentativeWaits(m) && m.heap == multiset{}
    requires ChildOf(net, m, t, e) && e in m.paths
    ensures m.paths[e] + [t.id] in RoutesTo(m.kr, t.id)
  {
    assert SlotOk(net, m.rm, m.paths, t);
    assert PermAt(m.rm, t);
    assert Recorded(m.paths, m.kr, t);
    assert m.paths[t] == Init(m.paths[t]) + [t.id];
  }

  // ----- all routes -----

  // There are at most k routes within the limits to v.
  ghost predicate AtMost(net: Net, v: nat, k: nat) {
    exists rs: seq<Route> :: |rs| <= k && forall p :: IsRoute(net, p) && WithinLimits(net, p) && End(net.root, p) == v ==> p in rs
  }

  // If no node has more than K routes within the limits, all of them are recorded.
  lemma {:induction false} AllRoutesAreServed(net: Net, kr: Routes, p: Route)
    requires Closed(net, kr)
    requires forall v :: v in kr ==> Distinct(kr[v])
    requires forall v, j :: v in kr && 0 <= j < |kr[v]| ==> IsRoute(net, kr[v][j]) && WithinLimits(net, kr[v][j]) && End(net.root, kr[v][j]) == v
    requires forall v :: v != net.root ==> AtMost(net, v, net.k)
    requires IsRoute(net, p) && WithinLimits(net, p) && p != []
    ensures p in RoutesTo(kr, End(net.root, p))
  {
    var v := End(net.root, p);
    if Init(p) != [] { AllRoutesAreServed(net, kr, Init(p)); }
    assert p == Init(p) + [v];
    if |RoutesTo(kr, v)| >= net.k {
      assert AtMost(net, v, net.k);
      var rs: seq<Route> :| |rs| <= net.k && forall q :: IsRoute(net, q) && WithinLimits(net, q) && End(net.root, q) == v ==> q in rs;
      forall q | q in RoutesTo(kr, v) ensures q in rs {}
      if net.k > 0 { AllOfThem(RoutesTo(kr, v), rs, p); }
    }
  }

  lemma {:induction false} Elements(s: seq<Route>) returns (e: set<Route>)
    ensures (forall r :: r in e <==> r in s) && |e| <= |s| && (Distinct(s) ==> |e| == |s|)
  {
    if s == [] {
      e := {};
    } else {
      var init, last := s[..|s| - 1], s[|s| - 1];
      assert s == init + [last];
      var d := Elements(init);
      e := d + {last};
      if Distinct(s) { assert last !in init; }
    }
  }

  // Distinct elements of rs, at least as many as rs has: they are all.
  lemma {:induction false} AllOfThem(s: seq<Route>, rs: seq<Route>, p: Route)
    requires Distinct(s) && (forall q :: q in s ==> q in rs) && |s| >= |rs| && p in rs
    ensures p in s
  {
    var a := Elements(s);
    var b := Elements(rs);
    SubsetSmaller(a, b);
  }
}
