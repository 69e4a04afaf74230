/** With limits the K-routes search depends on the order in which the heap yields its elements: a network
    in which one order ends well and another reaches a node without an edge list. */
module KRoutesOrder {
  import opened Options
  import opened Sequences
  import opened KRoutes

  // A link of this cost, and a route of this cost.
  function Link(cost: real): CostVector {
    Costs(cost, 0.0, 0.0, 0.0)
  }

  function Sum(cost: real): CostVector {
    Costs(cost, 0.0, 100.0 * GOOGOL, 0.0)
  }

  // From root 0 over 1 or over 2 to 3, and on to 4, which has no edge list; one route for each node, of cost
  // at most 6. Over 2 the route to 4 is within the limit, over 1 it is not.
  function Example(): Net {
    Net(map[0 := [Edge(1, Link(1.0)), Edge(2, Link(1.0))],
            1 := [Edge(3, Link(5.0))],
            2 := [Edge(3, Link(1.0))],
            3 := [Edge(4, Link(3.0))]], 0, 1, Some(Link(6.0)))
  }

  lemma CostOfStep(x: real, y: real)
    ensures AddCost(Link(x), Sum(y)) == Sum(x + y)
  {
  }

  lemma LimitOfSix(x: real)
    ensures Less(Link(6.0), Sum(x)) <==> x > 6.0
  {
  }

  function Tentative(cost: real, prev: nat): State {
    State(Sum(cost), prev, 0, false)
  }

  function Permanent(cost: real, prev: nat): State {
    State(Sum(cost), prev, 0, true)
  }

  // An edge to a node that is seen for the first time.
  lemma NewNode(m: Memory, e: nat, path: Route, w: nat, c: real, d: real)
    requires Has(m.rm, Slot(e, 0)) && At(m.rm, Slot(e, 0)).cost == Sum(d)
    requires w !in m.rm && w !in path && c + d <= 6.0
    ensures RelaxOne(Example(), m, Slot(e, 0), path, Edge(w, Link(c))) ==
              Memory(m.rm[w := [Tentative(c + d, e)]], m.paths[Slot(w, 0) := path + [w]], m.kr, m.heap + multiset{Slot(w, 0)})
  {
    CostOfStep(c, d);
    LimitOfSix(c + d);
    hide AddCost, Less;
    assert Choose(Example(), m.rm, path, w, Sum(c + d)) == Some(Slot(w, 0));
    assert [] + [Tentative(c + d, e)] == [Tentative(c + d, e)];
  }

  // An edge over the limit.
  lemma OverLimit(m: Memory, e: nat, path: Route, w: nat, c: real, d: real)
    requires Has(m.rm, Slot(e, 0)) && At(m.rm, Slot(e, 0)).cost == Sum(d) && c + d > 6.0
    ensures RelaxOne(Example(), m, Slot(e, 0), path, Edge(w, Link(c))) == m
  {
    CostOfStep(c, d);
    LimitOfSix(c + d);
  }

  // An edge to a node whose one state is permanent.
  lemma FullNode(m: Memory, e: nat, path: Route, w: nat, c: CostVector)
    requires Has(m.rm, Slot(e, 0)) && w in m.rm && |m.rm[w]| == 1 && m.rm[w][0].perm
    ensures RelaxOne(Example(), m, Slot(e, 0), path, Edge(w, c)) == m
  {
    assert Victim(m.rm[w], 0).1 == None;
    assert Victim(m.rm[w], 1).1 == None;
  }

  lemma PromotedTentative(m: Memory, e: nat, c: real, prev: nat)
    requires e in m.rm && m.rm[e] == [Tentative(c, prev)] && Slot(e, 0) in m.paths && m.paths[Slot(e, 0)] != [] && e !in m.kr
    ensures !NothingNew(Example(), m, Slot(e, 0))
    ensures Promoted(m, Slot(e, 0)) ==
              Memory(m.rm[e := [Permanent(c, prev)]], m.paths, m.kr[e := [m.paths[Slot(e, 0)]]], m.heap - multiset{Slot(e, 0)})
  {
    assert !m.rm[e][0].perm && RoutesTo(m.kr, e) == [];
    assert [Tentative(c, prev)][0 := Permanent(c, prev)] == [Permanent(c, prev)];
    assert [] + [m.paths[Slot(e, 0)]] == [m.paths[Slot(e, 0)]];
  }

  lemma OneEdge(m: Memory, e: Slot, path: Route)
    requires Has(m.rm, e) && |EdgesOf(Example().links, e.id)| == 1
    ensures RelaxFirst(Example(), m, e, path, 1) == RelaxOne(Example(), m, e, path, EdgesOf(Example().links, e.id)[0])
  {
    assert RelaxFirst(Example(), m, e, path, 0) == m;
  }

  const Root := State(MINIMUM, 0, -1, true)

  // After the root's turn.
  function M0(): Memory {
    Memory(map[0 := [Root], 1 := [Tentative(1.0, 0)], 2 := [Tentative(1.0, 0)]],
           map[Slot(0, 0) := [], Slot(1, 0) := [1], Slot(2, 0) := [2]], map[], multiset{Slot(1, 0), Slot(2, 0)})
  }

  lemma RootTurn()
    ensures Start(Example()) == Memory(map[0 := [Root]], map[Slot(0, 0) := []], map[], multiset{Slot(0, 0)})
    ensures Turn(Example(), Start(Example()), Slot(0, 0)) == M0()
  {
    var net, s, m := Example(), Start(Example()), Memory(map[0 := [Root]], map[Slot(0, 0) := []], map[], multiset{});
    assert seq(1, i => State(MINIMUM, 0, -1, true)) == [Root];
    assert s.paths == map[Slot(0, 0) := []];
    assert !NothingNew(net, s, Slot(0, 0));
    assert Promoted(s, Slot(0, 0)) == m by { assert [Root][0 := Root] == [Root]; }
    assert Root.cost == Sum(0.0);
    NewNode(m, 0, [], 1, 1.0, 0.0);
    var m' := RelaxOne(net, m, Slot(0, 0), [], Edge(1, Link(1.0)));
    NewNode(m', 0, [], 2, 1.0, 0.0);
    assert RelaxFirst(net, m, Slot(0, 0), [], 0) == m;
    assert RelaxFirst(net, m, Slot(0, 0), [], 1) == m';
    var m'' := RelaxOne(net, m', Slot(0, 0), [], Edge(2, Link(1.0)));
    assert RelaxFirst(net, m, Slot(0, 0), [], 2) == m'';
    assert [] + [1] == [1] && [] + [2] == [2];
    assert m''.rm == M0().rm && m''.paths == M0().paths && m''.heap == M0().heap;
  }

  // A turn of a node with one edge, to a node that is seen for the first time.
  lemma TurnToNew(m: Memory, e: nat, prev: nat, d: real, w: nat, c: real)
    requires e in m.rm && m.rm[e] == [Tentative(d, prev)] && e !in m.kr
    requires Slot(e, 0) in m.paths && m.paths[Slot(e, 0)] != [] && w !in m.paths[Slot(e, 0)] && w !in m.rm
    requires EdgesOf(Example().links, e) == [Edge(w, Link(c))] && c + d <= 6.0
    ensures Turn(Example(), m, Slot(e, 0)) ==
              Memory(m.rm[e := [Permanent(d, prev)]][w := [Tentative(c + d, e)]],
                     m.paths[Slot(w, 0) := m.paths[Slot(e, 0)] + [w]],
                     m.kr[e := [m.paths[Slot(e, 0)]]], m.heap - multiset{Slot(e, 0)} + multiset{Slot(w, 0)})
  {
    PromotedTentative(m, e, d, prev);
    OneEdge(Promoted(m, Slot(e, 0)), Slot(e, 0), m.paths[Slot(e, 0)]);
    hide Promoted, NothingNew, RelaxOne, RelaxFirst;
    NewNode(Promoted(m, Slot(e, 0)), e, m.paths[Slot(e, 0)], w, c, d);
  }

  // A turn of a node with one edge that is over the limit or leads to a full node.
  lemma TurnToNone(m: Memory, e: nat, prev: nat, d: real, w: nat, c: real)
    requires e in m.rm && m.rm[e] == [Tentative(d, prev)] && e !in m.kr
    requires Slot(e, 0) in m.paths && m.paths[Slot(e, 0)] != []
    requires EdgesOf(Example().links, e) == [Edge(w, Link(c))]
    requires c + d > 6.0 || (w != e && w in m.rm && |m.rm[w]| == 1 && m.rm[w][0].perm)
    ensures Turn(Example(), m, Slot(e, 0)) ==
              Memory(m.rm[e := [Permanent(d, prev)]], m.paths, m.kr[e := [m.paths[Slot(e, 0)]]], m.heap - multiset{Slot(e, 0)})
  {
    PromotedTentative(m, e, d, prev);
    OneEdge(Promoted(m, Slot(e, 0)), Slot(e, 0), m.paths[Slot(e, 0)]);
    hide Promoted, NothingNew, RelaxOne, RelaxFirst;
    if c + d > 6.0 {
      OverLimit(Promoted(m, Slot(e, 0)), e, m.paths[Slot(e, 0)], w, c, d);
    } else {
      FullNode(Promoted(m, Slot(e, 0)), e, m.paths[Slot(e, 0)], w, Link(c));
    }
  }

  // The states after the turns of 1, 3 and 2, in this order.
  function A1(): Memory {
    Memory(map[0 := [Root], 1 := [Permanent(1.0, 0)], 2 := [Tentative(1.0, 0)], 3 := [Tentative(6.0, 1)]],
           map[Slot(0, 0) := [], Slot(1, 0) := [1], Slot(2, 0) := [2], Slot(3, 0) := [1, 3]],
           map[1 := [[1]]], multiset{Slot(2, 0), Slot(3, 0)})
  }

  function A2(): Memory {
    A1().(rm := A1().rm[3 := [Permanent(6.0, 1)]], kr := map[1 := [[1]], 3 := [[1, 3]]], heap := multiset{Slot(2, 0)})
  }

  function A3(): Memory {
    A2().(rm := A2().rm[2 := [Permanent(1.0, 0)]], kr := map[1 := [[1]], 3 := [[1, 3]], 2 := [[2]]], heap := multiset{})
  }

  // The states after the turns of 2, 3 and 4, in this order.
  function B1(): Memory {
    Memory(map[0 := [Root], 1 := [Tentative(1.0, 0)], 2 := [Permanent(1.0, 0)], 3 := [Tentative(2.0, 2)]],
           map[Slot(0, 0) := [], Slot(1, 0) := [1], Slot(2, 0) := [2], Slot(3, 0) := [2, 3]],
           map[2 := [[2]]], multiset{Slot(1, 0), Slot(3, 0)})
  }

  function B2(): Memory {
    Memory(B1().rm[3 := [Permanent(2.0, 2)]][4 := [Tentative(5.0, 3)]], B1().paths[Slot(4, 0) := [2, 3, 4]],
           map[2 := [[2]], 3 := [[2, 3]]], multiset{Slot(1, 0), Slot(4, 0)})
  }

  function B3(): Memory {
    B2().(rm := B2().rm[4 := [Permanent(5.0, 3)]], kr := map[2 := [[2]], 3 := [[2, 3]], 4 := [[2, 3, 4]]], heap := multiset{Slot(1, 0)})
  }

  // The turn of e leads from m to m'.
  ghost predicate Leads(m: Memory, e: nat, m': Memory) {
    Slot(e, 0) in m.heap && Has(m.rm, Slot(e, 0)) && Slot(e, 0) in m.paths && Turn(Example(), m, Slot(e, 0)) == m'
  }

  lemma Exchange(x: Slot, y: Slot, z: Slot)
    ensures multiset{x, y} - multiset{y} + multiset{z} == multiset{x, z}
    ensures multiset{y, x} - multiset{y} + multiset{z} == multiset{x, z}
  {
  }

  lemma ToA1()
    ensures Leads(M0(), 1, A1())
  {
    TurnToNew(M0(), 1, 0, 1.0, 3, 5.0);
    hide Turn;
    assert [1] + [3] == [1, 3];
    Exchange(Slot(2, 0), Slot(1, 0), Slot(3, 0));
  }

  lemma ToA2()
    ensures Leads(A1(), 3, A2())
  {
    TurnToNone(A1(), 3, 1, 6.0, 4, 3.0);
    hide Turn;
    assert multiset{Slot(2, 0), Slot(3, 0)} - multiset{Slot(3, 0)} == multiset{Slot(2, 0)};
  }

  lemma ToA3()
    ensures Leads(A2(), 2, A3())
  {
    TurnToNone(A2(), 2, 0, 1.0, 3, 1.0);
    hide Turn;
    assert multiset{Slot(2, 0)} - multiset{Slot(2, 0)} == multiset{};
  }

  lemma ToB1()
    ensures Leads(M0(), 2, B1())
  {
    TurnToNew(M0(), 2, 0, 1.0, 3, 1.0);
    hide Turn;
    assert [2] + [3] == [2, 3];
    Exchange(Slot(1, 0), Slot(2, 0), Slot(3, 0));
  }

  lemma ToB2()
    ensures Leads(B1(), 3, B2())
  {
    TurnToNew(B1(), 3, 2, 2.0, 4, 3.0);
    hide Turn;
    assert [2, 3] + [4] == [2, 3, 4];
    Exchange(Slot(1, 0), Slot(3, 0), Slot(4, 0));
  }

  lemma ToB3()
    ensures Leads(B2(), 4, B3())
  {
    PromotedTentative(B2(), 4, 5.0, 3);
    assert multiset{Slot(1, 0), Slot(4, 0)} - multiset{Slot(4, 0)} == multiset{Slot(1, 0)};
    hide Promoted, NothingNew;
    assert RelaxFirst(Example(), Promoted(B2(), Slot(4, 0)), Slot(4, 0), [2, 3, 4], 0) == Promoted(B2(), Slot(4, 0));
  }

  lemma AfterRoot()
    ensures Turns(Example(), Start(Example()), [Slot(0, 0)]) == Some(M0())
  {
    RootTurn();
    var net, s := Example(), Start(Example());
    assert Turns(net, s, []) == Some(s);
    OneMoreTurn(net, s, [], s, Slot(0, 0));
    assert [] + [Slot(0, 0)] == [Slot(0, 0)];
  }

  lemma Extend(order: seq<Slot>, m: Memory, e: nat, m': Memory)
    requires Turns(Example(), Start(Example()), order) == Some(m) && Leads(m, e, m')
    ensures Turns(Example(), Start(Example()), order + [Slot(e, 0)]) == Some(m')
  {
    hide Turns, Turn, Start, Example;
    OneMoreTurn(Example(), Start(Example()), order, m, Slot(e, 0));
  }

  // Three turns after the root's.
  lemma FourTurns(e: nat, f: nat, g: nat, m1: Memory, m2: Memory, m3: Memory)
    requires Leads(M0(), e, m1) && Leads(m1, f, m2) && Leads(m2, g, m3)
    ensures Turns(Example(), Start(Example()), [Slot(0, 0), Slot(e, 0), Slot(f, 0), Slot(g, 0)]) == Some(m3)
  {
    hide Turns, Start, Example, M0, Leads;
    AfterRoot();
    var o1, o2, o3 := [Slot(0, 0)], [Slot(0, 0), Slot(e, 0)], [Slot(0, 0), Slot(e, 0), Slot(f, 0)];
    Extend(o1, M0(), e, m1);
    assert o1 + [Slot(e, 0)] == o2;
    Extend(o2, m1, f, m2);
    assert o2 + [Slot(f, 0)] == o3;
    Extend(o3, m2, g, m3);
    assert o3 + [Slot(g, 0)] == [Slot(0, 0), Slot(e, 0), Slot(f, 0), Slot(g, 0)];
  }

  lemma OverOne()
    ensures Outcome(Example(), [Slot(0, 0), Slot(1, 0), Slot(3, 0), Slot(2, 0)], A3().rm, A3().kr, true)
  {
    ToA1();
    ToA2();
    ToA3();
    hide Leads, Turns;
    FourTurns(1, 3, 2, A1(), A2(), A3());
  }

  lemma OverTwo()
    ensures Outcome(Example(), [Slot(0, 0), Slot(2, 0), Slot(3, 0), Slot(4, 0)], B3().rm, B3().kr, false)
  {
    ToB1();
    ToB2();
    ToB3();
    hide Leads, Turns;
    FourTurns(2, 3, 4, B1(), B2(), B3());
  }

  // The same network and limits: over node 1 first, 3 is reached at cost 6, and the search ends with routes to
  // 1, 2 and 3; over node 2 first, 3 is reached at cost 2 and 4 at cost 5, a route to 4 is recorded, and the search
  // fails because 4 has no edge list. So with limits neither the nodes served nor the error are determined by
  // the network.
  lemma OrderDecides()
    ensures exists order, rm, kr :: Outcome(Example(), order, rm, kr, true) && kr.Keys == {1, 2, 3} <= Example().links.Keys
    ensures exists order, rm, kr :: Outcome(Example(), order, rm, kr, false) && 4 in kr && 4 !in Example().links
  {
    OverOne();
    OverTwo();
    hide Outcome;
    assert A3().kr.Keys == {1, 2, 3} && 4 in B3().kr;
  }
}
