/** The double bookkeeping of links in src/base/Topology.cc: every link in a graph is listed
    by its source node and by its destination node. Editing operations as functions on values. */
module TopologyLinks {
  import opened Options
  import opened Sequences
  import opened TopologyGraph

  datatype Tables = Tables(link: map<LinkId, Link>, inLinks: map<NodeId, seq<LinkId>>, outLinks: map<NodeId, seq<LinkId>>)

  // s without the links in gone, order kept.
  function Keep(s: seq<LinkId>, gone: set<LinkId>): (r: seq<LinkId>)
    ensures forall l :: l in r <==> l in s && l !in gone
  {
    if s == [] then []
    else
      var init, last := s[..|s| - 1], s[|s| - 1];
      assert s == init + [last];
      if last in gone then Keep(init, gone) else Keep(init, gone) + [last]
  }

  // Which node each link has at one end.
  type Ends = map<LinkId, Option<NodeId>>
  type Lists = map<NodeId, seq<LinkId>>

  function Srcs(link: map<LinkId, Link>): Ends { map l | l in link :: link[l].src }
  function Dests(link: map<LinkId, Link>): Ends { map l | l in link :: link[l].dest }

  // One set of lists agrees with the ends stored in the links: every listed link exists and
  // belongs there, and every link with an end is listed exactly once, by that end.
  ghost predicate Side(nodes: set<NodeId>, m: Lists, ends: Ends) {
    && m.Keys == nodes
    && (forall n, l :: n in nodes && l in m[n] ==> l in ends && ends[l] == Some(n))
    && (forall n :: n in nodes ==> Distinct(m[n]))
    && (forall l :: l in ends && ends[l].Some? ==> ends[l].value in nodes && l in m[ends[l].value])
  }

  ghost predicate BothOrNone(link: map<LinkId, Link>) {
    forall l :: l in link ==> (link[l].src.Some? <==> link[l].dest.Some?)
  }

  ghost predicate Consistent(nodes: set<NodeId>, t: Tables) {
    && Side(nodes, t.inLinks, Dests(t.link))
    && Side(nodes, t.outLinks, Srcs(t.link))
    && BothOrNone(t.link)
  }

  // ----- Keep -----

  lemma {:induction false} KeepTwice(s: seq<LinkId>, a: set<LinkId>, b: set<LinkId>)
    ensures Keep(Keep(s, a), b) == Keep(s, a + b)
  {
    if s != [] {
      KeepTwice(s[..|s| - 1], a, b);
      var init, last := Keep(s[..|s| - 1], a), s[|s| - 1];
      if last !in a { assert (init + [last])[..|init|] == init; }
    }
  }

  lemma {:induction false} KeepAll(s: seq<LinkId>, a: set<LinkId>)
    requires forall l :: l in s ==> l !in a
    ensures Keep(s, a) == s
  {
    if s != [] {
      assert s == s[..|s| - 1] + [s[|s| - 1]];
      KeepAll(s[..|s| - 1], a);
    }
  }

  lemma {:induction false} KeepSame(s: seq<LinkId>, a: set<LinkId>, b: set<LinkId>)
    requires forall l :: l in s ==> (l in a <==> l in b)
    ensures Keep(s, a) == Keep(s, b)
  {
    if s != [] {
      assert s == s[..|s| - 1] + [s[|s| - 1]];
      KeepSame(s[..|s| - 1], a, b);
    }
  }

  lemma {:induction false} KeepOnce(s: seq<LinkId>, a: set<LinkId>)
    requires Distinct(s)
    ensures Distinct(Keep(s, a))
  {
    if s != [] {
      var init := s[..|s| - 1];
      assert s == init + [s[|s| - 1]];
      KeepOnce(init, a);
      forall i | 0 <= i < |init| ensures init[i] != s[|s| - 1] {}
      var r := Keep(init, a);
      forall i | 0 <= i < |r| ensures r[i] in init { assert r[i] in r; }
    }
  }

  lemma {:induction false} KeepConcat(s: seq<LinkId>, u: seq<LinkId>, a: set<LinkId>)
    ensures Keep(s + u, a) == Keep(s, a) + Keep(u, a)
  {
    if u == [] {
      assert s + u == s;
    } else {
      assert (s + u)[..|s + u| - 1] == s + u[..|u| - 1];
      KeepConcat(s, u[..|u| - 1], a);
    }
  }

  lemma OnlyHere(s: seq<LinkId>, i: nat)
    requires Distinct(s) && i < |s|
    ensures s[i] !in s[..i] && s[i] !in s[i + 1..]
  {
  }

  // Erasing the one occurrence of l.
  lemma {:induction false} EraseIsKeep(s: seq<LinkId>, i: nat, l: LinkId)
    requires Distinct(s) && i < |s| && s[i] == l
    ensures s[..i] + s[i + 1..] == Keep(s, {l})
  {
    OnlyHere(s, i);
    hide Distinct, Keep;
    assert s == s[..i] + ([l] + s[i + 1..]);
    EraseBetween(s[..i], l, s[i + 1..]);
  }

  lemma {:induction false} EraseBetween(a: seq<LinkId>, l: LinkId, b: seq<LinkId>)
    requires l !in a && l !in b
    ensures Keep(a + ([l] + b), {l}) == a + b
  {
    KeepAll(a, {l});
    KeepAll(b, {l});
    KeepConcat([l], b, {l});
    KeepConcat(a, [l] + b, {l});
    assert Keep([l], {l}) == [] by { assert [l][..0] == []; }
    assert [] + b == b;
  }

  // ----- operations -----

  function Push(m: Lists, n: NodeId, l: LinkId): Lists
    requires n in m
  {
    m[n := m[n] + [l]]
  }

  function Erase(m: Lists, n: NodeId, l: LinkId): Lists
    requires n in m
  {
    m[n := Keep(m[n], {l})]
  }

  predicate InGraph(t: Tables, l: LinkId) {
    && l in t.link && t.link[l].src.Some? && t.link[l].dest.Some?
    && t.link[l].src.value in t.outLinks && t.link[l].dest.value in t.inLinks
  }

  // unlinkFromSourceNode and unlinkFromDestNode
  function Unlink(t: Tables, l: LinkId): Tables
    requires InGraph(t, l)
  {
    t.(outLinks := Erase(t.outLinks, t.link[l].src.value, l), inLinks := Erase(t.inLinks, t.link[l].dest.value, l))
  }

  // The link with its new ends: a gate id survives only if that end stays where it was.
  function Reattach(l: Link, src: NodeId, dest: NodeId): Link {
    l.(srcGate := if l.src != Some(src) then -1 else l.srcGate,
       destGate := if l.dest != Some(dest) then -1 else l.destGate,
       src := Some(src), dest := Some(dest))
  }

  // addLink
  function Attach(t: Tables, l: LinkId, src: NodeId, dest: NodeId): Tables
    requires l in t.link && src in t.outLinks && dest in t.inLinks
  {
    var u := if InGraph(t, l) then Unlink(t, l) else t;
    Tables(u.link[l := Reattach(u.link[l], src, dest)], Push(u.inLinks, dest, l), Push(u.outLinks, src, l))
  }

  // deleteLink
  function Delete(t: Tables, l: LinkId): Tables
    requires InGraph(t, l)
  {
    var u := Unlink(t, l);
    u.(link := u.link - {l})
  }

  // ----- what the operations keep, one side at a time -----

  lemma EraseSide(nodes: set<NodeId>, m: Lists, ends: Ends, l: LinkId)
    requires Side(nodes, m, ends) && l in ends && ends[l].Some?
    ensures ends[l].value in m && Side(nodes, Erase(m, ends[l].value, l), ends - {l})
    ensures forall n :: n in nodes ==> l !in Erase(m, ends[l].value, l)[n]
  {
    KeepOnce(m[ends[l].value], {l});
  }

  lemma SkipSide(nodes: set<NodeId>, m: Lists, ends: Ends, l: LinkId)
    requires Side(nodes, m, ends) && l in ends && ends[l] == None
    ensures Side(nodes, m, ends - {l})
    ensures forall n :: n in nodes ==> l !in m[n]
  {
  }

  lemma PushSide(nodes: set<NodeId>, m: Lists, ends: Ends, n: NodeId, l: LinkId)
    requires Side(nodes, m, ends) && l !in ends && n in nodes
    ensures Side(nodes, Push(m, n, l), ends[l := Some(n)])
  {
    forall i | 0 <= i < |m[n]| ensures m[n][i] != l { assert m[n][i] in m[n]; }
  }

  lemma MoveSide(nodes: set<NodeId>, m: Lists, ends: Ends, n: NodeId, l: LinkId)
    requires Side(nodes, m, ends) && l in ends && n in nodes
    ensures ends[l].Some? ==> ends[l].value in m
    ensures n in m
    ensures Side(nodes, Push(if ends[l].Some? then Erase(m, ends[l].value, l) else m, n, l), ends[l := Some(n)])
  {
    if ends[l].Some? {
      EraseSide(nodes, m, ends, l);
      PushSide(nodes, Erase(m, ends[l].value, l), ends - {l}, n, l);
    } else {
      SkipSide(nodes, m, ends, l);
      PushSide(nodes, m, ends - {l}, n, l);
    }
    assert (ends - {l})[l := Some(n)] == ends[l := Some(n)];
  }

  lemma EndsOfUpdate(link: map<LinkId, Link>, l: LinkId, rec: Link)
    requires l in link && rec.src.Some? && rec.dest.Some?
    ensures Srcs(link[l := rec]) == Srcs(link)[l := rec.src]
    ensures Dests(link[l := rec]) == Dests(link)[l := rec.dest]
    ensures l in Srcs(link) && Srcs(link)[l] == link[l].src
    ensures l in Dests(link) && Dests(link)[l] == link[l].dest
    ensures BothOrNone(link) ==> BothOrNone(link[l := rec])
  {
  }

  // Linking, and relinking a link that is already in the graph, self-loops included.
  lemma AttachKeepsConsistent(nodes: set<NodeId>, t: Tables, l: LinkId, src: NodeId, dest: NodeId)
    requires Consistent(nodes, t) && l in t.link && src in nodes && dest in nodes
    ensures Consistent(nodes, Attach(t, l, src, dest))
  {
    MoveSide(nodes, t.outLinks, Srcs(t.link), src, l);
    MoveSide(nodes, t.inLinks, Dests(t.link), dest, l);
    EndsOfUpdate(t.link, l, Reattach(t.link[l], src, dest));
    hide Side, Push, Erase, Srcs, Dests;
  }

  // now is was, in its order, without the one entry l it may have had.
  ghost predicate LosesOnly(was: seq<LinkId>, now: seq<LinkId>, l: LinkId) {
    (l !in was && now == was) || exists i :: 0 <= i < |was| && was[i] == l && now == was[..i] + was[i + 1..]
  }

  // The lists of one side once l was put at the end of the list of n.
  ghost predicate MovedTo(was: Lists, now: Lists, n: NodeId, l: LinkId) {
    && now.Keys == was.Keys && n in was
    && now[n] != [] && now[n][|now[n]| - 1] == l && LosesOnly(was[n], now[n][..|now[n]| - 1], l)
    && (forall k :: k in was && k != n ==> LosesOnly(was[k], now[k], l))
  }

  // What linking l from src to dest means for all links and lists.
  ghost predicate Linked(t: Tables, u: Tables, l: LinkId, src: NodeId, dest: NodeId) {
    && u.link.Keys == t.link.Keys && l in t.link && (forall k :: k in t.link && k != l ==> u.link[k] == t.link[k])
    && u.link[l].src == Some(src) && u.link[l].dest == Some(dest)
    && u.link[l].weight == t.link[l].weight && u.link[l].enabled == t.link[l].enabled
    && u.link[l].srcGate == (if t.link[l].src == Some(src) then t.link[l].srcGate else -1)
    && u.link[l].destGate == (if t.link[l].dest == Some(dest) then t.link[l].destGate else -1)
    && MovedTo(t.outLinks, u.outLinks, src, l) && MovedTo(t.inLinks, u.inLinks, dest, l)
  }

  lemma KeepLosesOnly(s: seq<LinkId>, l: LinkId)
    requires Distinct(s)
    ensures LosesOnly(s, Keep(s, {l}), l)
  {
    if l in s {
      var i :| 0 <= i < |s| && s[i] == l;
      EraseIsKeep(s, i, l);
    } else {
      KeepAll(s, {l});
    }
  }

  lemma MoveIsMove(nodes: set<NodeId>, m: Lists, ends: Ends, n: NodeId, l: LinkId)
    requires Side(nodes, m, ends) && l in ends && n in nodes
    ensures (ends[l].Some? ==> ends[l].value in m) && n in m
    ensures MovedTo(m, Push(if ends[l].Some? then Erase(m, ends[l].value, l) else m, n, l), n, l)
  {
    var e := if ends[l].Some? then Erase(m, ends[l].value, l) else m;
    forall k | k in m ensures LosesOnly(m[k], e[k], l) {
      if ends[l] == Some(k) {
        KeepLosesOnly(m[k], l);
      } else {
        assert l !in m[k];
      }
    }
    hide LosesOnly, Side;
    var now := Push(e, n, l);
    assert now[n][..|now[n]| - 1] == e[n];
  }

  // The link goes from src to dest: it stands last in the list of outgoing links of src and of incoming links of
  // dest, everything else keeps its order, and a gate id survives exactly if its end stays where it was.
  lemma AttachLinks(nodes: set<NodeId>, t: Tables, l: LinkId, src: NodeId, dest: NodeId)
    requires Consistent(nodes, t) && l in t.link && src in nodes && dest in nodes
    ensures Linked(t, Attach(t, l, src, dest), l, src, dest)
  {
    MoveIsMove(nodes, t.outLinks, Srcs(t.link), src, l);
    MoveIsMove(nodes, t.inLinks, Dests(t.link), dest, l);
    EndsOfUpdate(t.link, l, Reattach(t.link[l], src, dest));
    hide Side, Push, Erase, MovedTo;
  }

  // What deleting l means for all links and lists.
  ghost predicate Unlinked(t: Tables, u: Tables, l: LinkId) {
    && u.link == t.link - {l} && u.outLinks.Keys == t.outLinks.Keys && u.inLinks.Keys == t.inLinks.Keys
    && (forall k :: k in t.outLinks ==> LosesOnly(t.outLinks[k], u.outLinks[k], l))
    && (forall k :: k in t.inLinks ==> LosesOnly(t.inLinks[k], u.inLinks[k], l))
  }

  lemma EraseIsErase(nodes: set<NodeId>, m: Lists, ends: Ends, l: LinkId)
    requires Side(nodes, m, ends) && l in ends && ends[l].Some?
    ensures ends[l].value in m && Erase(m, ends[l].value, l).Keys == m.Keys
    ensures forall k :: k in m ==> LosesOnly(m[k], Erase(m, ends[l].value, l)[k], l)
  {
    forall k | k in m ensures LosesOnly(m[k], Erase(m, ends[l].value, l)[k], l) {
      if ends[l] == Some(k) {
        KeepLosesOnly(m[k], l);
      } else {
        assert l !in m[k];
      }
    }
  }

  lemma DeleteUnlinks(nodes: set<NodeId>, t: Tables, l: LinkId)
    requires Consistent(nodes, t) && l in t.link && t.link[l].src.Some?
    ensures InGraph(t, l) && Unlinked(t, Delete(t, l), l)
  {
    assert l in Srcs(t.link) && l in Dests(t.link);
    EraseIsErase(nodes, t.outLinks, Srcs(t.link), l);
    EraseIsErase(nodes, t.inLinks, Dests(t.link), l);
    hide Side, LosesOnly, Keep;
  }

  // r is what is left of s, in its order, without the links in gone.
  ghost predicate Filters(s: seq<LinkId>, gone: set<LinkId>, r: seq<LinkId>) {
    if s == [] then r == []
    else if s[0] in gone then Filters(s[1..], gone, r)
    else r != [] && r[0] == s[0] && Filters(s[1..], gone, r[1..])
  }

  lemma {:induction false} FiltersAppend(s: seq<LinkId>, gone: set<LinkId>, r: seq<LinkId>, l: LinkId)
    requires Filters(s, gone, r)
    ensures Filters(s + [l], gone, if l in gone then r else r + [l])
    decreases |s|
  {
    if s == [] {
      assert s + [l] == [l] && [l][1..] == [] && r + [l] == [l];
    } else {
      assert (s + [l])[1..] == s[1..] + [l];
      if s[0] in gone {
        FiltersAppend(s[1..], gone, r, l);
      } else {
        FiltersAppend(s[1..], gone, r[1..], l);
        assert (r + [l])[1..] == r[1..] + [l];
      }
    }
  }

  lemma {:induction false} KeepFilters(s: seq<LinkId>, gone: set<LinkId>)
    ensures Filters(s, gone, Keep(s, gone))
  {
    if s != [] {
      KeepFilters(s[..|s| - 1], gone);
      FiltersAppend(s[..|s| - 1], gone, Keep(s[..|s| - 1], gone), s[|s| - 1]);
      assert s == s[..|s| - 1] + [s[|s| - 1]];
    }
  }

  // What deleting node x means for all links and lists.
  ghost predicate Cleared(t: Tables, u: Tables, x: NodeId) {
    && (forall l :: l in u.link <==> l in t.link && t.link[l].src != Some(x) && t.link[l].dest != Some(x))
    && (forall l :: l in u.link ==> u.link[l] == t.link[l])
    && u.outLinks.Keys == t.outLinks.Keys - {x} && u.inLinks.Keys == t.inLinks.Keys - {x}
    && (forall k :: k in u.outLinks ==> Filters(t.outLinks[k], t.link.Keys - u.link.Keys, u.outLinks[k]))
    && (forall k :: k in u.inLinks ==> Filters(t.inLinks[k], t.link.Keys - u.link.Keys, u.inLinks[k]))
  }

  lemma DeleteAroundClears(t: Tables, x: NodeId)
    ensures Cleared(t, DeleteAround(t, x), x)
  {
    var u, gone := DeleteAround(t, x), Incident(t.link, x);
    assert t.link.Keys - u.link.Keys == gone;
    forall k | k in u.outLinks ensures Filters(t.outLinks[k], gone, u.outLinks[k]) { KeepFilters(t.outLinks[k], gone); }
    forall k | k in u.inLinks ensures Filters(t.inLinks[k], gone, u.inLinks[k]) { KeepFilters(t.inLinks[k], gone); }
  }

  lemma DeleteKeepsConsistent(nodes: set<NodeId>, t: Tables, l: LinkId)
    requires Consistent(nodes, t) && l in t.link && t.link[l].src.Some?
    ensures InGraph(t, l) && Consistent(nodes, Delete(t, l))
    ensures l !in Delete(t, l).link
    ensures forall n :: n in nodes ==> l !in Delete(t, l).inLinks[n] && l !in Delete(t, l).outLinks[n]
  {
    EraseSide(nodes, t.outLinks, Srcs(t.link), l);
    EraseSide(nodes, t.inLinks, Dests(t.link), l);
    var d := Delete(t, l);
    assert Srcs(d.link) == Srcs(t.link) - {l};
    assert Dests(d.link) == Dests(t.link) - {l};
  }

  lemma PushThenErase(m: Lists, n: NodeId, l: LinkId)
    requires n in m && l !in m[n]
    ensures Erase(Push(m, n, l), n, l) == m
  {
    KeepConcat(m[n], [l], {l});
    KeepAll(m[n], {l});
    assert [l][..0] == [];
    assert Erase(Push(m, n, l), n, l) == m[n := m[n]] == m;
  }

  // Deleting a link that was just linked for the first time undoes the linking.
  lemma DeleteUndoesAttach(nodes: set<NodeId>, t: Tables, l: LinkId, src: NodeId, dest: NodeId)
    requires Consistent(nodes, t) && l in t.link && t.link[l].src == None && src in nodes && dest in nodes
    ensures InGraph(Attach(t, l, src, dest), l)
    ensures Delete(Attach(t, l, src, dest), l) == t.(link := t.link - {l})
  {
    SkipSide(nodes, t.outLinks, Srcs(t.link), l);
    SkipSide(nodes, t.inLinks, Dests(t.link), l);
    PushThenErase(t.inLinks, dest, l);
    PushThenErase(t.outLinks, src, l);
    assert Delete(Attach(t, l, src, dest), l).link == t.link - {l};
  }

  // ----- deleteNode -----

  // The lists with the links in gone taken out everywhere.
  function Prune(m: Lists, gone: set<LinkId>): Lists {
    map n | n in m :: Keep(m[n], gone)
  }

  lemma PruneNothing(m: Lists)
    ensures Prune(m, {}) == m
  {
    forall n | n in m ensures Keep(m[n], {}) == m[n] { KeepAll(m[n], {}); }
  }

  lemma PruneMore(m: Lists, gone: set<LinkId>, n: NodeId, l: LinkId)
    requires n in m
    requires forall k :: k in m && l in m[k] ==> k == n
    ensures Erase(Prune(m, gone), n, l) == Prune(m, gone + {l})
  {
    hide Keep;
    var a, b := Erase(Prune(m, gone), n, l), Prune(m, gone + {l});
    forall k | k in m ensures a[k] == b[k] {
      KeepTwice(m[k], gone, {l});
      if k != n { KeepSame(m[k], gone, gone + {l}); }
    }
    assert a.Keys == b.Keys;
  }

  ghost function Incident(link: map<LinkId, Link>, x: NodeId): set<LinkId> {
    set l | l in link && (link[l].src == Some(x) || link[l].dest == Some(x))
  }

  // The graph after deleteNode(x): x and its links are gone, everything else is as it was.
  ghost function DeleteAround(t: Tables, x: NodeId): Tables {
    var gone := Incident(t.link, x);
    Tables(t.link - gone, Prune(t.inLinks - {x}, gone), Prune(t.outLinks - {x}, gone))
  }

  lemma DropSide(nodes: set<NodeId>, m: Lists, ends: Ends, gone: set<LinkId>)
    requires Side(nodes, m, ends)
    ensures Side(nodes, Prune(m, gone), ends - gone)
  {
    hide Distinct, Keep;
    DropListed(nodes, m, ends, gone);
    DropEnds(nodes, m, ends, gone);
  }

  lemma DropListed(nodes: set<NodeId>, m: Lists, ends: Ends, gone: set<LinkId>)
    requires Side(nodes, m, ends)
    ensures Prune(m, gone).Keys == nodes
    ensures forall n :: n in nodes ==> Distinct(Prune(m, gone)[n])
    ensures forall n, l :: n in nodes && l in Prune(m, gone)[n] ==> l in ends - gone && (ends - gone)[l] == Some(n)
  {
    forall n | n in nodes ensures Distinct(Prune(m, gone)[n]) { KeepOnce(m[n], gone); }
    forall n, l | n in nodes && l in Prune(m, gone)[n] ensures l in ends - gone && (ends - gone)[l] == Some(n) {
      assert l in m[n];
    }
  }

  lemma DropEnds(nodes: set<NodeId>, m: Lists, ends: Ends, gone: set<LinkId>)
    requires Side(nodes, m, ends)
    ensures forall l :: l in ends - gone && (ends - gone)[l].Some? ==>
              (ends - gone)[l].value in nodes && l in Prune(m, gone)[(ends - gone)[l].value]
  {
    hide Distinct;
    forall l | l in ends - gone && (ends - gone)[l].Some?
      ensures (ends - gone)[l].value in nodes && l in Prune(m, gone)[(ends - gone)[l].value]
    {
      assert l in ends;
    }
  }

  // Taking out a node that no link has at its end.
  lemma DropNodeSide(nodes: set<NodeId>, m: Lists, ends: Ends, x: NodeId)
    requires Side(nodes, m, ends) && forall l :: l in ends ==> ends[l] != Some(x)
    ensures Side(nodes - {x}, m - {x}, ends)
  {
    hide Distinct;
  }

  lemma PruneSide(nodes: set<NodeId>, m: Lists, ends: Ends, x: NodeId, gone: set<LinkId>)
    requires Side(nodes, m, ends)
    requires forall l :: l in ends && ends[l] == Some(x) ==> l in gone
    ensures Side(nodes - {x}, Prune(m - {x}, gone), ends - gone)
  {
    DropSide(nodes, m, ends, gone);
    hide Side, Keep;
    DropNodeSide(nodes, Prune(m, gone), ends - gone, x);
    assert Prune(m - {x}, gone) == Prune(m, gone) - {x};
  }

  lemma DeleteAroundKeepsConsistent(nodes: set<NodeId>, t: Tables, x: NodeId)
    requires Consistent(nodes, t)
    ensures Consistent(nodes - {x}, DeleteAround(t, x))
  {
    hide Side, Prune;
    var gone := Incident(t.link, x);
    EndsOfLess(t.link, gone);
    PruneSide(nodes, t.inLinks, Dests(t.link), x, gone);
    PruneSide(nodes, t.outLinks, Srcs(t.link), x, gone);
  }

  lemma EndsOfLess(link: map<LinkId, Link>, gone: set<LinkId>)
    ensures Srcs(link - gone) == Srcs(link) - gone && Dests(link - gone) == Dests(link) - gone
    ensures BothOrNone(link) ==> BothOrNone(link - gone)
  {
  }

  function Elems(s: seq<LinkId>): set<LinkId> {
    set l | l in s
  }

  lemma ElemsNext(s: seq<LinkId>, i: nat)
    requires i < |s|
    ensures Elems(s[..i + 1]) == Elems(s[..i]) + {s[i]}
  {
    assert s[..i + 1] == s[..i] + [s[i]];
    assert forall l :: l in s[..i + 1] <==> l in s[..i] || l == s[i];
  }

  // Emptying the list of x, when its links are deleted too.
  lemma ClearSide(nodes: set<NodeId>, m: Lists, ends: Ends, x: NodeId)
    requires Side(nodes, m, ends) && x in nodes
    ensures Side(nodes, m[x := []], ends - Elems(m[x]))
  {
    var e := ends - Elems(m[x]);
    forall n, l | n in nodes && l in m[x := []][n] ensures l in e && e[l] == Some(n) {
      assert l in m[n] && ends[l] == Some(n);
      assert l !in m[x];
    }
    forall n | n in nodes ensures Distinct(m[x := []][n]) {}
    forall l | l in e && e[l].Some? ensures e[l].value in nodes && l in m[x := []][e[l].value] {
      assert l in ends;
    }
  }

  // The state between the two loops of deleteNode: the links out of x are gone.
  function WithoutOutgoing(t: Tables, x: NodeId): Tables
    requires x in t.outLinks
  {
    var gone := Elems(t.outLinks[x]);
    Tables(t.link - gone, Prune(t.inLinks, gone), t.outLinks[x := []])
  }

  function WithoutIncoming(t: Tables, x: NodeId): Tables
    requires x in t.inLinks
  {
    var gone := Elems(t.inLinks[x]);
    Tables(t.link - gone, t.inLinks[x := []], Prune(t.outLinks, gone))
  }

  // The two loops of deleteNode together remove exactly the links at x; a self-loop is
  // removed by the first and not seen by the second.
  lemma TwoLoopsDeleteAround(nodes: set<NodeId>, t: Tables, x: NodeId)
    requires Consistent(nodes, t) && x in nodes
    ensures x in t.outLinks && x in WithoutOutgoing(t, x).inLinks
    ensures var u := WithoutIncoming(WithoutOutgoing(t, x), x);
            Tables(u.link, u.inLinks - {x}, u.outLinks - {x}) == DeleteAround(t, x)
  {
    var a := WithoutOutgoing(t, x);
    var outs, ins := Elems(t.outLinks[x]), Elems(a.inLinks[x]);
    var u, d, gone := WithoutIncoming(a, x), DeleteAround(t, x), Incident(t.link, x);
    OutsAndIns(nodes, t, x);
    hide Consistent, Keep, Incident;
    assert u.link == d.link;
    PruneAgree(t.inLinks - {x}, outs, gone);
    PruneElsewhere(t.inLinks, x, outs);
    PruneAgree(t.outLinks - {x}, ins, gone);
    PruneElsewhere(t.outLinks, x, ins);
  }

  lemma OutsAndIns(nodes: set<NodeId>, t: Tables, x: NodeId)
    requires Consistent(nodes, t) && x in nodes
    ensures x in t.outLinks && x in t.inLinks
    ensures var outs, ins := Elems(t.outLinks[x]), Elems(Keep(t.inLinks[x], Elems(t.outLinks[x])));
            && outs + ins == Incident(t.link, x)
            && (forall n, l :: n in nodes && n != x && l in t.inLinks[n] ==> (l in outs <==> l in Incident(t.link, x)))
            && (forall n, l :: n in nodes && n != x && l in t.outLinks[n] ==> (l in ins <==> l in Incident(t.link, x)))
  {
    assert t.inLinks.Keys == nodes && t.outLinks.Keys == nodes;
    hide Side, Distinct;
    var outs, ins, both := Elems(t.outLinks[x]), Elems(Keep(t.inLinks[x], Elems(t.outLinks[x]))), Incident(t.link, x);
    forall l
      ensures l in outs <==> l in t.link && t.link[l].src == Some(x)
      ensures l in ins <==> l in t.link && t.link[l].dest == Some(x) && t.link[l].src != Some(x)
    {
      ListedAt(nodes, t, x, l);
    }
    forall n, l | n in nodes && n != x && l in t.inLinks[n] ensures l in outs <==> l in both {
      ListedAt(nodes, t, n, l);
    }
    forall n, l | n in nodes && n != x && l in t.outLinks[n] ensures l in ins <==> l in both {
      ListedAt(nodes, t, n, l);
    }
  }

  // A node lists exactly the links that have it at that end.
  lemma ListedAt(nodes: set<NodeId>, t: Tables, n: NodeId, l: LinkId)
    requires Consistent(nodes, t) && n in nodes
    ensures l in t.inLinks[n] <==> l in t.link && t.link[l].dest == Some(n)
    ensures l in t.outLinks[n] <==> l in t.link && t.link[l].src == Some(n)
  {
    hide Distinct;
    var srcs, dests := Srcs(t.link), Dests(t.link);
    assert l in t.link ==> srcs[l] == t.link[l].src && dests[l] == t.link[l].dest;
    assert l in t.outLinks[n] ==> l in srcs && srcs[l] == Some(n);
    assert l in t.inLinks[n] ==> l in dests && dests[l] == Some(n);
  }

  lemma PruneElsewhere(m: Lists, x: NodeId, a: set<LinkId>)
    requires x in m
    ensures Prune(m, a)[x := []] - {x} == Prune(m - {x}, a)
    ensures Prune(m[x := []], a) - {x} == Prune(m - {x}, a)
  {
  }

  lemma PruneAgree(m: Lists, a: set<LinkId>, b: set<LinkId>)
    requires forall n, l :: n in m && l in m[n] ==> (l in a <==> l in b)
    ensures Prune(m, a) == Prune(m, b)
  {
    forall n | n in m ensures Keep(m[n], a) == Keep(m[n], b) { KeepSame(m[n], a, b); }
  }
}
