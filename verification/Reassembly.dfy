/** The reassembly buffer for fragmented datagrams (src/base/ReassemblyBuffer.cc). Offsets are
    16-bit numbers that are only compared and copied, never computed with. */
module Reassembly {
  import opened Options

  datatype Region = Region(beg: nat, end: nat, islast: bool)

  // The range already assembled, and the fragments put aside (none for the null pointer).
  datatype Buffer = Buffer(main: Region, fragments: seq<Region>)

  const EMPTY := Buffer(Region(0, 0, false), [])

  // What one stored fragment does to the assembled range; None if it stays put aside.
  function Absorb(main: Region, f: Region): Option<Region> {
    if main.end == f.beg then Some(Region(main.beg, f.end, main.islast || f.islast))
    else if main.beg == f.end then Some(main.(beg := f.beg))
    else if main.beg <= f.beg && main.end >= f.end then Some(main)
    else None
  }

  // The for loop of mergeFragments from position i on.
  function Pass(b: Buffer, i: nat): (r: Buffer)
    requires i <= |b.fragments|
    ensures |r.fragments| <= |b.fragments|
    decreases |b.fragments| - i
  {
    if i == |b.fragments| then b
    else match Absorb(b.main, b.fragments[i])
      case Some(m) => Pass(Buffer(m, b.fragments[..i] + b.fragments[i + 1..]), i)
      case None => Pass(b, i + 1)
  }

  // mergeFragments: passes until one deletes nothing.
  function MergeFragments(b: Buffer): Buffer
    decreases |b.fragments|
  {
    var p := Pass(b, 0);
    if |p.fragments| < |b.fragments| then MergeFragments(p) else p
  }

  // merge
  function Merge(b: Buffer, r: Region): Buffer {
    if b.main.end == r.beg then
      MergeFragments(b.(main := Region(b.main.beg, r.end, b.main.islast || r.islast)))
    else if b.main.beg == r.end then
      MergeFragments(b.(main := b.main.(beg := r.beg)))
    else if b.main.end < r.beg || b.main.beg > r.end then
      b.(fragments := b.fragments + [r])
    else b
  }

  predicate Complete(b: Buffer) {
    b.main.beg == 0 && b.main.islast
  }

  // The buffer after a sequence of arrivals.
  function After(arrivals: seq<Region>): Buffer {
    if arrivals == [] then EMPTY
    else Merge(After(arrivals[..|arrivals| - 1]), arrivals[|arrivals| - 1])
  }

  // ----- passes -----

  // An invariant of the absorbing steps, carried through the loops of mergeFragments.
  ghost predicate Kept(p: Buffer -> bool) {
    forall b, i, m :: p(b) && 0 <= i < |b.fragments| && Absorb(b.main, b.fragments[i]) == Some(m) ==>
      p(Buffer(m, b.fragments[..i] + b.fragments[i + 1..]))
  }

  lemma {:induction false} PassKeeps(p: Buffer -> bool, b: Buffer, i: nat)
    requires Kept(p) && p(b) && i <= |b.fragments|
    ensures p(Pass(b, i))
    decreases |b.fragments| - i
  {
    if i < |b.fragments| {
      match Absorb(b.main, b.fragments[i])
      case Some(m) =>
        assert p(Buffer(m, b.fragments[..i] + b.fragments[i + 1..]));
        PassKeeps(p, Buffer(m, b.fragments[..i] + b.fragments[i + 1..]), i);
      case None => PassKeeps(p, b, i + 1);
    }
  }

  lemma {:induction false} MergeFragmentsKeeps(p: Buffer -> bool, b: Buffer)
    requires Kept(p) && p(b)
    ensures p(MergeFragments(b))
    decreases |b.fragments|
  {
    PassKeeps(p, b, 0);
    var q := Pass(b, 0);
    if |q.fragments| < |b.fragments| { MergeFragmentsKeeps(p, q); }
  }

  // No fragment that is put aside can be absorbed.
  ghost predicate Settled(b: Buffer) {
    forall i :: 0 <= i < |b.fragments| ==> Absorb(b.main, b.fragments[i]) == None
  }

  // A pass that deletes nothing has looked at everything.
  lemma {:induction false} IdlePass(b: Buffer, i: nat)
    requires i <= |b.fragments| && |Pass(b, i).fragments| == |b.fragments|
    ensures Pass(b, i) == b
    ensures forall k :: i <= k < |b.fragments| ==> Absorb(b.main, b.fragments[k]) == None
    decreases |b.fragments| - i
  {
    if i < |b.fragments| && Absorb(b.main, b.fragments[i]) == None {
      IdlePass(b, i + 1);
    }
  }

  lemma {:induction false} MergeSettles(b: Buffer)
    ensures Settled(MergeFragments(b))
    decreases |b.fragments|
  {
    var p := Pass(b, 0);
    if |p.fragments| < |b.fragments| { MergeSettles(p); } else { IdlePass(b, 0); }
  }

  // ----- coverage, for arbitrary fragments -----

  // Offset x is in one of the received fragments.
  ghost predicate Received(arrivals: seq<Region>, x: nat) {
    exists r :: r in arrivals && r.beg <= x < r.end
  }

  ghost predicate Sane(arrivals: seq<Region>) {
    forall r :: r in arrivals ==> r.beg <= r.end
  }

  ghost predicate Covered(arrivals: seq<Region>, b: Buffer) {
    && b.main.beg <= b.main.end
    && (forall x :: b.main.beg <= x < b.main.end ==> Received(arrivals, x))
    && (forall f :: f in b.fragments ==> f in arrivals)
  }

  lemma {:induction false} CoveredIsKept(arrivals: seq<Region>)
    requires Sane(arrivals)
    ensures Kept(b => Covered(arrivals, b))
  {
    forall b: Buffer, i: int, m | Covered(arrivals, b) && 0 <= i < |b.fragments| && Absorb(b.main, b.fragments[i]) == Some(m)
      ensures Covered(arrivals, Buffer(m, b.fragments[..i] + b.fragments[i + 1..]))
    {
      var f := b.fragments[i];
      assert f in arrivals;
      forall x | m.beg <= x < m.end ensures Received(arrivals, x) {}
    }
  }

  // Everything in the assembled range has been received, whatever overlaps.
  lemma {:induction false} AssembledIsReceived(arrivals: seq<Region>)
    requires Sane(arrivals)
    ensures Covered(arrivals, After(arrivals))
  {
    if arrivals != [] {
      var init, r := arrivals[..|arrivals| - 1], arrivals[|arrivals| - 1];
      assert arrivals == init + [r];
      AssembledIsReceived(init);
      var b := After(init);
      assert Covered(arrivals, b) by {
        forall x | b.main.beg <= x < b.main.end ensures Received(arrivals, x) { assert Received(init, x); }
      }
      CoveredIsKept(arrivals);
      var m := if b.main.end == r.beg then Region(b.main.beg, r.end, b.main.islast || r.islast) else b.main.(beg := r.beg);
      if b.main.end == r.beg || b.main.beg == r.end {
        var b' := b.(main := m);
        forall x | m.beg <= x < m.end ensures Received(arrivals, x) {
          if !(b.main.beg <= x < b.main.end) { assert r in arrivals && r.beg <= x < r.end; }
        }
        assert Covered(arrivals, b');
        MergeFragmentsKeeps(b => Covered(arrivals, b), b');
      }
    }
  }

  // A datagram reported complete has all its bytes, from offset 0 to the total length.
  lemma {:induction false} CompleteIsReceived(arrivals: seq<Region>)
    requires Sane(arrivals) && Complete(After(arrivals))
    ensures forall x :: 0 <= x < After(arrivals).main.end ==> Received(arrivals, x)
  {
    AssembledIsReceived(arrivals);
  }

  // ----- what is assembled, for all fragments -----

  // Fragments in a row, from offset 0 on, each beginning where the one before ends.
  ghost predicate IsPath(p: seq<Region>) {
    p == [] || (IsPath(p[..|p| - 1]) && p[|p| - 1].beg == EndOf(p[..|p| - 1]))
  }

  function EndOf(p: seq<Region>): nat {
    if p == [] then 0 else p[|p| - 1].end
  }

  ghost predicate HasLast(p: seq<Region>) {
    exists r :: r in p && r.islast
  }

  // What a path assembles.
  ghost function RangeOf(p: seq<Region>): Region {
    Region(0, EndOf(p), HasLast(p))
  }

  ghost predicate PathOf(a: seq<Region>, p: seq<Region>) {
    IsPath(p) && forall r :: r in p ==> r in a
  }

  // r would not change what p assembles if it were put behind p.
  ghost predicate AddsNothing(p: seq<Region>, r: Region) {
    r.end == EndOf(p) && (r.islast ==> HasLast(p))
  }

  // A path of arrivals that no other arrival continues.
  ghost predicate Maximal(a: seq<Region>, p: seq<Region>) {
    PathOf(a, p) && forall r :: r in a && r.beg == EndOf(p) ==> AddsNothing(p, r)
  }

  ghost predicate SameElements(a: seq<Region>, b: seq<Region>) {
    (forall r :: r in a ==> r in b) && (forall r :: r in b ==> r in a)
  }

  // The assembled range is that of a path, and what begins at its end or behind is put aside or adds nothing.
  ghost predicate Pathing(a: seq<Region>, b: Buffer, p: seq<Region>) {
    && PathOf(a, p) && b.main == RangeOf(p)
    && (forall f :: f in b.fragments ==> f in a)
    && (forall r :: r in a && r.beg >= EndOf(p) ==> r in b.fragments || (r.beg == EndOf(p) && AddsNothing(p, r)))
  }

  ghost predicate SomePathing(a: seq<Region>, b: Buffer) {
    exists p :: Pathing(a, b, p)
  }

  lemma {:induction false} PathExtends(a: seq<Region>, p: seq<Region>, r: Region)
    requires PathOf(a, p) && r in a && r.beg == EndOf(p)
    ensures PathOf(a, p + [r]) && EndOf(p + [r]) == r.end && (HasLast(p + [r]) <==> HasLast(p) || r.islast)
  {
    var q := p + [r];
    assert q[..|q| - 1] == p;
    if HasLast(p) {
      var l :| l in p && l.islast;
      assert l in q;
    }
    if r.islast { assert r in q; }
  }

  lemma RemoveOne(s: seq<Region>, i: nat)
    requires i < |s|
    ensures forall f :: f in s[..i] + s[i + 1..] ==> f in s
    ensures forall f :: f in s && f != s[i] ==> f in s[..i] + s[i + 1..]
  {
    forall f | f in s && f != s[i] ensures f in s[..i] + s[i + 1..] {
      var k :| 0 <= k < |s| && s[k] == f;
      assert (s[..i] + s[i + 1..])[if k < i then k else k - 1] == f;
    }
  }

  lemma {:induction false} AbsorbKeepsPathing(a: seq<Region>, b: Buffer, p: seq<Region>, i: nat, m: Region)
    requires Sane(a) && Pathing(a, b, p) && i < |b.fragments| && Absorb(b.main, b.fragments[i]) == Some(m)
    ensures SomePathing(a, Buffer(m, b.fragments[..i] + b.fragments[i + 1..]))
  {
    var f, b' := b.fragments[i], Buffer(m, b.fragments[..i] + b.fragments[i + 1..]);
    assert f in a;
    RemoveOne(b.fragments, i);
    if f.beg == EndOf(p) {
      PathExtends(a, p, f);
      hide IsPath, HasLast;
      assert Pathing(a, b', p + [f]);
    } else {
      hide IsPath, HasLast;
      assert Pathing(a, b', p);
    }
  }

  lemma {:induction false} PathingIsKept(a: seq<Region>)
    requires Sane(a)
    ensures Kept(b => SomePathing(a, b))
  {
    forall b: Buffer, i: int, m | SomePathing(a, b) && 0 <= i < |b.fragments| && Absorb(b.main, b.fragments[i]) == Some(m)
      ensures SomePathing(a, Buffer(m, b.fragments[..i] + b.fragments[i + 1..]))
    {
      var p :| Pathing(a, b, p);
      AbsorbKeepsPathing(a, b, p, i, m);
    }
  }

  // An arrival, when nothing is left to absorb.
  lemma {:induction false} ArrivalKeepsPathing(a: seq<Region>, r: Region, b: Buffer, p: seq<Region>)
    requires Sane(a + [r]) && Pathing(a, b, p) && Settled(b)
    ensures SomePathing(a + [r], Merge(b, r)) && Settled(Merge(b, r))
  {
    var all := a + [r];
    assert PathOf(all, p);
    if r.beg == EndOf(p) {
      PathExtends(all, p, r);
      var b' := b.(main := Region(0, r.end, b.main.islast || r.islast));
      assert Pathing(all, b', p + [r]) by { hide IsPath, HasLast; }
      PathingIsKept(all);
      MergeFragmentsKeeps(b => SomePathing(all, b), b');
      MergeSettles(b');
    } else {
      hide IsPath, HasLast;
      if b.main.beg == r.end { SettledIsDone(b); }
      assert Pathing(all, Merge(b, r), p);
    }
  }

  // Merging changes nothing when nothing can be absorbed.
  lemma {:induction false} SettledIsDone(b: Buffer)
    requires Settled(b)
    ensures MergeFragments(b) == b
  {
    SettledPass(b, 0);
  }

  lemma {:induction false} SettledPass(b: Buffer, i: nat)
    requires Settled(b) && i <= |b.fragments|
    ensures Pass(b, i) == b
    decreases |b.fragments| - i
  {
    if i < |b.fragments| { SettledPass(b, i + 1); }
  }

  lemma {:induction false} RunPaths(a: seq<Region>)
    requires Sane(a)
    ensures SomePathing(a, After(a)) && Settled(After(a))
  {
    if a == [] {
      assert Pathing(a, EMPTY, []);
    } else {
      var init, r := a[..|a| - 1], a[|a| - 1];
      assert a == init + [r];
      RunPaths(init);
      var p :| Pathing(init, After(init), p);
      ArrivalKeepsPathing(init, r, After(init), p);
    }
  }

  // For all fragments, empty, overlapping or conflicting, in any order: what is assembled is the range of a
  // maximal path of the arrivals.
  lemma {:induction false} AssembledIsMaximal(a: seq<Region>)
    requires Sane(a)
    ensures exists p :: Maximal(a, p) && After(a).main == RangeOf(p)
  {
    RunPaths(a);
    var p :| Pathing(a, After(a), p);
    hide IsPath, HasLast;
    assert forall r :: r in a && r.beg == EndOf(p) ==> r !in After(a).fragments;
    assert Maximal(a, p);
  }

  // Behind a maximal path all further arrivals are put aside or dropped.
  ghost predicate Stuck(p: seq<Region>, b: Buffer) {
    b.main == RangeOf(p) && forall f :: f in b.fragments ==> f.beg > EndOf(p) && f.end >= f.beg
  }

  lemma {:induction false} PathAssembles(p: seq<Region>)
    requires IsPath(p)
    ensures After(p) == Buffer(RangeOf(p), [])
  {
    if p != [] {
      var init, r := p[..|p| - 1], p[|p| - 1];
      assert p == init + [r];
      PathAssembles(init);
      PathExtends(p, init, r);
      SettledIsDone(Buffer(RangeOf(p), []));
    }
  }

  lemma {:induction false} StaysStuck(a: seq<Region>, p: seq<Region>, rest: seq<Region>)
    requires Sane(a) && Maximal(a, p) && forall r :: r in rest ==> r in a
    ensures Stuck(p, After(p + rest))
  {
    if rest == [] {
      assert p + rest == p;
      PathAssembles(p);
    } else {
      var init, r := rest[..|rest| - 1], rest[|rest| - 1];
      assert rest == init + [r];
      StaysStuck(a, p, init);
      assert p + rest == (p + init) + [r];
      AfterOneMore(p + init, r);
      StuckStep(p, After(p + init), r);
    }
  }

  lemma {:induction false} StuckStep(p: seq<Region>, b: Buffer, r: Region)
    requires Stuck(p, b) && r.beg <= r.end && (r.beg == EndOf(p) ==> AddsNothing(p, r))
    ensures Stuck(p, Merge(b, r))
  {
    hide HasLast, MergeFragments;
    StuckIsSettled(p, b);
    SettledIsDone(b);
  }

  lemma {:induction false} StuckIsSettled(p: seq<Region>, b: Buffer)
    requires Stuck(p, b)
    ensures Settled(b)
  {
  }

  lemma {:induction false} AfterOneMore(arrivals: seq<Region>, r: Region)
    ensures After(arrivals + [r]) == Merge(After(arrivals), r)
  {
    assert (arrivals + [r])[..|arrivals|] == arrivals;
  }

  // And every maximal path is what some order assembles: the arrivals in the order of the path, then all.
  lemma {:induction false} MaximalIsAssembled(a: seq<Region>, p: seq<Region>)
    requires Sane(a) && Maximal(a, p)
    ensures SameElements(a, p + a) && After(p + a).main == RangeOf(p)
  {
    StaysStuck(a, p, a);
  }

  // All orders of the arrivals, with any repetitions, assemble the same.
  ghost predicate OrderDoesNotMatter(a: seq<Region>) {
    forall b, c :: SameElements(a, b) && SameElements(a, c) ==> After(b).main == After(c).main
  }

  ghost predicate PathsAgree(a: seq<Region>) {
    forall p, q :: Maximal(a, p) && Maximal(a, q) ==> RangeOf(p) == RangeOf(q)
  }

  lemma {:induction false} SameMaximal(a: seq<Region>, b: seq<Region>, p: seq<Region>)
    requires SameElements(a, b) && Maximal(b, p)
    ensures Maximal(a, p)
  {
    hide IsPath, HasLast;
  }

  // The order does not matter if and only if all maximal paths agree in their end and their last flag.
  lemma {:induction false} OrderMattersExactly(a: seq<Region>)
    requires Sane(a)
    ensures OrderDoesNotMatter(a) <==> PathsAgree(a)
  {
    if OrderDoesNotMatter(a) {
      forall p, q | Maximal(a, p) && Maximal(a, q) ensures RangeOf(p) == RangeOf(q) {
        MaximalIsAssembled(a, p);
        MaximalIsAssembled(a, q);
      }
    }
    if PathsAgree(a) {
      forall b, c | SameElements(a, b) && SameElements(a, c) ensures After(b).main == After(c).main {
        var p := AssembledByPath(a, b);
        var q := AssembledByPath(a, c);
      }
    }
  }

  lemma {:induction false} AssembledByPath(a: seq<Region>, b: seq<Region>) returns (p: seq<Region>)
    requires Sane(a) && SameElements(a, b)
    ensures Maximal(a, p) && After(b).main == RangeOf(p)
  {
    AssembledIsMaximal(b);
    p :| Maximal(b, p) && After(b).main == RangeOf(p);
    SameMaximal(a, b, p);
  }

  // The datagram completes in every order if and only if every maximal path has a last fragment, and in some
  // order if and only if one has.
  lemma {:induction false} CompletionByPaths(a: seq<Region>)
    requires Sane(a)
    ensures (forall b :: SameElements(a, b) ==> Complete(After(b))) <==> (forall p :: Maximal(a, p) ==> HasLast(p))
    ensures (exists b :: SameElements(a, b) && Complete(After(b))) <==> (exists p :: Maximal(a, p) && HasLast(p))
  {
    forall b | SameElements(a, b) ensures exists p :: Maximal(a, p) && (Complete(After(b)) <==> HasLast(p)) {
      var p := AssembledByPath(a, b);
    }
    forall p | Maximal(a, p) ensures exists b :: SameElements(a, b) && (Complete(After(b)) <==> HasLast(p)) {
      MaximalIsAssembled(a, p);
    }
  }

  // The inputs at which the order matters: the same beginning and different ends, and an empty last fragment.
  lemma {:induction false} OrderMatters()
    ensures var a, b := Region(0, 1, false), Region(0, 2, true); !Complete(After([a, b])) && Complete(After([b, a]))
    ensures var a, b := Region(0, 1, false), Region(0, 0, true); !Complete(After([a, b])) && Complete(After([b, a]))
  {
    var a, b, c := Region(0, 1, false), Region(0, 2, true), Region(0, 0, true);
    AfterTwo(a, b);
    AfterTwo(b, a);
    AfterTwo(a, c);
    AfterTwo(c, a);
  }

  lemma {:induction false} AfterTwo(a: Region, b: Region)
    ensures After([a, b]) == Merge(Merge(EMPTY, a), b)
  {
    assert [a, b][..1] == [a];
    assert After([a]) == Merge(EMPTY, a) by { assert [a][..0] == []; }
  }

  // ----- fragments that do not conflict -----

  // No fragment is empty, and fragments that begin at the same offset are the same: then there is one chain.
  ghost predicate Agreeing(arrivals: seq<Region>) {
    && (forall r :: r in arrivals ==> r.beg < r.end)
    && (forall q, r :: q in arrivals && r in arrivals && q.beg == r.beg ==> q == r)
  }

  // x is an offset of the chain that starts at 0 and goes on from the beginning to the end of each fragment.
  ghost predicate OnChain(arrivals: seq<Region>, x: nat) {
    x == 0 || exists r :: r in arrivals && r.beg < r.end == x && OnChain(arrivals, r.beg)
  }

  // The chain has a last fragment.
  ghost predicate ChainIsComplete(arrivals: seq<Region>) {
    exists r :: r in arrivals && r.islast && OnChain(arrivals, r.beg)
  }

  ghost predicate ChainEnds(arrivals: seq<Region>, x: nat) {
    OnChain(arrivals, x) && forall r :: r in arrivals ==> r.beg != x
  }

  lemma {:induction false} ChainGrows(a: seq<Region>, b: seq<Region>, x: nat)
    requires OnChain(a, x) && forall r :: r in a ==> r in b
    ensures OnChain(b, x)
  {
    if x != 0 {
      var r :| r in a && r.beg < r.end == x && OnChain(a, r.beg);
      ChainGrows(a, b, r.beg);
    }
  }

  // Between two offsets of the chain lies the fragment that begins at the first: the chain does not branch.
  lemma {:induction false} ChainContinues(a: seq<Region>, x: nat, y: nat) returns (g: Region)
    requires Agreeing(a) && OnChain(a, x) && OnChain(a, y) && x < y
    ensures g in a && g.beg == x && g.end <= y
    decreases x + y
  {
    g :| g in a && g.beg < g.end == y && OnChain(a, g.beg);
    if x < g.beg {
      g := ChainContinues(a, x, g.beg);
    } else if g.beg < x {
      var h := ChainContinues(a, g.beg, x);
    }
  }

  // A path is on the chain, and leaves out nothing of it up to its end.
  lemma {:induction false} PathIsOnChain(a: seq<Region>, p: seq<Region>)
    requires Agreeing(a) && PathOf(a, p)
    ensures OnChain(a, EndOf(p)) && forall r :: r in p ==> OnChain(a, r.beg)
    ensures forall r :: r in a && OnChain(a, r.beg) && r.beg < EndOf(p) ==> r in p
  {
    if p != [] {
      var init, l := p[..|p| - 1], p[|p| - 1];
      assert p == init + [l];
      PathIsOnChain(a, init);
      forall r | r in a && OnChain(a, r.beg) && r.beg < EndOf(p) ensures r in p {
        if l.beg < r.beg {
          var g := ChainContinues(a, l.beg, r.beg);
        }
      }
    }
  }

  // For agreeing fragments, in any order: the assembled range is the chain of all arrivals, to its end, and the
  // datagram is complete if and only if the chain has a last fragment.
  lemma {:induction false} AssembledIsChain(arrivals: seq<Region>)
    requires Agreeing(arrivals)
    ensures After(arrivals).main.beg == 0 && ChainEnds(arrivals, After(arrivals).main.end)
    ensures Complete(After(arrivals)) <==> ChainIsComplete(arrivals)
  {
    AssembledIsMaximal(arrivals);
    var p :| Maximal(arrivals, p) && After(arrivals).main == RangeOf(p);
    PathIsOnChain(arrivals, p);
    hide IsPath, After;
    assert forall r :: r in arrivals ==> r.beg != EndOf(p);
    if ChainIsComplete(arrivals) {
      var r :| r in arrivals && r.islast && OnChain(arrivals, r.beg);
      if EndOf(p) < r.beg {
        var g := ChainContinues(arrivals, EndOf(p), r.beg);
      }
      assert r in p;
    }
  }

  // Bytes alone do not decide: two overlapping fragments that hold a whole datagram do not complete it, because
  // the second one does not begin where the first one ends.
  lemma {:induction false} OverlapIsLost(a: Region, r: Region)
    requires a.beg == 0 && !a.islast && 0 < r.beg < a.end < r.end
    ensures !Complete(After([a, r])) && !Complete(After([r, a]))
    ensures forall x :: 0 <= x < r.end ==> Received([a, r], x)
  {
    AfterTwo(a, r);
    AfterTwo(r, a);
    NoSuccessor(a, r);
    assert a in [a, r] && r in [a, r];
  }

  lemma {:induction false} NoSuccessor(a: Region, r: Region)
    requires a.beg == 0 && !a.islast && 0 < r.beg < a.end < r.end
    ensures Merge(Merge(EMPTY, r), a) == Buffer(a, [r])
  {
    assert Merge(EMPTY, r) == Buffer(EMPTY.main, [r]);
    SettledIsDone(Buffer(a, [r]));
  }

  // ----- datagrams cut into fragments -----

  // cut[k]..cut[k+1] is the k-th fragment.
  ghost predicate IsCut(cut: seq<nat>) {
    |cut| >= 2 && cut[0] == 0 && forall i, j :: 0 <= i < j < |cut| ==> cut[i] < cut[j]
  }

  function Piece(cut: seq<nat>, k: nat): Region
    requires k + 1 < |cut|
  {
    Region(cut[k], cut[k + 1], k + 2 == |cut|)
  }

  // order has indices of pieces only.
  predicate AreIndices(cut: seq<nat>, order: seq<nat>) {
    forall i :: 0 <= i < |order| ==> order[i] + 1 < |cut|
  }

  function Pieces(cut: seq<nat>, order: seq<nat>): (r: seq<Region>)
    requires AreIndices(cut, order)
    ensures |r| == |order|
  {
    seq(|order|, i requires 0 <= i < |order| => Piece(cut, order[i]))
  }

  lemma {:induction false} PieceArrived(cut: seq<nat>, order: seq<nat>, r: Region)
    requires AreIndices(cut, order)
    ensures r in Pieces(cut, order) <==> exists k: nat :: k in order && k + 1 < |cut| && r == Piece(cut, k)
  {
    if r in Pieces(cut, order) {
      var i :| 0 <= i < |order| && Pieces(cut, order)[i] == r;
      assert order[i] in order;
    }
    if k: nat :| k in order && k + 1 < |cut| && r == Piece(cut, k) {
      var i :| 0 <= i < |order| && order[i] == k;
      assert Pieces(cut, order)[i] == r;
    }
  }

  lemma {:induction false} PiecesAgree(cut: seq<nat>, order: seq<nat>)
    requires IsCut(cut) && AreIndices(cut, order)
    ensures Agreeing(Pieces(cut, order))
  {
  }

  // The first m pieces have arrived.
  ghost predicate FirstArrived(order: seq<nat>, m: nat) {
    forall k: nat :: k < m ==> k in order
  }

  // The chain of the pieces that have arrived goes to cut[m] if and only if the first m have.
  lemma {:induction false} ChainOfPieces(cut: seq<nat>, order: seq<nat>, m: nat)
    requires IsCut(cut) && AreIndices(cut, order) && m < |cut|
    ensures OnChain(Pieces(cut, order), cut[m]) <==> FirstArrived(order, m)
  {
    if m > 0 {
      ChainOfPieces(cut, order, m - 1);
      ChainOfPiecesStep(cut, order, m);
      hide Pieces, OnChain;
      if FirstArrived(order, m) {
        assert m - 1 in order;
      }
    }
  }

  lemma {:induction false} ChainOfPiecesStep(cut: seq<nat>, order: seq<nat>, m: nat)
    requires IsCut(cut) && AreIndices(cut, order) && 0 < m < |cut|
    ensures OnChain(Pieces(cut, order), cut[m]) <==> OnChain(Pieces(cut, order), cut[m - 1]) && m - 1 in order
  {
    hide Pieces;
    var a, p := Pieces(cut, order), Piece(cut, m - 1);
    assert cut[m - 1] < cut[m] && cut[0] < cut[m];
    if OnChain(a, cut[m]) {
      var r :| r in a && r.beg < r.end == cut[m] && OnChain(a, r.beg);
      PieceArrived(cut, order, r);
      var k: nat :| k in order && k + 1 < |cut| && r == Piece(cut, k);
      SameCut(cut, k + 1, m);
    }
    if m - 1 in order {
      PieceArrived(cut, order, p);
    }
  }

  lemma {:induction false} SameCut(cut: seq<nat>, i: nat, j: nat)
    requires IsCut(cut) && i < |cut| && j < |cut| && cut[i] == cut[j]
    ensures i == j
  {
  }

  lemma {:induction false} PiecesComplete(cut: seq<nat>, order: seq<nat>)
    requires IsCut(cut) && AreIndices(cut, order)
    ensures ChainIsComplete(Pieces(cut, order)) <==> OnChain(Pieces(cut, order), cut[|cut| - 1])
  {
    var a, n := Pieces(cut, order), |cut| - 1;
    ChainOfPiecesStep(cut, order, n);
    hide OnChain, Pieces, IsCut;
    if ChainIsComplete(a) {
      LastPiece(cut, order);
    }
    if OnChain(a, cut[n]) {
      PieceArrived(cut, order, Piece(cut, n - 1));
    }
  }

  // The assembled range is complete exactly when its chain reaches the end of the datagram, and then ends there.
  lemma {:induction false} CompleteAtTheEnd(cut: seq<nat>, order: seq<nat>, a: seq<Region>)
    requires IsCut(cut) && AreIndices(cut, order) && a == Pieces(cut, order)
    ensures Complete(After(a)) <==> OnChain(a, cut[|cut| - 1])
    ensures Complete(After(a)) ==> After(a).main.end == cut[|cut| - 1]
  {
    hide After, OnChain;
    PiecesAgree(cut, order);
    AssembledIsChain(a);
    PiecesComplete(cut, order);
    if Complete(After(a)) {
      EndOfPieces(cut, order, After(a).main.end);
    }
  }

  // For every cut, every order and all duplicates: the datagram is complete exactly when every
  // piece has arrived, and then the total length is the length of the datagram.
  lemma {:induction false} CompleteExactlyWhenAllArrived(cut: seq<nat>, order: seq<nat>)
    requires IsCut(cut) && AreIndices(cut, order)
    ensures Complete(After(Pieces(cut, order))) <==> FirstArrived(order, |cut| - 1)
    ensures Complete(After(Pieces(cut, order))) ==> After(Pieces(cut, order)).main.end == cut[|cut| - 1]
  {
    CompleteAtTheEnd(cut, order, Pieces(cut, order));
    ChainOfPieces(cut, order, |cut| - 1);
  }

  lemma {:induction false} LastPiece(cut: seq<nat>, order: seq<nat>)
    requires IsCut(cut) && AreIndices(cut, order)
    requires ChainIsComplete(Pieces(cut, order))
    ensures |cut| - 2 in order && OnChain(Pieces(cut, order), cut[|cut| - 2])
  {
    var a := Pieces(cut, order);
    var r :| r in a && r.islast && OnChain(a, r.beg);
    PieceArrived(cut, order, r);
  }

  // Nothing follows the last piece.
  lemma {:induction false} EndOfPieces(cut: seq<nat>, order: seq<nat>, x: nat)
    requires IsCut(cut) && AreIndices(cut, order)
    requires OnChain(Pieces(cut, order), cut[|cut| - 1]) && ChainEnds(Pieces(cut, order), x)
    ensures x == cut[|cut| - 1]
  {
    var a, y := Pieces(cut, order), cut[|cut| - 1];
    PiecesAgree(cut, order);
    if x < y {
      var g := ChainContinues(a, x, y);
    } else if y < x {
      var g := ChainContinues(a, y, x);
      PieceArrived(cut, order, g);
    }
  }

  // What the result of addFragment says about all arrivals.
  ghost predicate Reported(arrivals: seq<Region>, main: Region, done: bool) {
    && (Sane(arrivals) ==> exists p :: Maximal(arrivals, p) && main == RangeOf(p) && (done <==> HasLast(p)))
    && (Agreeing(arrivals) ==> (done <==> ChainIsComplete(arrivals)))
  }

  lemma {:induction false} AllReported(arrivals: seq<Region>)
    ensures Reported(arrivals, After(arrivals).main, Complete(After(arrivals)))
  {
    if Sane(arrivals) { AssembledIsMaximal(arrivals); }
    if Agreeing(arrivals) { AssembledIsChain(arrivals); }
  }

  class ReassemblyBuffer {
    var main: Region
    var fragments: seq<Region>
    ghost var arrivals: seq<Region>

    ghost function Value(): Buffer
      reads this
    {
      Buffer(main, fragments)
    }

    ghost predicate Valid()
      reads this
    {
      Value() == After(arrivals)
    }

    constructor ()
      ensures Valid() && arrivals == []
    {
      main, fragments, arrivals := Region(0, 0, false), [], [];
    }

    // The assembled range is that of a maximal path of the arrivals, and the result is true if and only if the
    // path has a last fragment; for agreeing fragments, if and only if the chain of all arrivals has one.
    method AddFragment(beg: nat, end: nat, islast: bool) returns (done: bool)
      requires Valid()
      modifies this
      ensures Valid() && arrivals == old(arrivals) + [Region(beg, end, islast)]
      ensures Value() == Merge(old(Value()), Region(beg, end, islast))
      ensures done <==> Complete(Value())
      ensures Reported(arrivals, main, done)
    {
      arrivals := arrivals + [Region(beg, end, islast)];
      hide After, MergeFragments, Reported;
      AllReported(arrivals);
      AfterOneMore(old(arrivals), Region(beg, end, islast));
      if main.end == beg {
        main := main.(end := end);
        if islast { main := main.(islast := true); }
        DoMergeFragments();
      } else if main.beg == end {
        main := main.(beg := beg);
        DoMergeFragments();
      } else if main.end < beg || main.beg > end {
        fragments := fragments + [Region(beg, end, islast)];
      }
      done := main.beg == 0 && main.islast;
    }

    // mergeFragments
    method DoMergeFragments()
      modifies this`main, this`fragments
      ensures Value() == MergeFragments(old(Value()))
    {
      var oncemore := true;
      while oncemore
        invariant oncemore ==> MergeFragments(Value()) == MergeFragments(old(Value()))
        invariant !oncemore ==> Value() == MergeFragments(old(Value()))
        decreases oncemore, |fragments|
      {
        oncemore := false;
        ghost var before := Value();
        var i := 0;
        while i < |fragments|
          invariant i <= |fragments| <= |before.fragments| && Pass(before, 0) == Pass(Value(), i)
          invariant oncemore <==> |fragments| < |before.fragments|
          decreases |fragments| - i
        {
          var frag := fragments[i];
          var deleteit := false;
          if main.end == frag.beg {
            main := main.(end := frag.end);
            if frag.islast { main := main.(islast := true); }
            deleteit := true;
          } else if main.beg == frag.end {
            main := main.(beg := frag.beg);
            deleteit := true;
          } else if main.beg <= frag.beg && main.end >= frag.end {
            deleteit := true;
          }
          if deleteit {
            fragments := fragments[..i] + fragments[i + 1..];
            oncemore := true;
          } else {
            i := i + 1;
          }
        }
        assert Value() == Pass(before, 0);
      }
    }

    // The length of the datagram once it is complete: all its bytes have been received, and it is the length
    // of the datagram that was cut into the arrived pieces.
    method GetTotalLength() returns (n: nat)
      requires Valid()
      ensures Sane(arrivals) && Complete(Value()) ==> forall x :: 0 <= x < n ==> Received(arrivals, x)
      ensures Agreeing(arrivals) ==> ChainEnds(arrivals, n)
      ensures Complete(Value()) ==> forall cut, order :: CutInto(cut, order, arrivals) ==> n == cut[|cut| - 1]
    {
      if Sane(arrivals) && Complete(Value()) { CompleteIsReceived(arrivals); }
      if Agreeing(arrivals) { AssembledIsChain(arrivals); }
      forall cut, order | CutInto(cut, order, arrivals) && Complete(Value()) ensures main.end == cut[|cut| - 1] {
        CompleteExactlyWhenAllArrived(cut, order);
      }
      n := main.end;
    }
  }

  ghost predicate CutInto(cut: seq<nat>, order: seq<nat>, arrivals: seq<Region>) {
    && IsCut(cut) && AreIndices(cut, order)
    && arrivals == Pieces(cut, order)
  }
}
