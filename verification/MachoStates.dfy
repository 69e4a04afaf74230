/** State trees, transition traces and histories of the Macho state machines
    (src/util/Macho.h, src/util/Macho.cc), as values. */
module MachoStates {
  import opened Options

  // A state class is known by its name and the superstate it derives from; Root is
  // _StateSpecification, above the user's top state.
  datatype State = Root | Sub(name: nat, parent: State)

  datatype Event = Entry(s: State) | Exit(s: State)

  // _StateInstance::isChild: a is s or a superstate of s.
  predicate IsChild(s: State, a: State) {
    s == a || (s.Sub? && IsChild(s.parent, a))
  }

  predicate ProperChild(s: State, a: State) {
    s != a && IsChild(s, a)
  }

  function Depth(s: State): nat {
    if s.Root? then 0 else Depth(s.parent) + 1
  }

  // The states that are active when the machine is in s, outermost first.
  function Chain(s: State): (r: seq<State>)
    ensures |r| == Depth(s)
  {
    if s.Root? then [] else Chain(s.parent) + [s]
  }

  // ----- what exit and entry do -----

  // _StateInstance::exit
  function ExitTrace(s: State, next: State): seq<Event> {
    if s.Root? then []
    else if s == next || !IsChild(next, s) then [Exit(s)] + ExitTrace(s.parent, next)
    else []
  }

  // The state at which the exits stop.
  function ExitStop(s: State, next: State): State {
    if s.Root? then Root
    else if s == next || !IsChild(next, s) then ExitStop(s.parent, next)
    else s
  }

  // _StateInstance::entry
  function EntryTrace(s: State, previous: State, first: bool): seq<Event> {
    if s.Root? then []
    else if first || !IsChild(previous, s) then EntryTrace(s.parent, previous, false) + [Entry(s)]
    else []
  }

  // The state below which the entries begin.
  function EntryStop(s: State, previous: State, first: bool): State {
    if s.Root? then Root
    else if first || !IsChild(previous, s) then EntryStop(s.parent, previous, false)
    else s
  }

  // ----- well-nested traces -----

  // Reads a trace as brackets: the open ones after it, or None if a bracket does not match.
  function Replay(open: seq<State>, t: seq<Event>): Option<seq<State>>
    decreases t
  {
    if t == [] then Some(open)
    else match t[0]
      case Entry(s) => Replay(open + [s], t[1..])
      case Exit(s) => if open != [] && open[|open| - 1] == s then Replay(open[..|open| - 1], t[1..]) else None
  }

  lemma {:induction false} ReplayConcat(open: seq<State>, a: seq<Event>, b: seq<Event>)
    requires Replay(open, a).Some?
    ensures Replay(open, a + b) == Replay(Replay(open, a).value, b)
    decreases a
  {
    if a == [] {
      assert a + b == b;
    } else {
      assert (a + b)[1..] == a[1..] + b;
      match a[0]
      case Entry(s) => ReplayConcat(open + [s], a[1..], b);
      case Exit(s) => ReplayConcat(open[..|open| - 1], a[1..], b);
    }
  }

  lemma {:induction false} ExitReplays(s: State, next: State)
    ensures Replay(Chain(s), ExitTrace(s, next)) == Some(Chain(ExitStop(s, next)))
  {
    if s.Sub? && (s == next || !IsChild(next, s)) {
      ExitReplays(s.parent, next);
      var t := ExitTrace(s, next);
      assert t[1..] == ExitTrace(s.parent, next);
      assert Chain(s)[..|Chain(s)| - 1] == Chain(s.parent);
    }
  }

  lemma {:induction false} EntryReplays(s: State, previous: State, first: bool)
    ensures Replay(Chain(EntryStop(s, previous, first)), EntryTrace(s, previous, first)) == Some(Chain(s))
  {
    if s.Sub? && (first || !IsChild(previous, s)) {
      EntryReplays(s.parent, previous, false);
      ReplayConcat(Chain(EntryStop(s, previous, first)), EntryTrace(s.parent, previous, false), [Entry(s)]);
    }
  }

  // ----- the two stops are the same state -----

  lemma {:induction false} ChildDepth(s: State, a: State)
    requires IsChild(s, a)
    ensures Depth(a) <= Depth(s)
    ensures Depth(a) == Depth(s) ==> s == a
  {
    if s != a { ChildDepth(s.parent, a); }
  }

  lemma {:induction false} ChildTransitive(s: State, a: State, b: State)
    requires IsChild(s, a) && IsChild(a, b)
    ensures IsChild(s, b)
  {
    if s != a { ChildTransitive(s.parent, a, b); }
  }

  lemma {:induction false} EverythingUnderRoot(s: State)
    ensures IsChild(s, Root)
  {
    if s.Sub? { EverythingUnderRoot(s.parent); }
  }

  // The exits stop at the innermost state on the way up from s that lies strictly above next.
  lemma {:induction false} ExitStopIsInnermost(s: State, next: State, x: State)
    requires IsChild(s, x) && ProperChild(next, x)
    ensures IsChild(ExitStop(s, next), x)
  {
    if s.Sub? && (s == next || !IsChild(next, s)) {
      ExitStopIsInnermost(s.parent, next, x);
    }
  }

  lemma {:induction false} ExitStopIsAbove(s: State, next: State)
    ensures IsChild(s, ExitStop(s, next))
    ensures ExitStop(s, next).Sub? ==> ProperChild(next, ExitStop(s, next))
  {
    if s.Sub? && (s == next || !IsChild(next, s)) {
      ExitStopIsAbove(s.parent, next);
    }
  }

  lemma {:induction false} EntryStopIsInnermost(s: State, previous: State, first: bool, x: State)
    requires IsChild(previous, x) && IsChild(s, x) && (first ==> s != x)
    ensures IsChild(EntryStop(s, previous, first), x)
  {
    if s.Sub? && (first || !IsChild(previous, s)) {
      EntryStopIsInnermost(s.parent, previous, false, x);
    }
  }

  lemma {:induction false} EntryStopIsAbove(s: State, previous: State, first: bool)
    ensures IsChild(s, EntryStop(s, previous, first))
    ensures EntryStop(s, previous, first).Sub? ==> IsChild(previous, EntryStop(s, previous, first))
    ensures first && EntryStop(s, previous, first).Sub? ==> EntryStop(s, previous, first) != s
  {
    if s.Sub? && (first || !IsChild(previous, s)) {
      EntryStopIsAbove(s.parent, previous, false);
      if first { ChildDepth(s.parent, EntryStop(s.parent, previous, false)); }
    }
  }

  lemma StopsAgree(c: State, n: State)
    ensures ExitStop(c, n) == EntryStop(n, c, true)
  {
    var a, b := ExitStop(c, n), EntryStop(n, c, true);
    ExitStopIsAbove(c, n);
    EntryStopIsAbove(n, c, true);
    EverythingUnderRoot(a);
    EverythingUnderRoot(b);
    if b.Sub? { ExitStopIsInnermost(c, n, b); }
    if a.Sub? { EntryStopIsInnermost(n, c, true, a); }
    if IsChild(a, b) { ChildDepth(a, b); }
    if IsChild(b, a) { ChildDepth(b, a); }
  }

  // What one transition from c to n appends to the trace.
  function TransitionTrace(c: State, n: State): seq<Event> {
    ExitTrace(c, n) + EntryTrace(n, c, true)
  }

  // A transition closes and opens brackets so that exactly the chain of the new state is open.
  lemma TransitionIsWellNested(c: State, n: State)
    ensures Replay(Chain(c), TransitionTrace(c, n)) == Some(Chain(n))
  {
    ExitReplays(c, n);
    StopsAgree(c, n);
    EntryReplays(n, c, true);
    ReplayConcat(Chain(c), ExitTrace(c, n), EntryTrace(n, c, true));
  }

  // ----- statechart order, stated on the chains alone -----

  // The length of the longest common prefix.
  function Common(a: seq<State>, b: seq<State>): (k: nat)
    ensures k <= |a| && k <= |b|
    ensures forall i :: 0 <= i < k ==> a[i] == b[i]
    ensures k < |a| && k < |b| ==> a[k] != b[k]
  {
    if a == [] || b == [] || a[0] != b[0] then 0 else 1 + Common(a[1..], b[1..])
  }

  // How many of the outermost states stay active: the shared ones strictly above the target.
  function Kept(c: State, n: State): nat {
    var k := Common(Chain(c), Chain(n));
    if n.Sub? && k == |Chain(n)| then k - 1 else k
  }

  // Innermost first.
  function Exits(s: seq<State>): seq<Event> {
    if s == [] then [] else [Exit(s[|s| - 1])] + Exits(s[..|s| - 1])
  }

  // Outermost first.
  function Entries(s: seq<State>): seq<Event> {
    if s == [] then [] else Entries(s[..|s| - 1]) + [Entry(s[|s| - 1])]
  }

  lemma {:induction false} ChainOfAncestor(s: State, a: State)
    requires IsChild(s, a)
    ensures Depth(a) <= Depth(s) && Chain(a) == Chain(s)[..Depth(a)]
  {
    if s != a { ChainOfAncestor(s.parent, a); }
  }

  lemma {:induction false} ChainElement(s: State, i: nat)
    requires i < Depth(s)
    ensures var x := Chain(s)[i]; IsChild(s, x) && Depth(x) == i + 1
  {
    if i < Depth(s) - 1 { ChainElement(s.parent, i); }
  }

  lemma {:induction false} ExitTraceIsExits(s: State, next: State)
    ensures Depth(ExitStop(s, next)) <= Depth(s)
    ensures ExitTrace(s, next) == Exits(Chain(s)[Depth(ExitStop(s, next))..])
  {
    ExitStopIsAbove(s, next);
    ChildDepth(s, ExitStop(s, next));
    if s.Sub? && (s == next || !IsChild(next, s)) {
      ExitTraceIsExits(s.parent, next);
      var k, ch := Depth(ExitStop(s, next)), Chain(s);
      ExitStopIsAbove(s.parent, next);
      ChildDepth(s.parent, ExitStop(s.parent, next));
      assert ch[k..][..|ch[k..]| - 1] == Chain(s.parent)[k..];
    }
  }

  lemma {:induction false} EntryTraceIsEntries(s: State, previous: State, first: bool)
    ensures Depth(EntryStop(s, previous, first)) <= Depth(s)
    ensures EntryTrace(s, previous, first) == Entries(Chain(s)[Depth(EntryStop(s, previous, first))..])
  {
    EntryStopIsAbove(s, previous, first);
    ChildDepth(s, EntryStop(s, previous, first));
    if s.Sub? && (first || !IsChild(previous, s)) {
      EntryTraceIsEntries(s.parent, previous, false);
      var k, ch := Depth(EntryStop(s, previous, first)), Chain(s);
      assert ch[k..][..|ch[k..]| - 1] == Chain(s.parent)[k..];
    }
  }

  lemma StopIsKept(c: State, n: State)
    ensures Depth(ExitStop(c, n)) == Kept(c, n)
  {
    var a, k := ExitStop(c, n), Kept(c, n);
    ExitStopIsAbove(c, n);
    ChainOfAncestor(c, a);
    if a.Sub? {
      ChainOfAncestor(n, a);
      ChildDepth(n, a);
      PrefixIsCommon(Chain(c), Chain(n), Depth(a));
    }
    if k > 0 {
      var x := Chain(c)[k - 1];
      ChainElement(c, k - 1);
      ChainElement(n, k - 1);
      assert x == Chain(n)[k - 1];
      ExitStopIsInnermost(c, n, x);
      ChildDepth(a, x);
    }
  }

  lemma {:induction false} PrefixIsCommon(a: seq<State>, b: seq<State>, k: nat)
    requires k <= |a| && k <= |b| && a[..k] == b[..k]
    ensures Common(a, b) >= k
  {
    if k > 0 {
      assert a[..k][0] == a[0] && b[..k][0] == b[0];
      assert a[1..][..k - 1] == a[..k][1..] && b[1..][..k - 1] == b[..k][1..];
      PrefixIsCommon(a[1..], b[1..], k - 1);
    }
  }

  // Exits innermost first down to the shared states strictly above the target, then
  // entries outermost first: the order of UML statecharts.
  lemma TransitionFollowsStatechartOrder(c: State, n: State)
    ensures Kept(c, n) <= Depth(c) && Kept(c, n) <= Depth(n)
    ensures TransitionTrace(c, n) == Exits(Chain(c)[Kept(c, n)..]) + Entries(Chain(n)[Kept(c, n)..])
  {
    StopIsKept(c, n);
    StopsAgree(c, n);
    ExitTraceIsExits(c, n);
    EntryTraceIsEntries(n, c, true);
  }

  lemma {:induction false} EntriesConcat(a: seq<State>, b: seq<State>)
    ensures Entries(a + b) == Entries(a) + Entries(b)
  {
    if b == [] {
      assert a + b == a;
    } else {
      assert (a + b)[..|a + b| - 1] == a + b[..|b| - 1];
      EntriesConcat(a, b[..|b| - 1]);
    }
  }

  // Going on to a substate only enters.
  lemma DescentOnlyEnters(c: State, n: State)
    requires ProperChild(n, c)
    ensures Depth(c) < Depth(n) && TransitionTrace(c, n) == Entries(Chain(n)[Depth(c)..])
  {
    ChildDepth(n, c);
    ChainOfAncestor(n, c);
    PrefixIsCommon(Chain(c), Chain(n), Depth(c));
    TransitionFollowsStatechartOrder(c, n);
    assert Chain(c)[Depth(c)..] == [];
  }

  // Going down in two steps enters the same states as going down at once.
  lemma DescentsCompose(a: State, b: State, c: State)
    requires IsChild(b, a) && IsChild(c, b)
    ensures Depth(a) <= Depth(b) <= Depth(c)
    ensures Entries(Chain(b)[Depth(a)..]) + Entries(Chain(c)[Depth(b)..]) == Entries(Chain(c)[Depth(a)..])
  {
    hide Entries, IsChild, Chain, Depth;
    ChildDepth(b, a);
    ChildDepth(c, b);
    ChainOfAncestor(c, b);
    assert Chain(c)[Depth(a)..] == Chain(b)[Depth(a)..] + Chain(c)[Depth(b)..];
    EntriesConcat(Chain(b)[Depth(a)..], Chain(c)[Depth(b)..]);
  }
}
