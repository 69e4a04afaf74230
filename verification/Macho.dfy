/** The machine objects of src/util/Macho.cc: transitions, histories, boxes and events. */
module Macho {
  import opened Options
  import opened MachoStates
  import opened MachoHistory

  // How a state stores its data: the shared empty box, a box that lives while the state is
  // active, or a PERSISTENT one.
  datatype BoxKind = EmptyBox | OwnBox | PersistentBox

  type Addr = nat
  datatype Box = TheEmptyBox | Live(at: Addr)

  // myBox and myBoxPlace of all states (absent means null), and the next unused address.
  datatype Memory = Memory(box: map<State, Box>, place: map<State, Addr>, next: Addr)

  datatype Initializer = Default | History | Param(p: nat)
  datatype Request = Request(target: State, init: Initializer)
  datatype Reaction = Reaction(transition: Option<Request>, event: Option<nat>)

  // The state classes of one machine and the user's code in them. User code may do something
  // else each time it runs; the last argument is the number of user calls before it.
  datatype Design = Design(
    states: set<State>,
    history: Strategies,
    box: State -> BoxKind,
    onInit: (State, Initializer, nat) -> Option<Request>,
    onEvent: (State, nat, nat) -> Reaction)
  {
    // States derive from states, and init goes to proper substates only (the assertion in rattleOn).
    ghost predicate Sound() {
      && Root in states
      && (forall s :: s in states && s.Sub? ==> s.parent in states)
      && (forall s, i, n :: onInit(s, i, n).Some? ==>
            s.Sub? && onInit(s, i, n).value.target in states && ProperChild(onInit(s, i, n).value.target, s))
      && (forall s, e, n :: onEvent(s, e, n).transition.Some? ==>
            onEvent(s, e, n).transition.value.target in states && onEvent(s, e, n).transition.value.target.Sub?)
    }
  }

  // ----- boxes -----

  // A state with its own box has a live one if and only if it is active, and box and cached
  // place are never both set.
  ghost predicate BoxOk(k: State -> BoxKind, m: Memory, active: seq<State>, s: State) {
    && !(s in m.box && s in m.place)
    && (s in active ==> s in m.box)
    && (s in m.box ==> (m.box[s].TheEmptyBox? <==> k(s) == EmptyBox))
    && (s in m.box && k(s) == OwnBox ==> s in active)
    && (s in m.box && m.box[s].Live? ==> m.box[s].at < m.next)
    && (s in m.place ==> k(s) == OwnBox && m.place[s] < m.next)
  }

  // Exactly the states in active are entered; no two boxes or places share memory.
  ghost predicate BoxInv(k: State -> BoxKind, m: Memory, active: seq<State>) {
    (forall s :: BoxOk(k, m, active, s)) && NoSharing(m)
  }

  ghost predicate NoSharing(m: Memory) {
    && (forall s, t :: s in m.box && t in m.box && s != t && m.box[s].Live? ==> m.box[s] != m.box[t])
    && (forall s, t :: s in m.place && t in m.place && s != t ==> m.place[s] != m.place[t])
    && (forall s, t :: s in m.box && t in m.place ==> m.box[s] != Live(m.place[t]))
  }

  // createBox
  function CreateBox(k: State -> BoxKind, m: Memory, s: State): Memory {
    if s in m.box then m
    else if k(s) == EmptyBox then m.(box := m.box[s := TheEmptyBox])
    else if s in m.place then Memory(m.box[s := Live(m.place[s])], m.place - {s}, m.next)
    else Memory(m.box[s := Live(m.next)], m.place, m.next + 1)
  }

  // The asserts of deleteBox, which only a state with its own box reaches.
  predicate Deletable(k: State -> BoxKind, m: Memory, s: State) {
    k(s) == OwnBox ==> s in m.box && m.box[s].Live? && s !in m.place
  }

  // The box handling of exit.
  function DeleteBox(k: State -> BoxKind, m: Memory, s: State): Memory
    requires Deletable(k, m, s)
  {
    if k(s) == OwnBox then Memory(m.box - {s}, m.place[s := m.box[s].at], m.next) else m
  }

  // Persistent boxes stay where they are.
  ghost predicate Persists(k: State -> BoxKind, m: Memory, m': Memory) {
    forall s :: s in m.box && k(s) == PersistentBox ==> s in m'.box && m'.box[s] == m.box[s]
  }

  lemma EnterBox(k: State -> BoxKind, m: Memory, s: State, active: seq<State>)
    requires BoxInv(k, m, active)
    ensures BoxInv(k, CreateBox(k, m, s), active + [s])
    ensures Persists(k, m, CreateBox(k, m, s))
  {
    EnterShares(k, m, s, active);
    forall t ensures BoxOk(k, CreateBox(k, m, s), active + [s], t) {
      assert BoxOk(k, m, active, t);
    }
  }

  lemma EnterShares(k: State -> BoxKind, m: Memory, s: State, active: seq<State>)
    requires BoxInv(k, m, active)
    ensures NoSharing(CreateBox(k, m, s))
  {
    forall t | t in m.box && m.box[t].Live? ensures m.box[t].at < m.next { assert BoxOk(k, m, active, t); }
    forall t | t in m.place ensures m.place[t] < m.next { assert BoxOk(k, m, active, t); }
    if s !in m.box {
      if k(s) == EmptyBox {
        AddShares(m, s, TheEmptyBox);
      } else if s in m.place {
        AddShares(m.(place := m.place - {s}), s, Live(m.place[s]));
      } else {
        AddShares(m.(next := m.next + 1), s, Live(m.next));
      }
    }
  }

  lemma AddShares(m: Memory, s: State, b: Box)
    requires NoSharing(m) && s !in m.box
    requires b.Live? ==> (forall t :: t in m.box ==> m.box[t] != b) && (forall t :: t in m.place ==> m.place[t] != b.at)
    ensures NoSharing(m.(box := m.box[s := b]))
  {
  }

  lemma LeaveBox(k: State -> BoxKind, m: Memory, s: State, active: seq<State>)
    requires BoxInv(k, m, active + [s]) && s !in active
    ensures Deletable(k, m, s) && BoxInv(k, DeleteBox(k, m, s), active)
    ensures Persists(k, m, DeleteBox(k, m, s))
  {
    assert s in active + [s] && BoxOk(k, m, active + [s], s);
    forall t ensures BoxOk(k, DeleteBox(k, m, s), active, t) {
      assert BoxOk(k, m, active + [s], t);
    }
  }

  // ----- runs, step by step -----

  // What a machine is at one point of a run.
  datatype Config = Config(s: State, pending: Option<Request>, event: Option<nat>, history: Histories, trace: seq<Event>, calls: nat)

  // A machine that is about to start.
  function Begin(start: State): Config {
    Config(Root, Some(Request(start, Default)), None, map[], [], 0)
  }

  // The history of x once c has been left.
  function HistoryOf(k: Strategies, c: State, h: Histories, x: State): Option<State> {
    match Recorded(k, c, x)
    case Some(y) => Some(y)
    case None => if x in h then Some(h[x]) else None
  }

  // A requested transition is carried out: exits and entries in statechart order; the histories of the states
  // left are recorded; the target goes on to its history, if the request is for it and there is one, or to what its
  // init asks for, called once; and its history is forgotten unless the initializer has parameters.
  ghost predicate Moves(d: Design, a: Config, b: Config) {
    && a.pending.Some?
    && var n, init := a.pending.value.target, a.pending.value.init;
    && b.s == n && b.event == a.event
    && b.trace == a.trace + Exits(Chain(a.s)[Kept(a.s, n)..]) + Entries(Chain(n)[Kept(a.s, n)..])
    && (forall x :: x in b.history <==> HistoryOf(d.history, a.s, a.history, x).Some? && (x == n ==> init.Param?))
    && (forall x :: x in b.history ==> HistoryOf(d.history, a.s, a.history, x) == Some(b.history[x]))
    && if init == History && HistoryOf(d.history, a.s, a.history, n).Some?
       then b.pending == Some(Request(HistoryOf(d.history, a.s, a.history, n).value, Default)) && b.calls == a.calls
       else b.pending == d.onInit(n, init, a.calls) && b.calls == a.calls + 1
  }

  // The posted event is handled, once, in the state reached.
  ghost predicate Dispatches(d: Design, a: Config, b: Config) {
    && a.pending == None && a.event.Some?
    && var r := d.onEvent(a.s, a.event.value, a.calls);
    b == Config(a.s, r.transition, r.event, a.history, a.trace, a.calls + 1)
  }

  // Transitions come before events.
  ghost predicate Step(d: Design, a: Config, b: Config) {
    if a.pending.Some? then Moves(d, a, b) else Dispatches(d, a, b)
  }

  ghost predicate RunOf(d: Design, cs: seq<Config>, a: Config, b: Config) {
    && cs != [] && cs[0] == a
    && if |cs| == 1 then a == b else Step(d, a, cs[1]) && RunOf(d, cs[1..], cs[1], b)
  }

  // How many events are handled along the way.
  function Handled(cs: seq<Config>): nat {
    if |cs| <= 1 then 0 else (if cs[0].pending == None then 1 else 0) + Handled(cs[1..])
  }

  lemma {:induction false} RunOfNothing(d: Design, a: Config)
    ensures RunOf(d, [a], a, a) && Handled([a]) == 0
  {
  }

  lemma {:induction false} RunOfStep(d: Design, a: Config, b: Config)
    requires Step(d, a, b)
    ensures RunOf(d, [a, b], a, b) && Handled([a, b]) == if a.pending == None then 1 else 0
  {
    assert [a, b][1..] == [b];
    RunOfNothing(d, b);
    hide Step;
  }

  lemma {:induction false} RunsCompose(d: Design, cs: seq<Config>, ds: seq<Config>, a: Config, b: Config, c: Config)
      returns (all: seq<Config>)
    requires RunOf(d, cs, a, b) && RunOf(d, ds, b, c)
    ensures RunOf(d, all, a, c) && Handled(all) == Handled(cs) + Handled(ds)
    decreases |cs|
  {
    hide Step;
    if |cs| == 1 {
      all := ds;
    } else {
      var rest := RunsCompose(d, cs[1..], ds, cs[1], b, c);
      all := [a] + rest;
      assert all[1..] == rest;
    }
  }

  lemma {:induction false} RunSteps(d: Design, cs: seq<Config>, a: Config, b: Config)
    requires RunOf(d, cs, a, b)
    ensures cs[|cs| - 1] == b && forall i :: 0 <= i < |cs| - 1 ==> Step(d, cs[i], cs[i + 1])
    decreases |cs|
  {
    hide Step;
    if |cs| > 1 {
      RunSteps(d, cs[1..], cs[1], b);
      forall i | 0 <= i < |cs| - 1 ensures Step(d, cs[i], cs[i + 1]) {
        if i > 0 { assert cs[i] == cs[1..][i - 1] && cs[i + 1] == cs[1..][i]; }
      }
    }
  }

  // A machine has only one way to go.
  lemma {:induction false} StepIsDeterministic(d: Design, a: Config, b: Config, c: Config)
    requires Step(d, a, b) && Step(d, a, c)
    ensures b == c
  {
    hide HistoryOf, Exits, Entries, Kept;
    if a.pending.Some? {
      assert b.history.Keys == c.history.Keys;
      assert b.history == c.history;
    }
  }

  // Leaving c, wherever the machine goes outside a composite state x with a history, and whatever happens there:
  // a transition to the history of x goes on to c, or to the substate of x toward c if the history is shallow.
  lemma {:induction false} HistoryIsRestored(d: Design, cs: seq<Config>, a: Config, b: Config, z: Config, x: State)
    requires RunOf(d, cs, a, b) && |cs| >= 2 && a.pending.Some? && Step(d, b, z)
    requires x.Sub? && ProperChild(a.s, x) && d.history(x) != NoHistory
    requires forall i :: 1 <= i < |cs| ==> !IsChild(cs[i].s, x)
    requires b.pending == Some(Request(x, History))
    ensures z.s == x && z.pending == Some(Request(if d.history(x) == Deep then a.s else Toward(x, a.s), Default))
  {
    RunSteps(d, cs, a, b);
    HistoryStays(d, cs, a, b, x, |cs| - 1);
  }

  lemma {:induction false} HistoryStays(d: Design, cs: seq<Config>, a: Config, b: Config, x: State, i: nat)
    requires RunOf(d, cs, a, b) && a.pending.Some? && 1 <= i < |cs|
    requires x.Sub? && ProperChild(a.s, x) && d.history(x) != NoHistory
    requires forall j :: 1 <= j < |cs| ==> !IsChild(cs[j].s, x)
    ensures x in cs[i].history && Some(cs[i].history[x]) == Recorded(d.history, a.s, x)
  {
    hide RunOf, Step, Recorded, HistoryOf;
    RunSteps(d, cs, a, b);
    assert cs[0] == a by { RunBegins(d, cs, a, b); }
    assert Step(d, cs[i - 1], cs[i]);
    assert Recorded(d.history, a.s, x).Some? by { BelowRecords(d, a.s, x); }
    if i > 1 {
      HistoryStays(d, cs, a, b, x, i - 1);
      OutsideRecordsNothing(d, cs[i - 1].s, x);
    }
    HistoryStep(d, cs[i - 1], cs[i], x, Recorded(d.history, a.s, x).value);
  }

  lemma RunBegins(d: Design, cs: seq<Config>, a: Config, b: Config)
    requires RunOf(d, cs, a, b)
    ensures cs != [] && cs[0] == a
  {
  }

  lemma BelowRecords(d: Design, s: State, x: State)
    requires x.Sub? && ProperChild(s, x) && d.history(x) != NoHistory
    ensures Recorded(d.history, s, x).Some?
  {
  }

  lemma OutsideRecordsNothing(d: Design, s: State, x: State)
    requires !IsChild(s, x)
    ensures Recorded(d.history, s, x) == None
  {
  }

  lemma {:induction false} HistoryStep(d: Design, p: Config, q: Config, x: State, y: State)
    requires Step(d, p, q) && !IsChild(q.s, x)
    requires (p.pending.Some? && Recorded(d.history, p.s, x) == Some(y))
             || (Recorded(d.history, p.s, x) == None && x in p.history && p.history[x] == y)
    ensures x in q.history && q.history[x] == y
  {
    hide Exits, Entries, Kept, Chain, Recorded;
    assert HistoryOf(d.history, p.s, p.history, x) == Some(y);
  }

  // ----- the machine -----

  // From state c with trace t to state s with trace t', for request p: the transition, then entries down to an
  // initial substate of its target; nothing without a request.
  ghost predicate Went(c: State, p: Option<Request>, s: State, t: seq<Event>, t': seq<Event>) {
    match p
    case None => s == c && t' == t
    case Some(r) =>
      && IsChild(s, r.target) && Depth(r.target) <= Depth(s)
      && t' == t + TransitionTrace(c, r.target) + Entries(Chain(s)[Depth(r.target)..])
  }

  class Machine {
    const d: Design
    var current: Option<State>
    var pending: Option<Request>
    var event: Option<nat>
    var history: Histories
    var mem: Memory
    var trace: seq<Event>
    var calls: nat

    // In a state: the open brackets of the trace are its chain, outermost first.
    ghost predicate In(s: State)
      reads this
    {
      && d.Sound() && current == Some(s) && s in d.states
      && Replay([], trace) == Some(Chain(s))
      && HistoryInv(d.history, history) && (forall a :: a in history ==> history[a] in d.states)
      && BoxInv(d.box, mem, Chain(s))
    }

    ghost predicate Valid()
      reads this
    {
      && current.Some? && In(current.value)
      && (pending.Some? ==> pending.value.target in d.states)
    }

    ghost function Now(): Config
      reads this
      requires current.Some?
    {
      Config(current.value, pending, event, history, trace, calls)
    }

    ghost predicate Idle()
      reads this
    {
      pending == None && event == None
    }

    method ExitTo(s: State, next: State)
      requires d.Sound() && BoxInv(d.box, mem, Chain(s))
      modifies this`trace, this`mem
      ensures trace == old(trace) + ExitTrace(s, next)
      ensures BoxInv(d.box, mem, Chain(ExitStop(s, next)))
      ensures Persists(d.box, old(mem), mem)
      decreases s
    {
      hide BoxInv, DeleteBox;
      if s.Root? { return; }
      if s == next || !IsChild(next, s) {
        trace := trace + [Exit(s)];
        NotInOwnChain(s);
        LeaveBox(d.box, mem, s, Chain(s.parent));
        mem := DeleteBox(d.box, mem, s);
        ExitTo(s.parent, next);
        assert old(trace) + [Exit(s)] + ExitTrace(s.parent, next) == old(trace) + ExitTrace(s, next);
      }
    }

    method EnterFrom(s: State, previous: State, first: bool)
      requires d.Sound() && BoxInv(d.box, mem, Chain(EntryStop(s, previous, first)))
      modifies this`trace, this`mem
      ensures trace == old(trace) + EntryTrace(s, previous, first)
      ensures BoxInv(d.box, mem, Chain(s))
      ensures Persists(d.box, old(mem), mem)
      decreases s
    {
      hide BoxInv, CreateBox;
      if s.Root? { return; }
      if first || !IsChild(previous, s) {
        EnterFrom(s.parent, previous, false);
        EnterBox(d.box, mem, s, Chain(s.parent));
        mem := CreateBox(d.box, mem, s);
        trace := trace + [Entry(s)];
      }
    }

    // _StateInstance::setHistorySuper and saveHistory
    method BubbleHistory(self: State, deep: State)
      modifies this`history
      ensures history == SetHistorySuper(d.history, old(history), self, deep)
      decreases self
    {
      if self.Root? { return; }
      var s := self.parent;
      if s.Root? { return; }
      match d.history(s) {
        case NoHistory =>
          if Bubbles(d.history, s) { BubbleHistory(s, deep); }
        case Deep =>
          history := history[s := deep];
          if Bubbles(d.history, s.parent) { BubbleHistory(s, deep); }
        case Shallow =>
          history := history[s := self];
          if Bubbles(d.history, s.parent) { BubbleHistory(s, deep); }
      }
    }

    // What the initializer of a transition to n asks for next.
    ghost function Next(n: State, init: Initializer, h: Histories, k: nat): Option<Request> {
      if init == History && n in h then Some(Request(h[n], Default)) else d.onInit(n, init, k)
    }

    // The initializers with parameters bypass _StateInstance::init, which forgets the history.
    function Forgets(n: State, init: Initializer): set<State> {
      if init.Param? then {} else {n}
    }

    // _Initializer::execute and _StateInstance::init
    method Execute(n: State, init: Initializer)
      requires pending == None
      modifies this`pending, this`history, this`calls
      ensures pending == Next(n, init, old(history), old(calls))
      ensures calls == if init == History && n in old(history) then old(calls) else old(calls) + 1
      ensures history == old(history) - Forgets(n, init)
    {
      if init == History && n in history {
        pending := Some(Request(history[n], Default));
      } else {
        pending := d.onInit(n, init, calls);
        calls := calls + 1;
      }
      if !init.Param? { history := history - {n}; }
    }

    // One pass of the inner loop of rattleOn.
    method Transition()
      requires Valid() && pending.Some?
      modifies this`current, this`pending, this`history, this`mem, this`trace, this`calls
      ensures Valid() && current == Some(old(pending).value.target)
      ensures trace == old(trace) + TransitionTrace(old(current).value, current.value)
      ensures var h := SetHistorySuper(d.history, old(history), old(current).value, old(current).value);
              && pending == Next(current.value, old(pending).value.init, h, old(calls))
              && history == h - Forgets(current.value, old(pending).value.init)
      ensures pending.Some? ==> ProperChild(pending.value.target, current.value)
      ensures Moves(d, old(Now()), Now())
      ensures Persists(d.box, old(mem), mem)
    {
      hide BoxInv, HistoryInv, SetHistorySuper, TransitionTrace, Moves;
      ghost var before := Now();
      var c, n := current.value, pending.value.target;
      TransitionIsWellNested(c, n);
      StopsAgree(c, n);
      LeavingKeepsHistory(d, history, c);
      ExitTo(c, n);
      BubbleHistory(c, c);
      current := Some(n);
      EnterFrom(n, c, true);
      var init := pending.value.init;
      pending := None;
      ghost var h := history;
      Execute(n, init);
      TraceOfTransition(old(trace), c, n);
      ForgettingKeepsHistory(d, h, n, init, Forgets(n, init));
      TransitionMoves(d, before, Now(), h);
    }

    // The inner loop of rattleOn: it ends because each init goes deeper into the state tree.
    method Settle()
      requires Valid()
      modifies this`current, this`pending, this`history, this`mem, this`trace, this`calls
      ensures Valid() && pending == None
      ensures old(pending) == None ==> history == old(history)
      ensures Went(old(current).value, old(pending), current.value, old(trace), trace)
      ensures exists cs :: RunOf(d, cs, old(Now()), Now()) && Handled(cs) == 0
      ensures Persists(d.box, old(mem), mem)
    {
      hide BoxInv, HistoryInv, SetHistorySuper, TransitionTrace, Entries, Replay, Moves, RunOf, Handled;
      ghost var cs := [Now()];
      RunOfNothing(d, Now());
      if pending == None { return; }
      ghost var c, n := current.value, pending.value.target;
      ghost var m, start := mem, Now();
      Transition();
      cs := [start, Now()];
      RunOfStep(d, start, Now());
      ghost var t := trace;
      assert Chain(n)[Depth(n)..] == [];
      EntriesOfNothing();
      while pending.Some?
        invariant Valid() && IsChild(current.value, n) && Depth(n) <= Depth(current.value)
        invariant pending.Some? ==> ProperChild(pending.value.target, current.value)
        invariant trace == t + Entries(Chain(current.value)[Depth(n)..])
        invariant RunOf(d, cs, start, Now()) && Handled(cs) == 0
        invariant Persists(d.box, m, mem)
        decreases Ahead(d.states, pending)
      {
        ghost var a, b, p := current.value, pending.value.target, pending;
        ChildTransitive(b, a, n);
        DescentOnlyEnters(a, b);
        DescentsCompose(n, a, b);
        ghost var before := Now();
        Transition();
        RunOfStep(d, before, Now());
        cs := RunsCompose(d, cs, [before, Now()], start, before, Now());
        AheadShrinks(d.states, p, pending);
      }
    }

    // An event handler runs in the current state; it may ask for a transition and post an event.
    method Handle(e: nat)
      requires Valid() && Idle()
      modifies this`pending, this`event, this`calls
      ensures Valid()
      ensures var r := d.onEvent(current.value, e, old(calls)); pending == r.transition && event == r.event
      ensures Dispatches(d, old(Now()).(event := Some(e)), Now())
    {
      var r := d.onEvent(current.value, e, calls);
      pending, event, calls := r.transition, r.event, calls + 1;
    }

    // rattleOn, for at most fuel posted events: handlers could post events forever. The machine goes step by step
    // through transitions and, when none is requested, posted events; it ends quiet, or when fuel events have been
    // handled and another one is posted.
    method RattleOn(fuel: nat) returns (quiet: bool)
      requires Valid()
      modifies this`current, this`pending, this`event, this`history, this`mem, this`trace, this`calls
      ensures Valid() && pending == None && (quiet <==> Idle())
      ensures old(trace) <= trace
      ensures exists s, t :: Went(old(current).value, old(pending), s, old(trace), t) && t <= trace
      ensures old(event) == None ==> quiet && Went(old(current).value, old(pending), current.value, old(trace), trace)
      ensures exists cs :: RunOf(d, cs, old(Now()), Now()) && Handled(cs) <= fuel && (!quiet ==> Handled(cs) == fuel)
      ensures Persists(d.box, old(mem), mem)
    {
      hide BoxInv, HistoryInv, TransitionTrace, Entries, Replay, Design.Sound, RunOf, Handled, Dispatches, Moves;
      var left := fuel;
      ghost var start := Now();
      Settle();
      ghost var s, t := current.value, trace;
      ghost var cs :| RunOf(d, cs, start, Now()) && Handled(cs) == 0;
      while event.Some? && left > 0
        invariant Valid() && pending == None && Persists(d.box, old(mem), mem) && t <= trace
        invariant old(event) == None ==> event == None && current.value == s && trace == t
        invariant RunOf(d, cs, start, Now()) && Handled(cs) == fuel - left
        decreases left
      {
        ghost var before := Now();
        var e := event.value;
        event := None;
        Handle(e);
        ghost var handled := Now();
        RunOfStep(d, before, handled);
        cs := RunsCompose(d, cs, [before, handled], start, before, handled);
        Settle();
        ghost var ds :| RunOf(d, ds, handled, Now()) && Handled(ds) == 0;
        cs := RunsCompose(d, cs, ds, start, handled, Now());
        left := left - 1;
      }
      quiet := event == None;
    }

    // The constructor of Machine: start in Root, then go to the start state.
    constructor (design: Design, start: State)
      requires design.Sound() && start in design.states
      ensures Valid() && Idle() && d == design
      ensures IsChild(current.value, start) && Depth(start) <= Depth(current.value)
      ensures trace == Entries(Chain(current.value))
      ensures exists cs :: RunOf(d, cs, Begin(start), Now()) && Handled(cs) == 0
    {
      d := design;
      current, pending, event := Some(Root), Some(Request(start, Default)), None;
      history, mem, trace, calls := map[], Memory(map[], map[], 0), [], 0;
      new;
      hide Entries, Replay, IsChild, TransitionTrace, BoxInv, HistoryInv, Design.Sound, RunOf, Handled;
      StartState(d.box, d.history);
      RootIsState(d);
      StartFromRoot(start);
    }

    method StartFromRoot(start: State)
      requires Valid() && current == Some(Root) && trace == [] && pending == Some(Request(start, Default))
      requires Now() == Begin(start)
      modifies this`current, this`pending, this`history, this`mem, this`trace, this`calls
      ensures Valid() && pending == None
      ensures IsChild(current.value, start) && Depth(start) <= Depth(current.value)
      ensures trace == Entries(Chain(current.value))
      ensures event == None && exists cs :: RunOf(d, cs, Begin(start), Now()) && Handled(cs) == 0
    {
      hide Entries, Replay, IsChild, TransitionTrace, BoxInv, HistoryInv, Design.Sound, RunOf, Handled;
      Settle();
      StartTrace(start, current.value);
    }

    // machine->event(): the handler, then rattleOn.
    method Send(e: nat, fuel: nat) returns (quiet: bool)
      requires Valid() && Idle()
      modifies this`current, this`pending, this`event, this`history, this`mem, this`trace, this`calls
      ensures Valid() && pending == None && (quiet <==> Idle())
      ensures old(trace) <= trace
      ensures var r := d.onEvent(old(current).value, e, old(calls));
              && (exists s, t :: Went(old(current).value, r.transition, s, old(trace), t) && t <= trace)
              && (r.event == None ==> quiet && Went(old(current).value, r.transition, current.value, old(trace), trace))
      ensures exists cs :: RunOf(d, cs, old(Now()).(event := Some(e)), Now())
                           && 1 <= Handled(cs) <= fuel + 1 && (!quiet ==> Handled(cs) == fuel + 1)
      ensures Persists(d.box, old(mem), mem)
    {
      hide BoxInv, HistoryInv, TransitionTrace, Entries, Replay, Design.Sound, RunOf, Handled, Dispatches, Moves;
      ghost var before := Now().(event := Some(e));
      Handle(e);
      ghost var handled := Now();
      RunOfStep(d, before, handled);
      quiet := RattleOn(fuel);
      ghost var ds :| RunOf(d, ds, handled, Now()) && Handled(ds) <= fuel && (!quiet ==> Handled(ds) == fuel);
      ghost var cs := RunsCompose(d, [before, handled], ds, before, handled, Now());
    }

    // All active states are left, innermost first; the trace is balanced and only persistent
    // and empty boxes are left.
    method Shutdown()
      requires Valid() && Idle()
      modifies this`current, this`pending, this`history, this`mem, this`trace, this`calls
      ensures current == None && Idle()
      ensures trace == old(trace) + Exits(Chain(old(current).value)) && Replay([], trace) == Some([])
      ensures BoxInv(d.box, mem, [])
    {
      hide Moves, TransitionTrace, BoxInv;
      pending := Some(Request(Root, Default));
      ghost var c := current.value;
      Transition();
      RootTrace(c);
      current := None;
    }
  }

  // What one pass of the inner loop computes is a move.
  lemma {:induction false} TransitionMoves(d: Design, a: Config, b: Config, h: Histories)
    requires a.pending.Some? && b.s == a.pending.value.target && b.event == a.event
    requires b.trace == a.trace + TransitionTrace(a.s, b.s)
    requires h == SetHistorySuper(d.history, a.history, a.s, a.s)
    requires b.history == h - (if a.pending.value.init.Param? then {} else {b.s})
    requires if a.pending.value.init == History && b.s in h
             then b.pending == Some(Request(h[b.s], Default)) && b.calls == a.calls
             else b.pending == d.onInit(b.s, a.pending.value.init, a.calls) && b.calls == a.calls + 1
    ensures Moves(d, a, b)
  {
    hide SetHistorySuper, HistoryOf, TransitionTrace, Exits, Entries, Kept;
    HistoryAfterLeaving(d.history, a.history, a.s, h);
    TraceAfterLeaving(a.trace, a.s, b.s);
  }

  lemma {:induction false} HistoryAfterLeaving(k: Strategies, was: Histories, c: State, h: Histories)
    requires h == SetHistorySuper(k, was, c, c)
    ensures forall x :: x in h <==> HistoryOf(k, c, was, x).Some?
    ensures forall x :: x in h ==> HistoryOf(k, c, was, x) == Some(h[x])
  {
    LeavingRecordsHistory(k, was, c);
    hide SetHistorySuper, Recorded;
  }

  lemma {:induction false} TraceAfterLeaving(t: seq<Event>, c: State, n: State)
    ensures Kept(c, n) <= |Chain(c)| && Kept(c, n) <= |Chain(n)|
    ensures t + TransitionTrace(c, n) == t + Exits(Chain(c)[Kept(c, n)..]) + Entries(Chain(n)[Kept(c, n)..])
  {
    TransitionFollowsStatechartOrder(c, n);
    hide TransitionTrace, Exits, Entries, Kept;
    var x, y := Exits(Chain(c)[Kept(c, n)..]), Entries(Chain(n)[Kept(c, n)..]);
    assert t + (x + y) == t + x + y;
  }

  // The states an init may still go to.
  ghost function Ahead(states: set<State>, p: Option<Request>): set<State> {
    if p == None then {} else set s | s in states && IsChild(s, p.value.target)
  }

  lemma AheadShrinks(states: set<State>, p: Option<Request>, q: Option<Request>)
    requires p.Some? && p.value.target in states
    requires q.Some? ==> ProperChild(q.value.target, p.value.target)
    ensures Ahead(states, q) < Ahead(states, p)
  {
    var n := p.value.target;
    assert n in Ahead(states, p);
    if q.Some? {
      var b := q.value.target;
      forall s | s in states && IsChild(s, b) ensures IsChild(s, n) && s != n {
        ChildTransitive(s, b, n);
        ChildDepth(s, b);
        ChildDepth(b, n);
      }
    }
  }

  lemma EntriesOfNothing()
    ensures Entries([]) == []
  {
  }

  lemma {:induction false} TraceOfTransition(t: seq<Event>, c: State, n: State)
    ensures t + ExitTrace(c, n) + EntryTrace(n, c, true) == t + TransitionTrace(c, n)
    ensures Replay([], t) == Some(Chain(c)) ==> Replay([], t + TransitionTrace(c, n)) == Some(Chain(n))
  {
    if Replay([], t) == Some(Chain(c)) {
      TransitionIsWellNested(c, n);
      ReplayConcat([], t, TransitionTrace(c, n));
    }
  }

  lemma LeavingKeepsHistory(d: Design, h: Histories, c: State)
    requires HistoryInv(d.history, h) && d.Sound() && c in d.states && (forall a :: a in h ==> h[a] in d.states)
    ensures HistoryInv(d.history, SetHistorySuper(d.history, h, c, c))
    ensures var r := SetHistorySuper(d.history, h, c, c); forall a :: a in r ==> r[a] in d.states
  {
    LeavingKeepsHistoryInv(d.history, h, c);
    LeavingRecordsHistory(d.history, h, c);
    var r := SetHistorySuper(d.history, h, c, c);
    forall a | a in r ensures r[a] in d.states {
      if Recorded(d.history, c, a).Some? && d.history(a) == Shallow { AncestorsAreStates(d, c, Toward(a, c)); }
    }
  }

  lemma {:induction false} AncestorsAreStates(d: Design, s: State, a: State)
    requires d.Sound() && s in d.states && IsChild(s, a)
    ensures a in d.states
  {
    if s != a { AncestorsAreStates(d, s.parent, a); }
  }

  lemma ForgettingKeepsHistory(d: Design, h: Histories, n: State, init: Initializer, gone: set<State>)
    requires HistoryInv(d.history, h) && d.Sound() && (forall a :: a in h ==> h[a] in d.states)
    ensures HistoryInv(d.history, h - gone)
    ensures forall a :: a in h - gone ==> (h - gone)[a] in d.states
    ensures init == History && n in h ==> ProperChild(h[n], n)
  {
  }

  lemma StartState(k: State -> BoxKind, h: Strategies)
    ensures Replay([], []) == Some(Chain(Root))
    ensures BoxInv(k, Memory(map[], map[], 0), Chain(Root)) && HistoryInv(h, map[])
  {
  }

  lemma RootIsState(d: Design)
    requires d.Sound()
    ensures Root in d.states
  {
  }

  lemma {:induction false} StartTrace(start: State, s: State)
    requires IsChild(s, start) && Depth(start) <= Depth(s)
    ensures [] + TransitionTrace(Root, start) + Entries(Chain(s)[Depth(start)..]) == Entries(Chain(s))
  {
    hide Entries, Chain, IsChild;
    RootDescent(start);
    EverythingUnderRoot(start);
    DescentsCompose(Root, start, s);
    assert Chain(s)[0..] == Chain(s);
  }

  lemma {:induction false} RootDescent(start: State)
    ensures TransitionTrace(Root, start) == Entries(Chain(start)[0..])
  {
    EverythingUnderRoot(start);
    if start.Sub? { DescentOnlyEnters(Root, start); }
  }

  lemma {:induction false} RootTrace(c: State)
    ensures TransitionTrace(c, Root) == Exits(Chain(c))
  {
    TransitionFollowsStatechartOrder(c, Root);
    assert Chain(c)[0..] == Chain(c);
  }

  lemma NotInOwnChain(s: State)
    requires s.Sub?
    ensures s !in Chain(s.parent)
  {
    forall i | 0 <= i < Depth(s.parent) ensures Chain(s.parent)[i] != s { ChainElement(s.parent, i); }
  }
}
