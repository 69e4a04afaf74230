/** Runs of one lifecycle controller with any number of operations, initiated and completed in any
    interleaving (src/base/LifecycleController.cc), and what a node status module sees of them. */
module LifecycleRuns {
  import opened Options
  import opened Sequences
  import opened Lifecycle
  import NodeStatus

  // The fields of one operation object.
  datatype Underway = Underway(started: bool, stage: nat, pending: seq<Callback>, inside: bool, log: seq<Call>, fired: nat)

  // A handler call made for the operation with this index.
  datatype Tagged = Tagged(op: nat, call: Call)

  // All operations, the fields of the controller, and all handler calls in the order they were made.
  datatype World = World(ops: seq<Underway>, spare: Option<nat>, next: nat, trace: seq<Tagged>)

  datatype Event = Initiation(op: nat) | Completion(op: nat, which: nat)

  function View(w: World, i: nat): State
    requires i < |w.ops|
  {
    var o := w.ops[i];
    State(o.stage, o.pending, o.inside, w.spare, w.next, o.log, o.fired)
  }

  function Tag(i: nat, calls: seq<Call>): seq<Tagged> {
    if calls == [] then [] else Tag(i, calls[..|calls| - 1]) + [Tagged(i, calls[|calls| - 1])]
  }

  // The world after operation i went to t.
  function Put(w: World, i: nat, t: State): World
    requires i < |w.ops| && w.ops[i].log <= t.log
  {
    World(w.ops[i := Underway(true, t.stage, t.pending, t.inside, t.log, t.fired)], t.spare, t.next,
          w.trace + Tag(i, t.log[|w.ops[i].log|..]))
  }

  // An operation is initiated once; a completion picks any pending callback of its operation.
  function Step(ds: seq<Operation>, w: World, e: Event): World
    requires |w.ops| == |ds|
  {
    match e
    case Initiation(i) =>
      if i < |ds| && !w.ops[i].started then
        InitiateTakesOwn(ds[i], View(w, i));
        Put(w, i, Initiate(ds[i], View(w, i)))
      else w
    case Completion(i, j) =>
      if i < |ds| && w.ops[i].pending != [] then
        CompletedTakesOwn(ds[i], View(w, i), j % |w.ops[i].pending|);
        Put(w, i, Completed(ds[i], View(w, i), j % |w.ops[i].pending|))
      else w
  }

  function Run(ds: seq<Operation>, w: World, events: seq<Event>): (r: World)
    requires |w.ops| == |ds|
    ensures |r.ops| == |ds|
    decreases events
  {
    if events == [] then w else Run(ds, Step(ds, w, events[0]), events[1..])
  }

  // The calls made for operation i.
  function Project(trace: seq<Tagged>, i: nat): seq<Call> {
    if trace == [] then []
    else Project(trace[..|trace| - 1], i) + if trace[|trace| - 1].op == i then [trace[|trace| - 1].call] else []
  }

  // ----- the invariant -----

  ghost predicate OpOk(ds: seq<Operation>, w: World, i: nat)
    requires |w.ops| == |ds| && i < |ds|
  {
    && CallbacksDistinct(View(w, i))
    && (if w.ops[i].started then OnTrack(ds[i], View(w, i)) else Idle(View(w, i)))
    && Project(w.trace, i) == w.ops[i].log
  }

  ghost predicate InRange(ds: seq<Operation>, trace: seq<Tagged>) {
    forall k :: 0 <= k < |trace| ==> trace[k].op < |ds|
  }

  // Every operation is on track, and all pending callbacks, of all operations, differ from each other and
  // from the spare one.
  ghost predicate WorldInv(ds: seq<Operation>, w: World) {
    && |w.ops| == |ds| && InRange(ds, w.trace)
    && (forall i {:trigger OpOk(ds, w, i)} :: 0 <= i < |ds| ==> OpOk(ds, w, i))
    && (forall i, j :: 0 <= i < |ds| && 0 <= j < |ds| && i != j ==> Apart(w.ops[i].pending, w.ops[j].pending))
  }

  lemma {:induction false} ProjectOne(trace: seq<Tagged>, x: Tagged, i: nat)
    ensures Project(trace + [x], i) == Project(trace, i) + if x.op == i then [x.call] else []
  {
    assert (trace + [x])[..|trace|] == trace;
  }

  lemma {:induction false} ProjectConcat(a: seq<Tagged>, b: seq<Tagged>, i: nat)
    ensures Project(a + b, i) == Project(a, i) + Project(b, i)
    decreases |b|
  {
    if b == [] {
      assert a + b == a;
    } else {
      var init, last := b[..|b| - 1], b[|b| - 1];
      ProjectConcat(a, init, i);
      ProjectOne(a + init, last, i);
      ProjectOne(init, last, i);
      assert a + b == (a + init) + [last] && b == init + [last];
    }
  }

  lemma {:induction false} ProjectOfTag(k: nat, calls: seq<Call>, i: nat)
    ensures Project(Tag(k, calls), i) == if k == i then calls else []
  {
    if calls != [] {
      ProjectOfTag(k, calls[..|calls| - 1], i);
      ProjectOne(Tag(k, calls[..|calls| - 1]), Tagged(k, calls[|calls| - 1]), i);
    }
  }

  lemma {:induction false} ProjectTag(trace: seq<Tagged>, k: nat, calls: seq<Call>, i: nat)
    ensures Project(trace + Tag(k, calls), i) == Project(trace, i) + if k == i then calls else []
  {
    ProjectConcat(trace, Tag(k, calls), i);
    ProjectOfTag(k, calls, i);
  }

  lemma {:induction false} TagInRange(ds: seq<Operation>, k: nat, calls: seq<Call>)
    requires k < |ds|
    ensures InRange(ds, Tag(k, calls))
  {
    if calls != [] { TagInRange(ds, k, calls[..|calls| - 1]); }
  }

  lemma PutKeepsOther(ds: seq<Operation>, w: World, i: nat, t: State, j: nat)
    requires |w.ops| == |ds| && i < |ds| && j < |ds| && i != j && OpOk(ds, w, j)
    requires TakesOwn(View(w, i), t) && CallbacksDistinct(t) && Apart(w.ops[i].pending, w.ops[j].pending)
    ensures OpOk(ds, Put(w, i, t), j) && Apart(t.pending, w.ops[j].pending)
  {
    hide OnTrack;
    OthersStayApart(View(w, i), t, View(w, j));
    ProjectTag(w.trace, i, t.log[|w.ops[i].log|..], j);
    assert Project(w.trace, j) + [] == Project(w.trace, j);
    if w.ops[j].started { SameTrack(ds[j], View(w, j), View(Put(w, i, t), j)); }
  }

  lemma PutKeepsItself(ds: seq<Operation>, w: World, i: nat, t: State)
    requires |w.ops| == |ds| && i < |ds| && OpOk(ds, w, i) && TakesOwn(View(w, i), t) && Inv(ds[i], t)
    ensures OpOk(ds, Put(w, i, t), i) && View(Put(w, i, t), i) == t
  {
    hide OnTrack;
    var s := View(w, i);
    ProjectTag(w.trace, i, t.log[|s.log|..], i);
    assert s.log + t.log[|s.log|..] == t.log;
    assert View(Put(w, i, t), i) == t;
  }

  lemma PutKeepsInv(ds: seq<Operation>, w: World, i: nat, t: State)
    requires WorldInv(ds, w) && i < |ds| && TakesOwn(View(w, i), t) && Inv(ds[i], t)
    ensures WorldInv(ds, Put(w, i, t))
  {
    assert OpOk(ds, w, i);
    TagInRange(ds, i, t.log[|w.ops[i].log|..]);
    PutKeepsItself(ds, w, i, t);
    forall j | 0 <= j < |ds| && j != i ensures OpOk(ds, Put(w, i, t), j) && Apart(t.pending, w.ops[j].pending) {
      assert OpOk(ds, w, j);
      PutKeepsOther(ds, w, i, t, j);
    }
    hide OpOk, OnTrack, TakesOwn;
    forall j, k | 0 <= j < |ds| && 0 <= k < |ds| && j != k
      ensures Apart(Put(w, i, t).ops[j].pending, Put(w, i, t).ops[k].pending)
    {
      if k == i { ApartSymmetric(t.pending, w.ops[j].pending); }
    }
  }

  lemma ApartSymmetric(a: seq<Callback>, b: seq<Callback>)
    requires Apart(a, b)
    ensures Apart(b, a)
  {
  }

  lemma StepKeepsInv(ds: seq<Operation>, w: World, e: Event)
    requires WorldInv(ds, w)
    ensures WorldInv(ds, Step(ds, w, e))
  {
    if e.op < |ds| {
      assert OpOk(ds, w, e.op);
      var s := View(w, e.op);
      match e
      case Initiation(i) =>
        if !w.ops[i].started {
          InitiateTakesOwn(ds[i], s);
          InitiateEstablishesInv(ds[i], s);
          PutKeepsInv(ds, w, i, Initiate(ds[i], s));
        }
      case Completion(i, j) =>
        if s.pending != [] {
          CompletedTakesOwn(ds[i], s, j % |s.pending|);
          CompletedKeepsInv(ds[i], s, j % |s.pending|);
          PutKeepsInv(ds, w, i, Completed(ds[i], s, j % |s.pending|));
        }
    }
  }

  // In every run, whatever operations are initiated and completed in whatever interleaving: each operation is
  // on track and no callback is pending twice or both pending and spare.
  lemma {:induction false} EveryRunKeepsInv(ds: seq<Operation>, w: World, events: seq<Event>)
    requires WorldInv(ds, w)
    ensures WorldInv(ds, Run(ds, w, events))
    decreases events
  {
    if events != [] {
      StepKeepsInv(ds, w, events[0]);
      EveryRunKeepsInv(ds, Step(ds, w, events[0]), events[1..]);
    }
  }

  // Nothing has been initiated.
  function Fresh(n: nat): World {
    World(seq(n, i => Underway(false, 0, [], false, [], 0)), None, 0, [])
  }

  lemma FreshInv(ds: seq<Operation>)
    ensures WorldInv(ds, Fresh(|ds|))
  {
    forall i | 0 <= i < |ds| ensures OpOk(ds, Fresh(|ds|), i) {}
  }

  // ----- each operation by itself -----

  // Same but for the fields of the controller.
  ghost predicate SameOp(s: State, t: State) {
    t == s.(spare := t.spare, next := t.next)
  }

  // Events of other operations do not touch operation i, and neither does anything once it has finished.
  lemma StepElsewhere(ds: seq<Operation>, w: World, e: Event, i: nat)
    requires WorldInv(ds, w) && i < |ds| && w.ops[i].started
    requires e.op == i && e.Completion? ==> w.ops[i].pending == []
    ensures Step(ds, w, e).ops[i].started && SameOp(View(w, i), View(Step(ds, w, e), i))
  {
  }

  lemma StepHere(ds: seq<Operation>, w: World, e: Event, i: nat)
    requires WorldInv(ds, w) && i < |ds| && w.ops[i].pending != [] && e.Completion? && e.op == i
    ensures Step(ds, w, e).ops[i].started
    ensures View(Step(ds, w, e), i) == Completed(ds[i], View(w, i), e.which % |w.ops[i].pending|)
  {
  }

  lemma {:induction false} StaysFinished(ds: seq<Operation>, w: World, events: seq<Event>, i: nat)
    requires WorldInv(ds, w) && i < |ds| && w.ops[i].started && Finished(ds[i], View(w, i))
    ensures SameOp(View(w, i), View(Run(ds, w, events), i))
    decreases events
  {
    if events != [] {
      assert OpOk(ds, w, i);
      StepKeepsInv(ds, w, events[0]);
      StepElsewhere(ds, w, events[0], i);
      StaysFinished(ds, Step(ds, w, events[0]), events[1..], i);
    }
  }

  // The completion callback of an operation that is underway is invoked exactly once, when it ends.
  lemma {:induction false} CallbackAtTheEnd(ds: seq<Operation>, w: World, events: seq<Event>, i: nat)
    requires WorldInv(ds, w) && i < |ds| && w.ops[i].started && !Finished(ds[i], View(w, i))
    ensures var t := View(Run(ds, w, events), i);
            t.fired == if Finished(ds[i], t) && ds[i].hasCallback then 1 else 0
    decreases events
  {
    assert OpOk(ds, w, i);
    if events != [] {
      var e, w' := events[0], Step(ds, w, events[0]);
      StepKeepsInv(ds, w, e);
      assert OpOk(ds, w', i);
      if e.op == i && e.Completion? {
        StepHere(ds, w, e, i);
        CompletedClearsInside(ds[i], View(w, i), e.which % |w.ops[i].pending|);
        if Finished(ds[i], View(w', i)) { StaysFinished(ds, w', events[1..], i); }
      } else {
        StepElsewhere(ds, w, e, i);
      }
      if !Finished(ds[i], View(w', i)) { CallbackAtTheEnd(ds, w', events[1..], i); }
    }
  }

  // From initiation on, whatever else happens: the completion callback is invoked once if initiateOperation
  // returned false and the operation has ended, and otherwise never.
  lemma CallbackExactlyIfPending(ds: seq<Operation>, w: World, events: seq<Event>, i: nat)
    requires WorldInv(ds, w) && i < |ds| && !w.ops[i].started
    ensures var w' := Step(ds, w, Initiation(i));
            var returned, t := Finished(ds[i], View(w', i)), View(Run(ds, w', events), i);
            t.fired == if ds[i].hasCallback && !returned && Finished(ds[i], t) then 1 else 0
  {
    assert OpOk(ds, w, i);
    var w' := Step(ds, w, Initiation(i));
    StepKeepsInv(ds, w, Initiation(i));
    InitiateTakesOwn(ds[i], View(w, i));
    InitiateEstablishesInv(ds[i], View(w, i));
    PutKeepsItself(ds, w, i, Initiate(ds[i], View(w, i)));
    if Finished(ds[i], View(w', i)) {
      StaysFinished(ds, w', events, i);
    } else {
      CallbackAtTheEnd(ds, w', events, i);
    }
  }

  function Completions(events: seq<Event>, i: nat): nat {
    if events == [] then 0 else (if events[0].Completion? && events[0].op == i then 1 else 0) + Completions(events[1..], i)
  }

  // What one event does to the completions outstanding for operation i.
  lemma {:induction false} StepCounts(ds: seq<Operation>, w: World, e: Event, i: nat)
    requires WorldInv(ds, w) && i < |ds| && w.ops[i].started
    ensures Step(ds, w, e).ops[i].started
    ensures var was, now := Outstanding(ds[i], View(w, i)), Outstanding(ds[i], View(Step(ds, w, e), i));
            now == if e.Completion? && e.op == i && was > 0 then was - 1 else was
  {
    assert OpOk(ds, w, i);
    if e.op == i && e.Completion? && w.ops[i].pending != [] {
      StepHere(ds, w, e, i);
      EachCallbackCounts(ds[i], View(w, i), e.which % |w.ops[i].pending|);
    } else {
      StepElsewhere(ds, w, e, i);
    }
  }

  lemma {:induction false} FinishedIsNoneOutstanding(op: Operation, s: State)
    requires OnTrack(op, s)
    ensures Finished(op, s) <==> Outstanding(op, s) == 0
  {
  }

  // An operation ends with exactly the completions of its own modules that were late, in any order and
  // interleaved with anything.
  lemma {:induction false} EndsAfterAllCallbacks(ds: seq<Operation>, w: World, events: seq<Event>, i: nat)
    requires WorldInv(ds, w) && i < |ds| && w.ops[i].started
    ensures Finished(ds[i], View(Run(ds, w, events), i)) <==> Completions(events, i) >= Outstanding(ds[i], View(w, i))
    decreases events
  {
    hide Step, Outstanding, Finished, OnTrack;
    if events != [] {
      StepKeepsInv(ds, w, events[0]);
      StepCounts(ds, w, events[0], i);
      EndsAfterAllCallbacks(ds, Step(ds, w, events[0]), events[1..], i);
    } else {
      assert OpOk(ds, w, i);
      FinishedIsNoneOutstanding(ds[i], View(w, i));
    }
  }

  // ----- what a node status module sees -----

  // The calls of module m, in the order they were made.
  function CallsTo(trace: seq<Tagged>, m: nat): seq<NodeStatus.StageCall> {
    if trace == [] then []
    else
      var last := trace[|trace| - 1];
      CallsTo(trace[..|trace| - 1], m) + if last.call.mod == m then [NodeStatus.StageCall(last.op, last.call.stage)] else []
  }

  function CountOf(log: seq<Call>, m: nat): nat {
    if log == [] then 0 else CountOf(log[..|log| - 1], m) + if log[|log| - 1].mod == m then 1 else 0
  }

  lemma {:induction false} CountOfConcat(a: seq<Call>, b: seq<Call>, m: nat)
    ensures CountOf(a + b, m) == CountOf(a, m) + CountOf(b, m)
    decreases |b|
  {
    if b == [] {
      assert a + b == a;
    } else {
      assert (a + b)[..|a + b| - 1] == a + b[..|b| - 1];
      CountOfConcat(a, b[..|b| - 1], m);
    }
  }

  // Calls of m for operation i, counted in the calls to m or in the calls for i.
  lemma {:induction false} SameCount(trace: seq<Tagged>, m: nat, i: nat)
    ensures NodeStatus.CallsOf(CallsTo(trace, m), i) == CountOf(Project(trace, i), m)
  {
    if trace != [] {
      var init, last := trace[..|trace| - 1], trace[|trace| - 1];
      SameCount(init, m, i);
      var c := NodeStatus.StageCall(last.op, last.call.stage);
      assert (CallsTo(init, m) + [c])[..|CallsTo(init, m)|] == CallsTo(init, m);
      assert (Project(init, i) + [last.call])[..|Project(init, i)|] == Project(init, i);
      assert CallsTo(init, m) + [] == CallsTo(init, m) && Project(init, i) + [] == Project(init, i);
    }
  }

  lemma {:induction false} CountInStage(ms: seq<nat>, stage: nat, m: nat, j: nat)
    requires Distinct(ms) && j <= |ms|
    ensures CountOf(StageCalls(ms, stage)[..j], m) == if m in ms[..j] then 1 else 0
  {
    if j > 0 {
      CountInStage(ms, stage, m, j - 1);
      var s := StageCalls(ms, stage);
      assert s[..j][..j - 1] == s[..j - 1];
      assert ms[..j] == ms[..j - 1] + [ms[j - 1]];
      assert ms[j - 1] !in ms[..j - 1];
    }
  }

  lemma {:induction false} CountInAll(ms: seq<nat>, n: nat, m: nat)
    requires Distinct(ms) && m in ms
    ensures CountOf(AllCalls(ms, n), m) == n
  {
    if n > 0 {
      CountInAll(ms, n - 1, m);
      CountInStage(ms, n - 1, m, |ms|);
      assert ms[..|ms|] == ms && StageCalls(ms, n - 1)[..|ms|] == StageCalls(ms, n - 1);
      CountOfConcat(AllCalls(ms, n - 1), StageCalls(ms, n - 1), m);
    }
  }

  // Before the call of a module for a stage there are as many calls of it as the number of the stage.
  lemma {:induction false} StageIsCount(ms: seq<nat>, n: nat, k: nat)
    requires Distinct(ms) && k < |AllCalls(ms, n)|
    ensures var c := AllCalls(ms, n)[k]; c.stage == CountOf(AllCalls(ms, n)[..k], c.mod) < n
  {
    var before := AllCalls(ms, n - 1);
    if k < |before| {
      StageIsCount(ms, n - 1, k);
      assert AllCalls(ms, n)[..k] == before[..k];
    } else {
      StageIsCountLast(ms, n - 1, k - |before|);
      assert AllCalls(ms, n)[..k] == before + StageCalls(ms, n - 1)[..k - |before|];
    }
  }

  lemma {:induction false} StageIsCountLast(ms: seq<nat>, n: nat, j: nat)
    requires Distinct(ms) && j < |ms|
    ensures CountOf(AllCalls(ms, n) + StageCalls(ms, n)[..j], ms[j]) == n
  {
    CountOfConcat(AllCalls(ms, n), StageCalls(ms, n)[..j], ms[j]);
    CountInAll(ms, n, ms[j]);
    CountInStage(ms, n, ms[j], j);
    assert ms[j] !in ms[..j];
  }

  // The status operations stand for the lifecycle operations.
  ghost predicate SameStages(ds: seq<Operation>, ops: seq<NodeStatus.Operation>) {
    |ops| == |ds| && forall i :: 0 <= i < |ds| ==> ops[i].numStages == ds[i].numStages
  }

  ghost predicate AllDistinctIds(ds: seq<Operation>) {
    forall i :: 0 <= i < |ds| ==> DistinctIds(ds[i])
  }

  function Zeros(n: nat): (p: seq<nat>)
    ensures |p| == n
  {
    seq(n, i => 0)
  }

  lemma {:induction false} ProjectPrefix(trace: seq<Tagged>, k: nat, i: nat)
    requires k <= |trace|
    ensures Project(trace[..k], i) <= Project(trace, i)
    decreases |trace| - k
  {
    if k < |trace| {
      ProjectPrefix(trace, k + 1, i);
      assert trace[..k + 1][..k] == trace[..k];
    } else {
      assert trace[..k] == trace;
    }
  }

  // The calls of every module are the stages of each operation, in order.
  lemma {:induction false} StagesComeInOrder(ds: seq<Operation>, ops: seq<NodeStatus.Operation>, w: World, m: nat, k: nat)
    requires WorldInv(ds, w) && AllDistinctIds(ds) && SameStages(ds, ops) && k <= |w.trace|
    ensures NodeStatus.InOrder(ops, Zeros(|ops|), CallsTo(w.trace[..k], m))
  {
    if k > 0 {
      StagesComeInOrder(ds, ops, w, m, k - 1);
      var init, last := w.trace[..k - 1], w.trace[k - 1];
      assert w.trace[..k][..k - 1] == init;
      if last.call.mod == m {
        NextStage(ds, w, m, k - 1);
        NodeStatus.InOrderAppend(ops, Zeros(|ops|), CallsTo(init, m), NodeStatus.StageCall(last.op, last.call.stage));
      } else {
        assert CallsTo(init, m) + [] == CallsTo(init, m);
      }
    }
  }

  lemma {:induction false} NextStage(ds: seq<Operation>, w: World, m: nat, k: nat)
    requires WorldInv(ds, w) && AllDistinctIds(ds) && k < |w.trace| && w.trace[k].call.mod == m
    ensures var c := w.trace[k];
            c.op < |ds| && c.call.stage == NodeStatus.CallsOf(CallsTo(w.trace[..k], m), c.op) < ds[c.op].numStages
  {
    hide TreeDistinct, Preorder, AllCalls, CallsTo, CountOf, CallbacksDistinct;
    var c := w.trace[k];
    var i := c.op;
    assert OpOk(ds, w, i) && DistinctIds(ds[i]);
    PreorderDistinct(ds[i].root);
    var all, init := Project(w.trace, i), Project(w.trace[..k], i);
    ProjectPrefix(w.trace, k, i);
    ProjectPrefix(w.trace, k + 1, i);
    assert w.trace[..k + 1][..k] == w.trace[..k];
    assert init + [c.call] <= all;
    assert all[..|init|] == init && all[|init|] == c.call;
    SameCount(w.trace[..k], m, i);
    StageIsCount(Preorder(ds[i].root), Begun(ds[i], View(w, i)), |init|);
  }

  // Over every run of the controller from its start, the status module m of a node, called for whatever
  // operations in whatever interleaving: the ASSERTs of the last stages never fail.
  lemma StatusAssertsNeverFail(ds: seq<Operation>, ops: seq<NodeStatus.Operation>, events: seq<Event>, m: nat, s: NodeStatus.Status)
    requires AllDistinctIds(ds) && SameStages(ds, ops)
    ensures !NodeStatus.HandleAll(ops, s, CallsTo(Run(ds, Fresh(|ds|), events).trace, m)).AssertFailed?
  {
    FreshInv(ds);
    EveryRunKeepsInv(ds, Fresh(|ds|), events);
    var w := Run(ds, Fresh(|ds|), events);
    StagesComeInOrder(ds, ops, w, m, |w.trace|);
    assert w.trace[..|w.trace|] == w.trace;
    NodeStatus.FreshOperations(ops, s);
    NodeStatus.AssertsNeverFail(ops, s, Zeros(|ops|), CallsTo(w.trace, m));
  }
}
