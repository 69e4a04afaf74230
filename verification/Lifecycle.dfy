/** The staged barrier protocol of src/base/LifecycleController.cc over a module tree. */
module Lifecycle {
  import opened Options
  import opened Sequences

  // A module of the tree; participates if it implements ILifecycle.
  datatype Module = Module(id: nat, participates: bool, children: seq<Module>)

  // done(m, stage): whether the handler of module m finishes the stage before it returns.
  datatype Operation = Operation(root: Module, numStages: nat, done: (nat, nat) -> bool, hasCallback: bool)

  datatype Call = Call(mod: nat, stage: nat)
  datatype Callback = Callback(id: nat, mod: nat)

  // The fields of the operation and of the controller, with the handler calls made so far and
  // the number of times the completion callback was invoked. A callback id stands for the
  // address of the object; next is an address not in use.
  datatype State = State(
    stage: nat, pending: seq<Callback>, inside: bool,
    spare: Option<nat>, next: nat,
    log: seq<Call>, fired: nat)

  // ----- one stage -----

  // The participating modules in the order of the traversal.
  function Preorder(m: Module): seq<nat> {
    (if m.participates then [m.id] else []) + PreorderAll(m.children)
  }

  function PreorderAll(ms: seq<Module>): seq<nat> {
    if ms == [] then [] else PreorderAll(ms[..|ms| - 1]) + Preorder(ms[|ms| - 1])
  }

  // ----- the modules of a tree, by their places in it -----

  // The module reached from m by taking the a[0]-th child, then the a[1]-th child of that, and so on.
  function At(m: Module, a: seq<nat>): Option<Module> {
    if a == [] then Some(m)
    else if a[0] < |m.children| then At(m.children[a[0]], a[1..])
    else None
  }

  // There is a participating module at this place.
  predicate Has(m: Module, a: seq<nat>) {
    At(m, a).Some? && At(m, a).value.participates
  }

  function IdAt(m: Module, a: seq<nat>): nat
    requires Has(m, a)
  {
    At(m, a).value.id
  }

  // Place a is above place b, or to its left.
  predicate Earlier(a: seq<nat>, b: seq<nat>) {
    b != [] && (a == [] || a[0] < b[0] || (a[0] == b[0] && Earlier(a[1..], b[1..])))
  }

  // Some participating module of the tree has the id.
  ghost predicate InTree(m: Module, id: nat) {
    exists a :: Has(m, a) && IdAt(m, a) == id
  }

  // Different places of participating modules have different ids.
  ghost predicate TreeDistinct(m: Module) {
    forall a, b :: Has(m, a) && Has(m, b) && a != b ==> IdAt(m, a) != IdAt(m, b)
  }

  // In s, an occurrence of x comes before one of y.
  ghost predicate Before(s: seq<nat>, x: nat, y: nat) {
    exists i, j :: 0 <= i < j < |s| && s[i] == x && s[j] == y
  }

  lemma {:induction false} PreorderAllPart(ms: seq<Module>, i: nat) returns (back: seq<nat>)
    requires i < |ms|
    ensures PreorderAll(ms) == PreorderAll(ms[..i]) + Preorder(ms[i]) + back
    decreases |ms|
  {
    hide Preorder;
    var n := |ms| - 1;
    if i == n {
      back := [];
      assert PreorderAll(ms[..i]) + Preorder(ms[i]) + [] == PreorderAll(ms[..i]) + Preorder(ms[i]);
    } else {
      var init, front, mid := ms[..n], PreorderAll(ms[..i]), Preorder(ms[i]);
      var b := PreorderAllPart(init, i);
      assert init[..i] == ms[..i];
      back := b + Preorder(ms[n]);
      assert front + mid + b + Preorder(ms[n]) == front + mid + back;
    }
  }

  lemma {:induction false} BeforeAcross(a: seq<nat>, b: seq<nat>, x: nat, y: nat)
    requires x in a && y in b
    ensures Before(a + b, x, y)
  {
    var i :| 0 <= i < |a| && a[i] == x;
    var j :| 0 <= j < |b| && b[j] == y;
    assert (a + b)[i] == x && (a + b)[|a| + j] == y;
  }

  lemma {:induction false} BeforeWithin(a: seq<nat>, b: seq<nat>, c: seq<nat>, x: nat, y: nat)
    requires Before(b, x, y)
    ensures Before(a + b + c, x, y)
  {
    var i, j :| 0 <= i < j < |b| && b[i] == x && b[j] == y;
    assert (a + b + c)[|a| + i] == x && (a + b + c)[|a| + j] == y;
  }

  lemma {:induction false} InPreorderAll(ms: seq<Module>)
    ensures forall j, x :: 0 <= j < |ms| && x in Preorder(ms[j]) ==> x in PreorderAll(ms)
    ensures forall x :: x in PreorderAll(ms) ==> exists j :: 0 <= j < |ms| && x in Preorder(ms[j])
  {
    if ms != [] {
      var init := ms[..|ms| - 1];
      InPreorderAll(init);
      forall j, x | 0 <= j < |ms| && x in Preorder(ms[j]) ensures x in PreorderAll(ms) {
        if j < |ms| - 1 { assert init[j] == ms[j]; }
      }
      forall x | x in PreorderAll(ms) ensures exists j :: 0 <= j < |ms| && x in Preorder(ms[j]) {
        if x in PreorderAll(init) {
          var j :| 0 <= j < |init| && x in Preorder(init[j]);
          assert init[j] == ms[j];
        }
      }
    }
  }

  // The traversal visits exactly the participating modules of the tree, below modules that do not participate too.
  lemma {:induction false} PreorderIsTree(m: Module, id: nat)
    ensures id in Preorder(m) <==> InTree(m, id)
    decreases m
  {
    InPreorderAll(m.children);
    if id in PreorderAll(m.children) {
      var j :| 0 <= j < |m.children| && id in Preorder(m.children[j]);
      PreorderIsTree(m.children[j], id);
      var a :| Has(m.children[j], a) && IdAt(m.children[j], a) == id;
      assert ([j] + a)[1..] == a;
      assert Has(m, [j] + a) && IdAt(m, [j] + a) == id;
    } else if id in Preorder(m) {
      assert Has(m, []) && IdAt(m, []) == id;
    }
    if a :| Has(m, a) && IdAt(m, a) == id {
      if a != [] {
        var j := a[0];
        assert Has(m.children[j], a[1..]);
        PreorderIsTree(m.children[j], id);
      }
    }
  }

  // It visits them in order: a module before those below it and those to its right.
  lemma {:induction false} PreorderInOrder(m: Module, a: seq<nat>, b: seq<nat>)
    requires Has(m, a) && Has(m, b) && Earlier(a, b)
    ensures Before(Preorder(m), IdAt(m, a), IdAt(m, b))
    decreases m, 1
  {
    var ms, own, j := m.children, if m.participates then [m.id] else [], b[0];
    assert Preorder(m) == own + PreorderAll(ms);
    assert Has(ms[j], b[1..]) && IdAt(ms[j], b[1..]) == IdAt(m, b);
    if a == [] {
      BelowIsVisited(m, b);
      hide Preorder, PreorderAll;
      BeforeAcross(own, PreorderAll(ms), IdAt(m, a), IdAt(m, b));
    } else {
      ChildrenInOrder(m, a, b);
      hide Preorder, PreorderAll;
      assert own + PreorderAll(ms) + [] == own + PreorderAll(ms);
      BeforeWithin(own, PreorderAll(ms), [], IdAt(m, a), IdAt(m, b));
    }
  }

  lemma {:induction false} BelowIsVisited(m: Module, b: seq<nat>)
    requires Has(m, b) && b != []
    ensures IdAt(m, b) in PreorderAll(m.children)
  {
    assert Has(m.children[b[0]], b[1..]);
    assert InTree(m.children[b[0]], IdAt(m, b));
    PreorderIsTree(m.children[b[0]], IdAt(m, b));
    InPreorderAll(m.children);
  }

  lemma {:induction false} ChildrenInOrder(m: Module, a: seq<nat>, b: seq<nat>)
    requires Has(m, a) && Has(m, b) && Earlier(a, b) && a != []
    ensures Before(PreorderAll(m.children), IdAt(m, a), IdAt(m, b))
    decreases m, 0
  {
    var ms, j := m.children, b[0];
    var front, mid := PreorderAll(ms[..j]), Preorder(ms[j]);
    var back := PreorderAllPart(ms, j);
    assert Has(ms[a[0]], a[1..]) && Has(ms[j], b[1..]);
    if a[0] < j {
      assert InTree(ms[a[0]], IdAt(m, a)) && InTree(ms[j], IdAt(m, b));
      PreorderIsTree(ms[a[0]], IdAt(m, a));
      PreorderIsTree(ms[j], IdAt(m, b));
      InPreorderAll(ms[..j]);
      assert ms[..j][a[0]] == ms[a[0]];
      hide Preorder, PreorderAll;
      BeforeAcross(front, mid, IdAt(m, a), IdAt(m, b));
      assert [] + (front + mid) + back == front + mid + back;
      BeforeWithin([], front + mid, back, IdAt(m, a), IdAt(m, b));
    } else {
      PreorderInOrder(ms[j], a[1..], b[1..]);
      hide Preorder, PreorderAll;
      BeforeWithin(front, mid, back, IdAt(m, a), IdAt(m, b));
    }
  }

  lemma {:induction false} ChildDistinct(m: Module, j: nat)
    requires TreeDistinct(m) && j < |m.children|
    ensures TreeDistinct(m.children[j])
  {
    forall a, b | Has(m.children[j], a) && Has(m.children[j], b) && a != b ensures IdAt(m.children[j], a) != IdAt(m.children[j], b) {
      assert ([j] + a)[1..] == a && ([j] + b)[1..] == b;
      assert Has(m, [j] + a) && Has(m, [j] + b);
      assert [j] + a != [j] + b;
    }
  }

  lemma {:induction false} BelowChild(m: Module, j: nat, a: seq<nat>)
    requires j < |m.children| && Has(m.children[j], a)
    ensures Has(m, [j] + a) && IdAt(m, [j] + a) == IdAt(m.children[j], a)
  {
    assert ([j] + a)[1..] == a;
  }

  lemma {:induction false} PlacesApart(m: Module, i: nat, a: seq<nat>, j: nat, b: seq<nat>)
    requires TreeDistinct(m) && i < j < |m.children| && Has(m.children[i], a) && Has(m.children[j], b)
    ensures IdAt(m.children[i], a) != IdAt(m.children[j], b)
  {
    BelowChild(m, i, a);
    BelowChild(m, j, b);
    assert ([i] + a)[0] != ([j] + b)[0];
  }

  lemma {:induction false} OwnApart(m: Module, j: nat, a: seq<nat>)
    requires TreeDistinct(m) && m.participates && j < |m.children| && Has(m.children[j], a)
    ensures IdAt(m.children[j], a) != m.id
  {
    BelowChild(m, j, a);
    assert Has(m, []) && IdAt(m, []) == m.id;
  }

  lemma {:induction false} ChildrenApart(m: Module, i: nat, j: nat, x: nat)
    requires TreeDistinct(m) && i < j < |m.children|
    requires x in Preorder(m.children[i])
    ensures x !in Preorder(m.children[j])
  {
    PreorderIsTree(m.children[i], x);
    PreorderIsTree(m.children[j], x);
    var a :| Has(m.children[i], a) && IdAt(m.children[i], a) == x;
    forall b | Has(m.children[j], b) ensures IdAt(m.children[j], b) != x { PlacesApart(m, i, a, j, b); }
  }

  lemma {:induction false} OwnIsApart(m: Module)
    requires TreeDistinct(m) && m.participates
    ensures m.id !in PreorderAll(m.children)
  {
    InPreorderAll(m.children);
    forall j | 0 <= j < |m.children| ensures m.id !in Preorder(m.children[j]) {
      PreorderIsTree(m.children[j], m.id);
      forall a | Has(m.children[j], a) ensures IdAt(m.children[j], a) != m.id { OwnApart(m, j, a); }
    }
  }

  // No module is visited twice if the ids are distinct.
  lemma {:induction false} PreorderDistinct(m: Module)
    requires TreeDistinct(m)
    ensures Distinct(Preorder(m))
    decreases m, 1, 0
  {
    ChildrenDistinct(m, |m.children|);
    assert m.children[..|m.children|] == m.children;
    if m.participates { OwnIsApart(m); }
    DistinctConcat(if m.participates then [m.id] else [], PreorderAll(m.children));
  }

  lemma {:induction false} ChildrenDistinct(m: Module, n: nat)
    requires TreeDistinct(m) && n <= |m.children|
    ensures Distinct(PreorderAll(m.children[..n]))
    decreases m, 0, n
  {
    if n > 0 {
      var ms, init, last := m.children[..n], m.children[..n - 1], m.children[n - 1];
      assert ms[..n - 1] == init;
      ChildrenDistinct(m, n - 1);
      ChildDistinct(m, n - 1);
      PreorderDistinct(last);
      InPreorderAll(init);
      var front := PreorderAll(init);
      forall x | x in front ensures x !in Preorder(last) {
        var j :| 0 <= j < n - 1 && x in Preorder(init[j]);
        ChildrenApart(m, j, n - 1, x);
      }
      DistinctConcat(front, Preorder(last));
    }
  }

  lemma {:induction false} DistinctConcat(a: seq<nat>, b: seq<nat>)
    requires Distinct(a) && Distinct(b) && forall x :: x in a ==> x !in b
    ensures Distinct(a + b)
  {
    forall i, j | 0 <= i < j < |a + b| ensures (a + b)[i] != (a + b)[j] {
      if i < |a| <= j { assert a[i] in a && b[j - |a|] in b; }
    }
  }

  // The handler of module m is called with a spare or a new callback.
  function Visit(op: Operation, s: State, m: nat): State {
    var cb := if s.spare.Some? then s.spare.value else s.next;
    var next := if s.spare.Some? then s.next else s.next + 1;
    var t := s.(log := s.log + [Call(m, s.stage)], next := next);
    if op.done(m, s.stage) then t.(spare := Some(cb))
    else t.(pending := s.pending + [Callback(cb, m)], spare := None)
  }

  function VisitAll(op: Operation, s: State, ms: seq<nat>): State {
    if ms == [] then s else Visit(op, VisitAll(op, s, ms[..|ms| - 1]), ms[|ms| - 1])
  }

  // ----- the operation -----

  // resumeOperation
  function Resume(op: Operation, s: State): State
    decreases op.numStages - s.stage
  {
    if s.stage < op.numStages then
      var t := VisitAll(op, s, Preorder(op.root));
      if t.pending == [] then Resume(op, t.(stage := s.stage + 1)) else t
    else if op.hasCallback && !s.inside then s.(fired := s.fired + 1)
    else s
  }

  // initiateOperation
  function Initiate(op: Operation, s: State): State {
    Resume(op, s.(stage := 0, inside := true))
  }

  // Whether initiateOperation or resumeOperation returned true.
  predicate Finished(op: Operation, s: State) {
    s.stage >= op.numStages
  }

  // moduleOperationStageCompleted for the i-th pending callback
  function Completed(op: Operation, s: State, i: nat): State
    requires i < |s.pending|
  {
    var t := s.(pending := s.pending[..i] + s.pending[i + 1..]);
    if t.pending == [] then Resume(op, t.(stage := s.stage + 1, inside := false)) else t
  }

  // ----- the protocol, independently of the traversal -----

  // The handler calls of one stage, and of the first k stages.
  function StageCalls(ms: seq<nat>, stage: nat): (r: seq<Call>)
    ensures |r| == |ms|
  {
    seq(|ms|, i requires 0 <= i < |ms| => Call(ms[i], stage))
  }

  function AllCalls(ms: seq<nat>, k: nat): seq<Call> {
    if k == 0 then [] else AllCalls(ms, k - 1) + StageCalls(ms, k - 1)
  }

  // The modules that leave a stage pending.
  function Late(op: Operation, ms: seq<nat>, stage: nat): seq<nat> {
    if ms == [] then []
    else Late(op, ms[..|ms| - 1], stage) + if op.done(ms[|ms| - 1], stage) then [] else [ms[|ms| - 1]]
  }

  function Mods(cs: seq<Callback>): (r: seq<nat>)
    ensures |r| == |cs|
  {
    seq(|cs|, i requires 0 <= i < |cs| => cs[i].mod)
  }

  // No callback object is used twice.
  ghost predicate CallbacksDistinct(s: State) {
    && (forall i, j :: 0 <= i < j < |s.pending| ==> s.pending[i].id != s.pending[j].id)
    && (forall i :: 0 <= i < |s.pending| ==> s.pending[i].id < s.next && s.spare != Some(s.pending[i].id))
    && (s.spare.Some? ==> s.spare.value < s.next)
  }

  // Between events: every module has been called exactly once for each stage begun, a stage is
  // begun only when nothing of the one before is pending, and the completion callback has been
  // invoked exactly if the operation ended after initiateOperation returned false.
  ghost predicate OnTrack(op: Operation, s: State) {
    if Finished(op, s)
    then s.stage == op.numStages && s.pending == []
         && s.log == AllCalls(Preorder(op.root), op.numStages)
         && s.fired == if op.hasCallback && !s.inside then 1 else 0
    else s.pending != [] && s.log == AllCalls(Preorder(op.root), s.stage + 1) && s.fired == 0
  }

  ghost predicate Inv(op: Operation, s: State) {
    CallbacksDistinct(s) && OnTrack(op, s)
  }

  // ----- proofs -----

  lemma {:induction false} VisitAllCalls(op: Operation, s: State, ms: seq<nat>)
    requires CallbacksDistinct(s)
    ensures var t := VisitAll(op, s, ms);
            && CallbacksDistinct(t)
            && t.log == s.log + StageCalls(ms, s.stage)
            && Mods(t.pending) == Mods(s.pending) + Late(op, ms, s.stage)
            && t.stage == s.stage && t.inside == s.inside && t.fired == s.fired
  {
    if ms == [] {
      assert s.log + [] == s.log && Mods(s.pending) + [] == Mods(s.pending);
    } else {
      var init, m := ms[..|ms| - 1], ms[|ms| - 1];
      VisitAllCalls(op, s, init);
      var t := VisitAll(op, s, init);
      VisitKeeps(op, t, m);
      assert StageCalls(ms, s.stage) == StageCalls(init, s.stage) + [Call(m, s.stage)];
    }
  }

  lemma VisitKeeps(op: Operation, s: State, m: nat)
    requires CallbacksDistinct(s)
    ensures var t := Visit(op, s, m);
            && CallbacksDistinct(t)
            && Mods(t.pending) == Mods(s.pending) + if op.done(m, s.stage) then [] else [m]
  {
    var t := Visit(op, s, m);
    if op.done(m, s.stage) {
      assert Mods(s.pending) + [] == Mods(s.pending);
    } else {
      assert Mods(t.pending) == Mods(s.pending) + [m];
    }
  }

  // From a state with stages 0..stage-1 done and nothing pending.
  ghost predicate AtBarrier(op: Operation, s: State) {
    && CallbacksDistinct(s) && s.pending == [] && s.fired == 0
    && s.stage <= op.numStages && s.log == AllCalls(Preorder(op.root), s.stage)
  }

  lemma {:induction false} ResumeKeepsInv(op: Operation, s: State)
    requires AtBarrier(op, s)
    ensures Inv(op, Resume(op, s)) && Resume(op, s).inside == s.inside
    ensures !Finished(op, Resume(op, s)) ==>
              Mods(Resume(op, s).pending) == Late(op, Preorder(op.root), Resume(op, s).stage)
    decreases op.numStages - s.stage
  {
    hide CallbacksDistinct, VisitAll, Preorder, Late;
    if s.stage < op.numStages {
      VisitAllCalls(op, s, Preorder(op.root));
      var t := VisitAll(op, s, Preorder(op.root));
      assert Mods(s.pending) == [];
      assert [] + Late(op, Preorder(op.root), s.stage) == Late(op, Preorder(op.root), s.stage);
      if t.pending == [] {
        SameCallbacks(t, t.(stage := s.stage + 1));
        ResumeKeepsInv(op, t.(stage := s.stage + 1));
      }
    } else {
      SameCallbacks(s, Resume(op, s));
    }
  }

  lemma SameCallbacks(s: State, t: State)
    requires CallbacksDistinct(s) && t.pending == s.pending && t.spare == s.spare && t.next == s.next
    ensures CallbacksDistinct(t)
  {
  }

  ghost predicate Idle(s: State) {
    CallbacksDistinct(s) && s.pending == [] && s.log == [] && s.fired == 0
  }

  // Initiating: true exactly if no module of any stage is late, and then no callback is invoked.
  lemma InitiateEstablishesInv(op: Operation, s: State)
    requires Idle(s)
    ensures Inv(op, Initiate(op, s)) && Initiate(op, s).inside && Initiate(op, s).fired == 0
  {
    ResumeKeepsInv(op, s.(stage := 0, inside := true));
  }

  lemma CompletedKeepsInv(op: Operation, s: State, i: nat)
    requires Inv(op, s) && i < |s.pending|
    ensures Inv(op, Completed(op, s, i))
    ensures Completed(op, s, i).stage > s.stage <==> |s.pending| == 1
    ensures !Completed(op, s, i).inside || Completed(op, s, i).inside == s.inside
  {
    var t := s.(pending := s.pending[..i] + s.pending[i + 1..]);
    assert CallbacksDistinct(t) by {
      forall k | 0 <= k < |t.pending| ensures t.pending[k] == s.pending[if k < i then k else k + 1] {}
    }
    if t.pending == [] {
      var u := t.(stage := s.stage + 1, inside := false);
      ResumeKeepsInv(op, u);
      ResumeAdvances(op, u);
    }
  }

  lemma {:induction false} ResumeAdvances(op: Operation, s: State)
    ensures Resume(op, s).stage >= s.stage
    decreases op.numStages - s.stage
  {
    if s.stage < op.numStages {
      var t := VisitAll(op, s, Preorder(op.root));
      VisitKeepsStage(op, s, Preorder(op.root));
      if t.pending == [] { ResumeAdvances(op, t.(stage := s.stage + 1)); }
    }
  }

  lemma {:induction false} VisitKeepsStage(op: Operation, s: State, ms: seq<nat>)
    ensures VisitAll(op, s, ms).stage == s.stage
  {
    if ms != [] { VisitKeepsStage(op, s, ms[..|ms| - 1]); }
  }

  lemma CompletedClearsInside(op: Operation, s: State, i: nat)
    requires Inv(op, s) && i < |s.pending|
    ensures Finished(op, Completed(op, s, i)) ==> !Completed(op, s, i).inside
  {
    var t := s.(pending := s.pending[..i] + s.pending[i + 1..]);
    if t.pending == [] {
      ResumeKeepsInv(op, t.(stage := s.stage + 1, inside := false));
    }
  }

  // ----- each module once per stage -----

  function Count(s: seq<Call>, c: Call): nat {
    if s == [] then 0 else Count(s[..|s| - 1], c) + if s[|s| - 1] == c then 1 else 0
  }

  lemma {:induction false} CountConcat(a: seq<Call>, b: seq<Call>, c: Call)
    ensures Count(a + b, c) == Count(a, c) + Count(b, c)
    decreases |b|
  {
    if b == [] {
      assert a + b == a;
    } else {
      assert (a + b)[..|a + b| - 1] == a + b[..|b| - 1];
      CountConcat(a, b[..|b| - 1], c);
    }
  }

  // Distinct modules are called exactly once for each stage begun, and not for later ones.
  lemma {:induction false} CalledOncePerStage(ms: seq<nat>, k: nat, m: nat, stage: nat)
    requires Distinct(ms) && m in ms
    ensures Count(AllCalls(ms, k), Call(m, stage)) == if stage < k then 1 else 0
    decreases k
  {
    if k > 0 {
      CalledOncePerStage(ms, k - 1, m, stage);
      CalledInStage(ms, k - 1, m, stage);
      CountConcat(AllCalls(ms, k - 1), StageCalls(ms, k - 1), Call(m, stage));
    }
  }

  // The participating modules of the tree have distinct ids.
  ghost predicate DistinctIds(op: Operation) {
    TreeDistinct(op.root)
  }

  function Begun(op: Operation, s: State): nat {
    if Finished(op, s) then op.numStages else s.stage + 1
  }

  // At every point of a run, each participating module of the tree has been called exactly once for each stage
  // begun and not for later ones, and no other module has been called.
  lemma LogHasEachCallOnce(op: Operation, s: State, m: nat, stage: nat)
    requires OnTrack(op, s) && DistinctIds(op)
    ensures Count(s.log, Call(m, stage)) == if InTree(op.root, m) && stage < Begun(op, s) then 1 else 0
  {
    PreorderIsTree(op.root, m);
    PreorderDistinct(op.root);
    if m in Preorder(op.root) {
      CalledOncePerStage(Preorder(op.root), Begun(op, s), m, stage);
    } else {
      NeverCalled(Preorder(op.root), Begun(op, s), m, stage);
    }
  }

  // And in order: all calls of a stage before those of later stages, and within a stage a module before those
  // below it and to its right in the tree.
  lemma LogIsInOrder(op: Operation, s: State, a: seq<nat>, b: seq<nat>, k: nat, l: nat)
    requires OnTrack(op, s) && Has(op.root, a) && Has(op.root, b) && k <= l < Begun(op, s)
    requires k < l || Earlier(a, b)
    ensures exists i, j :: 0 <= i < j < |s.log| && s.log[i] == Call(IdAt(op.root, a), k) && s.log[j] == Call(IdAt(op.root, b), l)
  {
    var ms := Preorder(op.root);
    var i, j := PlacesInOrder(op.root, a, b, k < l);
    CallsInOrder(ms, Begun(op, s), k, i, l, j);
  }

  // Positions of two modules in the traversal; in order if the places are.
  lemma {:induction false} PlacesInOrder(m: Module, a: seq<nat>, b: seq<nat>, any: bool) returns (i: nat, j: nat)
    requires Has(m, a) && Has(m, b) && (!any ==> Earlier(a, b))
    ensures i < |Preorder(m)| && j < |Preorder(m)| && Preorder(m)[i] == IdAt(m, a) && Preorder(m)[j] == IdAt(m, b)
    ensures !any ==> i < j
  {
    var ms, x, y := Preorder(m), IdAt(m, a), IdAt(m, b);
    if any {
      PreorderIsTree(m, x);
      PreorderIsTree(m, y);
      assert InTree(m, x) && InTree(m, y);
      i :| 0 <= i < |ms| && ms[i] == x;
      j :| 0 <= j < |ms| && ms[j] == y;
    } else {
      PreorderInOrder(m, a, b);
      i, j :| 0 <= i < j < |ms| && ms[i] == x && ms[j] == y;
    }
  }

  lemma {:induction false} CallsInOrder(ms: seq<nat>, n: nat, k: nat, i: nat, l: nat, j: nat)
    requires k <= l < n && i < |ms| && j < |ms| && (k < l || i < j)
    ensures exists e, f :: 0 <= e < f < |AllCalls(ms, n)| && AllCalls(ms, n)[e] == Call(ms[i], k) && AllCalls(ms, n)[f] == Call(ms[j], l)
  {
    AllCallsAt(ms, n, k, i);
    AllCallsAt(ms, n, l, j);
    if k < l { MulLess(k, l, |ms|); }
    hide AllCalls;
    var e, f := k * |ms| + i, l * |ms| + j;
    assert 0 <= e < f;
  }

  lemma MulLess(k: nat, l: nat, n: nat)
    requires k < l
    ensures k * n + n <= l * n
  {
    assert (k + 1) * n <= l * n;
  }

  lemma {:induction false} AllCallsAt(ms: seq<nat>, n: nat, k: nat, i: nat)
    requires k < n && i < |ms|
    ensures k * |ms| + i < |AllCalls(ms, n)| == n * |ms| && AllCalls(ms, n)[k * |ms| + i] == Call(ms[i], k)
  {
    AllCallsLength(ms, n);
    AllCallsLength(ms, n - 1);
    MulLess(k, n, |ms|);
    if k < n - 1 { AllCallsAt(ms, n - 1, k, i); }
  }

  lemma {:induction false} AllCallsLength(ms: seq<nat>, n: nat)
    ensures |AllCalls(ms, n)| == n * |ms|
  {
    if n > 0 {
      AllCallsLength(ms, n - 1);
      assert n * |ms| == (n - 1) * |ms| + |ms|;
    }
  }

  lemma {:induction false} NeverCalled(ms: seq<nat>, k: nat, m: nat, stage: nat)
    requires Distinct(ms) && m !in ms
    ensures Count(AllCalls(ms, k), Call(m, stage)) == 0
    decreases k
  {
    if k > 0 {
      NeverCalled(ms, k - 1, m, stage);
      CalledInStage(ms, k - 1, m, stage);
      CountConcat(AllCalls(ms, k - 1), StageCalls(ms, k - 1), Call(m, stage));
    }
  }

  lemma {:induction false} CalledInStage(ms: seq<nat>, k: nat, m: nat, stage: nat)
    requires Distinct(ms)
    ensures Count(StageCalls(ms, k), Call(m, stage)) == if stage == k && m in ms then 1 else 0
    decreases |ms|
  {
    if ms != [] {
      var init, last := ms[..|ms| - 1], ms[|ms| - 1];
      CalledInStage(init, k, m, stage);
      var s := StageCalls(ms, k);
      assert s[..|s| - 1] == StageCalls(init, k);
      assert ms == init + [last];
      assert last !in init;
    }
  }

  // ----- progress -----

  // The callbacks that the stages from k on will need.
  function LateFrom(op: Operation, k: nat): nat
    decreases op.numStages - k
  {
    if k >= op.numStages then 0 else |Late(op, Preorder(op.root), k)| + LateFrom(op, k + 1)
  }

  function Outstanding(op: Operation, s: State): nat {
    if Finished(op, s) then 0 else |s.pending| + LateFrom(op, s.stage + 1)
  }

  lemma {:induction false} ResumeLeaves(op: Operation, s: State)
    requires AtBarrier(op, s)
    ensures Outstanding(op, Resume(op, s)) == LateFrom(op, s.stage)
    decreases op.numStages - s.stage
  {
    hide CallbacksDistinct, VisitAll, Preorder, Late;
    if s.stage < op.numStages {
      var ms := Preorder(op.root);
      VisitAllCalls(op, s, ms);
      var t := VisitAll(op, s, ms);
      assert |t.pending| == |Mods(t.pending)| == |Late(op, ms, s.stage)|;
      if t.pending == [] {
        SameCallbacks(t, t.(stage := s.stage + 1));
        ResumeLeaves(op, t.(stage := s.stage + 1));
      }
    }
  }

  lemma EachCallbackCounts(op: Operation, s: State, i: nat)
    requires Inv(op, s) && i < |s.pending|
    ensures Outstanding(op, Completed(op, s, i)) == Outstanding(op, s) - 1
  {
    var t := s.(pending := s.pending[..i] + s.pending[i + 1..]);
    if t.pending == [] {
      ResumeLeaves(op, t.(stage := s.stage + 1, inside := false));
    }
  }

  // ----- several operations on one controller -----

  // A callback that op may hold after s: one it holds, the spare one, or a new one.
  ghost predicate MayHold(s: State, id: nat) {
    id >= s.next || s.spare == Some(id) || exists j :: 0 <= j < |s.pending| && s.pending[j].id == id
  }

  // From s to t an operation takes no callback that another operation holds.
  ghost predicate TakesOwn(s: State, t: State) {
    && s.next <= t.next && s.log <= t.log
    && (t.spare.Some? ==> t.spare == s.spare || t.spare.value >= s.next)
    && (forall i :: 0 <= i < |t.pending| ==> MayHold(s, t.pending[i].id))
  }

  lemma TakesOwnTransitive(s: State, t: State, u: State)
    requires TakesOwn(s, t) && TakesOwn(t, u)
    ensures TakesOwn(s, u)
  {
    forall i | 0 <= i < |u.pending| ensures MayHold(s, u.pending[i].id) {
      assert MayHold(t, u.pending[i].id);
      if j :| 0 <= j < |t.pending| && t.pending[j].id == u.pending[i].id {
        assert MayHold(s, t.pending[j].id);
      }
    }
  }

  lemma TakesOwnSame(s: State, t: State)
    requires t.pending == s.pending && t.spare == s.spare && t.next == s.next && t.log == s.log
    ensures TakesOwn(s, t)
  {
  }

  lemma VisitTakesOwn(op: Operation, s: State, m: nat)
    ensures TakesOwn(s, Visit(op, s, m))
  {
    var t := Visit(op, s, m);
    forall i | 0 <= i < |t.pending| ensures MayHold(s, t.pending[i].id) {
      assert i < |s.pending| ==> t.pending[i].id == s.pending[i].id;
    }
  }

  lemma {:induction false} VisitAllTakesOwn(op: Operation, s: State, ms: seq<nat>)
    ensures TakesOwn(s, VisitAll(op, s, ms))
  {
    if ms == [] {
      TakesOwnSame(s, s);
    } else {
      var t := VisitAll(op, s, ms[..|ms| - 1]);
      VisitAllTakesOwn(op, s, ms[..|ms| - 1]);
      VisitTakesOwn(op, t, ms[|ms| - 1]);
      TakesOwnTransitive(s, t, VisitAll(op, s, ms));
    }
  }

  lemma {:induction false} ResumeTakesOwn(op: Operation, s: State)
    ensures TakesOwn(s, Resume(op, s))
    decreases op.numStages - s.stage
  {
    if s.stage < op.numStages {
      var t := VisitAll(op, s, Preorder(op.root));
      VisitAllTakesOwn(op, s, Preorder(op.root));
      if t.pending == [] {
        var u := t.(stage := s.stage + 1);
        TakesOwnSame(t, u);
        ResumeTakesOwn(op, u);
        hide TakesOwn;
        TakesOwnTransitive(s, t, u);
        TakesOwnTransitive(s, u, Resume(op, u));
      }
    } else {
      TakesOwnSame(s, Resume(op, s));
    }
  }

  lemma InitiateTakesOwn(op: Operation, s: State)
    ensures TakesOwn(s, Initiate(op, s))
  {
    var t := s.(stage := 0, inside := true);
    TakesOwnSame(s, t);
    ResumeTakesOwn(op, t);
    TakesOwnTransitive(s, t, Initiate(op, s));
  }

  lemma CompletedTakesOwn(op: Operation, s: State, i: nat)
    requires i < |s.pending|
    ensures TakesOwn(s, Completed(op, s, i))
  {
    var t := s.(pending := s.pending[..i] + s.pending[i + 1..]);
    assert TakesOwn(s, t) by {
      forall k | 0 <= k < |t.pending| ensures MayHold(s, t.pending[k].id) {
        assert t.pending[k] == s.pending[if k < i then k else k + 1];
      }
    }
    if t.pending == [] {
      var u := t.(stage := s.stage + 1, inside := false);
      TakesOwnSame(t, u);
      ResumeTakesOwn(op, u);
      hide TakesOwn;
      TakesOwnTransitive(s, t, u);
      TakesOwnTransitive(s, u, Completed(op, s, i));
    }
  }

  // No callback is pending in both.
  ghost predicate Apart(a: seq<Callback>, b: seq<Callback>) {
    forall i, j :: 0 <= i < |a| && 0 <= j < |b| ==> a[i].id != b[j].id
  }

  // While one operation goes from s to t, the callbacks of another one, u, stay its own.
  lemma OthersStayApart(s: State, t: State, u: State)
    requires TakesOwn(s, t) && CallbacksDistinct(t) && CallbacksDistinct(u) && u.spare == s.spare && u.next == s.next && Apart(s.pending, u.pending)
    ensures CallbacksDistinct(u.(spare := t.spare, next := t.next)) && Apart(t.pending, u.pending)
  {
    forall i, j | 0 <= i < |t.pending| && 0 <= j < |u.pending| ensures t.pending[i].id != u.pending[j].id {
      assert MayHold(s, t.pending[i].id);
    }
  }

  // ----- the objects -----

  class LifecycleOperation {
    const d: Operation
    var stage: nat
    var pending: seq<Callback>
    var inside: bool
    var log: seq<Call>
    var fired: nat

    constructor (d: Operation)
      ensures this.d == d && stage == 0 && pending == [] && log == [] && fired == 0
    {
      this.d := d;
      stage, pending, inside, log, fired := 0, [], false, [], 0;
    }
  }

  lemma {:induction false} VisitAllConcat(op: Operation, s: State, a: seq<nat>, b: seq<nat>)
    ensures VisitAll(op, s, a + b) == VisitAll(op, VisitAll(op, s, a), b)
    decreases |b|
  {
    if b == [] {
      assert a + b == a;
    } else {
      assert (a + b)[..|a + b| - 1] == a + b[..|b| - 1];
      VisitAllConcat(op, s, a, b[..|b| - 1]);
    }
  }

  lemma VisitFew(op: Operation, s: State, m: nat)
    ensures VisitAll(op, s, []) == s && VisitAll(op, s, [m]) == Visit(op, s, m)
  {
    assert [m][..0] == [];
  }

  lemma NoChildren()
    ensures PreorderAll([]) == []
  {
  }

  lemma NextChild(ms: seq<Module>, i: nat, front: seq<nat>)
    requires i < |ms|
    ensures front + PreorderAll(ms[..i + 1]) == front + PreorderAll(ms[..i]) + Preorder(ms[i])
  {
    assert ms[..i + 1][..i] == ms[..i];
  }

  class LifecycleController {
    var spare: Option<nat>
    var next: nat

    ghost function View(op: LifecycleOperation): State
      reads this, op
    {
      State(op.stage, op.pending, op.inside, spare, next, op.log, op.fired)
    }

    // The operations that were initiated, underway or finished.
    ghost var ops: set<LifecycleOperation>

    // Every operation is on track, and no callback is pending twice, in one operation or in two, or spare.
    ghost predicate Valid()
      reads this, ops
    {
      && (spare.Some? ==> spare.value < next)
      && (forall op :: op in ops ==> Inv(op.d, View(op)))
      && (forall op, other :: op in ops && other in ops && op != other ==> Apart(op.pending, other.pending))
    }

    constructor ()
      ensures Valid() && ops == {} && spare == None
    {
      spare, next, ops := None, 0, {};
    }

    // The participating module is asked to do the stage, with a callback in hand.
    method CallHandler(op: LifecycleOperation, m: nat)
      modifies this`spare, this`next, op
      ensures View(op) == Visit(op.d, old(View(op)), m)
    {
      var cb := if spare.Some? then spare.value else next;
      if spare == None { next := next + 1; }
      op.log := op.log + [Call(m, op.stage)];
      if !op.d.done(m, op.stage) {
        op.pending := op.pending + [Callback(cb, m)];
        spare := None;
      } else {
        spare := Some(cb);
      }
    }

    method DoOneStage(op: LifecycleOperation, m: Module)
      modifies this`spare, this`next, op
      ensures View(op) == VisitAll(op.d, old(View(op)), Preorder(m))
      decreases m
    {
      hide Visit, VisitAll, PreorderAll;
      ghost var d, s := op.d, View(op);
      ghost var front := if m.participates then [m.id] else [];
      VisitFew(d, s, m.id);
      if m.participates { CallHandler(op, m.id); }
      NoChildren();
      assert front + [] == front;
      for i := 0 to |m.children|
        invariant View(op) == VisitAll(d, s, front + PreorderAll(m.children[..i]))
      {
        NextChild(m.children, i, front);
        VisitAllConcat(d, s, front + PreorderAll(m.children[..i]), Preorder(m.children[i]));
        DoOneStage(op, m.children[i]);
      }
      assert m.children[..|m.children|] == m.children;
    }

    method ResumeOperation(op: LifecycleOperation) returns (done: bool)
      modifies this`spare, this`next, op
      ensures View(op) == Resume(op.d, old(View(op))) && done == Finished(op.d, View(op))
    {
      while op.stage < op.d.numStages
        invariant Resume(op.d, View(op)) == Resume(op.d, old(View(op)))
        decreases op.d.numStages - op.stage
      {
        VisitKeepsStage(op.d, View(op), Preorder(op.d.root));
        DoOneStage(op, op.d.root);
        if op.pending == [] {
          op.stage := op.stage + 1;
        } else {
          return false;
        }
      }
      if op.d.hasCallback && !op.inside { op.fired := op.fired + 1; }
      done := true;
    }

    // An operation may be initiated while others are underway.
    method InitiateOperation(op: LifecycleOperation) returns (done: bool)
      requires Valid() && op !in ops && op.pending == [] && op.log == [] && op.fired == 0
      modifies this, op
      ensures Valid() && ops == old(ops) + {op}
      ensures View(op) == Initiate(op.d, old(View(op))) && done == Finished(op.d, View(op))
    {
      hide OnTrack, TakesOwn, Resume;
      ghost var s := View(op);
      InitiateEstablishesInv(op.d, s);
      InitiateTakesOwn(op.d, s);
      op.stage := 0;
      op.inside := true;
      done := ResumeOperation(op);
      forall o | o in old(ops) ensures Inv(o.d, View(o)) && Apart(op.pending, o.pending) {
        OthersStayApart(s, View(op), old(View(o)));
        SameTrack(o.d, old(View(o)), View(o));
      }
      ops := ops + {op};
    }

    // A completion in any operation that is underway.
    method ModuleOperationStageCompleted(op: LifecycleOperation, i: nat)
      requires Valid() && op in ops && i < |op.pending|
      modifies this`spare, this`next, op
      ensures Valid()
      ensures View(op) == Completed(op.d, old(View(op)), i)
      ensures |old(op.pending)| > 1 ==> op.pending == old(op.pending)[..i] + old(op.pending)[i + 1..] && op.log == old(op.log)
    {
      hide OnTrack, TakesOwn, Resume;
      ghost var s := View(op);
      CompletedKeepsInv(op.d, s, i);
      CompletedTakesOwn(op.d, s, i);
      op.pending := op.pending[..i] + op.pending[i + 1..];
      if op.pending == [] {
        op.stage := op.stage + 1;
        op.inside := false;
        var _ := ResumeOperation(op);
      }
      forall o | o in ops && o != op ensures Inv(o.d, View(o)) && Apart(op.pending, o.pending) {
        OthersStayApart(s, View(op), old(View(o)));
        SameTrack(o.d, old(View(o)), View(o));
      }
    }
  }

  lemma SameTrack(op: Operation, s: State, t: State)
    requires OnTrack(op, s) && t == s.(spare := t.spare, next := t.next)
    ensures OnTrack(op, t)
  {
  }
}
