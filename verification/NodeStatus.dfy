/** The node status that lifecycle operations change (src/status/NodeStatus.cc), under any
    interleaving of operations on the same node. */
module NodeStatus {

  datatype Status = UP | DOWN | GOING_UP | GOING_DOWN
  datatype Kind = NodeStart | NodeShutdown | NodeCrash | OtherOperation

  // An operation has a kind and a number of stages, which the controller runs in order.
  datatype Operation = Operation(kind: Kind, numStages: nat)

  // Rejected is the cRuntimeError of stage 0; AssertFailed a failed ASSERT of the last stage.
  datatype Outcome = Now(status: Status) | Rejected | AssertFailed

  function Before(k: Kind): Status { if k == NodeStart then DOWN else UP }
  function During(k: Kind): Status { if k == NodeStart then GOING_UP else GOING_DOWN }
  function Behind(k: Kind): Status { if k == NodeStart then UP else DOWN }

  class NodeStatus {
    var state: Status

    // handleOperationStage
    method HandleOperationStage(op: Operation, stage: nat) returns (r: Outcome)
      modifies this
      ensures r == Handle(old(state), op, stage)
      ensures state == if r.Now? then r.status else old(state)
    {
      match op.kind {
        case NodeStart =>
          if stage == 0 {
            if state != DOWN { return Rejected; }
            state := GOING_UP;
          }
          if stage as int == op.numStages - 1 {
            if state != GOING_UP { return AssertFailed; }
            state := UP;
          }
        case NodeShutdown =>
          if stage == 0 {
            if state != UP { return Rejected; }
            state := GOING_DOWN;
          }
          if stage as int == op.numStages - 1 {
            if state != GOING_DOWN { return AssertFailed; }
            state := DOWN;
          }
        case NodeCrash =>
          if stage == 0 {
            if state != UP { return Rejected; }
            state := GOING_DOWN;
          }
          if stage as int == op.numStages - 1 {
            if state != GOING_DOWN { return AssertFailed; }
            state := DOWN;
          }
        case OtherOperation =>
      }
      return Now(state);
    }
  }

  function Handle(s: Status, op: Operation, stage: nat): Outcome {
    if op.kind == OtherOperation then Now(s)
    else if stage == 0 && s != Before(op.kind) then Rejected
    else
      var t := if stage == 0 then During(op.kind) else s;
      if stage as int != op.numStages - 1 then Now(t)
      else if t != During(op.kind) then AssertFailed
      else Now(Behind(op.kind))
  }

  // How far each operation has come: the number of its stages already run.
  type Progress = seq<nat>

  // The next stage of operation i, if it has one.
  function Step(ops: seq<Operation>, s: Status, p: Progress, i: nat): (Outcome, Progress)
    requires |p| == |ops| && i < |ops|
  {
    if p[i] >= ops[i].numStages then (Now(s), p)
    else (Handle(s, ops[i], p[i]), p[i := p[i] + 1])
  }

  // A call of the handler: stage of the operation with this index.
  datatype StageCall = StageCall(op: nat, stage: nat)

  // The calls one after the other, until the end or the first failure.
  function HandleAll(ops: seq<Operation>, s: Status, calls: seq<StageCall>): Outcome
    decreases calls
  {
    if calls == [] || calls[0].op >= |ops| then Now(s)
    else
      match Handle(s, ops[calls[0].op], calls[0].stage)
      case Now(s') => HandleAll(ops, s', calls[1..])
      case r => r
  }

  // Every operation runs its stages in order, from the one it has come to.
  ghost predicate InOrder(ops: seq<Operation>, p: Progress, calls: seq<StageCall>)
    requires |p| == |ops|
    decreases calls
  {
    calls == [] || (
      && calls[0].op < |ops| && calls[0].stage == p[calls[0].op] < ops[calls[0].op].numStages
      && InOrder(ops, p[calls[0].op := p[calls[0].op] + 1], calls[1..]))
  }

  // Operation i has begun to change the status and has not finished.
  ghost predicate Open(ops: seq<Operation>, p: Progress, i: nat)
    requires |p| == |ops| && i < |ops|
  {
    ops[i].kind != OtherOperation && 0 < p[i] < ops[i].numStages
  }

  // The status belongs to the open operation, and there is at most one.
  ghost predicate Inv(ops: seq<Operation>, s: Status, p: Progress) {
    && |p| == |ops|
    && (forall i :: 0 <= i < |ops| && Open(ops, p, i) ==> s == During(ops[i].kind))
    && (forall i, j :: 0 <= i < j < |ops| ==> !(Open(ops, p, i) && Open(ops, p, j)))
  }

  lemma StepKeepsInv(ops: seq<Operation>, s: Status, p: Progress, i: nat)
    requires Inv(ops, s, p) && i < |ops|
    ensures var (r, p') := Step(ops, s, p, i); !r.AssertFailed? && (r.Now? ==> Inv(ops, r.status, p'))
  {
    var (r, p') := Step(ops, s, p, i);
    if p[i] < ops[i].numStages && r.Now? {
      forall j | 0 <= j < |ops| && j != i ensures Open(ops, p', j) == Open(ops, p, j) {}
      assert p[i] > 0 && ops[i].kind != OtherOperation ==> Open(ops, p, i);
    }
    if p[i] < ops[i].numStages && 0 < p[i] && ops[i].kind != OtherOperation { assert Open(ops, p, i); }
  }

  // Over every interleaving of any operations, from any initial status, each operation running
  // its stages in order: a conflicting operation is rejected at its stage 0, and the ASSERTs of
  // the last stages never fail.
  lemma {:induction false} AssertsNeverFail(ops: seq<Operation>, s: Status, p: Progress, calls: seq<StageCall>)
    requires Inv(ops, s, p) && InOrder(ops, p, calls)
    ensures !HandleAll(ops, s, calls).AssertFailed?
    decreases calls
  {
    if calls != [] {
      StepKeepsInv(ops, s, p, calls[0].op);
      var (r, p') := Step(ops, s, p, calls[0].op);
      if r.Now? { AssertsNeverFail(ops, r.status, p', calls[1..]); }
    }
  }

  // The status behind a call: on the way up or down until the last stage, then up or down.
  function StatusAfter(op: Operation, stage: nat, before: Status): Status {
    match op.kind
    case NodeStart => if stage + 1 == op.numStages then UP else GOING_UP
    case NodeShutdown => if stage + 1 == op.numStages then DOWN else GOING_DOWN
    case NodeCrash => if stage + 1 == op.numStages then DOWN else GOING_DOWN
    case OtherOperation => before
  }

  // A start is refused unless the node is down, a shutdown or crash unless it is up.
  predicate Refused(op: Operation, before: Status) {
    match op.kind
    case NodeStart => before != DOWN
    case NodeShutdown => before != UP
    case NodeCrash => before != UP
    case OtherOperation => false
  }

  // What one more call does to any run in which the operations run their stages in order.
  lemma {:induction false} CallSetsStatus(ops: seq<Operation>, s: Status, p: Progress, calls: seq<StageCall>, c: StageCall)
    requires Inv(ops, s, p) && InOrder(ops, p, calls + [c])
    ensures c.op < |ops|
    ensures HandleAll(ops, s, calls).Now? ==>
              var before := HandleAll(ops, s, calls).status;
              HandleAll(ops, s, calls + [c]) ==
                if c.stage == 0 && Refused(ops[c.op], before) then Rejected else Now(StatusAfter(ops[c.op], c.stage, before))
    ensures !HandleAll(ops, s, calls).Now? ==> HandleAll(ops, s, calls + [c]) == HandleAll(ops, s, calls)
    decreases calls
  {
    var all := calls + [c];
    if calls == [] {
      assert all == [c] && [c][1..] == [];
      assert p[c.op] > 0 && ops[c.op].kind != OtherOperation ==> Open(ops, p, c.op);
    } else {
      assert all[0] == calls[0] && all[1..] == calls[1..] + [c];
      StepKeepsInv(ops, s, p, calls[0].op);
      var (r, p') := Step(ops, s, p, calls[0].op);
      if r.Now? {
        CallSetsStatus(ops, r.status, p', calls[1..], c);
      } else {
        LastCallIsForAnOperation(ops, p', calls[1..], c);
      }
    }
  }

  lemma {:induction false} LastCallIsForAnOperation(ops: seq<Operation>, p: Progress, calls: seq<StageCall>, c: StageCall)
    requires |p| == |ops| && InOrder(ops, p, calls + [c])
    ensures c.op < |ops|
    decreases calls
  {
    if calls == [] {
      assert calls + [c] == [c];
    } else {
      assert (calls + [c])[1..] == calls[1..] + [c];
      LastCallIsForAnOperation(ops, p[calls[0].op := p[calls[0].op] + 1], calls[1..], c);
    }
  }

  function CallsOf(calls: seq<StageCall>, op: nat): nat {
    if calls == [] then 0 else CallsOf(calls[..|calls| - 1], op) + if calls[|calls| - 1].op == op then 1 else 0
  }

  lemma {:induction false} CallsOfFirst(calls: seq<StageCall>, op: nat)
    requires calls != []
    ensures CallsOf(calls, op) == (if calls[0].op == op then 1 else 0) + CallsOf(calls[1..], op)
  {
    if |calls| > 1 {
      CallsOfFirst(calls[..|calls| - 1], op);
      assert calls[..|calls| - 1][1..] == calls[1..][..|calls| - 2];
    }
  }

  // One more call keeps the order if it is for the next stage of its operation.
  lemma {:induction false} InOrderAppend(ops: seq<Operation>, p: Progress, calls: seq<StageCall>, c: StageCall)
    requires |p| == |ops| && InOrder(ops, p, calls)
    requires c.op < |ops| && c.stage == p[c.op] + CallsOf(calls, c.op) < ops[c.op].numStages
    ensures InOrder(ops, p, calls + [c])
    decreases calls
  {
    if calls == [] {
      assert calls + [c] == [c] && [c][1..] == [];
    } else {
      CallsOfFirst(calls, c.op);
      assert (calls + [c])[1..] == calls[1..] + [c];
      InOrderAppend(ops, p[calls[0].op := p[calls[0].op] + 1], calls[1..], c);
    }
  }

  lemma FreshOperations(ops: seq<Operation>, s: Status)
    ensures Inv(ops, s, seq(|ops|, i => 0))
  {
  }
}
