/** Histories of composite states: the bubbling of setHistorySuper and _saveHistory
    (src/util/Macho.h), and what it records. */
module MachoHistory {
  import opened Options
  import opened MachoStates

  datatype Strategy = NoHistory | Shallow | Deep

  type Strategies = State -> Strategy
  type Histories = map<State, State>

  // The _setHistorySuper that a state class inherits is not the empty one of the base class:
  // the class or one of its superstates declares a history.
  predicate Bubbles(k: Strategies, s: State) {
    s.Sub? && (k(s) != NoHistory || Bubbles(k, s.parent))
  }

  // _StateInstance::setHistorySuper
  function SetHistorySuper(k: Strategies, h: Histories, self: State, deep: State): Histories {
    if self.Root? then h else SaveHistory(k, h, self.parent, self, deep)
  }

  // _saveHistory of state s, reached from its substate shallow.
  function SaveHistory(k: Strategies, h: Histories, s: State, shallow: State, deep: State): Histories
    decreases s
  {
    if s.Root? then h
    else match k(s)
      case NoHistory =>
        if Bubbles(k, s) then SaveHistory(k, h, s.parent, s, deep) else h
      case Deep =>
        if Bubbles(k, s.parent) then SaveHistory(k, h[s := deep], s.parent, s, deep) else h[s := deep]
      case Shallow =>
        if Bubbles(k, s.parent) then SaveHistory(k, h[s := shallow], s.parent, s, deep) else h[s := shallow]
  }

  // The direct substate of a on the way to its substate x.
  function Toward(a: State, x: State): (r: State)
    requires ProperChild(x, a)
    ensures r.Sub? && r.parent == a && IsChild(x, r)
  {
    if x.parent == a then x else Toward(a, x.parent)
  }

  // What leaving c writes into the history of a; None if a keeps what it had.
  function Recorded(k: Strategies, c: State, a: State): Option<State> {
    if a.Sub? && ProperChild(c, a) && k(a) != NoHistory then
      Some(if k(a) == Deep then c else Toward(a, c))
    else None
  }

  ghost predicate Records(k: Strategies, h: Histories, r: Histories, c: State, above: State) {
    forall a ::
      if IsChild(above, a) && Recorded(k, c, a).Some?
      then a in r && r[a] == Recorded(k, c, a).value
      else (a in r <==> a in h) && (a in h ==> r[a] == h[a])
  }

  // If the bubbling stops early, no superstate keeps a history.
  lemma {:induction false} StopLosesNothing(k: Strategies, s: State, a: State)
    requires !Bubbles(k, s) && IsChild(s, a) && a.Sub?
    ensures k(a) == NoHistory
  {
    if s != a { StopLosesNothing(k, s.parent, a); }
  }

  lemma {:induction false} SaveRecords(k: Strategies, h: Histories, s: State, shallow: State, c: State)
    requires shallow.Sub? && shallow.parent == s && IsChild(c, shallow)
    ensures Records(k, h, SaveHistory(k, h, s, shallow, c), c, s)
    decreases s
  {
    ChildTransitive(c, shallow, s);
    ChildDepth(c, shallow);
    if s.Root? {
    } else {
      TowardThrough(s, shallow, c);
      var h' := match k(s) case NoHistory => h case Deep => h[s := c] case Shallow => h[s := shallow];
      var goesOn := if k(s) == NoHistory then Bubbles(k, s) else Bubbles(k, s.parent);
      assert Bubbles(k, s) == (k(s) != NoHistory || Bubbles(k, s.parent));
      var r := SaveHistory(k, h, s, shallow, c);
      if goesOn {
        SaveRecords(k, h', s.parent, s, c);
        assert Records(k, h', r, c, s.parent);
      } else {
        forall a | IsChild(s.parent, a) && a.Sub? ensures k(a) == NoHistory { StopLosesNothing(k, s.parent, a); }
      }
      NotItsOwnAncestor(s);
    }
  }

  lemma NotItsOwnAncestor(s: State)
    requires s.Sub?
    ensures !IsChild(s.parent, s)
  {
    if IsChild(s.parent, s) { ChildDepth(s.parent, s); }
  }

  lemma {:induction false} TowardThrough(a: State, child: State, x: State)
    requires child.Sub? && child.parent == a && IsChild(x, child)
    ensures ProperChild(x, a) && Toward(a, x) == child
  {
    if x == child {
      NotItsOwnAncestor(child);
    } else {
      TowardThrough(a, child, x.parent);
      ChildDepth(x, child);
      ChildDepth(x.parent, child);
      if x == a { ChildDepth(a, child); }
    }
  }

  // Leaving c: every superstate with deep history records c, every superstate with shallow
  // history its substate on the way to c, and nothing else changes.
  lemma LeavingRecordsHistory(k: Strategies, h: Histories, c: State)
    ensures forall a :: match Recorded(k, c, a)
              case Some(x) => a in SetHistorySuper(k, h, c, c) && SetHistorySuper(k, h, c, c)[a] == x
              case None => (a in SetHistorySuper(k, h, c, c) <==> a in h)
                           && (a in h ==> SetHistorySuper(k, h, c, c)[a] == h[a])
  {
    if c.Sub? {
      SaveRecords(k, h, c.parent, c, c);
      var r := SetHistorySuper(k, h, c, c);
      assert Records(k, h, r, c, c.parent);
    }
  }

  // Every history is a proper substate of its owner, and a direct one for a shallow history.
  ghost predicate HistoryInv(k: Strategies, h: Histories) {
    forall a :: a in h ==>
      a.Sub? && k(a) != NoHistory && ProperChild(h[a], a) && (k(a) == Shallow ==> h[a].Sub? && h[a].parent == a)
  }

  lemma LeavingKeepsHistoryInv(k: Strategies, h: Histories, c: State)
    requires HistoryInv(k, h)
    ensures HistoryInv(k, SetHistorySuper(k, h, c, c))
  {
    var r := SetHistorySuper(k, h, c, c);
    LeavingRecordsHistory(k, h, c);
    forall a | a in r
      ensures a.Sub? && k(a) != NoHistory && ProperChild(r[a], a) && (k(a) == Shallow ==> r[a].Sub? && r[a].parent == a)
    {
      if Recorded(k, c, a).Some? && k(a) == Shallow {
        NotItsOwnAncestor(Toward(a, c));
      }
    }
  }

  // A deep history survives a stay outside its state: leaving c and later n, which is not
  // below a, the history of a is still c.
  lemma DeepHistorySurvives(k: Strategies, h: Histories, c: State, n: State, a: State)
    requires a.Sub? && ProperChild(c, a) && k(a) == Deep && !IsChild(n, a)
    ensures var r := SetHistorySuper(k, SetHistorySuper(k, h, c, c), n, n); a in r && r[a] == c
  {
    LeavingRecordsHistory(k, h, c);
    LeavingRecordsHistory(k, SetHistorySuper(k, h, c, c), n);
    assert Recorded(k, c, a) == Some(c) && Recorded(k, n, a) == None;
  }
}
