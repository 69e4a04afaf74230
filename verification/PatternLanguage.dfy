/** The language of a tokenized pattern, stated as cuts of the line, and as the recursion that
    the matcher follows. */
module PatternLanguage {
  import opened PatternTokens

  ghost predicate InRanges(c: char, ranges: string) {
    exists i :: 0 <= i < |ranges| / 2 && ranges[2 * i] <= c <= ranges[2 * i + 1]
  }

  // e accepts line[i..j] where it stands: a number range takes a maximal run of digits.
  ghost predicate Fits(e: Elem, line: string, i: nat, j: nat)
    requires i <= j <= |line|
  {
    match e
    case Literal(t) => line[i..j] == t
    case AnyChar => j == i + 1
    case CommonChar => j == i + 1 && line[i] != '.'
    case InSet(r) => j == i + 1 && InRanges(line[i], r)
    case NotInSet(r) => j == i + 1 && !InRanges(line[i], r)
    case NumRange(lo, up) =>
      && i < j == DigitsEnd(line, i)
      && var n := Number(line[i..j]);
      (lo >= 0 ==> lo <= n) && (up >= 0 ==> n <= up)
    case AnySeq => true
    case CommonSeq => '.' !in line[i..j]
    case End => i == |line|
  }

  // The m-th piece of the line goes to the m-th element from k on.
  ghost predicate Piece(ps: seq<Elem>, line: string, k: nat, cuts: seq<nat>, m: nat)
    requires k <= |ps| && |cuts| == |ps| - k + 1 && m < |cuts| - 1
  {
    cuts[m] <= cuts[m + 1] <= |line| && Fits(ps[k + m], line, cuts[m], cuts[m + 1])
  }

  // cuts divides line from i on into consecutive pieces, one for each element from k on.
  ghost predicate Cuts(ps: seq<Elem>, line: string, i: nat, k: nat, cuts: seq<nat>)
    requires k <= |ps|
  {
    && |cuts| == |ps| - k + 1 && cuts[0] == i
    && (forall m :: 0 <= m < |cuts| - 1 ==> Piece(ps, line, k, cuts, m))
  }

  // The line, from position i on, is in the language of the elements from k on.
  ghost predicate InLanguage(ps: seq<Elem>, line: string, i: nat, k: nat)
    requires k <= |ps|
  {
    exists cuts :: Cuts(ps, line, i, k, cuts)
  }

  // The same as a recursion over the elements.
  ghost predicate Lang(ps: seq<Elem>, line: string, i: nat, k: nat)
    requires k <= |ps| && i <= |line|
    decreases |ps| - k
  {
    k == |ps| || exists j :: i <= j <= |line| && Fits(ps[k], line, i, j) && Lang(ps, line, j, k + 1)
  }

  lemma {:induction false} LangIsInLanguage(ps: seq<Elem>, line: string, i: nat, k: nat)
    requires k <= |ps| && i <= |line|
    ensures Lang(ps, line, i, k) <==> InLanguage(ps, line, i, k)
    decreases |ps| - k
  {
    if k == |ps| {
      assert Cuts(ps, line, i, k, [i]);
    } else {
      if Lang(ps, line, i, k) {
        var j :| i <= j <= |line| && Fits(ps[k], line, i, j) && Lang(ps, line, j, k + 1);
        LangIsInLanguage(ps, line, j, k + 1);
        var cuts :| Cuts(ps, line, j, k + 1, cuts);
        ConsCuts(ps, line, i, j, k, cuts);
      }
      if InLanguage(ps, line, i, k) {
        var cuts :| Cuts(ps, line, i, k, cuts);
        assert Piece(ps, line, k, cuts, 0);
        TailCuts(ps, line, i, k, cuts);
        LangIsInLanguage(ps, line, cuts[1], k + 1);
      }
    }
  }

  lemma ConsCuts(ps: seq<Elem>, line: string, i: nat, j: nat, k: nat, cuts: seq<nat>)
    requires k < |ps| && i <= j <= |line| && Fits(ps[k], line, i, j) && Cuts(ps, line, j, k + 1, cuts)
    ensures Cuts(ps, line, i, k, [i] + cuts)
  {
    var c := [i] + cuts;
    forall m | 0 <= m < |c| - 1 ensures Piece(ps, line, k, c, m) {
      if m > 0 { assert Piece(ps, line, k + 1, cuts, m - 1); }
    }
  }

  lemma TailCuts(ps: seq<Elem>, line: string, i: nat, k: nat, cuts: seq<nat>)
    requires k < |ps| && Cuts(ps, line, i, k, cuts)
    ensures cuts[1] <= |line| && Cuts(ps, line, cuts[1], k + 1, cuts[1..])
  {
    var c, rest := cuts[1..], k + 1;
    assert Piece(ps, line, k, cuts, 0);
    forall m | 0 <= m < |c| - 1 ensures Piece(ps, line, rest, c, m) {
      assert Piece(ps, line, k, cuts, m + 1);
    }
  }

  // A pattern vector as setPattern leaves it.
  ghost predicate Compiled(ps: seq<Elem>) {
    && |ps| > 0 && ps[|ps| - 1] == End
    && (forall k :: 0 <= k < |ps| - 1 ==> ps[k] != End)
  }

  // ----- what the matcher uses -----

  // An element that can only take line[i..j].
  lemma Determined(ps: seq<Elem>, line: string, i: nat, k: nat, j: nat)
    requires k < |ps| && i <= j <= |line| && Fits(ps[k], line, i, j)
    requires forall j' :: i <= j' <= |line| && Fits(ps[k], line, i, j') ==> j' == j
    ensures Lang(ps, line, i, k) <==> Lang(ps, line, j, k + 1)
  {
  }

  lemma Refused(ps: seq<Elem>, line: string, i: nat, k: nat)
    requires k < |ps| && i <= |line|
    requires forall j :: i <= j <= |line| ==> !Fits(ps[k], line, i, j)
    ensures !Lang(ps, line, i, k)
  {
  }

  // The first shortcut: a trailing "**" takes whatever is left.
  lemma TrailingAnySeq(ps: seq<Elem>, line: string, i: nat, k: nat)
    requires Compiled(ps) && k == |ps| - 2 && ps[k] == AnySeq && i <= |line|
    ensures Lang(ps, line, i, k)
  {
    var n := |line|;
    assert Fits(ps[k + 1], line, n, n) && Lang(ps, line, n, k + 2);
    assert Lang(ps, line, n, k + 1);
    assert Fits(ps[k], line, i, n);
  }

  predicate EndsWith(s: string, t: string) {
    |t| <= |s| && s[|s| - |t|..] == t
  }

  lemma LastLiteral(ps: seq<Elem>, line: string, i: nat, k: nat)
    requires Compiled(ps) && k == |ps| - 2 && ps[k].Literal? && i <= |line|
    ensures Lang(ps, line, i, k) <==> line[i..] == ps[k].text
  {
    var n := |line|;
    assert Fits(ps[k + 1], line, n, n) && Lang(ps, line, n, k + 2);
    assert Lang(ps, line, n, k + 1);
    assert line[i..n] == line[i..];
    assert Fits(ps[k], line, i, n) <==> line[i..] == ps[k].text;
    var e := k + 1;
    forall j | i <= j <= |line| && Lang(ps, line, j, e) ensures j == n {}
  }

  // The second shortcut: for a trailing "**literal" it is enough that the line ends in the literal.
  lemma TrailingAnySeqLiteral(ps: seq<Elem>, line: string, i: nat, k: nat)
    requires Compiled(ps) && k == |ps| - 3 && k >= 0 && ps[k] == AnySeq && ps[k + 1].Literal? && i <= |line|
    ensures Lang(ps, line, i, k) <==> EndsWith(line[i..], ps[k + 1].text)
  {
    var t := ps[k + 1].text;
    forall j | i <= j <= |line| ensures Lang(ps, line, j, k + 1) <==> line[j..] == t {
      LastLiteral(ps, line, j, k + 1);
    }
    if EndsWith(line[i..], t) {
      var j := |line| - |t|;
      assert line[i..][|line[i..]| - |t|..] == line[j..];
      assert Fits(ps[k], line, i, j) && Lang(ps, line, j, k + 1);
    }
    if Lang(ps, line, i, k) {
      var j :| i <= j <= |line| && Fits(ps[k], line, i, j) && Lang(ps, line, j, k + 1);
      assert line[i..][j - i..] == line[j..];
    }
  }

  // The third shortcut: a pattern that ends in a literal only accepts lines that end in it.
  lemma {:induction false} EndsInLastLiteral(ps: seq<Elem>, line: string, i: nat, k: nat)
    requires Compiled(ps) && k <= |ps| - 2 && ps[|ps| - 2].Literal? && i <= |line|
    requires Lang(ps, line, i, k)
    ensures EndsWith(line, ps[|ps| - 2].text)
    decreases |ps| - k
  {
    if k == |ps| - 2 {
      LastLiteral(ps, line, i, k);
    } else {
      var j :| i <= j <= |line| && Fits(ps[k], line, i, j) && Lang(ps, line, j, k + 1);
      EndsInLastLiteral(ps, line, j, k + 1);
    }
  }

  // ----- whole patterns -----

  // The elements of ts from k on take exactly line[i..j], in place.
  ghost predicate Takes(ts: seq<Elem>, line: string, i: nat, k: nat, j: nat)
    requires k <= |ts| && i <= j <= |line|
    decreases |ts| - k
  {
    if k == |ts| then i == j
    else exists m :: i <= m <= j && Fits(ts[k], line, i, m) && Takes(ts, line, m, k + 1, j)
  }

  lemma {:induction false} LangShift(a: seq<Elem>, b: seq<Elem>, line: string, i: nat, k: nat)
    requires k <= |b| && i <= |line|
    ensures Lang(a + b, line, i, |a| + k) <==> Lang(b, line, i, k)
    decreases |b| - k
  {
    if k < |b| {
      var all, n, rest := a + b, |a| + k + 1, k + 1;
      forall j | i <= j <= |line| ensures Lang(all, line, j, n) <==> Lang(b, line, j, rest) {
        LangShift(a, b, line, j, rest);
      }
      assert all[|a| + k] == b[k];
    }
  }

  // A concatenation accepts what its parts accept one after the other.
  lemma {:induction false} LangConcat(a: seq<Elem>, b: seq<Elem>, line: string, i: nat, k: nat)
    requires k <= |a| && i <= |line|
    ensures Lang(a + b, line, i, k) <==> exists j :: i <= j <= |line| && Takes(a, line, i, k, j) && Lang(b, line, j, 0)
    decreases |a| - k
  {
    if k == |a| {
      LangShift(a, b, line, i, 0);
      if Lang(b, line, i, 0) { assert Takes(a, line, i, k, i); }
    } else {
      assert (a + b)[k] == a[k];
      var next := k + 1;
      if Lang(a + b, line, i, k) {
        var m :| i <= m <= |line| && Fits((a + b)[k], line, i, m) && Lang(a + b, line, m, next);
        LangConcat(a, b, line, m, next);
        var j :| m <= j <= |line| && Takes(a, line, m, next, j) && Lang(b, line, j, 0);
        assert Takes(a, line, i, k, j);
      }
      if j :| i <= j <= |line| && Takes(a, line, i, k, j) && Lang(b, line, j, 0) {
        var m :| i <= m <= j && Fits(a[k], line, i, m) && Takes(a, line, m, next, j);
        LangConcat(a, b, line, m, next);
        assert Takes(a, line, m, next, j) && Lang(b, line, j, 0);
        assert Lang(a + b, line, m, next);
        assert Fits((a + b)[k], line, i, m);
      }
    }
  }

  lemma {:induction false} TakesLast(a: seq<Elem>, e: Elem, line: string, i: nat, k: nat, j: nat)
    requires k <= |a| && i <= j <= |line|
    ensures Takes(a + [e], line, i, k, j) <==> exists m :: i <= m <= j && Takes(a, line, i, k, m) && Fits(e, line, m, j)
    decreases |a| - k
  {
    var all, next := a + [e], k + 1;
    if k == |a| {
      assert all[k] == e;
      if Takes(all, line, i, k, j) {
        var m :| i <= m <= j && Fits(all[k], line, i, m) && Takes(all, line, m, next, j);
        assert Takes(a, line, i, k, i) && Fits(e, line, i, j);
      }
      if m :| i <= m <= j && Takes(a, line, i, k, m) && Fits(e, line, m, j) {
        assert Fits(all[k], line, i, j) && Takes(all, line, j, next, j);
      }
    } else {
      assert all[k] == a[k];
      if Takes(all, line, i, k, j) {
        var n :| i <= n <= j && Fits(all[k], line, i, n) && Takes(all, line, n, next, j);
        TakesLast(a, e, line, n, next, j);
        var m :| n <= m <= j && Takes(a, line, n, next, m) && Fits(e, line, m, j);
        assert Takes(a, line, i, k, m);
      }
      if m :| i <= m <= j && Takes(a, line, i, k, m) && Fits(e, line, m, j) {
        var n :| i <= n <= m && Fits(a[k], line, i, n) && Takes(a, line, n, next, m);
        TakesLast(a, e, line, n, next, j);
        assert Fits(all[k], line, i, n) && Takes(all, line, n, next, j);
      }
    }
  }

  lemma {:induction false} LangOfLiteral(t: string, line: string)
    ensures Lang([Literal(t), End], line, 0, 0) <==> line == t
  {
    LastLiteral([Literal(t), End], line, 0, 0);
    assert line[0..] == line;
  }

  lemma LangOfEnd(line: string, i: nat)
    requires i <= |line|
    ensures Lang([End], line, i, 0) <==> i == |line|
  {
    var ps := [End];
    assert ps[0] == End;
    if i == |line| { assert Fits(ps[0], line, i, i) && Lang(ps, line, i, 1); }
  }

  // Without substring mode a line matches if and only if the tokens take all of it.
  lemma WholeLine(ts: seq<Elem>, line: string)
    ensures InLanguage(Compile(ts, true), line, 0, 0) <==> Takes(ts, line, 0, 0, |line|)
  {
    hide Lang, Takes;
    LangIsInLanguage(Compile(ts, true), line, 0, 0);
    LangConcat(ts, [End], line, 0, 0);
    forall j | 0 <= j <= |line| ensures Lang([End], line, j, 0) <==> j == |line| { LangOfEnd(line, j); }
  }

  ghost predicate BeginsAt(ts: seq<Elem>, line: string, i: nat)
    requires i <= |line|
  {
    exists j :: i <= j <= |line| && Takes(ts, line, i, 0, j)
  }

  // In substring mode a line matches if and only if the tokens take some part of it, in place.
  lemma SubstringMode(ts: seq<Elem>, line: string)
    requires forall k :: 0 <= k < |ts| ==> ts[k] != End
    ensures InLanguage(Compile(ts, false), line, 0, 0) <==> exists i :: 0 <= i <= |line| && BeginsAt(ts, line, i)
  {
    hide Lang, BeginsAt;
    LangIsInLanguage(Compile(ts, false), line, 0, 0);
    var behind := if ts == [] || ts[|ts| - 1] != AnySeq then ts + [AnySeq] else ts;
    var tail := behind + [End];
    assert behind[0] == tail[0];
    if behind[0] != AnySeq {
      FrontAnySeq(tail, line);
      assert Compile(ts, false) == [AnySeq] + tail;
    } else {
      FrontHasAnySeq(tail, line);
    }
    forall i | 0 <= i <= |line| ensures Lang(tail, line, i, 0) <==> BeginsAt(ts, line, i) {
      BehindAnySeq(ts, behind, line, i);
    }
    if i :| 0 <= i <= |line| && BeginsAt(ts, line, i) { assert Lang(tail, line, i, 0); }
    if i :| 0 <= i <= |line| && Lang(tail, line, i, 0) { assert BeginsAt(ts, line, i); }
  }

  // "**" in front lets the rest begin anywhere.
  lemma FrontAnySeq(us: seq<Elem>, line: string)
    ensures Lang([AnySeq] + us, line, 0, 0) <==> exists i :: 0 <= i <= |line| && Lang(us, line, i, 0)
  {
    hide Fits;
    var ps := [AnySeq] + us;
    FitsAny(line);
    if Lang(ps, line, 0, 0) {
      var i :| 0 <= i <= |line| && Fits(ps[0], line, 0, i) && Lang(ps, line, i, 1);
      LangShift([AnySeq], us, line, i, 0);
    }
    if i :| 0 <= i <= |line| && Lang(us, line, i, 0) {
      LangShift([AnySeq], us, line, i, 0);
      assert Fits(ps[0], line, 0, i) && Lang(ps, line, i, 1);
    }
  }

  lemma FitsAny(line: string)
    ensures forall i, j :: 0 <= i <= j <= |line| ==> Fits(AnySeq, line, i, j)
  {
  }

  lemma FrontHasAnySeq(us: seq<Elem>, line: string)
    requires us != [] && us[0] == AnySeq
    ensures Lang(us, line, 0, 0) <==> exists i :: 0 <= i <= |line| && Lang(us, line, i, 0)
  {
    hide Fits;
    FitsAny(line);
    if i :| 0 <= i <= |line| && Lang(us, line, i, 0) {
      var j :| i <= j <= |line| && Fits(us[0], line, i, j) && Lang(us, line, j, 1);
      assert Fits(us[0], line, 0, j);
    }
  }

  // "**" behind lets the rest end anywhere.
  lemma BehindAnySeq(ts: seq<Elem>, behind: seq<Elem>, line: string, i: nat)
    requires behind == (if ts == [] || ts[|ts| - 1] != AnySeq then ts + [AnySeq] else ts) && i <= |line|
    ensures Lang(behind + [End], line, i, 0) <==> BeginsAt(ts, line, i)
  {
    hide Lang, Takes;
    if behind == ts {
      var init := ts[..|ts| - 1];
      assert ts == init + [AnySeq];
      assert behind + [End] == init + [AnySeq, End];
      AddAnySeq(init, line, i);
      DropAnySeq(init, line, i);
    } else {
      assert behind + [End] == ts + [AnySeq, End];
      AddAnySeq(ts, line, i);
    }
  }

  lemma AddAnySeq(ts: seq<Elem>, line: string, i: nat)
    requires i <= |line|
    ensures Lang(ts + [AnySeq, End], line, i, 0) <==> BeginsAt(ts, line, i)
  {
    hide Lang, Takes;
    var us := [AnySeq, End];
    LangConcat(ts, us, line, i, 0);
    if Lang(ts + us, line, i, 0) {
      var j :| i <= j <= |line| && Takes(ts, line, i, 0, j) && Lang(us, line, j, 0);
      assert BeginsAt(ts, line, i);
    }
    if BeginsAt(ts, line, i) {
      var j :| i <= j <= |line| && Takes(ts, line, i, 0, j);
      TrailingAnySeq(us, line, j, 0);
      assert Takes(ts, line, i, 0, j) && Lang(us, line, j, 0);
    }
  }

  lemma DropAnySeq(init: seq<Elem>, line: string, i: nat)
    requires i <= |line|
    ensures BeginsAt(init + [AnySeq], line, i) <==> BeginsAt(init, line, i)
  {
    hide Takes;
    var ts := init + [AnySeq];
    if BeginsAt(ts, line, i) {
      var j :| i <= j <= |line| && Takes(ts, line, i, 0, j);
      TakesLast(init, AnySeq, line, i, 0, j);
      var n :| i <= n <= j && Takes(init, line, i, 0, n) && Fits(AnySeq, line, n, j);
      assert BeginsAt(init, line, i);
    }
    if BeginsAt(init, line, i) {
      var m :| i <= m <= |line| && Takes(init, line, i, 0, m);
      assert Fits(AnySeq, line, m, m);
      TakesLast(init, AnySeq, line, i, 0, m);
      assert Takes(ts, line, i, 0, m);
      assert BeginsAt(ts, line, i);
    }
  }
}
