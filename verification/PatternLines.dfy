/** The lines that a pattern accepts, told by the parts it is written from. */
module PatternLines {
  import opened Options
  import opened PatternTokens
  import opened PatternLanguage
  import opened PatternText

  ghost predicate Holds(x: Item, c: char) {
    match x case One(d) => c == d case Span(a, b) => a <= c <= b
  }

  // s is a number between the bounds, written with any number of zeros in front.
  ghost predicate IsNumberWithin(s: string, lo: Option<Bound>, up: Option<Bound>) {
    exists z: nat, n: nat ::
      s == Zeros(z) + Decimal(n) && (lo.Some? ==> lo.value.n <= n) && (up.Some? ==> n <= up.value.n)
  }

  // g describes line[i..j] where it stands. A number must not go on behind j.
  ghost predicate Accepts(g: Part, dotted: bool, line: string, i: nat, j: nat)
    requires i <= j <= |line|
  {
    match g
    case Plain(ts) => j == i + |ts| && forall k :: 0 <= k < |ts| ==> line[i + k] == ts[k].c
    case Question => j == i + 1 && (dotted ==> line[i] != '.')
    case Star => dotted ==> forall k :: i <= k < j ==> line[k] != '.'
    case DoubleStar => true
    case Set(negated, xs) => j == i + 1 && (negated <==> forall k :: 0 <= k < |xs| ==> !Holds(xs[k], line[i]))
    case Numbers(lo, up, _) => IsNumberWithin(line[i..j], lo, up) && (j < |line| ==> !('0' <= line[j] <= '9'))
  }

  // The parts describe line[i..j], one after the other.
  ghost predicate Describe(gs: seq<Part>, dotted: bool, line: string, i: nat, j: nat)
    requires i <= j <= |line|
  {
    if gs == [] then i == j
    else exists m :: i <= m <= j && Accepts(gs[0], dotted, line, i, m) && Describe(gs[1..], dotted, line, m, j)
  }

  lemma NumberFits(lo: Option<Bound>, up: Option<Bound>, bracketed: bool, dotted: bool, line: string, i: nat, j: nat)
    requires i <= j <= |line|
    ensures Fits(NumRange(BoundOf(lo), BoundOf(up)), line, i, j) <==> Accepts(Numbers(lo, up, bracketed), dotted, line, i, j)
  {
    hide Decimal, Zeros, Number;
    var s, g := line[i..j], Numbers(lo, up, bracketed);
    assert forall k :: 0 <= k < |s| ==> s[k] == line[i + k];
    if Fits(NumRange(BoundOf(lo), BoundOf(up)), line, i, j) {
      var z := DigitsAreNumber(s);
      assert IsNumberWithin(s, lo, up);
    }
    if Accepts(g, dotted, line, i, j) {
      var z: nat, n: nat :| s == Zeros(z) + Decimal(n) && (lo.Some? ==> lo.value.n <= n) && (up.Some? ==> n <= up.value.n);
      ZerosDoNotCount(z, n);
      forall k | i <= k < j ensures IsDigit(line[k]) { assert line[k] == s[k - i]; }
      assert DigitsEnd(line, i) == j;
    }
  }

  lemma {:induction false} EndsAt(xs: seq<Item>, k: nat, c: char)
    requires k < |xs|
    ensures Holds(xs[k], c) <==> Ends(xs)[2 * k] <= c <= Ends(xs)[2 * k + 1]
    decreases |xs|
  {
    if k > 0 {
      EndsAt(xs[1..], k - 1, c);
      assert Ends(xs)[2 * k] == Ends(xs[1..])[2 * (k - 1)] && Ends(xs)[2 * k + 1] == Ends(xs[1..])[2 * (k - 1) + 1];
    }
  }

  lemma SetHolds(xs: seq<Item>, c: char)
    ensures InRanges(c, Ends(xs)) <==> exists k :: 0 <= k < |xs| && Holds(xs[k], c)
  {
    hide Holds, Ends;
    forall k | 0 <= k < |xs| ensures Holds(xs[k], c) <==> Ends(xs)[2 * k] <= c <= Ends(xs)[2 * k + 1] {
      EndsAt(xs, k, c);
    }
    if k :| 0 <= k < |xs| && Holds(xs[k], c) {
      assert Ends(xs)[2 * k] <= c <= Ends(xs)[2 * k + 1];
    }
    if i :| 0 <= i < |Ends(xs)| / 2 && Ends(xs)[2 * i] <= c <= Ends(xs)[2 * i + 1] {
      assert Holds(xs[i], c);
    }
  }

  lemma TextFits(ts: seq<TextChar>, dotted: bool, line: string, i: nat, j: nat)
    requires i <= j <= |line|
    ensures line[i..j] == Content(ts) <==> Accepts(Plain(ts), dotted, line, i, j)
  {
    var s := line[i..j];
    assert forall k :: 0 <= k < |s| ==> s[k] == line[i + k];
    if Accepts(Plain(ts), dotted, line, i, j) { assert s == Content(ts); }
  }

  // The element of a part fits exactly where the part describes the line.
  lemma PartFits(g: Part, dotted: bool, line: string, i: nat, j: nat)
    requires i <= j <= |line|
    ensures Fits(ElemOf(g, dotted), line, i, j) <==> Accepts(g, dotted, line, i, j)
  {
    hide InRanges, Holds, Content, Ends;
    match g
    case Plain(ts) => TextFits(ts, dotted, line, i, j);
    case Set(negated, xs) => if j == i + 1 { SetHolds(xs, line[i]); }
    case Numbers(lo, up, b) => NumberFits(lo, up, b, dotted, line, i, j);
    case Star => StarFits(dotted, line, i, j);
    case _ =>
  }

  lemma StarFits(dotted: bool, line: string, i: nat, j: nat)
    requires i <= j <= |line|
    ensures Fits(if dotted then CommonSeq else AnySeq, line, i, j) <==> (dotted ==> forall k :: i <= k < j ==> line[k] != '.')
  {
    var s := line[i..j];
    assert forall k :: 0 <= k < |s| ==> s[k] == line[i + k];
    forall k | i <= k < j ensures line[k] == s[k - i] {}
  }

  lemma {:induction false} ElemsTake(gs: seq<Part>, dotted: bool, line: string, i: nat, k: nat, j: nat)
    requires k <= |gs| && i <= j <= |line|
    ensures Takes(Elems(gs, dotted), line, i, k, j) <==> Describe(gs[k..], dotted, line, i, j)
    decreases |gs| - k
  {
    hide Accepts, ElemOf, Elems, Fits;
    if k < |gs| {
      var ts, next := Elems(gs, dotted), k + 1;
      assert gs[k..][1..] == gs[next..] && gs[k..][0] == gs[k];
      forall m | i <= m <= j
        ensures Fits(ts[k], line, i, m) <==> Accepts(gs[k], dotted, line, i, m)
        ensures Takes(ts, line, m, next, j) <==> Describe(gs[next..], dotted, line, m, j)
      {
        PartFits(gs[k], dotted, line, i, m);
        ElemsTake(gs, dotted, line, m, next, j);
      }
    }
  }

  // The parts describe the line, in substring mode some piece of it.
  ghost predicate DescribeLine(gs: seq<Part>, dotted: bool, fullstring: bool, line: string) {
    if fullstring then Describe(gs, dotted, line, 0, |line|)
    else exists i, j :: 0 <= i <= j <= |line| && Describe(gs, dotted, line, i, j)
  }

  // A pattern written from parts accepts exactly the lines that the parts describe.
  lemma PatternMeansItsParts(gs: seq<Part>, dotted: bool, fullstring: bool, line: string)
    requires Proper(gs)
    ensures TokensFrom(Render(gs), 0, false, dotted).Ok?
    ensures InLanguage(Compile(TokensFrom(Render(gs), 0, false, dotted).value, fullstring), line, 0, 0)
            <==> DescribeLine(gs, dotted, fullstring, line)
  {
    hide Proper, TokensFrom, Describe, Takes, InLanguage, Lang, Compile;
    PatternIsItsParts(gs, dotted);
    var ts := Elems(gs, dotted);
    assert gs[0..] == gs;
    forall i, j | 0 <= i <= j <= |line| ensures Takes(ts, line, i, 0, j) <==> Describe(gs, dotted, line, i, j) {
      ElemsTake(gs, dotted, line, i, 0, j);
    }
    ElemsHaveNoEnd(gs, dotted);
    if fullstring { WholeLine(ts, line); } else { SomePiece(gs, ts, dotted, line); }
  }

  lemma SomePiece(gs: seq<Part>, ts: seq<Elem>, dotted: bool, line: string)
    requires forall k :: 0 <= k < |ts| ==> ts[k] != End
    requires forall i, j :: 0 <= i <= j <= |line| ==> (Takes(ts, line, i, 0, j) <==> Describe(gs, dotted, line, i, j))
    ensures InLanguage(Compile(ts, false), line, 0, 0) <==> DescribeLine(gs, dotted, false, line)
  {
    hide Describe, Takes, InLanguage, Compile;
    SubstringMode(ts, line);
    if i :| 0 <= i <= |line| && BeginsAt(ts, line, i) {
      var j :| i <= j <= |line| && Takes(ts, line, i, 0, j);
      assert Describe(gs, dotted, line, i, j);
    }
    if i, j :| 0 <= i <= j <= |line| && Describe(gs, dotted, line, i, j) {
      assert Takes(ts, line, i, 0, j);
      assert BeginsAt(ts, line, i);
    }
  }

  // A pattern of one part, and the three wildcards: with dottedpath they do not cross a dot, but "**" does.
  lemma OnePart(g: Part, dotted: bool, line: string)
    requires Proper([g]) && IsCString(Written(g))
    ensures TokensFrom(Written(g), 0, false, dotted).Ok?
    ensures InLanguage(Compile(TokensFrom(Written(g), 0, false, dotted).value, true), line, 0, 0) <==> Accepts(g, dotted, line, 0, |line|)
  {
    hide Written, Proper, Accepts, TokensFrom, InLanguage, Compile;
    var gs := [g];
    assert gs[1..] == [] && Render(gs) == Written(g) + [] == Written(g);
    PatternMeansItsParts(gs, dotted, true, line);
    DescribeOne(g, dotted, line, 0, |line|);
  }

  lemma DescribeOne(g: Part, dotted: bool, line: string, i: nat, j: nat)
    requires i <= j <= |line|
    ensures Describe([g], dotted, line, i, j) <==> Accepts(g, dotted, line, i, j)
  {
    hide Accepts;
    var gs := [g];
    var none := gs[1..];
    forall m | i <= m <= j ensures Describe(none, dotted, line, m, j) <==> m == j {}
    if Describe(gs, dotted, line, i, j) {
      var m :| i <= m <= j && Accepts(gs[0], dotted, line, i, m) && Describe(none, dotted, line, m, j);
    }
    if Accepts(g, dotted, line, i, j) {
      assert Accepts(gs[0], dotted, line, i, j) && Describe(none, dotted, line, j, j);
    }
  }

  lemma WildcardLines(dotted: bool, line: string)
    ensures IsCString("*") && IsCString("?") && IsCString("**")
    ensures var r := TokensFrom("*", 0, false, dotted);
            r.Ok? && (InLanguage(Compile(r.value, true), line, 0, 0) <==> (dotted ==> '.' !in line))
    ensures var r := TokensFrom("?", 0, false, dotted);
            r.Ok? && (InLanguage(Compile(r.value, true), line, 0, 0) <==> |line| == 1 && (dotted ==> line[0] != '.'))
    ensures var r := TokensFrom("**", 0, false, dotted); r.Ok? && InLanguage(Compile(r.value, true), line, 0, 0)
  {
    WildcardsAreProper();
    hide Proper, TokensFrom, InLanguage, Compile;
    OnePart(Star, dotted, line);
    OnePart(Question, dotted, line);
    OnePart(DoubleStar, dotted, line);
  }

  lemma WildcardsAreProper()
    ensures Proper([Star]) && Proper([Question]) && Proper([DoubleStar])
  {
    var gs := [[Star], [Question], [DoubleStar]];
    forall k | 0 <= k < |gs| ensures Proper(gs[k]) { assert gs[k][1..] == []; }
    assert Proper(gs[0]) && Proper(gs[1]) && Proper(gs[2]);
  }

  lemma ElemsHaveNoEnd(gs: seq<Part>, dotted: bool)
    ensures forall k :: 0 <= k < |gs| ==> Elems(gs, dotted)[k] != End
  {
  }

  // ----- escaped texts -----

  function Backslashed(t: string): seq<TextChar> {
    if t == [] then [] else [TextChar(t[0], true)] + Backslashed(t[1..])
  }

  lemma {:induction false} BackslashedIsOk(t: string)
    requires IsCString(t)
    ensures TextOk(Backslashed(t)) && Content(Backslashed(t)) == t && IsCString(SpelledAll(Backslashed(t)))
    ensures t != [] ==> Backslashed(t) != [] && SpelledAll(Backslashed(t)) != [] && SpelledAll(Backslashed(t))[0] == '\\'
  {
    if t != [] {
      var tail := Backslashed(t[1..]);
      BackslashedIsOk(t[1..]);
      assert Backslashed(t)[1..] == tail;
      assert !BeginsRange(SpelledAll(tail), ']');
    }
  }

  lemma TextIsProper(ts: seq<TextChar>)
    requires ts != [] && TextOk(ts) && IsCString(SpelledAll(ts))
    ensures Proper([Plain(ts)])
  {
    hide TextOk, SpelledAll, IsCString;
    var gs := [Plain(ts)];
    assert gs[1..] == [];
    assert Render(gs) == SpelledAll(ts) + [] == SpelledAll(ts);
    assert Follows(gs[1..]);
  }

  // "Backslash takes away the special meaning": escaping every character matches exactly the text.
  lemma EscapedPatternMatchesText(t: string, dotted: bool, line: string)
    requires IsCString(t)
    ensures var p := SpelledAll(Backslashed(t));
            && IsCString(p) && TokensFrom(p, 0, false, dotted).Ok?
            && (InLanguage(Compile(TokensFrom(p, 0, false, dotted).value, true), line, 0, 0) <==> line == t)
  {
    BackslashedIsOk(t);
    if t == [] {
      LangIsInLanguage([End], line, 0, 0);
      assert Compile([], true) == [End];
      LangOfEnd(line, 0);
    } else {
      hide TokensFrom, InLanguage, Compile, TextOk, Backslashed, SpelledAll, IsCString;
      var g := Plain(Backslashed(t));
      TextIsProper(Backslashed(t));
      OnePart(g, dotted, line);
      TextFits(Backslashed(t), dotted, line, 0, |line|);
      assert line[0..|line|] == line;
    }
  }
}
