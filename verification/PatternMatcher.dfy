/** The PatternMatcher class of src/util/PatternMatcher.cc in case-sensitive mode. */
module PatternMatchers {
  import opened Options
  import opened Sequences
  import opened PatternTokens
  import opened PatternLanguage
  import opened PatternText
  import opened PatternLines
  import opened PatternReading

  // Moves on behind a run of digits.
  method SkipDigits(s: string, i: nat) returns (j: nat)
    requires i <= |s|
    ensures j == DigitsEnd(s, i)
  {
    j := i;
    while j < |s| && IsDigit(s[j])
      invariant i <= j <= |s| && DigitsEnd(s, j) == DigitsEnd(s, i)
    {
      j := j + 1;
    }
  }

  method ParseNumRange(p: string, i: nat, closing: char) returns (r: Option<Range>)
    requires i < |p| && IsCString(p) && closing != '\0'
    ensures r == NumRangeAt(p, i, closing)
  {
    var lo: int, up: int := -1, -1;
    var s := i + 1;
    var b := SkipDigits(p, s);
    if b > s { lo := Number(p[s..b]); }
    if CharAt(p, b) != '.' || CharAt(p, b + 1) != '.' { return None; }
    s := b + 2;
    var e := SkipDigits(p, s);
    if e > s { up := Number(p[s..e]); }
    if CharAt(p, e) != closing { return None; }
    return Some(Range(e, lo, up));
  }

  method ParseLiteralString(p: string, i: nat) returns (r: Result<Text>)
    requires i <= |p| && IsCString(p)
    ensures r == LiteralAt(p, i)
  {
    hide LiteralAt, NumRangeAt;
    var text, s: nat := [], i;
    BehindNothing(LiteralAt(p, i));
    while CharAt(p, s) !in {'\0', '?', '{', '*'}
      invariant i <= s <= |p| && LiteralAt(p, i) == Behind(text, LiteralAt(p, s))
      decreases |p| - s
    {
      ghost var text0 := text;
      LiteralPass(p, s);
      if p[s] == '\\' {
        if s + 1 == |p| { return Err(TrailingBackslash); }
        s := s + 1;
      }
      text := text + [p[s]];
      if p[s] == '[' {
        var n := ParseNumRange(p, s, ']');
        if n.Some? { return Ok(Text(text, s)); }
      }
      s := s + 1;
      BehindBoth(text0, [text[|text0|]], LiteralAt(p, s));
    }
    LiteralStops(p, s);
    assert text + [] == text;
    return Ok(Text(text, s));
  }

  // One pass of the loop of parseSet. A range is stored as its two ends, a single character as a range of one.
  method ReadRange(p: string, first: nat, s: nat) returns (pair: string, next: nat)
    requires first <= s < |p| && (p[s] != '}' || s == first)
    ensures s < next <= |p| && RangesAt(p, first, s) == Behind(pair, RangesAt(p, first, next))
  {
    if CharAt(p, s + 1) == '-' && s + 2 < |p| && p[s + 2] != '}' {
      pair, next := [p[s], p[s + 2]], s + 3;
    } else {
      pair, next := [p[s], p[s]], s + 1;
    }
  }

  method ParseSet(p: string, i: nat) returns (r: Result<Token>)
    requires i < |p| && p[i] == '{'
    ensures r == SetAt(p, i)
  {
    var s, negated := i + 1, false;
    if s < |p| && p[s] == '^' {
      negated := true;
      s := s + 1;
    }
    var first, chars := s, [];
    BehindNothing(RangesAt(p, first, first));
    while s < |p| && (p[s] != '}' || s == first)
      invariant first <= s <= |p| && RangesAt(p, first, first) == Behind(chars, RangesAt(p, first, s))
      decreases |p| - s
    {
      ghost var chars0 := chars;
      var pair, next := ReadRange(p, first, s);
      s, chars := next, chars + pair;
      BehindBoth(chars0, pair, RangesAt(p, first, s));
    }
    if s == |p| { return Err(UnmatchedBrace); }
    assert chars + [] == chars;
    return Ok(Token(if negated then NotInSet(chars) else InSet(chars), s + 1));
  }

  method NextToken(p: string, i: nat, afterLiteral: bool, dotted: bool) returns (r: Result<Token>)
    requires i < |p| && IsCString(p)
    ensures r == TokenAt(p, i, afterLiteral, dotted)
  {
    if p[i] == '?' {
      return Ok(Token(if dotted then CommonChar else AnyChar, i + 1));
    } else if p[i] == '*' {
      if CharAt(p, i + 1) == '*' { return Ok(Token(AnySeq, i + 2)); }
      return Ok(Token(if dotted then CommonSeq else AnySeq, i + 1));
    } else if p[i] == '{' {
      var n := ParseNumRange(p, i, '}');
      if n.Some? { return Ok(Token(NumRange(n.value.lo, n.value.up), n.value.end + 1)); }
      r := ParseSet(p, i);
    } else {
      if p[i] == '[' && afterLiteral {
        var n := ParseNumRange(p, i, ']');
        if n.Some? { return Ok(Token(NumRange(n.value.lo, n.value.up), n.value.end)); }
      }
      var t := ParseLiteralString(p, i);
      match t
      case Err(e) => return Err(e);
      case Ok(t) => return Ok(Token(Literal(t.text), t.next));
    }
  }

  method IsInSet(c: char, ranges: string) returns (b: bool)
    requires |ranges| % 2 == 0
    ensures b <==> InRanges(c, ranges)
  {
    var i := 0;
    while i < |ranges| / 2
      invariant i <= |ranges| / 2 && forall k :: 0 <= k < i ==> !(ranges[2 * k] <= c <= ranges[2 * k + 1])
    {
      if ranges[2 * i] <= c <= ranges[2 * i + 1] { return true; }
      i := i + 1;
    }
    return false;
  }

  // The sets of a pattern are lists of pairs.
  ghost predicate Paired(ps: seq<Elem>) {
    forall k :: 0 <= k < |ps| ==>
      match ps[k] case InSet(r) => |r| % 2 == 0 case NotInSet(r) => |r| % 2 == 0 case _ => true
  }

  // Where an element that is not a sequence wildcard ends, if it fits at i at all.
  ghost predicate FitsOnlyAt(e: Elem, line: string, i: nat, r: Option<nat>)
    requires i <= |line|
  {
    match r
    case Some(j) => i <= j <= |line| && Fits(e, line, i, j) && forall j' :: i <= j' <= |line| && Fits(e, line, i, j') ==> j' == j
    case None => forall j :: i <= j <= |line| ==> !Fits(e, line, i, j)
  }

  // One pass of doMatch over an element that is not a sequence wildcard.
  method Consume(e: Elem, line: string, s: nat) returns (r: Option<nat>)
    requires s <= |line| && !e.AnySeq? && !e.CommonSeq? && !e.End? && Paired([e])
    ensures FitsOnlyAt(e, line, s, r)
  {
    assert [e][0] == e;
    match e
    case Literal(t) =>
      if s + |t| <= |line| && line[s..s + |t|] == t { return Some(s + |t|); }
      return None;
    case AnyChar =>
      return if s < |line| then Some(s + 1) else None;
    case CommonChar =>
      return if s < |line| && line[s] != '.' then Some(s + 1) else None;
    case InSet(set_) =>
      if s == |line| { return None; }
      var b := IsInSet(line[s], set_);
      return if b then Some(s + 1) else None;
    case NotInSet(set_) =>
      if s == |line| { return None; }
      var b := IsInSet(line[s], set_);
      return if b then None else Some(s + 1);
    case NumRange(lo, up) =>
      if s == |line| || !IsDigit(line[s]) { return None; }
      var j := SkipDigits(line, s);
      var num := Number(line[s..j]);
      if (lo >= 0 && num < lo) || (up >= 0 && num > up) { return None; }
      return Some(j);
  }

  // The loop of doMatch for "**" in the general case.
  method MatchAnySeq(ps: seq<Elem>, line: string, s0: nat, k: nat) returns (b: bool)
    requires Compiled(ps) && Paired(ps) && s0 <= |line| && k < |ps| - 1 && ps[k] == AnySeq
    ensures b <==> Lang(ps, line, s0, k)
    decreases |ps| - k, 0
  {
    var s: nat, rest: nat := s0, k + 1;
    while true
      invariant s0 <= s <= |line| && forall j :: s0 <= j < s ==> !Lang(ps, line, j, rest)
      decreases |line| - s
    {
      b := DoMatch(ps, line, s, rest);
      if b {
        assert Fits(ps[k], line, s0, s);
        return;
      }
      if s == |line| { return; }
      s := s + 1;
    }
  }

  // The loop of doMatch for "*", which stops at a dot.
  method MatchCommonSeq(ps: seq<Elem>, line: string, s0: nat, k: nat) returns (b: bool)
    requires Compiled(ps) && Paired(ps) && s0 <= |line| && k < |ps| - 1 && ps[k] == CommonSeq
    ensures b <==> Lang(ps, line, s0, k)
    decreases |ps| - k, 0
  {
    var s: nat, rest: nat := s0, k + 1;
    while true
      invariant s0 <= s <= |line| && '.' !in line[s0..s] && forall j :: s0 <= j < s ==> !Lang(ps, line, j, rest)
      decreases |line| - s
    {
      b := DoMatch(ps, line, s, rest);
      if b {
        assert Fits(ps[k], line, s0, s);
        return;
      }
      if s == |line| || line[s] == '.' {
        StuckAtDot(ps, line, s0, k, s);
        return;
      }
      assert line[s0..s + 1] == line[s0..s] + [line[s]];
      s := s + 1;
    }
  }

  lemma StuckAtDot(ps: seq<Elem>, line: string, s0: nat, k: nat, s: nat)
    requires s0 <= s <= |line| && k < |ps| && ps[k] == CommonSeq && (s == |line| || line[s] == '.')
    requires var rest := k + 1; forall j :: s0 <= j <= s ==> !Lang(ps, line, j, rest)
    ensures !Lang(ps, line, s0, k)
  {
    forall j | s < j <= |line| ensures !Fits(ps[k], line, s0, j) {
      assert line[s0..j][s - s0] == line[s];
    }
  }

  lemma AtEnd(ps: seq<Elem>, line: string, s: nat)
    requires Compiled(ps) && s <= |line|
    ensures Lang(ps, line, s, |ps| - 1) <==> s == |line|
  {
    if s == |line| { assert Fits(End, line, s, s) && Lang(ps, line, s, |ps|); }
  }

  // doMatch, with suffixlen 0: exactly the language of the pattern from element k0 on.
  method DoMatch(ps: seq<Elem>, line: string, s0: nat, k0: nat) returns (b: bool)
    requires Compiled(ps) && Paired(ps) && s0 <= |line| && k0 < |ps|
    ensures b <==> Lang(ps, line, s0, k0)
    decreases |ps| - k0, 1
  {
    hide Fits;
    var s: nat, k: nat := s0, k0;
    while true
      invariant s <= |line| && k0 <= k < |ps|
      invariant Lang(ps, line, s0, k0) <==> Lang(ps, line, s, k)
      decreases |ps| - k
    {
      var e := ps[k];
      if e == AnySeq {
        if k == |ps| - 2 {
          TrailingAnySeq(ps, line, s, k);
          return true;
        }
        if k == |ps| - 3 && ps[k + 1].Literal? {
          TrailingAnySeqLiteral(ps, line, s, k);
          return EndsWith(line[s..], ps[k + 1].text);
        }
        b := MatchAnySeq(ps, line, s, k);
        return;
      } else if e == CommonSeq {
        b := MatchCommonSeq(ps, line, s, k);
        return;
      } else if e == End {
        AtEnd(ps, line, s);
        return s == |line|;
      }
      assert Paired([e]) by { assert [e] == ps[k..k + 1]; }
      var r := Consume(e, line, s);
      match r {
        case None =>
          Refused(ps, line, s, k);
          return false;
        case Some(j) =>
          Determined(ps, line, s, k, j);
          s, k := j, k + 1;
      }
    }
  }

  // The loop of setPattern.
  method Tokenize(patt: string, dottedpath: bool) returns (r: Result<seq<Elem>>)
    requires IsCString(patt)
    ensures r == TokensFrom(patt, 0, false, dottedpath)
  {
    hide TokenAt, TokensFrom;
    var pattern: seq<Elem>, s: nat, literal := [], 0, false;
    AfterNothing(TokensFrom(patt, 0, false, dottedpath));
    while s < |patt|
      invariant s <= |patt| && literal == (pattern != [] && pattern[|pattern| - 1].Literal?)
      invariant TokensFrom(patt, 0, false, dottedpath) == After(pattern, TokensFrom(patt, s, literal, dottedpath))
      decreases |patt| - s, if literal then 0 else 1
    {
      NextOfTokens(patt, s, literal, dottedpath);
      var t := NextToken(patt, s, literal, dottedpath);
      if t.Err? { return Err(t.error); }
      ghost var before := pattern;
      pattern := pattern + [t.value.elem];
      literal := t.value.elem.Literal?;
      s := t.value.next;
      AfterBoth(before, [t.value.elem], TokensFrom(patt, s, literal, dottedpath));
    }
    EndOfTokens(patt, literal, dottedpath);
    assert pattern + [] == pattern;
    r := Ok(pattern);
  }

  class PatternMatcher {
    var pattern: seq<Elem>

    ghost predicate Valid()
      reads this
    {
      Compiled(pattern) && Paired(pattern)
    }

    // Tokenizes the pattern, for all strings.
    method SetPattern(patt: string, dottedpath: bool, fullstring: bool) returns (r: Result<()>)
      requires IsCString(patt)
      modifies this
      ensures r.Ok? <==> TokensFrom(patt, 0, false, dottedpath).Ok?
      ensures r.Ok? <==> exists gs :: Proper(gs) && Render(gs) == patt
      ensures r.Ok? ==> Valid() && pattern == Compile(TokensFrom(patt, 0, false, dottedpath).value, fullstring)
      ensures r.Err? ==> r.error == TokensFrom(patt, 0, false, dottedpath).error
      ensures forall gs :: Proper(gs) && Render(gs) == patt ==>
                forall line :: InLanguage(pattern, line, 0, 0) <==> DescribeLine(gs, dottedpath, fullstring, line)
    {
      AcceptedIsWritten(patt, dottedpath);
      forall gs, line | Proper(gs) && Render(gs) == patt
        ensures InLanguage(Compile(TokensFrom(patt, 0, false, dottedpath).value, fullstring), line, 0, 0)
                <==> DescribeLine(gs, dottedpath, fullstring, line)
      {
        PatternMeansItsParts(gs, dottedpath, fullstring, line);
      }
      hide Proper, DescribeLine, InLanguage, TokensFrom, Render;
      pattern := [];
      var ts := Tokenize(patt, dottedpath);
      if ts.Err? { return Err(ts.error); }
      pattern := ts.value;
      TokensArePaired(patt, 0, false, dottedpath);
      CompileIsSound(pattern, fullstring);
      if !fullstring {
        if pattern == [] || pattern[|pattern| - 1] != AnySeq { pattern := pattern + [AnySeq]; }
        if pattern[0] != AnySeq { pattern := [AnySeq] + pattern; }
      }
      pattern := pattern + [End];
      return Ok(());
    }

    // matches, with its look at the last two characters: exactly the language of the pattern.
    method Matches(line: string) returns (b: bool)
      requires Valid()
      ensures b <==> InLanguage(pattern, line, 0, 0)
    {
      LangIsInLanguage(pattern, line, 0, 0);
      if |pattern| >= 2 && pattern[|pattern| - 2].Literal? {
        var t := pattern[|pattern| - 2].text;
        if |t| >= 2 && |line| >= 2
           && (line[|line| - 1] != t[|t| - 1] || line[|line| - 2] != t[|t| - 2]) {
          OtherEnding(pattern, line);
          return false;
        }
      }
      b := DoMatch(pattern, line, 0, 0);
    }
  }

  // The last two characters of the line are not those of the final literal.
  lemma OtherEnding(ps: seq<Elem>, line: string)
    requires Compiled(ps) && |ps| >= 2 && ps[|ps| - 2].Literal?
    requires var t := ps[|ps| - 2].text;
             |t| >= 2 && |line| >= 2 && (line[|line| - 1] != t[|t| - 1] || line[|line| - 2] != t[|t| - 2])
    ensures !Lang(ps, line, 0, 0)
  {
    var t := ps[|ps| - 2].text;
    assert !EndsWith(line, t) by {
      if |t| <= |line| {
        var u := line[|line| - |t|..];
        assert u[|t| - 1] == line[|line| - 1] && u[|t| - 2] == line[|line| - 2];
      }
    }
    if Lang(ps, line, 0, 0) {
      EndsInLastLiteral(ps, line, 0, 0);
    }
  }

  lemma {:induction false} TokensArePaired(p: string, i: nat, afterLiteral: bool, dotted: bool)
    requires i <= |p| && IsCString(p)
    ensures TokensFrom(p, i, afterLiteral, dotted).Ok? ==> Paired(TokensFrom(p, i, afterLiteral, dotted).value)
    decreases |p| - i, if afterLiteral then 0 else 1
  {
    if i < |p| {
      match TokenAt(p, i, afterLiteral, dotted)
      case Err(_) =>
      case Ok(t) =>
        TokensArePaired(p, t.next, t.elem.Literal?, dotted);
        SetIsPaired(p, i, afterLiteral, dotted);
    }
  }

  lemma SetIsPaired(p: string, i: nat, afterLiteral: bool, dotted: bool)
    requires i < |p| && IsCString(p)
    ensures TokenAt(p, i, afterLiteral, dotted).Ok? ==> Paired([TokenAt(p, i, afterLiteral, dotted).value.elem])
  {
  }

  lemma CompileIsSound(ts: seq<Elem>, fullstring: bool)
    requires Paired(ts) && forall k :: 0 <= k < |ts| ==> ts[k] != End
    ensures Compiled(Compile(ts, fullstring)) && Paired(Compile(ts, fullstring))
  {
  }

  // ----- what patterns mean -----

  // "If it does not contain wildcards, a simple strcmp might be faster": it is also equivalent.
  lemma PlainPatternMatchesItself(p: string, dotted: bool, line: string)
    requires IsCString(p) && !ContainsWildcards(p)
    ensures TokensFrom(p, 0, false, dotted).Ok?
    ensures InLanguage(Compile(TokensFrom(p, 0, false, dotted).value, true), line, 0, 0) <==> line == p
  {
    PlainPattern(p, dotted);
    var ts := TokensFrom(p, 0, false, dotted).value;
    LangIsInLanguage(Compile(ts, true), line, 0, 0);
    if p == [] {
      assert Compile(ts, true) == [End];
      LangOfEnd(line, 0);
    } else {
      assert Compile(ts, true) == [Literal(p), End];
      LangOfLiteral(p, line);
    }
  }

  // The failing input: the bracket of the pattern \[1..2] is escaped, and still the pattern means a number.
  lemma EscapedRangeIsARange(dotted: bool)
    ensures IsCString("\\[1..2]")
    ensures TokensFrom("\\[1..2]", 0, false, dotted) == Ok([Literal("["), NumRange(1, 2), Literal("]")])
    ensures var ps := Compile([Literal("["), NumRange(1, 2), Literal("]")], true);
            InLanguage(ps, "[1]", 0, 0) && !InLanguage(ps, "[1..2]", 0, 0)
  {
    EscapedRangeTokens(dotted);
    var ps := [Literal("["), NumRange(1, 2), Literal("]"), End];
    assert Compile([Literal("["), NumRange(1, 2), Literal("]")], true) == ps;
    EscapedRangeAccepts(ps);
    EscapedRangeRejects(ps);
  }

  lemma EscapedRangeTokens(dotted: bool)
    ensures IsCString("\\[1..2]")
    ensures TokensFrom("\\[1..2]", 0, false, dotted) == Ok([Literal("["), NumRange(1, 2), Literal("]")])
  {
    var p := "\\[1..2]";
    EscapedRangeRange(p);
    EscapedRangeEnd(p, dotted);
    hide NumRangeAt;
    assert TokenAt(p, 0, false, dotted) == Ok(Token(Literal("["), 1));
    assert TokenAt(p, 1, true, dotted) == Ok(Token(NumRange(1, 2), 6));
    assert [NumRange(1, 2)] + [Literal("]")] == [NumRange(1, 2), Literal("]")];
    assert [Literal("[")] + [NumRange(1, 2), Literal("]")] == [Literal("["), NumRange(1, 2), Literal("]")];
  }

  lemma EscapedRangeRange(p: string)
    requires p == "\\[1..2]"
    ensures IsCString(p) && NumRangeAt(p, 1, ']') == Some(Range(6, 1, 2))
  {
    assert DigitsEnd(p, 2) == 3 && DigitsEnd(p, 5) == 6;
    assert p[2..3] == "1" && p[5..6] == "2" && Number("1") == 1 && Number("2") == 2;
  }

  lemma EscapedRangeEnd(p: string, dotted: bool)
    requires p == "\\[1..2]" && IsCString(p)
    ensures TokensFrom(p, 6, false, dotted) == Ok([Literal("]")])
  {
    assert LiteralAt(p, 7) == Ok(Text([], 7));
    assert LiteralAt(p, 6) == Ok(Text("]", 7)) by { assert [p[6]] + [] == "]"; }
    assert TokenAt(p, 6, false, dotted) == Ok(Token(Literal("]"), 7));
    assert TokensFrom(p, 7, true, dotted) == Ok([]);
    assert [Literal("]")] + [] == [Literal("]")];
  }

  lemma EscapedRangeAccepts(ps: seq<Elem>)
    requires ps == [Literal("["), NumRange(1, 2), Literal("]"), End]
    ensures InLanguage(ps, "[1]", 0, 0)
  {
    var line, cuts := "[1]", [0, 1, 2, 3, 3];
    assert DigitsEnd(line, 1) == 2 && line[1..2] == "1" && Number("1") == 1;
    assert Piece(ps, line, 0, cuts, 0) && Piece(ps, line, 0, cuts, 1) && Piece(ps, line, 0, cuts, 2) && Piece(ps, line, 0, cuts, 3);
    assert Cuts(ps, line, 0, 0, cuts);
  }

  lemma EscapedRangeRejects(ps: seq<Elem>)
    requires ps == [Literal("["), NumRange(1, 2), Literal("]"), End]
    ensures !InLanguage(ps, "[1..2]", 0, 0)
  {
    var line := "[1..2]";
    assert DigitsEnd(line, 1) == 2 && line[1..2] == "1" && Number("1") == 1;
    assert line[0..1] == "[";
    forall j | 0 <= j <= |line| && Fits(ps[0], line, 0, j) ensures j == 1 { assert |line[0..j]| == j; }
    Determined(ps, line, 0, 0, 1);
    Determined(ps, line, 1, 1, 2);
    forall j | 2 <= j <= |line| ensures line[2..j] != "]" { assert j > 2 ==> line[2..j][0] == '.'; }
    Refused(ps, line, 2, 2);
    LangIsInLanguage(ps, line, 0, 0);
  }
}
