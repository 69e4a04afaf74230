/** Every pattern that the tokenizer accepts is written from parts. */
module PatternReading {
  import opened Options
  import opened Sequences
  import opened PatternTokens
  import opened PatternText

  // ----- number ranges -----

  lemma RangeExtends(s: string, rest: string, closing: char)
    requires BeginsRange(s, closing)
    ensures BeginsRange(s + rest, closing)
  {
    hide IsDigit;
    var d: nat, e: nat :| IsRange(s, closing, d, e);
    assert forall k :: 0 <= k < |s| ==> (s + rest)[k] == s[k];
    assert IsRange(s + rest, closing, d, e);
  }

  // Where there is a number range it is read.
  lemma RangeIsFound(p: string, i: nat, closing: char)
    requires i < |p| && IsCString(p) && closing != '\0' && !IsDigit(closing) && BeginsRange(p[i + 1..], closing)
    ensures NumRangeAt(p, i, closing).Some?
  {
    hide NumRangeAt, IsDigit, IsCString;
    var s := p[i + 1..];
    var d: nat, e: nat :| IsRange(s, closing, d, e);
    assert p[i + 1 + d] == s[d] && p[i + 1 + d + 1] == s[d + 1] && p[i + 1 + e] == s[e];
    forall k | i < k < i + 1 + e && k != i + 1 + d && k != i + 1 + d + 1 ensures IsDigit(p[k]) { assert p[k] == s[k - i - 1]; }
    RangeInPlace(p, i, closing, i + 1 + d, i + 1 + e);
  }

  lemma RangeInPlace(p: string, i: nat, closing: char, b: nat, e: nat)
    requires i < b && b + 2 <= e < |p| && IsCString(p) && closing != '\0' && !IsDigit(closing)
    requires p[b] == '.' && p[b + 1] == '.' && p[e] == closing
    requires forall k :: i < k < e && k != b && k != b + 1 ==> IsDigit(p[k])
    ensures NumRangeAt(p, i, closing).Some?
  {
    DigitsUpTo(p, i + 1, b);
    DigitsUpTo(p, b + 2, e);
    hide IsDigit;
  }

  lemma DigitsUpTo(p: string, a: nat, b: nat)
    requires a <= b < |p| && (forall k :: a <= k < b ==> IsDigit(p[k])) && !IsDigit(p[b])
    ensures DigitsEnd(p, a) == b
  {
    var e := DigitsEnd(p, a);
    assert e >= b;
  }

  lemma BoundFrom(p: string, i: nat, j: nat) returns (b: Option<Bound>)
    requires i <= j <= |p| && forall k :: i <= k < j ==> IsDigit(p[k])
    ensures p[i..j] == BoundText(b)
  {
    var s := p[i..j];
    if s == [] { return None; }
    forall k | 0 <= k < |s| ensures IsDigit(s[k]) { assert s[k] == p[i + k]; }
    var z := DigitsAreNumber(s);
    b := Some(Bound(z, Number(s)));
  }

  lemma RangeFrom(p: string, i: nat, closing: char) returns (lo: Option<Bound>, up: Option<Bound>)
    requires i < |p| && IsCString(p) && closing != '\0' && NumRangeAt(p, i, closing).Some?
    ensures p[i + 1..] == RangeText(lo, up) + p[NumRangeAt(p, i, closing).value.end..]
  {
    var b := DigitsEnd(p, i + 1);
    var e := DigitsEnd(p, b + 2);
    hide BoundText;
    lo := BoundFrom(p, i + 1, b);
    up := BoundFrom(p, b + 2, e);
    RangePieces(p, i + 1, b, e, lo, up);
  }

  lemma RangePieces(p: string, a: nat, b: nat, e: nat, lo: Option<Bound>, up: Option<Bound>)
    requires a <= b && b + 2 <= e <= |p| && p[b] == '.' && p[b + 1] == '.'
    requires p[a..b] == BoundText(lo) && p[b + 2..e] == BoundText(up)
    ensures p[a..] == RangeText(lo, up) + p[e..]
  {
    hide BoundText, RangeText;
    From(p, a, b);
    From(p, b, b + 2);
    From(p, b + 2, e);
    assert p[b..b + 2] == "..";
    RangeTextParts(lo, up, p[e..]);
  }

  lemma From(p: string, a: nat, b: nat)
    requires a <= b <= |p|
    ensures p[a..] == p[a..b] + p[b..]
  {
  }

  // ----- texts -----

  // Where a literal ends: at the end, in front of a wildcard, or at the bracket of a number range.
  ghost predicate Stops(p: string, i: nat)
    requires IsCString(p)
  {
    || i == |p| || (i < |p| && p[i] in {'?', '{', '*'})
    || (i < |p| && p[i] == '[' && NumRangeAt(p, i, ']').Some?)
  }

  predicate AtBracket(p: string, i: nat) {
    i < |p| && p[i] == '['
  }

  // Behind a literal that ends at next; the bracket of a number range belongs to it.
  function Past(p: string, next: nat): nat {
    if AtBracket(p, next) then next + 1 else next
  }

  lemma {:induction false} TextFrom(p: string, i: nat) returns (ts: seq<TextChar>)
    requires i <= |p| && IsCString(p) && LiteralAt(p, i).Ok?
    ensures var next := LiteralAt(p, i).value.next;
            && Stops(p, next) && p[i..] == SpelledAll(ts) + p[Past(p, next)..] && TextOk(ts)
            && (AtBracket(p, next) ==> ts != [] && ts[|ts| - 1].c == '[')
            && (CharAt(p, i) !in {'\0', '?', '{', '*'} ==> ts != [])
    decreases |p| - i
  {
    hide NumRangeAt, LiteralAt, BeginsRange, TextOk, SpelledAll, Spelled;
    if CharAt(p, i) in {'\0', '?', '{', '*'} {
      LiteralStops(p, i);
      NoText(p[i..]);
      return [];
    }
    LiteralPass(p, i);
    var escaped := p[i] == '\\';
    var j := if escaped then i + 1 else i;
    var head := TextChar(p[j], escaped);
    var next := LiteralAt(p, i).value.next;
    HeadOfText(p, i, j);
    if p[j] == '[' && NumRangeAt(p, j, ']').Some? {
      ts := [head];
      OneBracket(head);
    } else {
      var tail := TextFrom(p, j + 1);
      ts := [head] + tail;
      Assoc(Spelled(head), SpelledAll(tail), p[Past(p, next)..]);
      BracketBeginsNothing(p, j, SpelledAll(tail), p[Past(p, next)..]);
      TextOkMore(head, tail);
    }
  }

  lemma HeadOfText(p: string, i: nat, j: nat)
    requires i < |p| && j == (if p[i] == '\\' then i + 1 else i) && j < |p|
    ensures p[i..] == Spelled(TextChar(p[j], p[i] == '\\')) + p[j + 1..]
  {
    From(p, i, j + 1);
    assert p[i..j + 1] == Spelled(TextChar(p[j], p[i] == '\\'));
  }

  lemma NoText(rest: string)
    ensures TextOk([]) && rest == SpelledAll([]) + rest
  {
  }

  lemma TextOkMore(head: TextChar, tail: seq<TextChar>)
    requires TextOk(tail) && (!head.escaped ==> !IsSpecial(head.c))
    requires head.c == '[' ==> !BeginsRange(SpelledAll(tail), ']')
    ensures TextOk([head] + tail) && SpelledAll([head] + tail) == Spelled(head) + SpelledAll(tail)
  {
    hide BeginsRange, Spelled;
    assert ([head] + tail)[1..] == tail;
  }

  lemma OneBracket(head: TextChar)
    requires head.c == '['
    ensures TextOk([head]) && SpelledAll([head]) == Spelled(head)
  {
    assert [head][1..] == [];
    assert !BeginsRange([], ']');
  }

  lemma BracketBeginsNothing(p: string, j: nat, s: string, rest: string)
    requires IsCString(p) && j < |p| && p[j + 1..] == s + rest
    ensures p[j] == '[' && BeginsRange(s, ']') ==> NumRangeAt(p, j, ']').Some?
  {
    hide NumRangeAt, BeginsRange, IsDigit;
    if p[j] == '[' && BeginsRange(s, ']') {
      RangeExtends(s, rest, ']');
      BracketIsNoDigit();
      RangeIsFound(p, j, ']');
    }
  }

  // ----- sets -----

  lemma {:induction false} ItemsFrom(p: string, first: nat, i: nat) returns (xs: seq<Item>)
    requires first <= i <= |p| && RangesAt(p, first, i).Ok?
    ensures var next := RangesAt(p, first, i).value.next;
            && next < |p| && p[next] == '}' && p[i..] == ItemsText(xs) + p[next..]
            && ItemsOk(xs, i == first) && (i == first ==> xs != [])
    decreases |p| - i
  {
    hide ItemsOk, RangesAt, ItemText, ItemsText;
    if p[i] == '}' && i != first {
      NoItemsOk(p, first, i);
      return [];
    }
    var next := RangesAt(p, first, i).value.next;
    var head, j := HeadOfSet(p, first, i);
    var tail := ItemsFrom(p, first, j);
    xs := [head] + tail;
    ItemsTextMore(head, tail);
    Assoc(ItemText(head), ItemsText(tail), p[next..]);
    if head.One? && CharAt(p, j) == '-' {
      DashIsLast(p, first, i);
      assert |p[j..]| == |ItemsText(tail)| + |p[next..]|;
      OneCharacter(tail);
    }
    if tail != [] { FirstOfItems(tail, p[j..], p[next..]); }
    ItemsOkMore(head, tail, i == first);
  }

  // One pass of parseSet.
  lemma HeadOfSet(p: string, first: nat, i: nat) returns (head: Item, j: nat)
    requires first <= i < |p| && RangesAt(p, first, i).Ok? && (p[i] == '}' ==> i == first)
    ensures i < j <= |p| && RangesAt(p, first, j).Ok? && RangesAt(p, first, i).value.next == RangesAt(p, first, j).value.next
    ensures p[i..] == ItemText(head) + p[j..] && ItemText(head)[0] == p[i]
    ensures head.Span? ==> head.b != '}'
    ensures head.One? ==> j == i + 1 && (CharAt(p, j) == '-' && j + 1 < |p| ==> p[j + 1] == '}')
  {
    var isRange := CharAt(p, i + 1) == '-' && i + 2 < |p| && p[i + 2] != '}';
    head := if isRange then Span(p[i], p[i + 2]) else One(p[i]);
    j := if isRange then i + 3 else i + 1;
    RangesStep(p, first, i, j);
    hide RangesAt;
    From(p, i, j);
    assert p[i..j] == ItemText(head);
  }

  lemma RangesStep(p: string, first: nat, i: nat, j: nat)
    requires first <= i < |p| && RangesAt(p, first, i).Ok? && (p[i] == '}' ==> i == first)
    requires j == if CharAt(p, i + 1) == '-' && i + 2 < |p| && p[i + 2] != '}' then i + 3 else i + 1
    ensures RangesAt(p, first, j).Ok? && RangesAt(p, first, i).value.next == RangesAt(p, first, j).value.next
  {
  }

  lemma ItemsTextMore(head: Item, tail: seq<Item>)
    ensures ItemsText([head] + tail) == ItemText(head) + ItemsText(tail)
  {
    hide ItemText;
    assert ([head] + tail)[1..] == tail;
  }

  lemma FirstOfItems(xs: seq<Item>, s: string, rest: string)
    requires xs != [] && s == ItemsText(xs) + rest
    ensures s != [] && ItemText(xs[0])[0] == s[0]
  {
  }

  lemma NoItemsOk(p: string, first: nat, i: nat)
    requires first < i < |p| && p[i] == '}'
    ensures ItemsOk([], false) && RangesAt(p, first, i) == Ok(Text([], i)) && p[i..] == ItemsText([]) + p[i..]
  {
  }

  // A dash that makes no range is the last character.
  lemma DashIsLast(p: string, first: nat, i: nat)
    requires first <= i && i + 1 <= |p| && RangesAt(p, first, i + 1).Ok? && CharAt(p, i + 1) == '-'
    requires i + 2 < |p| ==> p[i + 2] == '}'
    ensures RangesAt(p, first, i + 1).value.next == i + 2
  {
  }

  lemma ItemsHaveText(xs: seq<Item>)
    requires xs != []
    ensures |ItemsText(xs)| > 0
  {
  }

  lemma OneCharacter(xs: seq<Item>)
    requires |ItemsText(xs)| == 1
    ensures |xs| == 1 && xs[0].One?
  {
    assert xs != [];
    if xs[1..] != [] { ItemsHaveText(xs[1..]); }
  }

  lemma ItemsOkMore(head: Item, tail: seq<Item>, first: bool)
    requires ItemsOk(tail, false) && (ItemText(head)[0] == '}' ==> first) && (head.Span? ==> head.b != '}')
    requires head.One? && tail != [] && ItemText(tail[0])[0] == '-' ==> |tail| == 1 && tail[0].One?
    ensures ItemsOk([head] + tail, first)
  {
    var xs := [head] + tail;
    assert xs[1..] == tail && xs[0] == head && (tail != [] ==> xs[1] == tail[0]);
  }

  lemma SetFrom(p: string, i: nat) returns (g: Part)
    requires i < |p| && p[i] == '{' && IsCString(p) && SetAt(p, i).Ok? && NumRangeAt(p, i, '}').None?
    ensures g.Set? && PartOk(g) && p[i..] == Written(g) + p[SetAt(p, i).value.next..]
  {
    hide NumRangeAt, RangesAt, ItemsOk, BeginsRange, ItemsText, ItemText, Written, IsCString;
    var negated := CharAt(p, i + 1) == '^' && i + 1 < |p|;
    var first := if negated then i + 2 else i + 1;
    var xs := ItemsFrom(p, first, first);
    var next := RangesAt(p, first, first).value.next;
    g := Set(negated, xs);
    SetPieces(p, i, negated, xs, next);
    if !negated {
      FirstOfItems(xs, p[first..], p[next..]);
      assert p[first..][0] == p[i + 1];
      SetBeginsNothing(p, i, ItemsText(xs) + "}", p[next + 1..]);
    }
  }

  lemma SetPieces(p: string, i: nat, negated: bool, xs: seq<Item>, next: nat)
    requires i < |p| && p[i] == '{' && (negated ==> i + 1 < |p| && p[i + 1] == '^') && next < |p| && p[next] == '}'
    requires p[if negated then i + 2 else i + 1..] == ItemsText(xs) + p[next..]
    ensures p[i..] == Written(Set(negated, xs)) + p[next + 1..]
    ensures !negated ==> p[i + 1..] == (ItemsText(xs) + "}") + p[next + 1..]
  {
    hide ItemsText, Written;
    var first := if negated then i + 2 else i + 1;
    From(p, i, first);
    From(p, next, next + 1);
    assert p[i..first] == if negated then "{^" else "{";
    assert p[next..next + 1] == "}";
    WrittenSet(negated, xs, p[next + 1..]);
    Assoc(ItemsText(xs), "}", p[next + 1..]);
  }

  lemma SetBeginsNothing(p: string, i: nat, s: string, rest: string)
    requires IsCString(p) && i < |p| && p[i + 1..] == s + rest && NumRangeAt(p, i, '}').None?
    ensures !BeginsRange(s, '}')
  {
    hide NumRangeAt, BeginsRange, IsDigit;
    if BeginsRange(s, '}') {
      RangeExtends(s, rest, '}');
      BracketIsNoDigit();
      RangeIsFound(p, i, '}');
    }
  }

  // ----- patterns -----

  // What is written at i, in front of the parts gs that are written behind it.
  ghost predicate ReadsAs(p: string, i: nat, after: bool, gs: seq<Part>) {
    && Follows(gs) && (IsIndex(gs) <==> after && AtBracket(p, i))
    && (gs != [] && gs[0].Plain? ==> !after)
    && i <= |p| && (IsIndex(gs) ==> i < |p|) && p[if IsIndex(gs) then i + 1 else i..] == Render(gs)
  }

  // Putting a part in front.
  lemma Prepend(p: string, i: nat, after: bool, g: Part, j: nat, gs: seq<Part>)
    requires ReadsAs(p, j, g.Plain?, gs) && PartOk(g) && Joins(g, gs) && (g.Plain? ==> !after) && i <= |p|
    requires IsIndex([g]) <==> after && AtBracket(p, i)
    requires p[if IsIndex([g]) then i + 1 else i..] == Written(g) + p[if IsIndex(gs) then j + 1 else j..]
    ensures ReadsAs(p, i, after, [g] + gs)
  {
    hide PartOk, Written, Joins;
    var all := [g] + gs;
    assert all[1..] == gs;
  }

  // What the first character says about the first part.
  lemma FirstPart(p: string, i: nat, gs: seq<Part>)
    requires ReadsAs(p, i, false, gs)
    ensures gs != [] && (gs[0].Star? || gs[0].DoubleStar?) ==> CharAt(p, i) == '*'
    ensures CharAt(p, i) == ']' ==> gs != [] && gs[0].Plain? && gs[0].chars != [] && gs[0].chars[0] == TextChar(']', false)
  {
    hide Render;
    if gs != [] {
      FrontOf(gs, []);
      assert Render(gs) + [] == Render(gs);
      assert p[i] == p[i..][0];
      if gs[0].Plain? { FirstOfText(gs, p[i]); }
    } else {
      assert p[i..] == [] by { NothingRendered(); }
    }
  }

  lemma NothingRendered()
    ensures Render([]) == []
  {
  }

  lemma FirstOfText(gs: seq<Part>, c: char)
    requires gs != [] && gs[0].Plain? && PartOk(gs[0]) && Render(gs) != [] && Render(gs)[0] == c
    ensures gs[0].chars != [] && (c == '\\' <==> gs[0].chars[0].escaped) && (!gs[0].chars[0].escaped ==> gs[0].chars[0].c == c)
  {
    TextOkRest(gs[0].chars);
  }

  lemma WildcardFrom(p: string, i: nat, after: bool, g: Part, rest: seq<Part>)
    requires g.Question? || g.Star? || g.DoubleStar?
    requires i + |Written(g)| <= |p| && p[i..i + |Written(g)|] == Written(g) && ReadsAs(p, i + |Written(g)|, false, rest)
    requires g.Star? ==> CharAt(p, i + 1) != '*'
    ensures ReadsAs(p, i, after, [g] + rest)
  {
    hide Follows, Render;
    var next := i + |Written(g)|;
    From(p, i, next);
    assert p[i] == Written(g)[0] by { assert p[i..next][0] == p[i]; }
    FirstPart(p, next, rest);
    Prepend(p, i, after, g, next, rest);
  }

  lemma BraceRangeFrom(p: string, i: nat, after: bool, rest: seq<Part>) returns (g: Part)
    requires i < |p| && p[i] == '{' && IsCString(p) && NumRangeAt(p, i, '}').Some?
    requires ReadsAs(p, NumRangeAt(p, i, '}').value.end + 1, false, rest)
    ensures ReadsAs(p, i, after, [g] + rest)
  {
    hide NumRangeAt, RangeText, Follows, Render, IsCString;
    var lo, up := RangeFrom(p, i, '}');
    var e := NumRangeAt(p, i, '}').value.end;
    g := Numbers(lo, up, false);
    var t, more := RangeText(lo, up), p[e + 1..];
    From(p, i, i + 1);
    From(p, e, e + 1);
    assert p[i..i + 1] == "{" && p[e..e + 1] == "}";
    assert ("{" + t + "}") + more == "{" + (t + ("}" + more));
    Prepend(p, i, after, g, e + 1, rest);
  }

  lemma BraceSetFrom(p: string, i: nat, after: bool, rest: seq<Part>) returns (g: Part)
    requires i < |p| && p[i] == '{' && IsCString(p) && NumRangeAt(p, i, '}').None? && SetAt(p, i).Ok?
    requires ReadsAs(p, SetAt(p, i).value.next, false, rest)
    ensures ReadsAs(p, i, after, [g] + rest)
  {
    hide NumRangeAt, SetAt, Follows, Render, IsCString, Written, PartOk;
    g := SetFrom(p, i);
    Prepend(p, i, after, g, SetAt(p, i).value.next, rest);
  }

  lemma IndexFrom(p: string, i: nat, rest: seq<Part>) returns (g: Part)
    requires i < |p| && p[i] == '[' && IsCString(p) && NumRangeAt(p, i, ']').Some?
    requires ReadsAs(p, NumRangeAt(p, i, ']').value.end, false, rest)
    ensures ReadsAs(p, i, true, [g] + rest)
  {
    hide NumRangeAt, RangeText, Follows, Render, IsCString;
    var lo, up := RangeFrom(p, i, ']');
    var e := NumRangeAt(p, i, ']').value.end;
    g := Numbers(lo, up, true);
    FirstPart(p, e, rest);
    Prepend(p, i, true, g, e, rest);
  }

  lemma PlainFrom(p: string, i: nat, rest: seq<Part>) returns (g: Part)
    requires i < |p| && p[i] !in {'?', '{', '*'} && IsCString(p) && LiteralAt(p, i).Ok?
    requires ReadsAs(p, LiteralAt(p, i).value.next, true, rest)
    ensures ReadsAs(p, i, false, [g] + rest)
  {
    hide LiteralAt, NumRangeAt, Follows, Render, SpelledAll, TextOk, Stops;
    var ts := TextFrom(p, i);
    g := Plain(ts);
    Prepend(p, i, false, g, LiteralAt(p, i).value.next, rest);
  }

  // The kinds of tokens.
  lemma PartFrom(p: string, i: nat, after: bool, dotted: bool, rest: seq<Part>) returns (g: Part)
    requires i < |p| && IsCString(p) && (after ==> Stops(p, i)) && TokenAt(p, i, after, dotted).Ok?
    requires ReadsAs(p, TokenAt(p, i, after, dotted).value.next, TokenAt(p, i, after, dotted).value.elem.Literal?, rest)
    ensures ReadsAs(p, i, after, [g] + rest)
  {
    hide NumRangeAt, SetAt, LiteralAt, ReadsAs, IsCString;
    if p[i] == '?' || p[i] == '*' {
      g := if p[i] == '?' then Question else if CharAt(p, i + 1) == '*' then DoubleStar else Star;
      assert i + |Written(g)| <= |p| && forall k :: 0 <= k < |Written(g)| ==> p[i + k] == Written(g)[k];
      assert p[i..i + |Written(g)|] == Written(g);
      WildcardFrom(p, i, after, g, rest);
    } else if p[i] == '{' {
      if NumRangeAt(p, i, '}').Some? { g := BraceRangeFrom(p, i, after, rest); } else { g := BraceSetFrom(p, i, after, rest); }
    } else if after {
      g := IndexFrom(p, i, rest);
    } else {
      g := PlainFrom(p, i, rest);
    }
  }

  lemma LiteralGoesOn(p: string, i: nat, after: bool, dotted: bool)
    requires i < |p| && IsCString(p) && TokenAt(p, i, after, dotted).Ok? && TokenAt(p, i, after, dotted).value.elem.Literal?
    ensures Stops(p, TokenAt(p, i, after, dotted).value.next)
  {
    hide NumRangeAt, LiteralAt, SpelledAll, TextOk, IsCString;
    if LiteralAt(p, i).Ok? { var ts := TextFrom(p, i); }
  }

  lemma NothingLeft(p: string, after: bool)
    ensures ReadsAs(p, |p|, after, [])
  {
    assert p[|p|..] == [];
  }

  // The tokenizer only accepts what is written from parts.
  lemma {:induction false} PartsFrom(p: string, i: nat, after: bool, dotted: bool) returns (gs: seq<Part>)
    requires i <= |p| && IsCString(p) && TokensFrom(p, i, after, dotted).Ok? && (after ==> Stops(p, i))
    ensures ReadsAs(p, i, after, gs)
    decreases |p| - i, if after then 0 else 1
  {
    hide TokenAt, TokensFrom, IsCString, ReadsAs, Stops;
    if i == |p| {
      NothingLeft(p, after);
      return [];
    }
    NextOfTokens(p, i, after, dotted);
    var t := TokenAt(p, i, after, dotted).value;
    if t.elem.Literal? { LiteralGoesOn(p, i, after, dotted); }
    var rest := PartsFrom(p, t.next, t.elem.Literal?, dotted);
    var g := PartFrom(p, i, after, dotted, rest);
    gs := [g] + rest;
  }

  // A pattern is accepted if and only if it is written from parts.
  lemma AcceptedIsWritten(p: string, dotted: bool)
    requires IsCString(p)
    ensures TokensFrom(p, 0, false, dotted).Ok? <==> exists gs :: Proper(gs) && Render(gs) == p
  {
    hide TokensFrom, Follows, Render;
    if TokensFrom(p, 0, false, dotted).Ok? {
      var gs := PartsFrom(p, 0, false, dotted);
      assert p[0..] == p;
      assert Proper(gs) && Render(gs) == p;
    }
    if gs :| Proper(gs) && Render(gs) == p { PatternIsItsParts(gs, dotted); }
  }
}
