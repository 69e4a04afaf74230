/** Patterns as their author writes them: texts, wildcards, sets and number ranges. The tokenizer reads every
    such pattern back as its parts. */
module PatternText {
  import opened Options
  import opened Sequences
  import opened PatternTokens

  // A character of a text, with a backslash in front of it or not.
  datatype TextChar = TextChar(c: char, escaped: bool)

  // A member of a set: a character, or the characters from one to another.
  datatype Item = One(c: char) | Span(a: char, b: char)

  // A bound of a number range, with zeros in front.
  datatype Bound = Bound(zeros: nat, n: nat)

  // A number range is "{n..m}", or "n..m" between a text that ends in "[" and one that begins with "]".
  datatype Part =
    | Plain(chars: seq<TextChar>)
    | Question
    | Star
    | DoubleStar
    | Set(negated: bool, items: seq<Item>)
    | Numbers(lo: Option<Bound>, up: Option<Bound>, bracketed: bool)

  // ----- how parts are written -----

  function Spelled(x: TextChar): (r: string)
    ensures |r| > 0
  {
    if x.escaped then ['\\', x.c] else [x.c]
  }

  function SpelledAll(ts: seq<TextChar>): string {
    if ts == [] then [] else Spelled(ts[0]) + SpelledAll(ts[1..])
  }

  function ItemText(x: Item): (r: string)
    ensures |r| > 0
  {
    match x
    case One(c) => [c]
    case Span(a, b) => [a, '-', b]
  }

  function ItemsText(xs: seq<Item>): string {
    if xs == [] then [] else ItemText(xs[0]) + ItemsText(xs[1..])
  }

  function Decimal(n: nat): string {
    (if n < 10 then [] else Decimal(n / 10)) + ['0' + (n % 10) as char]
  }

  function Zeros(z: nat): (r: string)
    ensures |r| == z
  {
    seq(z, _ => '0')
  }

  function BoundText(b: Option<Bound>): string {
    match b case Some(m) => Zeros(m.zeros) + Decimal(m.n) case None => []
  }

  function RangeText(lo: Option<Bound>, up: Option<Bound>): string {
    BoundText(lo) + ".." + BoundText(up)
  }

  function Written(g: Part): string {
    match g
    case Plain(ts) => SpelledAll(ts)
    case Question => "?"
    case Star => "*"
    case DoubleStar => "**"
    case Set(negated, xs) => (if negated then "{^" else "{") + ItemsText(xs) + "}"
    case Numbers(lo, up, bracketed) => if bracketed then RangeText(lo, up) else "{" + RangeText(lo, up) + "}"
  }

  function Render(gs: seq<Part>): string {
    if gs == [] then [] else Written(gs[0]) + Render(gs[1..])
  }

  // ----- which parts can be written so -----

  predicate OpensBracket(g: Part) {
    g.Plain? && g.chars != [] && g.chars[|g.chars| - 1].c == '['
  }

  predicate IsIndex(gs: seq<Part>) {
    gs != [] && gs[0].Numbers? && gs[0].bracketed
  }

  predicate IsSpecial(c: char) {
    c == '?' || c == '{' || c == '*' || c == '\\'
  }

  // Digits, two dots at d, digits, and the closing character at e.
  predicate IsRange(s: string, closing: char, d: nat, e: nat) {
    d + 2 <= e < |s| && s[d] == '.' && s[d + 1] == '.' && s[e] == closing && forall k :: 0 <= k < e && k != d && k != d + 1 ==> IsDigit(s[k])
  }

  ghost predicate BeginsRange(s: string, closing: char) {
    exists d: nat, e: nat :: IsRange(s, closing, d, e)
  }

  // Only a backslash lets a text contain a wildcard, and no bracket in it begins a number range.
  ghost predicate TextOk(ts: seq<TextChar>) {
    ts != [] ==>
      && (!ts[0].escaped ==> !IsSpecial(ts[0].c))
      && (ts[0].c == '[' ==> !BeginsRange(SpelledAll(ts[1..]), ']'))
      && TextOk(ts[1..])
  }

  // A closing brace can only be the first character, and a dash behind a character only the last one.
  predicate ItemsOk(xs: seq<Item>, first: bool) {
    xs != [] ==>
      && (ItemText(xs[0])[0] == '}' ==> first)
      && (xs[0].Span? ==> xs[0].b != '}')
      && (xs[0].One? && |xs| > 1 && ItemText(xs[1])[0] == '-' ==> xs[1].One? && |xs| == 2)
      && ItemsOk(xs[1..], false)
  }

  ghost predicate PartOk(g: Part) {
    match g
    case Plain(ts) => ts != [] && TextOk(ts)
    case Set(negated, xs) =>
      && xs != [] && ItemsOk(xs, true)
      && (!negated ==> ItemText(xs[0])[0] != '^' && !BeginsRange(ItemsText(xs) + "}", '}'))
    case _ => true
  }

  // g may stand in front of the parts rest.
  predicate Joins(g: Part, rest: seq<Part>) {
    && (IsIndex(rest) ==> OpensBracket(g))
    && (g.Plain? && rest != [] ==> !rest[0].Plain?)
    && (g.Star? && rest != [] ==> !rest[0].Star? && !rest[0].DoubleStar?)
    && (g.Numbers? && g.bracketed ==>
          rest != [] && rest[0].Plain? && rest[0].chars != [] && rest[0].chars[0] == TextChar(']', false))
  }

  ghost predicate Follows(gs: seq<Part>) {
    gs != [] ==> PartOk(gs[0]) && Joins(gs[0], gs[1..]) && Follows(gs[1..])
  }

  ghost predicate Proper(gs: seq<Part>) {
    Follows(gs) && !IsIndex(gs) && IsCString(Render(gs))
  }

  // ----- the element of each part -----

  function Content(ts: seq<TextChar>): (r: string)
    ensures |r| == |ts| && forall k :: 0 <= k < |ts| ==> r[k] == ts[k].c
  {
    if ts == [] then [] else [ts[0].c] + Content(ts[1..])
  }

  function Pair(x: Item): (r: string)
    ensures |r| == 2
  {
    match x case One(c) => [c, c] case Span(a, b) => [a, b]
  }

  function Ends(xs: seq<Item>): (r: string)
    ensures |r| == 2 * |xs|
  {
    if xs == [] then [] else
      Pair(xs[0]) + Ends(xs[1..])
  }

  function BoundOf(b: Option<Bound>): int {
    match b case Some(m) => m.n case None => -1
  }

  function ElemOf(g: Part, dotted: bool): Elem {
    match g
    case Plain(ts) => Literal(Content(ts))
    case Question => if dotted then CommonChar else AnyChar
    case Star => if dotted then CommonSeq else AnySeq
    case DoubleStar => AnySeq
    case Set(negated, xs) => if negated then NotInSet(Ends(xs)) else InSet(Ends(xs))
    case Numbers(lo, up, _) => NumRange(BoundOf(lo), BoundOf(up))
  }

  function Elems(gs: seq<Part>, dotted: bool): (r: seq<Elem>)
    ensures |r| == |gs| && forall k :: 0 <= k < |gs| ==> r[k] == ElemOf(gs[k], dotted)
  {
    if gs == [] then [] else [ElemOf(gs[0], dotted)] + Elems(gs[1..], dotted)
  }

  // ----- number ranges -----

  lemma {:induction false} DecimalIsDigits(n: nat)
    ensures |Decimal(n)| > 0 && forall k :: 0 <= k < |Decimal(n)| ==> IsDigit(Decimal(n)[k])
  {
    if n >= 10 { DecimalIsDigits(n / 10); }
  }

  lemma {:induction false} NumberOfDecimal(n: nat)
    ensures (forall k :: 0 <= k < |Decimal(n)| ==> IsDigit(Decimal(n)[k])) && Number(Decimal(n)) == n
  {
    DecimalIsDigits(n);
    var s := Decimal(n);
    var init := s[..|s| - 1];
    if n >= 10 {
      NumberOfDecimal(n / 10);
      assert init == Decimal(n / 10);
    } else {
      assert init == [];
    }
  }

  // Zeros in front do not count.
  lemma {:induction false} LeadingZero(s: string)
    requires forall k :: 0 <= k < |s| ==> IsDigit(s[k])
    ensures (forall k :: 0 <= k < |s| + 1 ==> IsDigit((['0'] + s)[k])) && Number(['0'] + s) == Number(s)
  {
    var z := ['0'] + s;
    assert z[0] == '0' && forall k :: 1 <= k < |z| ==> z[k] == s[k - 1];
    if s == [] {
      assert z[..0] == [];
    } else {
      LeadingZero(s[..|s| - 1]);
      assert z[..|z| - 1] == ['0'] + s[..|s| - 1];
    }
  }

  lemma {:induction false} ZerosDoNotCount(z: nat, n: nat)
    ensures var s := Zeros(z) + Decimal(n); s != [] && (forall k :: 0 <= k < |s| ==> IsDigit(s[k])) && Number(s) == n
  {
    hide Decimal, Zeros, Number, IsDigit;
    NumberOfDecimal(n);
    DecimalIsDigits(n);
    if z == 0 {
      assert Zeros(0) == [] by { assert |Zeros(0)| == 0; }
      assert [] + Decimal(n) == Decimal(n);
    } else {
      ZerosDoNotCount(z - 1, n);
      var s := Zeros(z - 1) + Decimal(n);
      LeadingZero(s);
      ZeroMore(z);
      Assoc(['0'], Zeros(z - 1), Decimal(n));
    }
  }

  lemma ZeroMore(z: nat)
    requires z > 0
    ensures Zeros(z) == ['0'] + Zeros(z - 1)
  {
  }

  // Every text of digits is a number with zeros in front.
  lemma {:induction false} DigitsAreNumber(s: string) returns (z: nat)
    requires s != [] && forall k :: 0 <= k < |s| ==> IsDigit(s[k])
    ensures s == Zeros(z) + Decimal(Number(s))
  {
    hide Decimal, Zeros;
    var init, d := s[..|s| - 1], s[|s| - 1];
    assert IsDigit(d) && s == init + [d];
    z := 0;
    if init == [] {
      OneDigit(d);
    } else {
      z := DigitsAreNumber(init);
      AppendDigit(z, Number(init), d);
      assert Number(s) == 10 * Number(init) + (d as int - '0' as int);
      if Number(init) == 0 { z := z + 1; }
    }
  }

  lemma OneDigit(d: char)
    requires IsDigit(d)
    ensures [d] == Zeros(0) + Decimal(Number([d])) && Number([d]) == d as int - '0' as int
  {
    assert [d][..0] == [];
  }

  lemma AppendDigit(z: nat, n: nat, d: char)
    requires IsDigit(d)
    ensures var m := 10 * n + (d as int - '0' as int);
            (Zeros(z) + Decimal(n)) + [d] == Zeros(if n == 0 then z + 1 else z) + Decimal(m)
  {
    var v := d as int - '0' as int;
    if n == 0 {
      assert Decimal(0) == ['0'] && Decimal(v) == [d];
      assert Zeros(z) + ['0'] == Zeros(z + 1);
    } else {
      assert Decimal(10 * n + v) == Decimal(n) + [d];
      hide Decimal, Zeros;
      Assoc(Zeros(z), Decimal(n), [d]);
    }
  }

  lemma BoundIsRead(p: string, i: nat, j: nat, b: Option<Bound>)
    requires i <= j <= |p| && p[i..j] == BoundText(b) && (j < |p| ==> !IsDigit(p[j]))
    ensures DigitsEnd(p, i) == j && (forall k :: i <= k < j ==> IsDigit(p[k])) && NumberOrUnset(p, i, j) == BoundOf(b)
  {
    if b.Some? { ZerosDoNotCount(b.value.zeros, b.value.n); }
    forall k | i <= k < j ensures IsDigit(p[k]) {
      assert p[k] == p[i..j][k - i];
    }
    var e := DigitsEnd(p, i);
    assert e >= j;
  }

  lemma Assoc(a: string, b: string, c: string)
    ensures (a + b) + c == a + (b + c)
  {
  }

  lemma Front(p: string, i: nat, t: string)
    requires i <= |p| && p[i..] == t && t != []
    ensures i < |p| && p[i] == t[0]
  {
    assert p[i..][0] == p[i];
  }

  lemma Cut(p: string, i: nat, s: string, t: string)
    requires i <= |p| && p[i..] == s + t
    ensures i + |s| <= |p| && p[i..i + |s|] == s && p[i + |s|..] == t
  {
    Split(p, i, s, t);
  }

  lemma CutDots(p: string, i: nat, t: string)
    requires i <= |p| && p[i..] == ".." + t
    ensures i + 2 <= |p| && p[i] == '.' && p[i + 1] == '.' && p[i + 2..] == t
  {
    Split(p, i, "..", t);
    assert p[i + 0] == '.' && p[i + 1] == '.';
  }

  // Where the first of two pieces ends, the second begins.
  lemma Split(p: string, i: nat, s: string, t: string)
    requires i <= |p| && p[i..] == s + t
    ensures i + |s| <= |p| && p[i..i + |s|] == s && p[i + |s|..] == t
    ensures forall k :: 0 <= k < |s| ==> p[i + k] == s[k]
    ensures i + |s| < |p| <==> t != []
    ensures t != [] ==> p[i + |s|] == t[0]
  {
    var u := p[i..];
    assert u[..|s|] == s && u[|s|..] == t;
    assert p[i..i + |s|] == u[..|s|] && p[i + |s|..] == u[|s|..];
    forall k | 0 <= k < |s| ensures p[i + k] == s[k] { assert p[i + k] == u[k]; }
    if t != [] { assert p[i + |s|] == u[|s|]; }
  }

  lemma RangeTextParts(lo: Option<Bound>, up: Option<Bound>, rest: string)
    ensures RangeText(lo, up) + rest == BoundText(lo) + (".." + (BoundText(up) + rest))
  {
    hide BoundText;
    var l, u := BoundText(lo), BoundText(up);
    Assoc(l + "..", u, rest);
    Assoc(l, "..", u + rest);
  }

  lemma RangeTextLength(lo: Option<Bound>, up: Option<Bound>)
    ensures |RangeText(lo, up)| == |BoundText(lo)| + 2 + |BoundText(up)|
  {
  }

  lemma RangeIsRead(p: string, i: nat, lo: Option<Bound>, up: Option<Bound>, closing: char, rest: string)
    requires i < |p| && IsCString(p) && closing != '\0' && !IsDigit(closing)
    requires p[i + 1..] == RangeText(lo, up) + rest && rest != [] && rest[0] == closing
    ensures NumRangeAt(p, i, closing) == Some(Range(i + 1 + |RangeText(lo, up)|, BoundOf(lo), BoundOf(up)))
  {
    hide BoundText, BoundOf, NumRangeAt, IsDigit, IsCString, RangeText;
    var l, u := BoundText(lo), BoundText(up);
    var b := i + 1 + |l|;
    RangeTextParts(lo, up, rest);
    Cut(p, i + 1, l, ".." + (u + rest));
    CutDots(p, b, u + rest);
    Cut(p, b + 2, u, rest);
    Front(p, b + 2 + |u|, rest);
    RangeTextLength(lo, up);
    RangeWithBounds(p, i, b, b + 2 + |u|, lo, up, closing);
  }

  lemma RangeWithBounds(p: string, i: nat, b: nat, e: nat, lo: Option<Bound>, up: Option<Bound>, closing: char)
    requires i < b && b + 2 <= e < |p| && IsCString(p) && closing != '\0' && !IsDigit(closing)
    requires p[i + 1..b] == BoundText(lo) && p[b] == '.' && p[b + 1] == '.' && p[b + 2..e] == BoundText(up) && p[e] == closing
    ensures NumRangeAt(p, i, closing) == Some(Range(e, BoundOf(lo), BoundOf(up)))
  {
    hide BoundText, BoundOf, NumberOrUnset;
    BoundIsRead(p, i + 1, b, lo);
    BoundIsRead(p, b + 2, e, up);
  }

  // Nothing that begins with another character than a digit or a dot is a range.
  lemma NoRangeAhead(p: string, j: nat, closing: char)
    requires IsCString(p) && j < |p| && closing != '\0'
    requires j + 1 < |p| ==> !IsDigit(p[j + 1]) && p[j + 1] != '.'
    ensures NumRangeAt(p, j, closing) == None
  {
    assert DigitsEnd(p, j + 1) == j + 1;
  }

  // ----- texts -----

  // A text is read up to what follows, or up to its last bracket if that opens a number range.
  lemma {:induction false} TextIsRead(p: string, i: nat, ts: seq<TextChar>, rest: string, end: nat, r: Result<Text>)
    requires IsCString(p) && i <= |p| && p[i..] == SpelledAll(ts) + rest && TextOk(ts) && end == i + |SpelledAll(ts)|
    requires end <= |p|
    requires if rest != [] && (IsDigit(rest[0]) || rest[0] == '.')
             then ts != [] && ts[|ts| - 1].c == '[' && NumRangeAt(p, end - 1, ']').Some? && r == Ok(Text([], end - 1))
             else r == LiteralAt(p, end)
    requires rest != [] ==> rest[0] != ']'
    ensures LiteralAt(p, i) == Behind(Content(ts), r)
    decreases |ts|
  {
    hide LiteralAt, NumRangeAt, Behind, IsDigit, TextOk, IsCString;
    if ts == [] {
      BehindNothing(r);
    } else {
      var n, tail := |Spelled(ts[0])|, ts[1..];
      TextHead(p, i, ts, rest);
      if tail == [] && rest != [] && (IsDigit(rest[0]) || rest[0] == '.') {
        BracketEndsText(p, i, ts);
      } else {
        NoRangeInText(p, i + n - 1, ts, rest);
        TextGoesOn(p, i, ts);
        assert TextOk(tail) by { TextOkRest(ts); }
        TextIsRead(p, i + n, tail, rest, end, r);
        BehindBoth([ts[0].c], Content(tail), r);
      }
    }
  }

  lemma TextOkRest(ts: seq<TextChar>)
    requires ts != [] && TextOk(ts)
    ensures TextOk(ts[1..]) && (!ts[0].escaped ==> !IsSpecial(ts[0].c))
  {
    hide BeginsRange;
  }

  lemma TextHead(p: string, i: nat, ts: seq<TextChar>, rest: string)
    requires i <= |p| && ts != [] && p[i..] == SpelledAll(ts) + rest
    ensures var n := |Spelled(ts[0])|;
            && i + n <= |p| && p[i + n..] == SpelledAll(ts[1..]) + rest && p[i + n - 1] == ts[0].c
            && |SpelledAll(ts)| == n + |SpelledAll(ts[1..])| && p[i] == Spelled(ts[0])[0]
  {
    hide Spelled;
    var head, tail := Spelled(ts[0]), SpelledAll(ts[1..]);
    assert SpelledAll(ts) == head + tail;
    Assoc(head, tail, rest);
    FrontAndBack(p, i, head, tail + rest);
    SpelledEnd(ts[0]);
  }

  lemma SpelledEnd(x: TextChar)
    ensures Spelled(x)[|Spelled(x)| - 1] == x.c
  {
  }

  lemma FrontAndBack(p: string, i: nat, s: string, t: string)
    requires i <= |p| && s != [] && p[i..] == s + t
    ensures i + |s| <= |p| && p[i] == s[0] && p[i + |s| - 1] == s[|s| - 1] && p[i + |s|..] == t
  {
    Split(p, i, s, t);
    assert p[i + 0] == s[0] && p[i + (|s| - 1)] == s[|s| - 1];
  }

  lemma BracketEndsText(p: string, i: nat, ts: seq<TextChar>)
    requires IsCString(p) && |ts| == 1 && TextOk(ts) && ts[0].c == '['
    requires var n := |Spelled(ts[0])|; i + n <= |p| && p[i] == Spelled(ts[0])[0] && p[i + n - 1] == '[' && NumRangeAt(p, i + n - 1, ']').Some?
    ensures LiteralAt(p, i) == Behind(Content(ts), Ok(Text([], i + |Spelled(ts[0])| - 1)))
  {
    hide LiteralAt, NumRangeAt;
    LiteralPass(p, i);
    assert Content(ts) == "[" && "[" + [] == "[";
  }

  lemma TextGoesOn(p: string, i: nat, ts: seq<TextChar>)
    requires IsCString(p) && ts != [] && TextOk(ts)
    requires var n := |Spelled(ts[0])|;
             && i + n <= |p| && p[i] == Spelled(ts[0])[0] && p[i + n - 1] == ts[0].c
             && (ts[0].c == '[' ==> NumRangeAt(p, i + n - 1, ']') == None)
    ensures LiteralAt(p, i) == Behind([ts[0].c], LiteralAt(p, i + |Spelled(ts[0])|))
  {
    hide LiteralAt, NumRangeAt, Behind;
    TextOkRest(ts);
    LiteralPass(p, i);
  }

  lemma {:induction false} SpelledLast(ts: seq<TextChar>)
    requires ts != []
    ensures SpelledAll(ts) != [] && SpelledAll(ts)[|SpelledAll(ts)| - 1] == ts[|ts| - 1].c
  {
    if |ts| > 1 { SpelledLast(ts[1..]); } else { assert SpelledAll(ts[1..]) == []; }
  }

  lemma NoRangeInText(p: string, j: nat, ts: seq<TextChar>, rest: string)
    requires IsCString(p) && ts != [] && TextOk(ts) && j < |p| && p[j] == ts[0].c
    requires p[j + 1..] == SpelledAll(ts[1..]) + rest
    requires rest != [] ==> rest[0] != ']'
    requires rest != [] && (IsDigit(rest[0]) || rest[0] == '.') ==> |ts| > 1 && ts[|ts| - 1].c == '['
    ensures p[j] == '[' ==> NumRangeAt(p, j, ']') == None
  {
    hide NumRangeAt, BeginsRange, IsDigit;
    if p[j] == '[' && NumRangeAt(p, j, ']').Some? {
      RangeBegins(p, j, ']');
      if |ts| > 1 {
        SpelledLast(ts[1..]);
        BracketIsNoDigit();
      }
      RangeStaysInside(SpelledAll(ts[1..]), rest, ']');
    }
  }

  lemma BracketIsNoDigit()
    ensures !IsDigit('[') && !IsDigit(']') && !IsDigit('}')
  {
  }

  // Where a number range is read there is one.
  lemma RangeBegins(p: string, i: nat, closing: char)
    requires i < |p| && IsCString(p) && closing != '\0' && NumRangeAt(p, i, closing).Some?
    ensures BeginsRange(p[i + 1..], closing)
  {
    var b, e, s := DigitsEnd(p, i + 1), NumRangeAt(p, i, closing).value.end, p[i + 1..];
    forall k | 0 <= k < e - i - 1 && k != b - i - 1 && k != b - i ensures IsDigit(s[k]) { assert s[k] == p[i + 1 + k]; }
    assert s[b - i - 1] == p[b] && s[b - i] == p[b + 1] && s[e - i - 1] == p[e];
    assert IsRange(s, closing, b - i - 1, e - i - 1);
  }

  // A number range does not go on behind a character that it cannot contain.
  lemma RangeStaysInside(s: string, rest: string, closing: char)
    requires BeginsRange(s + rest, closing)
    requires || rest == [] || (!IsDigit(rest[0]) && rest[0] != '.' && rest[0] != closing)
             || (s != [] && !IsDigit(s[|s| - 1]) && s[|s| - 1] != '.')
    ensures BeginsRange(s, closing)
  {
    hide IsDigit;
    var d: nat, e: nat :| IsRange(s + rest, closing, d, e);
    assert rest != [] ==> (s + rest)[|s|] == rest[0];
    assert s != [] ==> (s + rest)[|s| - 1] == s[|s| - 1];
    assert e < |s|;
    assert forall k :: 0 <= k < |s| ==> (s + rest)[k] == s[k];
    assert IsRange(s, closing, d, e);
  }

  // ----- sets -----

  // The loop over a set stores the ends of its items.
  lemma {:induction false} ItemsAreRead(p: string, first: nat, i: nat, xs: seq<Item>, rest: string)
    requires first <= i <= |p| && p[i..] == ItemsText(xs) + ("}" + rest)
    requires ItemsOk(xs, i == first) && (xs == [] ==> i > first)
    ensures RangesAt(p, first, i) == Ok(Text(Ends(xs), i + |ItemsText(xs)|))
    decreases |xs|
  {
    hide RangesAt, Ends, ItemText;
    if xs == [] {
      NoItems(p, first, i, rest);
    } else {
      var tail := xs[1..];
      ItemHead(p, i, xs, rest);
      var n := i + |ItemText(xs[0])|;
      assert ItemsOk(tail, n == first);
      ItemsAreRead(p, first, n, tail, rest);
      ItemStep(p, first, i, xs, rest);
      PairInFront(xs, n + |ItemsText(tail)|);
    }
  }

  lemma NoItems(p: string, first: nat, i: nat, rest: string)
    requires first < i <= |p| && p[i..] == [] + ("}" + rest)
    ensures RangesAt(p, first, i) == Ok(Text(Ends([]), i))
  {
    Front(p, i, "}" + rest);
  }

  lemma ItemHead(p: string, i: nat, xs: seq<Item>, rest: string)
    requires i <= |p| && xs != [] && p[i..] == ItemsText(xs) + ("}" + rest)
    ensures var t := ItemText(xs[0]);
            && i + |t| <= |p| && p[i + |t|..] == ItemsText(xs[1..]) + ("}" + rest)
            && |ItemsText(xs)| == |t| + |ItemsText(xs[1..])| && forall k :: 0 <= k < |t| ==> p[i + k] == t[k]
  {
    hide ItemText;
    var head, tail := ItemText(xs[0]), ItemsText(xs[1..]);
    Assoc(head, tail, "}" + rest);
    Split(p, i, head, tail + ("}" + rest));
  }

  // One pass of the loop takes one item.
  lemma ItemStep(p: string, first: nat, i: nat, xs: seq<Item>, rest: string)
    requires xs != [] && first <= i && i + |ItemText(xs[0])| <= |p| && ItemsOk(xs, i == first)
    requires p[i + |ItemText(xs[0])|..] == ItemsText(xs[1..]) + ("}" + rest)
    requires forall k :: 0 <= k < |ItemText(xs[0])| ==> p[i + k] == ItemText(xs[0])[k]
    ensures RangesAt(p, first, i) == Behind(Pair(xs[0]), RangesAt(p, first, i + |ItemText(xs[0])|))
  {
    var t := ItemText(xs[0]);
    assert p[i + 0] == t[0];
    match xs[0]
    case One(c) => SingleIsNoRange(p, i, xs, rest);
    case Span(a, b) => assert p[i + 1] == t[1] && p[i + 2] == t[2];
  }

  lemma PairInFront(xs: seq<Item>, n: nat)
    requires xs != []
    ensures Behind(Pair(xs[0]), Ok(Text(Ends(xs[1..]), n))) == Ok(Text(Ends(xs), n))
  {
  }

  // A character that stands alone is not followed by a dash, unless the set ends behind the dash.
  lemma SingleIsNoRange(p: string, i: nat, xs: seq<Item>, rest: string)
    requires i < |p| && xs != [] && xs[0].One? && ItemsOk(xs, true)
    requires p[i + 1..] == ItemsText(xs[1..]) + ("}" + rest)
    ensures i + 1 < |p| && (p[i + 1] == '-' ==> i + 2 < |p| && p[i + 2] == '}')
  {
    assert p[i + 1..][0] == p[i + 1];
    if |xs| > 1 {
      assert ItemsText(xs[1..]) == ItemText(xs[1]) + ItemsText(xs[2..]) by { assert xs[1..][1..] == xs[2..]; }
      if p[i + 1] == '-' {
        assert ItemsText(xs[2..]) == [];
        assert p[i + 2] == p[i + 1..][1];
      }
    }
  }

  lemma SetIsNoRange(p: string, i: nat, t: string, rest: string)
    requires i < |p| && IsCString(p) && p[i + 1..] == (t + "}") + rest && !BeginsRange(t + "}", '}')
    ensures NumRangeAt(p, i, '}') == None
  {
    hide NumRangeAt, BeginsRange, IsDigit;
    if NumRangeAt(p, i, '}').Some? {
      RangeBegins(p, i, '}');
      BracketIsNoDigit();
      RangeStaysInside(t + "}", rest, '}');
    }
  }

  lemma WrittenSet(negated: bool, xs: seq<Item>, rest: string)
    ensures var open, t, w := if negated then "{^" else "{", ItemsText(xs), Written(Set(negated, xs));
            w + rest == open + (t + ("}" + rest)) && |w| == |open| + |t| + 1
  {
    hide ItemsText;
    var open, t := if negated then "{^" else "{", ItemsText(xs);
    Assoc(open + t, "}", rest);
    Assoc(open, t, "}" + rest);
  }

  lemma SetIsRead(p: string, i: nat, negated: bool, xs: seq<Item>, rest: string)
    requires IsCString(p) && PartOk(Set(negated, xs))
    requires i <= |p| && p[i..] == Written(Set(negated, xs)) + rest
    ensures i < |p| && NumRangeAt(p, i, '}') == None
    ensures SetAt(p, i) == Ok(Token(ElemOf(Set(negated, xs), true), i + |Written(Set(negated, xs))|))
  {
    hide NumRangeAt, RangesAt, BeginsRange, ItemsOk, ItemText, ItemsText, Written;
    WrittenSet(negated, xs, rest);
    var open, t := if negated then "{^" else "{", ItemsText(xs);
    Split(p, i, open, t + ("}" + rest));
    Split(p, i + |open|, t, "}" + rest);
    assert p[i + 0] == '{';
    SetBegins(p, i, negated, xs);
    ItemsAreRead(p, i + |open|, i + |open|, xs, rest);
    if negated {
      NoRangeAhead(p, i, '}');
    } else {
      assert t + ("}" + rest) == (t + "}") + rest by { Assoc(t, "}", rest); }
      SetIsNoRange(p, i, t, rest);
    }
  }

  lemma SetBegins(p: string, i: nat, negated: bool, xs: seq<Item>)
    requires PartOk(Set(negated, xs)) && i + (if negated then 2 else 1) + |ItemsText(xs)| <= |p|
    requires forall k :: 0 <= k < |ItemsText(xs)| ==> p[i + (if negated then 2 else 1) + k] == ItemsText(xs)[k]
    requires negated ==> p[i + 1] == '^'
    ensures ItemsText(xs) != [] && i + 1 < |p| && (p[i + 1] == '^' <==> negated)
  {
    if !negated { assert p[i + 1 + 0] == ItemsText(xs)[0] == ItemText(xs[0])[0]; }
  }

  function BehindCaret(u: string): string {
    if u != [] && u[0] == '^' then u[1..] else u
  }

  // The brace stays open: behind the first character there is no closing brace.
  ghost predicate Unclosed(u: string) {
    forall k :: 1 <= k < |BehindCaret(u)| ==> BehindCaret(u)[k] != '}'
  }

  lemma {:induction false} OpenSetFails(p: string, first: nat, i: nat)
    requires first <= i <= |p|
    ensures RangesAt(p, first, i).Err? <==> forall k :: i <= k < |p| && k != first ==> p[k] != '}'
    ensures RangesAt(p, first, i).Err? ==> RangesAt(p, first, i).error == UnmatchedBrace
    decreases |p| - i
  {
    if i < |p| && !(p[i] == '}' && i != first) {
      var isRange := CharAt(p, i + 1) == '-' && i + 2 < |p| && p[i + 2] != '}';
      OpenSetFails(p, first, if isRange then i + 3 else i + 1);
    }
  }

  // A set is refused exactly if its brace is not closed, where a brace right at the front does not count.
  lemma OpenSetIsRefused(p: string, i: nat)
    requires i < |p|
    ensures SetAt(p, i) == Err(UnmatchedBrace) <==> Unclosed(p[i + 1..])
    ensures SetAt(p, i).Err? ==> SetAt(p, i).error == UnmatchedBrace
  {
    hide RangesAt;
    var u := p[i + 1..];
    var negated := u != [] && u[0] == '^';
    assert negated <==> CharAt(p, i + 1) == '^' && i + 1 < |p|;
    var first := if negated then i + 2 else i + 1;
    var v := BehindCaret(u);
    assert v == p[first..];
    OpenSetFails(p, first, first);
    if Unclosed(u) {
      forall k | first <= k < |p| && k != first ensures p[k] != '}' { assert p[k] == v[k - first]; }
    }
    if forall k :: first <= k < |p| && k != first ==> p[k] != '}' {
      forall k | 1 <= k < |v| ensures v[k] != '}' { assert v[k] == p[first + k]; }
    }
  }

  // ----- the tokens of a pattern -----

  // Parts may be followed by something else: a brace, or behind other parts than texts also a text.
  predicate TailOk(gs: seq<Part>, tail: string) {
    gs != [] && tail != [] ==>
      && (gs[|gs| - 1].Plain? ==> tail[0] == '{')
      && (gs[|gs| - 1].Star? ==> tail[0] != '*')
  }

  // Where the token of the next part begins: a number range in brackets begins at its bracket.
  function TokenStart(i: nat, gs: seq<Part>): nat {
    if IsIndex(gs) && i > 0 then i - 1 else i
  }

  lemma RangeTextFirst(lo: Option<Bound>, up: Option<Bound>)
    ensures RangeText(lo, up) != [] && (IsDigit(RangeText(lo, up)[0]) || RangeText(lo, up)[0] == '.')
  {
    if lo.Some? { ZerosDoNotCount(lo.value.zeros, lo.value.n); }
  }

  lemma RenderHead(gs: seq<Part>, tail: string)
    requires gs != []
    ensures Render(gs) + tail == Written(gs[0]) + (Render(gs[1..]) + tail)
  {
    hide Written;
  }

  // What can stand at the front of parts.
  lemma FrontOf(gs: seq<Part>, tail: string)
    requires gs != [] && PartOk(gs[0])
    ensures var more := Render(gs) + tail;
            && more != [] && (gs[0].Star? || gs[0].DoubleStar? ==> more[0] == '*')
            && (gs[0].Question? ==> more[0] == '?') && (gs[0].Set? ==> more[0] == '{')
            && (gs[0].Numbers? ==> (more[0] == '{' <==> !gs[0].bracketed))
            && (gs[0].Numbers? && gs[0].bracketed ==> IsDigit(more[0]) || more[0] == '.')
            && (gs[0].Plain? ==> !(more[0] in {'?', '{', '*'}) && (!gs[0].chars[0].escaped ==> more[0] == gs[0].chars[0].c))
  {
    hide BoundText, BeginsRange, ItemsOk, ItemsText, RangeText;
    if gs[0].Numbers? { RangeTextFirst(gs[0].lo, gs[0].up); }
    if gs[0].Plain? { TextOkRest(gs[0].chars); }
  }

  lemma BracketBehind(gs: seq<Part>, tail: string)
    requires Follows(gs) && IsIndex(gs)
    ensures var more := Render(gs[1..]) + tail; more != [] && more[0] == ']'
  {
    hide PartOk, Render;
    FrontOf(gs[1..], tail);
  }

  // The number range between brackets is read where the text in front of it stops.
  lemma IndexIsRead(p: string, i: nat, gs: seq<Part>, tail: string)
    requires IsCString(p) && 0 < i <= |p| && p[i - 1] == '[' && p[i..] == Render(gs) + tail && Follows(gs) && IsIndex(gs)
    ensures NumRangeAt(p, i - 1, ']') == Some(Range(i + |Written(gs[0])|, BoundOf(gs[0].lo), BoundOf(gs[0].up)))
  {
    hide NumRangeAt, RangeText, BoundOf, PartOk, Render;
    var lo, up, more := gs[0].lo, gs[0].up, Render(gs[1..]) + tail;
    BracketBehind(gs, tail);
    RenderHead(gs, tail);
    RangeIsRead(p, i - 1, lo, up, ']', more);
  }

  lemma NothingBehindText(gs: seq<Part>, tail: string)
    requires gs != [] && gs[0].Plain? && Follows(gs) && TailOk(gs, tail) && !IsIndex(gs[1..])
    ensures var more := Render(gs[1..]) + tail; more == [] || more[0] in {'?', '{', '*'}
  {
    hide Written, BeginsRange, ItemsOk, TextOk;
    var rest := gs[1..];
    if rest != [] { FrontOf(rest, tail); } else { assert Render(rest) + tail == tail; }
  }

  // Where a text stops: at the end, in front of a wildcard, or at a bracket that opens a number range.
  lemma TextStops(p: string, e: nat, gs: seq<Part>, tail: string)
    requires IsCString(p) && gs != [] && gs[0].Plain? && Follows(gs) && TailOk(gs, tail)
    requires 0 < e <= |p| && p[e..] == Render(gs[1..]) + tail && p[e - 1] == gs[0].chars[|gs[0].chars| - 1].c
    ensures var more := Render(gs[1..]) + tail;
            if more != [] && (IsDigit(more[0]) || more[0] == '.')
            then IsIndex(gs[1..]) && p[e - 1] == '[' && NumRangeAt(p, e - 1, ']').Some?
            else !IsIndex(gs[1..]) && LiteralAt(p, e) == Ok(Text([], e))
    ensures var more := Render(gs[1..]) + tail; more != [] ==> more[0] != ']'
  {
    hide NumRangeAt, LiteralAt, PartOk, TailOk, Render;
    var rest, more := gs[1..], Render(gs[1..]) + tail;
    if IsIndex(rest) {
      IndexIsRead(p, e, rest, tail);
      FrontOf(rest, tail);
    } else {
      NothingBehindText(gs, tail);
      assert more != [] ==> p[e] == p[e..][0];
      LiteralStops(p, e);
    }
  }

  lemma TextToken(p: string, i: nat, gs: seq<Part>, tail: string, dotted: bool)
    requires IsCString(p) && gs != [] && gs[0].Plain? && Follows(gs) && TailOk(gs, tail)
    requires i <= |p| && p[i..] == SpelledAll(gs[0].chars) + (Render(gs[1..]) + tail)
    ensures var e := i + |SpelledAll(gs[0].chars)|;
            && i < |p| && i < e <= |p| && p[e - 1] == gs[0].chars[|gs[0].chars| - 1].c
            && TokenAt(p, i, false, dotted) == Ok(Token(Literal(Content(gs[0].chars)), TokenStart(e, gs[1..])))
  {
    hide NumRangeAt, LiteralAt, Content, SpelledAll, TokenAt, TailOk, Render, TextOk, IsCString;
    var ts, more, rest := gs[0].chars, Render(gs[1..]) + tail, gs[1..];
    var w := SpelledAll(ts);
    var e := i + |w|;
    Split(p, i, w, more);
    SpelledLast(ts);
    assert p[i + (|w| - 1)] == ts[|ts| - 1].c;
    TextStops(p, e, gs, tail);
    TextIsRead(p, i, ts, more, e, Ok(Text([], TokenStart(e, rest))));
    assert Content(ts) + [] == Content(ts);
    TextFirst(p, i, ts, more);
    LiteralToken(p, i, dotted);
  }

  lemma TextFirst(p: string, i: nat, ts: seq<TextChar>, more: string)
    requires i <= |p| && p[i..] == SpelledAll(ts) + more && ts != [] && TextOk(ts)
    ensures i < |p| && p[i] !in {'?', '{', '*'}
  {
    TextHead(p, i, ts, more);
    TextOkRest(ts);
  }

  lemma LiteralToken(p: string, i: nat, dotted: bool)
    requires IsCString(p) && i < |p| && p[i] !in {'?', '{', '*'}
    ensures TokenAt(p, i, false, dotted) == match LiteralAt(p, i) case Err(e) => Err(e) case Ok(t) => Ok(Token(Literal(t.text), t.next))
  {
    hide NumRangeAt, LiteralAt;
  }

  lemma StarToken(p: string, i: nat, gs: seq<Part>, tail: string, after: bool, dotted: bool)
    requires IsCString(p) && gs != [] && gs[0].Star? && Follows(gs) && TailOk(gs, tail)
    requires i <= |p| && p[i..] == "*" + (Render(gs[1..]) + tail)
    ensures i < |p| && TokenAt(p, i, after, dotted) == Ok(Token(if dotted then CommonSeq else AnySeq, i + 1))
  {
    hide Written, BeginsRange, ItemsOk, TextOk;
    var rest := gs[1..];
    var more := Render(rest) + tail;
    Split(p, i, "*", more);
    assert p[i + 0] == '*';
    if rest != [] { FrontOf(rest, tail); } else { assert more == tail; }
  }

  lemma IndexToken(p: string, i: nat, gs: seq<Part>, tail: string, dotted: bool)
    requires IsCString(p) && 0 < i <= |p| && p[i - 1] == '[' && p[i..] == Render(gs) + tail && Follows(gs) && IsIndex(gs)
    ensures TokenAt(p, i - 1, true, dotted) ==
            Ok(Token(NumRange(BoundOf(gs[0].lo), BoundOf(gs[0].up)), i + |Written(gs[0])|))
  {
    hide NumRangeAt, Written, Follows;
    IndexIsRead(p, i, gs, tail);
  }

  lemma WildcardToken(p: string, i: nat, g: Part, more: string, after: bool, dotted: bool)
    requires IsCString(p) && i <= |p| && p[i..] == Written(g) + more && (g.Question? || g.DoubleStar?)
    ensures i < |p| && TokenAt(p, i, after, dotted) == Ok(Token(ElemOf(g, dotted), i + |Written(g)|))
  {
    Split(p, i, Written(g), more);
    assert p[i + 0] == Written(g)[0];
  }

  // Parts whose token does not depend on what stands around them.
  lemma OtherToken(p: string, i: nat, g: Part, more: string, after: bool, dotted: bool)
    requires IsCString(p) && i <= |p| && p[i..] == Written(g) + more && PartOk(g)
    requires !g.Plain? && !g.Star? && !(g.Numbers? && g.bracketed)
    ensures i < |p| && TokenAt(p, i, after, dotted) == Ok(Token(ElemOf(g, dotted), i + |Written(g)|))
  {
    hide TokenAt, Written, PartOk, ElemOf;
    match g
    case Set(negated, xs) => SetToken(p, i, negated, xs, more, after, dotted);
    case Numbers(lo, up, _) => BraceToken(p, i, lo, up, more, after, dotted);
    case _ => WildcardToken(p, i, g, more, after, dotted);
  }

  lemma SetToken(p: string, i: nat, negated: bool, xs: seq<Item>, more: string, after: bool, dotted: bool)
    requires var g := Set(negated, xs); IsCString(p) && i <= |p| && p[i..] == Written(g) + more && PartOk(g)
    ensures var g := Set(negated, xs); i < |p| && TokenAt(p, i, after, dotted) == Ok(Token(ElemOf(g, dotted), i + |Written(g)|))
  {
    hide NumRangeAt, SetAt, PartOk, IsCString;
    var g := Set(negated, xs);
    SetIsRead(p, i, negated, xs, more);
    Split(p, i, Written(g), more);
    assert p[i + 0] == '{';
  }

  lemma BraceToken(p: string, i: nat, lo: Option<Bound>, up: Option<Bound>, more: string, after: bool, dotted: bool)
    requires IsCString(p) && i <= |p| && p[i..] == Written(Numbers(lo, up, false)) + more
    ensures var g := Numbers(lo, up, false); i < |p| && TokenAt(p, i, after, dotted) == Ok(Token(ElemOf(g, dotted), i + |Written(g)|))
  {
    hide NumRangeAt, RangeText, IsCString;
    var t := RangeText(lo, up);
    assert "{" + t + "}" + more == "{" + (t + ("}" + more));
    Cut(p, i, "{", t + ("}" + more));
    Front(p, i, "{" + (t + ("}" + more)));
    RangeIsRead(p, i, lo, up, '}', "}" + more);
  }

  // The pass of the tokenizer over the first of the parts.
  lemma PartIsRead(p: string, i: nat, gs: seq<Part>, tail: string, after: bool, dotted: bool)
    requires IsCString(p) && i <= |p| && gs != [] && p[i..] == Render(gs) + tail && Follows(gs) && TailOk(gs, tail)
    requires gs[0].Plain? ==> !after
    requires IsIndex(gs) ==> after && i > 0 && p[i - 1] == '['
    ensures var e := i + |Written(gs[0])|;
            && TokenStart(i, gs) < |p| && e <= |p| && p[e..] == Render(gs[1..]) + tail
            && TokenAt(p, TokenStart(i, gs), after, dotted) == Ok(Token(ElemOf(gs[0], dotted), TokenStart(e, gs[1..])))
            && (IsIndex(gs[1..]) ==> e > 0 && p[e - 1] == '[')
  {
    hide IsCString, TokenAt, Content, Ends, RangeText, PartOk, SpelledAll, TailOk, Render;
    var w, more := Written(gs[0]), Render(gs[1..]) + tail;
    RenderHead(gs, tail);
    Cut(p, i, w, more);
    if gs[0].Plain? {
      TextToken(p, i, gs, tail, dotted);
    } else if gs[0].Star? {
      StarToken(p, i, gs, tail, after, dotted);
    } else if IsIndex(gs) {
      IndexToken(p, i, gs, tail, dotted);
    } else {
      OtherToken(p, i, gs[0], more, after, dotted);
    }
  }

  // Tokenizing parts gives their elements, and then what follows them gives.
  lemma {:induction false} TokensOf(p: string, i: nat, gs: seq<Part>, tail: string, after: bool, dotted: bool, at: nat, r: Result<seq<Elem>>)
    requires IsCString(p) && i <= |p| && p[i..] == Render(gs) + tail && Follows(gs) && TailOk(gs, tail)
    requires gs != [] && gs[0].Plain? ==> !after
    requires IsIndex(gs) ==> after && i > 0 && p[i - 1] == '['
    requires at + |tail| == |p| && forall b :: TokensFrom(p, at, b, dotted) == r
    ensures TokenStart(i, gs) <= |p| && TokensFrom(p, TokenStart(i, gs), after, dotted) == After(Elems(gs, dotted), r)
    decreases |gs|
  {
    hide TokenAt, TokensFrom, ElemOf, Written, PartOk, NumRangeAt;
    if gs == [] {
      assert p[i..] == tail;
      AfterNothing(r);
    } else {
      var e, rest := i + |Written(gs[0])|, gs[1..];
      PartIsRead(p, i, gs, tail, after, dotted);
      NextOfTokens(p, TokenStart(i, gs), after, dotted);
      TailOkRest(gs, tail);
      var isText := ElemOf(gs[0], dotted).Literal?;
      assert isText <==> gs[0].Plain? by { TextIsLiteral(gs[0], dotted); }
      TokensOf(p, e, rest, tail, isText, dotted, at, r);
      AfterBoth([ElemOf(gs[0], dotted)], Elems(rest, dotted), r);
    }
  }

  lemma TailOkRest(gs: seq<Part>, tail: string)
    requires gs != [] && TailOk(gs, tail)
    ensures TailOk(gs[1..], tail)
  {
  }

  lemma TextIsLiteral(g: Part, dotted: bool)
    ensures ElemOf(g, dotted).Literal? <==> g.Plain?
  {
  }

  // A pattern is read as exactly the parts it is written from.
  lemma PatternIsItsParts(gs: seq<Part>, dotted: bool)
    requires Proper(gs)
    ensures TokensFrom(Render(gs), 0, false, dotted) == Ok(Elems(gs, dotted))
  {
    hide Follows, TokensFrom, Render, Elems;
    var p := Render(gs);
    assert p[0..] == p + [];
    forall b ensures TokensFrom(p, |p|, b, dotted) == Ok([]) { EndOfTokens(p, b, dotted); }
    TokensOf(p, 0, gs, [], false, dotted, |p|, Ok([]));
    assert Elems(gs, dotted) + [] == Elems(gs, dotted);
  }

  // ----- patterns that are refused -----

  // Behind any parts, a brace that is not closed.
  lemma UnclosedBraceIsRefused(gs: seq<Part>, u: string, dotted: bool)
    requires Follows(gs) && !IsIndex(gs) && IsCString(Render(gs) + ("{" + u)) && Unclosed(u)
    ensures TokensFrom(Render(gs) + ("{" + u), 0, false, dotted) == Err(UnmatchedBrace)
  {
    hide Follows, TokensFrom, Render, Elems, Unclosed;
    var tail := "{" + u;
    var p := Render(gs) + tail;
    var at := |Render(gs)|;
    assert p[0..] == p && p[at..] == tail && p[at] == '{' && p[at + 1..] == u;
    forall b ensures TokensFrom(p, at, b, dotted) == Err(UnmatchedBrace) { OpenBraceToken(p, at, b, dotted); }
    TokensOf(p, 0, gs, tail, false, dotted, at, Err(UnmatchedBrace));
  }

  lemma OpenBraceToken(p: string, i: nat, after: bool, dotted: bool)
    requires IsCString(p) && i < |p| && p[i] == '{' && Unclosed(p[i + 1..])
    ensures TokensFrom(p, i, after, dotted) == Err(UnmatchedBrace)
  {
    hide NumRangeAt, SetAt, Unclosed;
    OpenSetIsRefused(p, i);
    NoRangeUnclosed(p, i);
  }

  lemma NoRangeUnclosed(p: string, i: nat)
    requires IsCString(p) && i < |p| && Unclosed(p[i + 1..])
    ensures NumRangeAt(p, i, '}') == None
  {
    var u := p[i + 1..];
    if u != [] && u[0] == '^' {
      assert p[i + 1] == u[0];
      NoRangeAhead(p, i, '}');
    } else {
      forall k | i + 3 <= k < |p| ensures p[k] != '}' { assert p[k] == BehindCaret(u)[k - i - 1]; }
    }
  }

  // Behind parts that end in no text, a text with a lone backslash at its end.
  lemma LoneBackslashIsRefused(gs: seq<Part>, ts: seq<TextChar>, dotted: bool)
    requires Follows(gs) && !IsIndex(gs) && (gs != [] ==> !gs[|gs| - 1].Plain?) && TextOk(ts)
    requires IsCString(Render(gs) + (SpelledAll(ts) + "\\"))
    ensures TokensFrom(Render(gs) + (SpelledAll(ts) + "\\"), 0, false, dotted) == Err(TrailingBackslash)
  {
    hide Follows, TokensFrom, Render, Elems, TextOk;
    var tail := SpelledAll(ts) + "\\";
    var p := Render(gs) + tail;
    var at := |Render(gs)|;
    assert p[0..] == p && p[at..] == tail;
    forall b ensures TokensFrom(p, at, b, dotted) == Err(TrailingBackslash) { BackslashToken(p, at, ts, b, dotted); }
    assert tail[0] != '*' by { BackslashFront(ts); }
    TokensOf(p, 0, gs, tail, false, dotted, at, Err(TrailingBackslash));
  }

  lemma BackslashFront(ts: seq<TextChar>)
    requires TextOk(ts)
    ensures var tail := SpelledAll(ts) + "\\"; tail[0] !in {'?', '{', '*'} && (tail[0] == '[' ==> ts != [] && ts[0] == TextChar('[', false))
  {
    if ts != [] { TextOkRest(ts); }
  }

  lemma BackslashToken(p: string, i: nat, ts: seq<TextChar>, after: bool, dotted: bool)
    requires IsCString(p) && i < |p| && p[i..] == SpelledAll(ts) + "\\" && TextOk(ts)
    ensures TokensFrom(p, i, after, dotted) == Err(TrailingBackslash)
  {
    hide NumRangeAt, LiteralAt, TextOk, SpelledAll, IsCString;
    var end := i + |SpelledAll(ts)|;
    Split(p, i, SpelledAll(ts), "\\");
    assert |p| == end + 1 by { assert |p[end..]| == 1; }
    BackslashEnds(p);
    TextIsRead(p, i, ts, "\\", end, Err(TrailingBackslash));
    BackslashFront(ts);
    assert p[i] == p[i..][0];
    if p[i] == '[' {
      TextHead(p, i, ts, "\\");
      NoRangeInText(p, i, ts, "\\");
    }
  }

  lemma BackslashEnds(p: string)
    requires IsCString(p) && p != [] && p[|p| - 1] == '\\'
    ensures LiteralAt(p, |p| - 1) == Err(TrailingBackslash)
  {
  }
}
