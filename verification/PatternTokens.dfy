/** The tokenizer of src/util/PatternMatcher.cc, case-sensitive mode. A pattern is a C string:
    a sequence of characters other than NUL, with a NUL behind its end. */
module PatternTokens {
  import opened Options
  import opened Sequences

  // One element of the tokenized pattern. A bound of -1 in a number range means "unset".
  datatype Elem =
    | Literal(text: string)
    | AnyChar
    | CommonChar
    | InSet(ranges: string)
    | NotInSet(ranges: string)
    | NumRange(lo: int, up: int)
    | AnySeq
    | CommonSeq
    | End

  // A pattern that setPattern rejects, or that makes it read past the end of the string.
  datatype Failure = UnmatchedBrace | TrailingBackslash
  datatype Result<+T> = Ok(value: T) | Err(error: Failure)

  ghost predicate IsCString(s: string) {
    forall i :: 0 <= i < |s| ==> s[i] != '\0'
  }

  predicate IsDigit(c: char) { '0' <= c <= '9' }

  // The end of the maximal run of digits that begins at i.
  function DigitsEnd(s: string, i: nat): (j: nat)
    requires i <= |s|
    ensures i <= j <= |s|
    ensures forall k :: i <= k < j ==> IsDigit(s[k])
    ensures j < |s| ==> !IsDigit(s[j])
    decreases |s| - i
  {
    if i < |s| && IsDigit(s[i]) then DigitsEnd(s, i + 1) else i
  }

  // atol on a string of digits
  function Number(s: string): nat
    requires forall k :: 0 <= k < |s| ==> IsDigit(s[k])
  {
    if s == [] then 0 else
      assert IsDigit(s[|s| - 1]);
      10 * Number(s[..|s| - 1]) + (s[|s| - 1] as int - '0' as int)
  }

  function NumberOrUnset(s: string, i: nat, j: nat): int
    requires i <= j <= |s| && forall k :: i <= k < j ==> IsDigit(s[k])
  {
    if i == j then -1 else Number(s[i..j])
  }

  datatype Range = Range(end: nat, lo: int, up: int)

  // parseNumRange: "[n..m]" or "{n..m}" at i; on success end is the closing character.
  function NumRangeAt(p: string, i: nat, closing: char): (r: Option<Range>)
    requires i < |p| && IsCString(p) && closing != '\0'
    ensures r.Some? ==> i + 3 <= r.value.end < |p| && p[r.value.end] == closing
  {
    var a := i + 1;
    var b := DigitsEnd(p, a);
    if CharAt(p, b) != '.' || CharAt(p, b + 1) != '.' then None
    else
      var c := b + 2;
      var e := DigitsEnd(p, c);
      if CharAt(p, e) != closing then None
      else Some(Range(e, NumberOrUnset(p, a, b), NumberOrUnset(p, c, e)))
  }

  datatype Text = Text(text: string, next: nat)

  // parseLiteralString from i. A backslash takes the next character literally; a '[' that
  // opens a number range ends the literal but is not consumed.
  function LiteralAt(p: string, i: nat): (r: Result<Text>)
    requires i <= |p| && IsCString(p)
    ensures r.Ok? ==> i <= r.value.next <= |p|
    decreases |p| - i
  {
    if CharAt(p, i) in {'\0', '?', '{', '*'} then Ok(Text([], i))
    else if p[i] == '\\' && i + 1 == |p| then Err(TrailingBackslash)
    else
      var j := if p[i] == '\\' then i + 1 else i;
      if p[j] == '[' && NumRangeAt(p, j, ']').Some? then Ok(Text([p[j]], j))
      else match LiteralAt(p, j + 1)
        case Err(e) => Err(e)
        case Ok(t) => Ok(Text([p[j]] + t.text, t.next))
  }

  // The loop of parseSet from i, with the set beginning at first: ranges as pairs of characters.
  function RangesAt(p: string, first: nat, i: nat): (r: Result<Text>)
    requires first <= i <= |p|
    ensures r.Ok? ==> i <= r.value.next < |p| && |r.value.text| % 2 == 0
    decreases |p| - i
  {
    if i == |p| then Err(UnmatchedBrace)
    else if p[i] == '}' && i != first then Ok(Text([], i))
    else
      var isRange := CharAt(p, i + 1) == '-' && i + 2 < |p| && p[i + 2] != '}';
      var pair := if isRange then [p[i], p[i + 2]] else [p[i], p[i]];
      match RangesAt(p, first, if isRange then i + 3 else i + 1)
      case Err(e) => Err(e)
      case Ok(t) => Ok(Text(pair + t.text, t.next))
  }

  datatype Token = Token(elem: Elem, next: nat)

  // parseSet at the '{' at i.
  function SetAt(p: string, i: nat): (r: Result<Token>)
    requires i < |p|
    ensures r.Ok? ==> i < r.value.next <= |p| && (r.value.elem.InSet? || r.value.elem.NotInSet?)
  {
    var negated := CharAt(p, i + 1) == '^' && i + 1 < |p|;
    var first := if negated then i + 2 else i + 1;
    match RangesAt(p, first, first)
    case Err(e) => Err(e)
    case Ok(t) => Ok(Token(if negated then NotInSet(t.text) else InSet(t.text), t.next + 1))
  }

  // One pass of the loop of setPattern at i. A pass that consumes nothing yields the literal "["
  // in front of a number range, and cannot follow a literal.
  function TokenAt(p: string, i: nat, afterLiteral: bool, dotted: bool): (r: Result<Token>)
    requires i < |p| && IsCString(p)
    ensures r.Ok? ==> i <= r.value.next <= |p| && r.value.elem != End
    ensures r.Ok? && r.value.next == i ==> r.value.elem.Literal? && !afterLiteral
  {
    match p[i]
    case '?' => Ok(Token(if dotted then CommonChar else AnyChar, i + 1))
    case '*' =>
      if CharAt(p, i + 1) == '*' then Ok(Token(AnySeq, i + 2))
      else Ok(Token(if dotted then CommonSeq else AnySeq, i + 1))
    case '{' =>
      (match NumRangeAt(p, i, '}')
       case Some(r) => Ok(Token(NumRange(r.lo, r.up), r.end + 1))
       case None => SetAt(p, i))
    case _ =>
      if p[i] == '[' && afterLiteral && NumRangeAt(p, i, ']').Some? then
        var r := NumRangeAt(p, i, ']').value;
        Ok(Token(NumRange(r.lo, r.up), r.end))
      else match LiteralAt(p, i)
        case Err(e) => Err(e)
        case Ok(t) => Ok(Token(Literal(t.text), t.next))
  }

  // The whole loop of setPattern. It ends although a pass may consume nothing.
  function TokensFrom(p: string, i: nat, afterLiteral: bool, dotted: bool): (r: Result<seq<Elem>>)
    requires i <= |p| && IsCString(p)
    ensures r.Ok? ==> forall k :: 0 <= k < |r.value| ==> r.value[k] != End
    decreases |p| - i, if afterLiteral then 0 else 1
  {
    if i == |p| then Ok([])
    else match TokenAt(p, i, afterLiteral, dotted)
      case Err(e) => Err(e)
      case Ok(t) =>
        match TokensFrom(p, t.next, t.elem.Literal?, dotted)
        case Err(e) => Err(e)
        case Ok(rest) => Ok([t.elem] + rest)
  }

  // ----- one pass after another -----

  function Behind(front: string, r: Result<Text>): Result<Text> {
    match r
    case Err(e) => Err(e)
    case Ok(t) => Ok(Text(front + t.text, t.next))
  }

  // One pass of parseLiteralString.
  lemma LiteralPass(p: string, i: nat)
    requires i < |p| && IsCString(p) && p[i] !in {'?', '{', '*'}
    ensures p[i] == '\\' && i + 1 == |p| ==> LiteralAt(p, i) == Err(TrailingBackslash)
    ensures !(p[i] == '\\' && i + 1 == |p|) ==>
              var j := if p[i] == '\\' then i + 1 else i;
              LiteralAt(p, i) == if p[j] == '[' && NumRangeAt(p, j, ']').Some? then Ok(Text([p[j]], j))
                                 else Behind([p[j]], LiteralAt(p, j + 1))
  {
    hide NumRangeAt;
  }

  lemma LiteralStops(p: string, i: nat)
    requires i <= |p| && IsCString(p) && CharAt(p, i) in {'\0', '?', '{', '*'}
    ensures LiteralAt(p, i) == Ok(Text([], i))
  {
  }

  lemma BehindNothing(r: Result<Text>)
    ensures Behind([], r) == r
  {
    if r.Ok? { assert [] + r.value.text == r.value.text; }
  }

  lemma BehindBoth(a: string, b: string, r: Result<Text>)
    ensures Behind(a, Behind(b, r)) == Behind(a + b, r)
  {
    if r.Ok? { assert a + (b + r.value.text) == a + b + r.value.text; }
  }

  function After(front: seq<Elem>, r: Result<seq<Elem>>): Result<seq<Elem>> {
    match r
    case Err(e) => Err(e)
    case Ok(rest) => Ok(front + rest)
  }

  lemma NextOfTokens(p: string, i: nat, afterLiteral: bool, dotted: bool)
    requires i < |p| && IsCString(p)
    ensures TokensFrom(p, i, afterLiteral, dotted) == match TokenAt(p, i, afterLiteral, dotted)
                                                      case Err(e) => Err(e)
                                                      case Ok(t) => After([t.elem], TokensFrom(p, t.next, t.elem.Literal?, dotted))
  {
    hide TokenAt;
  }

  lemma EndOfTokens(p: string, afterLiteral: bool, dotted: bool)
    requires IsCString(p)
    ensures TokensFrom(p, |p|, afterLiteral, dotted) == Ok([])
  {
  }

  lemma AfterNothing(r: Result<seq<Elem>>)
    ensures After([], r) == r
  {
    if r.Ok? { assert [] + r.value == r.value; }
  }

  lemma AfterBoth(a: seq<Elem>, b: seq<Elem>, r: Result<seq<Elem>>)
    ensures After(a, After(b, r)) == After(a + b, r)
  {
    if r.Ok? { assert a + (b + r.value) == a + b + r.value; }
  }

  // For substring match, "**" at both ends unless already there.
  function Padded(ts: seq<Elem>): seq<Elem> {
    var behind := if ts == [] || ts[|ts| - 1] != AnySeq then ts + [AnySeq] else ts;
    if behind[0] != AnySeq then [AnySeq] + behind else behind
  }

  function Compile(ts: seq<Elem>, fullstring: bool): seq<Elem> {
    (if fullstring then ts else Padded(ts)) + [End]
  }

  // containsWildcards
  predicate ContainsWildcards(p: string) {
    '?' in p || '*' in p || '\\' in p || '{' in p || exists i :: 0 <= i < |p| - 1 && p[i] == '.' && p[i + 1] == '.'
  }

  // ----- patterns that are one literal -----

  // One pass of parseLiteralString over the character at j, which stands at i or behind a backslash at i.
  lemma LiteralStep(p: string, i: nat, j: nat, rest: string)
    requires IsCString(p) && i < |p| && p[i] !in {'?', '{', '*'}
    requires j == (if p[i] == '\\' then i + 1 else i) && j < |p|
    requires p[j] == '[' ==> NumRangeAt(p, j, ']') == None
    requires LiteralAt(p, j + 1) == Ok(Text(rest, |p|))
    ensures LiteralAt(p, i) == Ok(Text([p[j]] + rest, |p|))
  {
    hide NumRangeAt;
  }

  // The documentation says that a backslash takes away the special meaning of the next character. For a bracket
  // this fails if and only if a number range follows: then the literal is just the bracket, and ends in front
  // of it, where the next pass opens the range.
  lemma EscapedBracket(p: string, i: nat)
    requires IsCString(p) && i + 1 < |p| && p[i] == '\\' && p[i + 1] == '['
    ensures LiteralAt(p, i) == Ok(Text("[", i + 1)) <==> NumRangeAt(p, i + 1, ']').Some?
    ensures NumRangeAt(p, i + 1, ']').None? && LiteralAt(p, i).Ok? ==>
              LiteralAt(p, i).value.next >= i + 2 && LiteralAt(p, i).value.text[0] == '['
    ensures NumRangeAt(p, i + 1, ']').Some? ==>
              && TokenAt(p, i, false, true) == Ok(Token(Literal("["), i + 1))
              && TokenAt(p, i + 1, true, true).Ok? && TokenAt(p, i + 1, true, true).value.elem.NumRange?
  {
    hide NumRangeAt;
    assert [p[i + 1]] == "[";
  }

  // No number range opens where there are no two dots in a row.
  lemma NoRangeWithoutDots(p: string, j: nat)
    requires IsCString(p) && !ContainsWildcards(p) && j < |p|
    ensures NumRangeAt(p, j, ']') == None
  {
    var b := DigitsEnd(p, j + 1);
    assert !(b < |p| - 1 && p[b] == '.' && p[b + 1] == '.');
  }

  lemma PlainChar(p: string, i: nat)
    requires !ContainsWildcards(p) && i < |p|
    ensures p[i] !in {'?', '{', '*', '\\'}
  {
    assert p[i] in p;
  }

  lemma {:induction false} PlainLiteral(p: string, i: nat)
    requires IsCString(p) && !ContainsWildcards(p) && i <= |p|
    ensures LiteralAt(p, i) == Ok(Text(p[i..], |p|))
    decreases |p| - i
  {
    if i < |p| {
      hide ContainsWildcards, NumRangeAt;
      PlainChar(p, i);
      PlainLiteral(p, i + 1);
      NoRangeWithoutDots(p, i);
      LiteralStep(p, i, i, p[i + 1..]);
      assert p[i..] == [p[i]] + p[i + 1..];
    } else {
      assert p[i..] == [];
    }
  }

  // A pattern without wildcards is a single literal: itself.
  lemma PlainPattern(p: string, dotted: bool)
    requires IsCString(p) && !ContainsWildcards(p)
    ensures TokensFrom(p, 0, false, dotted) == Ok(if p == [] then [] else [Literal(p)])
  {
    if p != [] {
      assert p[0] in p;
      PlainLiteral(p, 0);
      assert p[0..] == p;
      assert TokenAt(p, 0, false, dotted) == Ok(Token(Literal(p), |p|));
      assert TokensFrom(p, |p|, true, dotted) == Ok([]);
      assert [Literal(p)] + [] == [Literal(p)];
    }
  }
}
