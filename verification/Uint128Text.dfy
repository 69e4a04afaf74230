/** Printing and parsing of 128-bit integers (toString and set of src/util/uint128.cc). */
module Uint128Text {
  import opened Bits
  import opened Uint128s
  import opened Options
  import opened Sequences

  // ----- printing -----

  function DigitChar(d: nat): char
    requires d < 37
  {
    if d > 9 then ('A' as int - 10 + d) as char else ('0' as int + d) as char
  }

  // The digits of v, most significant first; none for zero.
  function Digits(v: nat, radix: nat): string
    requires 2 <= radix <= 37
  {
    if v == 0 then []
    else
      DivSmaller(v, radix);
      Digits(v / radix, radix) + [DigitChar(v % radix)]
  }

  lemma DivSmaller(v: nat, radix: nat)
    requires v > 0 && radix >= 2
    ensures 0 <= v / radix && 2 * (v / radix) <= v && v / radix < v && 0 <= v % radix < radix
  {
    assert v == v / radix * radix + v % radix;
    DivShrinks(v, radix);
    MulMono(2, radix, v / radix);
  }

  function Print(v: nat, radix: nat): string {
    if v == 0 then "0"
    else if radix < 2 || radix > 37 then "(invalid radix)"
    else Digits(v, radix)
  }

  // toString. The buffer of 256 characters never runs full: i stays above 0.
  method ToString(x: Uint128, radix: nat) returns (s: string)
    requires x.Valid() && radix < W
    ensures s == Print(x.V(), radix)
  {
    if x.lo == 0 && x.hi == 0 { return "0"; }
    if radix < 2 || radix > 37 { return "(invalid radix)"; }
    var ii := new Uint128(x.lo, x.hi);
    var aux := new Uint128(radix, 0);
    var i := 255;
    s := [];
    Pow2Values();
    JoinBound(x.lo, x.hi);
    assert Digits(x.V(), radix) == Digits(ii.V(), radix) + s;
    hide Pow2, Digits;
    while !(ii.lo == 0 && ii.hi == 0) && i != 0
      invariant ii.Valid() && aux.Valid() && aux.V() == radix && 127 <= i <= 255
      invariant ii.V() < Pow2(i - 127)
      invariant Digits(x.V(), radix) == Digits(ii.V(), radix) + s
      decreases i
    {
      BufferLasts(ii.V(), i, radix);
      PrintStep(ii.V(), radix, s);
      var c;
      ii, c := NextDigit(ii, aux, radix);
      i := i - 1;
      s := [DigitChar(c)] + s;
    }
    NoDigits(radix);
  }

  lemma NoDigits(radix: nat)
    requires 2 <= radix <= 37
    ensures Digits(0, radix) == []
  {
  }

  lemma BufferLasts(v: nat, i: nat, radix: nat)
    requires v > 0 && 127 <= i && v < Pow2(i - 127) && 2 <= radix
    ensures i > 127 && v / radix < Pow2(i - 1 - 127)
  {
    if i == 127 { Pow2Zero(); } else { Pow2Step(i - 128); }
    DivSmaller(v, radix);
  }

  method NextDigit(ii: Uint128, aux: Uint128, radix: nat) returns (q: Uint128, c: nat)
    requires ii.Valid() && aux.Valid() && aux.V() == radix && 2 <= radix <= 37
    ensures q.Valid() && q.V() == ii.V() / radix && c == ii.V() % radix && fresh(q)
  {
    hide Join;
    var r := new Uint128(0, 0);
    q := ii.Div(aux, r);
    RemainderFits(r.lo, r.hi, ii.V() % radix);
    c := r.lo % 0x1_0000_0000;
  }

  lemma Append3(a: string, b: string, c: string)
    ensures a + b + c == a + (b + c)
  {
  }

  lemma PrintStep(v: nat, radix: nat, s: string)
    requires v > 0 && 2 <= radix <= 37
    ensures 0 <= v / radix && 0 <= v % radix < radix && 2 * (v / radix) <= v
    ensures Digits(v, radix) + s == Digits(v / radix, radix) + ([DigitChar(v % radix)] + s)
  {
    DivSmaller(v, radix);
    Append3(Digits(v / radix, radix), [DigitChar(v % radix)], s);
  }

  lemma RemainderFits(lo: nat, hi: nat, c: nat)
    requires lo < W && Join(lo, hi) == c < 37
    ensures lo == c && lo % 0x1_0000_0000 == c
  {
  }

  // ----- parsing -----

  // The digit tests of set: 8 passes in octal, and 'a' and 'A' pass up to the radix inclusive.
  function DigitOf(c: char, radix: nat): Option<nat> {
    if '0' <= c <= '9' then
      if radix == 8 && c >= '9' then None else Some(c as int - '0' as int)
    else if 'a' <= c && c as int <= 'a' as int + radix - 10 then Some(c as int - 'a' as int + 10)
    else if 'A' <= c && c as int <= 'A' as int + radix - 10 then Some(c as int - 'A' as int + 10)
    else None
  }

  // The value of the digits from i on, behind digits worth acc, up to the first non-digit.
  function Horner(s: string, i: nat, radix: nat, acc: nat): nat
    decreases |s| - i
  {
    if i >= |s| then acc
    else match DigitOf(s[i], radix)
      case None => acc
      case Some(n) => Horner(s, i + 1, radix, acc * radix + n)
  }

  datatype Format = Format(minus: bool, radix: nat, start: nat)

  function FormatOf(s: string): Format {
    var minus := CharAt(s, 0) == '-';
    var i := if minus then 1 else 0;
    if CharAt(s, i) != '0' then Format(minus, 10, i)
    else if CharAt(s, i + 1) != 'x' then Format(minus, 8, i + 1)
    else Format(minus, 16, i + 2)
  }

  // The integer a string stands for, without bounds.
  function Parse(s: string): int {
    var f := FormatOf(s);
    var v := Horner(s, f.start, f.radix, 0);
    if f.minus then -(v as int) else v
  }

  // set: the integer that the string stands for, modulo 2^128. A null pointer is zero.
  method Set(x: Uint128, sz: Option<string>)
    requires x.Valid()
    modifies x
    ensures x.Valid() && x.V() == (if sz == None then 0 else Parse(sz.value) % M)
  {
    x.lo, x.hi := 0, 0;
    if sz == None { return; }
    var s := sz.value;
    if s == [] { return; }
    var radix: nat, i: nat, minus := 10, 0, false;
    if s[i] == '-' {
      i := i + 1;
      minus := true;
    }
    if CharAt(s, i) == '0' {
      radix := 8;
      i := i + 1;
      if CharAt(s, i) == 'x' {
        radix := 16;
        i := i + 1;
      }
    }
    assert Format(minus, radix, i) == FormatOf(s);
    ReadDigits(x, s, i, radix);
    if minus {
      ghost var v := Horner(s, i, radix, 0);
      var zero := new Uint128(0, 0);
      zero.SubAssign(x);
      x.lo, x.hi := zero.lo, zero.hi;
      NegativeMod(v);
    }
  }

  // The digit loop of set.
  method ReadDigits(x: Uint128, s: string, start: nat, radix: nat)
    requires x.Valid() && x.V() == 0 && radix < 37
    modifies x
    ensures x.Valid() && x.V() == Horner(s, start, radix, 0) % M
  {
    hide Join, Horner, DigitOf;
    var i: nat := start;
    ghost var acc: nat := 0;
    while i < |s|
      invariant x.Valid() && x.V() == acc % M && Horner(s, start, radix, 0) == Horner(s, i, radix, acc)
      decreases |s| - i
    {
      HornerStep(s, i, radix, acc);
      var n := DigitOf(s[i], radix);
      if n == None { return; }
      AppendDigit(x, radix, n.value, acc);
      acc := acc * radix + n.value;
      i := i + 1;
    }
    HornerEnd(s, i, radix, acc);
  }

  lemma HornerStep(s: string, i: nat, radix: nat, acc: nat)
    requires i < |s| && radix < 37
    ensures DigitOf(s[i], radix).Some? ==> DigitOf(s[i], radix).value < W
    ensures Horner(s, i, radix, acc) == match DigitOf(s[i], radix)
                                        case None => acc
                                        case Some(n) => Horner(s, i + 1, radix, acc * radix + n)
  {
  }

  lemma HornerEnd(s: string, i: nat, radix: nat, acc: nat)
    requires i >= |s|
    ensures Horner(s, i, radix, acc) == acc
  {
  }

  method AppendDigit(x: Uint128, radix: nat, n: nat, ghost acc: nat)
    requires x.Valid() && x.V() == acc % M && radix < W && n < W
    modifies x
    ensures x.Valid() && x.V() == (acc * radix + n) % M
  {
    hide Join;
    var r := new Uint128(radix, 0);
    var d := new Uint128(n, 0);
    WordValue(radix);
    WordValue(n);
    HornerMod(acc, radix, n);
    x.MulAssign(r);
    x.AddAssign(d);
  }

  lemma WordValue(n: nat)
    ensures Join(n, 0) == n
  {
  }

  lemma HornerMod(acc: nat, radix: nat, n: nat)
    ensures ((acc % M) * radix % M + n) % M == (acc * radix + n) % M
  {
    ModProduct(acc, radix, M);
    ModSum(acc * radix, n, M);
  }

  lemma NegativeMod(v: nat)
    ensures (0 - (v % M) as int) % M == (-(v as int)) % M
  {
    var n: int := v;
    ModOfMultiple(-n, n / M, M);
    assert -n + (n / M) * M == -(n % M);
  }

  // ----- printing, then parsing -----

  // All characters of s from i on are digits.
  ghost predicate AllDigits(s: string, i: nat, radix: nat) {
    forall k :: i <= k < |s| ==> DigitOf(s[k], radix).Some?
  }

  lemma {:induction false} HornerAppend(s: string, c: char, i: nat, radix: nat, acc: nat)
    requires i <= |s| && AllDigits(s, i, radix) && DigitOf(c, radix).Some?
    ensures Horner(s + [c], i, radix, acc) == Horner(s, i, radix, acc) * radix + DigitOf(c, radix).value
    decreases |s| - i
  {
    var t := s + [c];
    if i < |s| {
      assert t[i] == s[i];
      HornerAppend(s, c, i + 1, radix, acc * radix + DigitOf(s[i], radix).value);
    } else {
      assert t[i] == c;
    }
  }

  // A printed digit reads back as itself.
  lemma DigitRoundTrip(d: nat, radix: nat)
    requires d < radix && (radix == 8 || radix == 10 || radix == 16)
    ensures DigitOf(DigitChar(d), radix) == Some(d)
  {
  }

  // Reading the digits of v behind a prefix gives v.
  lemma {:induction false} DigitsRoundTrip(prefix: string, v: nat, radix: nat)
    requires radix == 8 || radix == 10 || radix == 16
    ensures AllDigits(prefix + Digits(v, radix), |prefix|, radix)
    ensures Horner(prefix + Digits(v, radix), |prefix|, radix, 0) == v
    decreases v
  {
    if v == 0 {
      assert prefix + [] == prefix;
    } else {
      DivSmaller(v, radix);
      var q, d := v / radix, v % radix;
      DigitsRoundTrip(prefix, q, radix);
      DigitRoundTrip(d, radix);
      var s, c := prefix + Digits(q, radix), DigitChar(d);
      Append3(prefix, Digits(q, radix), [c]);
      HornerAppend(s, c, |prefix|, radix, 0);
      assert v == q * radix + d;
    }
  }

  // A number does not begin with a zero, an x or a minus sign.
  lemma {:induction false} FirstDigit(v: nat, radix: nat)
    requires v > 0 && 2 <= radix <= 37
    ensures Digits(v, radix) != [] && Digits(v, radix)[0] !in {'0', 'x', '-'}
    decreases v
  {
    DivSmaller(v, radix);
    if v / radix == 0 {
      assert v == v % radix;
    } else {
      FirstDigit(v / radix, radix);
    }
  }

  // Parsing undoes printing, in all three notations, for every value.
  lemma DecimalRoundTrip(v: nat)
    ensures Parse(Print(v, 10)) == v
  {
    if v > 0 {
      FirstDigit(v, 10);
      DigitsRoundTrip([], v, 10);
      assert [] + Digits(v, 10) == Digits(v, 10);
    } else {
      assert FormatOf("0") == Format(false, 8, 1);
    }
  }

  lemma HexRoundTrip(v: nat)
    ensures Parse("0x" + Print(v, 16)) == v
  {
    var s := "0x" + Print(v, 16);
    assert s[0] == '0' && s[1] == 'x';
    if v > 0 {
      DigitsRoundTrip("0x", v, 16);
    } else {
      assert s == "0x0" && Horner(s, 3, 16, 0) == 0;
    }
  }

  lemma OctalRoundTrip(v: nat)
    ensures Parse("0" + Print(v, 8)) == v
  {
    var s := "0" + Print(v, 8);
    assert s[0] == '0';
    if v > 0 {
      FirstDigit(v, 8);
      assert s[1] == Digits(v, 8)[0];
      DigitsRoundTrip("0", v, 8);
    } else {
      assert s == "00" && Horner(s, 2, 8, 0) == 0;
    }
  }

  // ----- what a text stands for -----

  // The digits of each notation. The code takes one letter too many: a and A are ten in decimal and g and G are
  // sixteen in hexadecimal, and 8 passes in octal.
  function Alphabet(radix: nat): string {
    if radix == 8 then "012345678" else if radix == 10 then "0123456789aA" else "0123456789abcdefgABCDEFG"
  }

  function FaceValue(c: char): int {
    if c <= '9' then c as int - '0' as int else if c >= 'a' then c as int - 'a' as int + 10 else c as int - 'A' as int + 10
  }

  function Power(radix: nat, n: nat): nat {
    if n == 0 then 1 else radix * Power(radix, n - 1)
  }

  // The positional value of digits.
  function Value(digits: string, radix: nat): int {
    if digits == [] then 0 else FaceValue(digits[0]) * Power(radix, |digits| - 1) + Value(digits[1..], radix)
  }

  function Prefix(radix: nat): string {
    if radix == 8 then "0" else if radix == 16 then "0x" else ""
  }

  lemma DigitIsInAlphabet(c: char, radix: nat)
    requires radix == 8 || radix == 10 || radix == 16
    ensures DigitOf(c, radix).Some? <==> c in Alphabet(radix)
    ensures c in Alphabet(radix) ==> DigitOf(c, radix).value == FaceValue(c)
  {
  }

  lemma {:induction false} HornerIsValue(text: string, i: nat, digits: string, rest: string, radix: nat, acc: nat)
    requires radix == 8 || radix == 10 || radix == 16
    requires i <= |text| && text[i..] == digits + rest
    requires (forall c :: c in digits ==> c in Alphabet(radix)) && (rest != [] ==> rest[0] !in Alphabet(radix))
    ensures Horner(text, i, radix, acc) == acc * Power(radix, |digits|) + Value(digits, radix)
    decreases |digits|
  {
    hide Horner, Alphabet, FaceValue, DigitOf;
    if digits == [] {
      if rest != [] {
        assert text[i] == text[i..][0] == rest[0];
        DigitIsInAlphabet(text[i], radix);
        HornerStep(text, i, radix, acc);
      } else {
        HornerEnd(text, i, radix, acc);
      }
    } else {
      var d := digits[0];
      assert text[i] == text[i..][0] == d && d in digits;
      FaceIsDigit(d, radix);
      assert text[i + 1..] == text[i..][1..] == digits[1..] + rest;
      HornerIsValue(text, i + 1, digits[1..], rest, radix, acc * radix + FaceValue(d));
      HornerStep(text, i, radix, acc);
      NextPower(acc, radix, FaceValue(d), Power(radix, |digits| - 1));
    }
  }

  lemma FaceIsDigit(c: char, radix: nat)
    requires (radix == 8 || radix == 10 || radix == 16) && c in Alphabet(radix)
    ensures DigitOf(c, radix).Some? && DigitOf(c, radix).value == FaceValue(c) && FaceValue(c) >= 0
  {
    DigitIsInAlphabet(c, radix);
  }

  lemma NextPower(acc: int, radix: int, d: int, p: int)
    ensures (acc * radix + d) * p == acc * (radix * p) + d * p
  {
  }

  // Every text: a minus sign or none, a prefix that decides the notation, digits, and then the end or something
  // that is not a digit, which ends the number.
  lemma {:induction false} ParseIsValue(minus: bool, radix: nat, digits: string, rest: string)
    requires radix == 8 || radix == 10 || radix == 16
    requires (forall c :: c in digits ==> c in Alphabet(radix)) && (rest != [] ==> rest[0] !in Alphabet(radix))
    requires radix == 10 ==> CharAt(digits + rest, 0) != '0' && (!minus ==> CharAt(digits + rest, 0) != '-')
    requires radix == 8 ==> CharAt(digits + rest, 0) != 'x'
    ensures Parse((if minus then "-" else "") + Prefix(radix) + digits + rest) ==
              if minus then -Value(digits, radix) else Value(digits, radix)
  {
    hide FormatOf, Horner, Value, Alphabet;
    var sign := if minus then "-" else "";
    var text, start := sign + Prefix(radix) + digits + rest, |sign| + |Prefix(radix)|;
    assert text == (sign + Prefix(radix)) + (digits + rest);
    FormatOfText(minus, radix, digits + rest);
    HornerIsValue(text, start, digits, rest, radix, 0);
  }

  lemma FormatOfText(minus: bool, radix: nat, tail: string)
    requires radix == 8 || radix == 10 || radix == 16
    requires radix == 10 ==> CharAt(tail, 0) != '0' && (!minus ==> CharAt(tail, 0) != '-')
    requires radix == 8 ==> CharAt(tail, 0) != 'x'
    ensures var sign := if minus then "-" else "";
            var text, start := (sign + Prefix(radix)) + tail, |sign| + |Prefix(radix)|;
            FormatOf(text) == Format(minus, radix, start) && text[start..] == tail
  {
    var sign := if minus then "-" else "";
    var text, start := (sign + Prefix(radix)) + tail, |sign| + |Prefix(radix)|;
    assert text[start..] == tail;
    assert CharAt(text, start) == CharAt(tail, 0);
    assert minus ==> text[0] == '-';
    assert forall i :: 0 <= i < |Prefix(radix)| ==> text[|sign| + i] == Prefix(radix)[i];
  }

  // The value of the printed digits, in every radix that toString allows.
  lemma {:induction false} PrintedValue(v: nat, radix: nat)
    requires 2 <= radix <= 37
    ensures Value(Digits(v, radix), radix) == v
    ensures forall c :: c in Digits(v, radix) ==> 0 <= FaceValue(c) < radix
  {
    hide FaceValue, DigitChar, Value;
    if v == 0 {
      NoDigits(radix);
      ValueOfNone(radix);
    } else {
      DivSmaller(v, radix);
      PrintedValue(v / radix, radix);
      FaceOfDigit(v % radix);
      ValueAppend(Digits(v / radix, radix), DigitChar(v % radix), radix);
    }
  }

  lemma FaceOfDigit(d: nat)
    requires d < 37
    ensures FaceValue(DigitChar(d)) == d
  {
  }

  lemma ValueOfNone(radix: nat)
    ensures Value([], radix) == 0
  {
  }

  lemma {:induction false} ValueAppend(s: string, c: char, radix: nat)
    ensures Value(s + [c], radix) == Value(s, radix) * radix + FaceValue(c)
  {
    if s == [] {
      assert [] + [c] == [c] && [c][1..] == [];
    } else {
      assert (s + [c])[1..] == s[1..] + [c];
      ValueAppend(s[1..], c, radix);
      hide FaceValue;
      Carry(FaceValue(s[0]), radix, Power(radix, |s| - 1), Value(s[1..], radix));
    }
  }

  lemma Carry(d: int, radix: int, p: int, v: int)
    ensures d * (radix * p) + v * radix == (d * p + v) * radix
  {
  }

  // The whole trip through the objects: print x, set another object from the text.
  method PrintAndSet(x: Uint128, radix: nat) returns (y: Uint128)
    requires x.Valid() && (radix == 8 || radix == 10 || radix == 16)
    ensures y.Valid() && y.V() == x.V()
  {
    hide Parse, Print, Join;
    var text := ToString(x, radix);
    y := new Uint128(0, 0);
    ghost var v := x.V();
    JoinBound(x.lo, x.hi);
    DivModUnique(v, M, 0, v);
    if radix == 10 {
      DecimalRoundTrip(v);
      Set(y, Some(text));
    } else if radix == 16 {
      HexRoundTrip(v);
      Set(y, Some("0x" + text));
    } else {
      OctalRoundTrip(v);
      Set(y, Some("0" + text));
    }
  }
}
