/** Signed 128-bit integers: an unsigned low limb and a signed high limb (src/util/int128.h,
    src/util/int128.cc). */
module Int128s {
  import opened Bits
  import opened Uint128s

  const MIN: int := -0x8000_0000_0000_0000_0000_0000_0000_0000

  // The two readings of a 64-bit word.
  function U64(x: int): nat
    requires IsS64(x)
    ensures U64(x) < W
  {
    if x < 0 then x + W else x
  }

  function S64(x: nat): int
    requires x < W
    ensures IsS64(S64(x))
  {
    if x < 0x8000_0000_0000_0000 then x else x - W
  }

  // The value a 128-bit pattern stands for, and the result of arithmetic modulo 2^128.
  function Signed(p: int): int {
    if p < -MIN then p else p - M
  }

  function Wrap(v: int): int {
    Signed(v % M)
  }

  function SJoin(lo: nat, hi: int): int {
    lo + hi * W
  }

  lemma Pattern(lo: nat, hi: int)
    requires lo < W && IsS64(hi)
    ensures SJoin(lo, hi) == Signed(Join(lo, U64(hi)))
    ensures MIN <= SJoin(lo, hi) < -MIN
    ensures Join(lo, U64(hi)) == SJoin(lo, hi) % M
    ensures hi >= 0 <==> SJoin(lo, hi) >= 0
  {
    JoinBound(lo, U64(hi));
    if hi < 0 {
      DivModUnique(SJoin(lo, hi), M, -1, Join(lo, U64(hi)));
    } else {
      DivModUnique(SJoin(lo, hi), M, 0, Join(lo, U64(hi)));
    }
  }

  lemma WrapInRange(v: int)
    requires MIN <= v < -MIN
    ensures Wrap(v) == v
  {
    if v < 0 { DivModUnique(v, M, -1, v + M); } else { DivModUnique(v, M, 0, v); }
  }

  predicate IsS64(x: int) {
    -0x8000_0000_0000_0000 <= x < 0x8000_0000_0000_0000
  }

  // A pattern computed modulo 2^128 is the wrapped value.
  lemma PatternOf(lo: nat, h: nat, v: int)
    requires lo < W && h < W && Join(lo, h) == v % M
    ensures SJoin(lo, S64(h)) == Wrap(v)
  {
    Pattern(lo, S64(h));
    assert U64(S64(h)) == h;
  }

  lemma SignedAdd(lo: nat, hi: int, blo: nat, bhi: int)
    requires lo < W && blo < W && IsS64(hi) && IsS64(bhi)
    ensures var l, h := (lo + blo) % W, S64((U64(hi) + U64(bhi)) % W);
            SJoin(l, if l < lo then S64((U64(h) + 1) % W) else h) == Wrap(SJoin(lo, hi) + SJoin(blo, bhi))
  {
    var x, y := SJoin(lo, hi), SJoin(blo, bhi);
    Pattern(lo, hi);
    Pattern(blo, bhi);
    AddCarry(lo, U64(hi), blo, U64(bhi));
    ModSum(x, y, M);
    var l, h := (lo + blo) % W, (U64(hi) + U64(bhi)) % W;
    assert U64(S64(h)) == h;
    hide SJoin, Wrap, Join;
    PatternOf(l, if l < lo then (h + 1) % W else h, x + y);
  }

  lemma SignedNegate(lo: nat, hi: int)
    requires lo < W && IsS64(hi)
    ensures lo == 0 ==> SJoin(0, S64((W - U64(hi)) % W)) == Wrap(-SJoin(lo, hi))
    ensures lo != 0 ==> SJoin(W - lo, S64(W - 1 - U64(hi))) == Wrap(-SJoin(lo, hi))
  {
    var x := SJoin(lo, hi);
    Pattern(lo, hi);
    NegateLimbs(lo, U64(hi));
    NegatePattern(x);
    hide SJoin, Wrap, Join;
    if lo == 0 {
      PatternOf(0, (W - U64(hi)) % W, -x);
    } else {
      PatternOf(W - lo, W - 1 - U64(hi), -x);
    }
  }

  // Shifting the pattern left shifts the value left, modulo 2^128.
  lemma SignedShl(lo: nat, hi: int, l: nat, h: nat, n: nat)
    requires lo < W && IsS64(hi) && l < W && h < W
    requires Join(l, h) == Join(lo, U64(hi)) * Pow2(n) % M
    ensures SJoin(l, S64(h)) == Wrap(SJoin(lo, hi) * Pow2(n))
  {
    Pattern(lo, hi);
    hide Pow2, SJoin, Wrap, Join;
    ModProduct(SJoin(lo, hi), Pow2(n), M);
    PatternOf(l, h, SJoin(lo, hi) * Pow2(n));
  }

  // hi >> n on a signed word
  function Sar64(x: int, n: nat): (r: int)
    requires IsS64(x)
    ensures IsS64(r) && (x < 0 <==> r < 0)
  {
    SarRange(x, Pow2(n));
    x / Pow2(n)
  }

  lemma SarRange(x: int, p: int)
    requires IsS64(x) && p > 0
    ensures IsS64(x / p) && (x < 0 <==> x / p < 0)
  {
    var t := x / p;
    assert x == t * p + x % p;
    if x < 0 {
      if t >= 0 { MulMono(0, t, p); }
      MulMono(1, p, -x);
      assert x * p == -(p * -x) <= x;
      if t < x { MulMono(t + 1, x, p); }
    } else {
      if t < 0 { MulMono(t + 1, 0, p); }
      DivShrinks(x, p);
    }
  }

  lemma DivOfSum(x: int, k: int, c: int, p: int)
    requires p > 0
    ensures (x + k * (c * p)) / p == x / p + k * c
  {
    assert x == (x / p) * p + x % p;
    assert (x / p + k * c) * p == (x / p) * p + k * (c * p);
    DivModUnique(x + k * (c * p), p, x / p + k * c, x % p);
  }

  // The limbs of a signed shift to the right by less than a word: division rounding down.
  lemma SignedShr(lo: nat, hi: int, n: nat)
    requires lo < W && IsS64(hi) && 0 < n < 64
    ensures var l := Or(Shr64(lo, n), Shl64(And(U64(hi), Pow2(n) - 1), 64 - n));
            l < W && SJoin(l, Sar64(hi, n)) == SJoin(lo, hi) / Pow2(n)
  {
    hide And, Or, Pow2, Shl64;
    var p, q, k := Pow2(n), Pow2(64 - n), if hi < 0 then 1 else 0;
    ShrLimbs(lo, U64(hi), n);
    Pow2Values();
    Pow2Sum(n, 64 - n);
    DivOfSum(hi, k, q, p);
    DivOfSum(SJoin(lo, hi), k, q * W, p);
    var l := Or(Shr64(lo, n), Shl64(And(U64(hi), p - 1), 64 - n));
    assert q * W * p == M by { assert q * W * p == (p * q) * W; }
    assert (hi / p + k * q) * W == hi / p * W + k * (q * W);
  }

  lemma SignedShrWords(lo: nat, hi: int, n: nat)
    requires lo < W && IsS64(hi) && n >= 64
    ensures n < 128 ==> SJoin(U64(Sar64(hi, n - 64)), if hi < 0 then -1 else 0) == SJoin(lo, hi) / Pow2(n)
    ensures n >= 128 ==> SJoin(if hi < 0 then W - 1 else 0, if hi < 0 then -1 else 0) == SJoin(lo, hi) / Pow2(n)
  {
    hide Pow2;
    Pow2Values();
    Pattern(lo, hi);
    if n < 128 {
      Pow2Sum(64, n - 64);
      DivDiv(SJoin(lo, hi), W, Pow2(n - 64));
      DivModUnique(SJoin(lo, hi), W, hi, lo);
    } else {
      Pow2Grows(128, n);
      DivModUnique(SJoin(lo, hi), Pow2(n), if hi < 0 then -1 else 0, if hi < 0 then SJoin(lo, hi) + Pow2(n) else SJoin(lo, hi));
    }
  }

  // The shift-and-add loop before its i-th pass, with the sign filled in from the left.
  ghost predicate SignedMulState(x: int, y: int, v: int, t: int, i: nat) {
    v == Wrap(x * (y % Pow2(i))) && t == y / Pow2(i)
  }

  lemma SignedMulStarts(x: int, y: int)
    ensures SignedMulState(x, y, SJoin(0, 0), y, 0)
  {
    assert y % Pow2(0) == 0;
  }

  lemma SignedMulStep(x: int, y: int, v: int, t: int, i: nat)
    requires SignedMulState(x, y, v, t, i)
    ensures t % 2 == 0 ==> SignedMulState(x, y, v, t / Pow2(1), i + 1)
    ensures t % 2 == 1 ==> SignedMulState(x, y, Wrap(v + Wrap(x * Pow2(i))), t / Pow2(1), i + 1)
  {
    Pow2Step(i);
    Pow2One();
    hide Pow2, Wrap;
    var p := Pow2(i);
    DivDiv(y, p, 2);
    if t % 2 == 1 {
      WrapSum(v, x * p);
      WrapSum(x * p, x * (y % p));
      Distribute(y % p, p, x);
    }
  }

  lemma SignedMulDone(x: int, y: int, v: int, t: int)
    requires SignedMulState(x, y, v, t, 128)
    ensures v == Wrap(x * y)
  {
    Pow2Values();
    ModProduct(y, x, M);
  }

  lemma LowestSignedBit(lo: nat, hi: int)
    ensures And(lo, 1) == SJoin(lo, hi) % 2
  {
    LowestBit(lo, 0);
  }

  class Int128 {
    var lo: nat
    var hi: int

    ghost predicate Valid()
      reads this
    {
      lo < W && IsS64(hi)
    }

    ghost function V(): int
      reads this
    {
      SJoin(lo, hi)
    }

    constructor (a: nat, b: int)
      requires a < W && IsS64(b)
      ensures Valid() && lo == a && hi == b
    {
      lo, hi := a, b;
    }

    // operator-, two's complement
    method Negated() returns (r: Int128)
      requires Valid()
      ensures fresh(r) && r.Valid() && r.V() == Wrap(-V())
    {
      hide SJoin, Wrap, U64, S64;
      SignedNegate(lo, hi);
      if lo == 0 {
        r := new Int128(0, S64((W - U64(hi)) % W));
      } else {
        r := new Int128(W - lo, S64(W - 1 - U64(hi)));
      }
    }

    // operator+=
    method AddAssign(b: Int128)
      requires Valid() && b.Valid()
      modifies this
      ensures Valid() && V() == Wrap(old(V()) + old(b.V()))
    {
      hide SJoin, Wrap;
      SignedAdd(lo, hi, b.lo, b.hi);
      var oldLo, bhi := lo, b.hi;
      lo := (lo + b.lo) % W;
      hi := S64((U64(hi) + U64(bhi)) % W);
      if lo < oldLo { hi := S64((U64(hi) + 1) % W); }
    }

    // operator-=
    method SubAssign(b: Int128)
      requires Valid() && b.Valid()
      modifies this
      ensures Valid() && V() == Wrap(old(V()) - old(b.V()))
    {
      ghost var x, y := V(), b.V();
      var n := b.Negated();
      AddAssign(n);
      WrapSum(x, -y);
    }

    // operator<, as written: two negative numbers with equal high limbs are compared by their
    // low limbs read as signed.
    predicate Less(b: Int128)
      requires Valid() && b.Valid()
      reads this, b
    {
      if hi == b.hi then
        if hi < 0 then S64(lo) < S64(b.lo) else lo < b.lo
      else hi < b.hi
    }

    predicate IsNegative()
      reads this
    {
      hi < 0
    }

    // operator<<=
    method ShlAssign(n: nat)
      requires Valid()
      modifies this
      ensures Valid() && V() == Wrap(old(V()) * Pow2(n))
    {
      hide Pow2, And, Or, Shl64, Shr64, Not64, SJoin, Wrap, Join;
      if n >= 128 {
        ShlWords(lo, U64(hi), n);
        JoinZero();
        SignedShl(lo, hi, 0, 0, n);
        lo, hi := 0, 0;
      } else if n >= 64 {
        ShlWords(lo, U64(hi), n);
        SignedShl(lo, hi, 0, Shl64(lo, n - 64), n);
        hi := S64(Shl64(lo, n - 64));
        lo := 0;
      } else if n > 0 {
        ShlLimbs(lo, U64(hi), n);
        var h := Shl64(U64(hi), n);
        var mask := Not64(Pow2(64 - n) - 1);
        SignedShl(lo, hi, Shl64(lo, n), Or(h, Shr64(And(lo, mask), 64 - n)), n);
        hi := S64(Or(h, Shr64(And(lo, mask), 64 - n)));
        lo := Shl64(lo, n);
      } else {
        Pow2Zero();
        Pattern(lo, hi);
        WrapInRange(V());
      }
    }

    // operator>>=: rounds down, for negative numbers too.
    method ShrAssign(n: nat)
      requires Valid()
      modifies this
      ensures Valid() && V() == old(V()) / Pow2(n)
    {
      hide Pow2, And, Or, Shl64, Shr64, Sar64, SJoin;
      if n >= 64 {
        SignedShrWords(lo, hi, n);
      }
      if n >= 128 {
        hi := if hi < 0 then -1 else 0;
        lo := U64(hi);
      } else if n >= 64 {
        lo := U64(Sar64(hi, n - 64));
        hi := if hi < 0 then -1 else 0;
      } else if n > 0 {
        SignedShr(lo, hi, n);
        lo := Shr64(lo, n);
        var mask := Pow2(n) - 1;
        lo := Or(lo, Shl64(And(U64(hi), mask), 64 - n));
        hi := Sar64(hi, n);
      } else {
        Pow2Zero();
      }
    }

    // operator*=, also for b == this
    method MulAssign(b: Int128)
      requires Valid() && b.Valid()
      modifies this
      ensures Valid() && V() == Wrap(old(V()) * old(b.V()))
    {
      Pattern(lo, hi);
      WrapInRange(0);
      WrapInRange(V());
      if b.lo == 0 && b.hi == 0 {
        lo, hi := 0, 0;
        return;
      }
      if b.lo == 1 && b.hi == 0 { return; }
      var a := new Int128(lo, hi);
      var t := new Int128(b.lo, b.hi);
      ShiftAndAdd(a, t);
    }

    // The loop of operator*=.
    method ShiftAndAdd(a: Int128, t: Int128)
      requires a.Valid() && t.Valid() && a != this && t != this && a != t
      modifies this, t
      ensures Valid() && V() == Wrap(old(a.V()) * old(t.V()))
    {
      hide Pow2, And, SJoin, Wrap, SignedMulState;
      ghost var x, y := a.V(), t.V();
      lo, hi := 0, 0;
      SignedMulStarts(x, y);
      for i := 0 to 128
        invariant Valid() && t.Valid() && SignedMulState(x, y, V(), t.V(), i)
      {
        LowestSignedBit(t.lo, t.hi);
        SignedMulStep(x, y, V(), t.V(), i);
        if And(t.lo, 1) != 0 {
          var s := new Int128(a.lo, a.hi);
          s.ShlAssign(i);
          AddAssign(s);
        }
        t.ShrAssign(1);
      }
      SignedMulDone(x, y, V(), t.V());
    }

    // bit(n)
    predicate Bit(n: nat)
      requires Valid()
      reads this
    {
      if n >= 128 then hi < 0
      else if n < 64 then And(lo, Pow2(n)) != 0
      else And(U64(hi), Pow2(n - 64)) != 0
    }

    // bit(n, val): bit n of the pattern becomes val, the others stay.
    method SetBit(n: nat, val: bool)
      requires Valid()
      modifies this
      ensures Valid() && V() == if n < 128 then Signed(WithBit(old(V()) % M, n, val)) else old(V())
    {
      if n >= 128 { return; }
      Pattern(lo, hi);
      hide And, Or, WithBit, Pow2, Join, SJoin, Signed;
      if n < 64 {
        BitOfWord(lo, n);
        LowWithBit(lo, U64(hi), n, val);
        lo := if val then Or(lo, Pow2(n)) else And(lo, Not64(Pow2(n)));
        Pattern(lo, hi);
      } else {
        BitOfWord(U64(hi), n - 64);
        HighWithBit(lo, U64(hi), n, val);
        var h := if val then Or(U64(hi), Pow2(n - 64)) else And(U64(hi), Not64(Pow2(n - 64)));
        hi := S64(h);
        Pattern(lo, hi);
        assert U64(hi) == h;
      }
    }
  }

  lemma NegatePattern(v: int)
    ensures (M - v % M) % M == (-v) % M
  {
    ModOfMultiple(-v, v / M + 1, M);
    assert -v + (v / M + 1) * M == M - v % M;
  }

  lemma WrapSum(x: int, y: int)
    ensures Wrap(x + Wrap(y)) == Wrap(x + y)
  {
    ModOfMultiple(x + y, -(y / M), M);
    assert x + y + -(y / M) * M == x + y % M;
    ModOfMultiple(x + y % M, -1, M);
  }

  // A quotient with a clear bit below the sign bit stays positive when the bit is set.
  lemma QuotientRoom(v: int, n: nat)
    requires 0 <= v < -MIN && n < 127 && BitOf(v, n) == 0
    ensures v % M == v && Signed(WithBit(v, n, true)) == v + Pow2(n)
  {
    DivModUnique(v, M, 0, v);
    Pow2Values();
    assert Pow2(128) == 2 * Pow2(127);
    Pow2Sum(n, 127 - n);
    assert Pow2(127 - n) == 2 * Pow2(126 - n);
    RoomBelow(v, Pow2(n), Pow2(126 - n), -MIN);
  }

  // The comparison is right exactly when the low limbs need not be told apart by their top bit.
  lemma LessIsExact(a: Int128, b: Int128)
    requires a.Valid() && b.Valid()
    ensures (a.Less(b) <==> a.V() < b.V()) <==>
            !(a.hi == b.hi < 0 && (a.lo < 0x8000_0000_0000_0000) != (b.lo < 0x8000_0000_0000_0000))
  {
    if a.hi < b.hi {
      MulMono(a.hi + 1, b.hi, W);
    } else if b.hi < a.hi {
      MulMono(b.hi + 1, a.hi, W);
    }
  }

  // The failing family: a is less than b, and the comparison says no.
  lemma LessFails(a: Int128, b: Int128)
    requires a.Valid() && b.Valid() && a.hi == b.hi == -1 && a.lo == 0 && b.lo == 0x8000_0000_0000_0000
    ensures a.V() < b.V() && !a.Less(b) && b.Less(a)
  {
  }

  // ----- division -----

  function Abs(v: int): nat {
    if v < 0 then -v else v
  }

  // Division truncated toward zero; the remainder has the sign of the dividend.
  function TruncQuotient(a: int, b: int): int
    requires b != 0
  {
    if (a < 0) != (b < 0) then -(Abs(a) / Abs(b)) else Abs(a) / Abs(b)
  }

  function TruncRemainder(a: int, b: int): int
    requires b != 0
  {
    if a < 0 then -(Abs(a) % Abs(b)) else Abs(a) % Abs(b)
  }

  // What defines truncated division.
  lemma TruncatedDivision(a: int, b: int)
    requires b != 0
    ensures TruncQuotient(a, b) * b + TruncRemainder(a, b) == a
    ensures Abs(TruncRemainder(a, b)) < Abs(b)
    ensures a >= 0 ==> TruncRemainder(a, b) >= 0
    ensures a <= 0 ==> TruncRemainder(a, b) <= 0
  {
    var q, r := Abs(a) / Abs(b), Abs(a) % Abs(b);
    assert Abs(a) == q * Abs(b) + r;
    SignsCancel(q, b);
  }

  lemma SignsCancel(q: int, b: int)
    ensures q * -b == -(q * b) == -q * b
  {
  }

  method AbsoluteValue(x: Int128) returns (r: Int128)
    requires x.Valid()
    ensures fresh(r) && r.Valid() && r.V() == if x.V() == MIN then MIN else Abs(x.V())
  {
    Pattern(x.lo, x.hi);
    if x.IsNegative() {
      r := x.Negated();
      if x.V() == MIN {
        assert MIN + M == -MIN;
        ModOfMultiple(MIN, 1, M);
        DivModUnique(-MIN, M, 0, -MIN);
      } else {
        WrapInRange(-x.V());
      }
    } else {
      r := new Int128(x.lo, x.hi);
    }
  }

  lemma NonNegativeLess(a: Int128, b: Int128)
    requires a.Valid() && b.Valid() && (a.V() >= 0 || b.V() >= 0)
    ensures a.Less(b) <==> a.V() < b.V()
  {
    Pattern(a.lo, a.hi);
    Pattern(b.lo, b.hi);
    LessIsExact(a, b);
  }

  // The next bit of the dividend moves into the remainder.
  method TakeBit(dd: Int128, r: Int128, b: nat)
    requires dd.Valid() && r.Valid() && r != dd && b < 128 && dd.V() >= 0 && r.V() >= 0
    requires 2 * r.V() + BitOf(dd.V(), b) < -MIN
    modifies r
    ensures r.Valid() && r.V() == 2 * old(r.V()) + BitOf(dd.V(), b)
  {
    hide Pow2, And, Or, BitOf;
    BitIsBit(dd.V(), b);
    WrapInRange(2 * r.V());
    Pow2One();
    r.ShlAssign(1);
    Pattern(r.lo, r.hi);
    BitIsTested(dd, b);
    if dd.Bit(b) {
      SetLowest(r.lo, r.hi);
      r.lo := Or(r.lo, 1);
    }
  }

  lemma BitIsTested(x: Int128, n: nat)
    requires x.Valid() && x.V() >= 0 && n < 128
    ensures x.Bit(n) <==> BitOf(x.V(), n) == 1
  {
    hide Pow2, And;
    Pattern(x.lo, x.hi);
    BitLimbs(x.lo, x.hi, n);
    if n < 64 {
      AndBit(x.lo, n);
      BitNonZero(BitOf(x.lo, n), Pow2(n));
    } else {
      AndBit(x.hi, n - 64);
      BitNonZero(BitOf(x.hi, n - 64), Pow2(n - 64));
    }
  }

  method Align(dd: Int128, ds: Int128, r: Int128) returns (b: nat)
    requires dd.Valid() && ds.Valid() && r.Valid() && r != dd && r != ds
    requires 0 < ds.V() <= dd.V() && r.V() == 0
    modifies r
    ensures r.Valid() && b < 127 && r.V() == dd.V() / Pow2(b) && ds.V() <= r.V() < 2 * ds.V()
  {
    hide Pow2, And, Or, SJoin, BitOf;
    ghost var k, d, s := 128, dd.V(), ds.V();
    Pattern(dd.lo, dd.hi);
    Pow2Values();
    DivModUnique(d, M, 0, d);
    b := 127;
    NonNegativeLess(r, ds);
    while r.Less(ds)
      invariant r.Valid() && k <= 128 && b == if k == 0 then 0xffff_ffff else k - 1
      invariant r.V() == d / Pow2(k) && r.V() >= 0 && (k < 128 ==> r.V() < 2 * s)
      invariant k == 128 ==> r.V() == 0
      invariant r.Less(ds) <==> r.V() < s
      decreases k
    {
      if k == 0 {
        Pow2Zero();
        assert false;
      }
      NextBit(d, b);
      BitIsBit(d, b);
      TakeBit(dd, r, b);
      k := k - 1;
      b := if b == 0 then 0xffff_ffff else b - 1;
      NonNegativeLess(r, ds);
    }
    b := if b == 0xffff_ffff then 0 else b + 1;
    SignBitClear(d, b);
  }

  // The top bit of a non-negative number is clear, so the quotient never reaches the sign bit.
  lemma SignBitClear(d: nat, b: nat)
    requires d < -MIN && b < 128 && d / Pow2(b) > 0
    ensures b < 127
  {
    if b == 127 {
      Pow2Values();
      assert Pow2(128) == 2 * Pow2(127);
      DivModUnique(d, Pow2(127), 0, d);
    }
  }

  // The divisor goes into the remainder once more: one more bit of the quotient.
  method Reduce(ds: Int128, r: Int128, q: Int128, b: nat, ghost d: nat, ghost t: nat)
    requires ds.Valid() && r.Valid() && q.Valid() && r !in {ds, q} && q != ds && b < 127
    requires 0 < ds.V() <= r.V() && q.V() >= 0 && DivState(d, ds.V(), r.V(), q.V(), t, b)
    modifies r, q
    ensures r.Valid() && q.Valid() && 0 <= r.V() < ds.V() && q.V() >= 0
    ensures DivState(d, ds.V(), r.V(), q.V(), t + 1, b)
  {
    Pattern(ds.lo, ds.hi);
    Pattern(r.lo, r.hi);
    Pattern(q.lo, q.hi);
    hide Pow2, BitOf, SJoin, DivState, WithBit, Signed, Wrap, IsS64;
    DivSubtract(d, ds.V(), r.V(), q.V(), t, b);
    WrapInRange(r.V() - ds.V());
    QuotientRoom(q.V(), b);
    r.SubAssign(ds);
    q.SetBit(b, true);
  }

  method DivLoop(dd: Int128, ds: Int128, r: Int128, q: Int128, b0: nat)
    requires dd.Valid() && ds.Valid() && r.Valid() && q.Valid() && r !in {dd, ds, q} && q !in {dd, ds}
    requires 0 < ds.V() && dd.V() >= 0 && b0 < 127 && q.V() == 0
    requires r.V() == dd.V() / Pow2(b0) && 0 <= r.V() < 2 * ds.V()
    modifies r, q
    ensures r.Valid() && q.Valid() && q.V() == dd.V() / ds.V() && r.V() == dd.V() % ds.V()
  {
    hide Pow2, And, Or, BitOf, SJoin, DivState, WithBit, Signed, Wrap, IsS64;
    Pattern(dd.lo, dd.hi);
    Pattern(ds.lo, ds.hi);
    var b := b0;
    ghost var d, s, t := dd.V(), ds.V(), 0;
    DivStarts(d, s, r.V(), b);
    while true
      invariant r.Valid() && q.Valid() && b < 127 && t >= 0 && r.V() >= 0 && q.V() >= 0
      invariant DivState(d, s, r.V(), q.V(), t, b)
      decreases b, if r.V() >= s then 1 else 0
    {
      NonNegativeLess(r, ds);
      if r.Less(ds) {
        if b == 0 { break; }
        b := b - 1;
        DivShift(d, s, r.V(), q.V(), t, b);
        DivShiftBound(d, s, r.V(), q.V(), t, b);
        TakeBit(dd, r, b);
        BitIsBit(d, b);
        t := 2 * t;
      } else {
        Reduce(ds, r, q, b, d, t);
        t := t + 1;
      }
    }
    DivDone(d, s, r.V(), q.V(), t);
  }

  lemma DivShiftBound(d: nat, s: nat, r: nat, q: nat, t: nat, b: nat)
    requires d < -MIN && DivState(d, s, r, q, t, b + 1) && r < s
    ensures 2 * r + BitOf(d, b) < -MIN
  {
    NextBit(d, b);
    MulMono(0, t, s);
    assert 2 * (r + t * s) == 2 * r + 2 * (t * s);
  }

  // div. A divisor of MIN would not terminate; MIN as dividend is returned as the remainder.
  method Div(dividend: Int128, divisor: Int128, remainder: Int128) returns (q: Int128)
    requires dividend.Valid() && divisor.Valid() && remainder.Valid()
    requires divisor.V() != 0 && divisor.V() != MIN
    modifies remainder
    ensures q.Valid() && remainder.Valid() && fresh(q)
    ensures old(dividend.V()) != MIN ==>
              && q.V() == TruncQuotient(old(dividend.V()), old(divisor.V()))
              && remainder.V() == TruncRemainder(old(dividend.V()), old(divisor.V()))
    ensures old(dividend.V()) == MIN ==> q.V() == 0 && remainder.V() == MIN
  {
    hide Pow2, And, Or, SJoin, Wrap;
    ghost var x, y := dividend.V(), divisor.V();
    var xneg, yneg := dividend.IsNegative(), divisor.IsNegative();
    Pattern(dividend.lo, dividend.hi);
    Pattern(divisor.lo, divisor.hi);
    var ds := AbsoluteValue(divisor);
    var dd := AbsoluteValue(dividend);
    NonNegativeLess(dd, ds);
    q := new Int128(0, 0);
    if dd.Less(ds) {
      remainder.lo, remainder.hi := dividend.lo, dividend.hi;
      ZeroValue(q);
      if x != MIN { DivModUnique(Abs(x), Abs(y), 0, Abs(x)); }
      return;
    }
    var r: Int128;
    q, r := DivMagnitudes(dd, ds);
    QuotientRange(Abs(x), Abs(y));
    if xneg != yneg {
      WrapInRange(-q.V());
      q := q.Negated();
    }
    if xneg {
      WrapInRange(-r.V());
      r := r.Negated();
    }
    remainder.lo, remainder.hi := r.lo, r.hi;
  }

  // The two loops, for operands that are not negative.
  method DivMagnitudes(dd: Int128, ds: Int128) returns (q: Int128, r: Int128)
    requires dd.Valid() && ds.Valid() && 0 < ds.V() <= dd.V()
    ensures fresh(q) && fresh(r) && q.Valid() && r.Valid()
    ensures q.V() == dd.V() / ds.V() && r.V() == dd.V() % ds.V()
  {
    hide Pow2, SJoin;
    q := new Int128(0, 0);
    r := new Int128(0, 0);
    ZeroValue(r);
    ZeroValue(q);
    var b := Align(dd, ds, r);
    DivLoop(dd, ds, r, q, b);
  }

  lemma ZeroValue(x: Int128)
    requires x.lo == 0 && x.hi == 0
    ensures x.V() == 0
  {
  }

  lemma QuotientRange(a: nat, b: nat)
    requires b > 0
    ensures 0 <= a / b <= a && 0 <= a % b < b
  {
    DivShrinks(a, b);
  }

  // With MIN as divisor, whose absolute value is MIN again, the loops of div have no end: no absolute value dd
  // is less than the divisor, so the early return is not taken; and the remainder, 0 at first, is not less than the divisor
  // either, so the second loop subtracts, which makes it MIN, then 0, and so on.
  lemma MinDivisorLoops(dd: Int128, r: Int128, ds: Int128)
    requires dd.Valid() && r.Valid() && ds.Valid()
    requires ds.V() == MIN && (dd.V() >= 0 || dd.V() == MIN) && r.V() in {0, MIN}
    ensures !dd.Less(ds)
    ensures !r.Less(ds) && Wrap(r.V() - ds.V()) == if r.V() == 0 then MIN else 0
  {
    MinLimbs(ds);
    if dd.V() == MIN { MinLimbs(dd); } else { Pattern(dd.lo, dd.hi); }
    if r.V() == 0 {
      Pattern(r.lo, r.hi);
      DivModUnique(-MIN, M, 0, -MIN);
    } else {
      MinLimbs(r);
    }
  }

  lemma MinLimbs(x: Int128)
    requires x.Valid() && x.V() == MIN
    ensures x.hi == -0x8000_0000_0000_0000 && x.lo == 0
  {
  }

  // Truncated division fails for MIN alone: there the result is 0 with remainder MIN.
  lemma MinIsNotDivided(b: int)
    requires MIN < b < -MIN && b != 0
    ensures 0 != TruncQuotient(MIN, b)
  {
    QuotientPositive(Abs(MIN), Abs(b));
  }

  lemma QuotientPositive(a: nat, b: nat)
    requires 0 < b <= a
    ensures a / b > 0
  {
    assert a == a / b * b + a % b;
    DivShrinks(a, b);
  }
}
