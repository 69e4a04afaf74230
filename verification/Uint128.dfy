/** Unsigned 128-bit integers in two 64-bit limbs (src/util/uint128.h, src/util/uint128.cc). */
module Uint128s {
  import opened Bits

  // ----- values of limb computations -----

  lemma AddCarry(lo: nat, hi: nat, blo: nat, bhi: nat)
    requires lo < W && hi < W && blo < W && bhi < W
    ensures var l := (lo + blo) % W;
            var h := if l < lo then ((hi + bhi) % W + 1) % W else (hi + bhi) % W;
            l < W && h < W && Join(l, h) == (Join(lo, hi) + Join(blo, bhi)) % M
  {
    var l, c := (lo + blo) % W, if (lo + blo) % W < lo then 1 else 0;
    LowCarry(lo, blo);
    HighCarry(hi + bhi, c);
    hide Join;
    SumOfJoins(lo, hi, blo, bhi, l, c);
  }

  // The carry out of the low limbs shows in the sum being smaller than a summand.
  lemma LowCarry(lo: nat, blo: nat)
    requires lo < W && blo < W
    ensures lo + blo == (lo + blo) % W + (if (lo + blo) % W < lo then 1 else 0) * W
  {
  }

  lemma HighCarry(s: nat, c: nat)
    requires c <= 1
    ensures (if c == 1 then (s % W + 1) % W else s % W) == (s + c) % W
  {
  }

  lemma SumOfJoins(lo: nat, hi: nat, blo: nat, bhi: nat, l: nat, c: nat)
    requires lo + blo == l + c * W && l < W
    ensures (hi + bhi + c) % W < W && Join(l, (hi + bhi + c) % W) == (Join(lo, hi) + Join(blo, bhi)) % M
  {
    var s := hi + bhi + c;
    AddJoins(lo + blo, hi + bhi, l, c, s / W, s % W);
    JoinBound(l, s % W);
    JoinAdds(lo, hi, blo, bhi);
    hide Join;
    DivModUnique(Join(lo, hi) + Join(blo, bhi), M, s / W, Join(l, s % W));
  }

  lemma JoinAdds(lo: nat, hi: nat, blo: nat, bhi: nat)
    ensures Join(lo, hi) + Join(blo, bhi) == Join(lo + blo, hi + bhi)
  {
  }

  lemma AddJoins(x: nat, y: nat, l: nat, c: nat, q: nat, r: nat)
    requires x == l + c * W && y + c == q * W + r
    ensures Join(x, y) == Join(l, r) + q * M
  {
    assert q * W * W == q * M;
  }

  lemma NegateLimbs(lo: nat, hi: nat)
    requires lo < W && hi < W
    ensures lo == 0 ==> Join(0, (W - hi) % W) == (M - Join(lo, hi)) % M
    ensures lo != 0 ==> Join(W - lo, W - 1 - hi) == (M - Join(lo, hi)) % M
  {
  }

  lemma LessLimbs(lo: nat, hi: nat, blo: nat, bhi: nat)
    requires lo < W && hi < W && blo < W && bhi < W
    ensures (hi < bhi || (hi == bhi && lo < blo)) <==> Join(lo, hi) < Join(blo, bhi)
  {
  }

  // Shifts by a whole word or more.
  lemma ShlByWord(lo: nat, hi: nat, p: nat)
    requires lo < W && hi < W
    ensures Join(0, lo * p % W) == Join(lo, hi) * (p * W) % M
  {
    var x := lo * p;
    assert Join(lo, hi) * (p * W) == x * W + (hi * p) * M by {
      assert (lo + hi * W) * (p * W) == lo * (p * W) + (hi * W) * (p * W);
      assert lo * (p * W) == (lo * p) * W;
      assert (hi * W) * (p * W) == (hi * p) * M;
    }
    assert x == (x / W) * W + x % W;
    assert x * W == (x / W) * M + (x % W) * W;
    DivModUnique(Join(lo, hi) * (p * W), M, hi * p + x / W, (x % W) * W) by {
      assert (hi * p + x / W) * M == (hi * p) * M + (x / W) * M;
    }
  }

  lemma ShlWords(lo: nat, hi: nat, n: nat)
    requires lo < W && hi < W && n >= 64
    ensures n < 128 ==> Join(0, Shl64(lo, n - 64)) == Join(lo, hi) * Pow2(n) % M
    ensures n >= 128 ==> Join(lo, hi) * Pow2(n) % M == 0
  {
    hide Pow2, Join;
    Pow2Values();
    if n < 128 {
      Pow2Sum(n - 64, 64);
      ShlByWord(lo, hi, Pow2(n - 64));
    } else {
      var x, p := Join(lo, hi), Pow2(n - 128);
      Pow2Sum(n - 128, 128);
      assert x * (p * M) == (x * p) * M;
      MultipleOf(x * p, M);
    }
  }

  lemma ShrWords(lo: nat, hi: nat, n: nat)
    requires lo < W && hi < W && n >= 64
    ensures n < 128 ==> Join(Shr64(hi, n - 64), 0) == Join(lo, hi) / Pow2(n)
    ensures n >= 128 ==> Join(lo, hi) / Pow2(n) == 0
  {
    hide Pow2;
    Pow2Values();
    if n < 128 {
      Pow2Sum(64, n - 64);
      DivDiv(Join(lo, hi), W, Pow2(n - 64));
      DivModUnique(Join(lo, hi), W, hi, lo);
      DivShrinks(hi, Pow2(n - 64));
    } else {
      Pow2Grows(128, n);
      JoinBound(lo, hi);
      DivModUnique(Join(lo, hi), Pow2(n), 0, Join(lo, hi));
    }
  }

  // Bit n of a value.
  function BitOf(v: nat, n: nat): nat {
    v / Pow2(n) % 2
  }

  // v with bit n set or cleared.
  function WithBit(v: nat, n: nat, val: bool): (r: nat)
    ensures r / Pow2(n) % 2 == if val then 1 else 0
  {
    QuotientBit(v, Pow2(n));
    v + ((if val then 1 else 0) - BitOf(v, n)) * Pow2(n)
  }

  lemma QuotientBit(x: nat, p: nat)
    requires p > 0
    ensures 0 <= x / p % 2 * p <= x
    ensures forall d: int :: (x + d * p) / p == x / p + d
  {
    var t := x / p;
    assert x == t * p + x % p;
    MulMono(t % 2, t, p);
    forall d: int ensures (x + d * p) / p == t + d {
      DivModUnique(x + d * p, p, t + d, x % p);
    }
  }

  lemma LowBit(lo: nat, hi: nat, p: nat, q: nat)
    requires p > 0 && p * (2 * q) == W
    ensures Join(lo, hi) / p % 2 == lo / p % 2
  {
    ShrJoin(lo, hi, p, 2 * q);
    assert hi % p * (2 * q) == (hi % p * q) * 2;
    assert hi / p * W == (hi / p * 0x8000_0000_0000_0000) * 2;
    ModOfMultiple(lo / p, hi % p * q + hi / p * 0x8000_0000_0000_0000, 2);
  }

  lemma BitLimbs(lo: nat, hi: nat, n: nat)
    requires lo < W && hi < W && n < 128
    ensures n < 64 ==> BitOf(Join(lo, hi), n) == BitOf(lo, n)
    ensures n >= 64 ==> BitOf(Join(lo, hi), n) == BitOf(hi, n - 64)
  {
    Pow2Values();
    if n < 64 {
      Pow2Sum(n, 64 - n);
      assert Pow2(64 - n) == 2 * Pow2(63 - n);
      hide Pow2;
      LowBit(lo, hi, Pow2(n), Pow2(63 - n));
    } else {
      Pow2Sum(64, n - 64);
      hide Pow2;
      DivDiv(Join(lo, hi), W, Pow2(n - 64));
      DivModUnique(Join(lo, hi), W, hi, lo);
    }
  }

  class Uint128 {
    var lo: nat
    var hi: nat

    ghost predicate Valid()
      reads this
    {
      lo < W && hi < W
    }

    // The number the limbs stand for.
    ghost function V(): nat
      reads this
    {
      Join(lo, hi)
    }

    constructor (a: nat, b: nat)
      requires a < W && b < W
      ensures Valid() && lo == a && hi == b
    {
      lo, hi := a, b;
    }

    // operator+=, also for b == this
    method AddAssign(b: Uint128)
      requires Valid() && b.Valid()
      modifies this
      ensures Valid() && V() == (old(V()) + old(b.V())) % M
    {
      AddCarry(lo, hi, b.lo, b.hi);
      var oldLo := lo;
      var bhi := b.hi;
      lo := (lo + b.lo) % W;
      hi := (hi + bhi) % W;
      if lo < oldLo { hi := (hi + 1) % W; }
    }

    // operator-
    method Negated() returns (r: Uint128)
      requires Valid()
      ensures fresh(r) && r.Valid() && r.V() as int == (M as int - V()) % M
    {
      JoinBound(lo, hi);
      NegateLimbs(lo, hi);
      if lo == 0 {
        r := new Uint128(0, (W - hi) % W);
      } else {
        r := new Uint128(W - lo, W - 1 - hi);
      }
    }

    // operator-=
    method SubAssign(b: Uint128)
      requires Valid() && b.Valid()
      modifies this
      ensures Valid() && V() == (old(V()) as int - old(b.V())) % M
    {
      ghost var x: int, y: int := V(), b.V();
      var n := b.Negated();
      AddAssign(n);
      ModSum(M - y, x, M);
      ModOfMultiple(x - y, 1, M);
    }

    // operator<
    predicate Less(b: Uint128)
      requires Valid() && b.Valid()
      reads this, b
      ensures Less(b) <==> V() < b.V()
    {
      LessLimbs(lo, hi, b.lo, b.hi);
      hi < b.hi || (hi == b.hi && lo < b.lo)
    }

    // operator<<=
    method ShlAssign(n: nat)
      requires Valid()
      modifies this
      ensures Valid() && V() == old(V()) * Pow2(n) % M
    {
      hide Pow2, And, Or, Join, Shl64, Shr64, Not64;
      if n >= 128 {
        ShlWords(lo, hi, n);
        JoinZero();
        lo, hi := 0, 0;
      } else if n >= 64 {
        ShlWords(lo, hi, n);
        hi := Shl64(lo, n - 64);
        lo := 0;
      } else if n > 0 {
        ShlLimbs(lo, hi, n);
        hi := Shl64(hi, n);
        var mask := Not64(Pow2(64 - n) - 1);
        hi := Or(hi, Shr64(And(lo, mask), 64 - n));
        lo := Shl64(lo, n);
      } else {
        JoinBound(lo, hi);
        Pow2Zero();
        DivModUnique(V(), M, 0, V());
      }
    }

    // operator>>=
    method ShrAssign(n: nat)
      requires Valid()
      modifies this
      ensures Valid() && V() == old(V()) / Pow2(n)
    {
      hide Pow2, And, Or, Join, Shl64, Shr64, Not64;
      if n >= 128 {
        ShrWords(lo, hi, n);
        JoinZero();
        lo, hi := 0, 0;
      } else if n >= 64 {
        ShrWords(lo, hi, n);
        lo := Shr64(hi, n - 64);
        hi := 0;
      } else if n > 0 {
        ShrLimbs(lo, hi, n);
        lo := Shr64(lo, n);
        var mask := Pow2(n) - 1;
        lo := Or(lo, Shl64(And(hi, mask), 64 - n));
        hi := Shr64(hi, n);
      } else {
        Pow2Zero();
      }
    }

    // bit(n)
    predicate Bit(n: nat)
      requires Valid()
      reads this
    {
      if n < 64 then And(lo, Pow2(n)) != 0
      else if n < 128 then And(hi, Pow2(n - 64)) != 0
      else false
    }

    // bit(n, val): bit n becomes val, the others stay.
    method SetBit(n: nat, val: bool)
      requires Valid()
      modifies this
      ensures Valid() && V() == if n < 128 then WithBit(old(V()), n, val) else old(V())
    {
      if n >= 128 { return; }
      hide And, Or, WithBit, Pow2, Join;
      if n < 64 {
        BitOfWord(lo, n);
        LowWithBit(lo, hi, n, val);
        lo := if val then Or(lo, Pow2(n)) else And(lo, Not64(Pow2(n)));
      } else {
        BitOfWord(hi, n - 64);
        HighWithBit(lo, hi, n, val);
        hi := if val then Or(hi, Pow2(n - 64)) else And(hi, Not64(Pow2(n - 64)));
      }
    }

    // operator*=, by shifting and adding; also for b == this
    method MulAssign(b: Uint128)
      requires Valid() && b.Valid()
      modifies this
      ensures Valid() && V() == old(V()) * old(b.V()) % M
    {
      JoinBound(lo, hi);
      if b.lo == 0 && b.hi == 0 {
        lo, hi := 0, 0;
        return;
      }
      if b.lo == 1 && b.hi == 0 {
        DivModUnique(V(), M, 0, V());
        return;
      }
      var a := new Uint128(lo, hi);
      var t := new Uint128(b.lo, b.hi);
      ShiftAndAdd(a, t);
    }

    // The loop of operator*=.
    method ShiftAndAdd(a: Uint128, t: Uint128)
      requires a.Valid() && t.Valid() && a != this && t != this && a != t
      modifies this, t
      ensures Valid() && V() == old(a.V()) * old(t.V()) % M
    {
      hide Pow2, And, Join, MulState;
      ghost var x, y := a.V(), t.V();
      JoinBound(t.lo, t.hi);
      lo, hi := 0, 0;
      MulStarts(x, y);
      for i := 0 to 128
        invariant Valid() && t.Valid() && MulState(x, y, V(), t.V(), i)
      {
        LowestBit(t.lo, t.hi);
        MulStep(x, y, V(), t.V(), i);
        if And(t.lo, 1) != 0 {
          var s := new Uint128(a.lo, a.hi);
          s.ShlAssign(i);
          AddAssign(s);
        }
        t.ShrAssign(1);
      }
      MulDone(x, y, V(), t.V());
    }

    // The division of this by ds, bit by bit, with quotient and remainder. The remainder may be
    // stored into either operand.
    method Div(ds: Uint128, remainder: Uint128) returns (q: Uint128)
      requires Valid() && ds.Valid() && remainder.Valid() && ds.V() != 0
      modifies remainder
      ensures q.Valid() && remainder.Valid() && fresh(q)
      ensures q.V() == old(V()) / old(ds.V()) && remainder.V() == old(V()) % old(ds.V())
    {
      var dd := new Uint128(lo, hi);
      q := new Uint128(0, 0);
      JoinBound(lo, hi);
      if dd.Less(ds) {
        DivModUnique(V(), ds.V(), 0, V());
        remainder.lo, remainder.hi := dd.lo, dd.hi;
        return;
      }
      var r := new Uint128(0, 0);
      var b := Align(dd, ds, r);
      DivLoop(dd, ds, r, q, b);
      remainder.lo, remainder.hi := r.lo, r.hi;
    }
  }

  // The first loop of div: r takes bits of dd from the top until it is at least ds. The bit
  // counter, a uint32_t, wraps below zero when all bits are taken, and ++b wraps it back.
  method Align(dd: Uint128, ds: Uint128, r: Uint128) returns (b: nat)
    requires dd.Valid() && ds.Valid() && r.Valid() && r != dd && r != ds
    requires 0 < ds.V() <= dd.V() && r.V() == 0
    modifies r
    ensures r.Valid() && b < 128 && r.V() == dd.V() / Pow2(b) && ds.V() <= r.V() < 2 * ds.V()
  {
    hide Pow2, And, Or;
    ghost var k := 128;
    Pow2Values();
    JoinBound(dd.lo, dd.hi);
    DivModUnique(dd.V(), M, 0, dd.V());
    b := 127;
    while r.Less(ds)
      invariant r.Valid() && k <= 128 && b == if k == 0 then 0xffff_ffff else k - 1
      invariant r.V() == dd.V() / Pow2(k) && (k < 128 ==> r.V() < 2 * ds.V())
      invariant k == 128 ==> r.V() == 0
      decreases k
    {
      if k == 0 {
        Pow2Zero();
        assert false;
      }
      NextBit(dd.V(), b);
      TakeBit(dd, r, b);
      k := k - 1;
      b := if b == 0 then 0xffff_ffff else b - 1;
    }
    b := if b == 0xffff_ffff then 0 else b + 1;
  }

  // The next bit of the dividend moves into the remainder. The shift loses nothing.
  method TakeBit(dd: Uint128, r: Uint128, b: nat)
    requires dd.Valid() && r.Valid() && r != dd && b < 128 && 2 * r.V() + BitOf(dd.V(), b) < M
    modifies r
    ensures r.Valid() && r.V() == 2 * old(r.V()) + BitOf(dd.V(), b)
  {
    hide Pow2, And, Or, Join, BitOf;
    Pow2One();
    BitIsBit(dd.V(), b);
    DivModUnique(2 * r.V(), M, 0, 2 * r.V());
    r.ShlAssign(1);
    BitIsTested(dd, b);
    if dd.Bit(b) {
      SetLowest(r.lo, r.hi);
      r.lo := Or(r.lo, 1);
    }
  }

  // The second loop of div: subtract and shift. q has the quotient of the bits taken so far.
  method DivLoop(dd: Uint128, ds: Uint128, r: Uint128, q: Uint128, b0: nat)
    requires dd.Valid() && ds.Valid() && r.Valid() && q.Valid() && r !in {dd, ds, q} && q !in {dd, ds}
    requires 0 < ds.V() && b0 < 128 && q.V() == 0 && r.V() == dd.V() / Pow2(b0) && r.V() < 2 * ds.V()
    modifies r, q
    ensures r.Valid() && q.Valid() && q.V() == dd.V() / ds.V() && r.V() == dd.V() % ds.V()
  {
    hide Pow2, And, Or, BitOf, Join, DivState;
    JoinBound(dd.lo, dd.hi);
    JoinBound(ds.lo, ds.hi);
    var b := b0;
    ghost var d, s, t := dd.V(), ds.V(), 0;
    DivStarts(d, s, r.V(), b);
    while true
      invariant r.Valid() && q.Valid() && b < 128 && t >= 0
      invariant DivState(d, s, r.V(), q.V(), t, b)
      decreases b, if r.V() >= s then 1 else 0
    {
      if r.Less(ds) {
        if b == 0 { break; }
        b := b - 1;
        DivShift(d, s, r.V(), q.V(), t, b);
        TakeBit(dd, r, b);
        t := 2 * t;
      } else {
        DivSubtract(d, s, r.V(), q.V(), t, b);
        r.SubAssign(ds);
        q.SetBit(b, true);
        t := t + 1;
      }
    }
    DivDone(d, s, r.V(), q.V(), t);
  }

  lemma BitIsTested(x: Uint128, n: nat)
    requires x.Valid() && n < 128
    ensures x.Bit(n) <==> BitOf(x.V(), n) == 1
  {
    hide Pow2, And, Join;
    BitLimbs(x.lo, x.hi, n);
    if n < 64 {
      AndBit(x.lo, n);
      BitNonZero(BitOf(x.lo, n), Pow2(n));
    } else {
      AndBit(x.hi, n - 64);
      BitNonZero(BitOf(x.hi, n - 64), Pow2(n - 64));
    }
  }

  lemma BitIsBit(v: nat, n: nat)
    ensures BitOf(v, n) == 0 || BitOf(v, n) == 1
  {
  }

  lemma BitNonZero(v: nat, p: nat)
    requires p > 0 && v < 2
    ensures v * p != 0 <==> v == 1
  {
  }

  lemma JoinZero()
    ensures Join(0, 0) == 0
  {
  }

  lemma Pow2Zero()
    ensures Pow2(0) == 1
  {
  }

  // Setting and clearing a bit of one word.
  lemma BitOfWord(x: nat, n: nat)
    requires x < W && n < 64
    ensures Pow2(n) < W && Or(x, Pow2(n)) < W && And(x, Not64(Pow2(n))) < W
    ensures Or(x, Pow2(n)) == WithBit(x, n, true) && And(x, Not64(Pow2(n))) == WithBit(x, n, false)
  {
    SetInWord(x, n);
    ClearInWord(x, n);
  }

  lemma SetInWord(x: nat, n: nat)
    requires x < W && n < 64
    ensures Or(x, Pow2(n)) < W && Or(x, Pow2(n)) == WithBit(x, n, true)
  {
    hide And, Or, Pow2;
    if BitOf(x, n) == 0 {
      OrBit(x, n);
      RoomForBit(x, n);
    } else {
      OrSetBit(x, n);
    }
  }

  lemma ClearInWord(x: nat, n: nat)
    requires x < W && n < 64
    ensures Pow2(n) < W && And(x, Not64(Pow2(n))) < W && And(x, Not64(Pow2(n))) == WithBit(x, n, false)
  {
    hide And, Or, Pow2;
    Pow2Values();
    Pow2Grows(n, 64);
    AndClearBit(x, n, 64);
    QuotientBit(x, Pow2(n));
    assert (0 - BitOf(x, n)) * Pow2(n) == -(x / Pow2(n) % 2 * Pow2(n));
  }

  lemma LowWithBit(lo: nat, hi: nat, n: nat, val: bool)
    requires lo < W && hi < W && n < 64 && WithBit(lo, n, val) >= 0
    ensures Join(WithBit(lo, n, val), hi) == WithBit(Join(lo, hi), n, val)
  {
    BitLimbs(lo, hi, n);
  }

  lemma Scale(hi: int, d: int, p: int)
    ensures (hi + d * p) * W == hi * W + d * (W * p)
  {
  }

  lemma HighWithBit(lo: nat, hi: nat, n: nat, val: bool)
    requires lo < W && hi < W && 64 <= n < 128 && WithBit(hi, n - 64, val) >= 0
    ensures Join(lo, WithBit(hi, n - 64, val)) == WithBit(Join(lo, hi), n, val)
  {
    BitLimbs(lo, hi, n);
    Pow2Values();
    Pow2Sum(64, n - 64);
    hide Pow2, BitOf;
    Scale(hi, (if val then 1 else 0) - BitOf(hi, n - 64), Pow2(n - 64));
  }

  // A word with bit n clear stays a word when the bit is set.
  lemma RoomForBit(x: nat, n: nat)
    requires x < W && n < 64 && BitOf(x, n) == 0
    ensures x + Pow2(n) < W
  {
    Pow2Values();
    Pow2Sum(n, 64 - n);
    assert Pow2(64 - n) == 2 * Pow2(63 - n);
    RoomBelow(x, Pow2(n), Pow2(63 - n), W);
  }

  lemma RoomBelow(x: nat, p: nat, q: nat, w: nat)
    requires p > 0 && p * (2 * q) == w && x < w && x / p % 2 == 0
    ensures x + p < w
  {
    QuotientBound(x, 2 * q, p);
    var t := x / p;
    assert x == t * p + x % p;
    assert t + 2 <= 2 * q;
    MulMono(t + 2, 2 * q, p);
    assert (t + 2) * p == t * p + 2 * p;
  }

  // ----- steps of multiplication and division -----

  lemma LowestBit(lo: nat, hi: nat)
    ensures And(lo, 1) == lo % 2 == Join(lo, hi) % 2
  {
    AndBit(lo, 0);
    Pow2Zero();
    hide And, Pow2;
    assert hi * W == (hi * 0x8000_0000_0000_0000) * 2;
    ModOfMultiple(lo, hi * 0x8000_0000_0000_0000, 2);
  }

  lemma SetLowest(lo: nat, hi: nat)
    requires lo < W && Join(lo, hi) % 2 == 0
    ensures Or(lo, 1) < W && Join(Or(lo, 1), hi) == Join(lo, hi) + 1
  {
    assert Pow2(0) == 1;
    OrBit(lo, 0);
  }

  lemma Pow2One()
    ensures Pow2(1) == 2
  {
  }

  lemma Pow2Step(b: nat)
    ensures Pow2(b + 1) == 2 * Pow2(b)
  {
  }

  // The shift-and-add loop before its i-th pass: v has x times the low i bits of y, t the others.
  ghost predicate MulState(x: nat, y: nat, v: nat, t: nat, i: nat) {
    v == x * (y % Pow2(i)) % M && t == y / Pow2(i)
  }

  lemma MulStarts(x: nat, y: nat)
    ensures MulState(x, y, Join(0, 0), y, 0)
  {
  }

  lemma MulStep(x: nat, y: nat, v: nat, t: nat, i: nat)
    requires MulState(x, y, v, t, i)
    ensures t % 2 == 0 ==> MulState(x, y, v, t / Pow2(1), i + 1)
    ensures t % 2 == 1 ==> MulState(x, y, (v + x * Pow2(i) % M) % M, t / Pow2(1), i + 1)
  {
    Pow2Step(i);
    Pow2One();
    hide Pow2;
    DivDiv(y, Pow2(i), 2);
    if t % 2 == 1 {
      MulAdds(x, y % Pow2(i), Pow2(i));
    }
  }

  lemma MulAdds(x: nat, a: nat, b: nat)
    ensures (x * a % M + x * b % M) % M == x * (a + b) % M
  {
    Distribute(a, b, x);
    ModSum(x * a, x * b, M);
  }

  lemma MulDone(x: nat, y: nat, v: nat, t: nat)
    requires MulState(x, y, v, t, 128) && y < M
    ensures v == x * y % M
  {
    Pow2Values();
    DivModUnique(y, M, 0, y);
  }

  lemma NextBit(d: nat, b: nat)
    ensures d / Pow2(b) == 2 * (d / Pow2(b + 1)) + BitOf(d, b)
    ensures d / Pow2(b) <= d
  {
    Pow2Step(b);
    hide Pow2;
    DivDiv(d, Pow2(b), 2);
    DivShrinks(d, Pow2(b));
  }

  // The second loop of div with the bits of d from b on taken: t is their quotient by s, r the
  // rest of it, still to be reduced at most once, and q has t in place.
  ghost predicate DivState(d: nat, s: nat, r: nat, q: nat, t: nat, b: nat) {
    r + t * s == d / Pow2(b) && r < 2 * s && q == t * Pow2(b) && (r >= s ==> t % 2 == 0)
  }

  lemma DivStarts(d: nat, s: nat, r: nat, b: nat)
    requires r == d / Pow2(b) && r < 2 * s
    ensures DivState(d, s, r, 0, 0, b)
  {
  }

  lemma DivShift(d: nat, s: nat, r: nat, q: nat, t: nat, b: nat)
    requires d < M && DivState(d, s, r, q, t, b + 1) && r < s
    ensures DivState(d, s, 2 * r + BitOf(d, b), q, 2 * t, b)
    ensures 2 * r + BitOf(d, b) < M
  {
    NextBit(d, b);
    Pow2Step(b);
    BitIsBit(d, b);
    hide Pow2, BitOf;
    ShiftParts(d / Pow2(b + 1), BitOf(d, b), s, r, t, Pow2(b));
  }

  // Arithmetic of a shift: e is the part of the dividend taken so far, c the next bit.
  lemma ShiftParts(e: int, c: int, s: nat, r: nat, t: nat, p: int)
    requires r + t * s == e
    ensures 2 * r + c + 2 * t * s == 2 * e + c && t * (2 * p) == 2 * t * p && 2 * r + c <= 2 * e + c
  {
    Associate(2, t, s);
    Associate(t, 2, p);
    MulMono(0, t, s);
  }

  lemma DivSubtract(d: nat, s: nat, r: nat, q: nat, t: nat, b: nat)
    requires DivState(d, s, r, q, t, b) && s <= r && s < M
    ensures (r - s) % M == r - s < s && BitOf(q, b) == 0
    ensures DivState(d, s, r - s, q + Pow2(b), t + 1, b)
  {
    hide Pow2;
    assert (t + 1) * s == t * s + s;
    DivModUnique(r - s, M, 0, r - s);
    MultipleOf(t, Pow2(b));
    assert (t + 1) * Pow2(b) == t * Pow2(b) + Pow2(b);
  }

  lemma DivDone(d: nat, s: nat, r: nat, q: nat, t: nat)
    requires DivState(d, s, r, q, t, 0) && r < s
    ensures q == d / s && r == d % s
  {
    Pow2Zero();
    DivModUnique(d, s, t, r);
  }
}
