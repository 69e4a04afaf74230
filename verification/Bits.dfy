/** 64-bit words as natural numbers: powers of two, the bitwise operators of C, and the
    arithmetic they stand for. */
module Bits {

  function Pow2(n: nat): (p: nat)
    ensures p >= 1
  {
    if n == 0 then 1 else 2 * Pow2(n - 1)
  }

  const W: nat := 0x1_0000_0000_0000_0000
  const M: nat := 0x1_0000_0000_0000_0000_0000_0000_0000_0000

  // a & b and a | b, bit by bit
  function And(a: nat, b: nat): nat {
    if a == 0 || b == 0 then 0 else 2 * And(a / 2, b / 2) + (if a % 2 == 1 && b % 2 == 1 then 1 else 0)
  }

  function Or(a: nat, b: nat): nat
    decreases a + b
  {
    if a == 0 then b else if b == 0 then a
    else 2 * Or(a / 2, b / 2) + (if a % 2 == 1 || b % 2 == 1 then 1 else 0)
  }

  // ----- division -----

  lemma DivModUnique(x: int, m: int, q: int, r: int)
    requires m > 0 && x == q * m + r && 0 <= r < m
    ensures x / m == q && x % m == r
  {
    var q0, r0 := x / m, x % m;
    assert x == q0 * m + r0;
    assert (q - q0) * m == r0 - r;
    if q > q0 {
      MulMono(1, q - q0, m);
    } else if q < q0 {
      assert (q0 - q) * m == r - r0;
      MulMono(1, q0 - q, m);
    }
  }

  lemma MulMono(a: int, b: int, m: int)
    requires a <= b && m >= 0
    ensures a * m <= b * m
  {
  }

  lemma ModOfMultiple(x: int, q: int, m: int)
    requires m > 0
    ensures (x + q * m) % m == x % m
  {
    DivModUnique(x + q * m, m, x / m + q, x % m);
  }

  lemma ModSum(x: int, y: int, m: int)
    requires m > 0
    ensures (x % m + y) % m == (x + y) % m
    ensures (x % m + y % m) % m == (x + y) % m
  {
    ModOfMultiple(x % m + y, x / m, m);
    assert x % m + y + (x / m) * m == x + y;
    ModOfMultiple(x % m + y % m, y / m, m);
    assert x % m + y % m + (y / m) * m == x % m + y;
  }

  lemma Distribute(a: int, b: int, c: int)
    ensures (a + b) * c == a * c + b * c && c * (a + b) == c * a + c * b
  {
  }

  lemma Associate(a: int, b: int, c: int)
    ensures a * b * c == a * (b * c) && a * b * c == a * c * b
  {
  }

  lemma ModProduct(x: int, y: int, m: int)
    requires m > 0
    ensures ((x % m) * y) % m == (x * y) % m
  {
    var q, r := x / m, x % m;
    assert x == q * m + r;
    assert x * y == r * y + (q * y) * m by {
      Distribute(q * m, r, y);
      Associate(q, m, y);
    }
    ModOfMultiple(r * y, q * y, m);
  }

  // Dividing by a * b is dividing by a and then by b.
  lemma DivDiv(x: int, a: int, b: int)
    requires a > 0 && b > 0
    ensures a * b > 0 && x / a / b == x / (a * b)
    ensures x % (a * b) == x % a + (x / a % b) * a
  {
    MulMono(1, a, b);
    var t := x / a;
    DivDivParts(x, a, b, t, x % a, t / b, t % b);
  }

  lemma DivDivParts(x: int, a: int, b: int, t: int, u: int, q: int, v: int)
    requires a > 0 && b > 0 && a * b > 0 && x == t * a + u && 0 <= u < a && t == q * b + v && 0 <= v < b
    ensures x / (a * b) == q && x % (a * b) == u + v * a
  {
    assert x == q * (a * b) + (u + v * a) by {
      Distribute(q * b, v, a);
      Associate(q, b, a);
      Associate(q, a, b);
    }
    MulMono(0, v, a);
    MulMono(v, b - 1, a);
    Distribute(b, -1, a);
    DivModUnique(x, a * b, q, u + v * a);
  }

  lemma DivShrinks(x: nat, p: nat)
    requires p > 0
    ensures 0 <= x / p <= x
  {
    assert x == (x / p) * p + x % p;
    if x / p > x {
      MulMono(1, p, x / p);
    }
  }

  // ----- powers -----

  lemma {:induction false} Pow2Sum(a: nat, b: nat)
    ensures Pow2(a + b) == Pow2(a) * Pow2(b)
  {
    if a > 0 {
      Pow2Sum(a - 1, b);
      assert 2 * Pow2(a - 1) * Pow2(b) == Pow2(a) * Pow2(b);
    }
  }

  lemma Pow2Double(n: nat, v: nat)
    requires Pow2(n) == v
    ensures Pow2(n + n) == v * v
  {
    Pow2Sum(n, n);
  }

  lemma Pow2Values()
    ensures Pow2(64) == W && Pow2(128) == M && W * W == M
  {
    assert Pow2(4) == 16;
    Pow2Double(4, 16);
    Pow2Double(8, 256);
    Pow2Double(16, 0x1_0000);
    Pow2Double(32, 0x1_0000_0000);
    Pow2Double(64, W);
  }

  lemma Pow2Grows(a: nat, b: nat)
    requires a <= b
    ensures Pow2(a) <= Pow2(b)
    decreases b - a
  {
    if a < b { Pow2Grows(a, b - 1); }
  }

  // ----- bits -----

  // x / 2 against a power of two one smaller.
  lemma HalfOf(x: nat, n: nat)
    requires n > 0
    ensures x / Pow2(n) == x / 2 / Pow2(n - 1)
    ensures x % Pow2(n) == 2 * (x / 2 % Pow2(n - 1)) + x % 2
  {
    DivDiv(x, 2, Pow2(n - 1));
  }

  // Masking the low n bits.
  lemma {:induction false} AndLow(x: nat, n: nat)
    ensures And(x, Pow2(n) - 1) == x % Pow2(n)
  {
    if n > 0 {
      HalfOf(x, n);
      AndLow(x / 2, n - 1);
      AndOdd(x, Pow2(n - 1) - 1);
    }
  }

  lemma AndEven(x: nat, h: nat)
    ensures And(x, 2 * h) == 2 * And(x / 2, h)
  {
    assert 2 * h / 2 == h && 2 * h % 2 == 0;
  }

  lemma AndAll(x: nat, m: nat)
    requires x < Pow2(m)
    ensures And(x, Pow2(m) - 1) == x
  {
    AndLow(x, m);
    DivModUnique(x, Pow2(m), 0, x);
  }

  // Masking everything but the low n bits of an m-bit word.
  lemma AndHigh(x: nat, n: nat, m: nat)
    requires n <= m && x < Pow2(m)
    ensures Pow2(m) - Pow2(n) >= 0 && And(x, Pow2(m) - Pow2(n)) == x - x % Pow2(n)
  {
    AndHighAndLow(x, n, m);
    AndLow(x, n);
  }

  // The low n bits and the rest of an m-bit word make up the word.
  lemma {:induction false} AndHighAndLow(x: nat, n: nat, m: nat)
    requires n <= m && x < Pow2(m)
    ensures Pow2(m) - Pow2(n) >= 0 && And(x, Pow2(m) - Pow2(n)) + And(x, Pow2(n) - 1) == x
  {
    hide And;
    Pow2Grows(n, m);
    if n == 0 {
      AndAll(x, m);
      AndZero(x);
    } else {
      Pow2Half(x, m);
      Pow2Half(0, n);
      AndHighAndLow(x / 2, n - 1, m - 1);
      AndEven(x, Pow2(m - 1) - Pow2(n - 1));
      AndOdd(x, Pow2(n - 1) - 1);
    }
  }

  lemma Pow2Half(x: nat, m: nat)
    requires m > 0 && x < Pow2(m)
    ensures Pow2(m) == 2 * Pow2(m - 1) && x / 2 < Pow2(m - 1)
  {
  }

  lemma {:induction false} AndZero(x: nat)
    ensures And(x, 0) == 0 && And(0, x) == 0
  {
  }

  // Testing bit n.
  lemma {:induction false} AndBit(x: nat, n: nat)
    ensures And(x, Pow2(n)) == (x / Pow2(n) % 2) * Pow2(n)
  {
    if n == 0 {
      assert And(x / 2, 0) == 0;
    } else {
      AndBit(x / 2, n - 1);
      HalfOf(x, n);
      assert Pow2(n) / 2 == Pow2(n - 1) && Pow2(n) % 2 == 0;
    }
  }

  // Joining words that have no bit in common.
  lemma {:induction false} OrDisjoint(a: nat, b: nat, n: nat)
    requires a % Pow2(n) == 0 && b < Pow2(n)
    ensures Or(a, b) == a + b
  {
    if n > 0 && a > 0 && b > 0 {
      HalfOf(a, n);
      OrDisjoint(a / 2, b / 2, n - 1);
    }
  }

  // Setting bit n, which was clear.
  lemma {:induction false} OrBit(x: nat, n: nat)
    requires x / Pow2(n) % 2 == 0
    ensures Or(x, Pow2(n)) == x + Pow2(n)
  {
    if n > 0 && x > 0 {
      HalfOf(x, n);
      OrBit(x / 2, n - 1);
      assert Pow2(n) / 2 == Pow2(n - 1) && Pow2(n) % 2 == 0;
    } else if x > 0 {
      assert Or(x / 2, 0) == x / 2;
    }
  }

  // Setting bit n, which was set.
  lemma {:induction false} OrSetBit(x: nat, n: nat)
    requires x / Pow2(n) % 2 == 1
    ensures Or(x, Pow2(n)) == x
  {
    if n > 0 {
      HalfOf(x, n);
      OrSetBit(x / 2, n - 1);
      assert Pow2(n) / 2 == Pow2(n - 1) && Pow2(n) % 2 == 0;
    } else {
      assert Or(x / 2, 0) == x / 2;
    }
  }

  // Clearing bit n of an m-bit word.
  lemma AndClearBit(x: nat, n: nat, m: nat)
    requires n < m && x < Pow2(m)
    ensures Pow2(m) - 1 - Pow2(n) >= 0
    ensures And(x, Pow2(m) - 1 - Pow2(n)) == x - (x / Pow2(n) % 2) * Pow2(n)
  {
    AndSplit(x, n, m);
    AndBit(x, n);
  }

  // A bit and the rest of an m-bit word make up the word.
  lemma {:induction false} AndSplit(x: nat, n: nat, m: nat)
    requires n < m && x < Pow2(m)
    ensures Pow2(m) - 1 - Pow2(n) >= 0
    ensures And(x, Pow2(m) - 1 - Pow2(n)) + And(x, Pow2(n)) == x
  {
    hide And;
    Pow2Grows(n + 1, m);
    Pow2Half(x, m);
    if n == 0 {
      SplitLowest(x, m - 1);
    } else {
      Pow2Half(0, n);
      AndSplit(x / 2, n - 1, m - 1);
      SplitHigher(x, Pow2(m - 1), Pow2(n - 1));
    }
  }

  lemma SplitLowest(x: nat, m: nat)
    requires x / 2 < Pow2(m)
    ensures And(x, 2 * (Pow2(m) - 1)) + And(x, 1) == x
  {
    AndAll(x / 2, m);
    AndEven(x, Pow2(m) - 1);
    AndOdd(x, 0);
    AndZero(x / 2);
  }

  lemma SplitHigher(x: nat, a: nat, b: nat)
    requires a - 1 - b >= 0 && And(x / 2, a - 1 - b) + And(x / 2, b) == x / 2
    ensures And(x, 2 * a - 1 - 2 * b) + And(x, 2 * b) == x
  {
    AndOdd(x, a - 1 - b);
    AndEven(x, b);
  }

  lemma AndOdd(x: nat, h: nat)
    ensures And(x, 2 * h + 1) == 2 * And(x / 2, h) + x % 2
  {
    AndZero(h);
  }

  // x << n, x >> n and ~x on 64-bit words
  function Shl64(x: nat, n: nat): (r: nat)
    ensures r < W
  {
    x * Pow2(n) % W
  }

  function Shr64(x: nat, n: nat): (r: nat)
    ensures r <= x
  {
    DivShrinks(x, Pow2(n));
    x / Pow2(n)
  }

  function Not64(x: nat): nat
    requires x < W
  {
    W - 1 - x
  }

  // ----- two-word shifts -----

  // The two words of a 128-bit value.
  function Join(lo: nat, hi: nat): (v: nat)
    ensures v >= lo
  {
    lo + hi * W
  }

  lemma JoinBound(lo: nat, hi: nat)
    requires lo < W && hi < W
    ensures Join(lo, hi) < M
  {
  }

  // Multiplying x by p modulo w == p * q: what stays and what is pushed out.
  lemma PushOut(x: nat, p: nat, q: nat, w: nat)
    requires p > 0 && q > 0 && p * q == w
    ensures x * p == (x / q) * w + (x % q) * p
    ensures w > 0 && x * p % w == (x % q) * p && x * p / w == x / q
    ensures x * p % w <= w - p
  {
    var t, r := x / q, x % q;
    assert x == t * q + r;
    assert x * p == t * w + r * p by {
      assert (t * q + r) * p == t * (p * q) + r * p;
    }
    MulMono(r, q - 1, p);
    assert (q - 1) * p == w - p;
    MulMono(0, r, p);
    DivModUnique(x * p, w, t, r * p);
  }

  lemma QuotientBound(x: nat, p: nat, q: nat)
    requires q > 0 && x < p * q
    ensures x / q < p
  {
    assert x == (x / q) * q + x % q;
    if x / q >= p {
      MulMono(p, x / q, q);
    }
  }

  lemma MultipleOf(x: nat, p: nat)
    requires p > 0
    ensures x * p % p == 0 && x * p / p == x
  {
    DivModUnique(x * p, p, x, 0);
  }

  // The value of the shifted words.
  lemma ShlValue(lo: nat, hi: nat, p: nat, q: nat)
    requires p > 0 && q > 0 && p * q == W && lo < W && hi < W
    ensures lo / q < p && hi * p % W + lo / q < W
    ensures Join(lo * p % W, hi * p % W + lo / q) == Join(lo, hi) * p % M
  {
    PushOut(lo, p, q, W);
    PushOut(hi, p, q, W);
    QuotientBound(lo, p, q);
    var h := hi * p % W + lo / q;
    var l := lo * p % W;
    assert Join(lo, hi) * p == lo * p + (hi * p) * W;
    assert hi * p == (hi * p / W) * W + hi * p % W;
    assert (hi * p) * W == (hi * p / W) * M + (hi * p % W) * W;
    assert Join(lo, hi) * p == (hi * p / W) * M + Join(l, h);
    JoinBound(l, h);
    DivModUnique(Join(lo, hi) * p, M, hi * p / W, Join(l, h));
  }

  // << by less than a word, as the limbs compute it.
  lemma ShlLimbs(lo: nat, hi: nat, n: nat)
    requires lo < W && hi < W && 0 < n < 64
    ensures Pow2(64 - n) - 1 < W
    ensures var h := Or(Shl64(hi, n), Shr64(And(lo, Not64(Pow2(64 - n) - 1)), 64 - n));
            h < W && Join(Shl64(lo, n), h) == Join(lo, hi) * Pow2(n) % M
  {
    hide Pow2, And, Or, Join;
    var p, q := Pow2(n), Pow2(64 - n);
    Pow2Values();
    Pow2Grows(64 - n, 64);
    Pow2Sum(n, 64 - n);
    ShlValue(lo, hi, p, q);
    AndHigh(lo, 64 - n, 64);
    assert W - 1 - (q - 1) == W - q;
    assert And(lo, W - q) == (lo / q) * q;
    MultipleOf(lo / q, q);
    PushOut(hi, p, q, W);
    MultipleOf(hi % q, p);
    OrDisjoint(hi * p % W, lo / q, n);
  }

  // The value of the words shifted right.
  lemma ShrValue(lo: nat, hi: nat, p: nat, q: nat)
    requires p > 0 && q > 0 && p * q == W && lo < W && hi < W
    ensures lo / p < q && hi % p * q % W == hi % p * q && hi % p * q <= W - q && hi / p < W
    ensures Join(hi % p * q + lo / p, hi / p) == Join(lo, hi) / p
  {
    QuotientBound(lo, q, p);
    PushOut(hi, q, p, W);
    DivModUnique(hi % p * q, W, 0, hi % p * q);
    DivShrinks(hi, p);
    ShrJoin(lo, hi, p, q);
  }

  lemma ShrJoin(lo: nat, hi: nat, p: nat, q: nat)
    requires p > 0 && p * q == W
    ensures Join(hi % p * q + lo / p, hi / p) == Join(lo, hi) / p
  {
    var t, r := hi / p, hi % p;
    assert hi * q == t * W + r * q by {
      assert hi == t * p + r;
      assert (t * p + r) * q == t * (p * q) + r * q;
    }
    assert Join(lo, hi) == (lo / p + hi * q) * p + lo % p by {
      assert lo == (lo / p) * p + lo % p;
      assert hi * W == (hi * q) * p;
    }
    DivModUnique(Join(lo, hi), p, lo / p + hi * q, lo % p);
  }

  // >> by less than a word, as the limbs compute it.
  lemma ShrLimbs(lo: nat, hi: nat, n: nat)
    requires lo < W && hi < W && 0 < n < 64
    ensures var l := Or(Shr64(lo, n), Shl64(And(hi, Pow2(n) - 1), 64 - n));
            l < W && Shr64(hi, n) < W && Join(l, Shr64(hi, n)) == Join(lo, hi) / Pow2(n)
  {
    hide Pow2, And, Or, Join;
    var p, q := Pow2(n), Pow2(64 - n);
    Pow2Values();
    Pow2Sum(n, 64 - n);
    ShrValue(lo, hi, p, q);
    AndLow(hi, n);
    assert Shr64(lo, n) == lo / p && Shl64(hi % p, 64 - n) == hi % p * q;
    MultipleOf(hi % p, q);
    OrDisjoint(hi % p * q, lo / p, 64 - n);
    OrCommutes(hi % p * q, lo / p);
  }

  lemma {:induction false} OrCommutes(a: nat, b: nat)
    ensures Or(a, b) == Or(b, a)
    decreases a + b
  {
    if a > 0 && b > 0 { OrCommutes(a / 2, b / 2); }
  }
}
