/** The part of IEEE 754 binary64 arithmetic that `int(a / b * 100)` goes
    through for non-negative integers: a correctly rounded quotient, a
    correctly rounded product and truncation toward zero. A value is m·2^e
    with a whole significand m; within one binade the representable values are
    exactly the whole m in [2^52, 2^53], so rounding to nearest is rounding to
    the nearest whole significand, ties to the even one. The exponent range of
    the format (overflow to infinity, subnormals) is not modelled. */
module Binary64 {

  function Pow2(n: nat): (r: nat)
    ensures r >= 1
  {
    if n == 0 then 1 else 2 * Pow2(n - 1)
  }

  lemma {:induction false} Pow2Add(a: nat, b: nat)
    ensures Pow2(a + b) == Pow2(a) * Pow2(b)
    decreases a
  {
    if a > 0 {
      Pow2Add(a - 1, b);
      assert Pow2(a + b) == 2 * Pow2(a - 1 + b);
    }
  }

  lemma {:induction false} Pow2Monotone(a: nat, b: nat)
    requires a <= b
    ensures Pow2(a) <= Pow2(b)
    decreases b
  {
    if a < b {
      Pow2Monotone(a, b - 1);
    }
  }

  /** The number of binary digits of `n`: `n.bit_length()`. */
  function BitLen(n: nat): nat {
    if n == 0 then 0 else 1 + BitLen(n / 2)
  }

  /** `n` has `BitLen(n)` binary digits: it lies in [2^(len-1), 2^len). */
  lemma {:induction false} BitLenBounds(n: nat)
    requires n > 0
    ensures BitLen(n) >= 1 && Pow2(BitLen(n) - 1) <= n < Pow2(BitLen(n))
  {
    if n > 1 {
      BitLenBounds(n / 2);
    }
  }

  /** A number in [2^(k-1), 2^k) has exactly `k` binary digits. */
  lemma {:induction false} BitLenOf(n: nat, k: nat)
    requires k >= 1 && Pow2(k - 1) <= n < Pow2(k)
    ensures BitLen(n) == k
  {
    if k > 1 {
      BitLenOf(n / 2, k - 1);
    }
  }

  /** A non-negative binary64 value m·2^e. */
  datatype Double = Double(m: nat, e: int)

  /** The numerator and denominator of num/den·2^s, kept whole. */
  function ScaledNum(num: nat, s: int): nat {
    if s >= 0 then num * Pow2(s) else num
  }

  function ScaledDen(den: nat, s: int): nat {
    if s >= 0 then den else den * Pow2(-s)
  }

  function Dist(a: int, b: int): nat {
    if a < b then b - a else a - b
  }

  /** 2^52: the significands of one binade are the whole numbers from here up
      to twice this. */
  const Binade: nat := 0x10_0000_0000_0000

  lemma BinadePow()
    ensures Pow2(52) == Binade && Pow2(54) == 4 * Binade
  {
    assert Pow2(4) == 16;
    Pow2Add(4, 4);
    assert Pow2(8) == 256;
    Pow2Add(8, 8);
    assert Pow2(16) == 0x1_0000;
    Pow2Add(16, 16);
    assert Pow2(32) == 0x1_0000_0000;
    Pow2Add(32, 16);
    assert Pow2(48) == 0x1_0000_0000_0000;
    Pow2Add(48, 4);
    Pow2Add(52, 2);
  }

  /** `m` is the binary64 significand of num/den·2^s: the shifted quotient lies
      in the binade [2^52, 2^53), `m` is within half a unit of it, and on a tie
      `m` is even. Zero has significand zero. */
  predicate Nearest(num: nat, den: nat, s: int, m: nat) {
    var n, d := ScaledNum(num, s), ScaledDen(den, s);
    (num == 0 ==> m == 0)
    && (num > 0 ==> Binade * d <= n < 2 * Binade * d)
    && 2 * Dist(m * d, n) <= d
    && (2 * Dist(m * d, n) == d ==> m % 2 == 0)
  }

  /** The shift that brings num/den into the binade [2^52, 2^53). */
  function Shift(num: nat, den: nat): (s: int)
    requires num > 0 && den > 0
    ensures Binade * ScaledDen(den, s) <= ScaledNum(num, s) < 2 * Binade * ScaledDen(den, s)
  {
    var s0 := 53 - BitLen(num) + BitLen(den);
    ShiftWide(num, den, s0);
    if ScaledNum(num, s0) >= 2 * Binade * ScaledDen(den, s0) then
      ShiftHalves(num, den, s0, Binade);
      s0 - 1
    else s0
  }

  /** Shifting by the difference of the digit counts lands within a factor of
      two of the binade. */
  lemma ShiftWide(num: nat, den: nat, s0: int)
    requires num > 0 && den > 0 && s0 == 53 - BitLen(num) + BitLen(den)
    ensures Binade * ScaledDen(den, s0) < ScaledNum(num, s0) < 4 * Binade * ScaledDen(den, s0)
  {
    ShiftWideAt(num, den, s0, 52);
    BinadePow();
  }

  lemma ShiftWideAt(num: nat, den: nat, s0: int, c: nat)
    requires num > 0 && den > 0 && s0 == c + 1 - BitLen(num) + BitLen(den)
    ensures Pow2(c) * ScaledDen(den, s0) < ScaledNum(num, s0) < Pow2(c + 2) * ScaledDen(den, s0)
  {
    BitLenBounds(num);
    BitLenBounds(den);
    var a, b := BitLen(num), BitLen(den);
    if s0 >= 0 {
      ShiftWideUp(num, den, a, b, s0, c);
    } else {
      ShiftWideDown(num, den, a, b, -s0, c);
    }
  }

  lemma ShiftWideUp(num: nat, den: nat, a: nat, b: nat, s0: nat, c: nat)
    requires a >= 1 && b >= 1 && s0 == c + 1 - a + b
    requires Pow2(a - 1) <= num < Pow2(a) && Pow2(b - 1) <= den < Pow2(b)
    ensures Pow2(c) * den < num * Pow2(s0) < Pow2(c + 2) * den
  {
    var p, lo, hi := Pow2(s0), Pow2(c), Pow2(c + 2);
    Pow2Add(a - 1, s0);
    Pow2Add(c, b);
    assert a - 1 + s0 == c + b;
    assert Pow2(a - 1) * p == lo * Pow2(b);
    MulLe(Pow2(a - 1), num, p);
    MulLt(den, Pow2(b), lo);
    assert lo * den < num * p;
    Pow2Add(a, s0);
    Pow2Add(c + 2, b - 1);
    assert a + s0 == c + 2 + (b - 1);
    assert Pow2(a) * p == hi * Pow2(b - 1);
    MulLt(num, Pow2(a), p);
    MulLe(Pow2(b - 1), den, hi);
    assert num * p < hi * den;
  }

  lemma ShiftWideDown(num: nat, den: nat, a: nat, b: nat, t: nat, c: nat)
    requires a >= 1 && b >= 1 && t == a - b - c - 1
    requires Pow2(a - 1) <= num < Pow2(a) && Pow2(b - 1) <= den < Pow2(b)
    ensures Pow2(c) * (den * Pow2(t)) < num < Pow2(c + 2) * (den * Pow2(t))
  {
    Pow2Add(b, t);
    Pow2Add(c, b + t);
    Pow2Add(b - 1, t);
    Pow2Add(c + 2, b - 1 + t);
    assert a - 1 == c + (b + t) && a == c + 2 + (b - 1 + t);
    Sandwich(den, Pow2(b - 1), Pow2(b), Pow2(t), Pow2(c), Pow2(c + 2), Pow2(a - 1), Pow2(a));
  }

  /** The arithmetic of ShiftWideDown with the powers of two as plain numbers. */
  lemma Sandwich(den: nat, lo: nat, hi: nat, p: nat, k0: nat, k2: nat, alo: nat, ahi: nat)
    requires lo <= den < hi && p > 0 && k0 > 0
    requires k0 * (hi * p) == alo && k2 * (lo * p) == ahi
    ensures k0 * (den * p) < alo && ahi <= k2 * (den * p)
  {
    MulLt(den, hi, p);
    MulLt(den * p, hi * p, k0);
    assert (den * p) * k0 == k0 * (den * p);
    MulLe(lo, den, p);
    MulLe(lo * p, den * p, k2);
    assert (den * p) * k2 == k2 * (den * p);
  }

  /** One step less of shift halves the quotient. */
  lemma ShiftHalves(num: nat, den: nat, s0: int, k: nat)
    requires num > 0 && den > 0
    requires 2 * k * ScaledDen(den, s0) <= ScaledNum(num, s0) < 4 * k * ScaledDen(den, s0)
    ensures k * ScaledDen(den, s0 - 1) <= ScaledNum(num, s0 - 1) < 2 * k * ScaledDen(den, s0 - 1)
  {
    if s0 >= 1 {
      var h := Pow2(s0 - 1);
      assert Pow2(s0) == 2 * h;
      assert num * Pow2(s0) == 2 * (num * h);
      HalveNum(num * Pow2(s0), num * h, den, k);
    } else {
      var h := Pow2(-s0);
      assert Pow2(1 - s0) == 2 * h;
      assert den * Pow2(1 - s0) == 2 * (den * h);
      HalveDen(num, den * h, den * Pow2(1 - s0), k);
    }
  }

  lemma HalveNum(n2: nat, n: nat, d: nat, k: nat)
    requires n2 == 2 * n
    requires 2 * k * d <= n2 < 4 * k * d
    ensures k * d <= n < 2 * k * d
  {
    assert 2 * k * d == 2 * (k * d);
    assert 4 * k * d == 2 * (2 * k * d);
  }

  lemma HalveDen(n: nat, d0: nat, d: nat, k: nat)
    requires d == 2 * d0
    requires 2 * k * d0 <= n < 4 * k * d0
    ensures k * d <= n < 2 * k * d
  {
    assert k * d == 2 * k * d0;
    assert 2 * k * d == 4 * k * d0;
  }

  lemma MulLe(x: nat, y: nat, k: nat)
    requires x <= y
    ensures x * k <= y * k
  {
  }

  lemma MulLt(x: nat, y: nat, k: nat)
    requires x < y && k > 0
    ensures x * k < y * k
  {
  }

  /** The correctly rounded value of num/den·2^e0 (round to nearest, ties to
      even). The significand may come out as 2^53 when rounding carries into
      the next binade; that is the same value as 2^52·2^(e+1). */
  function RoundQuotient(num: nat, den: nat, e0: int): (r: Double)
    requires den > 0
    ensures Nearest(num, den, e0 - r.e, r.m)
  {
    if num == 0 then Double(0, e0)
    else
      var s := Shift(num, den);
      var n, d := ScaledNum(num, s), ScaledDen(den, s);
      var q, rem := n / d, n % d;
      DivMod(n, d);
      var m := if 2 * rem > d || (2 * rem == d && q % 2 == 1) then q + 1 else q;
      RoundsToNearest(n, d, q, rem, m);
      Double(m, e0 - s)
  }

  lemma RoundsToNearest(n: nat, d: nat, q: nat, rem: nat, m: nat)
    requires d > 0 && n == q * d + rem && rem < d
    requires m == if 2 * rem > d || (2 * rem == d && q % 2 == 1) then q + 1 else q
    ensures 2 * Dist(m * d, n) <= d
    ensures 2 * Dist(m * d, n) == d ==> m % 2 == 0
  {
    if m == q + 1 {
      assert m * d == q * d + d;
    }
  }

  /** Two significands that both satisfy `Nearest` are the same: the rounding
      is determined by the exact value. */
  lemma NearestUnique(num: nat, den: nat, s: int, m1: nat, m2: nat)
    requires den > 0
    requires Nearest(num, den, s, m1) && Nearest(num, den, s, m2)
    ensures m1 == m2
  {
    var n, d := ScaledNum(num, s), ScaledDen(den, s);
    if m1 < m2 {
      CloseSignificands(n, d, m1, m2);
    } else if m2 < m1 {
      CloseSignificands(n, d, m2, m1);
    }
  }

  /** Two different whole significands cannot both be within half a unit of
      the same value, unless both are at exactly half a unit and one is odd. */
  lemma CloseSignificands(n: nat, d: nat, lo: nat, hi: nat)
    requires d > 0 && lo < hi
    requires 2 * Dist(lo * d, n) <= d && 2 * Dist(hi * d, n) <= d
    ensures !(2 * Dist(lo * d, n) == d ==> lo % 2 == 0) || !(2 * Dist(hi * d, n) == d ==> hi % 2 == 0)
  {
    assert (hi - lo) * d == hi * d - lo * d;
    AtMostOne(hi - lo, d);
    assert hi * d == lo * d + d;
  }

  lemma AtMostOne(k: nat, d: nat)
    requires d > 0 && k * d <= d
    ensures k <= 1
  {
  }

  lemma DivMod(n: nat, d: nat)
    requires d > 0
    ensures n / d >= 0 && n == (n / d) * d + n % d && n % d < d
  {
  }

  /** `x / y` on integers, as a float. */
  function Divide(a: nat, b: nat): (r: Double)
    requires b > 0
    ensures Nearest(a, b, -r.e, r.m)
  {
    RoundQuotient(a, b, 0)
  }

  /** `x * k` for a float `x` and an integer `k`. */
  function Times(x: Double, k: nat): (r: Double)
    ensures Nearest(k * x.m, 1, x.e - r.e, r.m)
  {
    RoundQuotient(k * x.m, 1, x.e)
  }

  /** `int(x)` on a non-negative float: truncation toward zero. */
  function Trunc(x: Double): (r: nat)
    ensures x.e >= 0 ==> r == x.m * Pow2(x.e)
    ensures x.e < 0 ==> r * Pow2(-x.e) <= x.m < (r + 1) * Pow2(-x.e)
  {
    if x.e >= 0 then x.m * Pow2(x.e)
    else
      var p := Pow2(-x.e);
      DivMod(x.m, p);
      assert (x.m / p + 1) * p == (x.m / p) * p + p;
      x.m / p
  }
}
