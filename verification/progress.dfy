/** How far a class has got through its current sheet, as a percentage:
    `ClassSubject.progress_percent` and `SheetUpdateEntry.progress_percent`
    apply the same rule to the page and question reached. */
module Progress {
  import opened Wrappers
  import opened Binary64

  /** The counts of a sheet; zero means "not recorded". */
  datatype Sheet = Sheet(totalPages: nat, totalQuestions: nat)

  /** The whole percentage below `cur / total` in exact arithmetic, which is
      what `int(cur / total * 100)` is meant to show; it may exceed 100 when
      `cur > total`. The expression itself goes through floating point and can
      land one lower (FloatPercent). */
  function Percent(cur: nat, total: nat): (r: nat)
    requires total > 0
    ensures r * total <= 100 * cur < (r + 1) * total
  {
    (100 * cur) / total
  }

  /** The percentage is the only whole number with that property. */
  lemma PercentUnique(cur: nat, total: nat, k: nat)
    requires total > 0
    requires k * total <= 100 * cur < (k + 1) * total
    ensures Percent(cur, total) == k
  {
    var r := Percent(cur, total);
    if r < k {
      MulMonotone(r + 1, k, total);
    } else if r > k {
      MulMonotone(k + 1, r, total);
    }
  }

  lemma MulMonotone(a: nat, b: nat, t: nat)
    requires a <= b
    ensures a * t <= b * t
  {
    assert b * t == a * t + (b - a) * t;
  }

  /** Progress through a sheet: by pages when the sheet records a page count,
      else by questions when it records a question count, else 0; no sheet
      gives 0. */
  function ProgressPercent(sheet: Option<Sheet>, page: nat, question: nat): (r: nat)
    ensures sheet.Some? && sheet.value.totalPages > 0 ==>
              r * sheet.value.totalPages <= 100 * page < (r + 1) * sheet.value.totalPages
    ensures sheet.Some? && sheet.value.totalPages == 0 && sheet.value.totalQuestions > 0 ==>
              r * sheet.value.totalQuestions <= 100 * question < (r + 1) * sheet.value.totalQuestions
    ensures sheet.None? || (sheet.value.totalPages == 0 && sheet.value.totalQuestions == 0) ==> r == 0
  {
    match sheet
    case None => 0
    case Some(s) =>
      if s.totalPages > 0 then Percent(page, s.totalPages)
      else if s.totalQuestions > 0 then Percent(question, s.totalQuestions)
      else 0
  }

  /** A class subject's progress: its current sheet, page and question. */
  datatype ClassSubject = ClassSubject(currentSheet: Option<Sheet>, currentPage: nat, currentQuestion: nat)

  /** A day's sheet update for a class subject. */
  datatype SheetUpdateEntry = SheetUpdateEntry(sheet: Option<Sheet>, pageTaughtTo: nat, questionTaughtTo: nat)

  function ClassSubjectProgress(c: ClassSubject): nat {
    ProgressPercent(c.currentSheet, c.currentPage, c.currentQuestion)
  }

  function EntryProgress(e: SheetUpdateEntry): nat {
    ProgressPercent(e.sheet, e.pageTaughtTo, e.questionTaughtTo)
  }

  /** A day's entry shows the same progress as a class subject standing at the
      same sheet, page and question. */
  lemma EntryAgreesWithClassSubject(c: ClassSubject, e: SheetUpdateEntry)
    requires e.sheet == c.currentSheet && e.pageTaughtTo == c.currentPage
    requires e.questionTaughtTo == c.currentQuestion
    ensures EntryProgress(e) == ClassSubjectProgress(c)
  {
  }

  /** Progress stays within 0..100 while the page reached is within the sheet,
      is 100 exactly at the last page, and only grows as the page advances. */
  lemma PercentBounds(cur: nat, cur2: nat, total: nat)
    requires total > 0
    ensures cur <= total ==> Percent(cur, total) <= 100
    ensures Percent(cur, total) == 100 <== cur == total
    ensures cur <= cur2 ==> Percent(cur, total) <= Percent(cur2, total)
  {
    var a, b := Percent(cur, total), Percent(cur2, total);
    if cur <= total && a > 100 {
      MulMonotone(101, a, total);
    }
    if cur == total {
      PercentUnique(cur, total, 100);
    }
    if cur <= cur2 && a > b {
      MulMonotone(b + 1, a, total);
    }
  }

  /** Page 10 of a 48-page sheet is 20 percent; page 60 of a 50-page sheet,
      past its end, is 120 percent. */
  lemma ProgressExamples()
    ensures ProgressPercent(Some(Sheet(48, 0)), 10, 0) == 20
    ensures ProgressPercent(Some(Sheet(50, 0)), 60, 0) == 120
    ensures ProgressPercent(Some(Sheet(0, 40)), 99, 10) == 25
  {
    PercentUnique(10, 48, 20);
    PercentUnique(60, 50, 120);
    PercentUnique(10, 40, 25);
  }

  /** `int((cur / total) * 100)` as the expression evaluates it: the quotient
      is rounded to a binary64 value, the product by 100 is rounded again, and
      `int()` truncates. */
  function FloatPercent(cur: nat, total: nat): (r: nat)
    requires total > 0
    ensures var d := Divide(cur, total); var p := Times(d, 100);
            Nearest(cur, total, -d.e, d.m) && Nearest(100 * d.m, 1, d.e - p.e, p.m) && r == Trunc(p)
  {
    Trunc(Times(Divide(cur, total), 100))
  }

  /** Page 29 of a 100-page sheet: the exact share is 29 percent, but 29/100
      rounds to a binary64 value just below 0.29, times 100 gives
      28.999999999999996, and `int()` shows 28. */
  lemma FloatPercentShortOfExact()
    ensures Percent(29, 100) == 29
    ensures FloatPercent(29, 100) == 28
  {
    PercentUnique(29, 100, 29);
    QuotientOf29();
    ProductOf29();
    TruncOf29();
  }

  lemma QuotientOf29()
    ensures Divide(29, 100) == Double(5224175567749775, -54)
  {
    ShiftOf29();
    BinadePow();
    assert ScaledNum(29, 54) == 522417556774977536 by {
      Pow2Add(52, 2);
    }
  }

  lemma ShiftOf29()
    ensures Shift(29, 100) == 54
  {
    BinadePow();
    Pow2Add(52, 3);
    assert Pow2(3) == 8;
    assert BitLen(29) == 5 && BitLen(100) == 7;
  }

  lemma ProductOf29()
    ensures Times(Double(5224175567749775, -54), 100) == Double(8162774324609023, -48)
  {
    ShiftOfProduct();
    assert Pow2(6) == 64;
  }

  lemma ShiftOfProduct()
    ensures Shift(522417556774977500, 1) == -6
  {
    BinadePow();
    Pow2Add(52, 6);
    Pow2Add(52, 7);
    assert Pow2(6) == 64 && Pow2(7) == 128 && Pow2(5) == 32;
    BitLenOf(522417556774977500, 59);
    assert BitLen(1) == 1;
  }

  lemma TruncOf29()
    ensures Trunc(Double(8162774324609023, -48)) == 28
  {
    BinadePow();
    Pow2Add(48, 4);
    assert Pow2(4) == 16;
  }

  /** For a sheet of fewer than 2^40 pages and a page within it, the float
      percentage is the exact one or one less, and one less only when the
      exact share is a whole percentage (`100 * cur` a multiple of `total`). */
  lemma FloatPercentNearExact(cur: nat, total: nat)
    requires 0 < total < 0x100_0000_0000 && cur <= total
    ensures Percent(cur, total) - 1 <= FloatPercent(cur, total) <= Percent(cur, total)
    ensures (100 * cur) % total != 0 ==> FloatPercent(cur, total) == Percent(cur, total)
  {
    var pp, f := Percent(cur, total), FloatPercent(cur, total);
    DivMod(100 * cur, total);
    if cur == 0 {
      assert f == 0;
    } else {
      FloatPercentBracket(cur, total, pp, f);
    }
  }

  lemma FloatPercentBracket(cur: nat, total: nat, pp: nat, f: nat)
    requires 0 < total < 0x100_0000_0000 && 0 < cur <= total
    requires pp * total <= 100 * cur < (pp + 1) * total && f == FloatPercent(cur, total)
    ensures pp - 1 <= f <= pp
    ensures 100 * cur > pp * total ==> f == pp
  {
    var d := Divide(cur, total);
    var p := Times(d, 100);
    var s1: nat := QuotientShift(cur, total, d);
    var k: nat := ProductShift(d, p, total);
    var t := TruncShift(p, s1, k, f);
    TotalBelowScale(total, Pow2(s1));
    Bracket(cur, total, Pow2(s1), d.m, Pow2(k), p.m, t, f, pp);
  }

  /** The product's exponent is k - s1 < 0, so `int()` divides its significand
      by t = 2^(s1 - k), and t·2^k = 2^s1. */
  lemma TruncShift(p: Double, s1: nat, k: nat, f: nat) returns (t: nat)
    requires Binade <= Pow2(s1) && Pow2(k) <= 200 && p.e == k - s1 && f == Trunc(p)
    ensures t > 0 && Pow2(s1) == t * Pow2(k)
    ensures f * t <= p.m < (f + 1) * t
  {
    SmallProductShift(s1, k);
    t := Pow2(s1 - k);
    Pow2Add(s1 - k, k);
  }

  /** The quotient step of a page within its sheet scales up by some 2^s1 of at
      least 2^52, and its significand lies in [2^52, 2^53]. */
  lemma QuotientShift(cur: nat, total: nat, d: Double) returns (s1: nat)
    requires 0 < cur <= total && Nearest(cur, total, -d.e, d.m)
    ensures s1 == -d.e && Binade <= Pow2(s1)
    ensures Binade * total <= cur * Pow2(s1) < 2 * Binade * total
    ensures 2 * Dist(d.m * total, cur * Pow2(s1)) <= total
    ensures Binade <= d.m <= 2 * Binade
  {
    var n, den := ScaledNum(cur, -d.e), ScaledDen(total, -d.e);
    ScaledDenAtLeast(total, -d.e);
    assert n > cur;
    s1 := -d.e;
    ScaleAtLeast(cur, total, Pow2(s1));
    SignificandInBinade(n, total, d.m, Binade);
  }

  lemma ScaledDenAtLeast(den: nat, s: int)
    ensures ScaledDen(den, s) >= den
  {
    if s < 0 {
      MulLe(1, Pow2(-s), den);
    }
  }

  lemma ScaledNumAtLeast(num: nat, s: int)
    ensures ScaledNum(num, s) >= num
  {
    if s >= 0 {
      MulLe(1, Pow2(s), num);
    }
  }

  /** From b·total <= cur·p with cur <= total: p >= b. */
  lemma ScaleAtLeast(cur: nat, total: nat, p: nat)
    requires 0 < cur <= total && Binade * total <= cur * p
    ensures Binade <= p
  {
    MulLe(cur, total, p);
    CancelLe(Binade, p, total);
  }

  /** A whole significand within half a unit of a quotient in [b, 2b) lies in
      [b, 2b] itself. */
  lemma SignificandInBinade(n: nat, den: nat, m: nat, b: nat)
    requires den > 0 && b * den <= n < 2 * b * den && 2 * Dist(m * den, n) <= den
    ensures b <= m <= 2 * b
  {
    assert (b - 1) * den == b * den - den;
    CancelLt(b - 1, m, den);
    assert (2 * b + 1) * den == 2 * b * den + den;
    CancelLt(m, 2 * b + 1, den);
  }

  /** The product step by 100 scales down by some 2^k no larger than 200. */
  lemma ProductShift(d: Double, p: Double, total: nat) returns (k: nat)
    requires Binade <= d.m <= 2 * Binade && Nearest(100 * d.m, 1, d.e - p.e, p.m)
    ensures k == p.e - d.e && Pow2(k) <= 200
    ensures 2 * Dist(p.m * Pow2(k), 100 * d.m) <= Pow2(k)
  {
    var t := d.e - p.e;
    ScaledNumAtLeast(100 * d.m, t);
    CancelLt(50, ScaledDen(1, t), 2 * Binade);
    k := p.e - d.e;
    assert 100 * d.m <= 200 * Binade;
    CancelLe(Pow2(k), 200, Binade);
  }

  /** 2^k at most 200 is below 2^s1 of at least 2^52, so k < s1. */
  lemma SmallProductShift(s1: nat, k: nat)
    requires Binade <= Pow2(s1) && Pow2(k) <= 200
    ensures k < s1
  {
    if s1 <= k {
      Pow2Monotone(s1, k);
      assert false;
    }
  }

  lemma TotalBelowScale(total: nat, p1: nat)
    requires total < 0x100_0000_0000 && Binade <= p1
    ensures 150 * total < p1
  {
  }

  lemma CancelLe(a: int, b: int, q: nat)
    requires q > 0 && a * q <= b * q
    ensures a <= b
  {
    assert (b + 1) * q == b * q + q;
    CancelLt(a, b + 1, q);
  }

  lemma CancelLt(a: int, b: int, q: nat)
    requires q > 0 && a * q < b * q
    ensures a < b
  {
  }

  /** The arithmetic of FloatPercentNearExact with the scales as plain numbers:
      `m1 / 2^s1` is within half a unit of cur/total, `m2 / k` within half a
      unit of 100·m1, and f is `m2 / t` truncated where t·k = 2^s1. */
  lemma Bracket(cur: nat, total: nat, p1: nat, m1: nat, k: nat, m2: nat, t: nat, f: nat, pp: nat)
    requires total > 0 && k > 0 && t > 0 && k <= 200
    requires 2 * Dist(m1 * total, cur * p1) <= total
    requires 2 * Dist(m2 * k, 100 * m1) <= k
    requires p1 == t * k
    requires f * t <= m2 < (f + 1) * t
    requires pp * total <= 100 * cur < (pp + 1) * total
    requires 150 * total < p1
    ensures pp - 1 <= f <= pp
    ensures 100 * cur > pp * total ==> f == pp
  {
    var q := p1 * total;
    var z := (m2 * k) * total;
    ErrorBound(cur, total, p1, m1, m2 * k);
    TruncScaled(f, t, m2, k, total, p1);
    var r: nat := 100 * cur - pp * total;
    Remainder(cur, total, p1, pp, r);
    Conclude(f, pp, q, p1, z, (100 * cur) * p1, r * p1, total);
  }

  /** `f = m2 / t` truncated, scaled by k·total where t·k = p1. */
  lemma TruncScaled(f: nat, t: nat, m2: nat, k: nat, total: nat, p1: nat)
    requires k > 0 && total > 0 && p1 == t * k
    requires f * t <= m2 < (f + 1) * t
    ensures f * (p1 * total) <= (m2 * k) * total < (f + 1) * (p1 * total)
  {
    MulLe(f * t, m2, k * total);
    MulLt(m2, (f + 1) * t, k * total);
    assert (f * t) * (k * total) == f * (p1 * total);
    assert ((f + 1) * t) * (k * total) == (f + 1) * (p1 * total);
    assert m2 * (k * total) == (m2 * k) * total;
  }

  /** 100·cur·p1 splits into the whole percentage's part and the remainder's. */
  lemma Remainder(cur: nat, total: nat, p1: nat, pp: nat, r: nat)
    requires total > 0 && r == 100 * cur - pp * total && r < total
    ensures (100 * cur) * p1 == pp * (p1 * total) + r * p1
    ensures r * p1 <= p1 * total - p1
    ensures r >= 1 ==> r * p1 >= p1
  {
    assert (100 * cur) * p1 == (pp * total + r) * p1;
    assert (pp * total + r) * p1 == pp * (p1 * total) + r * p1;
    MulLe(r + 1, total, p1);
    if r >= 1 {
      MulLe(1, r, p1);
    }
  }

  lemma Conclude(f: nat, pp: nat, q: nat, p1: nat, z: int, c: int, rp: nat, total: nat)
    requires p1 > 0 && q >= p1
    requires f * q <= z < (f + 1) * q
    requires Dist(z, c) <= 150 * total < p1
    requires c == pp * q + rp && rp <= q - p1
    ensures pp - 1 <= f <= pp
    ensures rp >= p1 ==> f == pp
  {
    assert (pp + 1) * q == pp * q + q;
    assert (pp - 1) * q == pp * q - q;
    CancelLt(f, pp + 1, q);
    CancelLt(pp - 1, f + 1, q);
    if rp >= p1 {
      CancelLt(pp, f + 1, q);
    }
  }

  /** Both rounding errors together: m2·k·total is within 150·total of
      100·cur·p1. */
  lemma ErrorBound(cur: nat, total: nat, p1: nat, m1: nat, w: nat)
    requires 2 * Dist(m1 * total, cur * p1) <= total
    requires Dist(w, 100 * m1) <= 100
    ensures Dist(w * total, (100 * cur) * p1) <= 150 * total
  {
    DistScale(w, 100 * m1, total);
    MulLe(Dist(w, 100 * m1), 100, total);
    assert (100 * m1) * total == 100 * (m1 * total);
    assert (100 * cur) * p1 == 100 * (cur * p1);
  }

  lemma DistScale(a: nat, b: nat, c: nat)
    ensures Dist(a * c, b * c) == Dist(a, b) * c
  {
    if a < b {
      assert b * c - a * c == (b - a) * c;
    } else {
      assert a * c - b * c == (a - b) * c;
    }
  }
}
