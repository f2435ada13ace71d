/** Decimal numerals as Python writes and reads them: `f"{n:0Wd}"` and `int(s)`. */
module Numerals {
  import opened Wrappers
  import opened Text

  predicate IsDigit(c: char) {
    '0' <= c <= '9'
  }

  predicate AllDigits(s: string) {
    forall i :: 0 <= i < |s| ==> IsDigit(s[i])
  }

  function DigitValue(c: char): (d: nat)
    requires IsDigit(c)
    ensures d < 10
  {
    c as int - '0' as int
  }

  function DigitChar(d: nat): (c: char)
    requires d < 10
    ensures IsDigit(c) && DigitValue(c) == d
  {
    (d + '0' as int) as char
  }

  function Pow10(n: nat): (p: nat)
    ensures p >= 1
  {
    if n == 0 then 1 else 10 * Pow10(n - 1)
  }

  lemma Pow10Monotone(a: nat, b: nat)
    requires a <= b
    ensures Pow10(a) <= Pow10(b)
  {
    if a < b {
      Pow10Monotone(a, b - 1);
    }
  }

  /** The powers the pad widths of the application use. */
  lemma Pow10Small()
    ensures Pow10(2) == 100 && Pow10(3) == 1000 && Pow10(4) == 10000
  {
  }

  /** The number a string of decimal digits spells, most significant digit first. */
  function Value(s: string): (v: nat)
    requires AllDigits(s)
    ensures v < Pow10(|s|)
  {
    if |s| == 0 then 0
    else
      var d := DigitValue(s[0]);
      var rest := Value(s[1..]);
      PlaceBound(d, Pow10(|s| - 1), rest);
      d * Pow10(|s| - 1) + rest
  }

  /** A digit in a place, plus anything below that place, stays below the
      next place. */
  lemma PlaceBound(d: nat, p: nat, rest: nat)
    requires d < 10 && rest < p
    ensures d * p + rest < 10 * p
  {
    assert d * p <= 9 * p;
  }

  lemma ShiftDecimal(d: int, p: int, v: int, e: int)
    ensures d * (10 * p) + (v * 10 + e) == (d * p + v) * 10 + e
  {
  }

  /** Appending a digit shifts the value one decimal place. */
  lemma ValueSnoc(s: string, c: char)
    requires AllDigits(s) && IsDigit(c)
    ensures AllDigits(s + [c])
    ensures Value(s + [c]) == Value(s) * 10 + DigitValue(c)
  {
    if |s| == 0 {
      assert s + [c] == [c];
      assert [c][1..] == "";
    } else {
      var t := s + [c];
      assert t[1..] == s[1..] + [c];
      ValueSnoc(s[1..], c);
      var d := DigitValue(s[0]);
      var p := Pow10(|s| - 1);
      var v := Value(s[1..]);
      assert Pow10(|t| - 1) == 10 * p;
      assert t[0] == s[0];
      assert Value(t) == d * Pow10(|t| - 1) + Value(t[1..]);
      assert Value(t[1..]) == v * 10 + DigitValue(c);
      assert Value(s) == d * p + v;
      ShiftDecimal(d, p, v, DigitValue(c));
    }
  }

  /** `str(n)` for a non-negative `n`: its canonical digits, no leading zero. */
  function NatToString(n: nat): (s: string)
    ensures |s| >= 1 && AllDigits(s) && Value(s) == n
    ensures |s| > 1 ==> s[0] != '0' && Pow10(|s| - 1) <= n
    decreases n
  {
    if n < 10 then [DigitChar(n)]
    else
      var head := NatToString(n / 10);
      ValueSnoc(head, DigitChar(n % 10));
      var s := head + [DigitChar(n % 10)];
      assert s[0] == head[0];
      assert Pow10(|s| - 1) == 10 * Pow10(|head| - 1);
      s
  }

  /** `str(n)` is `str(n // 10)` followed by the units digit. */
  lemma NatToStringStep(n: nat)
    requires n >= 10
    ensures NatToString(n) == NatToString(n / 10) + [DigitChar(n % 10)]
  {
  }

  /** A number with at least `width` digits is written without padding. */
  lemma FormatPaddedUnpadded(n: nat, width: nat)
    requires |NatToString(n)| >= width
    ensures FormatPadded(n, width) == NatToString(n)
  {
  }

  /** `str(n)` fits in `w` characters exactly when `n` is below `10^w`. */
  lemma NatToStringFits(n: nat, w: nat)
    requires w >= 1
    ensures |NatToString(n)| <= w <==> n < Pow10(w)
  {
    var s := NatToString(n);
    if |s| <= w {
      Pow10Monotone(|s|, w);
    } else {
      Pow10Monotone(w, |s| - 1);
    }
  }

  function Zeros(k: nat): (z: string)
    ensures |z| == k && forall i :: 0 <= i < k ==> z[i] == '0'
  {
    if k == 0 then "" else Zeros(k - 1) + "0"
  }

  /** Leading zeros do not change the value. */
  lemma ValueZerosPrefix(k: nat, s: string)
    requires AllDigits(s)
    ensures AllDigits(Zeros(k) + s) && Value(Zeros(k) + s) == Value(s)
  {
    if k > 0 {
      var z := Zeros(k) + s;
      assert Zeros(k)[1..] == Zeros(k - 1);
      assert z[1..] == Zeros(k - 1) + s;
      ValueZerosPrefix(k - 1, s);
      assert z[0] == '0';
      assert Value(z) == 0 * Pow10(|z| - 1) + Value(z[1..]);
    } else {
      assert Zeros(k) + s == s;
    }
  }

  /** Zero-pads `s` on the left to at least `width` characters. */
  function PadLeft(s: string, width: nat): (r: string)
    ensures |r| == if |s| >= width then |s| else width
    ensures r[|r| - |s|..] == s
    ensures forall i :: 0 <= i < |r| - |s| ==> r[i] == '0'
  {
    if |s| >= width then s else Zeros(width - |s|) + s
  }

  /** Padding digits with zeros keeps them digits of the same value. */
  lemma PadLeftValue(s: string, width: nat)
    requires AllDigits(s)
    ensures AllDigits(PadLeft(s, width)) && Value(PadLeft(s, width)) == Value(s)
  {
    if |s| < width {
      ValueZerosPrefix(width - |s|, s);
    }
  }

  /** Python's `f"{n:0{width}d}"`: the sign (if any) followed by the decimal
      digits of `|n|`, zero-padded so that the whole text is at least `width` long. */
  function FormatPadded(n: int, width: nat): (r: string)
    ensures |r| >= width && |r| >= 1
    ensures n >= 0 ==> AllDigits(r) && Value(r) == n
    ensures n < 0 ==> |r| >= 2 && r[0] == '-' && AllDigits(r[1..]) && Value(r[1..]) == -n
  {
    var m := if n >= 0 then n else -n;
    var s := NatToString(m);
    var digits := PadLeft(s, if n >= 0 then width else if width > 0 then width - 1 else 0);
    PadLeftValue(s, if n >= 0 then width else if width > 0 then width - 1 else 0);
    if n >= 0 then digits
    else
      var r := "-" + digits;
      assert r[1..] == digits;
      r
  }

  /** The text of a non-negative number padded to `width` is exactly `width`
      long precisely when the number has at most `width` digits. */
  lemma FormatPaddedWidth(n: nat, width: nat)
    requires width >= 1
    ensures |FormatPadded(n, width)| == width <==> n < Pow10(width)
  {
    NatToStringFits(n, width);
  }

  /** Two numbers padded to the same width whose texts agree are equal. */
  lemma FormatPaddedInjective(a: int, b: int, width: nat)
    requires FormatPadded(a, width) == FormatPadded(b, width)
    ensures a == b
  {
  }

  /** A digit run of Python's integer grammar: ASCII digits, optionally grouped
      by single underscores, starting and ending with a digit. */
  predicate IsDigitRun(b: string) {
    && |b| > 0 && IsDigit(b[0]) && IsDigit(b[|b| - 1])
    && (forall i :: 0 <= i < |b| ==> IsDigit(b[i]) || b[i] == '_')
    && NoDoubleUnderscore(b)
  }

  /** No two underscores stand next to each other. */
  predicate NoDoubleUnderscore(b: string) {
    |b| < 2 || ((b[0] != '_' || b[1] != '_') && NoDoubleUnderscore(b[1..]))
  }

  lemma DigitsHaveNoUnderscore(s: string)
    requires AllDigits(s)
    ensures NoDoubleUnderscore(s)
  {
    if |s| >= 2 {
      DigitsHaveNoUnderscore(s[1..]);
    }
  }

  /** The digits of a run with its grouping underscores removed. */
  function DropUnderscores(b: string): (r: string)
    requires forall i :: 0 <= i < |b| ==> IsDigit(b[i]) || b[i] == '_'
    ensures AllDigits(r) && |r| <= |b|
    ensures AllDigits(b) ==> r == b
  {
    if |b| == 0 then ""
    else if b[0] == '_' then DropUnderscores(b[1..])
    else [b[0]] + DropUnderscores(b[1..])
  }

  /** Python's `int(s)` on a string: surrounding whitespace is ignored, one
      optional sign, then a digit run; anything else raises `ValueError` (None).
      Leading whitespace is dropped here one character at a time, trailing
      whitespace by ParseTrailing; ParseIntStrips relates this to `strip()`. */
  function ParseInt(s: string): Option<int>
    decreases |s|, 1
  {
    if |s| > 0 && IsSpace(s[0]) then ParseInt(s[1..])
    else ParseTrailing(s)
  }

  /** `int()` on text with no leading whitespace. */
  function ParseTrailing(s: string): Option<int>
    decreases |s|, 0
  {
    if |s| > 0 && IsSpace(s[|s| - 1]) then ParseTrailing(s[..|s| - 1])
    else ParseStripped(s)
  }

  /** Dropping trailing whitespace one character at a time is `rstrip()`. */
  lemma {:induction false} ParseTrailingTrims(s: string)
    ensures ParseTrailing(s) == ParseStripped(TrimEnd(s))
    decreases |s|
  {
    if |s| > 0 && IsSpace(s[|s| - 1]) {
      ParseTrailingTrims(s[..|s| - 1]);
    }
  }

  /** `int(s)` is `int(s.strip())`: whitespace at either end never matters. */
  lemma {:induction false} ParseIntStrips(s: string)
    ensures ParseInt(s) == ParseStripped(Strip(s))
    decreases |s|
  {
    if |s| > 0 && IsSpace(s[0]) {
      ParseIntStrips(s[1..]);
    } else {
      ParseTrailingTrims(s);
    }
  }

  /** `int()` on text with no surrounding whitespace. */
  function ParseStripped(t: string): Option<int> {
    if |t| > 0 && (t[0] == '+' || t[0] == '-') then
      var body := t[1..];
      if IsDigitRun(body) then
        var v: int := Value(DropUnderscores(body));
        Some(if t[0] == '-' then -v else v)
      else None
    else if IsDigitRun(t) then
      Some(Value(DropUnderscores(t)))
    else None
  }

  /** A plain non-empty digit string is a digit run that parses to its value. */
  lemma ParseDigits(s: string)
    requires AllDigits(s) && |s| > 0
    ensures IsDigitRun(s) && DropUnderscores(s) == s && Strip(s) == s
  {
    assert IsDigit(s[0]) && IsDigit(s[|s| - 1]);
    NotSpace(s[0]);
    NotSpace(s[|s| - 1]);
    DigitsHaveNoUnderscore(s);
  }

  /** A non-empty string of ASCII digits parses to the number it spells. */
  lemma ParseIntOfDigits(s: string)
    requires AllDigits(s) && |s| > 0
    ensures ParseInt(s) == Some(Value(s))
  {
    ParseDigits(s);
    assert s[0] != '+' && s[0] != '-';
  }

  /** Signs and digits are not whitespace. */
  lemma NotSpace(c: char)
    requires IsDigit(c) || c == '-' || c == '+'
    ensures !IsSpace(c)
  {
  }

  /** A minus sign followed by digits parses to the negated value. */
  lemma ParseIntOfNegated(r: string)
    requires |r| >= 2 && r[0] == '-' && AllDigits(r[1..])
    ensures ParseInt(r) == Some(0 - Value(r[1..]) as int)
  {
    var body := r[1..];
    ParseDigits(body);
    assert r[|r| - 1] == body[|body| - 1];
    NotSpace(r[0]);
    NotSpace(r[|r| - 1]);
    assert Strip(r) == r;
  }

  /** Round trip: `int(f"{n:0{width}d}") == n` for every integer and width. */
  lemma ParseFormatPadded(n: int, width: nat)
    ensures ParseInt(FormatPadded(n, width)) == Some(n)
  {
    ParseIntOfSigned(FormatPadded(n, width), n);
  }

  /** Digits, or a minus sign and digits, parse to the value they spell. */
  lemma ParseIntOfSigned(r: string, n: int)
    requires n >= 0 ==> |r| >= 1 && AllDigits(r) && Value(r) == n
    requires n < 0 ==> |r| >= 2 && r[0] == '-' && AllDigits(r[1..]) && Value(r[1..]) == -n
    ensures ParseInt(r) == Some(n)
  {
    if n >= 0 {
      ParseIntOfNatural(r, n);
    } else {
      ParseIntOfNegative(r, n);
    }
  }

  lemma ParseIntOfNatural(r: string, n: int)
    requires n >= 0 && |r| >= 1 && AllDigits(r) && Value(r) == n
    ensures ParseInt(r) == Some(n)
  {
    ParseIntOfDigits(r);
  }

  lemma ParseIntOfNegative(r: string, n: int)
    requires n < 0 && |r| >= 2 && r[0] == '-' && AllDigits(r[1..]) && Value(r[1..]) == -n
    ensures ParseInt(r) == Some(n)
  {
    ParseIntOfNegated(r);
  }

  /** `s[-k:]`: the last `k` characters, or all of `s` when it is shorter. */
  function LastChars(s: string, k: nat): (r: string)
    ensures |r| == if |s| >= k then k else |s|
    ensures r == s[|s| - |r|..]
  {
    if |s| >= k then s[|s| - k..] else s
  }

  /** The last character of `str(n)` is the units digit. */
  lemma LastDigitOf(n: nat)
    ensures NatToString(n)[|NatToString(n)| - 1] == DigitChar(n % 10)
  {
  }

  /** The last two characters of `str(n)`, for `n >= 10`, spell `n % 100`. */
  lemma LastTwoDigits(n: nat)
    requires n >= 10
    ensures var t := LastChars(NatToString(n), 2);
            |t| == 2 && AllDigits(t) && Value(t) == n % 100
  {
    var head := NatToString(n / 10);
    assert NatToString(n) == head + [DigitChar(n % 10)];
    LastDigitOf(n / 10);
    LastTwoOf(head, DigitChar(n % 10));
    ValueOfPair(n / 10 % 10, n % 10);
    TensAndUnits(n);
  }

  lemma LastTwoOf(head: string, c: char)
    requires |head| >= 1
    ensures LastChars(head + [c], 2) == [head[|head| - 1], c]
  {
  }

  lemma ValueOfPair(a: nat, b: nat)
    requires a < 10 && b < 10
    ensures Value([DigitChar(a), DigitChar(b)]) == 10 * a + b
  {
    var t := [DigitChar(a), DigitChar(b)];
    assert t[1..] == [DigitChar(b)];
  }

  lemma TensAndUnits(n: nat)
    ensures 10 * (n / 10 % 10) + n % 10 == n % 100
  {
    var q := n / 10;
    var b, c := q % 10, n % 10;
    assert n == 10 * q + c;
    assert q == 10 * (q / 10) + b;
    assert n == 100 * (q / 10) + (10 * b + c);
  }
}
