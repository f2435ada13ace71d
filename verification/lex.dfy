/** Code-point lexicographic order on strings: the order `ORDER BY code DESC`
    uses to find "the last code" of a partition. */
module Lex {
  import opened Text
  import opened Numerals

  /** `a <= b` in lexicographic order: a proper prefix comes first, otherwise
      the first differing character decides. */
  predicate LexLe(a: string, b: string)
    decreases |a|
  {
    |a| == 0 || (|b| > 0 && (a[0] < b[0] || (a[0] == b[0] && LexLe(a[1..], b[1..]))))
  }

  lemma {:induction false} LexLeTotal(a: string, b: string)
    ensures LexLe(a, b) || LexLe(b, a)
    decreases |a|
  {
    if |a| > 0 && |b| > 0 && a[0] == b[0] {
      LexLeTotal(a[1..], b[1..]);
    }
  }

  lemma {:induction false} LexLeAntisymmetric(a: string, b: string)
    requires LexLe(a, b) && LexLe(b, a)
    ensures a == b
    decreases |a|
  {
    if |a| > 0 {
      LexLeAntisymmetric(a[1..], b[1..]);
      assert a == [a[0]] + a[1..];
      assert b == [b[0]] + b[1..];
    }
  }

  lemma {:induction false} LexLeTransitive(a: string, b: string, c: string)
    requires LexLe(a, b) && LexLe(b, c)
    ensures LexLe(a, c)
    decreases |a|
  {
    if |a| > 0 && a[0] == b[0] && b[0] == c[0] {
      LexLeTransitive(a[1..], b[1..], c[1..]);
    }
  }

  /** A common prefix does not affect the comparison. */
  lemma {:induction false} LexLeCommonPrefix(p: string, a: string, b: string)
    ensures LexLe(p + a, p + b) <==> LexLe(a, b)
    decreases |p|
  {
    if |p| > 0 {
      assert (p + a)[1..] == p[1..] + a;
      assert (p + b)[1..] == p[1..] + b;
      LexLeCommonPrefix(p[1..], a, b);
    } else {
      assert p + a == a && p + b == b;
    }
  }

  lemma LeadingDigitDecides(da: nat, db: nat, p: nat, va: nat, vb: nat)
    requires da < db && va < p
    ensures da * p + va < db * p + vb
  {
    assert da * p + p == (da + 1) * p;
    assert (da + 1) * p <= db * p;
  }

  /** On digit strings of equal length, lexicographic and numeric order agree. */
  lemma {:induction false} LexLeDigits(a: string, b: string)
    requires AllDigits(a) && AllDigits(b) && |a| == |b|
    ensures LexLe(a, b) <==> Value(a) <= Value(b)
    decreases |a|
  {
    if |a| > 0 {
      LexLeDigits(a[1..], b[1..]);
      var p := Pow10(|a| - 1);
      var da, db := DigitValue(a[0]), DigitValue(b[0]);
      assert Value(a) == da * p + Value(a[1..]);
      assert Value(b) == db * p + Value(b[1..]);
      if da < db {
        LeadingDigitDecides(da, db, p, Value(a[1..]), Value(b[1..]));
      } else if db < da {
        LeadingDigitDecides(db, da, p, Value(b[1..]), Value(a[1..]));
      }
    }
  }

  /** The greatest string of a non-empty sequence: what `.order_by("-code").first()`
      returns. */
  function Greatest(xs: seq<string>): (r: string)
    requires |xs| > 0
    ensures r in xs
    ensures forall x :: x in xs ==> LexLe(x, r)
  {
    if |xs| == 1 then
      LexLeReflexive(xs[0]);
      xs[0]
    else
      var m := Greatest(xs[1..]);
      LexLeTotal(m, xs[0]);
      if LexLe(m, xs[0]) then
        assert forall x :: x in xs[1..] ==> LexLe(x, xs[0]) by {
          forall x | x in xs[1..] ensures LexLe(x, xs[0]) {
            LexLeTransitive(x, m, xs[0]);
          }
        }
        assert forall x :: x in xs ==> x == xs[0] || x in xs[1..];
        LexLeReflexive(xs[0]);
        xs[0]
      else
        assert forall x :: x in xs ==> x == xs[0] || x in xs[1..];
        m
  }

  lemma {:induction false} LexLeReflexive(a: string)
    ensures LexLe(a, a)
    decreases |a|
  {
    if |a| > 0 {
      LexLeReflexive(a[1..]);
    }
  }

  /** Any element that is at least every element is the greatest one. */
  lemma GreatestUnique(xs: seq<string>, g: string)
    requires |xs| > 0 && g in xs
    requires forall x :: x in xs ==> LexLe(x, g)
    ensures Greatest(xs) == g
  {
    LexLeAntisymmetric(g, Greatest(xs));
  }

  /** A digit string is the zero-padded text of its own value at its own width:
      reading fixed-width digits and printing them back loses nothing. */
  lemma PaddedDigitsCanonical(d: string)
    requires AllDigits(d) && |d| >= 1
    ensures FormatPadded(Value(d), |d|) == d
  {
    var f := FormatPadded(Value(d), |d|);
    FormatPaddedWidth(Value(d), |d|);
    LexLeDigits(f, d);
    LexLeDigits(d, f);
    LexLeAntisymmetric(f, d);
  }
}
