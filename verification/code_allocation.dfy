/** Sequential code allocation: student codes `YY###` and sale run numbers
    `{student_code}-##`. The "last issued code" of a partition is the
    lexicographic maximum of the stored codes with the partition's prefix; the
    next sequence number is its numeric suffix plus one. */
module CodeAllocation {
  import opened Wrappers
  import opened Text
  import opened Numerals
  import opened Lex

  /** Digits of the sequence part of a student code. */
  const StudentSeqWidth: nat := 3
  /** `max_length` of the student code column. */
  const StudentCodeMaxLength: nat := 5
  /** Digits of the sequence part of a sale run number. */
  const SaleRunSeqWidth: nat := 2

  /** The stored codes that start with `prefix`, in table order. */
  function WithPrefix(codes: seq<string>, prefix: string): (r: seq<string>)
    ensures forall c :: c in r <==> c in codes && StartsWith(c, prefix)
  {
    if |codes| == 0 then []
    else (if StartsWith(codes[0], prefix) then [codes[0]] else []) + WithPrefix(codes[1..], prefix)
  }

  /** The code `filter(code__startswith=prefix).order_by("-code").first()` finds:
      absent when no stored code has the prefix, otherwise the lexicographically
      greatest of those that do. */
  function LastWithPrefix(codes: seq<string>, prefix: string): (r: Option<string>)
    ensures r.None? <==> forall c :: c in codes ==> !StartsWith(c, prefix)
    ensures r.Some? ==> r.value in codes && StartsWith(r.value, prefix)
    ensures r.Some? ==> forall c :: c in codes && StartsWith(c, prefix) ==> LexLe(c, r.value)
  {
    var matching := WithPrefix(codes, prefix);
    if |matching| == 0 then None
    else
      assert matching[0] in matching;
      Some(Greatest(matching))
  }

  // ---------------------------------------------------------------------------
  // Student codes
  // ---------------------------------------------------------------------------

  /** `f"{yy}{n:03d}"`. */
  function StudentCode(yy: string, n: int): string {
    yy + FormatPadded(n, StudentSeqWidth)
  }

  datatype AllocationError = UnparsableSequence(last: string)

  /** The sequence number after the year's last code: 1 when there is none,
      else `int(last[-3:]) + 1`, which has no fallback (Err). */
  function NextStudentSeq(last: Option<string>): Result<int, AllocationError> {
    match last
    case None => Ok(1)
    case Some(l) =>
      if l == "" then Ok(1)
      else
        match ParseInt(LastChars(l, StudentSeqWidth))
        case None => Err(UnparsableSequence(l))
        case Some(k) => Ok(k + 1)
  }

  /** `Student._next_student_code_for_year`: the last code of the year plus one,
      `yy001` for the first student of the year. `int(last[-3:])` has no
      fallback: an unparsable tail raises (Err). */
  function NextStudentCode(yy: string, codes: seq<string>): (r: Result<string, AllocationError>)
    ensures r.Ok? ==> StartsWith(r.value, yy)
    ensures (forall c :: c in codes ==> !StartsWith(c, yy)) ==> r == Ok(StudentCode(yy, 1))
    ensures r.Err? ==> r.error.last in codes && StartsWith(r.error.last, yy)
                       && ParseInt(LastChars(r.error.last, StudentSeqWidth)).None?
  {
    match NextStudentSeq(LastWithPrefix(codes, yy))
    case Err(e) => Err(e)
    case Ok(n) =>
      assert (yy + FormatPadded(n, StudentSeqWidth))[..|yy|] == yy;
      Ok(StudentCode(yy, n))
  }

  /** A student code is `max_length` (five) characters long exactly when its
      sequence number stays within three digits. */
  lemma StudentCodeLength(yy: string, n: nat)
    requires |yy| == 2
    ensures |StudentCode(yy, n)| == StudentCodeMaxLength <==> n <= 999
  {
    FormatPaddedWidth(n, StudentSeqWidth);
    Pow10Small();
  }

  /** While sequence numbers stay within three digits, the lexicographic order of
      the codes is the numeric order of their sequence numbers. */
  lemma StudentCodeOrder(yy: string, a: nat, b: nat)
    requires a <= 999 && b <= 999
    ensures LexLe(StudentCode(yy, a), StudentCode(yy, b)) <==> a <= b
  {
    FormatPaddedWidth(a, StudentSeqWidth);
    FormatPaddedWidth(b, StudentSeqWidth);
    Pow10Small();
    LexLeCommonPrefix(yy, FormatPadded(a, StudentSeqWidth), FormatPadded(b, StudentSeqWidth));
    LexLeDigits(FormatPadded(a, StudentSeqWidth), FormatPadded(b, StudentSeqWidth));
  }

  /** The three-digit tail of a code whose sequence fits in three digits reads
      back as that sequence number. */
  lemma StudentCodeTail(yy: string, n: nat)
    requires n <= 999
    ensures LastChars(StudentCode(yy, n), StudentSeqWidth) == FormatPadded(n, StudentSeqWidth)
    ensures ParseInt(LastChars(StudentCode(yy, n), StudentSeqWidth)) == Some(n)
  {
    FormatPaddedWidth(n, StudentSeqWidth);
    Pow10Small();
    var c := StudentCode(yy, n);
    assert c[|c| - 3..] == FormatPadded(n, StudentSeqWidth);
    ParseFormatPadded(n, StudentSeqWidth);
  }

  /** Codes of one year with different sequence numbers differ. */
  lemma StudentCodeDistinct(yy: string, a: int, b: int)
    requires a != b
    ensures StudentCode(yy, a) != StudentCode(yy, b)
  {
    if StudentCode(yy, a) == StudentCode(yy, b) {
      assert StudentCode(yy, a)[|yy|..] == FormatPadded(a, StudentSeqWidth);
      assert StudentCode(yy, b)[|yy|..] == FormatPadded(b, StudentSeqWidth);
      FormatPaddedInjective(a, b, StudentSeqWidth);
    }
  }

  /** The allocator's answer once the last code of the year is known. */
  lemma NextStudentCodeFromLast(yy: string, codes: seq<string>, last: string, k: int)
    requires LastWithPrefix(codes, yy) == Some(last) && last != ""
    requires ParseInt(LastChars(last, StudentSeqWidth)) == Some(k)
    ensures NextStudentCode(yy, codes) == Ok(StudentCode(yy, k + 1))
  {
    NextStudentSeqOf(last, k);
  }

  lemma NextStudentSeqOf(last: string, k: int)
    requires last != "" && ParseInt(LastChars(last, StudentSeqWidth)) == Some(k)
    ensures NextStudentSeq(Some(last)) == Ok(k + 1)
  {
    var t := LastChars(last, StudentSeqWidth);
    var p := ParseInt(t);
    assert p == Some(k);
  }

  /** The last code of a year whose codes are all well formed, with three-digit
      sequence numbers at most `m` and `m` among them, is the code of `m`. */
  lemma LastStudentCodeIsMax(yy: string, codes: seq<string>, m: nat)
    requires m <= 999
    requires StudentCode(yy, m) in codes
    requires forall c :: c in codes && StartsWith(c, yy) ==>
               exists k: nat :: k <= m && c == StudentCode(yy, k)
    ensures LastWithPrefix(codes, yy) == Some(StudentCode(yy, m))
  {
    var top := StudentCode(yy, m);
    assert StartsWith(top, yy);
    var last := LastWithPrefix(codes, yy).value;
    var k: nat :| k <= m && last == StudentCode(yy, k);
    assert LexLe(top, last);
    StudentCodeOrder(yy, m, k);
  }

  /** While every code of the year is well formed with a sequence number of at
      most three digits, the lexicographic maximum is the numeric maximum `m`, so
      the next code is `m + 1` and it is not yet taken. */
  lemma NextStudentCodeAfterMax(yy: string, codes: seq<string>, m: nat)
    requires m <= 999
    requires StudentCode(yy, m) in codes
    requires forall c :: c in codes && StartsWith(c, yy) ==>
               exists k: nat :: k <= m && c == StudentCode(yy, k)
    ensures NextStudentCode(yy, codes) == Ok(StudentCode(yy, m + 1))
    ensures StudentCode(yy, m + 1) !in codes
  {
    LastStudentCodeIsMax(yy, codes, m);
    var last := StudentCode(yy, m);
    assert |last| >= StudentSeqWidth;
    StudentCodeTail(yy, m);
    NextStudentCodeFromLast(yy, codes, last, m);
    forall k: nat | k <= m
      ensures StudentCode(yy, k) != StudentCode(yy, m + 1)
    {
      StudentCodeDistinct(yy, k, m + 1);
    }
    assert StartsWith(StudentCode(yy, m + 1), yy);
  }

  /** The codes `yy001 .. yy{n}` that `n` allocations in a year issue. */
  function Issued(yy: string, n: nat): (r: seq<string>)
    ensures |r| == n
  {
    seq(n, i => StudentCode(yy, i + 1))
  }

  lemma IssuedSnoc(yy: string, n: nat)
    requires n > 0
    ensures Issued(yy, n) == Issued(yy, n - 1) + [StudentCode(yy, n)]
  {
    var a, b := Issued(yy, n), Issued(yy, n - 1) + [StudentCode(yy, n)];
    assert |a| == |b|;
    forall i | 0 <= i < n
      ensures a[i] == b[i]
    {
      if i < n - 1 {
        assert b[i] == Issued(yy, n - 1)[i];
      }
    }
  }

  /** Allocates `n` student codes one after another, each seeing the codes
      issued before it. */
  function AllocateStudentCodes(yy: string, codes: seq<string>, n: nat): Result<seq<string>, AllocationError>
  {
    if n == 0 then Ok(codes)
    else
      match AllocateStudentCodes(yy, codes, n - 1)
      case Err(e) => Err(e)
      case Ok(before) =>
        match NextStudentCode(yy, before)
        case Err(e) => Err(e)
        case Ok(c) => Ok(before + [c])
  }

  /** Starting from a year with no codes, `n` sequential allocations (up to the
      thousandth) issue exactly `yy001, yy002, ..., yy{n}`. */
  lemma {:induction false} SequentialStudentCodes(yy: string, n: nat)
    requires n <= 1000
    ensures AllocateStudentCodes(yy, [], n) == Ok(Issued(yy, n))
  {
    if n > 0 {
      SequentialStudentCodes(yy, n - 1);
      var before := Issued(yy, n - 1);
      NextStudentAfterIssued(yy, n - 1);
      IssuedSnoc(yy, n);
      assert AllocateStudentCodes(yy, [], n) == Ok(before + [StudentCode(yy, n)]);
    }
  }

  /** After `yy001 .. yy{m}` the allocator issues `yy{m+1}`. */
  lemma NextStudentAfterIssued(yy: string, m: nat)
    requires m <= 999
    ensures NextStudentCode(yy, Issued(yy, m)) == Ok(StudentCode(yy, m + 1))
  {
    if m == 0 {
      assert Issued(yy, m) == [];
    } else {
      IssuedAreCodes(yy, m);
      IssuedHasTop(yy, m);
      NextStudentCodeAfterMax(yy, Issued(yy, m), m);
    }
  }

  lemma IssuedAreCodes(yy: string, m: nat)
    ensures forall c :: c in Issued(yy, m) ==> exists k: nat :: k <= m && c == StudentCode(yy, k)
  {
    var s := Issued(yy, m);
    forall c | c in s
      ensures exists k: nat :: k <= m && c == StudentCode(yy, k)
    {
      var i :| 0 <= i < |s| && s[i] == c;
      IssuedAt(yy, m, i);
      var k: nat := i + 1;
      assert c == StudentCode(yy, k);
    }
  }

  lemma IssuedAt(yy: string, m: nat, i: int)
    requires 0 <= i < m
    ensures Issued(yy, m)[i] == StudentCode(yy, i + 1)
  {
  }

  lemma IssuedHasTop(yy: string, m: nat)
    requires m >= 1
    ensures StudentCode(yy, m) in Issued(yy, m)
  {
    var s := Issued(yy, m);
    assert s[m - 1] == StudentCode(yy, m);
  }

  /** The codes issued in one year are all distinct. */
  lemma IssuedDistinct(yy: string, n: nat)
    ensures forall i, j :: 0 <= i < j < n ==> Issued(yy, n)[i] != Issued(yy, n)[j]
  {
    forall i, j | 0 <= i < j < n
      ensures Issued(yy, n)[i] != Issued(yy, n)[j]
    {
      IssuedPairDistinct(yy, n, i, j);
    }
  }

  lemma IssuedPairDistinct(yy: string, n: nat, i: int, j: int)
    requires 0 <= i < j < n
    ensures Issued(yy, n)[i] != Issued(yy, n)[j]
  {
    StudentCodeInjective(yy);
    IssuedAt(yy, n, i);
    IssuedAt(yy, n, j);
  }

  /** StudentCodeDistinct for every pair of sequence numbers at once. */
  lemma StudentCodeInjective(yy: string)
    ensures forall a, b :: a != b ==> StudentCode(yy, a) != StudentCode(yy, b)
  {
    forall a, b | a != b
      ensures StudentCode(yy, a) != StudentCode(yy, b)
    {
      StudentCodeDistinct(yy, a, b);
    }
  }

  /** The first two students of 2025 get `25001` and `25002`. */
  lemma FirstStudentCodes()
    ensures NextStudentCode("25", []) == Ok("25001")
    ensures NextStudentCode("25", ["25001"]) == Ok("25002")
  {
    assert DigitChar(1) == '1' && DigitChar(2) == '2';
    assert NatToString(1) == "1" && NatToString(2) == "2";
    assert Zeros(2) == "00";
    assert StudentCode("25", 1) == "25001";
    assert StudentCode("25", 2) == "25002";
    NextStudentCodeAfterMax("25", ["25001"], 1);
  }

  lemma Padded999()
    ensures FormatPadded(999, StudentSeqWidth) == "999"
  {
    NatToStringStep(99);
    NatToStringStep(999);
    assert DigitChar(9) == '9';
    assert NatToString(9) == "9";
    assert NatToString(999) == "999";
    FormatPaddedUnpadded(999, StudentSeqWidth);
  }

  lemma Padded1000()
    ensures FormatPadded(1000, StudentSeqWidth) == "1000"
  {
    NatToStringStep(10);
    NatToStringStep(100);
    NatToStringStep(1000);
    assert DigitChar(0) == '0' && DigitChar(1) == '1';
    assert NatToString(1) == "1";
    assert NatToString(1000) == "1000";
    FormatPaddedUnpadded(1000, StudentSeqWidth);
  }

  /** Past 999 the scheme breaks: `yy1000` sorts below `yy999`, so with both
      stored the allocator hands out `yy1000` again, a code that is already
      taken and, for a two-digit year, six characters long, beyond the
      column's `max_length` of five. */
  lemma StudentCodeRollover(yy: string)
    ensures var codes := [StudentCode(yy, 999), StudentCode(yy, 1000)];
            NextStudentCode(yy, codes) == Ok(StudentCode(yy, 1000)) && StudentCode(yy, 1000) in codes
    ensures |yy| == 2 ==> |StudentCode(yy, 1000)| > StudentCodeMaxLength
  {
    var codes := [StudentCode(yy, 999), StudentCode(yy, 1000)];
    Padded999();
    Padded1000();
    assert LexLe("1000", "999");
    LastOfTwo(yy, "999", "1000");
    assert codes == [yy + "999", yy + "1000"];
    StudentCodeTail(yy, 999);
    NextStudentCodeFromLast(yy, codes, StudentCode(yy, 999), 999);
  }

  // ---------------------------------------------------------------------------
  // Sale run numbers
  // ---------------------------------------------------------------------------

  /** `f"{student_code}-{n:02d}"`. */
  function SaleRunNo(code: string, n: int): string {
    code + "-" + FormatPadded(n, SaleRunSeqWidth)
  }

  /** `s.split("-")[-1]`: the text after the last hyphen, all of `s` when it has none. */
  function LastSegment(s: string): (r: string)
    ensures |r| <= |s| && r == s[|s| - |r|..]
    ensures '-' !in r
    ensures |r| < |s| ==> s[|s| - |r| - 1] == '-'
  {
    if |s| == 0 || s[|s| - 1] == '-' then ""
    else
      var init := s[..|s| - 1];
      var t := LastSegment(init);
      var r := t + [s[|s| - 1]];
      assert t == init[|init| - |t|..];
      assert s[|s| - |r|..] == init[|init| - |t|..] + [s[|s| - 1]];
      r
  }

  /** A numeral without a hyphen never reads as a negative number. */
  lemma ParseIntWithoutMinus(s: string)
    requires '-' !in s
    ensures ParseInt(s).Some? ==> ParseInt(s).value >= 0
  {
    ParseIntStrips(s);
    var t := Strip(s);
    if |t| > 0 {
      assert t[0] in s;
    }
  }

  /** The sequence number after the student's last run number: 1 when there
      is none or its suffix does not parse, else the suffix plus one. */
  function NextSaleSeq(last: Option<string>): (n: int)
    ensures n >= 1
  {
    match last
    case None => 1
    case Some(l) =>
      if l == "" then 1
      else
        ParseIntWithoutMinus(LastSegment(l));
        match ParseInt(LastSegment(l))
        case Some(k) => k + 1
        case None => 1
  }

  /** The sale-run part of `Enrollment.save`: the student's last run number
      plus one, `-01` for the first; a suffix that does not parse restarts the
      sequence at 1 instead of raising. */
  function NextSaleRunNo(code: string, runs: seq<string>): (r: string)
    ensures StartsWith(r, code + "-")
    ensures (forall c :: c in runs ==> !StartsWith(c, code + "-")) ==> r == SaleRunNo(code, 1)
  {
    var n := NextSaleSeq(LastWithPrefix(runs, code + "-"));
    assert (code + "-" + FormatPadded(n, SaleRunSeqWidth))[..|code| + 1] == code + "-";
    SaleRunNo(code, n)
  }

  /** The allocator's answer once the student's last run number is known. */
  lemma NextSaleRunNoFromLast(code: string, runs: seq<string>, last: string, k: int)
    requires LastWithPrefix(runs, code + "-") == Some(last)
    requires ParseInt(LastSegment(last)) == Some(k)
    ensures NextSaleRunNo(code, runs) == SaleRunNo(code, k + 1)
  {
    assert last != "" by {
      assert StartsWith(last, code + "-");
    }
    NextSaleSeqOf(last, k);
  }

  lemma NextSaleSeqOf(last: string, k: int)
    requires last != "" && ParseInt(LastSegment(last)) == Some(k)
    ensures NextSaleSeq(Some(last)) == k + 1
  {
  }

  /** When the last run number's suffix does not parse, numbering restarts at 1. */
  lemma NextSaleRunNoFallback(code: string, runs: seq<string>, last: string)
    requires LastWithPrefix(runs, code + "-") == Some(last)
    requires ParseInt(LastSegment(last)).None?
    ensures NextSaleRunNo(code, runs) == SaleRunNo(code, 1)
  {
    assert StartsWith(last, code + "-");
    assert NextSaleSeq(Some(last)) == 1;
  }

  /** The text after the last hyphen of a run number is its padded sequence,
      whatever its width, and reads back as that sequence number. */
  lemma SaleRunTail(code: string, n: nat)
    ensures LastSegment(SaleRunNo(code, n)) == FormatPadded(n, SaleRunSeqWidth)
    ensures ParseInt(LastSegment(SaleRunNo(code, n))) == Some(n)
  {
    var p := FormatPadded(n, SaleRunSeqWidth);
    assert SaleRunNo(code, n) == (code + "-") + p;
    TailAfterHyphen(code, p);
    ParseFormatPadded(n, SaleRunSeqWidth);
  }

  /** `(c + "-" + d).split("-")[-1] == d` for hyphen-free digits `d`. */
  lemma {:induction false} TailAfterHyphen(code: string, d: string)
    requires AllDigits(d)
    ensures LastSegment(code + "-" + d) == d
    decreases |d|
  {
    var s := code + "-" + d;
    if |d| == 0 {
      assert s[|s| - 1] == '-';
    } else {
      var init := d[..|d| - 1];
      assert s[..|s| - 1] == code + "-" + init;
      TailAfterHyphen(code, init);
      assert init + [d[|d| - 1]] == d;
    }
  }

  /** While sequence numbers stay within two digits, the lexicographic order of
      a student's run numbers is the numeric order of their sequences. */
  lemma SaleRunOrder(code: string, a: nat, b: nat)
    requires a <= 99 && b <= 99
    ensures LexLe(SaleRunNo(code, a), SaleRunNo(code, b)) <==> a <= b
  {
    FormatPaddedWidth(a, SaleRunSeqWidth);
    FormatPaddedWidth(b, SaleRunSeqWidth);
    Pow10Small();
    var pa, pb := FormatPadded(a, SaleRunSeqWidth), FormatPadded(b, SaleRunSeqWidth);
    assert SaleRunNo(code, a) == (code + "-") + pa;
    assert SaleRunNo(code, b) == (code + "-") + pb;
    LexLeCommonPrefix(code + "-", pa, pb);
    LexLeDigits(pa, pb);
  }

  /** Run numbers of one student with different sequences differ. */
  lemma SaleRunDistinct(code: string, a: int, b: int)
    requires a != b
    ensures SaleRunNo(code, a) != SaleRunNo(code, b)
  {
    if SaleRunNo(code, a) == SaleRunNo(code, b) {
      assert SaleRunNo(code, a)[|code| + 1..] == FormatPadded(a, SaleRunSeqWidth);
      assert SaleRunNo(code, b)[|code| + 1..] == FormatPadded(b, SaleRunSeqWidth);
      FormatPaddedInjective(a, b, SaleRunSeqWidth);
    }
  }

  /** While every run number of the student is well formed with a sequence of at
      most two digits, the next run number is the numeric maximum `m` plus one,
      and it is not yet taken. */
  lemma NextSaleRunAfterMax(code: string, runs: seq<string>, m: nat)
    requires m <= 99
    requires SaleRunNo(code, m) in runs
    requires forall c :: c in runs && StartsWith(c, code + "-") ==>
               exists k: nat :: k <= m && c == SaleRunNo(code, k)
    ensures NextSaleRunNo(code, runs) == SaleRunNo(code, m + 1)
    ensures SaleRunNo(code, m + 1) !in runs
  {
    var top := SaleRunNo(code, m);
    assert StartsWith(top, code + "-");
    var last := LastWithPrefix(runs, code + "-").value;
    var k: nat :| k <= m && last == SaleRunNo(code, k);
    assert LexLe(top, last);
    SaleRunOrder(code, m, k);
    assert last == top;
    SaleRunTail(code, m);
    NextSaleRunNoFromLast(code, runs, last, m);
    forall j: nat | j <= m
      ensures SaleRunNo(code, j) != SaleRunNo(code, m + 1)
    {
      SaleRunDistinct(code, j, m + 1);
    }
    assert StartsWith(SaleRunNo(code, m + 1), code + "-");
  }

  lemma SaleRunsOfTwo()
    ensures FormatPadded(2, SaleRunSeqWidth) == "02"
  {
    assert DigitChar(2) == '2';
    assert NatToString(2) == "2";
    assert Zeros(1) == "0";
  }

  /** A student's first course is `{code}-01`, the next `{code}-02`. */
  lemma FirstSaleRuns(code: string)
    ensures NextSaleRunNo(code, []) == code + "-01"
    ensures NextSaleRunNo(code, [code + "-01"]) == code + "-02"
  {
    SaleRunsOfOne();
    SaleRunsOfTwo();
    var one, two := SaleRunNo(code, 1), SaleRunNo(code, 2);
    assert one == code + "-01" by {
      assert one == (code + "-") + "01";
    }
    assert two == code + "-02" by {
      assert two == (code + "-") + "02";
    }
    assert NextSaleRunNo(code, []) == one;
    SecondSaleRun(code);
  }

  lemma SecondSaleRun(code: string)
    ensures NextSaleRunNo(code, [SaleRunNo(code, 1)]) == SaleRunNo(code, 2)
  {
    var runs := [SaleRunNo(code, 1)];
    forall c | c in runs && StartsWith(c, code + "-")
      ensures exists k: nat :: k <= 1 && c == SaleRunNo(code, k)
    {
      assert c == SaleRunNo(code, 1);
    }
    NextSaleRunAfterMax(code, runs, 1);
  }

  lemma Padded99()
    ensures FormatPadded(99, SaleRunSeqWidth) == "99"
  {
    assert DigitChar(9) == '9';
    assert NatToString(9) == "9" && NatToString(99) == "99";
  }

  lemma Padded100()
    ensures FormatPadded(100, SaleRunSeqWidth) == "100"
  {
    assert DigitChar(0) == '0' && DigitChar(1) == '1';
    assert NatToString(1) == "1" && NatToString(10) == "10" && NatToString(100) == "100";
  }

  /** Past 99 courses the scheme breaks: `-100` sorts below `-99`, so with both
      stored the allocator hands out `-100` again, a number already taken. */
  lemma SaleRunRollover(code: string)
    ensures var runs := [SaleRunNo(code, 99), SaleRunNo(code, 100)];
            NextSaleRunNo(code, runs) == SaleRunNo(code, 100) && NextSaleRunNo(code, runs) in runs
  {
    var runs := [SaleRunNo(code, 99), SaleRunNo(code, 100)];
    LastOfRolloverRuns(code);
    SaleRunTail(code, 99);
    NextSaleRunNoFromLast(code, runs, SaleRunNo(code, 99), 99);
  }

  lemma LastOfRolloverRuns(code: string)
    ensures LastWithPrefix([SaleRunNo(code, 99), SaleRunNo(code, 100)], code + "-")
            == Some(SaleRunNo(code, 99))
  {
    Padded99();
    Padded100();
    assert LexLe("100", "99");
    LastOfTwo(code + "-", "99", "100");
  }

  /** Of two codes sharing a prefix, the one with the greater tail is the last. */
  lemma LastOfTwo(p: string, hi: string, lo: string)
    requires LexLe(lo, hi)
    ensures LastWithPrefix([p + hi, p + lo], p) == Some(p + hi)
    ensures LastWithPrefix([p + lo, p + hi], p) == Some(p + hi)
  {
    LexLeCommonPrefix(p, lo, hi);
    LexLeReflexive(p + hi);
    assert StartsWith(p + hi, p) && StartsWith(p + lo, p);
    GreatestUnique(WithPrefix([p + hi, p + lo], p), p + hi);
    GreatestUnique(WithPrefix([p + lo, p + hi], p), p + hi);
  }

  /** The lenient fallback can re-issue a number: a corrupt `-xx` run sorts above
      `-01`, does not parse, and the sequence restarts at `-01`, which is
      already taken. */
  lemma SaleRunFallbackReissues(code: string)
    ensures var runs := [SaleRunNo(code, 1), code + "-xx"];
            NextSaleRunNo(code, runs) == SaleRunNo(code, 1)
  {
    LastOfCorruptRuns(code);
    CorruptSuffix(code);
    NextSaleRunNoFallback(code, [SaleRunNo(code, 1), code + "-xx"], code + "-xx");
  }

  lemma LastOfCorruptRuns(code: string)
    ensures LastWithPrefix([SaleRunNo(code, 1), code + "-xx"], code + "-") == Some(code + "-xx")
  {
    SaleRunsOfOne();
    assert LexLe("01", "xx");
    LastOfTwo(code + "-", "xx", "01");
    var p := code + "-";
    assert SaleRunNo(code, 1) == p + "01";
    assert code + "-xx" == p + "xx";
    assert [SaleRunNo(code, 1), code + "-xx"] == [p + "01", p + "xx"];
  }

  lemma SaleRunsOfOne()
    ensures FormatPadded(1, SaleRunSeqWidth) == "01"
  {
    assert DigitChar(1) == '1';
    assert NatToString(1) == "1";
    assert Zeros(1) == "0";
  }

  lemma CorruptSuffix(code: string)
    ensures ParseInt(LastSegment(code + "-xx")) == None
  {
    TailIsXX(code);
    assert !IsDigitRun("xx");
    assert !IsDigitRun("xx"[1..]);
  }

  lemma TailIsXX(code: string)
    ensures LastSegment(code + "-xx") == "xx"
  {
    var s := code + "-xx";
    var s1 := code + "-x";
    var s2 := code + "-";
    assert s[..|s| - 1] == s1 && s1[..|s1| - 1] == s2;
    assert LastSegment(s2) == "";
    assert LastSegment(s1) == "x";
  }
}
