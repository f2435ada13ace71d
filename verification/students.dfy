/** The student record: its display name and the code it receives when it is
    first saved. */
module Students {
  import opened Wrappers
  import opened Text
  import opened Numerals
  import opened Lex
  import opened CodeAllocation

  /** The columns of a student that the rules below read or write. Text columns
      the code guards with `or ""` are optional. */
  datatype Student = Student(
    code: Option<string>,
    nickname: Option<string>,
    fullName: Option<string>,
    gradeLevel: Option<string>,
    parentPhone: string,
    isActive: bool)

  /** `(x or "").strip()`. */
  function Field(x: Option<string>): string {
    Strip(x.GetOr(""))
  }

  /** The four stripped fields the display name is built from, in the order it
      shows them: code, nickname, full name, grade. */
  function NameFields(s: Student): seq<string> {
    [Field(s.code), Field(s.nickname), Field(s.fullName), Field(s.gradeLevel)]
  }

  /** The non-empty strings of `xs`, in their order. */
  function Filled(xs: seq<string>): seq<string> {
    if |xs| == 0 then []
    else (if xs[0] == "" then [] else [xs[0]]) + Filled(xs[1..])
  }

  /** The non-blank stripped parts of the display name, in order: code,
      nickname, full name, grade. */
  function NameParts(s: Student): (parts: seq<string>)
    ensures parts == Filled(NameFields(s))
    ensures |parts| <= 4
    ensures forall p :: p in parts ==> |p| > 0
    ensures |parts| == 0 <==>
              Field(s.code) == "" && Field(s.nickname) == "" && Field(s.fullName) == "" && Field(s.gradeLevel) == ""
    ensures Field(s.code) != "" ==> parts[0] == Field(s.code)
  {
    var f := NameFields(s);
    FilledOfFour(f[0], f[1], f[2], f[3]);
    NonBlankParts(f[0], f[1], f[2], f[3])
  }

  /** `[x for x in (a, b, c, d) if x]`. */
  function NonBlankParts(a: string, b: string, c: string, d: string): (parts: seq<string>)
    ensures |parts| <= 4
    ensures forall p :: p in parts ==> |p| > 0
    ensures |parts| == 0 <==> a == "" && b == "" && c == "" && d == ""
    ensures a != "" ==> parts[0] == a
  {
    var pa := KeepNonBlank([], a);
    var pb := KeepNonBlank(pa, b);
    var pc := KeepNonBlank(pb, c);
    var pd := KeepNonBlank(pc, d);
    assert a != "" ==> pb[0] == a && pc[0] == a && pd[0] == a by {
      if a != "" {
        assert pb[..|pa|] == pa;
        assert pc[..|pb|] == pb;
        assert pd[..|pc|] == pc;
      }
    }
    pd
  }

  /** Filtering four fields keeps each non-empty one, in order. */
  lemma FilledOfFour(a: string, b: string, c: string, d: string)
    ensures Filled([a, b, c, d])
            == KeepNonBlank(KeepNonBlank(KeepNonBlank(KeepNonBlank([], a), b), c), d)
  {
    assert [a] == [] + [a];
    FilledSnoc([], a);
    FilledSnoc([a], b);
    assert [a] + [b] == [a, b];
    FilledSnoc([a, b], c);
    assert [a, b] + [c] == [a, b, c];
    FilledSnoc([a, b, c], d);
    assert [a, b, c] + [d] == [a, b, c, d];
  }

  /** Filtering a sequence extended by one string is filtering the sequence and
      then keeping that string if it is non-empty. */
  lemma {:induction false} FilledSnoc(xs: seq<string>, x: string)
    ensures Filled(xs + [x]) == KeepNonBlank(Filled(xs), x)
    decreases |xs|
  {
    if |xs| == 0 {
      assert xs + [x] == [x];
      assert [x][1..] == [];
    } else {
      assert (xs + [x])[1..] == xs[1..] + [x];
      FilledSnoc(xs[1..], x);
    }
  }

  /** `if x: parts.append(x)`. */
  function KeepNonBlank(parts: seq<string>, x: string): (r: seq<string>)
    ensures |r| == |parts| + (if x == "" then 0 else 1)
    ensures r[..|parts|] == parts
    ensures forall p :: p in r ==> p in parts || (p == x && x != "")
    ensures x != "" ==> r[|parts|] == x
  {
    if x == "" then parts else parts + [x]
  }

  /** `Student.display_name`: the non-blank parts joined with `" | "`, or `"-"`
      when all of them are blank. It is never empty and leads with the code
      when there is one. */
  function DisplayName(s: Student): (r: string)
    ensures |r| > 0
    ensures Filled(NameFields(s)) == [] ==> r == "-"
    ensures Filled(NameFields(s)) != [] ==> r == Join(Filled(NameFields(s)), " | ")
    ensures Field(s.code) != "" ==> StartsWith(r, Field(s.code))
  {
    var parts := NameParts(s);
    if parts == [] then "-"
    else Join(parts, " | ")
  }

  /** A student with only a code is shown as that code. */
  lemma DisplayNameOfCodeOnly(s: Student)
    requires Field(s.code) != ""
    requires Field(s.nickname) == "" && Field(s.fullName) == "" && Field(s.gradeLevel) == ""
    ensures DisplayName(s) == Field(s.code)
  {
    assert NameParts(s) == [Field(s.code)];
  }

  /** `str(year)[-2:]`: the prefix of the student codes issued in `year`. For a
      year of two or more digits it is the year modulo 100, zero-padded to two
      digits. */
  function YearPrefix(year: nat): (yy: string)
    ensures year >= 10 ==> |yy| == 2 && AllDigits(yy) && Value(yy) == year % 100
    ensures year >= 10 ==> yy == FormatPadded(year % 100, 2)
  {
    var yy := LastChars(NatToString(year), 2);
    if year >= 10 then
      LastTwoDigits(year);
      PaddedDigitsCanonical(yy);
      yy
    else yy
  }

  /** `Student.save`: a new student receives the next code of the current year,
      overwriting whatever code it carried; an existing one is stored unchanged.
      An unparsable last code aborts the save. */
  function SaveStudent(s: Student, isNew: bool, year: nat, codes: seq<string>)
    : (r: Result<Student, AllocationError>)
    ensures !isNew ==> r == Ok(s)
    ensures isNew && r.Ok? ==>
              r.value == s.(code := r.value.code) && r.value.code.Some?
              && StartsWith(r.value.code.value, YearPrefix(year))
    ensures isNew && r.Ok? ==>
              NextStudentCode(YearPrefix(year), codes).Ok?
              && r.value.code == Some(NextStudentCode(YearPrefix(year), codes).value)
    ensures isNew ==> (r.Err? <==> NextStudentCode(YearPrefix(year), codes).Err?)
  {
    if !isNew then Ok(s)
    else
      match NextStudentCode(YearPrefix(year), codes)
      case Ok(c) => Ok(s.(code := Some(c)))
      case Err(e) => Err(e)
  }

  /** The first student saved in a year gets that year's code `yy001`. */
  lemma FirstStudentOfYear(s: Student, year: nat, codes: seq<string>)
    requires forall c :: c in codes ==> !StartsWith(c, YearPrefix(year))
    ensures SaveStudent(s, true, year, codes) == Ok(s.(code := Some(StudentCode(YearPrefix(year), 1))))
  {
  }

  /** Students saved in 2025 get codes starting `25`. */
  lemma PrefixOf2025(year: nat)
    requires year == 2025
    ensures YearPrefix(year) == "25"
  {
    assert FormatPadded(25, 2) == "25" by {
      assert DigitChar(2) == '2' && DigitChar(5) == '5';
      assert NatToString(2) == "2" && NatToString(25) == "25";
    }
  }
}
