/** The parents' portal login: a student code and the parent's phone number,
    compared on their digits only. */
module Portal {
  import opened Wrappers
  import opened Text
  import opened Students

  /** `str.isdigit` on the digit blocks the model covers: ASCII, the Latin-1
      superscripts one to three, Arabic-Indic, extended Arabic-Indic,
      Devanagari, Thai, Lao and full-width digits. */
  predicate IsDigitChar(c: char) {
    var k := c as int;
    || (0x30 <= k <= 0x39) || k == 0xB2 || k == 0xB3 || k == 0xB9
    || (0x660 <= k <= 0x669) || (0x6F0 <= k <= 0x6F9) || (0x966 <= k <= 0x96F)
    || (0xE50 <= k <= 0xE59) || (0xED0 <= k <= 0xED9) || (0xFF10 <= k <= 0xFF19)
  }

  /** `"".join(ch for ch in x if ch.isdigit())`: the digits of `x`, in order. */
  function Digits(x: string): (r: string)
    ensures |r| <= |x|
    ensures forall i :: 0 <= i < |r| ==> IsDigitChar(r[i])
    ensures (forall i :: 0 <= i < |x| ==> IsDigitChar(x[i])) ==> r == x
  {
    if |x| == 0 then ""
    else (if IsDigitChar(x[0]) then [x[0]] else []) + Digits(x[1..])
  }

  /** The digits of a concatenation are the concatenation of the digits. */
  lemma {:induction false} DigitsAppend(a: string, b: string)
    ensures Digits(a + b) == Digits(a) + Digits(b)
    decreases |a|
  {
    if |a| > 0 {
      assert (a + b)[1..] == a[1..] + b;
      DigitsAppend(a[1..], b);
    } else {
      assert a + b == b;
    }
  }

  /** Punctuation, spaces and letters do not matter: inserting characters that
      are not digits anywhere leaves the digits unchanged. */
  lemma IgnoresNonDigits(a: string, junk: string, b: string)
    requires forall i :: 0 <= i < |junk| ==> !IsDigitChar(junk[i])
    ensures Digits(a + junk + b) == Digits(a + b)
  {
    calc {
      Digits(a + junk + b);
      { DigitsAppend(a + junk, b); }
      Digits(a + junk) + Digits(b);
      { DigitsAppend(a, junk); NoDigits(junk); assert Digits(a) + "" == Digits(a); }
      Digits(a) + Digits(b);
      { DigitsAppend(a, b); }
      Digits(a + b);
    }
  }

  lemma {:induction false} NoDigits(x: string)
    requires forall i :: 0 <= i < |x| ==> !IsDigitChar(x[i])
    ensures Digits(x) == ""
    decreases |x|
  {
    if |x| > 0 {
      NoDigits(x[1..]);
    }
  }

  /** The form field limits: `max_length` of the code and phone fields. */
  const CodeMaxLength := 20
  const PhoneMaxLength := 50

  /** What a form `CharField` accepts after stripping: required (non-blank),
      at most `max_length` characters, and no NUL character. */
  predicate FieldAccepted(x: string, maxLength: nat) {
    x != "" && |x| <= maxLength && '\0' !in x
  }

  datatype LoginError =
    | FieldInvalid   // a field is blank, longer than its limit, or holds a NUL
    | UnknownCode    // no active student has the code
    | WrongPhone     // the phone digits do not match the parent's

  /** The first active student with exactly this code, if any. */
  function FindActive(students: seq<Student>, code: string): (r: Option<Student>)
    ensures r.None? <==> forall s :: s in students ==> !(s.isActive && s.code == Some(code))
    ensures r.Some? ==> r.value in students && r.value.isActive && r.value.code == Some(code)
  {
    if |students| == 0 then None
    else if students[0].isActive && students[0].code == Some(code) then Some(students[0])
    else FindActive(students[1..], code)
  }

  /** `StudentPortalLoginForm` validation: both fields are stripped and must
      be non-blank, within their limits and free of NUL characters (the
      field's null-character validator); the code must belong to an active
      student; and the digits of the entered phone must equal the digits of
      the phone on record. */
  function PortalLogin(students: seq<Student>, code: Option<string>, phone: Option<string>)
    : (r: Result<Student, LoginError>)
    ensures r.Ok? ==> r.value in students && r.value.isActive
                      && r.value.code == Some(Strip(code.GetOr("")))
                      && Digits(r.value.parentPhone) == Digits(Strip(phone.GetOr("")))
    ensures r == Err(FieldInvalid) <==>
              !FieldAccepted(Strip(code.GetOr("")), CodeMaxLength) || !FieldAccepted(Strip(phone.GetOr("")), PhoneMaxLength)
    ensures r == Err(UnknownCode) ==>
              forall s :: s in students ==> !(s.isActive && s.code == Some(Strip(code.GetOr(""))))
  {
    var c, p := Strip(code.GetOr("")), Strip(phone.GetOr(""));
    if !FieldAccepted(c, CodeMaxLength) || !FieldAccepted(p, PhoneMaxLength) then
      Err(FieldInvalid)
    else match FindActive(students, c)
      case None => Err(UnknownCode)
      case Some(s) =>
        if Digits(s.parentPhone) != Digits(p) then Err(WrongPhone) else Ok(s)
  }

  /** Student codes are unique among the rows. */
  predicate UniqueCodes(students: seq<Student>) {
    forall i, j ::
      0 <= i < |students| && 0 <= j < |students| && students[i].code.Some? && students[i].code == students[j].code
      ==> i == j
  }

  /** With well-formed fields and unique codes, the login succeeds exactly for
      the active student holding the code whose phone has the entered digits. */
  lemma PortalLoginIff(students: seq<Student>, code: string, phone: string, s: Student)
    requires UniqueCodes(students)
    requires FieldAccepted(Strip(code), CodeMaxLength)
    requires FieldAccepted(Strip(phone), PhoneMaxLength)
    ensures PortalLogin(students, Some(code), Some(phone)) == Ok(s) <==>
              s in students && s.isActive && s.code == Some(Strip(code))
              && Digits(s.parentPhone) == Digits(Strip(phone))
  {
    if s in students && s.isActive && s.code == Some(Strip(code)) {
      var f := FindActive(students, Strip(code));
      var i :| 0 <= i < |students| && students[i] == s;
      var j :| 0 <= j < |students| && students[j] == f.value;
    }
  }
}
