/** Course purchases: the normalisation `Enrollment.save` applies, the
    remaining-session count, and the "near complete" list. Amounts of money are
    integer satang (hundredths of a baht), the two decimal places of the price
    columns. */
module Enrollments {
  import opened Wrappers
  import opened Text
  import opened CodeAllocation
  import opened Attendances

  /** The stored texts of the enrollment types and payment types. */
  const Normal10 := "normal_10"
  const Normal20 := "normal_20"
  const FirstTrial11 := "first_trial_11"
  const FirstBonus12 := "first_bonus_12"
  const Special := "special"
  const FullPayment := "full"
  const InstallmentPayment := "installment"

  /** `TYPE_TO_SESSIONS.get(t, 10)`: the session count a course type comes with;
      a type outside the table gets 10. */
  function TypeSessions(t: string): (n: int)
    ensures t == Normal10 ==> n == 10
    ensures t == Normal20 ==> n == 20
    ensures t == FirstTrial11 ==> n == 11
    ensures t == FirstBonus12 ==> n == 12
    ensures t == Special ==> n == 10
    ensures t !in {Normal10, Normal20, FirstTrial11, FirstBonus12, Special} ==> n == 10
  {
    if t == Normal20 then 20
    else if t == FirstTrial11 then 11
    else if t == FirstBonus12 then 12
    else 10
  }

  /** The columns of an enrollment that the rules below read or write.
      Nullable or optional values are `Option`s. */
  datatype Enrollment = Enrollment(
    id: int,
    studentId: int,
    saleRunNo: Option<string>,
    enrollmentType: string,
    sessionsTotal: int,
    paymentType: string,
    installmentsCount: Option<int>,
    coursePrice: Option<int>,
    discount: Option<int>,
    netPrice: int,
    isActive: bool)

  /** `x or 0` on an optional amount. */
  function OrZero(x: Option<int>): int {
    x.GetOr(0)
  }

  /** `(student.student_code or "").strip()`, empty when the enrollment has no
      student. */
  function StudentCodeText(studentCode: Option<string>): string {
    Strip(studentCode.GetOr(""))
  }

  /** The sale run number part of `Enrollment.save`: only a new enrollment
      without one, whose student has a non-blank code, receives the next run
      number of that student; `runs` are the run numbers the student's other
      enrollments hold. */
  function AssignSaleRun(current: Option<string>, isNew: bool, studentCode: Option<string>, runs: seq<string>)
    : (r: Option<string>)
    ensures current.Some? && current.value != "" ==> r == current
    ensures !isNew ==> r == current
    ensures StudentCodeText(studentCode) == "" ==> r == current
    ensures isNew && (current.None? || current.value == "") && StudentCodeText(studentCode) != "" ==>
              r == Some(NextSaleRunNo(StudentCodeText(studentCode), runs))
  {
    var code := StudentCodeText(studentCode);
    if isNew && (current.None? || current.value == "") && code != "" then
      Some(NextSaleRunNo(code, runs))
    else current
  }

  /** The course price snapshot: taken from the class (`classPrice`, absent
      when the enrollment has no class) while the enrollment's own price is
      unset or zero, and never changed afterwards. */
  function SnapshotPrice(current: Option<int>, classPrice: Option<int>): (r: Option<int>)
    ensures current.Some? && current.value != 0 ==> r == current
    ensures classPrice.None? ==> r == current
    ensures classPrice.Some? && OrZero(current) == 0 ==> r == Some(classPrice.value)
  {
    if classPrice.Some? && (current.None? || current.value == 0) then Some(classPrice.value)
    else current
  }

  /** The instalment count: exactly one for a full payment, otherwise the
      given count when it is positive and one when it is missing or below one.
      Any payment type other than full counts as instalments. */
  function NormalizeInstallments(paymentType: string, count: Option<int>): (r: Option<int>)
    ensures r.Some? && r.value >= 1
    ensures paymentType == FullPayment ==> r == Some(1)
    ensures paymentType != FullPayment && count.Some? && count.value >= 1 ==> r == count
  {
    if paymentType == FullPayment then Some(1)
    else if count.None? || count.value < 1 then Some(1)
    else count
  }

  /** `max(0, course_price - discount)`, missing amounts read as zero. */
  function NetPrice(coursePrice: Option<int>, discount: Option<int>): (r: int)
    ensures r >= 0
    ensures r >= OrZero(coursePrice) - OrZero(discount)
    ensures r == 0 || r == OrZero(coursePrice) - OrZero(discount)
  {
    var np := OrZero(coursePrice) - OrZero(discount);
    if np < 0 then 0 else np
  }

  /** `Enrollment.save`. */
  function SaveEnrollment(e: Enrollment, isNew: bool, studentCode: Option<string>, runs: seq<string>,
                          classPrice: Option<int>): (r: Enrollment)
    ensures r.saleRunNo == AssignSaleRun(e.saleRunNo, isNew, studentCode, runs)
    ensures e.enrollmentType != Special ==> r.sessionsTotal == TypeSessions(e.enrollmentType)
    ensures e.enrollmentType == Special ==> r.sessionsTotal == e.sessionsTotal
    ensures r.coursePrice == SnapshotPrice(e.coursePrice, classPrice)
    ensures r.installmentsCount == NormalizeInstallments(e.paymentType, e.installmentsCount)
    ensures r.netPrice == NetPrice(r.coursePrice, r.discount)
    ensures r.(saleRunNo := e.saleRunNo, sessionsTotal := e.sessionsTotal, coursePrice := e.coursePrice,
               installmentsCount := e.installmentsCount, netPrice := e.netPrice) == e
  {
    var sessions := if e.enrollmentType != Special then TypeSessions(e.enrollmentType) else e.sessionsTotal;
    var price := SnapshotPrice(e.coursePrice, classPrice);
    e.(saleRunNo := AssignSaleRun(e.saleRunNo, isNew, studentCode, runs),
       sessionsTotal := sessions,
       coursePrice := price,
       installmentsCount := NormalizeInstallments(e.paymentType, e.installmentsCount),
       netPrice := NetPrice(price, e.discount))
  }

  /** After a save, the net price is what is left of the course price once the
      discount is taken off, floored at zero: with a discount no larger than
      the price the two add back up to the price, and a larger discount leaves
      nothing to pay. */
  lemma NetPriceComplement(e: Enrollment, isNew: bool, studentCode: Option<string>, runs: seq<string>,
                           classPrice: Option<int>)
    ensures var r := SaveEnrollment(e, isNew, studentCode, runs, classPrice);
            (OrZero(r.discount) <= OrZero(r.coursePrice) ==> r.netPrice + OrZero(r.discount) == OrZero(r.coursePrice))
            && (OrZero(r.discount) >= OrZero(r.coursePrice) ==> r.netPrice == 0)
  {
  }

  /** Saving a saved enrollment again (an update) changes nothing: every rule
      of the save is already satisfied by its own output. */
  lemma SaveEnrollmentIdempotent(e: Enrollment, isNew: bool, studentCode: Option<string>, runs: seq<string>,
                                 classPrice: Option<int>, runs2: seq<string>)
    ensures var once := SaveEnrollment(e, isNew, studentCode, runs, classPrice);
            SaveEnrollment(once, false, studentCode, runs2, classPrice) == once
  {
  }

  /** A new enrollment of a student who holds no run number yet is the
      student's run `-01`. */
  lemma FirstRunOfStudent(e: Enrollment, studentCode: Option<string>, runs: seq<string>, classPrice: Option<int>)
    requires e.saleRunNo.None? && StudentCodeText(studentCode) != ""
    requires forall c :: c in runs ==> !StartsWith(c, StudentCodeText(studentCode) + "-")
    ensures SaveEnrollment(e, true, studentCode, runs, classPrice).saleRunNo
            == Some(SaleRunNo(StudentCodeText(studentCode), 1))
  {
  }

  /** `Enrollment.remaining_sessions`: the course's sessions less the deducted
      attendance rows recorded against it. Nothing clamps it, so more deducted
      rows than sessions make it negative. */
  function RemainingSessions(e: Enrollment, atts: seq<Attendance>): (n: int)
    ensures n <= e.sessionsTotal
    ensures n == e.sessionsTotal - |set i | 0 <= i < |atts| && atts[i].enrollmentId == e.id && atts[i].deducted|
  {
    UsedSessionsCounts(atts, e.id);
    e.sessionsTotal - UsedSessions(atts, e.id)
  }

  /** Eleven deducted rows against a ten-session course leave minus one. */
  lemma RemainingGoesNegative(e: Enrollment, a: Attendance)
    requires e.sessionsTotal == 10 && a.enrollmentId == e.id && a.deducted
    ensures RemainingSessions(e, seq(11, _ => a)) == -1
  {
    AllRowsDeducted(seq(11, _ => a), e.id);
  }

  /** When every row is a deducted row of the enrollment, all of them count. */
  lemma {:induction false} AllRowsDeducted(atts: seq<Attendance>, enrollmentId: int)
    requires forall i :: 0 <= i < |atts| ==> atts[i].enrollmentId == enrollmentId && atts[i].deducted
    ensures UsedSessions(atts, enrollmentId) == |atts|
  {
    if |atts| > 0 {
      AllRowsDeducted(atts[..|atts| - 1], enrollmentId);
    }
  }

  /** Saving an attendance against the enrollment uses a session exactly when
      its status deducts. */
  lemma RemainingAfterAttendance(e: Enrollment, atts: seq<Attendance>, a: Attendance)
    requires a.enrollmentId == e.id
    ensures var saved := SaveAttendance(a);
            RemainingSessions(e, atts + [saved])
            == RemainingSessions(e, atts) - (if Deducts(a.status) then 1 else 0)
  {
    UsedSessionsAppend(atts, SaveAttendance(a), e.id);
  }

  /** The dashboard's "near complete" threshold: fewer than two sessions left. */
  const NearCompleteThreshold := 2

  /** The dashboard's near-complete list: the enrollments, in order, with
      fewer than two sessions remaining. */
  function NearComplete(es: seq<Enrollment>, atts: seq<Attendance>): (r: seq<Enrollment>)
    ensures |r| <= |es|
    ensures forall e :: e in r <==> e in es && RemainingSessions(e, atts) < NearCompleteThreshold
  {
    if |es| == 0 then []
    else
      var rest := NearComplete(es[..|es| - 1], atts);
      var e := es[|es| - 1];
      if RemainingSessions(e, atts) < NearCompleteThreshold then rest + [e] else rest
  }

  /** The near-complete list keeps the dashboard's order: it is a subsequence
      of the enrollments. */
  lemma {:induction false} NearCompleteIsSubsequence(es: seq<Enrollment>, atts: seq<Attendance>)
    ensures IsSubsequence(NearComplete(es, atts), es)
  {
    if |es| > 0 {
      NearCompleteIsSubsequence(es[..|es| - 1], atts);
      SubsequenceSnoc(NearComplete(es[..|es| - 1], atts), es[..|es| - 1], es[|es| - 1]);
      assert es[..|es| - 1] + [es[|es| - 1]] == es;
    }
  }

  /** `a` is `b` with some elements left out, order kept. */
  predicate IsSubsequence<T(==)>(a: seq<T>, b: seq<T>)
    decreases |b|
  {
    if |a| == 0 then true
    else if |b| == 0 then false
    else (a[|a| - 1] == b[|b| - 1] && IsSubsequence(a[..|a| - 1], b[..|b| - 1]))
         || IsSubsequence(a, b[..|b| - 1])
  }

  lemma {:induction false} SubsequenceSnoc<T>(a: seq<T>, b: seq<T>, x: T)
    requires IsSubsequence(a, b)
    ensures IsSubsequence(a, b + [x]) && IsSubsequence(a + [x], b + [x])
  {
    assert (b + [x])[..|b|] == b;
    assert (a + [x])[..|a|] == a;
  }
}
