/** Attendance records and the sessions they use up. */
module Attendances {
  import opened Wrappers

  /** The three choices of the attendance status column. */
  datatype Status = Present | Excused | NoShow

  /** The stored text of a status. */
  function StatusName(s: Status): string {
    match s
    case Present => "present"
    case Excused => "excused"
    case NoShow => "no_show"
  }

  /** The status a stored text names, if any. */
  function ParseStatus(x: string): (r: Option<Status>)
    ensures r.Some? ==> StatusName(r.value) == x
  {
    if x == "present" then Some(Present)
    else if x == "excused" then Some(Excused)
    else if x == "no_show" then Some(NoShow)
    else None
  }

  /** Every status reads back from its text, and only its own text names it. */
  lemma ParseStatusName(s: Status, x: string)
    ensures ParseStatus(StatusName(s)) == Some(s)
    ensures ParseStatus(x) == Some(s) <==> x == StatusName(s)
  {
  }

  /** A row of the attendance table. The status column holds text; the model
      does not enforce its choices on save, so any text can be stored. Dates
      are day ordinals and `checkedAt` a timestamp. */
  datatype Attendance = Attendance(
    studentId: int,
    enrollmentId: int,
    date: int,
    status: string,
    deducted: bool,
    checkedAt: int)

  /** Whether a status uses up a session: attending and not showing up do,
      an excused absence does not. */
  predicate Deducts(status: string) {
    status == StatusName(Present) || status == StatusName(NoShow)
  }

  /** `Attendance.save`: recomputes `deducted` from the status and changes
      nothing else. */
  function SaveAttendance(a: Attendance): (r: Attendance)
    ensures r.deducted <==> ParseStatus(a.status) == Some(Present) || ParseStatus(a.status) == Some(NoShow)
    ensures r.(deducted := a.deducted) == a
  {
    a.(deducted := Deducts(a.status))
  }

  /** An excused absence never deducts, and neither does text outside the
      three choices. */
  lemma ExcusedNeverDeducts(a: Attendance)
    requires a.status == StatusName(Excused) || ParseStatus(a.status).None?
    ensures !SaveAttendance(a).deducted
  {
  }

  /** Saving twice is saving once. */
  lemma SaveAttendanceIdempotent(a: Attendance)
    ensures SaveAttendance(SaveAttendance(a)) == SaveAttendance(a)
  {
  }

  /** `enrollment.attendances.filter(deducted=True).count()`: the stored rows
      of the enrollment whose flag is set. */
  function UsedSessions(atts: seq<Attendance>, enrollmentId: int): (n: nat)
    ensures n <= |atts|
  {
    if |atts| == 0 then 0
    else
      UsedSessions(atts[..|atts| - 1], enrollmentId)
      + (if atts[|atts| - 1].enrollmentId == enrollmentId && atts[|atts| - 1].deducted then 1 else 0)
  }

  /** Every counted row is a deducted row of the enrollment, so the count is
      the size of the set of positions holding one. */
  lemma {:induction false} UsedSessionsCounts(atts: seq<Attendance>, enrollmentId: int)
    ensures UsedSessions(atts, enrollmentId)
            == |set i | 0 <= i < |atts| && atts[i].enrollmentId == enrollmentId && atts[i].deducted|
  {
    var s := set i | 0 <= i < |atts| && atts[i].enrollmentId == enrollmentId && atts[i].deducted;
    if |atts| > 0 {
      var init := atts[..|atts| - 1];
      UsedSessionsCounts(init, enrollmentId);
      var t := set i | 0 <= i < |init| && init[i].enrollmentId == enrollmentId && init[i].deducted;
      var last := atts[|atts| - 1];
      if last.enrollmentId == enrollmentId && last.deducted {
        assert s == t + {|atts| - 1};
      } else {
        assert s == t;
      }
    } else {
      assert s == {};
    }
  }

  /** Recording one more attendance uses one more session exactly when it is a
      deducted row of that enrollment. */
  lemma UsedSessionsAppend(atts: seq<Attendance>, a: Attendance, enrollmentId: int)
    ensures UsedSessions(atts + [a], enrollmentId)
            == UsedSessions(atts, enrollmentId) + (if a.enrollmentId == enrollmentId && a.deducted then 1 else 0)
  {
    assert (atts + [a])[..|atts|] == atts;
  }
}
