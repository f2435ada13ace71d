/** The two pieces of dashboard arithmetic: numbering each student's courses
    in enrollment order, and counting the distinct students seen in each of
    the last eight Monday-based weeks. */
module Dashboards {
  import opened Wrappers
  import opened Calendar

  // ---------------------------------------------------------------------
  // Course numbering
  // ---------------------------------------------------------------------

  /** One enrollment row, as the query returns it: its id and its student. */
  datatype Row = Row(id: int, studentId: int)

  /** The query orders rows by student id first (then creation time and id,
      which fix the order within one student). */
  predicate SortedByStudent(rows: seq<Row>) {
    forall i, j :: 0 <= i < j < |rows| ==> rows[i].studentId <= rows[j].studentId
  }

  /** The counter the loop holds at row `i`: one more than at the row before
      when that row has the same student, else 1. */
  function Run(rows: seq<Row>, i: int): (n: int)
    requires 0 <= i < |rows|
    ensures 1 <= n <= i + 1
    decreases i
  {
    if i > 0 && rows[i - 1].studentId == rows[i].studentId then Run(rows, i - 1) + 1 else 1
  }

  /** The number of rows of student `sid`. */
  function CountOf(rows: seq<Row>, sid: int): (n: nat)
    ensures n <= |rows|
    decreases |rows|
  {
    if |rows| == 0 then 0
    else CountOf(rows[..|rows| - 1], sid) + (if rows[|rows| - 1].studentId == sid then 1 else 0)
  }

  /** The last row with a given id, or with a given student: the one whose
      value the dictionaries keep. */
  predicate LastWithId(rows: seq<Row>, i: int, k: int)
    requires 0 <= i < k <= |rows|
  {
    forall j :: i < j < k ==> rows[j].id != rows[i].id
  }

  predicate LastOfStudent(rows: seq<Row>, i: int, k: int)
    requires 0 <= i < k <= |rows|
  {
    forall j :: i < j < k ==> rows[j].studentId != rows[i].studentId
  }

  /** After the first `k` rows, `m` maps each id seen to the counter of the
      last row with that id. */
  predicate IdsNumbered(rows: seq<Row>, k: int, m: map<int, int>)
    requires 0 <= k <= |rows|
  {
    && m.Keys == (set i | 0 <= i < k :: rows[i].id)
    && forall i :: 0 <= i < k && LastWithId(rows, i, k) ==> m[rows[i].id] == Run(rows, i)
  }

  /** After the first `k` rows, `m` maps each student seen to the counter of
      its last row. */
  predicate StudentsNumbered(rows: seq<Row>, k: int, m: map<int, int>)
    requires 0 <= k <= |rows|
  {
    && m.Keys == (set i | 0 <= i < k :: rows[i].studentId)
    && forall i :: 0 <= i < k && LastOfStudent(rows, i, k) ==> m[rows[i].studentId] == Run(rows, i)
  }

  lemma IdsStep(rows: seq<Row>, k: int, m: map<int, int>)
    requires 0 <= k < |rows|
    requires IdsNumbered(rows, k, m)
    ensures IdsNumbered(rows, k + 1, m[rows[k].id := Run(rows, k)])
  {
    var m' := m[rows[k].id := Run(rows, k)];
    forall i | 0 <= i < k + 1 && LastWithId(rows, i, k + 1)
      ensures m'[rows[i].id] == Run(rows, i)
    {
      if i < k {
        assert rows[k].id != rows[i].id;
        assert LastWithId(rows, i, k);
      }
    }
    SetOfPrefixSnoc(seq(|rows|, i requires 0 <= i < |rows| => rows[i].id), k);
  }

  lemma StudentsStep(rows: seq<Row>, k: int, m: map<int, int>)
    requires 0 <= k < |rows|
    requires StudentsNumbered(rows, k, m)
    ensures StudentsNumbered(rows, k + 1, m[rows[k].studentId := Run(rows, k)])
  {
    var m' := m[rows[k].studentId := Run(rows, k)];
    forall i | 0 <= i < k + 1 && LastOfStudent(rows, i, k + 1)
      ensures m'[rows[i].studentId] == Run(rows, i)
    {
      if i < k {
        assert rows[k].studentId != rows[i].studentId;
        assert LastOfStudent(rows, i, k);
      }
    }
    SetOfPrefixSnoc(seq(|rows|, i requires 0 <= i < |rows| => rows[i].studentId), k);
  }

  /** The values of the first `k + 1` entries are those of the first `k`
      and the entry at `k`. */
  lemma SetOfPrefixSnoc(xs: seq<int>, k: int)
    requires 0 <= k < |xs|
    ensures (set i | 0 <= i < k + 1 :: xs[i]) == (set i | 0 <= i < k :: xs[i]) + {xs[k]}
  {
  }

  /** Both dictionaries as the loop leaves them after the first `k` rows. */
  predicate Numbered(rows: seq<Row>, k: int, seqById: map<int, int>, totalByStudent: map<int, int>)
    requires 0 <= k <= |rows|
  {
    IdsNumbered(rows, k, seqById) && StudentsNumbered(rows, k, totalByStudent)
  }

  lemma NumberedStep(rows: seq<Row>, k: int, seqById: map<int, int>, totalByStudent: map<int, int>)
    requires 0 <= k < |rows|
    requires Numbered(rows, k, seqById, totalByStudent)
    ensures Numbered(rows, k + 1, seqById[rows[k].id := Run(rows, k)],
                     totalByStudent[rows[k].studentId := Run(rows, k)])
  {
    IdsStep(rows, k, seqById);
    StudentsStep(rows, k, totalByStudent);
  }

  /** The loop of `dashboard` that fills `course_seq_by_enrollment_id` and
      `course_total_by_student`. */
  method CourseNumbering(rows: seq<Row>) returns (seqById: map<int, int>, totalByStudent: map<int, int>)
    ensures seqById.Keys == set i | 0 <= i < |rows| :: rows[i].id
    ensures totalByStudent.Keys == set i | 0 <= i < |rows| :: rows[i].studentId
    ensures forall i :: 0 <= i < |rows| && LastWithId(rows, i, |rows|) ==> seqById[rows[i].id] == Run(rows, i)
    ensures forall i :: 0 <= i < |rows| && LastOfStudent(rows, i, |rows|) ==>
              totalByStudent[rows[i].studentId] == Run(rows, i)
  {
    seqById, totalByStudent := map[], map[];
    var current: Option<int> := None;
    var n := 0;
    var k := 0;
    while k < |rows|
      invariant 0 <= k <= |rows|
      invariant k == 0 ==> current.None? && n == 0
      invariant k > 0 ==> current == Some(rows[k - 1].studentId) && n == Run(rows, k - 1)
      invariant Numbered(rows, k, seqById, totalByStudent)
    {
      var sid := rows[k].studentId;
      if current != Some(sid) {
        current := Some(sid);
        n := 0;
      }
      n := n + 1;
      assert n == Run(rows, k);
      var eid := rows[k].id;
      NumberedStep(rows, k, seqById, totalByStudent);
      seqById := seqById[eid := n];
      totalByStudent := totalByStudent[sid := n];
      k := k + 1;
    }
    NumberedAll(rows, seqById, totalByStudent);
  }

  lemma NumberedAll(rows: seq<Row>, seqById: map<int, int>, totalByStudent: map<int, int>)
    requires Numbered(rows, |rows|, seqById, totalByStudent)
    ensures seqById.Keys == set i | 0 <= i < |rows| :: rows[i].id
    ensures totalByStudent.Keys == set i | 0 <= i < |rows| :: rows[i].studentId
    ensures forall i :: 0 <= i < |rows| && LastWithId(rows, i, |rows|) ==> seqById[rows[i].id] == Run(rows, i)
    ensures forall i :: 0 <= i < |rows| && LastOfStudent(rows, i, |rows|) ==>
              totalByStudent[rows[i].studentId] == Run(rows, i)
  {
  }

  /** Students with no row count zero. */
  lemma {:induction false} CountOfAbsent(rows: seq<Row>, sid: int)
    requires forall j :: 0 <= j < |rows| ==> rows[j].studentId != sid
    ensures CountOf(rows, sid) == 0
    decreases |rows|
  {
    if |rows| > 0 {
      CountOfAbsent(rows[..|rows| - 1], sid);
    }
  }

  /** On rows sorted by student, the counter at row `i` is the number of rows
      of that student up to and including `i`: each student's courses are
      numbered 1, 2, 3, ... in order. */
  lemma {:induction false} RunCountsCourses(rows: seq<Row>, i: int)
    requires SortedByStudent(rows)
    requires 0 <= i < |rows|
    ensures Run(rows, i) == CountOf(rows[..i + 1], rows[i].studentId)
    decreases i
  {
    var sid := rows[i].studentId;
    assert rows[..i + 1][..i] == rows[..i];
    if i > 0 && rows[i - 1].studentId == sid {
      RunCountsCourses(rows, i - 1);
    } else {
      forall j | 0 <= j < i
        ensures rows[..i][j].studentId != sid
      {
        assert rows[j].studentId <= rows[i - 1].studentId;
      }
      CountOfAbsent(rows[..i], sid);
    }
  }

  /** Rows past the last of a student leave its count unchanged. */
  lemma {:induction false} CountOfPrefix(rows: seq<Row>, sid: int, k: int)
    requires 0 <= k <= |rows|
    requires forall j :: k <= j < |rows| ==> rows[j].studentId != sid
    ensures CountOf(rows, sid) == CountOf(rows[..k], sid)
    decreases |rows|
  {
    if |rows| > k {
      var init := rows[..|rows| - 1];
      assert init[..k] == rows[..k];
      CountOfPrefix(init, sid, k);
    } else {
      assert rows[..k] == rows;
    }
  }

  /** On rows sorted by student, a student's total is the number of its
      enrollments, and every course number lies between 1 and that total. */
  lemma CourseTotalIsCount(rows: seq<Row>, i: int)
    requires SortedByStudent(rows)
    requires 0 <= i < |rows|
    requires LastOfStudent(rows, i, |rows|)
    ensures Run(rows, i) == CountOf(rows, rows[i].studentId)
  {
    RunCountsCourses(rows, i);
    CountOfPrefix(rows, rows[i].studentId, i + 1);
  }

  /** Within one student, later rows get strictly larger numbers, so no two
      courses of a student share a number. */
  lemma {:induction false} CourseNumbersIncrease(rows: seq<Row>, i: int, j: int)
    requires SortedByStudent(rows)
    requires 0 <= i < j < |rows|
    requires rows[i].studentId == rows[j].studentId
    ensures Run(rows, i) < Run(rows, j)
    decreases j - i
  {
    assert rows[i].studentId <= rows[j - 1].studentId <= rows[j].studentId;
    if i < j - 1 {
      CourseNumbersIncrease(rows, i, j - 1);
    }
  }

  // ---------------------------------------------------------------------
  // Weekly active students
  // ---------------------------------------------------------------------

  /** How many weeks the chart shows. */
  const WeeksShown := 8

  /** One attendance row: its day (an ordinal) and its student, with whether
      that student is active. */
  datatype Visit = Visit(date: int, studentId: int, studentActive: bool)

  /** The chart: the Monday of each week, oldest first, and the number of
      distinct students with an attendance row in that week. */
  datatype Chart = Chart(weekStarts: seq<int>, counts: seq<nat>, maxCount: nat)

  /** The Monday of the week `7 - i` weeks before the current one. */
  function WeekStarts(monday: int): (ws: seq<int>)
    ensures |ws| == WeeksShown
    ensures ws[WeeksShown - 1] == monday
    ensures forall i :: 0 <= i < WeeksShown - 1 ==> ws[i + 1] == ws[i] + 7
  {
    seq(WeeksShown, i => monday - 7 * (WeeksShown - 1 - i))
  }

  /** A row the query returns: an active student, a day from the oldest
      Monday to the Sunday closing the current week. */
  predicate Selected(v: Visit, first: int, last: int) {
    v.studentActive && first <= v.date <= last
  }

  /** The students of the selected rows whose week starts on `ws`. */
  function StudentsOfWeek(visits: seq<Visit>, first: int, last: int, ws: int): set<int> {
    set i | 0 <= i < |visits| && Selected(visits[i], first, last) && WeekStart(visits[i].date) == ws
          :: visits[i].studentId
  }

  /** Every selected day falls into one of the eight buckets, so the
      `if ws in buckets` test never drops a row. */
  lemma SelectedDayHasBucket(monday: int, d: int)
    requires Weekday(monday) == 0
    requires monday - 7 * (WeeksShown - 1) <= d <= monday + 6
    ensures WeekStart(d) in WeekStarts(monday)
  {
    var ws := WeekStarts(monday);
    var m := WeekStart(d);
    assert (m - monday) % 7 == 0;
    var i := (m - ws[0]) / 7;
    assert ws[i] == m;
  }

  /** Buckets filled row by row, as the loop of `admin_dashboard` does. */
  method FillBuckets(visits: seq<Visit>, weekStarts: seq<int>, first: int, last: int)
    returns (buckets: map<int, set<int>>)
    ensures buckets.Keys == set i | 0 <= i < |weekStarts| :: weekStarts[i]
    ensures forall ws :: ws in buckets ==> buckets[ws] == StudentsOfWeek(visits, first, last, ws)
  {
    buckets := map ws | ws in weekStarts :: {};
    var k := 0;
    while k < |visits|
      invariant 0 <= k <= |visits|
      invariant buckets.Keys == set i | 0 <= i < |weekStarts| :: weekStarts[i]
      invariant forall ws :: ws in buckets ==> buckets[ws] == StudentsOfWeek(visits[..k], first, last, ws)
    {
      var v := visits[k];
      assert visits[..k + 1] == visits[..k] + [v];
      if Selected(v, first, last) {
        var ws := WeekStart(v.date);
        if ws in buckets {
          buckets := buckets[ws := buckets[ws] + {v.studentId}];
        }
      }
      forall w | w in buckets
        ensures buckets[w] == StudentsOfWeek(visits[..k + 1], first, last, w)
      {
        StudentsOfWeekSnoc(visits[..k], v, first, last, w);
      }
      k := k + 1;
    }
    assert visits[..k] == visits;
  }

  lemma StudentsOfWeekSnoc(visits: seq<Visit>, v: Visit, first: int, last: int, ws: int)
    ensures StudentsOfWeek(visits + [v], first, last, ws)
            == StudentsOfWeek(visits, first, last, ws)
               + (if Selected(v, first, last) && WeekStart(v.date) == ws then {v.studentId} else {})
  {
    var s := visits + [v];
    assert s[|visits|] == v;
    assert forall i :: 0 <= i < |visits| ==> s[i] == visits[i];
  }

  /** The largest count of a non-empty list. */
  function MaxOf(xs: seq<nat>): (m: nat)
    requires |xs| > 0
    ensures forall i :: 0 <= i < |xs| ==> xs[i] <= m
    ensures exists i :: 0 <= i < |xs| && xs[i] == m
    decreases |xs|
  {
    if |xs| == 1 then xs[0]
    else
      var m := MaxOf(xs[..|xs| - 1]);
      assert forall i :: 0 <= i < |xs| - 1 ==> xs[..|xs| - 1][i] == xs[i];
      if xs[|xs| - 1] > m then xs[|xs| - 1] else m
  }

  /** The chart of `admin_dashboard` for the day `today` (an ordinal), or
      `None` where date arithmetic would leave the calendar's range: a week
      reaching before year 1 or past year 9999 overflows. */
  method WeeklyActiveStudents(visits: seq<Visit>, today: int) returns (r: Option<Chart>)
    requires 1 <= today <= MaxOrdinal
    ensures r.None? <==> WeekStart(today) - 7 * (WeeksShown - 1) < 1 || WeekStart(today) + 6 > MaxOrdinal
    ensures r.Some? ==> r.value.weekStarts == WeekStarts(WeekStart(today))
    ensures r.Some? ==> |r.value.counts| == WeeksShown
    ensures r.Some? ==> forall i :: 0 <= i < WeeksShown ==>
              r.value.counts[i]
              == |StudentsOfWeek(visits, r.value.weekStarts[0], WeekStart(today) + 6, r.value.weekStarts[i])|
    ensures r.Some? ==> (forall i :: 0 <= i < WeeksShown ==> r.value.counts[i] <= r.value.maxCount)
                        && exists i :: 0 <= i < WeeksShown && r.value.counts[i] == r.value.maxCount
  {
    var monday := WeekStart(today);
    if monday - 7 * (WeeksShown - 1) < 1 || monday + 6 > MaxOrdinal {
      return None;
    }
    var weekStarts := WeekStarts(monday);
    var first, last := weekStarts[0], monday + 6;
    var buckets := FillBuckets(visits, weekStarts, first, last);
    var counts := seq(WeeksShown, i requires 0 <= i < WeeksShown => |buckets[weekStarts[i]]|);
    r := Some(Chart(weekStarts, counts, MaxOf(counts)));
  }

  /** A student counts in a week exactly when it is active and has an
      attendance row on one of that week's seven days. */
  lemma ActiveInWeekIff(visits: seq<Visit>, monday: int, w: int, sid: int)
    requires Weekday(monday) == 0
    requires 0 <= w < WeeksShown
    ensures var ws := WeekStarts(monday);
            sid in StudentsOfWeek(visits, ws[0], monday + 6, ws[w]) <==>
              exists i :: 0 <= i < |visits| && visits[i].studentId == sid && visits[i].studentActive
                          && ws[w] <= visits[i].date <= ws[w] + 6
  {
    var ws := WeekStarts(monday);
    assert Weekday(ws[w]) == 0 by {
      assert ws[w] == monday - 7 * (WeeksShown - 1 - w);
    }
    forall i | 0 <= i < |visits|
      ensures Selected(visits[i], ws[0], monday + 6) && WeekStart(visits[i].date) == ws[w]
              <==> visits[i].studentActive && ws[w] <= visits[i].date <= ws[w] + 6
    {
      SameWeek(ws[w], visits[i].date);
    }
  }
}
