# Tutoring-centre rules in Dafny

This project models the rules of a small Django application for a tutoring
centre. It covers students, course enrollments, instalments, attendance, sheet
progress and sheet inventory. The rules sit in the models' `save()` overrides
and in the view handlers. Each rule is written here as a pure function over
immutable records:

- the database becomes sequences and maps of records passed in;
- money is a whole number of satang (hundredths of a baht);
- the clock and "today" are parameters.

One module per concern, one file per module:

| file | module | what it holds |
|---|---|---|
| wrappers.dfy | Wrappers | `Option` and `Result` |
| text.dfy | Text | `str.isspace`, `strip`, `startswith`, `join` |
| numerals.dfy | Numerals | decimal digits, zero-padded formatting (`f"{n:03d}"`), Python's `int(str)` |
| lex.dfy | Lex | code-point string order and the greatest string of a list |
| calendar.dfy | Calendar | proleptic Gregorian ordinals, weekdays, Monday week starts, `date.fromisoformat`, the view's `_parse_date` |
| binary64.dfy | Binary64 | correctly rounded IEEE 754 double division and multiplication, and truncation to int |
| code_allocation.dfy | CodeAllocation | student codes `YY###` and sale run numbers `CODE-##` |
| students.dfy | Students | `Student.display_name` and `Student.save` |
| attendances.dfy | Attendances | attendance statuses, `Attendance.save`, used sessions |
| enrollments.dfy | Enrollments | `Enrollment.save`, remaining sessions, the near-complete list |
| installments.dfy | Installments | `EnrollmentInstallment.save` and the history of `paid_at` |
| progress.dfy | Progress | the sheet progress percentage of a class subject and of a sheet update |
| inventory.dfy | Inventory | `SheetInventory.save` and the inventory action handler |
| attendance_submit.dfy | AttendanceSubmit | the attendance submission view |
| dashboards.dfy | Dashboards | per-student course numbering and the weekly active-student chart |
| portal.dfy | Portal | the parents' portal login check |

## Model

| member | source | states |
|---|---|---|
| CodeAllocation.LastWithPrefix | core/models.py:94-99 | The "last" code is absent exactly when no code has the prefix. Otherwise it has the prefix and is the greatest such code in string order. |
| CodeAllocation.NextStudentCode | core/models.py:88-104 | With no code for the year the result is `YY001`. A result always starts with the year prefix. The only error is a last code whose final three characters `int()` rejects. |
| CodeAllocation.NextStudentCodeFromLast | core/models.py:100-104 | When the last code ends in a number k, the next code is the prefix followed by k + 1 padded to three digits. |
| CodeAllocation.FirstStudentCodes | core/models.py:88-104 | The first code of 2025 is `25001` and the one after it is `25002`. |
| CodeAllocation.StudentCodeLength | core/models.py:21-27 | A code fits the five-character column exactly while its sequence number is at most 999. |
| CodeAllocation.StudentCodeOrder | core/models.py:96 | For sequence numbers up to 999, string order of codes is numeric order. |
| CodeAllocation.StudentCodeTail | core/models.py:103 | The last three characters of a code parse back to its sequence number, for numbers up to 999. |
| CodeAllocation.StudentCodeDistinct | core/models.py:104 | Different sequence numbers give different codes. |
| CodeAllocation.NextStudentCodeAfterMax | core/models.py:94-104 | If the year's codes are numbers 1..m with m ≤ 999 and m is present, the next code is number m + 1 and is not yet taken. |
| CodeAllocation.SequentialStudentCodes | core/models.py:88-114 | Starting from no codes, n saves (n ≤ 1000) issue exactly the codes 1..n in order. |
| CodeAllocation.IssuedDistinct | core/models.py:24 | The codes issued one after another are pairwise distinct. |
| CodeAllocation.StudentCodeRollover | core/models.py:94-104 | With codes 999 and 1000 stored, the string maximum is 999, so code 1000 is issued again. Code 1000 is six characters long, more than the column holds. |
| CodeAllocation.LastSegment | core/models.py:372 | `split("-")[-1]` is the suffix of the text after its last hyphen and contains no hyphen. |
| CodeAllocation.NextSaleSeq | core/models.py:368-374 | The next sale sequence number is always at least 1. |
| CodeAllocation.NextSaleRunNo | core/models.py:355-376 | A run number starts with `CODE-`. With no earlier run it is `CODE-01`. |
| CodeAllocation.NextSaleRunNoFromLast | core/models.py:368-375 | When the last run ends in a number k, the next is `CODE-` followed by k + 1 padded to two digits. |
| CodeAllocation.NextSaleRunNoFallback | core/models.py:373-374 | When the last run's suffix does not parse, numbering falls back to `CODE-01`. |
| CodeAllocation.SaleRunTail | core/models.py:372-375 | The suffix of a run number parses back to its sequence number. |
| CodeAllocation.SaleRunOrder | core/models.py:364 | For sequence numbers up to 99, string order of run numbers is numeric order. |
| CodeAllocation.SaleRunDistinct | core/models.py:375 | Different sequence numbers give different run numbers. |
| CodeAllocation.NextSaleRunAfterMax | core/models.py:360-375 | If a student's runs are numbers 1..m with m ≤ 99 and m is present, the next run is number m + 1 and is not yet taken. |
| CodeAllocation.FirstSaleRuns | core/models.py:349-351 | A student's first two runs are `CODE-01` and `CODE-02`. |
| CodeAllocation.SaleRunRollover | core/models.py:360-375 | With runs 99 and 100 stored, the string maximum is 99, so run 100 is issued again. |
| CodeAllocation.SaleRunFallbackReissues | core/models.py:368-375 | A stored run `CODE-xx` sorts last and does not parse, so `CODE-01` is issued although it already exists. |
| Students.NameParts | core/models.py:70-83 | The parts are exactly the non-empty stripped fields, in the order code, nickname, full name, grade. |
| Students.DisplayName | core/models.py:69-85 | The name is the non-empty stripped fields joined with `" \| "` in that order, or `"-"` when all are blank. It is never empty and starts with the code when there is one. |
| Students.DisplayNameOfCodeOnly | core/models.py:69-85 | A student with only a code is shown as that code. |
| Students.YearPrefix | core/models.py:109 | `str(year)[-2:]` is, for a year of two or more digits, the year modulo 100 padded to two digits. |
| Students.PrefixOf2025 | core/models.py:91 | The prefix for 2025 is `25`. |
| Students.SaveStudent | core/models.py:106-114 | An existing student is stored unchanged. A new student gets exactly the next code of the year and nothing else changes. The save fails exactly when the allocation fails. |
| Students.FirstStudentOfYear | core/models.py:92 | The first student saved in a year gets code `YY001`. |
| Attendances.ParseStatusName | core/models.py:474-477 | A status text maps back to its choice exactly when it is that choice's stored value. |
| Attendances.SaveAttendance | core/models.py:499-501 | `deducted` is true exactly when the status is present or no-show. No other field changes. |
| Attendances.ExcusedNeverDeducts | core/models.py:500 | An excused or unknown status never deducts. |
| Attendances.SaveAttendanceIdempotent | core/models.py:499-501 | Saving twice is saving once. |
| Attendances.UsedSessionsCounts | core/models.py:407-408 | Used sessions are the number of rows of the enrollment whose `deducted` flag is set. |
| Attendances.UsedSessionsAppend | core/models.py:407-408 | A new row adds one used session exactly when it belongs to the enrollment and deducts. |
| Enrollments.TypeSessions | core/models.py:253-259 | The session table: 10, 20, 11 and 12 for the four course types, 10 for special and for any unknown type. |
| Enrollments.AssignSaleRun | core/models.py:355-376 | A run number is assigned only to a new enrollment that has none and whose student has a non-blank code. A set run number is never overwritten. |
| Enrollments.SnapshotPrice | core/models.py:383-385 | A non-zero price is kept. A zero or missing price is replaced by the class price when there is a class. |
| Enrollments.NormalizeInstallments | core/models.py:387-392 | The count is 1 for full payment and at least 1 otherwise. A valid count is kept. |
| Enrollments.NetPrice | core/models.py:394-400 | The net price is never negative. It is the price minus the discount, or 0 when that would be negative. |
| Enrollments.SaveEnrollment | core/models.py:347-402 | The save sets the run number, the sessions (kept for special), the price snapshot, the instalment count and the net price. Nothing else changes. |
| Enrollments.NetPriceComplement | core/models.py:394-400 | After a save, net price plus discount equals the price when the discount does not exceed it. Otherwise the net price is 0. |
| Enrollments.SaveEnrollmentIdempotent | core/models.py:347-402 | Saving an already saved enrollment again changes nothing. |
| Enrollments.FirstRunOfStudent | core/models.py:368-369 | A student's first enrollment gets run number `CODE-01`. |
| Enrollments.RemainingSessions | core/models.py:410-411 | Remaining sessions are the total minus the number of deducted rows of the enrollment. |
| Enrollments.RemainingGoesNegative | core/models.py:410-411 | The count is not clamped: eleven deductions on a ten-session course leave -1. |
| Enrollments.RemainingAfterAttendance | core/models.py:410-411 | Saving one more attendance lowers the remaining count by one exactly when its status deducts. |
| Enrollments.NearComplete | core/views.py:166-170 | An enrollment is listed exactly when its remaining sessions are below 2. |
| Enrollments.NearCompleteIsSubsequence | core/views.py:496-499 | The list keeps the enrollments' order. |
| Installments.SaveInstallment | core/models.py:457-467 | For a non-negative amount due, the instalment is paid exactly when the due amount is positive and fully paid. `paid_at` is stamped the first time it is paid and never changed or cleared. |
| Installments.SettledStaysPaid | core/models.py:458-461 | A settled instalment is paid, and saving it again changes nothing. |
| Installments.PaidAtIsFirstSettlement | core/models.py:458-461 | Over a history of edits, `paid_at` is the time of the first edit that settled the instalment. |
| Installments.PaidAtKept | core/models.py:460 | Once set, `paid_at` survives every later edit. |
| Progress.Percent | core/models.py:236-238 | The whole percentage is the unique r with r·total ≤ 100·cur < (r + 1)·total. |
| Progress.PercentUnique | core/models.py:236-238 | Any number meeting that bracket is the percentage. |
| Progress.ProgressPercent | core/models.py:229-239 | Pages decide when the sheet has a page count. Otherwise questions decide when it has a question count. Otherwise the result is 0. |
| Progress.EntryAgreesWithClassSubject | core/models.py:533-538 | A sheet update entry and a class subject at the same sheet and position show the same percentage. |
| Progress.PercentBounds | core/models.py:236-238 | The percentage is at most 100 when nothing is over-taught, exactly 100 at the end, and grows with progress. |
| Progress.ProgressExamples | core/models.py:229-239 | 10 of 48 pages is 20 %, 60 of 50 pages is 120 %, and questions decide when there are no pages. |
| Progress.FloatPercent | core/models.py:236-238 | `int((cur / total) * 100)` in doubles: the quotient and the product are each correctly rounded, then truncated. |
| Progress.FloatPercentShortOfExact | core/models.py:236-238 | 29 of 100 pages shows 28 % in doubles, where the whole percentage is 29. |
| Progress.FloatPercentNearExact | core/models.py:236-238 | For totals below 2^40 and no over-teaching, the double result is the whole percentage or one less. It is the whole percentage when 100·cur is not a multiple of the total. |
| Binary64.RoundQuotient | core/models.py:236 | The significand is the correctly rounded (ties to even) 53-bit quotient. |
| Binary64.NearestUnique | core/models.py:236 | The correctly rounded significand at a given scale is unique. |
| Binary64.Trunc | core/models.py:236 | `int()` of a double is its value truncated toward zero. |
| Inventory.SaveItem | core/models.py:563-575 | The quantity is never negative; a missing or negative one becomes 0. `finished_at` is empty exactly when not finished, and an existing one is kept while finished. The update time is stamped. |
| Inventory.SaveItemIdempotent | core/models.py:563-575 | Saving twice differs from saving once only in the update time. |
| Inventory.QuantityParam | core/views.py:796 | A blank or missing quantity means 0. Any other text is what `int()` makes of it. |
| Inventory.ParseAction | core/views.py:779 | A stripped action text selects the action of that name. Any other text selects no action. |
| Inventory.ApplyAction | core/views.py:787-804 | inc adds 1 and dec subtracts 1 before the save's clamp. set stores the parsed number, and leaves the quantity alone when the text does not parse. finish and unfinish set the flag. An unknown action only saves. inc and dec on a missing quantity fail. |
| Inventory.IncThenDec | core/views.py:790-793 | inc then dec restores a non-negative quantity. |
| Inventory.DecAtZero | core/views.py:792-793 | dec at zero stays at zero. |
| Inventory.SetQuantity | core/views.py:794-798 | set stores a non-negative number. A negative number clamps to 0, blank gives 0, and an unparsable text keeps the old quantity. |
| Inventory.FinishStampsOnce | core/views.py:799-802 | finish stamps `finished_at` once, finishing again keeps it, and unfinish clears it. |
| Inventory.InventoryAction | core/views.py:778-806 | A missing or blank item id changes nothing. An unparsable or unknown id is an error. Otherwise the named item is replaced by the result of its action, an action error is returned unchanged, and no other item changes. |
| Inventory.IncrementStored | core/views.py:790-791 | `inc` on an item with a stored quantity raises that item's quantity by one and leaves the others alone. |
| AttendanceSubmit.Normalize | core/views.py:386-397 | The request is rejected exactly when some item with a parsable id has a status outside the three choices. Otherwise the items keep only the parsable ids, and every id's last status is the last one submitted for it. |
| AttendanceSubmit.UnparsableIdsDropped | core/views.py:388-391 | Items whose id does not parse are skipped without effect. |
| AttendanceSubmit.SortedMissing | core/views.py:414-416 | The missing ids are strictly ascending and are exactly the active enrollments not submitted. |
| AttendanceSubmit.Submit | core/views.py:374-446 | A missing class id is rejected first, then an invalid status. A successful write keeps the store one row per student, enrollment and day. |
| AttendanceSubmit.CoverageIff | core/views.py:414-427 | A request with valid statuses is rejected exactly when some active enrollment of the class was not submitted. |
| AttendanceSubmit.CheckRejectsIff | core/views.py:414-427 | The coverage check fails exactly when some active enrollment of the class has no item. |
| AttendanceSubmit.SubmitMissingList | core/views.py:416-427 | The rejection lists the missing ids in ascending order. |
| AttendanceSubmit.Upsert | core/views.py:434-446 | An item for a foreign enrollment leaves the store alone. Otherwise the row for that enrollment and day is created or updated with the status, the check time and the deduction. |
| AttendanceSubmit.WriteAllEffect | core/views.py:429-446 | After the loop, each enrolled id that was submitted has one row for the day holding its last status. Rows not written are unchanged. |
| AttendanceSubmit.AcceptedWrites | core/views.py:429-446 | After the coverage check passes, every active enrollment has a row for the day with its last status. Every row outside those keys is unchanged. |
| AttendanceSubmit.SubmitWrites | core/views.py:374-446 | On success every active enrollment has a row for the day with its last submitted status, the check time and the matching deduction. Every other row, including other rows of the same day, is unchanged. |
| Calendar.ParseIsoIff | core/views.py:32 | A text parses to a date exactly when it is that valid date's `YYYY-MM-DD` form. |
| Calendar.ParseDate | core/views.py:28-34 | A missing or unparsable text gives today. Otherwise the result is the parsed date. |
| Calendar.NextDayOrdinal | core/views.py:570-576 | The next calendar day has the next ordinal. |
| Calendar.SameWeek | core/views.py:587 | A day's week start is a given Monday exactly when the day falls in the seven days from it. |
| Dashboards.CourseNumbering | core/views.py:80-92 | Each enrollment gets the position of its run among its student's rows. Each student's total is the length of that run. |
| Dashboards.CourseTotalIsCount | core/views.py:80-92 | For rows sorted by student, a student's total is their number of enrollments. |
| Dashboards.CourseNumbersIncrease | core/views.py:80-92 | For rows sorted by student, a student's later enrollment has a larger number. |
| Dashboards.WeekStarts | core/views.py:570-572 | There are eight week starts, seven days apart, ending at this week's Monday. |
| Dashboards.SelectedDayHasBucket | core/views.py:574-589 | Every day in the charted range lands in one of the eight buckets. |
| Dashboards.WeeklyActiveStudents | core/views.py:562-592 | Each count is the number of distinct active students with a row in that week. The maximum is one of the counts. There is no chart where the weeks would leave the calendar. |
| Dashboards.ActiveInWeekIff | core/views.py:586-589 | A student is in a week's bucket exactly when an active row of theirs falls in that week. |
| Portal.Digits | core/views.py:685-686 | The digits of a text are its digit characters in order. A text of digits is its own digit form. |
| Portal.DigitsAppend | core/views.py:685-686 | The digits of a concatenation are the concatenation of the digits. |
| Portal.IgnoresNonDigits | core/views.py:688 | Spaces and punctuation in a phone number do not change the comparison. |
| Portal.PortalLogin | core/views.py:672-692 | The form is invalid exactly when a stripped field is blank, over its length limit or holds a NUL character. A login succeeds only for an active student with that stripped code whose phone has the same digits. "Unknown code" means no active student has it. |
| Portal.PortalLoginIff | core/views.py:672-692 | With unique codes and fields the form accepts, the login returns a student exactly when that student is active, has the code, and has a phone with the same digits. |
| Numerals.ParseIntStrips | core/models.py:103 | `int()` ignores surrounding whitespace. |
| Numerals.ParseFormatPadded | core/models.py:104 | `int()` reads back every zero-padded number, negative ones included. |
| Numerals.FormatPaddedInjective | core/models.py:104 | Different numbers format differently at any width. |
| Lex.LexLeDigits | core/models.py:96 | For equal-length digit strings, string order is numeric order. |
| Lex.Greatest | core/models.py:96-98 | The greatest string of a non-empty list is in the list and no element exceeds it. |
| Text.StripIdempotent | core/views.py:780 | Stripping twice is stripping once. |

## Left out

- Database access, `transaction.atomic` and `select_for_update` are not modelled. Existing codes, run numbers, attendance rows and enrollments are passed in as sequences and maps.
- The clock is a parameter. `timezone.now()` is the `now` argument, and `timezone.localdate()` is the `today` or `year` argument.
- Templates, redirects, JSON responses, sessions, and the summary counts returned by the attendance view are not modelled. Only the decisions and the stored rows are.
- The float statistics `total_hours`, `avg_hours_per_session`, `revenue_per_hour` (core/models.py:413-427) and `remaining_hours` (core/views.py:756-757) are not modelled.
- core/admin.py, core/urls.py, core/management/commands/seed_mock.py and core/templatetags/extras.py are not part of this model. They hold UI wiring, routing, data seeding and template filters.
- Progress.Percent: this is the exact whole percentage. The source computes `int((cur / total) * 100)` in doubles, which can come out one lower: 29 of 100 pages shows 28. Progress.FloatPercent models that path, and Progress.ProgressPercent uses the exact value (see Findings).
- Progress.FloatPercentNearExact: proved only for totals below 2^40 and progress not beyond the total. Other cases such as 57 or 58 of 100 are not proved individually.
- Binary64.RoundQuotient: the exponent range is unbounded. No overflow, underflow or subnormals arise for the page and question counts involved.
- Numerals.ParseInt: accepts only ASCII digits. Python's `int()` also accepts other Unicode decimal digits such as Thai or full-width ones. This affects the enrollment ids of the attendance view (core/views.py:391), the inventory quantity (core/views.py:796), and the student-code and run-number suffixes.
- Portal.IsDigitChar: covers ASCII, the superscripts ¹²³, and the Arabic-Indic, extended Arabic-Indic, Devanagari, Thai, Lao and full-width digit blocks. `str.isdigit` (core/views.py:686) accepts further Unicode digit characters, such as the other scripts' decimal digits and circled digits.
- Calendar.ParseIso: accepts only `YYYY-MM-DD` with ASCII digits, as `date.fromisoformat` did before Python 3.11. From 3.11 it also accepts the basic form `20250106` and week dates such as `2025-W02-1`.
- Calendar.ParseDate: a non-string `date` value in the JSON body makes `fromisoformat` raise `TypeError` rather than fall back to today. That path is not modelled.
- CodeAllocation.NextStudentCode: "last" is the greatest code in code-point order. The database orders by its collation, which can differ for non-ASCII text.
- CodeAllocation.NextStudentCode: allocation is treated as atomic. The source holds no lock between reading the last code and saving (core/models.py:94-98), so two concurrent saves can be given the same code. The unique column then rejects the second.
- AttendanceSubmit.Submit: the request starts from an already decoded JSON object. A body that is not JSON is answered with 400 before any rule applies (core/views.py:374-377), and that answer is not modelled.
- AttendanceSubmit.Submit: the request paths that raise are not modelled. A body that is a JSON value other than an object fails at `payload.get` (core/views.py:379). An `items` value that is null or a number fails at `for it in items` (core/views.py:389). A truthy non-string status fails at `.strip()` (core/views.py:395). A non-numeric `class_id` fails in the query (core/views.py:399-409). `class_id` is modelled as an optional integer.
- AttendanceSubmit.Submit: an item that is not a JSON object is skipped by the source, because `it.get` raises inside the `try` (core/views.py:390-393). The model has no such item. It behaves exactly like an item whose id text does not parse, which the model does skip.
- Installments.SaveInstallment: follows the code for a negative amount due. When the amount paid is at least a negative due, neither branch assigns `is_paid`, so the stored flag is kept. "Paid exactly when due > 0 and paid ≥ due" therefore holds only for a due of 0 or more.
- Dashboards.WeeklyActiveStudents: returns no chart where a week would lie before year 1 or after year 9999. Python's date arithmetic raises `OverflowError` there.

## Findings

| source | as written | input that shows it | evidently intended | confidence | as-written member | corrected member |
|---|---|---|---|---|---|---|
| core/models.py:236-238, core/models.py:534-537 | `int((cur / total) * 100)` truncates a double product whose rounding can fall just below a whole number | 29 of 100 pages: 0.29 × 100 rounds to 28.999999999999996, shown as 28 | the whole percentage floor(100·cur/total), here 29 | medium, not executed | Progress.FloatPercent, Progress.FloatPercentShortOfExact | Progress.Percent, Progress.PercentUnique, Progress.ProgressPercent |
