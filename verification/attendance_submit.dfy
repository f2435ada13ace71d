/** The attendance submission of one class for one day: the request is
    validated as a whole (a class is named, every status is one of the three
    choices, every active enrollment of the class is covered), then one
    attendance row per enrollment and day is created or updated. */
module AttendanceSubmit {
  import opened Wrappers
  import opened Text
  import opened Numerals
  import opened Calendar
  import opened Attendances

  /** One submitted item: `str()` of its `enrollment_id` value (`"None"` when
      the key is absent) and its status text, if any. */
  datatype RawItem = RawItem(enrollmentId: string, status: Option<string>)

  /** An item after normalisation: an integer id and a stripped status. */
  datatype Item = Item(enrollmentId: int, status: string)

  /** The decoded request body. `classId` is absent when the key is missing. */
  datatype Request = Request(date: Option<string>, classId: Option<int>, items: seq<RawItem>)

  /** An active enrollment of the class: its id and its student. */
  datatype ClassEnrollment = ClassEnrollment(id: int, studentId: int)

  /** The unique key of an attendance row: one per student, enrollment and day. */
  datatype Key = Key(studentId: int, enrollmentId: int, date: int)

  datatype SubmitError =
    | MissingClassId
    | InvalidStatus
    | MissingEnrollments(ids: seq<int>)

  /** `int(str(x).strip())`. */
  function ParseId(raw: string): Option<int> {
    ParseInt(Strip(raw))
  }

  /** `(it.get("status") or "").strip()`. */
  function CleanStatus(s: Option<string>): string {
    Strip(s.GetOr(""))
  }

  predicate ValidStatus(st: string) {
    ParseStatus(st).Some?
  }

  /** An item as the loop sees it: its id, if `int()` accepts it, and its
      stripped status. */
  datatype Decoded = Decoded(id: Option<int>, status: string)

  function Decode(it: RawItem): Decoded {
    Decoded(ParseId(it.enrollmentId), CleanStatus(it.status))
  }

  /** Every item decoded, in order. */
  function DecodeAll(items: seq<RawItem>): (r: seq<Decoded>)
    ensures |r| == |items|
  {
    seq(|items|, i requires 0 <= i < |items| => Decode(items[i]))
  }

  /** An item is kept when its id parses; a kept item must have a valid status. */
  predicate Rejected(d: Decoded) {
    d.id.Some? && !ValidStatus(d.status)
  }

  /** The ids of the kept items. */
  function SubmittedIds(ds: seq<Decoded>): set<int> {
    set i | 0 <= i < |ds| && ds[i].id.Some? :: ds[i].id.value
  }

  function ItemIds(items: seq<Item>): set<int> {
    set j | 0 <= j < |items| :: items[j].enrollmentId
  }

  /** What the normalisation loop promises after the items `ds`: it fails,
      with `InvalidStatus`, exactly when some kept item has a bad status;
      otherwise it holds at most one item per input, each with a valid
      status, carrying exactly the kept ids. */
  ghost predicate Outcome(ds: seq<Decoded>, r: Result<seq<Item>, SubmitError>) {
    && (r.Err? <==> exists i :: 0 <= i < |ds| && Rejected(ds[i]))
    && (r.Err? ==> r.error == InvalidStatus)
    && (r.Ok? ==> |r.value| <= |ds|)
    && (r.Ok? ==> forall j :: 0 <= j < |r.value| ==> ValidStatus(r.value[j].status))
    && (r.Ok? ==> ItemIds(r.value) == SubmittedIds(ds))
    && (r.Ok? ==> forall id :: LastStatusFor(r.value, id) == LastSubmitted(ds, id))
  }

  /** The stripped status of the last item in `ds` whose id parses to `id`. */
  function LastSubmitted(ds: seq<Decoded>, id: int): Option<string>
    decreases |ds|
  {
    if |ds| == 0 then None
    else if ds[|ds| - 1].id == Some(id) then Some(ds[|ds| - 1].status)
    else LastSubmitted(ds[..|ds| - 1], id)
  }

  /** The normalisation loop: items whose id does not parse are skipped, any
      kept item with a status outside the three choices rejects the whole
      request, and the rest become `Item`s in order. */
  function Normalize(ds: seq<Decoded>): (r: Result<seq<Item>, SubmitError>)
    ensures r.Err? <==> exists i :: 0 <= i < |ds| && Rejected(ds[i])
    ensures r.Err? ==> r.error == InvalidStatus
    ensures r.Ok? ==> |r.value| <= |ds|
    ensures r.Ok? ==> forall j :: 0 <= j < |r.value| ==> ValidStatus(r.value[j].status)
    ensures r.Ok? ==> ItemIds(r.value) == SubmittedIds(ds)
    ensures r.Ok? ==> forall id :: LastStatusFor(r.value, id) == LastSubmitted(ds, id)
    decreases |ds|
  {
    if |ds| == 0 then Ok([])
    else
      var init, d := ds[..|ds| - 1], ds[|ds| - 1];
      assert ds == init + [d];
      var acc := Normalize(init);
      StepKeeps(init, d, acc);
      Step(acc, d)
  }

  /** One step of the normalisation loop. */
  function Step(acc: Result<seq<Item>, SubmitError>, d: Decoded): Result<seq<Item>, SubmitError> {
    match acc
    case Err(e) => Err(e)
    case Ok(prev) =>
      if d.id.None? then Ok(prev)
      else if !ValidStatus(d.status) then Err(InvalidStatus)
      else Ok(prev + [Item(d.id.value, d.status)])
  }

  lemma StepKeeps(init: seq<Decoded>, d: Decoded, acc: Result<seq<Item>, SubmitError>)
    requires Outcome(init, acc)
    ensures Outcome(init + [d], Step(acc, d))
  {
    var ds := init + [d];
    assert forall i :: 0 <= i < |init| ==> ds[i] == init[i];
    assert ds[|init|] == d;
    if acc.Ok? && d.id.Some? {
      var prev := acc.value;
      if ValidStatus(d.status) {
        var it := Item(d.id.value, d.status);
        ItemIdsSnoc(prev, it);
        assert SubmittedIds(ds) == SubmittedIds(init) + {d.id.value};
        forall id ensures LastStatusFor(prev + [it], id) == LastSubmitted(ds, id) {
          LastStatusSnoc(prev, it, id);
          assert ds[..|ds| - 1] == init;
        }
      }
    } else if acc.Ok? {
      assert SubmittedIds(ds) == SubmittedIds(init);
      forall id ensures LastSubmitted(ds, id) == LastSubmitted(init, id) {
        assert ds[..|ds| - 1] == init;
      }
    }
  }

  lemma LastStatusSnoc(items: seq<Item>, it: Item, id: int)
    ensures LastStatusFor(items + [it], id)
            == if it.enrollmentId == id then Some(it.status) else LastStatusFor(items, id)
  {
    assert (items + [it])[..|items|] == items;
  }

  lemma ItemIdsSnoc(items: seq<Item>, it: Item)
    ensures ItemIds(items + [it]) == ItemIds(items) + {it.enrollmentId}
  {
    var s := items + [it];
    assert s[|items|] == it;
    assert forall j :: 0 <= j < |items| ==> s[j] == items[j];
  }

  /** The items whose id parses. */
  function KeptItems(ds: seq<Decoded>): (r: seq<Decoded>)
    ensures forall i :: 0 <= i < |r| ==> r[i].id.Some?
    decreases |ds|
  {
    if |ds| == 0 then []
    else
      var init, d := ds[..|ds| - 1], ds[|ds| - 1];
      KeptItems(init) + (if d.id.Some? then [d] else [])
  }

  lemma NormalizeSnoc(ds: seq<Decoded>, d: Decoded)
    ensures Normalize(ds + [d]) == Step(Normalize(ds), d)
  {
    assert (ds + [d])[..|ds|] == ds;
    assert (ds + [d])[|ds|] == d;
  }

  /** An item whose id does not parse is ignored, not rejected: normalising
      only the kept items gives the same outcome. */
  lemma {:induction false} UnparsableIdsDropped(ds: seq<Decoded>)
    ensures Normalize(KeptItems(ds)) == Normalize(ds)
    decreases |ds|
  {
    if |ds| > 0 {
      var init, d := ds[..|ds| - 1], ds[|ds| - 1];
      UnparsableIdsDropped(init);
      var k := KeptItems(init);
      assert ds == init + [d];
      NormalizeSnoc(init, d);
      if d.id.Some? {
        assert KeptItems(ds) == k + [d];
        NormalizeSnoc(k, d);
      } else {
        assert KeptItems(ds) == k + [];
        assert k + [] == k;
      }
    }
  }

  /** `enroll_map`: enrollment id to student id, the later of two rows with
      the same id winning as in a dict comprehension. */
  function EnrollMap(es: seq<ClassEnrollment>): (m: map<int, int>)
    ensures m.Keys == set i | 0 <= i < |es| :: es[i].id
    decreases |es|
  {
    if |es| == 0 then map[]
    else
      var init := es[..|es| - 1];
      assert forall i :: 0 <= i < |init| ==> init[i] == es[i];
      EnrollMap(init)[es[|es| - 1].id := es[|es| - 1].studentId]
  }

  predicate StrictlyIncreasing(xs: seq<int>) {
    forall i, j :: 0 <= i < j < |xs| ==> xs[i] < xs[j]
  }

  /** Inserts `x` into a strictly increasing list, keeping it strictly
      increasing and without duplicates. */
  function Insert(xs: seq<int>, x: int): (r: seq<int>)
    requires StrictlyIncreasing(xs)
    ensures StrictlyIncreasing(r)
    ensures forall y :: y in r <==> y in xs || y == x
    decreases |xs|
  {
    if |xs| == 0 then [x]
    else if x < xs[0] then [x] + xs
    else if x == xs[0] then xs
    else
      var tail := xs[1..];
      assert StrictlyIncreasing(tail) by {
        forall i, j | 0 <= i < j < |tail| ensures tail[i] < tail[j] {
          assert tail[i] == xs[i + 1] && tail[j] == xs[j + 1];
        }
      }
      var rest := Insert(tail, x);
      assert forall y :: y in xs ==> y == xs[0] || y in tail;
      assert forall i :: 0 <= i < |rest| ==> xs[0] < rest[i] by {
        forall i | 0 <= i < |rest| ensures xs[0] < rest[i] {
          assert rest[i] in tail || rest[i] == x;
          if rest[i] in tail {
            var j :| 0 <= j < |tail| && tail[j] == rest[i];
            assert tail[j] == xs[j + 1];
          }
        }
      }
      var r := [xs[0]] + rest;
      assert StrictlyIncreasing(r) by {
        forall i, j | 0 <= i < j < |r| ensures r[i] < r[j] {
          assert r[j] == rest[j - 1];
          if i > 0 {
            assert r[i] == rest[i - 1];
          }
        }
      }
      r
  }

  /** `sorted(all_ids - submitted_ids)`: the ids of `es` outside `submitted`,
      ascending and each once. */
  function SortedMissing(es: seq<ClassEnrollment>, submitted: set<int>): (r: seq<int>)
    ensures StrictlyIncreasing(r)
    ensures forall y :: y in r <==> y in EnrollMap(es).Keys && y !in submitted
    decreases |es|
  {
    if |es| == 0 then []
    else
      var init, e := es[..|es| - 1], es[|es| - 1];
      var prev := SortedMissing(init, submitted);
      if e.id in submitted then prev else Insert(prev, e.id)
  }

  /** The status the item list submits last for an enrollment, if any. */
  function LastStatusFor(items: seq<Item>, id: int): (r: Option<string>)
    ensures r.Some? <==> id in ItemIds(items)
    ensures r.Some? ==> exists j :: 0 <= j < |items| && items[j] == Item(id, r.value)
    decreases |items|
  {
    if |items| == 0 then None
    else
      var init, it := items[..|items| - 1], items[|items| - 1];
      assert ItemIds(items) == ItemIds(init) + {it.enrollmentId};
      assert forall j :: 0 <= j < |init| ==> init[j] == items[j];
      if it.enrollmentId == id then Some(it.status) else LastStatusFor(init, id)
  }

  /** The attendance table indexed by its unique key: every row sits under its
      own key. */
  predicate WellKeyed(store: map<Key, Attendance>) {
    forall k :: k in store ==> KeyOf(store[k]) == k
  }

  function KeyOf(a: Attendance): Key {
    Key(a.studentId, a.enrollmentId, a.date)
  }

  /** One step of the write loop: an item for an enrollment outside the class
      is skipped; otherwise the row of (student, enrollment, day) is fetched or
      created, given the status and the time, and saved. */
  function Upsert(store: map<Key, Attendance>, enrolled: map<int, int>, date: int, now: int, it: Item)
    : (r: map<Key, Attendance>)
    ensures WellKeyed(store) ==> WellKeyed(r)
    ensures it.enrollmentId !in enrolled ==> r == store
    ensures it.enrollmentId in enrolled ==>
              var k := Key(enrolled[it.enrollmentId], it.enrollmentId, date);
              r.Keys == store.Keys + {k} && r[k].status == it.status && r[k].checkedAt == now
              && (r[k].deducted <==> Deducts(it.status))
              && forall k2 :: k2 in store && k2 != k ==> r[k2] == store[k2]
  {
    if it.enrollmentId !in enrolled then store
    else
      var sid := enrolled[it.enrollmentId];
      var k := Key(sid, it.enrollmentId, date);
      var row := if k in store then store[k] else Attendance(sid, it.enrollmentId, date, it.status, true, now);
      store[k := SaveAttendance(row.(status := it.status, checkedAt := now))]
  }

  /** The write loop over the normalised items, in order. */
  function WriteAll(store: map<Key, Attendance>, enrolled: map<int, int>, date: int, now: int, items: seq<Item>)
    : (r: map<Key, Attendance>)
    ensures WellKeyed(store) ==> WellKeyed(r)
    decreases |items|
  {
    if |items| == 0 then store
    else Upsert(WriteAll(store, enrolled, date, now, items[..|items| - 1]), enrolled, date, now, items[|items| - 1])
  }

  /** The keys the write loop touches: one per submitted enrollment of the class. */
  function Written(enrolled: map<int, int>, date: int, items: seq<Item>): set<Key> {
    set id | id in enrolled && id in ItemIds(items) :: Key(enrolled[id], id, date)
  }

  /** After the write loop, each enrollment of the class that the items name
      has exactly one row for the day, carrying the status submitted last for
      it and the time of the write; items for enrollments outside the class
      leave no trace, and every other row is as it was. */
  lemma WriteAllEffect(store: map<Key, Attendance>, enrolled: map<int, int>, date: int, now: int, items: seq<Item>)
    ensures var r := WriteAll(store, enrolled, date, now, items);
            r.Keys == store.Keys + Written(enrolled, date, items)
            && (forall id :: id in enrolled && id in ItemIds(items) ==>
                  var k := Key(enrolled[id], id, date);
                  r[k].status == LastStatusFor(items, id).value && r[k].checkedAt == now
                  && (r[k].deducted <==> Deducts(r[k].status)))
            && (forall k :: k in store && k !in Written(enrolled, date, items) ==> r[k] == store[k])
  {
    WriteAllKeys(store, enrolled, date, now, items);
    WriteAllRows(store, enrolled, date, now, items);
    WriteAllKeeps(store, enrolled, date, now, items);
  }

  /** The write loop adds exactly the keys of the submitted enrollments of the class. */
  lemma {:induction false} WriteAllKeys(store: map<Key, Attendance>, enrolled: map<int, int>, date: int,
                                        now: int, items: seq<Item>)
    ensures WriteAll(store, enrolled, date, now, items).Keys == store.Keys + Written(enrolled, date, items)
    decreases |items|
  {
    if |items| > 0 {
      var init, it := items[..|items| - 1], items[|items| - 1];
      WriteAllKeys(store, enrolled, date, now, init);
      assert items == init + [it];
      ItemIdsSnoc(init, it);
      if it.enrollmentId in enrolled {
        assert Written(enrolled, date, items)
               == Written(enrolled, date, init) + {Key(enrolled[it.enrollmentId], it.enrollmentId, date)};
      } else {
        assert Written(enrolled, date, items) == Written(enrolled, date, init);
      }
    }
  }

  /** Each submitted enrollment of the class ends with a row holding the last
      status submitted for it, stamped with the time of the write. */
  lemma {:induction false} WriteAllRows(store: map<Key, Attendance>, enrolled: map<int, int>, date: int,
                                        now: int, items: seq<Item>)
    ensures var r := WriteAll(store, enrolled, date, now, items);
            forall id :: id in enrolled && id in ItemIds(items) ==>
              var k := Key(enrolled[id], id, date);
              k in r && r[k].status == LastStatusFor(items, id).value && r[k].checkedAt == now
              && (r[k].deducted <==> Deducts(r[k].status))
    decreases |items|
  {
    if |items| > 0 {
      var init, it := items[..|items| - 1], items[|items| - 1];
      WriteAllRows(store, enrolled, date, now, init);
      assert items == init + [it];
      ItemIdsSnoc(init, it);
      forall id | id in enrolled && id in ItemIds(items)
        ensures var r := WriteAll(store, enrolled, date, now, items);
                var k := Key(enrolled[id], id, date);
                k in r && r[k].status == LastStatusFor(items, id).value && r[k].checkedAt == now
                && (r[k].deducted <==> Deducts(r[k].status))
      {
        LastStatusSnoc(init, it, id);
      }
    }
  }

  /** Rows of keys the loop does not write are left as they were. */
  lemma {:induction false} WriteAllKeeps(store: map<Key, Attendance>, enrolled: map<int, int>, date: int,
                                         now: int, items: seq<Item>)
    ensures var r := WriteAll(store, enrolled, date, now, items);
            forall k :: k in store && k !in Written(enrolled, date, items) ==> k in r && r[k] == store[k]
    decreases |items|
  {
    if |items| > 0 {
      var init, it := items[..|items| - 1], items[|items| - 1];
      WriteAllKeeps(store, enrolled, date, now, init);
      assert items == init + [it];
      ItemIdsSnoc(init, it);
    }
  }

  /** `attendance_submit` after the body is decoded: `today` and `now` stand
      for the clock, `es` for the active enrollments of the named class, and
      `store` for the attendance table. */
  function Submit(req: Request, es: seq<ClassEnrollment>, store: map<Key, Attendance>, today: CivilDate, now: int)
    : (r: Result<map<Key, Attendance>, SubmitError>)
    requires Valid(today)
    ensures req.classId.None? || req.classId == Some(0) <==> r == Err(MissingClassId)
    ensures req.classId.Some? && req.classId != Some(0) ==>
              (r == Err(InvalidStatus) <==> Normalize(DecodeAll(req.items)).Err?)
    ensures WellKeyed(store) && r.Ok? ==> WellKeyed(r.value)
  {
    if req.classId.None? || req.classId == Some(0) then Err(MissingClassId)
    else match Normalize(DecodeAll(req.items))
      case Err(e) => Err(e)
      case Ok(items) => CheckAndWrite(items, es, store, SubmissionDay(req.date, today), now)
  }

  /** The day a submission is for: its `date` field, or today when that is
      missing or not an ISO date. */
  function SubmissionDay(date: Option<string>, today: CivilDate): (d: int)
    requires Valid(today)
    ensures 1 <= d <= MaxOrdinal
  {
    var c := ParseDate(date, today);
    OrdinalInRange(c);
    ToOrdinal(c)
  }

  /** The coverage check and the write loop of a request whose items are
      valid. */
  function CheckAndWrite(items: seq<Item>, es: seq<ClassEnrollment>, store: map<Key, Attendance>, day: int, now: int)
    : (r: Result<map<Key, Attendance>, SubmitError>)
    ensures r.Err? ==> r.error.MissingEnrollments? && StrictlyIncreasing(r.error.ids) && |r.error.ids| > 0
                       && forall y :: y in r.error.ids <==> y in EnrollMap(es).Keys && y !in ItemIds(items)
    ensures r.Ok? ==> EnrollMap(es).Keys <= ItemIds(items)
    ensures r.Ok? ==> r.value == WriteAll(store, EnrollMap(es), day, now, items)
  {
    var missing := SortedMissing(es, ItemIds(items));
    if |missing| > 0 then Err(MissingEnrollments(missing))
    else
      assert missing == [];
      Ok(WriteAll(store, EnrollMap(es), day, now, items))
  }

  /** The ids reported as missing are the active enrollments of the class
      without a kept item, in ascending order and without repeats. */
  lemma SubmitMissingList(req: Request, es: seq<ClassEnrollment>, store: map<Key, Attendance>,
                          today: CivilDate, now: int)
    requires Valid(today)
    requires Submit(req, es, store, today, now).Err?
    requires Submit(req, es, store, today, now).error.MissingEnrollments?
    ensures var ids := Submit(req, es, store, today, now).error.ids;
            StrictlyIncreasing(ids) && |ids| > 0
            && forall y :: y in ids <==> y in EnrollMap(es).Keys && y !in SubmittedIds(DecodeAll(req.items))
  {
    var ds := DecodeAll(req.items);
    var items := Normalize(ds).value;
    assert ItemIds(items) == SubmittedIds(ds);
  }

  /** The request is turned away for missing students exactly when some
      active enrollment of the class has no kept item. */
  lemma CoverageIff(req: Request, es: seq<ClassEnrollment>, store: map<Key, Attendance>, today: CivilDate,
                    now: int)
    requires Valid(today)
    requires req.classId.Some? && req.classId != Some(0)
    requires Normalize(DecodeAll(req.items)).Ok?
    ensures Submit(req, es, store, today, now).Err? <==> !(EnrollMap(es).Keys <= SubmittedIds(DecodeAll(req.items)))
  {
    var ds := DecodeAll(req.items);
    var items := Normalize(ds).value;
    var day := SubmissionDay(req.date, today);
    assert ItemIds(items) == SubmittedIds(ds);
    assert Submit(req, es, store, today, now) == CheckAndWrite(items, es, store, day, now);
    CheckRejectsIff(items, es, store, day, now);
  }

  /** The coverage check on normalised items: it fails exactly when an active
      enrollment has no item. */
  lemma CheckRejectsIff(items: seq<Item>, es: seq<ClassEnrollment>, store: map<Key, Attendance>, day: int, now: int)
    ensures CheckAndWrite(items, es, store, day, now).Err? <==> !(EnrollMap(es).Keys <= ItemIds(items))
  {
    var r := CheckAndWrite(items, es, store, day, now);
    if r.Err? {
      var y := r.error.ids[0];
      assert y in r.error.ids;
    }
  }

  /** The keys a successful write covers: one per active enrollment of the
      class, for the day. */
  function DayKeys(enrolled: map<int, int>, day: int): set<Key> {
    set id | id in enrolled :: Key(enrolled[id], id, day)
  }

  /** An accepted write leaves, for every active enrollment of the class,
      exactly one row for its student and the day, holding the status submitted
      last for it; ids outside the class change nothing, and rows of other
      keys are untouched. */
  lemma AcceptedWrites(items: seq<Item>, es: seq<ClassEnrollment>, store: map<Key, Attendance>, day: int, now: int)
    requires CheckAndWrite(items, es, store, day, now).Ok?
    ensures var r := CheckAndWrite(items, es, store, day, now).value;
            var enrolled := EnrollMap(es);
            r.Keys == store.Keys + DayKeys(enrolled, day)
            && (forall id :: id in enrolled ==>
                  r[Key(enrolled[id], id, day)].status == LastStatusFor(items, id).value
                  && r[Key(enrolled[id], id, day)].checkedAt == now
                  && (r[Key(enrolled[id], id, day)].deducted <==> Deducts(LastStatusFor(items, id).value)))
            && (forall k :: k in store && k.date != day ==> r[k] == store[k])
            && (forall k :: k in store && k !in DayKeys(enrolled, day) ==> r[k] == store[k])
  {
    var enrolled := EnrollMap(es);
    WriteAllEffect(store, enrolled, day, now, items);
    assert Written(enrolled, day, items) == DayKeys(enrolled, day);
  }

  /** The same for a whole request: an accepted submission writes, for the
      day the request names, one row per active enrollment of the class with
      the stripped status of the last request item naming it, deducting a
      session exactly for `present` and `no_show`; every other row of the
      table is unchanged. */
  lemma SubmitWrites(req: Request, es: seq<ClassEnrollment>, store: map<Key, Attendance>, today: CivilDate,
                     now: int)
    requires Valid(today)
    requires Submit(req, es, store, today, now).Ok?
    ensures var r := Submit(req, es, store, today, now).value;
            var ds := DecodeAll(req.items);
            var enrolled := EnrollMap(es);
            var day := SubmissionDay(req.date, today);
            r.Keys == store.Keys + DayKeys(enrolled, day)
            && (forall id :: id in enrolled ==>
                  LastSubmitted(ds, id).Some?
                  && r[Key(enrolled[id], id, day)].status == LastSubmitted(ds, id).value
                  && r[Key(enrolled[id], id, day)].checkedAt == now
                  && (r[Key(enrolled[id], id, day)].deducted <==> Deducts(LastSubmitted(ds, id).value)))
            && (forall k :: k in store && k.date != day ==> r[k] == store[k])
            && (forall k :: k in store && k !in DayKeys(enrolled, day) ==> r[k] == store[k])
  {
    var ds := DecodeAll(req.items);
    var items := Normalize(ds).value;
    var day := SubmissionDay(req.date, today);
    assert Submit(req, es, store, today, now) == CheckAndWrite(items, es, store, day, now);
    AcceptedWrites(items, es, store, day, now);
    assert forall id :: LastStatusFor(items, id) == LastSubmitted(ds, id);
  }
}
