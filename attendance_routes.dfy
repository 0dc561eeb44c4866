/** The attendance handlers of `routes/attendance.py`: marking attendance by
    face (scan the students in order, resolve to the first whose stored
    descriptor matches, then check them in or out), listing, reading,
    updating and deleting records, and the daily report. */
module AttendanceRoutes {
  import opened Common
  import opened Tables

  /** A student without a stored encoding (`None` or `""`) is skipped. */
  predicate Unregistered(s: Student)
  {
    !Truthy(s.faceEncoding)
  }

  /** A stored encoding that `json.loads` rejects: the scan raises. */
  predicate Malformed(s: Student, lib: Library)
  {
    Truthy(s.faceEncoding) && lib.jsonLoads(s.faceEncoding.value).None?
  }

  /** A stored descriptor that `compare_faces` accepts for the probe. */
  predicate Accepts(s: Student, probe: Descriptor, lib: Library)
  {
    && Truthy(s.faceEncoding)
    && lib.jsonLoads(s.faceEncoding.value).Some?
    && lib.compareFaces(probe, lib.jsonLoads(s.faceEncoding.value).value)
  }

  /** A student the scan moves past: skipped, or compared and rejected. */
  predicate Passes(s: Student, probe: Descriptor, lib: Library)
  {
    Unregistered(s) || (!Malformed(s, lib) && !Accepts(s, probe, lib))
  }

  datatype ScanResult = Matched(index: nat) | NoMatch | ScanError

  /** The `for student in students` loop from position `from` on. */
  function ScanFrom(students: seq<Student>, probe: Descriptor, lib: Library, from: nat): (r: ScanResult)
    ensures r.Matched? ==> from <= r.index < |students| && Accepts(students[r.index], probe, lib)
    decreases |students| - from
  {
    if from >= |students| then NoMatch
    else if Unregistered(students[from]) then ScanFrom(students, probe, lib, from + 1)
    else match lib.jsonLoads(students[from].faceEncoding.value)
      case None => ScanError
      case Some(stored) =>
        if lib.compareFaces(probe, stored) then Matched(from)
        else ScanFrom(students, probe, lib, from + 1)
  }

  lemma {:induction false} ScanFromMatched(students: seq<Student>, probe: Descriptor, lib: Library, from: nat, k: nat)
    ensures ScanFrom(students, probe, lib, from) == Matched(k) <==>
      && from <= k < |students|
      && Accepts(students[k], probe, lib)
      && forall j :: from <= j < k ==> Passes(students[j], probe, lib)
    decreases |students| - from
  {
    if from < |students| {
      ScanFromMatched(students, probe, lib, from + 1, k);
    }
  }

  lemma {:induction false} ScanFromNoMatch(students: seq<Student>, probe: Descriptor, lib: Library, from: nat)
    ensures ScanFrom(students, probe, lib, from) == NoMatch <==>
      forall j :: from <= j < |students| ==> Passes(students[j], probe, lib)
    decreases |students| - from
  {
    if from < |students| {
      ScanFromNoMatch(students, probe, lib, from + 1);
    }
  }

  lemma {:induction false} ScanFromError(students: seq<Student>, probe: Descriptor, lib: Library, from: nat)
    ensures ScanFrom(students, probe, lib, from) == ScanError <==>
      exists k :: && from <= k < |students|
        && Malformed(students[k], lib)
        && forall j :: from <= j < k ==> Passes(students[j], probe, lib)
    decreases |students| - from
  {
    if from < |students| {
      ScanFromError(students, probe, lib, from + 1);
      if ScanFrom(students, probe, lib, from) == ScanError && !Malformed(students[from], lib) {
        var k' :| from + 1 <= k' < |students| && Malformed(students[k'], lib) && forall j :: from + 1 <= j < k' ==> Passes(students[j], probe, lib);
        assert forall j :: from <= j < k' ==> Passes(students[j], probe, lib);
      }
    }
  }

  /** The scan resolves to the first student, in table order, whose stored
      descriptor matches, every student before it being skipped or rejected;
      and conversely. */
  lemma ScanFindsFirstMatch(students: seq<Student>, probe: Descriptor, lib: Library, k: nat)
    ensures ScanFrom(students, probe, lib, 0) == Matched(k) <==>
      && k < |students|
      && Accepts(students[k], probe, lib)
      && forall j :: 0 <= j < k ==> Passes(students[j], probe, lib)
  {
    ScanFromMatched(students, probe, lib, 0, k);
  }

  /** The scan finds no one exactly when every student is skipped or
      rejected; an empty table finds no one. */
  lemma ScanFindsNoOne(students: seq<Student>, probe: Descriptor, lib: Library)
    ensures ScanFrom(students, probe, lib, 0) == NoMatch <==>
      forall j :: 0 <= j < |students| ==> Passes(students[j], probe, lib)
  {
    ScanFromNoMatch(students, probe, lib, 0);
  }

  /** Students after the one resolved are never examined: any table that
      agrees up to it resolves to it too. */
  lemma ScanIgnoresLaterStudents(students: seq<Student>, others: seq<Student>, probe: Descriptor, lib: Library, k: nat)
    requires ScanFrom(students, probe, lib, 0) == Matched(k)
    requires k < |others| && others[..k + 1] == students[..k + 1]
    ensures ScanFrom(others, probe, lib, 0) == Matched(k)
  {
    ScanFromMatched(students, probe, lib, 0, k);
    assert forall j :: 0 <= j <= k ==> others[j] == others[..k + 1][j] == students[..k + 1][j] == students[j];
    ScanFromMatched(others, probe, lib, 0, k);
  }

  /** `mark_attendance` on the tables as values. */
  function Mark(students: seq<Student>, records: seq<Attendance>, nextKey: int, imageData: string, now: int, today: int, lib: Library): (m: MarkStep)
    ensures !m.outcome.Succeeded() ==> m.attendances == records && m.nextKey == nextKey
    ensures m.outcome != NoStudents
    ensures CaptureFace(imageData, lib).Undecodable? ==> m.outcome == Failed
    ensures CaptureFace(imageData, lib).NoFace? ==> m.outcome == NoFaceDetected
    ensures m.outcome.Succeeded() ==> CaptureFace(imageData, lib).Face? && |students| > 0
  {
    match CaptureFace(imageData, lib)
    case Undecodable => MarkStep(Failed, records, nextKey)
    case NoFace => MarkStep(NoFaceDetected, records, nextKey)
    case Face(probe) =>
      match ScanFrom(students, probe, lib, 0)
      case ScanError => MarkStep(Failed, records, nextKey)
      case NoMatch => MarkStep(NotRecognized, records, nextKey)
      case Matched(k) => CheckInOrOut(SinceStartOfToday, students[k], records, nextKey, now, today)
  }

  /** A mark resolves to the first matching student and makes that
      student's check-in or check-out. */
  lemma MarkResolvesFirstMatch(students: seq<Student>, records: seq<Attendance>, nextKey: int, imageData: string, now: int, today: int, lib: Library, k: nat)
    requires CaptureFace(imageData, lib).Face?
    requires k < |students| && Accepts(students[k], CaptureFace(imageData, lib).probe, lib)
    requires forall j :: 0 <= j < k ==> Passes(students[j], CaptureFace(imageData, lib).probe, lib)
    ensures Mark(students, records, nextKey, imageData, now, today, lib)
         == CheckInOrOut(SinceStartOfToday, students[k], records, nextKey, now, today)
  {
    ScanFindsFirstMatch(students, CaptureFace(imageData, lib).probe, lib, k);
  }

  /** A face that no stored descriptor matches is not recognised, and the
      table is left as it was. */
  lemma MarkNotRecognized(students: seq<Student>, records: seq<Attendance>, nextKey: int, imageData: string, now: int, today: int, lib: Library)
    requires CaptureFace(imageData, lib).Face?
    requires forall j :: 0 <= j < |students| ==> Passes(students[j], CaptureFace(imageData, lib).probe, lib)
    ensures Mark(students, records, nextKey, imageData, now, today, lib) == MarkStep(NotRecognized, records, nextKey)
  {
    ScanFindsNoOne(students, CaptureFace(imageData, lib).probe, lib);
  }

  /** A stored encoding that does not parse, met before any match, makes
      the mark fail with the table left as it was. */
  lemma MarkFailsOnMalformed(students: seq<Student>, records: seq<Attendance>, nextKey: int, imageData: string, now: int, today: int, lib: Library, k: nat)
    requires CaptureFace(imageData, lib).Face?
    requires k < |students| && Malformed(students[k], lib)
    requires forall j :: 0 <= j < k ==> Passes(students[j], CaptureFace(imageData, lib).probe, lib)
    ensures Mark(students, records, nextKey, imageData, now, today, lib) == MarkStep(Failed, records, nextKey)
  {
    ScanFromError(students, CaptureFace(imageData, lib).probe, lib, 0);
  }

  /** Marking keeps primary keys valid and never opens a second record for
      anyone. */
  lemma MarkKeepsInvariants(students: seq<Student>, records: seq<Attendance>, nextKey: int, imageData: string, now: int, today: int, lib: Library)
    requires AttendanceKeysValid(records, nextKey)
    requires AtMostOneOpen(records, SinceStartOfToday, today)
    ensures var m := Mark(students, records, nextKey, imageData, now, today, lib);
      AttendanceKeysValid(m.attendances, m.nextKey) && AtMostOneOpen(m.attendances, SinceStartOfToday, today)
  {
    var c := CaptureFace(imageData, lib);
    if c.Face? {
      var r := ScanFrom(students, c.probe, lib, 0);
      if r.Matched? {
        CheckInOrOutKeepsKeys(SinceStartOfToday, students[r.index], records, nextKey, now, today);
        CheckInOrOutKeepsOneOpen(SinceStartOfToday, students[r.index], records, nextKey, now, today);
      }
    }
  }

  /** The same captured image marked again later the same day closes the record the
      first mark opened, and a third mark opens a fresh one. */
  lemma MarkAgainSameDay(students: seq<Student>, records: seq<Attendance>, nextKey: int, imageData: string, now1: int, now2: int, now3: int, today: int, lib: Library)
    requires Mark(students, records, nextKey, imageData, now1, today, lib).outcome.CheckedIn?
    requires now1 >= StartOfDay(today)
    ensures var m1 := Mark(students, records, nextKey, imageData, now1, today, lib);
      var m2 := Mark(students, m1.attendances, m1.nextKey, imageData, now2, today, lib);
      var m3 := Mark(students, m2.attendances, m2.nextKey, imageData, now3, today, lib);
      && m2.outcome == CheckedOut(m1.outcome.studentKey, m1.outcome.name)
      && m2.attendances == records + [Attendance(nextKey, m1.outcome.studentKey, Some(now1), Some(now2), "present")]
      && m3.outcome == CheckedIn(m1.outcome.studentKey, m1.outcome.name)
      && |m3.attendances| == |records| + 2
  {
    var probe := CaptureFace(imageData, lib).probe;
    var k := ScanFrom(students, probe, lib, 0).index;
    CheckInThenOutThenInAgain(SinceStartOfToday, students[k], records, nextKey, now1, now2, now3, today);
  }

  /** The server-side steps of `mark_attendance`: the scan is the source's
      loop with its early return; the check-in or check-out updates the
      attendance table in place. */
  method MarkAttendance(db: Database, imageData: string, now: int, today: int, lib: Library) returns (outcome: MarkOutcome)
    requires db.Valid()
    modifies db
    ensures db.Valid()
    ensures db.students == old(db.students) && db.nextStudentKey == old(db.nextStudentKey)
    ensures MarkStep(outcome, db.attendances, db.nextAttendanceKey)
         == Mark(old(db.students), old(db.attendances), old(db.nextAttendanceKey), imageData, now, today, lib)
  {
    var capture := CaptureFace(imageData, lib);
    if capture.Undecodable? {
      return Failed;
    }
    if capture.NoFace? {
      return NoFaceDetected;
    }
    var probe := capture.probe;
    var students := db.students;
    var i := 0;
    while i < |students|
      invariant 0 <= i <= |students|
      invariant ScanFrom(students, probe, lib, i) == ScanFrom(students, probe, lib, 0)
      invariant db.students == students && db.Valid()
      invariant db.attendances == old(db.attendances) && db.nextAttendanceKey == old(db.nextAttendanceKey)
      invariant db.nextStudentKey == old(db.nextStudentKey)
    {
      var student := students[i];
      if Truthy(student.faceEncoding) {
        var stored := lib.jsonLoads(student.faceEncoding.value);
        if stored.None? {
          return Failed;
        }
        if lib.compareFaces(probe, stored.value) {
          outcome := RecordMark(db, SinceStartOfToday, student, now, today);
          return;
        }
      }
      i := i + 1;
    }
    return NotRecognized;
  }

  /** `query(Attendance).all()` filtered by the optional `date`
      (`YYYY-MM-DD`, applied when non-empty) and `student_id` (applied when
      non-zero). */
  function ListAttendance(records: seq<Attendance>, date: Option<string>, studentKey: Option<int>, lib: Library): (r: Result<seq<Attendance>>)
    ensures r.Err? <==> Truthy(date) && lib.parseDate(date.value).None?
    ensures r.Err? ==> r == Err(400, "Invalid date format. Use YYYY-MM-DD")
    ensures r.Ok? ==> forall a :: a in r.value <==>
      && a in records
      && (Truthy(date) ==> a.checkIn.Some? && DayOf(a.checkIn.value) == lib.parseDate(date.value).value)
      && (studentKey.Some? && studentKey.value != 0 ==> a.studentId == studentKey.value)
  {
    var day := if Truthy(date) then lib.parseDate(date.value) else None;
    if Truthy(date) && day.None? then Err(400, "Invalid date format. Use YYYY-MM-DD")
    else
      var key := if studentKey.Some? && studentKey.value != 0 then studentKey else None;
      Ok(ListRecords(records, day, key))
  }

  /** `get_attendance`: the record with that key, or 404. */
  function GetAttendance(records: seq<Attendance>, key: int): (r: Result<Attendance>)
    ensures r.Ok? ==> r.value in records && r.value.id == key
    ensures r.Err? <==> forall j :: 0 <= j < |records| ==> records[j].id != key
    ensures r.Err? ==> r == Err(404, "Attendance record not found")
  {
    match AttendanceIndex(records, key)
    case None => Err(404, "Attendance record not found")
    case Some(i) => Ok(records[i])
  }

  /** The body of `update_attendance`: optional new `status` and
      `check_out`. */
  datatype AttendanceUpdate = AttendanceUpdate(status: Option<string>, checkOut: Option<int>)

  /** Each field given as non-`None` replaces the stored one; nothing else
      changes, and a set check-out can be replaced but never cleared. */
  function ApplyUpdate(a: Attendance, u: AttendanceUpdate): (r: Attendance)
    ensures r.id == a.id && r.studentId == a.studentId && r.checkIn == a.checkIn
    ensures u.status.Some? ==> r.status == u.status.value
    ensures u.status.None? ==> r.status == a.status
    ensures u.checkOut.Some? ==> r.checkOut == u.checkOut
    ensures u.checkOut.None? ==> r.checkOut == a.checkOut
  {
    var withStatus := if u.status.Some? then a.(status := u.status.value) else a;
    if u.checkOut.Some? then withStatus.(checkOut := u.checkOut) else withStatus
  }

  /** `update_attendance` on the table as a value. */
  function AfterUpdate(records: seq<Attendance>, key: int, u: AttendanceUpdate): (r: Result<seq<Attendance>>)
    ensures r.Err? <==> forall j :: 0 <= j < |records| ==> records[j].id != key
    ensures r.Err? ==> r == Err(404, "Attendance record not found")
    ensures r.Ok? ==> |r.value| == |records|
  {
    match AttendanceIndex(records, key)
    case None => Err(404, "Attendance record not found")
    case Some(i) => Ok(records[i := ApplyUpdate(records[i], u)])
  }

  /** An update changes only the record with that key. */
  lemma UpdateChangesOnlyThatRecord(records: seq<Attendance>, next: int, key: int, u: AttendanceUpdate, i: nat)
    requires AttendanceKeysValid(records, next)
    requires i < |records| && records[i].id == key
    ensures AfterUpdate(records, key, u) == Ok(records[i := ApplyUpdate(records[i], u)])
  {
    var r := AttendanceIndex(records, key);
    assert r == Some(i);
  }

  /** Updates keep primary keys valid. */
  lemma UpdateKeepsKeys(records: seq<Attendance>, next: int, key: int, u: AttendanceUpdate)
    requires AttendanceKeysValid(records, next)
    requires AfterUpdate(records, key, u).Ok?
    ensures AttendanceKeysValid(AfterUpdate(records, key, u).value, next)
  {
    var i := AttendanceIndex(records, key).value;
    var s := AfterUpdate(records, key, u).value;
    assert s == records[i := ApplyUpdate(records[i], u)];
    assert forall j :: 0 <= j < |s| ==> s[j].id == records[j].id;
  }

  /** Updates never open a record, so no student gains a second open one. */
  lemma UpdateKeepsOneOpen(records: seq<Attendance>, key: int, u: AttendanceUpdate, rule: OpenRule, today: int)
    requires AtMostOneOpen(records, rule, today)
    requires AfterUpdate(records, key, u).Ok?
    ensures AtMostOneOpen(AfterUpdate(records, key, u).value, rule, today)
  {
    var i := AttendanceIndex(records, key).value;
    var s := AfterUpdate(records, key, u).value;
    assert s == records[i := ApplyUpdate(records[i], u)];
    assert forall j :: 0 <= j < |s| && IsOpen(rule, s[j], today) ==> IsOpen(rule, records[j], today) && s[j].studentId == records[j].studentId;
  }

  /** `update_attendance`: assign the given fields of the fetched record. */
  method UpdateAttendance(db: Database, key: int, u: AttendanceUpdate) returns (r: Result<Attendance>)
    requires db.Valid()
    modifies db
    ensures db.Valid()
    ensures db.students == old(db.students) && db.nextStudentKey == old(db.nextStudentKey)
    ensures db.nextAttendanceKey == old(db.nextAttendanceKey)
    ensures r.Err? ==> r == Err(404, "Attendance record not found") && db.attendances == old(db.attendances)
    ensures AfterUpdate(old(db.attendances), key, u).Ok? == r.Ok?
    ensures r.Ok? ==> db.attendances == AfterUpdate(old(db.attendances), key, u).value && r.value in db.attendances && r.value.id == key
  {
    var found := AttendanceIndex(db.attendances, key);
    if found.None? {
      return Err(404, "Attendance record not found");
    }
    UpdateKeepsKeys(db.attendances, db.nextAttendanceKey, key, u);
    var i := found.value;
    var updated := ApplyUpdate(db.attendances[i], u);
    db.attendances := db.attendances[i := updated];
    assert db.attendances[i] == updated;
    r := Ok(updated);
  }

  /** `delete_attendance` on the table as a value. */
  function AfterDelete(records: seq<Attendance>, key: int): (r: Result<seq<Attendance>>)
    ensures r.Err? <==> forall j :: 0 <= j < |records| ==> records[j].id != key
    ensures r.Err? ==> r == Err(404, "Attendance record not found")
    ensures r.Ok? ==> |r.value| == |records| - 1
  {
    match AttendanceIndex(records, key)
    case None => Err(404, "Attendance record not found")
    case Some(i) => Ok(RemoveAt(records, i))
  }

  /** With distinct keys, a delete removes exactly the record with that key
      and keeps the rest in order. */
  lemma DeleteRemovesExactly(records: seq<Attendance>, next: int, key: int)
    requires AttendanceKeysValid(records, next)
    requires AfterDelete(records, key).Ok?
    ensures forall a :: a in AfterDelete(records, key).value <==> a in records && a.id != key
  {
    var i := AttendanceIndex(records, key).value;
    RemoveAtByKey(records, i, (a: Attendance) => a.id, key);
  }

  /** Deletes keep primary keys valid. */
  lemma DeleteKeepsKeys(records: seq<Attendance>, next: int, key: int)
    requires AttendanceKeysValid(records, next)
    requires AfterDelete(records, key).Ok?
    ensures AttendanceKeysValid(AfterDelete(records, key).value, next)
  {
    var i := AttendanceIndex(records, key).value;
    var s := AfterDelete(records, key).value;
    forall p, q | 0 <= p < q < |s| ensures s[p].id != s[q].id {
      var p' := if p < i then p else p + 1;
      var q' := if q < i then q else q + 1;
      assert s[p] == records[p'] && s[q] == records[q'] && p' < q';
    }
  }

  /** Deletes never open a record, so no student gains a second open one. */
  lemma DeleteKeepsOneOpen(records: seq<Attendance>, key: int, rule: OpenRule, today: int)
    requires AtMostOneOpen(records, rule, today)
    requires AfterDelete(records, key).Ok?
    ensures AtMostOneOpen(AfterDelete(records, key).value, rule, today)
  {
    var i := AttendanceIndex(records, key).value;
    var s := AfterDelete(records, key).value;
    forall p, q | 0 <= p < q < |s| && IsOpen(rule, s[p], today) && IsOpen(rule, s[q], today)
      ensures s[p].studentId != s[q].studentId
    {
      var p' := if p < i then p else p + 1;
      var q' := if q < i then q else q + 1;
      assert s[p] == records[p'] && s[q] == records[q'] && p' < q';
    }
  }

  /** `delete_attendance`: remove the fetched record. */
  method DeleteAttendance(db: Database, key: int) returns (r: Result<()>)
    requires db.Valid()
    modifies db
    ensures db.Valid()
    ensures db.students == old(db.students) && db.nextStudentKey == old(db.nextStudentKey)
    ensures db.nextAttendanceKey == old(db.nextAttendanceKey)
    ensures r.Err? ==> r == Err(404, "Attendance record not found") && db.attendances == old(db.attendances)
    ensures AfterDelete(old(db.attendances), key).Ok? == r.Ok?
    ensures r.Ok? ==> db.attendances == AfterDelete(old(db.attendances), key).value
  {
    var found := AttendanceIndex(db.attendances, key);
    if found.None? {
      return Err(404, "Attendance record not found");
    }
    DeleteKeepsKeys(db.attendances, db.nextAttendanceKey, key);
    db.attendances := RemoveAt(db.attendances, found.value);
    r := Ok(());
  }

  /** `get_daily_report`: 400 for a date that is not `YYYY-MM-DD`, else one
      row per student in table order. */
  method GetDailyReport(db: Database, date: string, lib: Library) returns (r: Result<seq<ReportRow>>)
    ensures lib.parseDate(date).None? ==> r == Err(400, "Invalid date format. Use YYYY-MM-DD")
    ensures lib.parseDate(date).Some? ==> r.Ok? && |r.value| == |db.students|
    ensures lib.parseDate(date).Some? ==> forall i :: 0 <= i < |db.students| ==>
      r.value[i] == RowFor(db.students[i], db.attendances, lib.parseDate(date).value)
  {
    var day := lib.parseDate(date);
    if day.None? {
      return Err(400, "Invalid date format. Use YYYY-MM-DD");
    }
    var report := BuildReport(db.students, db.attendances, day.value);
    r := Ok(report);
  }
}
