/** The stand-alone handlers of `main.py`, which stand in for face
    recognition: a mark always resolves to the first student of the table,
    a registration stores a descriptor of 128 zeros, the open record is the
    one dated today, and the daily report requires its date. */
module MainApp {
  import opened Common
  import opened Tables
  import AttendanceRoutes

  /** `mark_attendance` of `main.py` on the tables as values: with no
      students nothing changes, otherwise the first student checks in or
      out under the "dated today" rule. */
  function AfterMarkFirst(students: seq<Student>, records: seq<Attendance>, nextKey: int, now: int, today: int): (m: MarkStep)
    ensures |students| == 0 <==> m.outcome == NoStudents
    ensures |students| == 0 ==> m.attendances == records && m.nextKey == nextKey
    ensures |students| > 0 ==> m.outcome == CheckedIn(students[0].id, students[0].name) || m.outcome == CheckedOut(students[0].id, students[0].name)
  {
    if |students| == 0 then MarkStep(NoStudents, records, nextKey)
    else CheckInOrOut(DatedToday, students[0], records, nextKey, now, today)
  }

  /** The stand-in keeps primary keys valid and never opens a second record
      dated today for anyone. */
  lemma MarkFirstKeepsInvariants(students: seq<Student>, records: seq<Attendance>, nextKey: int, now: int, today: int)
    requires AttendanceKeysValid(records, nextKey)
    requires AtMostOneOpen(records, DatedToday, today)
    ensures var m := AfterMarkFirst(students, records, nextKey, now, today);
      AttendanceKeysValid(m.attendances, m.nextKey) && AtMostOneOpen(m.attendances, DatedToday, today)
  {
    if |students| > 0 {
      CheckInOrOutKeepsKeys(DatedToday, students[0], records, nextKey, now, today);
      CheckInOrOutKeepsOneOpen(DatedToday, students[0], records, nextKey, now, today);
    }
  }

  /** The stand-in agrees with the face-recognising handler whenever the
      captured face is accepted by the first student's stored descriptor,
      `today` is the day of `now` and no check-in lies in the future: both
      then make the same transition for the same student. */
  lemma MarkFirstAgreesWithRoutes(students: seq<Student>, records: seq<Attendance>, nextKey: int, imageData: string, now: int, today: int, lib: Library)
    requires CaptureFace(imageData, lib).Face?
    requires |students| > 0 && AttendanceRoutes.Accepts(students[0], CaptureFace(imageData, lib).probe, lib)
    requires DayOf(now) == today
    requires forall j :: 0 <= j < |records| && records[j].checkIn.Some? ==> records[j].checkIn.value <= now
    ensures AttendanceRoutes.Mark(students, records, nextKey, imageData, now, today, lib)
         == AfterMarkFirst(students, records, nextKey, now, today)
  {
    AttendanceRoutes.MarkResolvesFirstMatch(students, records, nextKey, imageData, now, today, lib, 0);
    CheckInOrOutRulesAgree(students[0], records, nextKey, now, today);
  }

  /** `mark_attendance` of `main.py`: the image is read from the request but
      not used. */
  method MarkAttendance(db: Database, now: int, today: int) returns (outcome: MarkOutcome)
    requires db.Valid()
    modifies db
    ensures db.Valid()
    ensures db.students == old(db.students) && db.nextStudentKey == old(db.nextStudentKey)
    ensures MarkStep(outcome, db.attendances, db.nextAttendanceKey)
         == AfterMarkFirst(old(db.students), old(db.attendances), old(db.nextAttendanceKey), now, today)
  {
    if |db.students| == 0 {
      return NoStudents;
    }
    outcome := RecordMark(db, DatedToday, db.students[0], now, today);
  }

  /** The simulated encoding `[0.0] * 128`. */
  function MockDescriptor(): (d: Descriptor)
    ensures |d| == 128 && forall i :: 0 <= i < 128 ==> d[i] == 0.0
  {
    seq(128, _ => 0.0)
  }

  /** `register_face` of `main.py` on the student table as a value: a missing
      `student_id` (`None`) or an unknown one is 404; otherwise the student's
      encoding becomes the JSON of the simulated descriptor, whatever the
      image. */
  function AfterRegisterMock(students: seq<Student>, key: Option<int>, lib: Library): (r: RegisterStep)
    ensures r.outcome == Registered || r.outcome == StudentNotFound
    ensures r.outcome == StudentNotFound <==> key.None? || forall j :: 0 <= j < |students| ==> students[j].id != key.value
    ensures r.outcome == StudentNotFound ==> r.students == students
    ensures |r.students| == |students|
  {
    if key.None? then RegisterStep(StudentNotFound, students)
    else match StudentIndex(students, key.value)
      case None => RegisterStep(StudentNotFound, students)
      case Some(i) => RegisterStep(Registered, students[i := students[i].(faceEncoding := Some(lib.jsonDumps(MockDescriptor())))])
  }

  /** A simulated registration changes only that student's encoding, to the
      same text for every student, and keeps primary keys valid. */
  lemma RegisterMockOverwritesOnlyEncoding(students: seq<Student>, next: int, key: int, lib: Library, i: nat)
    requires StudentKeysValid(students, next)
    requires i < |students| && students[i].id == key
    ensures var r := AfterRegisterMock(students, Some(key), lib);
      && r.outcome == Registered
      && r.students[i] == students[i].(faceEncoding := Some(lib.jsonDumps(MockDescriptor())))
      && (forall j :: 0 <= j < |students| && j != i ==> r.students[j] == students[j])
      && StudentKeysValid(r.students, next)
  {
    assert StudentIndex(students, key) == Some(i);
    var r := AfterRegisterMock(students, Some(key), lib);
    assert forall j :: 0 <= j < |students| ==> r.students[j].id == students[j].id;
  }

  /** `register_face` of `main.py`: assign the fetched student's encoding. */
  method RegisterFace(db: Database, key: Option<int>, lib: Library) returns (outcome: RegisterOutcome)
    requires db.Valid()
    modifies db
    ensures db.Valid()
    ensures RegisterStep(outcome, db.students) == AfterRegisterMock(old(db.students), key, lib)
    ensures db.nextStudentKey == old(db.nextStudentKey)
    ensures db.attendances == old(db.attendances) && db.nextAttendanceKey == old(db.nextAttendanceKey)
  {
    if key.None? {
      return StudentNotFound;
    }
    var found := StudentIndex(db.students, key.value);
    if found.None? {
      return StudentNotFound;
    }
    var i := found.value;
    RegisterMockOverwritesOnlyEncoding(db.students, db.nextStudentKey, key.value, lib, i);
    db.students := db.students[i := db.students[i].(faceEncoding := Some(lib.jsonDumps(MockDescriptor())))];
    outcome := Registered;
  }

  /** `get_all_attendance` of `main.py`: the `date` filter applies when the
      query string is non-empty, and so does the `student_id` filter, whose
      text the database compares with the integer column (`toKey` stands for
      that coercion; text that is not a number matches no row). */
  function ListAttendance(records: seq<Attendance>, date: Option<string>, studentId: Option<string>, lib: Library, toKey: string -> Option<int>): (r: Result<seq<Attendance>>)
    ensures r.Err? <==> Truthy(date) && lib.parseDate(date.value).None?
    ensures r.Err? ==> r == Err(400, "Invalid date format. Use YYYY-MM-DD")
    ensures r.Ok? ==> forall a :: a in r.value <==>
      && a in records
      && (Truthy(date) ==> a.checkIn.Some? && DayOf(a.checkIn.value) == lib.parseDate(date.value).value)
      && (Truthy(studentId) ==> toKey(studentId.value).Some? && a.studentId == toKey(studentId.value).value)
  {
    var day := if Truthy(date) then lib.parseDate(date.value) else None;
    if Truthy(date) && day.None? then Err(400, "Invalid date format. Use YYYY-MM-DD")
    else if Truthy(studentId) && toKey(studentId.value).None? then Ok([])
    else
      var key := if Truthy(studentId) then toKey(studentId.value) else None;
      Ok(ListRecords(records, day, key))
  }

  /** Without a student filter, both versions list the same records. */
  lemma ListingsAgree(records: seq<Attendance>, date: Option<string>, lib: Library, toKey: string -> Option<int>)
    ensures ListAttendance(records, date, None, lib, toKey) == AttendanceRoutes.ListAttendance(records, date, None, lib)
  {
  }

  /** `get_daily_report` of `main.py`: 400 when `date` is missing or empty,
      400 when it is not `YYYY-MM-DD`, else one row per student in table
      order. */
  method GetDailyReport(db: Database, date: Option<string>, lib: Library) returns (r: Result<seq<ReportRow>>)
    ensures !Truthy(date) ==> r == Err(400, "Date parameter is required")
    ensures Truthy(date) && lib.parseDate(date.value).None? ==> r == Err(400, "Invalid date format. Use YYYY-MM-DD")
    ensures Truthy(date) && lib.parseDate(date.value).Some? ==> r.Ok? && |r.value| == |db.students|
    ensures Truthy(date) && lib.parseDate(date.value).Some? ==> forall i :: 0 <= i < |db.students| ==>
      r.value[i] == RowFor(db.students[i], db.attendances, lib.parseDate(date.value).value)
  {
    if !Truthy(date) {
      return Err(400, "Date parameter is required");
    }
    var day := lib.parseDate(date.value);
    if day.None? {
      return Err(400, "Invalid date format. Use YYYY-MM-DD");
    }
    var report := BuildReport(db.students, db.attendances, day.value);
    r := Ok(report);
  }
}
