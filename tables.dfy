/** The two tables of `models.py` (students and attendance records), the
    database session that holds them, and the behaviour both versions of the
    application share: the check-in/check-out transition of a recognised
    student and the per-student daily report. */
module Tables {
  import opened Common
  import DataUri

  /** A face descriptor: the 128 numbers the face library produces. */
  type Descriptor = seq<real>

  /** Raw image bytes, as `base64.b64decode` returns them. */
  type Bytes = seq<Byte>

  /** A row of `students`; `id` is the primary key, `studentId` the
      institution's own identifier, `faceEncoding` the JSON text of a
      descriptor (nullable). */
  datatype Student = Student(
    id: int,
    studentId: string,
    name: string,
    email: string,
    faceEncoding: Option<string>)

  /** A row of `attendances`; `studentId` is the foreign key to
      `students.id`, both times are nullable timestamps. */
  datatype Attendance = Attendance(
    id: int,
    studentId: int,
    checkIn: Option<int>,
    checkOut: Option<int>,
    status: string)

  /** The library calls the handlers make, each total: a call that raises
      is `None` (or `false` for the comparison, as the face service's own
      `except` clauses make it). */
  datatype Library = Library(
    b64decode: string -> Option<Bytes>,
    encodeFace: Bytes -> Option<Descriptor>,
    compareFaces: (Descriptor, Descriptor) -> bool,
    jsonLoads: string -> Option<Descriptor>,
    jsonDumps: Descriptor -> string,
    parseDate: string -> Option<int>)

  /** What the server makes of a captured image: the payload after the first
      comma is base64-decoded and handed to the face encoder. */
  datatype FaceCapture = Undecodable | NoFace | Face(probe: Descriptor)

  /** `encode_face(base64.b64decode(image_data.split(',')[1]))`, where a
      missing comma (`IndexError`) or bad base64 raises. */
  function CaptureFace(imageData: string, lib: Library): (c: FaceCapture)
    ensures ',' !in imageData ==> c == Undecodable
  {
    DataUri.PayloadPresence(imageData);
    match DataUri.Payload(imageData)
    case None => Undecodable
    case Some(payload) =>
      match lib.b64decode(payload)
      case None => Undecodable
      case Some(bytes) =>
        match lib.encodeFace(bytes)
        case None => NoFace
        case Some(probe) => Face(probe)
  }

  /** What a face registration answers, with its HTTP status. */
  datatype RegisterOutcome = Registered | StudentNotFound | NoFaceToRegister | RegisterFailed
  {
    function Status(): int
    {
      match this
      case Registered => 200
      case StudentNotFound => 404
      case NoFaceToRegister => 400
      case RegisterFailed => 500
    }
  }

  /** A registration's outcome with the student table it leaves behind. */
  datatype RegisterStep = RegisterStep(outcome: RegisterOutcome, students: seq<Student>)

  /** Primary keys are distinct and below the next value the autoincrement
      sequence hands out. */
  ghost predicate StudentKeysValid(students: seq<Student>, next: int)
  {
    && (forall i :: 0 <= i < |students| ==> students[i].id < next)
    && (forall i, j :: 0 <= i < j < |students| ==> students[i].id != students[j].id)
  }

  ghost predicate AttendanceKeysValid(records: seq<Attendance>, next: int)
  {
    && (forall i :: 0 <= i < |records| ==> records[i].id < next)
    && (forall i, j :: 0 <= i < j < |records| ==> records[i].id != records[j].id)
  }

  /** The records of every student but `key`. */
  function RecordsNotOf(records: seq<Attendance>, key: int): (r: seq<Attendance>)
    ensures forall a :: a in r <==> a in records && a.studentId != key
  {
    Filter(records, (a: Attendance) => a.studentId != key)
  }

  /** Dropping a student's records keeps the other records' keys valid:
      what is left is a subsequence of the table. */
  lemma {:induction false} RecordsNotOfKeepsKeys(records: seq<Attendance>, next: int, key: int)
    requires AttendanceKeysValid(records, next)
    ensures AttendanceKeysValid(RecordsNotOf(records, key), next)
  {
    if |records| > 0 {
      var tail := records[1..];
      RecordsNotOfKeepsKeys(tail, next, key);
      var rt := RecordsNotOf(tail, key);
      var r := RecordsNotOf(records, key);
      if records[0].studentId != key {
        assert r == [records[0]] + rt;
        forall j | 0 <= j < |rt| ensures rt[j].id != records[0].id {
          assert rt[j] in tail;
          var m :| 0 <= m < |tail| && tail[m] == rt[j];
          assert tail[m] == records[m + 1];
        }
      } else {
        assert r == rt;
      }
    }
  }

  /** `query(Student).filter(Student.id == key).first()`. */
  function StudentIndex(students: seq<Student>, key: int): Option<nat>
  {
    FirstIndex(students, (s: Student) => s.id == key)
  }

  /** `query(Attendance).filter(Attendance.id == key).first()`. */
  function AttendanceIndex(records: seq<Attendance>, key: int): Option<nat>
  {
    FirstIndex(records, (a: Attendance) => a.id == key)
  }

  /** The database session the handlers receive: both tables, in row order,
      with the next primary key of each. */
  class Database {
    var students: seq<Student>
    var attendances: seq<Attendance>
    var nextStudentKey: int
    var nextAttendanceKey: int

    ghost predicate Valid()
      reads this
    {
      StudentKeysValid(students, nextStudentKey) && AttendanceKeysValid(attendances, nextAttendanceKey)
    }

    constructor ()
      ensures Valid()
      ensures students == [] && attendances == []
    ensures nextStudentKey == 1 && nextAttendanceKey == 1
    {
      students, attendances := [], [];
      nextStudentKey, nextAttendanceKey := 1, 1;
    }
  }

  /** Which record counts as "open" for a check-out. `routes/attendance.py`
      asks for `check_in >= today`; `main.py` for `date(check_in) == today`.
      Both ask for no check-out. */
  datatype OpenRule = SinceStartOfToday | DatedToday

  predicate IsOpen(rule: OpenRule, a: Attendance, today: int)
  {
    && a.checkIn.Some?
    && a.checkOut.None?
    && match rule
       case SinceStartOfToday => a.checkIn.value >= StartOfDay(today)
       case DatedToday => DayOf(a.checkIn.value) == today
  }

  predicate OpenFor(rule: OpenRule, a: Attendance, key: int, today: int)
  {
    a.studentId == key && IsOpen(rule, a, today)
  }

  /** The attendance invariant: no student has two open records. */
  predicate AtMostOneOpen(records: seq<Attendance>, rule: OpenRule, today: int)
  {
    forall i, j ::
      0 <= i < j < |records| && IsOpen(rule, records[i], today) && IsOpen(rule, records[j], today) ==>
        records[i].studentId != records[j].studentId
  }

  /** What a mark of attendance answers. */
  datatype MarkOutcome =
    | CheckedIn(studentKey: int, name: string)
    | CheckedOut(studentKey: int, name: string)
    | NoFaceDetected
    | NotRecognized
    | NoStudents
    | Failed
  {
    /** The `success` field of the JSON response. */
    predicate Succeeded()
    {
      CheckedIn? || CheckedOut?
    }

    /** The `message` field of the JSON response (an exception's own text,
        appended by the source after "Error processing attendance: ", is
        not modelled). */
    function Message(): string
    {
      match this
      case CheckedIn(_, name) => "Attendance check-in marked for " + name
      case CheckedOut(_, name) => "Attendance check-out marked for " + name
      case NoFaceDetected => "No face detected in the image"
      case NotRecognized => "Face not recognized. Please register first."
      case NoStudents => "No students registered yet"
      case Failed => "Error processing attendance"
    }
  }

  /** The outcome of a mark with the attendance table and key sequence it
      leaves behind. */
  datatype MarkStep = MarkStep(outcome: MarkOutcome, attendances: seq<Attendance>, nextKey: int)

  /** The record a check-in adds. */
  function NewRecord(key: int, student: Student, now: int): Attendance
  {
    Attendance(key, student.id, Some(now), None, "present")
  }

  /** A recognised student's mark: close the first open record of theirs, or
      else append a fresh "present" record checked in at `now`. */
  function CheckInOrOut(rule: OpenRule, student: Student, records: seq<Attendance>, nextKey: int, now: int, today: int): (m: MarkStep)
    ensures m.outcome == CheckedIn(student.id, student.name) || m.outcome == CheckedOut(student.id, student.name)
    ensures m.outcome.CheckedIn? <==> forall j :: 0 <= j < |records| ==> !OpenFor(rule, records[j], student.id, today)
    ensures m.outcome.CheckedIn? ==> m.attendances == records + [NewRecord(nextKey, student, now)] && m.nextKey == nextKey + 1
    ensures m.outcome.CheckedOut? ==> m.nextKey == nextKey && |m.attendances| == |records|
  {
    match FirstIndex(records, (a: Attendance) => OpenFor(rule, a, student.id, today))
    case Some(i) =>
      MarkStep(CheckedOut(student.id, student.name), records[i := records[i].(checkOut := Some(now))], nextKey)
    case None =>
      MarkStep(CheckedIn(student.id, student.name), records + [NewRecord(nextKey, student, now)], nextKey + 1)
  }

  /** A check-out sets `check_out` of the student's first open record to
      `now` and changes nothing else. */
  lemma CheckOutFrame(rule: OpenRule, student: Student, records: seq<Attendance>, nextKey: int, now: int, today: int, i: nat)
    requires i < |records| && OpenFor(rule, records[i], student.id, today)
    requires forall j :: 0 <= j < i ==> !OpenFor(rule, records[j], student.id, today)
    ensures var m := CheckInOrOut(rule, student, records, nextKey, now, today);
      && m.outcome == CheckedOut(student.id, student.name)
      && m.nextKey == nextKey
      && |m.attendances| == |records|
      && m.attendances[i] == records[i].(checkOut := Some(now))
      && forall j :: 0 <= j < |records| && j != i ==> m.attendances[j] == records[j]
  {
    var r := FirstIndex(records, (a: Attendance) => OpenFor(rule, a, student.id, today));
    assert r == Some(i);
  }

  /** The transition keeps primary keys distinct and below the sequence. */
  lemma CheckInOrOutKeepsKeys(rule: OpenRule, student: Student, records: seq<Attendance>, nextKey: int, now: int, today: int)
    requires AttendanceKeysValid(records, nextKey)
    ensures var m := CheckInOrOut(rule, student, records, nextKey, now, today);
      AttendanceKeysValid(m.attendances, m.nextKey)
  {
    var m := CheckInOrOut(rule, student, records, nextKey, now, today);
    if m.outcome.CheckedOut? {
      var r := FirstIndex(records, (a: Attendance) => OpenFor(rule, a, student.id, today));
      assert forall j :: 0 <= j < |records| ==> m.attendances[j].id == records[j].id;
    }
  }

  /** The transition never gives a student a second open record. */
  lemma CheckInOrOutKeepsOneOpen(rule: OpenRule, student: Student, records: seq<Attendance>, nextKey: int, now: int, today: int)
    requires AtMostOneOpen(records, rule, today)
    ensures AtMostOneOpen(CheckInOrOut(rule, student, records, nextKey, now, today).attendances, rule, today)
  {
    var m := CheckInOrOut(rule, student, records, nextKey, now, today);
    var s := m.attendances;
    if m.outcome.CheckedOut? {
      var r := FirstIndex(records, (a: Attendance) => OpenFor(rule, a, student.id, today));
      assert s == records[r.value := records[r.value].(checkOut := Some(now))];
      forall i, j | 0 <= i < j < |s| && IsOpen(rule, s[i], today) && IsOpen(rule, s[j], today)
        ensures s[i].studentId != s[j].studentId
      {
        assert s[i] == records[i] && s[j] == records[j];
      }
    } else {
      forall i, j | 0 <= i < j < |s| && IsOpen(rule, s[i], today) && IsOpen(rule, s[j], today)
        ensures s[i].studentId != s[j].studentId
      {
        if j == |records| {
          assert s[i] == records[i];
          assert !OpenFor(rule, records[i], student.id, today);
        } else {
          assert s[i] == records[i] && s[j] == records[j];
        }
      }
    }
  }

  /** Under the invariant, a check-out leaves the student with no open
      record, and a check-in stamped within the day leaves exactly the new
      one open. */
  lemma CheckInOrOutOpenRecords(rule: OpenRule, student: Student, records: seq<Attendance>, nextKey: int, now: int, today: int)
    requires AtMostOneOpen(records, rule, today)
    ensures var m := CheckInOrOut(rule, student, records, nextKey, now, today);
      m.outcome.CheckedOut? ==> forall j :: 0 <= j < |m.attendances| ==> !OpenFor(rule, m.attendances[j], student.id, today)
    ensures var m := CheckInOrOut(rule, student, records, nextKey, now, today);
      m.outcome.CheckedIn? && IsOpen(rule, NewRecord(nextKey, student, now), today) ==>
        forall j :: 0 <= j < |m.attendances| ==> (OpenFor(rule, m.attendances[j], student.id, today) <==> j == |records|)
  {
    var m := CheckInOrOut(rule, student, records, nextKey, now, today);
    if m.outcome.CheckedOut? {
      var r := FirstIndex(records, (a: Attendance) => OpenFor(rule, a, student.id, today));
      var i := r.value;
      forall j | 0 <= j < |m.attendances| ensures !OpenFor(rule, m.attendances[j], student.id, today) {
        if j != i {
          assert m.attendances[j] == records[j];
          if j > i {
            assert IsOpen(rule, records[i], today);
          }
        }
      }
    }
  }

  /** Two marks for a student with nothing open: the first checks in, the
      second closes that same record, and a third opens a fresh one. */
  lemma CheckInThenOutThenInAgain(rule: OpenRule, student: Student, records: seq<Attendance>, nextKey: int, now1: int, now2: int, now3: int, today: int)
    requires forall j :: 0 <= j < |records| ==> !OpenFor(rule, records[j], student.id, today)
    requires IsOpen(rule, NewRecord(nextKey, student, now1), today)
    ensures var m1 := CheckInOrOut(rule, student, records, nextKey, now1, today);
      var m2 := CheckInOrOut(rule, student, m1.attendances, m1.nextKey, now2, today);
      var m3 := CheckInOrOut(rule, student, m2.attendances, m2.nextKey, now3, today);
      && m1.outcome == CheckedIn(student.id, student.name)
      && m2.outcome == CheckedOut(student.id, student.name)
      && m2.attendances == records + [Attendance(nextKey, student.id, Some(now1), Some(now2), "present")]
      && m3.outcome == CheckedIn(student.id, student.name)
      && m3.attendances == m2.attendances + [NewRecord(nextKey + 1, student, now3)]
  {
    var m1 := CheckInOrOut(rule, student, records, nextKey, now1, today);
    var n := |records|;
    assert m1.attendances[n] == NewRecord(nextKey, student, now1);
    CheckOutFrame(rule, student, m1.attendances, m1.nextKey, now2, today, n);
    var m2 := CheckInOrOut(rule, student, m1.attendances, m1.nextKey, now2, today);
    assert m2.attendances == records + [Attendance(nextKey, student.id, Some(now1), Some(now2), "present")];
    assert forall j :: 0 <= j < |m2.attendances| ==> !OpenFor(rule, m2.attendances[j], student.id, today);
  }

  /** The two open rules pick the same records when no check-in lies after
      `now` and `today` is the day of `now`. */
  lemma OpenRulesAgree(a: Attendance, now: int, today: int)
    requires DayOf(now) == today
    requires a.checkIn.Some? ==> a.checkIn.value <= now
    ensures IsOpen(SinceStartOfToday, a, today) <==> IsOpen(DatedToday, a, today)
  {
    if a.checkIn.Some? {
      DayOfBounds(a.checkIn.value, today);
      DayOfBounds(now, today);
    }
  }

  /** Hence, for such a table, both versions make the same transition. */
  lemma {:induction false} CheckInOrOutRulesAgree(student: Student, records: seq<Attendance>, nextKey: int, now: int, today: int)
    requires DayOf(now) == today
    requires forall j :: 0 <= j < |records| && records[j].checkIn.Some? ==> records[j].checkIn.value <= now
    ensures CheckInOrOut(SinceStartOfToday, student, records, nextKey, now, today)
         == CheckInOrOut(DatedToday, student, records, nextKey, now, today)
  {
    forall j | 0 <= j < |records|
      ensures OpenFor(SinceStartOfToday, records[j], student.id, today) == OpenFor(DatedToday, records[j], student.id, today)
    {
      OpenRulesAgree(records[j], now, today);
    }
    FirstIndexAgrees(records,
      (a: Attendance) => OpenFor(SinceStartOfToday, a, student.id, today),
      (a: Attendance) => OpenFor(DatedToday, a, student.id, today));
  }

  /** The invariant under `check_in >= today` survives the passing of days:
      a record open on a later day was open on an earlier one. */
  lemma OneOpenPersists(records: seq<Attendance>, day: int, later: int)
    requires day <= later
    requires AtMostOneOpen(records, SinceStartOfToday, day)
    ensures AtMostOneOpen(records, SinceStartOfToday, later)
  {
    forall i, j | 0 <= i < j < |records| && IsOpen(SinceStartOfToday, records[i], later) && IsOpen(SinceStartOfToday, records[j], later)
      ensures records[i].studentId != records[j].studentId
    {
      assert StartOfDay(day) <= StartOfDay(later);
      assert IsOpen(SinceStartOfToday, records[i], day) && IsOpen(SinceStartOfToday, records[j], day);
    }
  }

  /** The in-place form of the transition: `open_attendance.check_out =
      current_time` on the fetched record, or `db.add` of a new one. */
  method RecordMark(db: Database, rule: OpenRule, student: Student, now: int, today: int) returns (outcome: MarkOutcome)
    requires db.Valid()
    modifies db
    ensures db.Valid()
    ensures db.students == old(db.students) && db.nextStudentKey == old(db.nextStudentKey)
    ensures MarkStep(outcome, db.attendances, db.nextAttendanceKey)
         == CheckInOrOut(rule, student, old(db.attendances), old(db.nextAttendanceKey), now, today)
  {
    CheckInOrOutKeepsKeys(rule, student, db.attendances, db.nextAttendanceKey, now, today);
    var open := FirstIndex(db.attendances, (a: Attendance) => OpenFor(rule, a, student.id, today));
    if open.Some? {
      var i := open.value;
      db.attendances := db.attendances[i := db.attendances[i].(checkOut := Some(now))];
      outcome := CheckedOut(student.id, student.name);
    } else {
      db.attendances := db.attendances + [NewRecord(db.nextAttendanceKey, student, now)];
      db.nextAttendanceKey := db.nextAttendanceKey + 1;
      outcome := CheckedIn(student.id, student.name);
    }
  }

  /** One row of the daily report. */
  datatype ReportRow = ReportRow(
    studentKey: int,
    name: string,
    email: string,
    status: string,
    checkIn: Option<int>,
    checkOut: Option<int>)

  /** A record of student `key` checked in on `day`
      (`date(check_in) == filter_date`). */
  predicate OnDay(a: Attendance, key: int, day: int)
  {
    a.studentId == key && a.checkIn.Some? && DayOf(a.checkIn.value) == day
  }

  /** The report row of one student: the first of their records dated `day`,
      or "absent" with no times. */
  function RowFor(s: Student, records: seq<Attendance>, day: int): ReportRow
  {
    match FirstIndex(records, (a: Attendance) => OnDay(a, s.id, day))
    case None => ReportRow(s.id, s.name, s.email, "absent", None, None)
    case Some(i) => ReportRow(s.id, s.name, s.email, records[i].status, records[i].checkIn, records[i].checkOut)
  }

  /** A student with no record on the day is reported absent with null
      times. */
  lemma RowForAbsent(s: Student, records: seq<Attendance>, day: int)
    requires forall j :: 0 <= j < |records| ==> !OnDay(records[j], s.id, day)
    ensures RowFor(s, records, day) == ReportRow(s.id, s.name, s.email, "absent", None, None)
  {
  }

  /** A student with records on the day is reported with the status and
      times of the first of them. */
  lemma RowForPresent(s: Student, records: seq<Attendance>, day: int, i: nat)
    requires i < |records| && OnDay(records[i], s.id, day)
    requires forall j :: 0 <= j < i ==> !OnDay(records[j], s.id, day)
    ensures RowFor(s, records, day) == ReportRow(s.id, s.name, s.email, records[i].status, records[i].checkIn, records[i].checkOut)
  {
    var r := FirstIndex(records, (a: Attendance) => OnDay(a, s.id, day));
    assert r == Some(i);
  }

  /** The report loop: one row per student, in table order. */
  method BuildReport(students: seq<Student>, records: seq<Attendance>, day: int) returns (report: seq<ReportRow>)
    ensures |report| == |students|
    ensures forall i :: 0 <= i < |students| ==> report[i] == RowFor(students[i], records, day)
    ensures forall i :: 0 <= i < |students| ==> report[i].studentKey == students[i].id && report[i].name == students[i].name && report[i].email == students[i].email
  {
    report := [];
    var k := 0;
    while k < |students|
      invariant 0 <= k <= |students|
      invariant |report| == k
      invariant forall i :: 0 <= i < k ==> report[i] == RowFor(students[i], records, day)
    {
      report := report + [RowFor(students[k], records, day)];
      k := k + 1;
    }
  }

  /** Both optional filters of the attendance listing: day of check-in and
      student key. */
  predicate Listed(a: Attendance, day: Option<int>, key: Option<int>)
  {
    && (day.Some? ==> a.checkIn.Some? && DayOf(a.checkIn.value) == day.value)
    && (key.Some? ==> a.studentId == key.value)
  }

  function ListRecords(records: seq<Attendance>, day: Option<int>, key: Option<int>): (r: seq<Attendance>)
    ensures forall a :: a in r <==> a in records && Listed(a, day, key)
    ensures forall i :: 0 <= i < |r| ==> Listed(r[i], day, key)
  {
    Filter(records, (a: Attendance) => Listed(a, day, key))
  }

  /** With neither filter the listing is the whole table, in order. */
  lemma ListRecordsUnfiltered(records: seq<Attendance>)
    ensures ListRecords(records, None, None) == records
  {
    FilterKeepsAll(records, (a: Attendance) => Listed(a, None, None));
  }
}
