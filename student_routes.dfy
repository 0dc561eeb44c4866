/** The student handlers of `routes/student.py`: create a student, register
    a face for one (overwriting the stored descriptor), read, update and
    delete. */
module StudentRoutes {
  import opened Common
  import opened Tables

  /** The body of `create_student`. */
  datatype StudentCreate = StudentCreate(studentId: string, name: string, email: string, faceEncoding: Option<string>)

  /** `create_student`: add a row holding exactly the four given fields under
      the next primary key. */
  method CreateStudent(db: Database, input: StudentCreate) returns (s: Student)
    requires db.Valid()
    modifies db
    ensures db.Valid()
    ensures s == Student(old(db.nextStudentKey), input.studentId, input.name, input.email, input.faceEncoding)
    ensures db.students == old(db.students) + [s] && db.nextStudentKey == old(db.nextStudentKey) + 1
    ensures db.attendances == old(db.attendances) && db.nextAttendanceKey == old(db.nextAttendanceKey)
  {
    s := Student(db.nextStudentKey, input.studentId, input.name, input.email, input.faceEncoding);
    db.students := db.students + [s];
    db.nextStudentKey := db.nextStudentKey + 1;
  }

  /** `get_student`: the student with that key, or 404. */
  function GetStudent(students: seq<Student>, key: int): (r: Result<Student>)
    ensures r.Ok? ==> r.value in students && r.value.id == key
    ensures r.Err? <==> forall j :: 0 <= j < |students| ==> students[j].id != key
    ensures r.Err? ==> r == Err(404, "Student not found")
  {
    match StudentIndex(students, key)
    case None => Err(404, "Student not found")
    case Some(i) => Ok(students[i])
  }

  /** `register_face` on the student table as a value: 404 for an unknown
      key (before anything else), 500 when the image cannot be decoded, 400
      when no face is found, else the student's `face_encoding` becomes the
      JSON array of the descriptor. */
  function AfterRegister(students: seq<Student>, key: int, imageData: string, lib: Library): (r: RegisterStep)
    ensures r.outcome != Registered ==> r.students == students
    ensures r.outcome == StudentNotFound <==> forall j :: 0 <= j < |students| ==> students[j].id != key
    ensures r.outcome == NoFaceToRegister ==> CaptureFace(imageData, lib).NoFace?
    ensures r.outcome == RegisterFailed ==> CaptureFace(imageData, lib).Undecodable?
    ensures r.outcome == Registered ==> CaptureFace(imageData, lib).Face?
    ensures |r.students| == |students|
  {
    match StudentIndex(students, key)
    case None => RegisterStep(StudentNotFound, students)
    case Some(i) =>
      match CaptureFace(imageData, lib)
      case Undecodable => RegisterStep(RegisterFailed, students)
      case NoFace => RegisterStep(NoFaceToRegister, students)
      case Face(probe) =>
        RegisterStep(Registered, students[i := students[i].(faceEncoding := Some(lib.jsonDumps(probe)))])
  }

  /** A successful registration overwrites only that student's
      `face_encoding`; every other field and student is unchanged. */
  lemma RegisterOverwritesOnlyEncoding(students: seq<Student>, next: int, key: int, imageData: string, lib: Library, i: nat)
    requires StudentKeysValid(students, next)
    requires i < |students| && students[i].id == key
    requires CaptureFace(imageData, lib).Face?
    ensures var r := AfterRegister(students, key, imageData, lib);
      && r.outcome == Registered
      && r.students[i] == students[i].(faceEncoding := Some(lib.jsonDumps(CaptureFace(imageData, lib).probe)))
      && forall j :: 0 <= j < |students| && j != i ==> r.students[j] == students[j]
  {
    assert StudentIndex(students, key) == Some(i);
  }

  /** Registration keeps primary keys valid. */
  lemma RegisterKeepsKeys(students: seq<Student>, next: int, key: int, imageData: string, lib: Library)
    requires StudentKeysValid(students, next)
    ensures StudentKeysValid(AfterRegister(students, key, imageData, lib).students, next)
  {
    var r := AfterRegister(students, key, imageData, lib);
    if r.outcome == Registered {
      var i := StudentIndex(students, key).value;
      assert forall j :: 0 <= j < |students| ==> r.students[j].id == students[j].id;
    }
  }

  /** `register_face`: assign the fetched student's `face_encoding` in place. */
  method RegisterFace(db: Database, key: int, imageData: string, lib: Library) returns (outcome: RegisterOutcome)
    requires db.Valid()
    modifies db
    ensures db.Valid()
    ensures RegisterStep(outcome, db.students) == AfterRegister(old(db.students), key, imageData, lib)
    ensures db.nextStudentKey == old(db.nextStudentKey)
    ensures db.attendances == old(db.attendances) && db.nextAttendanceKey == old(db.nextAttendanceKey)
  {
    var found := StudentIndex(db.students, key);
    if found.None? {
      return StudentNotFound;
    }
    var capture := CaptureFace(imageData, lib);
    if capture.Undecodable? {
      return RegisterFailed;
    }
    if capture.NoFace? {
      return NoFaceToRegister;
    }
    RegisterKeepsKeys(db.students, db.nextStudentKey, key, imageData, lib);
    var i := found.value;
    db.students := db.students[i := db.students[i].(faceEncoding := Some(lib.jsonDumps(capture.probe)))];
    outcome := Registered;
  }

  /** The body of `update_student`: each field optional. */
  datatype StudentUpdate = StudentUpdate(studentId: Option<string>, name: Option<string>, email: Option<string>, faceEncoding: Option<string>)

  /** Each field given as non-`None` replaces the stored one; the primary key
      never changes. */
  function ApplyStudentUpdate(s: Student, u: StudentUpdate): (r: Student)
    ensures r.id == s.id
    ensures r.studentId == (if u.studentId.Some? then u.studentId.value else s.studentId)
    ensures r.name == (if u.name.Some? then u.name.value else s.name)
    ensures r.email == (if u.email.Some? then u.email.value else s.email)
    ensures r.faceEncoding == (if u.faceEncoding.Some? then u.faceEncoding else s.faceEncoding)
  {
    var s1 := if u.studentId.Some? then s.(studentId := u.studentId.value) else s;
    var s2 := if u.name.Some? then s1.(name := u.name.value) else s1;
    var s3 := if u.email.Some? then s2.(email := u.email.value) else s2;
    if u.faceEncoding.Some? then s3.(faceEncoding := u.faceEncoding) else s3
  }

  /** An update with every field `None` changes nothing, and applying the
      same update twice is applying it once. */
  lemma StudentUpdateLaws(s: Student, u: StudentUpdate)
    ensures ApplyStudentUpdate(s, StudentUpdate(None, None, None, None)) == s
    ensures ApplyStudentUpdate(ApplyStudentUpdate(s, u), u) == ApplyStudentUpdate(s, u)
  {
  }

  /** `update_student` on the table as a value. */
  function AfterUpdate(students: seq<Student>, key: int, u: StudentUpdate): (r: Result<seq<Student>>)
    ensures r.Err? <==> forall j :: 0 <= j < |students| ==> students[j].id != key
    ensures r.Err? ==> r == Err(404, "Student not found")
    ensures r.Ok? ==> |r.value| == |students|
  {
    match StudentIndex(students, key)
    case None => Err(404, "Student not found")
    case Some(i) => Ok(students[i := ApplyStudentUpdate(students[i], u)])
  }

  /** An update changes only the student with that key, and keeps primary
      keys valid. */
  lemma UpdateChangesOnlyThatStudent(students: seq<Student>, next: int, key: int, u: StudentUpdate, i: nat)
    requires StudentKeysValid(students, next)
    requires i < |students| && students[i].id == key
    ensures AfterUpdate(students, key, u) == Ok(students[i := ApplyStudentUpdate(students[i], u)])
    ensures StudentKeysValid(AfterUpdate(students, key, u).value, next)
  {
    assert StudentIndex(students, key) == Some(i);
    var s := students[i := ApplyStudentUpdate(students[i], u)];
    assert forall j :: 0 <= j < |s| ==> s[j].id == students[j].id;
  }

  /** `update_student`: assign the given fields of the fetched student. */
  method UpdateStudent(db: Database, key: int, u: StudentUpdate) returns (r: Result<Student>)
    requires db.Valid()
    modifies db
    ensures db.Valid()
    ensures db.attendances == old(db.attendances) && db.nextAttendanceKey == old(db.nextAttendanceKey)
    ensures db.nextStudentKey == old(db.nextStudentKey)
    ensures r.Err? ==> r == Err(404, "Student not found") && db.students == old(db.students)
    ensures AfterUpdate(old(db.students), key, u).Ok? == r.Ok?
    ensures r.Ok? ==> db.students == AfterUpdate(old(db.students), key, u).value && r.value in db.students && r.value.id == key
  {
    var found := StudentIndex(db.students, key);
    if found.None? {
      return Err(404, "Student not found");
    }
    var i := found.value;
    UpdateChangesOnlyThatStudent(db.students, db.nextStudentKey, key, u, i);
    var updated := ApplyStudentUpdate(db.students[i], u);
    db.students := db.students[i := updated];
    assert db.students[i] == updated;
    r := Ok(updated);
  }

  /** `delete_student` as written: `db.delete(db_student)` with the
      `attendances` relationship declared without a delete cascade
      (`models.py`:17), so on commit the ORM sets `student_id` of the
      student's attendance records to `NULL`, which the `NOT NULL` column
      (`models.py`:26) refuses; the error escapes the handler as a 500. The
      delete goes through only for a student without records. */
  function AfterDeleteAsWritten(students: seq<Student>, records: seq<Attendance>, key: int): (r: Result<seq<Student>>)
    ensures r.Err? && r.status == 404 <==> forall j :: 0 <= j < |students| ==> students[j].id != key
    ensures r.Err? ==> r == Err(404, "Student not found") || r == Err(500, "Internal Server Error")
    ensures r == Err(500, "Internal Server Error") <==>
      (exists j :: 0 <= j < |students| && students[j].id == key) && (exists a :: a in records && a.studentId == key)
    ensures r.Ok? ==> |r.value| == |students| - 1
  {
    match StudentIndex(students, key)
    case None => Err(404, "Student not found")
    case Some(i) =>
      if exists a :: a in records && a.studentId == key then Err(500, "Internal Server Error")
      else Ok(RemoveAt(students, i))
  }

  /** A student who has ever been marked cannot be deleted as written. */
  lemma DeleteAsWrittenFailsWithRecords()
    ensures AfterDeleteAsWritten([Student(1, "S001", "Ann", "ann@example.org", None)],
                                 [Attendance(1, 1, Some(0), None, "present")], 1)
         == Err(500, "Internal Server Error")
  {
    var a := Attendance(1, 1, Some(0), None, "present");
    assert a in [a];
  }

  /** Both tables after a delete. */
  datatype DeleteStep = DeleteStep(students: seq<Student>, attendances: seq<Attendance>)

  /** `delete_student` as evidently intended: the student goes, and so do
      their attendance records (a delete cascade); 404 for an unknown key. */
  function AfterDelete(students: seq<Student>, records: seq<Attendance>, key: int): (r: Result<DeleteStep>)
    ensures r.Err? <==> forall j :: 0 <= j < |students| ==> students[j].id != key
    ensures r.Err? ==> r == Err(404, "Student not found")
    ensures r.Ok? ==> |r.value.students| == |students| - 1
    ensures r.Ok? ==> forall a :: a in r.value.attendances <==> a in records && a.studentId != key
  {
    match StudentIndex(students, key)
    case None => Err(404, "Student not found")
    case Some(i) => Ok(DeleteStep(RemoveAt(students, i), RecordsNotOf(records, key)))
  }

  /** Every attendance record belongs to a student in the table. */
  ghost predicate RecordsReferToStudents(students: seq<Student>, records: seq<Attendance>)
  {
    forall a :: a in records ==> exists s :: s in students && s.id == a.studentId
  }

  /** With distinct keys, a delete removes exactly the student with that key
      and their records, keeps primary keys valid in both tables, and leaves
      no record pointing at a missing student. */
  lemma DeleteRemovesExactly(students: seq<Student>, records: seq<Attendance>, next: int, nextRecord: int, key: int)
    requires StudentKeysValid(students, next) && AttendanceKeysValid(records, nextRecord)
    requires AfterDelete(students, records, key).Ok?
    ensures forall s :: s in AfterDelete(students, records, key).value.students <==> s in students && s.id != key
    ensures StudentKeysValid(AfterDelete(students, records, key).value.students, next)
    ensures AttendanceKeysValid(AfterDelete(students, records, key).value.attendances, nextRecord)
    ensures RecordsReferToStudents(students, records) ==>
      RecordsReferToStudents(AfterDelete(students, records, key).value.students, AfterDelete(students, records, key).value.attendances)
  {
    var i := StudentIndex(students, key).value;
    RemoveAtByKey(students, i, (s: Student) => s.id, key);
    var r := RemoveAt(students, i);
    forall p, q | 0 <= p < q < |r| ensures r[p].id != r[q].id {
      var p' := if p < i then p else p + 1;
      var q' := if q < i then q else q + 1;
      assert r[p] == students[p'] && r[q] == students[q'] && p' < q';
    }
    RecordsNotOfKeepsKeys(records, nextRecord, key);
    if RecordsReferToStudents(students, records) {
      var kept := RecordsNotOf(records, key);
      forall a | a in kept ensures exists s :: s in r && s.id == a.studentId {
        var s :| s in students && s.id == a.studentId;
        assert s in r;
      }
    }
  }

  /** For a student without records the code as written and the cascade
      agree: the same student table, and no record is touched. */
  lemma DeleteAgreesWithoutRecords(students: seq<Student>, records: seq<Attendance>, key: int)
    requires forall j :: 0 <= j < |records| ==> records[j].studentId != key
    ensures AfterDeleteAsWritten(students, records, key).Ok? == AfterDelete(students, records, key).Ok?
    ensures AfterDelete(students, records, key).Ok? ==>
      && AfterDeleteAsWritten(students, records, key).value == AfterDelete(students, records, key).value.students
      && AfterDelete(students, records, key).value.attendances == records
  {
    FilterKeepsAll(records, (a: Attendance) => a.studentId != key);
  }

  /** `delete_student` with the cascade: remove the fetched student and their
      attendance records. */
  method DeleteStudent(db: Database, key: int) returns (r: Result<()>)
    requires db.Valid()
    modifies db
    ensures db.Valid()
    ensures db.nextStudentKey == old(db.nextStudentKey) && db.nextAttendanceKey == old(db.nextAttendanceKey)
    ensures r.Err? ==> r == Err(404, "Student not found") && db.students == old(db.students) && db.attendances == old(db.attendances)
    ensures AfterDelete(old(db.students), old(db.attendances), key).Ok? == r.Ok?
    ensures r.Ok? ==> DeleteStep(db.students, db.attendances) == AfterDelete(old(db.students), old(db.attendances), key).value
  {
    var found := StudentIndex(db.students, key);
    if found.None? {
      return Err(404, "Student not found");
    }
    DeleteRemovesExactly(db.students, db.attendances, db.nextStudentKey, db.nextAttendanceKey, key);
    db.students := RemoveAt(db.students, found.value);
    db.attendances := RecordsNotOf(db.attendances, key);
    r := Ok(());
  }
}
