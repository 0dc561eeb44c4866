# Face-recognition attendance tracker: a Dafny model

This project models the attendance tracker's decision logic and proves
properties of it. The face library itself is not modelled. What is modelled:

- **Marking attendance by face** (`routes/attendance.py`). The handler
  decodes the captured image. It scans the student table in order and skips
  students without a stored encoding. It resolves to the first student whose
  stored descriptor matches. That student then checks out, if they have an
  open record. Otherwise they check in with a fresh "present" record.
- **The stand-alone variant** (`main.py`). It ignores the image, always picks
  the first student, and counts a record as open when it is dated today
  rather than checked in since the start of today.
- **Record maintenance.** This covers creating students and registering a
  face for one, as the real handler and as `main.py`'s simulated one. It
  also covers lookup-or-404, partial updates of students and attendance
  records, and deletes. Deleting a student also deletes their attendance
  records; the code as written fails there instead (see "## Findings").
- **Listings and the daily report.** The attendance listing has optional
  day and student filters. The daily report is one row per student, in
  table order, with "absent" when the student has no record that day.
- **Data URIs** (`static/js/webcam.js` and the server's `split(',')[1]`).
  The model covers the payload and MIME-type splits and the byte buffer
  `dataURItoBlob` fills. It also covers the camera helper's option
  defaults and its streaming state.

Modules:

- `Common` holds `Option`/`Result`, day arithmetic, and first-match,
  filter and remove-at on sequences.
- `Text` holds `split` on one character, with its inverse `Join`.
- `DataUri` holds the data-URI fields.
- `Tables` holds both tables and the in-place `Database`. It also has the
  check-in/check-out transition both versions share, the report and the
  listing filter.
- `AttendanceRoutes`, `StudentRoutes`, `MainApp` and `WebcamClient` follow
  the four source files.

Each state-changing handler is a module-level method that takes the
`Database` object as a parameter `db` and changes its fields in place. Only
the camera helper's operations are methods of a class, `Webcam`. A method's
`ensures` ties the new state to a function of the old state. The properties
are then proved as lemmas about that function.

The library calls are fields of the `Library` datatype, passed in as
parameters and total:

- `base64.b64decode`
- `encode_face`
- `compare_faces`
- `json.loads`
- `json.dumps`
- `strptime` with `%Y-%m-%d`

A call that raises is `None`. The face service's own handlers turn its
failures into `None`/`False`. Times are integers (seconds) and days are
integers (`DayOf(t) = t / 86400`). "Now" and "today" are parameters.

A third mark of the same student on the same day opens a fresh record. The
code does this: once the second mark has set `check_out`, the open-record
query finds nothing and the handler checks in again. The model follows the
code (`Tables.CheckInThenOutThenInAgain`, `AttendanceRoutes.MarkAgainSameDay`).

## Model

| member | source | states |
|---|---|---|
| DataUri.PayloadPresence | routes/attendance.py:27 | `split(',')[1]` exists exactly when the URI has a comma, and it contains no comma |
| DataUri.MimeTypePresence | static/js/webcam.js:123 | the MIME type exists exactly when the header before the first comma has a ':'; it contains no ',', ':' or ';' |
| DataUri.PayloadBetweenCommas | static/js/webcam.js:120 | the payload is the text between the first comma and the next comma (or the end) |
| DataUri.MimeTypeBetween | static/js/webcam.js:123 | the MIME type is the header text between the first ':' and the following ';' |
| DataUri.MakeRoundTrip | static/js/webcam.js:118-123 | both splits recover the MIME type and payload of a `data:<mime>;base64,<payload>` URI |
| Tables.CaptureFace | routes/attendance.py:27-35 | an image without a comma is undecodable (the `IndexError` path) |
| Tables.CheckInOrOut | routes/attendance.py:50-84 | the mark is a check-in exactly when the student has no open record; a check-in appends one record and advances the key, a check-out keeps length and key |
| Tables.CheckOutFrame | routes/attendance.py:60-69 | a check-out sets only the first open record's `check_out` to now; every other record is unchanged |
| Tables.CheckInOrOutKeepsKeys | routes/attendance.py:72-78 | primary keys stay distinct and below the sequence |
| Tables.CheckInOrOutKeepsOneOpen | routes/attendance.py:52-84 | no student ever gets a second open record |
| Tables.CheckInOrOutOpenRecords | routes/attendance.py:52-84 | after a check-out the student has no open record; after a check-in within the day, exactly the new one |
| Tables.CheckInThenOutThenInAgain | routes/attendance.py:50-84 | check-in, then check-out of that same record, then a fresh check-in |
| Tables.OpenRulesAgree | routes/attendance.py:52-56 | `check_in >= today` and `date(check_in) == today` agree for check-ins no later than now on today |
| Tables.CheckInOrOutRulesAgree | main.py:122-126 | hence both versions' open-record queries make the same transition |
| Tables.OneOpenPersists | routes/attendance.py:51-56 | the one-open invariant under `check_in >= today` survives the passing of days |
| Tables.RecordMark | routes/attendance.py:58-84 | the in-place check-out or `db.add` makes exactly the transition `CheckInOrOut` describes |
| Tables.RowForAbsent | routes/attendance.py:174-186 | a student with no record that day is "absent" with null times |
| Tables.RowForPresent | routes/attendance.py:174-186 | otherwise the row carries the first such record's status and times |
| Tables.BuildReport | routes/attendance.py:168-188 | one row per student, in table order, each the student's report row |
| Tables.RecordsNotOfKeepsKeys | routes/student.py:120-121 | dropping one student's records keeps the remaining records' keys distinct and below the sequence |
| Tables.ListRecords | routes/attendance.py:106-118 | a record is listed exactly when it satisfies both optional filters |
| Tables.ListRecordsUnfiltered | routes/attendance.py:106-119 | with no filter the listing is the whole table, in order |
| AttendanceRoutes.ScanFrom | routes/attendance.py:41-49 | a match found is a student whose stored descriptor the comparison accepts |
| AttendanceRoutes.ScanFromMatched | routes/attendance.py:41-49 | the scan from a position matches student k exactly when k accepts and every student before passes |
| AttendanceRoutes.ScanFromNoMatch | routes/attendance.py:41-49 | the scan finds no one exactly when every student from that position passes |
| AttendanceRoutes.ScanFromError | routes/attendance.py:45-46 | the scan raises exactly when an unparsable stored encoding comes before any match |
| AttendanceRoutes.ScanFindsFirstMatch | routes/attendance.py:40-49 | the resolved student is the first in table order whose descriptor matches, empty encodings skipped |
| AttendanceRoutes.ScanFindsNoOne | routes/attendance.py:86-90 | no one is recognised exactly when every student is skipped or rejected |
| AttendanceRoutes.ScanIgnoresLaterStudents | routes/attendance.py:41-49 | students after the resolved one are never examined |
| AttendanceRoutes.Mark | routes/attendance.py:19-97 | a failed mark leaves the table unchanged; undecodable image fails, no face gives "No face detected"; success needs a face and a student |
| AttendanceRoutes.MarkResolvesFirstMatch | routes/attendance.py:40-84 | the mark makes the first matching student's check-in or check-out |
| AttendanceRoutes.MarkNotRecognized | routes/attendance.py:86-90 | an unmatched face gives "not recognized" with the table unchanged |
| AttendanceRoutes.MarkFailsOnMalformed | routes/attendance.py:41-97 | a malformed stored encoding met before a match fails the mark, table unchanged |
| AttendanceRoutes.MarkKeepsInvariants | routes/attendance.py:52-84 | marking keeps keys valid and at most one open record per student |
| AttendanceRoutes.MarkAgainSameDay | routes/attendance.py:50-84 | the same captured image marked again closes the record the first mark opened; a third mark opens another |
| AttendanceRoutes.MarkAttendance | routes/attendance.py:19-97 | the loop with early return and the in-place update compute `Mark`; the student table and its key sequence stay as they were |
| AttendanceRoutes.ListAttendance | routes/attendance.py:99-119 | 400 exactly for a non-empty unparsable date; otherwise the records on that day and of that student (when non-zero) |
| AttendanceRoutes.GetAttendance | routes/attendance.py:121-127 | the record with that key, 404 exactly when there is none |
| AttendanceRoutes.ApplyUpdate | routes/attendance.py:140-143 | `status` and `check_out` change only when given; key, student and check-in never change |
| AttendanceRoutes.AfterUpdate | routes/attendance.py:129-147 | 404 exactly for an unknown key; the table keeps its length |
| AttendanceRoutes.UpdateChangesOnlyThatRecord | routes/attendance.py:136-143 | only the record with that key changes |
| AttendanceRoutes.UpdateKeepsKeys | routes/attendance.py:129-147 | updates keep primary keys valid |
| AttendanceRoutes.UpdateKeepsOneOpen | routes/attendance.py:142-143 | updates never give a student a second open record |
| AttendanceRoutes.UpdateAttendance | routes/attendance.py:129-147 | the in-place assignment computes `AfterUpdate` and returns the updated record |
| AttendanceRoutes.AfterDelete | routes/attendance.py:149-158 | 404 exactly for an unknown key; otherwise one record fewer |
| AttendanceRoutes.DeleteRemovesExactly | routes/attendance.py:149-158 | exactly the record with that key is removed |
| AttendanceRoutes.DeleteKeepsKeys | routes/attendance.py:149-158 | deletes keep primary keys valid |
| AttendanceRoutes.DeleteKeepsOneOpen | routes/attendance.py:149-158 | deletes never give a student a second open record |
| AttendanceRoutes.DeleteAttendance | routes/attendance.py:149-158 | the in-place delete computes `AfterDelete` |
| AttendanceRoutes.GetDailyReport | routes/attendance.py:160-188 | 400 for an unparsable date; otherwise one report row per student, in order |
| StudentRoutes.CreateStudent | routes/student.py:19-35 | appends exactly the four given fields under the next key |
| StudentRoutes.GetStudent | routes/student.py:80-86 | the student with that key, 404 exactly when there is none |
| StudentRoutes.AfterRegister | routes/student.py:37-72 | 404 exactly for an unknown key (checked first); a failure leaves the table unchanged; 500 for an undecodable image, 400 for no face |
| StudentRoutes.RegisterOverwritesOnlyEncoding | routes/student.py:60-66 | success overwrites only that student's encoding, with the JSON of the descriptor |
| StudentRoutes.RegisterKeepsKeys | routes/student.py:60-62 | registration keeps primary keys valid |
| StudentRoutes.RegisterFace | routes/student.py:37-72 | the in-place assignment computes `AfterRegister` |
| StudentRoutes.ApplyStudentUpdate | routes/student.py:99-107 | each of the four fields changes only when given; the key never changes |
| StudentRoutes.StudentUpdateLaws | routes/student.py:99-107 | an empty update changes nothing; updates are idempotent |
| StudentRoutes.AfterUpdate | routes/student.py:88-111 | 404 exactly for an unknown key |
| StudentRoutes.UpdateChangesOnlyThatStudent | routes/student.py:95-107 | only the student with that key changes, and keys stay valid |
| StudentRoutes.UpdateStudent | routes/student.py:88-111 | the in-place assignment computes `AfterUpdate` and returns the updated student |
| StudentRoutes.AfterDeleteAsWritten | routes/student.py:113-122 | as written: 404 exactly for an unknown key; 500 exactly when that student has attendance records; otherwise one student fewer |
| StudentRoutes.DeleteAsWrittenFailsWithRecords | routes/student.py:120-121 | deleting a student who has a record fails with 500 |
| StudentRoutes.AfterDelete | routes/student.py:113-122 | with the cascade: 404 exactly for an unknown key; otherwise one student fewer, and exactly the records of other students are kept |
| StudentRoutes.DeleteRemovesExactly | routes/student.py:113-122 | exactly that student and their records go; keys stay valid in both tables, and every remaining record still belongs to a student |
| StudentRoutes.DeleteAgreesWithoutRecords | routes/student.py:113-122 | for a student without records the code as written and the cascade give the same student table and touch no record |
| StudentRoutes.DeleteStudent | routes/student.py:113-122 | the in-place delete computes `AfterDelete`; a 404 changes nothing and both key sequences stay as they were |
| MainApp.AfterMarkFirst | main.py:103-152 | with no students the result is "No students registered yet" and nothing changes; otherwise the first student checks in or out |
| MainApp.MarkFirstKeepsInvariants | main.py:122-152 | keys stay valid and no student gets a second record open today |
| MainApp.MarkFirstAgreesWithRoutes | main.py:111-126 | when the first student's descriptor accepts the face, the stand-in makes the face-recognising handler's transition |
| MainApp.MarkAttendance | main.py:103-152 | the in-place handler computes `AfterMarkFirst`; the student table and its key sequence stay as they were |
| MainApp.MockDescriptor | main.py:90 | 128 zeros |
| MainApp.AfterRegisterMock | main.py:79-100 | 404 exactly for a missing or unknown key, with the table unchanged; otherwise registered |
| MainApp.RegisterMockOverwritesOnlyEncoding | main.py:90-97 | only that student's encoding changes, to the JSON of 128 zeros whatever the image |
| MainApp.RegisterFace | main.py:79-100 | the in-place assignment computes `AfterRegisterMock` |
| MainApp.ListAttendance | main.py:154-175 | 400 exactly for a non-empty unparsable date; otherwise the records on that day and of that student |
| MainApp.ListingsAgree | main.py:160-175 | without a student filter both versions list the same records |
| MainApp.GetDailyReport | main.py:193-227 | 400 for a missing or unparsable date; otherwise one report row per student, in order |
| WebcamClient.NumberOr | static/js/webcam.js:11-12 | a width or height falls back exactly when absent or zero |
| WebcamClient.TextOr | static/js/webcam.js:13-14 | a facing mode or format falls back exactly when absent or empty |
| WebcamClient.FractionOr | static/js/webcam.js:15 | the quality falls back exactly when absent or zero |
| WebcamClient.ResolveOptionsSettles | static/js/webcam.js:10-16 | resolved settings are never falsy, and resolving them again changes nothing |
| WebcamClient.GivenSettingsKept | static/js/webcam.js:10-16 | settings given in full are kept exactly when none is falsy |
| WebcamClient.Webcam.constructor | static/js/webcam.js:5-24 | defaults applied; no stream and not streaming |
| WebcamClient.Webcam.Stop | static/js/webcam.js:75-82 | no-op without a stream; otherwise its tracks stop, and stream, source and streaming flag are cleared |
| WebcamClient.Webcam.RequestStream | static/js/webcam.js:30-40 | rejects without `getUserMedia`; otherwise stops any held stream first; the settings and the canvas size never change |
| WebcamClient.Webcam.StreamGranted | static/js/webcam.js:54-56 | the stream is held and shown, not yet streaming |
| WebcamClient.Webcam.MetadataLoaded | static/js/webcam.js:59-63 | from the metadata event on, the helper streams |
| WebcamClient.Webcam.TakePicture | static/js/webcam.js:88-111 | `null` whenever not streaming or a dimension is zero, with nothing changed; otherwise the canvas takes the video's size and the frame is encoded with the configured format and quality |
| WebcamClient.StopThenTakePicture | static/js/webcam.js:75-92 | after `stop`, `takePicture` returns `null` |
| WebcamClient.Latin1Bytes | static/js/webcam.js:126-132 | the buffer has the decoded length, and byte i is character i's code modulo 256 |
| WebcamClient.Latin1RoundTrip | static/js/webcam.js:130-132 | for `atob` output (codes below 256) byte i equals the char code of character i exactly |
| WebcamClient.Latin1RoundTripBytes | static/js/webcam.js:130-132 | every byte buffer survives the trip through text |
| WebcamClient.PayloadText | static/js/webcam.js:120 | `atob` gets the second comma field, or "undefined" when there is no comma |
| WebcamClient.BlobType | static/js/webcam.js:135 | the `Blob` keeps the empty type when any character lies outside U+0020 to U+007E, else the type in ASCII lower case |
| WebcamClient.BlobTypeLaws | static/js/webcam.js:135 | the normalisation is idempotent and keeps a printable lower-case type as it is |
| WebcamClient.BlobOf | static/js/webcam.js:118-136 | a blob exactly when `atob` accepts the payload and the header has a ':' |
| WebcamClient.BlobOfMadeUri | static/js/webcam.js:118-136 | a canvas-made URI converts to its decoded payload under its MIME type as the `Blob` normalises it, which is the MIME type itself when printable and lower case |
| WebcamClient.DataUriToBlob | static/js/webcam.js:118-136 | the loop over a fresh byte array computes `BlobOf` (type normalised by `BlobType`), with the decoded length |

## Findings

| source | as written | input that shows it | evidently intended | confidence | as-written member | corrected member |
|---|---|---|---|---|---|---|
| routes/student.py:120-121 (with models.py:17, 26) | `db.delete(db_student)` on a relationship with no delete cascade makes the ORM set the records' `student_id` to NULL on commit; the column is NOT NULL, so the commit raises and the request fails with 500 | a student with key 1 and one attendance record with `student_id` 1, deleted by key 1 | the student is deleted together with their attendance records, and no record is left pointing at a missing student | not executed; medium (depends on the ORM's default relationship cascade) | StudentRoutes.DeleteAsWrittenFailsWithRecords | StudentRoutes.DeleteRemovesExactly |

## Left out

- Face detection, encoding and comparison are left out. They are floating-point library code, including the 0.6 tolerance. They are parameters of `Library`, and the model takes them as total.
- `base64.b64decode`, `atob`, `json.loads`/`json.dumps` and `strptime` are left out. They are library calls, so they are parameters.
- SQLAlchemy sessions, `commit`/`refresh`, transactions and `created_at`/`updated_at` are left out. The tables are sequences, and a commit is taken to succeed. The one exception is the student delete under "## Findings", whose failing commit `StudentRoutes.AfterDeleteAsWritten` models.
- The database's uniqueness of `student_id` and `email` is not modelled (models.py:10, 12), so `CreateStudent` and `UpdateStudent` never fail on a duplicate.
- StudentRoutes.DeleteStudent: the ORM's handling of the relationship on commit, setting the records' `student_id` to NULL, is not modelled step by step. `AfterDeleteAsWritten` models only its outcome, a 500. `DeleteStudent` follows the corrected cascade.
- The clock and time zones are left out. `datetime.now()`, `pytz.UTC`, the local `today` and `db.func.date` become the integer parameters `now` and `today`. `DayOf` is the one calendar.
- Tables.MarkOutcome.Message: an exception's own text, which the source appends to "Error processing attendance: ", is not modelled.
- MainApp.ListAttendance: the database's comparison of the `student_id` query text with the integer column is the parameter `toKey`. Text that is not a number matches no row.
- `main.py`'s page routes, `app.run`, both `get_all_students`, `main.py`'s `create_student` and the JSON shapes of the responses are left out. They are plumbing or plain reads.
- `static/js/face_capture.js` and `static/js/attendance.js` are left out. They are DOM and `fetch` code.
- WebcamClient.Webcam.RequestStream: the `getUserMedia` promise is split into `RequestStream`, `StreamGranted` and `MetadataLoaded`, which the browser's event loop calls in that order. A rejected promise is the absence of `StreamGranted`. The video and canvas elements are reduced to the video's source and the canvas size.
- WebcamClient.ToByte: JavaScript's `charCodeAt` gives UTF-16 code units, and Dafny's `char` is a Unicode scalar value. They coincide below 256, which is all `atob` produces.
- WebcamClient.NumberOr: JavaScript's `NaN`, `null` and non-number option values are not modelled. A number option is an optional integer.
