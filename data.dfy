/**
 * The shared in-memory store of the attendance system: the record types,
 * the default cutoffs, the seed roster and ledger, the invariants the
 * handlers keep, and the process-wide store object they all mutate.
 */
module Data {
  import opened Options
  import opened Seqs
  import opened Clock

  datatype CardStatus = Active | Inactive

  datatype Status = Present | Late | Absent

  /** A student and the RFID credential they carry (`class` is spelt `className`). */
  datatype Student = Student(
    id: string,
    name: string,
    studentId: string,
    className: string,
    rfidTag: string,
    rfidStatus: CardStatus,
    parentEmail: string,
    parentName: string)

  /** One ledger entry. `time` is "HH:MM", or "" when no scan was made. */
  datatype AttendanceRecord = AttendanceRecord(
    id: string,
    studentId: string,
    studentName: string,
    className: string,
    date: string,
    time: string,
    status: Status,
    rfidTag: string,
    correctedBy: Option<string>,
    absentReason: Option<string>,
    teacherNote: Option<string>)

  /** Ranks the buckets in the order a later scan moves through them. */
  function Severity(st: Status): nat
  {
    match st
    case Present => 0
    case Late => 1
    case Absent => 2
  }

  /**
   * The threshold rule documented with the settings type: a scan at or before
   * `lateAfter` is Present, after it and at or before `absentAfter` Late, and a
   * scan after `absentAfter`, or no scan at all, Absent. Times are minute counts.
   */
  function DocumentedStatus(scan: Option<nat>, lateAfter: nat, absentAfter: nat): (st: Status)
    ensures st == Present <==> scan.Some? && scan.value <= lateAfter
    ensures st == Late <==> scan.Some? && lateAfter < scan.value <= absentAfter
    ensures st == Absent <==> scan.None? || (lateAfter < scan.value && absentAfter < scan.value)
  {
    match scan
    case None => Absent
    case Some(t) => if t <= lateAfter then Present else if t <= absentAfter then Late else Absent
  }

  // ---------------------------------------------------------------------------
  // Invariants of the shared arrays and settings

  /** No two students hold the same RFID tag. */
  predicate TagsDistinct(students: seq<Student>)
  {
    forall i, j :: 0 <= i < j < |students| ==> students[i].rfidTag != students[j].rfidTag
  }

  predicate StudentIdsDistinct(students: seq<Student>)
  {
    forall i, j :: 0 <= i < j < |students| ==> students[i].studentId != students[j].studentId
  }

  /** At most one record per (studentId, date). */
  predicate KeysUnique(records: seq<AttendanceRecord>)
  {
    forall i, j :: 0 <= i < j < |records| ==>
      records[i].studentId != records[j].studentId || records[i].date != records[j].date
  }

  predicate RecordIdsDistinct(records: seq<AttendanceRecord>)
  {
    forall i, j :: 0 <= i < j < |records| ==> records[i].id != records[j].id
  }

  /** Both cutoffs are well-formed and `lateAfter` is strictly earlier. */
  predicate CutoffsOrdered(lateAfter: string, absentAfter: string)
  {
    IsHHMM(lateAfter) && IsHHMM(absentAfter) && MinutesOf(lateAfter) < MinutesOf(absentAfter)
  }

  // ---------------------------------------------------------------------------
  // Lookups over the shared arrays (`find` / `findIndex`)

  /** Index of the first student holding `tag`. */
  function FindTag(students: seq<Student>, tag: string): (r: Option<nat>)
    ensures r.Some? ==> r.value < |students| && students[r.value].rfidTag == tag
    ensures r.Some? ==> forall j :: 0 <= j < r.value ==> students[j].rfidTag != tag
    ensures r.None? <==> forall j :: 0 <= j < |students| ==> students[j].rfidTag != tag
  {
    FindFirst(students, (s: Student) => s.rfidTag == tag)
  }

  /** Index of the first student with student number `studentId`. */
  function FindStudent(students: seq<Student>, studentId: string): (r: Option<nat>)
    ensures r.Some? ==> r.value < |students| && students[r.value].studentId == studentId
    ensures r.Some? ==> forall j :: 0 <= j < r.value ==> students[j].studentId != studentId
    ensures r.None? <==> forall j :: 0 <= j < |students| ==> students[j].studentId != studentId
  {
    FindFirst(students, (s: Student) => s.studentId == studentId)
  }

  /** Index of the first record with identifier `id`. */
  function FindRecord(records: seq<AttendanceRecord>, id: string): (r: Option<nat>)
    ensures r.Some? ==> r.value < |records| && records[r.value].id == id
    ensures r.Some? ==> forall j :: 0 <= j < r.value ==> records[j].id != id
    ensures r.None? <==> forall j :: 0 <= j < |records| ==> records[j].id != id
  {
    FindFirst(records, (x: AttendanceRecord) => x.id == id)
  }

  /** Index of the first record of student `studentId` on `date`. */
  function FindDay(records: seq<AttendanceRecord>, studentId: string, date: string): (r: Option<nat>)
    ensures r.Some? ==> r.value < |records| && records[r.value].studentId == studentId && records[r.value].date == date
    ensures r.Some? ==> forall j :: 0 <= j < r.value ==> records[j].studentId != studentId || records[j].date != date
    ensures r.None? <==> forall j :: 0 <= j < |records| ==> records[j].studentId != studentId || records[j].date != date
  {
    FindFirst(records, (x: AttendanceRecord) => x.studentId == studentId && x.date == date)
  }

  /** When tags are distinct, the student found for a tag is the only one holding it. */
  lemma FindTagUnique(students: seq<Student>, k: nat)
    requires TagsDistinct(students) && k < |students|
    ensures FindTag(students, students[k].rfidTag) == Some(k)
  {
  }

  /** When keys are unique, the record found for a key is the only one with it. */
  lemma FindDayUnique(records: seq<AttendanceRecord>, k: nat)
    requires KeysUnique(records) && k < |records|
    ensures FindDay(records, records[k].studentId, records[k].date) == Some(k)
  {
  }

  // ---------------------------------------------------------------------------
  // Tallies (`filter(...).length`)

  /** The selection `r => r.status === st`. */
  function WithStatus(st: Status): AttendanceRecord -> bool
  {
    (r: AttendanceRecord) => r.status == st
  }

  /** The number of records with status `st`: the length of their `filter`. */
  function CountStatus(records: seq<AttendanceRecord>, st: Status): (n: nat)
    ensures n <= |records|
    ensures n == |Filter(records, WithStatus(st))|
    decreases |records|
  {
    if records == [] then 0
    else (if records[0].status == st then 1 else 0) + CountStatus(records[1..], st)
  }

  /** Every record falls in exactly one of the three buckets. */
  lemma {:induction false} StatusCountsAddUp(records: seq<AttendanceRecord>)
    ensures CountStatus(records, Present) + CountStatus(records, Late) + CountStatus(records, Absent) == |records|
    decreases |records|
  {
    if records != [] {
      StatusCountsAddUp(records[1..]);
    }
  }

  // ---------------------------------------------------------------------------
  // Seed data

  const DefaultLateAfter: string := "07:00"
  const DefaultAbsentAfter: string := "12:30"

  const Classes: seq<string> := ["10A", "10B", "10C"]

  function SeedStudents(): seq<Student>
  {
    [ Student("s1", "Alice Johnson", "STU001", "10A", "RFID-A1B2C3", Active, "parent.alice@email.com", "Mr. Johnson"),
      Student("s2", "Bob Smith", "STU002", "10A", "RFID-D4E5F6", Active, "parent.bob@email.com", "Mrs. Smith"),
      Student("s3", "Carol White", "STU003", "10B", "RFID-G7H8I9", Inactive, "parent.carol@email.com", "Mr. White"),
      Student("s4", "David Brown", "STU004", "10B", "RFID-J1K2L3", Active, "parent.david@email.com", "Mrs. Brown"),
      Student("s5", "Emma Davis", "STU005", "10A", "RFID-M4N5O6", Active, "parent.emma@email.com", "Mr. Davis"),
      Student("s6", "Frank Wilson", "STU006", "10C", "RFID-P7Q8R9", Active, "parent.frank@email.com", "Mrs. Wilson") ]
  }

  function SeedRecords(): seq<AttendanceRecord>
  {
    [ AttendanceRecord("a1", "STU001", "Alice Johnson", "10A", "2026-02-25", "06:55", Present, "RFID-A1B2C3", None, None, None),
      AttendanceRecord("a2", "STU002", "Bob Smith", "10A", "2026-02-25", "08:15", Late, "RFID-D4E5F6", None, None, None),
      AttendanceRecord("a3", "STU005", "Emma Davis", "10A", "2026-02-25", "", Absent, "RFID-M4N5O6",
                       None, Some("Sick with fever — will return tomorrow."), None),
      AttendanceRecord("a4", "STU004", "David Brown", "10B", "2026-02-25", "06:58", Present, "RFID-J1K2L3", None, None, None),
      AttendanceRecord("a5", "STU001", "Alice Johnson", "10A", "2026-02-24", "07:01", Present, "RFID-A1B2C3", None, None, None),
      AttendanceRecord("a6", "STU002", "Bob Smith", "10A", "2026-02-24", "", Absent, "RFID-D4E5F6",
                       None, Some("Family emergency."), Some("Parent called in advance.")),
      AttendanceRecord("a7", "STU005", "Emma Davis", "10A", "2026-02-24", "07:05", Present, "RFID-M4N5O6", None, None, None),
      AttendanceRecord("a8", "STU006", "Frank Wilson", "10C", "2026-02-25", "07:00", Present, "RFID-P7Q8R9", None, None, None) ]
  }

  /** The default cutoffs are well-formed and ordered. */
  lemma DefaultCutoffsOrdered()
    ensures CutoffsOrdered(DefaultLateAfter, DefaultAbsentAfter)
    ensures MinutesOf(DefaultLateAfter) == 420 && MinutesOf(DefaultAbsentAfter) == 750
  {
  }

  /** The seed roster: distinct student numbers and tags, every class a known one. */
  lemma SeedRosterValid()
    ensures StudentIdsDistinct(SeedStudents()) && TagsDistinct(SeedStudents())
    ensures forall s :: s in SeedStudents() ==> s.className in Classes
  {
  }

  /** The seed ledger: one record per student and day, and record identifiers distinct. */
  lemma SeedLedgerValid()
    ensures KeysUnique(SeedRecords()) && RecordIdsDistinct(SeedRecords())
  {
    // Keys differ in the last digit of the student number or in the day;
    // identifiers differ in their digit.
    var rs := SeedRecords();
    var keys := [('1', '5'), ('2', '5'), ('5', '5'), ('4', '5'), ('1', '4'), ('2', '4'), ('5', '4'), ('6', '5')];
    var digits := "12345678";
    assert |rs| == 8;
    forall i | 0 <= i < 8
      ensures (rs[i].studentId[5], rs[i].date[9]) == keys[i] && rs[i].id[1] == digits[i]
    {
    }
    forall i, j | 0 <= i < j < 8
      ensures rs[i].studentId != rs[j].studentId || rs[i].date != rs[j].date
      ensures rs[i].id != rs[j].id
    {
      assert keys[i] != keys[j] && digits[i] != digits[j];
    }
  }

  /** Every seed record names a seed student and copies that student's name, class and tag. */
  lemma SeedRecordsReferenceStudents()
    ensures forall r :: r in SeedRecords() ==>
      exists s :: (s in SeedStudents() && s.studentId == r.studentId && s.name == r.studentName
                   && s.className == r.className && s.rfidTag == r.rfidTag)
  {
    var ss := SeedStudents();
    forall r | r in SeedRecords()
      ensures exists s :: (s in ss && s.studentId == r.studentId && s.name == r.studentName
                             && s.className == r.className && s.rfidTag == r.rfidTag)
    {
      if r.studentId == "STU001" { assert ss[0] in ss; }
      else if r.studentId == "STU002" { assert ss[1] in ss; }
      else if r.studentId == "STU004" { assert ss[3] in ss; }
      else if r.studentId == "STU005" { assert ss[4] in ss; }
      else { assert ss[5] in ss; }
    }
  }

  /** Seed records without a scan time are absences; reasons and notes occur only on absences. */
  lemma SeedAbsencesShape()
    ensures forall r :: r in SeedRecords() && r.time == "" ==> r.status == Absent
    ensures forall r :: r in SeedRecords() && (r.absentReason.Some? || r.teacherNote.Some?) ==> r.status == Absent
    ensures forall r :: r in SeedRecords() ==> r.time == "" || IsClockTime(r.time)
  {
  }

  // ---------------------------------------------------------------------------
  // The process-wide store: the exported `students` and `attendanceRecords`
  // arrays and the `attendanceSettings` object, which the handlers update in place.

  class Store {
    var students: seq<Student>
    var records: seq<AttendanceRecord>
    var lateAfter: string
    var absentAfter: string

    ghost predicate Valid()
      reads this
    {
      TagsDistinct(students) && KeysUnique(records) && CutoffsOrdered(lateAfter, absentAfter)
    }

    /** The store as the module initialises it. */
    constructor Seed()
      ensures Valid()
      ensures students == SeedStudents() && records == SeedRecords()
      ensures lateAfter == DefaultLateAfter && absentAfter == DefaultAbsentAfter
    {
      students := SeedStudents();
      records := SeedRecords();
      lateAfter := DefaultLateAfter;
      absentAfter := DefaultAbsentAfter;
      SeedRosterValid();
      SeedLedgerValid();
      DefaultCutoffsOrdered();
    }
  }
}
