/**
 * The teacher portal: the class/date view of the ledger, the students still
 * without a record, status counts, and the three edits the page makes to its
 * own copy of the records (save a correction, save a note, mark absent).
 */
module Teacher {
  import opened Options
  import opened Seqs
  import opened Text
  import opened Data

  // ---------------------------------------------------------------------------
  // Views

  /** `filteredRecords`: the records of the selected class and date. */
  function FilteredRecords(records: seq<AttendanceRecord>, cls: string, date: string): (r: seq<AttendanceRecord>)
    ensures |r| <= |records|
    ensures forall x :: x in r <==> x in records && x.className == cls && x.date == date
  {
    Filter(records, (x: AttendanceRecord) => x.className == cls && x.date == date)
  }

  /** The view keeps the order of the records: a record appended later is listed later. */
  lemma FilteredRecordsKeepOrder(a: seq<AttendanceRecord>, b: seq<AttendanceRecord>, cls: string, date: string)
    ensures FilteredRecords(a + b, cls, date) == FilteredRecords(a, cls, date) + FilteredRecords(b, cls, date)
  {
    FilterAppend(a, b, (x: AttendanceRecord) => x.className == cls && x.date == date);
  }

  /** `recordedStudentIds`: the student numbers of a list of records. */
  function StudentIds(records: seq<AttendanceRecord>): (ids: seq<string>)
    ensures |ids| == |records|
    ensures forall i :: 0 <= i < |records| ==> ids[i] == records[i].studentId
  {
    seq(|records|, i requires 0 <= i < |records| => records[i].studentId)
  }

  /** `unrecordedStudents`: the students of the class with no record in the view. */
  function UnrecordedStudents(roster: seq<Student>, records: seq<AttendanceRecord>, cls: string, date: string): (r: seq<Student>)
    ensures |r| <= |roster|
    ensures forall s :: s in r <==>
      s in roster && s.className == cls
      && forall x :: x in records && x.className == cls && x.date == date ==> x.studentId != s.studentId
  {
    var ids := StudentIds(FilteredRecords(records, cls, date));
    var r := Filter(Filter(roster, (s: Student) => s.className == cls), (s: Student) => s.studentId !in ids);
    assert forall id :: id in ids <==>
      exists x :: x in records && x.className == cls && x.date == date && x.studentId == id by {
      var fr := FilteredRecords(records, cls, date);
      forall id | id in ids
        ensures exists x :: x in records && x.className == cls && x.date == date && x.studentId == id
      {
        var i :| 0 <= i < |ids| && ids[i] == id;
        assert fr[i] in fr;
      }
      forall id, x | x in records && x.className == cls && x.date == date && x.studentId == id
        ensures id in ids
      {
        var i :| 0 <= i < |fr| && fr[i] == x;
        assert ids[i] == id;
      }
    }
    r
  }

  /** The list keeps roster order and holds each unrecorded student of the class once. */
  lemma UnrecordedKeepsRosterOrder(a: seq<Student>, b: seq<Student>, records: seq<AttendanceRecord>, cls: string, date: string)
    ensures UnrecordedStudents(a + b, records, cls, date)
         == UnrecordedStudents(a, records, cls, date) + UnrecordedStudents(b, records, cls, date)
  {
    var ids := StudentIds(FilteredRecords(records, cls, date));
    FilterAppend(a, b, (s: Student) => s.className == cls);
    FilterAppend(Filter(a, (s: Student) => s.className == cls), Filter(b, (s: Student) => s.className == cls),
                 (s: Student) => s.studentId !in ids);
  }

  /** `presentCount + lateCount + absentCount` is the size of the view. */
  lemma {:induction false} ViewCountsAddUp(records: seq<AttendanceRecord>, cls: string, date: string)
    ensures var view := FilteredRecords(records, cls, date);
            CountStatus(view, Present) + CountStatus(view, Late) + CountStatus(view, Absent) == |view|
  {
    StatusCountsAddUp(FilteredRecords(records, cls, date));
  }

  // ---------------------------------------------------------------------------
  // Record identifiers made by the page: "a" followed by a counter from 100

  const FirstCounter: nat := 100

  /** `a${n.toString()}` */
  function GeneratedId(n: nat): (id: string)
    ensures |id| >= 2 && id[0] == 'a' && id[1..] == Decimal(n)
    ensures FirstCounter <= n ==> |id| >= 4
  {
    DecimalLength(n);
    "a" + Decimal(n)
  }

  /** Different counter values give different identifiers. */
  lemma GeneratedIdsDistinct(m: nat, n: nat)
    requires m != n
    ensures GeneratedId(m) != GeneratedId(n)
  {
    if GeneratedId(m) == GeneratedId(n) {
      assert Decimal(m) == GeneratedId(m)[1..];
      DecimalInjective(m, n);
    }
  }

  /** No record carries an identifier the counter will still produce. */
  ghost predicate IdsBelow(records: seq<AttendanceRecord>, counter: nat)
  {
    forall i, k: nat :: 0 <= i < |records| && counter <= k ==> records[i].id != GeneratedId(k)
  }

  /** Every record of a student carries that student's class. */
  predicate ClassConsistent(records: seq<AttendanceRecord>, roster: seq<Student>)
  {
    forall i, j :: 0 <= i < |records| && 0 <= j < |roster| && records[i].studentId == roster[j].studentId ==>
      records[i].className == roster[j].className
  }

  /** The seed ledger fits the page: distinct ids below the counter, one record a day, classes as in the roster. */
  lemma SeedFitsPage()
    ensures RecordIdsDistinct(SeedRecords()) && IdsBelow(SeedRecords(), FirstCounter)
    ensures KeysUnique(SeedRecords()) && ClassConsistent(SeedRecords(), SeedStudents())
  {
    SeedLedgerValid();
    var rs := SeedRecords();
    forall i, k: nat | 0 <= i < |rs| && FirstCounter <= k
      ensures rs[i].id != GeneratedId(k)
    {
      DecimalLength(k);
      assert |rs[i].id| == 2;
    }
  }

  // ---------------------------------------------------------------------------
  // Edits

  /**
   * A teacher's saved edit: the chosen status and "Teacher" as actor; a blank
   * draft keeps the old note, any other draft replaces it by its trimmed text.
   */
  function SavedEdit(r: AttendanceRecord, editStatus: Status, editNote: string): (e: AttendanceRecord)
    ensures e.(status := r.status, correctedBy := r.correctedBy, teacherNote := r.teacherNote) == r
    ensures e.status == editStatus && e.correctedBy == Some("Teacher")
    ensures AllSpace(editNote) ==> e.teacherNote == r.teacherNote
    ensures !AllSpace(editNote) ==> e.teacherNote == Some(Trim(editNote)) && Trim(editNote) != ""
  {
    TrimEmptyIffBlank(editNote);
    var note := Trim(editNote);
    r.(status := editStatus, correctedBy := Some("Teacher"), teacherNote := if note != "" then Some(note) else r.teacherNote)
  }

  /** The record the page adds when a student is marked absent. */
  function AbsentRecord(id: string, roster: seq<Student>, studentId: string, studentName: string, cls: string, date: string)
    : (r: AttendanceRecord)
    ensures r.time == "" && r.status == Absent && r.className == cls && r.date == date
    ensures r.studentId == studentId && r.studentName == studentName && r.id == id
    ensures r.rfidTag == match FindStudent(roster, studentId) case Some(k) => roster[k].rfidTag case None => ""
    ensures r.correctedBy.None? && r.absentReason.None? && r.teacherNote.None?
  {
    var tag := match FindStudent(roster, studentId) case Some(k) => roster[k].rfidTag case None => "";
    AttendanceRecord(id, studentId, studentName, cls, date, "", Absent, tag, None, None, None)
  }

  /**
   * Marking an unrecorded student absent keeps one record per student and day,
   * keeps classes consistent, and takes the student off the unrecorded list.
   */
  lemma MarkAbsentOfUnrecorded(roster: seq<Student>, records: seq<AttendanceRecord>, cls: string, date: string,
                               s: Student, id: string)
    requires KeysUnique(records) && ClassConsistent(records, roster) && StudentIdsDistinct(roster)
    requires s in UnrecordedStudents(roster, records, cls, date)
    ensures var rs := records + [AbsentRecord(id, roster, s.studentId, s.name, cls, date)];
            && KeysUnique(rs) && ClassConsistent(rs, roster)
            && forall t :: t in UnrecordedStudents(roster, rs, cls, date) ==> t.studentId != s.studentId
  {
    var rec := AbsentRecord(id, roster, s.studentId, s.name, cls, date);
    var rs := records + [rec];
    forall i, j | 0 <= i < j < |rs|
      ensures rs[i].studentId != rs[j].studentId || rs[i].date != rs[j].date
    {
      if j == |records| {
        assert rs[i] in records;
      }
    }
    forall i, j | 0 <= i < |rs| && 0 <= j < |roster| && rs[i].studentId == roster[j].studentId
      ensures rs[i].className == roster[j].className
    {
      if i == |records| {
        var k :| 0 <= k < |roster| && roster[k] == s;
        assert j == k;
      }
    }
    assert rec in rs;
  }

  class TeacherPage {
    var records: seq<AttendanceRecord>
    var counter: nat
    var selectedClass: string
    var selectedDate: string

    ghost predicate Valid()
      reads this
    {
      RecordIdsDistinct(records) && IdsBelow(records, counter)
    }

    /** The page as it mounts: a copy of the ledger, counter 100, class 10A on 2026-02-25. */
    constructor (initial: seq<AttendanceRecord>)
      requires RecordIdsDistinct(initial) && IdsBelow(initial, FirstCounter)
      ensures Valid()
      ensures records == initial && counter == FirstCounter
      ensures selectedClass == "10A" && selectedDate == "2026-02-25"
    {
      records := initial;
      counter := FirstCounter;
      selectedClass := "10A";
      selectedDate := "2026-02-25";
    }

    /** The class and date pickers. */
    method Select(cls: string, date: string)
      modifies this`selectedClass, this`selectedDate
      ensures selectedClass == cls && selectedDate == date
    {
      selectedClass, selectedDate := cls, date;
    }

    /** `handleSave`: every record with that id gets the edit; all others stay as they were. */
    method Save(id: string, editStatus: Status, editNote: string)
      requires Valid()
      modifies this`records
      ensures Valid()
      ensures |records| == |old(records)|
      ensures forall i :: 0 <= i < |records| ==>
        records[i] == if old(records)[i].id == id then SavedEdit(old(records)[i], editStatus, editNote) else old(records)[i]
    {
      var rs := records;
      records := seq(|rs|, i requires 0 <= i < |rs| => if rs[i].id == id then SavedEdit(rs[i], editStatus, editNote) else rs[i]);
    }

    /** `handleSaveNote`: the matching record's note becomes the trimmed draft, blank or not. */
    method SaveNote(id: string, noteDraft: string)
      requires Valid()
      modifies this`records
      ensures Valid()
      ensures |records| == |old(records)|
      ensures forall i :: 0 <= i < |records| ==>
        records[i] == if old(records)[i].id == id then old(records)[i].(teacherNote := Some(Trim(noteDraft))) else old(records)[i]
    {
      var rs := records;
      records := seq(|rs|, i requires 0 <= i < |rs| => if rs[i].id == id then rs[i].(teacherNote := Some(Trim(noteDraft))) else rs[i]);
    }

    /** `handleAddAbsent`: appends one absence with a fresh identifier and advances the counter. */
    method AddAbsent(roster: seq<Student>, studentId: string, studentName: string)
      requires Valid()
      modifies this`records, this`counter
      ensures Valid()
      ensures counter == old(counter) + 1
      ensures records == old(records)
        + [AbsentRecord(GeneratedId(old(counter)), roster, studentId, studentName, selectedClass, selectedDate)]
      ensures forall i :: 0 <= i < |old(records)| ==> old(records)[i].id != records[|records| - 1].id
    {
      var rec := AbsentRecord(GeneratedId(counter), roster, studentId, studentName, selectedClass, selectedDate);
      ghost var rs := records;
      records := records + [rec];
      forall k: nat | counter + 1 <= k
        ensures rec.id != GeneratedId(k)
      {
        GeneratedIdsDistinct(counter, k);
      }
      counter := counter + 1;
      assert forall i :: 0 <= i < |rs| ==> rs[i].id != rec.id;
    }
  }
}
