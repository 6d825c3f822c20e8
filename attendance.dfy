/**
 * The attendance API: time comparison and classification, the ledger query,
 * the scan intake pipeline, record correction and the cutoff update.
 * Each state-changing request is a decision function over the current state
 * (what the handler answers) and a method on the shared Store that applies it.
 */
module Attendance {
  import opened Options
  import opened Seqs
  import opened Clock
  import opened Data

  // ---------------------------------------------------------------------------
  // Time comparison and classification

  /** Negative, zero or positive as `a` is before, equal to or after `b`, in minutes. */
  function CompareTime(a: string, b: string): (c: int)
    requires IsHHMM(a) && IsHHMM(b)
    ensures c < 0 <==> MinutesOf(a) < MinutesOf(b)
    ensures c == 0 <==> MinutesOf(a) == MinutesOf(b)
    ensures c > 0 <==> MinutesOf(b) < MinutesOf(a)
  {
    MinutesOf(a) - MinutesOf(b)
  }

  /** Swapping the arguments negates the comparison; a time equals itself. */
  lemma CompareTimeAntisymmetric(a: string, b: string)
    requires IsHHMM(a) && IsHHMM(b)
    ensures CompareTime(a, b) == -CompareTime(b, a)
    ensures CompareTime(a, a) == 0
  {
  }

  /**
   * On valid clock readings the comparison is the lexicographic order on
   * (hour, minute), and it is zero only for the same text.
   */
  lemma CompareTimeIsClockOrder(a: string, b: string)
    requires IsClockTime(a) && IsClockTime(b)
    ensures CompareTime(a, b) < 0 <==> HourOf(a) < HourOf(b) || (HourOf(a) == HourOf(b) && MinuteOf(a) < MinuteOf(b))
    ensures CompareTime(a, b) == 0 <==> a == b
  {
    if CompareTime(a, b) == 0 {
      MinutesDetermineText(a, b);
    }
  }

  /**
   * The bucket of a scan at `time` for the cutoffs: Absent strictly after
   * `absentAfter`, otherwise Late strictly after `lateAfter`, otherwise Present.
   */
  function DetermineStatus(time: string, lateAfter: string, absentAfter: string): (st: Status)
    requires IsHHMM(time) && IsHHMM(lateAfter) && IsHHMM(absentAfter)
    ensures st == Absent <==> MinutesOf(time) > MinutesOf(absentAfter)
    ensures st == Late <==> MinutesOf(lateAfter) < MinutesOf(time) <= MinutesOf(absentAfter)
    ensures st == Present <==> MinutesOf(time) <= MinutesOf(lateAfter) && MinutesOf(time) <= MinutesOf(absentAfter)
  {
    if CompareTime(time, absentAfter) > 0 then Absent
    else if CompareTime(time, lateAfter) > 0 then Late
    else Present
  }

  /** A later scan never lands in an earlier bucket. */
  lemma DetermineStatusMonotone(t1: string, t2: string, lateAfter: string, absentAfter: string)
    requires IsHHMM(t1) && IsHHMM(t2) && IsHHMM(lateAfter) && IsHHMM(absentAfter)
    requires MinutesOf(t1) <= MinutesOf(t2)
    ensures Severity(DetermineStatus(t1, lateAfter, absentAfter)) <= Severity(DetermineStatus(t2, lateAfter, absentAfter))
  {
  }

  /** With ordered cutoffs the classifier implements the documented threshold rule. */
  lemma DetermineStatusFollowsDocumentedRule(time: string, lateAfter: string, absentAfter: string)
    requires IsHHMM(time) && CutoffsOrdered(lateAfter, absentAfter)
    ensures DetermineStatus(time, lateAfter, absentAfter)
         == DocumentedStatus(Some(MinutesOf(time)), MinutesOf(lateAfter), MinutesOf(absentAfter))
  {
  }

  /** The default cutoffs at work, ties included. */
  lemma DefaultCutoffScenario()
    ensures DetermineStatus("06:55", DefaultLateAfter, DefaultAbsentAfter) == Present
    ensures DetermineStatus("07:00", DefaultLateAfter, DefaultAbsentAfter) == Present
    ensures DetermineStatus("08:15", DefaultLateAfter, DefaultAbsentAfter) == Late
    ensures DetermineStatus("12:30", DefaultLateAfter, DefaultAbsentAfter) == Late
    ensures DetermineStatus("12:31", DefaultLateAfter, DefaultAbsentAfter) == Absent
  {
  }

  // ---------------------------------------------------------------------------
  // GET: list records, filtered by class, date and student ("" = no filter)

  datatype RecordQuery = RecordQuery(className: string, date: string, studentId: string)

  predicate MatchesQuery(r: AttendanceRecord, q: RecordQuery)
  {
    (q.className == "" || r.className == q.className)
    && (q.date == "" || r.date == q.date)
    && (q.studentId == "" || r.studentId == q.studentId)
  }

  function ByClass(records: seq<AttendanceRecord>, c: string): seq<AttendanceRecord>
  {
    if c == "" then records else Filter(records, (r: AttendanceRecord) => r.className == c)
  }

  function ByDate(records: seq<AttendanceRecord>, d: string): seq<AttendanceRecord>
  {
    if d == "" then records else Filter(records, (r: AttendanceRecord) => r.date == d)
  }

  function ByStudent(records: seq<AttendanceRecord>, id: string): seq<AttendanceRecord>
  {
    if id == "" then records else Filter(records, (r: AttendanceRecord) => r.studentId == id)
  }

  /** The records matching every given filter; the response's count is its length. */
  function ListRecords(records: seq<AttendanceRecord>, q: RecordQuery): (r: seq<AttendanceRecord>)
    ensures |r| <= |records|
    ensures forall x :: x in r <==> x in records && MatchesQuery(x, q)
  {
    ByStudent(ByDate(ByClass(records, q.className), q.date), q.studentId)
  }

  /** The query keeps ledger order: records appended later are listed later. */
  lemma ListRecordsKeepsLedgerOrder(a: seq<AttendanceRecord>, b: seq<AttendanceRecord>, q: RecordQuery)
    ensures ListRecords(a + b, q) == ListRecords(a, q) + ListRecords(b, q)
  {
    if q.className != "" { FilterAppend(a, b, (r: AttendanceRecord) => r.className == q.className); }
    var a1, b1 := ByClass(a, q.className), ByClass(b, q.className);
    if q.date != "" { FilterAppend(a1, b1, (r: AttendanceRecord) => r.date == q.date); }
    var a2, b2 := ByDate(a1, q.date), ByDate(b1, q.date);
    if q.studentId != "" { FilterAppend(a2, b2, (r: AttendanceRecord) => r.studentId == q.studentId); }
  }

  // ---------------------------------------------------------------------------
  // POST: the scan intake pipeline

  datatype Led = Red | Yellow | Green

  /** The four terminal outcomes of a scan, plus the missing-tag request error. */
  datatype ScanOutcome =
    | TagMissing
    | UnknownTag
    | CardInactive(studentName: string)
    | AlreadyScanned(studentName: string, existing: AttendanceRecord)
    | Recorded(record: AttendanceRecord)
  {
    function HttpStatus(): nat
    {
      match this
      case TagMissing => 400
      case UnknownTag => 404
      case CardInactive(_) => 403
      case AlreadyScanned(_, _) => 200
      case Recorded(_) => 200
    }

    function Light(): Option<Led>
    {
      match this
      case TagMissing => None
      case UnknownTag => Some(Red)
      case CardInactive(_) => Some(Red)
      case AlreadyScanned(_, _) => Some(Yellow)
      case Recorded(_) => Some(Green)
    }

    function Buzzer(): bool
    {
      Recorded?
    }
  }

  /** The record a successful scan appends for student `s`. */
  function ScanRecord(s: Student, id: string, rfidTag: string, date: string, time: string, status: Status): (r: AttendanceRecord)
    ensures r.id == id && r.rfidTag == rfidTag && r.date == date && r.time == time && r.status == status
    ensures r.studentId == s.studentId && r.studentName == s.name && r.className == s.className
    ensures r.correctedBy.None? && r.absentReason.None? && r.teacherNote.None?
  {
    AttendanceRecord(id, s.studentId, s.name, s.className, date, time, status, rfidTag, None, None, None)
  }

  /**
   * The answer to a scan of `rfidTag` at `date` / `time`: the tag must be given,
   * held by a student whose card is active, and that student must have no record
   * for the day yet; only then is the scan classified and a record built.
   */
  function Intake(students: seq<Student>, records: seq<AttendanceRecord>, lateAfter: string, absentAfter: string,
                  rfidTag: string, date: string, time: string, freshId: string): (out: ScanOutcome)
    requires IsHHMM(time) && IsHHMM(lateAfter) && IsHHMM(absentAfter)
    ensures out.TagMissing? <==> rfidTag == ""
    ensures out.UnknownTag? <==> rfidTag != "" && forall s :: s in students ==> s.rfidTag != rfidTag
    ensures out.CardInactive? || out.AlreadyScanned? || out.Recorded? ==> FindTag(students, rfidTag).Some?
    ensures out.CardInactive? ==>
      var s := students[FindTag(students, rfidTag).value];
      s.rfidStatus == Inactive && out.studentName == s.name
    ensures out.AlreadyScanned? ==>
      var s := students[FindTag(students, rfidTag).value];
      && s.rfidStatus == Active && out.studentName == s.name
      && out.existing in records && out.existing.studentId == s.studentId && out.existing.date == date
      && FindDay(records, s.studentId, date).Some? && out.existing == records[FindDay(records, s.studentId, date).value]
    ensures out.Recorded? ==>
      var s := students[FindTag(students, rfidTag).value];
      && s.rfidStatus == Active
      && out.record == ScanRecord(s, freshId, rfidTag, date, time, DetermineStatus(time, lateAfter, absentAfter))
    ensures out.Recorded? ==> forall x :: x in records ==> x.studentId != out.record.studentId || x.date != date
  {
    if rfidTag == "" then TagMissing
    else match FindTag(students, rfidTag)
      case None => UnknownTag
      case Some(k) =>
        var s := students[k];
        if s.rfidStatus == Inactive then CardInactive(s.name)
        else match FindDay(records, s.studentId, date)
          case Some(j) => AlreadyScanned(s.name, records[j])
          case None => Recorded(ScanRecord(s, freshId, rfidTag, date, time, DetermineStatus(time, lateAfter, absentAfter)))
  }

  /**
   * With tags held by one student each, the outcome for that student's tag is
   * decided by their card status and the ledger, in that order.
   */
  lemma IntakeDecisionTable(students: seq<Student>, records: seq<AttendanceRecord>, lateAfter: string, absentAfter: string,
                            date: string, time: string, freshId: string, k: nat)
    requires IsHHMM(time) && IsHHMM(lateAfter) && IsHHMM(absentAfter)
    requires TagsDistinct(students) && k < |students| && students[k].rfidTag != ""
    ensures var s := students[k];
            var out := Intake(students, records, lateAfter, absentAfter, s.rfidTag, date, time, freshId);
            && (out.CardInactive? <==> s.rfidStatus == Inactive)
            && (out.AlreadyScanned? <==>
                  s.rfidStatus == Active
                  && exists j :: 0 <= j < |records| && records[j].studentId == s.studentId && records[j].date == date)
            && (out.Recorded? <==>
                  s.rfidStatus == Active
                  && forall j :: 0 <= j < |records| ==> records[j].studentId != s.studentId || records[j].date != date)
            && (out.Recorded? ==>
                  out.record == ScanRecord(s, freshId, s.rfidTag, date, time, DetermineStatus(time, lateAfter, absentAfter)))
  {
    FindTagUnique(students, k);
  }

  /** A recorded scan keeps the ledger at one record per student and day. */
  lemma RecordedKeepsKeysUnique(students: seq<Student>, records: seq<AttendanceRecord>, lateAfter: string, absentAfter: string,
                                rfidTag: string, date: string, time: string, freshId: string)
    requires IsHHMM(time) && IsHHMM(lateAfter) && IsHHMM(absentAfter)
    requires KeysUnique(records)
    requires Intake(students, records, lateAfter, absentAfter, rfidTag, date, time, freshId).Recorded?
    ensures KeysUnique(records + [Intake(students, records, lateAfter, absentAfter, rfidTag, date, time, freshId).record])
  {
    var rec := Intake(students, records, lateAfter, absentAfter, rfidTag, date, time, freshId).record;
    var rs := records + [rec];
    forall i, j | 0 <= i < j < |rs|
      ensures rs[i].studentId != rs[j].studentId || rs[i].date != rs[j].date
    {
      if j == |records| {
        assert rs[i] in records;
      }
    }
  }

  /**
   * Idempotency gate: after a scan is recorded, a second scan of the same tag on
   * the same day, at any time, with any cutoffs, answers AlreadyScanned with the
   * first record and records nothing.
   */
  lemma SecondScanSameDay(students: seq<Student>, records: seq<AttendanceRecord>,
                          l1: string, a1: string, t1: string, id1: string,
                          l2: string, a2: string, t2: string, id2: string,
                          rfidTag: string, date: string)
    requires IsHHMM(t1) && IsHHMM(l1) && IsHHMM(a1) && IsHHMM(t2) && IsHHMM(l2) && IsHHMM(a2)
    requires Intake(students, records, l1, a1, rfidTag, date, t1, id1).Recorded?
    ensures var first := Intake(students, records, l1, a1, rfidTag, date, t1, id1).record;
            var second := Intake(students, records + [first], l2, a2, rfidTag, date, t2, id2);
            second.AlreadyScanned? && second.existing == first
  {
    var first := Intake(students, records, l1, a1, rfidTag, date, t1, id1).record;
    var rs := records + [first];
    var k := FindTag(students, rfidTag).value;
    assert rs[|records|] == first;
    var j := FindDay(rs, students[k].studentId, date);
    assert j.Some?;
  }

  /** POST /api/attendance on the shared store; the wall clock arrives as `date`, `hour` and `minute`. */
  method Scan(store: Store, rfidTag: string, date: string, hour: nat, minute: nat, freshId: string)
    returns (out: ScanOutcome)
    requires store.Valid() && hour < 24 && minute < 60
    modifies store
    ensures store.Valid()
    ensures out == Intake(old(store.students), old(store.records), old(store.lateAfter), old(store.absentAfter),
                          rfidTag, date, Hhmm(hour, minute), freshId)
    ensures store.records == if out.Recorded? then old(store.records) + [out.record] else old(store.records)
    ensures store.students == old(store.students)
    ensures store.lateAfter == old(store.lateAfter) && store.absentAfter == old(store.absentAfter)
  {
    var time := Hhmm(hour, minute);
    out := Intake(store.students, store.records, store.lateAfter, store.absentAfter, rfidTag, date, time, freshId);
    if out.Recorded? {
      RecordedKeepsKeysUnique(store.students, store.records, store.lateAfter, store.absentAfter, rfidTag, date, time, freshId);
      store.records := store.records + [out.record];
    }
  }

  // ---------------------------------------------------------------------------
  // PATCH: correct one record

  /** The request body: `id` ("" when missing) and the optional fields, None when undefined. */
  datatype Correction = Correction(
    id: string,
    status: Option<string>,
    correctedBy: Option<string>,
    absentReason: Option<string>,
    teacherNote: Option<string>)

  datatype CorrectionOutcome =
    | IdMissing
    | RecordNotFound
    | InvalidStatus
    | Corrected(index: nat, record: AttendanceRecord)
  {
    function HttpStatus(): nat
    {
      match this
      case IdMissing => 400
      case RecordNotFound => 404
      case InvalidStatus => 400
      case Corrected(_, _) => 200
    }
  }

  function StatusName(st: Status): string
  {
    match st
    case Present => "present"
    case Late => "late"
    case Absent => "absent"
  }

  /** The status named by `s`, if it is one of the three valid names. */
  function ParseStatus(s: string): (r: Option<Status>)
    ensures r.Some? <==> s == "present" || s == "absent" || s == "late"
    ensures r.Some? ==> StatusName(r.value) == s
  {
    if s == "present" then Some(Present)
    else if s == "absent" then Some(Absent)
    else if s == "late" then Some(Late)
    else None
  }

  /** Every status survives printing and parsing. */
  lemma StatusNameRoundTrip(st: Status)
    ensures ParseStatus(StatusName(st)) == Some(st)
  {
  }

  /** The actor recorded with a status change: the given label, or "Teacher" when it is missing or empty. */
  function Actor(correctedBy: Option<string>): (a: string)
    ensures a != ""
    ensures correctedBy.Some? && correctedBy.value != "" ==> a == correctedBy.value
    ensures correctedBy.None? || correctedBy.value == "" ==> a == "Teacher"
  {
    if correctedBy.Some? && correctedBy.value != "" then correctedBy.value else "Teacher"
  }

  /** `r` with the fields of `c` merged in; `st` is the parsed status when one was given. */
  function Merge(r: AttendanceRecord, c: Correction, st: Status): (m: AttendanceRecord)
    ensures m.(status := r.status, correctedBy := r.correctedBy, absentReason := r.absentReason, teacherNote := r.teacherNote) == r
    ensures c.status.Some? ==> m.status == st && m.correctedBy == Some(Actor(c.correctedBy))
    ensures c.status.None? ==> m.status == r.status && m.correctedBy == r.correctedBy
    ensures m.absentReason == if c.absentReason.Some? then c.absentReason else r.absentReason
    ensures m.teacherNote == if c.teacherNote.Some? then c.teacherNote else r.teacherNote
  {
    var r1 := if c.status.Some? then r.(status := st, correctedBy := Some(Actor(c.correctedBy))) else r;
    var r2 := if c.absentReason.Some? then r1.(absentReason := c.absentReason) else r1;
    if c.teacherNote.Some? then r2.(teacherNote := c.teacherNote) else r2
  }

  /** The answer to a correction request: validation first, then the merged record for the first record with that id. */
  function Correct(records: seq<AttendanceRecord>, c: Correction): (out: CorrectionOutcome)
    ensures out.IdMissing? <==> c.id == ""
    ensures out.RecordNotFound? <==> c.id != "" && forall x :: x in records ==> x.id != c.id
    ensures out.InvalidStatus? <==>
      c.id != "" && (exists x :: x in records && x.id == c.id) && c.status.Some? && ParseStatus(c.status.value).None?
    ensures out.Corrected? ==>
      out.index < |records| && records[out.index].id == c.id
      && forall j :: 0 <= j < out.index ==> records[j].id != c.id
    ensures out.Corrected? ==>
      var was, now := records[out.index], out.record;
      && now.(status := was.status, correctedBy := was.correctedBy,
              absentReason := was.absentReason, teacherNote := was.teacherNote) == was
      && (c.status.Some? ==> StatusName(now.status) == c.status.value && now.correctedBy == Some(Actor(c.correctedBy)))
      && (c.status.None? ==> now.status == was.status && now.correctedBy == was.correctedBy)
      && now.absentReason == (if c.absentReason.Some? then c.absentReason else was.absentReason)
      && now.teacherNote == (if c.teacherNote.Some? then c.teacherNote else was.teacherNote)
  {
    if c.id == "" then IdMissing
    else match FindRecord(records, c.id)
      case None => RecordNotFound
      case Some(i) =>
        if c.status.Some? && ParseStatus(c.status.value).None? then InvalidStatus
        else
          var st := if c.status.Some? then ParseStatus(c.status.value).value else records[i].status;
          Corrected(i, Merge(records[i], c, st))
  }

  /** A request carrying only the id succeeds and leaves the record as it was. */
  lemma IdOnlyCorrectionChangesNothing(records: seq<AttendanceRecord>, k: nat)
    requires k < |records| && records[k].id != ""
    ensures var out := Correct(records, Correction(records[k].id, None, None, None, None));
            out.Corrected? && out.record == records[out.index]
  {
    assert records[k] in records;
  }

  /**
   * Correcting a record to "absent" and then giving a reason: the student's
   * record for that day carries both.
   */
  lemma CorrectThenGiveReason(records: seq<AttendanceRecord>, k: nat, reason: string)
    requires KeysUnique(records) && k < |records| && records[k].id != ""
    requires forall j :: 0 <= j < k ==> records[j].id != records[k].id
    ensures var id := records[k].id;
            var first := Correct(records, Correction(id, Some("absent"), None, None, None));
            first.Corrected? &&
            var rs1 := records[first.index := first.record];
            var second := Correct(rs1, Correction(id, None, None, Some(reason), None));
            second.Corrected? &&
            var rs2 := rs1[second.index := second.record];
            var d := FindDay(rs2, records[k].studentId, records[k].date);
            d.Some? && rs2[d.value].status == Absent && rs2[d.value].absentReason == Some(reason)
            && rs2[d.value].correctedBy == Some("Teacher")
  {
    var id := records[k].id;
    assert records[k] in records;
    var first := Correct(records, Correction(id, Some("absent"), None, None, None));
    var i := first.index;
    var rs1 := records[i := first.record];
    assert rs1[i].id == id;
    assert rs1[i] in rs1;
    var second := Correct(rs1, Correction(id, None, None, Some(reason), None));
    assert second.index == i;
    var rs2 := rs1[i := second.record];
    assert KeysUnique(rs2) by {
      forall a, b | 0 <= a < b < |rs2|
        ensures rs2[a].studentId != rs2[b].studentId || rs2[a].date != rs2[b].date
      {
        assert rs2[a].studentId == records[a].studentId && rs2[a].date == records[a].date;
        assert rs2[b].studentId == records[b].studentId && rs2[b].date == records[b].date;
      }
    }
    FindDayUnique(rs2, i);
    FindDayUnique(records, i);
    FindDayUnique(records, k);
  }

  /** PATCH /api/attendance on the shared store: only the found record is replaced. */
  method CorrectRecord(store: Store, c: Correction) returns (out: CorrectionOutcome)
    requires store.Valid()
    modifies store
    ensures store.Valid()
    ensures out == Correct(old(store.records), c)
    ensures store.records == if out.Corrected? then old(store.records)[out.index := out.record] else old(store.records)
    ensures store.students == old(store.students)
    ensures store.lateAfter == old(store.lateAfter) && store.absentAfter == old(store.absentAfter)
  {
    out := Correct(store.records, c);
    if out.Corrected? {
      ghost var rs := store.records;
      store.records := store.records[out.index := out.record];
      assert forall i :: 0 <= i < |rs| ==>
        store.records[i].studentId == rs[i].studentId && store.records[i].date == rs[i].date;
    }
  }

  // ---------------------------------------------------------------------------
  // PUT: update the cutoffs

  datatype SettingsOutcome =
    | FieldsMissing
    | BadTimeFormat
    | BadOrdering
    | CutoffsSaved(lateAfter: string, absentAfter: string)
  {
    function HttpStatus(): nat
    {
      if CutoffsSaved? then 200 else 400
    }
  }

  /**
   * The answer to a cutoff update: both given ("" when missing or empty), both
   * "HH:MM", and `lateAfter` strictly earlier.
   */
  function CheckCutoffs(lateAfter: string, absentAfter: string): (out: SettingsOutcome)
    ensures out.FieldsMissing? <==> lateAfter == "" || absentAfter == ""
    ensures out.BadTimeFormat? <==>
      lateAfter != "" && absentAfter != "" && (!IsHHMM(lateAfter) || !IsHHMM(absentAfter))
    ensures out.BadOrdering? <==>
      IsHHMM(lateAfter) && IsHHMM(absentAfter) && MinutesOf(lateAfter) >= MinutesOf(absentAfter)
    ensures out.CutoffsSaved? ==>
      out.lateAfter == lateAfter && out.absentAfter == absentAfter && CutoffsOrdered(lateAfter, absentAfter)
  {
    if lateAfter == "" || absentAfter == "" then FieldsMissing
    else if !IsHHMM(lateAfter) || !IsHHMM(absentAfter) then BadTimeFormat
    else if CompareTime(lateAfter, absentAfter) >= 0 then BadOrdering
    else CutoffsSaved(lateAfter, absentAfter)
  }

  /** Reversed cutoffs are refused. */
  lemma ReversedCutoffsRefused()
    ensures CheckCutoffs("09:00", "08:00") == BadOrdering
    ensures CheckCutoffs("9:00", "10:00") == BadTimeFormat
  {
  }

  /** PUT /api/attendance on the shared store: both cutoffs change together or neither does. */
  method UpdateSettings(store: Store, lateAfter: string, absentAfter: string)
    returns (out: SettingsOutcome)
    requires store.Valid()
    modifies store
    ensures store.Valid()
    ensures out == CheckCutoffs(lateAfter, absentAfter)
    ensures out.CutoffsSaved? ==> store.lateAfter == out.lateAfter && store.absentAfter == out.absentAfter
    ensures !out.CutoffsSaved? ==> store.lateAfter == old(store.lateAfter) && store.absentAfter == old(store.absentAfter)
    ensures store.students == old(store.students) && store.records == old(store.records)
  {
    out := CheckCutoffs(lateAfter, absentAfter);
    if out.CutoffsSaved? {
      store.lateAfter := out.lateAfter;
      store.absentAfter := out.absentAfter;
    }
  }
}
