/**
 * The card API: listing credentials, activating or deactivating a card, and
 * registering a (new) tag for a student. The two updates are decision
 * functions plus methods that overwrite one student of the shared roster.
 */
module Cards {
  import opened Options
  import opened Seqs
  import opened Clock
  import opened Data
  import Attendance

  // ---------------------------------------------------------------------------
  // GET: list cards, filtered by status and exact tag

  /** The fields of a student that the card listing shows. */
  datatype CardView = CardView(studentId: string, studentName: string, className: string, rfidTag: string, rfidStatus: CardStatus)

  function View(s: Student): CardView
  {
    CardView(s.studentId, s.name, s.className, s.rfidTag, s.rfidStatus)
  }

  function StatusText(cs: CardStatus): string
  {
    if cs == Active then "active" else "inactive"
  }

  /** The status filter applies only to "active" and "inactive"; the tag filter only when a tag is given. */
  predicate CardMatches(s: Student, status: string, rfidTag: string)
  {
    ((status != "active" && status != "inactive") || StatusText(s.rfidStatus) == status)
    && (rfidTag == "" || s.rfidTag == rfidTag)
  }

  function Views(students: seq<Student>): (r: seq<CardView>)
    ensures |r| == |students| && forall i :: 0 <= i < |r| ==> r[i] == View(students[i])
  {
    seq(|students|, i requires 0 <= i < |students| => View(students[i]))
  }

  /** Projecting a concatenation is concatenating the projections. */
  lemma ViewsAppend(a: seq<Student>, b: seq<Student>)
    ensures Views(a + b) == Views(a) + Views(b)
  {
    assert forall i :: 0 <= i < |b| ==> (a + b)[|a| + i] == b[i];
  }

  /** The status filter, applied only for "active" and "inactive". */
  function ByStatus(students: seq<Student>, status: string): seq<Student>
  {
    if status == "active" || status == "inactive"
    then Filter(students, (s: Student) => StatusText(s.rfidStatus) == status) else students
  }

  /** The exact-tag filter, applied only when a tag is given. */
  function ByTag(students: seq<Student>, rfidTag: string): seq<Student>
  {
    if rfidTag != "" then Filter(students, (s: Student) => s.rfidTag == rfidTag) else students
  }

  /** The cards of the students matching the filters; the response's count is its length. */
  function ListCards(students: seq<Student>, status: string, rfidTag: string): (r: seq<CardView>)
    ensures |r| <= |students|
    ensures forall s :: s in students && CardMatches(s, status, rfidTag) ==> View(s) in r
    ensures forall c :: c in r ==> exists s :: s in students && CardMatches(s, status, rfidTag) && c == View(s)
  {
    var byTag := ByTag(ByStatus(students, status), rfidTag);
    var r := Views(byTag);
    assert forall s :: s in byTag <==> s in students && CardMatches(s, status, rfidTag);
    assert forall s :: s in byTag ==> View(s) in r by {
      forall s | s in byTag ensures View(s) in r {
        var i :| 0 <= i < |byTag| && byTag[i] == s;
        assert r[i] == View(s);
      }
    }
    forall c | c in r
      ensures exists s :: s in students && CardMatches(s, status, rfidTag) && c == View(s)
    {
      var i :| 0 <= i < |r| && r[i] == c;
      assert byTag[i] in byTag;
    }
    r
  }

  /**
   * The listing keeps roster order and lists each matching student once: the
   * listing of a concatenation is the concatenation of the listings.
   */
  lemma ListCardsKeepsRosterOrder(a: seq<Student>, b: seq<Student>, status: string, rfidTag: string)
    ensures ListCards(a + b, status, rfidTag) == ListCards(a, status, rfidTag) + ListCards(b, status, rfidTag)
  {
    if status == "active" || status == "inactive" {
      FilterAppend(a, b, (s: Student) => StatusText(s.rfidStatus) == status);
    }
    var a1, b1 := ByStatus(a, status), ByStatus(b, status);
    if rfidTag != "" {
      FilterAppend(a1, b1, (s: Student) => s.rfidTag == rfidTag);
    }
    ViewsAppend(ByTag(a1, rfidTag), ByTag(b1, rfidTag));
  }

  /** A single student is listed exactly when it matches. */
  lemma ListCardsOfOne(s: Student, status: string, rfidTag: string)
    ensures ListCards([s], status, rfidTag) == if CardMatches(s, status, rfidTag) then [View(s)] else []
  {
    var r := ListCards([s], status, rfidTag);
    if CardMatches(s, status, rfidTag) {
      assert View(s) in r;
    }
  }

  // ---------------------------------------------------------------------------
  // Outcomes of the two updates

  datatype CardOutcome =
    | FieldsMissing
    | InvalidAction
    | TagNotFound
    | TagInUse(holderName: string)
    | StudentNotFound
    | CardUpdated(index: nat, student: Student)
  {
    function HttpStatus(): nat
    {
      match this
      case FieldsMissing => 400
      case InvalidAction => 400
      case TagNotFound => 404
      case TagInUse(_) => 409
      case StudentNotFound => 404
      case CardUpdated(_, _) => 200
    }
  }

  // ---------------------------------------------------------------------------
  // PATCH: activate or deactivate a card

  /** The answer to an activate/deactivate request: the first holder of the tag gets the new status. */
  function Toggle(students: seq<Student>, rfidTag: string, action: string): (out: CardOutcome)
    ensures out.FieldsMissing? <==> rfidTag == "" || action == ""
    ensures out.InvalidAction? <==> rfidTag != "" && action != "" && action != "activate" && action != "deactivate"
    ensures out.TagNotFound? <==>
      rfidTag != "" && (action == "activate" || action == "deactivate")
      && forall k :: 0 <= k < |students| ==> students[k].rfidTag != rfidTag
    ensures !out.TagInUse? && !out.StudentNotFound?
    ensures out.CardUpdated? ==>
      out.index < |students| && students[out.index].rfidTag == rfidTag
      && (forall j :: 0 <= j < out.index ==> students[j].rfidTag != rfidTag)
      && out.student == students[out.index].(rfidStatus := if action == "activate" then Active else Inactive)
  {
    if rfidTag == "" || action == "" then FieldsMissing
    else if action != "activate" && action != "deactivate" then InvalidAction
    else match FindTag(students, rfidTag)
      case None => TagNotFound
      case Some(k) =>
        var newStatus := if action == "activate" then Active else Inactive;
        CardUpdated(k, students[k].(rfidStatus := newStatus))
  }

  /** Repeating an activate or deactivate gives the same answer and the same roster. */
  lemma ToggleIdempotent(students: seq<Student>, rfidTag: string, action: string)
    requires Toggle(students, rfidTag, action).CardUpdated?
    ensures var out := Toggle(students, rfidTag, action);
            var after := students[out.index := out.student];
            Toggle(after, rfidTag, action) == out && after[out.index := out.student] == after
  {
    var out := Toggle(students, rfidTag, action);
    var after := students[out.index := out.student];
    var again := FindTag(after, rfidTag);
    assert after[out.index].rfidTag == rfidTag;
    assert again == Some(out.index);
  }

  /** A deactivated card is refused at the scanner, and the ledger gains no record. */
  lemma DeactivatedCardRefused(students: seq<Student>, records: seq<AttendanceRecord>, lateAfter: string, absentAfter: string,
                               rfidTag: string, date: string, time: string, freshId: string)
    requires IsHHMM(time) && IsHHMM(lateAfter) && IsHHMM(absentAfter)
    requires Toggle(students, rfidTag, "deactivate").CardUpdated?
    ensures var out := Toggle(students, rfidTag, "deactivate");
            var scan := Attendance.Intake(students[out.index := out.student], records, lateAfter, absentAfter,
                                          rfidTag, date, time, freshId);
            scan == Attendance.CardInactive(students[out.index].name)
  {
    ToggleIdempotent(students, rfidTag, "deactivate");
  }

  /** PATCH /api/cards on the shared store: only the status of the found student changes. */
  method SetCardStatus(store: Store, rfidTag: string, action: string) returns (out: CardOutcome)
    requires store.Valid()
    modifies store
    ensures store.Valid()
    ensures out == Toggle(old(store.students), rfidTag, action)
    ensures store.students == if out.CardUpdated? then old(store.students)[out.index := out.student] else old(store.students)
    ensures store.records == old(store.records)
    ensures store.lateAfter == old(store.lateAfter) && store.absentAfter == old(store.absentAfter)
  {
    out := Toggle(store.students, rfidTag, action);
    if out.CardUpdated? {
      ghost var ss := store.students;
      store.students := store.students[out.index := out.student];
      assert forall i :: 0 <= i < |ss| ==> store.students[i].rfidTag == ss[i].rfidTag;
    }
  }

  // ---------------------------------------------------------------------------
  // POST: register a tag for a student

  /**
   * The answer to a registration: a tag held by anyone, active or not, is a
   * conflict (checked before the student is looked up); otherwise the first
   * student with that number gets the tag and an active card.
   */
  function Register(students: seq<Student>, studentId: string, rfidTag: string): (out: CardOutcome)
    ensures out.FieldsMissing? <==> studentId == "" || rfidTag == ""
    ensures out.TagInUse? <==>
      studentId != "" && rfidTag != "" && exists k :: 0 <= k < |students| && students[k].rfidTag == rfidTag
    ensures out.TagInUse? ==> out.holderName == students[FindTag(students, rfidTag).value].name
    ensures out.StudentNotFound? <==>
      studentId != "" && rfidTag != ""
      && (forall k :: 0 <= k < |students| ==> students[k].rfidTag != rfidTag)
      && (forall k :: 0 <= k < |students| ==> students[k].studentId != studentId)
    ensures !out.InvalidAction? && !out.TagNotFound?
    ensures out.CardUpdated? ==>
      out.index < |students| && students[out.index].studentId == studentId
      && (forall j :: 0 <= j < out.index ==> students[j].studentId != studentId)
      && (forall k :: 0 <= k < |students| ==> students[k].rfidTag != rfidTag)
      && out.student == students[out.index].(rfidTag := rfidTag, rfidStatus := Active)
  {
    if studentId == "" || rfidTag == "" then FieldsMissing
    else match FindTag(students, rfidTag)
      case Some(h) => TagInUse(students[h].name)
      case None =>
        match FindStudent(students, studentId)
        case None => StudentNotFound
        case Some(k) => CardUpdated(k, students[k].(rfidTag := rfidTag, rfidStatus := Active))
  }

  /** Registration keeps tags pairwise distinct. */
  lemma RegisterKeepsTagsDistinct(students: seq<Student>, studentId: string, rfidTag: string)
    requires TagsDistinct(students)
    requires Register(students, studentId, rfidTag).CardUpdated?
    ensures var out := Register(students, studentId, rfidTag);
            TagsDistinct(students[out.index := out.student])
  {
    var out := Register(students, studentId, rfidTag);
    var after := students[out.index := out.student];
    forall i, j | 0 <= i < j < |after|
      ensures after[i].rfidTag != after[j].rfidTag
    {
      if i == out.index {
        assert students[j].rfidTag != rfidTag;
      } else if j == out.index {
        assert students[i].rfidTag != rfidTag;
      }
    }
  }

  /** After a registration the tag resolves to the registered student, whose card is active. */
  lemma RegisterThenResolve(students: seq<Student>, studentId: string, rfidTag: string)
    requires Register(students, studentId, rfidTag).CardUpdated?
    ensures var out := Register(students, studentId, rfidTag);
            var after := students[out.index := out.student];
            FindTag(after, rfidTag) == Some(out.index)
            && after[out.index].studentId == studentId && after[out.index].rfidStatus == Active
  {
    var out := Register(students, studentId, rfidTag);
    var after := students[out.index := out.student];
    var r := FindTag(after, rfidTag);
    assert after[out.index].rfidTag == rfidTag;
  }

  /** POST /api/cards on the shared store: only the registered student's tag and status change. */
  method RegisterCard(store: Store, studentId: string, rfidTag: string) returns (out: CardOutcome)
    requires store.Valid()
    modifies store
    ensures store.Valid()
    ensures out == Register(old(store.students), studentId, rfidTag)
    ensures store.students == if out.CardUpdated? then old(store.students)[out.index := out.student] else old(store.students)
    ensures store.records == old(store.records)
    ensures store.lateAfter == old(store.lateAfter) && store.absentAfter == old(store.absentAfter)
  {
    out := Register(store.students, studentId, rfidTag);
    if out.CardUpdated? {
      RegisterKeepsTagsDistinct(store.students, studentId, rfidTag);
      store.students := store.students[out.index := out.student];
    }
  }
}
