/**
 * The admin dashboard: today's counts, card counts, the recent-scan list,
 * and the time-settings form, which writes the shared cutoffs directly.
 */
module Dashboard {
  import opened Seqs
  import opened Clock
  import opened Data
  import Attendance

  /** The ledger entries dated `today` (the current UTC date, passed in). */
  function TodayRecords(records: seq<AttendanceRecord>, today: string): (r: seq<AttendanceRecord>)
    ensures |r| <= |records|
    ensures forall x :: x in r <==> x in records && x.date == today
  {
    Filter(records, (x: AttendanceRecord) => x.date == today)
  }

  /** The selection keeps ledger order and holds each record dated today once. */
  lemma TodayRecordsKeepOrder(a: seq<AttendanceRecord>, b: seq<AttendanceRecord>, today: string)
    ensures TodayRecords(a + b, today) == TodayRecords(a, today) + TodayRecords(b, today)
  {
    FilterAppend(a, b, (x: AttendanceRecord) => x.date == today);
  }

  /** `presentToday + lateToday + absentToday` is the number of records dated today. */
  lemma {:induction false} TodayCountsAddUp(records: seq<AttendanceRecord>, today: string)
    ensures var t := TodayRecords(records, today);
            CountStatus(t, Present) + CountStatus(t, Late) + CountStatus(t, Absent) == |t|
  {
    StatusCountsAddUp(TodayRecords(records, today));
  }

  /** The selection `s => s.rfidStatus === cs`. */
  function WithCard(cs: CardStatus): Student -> bool
  {
    (s: Student) => s.rfidStatus == cs
  }

  /** The number of students whose card has status `cs`: the length of their `filter`. */
  function CountCards(students: seq<Student>, cs: CardStatus): (n: nat)
    ensures n <= |students|
    ensures n == |Filter(students, WithCard(cs))|
    decreases |students|
  {
    if students == [] then 0
    else (if students[0].rfidStatus == cs then 1 else 0) + CountCards(students[1..], cs)
  }

  /** `activeCards + inactiveCards` is the number of students: a card is one or the other. */
  lemma {:induction false} CardCountsAddUp(students: seq<Student>)
    ensures CountCards(students, Active) + CountCards(students, Inactive) == |students|
    decreases |students|
  {
    if students != [] {
      CardCountsAddUp(students[1..]);
    }
  }

  /** The selection `r => r.time !== ""`: the records that come from a scan. */
  function WithScan(): AttendanceRecord -> bool
  {
    (x: AttendanceRecord) => x.time != ""
  }

  /**
   * Up to five ledger entries that carry a scan time: five when there are at
   * least five, all of them otherwise, and never one more often than it occurs.
   */
  function RecentScans(records: seq<AttendanceRecord>): (r: seq<AttendanceRecord>)
    ensures |r| <= 5
    ensures forall x :: x in r ==> x in records && x.time != ""
    ensures |r| == 5 || forall x :: x in records && x.time != "" ==> x in r
    ensures |r| == if |Filter(records, WithScan())| <= 5 then |Filter(records, WithScan())| else 5
    ensures multiset(r) <= multiset(Filter(records, WithScan()))
  {
    var scanned := Filter(records, WithScan());
    if |scanned| <= 5 then scanned
    else
      assert scanned == scanned[..5] + scanned[5..];
      scanned[..5]
  }

  /**
   * `handleSaveSettings`: converts both times to minutes, refuses a `lateAfter`
   * that is not strictly earlier, and otherwise writes both cutoffs.
   */
  method SaveSettings(store: Store, lateAfter: string, absentAfter: string) returns (saved: bool)
    requires store.Valid() && IsHHMM(lateAfter) && IsHHMM(absentAfter)
    modifies store
    ensures store.Valid()
    ensures saved <==> MinutesOf(lateAfter) < MinutesOf(absentAfter)
    ensures saved ==> store.lateAfter == lateAfter && store.absentAfter == absentAfter
    ensures !saved ==> store.lateAfter == old(store.lateAfter) && store.absentAfter == old(store.absentAfter)
    ensures store.students == old(store.students) && store.records == old(store.records)
  {
    var lateMinutes := HourOf(lateAfter) * 60 + MinuteOf(lateAfter);
    var absentMinutes := HourOf(absentAfter) * 60 + MinuteOf(absentAfter);
    if lateMinutes >= absentMinutes {
      saved := false;
      return;
    }
    store.lateAfter := lateAfter;
    store.absentAfter := absentAfter;
    saved := true;
  }

  /** On well-formed input the form and the settings endpoint accept exactly the same cutoffs. */
  lemma FormAgreesWithEndpoint(lateAfter: string, absentAfter: string)
    requires IsHHMM(lateAfter) && IsHHMM(absentAfter)
    ensures Attendance.CheckCutoffs(lateAfter, absentAfter).CutoffsSaved?
        <==> MinutesOf(lateAfter) < MinutesOf(absentAfter)
  {
  }
}
