/** The enrollment ledger: the Enrollments table and the four operations of
    the enrollment service over it. */
module EnrollmentService {
  import opened Wrappers
  import opened Seqs
  import opened Models

  /** The table, in storage order, and the next value of its identity column. */
  datatype Ledger = Ledger(enrollments: seq<Enrollment>, nextId: int)

  /** An empty table whose identity column starts at 1. */
  function EmptyLedger(): Ledger
  {
    Ledger([], 1)
  }

  function IdOf(e: Enrollment): int { e.enrollmentId }
  function StudentOf(e: Enrollment): int { e.studentId }
  function StatusOf(e: Enrollment): string { e.status }
  function PairOf(e: Enrollment): (int, int) { (e.studentId, e.courseId) }

  /** The primary key holds: ids are distinct and below the next id. */
  ghost predicate WellFormed(l: Ledger)
  {
    DistinctKeys(l.enrollments, IdOf) && KeysBelow(l.enrollments, IdOf, l.nextId)
  }

  /** At most one enrollment per (student, course) pair. */
  ghost predicate UniquePairs(l: Ledger)
  {
    DistinctKeys(l.enrollments, PairOf)
  }

  /** Every stored status is Pending, Approved or Rejected. */
  ghost predicate ValidStatuses(l: Ledger)
  {
    forall i :: 0 <= i < |l.enrollments| ==> IsValidStatus(l.enrollments[i].status)
  }

  ghost predicate Valid(l: Ledger)
  {
    WellFormed(l) && UniquePairs(l) && ValidStatuses(l)
  }

  ghost predicate HasEnrollment(l: Ledger, enrollmentId: int)
  {
    exists i :: 0 <= i < |l.enrollments| && l.enrollments[i].enrollmentId == enrollmentId
  }

  ghost predicate AlreadyEnrolled(l: Ledger, studentId: int, courseId: int)
  {
    exists i :: 0 <= i < |l.enrollments|
      && l.enrollments[i].studentId == studentId && l.enrollments[i].courseId == courseId
  }

  /** Every enrollment, in storage order. */
  function GetAll(l: Ledger): (r: seq<Enrollment>)
    ensures |r| == |l.enrollments|
    ensures forall i :: 0 <= i < |r| ==> r[i] == l.enrollments[i]
  {
    l.enrollments
  }

  /** The enrollments of one student, in storage order. */
  function GetByStudent(l: Ledger, studentId: int): (r: seq<Enrollment>)
    ensures IsSubsequence(r, l.enrollments)
    ensures forall i :: 0 <= i < |r| ==> r[i].studentId == studentId
    ensures |r| == CountWhere(l.enrollments, StudentOf, studentId)
  {
    Where(l.enrollments, StudentOf, studentId)
  }

  /** Enrolls a student in a course unless that pair is already on the
      ledger; a new enrollment takes the next id and starts Pending. */
  function Enroll(l: Ledger, studentId: int, courseId: int): (r: Step<Option<Enrollment>, Ledger>)
    ensures r.result.None? <==> AlreadyEnrolled(l, studentId, courseId)
    ensures r.result.None? ==> r.state == l
    ensures r.result.Some? ==>
      && r.result.value.enrollmentId == l.nextId
      && r.result.value.studentId == studentId
      && r.result.value.courseId == courseId
      && r.result.value.status == Pending
      && r.state.enrollments == l.enrollments + [r.result.value]
      && r.state.nextId == l.nextId + 1
  {
    if IndexOf(l.enrollments, PairOf, (studentId, courseId)).Some? then
      Step(None, l)
    else
      var e := Enrollment(l.nextId, courseId, studentId, Pending);
      Step(Some(e), Ledger(l.enrollments + [e], l.nextId + 1))
  }

  /** Sets the status of one enrollment. An unknown id fails first; a status
      outside Pending/Approved/Rejected fails next; both leave the ledger as
      it was. Any valid status may follow any other. */
  function UpdateStatus(l: Ledger, enrollmentId: int, status: string): (r: Step<Option<Enrollment>, Ledger>)
    ensures r.result.None? <==> !HasEnrollment(l, enrollmentId) || !IsValidStatus(status)
    ensures r.result.None? ==> r.state == l
    ensures r.result.Some? ==>
      && r.result.value.enrollmentId == enrollmentId
      && r.result.value.status == status
      && r.result.value in r.state.enrollments
      && r.state.nextId == l.nextId
      && |r.state.enrollments| == |l.enrollments|
    ensures r.result.Some? && DistinctKeys(l.enrollments, IdOf) ==>
      forall i :: 0 <= i < |l.enrollments| ==>
        r.state.enrollments[i] ==
          if l.enrollments[i].enrollmentId == enrollmentId
          then l.enrollments[i].(status := status)
          else l.enrollments[i]
  {
    match IndexOf(l.enrollments, IdOf, enrollmentId)
    case None => Step(None, l)
    case Some(i) =>
      if !IsValidStatus(status) then Step(None, l)
      else
        var e := l.enrollments[i].(status := status);
        assert l.enrollments[i := e][i] == e;
        Step(Some(e), l.(enrollments := l.enrollments[i := e]))
  }

  /** A successful enrollment takes an id no stored enrollment has, and keeps
      the primary key intact. */
  lemma EnrollPreservesWellFormed(l: Ledger, studentId: int, courseId: int)
    requires WellFormed(l)
    ensures var r := Enroll(l, studentId, courseId);
      && WellFormed(r.state)
      && (r.result.Some? ==> forall i :: 0 <= i < |l.enrollments| ==> l.enrollments[i].enrollmentId != r.result.value.enrollmentId)
  {
    var r := Enroll(l, studentId, courseId);
    if r.result.Some? {
      var s := r.state.enrollments;
      assert forall i :: 0 <= i < |l.enrollments| ==> s[i] == l.enrollments[i];
      assert s[|l.enrollments|] == r.result.value;
    }
  }

  lemma EnrollPreservesUniquePairs(l: Ledger, studentId: int, courseId: int)
    requires UniquePairs(l)
    ensures UniquePairs(Enroll(l, studentId, courseId).state)
  {
    var r := Enroll(l, studentId, courseId);
    if r.result.Some? {
      var s := r.state.enrollments;
      assert forall i :: 0 <= i < |l.enrollments| ==> s[i] == l.enrollments[i];
      assert forall i :: 0 <= i < |l.enrollments| ==> PairOf(s[i]) != (studentId, courseId);
    }
  }

  lemma EnrollPreservesValidStatuses(l: Ledger, studentId: int, courseId: int)
    requires ValidStatuses(l)
    ensures ValidStatuses(Enroll(l, studentId, courseId).state)
  {
    var r := Enroll(l, studentId, courseId);
    if r.result.Some? {
      assert forall i :: 0 <= i < |l.enrollments| ==> r.state.enrollments[i] == l.enrollments[i];
    }
  }

  lemma UpdateStatusPreservesValid(l: Ledger, enrollmentId: int, status: string)
    requires Valid(l)
    ensures Valid(UpdateStatus(l, enrollmentId, status).state)
  {
    var r := UpdateStatus(l, enrollmentId, status);
    if r.result.Some? {
      var s := r.state.enrollments;
      assert forall i :: 0 <= i < |s| ==> IdOf(s[i]) == IdOf(l.enrollments[i]) && PairOf(s[i]) == PairOf(l.enrollments[i]);
    }
  }

  /** Every status stays valid under UpdateStatus, whatever string is passed. */
  lemma UpdateStatusPreservesValidStatuses(l: Ledger, enrollmentId: int, status: string)
    requires ValidStatuses(l)
    ensures ValidStatuses(UpdateStatus(l, enrollmentId, status).state)
  {
  }

  lemma EnrollPreservesValid(l: Ledger, studentId: int, courseId: int)
    requires Valid(l)
    ensures Valid(Enroll(l, studentId, courseId).state)
  {
    EnrollPreservesWellFormed(l, studentId, courseId);
    EnrollPreservesUniquePairs(l, studentId, courseId);
    EnrollPreservesValidStatuses(l, studentId, courseId);
  }

  /** Enrolling the same pair twice leaves exactly one enrollment for the
      pair, and the second call fails without touching the ledger. */
  lemma EnrollTwice(l: Ledger, studentId: int, courseId: int)
    requires UniquePairs(l)
    ensures var first := Enroll(l, studentId, courseId);
      var second := Enroll(first.state, studentId, courseId);
      && second.result.None?
      && second.state == first.state
      && CountWhere(second.state.enrollments, PairOf, (studentId, courseId)) == 1
  {
    var first := Enroll(l, studentId, courseId);
    var pair := (studentId, courseId);
    if first.result.Some? {
      var e := first.result.value;
      assert PairOf(e) == pair;
      assert first.state.enrollments[|l.enrollments|] == e;
      assert CountWhere(l.enrollments, PairOf, pair) == 0;
      CountWhereAppend(l.enrollments, [e], PairOf, pair);
    } else {
      var i :| 0 <= i < |l.enrollments| && PairOf(l.enrollments[i]) == pair;
      CountDistinctAtMostOne(l.enrollments, PairOf, pair);
    }
  }

  /** Setting the same status twice gives the same ledger as setting it once. */
  lemma UpdateStatusIdempotent(l: Ledger, enrollmentId: int, status: string)
    ensures var once := UpdateStatus(l, enrollmentId, status).state;
      UpdateStatus(once, enrollmentId, status).state == once
  {
    var r := UpdateStatus(l, enrollmentId, status);
    if r.result.Some? {
      var i := IndexOf(l.enrollments, IdOf, enrollmentId).value;
      var s := r.state.enrollments;
      assert forall j :: 0 <= j < |s| ==> IdOf(s[j]) == IdOf(l.enrollments[j]);
      assert IndexOf(s, IdOf, enrollmentId) == Some(i);
      assert s[i := s[i].(status := status)] == s;
    }
  }

  /** A successful enrollment shows up at the end of its student's list and
      nowhere else. */
  lemma GetByStudentAfterEnroll(l: Ledger, studentId: int, courseId: int, anyStudent: int)
    ensures var r := Enroll(l, studentId, courseId);
      GetByStudent(r.state, anyStudent) ==
        if r.result.Some? && anyStudent == studentId
        then GetByStudent(l, anyStudent) + [r.result.value]
        else GetByStudent(l, anyStudent)
  {
    var r := Enroll(l, studentId, courseId);
    if r.result.Some? {
      WhereAppend(l.enrollments, [r.result.value], StudentOf, anyStudent);
    }
  }

  /** Student 7 enrolls in course 3 on an empty ledger, is approved, and an
      attempt to set the unknown status "Cancelled" fails and keeps Approved. */
  lemma EnrollApproveThenInvalidStatus()
    ensures var r1 := Enroll(EmptyLedger(), 7, 3);
      && r1.result == Some(Enrollment(1, 3, 7, Pending))
      && var r2 := UpdateStatus(r1.state, 1, Approved);
         && r2.result == Some(Enrollment(1, 3, 7, Approved))
         && var r3 := UpdateStatus(r2.state, 1, "Cancelled");
            && r3.result.None?
            && r3.state.enrollments == [Enrollment(1, 3, 7, Approved)]
  {
    var r1 := Enroll(EmptyLedger(), 7, 3);
    assert r1.state.enrollments == [Enrollment(1, 3, 7, Pending)];
    assert IndexOf(r1.state.enrollments, IdOf, 1) == Some(0);
    var r2 := UpdateStatus(r1.state, 1, Approved);
    assert r2.state.enrollments == [Enrollment(1, 3, 7, Approved)];
    assert !IsValidStatus("Cancelled");
  }
}
