/** The public enrollment routes: they hand the ledger's answers back and
    turn a failed enroll into 409 and a failed status update into 400. */
module EnrollmentsController {
  import opened Wrappers
  import opened Seqs
  import opened Models
  import opened Http
  import EnrollmentService

  type Ledger = EnrollmentService.Ledger

  const AlreadyEnrolledMessage: string := "Student already enrolled in this course."
  const InvalidUpdateMessage: string := "Invalid enrollment ID or status."

  function GetAll(l: Ledger): (r: ActionResult<seq<Enrollment>>)
    ensures r.Ok? && r.value == l.enrollments
  {
    Ok(EnrollmentService.GetAll(l))
  }

  function GetByStudent(l: Ledger, studentId: int): (r: ActionResult<seq<Enrollment>>)
    ensures r.Ok? && r.value == EnrollmentService.GetByStudent(l, studentId)
    ensures forall i :: 0 <= i < |r.value| ==> r.value[i].studentId == studentId
  {
    Ok(EnrollmentService.GetByStudent(l, studentId))
  }

  /** 409 exactly when the pair is already enrolled, and then nothing is
      created; otherwise 200 with the new Pending enrollment. */
  function Enroll(l: Ledger, studentId: int, courseId: int): (r: Step<ActionResult<Enrollment>, Ledger>)
    ensures r.result.Ok? || r.result == Conflict(AlreadyEnrolledMessage)
    ensures r.result.StatusCode() == 409 <==> EnrollmentService.AlreadyEnrolled(l, studentId, courseId)
    ensures r.result.StatusCode() == 409 ==> r.state == l
    ensures r.state == EnrollmentService.Enroll(l, studentId, courseId).state
    ensures r.result.Ok? ==> Some(r.result.value) == EnrollmentService.Enroll(l, studentId, courseId).result
    ensures r.result.Ok? ==>
      && r.result.value == Enrollment(l.nextId, courseId, studentId, Pending)
      && r.state.enrollments == l.enrollments + [r.result.value]
      && r.state.nextId == l.nextId + 1
  {
    var s := EnrollmentService.Enroll(l, studentId, courseId);
    match s.result
    case None => Step(Conflict(AlreadyEnrolledMessage), s.state)
    case Some(e) => Step(Ok(e), s.state)
  }

  /** 400 exactly when the id is unknown or the status is not one of the
      three; the two failures give the same response. */
  function UpdateStatus(l: Ledger, enrollmentId: int, status: string): (r: Step<ActionResult<Enrollment>, Ledger>)
    ensures r.result.Ok? || r.result == BadRequest(InvalidUpdateMessage)
    ensures r.result.StatusCode() == 400 <==> !EnrollmentService.HasEnrollment(l, enrollmentId) || !IsValidStatus(status)
    ensures r.result.StatusCode() == 400 ==> r.state == l
    ensures r.state == EnrollmentService.UpdateStatus(l, enrollmentId, status).state
    ensures r.result.Ok? ==> Some(r.result.value) == EnrollmentService.UpdateStatus(l, enrollmentId, status).result
    ensures r.result.Ok? ==> r.result.value.enrollmentId == enrollmentId && r.result.value.status == status
    ensures r.result.Ok? && DistinctKeys(l.enrollments, EnrollmentService.IdOf) ==>
      && |r.state.enrollments| == |l.enrollments|
      && r.state.nextId == l.nextId
      && forall i :: 0 <= i < |l.enrollments| ==>
        r.state.enrollments[i] ==
          if l.enrollments[i].enrollmentId == enrollmentId
          then l.enrollments[i].(status := status)
          else l.enrollments[i]
  {
    var s := EnrollmentService.UpdateStatus(l, enrollmentId, status);
    match s.result
    case None => Step(BadRequest(InvalidUpdateMessage), s.state)
    case Some(e) => Step(Ok(e), s.state)
  }

  /** An unknown id and an invalid status cannot be told apart by the caller. */
  lemma UpdateStatusFailuresIndistinguishable(l: Ledger, unknownId: int, knownId: int, badStatus: string, anyStatus: string)
    requires !EnrollmentService.HasEnrollment(l, unknownId)
    requires !IsValidStatus(badStatus)
    ensures UpdateStatus(l, unknownId, anyStatus) == UpdateStatus(l, knownId, badStatus)
  {
  }
}
