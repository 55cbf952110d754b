/** The records of the three tables and the request/response shapes that
    carry them. `CourseDto` and `EnrollmentDto` copy every field of their
    entity, so each entity and its view share one datatype here; `UserDto`
    leaves out the password hash and gets a datatype of its own. */
module Models {
  import opened Wrappers

  /** The three status values an enrollment may hold. */
  const Pending: string := "Pending"
  const Approved: string := "Approved"
  const Rejected: string := "Rejected"

  /** The two role values the reports count; roles are not checked on entry. */
  const Student: string := "Student"
  const Instructor: string := "Instructor"

  predicate IsValidStatus(status: string)
  {
    status == Pending || status == Approved || status == Rejected
  }

  /** A stored user; `userPassword` holds the digest of the password. */
  datatype User = User(userId: int, userName: string, userPassword: string, fullName: string, role: string)

  /** The public view of a user. */
  datatype UserDto = UserDto(userId: int, userName: string, fullName: string, role: string)

  /** The body of a registration request. */
  datatype UserRegisterDto = UserRegisterDto(userName: string, userPassword: string, fullName: string, role: string)

  /** A course, also its public view. */
  datatype Course = Course(courseId: int, title: string, description: Option<string>)

  /** An enrollment of a student in a course, also its public view. */
  datatype Enrollment = Enrollment(enrollmentId: int, courseId: int, studentId: int, status: string)

  function ToDto(u: User): UserDto
  {
    UserDto(u.userId, u.userName, u.fullName, u.role)
  }
}
