/** The instructor-only routes: dashboard and report counts over the three
    stores, the pending-enrollment list, the approve/reject shortcuts, and
    the user and course management routes with their response codes. */
module AdminController {
  import opened Wrappers
  import opened Seqs
  import opened Models
  import opened Http
  import UserService
  import CourseService
  import EnrollmentService

  type UserStore = UserService.UserStore
  type Catalogue = CourseService.Catalogue
  type Ledger = EnrollmentService.Ledger

  const UserNotFound: string := "User not found"
  const UsernameExists: string := "Username already exists"
  const CourseNotFound: string := "Course not found"
  const EnrollmentNotFound: string := "Enrollment not found"

  datatype DashboardStats = DashboardStats(
    totalUsers: nat,
    totalCourses: nat,
    totalEnrollments: nat,
    pendingEnrollments: nat,
    students: nat,
    instructors: nat,
    approvedEnrollments: nat,
    rejectedEnrollments: nat)

  datatype UserReport = UserReport(totalUsers: nat, students: nat, instructors: nat, recentUsers: seq<UserDto>)

  datatype EnrollmentReport = EnrollmentReport(
    totalEnrollments: nat,
    pendingEnrollments: nat,
    approvedEnrollments: nat,
    rejectedEnrollments: nat,
    recentEnrollments: seq<Enrollment>)

  /** Number of stored users holding `role`. */
  function UsersWithRole(us: UserStore, role: string): nat
  {
    CountWhere(us.users, UserService.RoleOf, role)
  }

  /** Number of stored enrollments holding `status`. */
  function EnrollmentsWithStatus(l: Ledger, status: string): nat
  {
    CountWhere(l.enrollments, EnrollmentService.StatusOf, status)
  }

  /** Totals are the store sizes; each role and status count is the number
      of records holding it. The three status counts add up to at most the
      total, and to exactly the total when every status is valid; students
      and instructors add up to at most the user total. */
  function GetDashboardStats(us: UserStore, cat: Catalogue, l: Ledger): (r: ActionResult<DashboardStats>)
    ensures r.Ok?
    ensures r.value.totalUsers == |us.users|
    ensures r.value.totalCourses == |cat.courses|
    ensures r.value.totalEnrollments == |l.enrollments|
    ensures r.value.students == UsersWithRole(us, Student)
    ensures r.value.instructors == UsersWithRole(us, Instructor)
    ensures r.value.pendingEnrollments == EnrollmentsWithStatus(l, Pending)
    ensures r.value.approvedEnrollments == EnrollmentsWithStatus(l, Approved)
    ensures r.value.rejectedEnrollments == EnrollmentsWithStatus(l, Rejected)
    ensures r.value.students + r.value.instructors <= r.value.totalUsers
    ensures r.value.pendingEnrollments + r.value.approvedEnrollments + r.value.rejectedEnrollments <= r.value.totalEnrollments
    ensures EnrollmentService.ValidStatuses(l) ==>
      r.value.pendingEnrollments + r.value.approvedEnrollments + r.value.rejectedEnrollments == r.value.totalEnrollments
  {
    var users := UserService.GetAll(us);
    var courses := CourseService.GetAll(cat);
    var enrollments := EnrollmentService.GetAll(l);
    UserService.ViewsCountRoles(us.users, Student);
    UserService.ViewsCountRoles(us.users, Instructor);
    CountTwoKeys(us.users, UserService.RoleOf, Student, Instructor);
    CountThreeKeys(enrollments, EnrollmentService.StatusOf, Pending, Approved, Rejected);
    Ok(DashboardStats(
      |users|,
      |courses|,
      |enrollments|,
      CountWhere(enrollments, EnrollmentService.StatusOf, Pending),
      CountWhere(users, UserService.DtoRoleOf, Student),
      CountWhere(users, UserService.DtoRoleOf, Instructor),
      CountWhere(enrollments, EnrollmentService.StatusOf, Approved),
      CountWhere(enrollments, EnrollmentService.StatusOf, Rejected)))
  }

  /** Roles are not validated, so students and instructors need not make up
      all users: one user registered as "Admin" is counted as neither. */
  lemma RoleCountsMayFallShort()
    ensures var us := UserService.UserStore([User(1, "root", "", "Root", "Admin")], 2);
      var stats := GetDashboardStats(us, CourseService.EmptyCatalogue(), EnrollmentService.EmptyLedger()).value;
      stats.students + stats.instructors < stats.totalUsers
  {
    var us := UserService.UserStore([User(1, "root", "", "Root", "Admin")], 2);
    assert us.users[1..] == [];
  }

  /** The Pending enrollments, in storage order; as many as the dashboard counts. */
  function GetPendingEnrollments(l: Ledger): (r: ActionResult<seq<Enrollment>>)
    ensures r.Ok?
    ensures IsSubsequence(r.value, l.enrollments)
    ensures forall i :: 0 <= i < |r.value| ==> r.value[i].status == Pending
    ensures |r.value| == EnrollmentsWithStatus(l, Pending)
  {
    var enrollments := EnrollmentService.GetAll(l);
    Ok(Where(enrollments, EnrollmentService.StatusOf, Pending))
  }

  /** Sets a fixed, valid status; the only failure left is an unknown id. */
  function SetStatus(l: Ledger, enrollmentId: int, status: string): (r: Step<ActionResult<Enrollment>, Ledger>)
    requires IsValidStatus(status)
    ensures r.result.Ok? || r.result == NotFound(EnrollmentNotFound)
    ensures r.result.NotFound? <==> !EnrollmentService.HasEnrollment(l, enrollmentId)
    ensures r.state == EnrollmentService.UpdateStatus(l, enrollmentId, status).state
    ensures r.result.Ok? ==> Some(r.result.value) == EnrollmentService.UpdateStatus(l, enrollmentId, status).result
    ensures r.result.Ok? ==> r.result.value.enrollmentId == enrollmentId && r.result.value.status == status
  {
    var s := EnrollmentService.UpdateStatus(l, enrollmentId, status);
    match s.result
    case None => Step(NotFound(EnrollmentNotFound), s.state)
    case Some(e) => Step(Ok(e), s.state)
  }

  function ApproveEnrollment(l: Ledger, enrollmentId: int): (r: Step<ActionResult<Enrollment>, Ledger>)
    ensures r.result.Ok? || r.result == NotFound(EnrollmentNotFound)
    ensures r.result.NotFound? <==> !EnrollmentService.HasEnrollment(l, enrollmentId)
    ensures r.state == EnrollmentService.UpdateStatus(l, enrollmentId, Approved).state
    ensures r.result.Ok? ==> Some(r.result.value) == EnrollmentService.UpdateStatus(l, enrollmentId, Approved).result
    ensures r.result.Ok? ==> r.result.value.enrollmentId == enrollmentId && r.result.value.status == Approved
  {
    SetStatus(l, enrollmentId, Approved)
  }

  function RejectEnrollment(l: Ledger, enrollmentId: int): (r: Step<ActionResult<Enrollment>, Ledger>)
    ensures r.result.Ok? || r.result == NotFound(EnrollmentNotFound)
    ensures r.result.NotFound? <==> !EnrollmentService.HasEnrollment(l, enrollmentId)
    ensures r.state == EnrollmentService.UpdateStatus(l, enrollmentId, Rejected).state
    ensures r.result.Ok? ==> Some(r.result.value) == EnrollmentService.UpdateStatus(l, enrollmentId, Rejected).result
    ensures r.result.Ok? ==> r.result.value.enrollmentId == enrollmentId && r.result.value.status == Rejected
  {
    SetStatus(l, enrollmentId, Rejected)
  }

  /** Counts as on the dashboard, and the first five users in storage order. */
  function GetUserReport(us: UserStore): (r: ActionResult<UserReport>)
    ensures r.Ok?
    ensures r.value.totalUsers == |us.users|
    ensures r.value.students == UsersWithRole(us, Student)
    ensures r.value.instructors == UsersWithRole(us, Instructor)
    ensures |r.value.recentUsers| == Min(5, |us.users|)
    ensures forall i :: 0 <= i < |r.value.recentUsers| ==> r.value.recentUsers[i] == ToDto(us.users[i])
  {
    var users := UserService.GetAll(us);
    UserService.ViewsCountRoles(us.users, Student);
    UserService.ViewsCountRoles(us.users, Instructor);
    Ok(UserReport(
      |users|,
      CountWhere(users, UserService.DtoRoleOf, Student),
      CountWhere(users, UserService.DtoRoleOf, Instructor),
      Take(users, 5)))
  }

  /** Counts as on the dashboard, and the first ten enrollments in storage order. */
  function GetEnrollmentReport(l: Ledger): (r: ActionResult<EnrollmentReport>)
    ensures r.Ok?
    ensures r.value.totalEnrollments == |l.enrollments|
    ensures r.value.pendingEnrollments == EnrollmentsWithStatus(l, Pending)
    ensures r.value.approvedEnrollments == EnrollmentsWithStatus(l, Approved)
    ensures r.value.rejectedEnrollments == EnrollmentsWithStatus(l, Rejected)
    ensures |r.value.recentEnrollments| == Min(10, |l.enrollments|)
    ensures r.value.recentEnrollments <= l.enrollments
  {
    var enrollments := EnrollmentService.GetAll(l);
    Ok(EnrollmentReport(
      |enrollments|,
      CountWhere(enrollments, EnrollmentService.StatusOf, Pending),
      CountWhere(enrollments, EnrollmentService.StatusOf, Approved),
      CountWhere(enrollments, EnrollmentService.StatusOf, Rejected),
      Take(enrollments, 10)))
  }

  /** The two reports repeat the dashboard's counts on the same stores. */
  lemma ReportsAgreeWithDashboard(us: UserStore, cat: Catalogue, l: Ledger)
    ensures var stats := GetDashboardStats(us, cat, l).value;
      var ur := GetUserReport(us).value;
      var er := GetEnrollmentReport(l).value;
      && ur.totalUsers == stats.totalUsers
      && ur.students == stats.students
      && ur.instructors == stats.instructors
      && er.totalEnrollments == stats.totalEnrollments
      && er.pendingEnrollments == stats.pendingEnrollments
      && er.approvedEnrollments == stats.approvedEnrollments
      && er.rejectedEnrollments == stats.rejectedEnrollments
  {
  }

  function GetAllUsers(us: UserStore): (r: ActionResult<seq<UserDto>>)
    ensures r.Ok? && |r.value| == |us.users|
    ensures r.value == UserService.GetAll(us)
    ensures forall i :: 0 <= i < |us.users| ==> r.value[i] == ToDto(us.users[i])
  {
    Ok(UserService.GetAll(us))
  }

  /** 404 exactly when no user has this id. */
  function GetUserById(us: UserStore, id: int): (r: ActionResult<UserDto>)
    ensures r.Ok? || r == NotFound(UserNotFound)
    ensures r.NotFound? <==> forall i :: 0 <= i < |us.users| ==> us.users[i].userId != id
    ensures r.Ok? ==> Some(r.value) == UserService.GetById(us, id)
    ensures r.Ok? ==> exists i :: 0 <= i < |us.users| && us.users[i].userId == id && r.value == ToDto(us.users[i])
  {
    match UserService.GetById(us, id)
    case None => NotFound(UserNotFound)
    case Some(u) => Ok(u)
  }

  /** 409 exactly when the user name is taken; otherwise 201 with the new user. */
  function CreateUser(us: UserStore, dto: UserRegisterDto, hashPassword: string -> string): (r: Step<ActionResult<UserDto>, UserStore>)
    ensures r.result.Created? || r.result == Conflict(UsernameExists)
    ensures r.result.Conflict? <==> UserService.HasUserName(us, dto.userName)
    ensures r.result.Conflict? ==> r.state == us
    ensures r.state == UserService.Register(us, dto, hashPassword).state
    ensures r.result.Created? ==>
      && r.result.value == UserDto(us.nextId, dto.userName, dto.fullName, dto.role)
      && r.state.users == us.users + [User(us.nextId, dto.userName, hashPassword(dto.userPassword), dto.fullName, dto.role)]
      && r.state.nextId == us.nextId + 1
  {
    var s := UserService.Register(us, dto, hashPassword);
    match s.result
    case None => Step(Conflict(UsernameExists), s.state)
    case Some(u) => Step(Created(u), s.state)
  }

  function GetAllCourses(cat: Catalogue): (r: ActionResult<seq<Course>>)
    ensures r.Ok? && r.value == cat.courses
  {
    Ok(CourseService.GetAll(cat))
  }

  /** 404 exactly when no course has this id. */
  function GetCourseById(cat: Catalogue, id: int): (r: ActionResult<Course>)
    ensures r.Ok? || r == NotFound(CourseNotFound)
    ensures r.NotFound? <==> !CourseService.HasCourse(cat, id)
    ensures r.Ok? ==> r.value in cat.courses && r.value.courseId == id
  {
    match CourseService.GetById(cat, id)
    case None => NotFound(CourseNotFound)
    case Some(c) => Ok(c)
  }

  /** Always 201 with the new course. */
  function CreateCourse(cat: Catalogue, title: string, description: Option<string>): (r: Step<ActionResult<Course>, Catalogue>)
    ensures r.result == Created(Course(cat.nextId, title, description))
    ensures r.state == CourseService.Create(cat, title, description).state
    ensures r.state.courses == cat.courses + [r.result.value]
    ensures r.state.nextId == cat.nextId + 1
  {
    var s := CourseService.Create(cat, title, description);
    Step(Created(s.result), s.state)
  }

  /** 404 exactly when no course has this id, and then nothing changes. */
  function UpdateCourse(cat: Catalogue, id: int, title: string, description: Option<string>): (r: Step<ActionResult<Course>, Catalogue>)
    ensures r.result.Ok? || r.result == NotFound(CourseNotFound)
    ensures r.result.NotFound? <==> !CourseService.HasCourse(cat, id)
    ensures r.result.NotFound? ==> r.state == cat
    ensures r.state == CourseService.Update(cat, id, title, description).state
    ensures r.result.Ok? ==> r.result.value == Course(id, title, description)
    ensures r.result.Ok? && DistinctKeys(cat.courses, CourseService.CourseIdOf) ==>
      && |r.state.courses| == |cat.courses|
      && r.state.nextId == cat.nextId
      && forall i :: 0 <= i < |cat.courses| ==>
        r.state.courses[i] == if cat.courses[i].courseId == id then Course(id, title, description) else cat.courses[i]
  {
    var s := CourseService.Update(cat, id, title, description);
    match s.result
    case None => Step(NotFound(CourseNotFound), s.state)
    case Some(c) => Step(Ok(c), s.state)
  }

  /** 404 exactly when no course has this id; 204 after a deletion. */
  function DeleteCourse(cat: Catalogue, id: int): (r: Step<ActionResult<()>, Catalogue>)
    ensures r.result == NoContent || r.result == NotFound(CourseNotFound)
    ensures r.result.NotFound? <==> !CourseService.HasCourse(cat, id)
    ensures r.result.NotFound? ==> r.state == cat
    ensures r.state == CourseService.Delete(cat, id).state
    ensures r.result.NoContent? ==> |r.state.courses| == |cat.courses| - 1 && r.state.nextId == cat.nextId
  {
    var s := CourseService.Delete(cat, id);
    if !s.result then Step(NotFound(CourseNotFound), s.state) else Step(NoContent, s.state)
  }

  /** With distinct ids, the route removes exactly the course with that id
      and keeps every other course in order. */
  lemma DeleteCourseRemovesExactly(cat: Catalogue, id: int)
    requires DistinctKeys(cat.courses, CourseService.CourseIdOf)
    ensures DeleteCourse(cat, id).state.courses == WhereNot(cat.courses, CourseService.CourseIdOf, id)
  {
    CourseService.DeleteRemovesExactly(cat, id);
  }

  /** A user created through the route is then served by the by-id route. */
  lemma CreateUserThenGetUserById(us: UserStore, dto: UserRegisterDto, hashPassword: string -> string)
    requires UserService.WellFormed(us)
    requires CreateUser(us, dto, hashPassword).result.Created?
    ensures var r := CreateUser(us, dto, hashPassword);
      GetUserById(r.state, us.nextId) == Ok(r.result.value)
  {
    UserService.RegisterThenGetById(us, dto, hashPassword);
  }

  /** A course created through the route is then served by the by-id route. */
  lemma CreateCourseThenGetCourseById(cat: Catalogue, title: string, description: Option<string>)
    requires CourseService.WellFormed(cat)
    ensures GetCourseById(CreateCourse(cat, title, description).state, cat.nextId) == Ok(Course(cat.nextId, title, description))
  {
    CourseService.CreateThenGetById(cat, title, description);
  }

  /** After an update through the route, the by-id route serves the new
      title and description. */
  lemma UpdateCourseThenGetCourseById(cat: Catalogue, id: int, title: string, description: Option<string>)
    requires CourseService.WellFormed(cat)
    requires CourseService.HasCourse(cat, id)
    ensures GetCourseById(UpdateCourse(cat, id, title, description).state, id) == Ok(Course(id, title, description))
  {
    CourseService.UpdateThenGetById(cat, id, title, description);
  }

  function GetAllEnrollments(l: Ledger): (r: ActionResult<seq<Enrollment>>)
    ensures r.Ok? && r.value == l.enrollments
  {
    Ok(EnrollmentService.GetAll(l))
  }
}
