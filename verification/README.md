# EduManagement enrollment core in Dafny

This project models the domain logic of the EduManagement backend, a course-enrollment web service. It has three record stores and the operations over them:

- **Enrollment ledger** (`EnrollmentService`). Students enroll in courses. Each (student, course) pair may appear at most once. A new enrollment starts `Pending`. Its status may be set to `Pending`, `Approved` or `Rejected` and to nothing else.
- **User store** (`UserService`). Registration refuses a taken user name. Authentication compares the digest of the supplied password with the stored digest.
- **Course catalogue** (`CourseService`). Create, read, update and delete.
- **Controllers**. `EnrollmentsController` maps ledger failures to 409 Conflict and 400 Bad Request. `AdminController` computes dashboard and report counts, lists pending enrollments, offers approve/reject shortcuts, and maps the user and course management routes to 200/201/204/404/409.

Each store is an immutable value: a sequence of records in storage order, plus the next value of the table's identity column (starting at 1). Every operation is a pure function from a store to a `Step(result, state)`, which pairs the value returned to the caller with the store afterwards. A nullable return in the source becomes `Option`. A controller response becomes `Http.ActionResult`, which gives its status code. Status and role stay strings, as in the source. That status values are valid is an invariant the operations are proved to keep; roles are never checked. The password digest (SHA-256 then Base64 in the source) is a parameter `hashPassword: string -> string`: some deterministic function that the model does not look into. `CourseDto` and `EnrollmentDto` copy every field of their entity, so each entity and its view share one datatype. `UserDto` drops the password digest and has its own datatype.

Files:
- `wrappers.dfy`: `Option` and `Step`.
- `seqs.dfy`: the LINQ queries the services use (`Where`, `Count`, `Any`/`FirstOrDefault`/`FindAsync` as `IndexOf`, `Take`), with their lemmas.
- `models.dfy`: records, DTOs, status and role constants.
- `enrollment_service.dfy`, `user_service.dfy`, `course_service.dfy`: the three services.
- `http.dfy`, `enrollments_controller.dfy`, `admin_controller.dfy`: the responses and the controllers.

Points where the code does less than its comments or names suggest, and the model follows the code:
- The comment on `User.Role` says roles are Student | Instructor (EduManagement/Models/User.cs:9), but the code stores any role string.
- A status update reports an unknown id and an invalid status with the same null result. The id is checked first (EduManagement/Services/EnrollmentService.cs:80-88).
- Course titles get no validation in the service (EduManagement/Services/CourseService.cs:42-48).

## Model

| member | source | states |
|---|---|---|
| EnrollmentService.GetAll | EduManagement/Services/EnrollmentService.cs:21-32 | every enrollment, position by position in storage order, none added or dropped |
| EnrollmentService.GetByStudent | EduManagement/Services/EnrollmentService.cs:34-46 | the result is an order-preserving subsequence of the ledger, made only of that student's enrollments, and as long as their number, so it is exactly that student's enrollments in storage order |
| EnrollmentService.Enroll | EduManagement/Services/EnrollmentService.cs:48-76 | fails iff some enrollment already has the same student and course, and then the ledger is unchanged; otherwise it appends exactly one enrollment with the next id, the given student and course and status Pending, and keeps all earlier records |
| EnrollmentService.UpdateStatus | EduManagement/Services/EnrollmentService.cs:78-100 | fails iff the id is unknown or the status is not Pending/Approved/Rejected, and then nothing changes; on success, with distinct ids, only the target record's status changes, and its id, course and student and every other record stay as they were |
| EnrollmentService.EnrollPreservesWellFormed | EduManagement/Services/EnrollmentService.cs:59-67 | a new enrollment's id differs from every stored id; ids stay distinct and below the next id |
| EnrollmentService.EnrollPreservesUniquePairs | EduManagement/Services/EnrollmentService.cs:51-67 | if no two enrollments share a (student, course) pair before Enroll, none do afterwards |
| EnrollmentService.EnrollPreservesValidStatuses | EduManagement/Services/EnrollmentService.cs:59-64 | Enroll keeps every status within Pending/Approved/Rejected |
| EnrollmentService.UpdateStatusPreservesValidStatuses | EduManagement/Services/EnrollmentService.cs:84-90 | UpdateStatus keeps every status within Pending/Approved/Rejected, whatever string it is given |
| EnrollmentService.UpdateStatusPreservesValid | EduManagement/Services/EnrollmentService.cs:80-90 | UpdateStatus keeps distinct ids, unique pairs and valid statuses |
| EnrollmentService.EnrollPreservesValid | EduManagement/Services/EnrollmentService.cs:48-76 | Enroll keeps distinct ids, unique pairs and valid statuses together |
| EnrollmentService.EnrollTwice | EduManagement/Services/EnrollmentService.cs:51-67 | enrolling the same pair twice leaves exactly one enrollment for it; the second call fails and changes nothing |
| EnrollmentService.UpdateStatusIdempotent | EduManagement/Services/EnrollmentService.cs:90 | setting the same status twice gives the same ledger as setting it once |
| EnrollmentService.GetByStudentAfterEnroll | EduManagement/Services/EnrollmentService.cs:34-46 | after a successful enroll, the enrolling student's list gains the new record at its end and every other student's list is unchanged |
| EnrollmentService.EnrollApproveThenInvalidStatus | EduManagement/Services/EnrollmentService.cs:48-100 | enroll(7, 3) on an empty ledger gives id 1 Pending, approving gives Approved, and "Cancelled" fails with the record still Approved |
| UserService.Register | EduManagement/Services/UserService.cs:24-47 | fails iff the user name is already present (ordinal string equality), and then the store is unchanged; otherwise it appends one user with the next id, the given name, full name and role verbatim and the digest of the password, and returns that user's view without the digest |
| UserService.Authenticate | EduManagement/Services/UserService.cs:48-53 | a returned user is stored, has exactly that name and a digest equal to the password's; with unique names, a user is returned iff one with that name and matching digest exists |
| UserService.GetAll | EduManagement/Services/UserService.cs:55-66 | the public view of every user, position by position; counting any role over the views gives the count over the stored users |
| UserService.VerifyPassword | EduManagement/Services/UserService.cs:88-89 | a password verifies against a stored digest iff its own digest equals it |
| UserService.VerifyOwnDigest | EduManagement/Services/UserService.cs:81-89 | every password verifies against its own digest, for any deterministic digest function |
| UserService.GetById | EduManagement/Services/UserService.cs:68-79 | none iff no user has the id; otherwise the public view of a user with that id |
| UserService.RegisterPreservesWellFormed | EduManagement/Services/UserService.cs:29-38 | registration keeps user ids distinct and below the next id |
| UserService.RegisterPreservesUniqueUserNames | EduManagement/Services/UserService.cs:26-38 | registration keeps user names unique across the store |
| UserService.RegisterAcceptsAnyRole | EduManagement/Services/UserService.cs:29-34 | a fresh user name is accepted with any role string, and the role is stored and returned as given |
| UserService.RegisterThenAuthenticate | EduManagement/Services/UserService.cs:24-53 | right after a successful Register(u, p, ...), Authenticate(u, p) returns the new user, whose view is what Register returned |
| UserService.AuthenticateFailsUniformly | EduManagement/Services/UserService.cs:48-53 | an unknown user name and a wrong password for a known name give the same result, none |
| UserService.ViewsCountRoles | EduManagement/Services/UserService.cs:55-66 | counting a role over the public views gives the count over the stored users |
| UserService.RegisterThenGetById | EduManagement/Services/UserService.cs:68-79 | a registered user is found by the id Register returned |
| UserService.RegisterDuplicateScenario | EduManagement/Services/UserService.cs:24-47 | registering "alice" twice fails the second time and leaves only the first "alice", with role Student |
| CourseService.GetAll | EduManagement/Services/CourseService.cs:23-33 | every course, position by position, so as many as the catalogue holds |
| CourseService.GetById | EduManagement/Services/CourseService.cs:35-40 | none iff no course has the id; otherwise a stored course with that id |
| CourseService.Create | EduManagement/Services/CourseService.cs:42-48 | appends one course with the given title and description under the next id, which differs from every stored course id, and returns it |
| CourseService.Update | EduManagement/Services/CourseService.cs:50-60 | fails iff the id is absent, and then nothing changes; otherwise, with distinct ids, only that course's title and description are replaced, its id is kept and every other course is unchanged |
| CourseService.Delete | EduManagement/Services/CourseService.cs:62-70 | true iff the id is present, and then the catalogue shrinks by one; false and no change otherwise |
| CourseService.CreateThenGetById | EduManagement/Services/CourseService.cs:35-48 | a created course is found by its id |
| CourseService.UpdateThenGetById | EduManagement/Services/CourseService.cs:50-60 | after an update of a present id, GetById returns the course with the new title and description |
| CourseService.CreatePreservesWellFormed | EduManagement/Services/CourseService.cs:42-48 | Create keeps course ids distinct and below the next id |
| CourseService.UpdatePreservesWellFormed | EduManagement/Services/CourseService.cs:50-60 | Update keeps course ids distinct and below the next id |
| CourseService.DeleteRemovesExactly | EduManagement/Services/CourseService.cs:62-70 | with distinct ids, the catalogue after Delete is every course whose id differs, in storage order |
| CourseService.DeletePreservesWellFormed | EduManagement/Services/CourseService.cs:62-70 | Delete keeps course ids distinct and below the next id |
| CourseService.DeleteTwice | EduManagement/Services/CourseService.cs:62-70 | deleting an id a second time returns false and changes nothing |
| EnrollmentsController.GetAll | EduManagement/Controllers/EnrollmentsController.cs:14-16 | 200 with every enrollment, unchanged and in storage order |
| EnrollmentsController.GetByStudent | EduManagement/Controllers/EnrollmentsController.cs:18-20 | 200 with the service's list for that student, all of whose records belong to the student |
| EnrollmentsController.Enroll | EduManagement/Controllers/EnrollmentsController.cs:22-28 | 409 iff the pair is already enrolled, and then no record is created; the ledger and the returned record are those of the service's Enroll; on 200 the record has the next id, the given student and course and status Pending, it is appended to the ledger and the counter advances by one |
| EnrollmentsController.UpdateStatus | EduManagement/Controllers/EnrollmentsController.cs:30-36 | 400 iff the id is unknown or the status invalid, and then nothing changes; the ledger and the returned record are those of the service's UpdateStatus; on 200, with distinct ids, only the target record's status changes and the counter is kept |
| EnrollmentsController.UpdateStatusFailuresIndistinguishable | EduManagement/Controllers/EnrollmentsController.cs:33-34 | an unknown id and an invalid status produce the identical response and ledger |
| AdminController.GetDashboardStats | EduManagement/Controllers/AdminController.cs:28-55 | totals equal the store sizes; role and status counts equal the number of records holding them; students + instructors is at most the user total; pending + approved + rejected is at most the enrollment total, and equal to it when every status is valid |
| AdminController.RoleCountsMayFallShort | EduManagement/Controllers/AdminController.cs:43-44 | with one user whose role is "Admin", students + instructors is below the user total, so equality is not guaranteed |
| AdminController.GetPendingEnrollments | EduManagement/Controllers/AdminController.cs:191-204 | exactly the Pending enrollments in storage order, as many as the dashboard's pending count |
| AdminController.ApproveEnrollment | EduManagement/Controllers/AdminController.cs:206-219 | same ledger as UpdateStatus(id, "Approved"); 404 iff the id is absent; otherwise 200 with exactly the record UpdateStatus returns, now Approved |
| AdminController.RejectEnrollment | EduManagement/Controllers/AdminController.cs:221-234 | same ledger as UpdateStatus(id, "Rejected"); 404 iff the id is absent; otherwise 200 with exactly the record UpdateStatus returns, now Rejected |
| AdminController.GetUserReport | EduManagement/Controllers/AdminController.cs:237-256 | user and role counts as on the dashboard; recent users are the views of the first min(5, n) users in storage order |
| AdminController.GetEnrollmentReport | EduManagement/Controllers/AdminController.cs:258-278 | status counts as on the dashboard; recent enrollments are the first min(10, n) enrollments, a prefix of the ledger |
| AdminController.ReportsAgreeWithDashboard | EduManagement/Controllers/AdminController.cs:245-269 | the two reports' counts equal the dashboard's counts on the same stores |
| AdminController.GetAllUsers | EduManagement/Controllers/AdminController.cs:58-70 | 200 with the service's GetAll list: the public view of every user, position by position |
| AdminController.GetUserById | EduManagement/Controllers/AdminController.cs:72-85 | 404 "User not found" iff no user has the id; otherwise 200 with what the service's GetById returns, the public view of a stored user with that id |
| AdminController.CreateUser | EduManagement/Controllers/AdminController.cs:87-100 | 409 iff the user name is taken, with no change; the store afterwards is the service's Register result; on 201 the new user, with the digest of the password, is appended under the next id, the counter advances, and its view is returned |
| AdminController.GetAllCourses | EduManagement/Controllers/AdminController.cs:103-115 | 200 with every course, so as many as the catalogue holds |
| AdminController.GetCourseById | EduManagement/Controllers/AdminController.cs:117-130 | 404 iff no course has the id; otherwise 200 with a stored course carrying it |
| AdminController.CreateCourse | EduManagement/Controllers/AdminController.cs:132-144 | always 201 with the new course under the next id; the catalogue afterwards is the service's Create result, with the course appended and the counter advanced by one |
| AdminController.UpdateCourse | EduManagement/Controllers/AdminController.cs:146-159 | 404 iff the id is absent, with no change; the catalogue afterwards is the service's Update result; on 200, with distinct ids, only that course's title and description change and the counter is kept |
| AdminController.DeleteCourse | EduManagement/Controllers/AdminController.cs:161-174 | 404 iff the id is absent, with no change; the catalogue afterwards is the service's Delete result; on 204 there is one course fewer and the counter is kept |
| AdminController.DeleteCourseRemovesExactly | EduManagement/Controllers/AdminController.cs:161-174 | with distinct ids, the catalogue after the route is every course whose id differs, in storage order |
| AdminController.CreateUserThenGetUserById | EduManagement/Controllers/AdminController.cs:72-100 | a user created through the route is served by the by-id route under the returned id |
| AdminController.CreateCourseThenGetCourseById | EduManagement/Controllers/AdminController.cs:117-144 | a course created through the route is served by the by-id route under its new id |
| AdminController.UpdateCourseThenGetCourseById | EduManagement/Controllers/AdminController.cs:117-159 | after an update through the route, the by-id route serves the new title and description |
| AdminController.GetAllEnrollments | EduManagement/Controllers/AdminController.cs:177-189 | 200 with every enrollment in storage order |

## Left out

- JWT issuance and the login route (EduManagement/Controllers/UsersController.cs:33-92). They rely on HMAC-SHA256 signing, the wall clock and configuration lookup.
- SHA-256 and Base64 internals (EduManagement/Services/UserService.cs:81-86). The digest is the parameter `hashPassword`. Two passwords with the same digest authenticate alike, as in the source.
- Entity Framework persistence, async/await and the database context. Stores are sequential values. The race between the existence check and the insert in `Enroll` is a concurrency concern, so it is out of scope.
- The identity column is modelled as a counter that starts at 1. Each new id is the counter, and the counter grows by one per insert. A database may skip values, so the clauses that name the exact new id or the counter's step describe the model's counter. This covers `Enroll`, `Register`, `Create` and the routes that wrap them, the example lemmas that expect id 1, and the create-then-get lemmas. The invariant lemmas (`...Preserves...`) only need new ids above every stored id.
- C# `int` is 32 bits. Ids and counts are unbounded here, so overflow past 2^31 - 1 is not modelled.
- `[Authorize(Roles = "Instructor")]`, the try/catch handlers that answer 500, and model-binding validation of request bodies. These are framework plumbing.
- The `CreatedAtAction` location header, and the response bodies' wrapping of messages as `{ message = ... }` objects. Only the message string is kept.
- `CoursesController` and the register/get routes of `UsersController`. They pass service results through unchanged.
- The frontend scripts. They do DOM rendering, HTTP calls and browser session state.
- `Course` has an id, a title and an optional description, as `CourseDto`/`CreateCourseDto` show (EduManagement/Dtos/CourseDtos.cs:3-15). An update carries the same title and description.
- User-name matching and result order are left to the database. Register and Authenticate compare user names inside database queries (EduManagement/Services/UserService.cs:26, 50), so the column's collation decides whether case matters. The model assumes ordinal string equality. `GetAll` and `GetByStudent` have no `OrderBy`, yet the reports' `Take(5)`/`Take(10)` depend on the order (EduManagement/Controllers/AdminController.cs:248, 270). The model assumes insertion order.
- Deleting a course leaves enrollments that reference it in place. The database context declares no relationship between the tables.
