/** The course catalogue: create, read, update and delete over the Courses table. */
module CourseService {
  import opened Wrappers
  import opened Seqs
  import opened Models

  /** The table, in storage order, and the next value of its identity column. */
  datatype Catalogue = Catalogue(courses: seq<Course>, nextId: int)

  function EmptyCatalogue(): Catalogue
  {
    Catalogue([], 1)
  }

  function CourseIdOf(c: Course): int { c.courseId }

  ghost predicate WellFormed(c: Catalogue)
  {
    DistinctKeys(c.courses, CourseIdOf) && KeysBelow(c.courses, CourseIdOf, c.nextId)
  }

  ghost predicate HasCourse(c: Catalogue, id: int)
  {
    exists i :: 0 <= i < |c.courses| && c.courses[i].courseId == id
  }

  /** Every course, in storage order. */
  function GetAll(c: Catalogue): (r: seq<Course>)
    ensures |r| == |c.courses|
    ensures forall i :: 0 <= i < |r| ==> r[i] == c.courses[i]
  {
    c.courses
  }

  function GetById(c: Catalogue, id: int): (r: Option<Course>)
    ensures r.None? <==> !HasCourse(c, id)
    ensures r.Some? ==> r.value in c.courses && r.value.courseId == id
  {
    match IndexOf(c.courses, CourseIdOf, id)
    case None => None
    case Some(i) => Some(c.courses[i])
  }

  /** Appends a course under the next id. */
  function Create(c: Catalogue, title: string, description: Option<string>): (r: Step<Course, Catalogue>)
    ensures r.result == Course(c.nextId, title, description)
    ensures r.state.courses == c.courses + [r.result]
    ensures r.state.nextId == c.nextId + 1
    ensures WellFormed(c) ==> forall i :: 0 <= i < |c.courses| ==> c.courses[i].courseId != r.result.courseId
  {
    var course := Course(c.nextId, title, description);
    Step(course, Catalogue(c.courses + [course], c.nextId + 1))
  }

  /** Replaces the title and description of the course with this id. */
  function Update(c: Catalogue, id: int, title: string, description: Option<string>): (r: Step<Option<Course>, Catalogue>)
    ensures r.result.None? <==> !HasCourse(c, id)
    ensures r.result.None? ==> r.state == c
    ensures r.result.Some? ==>
      && r.result.value == Course(id, title, description)
      && r.result.value in r.state.courses
      && r.state.nextId == c.nextId
      && |r.state.courses| == |c.courses|
    ensures r.result.Some? && DistinctKeys(c.courses, CourseIdOf) ==>
      forall i :: 0 <= i < |c.courses| ==>
        r.state.courses[i] == if c.courses[i].courseId == id then Course(id, title, description) else c.courses[i]
  {
    match IndexOf(c.courses, CourseIdOf, id)
    case None => Step(None, c)
    case Some(i) =>
      var course := c.courses[i].(title := title, description := description);
      assert c.courses[i := course][i] == course;
      Step(Some(course), c.(courses := c.courses[i := course]))
  }

  /** Removes the course with this id; false, and no change, when there is none. */
  function Delete(c: Catalogue, id: int): (r: Step<bool, Catalogue>)
    ensures r.result <==> HasCourse(c, id)
    ensures !r.result ==> r.state == c
    ensures r.result ==>
      && |r.state.courses| == |c.courses| - 1
      && r.state.nextId == c.nextId
  {
    match IndexOf(c.courses, CourseIdOf, id)
    case None => Step(false, c)
    case Some(i) => Step(true, c.(courses := c.courses[..i] + c.courses[i + 1..]))
  }

  /** A created course is found by its id. */
  lemma CreateThenGetById(c: Catalogue, title: string, description: Option<string>)
    requires WellFormed(c)
    ensures var r := Create(c, title, description);
      GetById(r.state, r.result.courseId) == Some(r.result)
  {
    var r := Create(c, title, description);
    CreatePreservesWellFormed(c, title, description);
    IndexOfDistinct(r.state.courses, CourseIdOf, |c.courses|);
  }

  lemma CreatePreservesWellFormed(c: Catalogue, title: string, description: Option<string>)
    requires WellFormed(c)
    ensures WellFormed(Create(c, title, description).state)
  {
    var r := Create(c, title, description);
    assert forall i :: 0 <= i < |c.courses| ==> r.state.courses[i] == c.courses[i];
  }

  lemma UpdatePreservesWellFormed(c: Catalogue, id: int, title: string, description: Option<string>)
    requires WellFormed(c)
    ensures WellFormed(Update(c, id, title, description).state)
  {
    var r := Update(c, id, title, description);
    if r.result.Some? {
      assert forall i :: 0 <= i < |c.courses| ==> CourseIdOf(r.state.courses[i]) == CourseIdOf(c.courses[i]);
    }
  }

  /** Deleting a present id removes exactly that course: what remains is
      every other course, in order. */
  lemma DeleteRemovesExactly(c: Catalogue, id: int)
    requires DistinctKeys(c.courses, CourseIdOf)
    ensures Delete(c, id).state.courses == WhereNot(c.courses, CourseIdOf, id)
  {
    var s := c.courses;
    match IndexOf(s, CourseIdOf, id)
    case None =>
      WhereNotAbsent(s, CourseIdOf, id);
    case Some(i) =>
      WhereNotDistinct(s, CourseIdOf, i);
  }

  lemma DeletePreservesWellFormed(c: Catalogue, id: int)
    requires WellFormed(c)
    ensures WellFormed(Delete(c, id).state)
  {
    var s := c.courses;
    match IndexOf(s, CourseIdOf, id)
    case None =>
    case Some(i) =>
      var t := s[..i] + s[i + 1..];
      assert forall j :: 0 <= j < |t| ==> t[j] == if j < i then s[j] else s[j + 1];
  }

  /** Once a course is deleted, deleting it again fails and changes nothing. */
  lemma DeleteTwice(c: Catalogue, id: int)
    requires WellFormed(c)
    ensures var first := Delete(c, id);
      var second := Delete(first.state, id);
      !second.result && second.state == first.state
  {
    DeleteRemovesExactly(c, id);
  }

  /** After an update, the course is found by its id with the new title and
      description. */
  lemma UpdateThenGetById(c: Catalogue, id: int, title: string, description: Option<string>)
    requires WellFormed(c)
    requires HasCourse(c, id)
    ensures GetById(Update(c, id, title, description).state, id) == Some(Course(id, title, description))
  {
    var r := Update(c, id, title, description);
    var i := IndexOf(c.courses, CourseIdOf, id).value;
    UpdatePreservesWellFormed(c, id, title, description);
    assert CourseIdOf(r.state.courses[i]) == id;
    IndexOfDistinct(r.state.courses, CourseIdOf, i);
  }
}
