/** The course ownership check (src/utils.rs): an admin may edit anything,
    anyone else only the courses whose recorded teacher they are. */
module Ownership {
  import opened Wrappers
  import opened Sessions
  import opened Records
  import Config

  /** The course lookup by id, read from a table: the first row with that id. */
  function FindCourse(courses: seq<Course>, id: int): (f: Fetch<Course>)
    ensures f.NoRow? <==> forall i :: 0 <= i < |courses| ==> courses[i].id != id
    ensures f.Row? ==> f.value in courses && f.value.id == id
    ensures !f.DbError?
  {
    if |courses| == 0 then NoRow
    else if courses[0].id == id then Row(courses[0])
    else FindCourse(courses[1..], id)
  }

  /** `check_course_perm`: `lookup` is what looking up the course returned;
      it is consulted only for callers without the ADMIN bit. */
  function CheckCoursePerm(s: Session, lookup: Fetch<Course>): (st: Status)
    ensures Config.Holds(PermissionOrZero(s), Config.ADMIN) ==> st == Ok
    ensures !Config.Holds(PermissionOrZero(s), Config.ADMIN) ==>
      match lookup
      case Row(c) => (st == Ok <==> UserIdOrEmpty(s) == c.teaId) && st in {Ok, Forbidden}
      case NoRow => st == NotFound
      case DbError => st == InternalServerError
  {
    if PermissionOrZero(s) & Config.ADMIN != 0 then Ok
    else match lookup
      case Row(c) => if UserIdOrEmpty(s) != c.teaId then Forbidden else Ok
      case NoRow => NotFound
      case DbError => InternalServerError
  }

  /** An admin passes without the course being looked at: even a course that
      does not exist, or a lookup that fails, lets an admin through. */
  lemma AdminNeedsNoCourse(s: Session, l1: Fetch<Course>, l2: Fetch<Course>)
    requires Config.Holds(PermissionOrZero(s), Config.ADMIN)
    ensures CheckCoursePerm(s, l1) == CheckCoursePerm(s, l2) == Ok
  {
  }

  /** The TEACHER bit is never consulted: adding or removing it changes
      nothing, so a teacher of another course is refused like anyone else. */
  lemma TeacherBitIgnored(s: Session, lookup: Fetch<Course>)
    requires s.permissions.Found?
    ensures CheckCoursePerm(s, lookup) ==
      CheckCoursePerm(s.(permissions := Found(s.permissions.value | Config.TEACHER)), lookup)
  {
    var p := s.permissions.value;
    assert (p | Config.TEACHER) & Config.ADMIN == p & Config.ADMIN;
  }

  /** A session without a readable user id is compared as "": it passes for
      a course whose teacher id is empty and is Forbidden for any other. */
  lemma MissingUserIdIsEmpty(s: Session, c: Course)
    requires !s.userId.Found?
    requires !Config.Holds(PermissionOrZero(s), Config.ADMIN)
    ensures CheckCoursePerm(s, Row(c)) == (if c.teaId == "" then Ok else Forbidden)
  {
  }

  /** Against a course table, a non-admin passes exactly when a course with
      that id exists and names the caller as its teacher. */
  lemma NonAdminPassesIffTeacher(s: Session, courses: seq<Course>, id: int)
    requires !Config.Holds(PermissionOrZero(s), Config.ADMIN)
    requires forall i, j :: 0 <= i < j < |courses| ==> courses[i].id != courses[j].id
    ensures CheckCoursePerm(s, FindCourse(courses, id)) == Ok <==>
      exists c :: c in courses && c.id == id && c.teaId == UserIdOrEmpty(s)
  {
    var f := FindCourse(courses, id);
    if exists c :: c in courses && c.id == id && c.teaId == UserIdOrEmpty(s) {
      var c :| c in courses && c.id == id && c.teaId == UserIdOrEmpty(s);
      assert f.Row?;
      var i :| 0 <= i < |courses| && courses[i] == f.value;
      var j :| 0 <= j < |courses| && courses[j] == c;
      assert i == j;
    }
  }
}
