/** Lab-group (subcourse) handlers (src/handler/subcourse.rs) and the
    queries behind them: teacher-id redaction, the "my courses" listing
    with its LINUX grant, and where the course ownership check is applied. */
module Subcourses {
  import opened Wrappers
  import opened Records
  import opened Sessions
  import Config
  import Tables
  import Ownership
  import Enrollment
  import Gate

  // ---------------------------------------------------------------------
  // Queries

  /** `list_subcourses`: nothing without a course id; the course's groups,
      narrowed to the semester when one is given. */
  function ListSubcoursesQuery(subs: seq<Subcourse>, courseId: Option<int>, semesterId: Option<int>): (r: seq<Subcourse>)
    ensures courseId.None? ==> r == []
    ensures forall x :: x in r <==>
      x in subs && courseId.Some? && x.courseId == courseId.value
      && (semesterId.Some? ==> x.yearId == semesterId.value)
  {
    match courseId
    case None => []
    case Some(c) =>
      match semesterId
      case Some(sm) => Tables.Filter(subs, (x: Subcourse) => x.courseId == c && x.yearId == sm)
      case None => Tables.Filter(subs, (x: Subcourse) => x.courseId == c)
  }

  /** `get_current_semester`: the first semester whose inclusive day range
      contains `today`. */
  function CurrentSemester(sems: seq<Semester>, today: int): (r: Option<Semester>)
    ensures r.None? <==> forall i :: 0 <= i < |sems| ==> !(sems[i].start <= today <= sems[i].end)
    ensures r.Some? ==> r.value in sems && r.value.start <= today <= r.value.end
  {
    var f := Tables.First(sems, (sm: Semester) => sm.start <= today <= sm.end);
    assert f.Some? ==> f.value in sems by {
      if f.Some? {
        var i :| Tables.FirstAt(sems, (sm: Semester) => sm.start <= today <= sm.end, i) && sems[i] == f.value;
      }
    }
    f
  }

  /** When semesters do not overlap, the current one is the one containing
      today, whichever row it is. */
  lemma CurrentSemesterUnique(sems: seq<Semester>, today: int, i: int)
    requires 0 <= i < |sems| && sems[i].start <= today <= sems[i].end
    requires forall a, b :: 0 <= a < b < |sems| ==> sems[a].end < sems[b].start || sems[b].end < sems[a].start
    ensures CurrentSemester(sems, today) == Some(sems[i])
  {
    var p := (sm: Semester) => sm.start <= today <= sm.end;
    Tables.FirstOfUnique(sems, p, i);
  }

  /** `list_teacher_subcourses` over the joined rows `views`: the groups the
      teacher teaches in the current semester, none without one. */
  function TeacherList(views: seq<SubcourseView>, sems: seq<Semester>, today: int, tea: string): (r: seq<SubcourseView>)
    ensures CurrentSemester(sems, today).None? ==> r == []
    ensures forall v :: v in r <==> (
      && v in views && v.teaId == tea
      && CurrentSemester(sems, today).Some? && v.yearId == CurrentSemester(sems, today).value.id)
  {
    match CurrentSemester(sems, today)
    case None => []
    case Some(sm) => Tables.Filter(views, (v: SubcourseView) => v.teaId == tea && v.yearId == sm.id)
  }

  /** `list_student_subcourses`: the groups of the current semester the
      student is a member of. */
  function StudentList(views: seq<SubcourseView>, members: seq<Member>, sems: seq<Semester>, today: int, stu: string)
    : (r: seq<SubcourseView>)
    ensures CurrentSemester(sems, today).None? ==> r == []
    ensures forall v :: v in r <==> (
      && v in views
      && (exists m :: m in members && m.stuId == stu && m.subcourseId == v.id)
      && CurrentSemester(sems, today).Some? && v.yearId == CurrentSemester(sems, today).value.id)
  {
    match CurrentSemester(sems, today)
    case None => []
    case Some(sm) =>
      Tables.Filter(views, (v: SubcourseView) =>
        (exists m :: m in members && m.stuId == stu && m.subcourseId == v.id) && v.yearId == sm.id)
  }

  // ---------------------------------------------------------------------
  // Redaction

  /** The caller's permission value has the TEACHER bit. */
  predicate IsTeacher(s: Session) {
    Config.Holds(PermissionOrZero(s), Config.TEACHER)
  }

  /** What a caller sees of a group: the teacher id is blanked for anyone
      without the TEACHER bit. */
  function Redact(s: Session, sc: Subcourse): (r: Subcourse)
    ensures r.(teaId := sc.teaId) == sc
    ensures IsTeacher(s) ==> r == sc
    ensures !IsTeacher(s) ==> r.teaId == ""
  {
    if IsTeacher(s) then sc else sc.(teaId := "")
  }

  /** `list_subcourses` handler: the query's rows, one for one, redacted. */
  function ListSubcourses(s: Session, subs: seq<Subcourse>, courseId: Option<int>, semesterId: Option<int>)
    : (r: seq<Subcourse>)
    ensures var q := ListSubcoursesQuery(subs, courseId, semesterId);
      |r| == |q| && forall i :: 0 <= i < |q| ==> r[i] == Redact(s, q[i])
  {
    var q := ListSubcoursesQuery(subs, courseId, semesterId);
    seq(|q|, i requires 0 <= i < |q| => Redact(s, q[i]))
  }

  /** `get_subcourse`: one group, redacted; a failed lookup is a server
      error. */
  function GetSubcourse(s: Session, lookup: Option<SubcourseView>): (r: (Status, Option<SubcourseView>))
    ensures lookup.None? <==> r.0 == InternalServerError
    ensures r.0 != InternalServerError ==> (
      && r.0 == Ok && r.1.Some?
      && r.1.value.(teaId := lookup.value.teaId) == lookup.value
      && r.1.value.teaId == (if IsTeacher(s) then lookup.value.teaId else ""))
    ensures r.0 == InternalServerError ==> r.1.None?
  {
    match lookup
    case None => (InternalServerError, None)
    case Some(v) => (Ok, Some(if IsTeacher(s) then v else v.(teaId := "")))
  }

  // ---------------------------------------------------------------------
  // The "my courses" listing

  /** `str::starts_with`. */
  predicate StartsWith(s: string, prefix: string) {
    |prefix| <= |s| && s[..|prefix|] == prefix
  }

  /** Some listed group belongs to a course whose name starts with "Linux". */
  predicate ListsLinuxCourse(l: seq<SubcourseView>) {
    exists i :: 0 <= i < |l| && StartsWith(l[i].courseName, "Linux")
  }

  /** The session after a non-teacher's listing `l`: when a Linux course is
      listed, the permission value (0 when unreadable) is written back with
      the LINUX bit added; the other keys are untouched. */
  function Grant(s: Session, l: seq<SubcourseView>): (s': Session)
    ensures s'.userId == s.userId && s'.realname == s.realname
    ensures ListsLinuxCourse(l) ==> s'.permissions == Found(PermissionOrZero(s) | Config.LINUX)
    ensures !ListsLinuxCourse(l) ==> s' == s
    ensures PermissionOrZero(s') == PermissionOrZero(s) || PermissionOrZero(s') == PermissionOrZero(s) | Config.LINUX
  {
    if ListsLinuxCourse(l) then s.(permissions := Found(PermissionOrZero(s) | Config.LINUX)) else s
  }

  /** The response of `list_my_subcourses` and the session it leaves. */
  datatype MyReply = MyReply(status: Status, list: seq<SubcourseView>, session: Session)

  /** `list_my_subcourses`. TEACHER wins over STUDENT; with neither bit the
      answer is a server error. A non-teacher's listing is redacted, and a
      Linux course in it stores the caller's permission value with the
      LINUX bit added back into the session. */
  function ListMySubcourses(s: Session, views: seq<SubcourseView>, members: seq<Member>, sems: seq<Semester>, today: int)
    : (r: MyReply)
    ensures UserIdOrEmpty(s) == "" ==> r == MyReply(Unauthorized, [], s)
    ensures UserIdOrEmpty(s) != "" && IsTeacher(s) ==>
      r == MyReply(Ok, TeacherList(views, sems, today, UserIdOrEmpty(s)), s)
    ensures UserIdOrEmpty(s) != "" && !IsTeacher(s) && !Config.Holds(PermissionOrZero(s), Config.STUDENT) ==>
      r == MyReply(InternalServerError, [], s)
    ensures UserIdOrEmpty(s) != "" && !IsTeacher(s) && Config.Holds(PermissionOrZero(s), Config.STUDENT) ==> (
      var l := StudentList(views, members, sems, today, UserIdOrEmpty(s));
      && r.status == Ok && |r.list| == |l|
      && (forall i :: 0 <= i < |l| ==> r.list[i] == l[i].(teaId := ""))
      && r.session == Grant(s, l))
  {
    var uid := UserIdOrEmpty(s);
    if uid == "" then MyReply(Unauthorized, [], s)
    else if IsTeacher(s) then MyReply(Ok, TeacherList(views, sems, today, uid), s)
    else if !Config.Holds(PermissionOrZero(s), Config.STUDENT) then MyReply(InternalServerError, [], s)
    else
      var l := StudentList(views, members, sems, today, uid);
      MyReply(Ok, seq(|l|, i requires 0 <= i < |l| => l[i].(teaId := "")), Grant(s, l))
  }

  /** The listing only ever adds bits: every bit the caller held is still
      held afterwards, and the LINUX bit is the only one that can appear. */
  lemma GrantOnlyAddsBits(s: Session, l: seq<SubcourseView>)
    ensures var p := PermissionOrZero(s);
      var p' := PermissionOrZero(Grant(s, l));
      p' & p == p && p' & !(p | Config.LINUX) == 0
  {
    Config.OnlyAdds(PermissionOrZero(s), PermissionOrZero(Grant(s, l)), Config.LINUX);
  }

  /** Whatever the grant does, every scope gate that let the caller through
      before still does. */
  lemma GrantKeepsAccess(s: Session, l: seq<SubcourseView>, m: bv64)
    requires Gate.CheckSession(s, m) == Gate.Forward
    ensures Gate.CheckSession(Grant(s, l), m) == Gate.Forward
  {
    if ListsLinuxCourse(l) {
      Gate.Monotone(s.permissions.value, Config.LINUX, m, 0);
    }
  }

  /** A teacher's session is never changed by the listing, even for a Linux
      course. */
  lemma TeachersGetNoGrant(s: Session, views: seq<SubcourseView>, members: seq<Member>, sems: seq<Semester>, today: int)
    requires IsTeacher(s)
    ensures ListMySubcourses(s, views, members, sems, today).session == s
  {
  }

  // ---------------------------------------------------------------------
  // Editing, behind the course ownership check

  /** A handler's status with the subcourse table it leaves behind. */
  datatype Reply = Reply(status: Status, subs: seq<Subcourse>)

  /** `create_subcourse`: authorised against the course named in the
      payload. The insert leaves the id to the database, which hands out
      one past every stored id; every other field is the request's. */
  function CreateSubcourse(s: Session, courses: seq<Course>, subs: seq<Subcourse>, req: Subcourse): (r: Reply)
    ensures r.status == Ok <==> Ownership.CheckCoursePerm(s, Ownership.FindCourse(courses, req.courseId)) == Ok
    ensures r.status != Ok ==> (
      && r.subs == subs
      && r.status == Ownership.CheckCoursePerm(s, Ownership.FindCourse(courses, req.courseId)))
    ensures r.status == Ok ==> (
      && |r.subs| == |subs| + 1 && r.subs[..|subs|] == subs
      && r.subs[|subs|].(id := req.id) == req
      && forall i :: 0 <= i < |subs| ==> subs[i].id != r.subs[|subs|].id)
  {
    var st := Ownership.CheckCoursePerm(s, Ownership.FindCourse(courses, req.courseId));
    if st != Ok then Reply(st, subs)
    else
      var row := req.(id := Tables.NextId(subs, SubcourseId));
      assert (subs + [row])[..|subs|] == subs;
      Reply(Ok, subs + [row])
  }

  function FindSubcourse(subs: seq<Subcourse>, id: int): Option<Subcourse> {
    Tables.First(subs, (sc: Subcourse) => sc.id == id)
  }

  /** A created group is found under the id it was given, with the
      request's fields. */
  lemma CreateThenFind(s: Session, courses: seq<Course>, subs: seq<Subcourse>, req: Subcourse)
    requires CreateSubcourse(s, courses, subs, req).status == Ok
    ensures var t := CreateSubcourse(s, courses, subs, req).subs;
      FindSubcourse(t, t[|subs|].id) == Some(req.(id := t[|subs|].id))
  {
    var t := CreateSubcourse(s, courses, subs, req).subs;
    var k := t[|subs|].id;
    forall j | 0 <= j < |t| && j != |subs| ensures t[j].id != k {
      assert t[j] == subs[j];
    }
  }

  /** `update_subcourse`: a group that cannot be fetched is a server error;
      otherwise the check is made against the course the group is stored
      under, and the request may name any other course. */
  function UpdateSubcourse(s: Session, courses: seq<Course>, subs: seq<Subcourse>, id: int, req: Subcourse): (r: Reply)
    ensures FindSubcourse(subs, id).None? ==> r == Reply(InternalServerError, subs)
    ensures FindSubcourse(subs, id).Some? ==> (
      var gate := Ownership.CheckCoursePerm(s, Ownership.FindCourse(courses, FindSubcourse(subs, id).value.courseId));
      && (r.status == Ok <==> gate == Ok)
      && (gate != Ok ==> r == Reply(gate, subs))
      && (gate == Ok ==> Enrollment.UpdateSubcourse(subs, id, req) == Some(r.subs)))
  {
    match FindSubcourse(subs, id)
    case None => Reply(InternalServerError, subs)
    case Some(stored) =>
      var gate := Ownership.CheckCoursePerm(s, Ownership.FindCourse(courses, stored.courseId));
      if gate != Ok then Reply(gate, subs)
      else
        assert Enrollment.UpdateSubcourse(subs, id, req).Some? by {
          var p := (sc: Subcourse) => sc.id == id;
          var k :| Tables.FirstAt(subs, p, k) && subs[k] == stored;
        }
        Reply(Ok, Enrollment.UpdateSubcourse(subs, id, req).value)
  }

  /** `delete_subcourse`: the same placement of the check as for update. */
  function DeleteSubcourse(s: Session, courses: seq<Course>, subs: seq<Subcourse>, id: int): (r: Reply)
    ensures FindSubcourse(subs, id).None? ==> r == Reply(InternalServerError, subs)
    ensures FindSubcourse(subs, id).Some? ==> (
      var gate := Ownership.CheckCoursePerm(s, Ownership.FindCourse(courses, FindSubcourse(subs, id).value.courseId));
      && (r.status == Ok <==> gate == Ok)
      && (gate != Ok ==> r == Reply(gate, subs))
      && (gate == Ok ==> forall x :: x in r.subs <==> x in subs && x.id != id))
  {
    match FindSubcourse(subs, id)
    case None => Reply(InternalServerError, subs)
    case Some(stored) =>
      var gate := Ownership.CheckCoursePerm(s, Ownership.FindCourse(courses, stored.courseId));
      if gate != Ok then Reply(gate, subs)
      else Reply(Ok, Tables.Filter(subs, (x: Subcourse) => x.id != id))
  }

  /** The owner of a group's course can move the group into a course owned
      by somebody else: teacher "t1" owns course 1 only, and moving group 5
      from course 1 to course 2 (owned by "t2") is accepted. */
  lemma MoveIntoForeignCourse()
    ensures var s := Session(Found("t1"), Found("T1"), Found(Config.TEACHER));
      var courses := [Course(1, "C1", "t1"), Course(2, "C2", "t2")];
      var subs := [Subcourse(5, 1, 3, "T1", "t1", 1, 30, 1, 0)];
      var req := Subcourse(5, 1, 3, "T1", "t1", 1, 30, 2, 0);
      CreateSubcourse(s, courses, subs, req.(id := 6)).status == Forbidden
      && UpdateSubcourse(s, courses, subs, 5, req) == Reply(Ok, [req])
  {
    var s := Session(Found("t1"), Found("T1"), Found(Config.TEACHER));
    var courses := [Course(1, "C1", "t1"), Course(2, "C2", "t2")];
    var subs := [Subcourse(5, 1, 3, "T1", "t1", 1, 30, 1, 0)];
    var req := Subcourse(5, 1, 3, "T1", "t1", 1, 30, 2, 0);
    Config.KnownBitsAreDisjoint();
    assert Ownership.FindCourse(courses, 2) == Row(courses[1]);
    assert FindSubcourse(subs, 5) == Some(subs[0]);
    var u := Enrollment.UpdateSubcourse(subs, 5, req);
    assert u.value[0] == req;
    assert u.value == [req];
  }
}
