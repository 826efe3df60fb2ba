/** The application's route table (src/main.rs): which service is mounted
    under which scope, and which permission mask guards each scope. */
module Routes {
  import opened Wrappers
  import opened Sessions
  import Config
  import Gate
  import Auth

  /** `Root` stands for the services registered directly on the app, with no
      permission gate; the others are the five `web::scope`s. */
  datatype Scope = Root | AdminScope | TeacherScope | LabScope | StuScope | MemberScope

  /** The handlers of the modelled core one by one; the plain CRUD route
      groups (users, semesters, courses, meeting rooms, schedules, course
      files, sub-schedules, lab rooms) as one entry per `configure` call. */
  datatype Service =
    | Login | Logout | Greet
    | ListCourses | ListSubcourses | GetCourse | GetCurrentSemester
    | GetLabroom | ListLabrooms | ListMySubcourses | GetSubcourse | ListSchedules
    | GetSchedule | ListCourseFiles
    | UserRoutes | SemesterRoutes | CourseAdminRoutes | MeetingRoomRoutes
    | CreateSubcourse | UpdateSubcourse | DeleteSubcourse
    | ScheduleRoutes | CourseFileRoutes | SubscheduleRoutes
    | CreateEquipment | ListEquipments | GetEquipment | UpdateEquipment | DeleteEquipment
    | CreateAgenda | ListAgendas | GetAgenda | UpdateAgenda | ConfirmAgenda | DeleteAgenda
    | UpdateCourse | RemoveStudent | UpdateStudentSeat | ConfirmStudentLog | GetRecentLogs
    | ListTimelinesBySchedule | ForceStudentLog
    | GetStudentLogsByRoom | LabroomAdminRoutes
    | AddGroup | LeaveGroup | ListGroup
    | CreateStudentLog | UpdateStudentLog | DefaultStudentLog | AddLinuxUser
    | CreateTimeline | ListTimelinesByStudent | DownloadTimelineFile | DeleteTimeline
    | DownloadCourseFile | ListSubschedules

  /** The mask a scope's gate requires; the root has no gate. */
  function RequiredMask(sc: Scope): Option<bv64> {
    match sc
    case Root => None
    case AdminScope => Some(Config.ADMIN)
    case TeacherScope => Some(Config.TEACHER | Config.ADMIN)
    case LabScope => Some(Config.LAB_MANAGER | Config.ADMIN)
    case StuScope => Some(Config.STUDENT)
    case MemberScope => Some(Config.STUDENT | Config.TEACHER)
  }

  /** The scopes under which a service is mounted. `ListGroup` is mounted
      twice: once with the group routes under /stu and once under /member.
      `GetSchedule` is mounted at the root and again with the schedule
      routes under /teacher. */
  function ScopesOf(sv: Service): set<Scope> {
    match sv
    case Login | Logout | Greet
      | ListCourses | ListSubcourses | GetCourse | GetCurrentSemester
      | GetLabroom | ListLabrooms | ListMySubcourses | GetSubcourse | ListSchedules
      | ListCourseFiles => {Root}
    case GetSchedule => {Root, TeacherScope}
    case UserRoutes | SemesterRoutes | CourseAdminRoutes | MeetingRoomRoutes => {AdminScope}
    case CreateSubcourse | UpdateSubcourse | DeleteSubcourse
      | ScheduleRoutes | CourseFileRoutes | SubscheduleRoutes
      | CreateEquipment | ListEquipments | GetEquipment | UpdateEquipment | DeleteEquipment
      | CreateAgenda | ListAgendas | GetAgenda | UpdateAgenda | ConfirmAgenda | DeleteAgenda
      | UpdateCourse | RemoveStudent | UpdateStudentSeat | ConfirmStudentLog | GetRecentLogs
      | ListTimelinesBySchedule | ForceStudentLog => {TeacherScope}
    case GetStudentLogsByRoom | LabroomAdminRoutes => {LabScope}
    case AddGroup | LeaveGroup
      | CreateStudentLog | UpdateStudentLog | DefaultStudentLog | AddLinuxUser => {StuScope}
    case ListGroup => {StuScope, MemberScope}
    case CreateTimeline | ListTimelinesByStudent | DownloadTimelineFile | DeleteTimeline
      | DownloadCourseFile | ListSubschedules => {MemberScope}
  }

  /** What the gate in front of scope `sc` does with a request: the root
      forwards everything; a gated scope answers Unauthorized without a
      readable permission, forwards every holder of one of its bits and
      answers Forbidden to everyone else. */
  function Admit(sc: Scope, s: Session): (d: Gate.Decision)
    ensures sc == Root ==> d == Gate.Forward
    ensures sc != Root ==> (
      && (d == Gate.Unauthorized <==> !s.permissions.Found?)
      && (d == Gate.Forward <==>
            s.permissions.Found? && Config.Holds(s.permissions.value, RequiredMask(sc).value))
      && (d == Gate.Forbidden <==>
            s.permissions.Found? && !Config.Holds(s.permissions.value, RequiredMask(sc).value)))
  {
    match RequiredMask(sc)
    case None => Gate.Forward
    case Some(m) => Gate.CheckSession(s, m)
  }

  /** Some mount of `sv` lets a request from session `s` through. */
  predicate Reachable(sv: Service, s: Session) {
    exists sc :: sc in ScopesOf(sv) && Admit(sc, s) == Gate.Forward
  }

  /** Every roster edit, seat change, forced log, subcourse edit, equipment
      and agenda operation is reachable only with TEACHER or ADMIN. */
  lemma TeacherServicesNeedTeacherOrAdmin(sv: Service, s: Session)
    requires ScopesOf(sv) == {TeacherScope}
    requires Reachable(sv, s)
    ensures s.permissions.Found? && Config.Holds(s.permissions.value, Config.TEACHER | Config.ADMIN)
  {
    var sc :| sc in ScopesOf(sv) && Admit(sc, s) == Gate.Forward;
    assert sc == TeacherScope;
  }

  /** The student-only services (joining and leaving a group, creating and
      updating one's own log, the default log, Linux account creation) are
      reachable only with the STUDENT bit, so a principal holding only
      teacher or admin bits cannot use them. */
  lemma StudentServicesNeedStudent(sv: Service, s: Session)
    requires ScopesOf(sv) == {StuScope}
    requires Reachable(sv, s)
    ensures s.permissions.Found? && Config.Holds(s.permissions.value, Config.STUDENT)
  {
    var sc :| sc in ScopesOf(sv) && Admit(sc, s) == Gate.Forward;
    assert sc == StuScope;
  }

  /** The services registered at the top level are reachable by anybody,
      logged in or not. */
  lemma RootServicesAreOpen(sv: Service, s: Session)
    requires Root in ScopesOf(sv)
    ensures Reachable(sv, s)
  {
    assert Admit(Root, s) == Gate.Forward;
  }

  /** The masks of the three scopes whose bits are known, as numbers. */
  lemma ScopeMasks()
    ensures RequiredMask(AdminScope) == Some(1)
    ensures RequiredMask(TeacherScope) == Some(3)
    ensures RequiredMask(LabScope) == Some(5)
  {
    Config.CombinedMasks();
  }

  /** A principal holding only ADMIN passes the admin, teacher and lab gates
      but is Forbidden under /stu and /member whenever the STUDENT bit is
      not the ADMIN bit. */
  lemma AdminOnlyPrincipal(s: Session)
    requires s.permissions == Found(Config.ADMIN)
    requires Config.STUDENT & Config.ADMIN == 0
    ensures Admit(AdminScope, s) == Gate.Forward
    ensures Admit(TeacherScope, s) == Gate.Forward
    ensures Admit(LabScope, s) == Gate.Forward
    ensures Admit(StuScope, s) == Gate.Forbidden
    ensures Admit(MemberScope, s) == Gate.Forbidden
  {
    var st := Config.STUDENT;
    assert (st | Config.TEACHER) & Config.ADMIN == (st & Config.ADMIN) | (Config.TEACHER & Config.ADMIN);
  }

  /** A principal holding TEACHER and LAB_MANAGER passes the teacher and lab
      gates; one holding only a STUDENT bit outside ADMIN, TEACHER and
      LAB_MANAGER passes neither. */
  lemma MixedRoles(s: Session, t: Session)
    requires s.permissions == Found(Config.TEACHER | Config.LAB_MANAGER)
    requires t.permissions == Found(Config.STUDENT)
    requires Config.STUDENT & (Config.ADMIN | Config.TEACHER | Config.LAB_MANAGER) == 0
    ensures Admit(TeacherScope, s) == Gate.Forward && Admit(LabScope, s) == Gate.Forward
    ensures Admit(TeacherScope, t) == Gate.Forbidden && Admit(LabScope, t) == Gate.Forbidden
  {
    var st := Config.STUDENT;
    assert st & (Config.TEACHER | Config.ADMIN) == (st & (Config.ADMIN | Config.TEACHER | Config.LAB_MANAGER)) & 3;
    assert st & (Config.LAB_MANAGER | Config.ADMIN) == (st & (Config.ADMIN | Config.TEACHER | Config.LAB_MANAGER)) & 5;
  }

  /** After logging in as an unknown user (permission 0) every gated scope
      answers Forbidden; after logging out every gated scope answers
      Unauthorized, while the ungated root still forwards. */
  lemma GuestAndLoggedOut(s: Session, q: Auth.LoginQuery, sc: Scope)
    requires Auth.Login(s, q, NoRow).status == Ok
    requires sc != Root
    ensures Admit(sc, Auth.Login(s, q, NoRow).session) == Gate.Forbidden
    ensures Admit(sc, Auth.Logout(s).session) == Gate.Unauthorized
    ensures Admit(Root, Auth.Logout(s).session) == Gate.Forward
  {
    Gate.ZeroIsForbidden(RequiredMask(sc).value);
  }
}
