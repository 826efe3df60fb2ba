/** Student attendance logs (src/handler/studentlog.rs and the log queries
    of src/db.rs): the five-hour "recent log" window, the guarded insert and
    update, and the synthesis of a default log from the student's group,
    semester week and schedule. The clock is the parameter `now`. */
module StudentLogs {
  import opened Wrappers
  import opened Records
  import opened Sessions
  import Tables
  import Calendar

  /** The width of the recent-log window: five hours, in seconds. */
  const RECENT_WINDOW: int := 5 * 3600

  /** `l` is a log of student `stu` in group `sid` finished within the
      window ending at `now`. */
  predicate IsRecent(l: StudentLog, stu: string, sid: int, now: int) {
    l.stuId == stu && l.subcourseId == sid && l.finTime >= now - RECENT_WINDOW
  }

  /** `find_recent_student_log`: among the recent logs of the student in the
      group, one with the latest finish time. */
  function FindRecent(logs: seq<StudentLog>, stu: string, sid: int, now: int): (r: Option<StudentLog>)
    ensures r.None? <==> forall i :: 0 <= i < |logs| ==> !IsRecent(logs[i], stu, sid, now)
    ensures r.Some? ==> r.value in logs && IsRecent(r.value, stu, sid, now)
    ensures r.Some? ==> forall i :: 0 <= i < |logs| && IsRecent(logs[i], stu, sid, now) ==>
      logs[i].finTime <= r.value.finTime
  {
    if |logs| == 0 then None
    else
      var n := |logs| - 1;
      var rest := FindRecent(logs[..n], stu, sid, now);
      var l := logs[n];
      assert forall x :: x in logs[..n] ==> x in logs;
      if !IsRecent(l, stu, sid, now) then rest
      else match rest
        case None => Some(l)
        case Some(x) => if l.finTime > x.finTime then Some(l) else Some(x)
  }

  /** Why no log is inserted. */
  datatype LogError = RecentLogExists

  /** `add_student_log`: refused while the student has a recent log in the
      group; otherwise the log is appended with a fresh id and `now` as its
      finish time, every other field as given. */
  function AddLog(logs: seq<StudentLog>, log: StudentLog, now: int): (r: Result<seq<StudentLog>, LogError>)
    ensures r.Failure? <==> FindRecent(logs, log.stuId, log.subcourseId, now).Some?
    ensures r.Success? ==> (
      && |r.value| == |logs| + 1 && r.value[..|logs|] == logs
      && r.value[|logs|].(id := log.id, finTime := log.finTime) == log
      && r.value[|logs|].finTime == now
      && forall i :: 0 <= i < |logs| ==> logs[i].id != r.value[|logs|].id)
  {
    if FindRecent(logs, log.stuId, log.subcourseId, now).Some? then Failure(RecentLogExists)
    else
      var row := log.(id := Tables.NextId(logs, LogId), finTime := now);
      var logs' := logs + [row];
      assert logs'[..|logs|] == logs;
      Success(logs')
  }

  /** Once a log has been added, a second one for the same student and group
      is refused for the next five hours. */
  lemma AddThenAddFails(logs: seq<StudentLog>, log: StudentLog, log2: StudentLog, now: int, later: int)
    requires AddLog(logs, log, now).Success?
    requires log2.stuId == log.stuId && log2.subcourseId == log.subcourseId
    requires now <= later <= now + RECENT_WINDOW
    ensures AddLog(AddLog(logs, log, now).value, log2, later).Failure?
  {
    var logs' := AddLog(logs, log, now).value;
    assert IsRecent(logs'[|logs|], log2.stuId, log2.subcourseId, later);
  }

  /** `update_student_log`: rows with the id that are still unconfirmed get
      the new seat, note and lab name; the finish time is assigned twice in
      the statement and the later assignment, `now`, is the one stored. */
  function UpdateLog(logs: seq<StudentLog>, id: int, newlog: StudentLog, now: int): (r: seq<StudentLog>)
    ensures |r| == |logs|
    ensures forall i :: 0 <= i < |logs| && !(logs[i].id == id && logs[i].confirm == 0) ==> r[i] == logs[i]
    ensures forall i :: 0 <= i < |logs| && logs[i].id == id && logs[i].confirm == 0 ==> (
      && r[i].seat == newlog.seat && r[i].note == newlog.note && r[i].labName == newlog.labName
      && r[i].finTime == now
      && r[i].(seat := logs[i].seat, note := logs[i].note, labName := logs[i].labName, finTime := logs[i].finTime) == logs[i])
  {
    seq(|logs|, i requires 0 <= i < |logs| =>
      if logs[i].id == id && logs[i].confirm == 0
      then logs[i].(seat := newlog.seat, note := newlog.note, labName := newlog.labName, finTime := now)
      else logs[i])
  }

  /** A confirmed log is frozen: no update touches it. */
  lemma ConfirmedLogsAreFrozen(logs: seq<StudentLog>, id: int, newlog: StudentLog, now: int, i: int)
    requires 0 <= i < |logs| && logs[i].confirm != 0
    ensures UpdateLog(logs, id, newlog, now)[i] == logs[i]
  {
  }

  /** Repeating an update at the same instant changes nothing more. */
  lemma UpdateLogIdempotent(logs: seq<StudentLog>, id: int, newlog: StudentLog, now: int)
    ensures UpdateLog(UpdateLog(logs, id, newlog, now), id, newlog, now) == UpdateLog(logs, id, newlog, now)
  {
    var r := UpdateLog(logs, id, newlog, now);
    var r2 := UpdateLog(r, id, newlog, now);
    forall i | 0 <= i < |logs| ensures r2[i] == r[i] {
      if logs[i].id == id && logs[i].confirm == 0 {
        assert r[i].id == id && r[i].confirm == 0;
      }
    }
  }

  // ---------------------------------------------------------------------
  // The default log

  /** `get_student_seat`: the seat of the student's first row in the group. */
  function SeatOf(members: seq<Member>, stu: string, sid: int): (r: Option<int>)
    ensures r.None? <==> forall i :: 0 <= i < |members| ==> !(members[i].stuId == stu && members[i].subcourseId == sid)
    ensures r.Some? ==> exists m :: m in members && m.stuId == stu && m.subcourseId == sid && m.seat == r.value
  {
    var f := Tables.First(members, (m: Member) => m.stuId == stu && m.subcourseId == sid);
    if f.None? then None
    else
      assert f.value in members by {
        var i :| Tables.FirstAt(members, (m: Member) => m.stuId == stu && m.subcourseId == sid, i) && members[i] == f.value;
      }
      Some(f.value.seat)
  }

  /** The teaching week of day `today` in a semester starting on day `start`,
      shifted by the group's `lag_week`: whole weeks elapsed, rounded toward
      zero as `num_weeks` does, plus one. */
  function WeekOf(today: int, start: int, lag: int): (w: int)
    ensures start <= today ==> (w - 1 - lag) * 7 <= today - start < (w - lag) * 7
    ensures start - 7 < today <= start ==> w == 1 + lag
    ensures today < start ==> (w - 1 - lag) * 7 - 7 < today - start <= (w - 1 - lag) * 7
  {
    Calendar.TruncDiv(today - start, 7) + 1 + lag
  }

  /** Why no default log can be built. */
  datatype DefaultError = NoSubcourse | NoSemester | NotAMember

  /** The tables the default log is assembled from. */
  datatype Database = Database(
    logs: seq<StudentLog>, subs: seq<Subcourse>, sems: seq<Semester>,
    members: seq<Member>, scheds: seq<Schedule>)

  function FindSubcourse(subs: seq<Subcourse>, id: int): Option<Subcourse> {
    Tables.First(subs, (sc: Subcourse) => sc.id == id)
  }

  function FindSemester(sems: seq<Semester>, id: int): Option<Semester> {
    Tables.First(sems, (sm: Semester) => sm.id == id)
  }

  /** `get_schedule_by_week`: the course's schedule row for that week. */
  function FindSchedule(scheds: seq<Schedule>, courseId: int, week: int): Option<Schedule> {
    Tables.First(scheds, (sc: Schedule) => sc.courseId == courseId && sc.week == week)
  }

  /** `get_default_log`: the student's recent log if there is one; otherwise
      a new, unsaved, unconfirmed log (id 0) in the group's room on the
      student's seat, finished `now`, named after the week's schedule (or
      "" when the week has none). A missing group, semester or membership
      is an error. */
  function GetDefaultLog(db: Database, stu: string, sid: int, now: int): (r: Result<StudentLog, DefaultError>)
    ensures FindRecent(db.logs, stu, sid, now).Some? ==> r == Success(FindRecent(db.logs, stu, sid, now).value)
    ensures FindRecent(db.logs, stu, sid, now).None? ==> (
      && (FindSubcourse(db.subs, sid).None? ==> r == Failure(NoSubcourse))
      && (FindSubcourse(db.subs, sid).Some?
          && FindSemester(db.sems, FindSubcourse(db.subs, sid).value.yearId).None?
          ==> r == Failure(NoSemester))
      && (FindSubcourse(db.subs, sid).Some?
          && FindSemester(db.sems, FindSubcourse(db.subs, sid).value.yearId).Some?
          ==> (r.Success? <==> SeatOf(db.members, stu, sid).Some?)
              && (r.Failure? ==> r.error == NotAMember))
      && (r.Success? ==>
            var sc := FindSubcourse(db.subs, sid).value;
            var sm := FindSemester(db.sems, sc.yearId).value;
            var week := WeekOf(Calendar.DayOf(now), sm.start, sc.lagWeek);
            && r.value.id == 0 && r.value.confirm == 0
            && r.value.stuId == stu && r.value.subcourseId == sid && r.value.stuName == ""
            && r.value.roomId == sc.roomId && r.value.finTime == now
            && Some(r.value.seat) == SeatOf(db.members, stu, sid)
            && r.value.labName == (match FindSchedule(db.scheds, sc.courseId, week)
                                   case Some(sch) => sch.name
                                   case None => "")
            && r.value.note == "" && r.value.teaNote == "" && r.value.teaName == ""))
    ensures r == Failure(NotAMember) ==> SeatOf(db.members, stu, sid).None?
  {
    match FindRecent(db.logs, stu, sid, now)
    case Some(l) => Success(l)
    case None =>
      match FindSubcourse(db.subs, sid)
      case None => Failure(NoSubcourse)
      case Some(sc) =>
        match FindSemester(db.sems, sc.yearId)
        case None => Failure(NoSemester)
        case Some(sm) =>
          var week := WeekOf(Calendar.DayOf(now), sm.start, sc.lagWeek);
          match SeatOf(db.members, stu, sid)
          case None => Failure(NotAMember)
          case Some(seat) =>
            var lab := match FindSchedule(db.scheds, sc.courseId, week)
              case Some(sch) => sch.name
              case None => "";
            Success(StudentLog(0, stu, "", sid, sc.roomId, seat, lab, "", "", "", now, 0))
  }

  /** Get-or-create: once the default log is submitted, asking again within
      the window returns the stored row, not a new default. */
  lemma DefaultThenSubmit(db: Database, stu: string, sid: int, now: int, later: int)
    requires FindRecent(db.logs, stu, sid, now).None?
    requires GetDefaultLog(db, stu, sid, now).Success?
    requires now <= later <= now + RECENT_WINDOW
    ensures var log := GetDefaultLog(db, stu, sid, now).value;
      var added := AddLog(db.logs, log, now);
      added.Success? &&
      GetDefaultLog(db.(logs := added.value), stu, sid, later) == Success(added.value[|db.logs|])
  {
    var log := GetDefaultLog(db, stu, sid, now).value;
    var logs' := AddLog(db.logs, log, now).value;
    assert logs' == db.logs + [logs'[|db.logs|]];
    AppendedIsFound(db.logs, logs'[|db.logs|], stu, sid, now, later);
  }

  /** With no recent log at `now`, a row appended with a finish time inside
      the window at `later` is the one the recent-log lookup then returns. */
  lemma AppendedIsFound(logs: seq<StudentLog>, row: StudentLog, stu: string, sid: int, now: int, later: int)
    requires FindRecent(logs, stu, sid, now).None?
    requires now <= later && IsRecent(row, stu, sid, later)
    ensures FindRecent(logs + [row], stu, sid, later) == Some(row)
  {
    var logs' := logs + [row];
    var f := FindRecent(logs', stu, sid, later);
    forall i | 0 <= i < |logs| ensures !IsRecent(logs'[i], stu, sid, later) {
      assert logs'[i] == logs[i];
      assert !IsRecent(logs[i], stu, sid, now);
    }
    assert logs'[|logs|] == row;
    var k :| 0 <= k < |logs'| && logs'[k] == f.value;
  }

  /** A student outside the group gets no default log unless a recent log
      exists for them there. */
  lemma DefaultNeedsMembership(db: Database, stu: string, sid: int, now: int)
    requires FindRecent(db.logs, stu, sid, now).None?
    requires forall m :: m in db.members ==> !(m.stuId == stu && m.subcourseId == sid)
    ensures GetDefaultLog(db, stu, sid, now).Failure?
  {
    assert SeatOf(db.members, stu, sid).None?;
  }

  // ---------------------------------------------------------------------
  // The handlers

  /** `check_stu_id`: the session's user id, "" when unreadable, must be
      the id the request names. */
  function CheckStuId(s: Session, stu: string): (st: Status)
    ensures st == Ok <==> UserIdOrEmpty(s) == stu
    ensures st != Ok ==> st == Forbidden
  {
    if UserIdOrEmpty(s) != stu then Forbidden else Ok
  }

  /** A handler's status with the log table it leaves behind. */
  datatype Reply = Reply(status: Status, logs: seq<StudentLog>)

  /** `create_student_log`: only for the caller's own id, always stored
      unconfirmed whatever the request says. */
  function CreateStudentLog(s: Session, logs: seq<StudentLog>, req: StudentLog, now: int): (r: Reply)
    ensures r.status == Forbidden <==> UserIdOrEmpty(s) != req.stuId
    ensures r.status == InternalServerError <==>
      UserIdOrEmpty(s) == req.stuId && FindRecent(logs, req.stuId, req.subcourseId, now).Some?
    ensures r.status == Ok <==>
      UserIdOrEmpty(s) == req.stuId && FindRecent(logs, req.stuId, req.subcourseId, now).None?
    ensures r.status == Ok ==> (
      && |r.logs| == |logs| + 1 && r.logs[..|logs|] == logs
      && r.logs[|logs|] == req.(id := r.logs[|logs|].id, finTime := now, confirm := 0)
      && r.logs[|logs|].stuId == UserIdOrEmpty(s)
      && forall i :: 0 <= i < |logs| ==> logs[i].id != r.logs[|logs|].id)
    ensures r.status != Ok ==> r.logs == logs
  {
    if CheckStuId(s, req.stuId) != Ok then Reply(Forbidden, logs)
    else match AddLog(logs, req.(confirm := 0), now)
      case Success(logs') => Reply(Ok, logs')
      case Failure(_) => Reply(InternalServerError, logs)
  }

  /** Creating a log locks the student out of creating another one in the
      same group for the next five hours: the second insert is refused. */
  lemma CreateThenCreateRefused(s: Session, logs: seq<StudentLog>, req: StudentLog, req2: StudentLog, now: int, later: int)
    requires CreateStudentLog(s, logs, req, now).status == Ok
    requires req2.stuId == req.stuId && req2.subcourseId == req.subcourseId
    requires now <= later <= now + RECENT_WINDOW
    ensures CreateStudentLog(s, CreateStudentLog(s, logs, req, now).logs, req2, later).status == InternalServerError
  {
    AddThenAddFails(logs, req.(confirm := 0), req2.(confirm := 0), now, later);
  }

  /** `update_student_log`: Forbidden unless the request names the caller,
      the log exists and belongs to that same student. A confirmed log
      answers Ok and stays as it was. */
  function UpdateStudentLog(s: Session, logs: seq<StudentLog>, id: int, newlog: StudentLog, now: int): (r: Reply)
    ensures var stored := Tables.First(logs, (l: StudentLog) => l.id == id);
      r.status == Ok <==> UserIdOrEmpty(s) == newlog.stuId && stored.Some? && stored.value.stuId == newlog.stuId
    ensures r.status != Ok ==> r.status == Forbidden && r.logs == logs
    ensures r.status == Ok ==> r.logs == UpdateLog(logs, id, newlog, now)
  {
    if CheckStuId(s, newlog.stuId) != Ok then Reply(Forbidden, logs)
    else match Tables.First(logs, (l: StudentLog) => l.id == id)
      case None => Reply(Forbidden, logs)
      case Some(stored) =>
        if newlog.stuId != stored.stuId then Reply(Forbidden, logs)
        else Reply(Ok, UpdateLog(logs, id, newlog, now))
  }

  /** A student can only ever change rows of their own: an Ok update leaves
      every row of another student as it was, when ids are unique. */
  lemma UpdateTouchesOnlyOwnRows(s: Session, logs: seq<StudentLog>, id: int, newlog: StudentLog, now: int, i: int)
    requires forall a, b :: 0 <= a < b < |logs| ==> logs[a].id != logs[b].id
    requires UpdateStudentLog(s, logs, id, newlog, now).status == Ok
    requires 0 <= i < |logs| && logs[i].stuId != UserIdOrEmpty(s)
    ensures UpdateStudentLog(s, logs, id, newlog, now).logs[i] == logs[i]
  {
    var p := (l: StudentLog) => l.id == id;
    var stored := Tables.First(logs, p);
    var k :| Tables.FirstAt(logs, p, k) && logs[k] == stored.value;
    assert logs[k].stuId == UserIdOrEmpty(s);
    assert i != k;
    assert logs[i].id != logs[k].id;
  }

  /** `force_student_log`: a teacher submits the student's default log as
      confirmed, signed with the teacher's realname and the note "Log by
      T". `stuName` is what the student-name lookup returned; that lookup
      is not part of this model. */
  function ForceStudentLog(s: Session, db: Database, stu: string, sid: int, stuName: Option<string>, now: int): (r: Reply)
    ensures r.status == Ok || r.status == InternalServerError
    ensures r.status != Ok ==> r.logs == db.logs
    ensures r.status == Ok <==>
      FindRecent(db.logs, stu, sid, now).None? && GetDefaultLog(db, stu, sid, now).Success?
    ensures r.status == Ok ==> (
      var d := GetDefaultLog(db, stu, sid, now).value;
      && |r.logs| == |db.logs| + 1 && r.logs[..|db.logs|] == db.logs
      && r.logs[|db.logs|] == d.(id := r.logs[|db.logs|].id,
                                stuName := if stuName.Some? then stuName.value else d.stuName,
                                confirm := 1, teaName := RealnameOrEmpty(s), teaNote := "Log by T")
      && r.logs[|db.logs|].stuId == stu && r.logs[|db.logs|].subcourseId == sid
      && r.logs[|db.logs|].finTime == now
      && forall i :: 0 <= i < |db.logs| ==> db.logs[i].id != r.logs[|db.logs|].id)
  {
    match GetDefaultLog(db, stu, sid, now)
    case Failure(_) => Reply(InternalServerError, db.logs)
    case Success(log) =>
      var named := if stuName.Some? then log.(stuName := stuName.value) else log;
      var forced := named.(confirm := 1, teaName := RealnameOrEmpty(s), teaNote := "Log by T");
      match AddLog(db.logs, forced, now)
      case Success(logs') => Reply(Ok, logs')
      case Failure(_) => Reply(InternalServerError, db.logs)
  }

  /** After a forced log, the student's default log within the window is
      the forced row, confirmed and signed by the teacher. */
  lemma ForceThenDefault(s: Session, db: Database, stu: string, sid: int, stuName: Option<string>, now: int, later: int)
    requires ForceStudentLog(s, db, stu, sid, stuName, now).status == Ok
    requires now <= later <= now + RECENT_WINDOW
    ensures var r := ForceStudentLog(s, db, stu, sid, stuName, now).logs;
      GetDefaultLog(db.(logs := r), stu, sid, later) == Success(r[|db.logs|])
      && r[|db.logs|].confirm == 1 && r[|db.logs|].teaNote == "Log by T"
  {
    var r := ForceStudentLog(s, db, stu, sid, stuName, now).logs;
    assert r == db.logs + [r[|db.logs|]];
    AppendedIsFound(db.logs, r[|db.logs|], stu, sid, now, later);
  }

  /** A forced log can never be added while the student has a recent log:
      the default log is then that recent log, and adding it is refused. */
  lemma ForceFailsAfterStudentLogged(s: Session, db: Database, stu: string, sid: int, stuName: Option<string>, now: int)
    requires FindRecent(db.logs, stu, sid, now).Some?
    ensures ForceStudentLog(s, db, stu, sid, stuName, now) == Reply(InternalServerError, db.logs)
  {
  }

  /** `default_student_log`: no session key is read, so any caller behind
      the student gate can see any student's default log. */
  function DefaultStudentLog(db: Database, stu: string, sid: int, now: int): (r: (Status, Option<StudentLog>))
    ensures r.0 == Ok <==> GetDefaultLog(db, stu, sid, now).Success?
    ensures r.0 != Ok ==> r.0 == InternalServerError && r.1.None?
    ensures r.0 == Ok ==> r.1 == Some(GetDefaultLog(db, stu, sid, now).value)
  {
    match GetDefaultLog(db, stu, sid, now)
    case Success(l) => (Ok, Some(l))
    case Failure(_) => (InternalServerError, None)
  }
}
