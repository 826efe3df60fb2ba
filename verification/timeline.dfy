/** Timeline entries, the notes and files students hand in
    (src/handler/timeline.rs): the guards of `create_timeline` and the
    permission check in front of deleting an entry. */
module Timelines {
  import opened Wrappers
  import opened Records
  import opened Sessions
  import Config
  import Tables

  /** The most entries one student may already have for one schedule
      before further uploads are refused. */
  const ENTRY_CAP: int := 100

  /** The multipart form of `create_timeline` once parsed: each field is
      absent when the client did not send it. */
  datatype Form = Form(
    stuId: Option<string>, teaId: Option<string>, scheduleId: Option<int>,
    subschedule: Option<string>, subcourseId: Option<int>, note: Option<string>,
    notetype: Option<int>)

  /** All seven fields the stored row needs are present. */
  predicate Complete(f: Form) {
    f.stuId.Some? && f.teaId.Some? && f.scheduleId.Some? && f.subschedule.Some?
    && f.subcourseId.Some? && f.note.Some? && f.notetype.Some?
  }

  /** `count_student_timeline_entries`. */
  function CountEntries(t: seq<Timeline>, stu: string, sch: int): (n: nat)
    ensures n <= |t|
  {
    if |t| == 0 then 0
    else
      var last := t[|t| - 1];
      CountEntries(t[..|t| - 1], stu, sch) + (if last.stuId == stu && last.scheduleId == sch then 1 else 0)
  }

  /** A handler's status with the timeline table it leaves behind. */
  datatype Reply = Reply(status: Status, table: seq<Timeline>)

  /** The caller may file for student `stu`: a teacher for anyone, anybody
      else only for their own id ("" when unreadable). */
  predicate MayFileFor(s: Session, stu: string) {
    Config.Holds(PermissionOrZero(s), Config.TEACHER) || stu == UserIdOrEmpty(s)
  }

  /** `create_timeline`. `countOk` is false when the count query failed: the
      failure is ignored and the cap is then not applied. */
  function CreateTimeline(s: Session, t: seq<Timeline>, f: Form, countOk: bool, now: int): (r: Reply)
    ensures r.status != Ok ==> r.table == t
    ensures (f.stuId.None? || f.scheduleId.None?) ==> r.status == BadRequest
    ensures f.stuId.Some? && f.scheduleId.Some? ==> (
      && (r.status == Unauthorized <==>
            !MayFileFor(s, f.stuId.value)
            || (countOk && CountEntries(t, f.stuId.value, f.scheduleId.value) > ENTRY_CAP))
      && (r.status == BadRequest <==>
            MayFileFor(s, f.stuId.value)
            && !(countOk && CountEntries(t, f.stuId.value, f.scheduleId.value) > ENTRY_CAP)
            && !Complete(f)))
    ensures r.status == Ok ==> (
      && Complete(f) && MayFileFor(s, f.stuId.value)
      && |r.table| == |t| + 1 && r.table[..|t|] == t
      && r.table[|t|] == Timeline(Tables.NextId(t, TimelineId), f.stuId.value, f.teaId.value, f.scheduleId.value,
                                  f.subschedule.value, f.subcourseId.value, f.note.value,
                                  f.notetype.value, now))
    ensures r.status in {Ok, BadRequest, Unauthorized}
  {
    if f.stuId.None? || f.scheduleId.None? then Reply(BadRequest, t)
    else if !Config.Holds(PermissionOrZero(s), Config.TEACHER) && f.stuId.value != UserIdOrEmpty(s) then
      Reply(Unauthorized, t)
    else if countOk && CountEntries(t, f.stuId.value, f.scheduleId.value) > ENTRY_CAP then
      Reply(Unauthorized, t)
    else if !Complete(f) then Reply(BadRequest, t)
    else
      var row := Timeline(Tables.NextId(t, TimelineId), f.stuId.value, f.teaId.value, f.scheduleId.value,
                          f.subschedule.value, f.subcourseId.value, f.note.value, f.notetype.value, now);
      assert (t + [row])[..|t|] == t;
      Reply(Ok, t + [row])
  }

  lemma CountEntriesAppend(t: seq<Timeline>, x: Timeline, stu: string, sch: int)
    ensures CountEntries(t + [x], stu, sch)
      == CountEntries(t, stu, sch) + (if x.stuId == stu && x.scheduleId == sch then 1 else 0)
  {
    assert (t + [x])[..|t|] == t;
  }

  /** While the count query works, no student reaches more than one entry
      past the cap for a schedule: the check tests "more than 100" before
      the insert. */
  lemma CreateKeepsCap(s: Session, t: seq<Timeline>, f: Form, now: int, stu: string, sch: int)
    requires CountEntries(t, stu, sch) <= ENTRY_CAP + 1
    ensures CountEntries(CreateTimeline(s, t, f, true, now).table, stu, sch) <= ENTRY_CAP + 1
  {
    var r := CreateTimeline(s, t, f, true, now);
    if r.status == Ok {
      CountEntriesAppend(t, r.table[|t|], stu, sch);
      assert r.table == t + [r.table[|t|]];
    }
  }

  /** Without the TEACHER bit, every stored entry is the caller's own. */
  lemma StudentsFileOnlyForThemselves(s: Session, t: seq<Timeline>, f: Form, countOk: bool, now: int)
    requires !Config.Holds(PermissionOrZero(s), Config.TEACHER)
    requires CreateTimeline(s, t, f, countOk, now).status == Ok
    ensures CreateTimeline(s, t, f, countOk, now).table[|t|].stuId == UserIdOrEmpty(s)
  {
  }

  /** A failing count query lifts the cap: a complete form for one's own id
      is stored however many entries exist. */
  lemma CountFailureLiftsCap(s: Session, t: seq<Timeline>, f: Form, now: int)
    requires Complete(f) && MayFileFor(s, f.stuId.value)
    ensures CreateTimeline(s, t, f, false, now).status == Ok
  {
  }

  // ---------------------------------------------------------------------
  // The permission check for an existing entry

  /** `get_student_log_by_schedule`: a log of the student whose lab name is
      the name of the schedule with that id. */
  function LogBySchedule(logs: seq<StudentLog>, scheds: seq<Schedule>, stu: string, sch: int): (r: Option<StudentLog>)
    ensures r.Some? ==> (
      && r.value in logs && r.value.stuId == stu
      && exists c :: c in scheds && c.id == sch && c.name == r.value.labName)
    ensures r.None? <==> forall l :: l in logs && l.stuId == stu ==>
      forall c :: c in scheds && c.id == sch ==> c.name != l.labName
  {
    var p := (l: StudentLog) => l.stuId == stu && exists c :: c in scheds && c.id == sch && c.name == l.labName;
    var f := Tables.First(logs, p);
    assert f.Some? ==> f.value in logs by {
      if f.Some? {
        var i :| Tables.FirstAt(logs, p, i) && logs[i] == f.value;
      }
    }
    assert f.None? ==> forall l :: l in logs ==> !p(l) by {
      if f.None? {
        forall l | l in logs ensures !p(l) {
          var i :| 0 <= i < |logs| && logs[i] == l;
        }
      }
    }
    f
  }

  /** The three roles the check recognises for an entry. */
  predicate IsEntryStudent(s: Session, e: Timeline) { UserIdOption(s) == Some(e.stuId) }
  predicate IsEntryTeacher(s: Session, e: Timeline) { UserIdOption(s) == Some(e.teaId) }
  predicate IsAdmin(s: Session) { Config.Holds(PermissionOrZero(s), Config.ADMIN) }

  /** `l` is a log of the entry's student whose lab name is the name of
      the entry's schedule: a row the log query may return. */
  predicate LogOfEntry(l: StudentLog, scheds: seq<Schedule>, e: Timeline) {
    l.stuId == e.stuId && exists c :: c in scheds && c.id == e.scheduleId && c.name == l.labName
  }

  /** The confirmation lock: the log query ran (`logOk`) and returned a
      confirmed log for the entry's student and schedule. */
  predicate Locked(logs: seq<StudentLog>, scheds: seq<Schedule>, e: Timeline, logOk: bool) {
    var l := LogBySchedule(logs, scheds, e.stuId, e.scheduleId);
    logOk && l.Some? && l.value.confirm == 1
  }

  /** `check_timeline_permission`: `lookup` is what fetching the entry
      returned. Only for the entry's own student is the log query run;
      `logOk` is false when it fails, and a failed query counts as no log.
      That student is locked out once the log is confirmed; otherwise the
      student, the entry's teacher and any admin pass. */
  function CheckTimelinePermission(s: Session, lookup: Fetch<Timeline>, logs: seq<StudentLog>,
                                   scheds: seq<Schedule>, logOk: bool): (st: Status)
    ensures lookup.DbError? ==> st == InternalServerError
    ensures lookup.NoRow? ==> st == NotFound
    ensures lookup.Row? ==> (
      && (st == Ok <==>
            (IsEntryStudent(s, lookup.value) || IsEntryTeacher(s, lookup.value) || IsAdmin(s))
            && !(IsEntryStudent(s, lookup.value) && Locked(logs, scheds, lookup.value, logOk)))
      && (st != Ok ==> st == Unauthorized))
  {
    match lookup
    case DbError => InternalServerError
    case NoRow => NotFound
    case Row(e) =>
      if IsEntryStudent(s, e) && logOk then
        match LogBySchedule(logs, scheds, e.stuId, e.scheduleId)
        case Some(log) =>
          if log.confirm == 1 then Unauthorized else Ok
        case None => Ok
      else if !(IsEntryStudent(s, e) || IsEntryTeacher(s, e) || IsAdmin(s)) then Unauthorized
      else Ok
  }

  /** The confirmation lock is tested before the roles: a caller who is the
      entry's student is refused after confirmation even with the ADMIN or
      teacher role. */
  lemma LockBeatsAdmin(s: Session, e: Timeline, logs: seq<StudentLog>, scheds: seq<Schedule>)
    requires IsEntryStudent(s, e) && Locked(logs, scheds, e, true)
    ensures CheckTimelinePermission(s, Row(e), logs, scheds, true) == Unauthorized
  {
  }

  /** When every log of the entry's student for its schedule is confirmed,
      and there is one, that student can no longer touch the entry. */
  lemma AllConfirmedLocksStudent(s: Session, e: Timeline, logs: seq<StudentLog>, scheds: seq<Schedule>)
    requires IsEntryStudent(s, e)
    requires exists l :: l in logs && LogOfEntry(l, scheds, e)
    requires forall l :: l in logs && LogOfEntry(l, scheds, e) ==> l.confirm == 1
    ensures CheckTimelinePermission(s, Row(e), logs, scheds, true) == Unauthorized
  {
    var l :| l in logs && LogOfEntry(l, scheds, e);
    assert LogBySchedule(logs, scheds, e.stuId, e.scheduleId).Some?;
  }

  /** With no confirmed log for its schedule, or a failing log query, the
      entry's student passes. */
  lemma UnconfirmedLeavesStudentIn(s: Session, e: Timeline, logs: seq<StudentLog>, scheds: seq<Schedule>, logOk: bool)
    requires IsEntryStudent(s, e)
    requires !logOk || forall l :: l in logs && LogOfEntry(l, scheds, e) ==> l.confirm != 1
    ensures CheckTimelinePermission(s, Row(e), logs, scheds, logOk) == Ok
  {
  }

  /** The lock binds only the entry's own student: its teacher, or an admin
      who is not that student, still passes. */
  lemma LockSparesOthers(s: Session, e: Timeline, logs: seq<StudentLog>, scheds: seq<Schedule>, logOk: bool)
    requires !IsEntryStudent(s, e) && (IsEntryTeacher(s, e) || IsAdmin(s))
    ensures CheckTimelinePermission(s, Row(e), logs, scheds, logOk) == Ok
  {
  }

  /** With no readable user id, only the ADMIN bit lets a caller through. */
  lemma AnonymousNeedsAdmin(s: Session, e: Timeline, logs: seq<StudentLog>, scheds: seq<Schedule>, logOk: bool)
    requires !s.userId.Found?
    ensures CheckTimelinePermission(s, Row(e), logs, scheds, logOk) == Ok <==> IsAdmin(s)
  {
  }
}
