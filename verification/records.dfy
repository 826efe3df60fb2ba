/** The rows of the database tables the core reads and writes. Dates are day
    numbers (day 0 is 1970-01-01), timestamps are seconds of naive local
    time, and times of day are seconds since midnight. */
module Records {
  import opened Wrappers

  /** A row of `courses`; only the owner matters to the core. */
  datatype Course = Course(id: int, name: string, teaId: string)

  /** A row of `subcourses`: one lab group of a course in one semester
      (`year_id`), with its seat limit and week offset. */
  datatype Subcourse = Subcourse(
    id: int, weekday: int, roomId: int, teaName: string, teaId: string,
    yearId: int, stuLimit: int, courseId: int, lagWeek: int)

  /** A row of the join of `subcourses` with `courses` and `labrooms` that
      the "my courses" listings return. */
  datatype SubcourseView = SubcourseView(
    id: int, roomName: string, teaName: string, teaId: string, yearId: int,
    courseId: int, courseName: string)

  /** A row of `students`: one student's membership and seat in a group. */
  datatype Member = Member(id: int, stuId: string, stuName: string, seat: int, subcourseId: int)

  /** The row ids, as functions to key a table by. */
  function MemberId(m: Member): int { m.id }
  function LogId(l: StudentLog): int { l.id }
  function TimelineId(t: Timeline): int { t.id }
  function EquipmentId(e: Equipment): int { e.id }
  function SubcourseId(sc: Subcourse): int { sc.id }

  /** A row of `semesters`: the inclusive day range `[start, end]`. */
  datatype Semester = Semester(id: int, name: string, start: int, end: int)

  /** A row of `course_schedules`: the topic of one teaching week. */
  datatype Schedule = Schedule(id: int, week: int, name: string, courseId: int)

  /** A row of `student_logs`: a student's attendance record for a session. */
  datatype StudentLog = StudentLog(
    id: int, stuId: string, stuName: string, subcourseId: int, roomId: int,
    seat: int, labName: string, note: string, teaNote: string, teaName: string,
    finTime: int, confirm: int)

  /** A row of `student_timelines`: one note or file a student handed in. */
  datatype Timeline = Timeline(
    id: int, stuId: string, teaId: string, scheduleId: int, subschedule: string,
    subcourseId: int, note: string, notetype: int, timestamp: int)

  /** A row of `equipments`, owned by the user who created it. */
  datatype Equipment = Equipment(
    id: int, name: string, serial: string, value: string, position: string,
    status: string, note: string, ownerId: string)

  /** A row of `meeting_agendas`. The id is absent on a request that has not
      been stored yet; `repeat` is 1 for a weekly series and 0 for a one-off
      booking; `date` is a day number and the times are seconds of the day. */
  datatype Agenda = Agenda(
    id: Option<int>, title: string, userid: string, username: string, repeat: int,
    date: int, startTime: int, endTime: int, roomId: int, confirm: int)
}
