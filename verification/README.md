# Laboxide core in Dafny

Laboxide is the web back end of a university teaching laboratory. Users log in
with a shared token, and the server keeps their id, real name and a permission
bit mask in a cookie session. Five route scopes are guarded by a permission
gate. The admin, teacher, lab and student scopes require ADMIN, TEACHER|ADMIN,
LAB_MANAGER|ADMIN and STUDENT; the member scope requires STUDENT|TEACHER. A
request passes a gate when its stored mask shares a bit with the scope's mask.

Behind the gates:

- students join and leave lab groups (subcourses), with seats handed out in
  order up to the group's limit;
- students file attendance logs, which teachers force or confirm;
- students hand in timeline entries, which are locked once the log is confirmed;
- meeting rooms are booked, with a conflict query;
- staff keep an equipment register;
- Linux course students get shell and Forgejo accounts;
- a nightly script (`utils/confirmlog.py`) inserts and confirms the logs that
  students forgot.

The model treats each handler as a pure function. It takes the session, the
relevant database tables and any outside outcomes (clock, query failure, remote
command, HTTP answer, random draws) as parameters. It returns the HTTP status
together with the new tables or session.

- Tables are sequences in insertion order.
- A new row gets an id one past every stored id.
- Timestamps are integer seconds, dates are day numbers (day 0 is 1970-01-01, a
  Thursday), and times of day are seconds.
- Permission values are `bv64`, so `p & m != 0` is literal. The values of
  STUDENT, LINUX and MEETING_MANAGER are not part of `src/config.rs`. They are
  left as unconstrained constants, so every property holds whatever they are.

Modules:

- `Wrappers`: Option, Result and Fetch (driver error / no row / row), plus the
  HTTP status.
- `Config`: the permission bits and token.
- `Sessions`: cookie keys that can be read, be missing, or fail to read.
- `Auth`: login, logout and greet.
- `Gate`: the permission middleware.
- `Routes`: the route table.
- `Records`: the table rows.
- `Tables`: first-match and filter queries over a table.
- `Ownership`: `check_course_perm`.
- `Enrollment` and `Groups`: lab groups, in the database and in the handlers.
- `Calendar`: weekdays and week numbers.
- `Meeting`: agendas and the conflict query.
- `StudentLogs`: attendance logs.
- `Timelines`: hand-ins.
- `Subcourses`: group listing, redaction and the LINUX grant.
- `Equipments`: the equipment register.
- `Linux`: account provisioning.
- `ConfirmLog`: the nightly script.

Three behaviours of the code worth noting:

- A join into a full group fails with a generic database error, and the handler
  answers 500, not a dedicated capacity error.
- The meeting conflict relation is not symmetric, because only the stored row's
  `repeat` is consulted.
- `delete_equipment` deletes by id alone, because the database function takes
  no owner.

## Model

| member | source | states |
|---|---|---|
| Config.KnownBitsAreSingleBits | src/config.rs:4-6 | ADMIN, TEACHER and LAB_MANAGER are each a single bit |
| Config.KnownBitsAreDisjoint | src/config.rs:4-6 | the three known role bits share no bit, so roles combine by OR |
| Config.CombinedMasks | src/main.rs:80-97 | the teacher gate's mask TEACHER\|ADMIN is 3 and the lab gate's mask LAB_MANAGER\|ADMIN is 5 |
| Config.HoldsWithMoreBits | src/middleware.rs:57-59 | a permission value that passes a mask still passes it after more role bits are OR-ed in |
| Config.HoldsUnderWiderMask | src/middleware.rs:57-59 | widening a gate's mask never refuses a value that passed the narrower mask |
| Config.NothingHoldsForZero | src/middleware.rs:57-59 | the value 0 passes no mask at all |
| Sessions.ReadOr | src/utils.rs:13 | `.ok().flatten().unwrap_or(d)`: the stored value when readable, the default after a read error or for a missing key |
| Sessions.UserIdOption | src/handler/timeline.rs:156 | `get(..).unwrap_or(None)`: present exactly when the id reads, and then equal to it |
| Auth.Login | src/handler/auth.rs:17-45 | with a wrong token or a failing lookup, the session is unchanged and the request is refused; a known user gets their stored permission and name; an unknown id gets permission 0 and the name "Guest" |
| Auth.Logout | src/handler/auth.rs:49-52 | after logout all three keys are missing |
| Auth.Greet | src/handler/auth.rs:56-87 | Ok exactly when all three keys read; 500 if any read fails; otherwise Unauthorized |
| Auth.LoginThenGreet | src/handler/auth.rs:17-87 | after a successful login greet answers Ok; after a logout it answers Unauthorized |
| Gate.Check | src/middleware.rs:54-84 | Unauthorized iff no permission can be read; Forward iff the value shares a bit with the mask; Forbidden otherwise |
| Gate.ZeroIsForbidden | src/middleware.rs:57-74 | a stored permission of 0 is Forbidden under every mask, never Unauthorized |
| Gate.Monotone | src/middleware.rs:57-66 | adding bits to the value or to the mask never turns a forwarded request into a refusal |
| Gate.OnlyPermissionMatters | src/middleware.rs:54-84 | two sessions with the same stored permission get the same decision whatever their user id or name |
| Routes.Admit | src/main.rs:58-116 | the ungated root always forwards; under any other scope, no readable permission value gives Unauthorized, a permission holding the scope mask is forwarded, and any other permission is Forbidden |
| Routes.TeacherServicesNeedTeacherOrAdmin | src/main.rs:78-94 | every service mounted only under /teacher is reachable only with TEACHER or ADMIN |
| Routes.StudentServicesNeedStudent | src/main.rs:101-108 | every service mounted only under /stu is reachable only with the STUDENT bit |
| Routes.RootServicesAreOpen | src/main.rs:58-69 | services registered on the app itself are reachable by any session |
| Routes.ScopeMasks | src/main.rs:71-100 | the admin, teacher and lab masks are 1, 3 and 5 |
| Routes.AdminOnlyPrincipal | src/main.rs:70-116 | a value holding only ADMIN passes the admin, teacher and lab gates and is Forbidden under /stu and /member when STUDENT is another bit |
| Routes.MixedRoles | src/main.rs:78-100 | TEACHER\|LAB_MANAGER passes both the teacher and lab gates; a STUDENT bit outside the known bits passes neither |
| Routes.GuestAndLoggedOut | src/handler/auth.rs:17-52 | after a guest login every gated scope is Forbidden; after logout every gated scope is Unauthorized while the root still forwards |
| Ownership.FindCourse | src/db.rs:207-217 | NoRow exactly when no course has the id; a found row is in the table with that id |
| Ownership.CheckCoursePerm | src/utils.rs:8-28 | ADMIN passes unconditionally; otherwise a found course passes iff its teacher id is the caller's id (Forbidden if not); NotFound for no row; 500 for a driver error |
| Ownership.AdminNeedsNoCourse | src/utils.rs:8-28 | an admin passes whatever the lookup returned, even a missing course or a failed query |
| Ownership.TeacherBitIgnored | src/utils.rs:8-28 | adding the TEACHER bit to a session never changes the answer |
| Ownership.MissingUserIdIsEmpty | src/utils.rs:8-28 | an unreadable or missing id is compared as "", so it passes only for a course whose teacher id is empty |
| Ownership.NonAdminPassesIffTeacher | src/utils.rs:8-28 | with unique course ids, a non-admin passes iff a course with that id names the caller as its teacher |
| Enrollment.CountIn | src/db.rs:481-486 | the group count is 0 exactly when no row belongs to the group, and never exceeds the table size |
| Enrollment.MaxSeat | src/db.rs:504-506 | absent exactly for an empty group; otherwise bounds every seat of the group and is held by one of its rows |
| Enrollment.NextSeat | src/db.rs:504-506 | above every seat of the group; 1 in an empty group; otherwise one past a seat still held |
| Enrollment.FindLimit | src/db.rs:489-494 | absent exactly when no subcourse has the id; otherwise the limit of such a subcourse |
| Enrollment.Join | src/db.rs:464-517 | an existing member is a no-op success; no subcourse or a full group (count >= limit) fails and inserts nothing; otherwise exactly one row is appended: the student, name and group, the next seat (one above the group's largest, 1 in an empty group) and the next id |
| Enrollment.Remove | src/db.rs:524-528 | never longer than the table |
| Enrollment.RemoveMembers | src/db.rs:524-528 | the rows kept are exactly those that do not match both the student and the group |
| Enrollment.Leave | src/db.rs:519-532 | the flag is true iff a matching row existed; afterwards none remains; every other row is kept and no row is added |
| Enrollment.RemoveShrinksIffHas | src/db.rs:519-532 | the table shrinks iff the student was in the group |
| Enrollment.RemoveDrops | src/db.rs:524-528 | a matching row makes the table strictly shorter |
| Enrollment.RemoveKeepsAll | src/db.rs:524-528 | without a matching row the table is unchanged |
| Enrollment.SetSeat | src/db.rs:534-547 | only the seat of the row with that id changes; every other row and field is unchanged |
| Enrollment.UpdateSubcourse | src/db.rs:426-450 | absent iff no row has the id; otherwise that row takes the request's fields with its own id, and the other rows stay unchanged |
| Enrollment.CountAppend | src/db.rs:481-486 | appending a row adds one to its group's count and nothing to the others |
| Enrollment.JoinPreservesValid | src/db.rs:464-517 | a successful join keeps seats unique per group, one row per student and group, unique ids, and every group within its limit |
| Enrollment.LeavePreservesValid | src/db.rs:519-532 | leaving keeps all four roster invariants |
| Enrollment.RemoveCount | src/db.rs:524-528 | removal never raises any group's count |
| Enrollment.RemovePreserves | src/db.rs:524-528 | removal keeps unique seats, one row per student, and unique ids |
| Enrollment.JoinIdempotent | src/db.rs:468-479 | joining twice is joining once, even under another name |
| Enrollment.LeaveIdempotent | src/db.rs:519-532 | a second leave changes nothing and reports that no row was deleted |
| Enrollment.JoinSeatAboveAll | src/db.rs:500-513 | a new member's seat is above every seat still held in the group |
| Enrollment.SetSeatCanDuplicate | src/db.rs:534-547 | the unchecked seat override can give two members of a group the same seat |
| Enrollment.SetSeatKeepsCounts | src/db.rs:534-547 | the seat override never changes any group's size |
| Enrollment.LoweringLimitBreaksBound | src/db.rs:426-450 | an update that lowers `stu_limit` below the current count is accepted, so the limit invariant can break |
| Enrollment.GroupOfTwoScenario | src/db.rs:464-532 | in a group of limit 2, A gets seat 1, B gets seat 2, C is refused; after A leaves, C gets seat 3 |
| Enrollment.ScenarioFirstJoin | src/db.rs:464-517 | the first member of an empty group gets seat 1 and id 1 |
| Enrollment.ScenarioSecondJoin | src/db.rs:464-517 | the second member gets seat 2 |
| Enrollment.ScenarioFull | src/db.rs:496-498 | a third join into a group of limit 2 fails as full |
| Enrollment.ScenarioLeave | src/db.rs:519-532 | A leaving removes only A's row |
| Enrollment.ScenarioRejoin | src/db.rs:500-513 | after A left, C's seat is one past B's, not A's freed seat |
| Groups.AddGroup | src/handler/group.rs:10-41 | Ok iff both id and name read and the join succeeds; a failed join is 500; a read error in either key is 500; a missing key is Unauthorized; the roster changes only on Ok, and then it is the join's result: unchanged for an existing member, otherwise the caller's row appended with the next seat and next id |
| Groups.LeaveGroup | src/handler/group.rs:45-62 | Ok iff the user id reads, with the caller's row removed whether or not it existed; otherwise Unauthorized and nothing changes |
| Groups.RemoveStudent | src/handler/group.rs:79-89 | always Ok; the named student's row in the named group is gone and the rest is kept |
| Groups.AddGroupIdempotent | src/handler/group.rs:10-41 | a repeated add answers the same and changes nothing more |
| Groups.LeaveGroupIdempotent | src/handler/group.rs:45-62 | a repeated leave answers the same and leaves the same table |
| Groups.RemoveIsLeaveOnBehalf | src/handler/group.rs:79-89 | a teacher's removal has the same effect as the student leaving |
| Groups.IncompleteSessionNeverJoins | src/handler/group.rs:14-24 | a readable id without a readable name never changes the roster: a missing name is Unauthorized, an unreadable one 500 |
| Calendar.Weekday | src/db.rs:1494 | the weekday number, Sunday = 0, is in 0..6 |
| Calendar.EpochIsThursday | src/db.rs:1494 | day 0 and every whole week after it is a Thursday (4) |
| Calendar.WeekdayPeriodic | src/db.rs:1510 | a shift by whole weeks, in either direction, keeps the weekday |
| Calendar.WeekdayNext | src/db.rs:1494 | the next day is the next weekday, Saturday wrapping to Sunday |
| Calendar.TruncDiv | src/db.rs:997 | the quotient rounds toward zero: bracketed from below for a non-negative dividend and from above for a negative one |
| Calendar.TruncDivOfNegative | src/db.rs:997 | -6 days is week 0 and -8 days week -1, where Dafny's Euclidean division gives -1 and -2 |
| Calendar.DayOf | src/db.rs:975-997 | a timestamp falls within the 86400 seconds of its day |
| Meeting.CheckConflict | src/db.rs:1490-1526 | absent iff no stored row clashes; otherwise a clashing row: same room, different id, same date (one-off) or weekday (series), overlapping times |
| Meeting.BackToBackNeverConflicts | src/db.rs:1512 | bookings that only touch end to start never clash |
| Meeting.NeverConflictsWithItself | src/db.rs:1506 | an update is never reported against its own stored row |
| Meeting.CandidateRepeatIgnored | src/db.rs:1507-1511 | the candidate's own `repeat` flag does not change the answer |
| Meeting.NotSymmetric | src/db.rs:1507-1511 | a one-off stored on a later Wednesday does not block a weekly series requested on a Wednesday, but the reverse does clash |
| Meeting.WednesdayScenario | src/db.rs:1490-1526 | a Wednesday 10-12 series blocks 11-13 on a later Wednesday, but not 12-13, and not the same hours on a Thursday |
| Meeting.FindAgenda | src/db.rs:1537-1548 | absent iff no row has the id; a found row has it |
| Meeting.NextAgendaId | src/db.rs:1465-1488 | above every stored id |
| Meeting.UpdateRowAsWritten | src/db.rs:1550-1575 | the statement as written stores the room id as `confirm`; absent when no row has the id |
| Meeting.UpdateRow | src/db.rs:1550-1575 | corrected: the row with the id takes every field of the request, `confirm` included; other rows are unchanged |
| Meeting.UpdateStoresRoomAsConfirm | src/db.rs:1556 | as written, a manager's update of an agenda in room 3 is stored with confirm 3, not 1 |
| Meeting.UpdateThenFind | src/db.rs:1550-1575 | with the corrected statement, reading the row back gives the request with the path's id |
| Meeting.CreateAgenda | src/handler/meeting.rs:57-74 | always Ok; one row is appended with a fresh id; its flag is 1 iff the caller holds MEETING_MANAGER, whatever the client sent |
| Meeting.UpdateAgenda | src/handler/meeting.rs:100-117 | NotFound and no change without the row; otherwise the table keeps its length, every row with the id becomes the submitted request under that id (a manager's flag forced to 1, anyone else's as sent; title, user, repeat, date, times and room as sent), every other row is kept, and reading the id back gives that row |
| Meeting.UpdateAgendaAsWritten | src/handler/meeting.rs:100-117 | the same handler over the statement as written: NotFound iff no row; otherwise every row with the id becomes the request with that id and the room id as its flag, and every other row is kept |
| Meeting.Submitted | src/handler/meeting.rs:105-109 | the submitted request differs from the client's at most in its flag, which is 1 for a MEETING_MANAGER caller and the client's otherwise |
| Meeting.AsWrittenFlagIsRoom | src/db.rs:1556 | as written, the stored flag after any successful update equals the room id, manager or not |
| Meeting.ConfirmAgenda | src/handler/meeting.rs:132-149 | Forbidden without MEETING_MANAGER, before any lookup; NotFound without the row; Ok iff a manager confirms an existing id, and then the rows with the id get flag 1 with every other field kept, all other rows are kept, and reading the id back gives the old row with flag 1 |
| Meeting.ConfirmRows | src/db.rs:1585-1600 | the table keeps its length; rows with the id get flag 1 and keep every other field; the other rows are unchanged |
| Meeting.ConfirmThenFind | src/db.rs:1585-1600 | after confirming, the lookup by id returns the row found before, now with flag 1 |
| Meeting.ConfirmIdempotent | src/handler/meeting.rs:132-149 | confirming an already confirmed agenda again changes nothing |
| Meeting.DeleteAgenda | src/handler/meeting.rs:120-129 | Ok iff some row had the id, which is then gone; NotFound otherwise; no session key is read |
| Meeting.DropId | src/db.rs:1577-1583 | keeps exactly the rows with another id |
| Meeting.NonManagerConfirmsThroughUpdate | src/handler/meeting.rs:100-149 | a non-manager is refused by the confirm route yet stores a confirmed agenda by updating with flag 1 |
| Meeting.DoubleBookingAccepted | src/handler/meeting.rs:57-74 | creating the same slot twice stores two rows that clash with each other |
| Tables.First | src/db.rs:1513-1522 | absent iff no row passes; otherwise the earliest passing row |
| Tables.FirstOfUnique | src/db.rs:1513-1522 | when exactly one row passes, that row is found wherever it stands |
| Tables.FirstAppendMiss | src/db.rs:1513-1522 | appending a row that does not pass changes no answer |
| Tables.NextId | src/db.rs:1216-1236 | the id a new row gets is above every id stored in the table |
| Tables.NextIdKeepsKeysUnique | src/db.rs:1216-1236 | appending a row under the next id keeps a table's ids distinct |
| Tables.Filter | src/db.rs:1238-1261 | keeps exactly the rows that pass, and no more rows than the table has |
| Tables.FilterKeepsAll | src/db.rs:1238-1261 | a filter every row passes returns the table unchanged |
| Tables.FilterIdempotent | src/db.rs:1238-1261 | filtering twice by a test is filtering once |
| StudentLogs.FindRecent | src/db.rs:923-945 | absent iff the student has no log in the group finished in the last five hours; otherwise such a log with the latest finish time |
| StudentLogs.AddLog | src/db.rs:817-837 | refused iff a recent log exists; otherwise the log is appended with a fresh id and finish time `now`, every other field as given |
| StudentLogs.AddThenAddFails | src/db.rs:817-837 | after an add, a second add for the same student and group within five hours is refused |
| StudentLogs.UpdateLog | src/db.rs:850-863 | only unconfirmed rows with the id change, taking the new seat, note and lab name with finish time `now`; the table length is kept |
| StudentLogs.ConfirmedLogsAreFrozen | src/db.rs:856 | a confirmed log is never changed by an update |
| StudentLogs.UpdateLogIdempotent | src/db.rs:850-863 | repeating an update at the same instant changes nothing more |
| StudentLogs.SeatOf | src/db.rs:549-561 | absent iff the student has no row in the group; otherwise the seat of such a row |
| StudentLogs.WeekOf | src/db.rs:997 | the week is one plus the lag plus the whole weeks from the semester start, rounded toward zero: on or after the start the days since it lie in that week's seven days, and before the start the days until it lie within the seven days above it, so the six days before the start are still week 1 plus the lag |
| StudentLogs.GetDefaultLog | src/db.rs:970-1005 | a recent log is returned as it is; otherwise a missing group or semester is an error, and with both found the call succeeds exactly when the student has a seat in the group (NotAMember otherwise); a default log is unsaved (id 0), in the group's room at the student's seat, finished `now`, unconfirmed, named after the week's schedule or "", with empty name, note, teacher note and teacher name |
| StudentLogs.DefaultThenSubmit | src/db.rs:817-1005 | once the default log is added, the next default request within the window returns the stored row |
| StudentLogs.DefaultNeedsMembership | src/db.rs:970-1005 | a non-member without a recent log gets no default log |
| StudentLogs.CheckStuId | src/handler/studentlog.rs:10-19 | Ok iff the session id, "" when unreadable, equals the id in the request; Forbidden otherwise |
| StudentLogs.CreateStudentLog | src/handler/studentlog.rs:22-36 | Forbidden iff the session id ("" when unreadable) is not the request's; 500 iff it is and a recent log exists; Ok iff it is and none exists, and then exactly the request is appended with a fresh id, finish time `now` and flag 0; nothing changes otherwise |
| StudentLogs.CreateThenCreateRefused | src/handler/studentlog.rs:22-36 | after a successful create, a second create for the same student and group within five hours gets 500 |
| StudentLogs.UpdateStudentLog | src/handler/studentlog.rs:39-61 | Forbidden unless the caller is the request's student and owns the stored log; otherwise Ok, with only the caller's unconfirmed row updated |
| StudentLogs.UpdateTouchesOnlyOwnRows | src/handler/studentlog.rs:39-61 | with unique ids, an Ok update leaves every other student's row unchanged |
| StudentLogs.ForceStudentLog | src/handler/studentlog.rs:101-122 | Ok iff there is no recent log and a default log exists, otherwise 500 and no change; on Ok exactly the default log is appended with a fresh id, finish time `now`, flag 1, note "Log by T", the teacher's realname, and the given student name when there is one |
| StudentLogs.ForceThenDefault | src/handler/studentlog.rs:101-155 | after a forced log, the default log within five hours is the forced row, confirmed and noted "Log by T" |
| StudentLogs.ForceFailsAfterStudentLogged | src/handler/studentlog.rs:101-122 | with a recent log, forcing is refused by the add and changes nothing |
| StudentLogs.DefaultStudentLog | src/handler/studentlog.rs:147-155 | Ok with the default log when one exists, 500 otherwise; no session key is read |
| Timelines.CountEntries | src/db.rs:1109-1127 | never exceeds the table size (its per-row behaviour is stated by CountEntriesAppend) |
| Timelines.CreateTimeline | src/handler/timeline.rs:17-139 | BadRequest without student or schedule ids; Unauthorized for a non-teacher filing for someone else, or over 100 entries when the count works; BadRequest for an incomplete form; otherwise one row appended |
| Timelines.CountEntriesAppend | src/db.rs:1109-1127 | appending an entry adds one to its own count only |
| Timelines.CreateKeepsCap | src/handler/timeline.rs:84-87 | while the count works, no student gets past 101 entries for a schedule |
| Timelines.StudentsFileOnlyForThemselves | src/handler/timeline.rs:81-83 | without TEACHER, every stored entry is the caller's own |
| Timelines.CountFailureLiftsCap | src/handler/timeline.rs:84-87 | with a failing count query, a complete own form is stored however many entries exist |
| Timelines.LogBySchedule | src/db.rs:901-921 | absent iff the student has no log named after that schedule; otherwise such a log |
| Timelines.CheckTimelinePermission | src/handler/timeline.rs:141-175 | NotFound or 500 from the lookup; otherwise Ok iff the caller is the entry's student, its teacher or an admin, and is not the entry's student with the schedule's log (looked up only for that student, a failing query counting as none) confirmed; Unauthorized otherwise |
| Timelines.LockBeatsAdmin | src/handler/timeline.rs:160-166 | the confirmation lock is tested before the roles, so it binds even an admin who is the entry's student |
| Timelines.LockSparesOthers | src/handler/timeline.rs:160-171 | the lock binds only the entry's own student; its teacher or another admin still passes |
| Timelines.AllConfirmedLocksStudent | src/handler/timeline.rs:160-166 | when the entry's student has a log for its schedule and all such logs are confirmed, that student is Unauthorized |
| Timelines.UnconfirmedLeavesStudentIn | src/handler/timeline.rs:160-175 | when no log for the schedule is confirmed, or the log query fails, the entry's student passes |
| Timelines.AnonymousNeedsAdmin | src/handler/timeline.rs:141-175 | with no readable user id, only ADMIN passes |
| Subcourses.ListSubcoursesQuery | src/db.rs:354-392 | empty without a course id; otherwise exactly the course's groups, within the semester when one is given |
| Subcourses.CurrentSemester | src/db.rs:123-140 | absent iff no semester's inclusive range contains today; otherwise one that does |
| Subcourses.CurrentSemesterUnique | src/db.rs:123-140 | with non-overlapping semesters, the current one is the one containing today |
| Subcourses.TeacherList | src/db.rs:623-650 | exactly the joined rows of the teacher in the current semester; none without one |
| Subcourses.StudentList | src/db.rs:593-621 | exactly the joined rows of the current semester whose group has the student as a member |
| Subcourses.Redact | src/handler/subcourse.rs:46-52 | the teacher id is blanked iff the caller lacks TEACHER; every other field is kept |
| Subcourses.ListSubcourses | src/handler/subcourse.rs:37-57 | one redacted row per query row, in order |
| Subcourses.GetSubcourse | src/handler/subcourse.rs:101-116 | the found group redacted; 500 when the lookup fails |
| Subcourses.Grant | src/handler/subcourse.rs:80-91 | a listed Linux course writes back the permission value with LINUX OR-ed in; otherwise the session is unchanged; the id and name are never touched |
| Subcourses.ListMySubcourses | src/handler/subcourse.rs:60-98 | an empty or unreadable user id is Unauthorized; TEACHER gets the teacher listing unredacted and an unchanged session; otherwise STUDENT gets the redacted student listing and the grant; with neither bit, 500 |
| Subcourses.GrantOnlyAddsBits | src/handler/subcourse.rs:82-86 | after the listing every bit held before is still held, and LINUX is the only bit that can appear |
| Subcourses.GrantKeepsAccess | src/handler/subcourse.rs:82-90 | every scope gate that forwarded the caller before still does |
| Subcourses.TeachersGetNoGrant | src/handler/subcourse.rs:72-73 | a teacher's session is unchanged by the listing, even with a Linux course |
| Subcourses.CreateSubcourse | src/handler/subcourse.rs:14-28 | authorised against the payload's course; a refusal appends nothing; on Ok one group is appended with every field of the request except the id, which the database assigns fresh (src/db.rs:331-352) |
| Subcourses.CreateThenFind | src/db.rs:331-352 | a created group is found under its new id, with the request's fields |
| Subcourses.UpdateSubcourse | src/handler/subcourse.rs:119-147 | a group that cannot be fetched is 500; the check uses the stored course, not the requested one |
| Subcourses.DeleteSubcourse | src/handler/subcourse.rs:139-168 | the same check placement as for update; Ok removes the group |
| Subcourses.MoveIntoForeignCourse | src/handler/subcourse.rs:119-137 | the owner of course 1 may move a group into course 2, which another teacher owns |
| Equipments.CreateEquipment | src/handler/equipment.rs:9-26 | Ok iff the user id reads, and then one row is appended with a fresh id and the caller as owner, whatever the payload named; otherwise Unauthorized and no change |
| Equipments.GetEquipment | src/handler/equipment.rs:49-59 | Ok with a row of that id, or NotFound iff none exists; no owner check |
| Equipments.GetIgnoresOwner | src/handler/equipment.rs:49-59 | any stored row with the id is found, whoever owns it |
| Equipments.UpdateEquipment | src/db.rs:1279-1301 | Unauthorized without a user id; NotFound iff the caller owns no row with that id; otherwise exactly the caller's row with that id takes the request's fields |
| Equipments.UpdateSparesOthers | src/handler/equipment.rs:62-82 | another user's row is never changed by an update |
| Equipments.DeleteEquipment | src/db.rs:1303-1312 | Unauthorized without a user id; NotFound iff no row has the id; afterwards exactly the rows with another id remain |
| Equipments.DeleteIgnoresOwner | src/handler/equipment.rs:85-101 | any two logged-in callers get the same deletion, owner or not |
| Equipments.OffsetLimit | src/handler/equipment.rs:39-40 | the limit is the page size (10 by default); offset plus limit is page times size (page 1 by default) |
| Equipments.Window | src/db.rs:1248-1249 | at most `limit` rows, each the row at `offset` plus its position |
| Equipments.ConsecutivePages | src/handler/equipment.rs:39-40 | page p followed by page p+1 is the double-size window at page p's offset: no overlap and no gap |
| Equipments.NewestFirst | src/db.rs:1246-1248 | contains exactly the owner's rows |
| Equipments.ListEquipments | src/handler/equipment.rs:29-46 | Unauthorized without a user id; otherwise at most one page of rows, all owned by the caller |
| Equipments.And | src/db.rs:1388 | SQL AND is true iff both sides are true |
| Equipments.EqValue | src/db.rs:1388 | `x = v` is true iff x is non-NULL and equals v |
| Equipments.EqNull | src/db.rs:1388 | `x = NULL` is never true, for NULL and non-NULL x alike |
| Equipments.IsNull | src/db.rs:1388 | `x IS NULL` is true iff x is NULL |
| Equipments.ReturnWhere | src/db.rs:1377-1397 | absent iff no row meets the condition; otherwise every matching row gets the return date and the returned row is one of them |
| Equipments.ReturnLoanAsWritten | src/db.rs:1377-1397 | as written, the statement never matches a row, so the call always fails |
| Equipments.ReturnLoan | src/db.rs:1377-1397 | corrected: fails iff the item has no open loan; otherwise every open loan of the item gets the return date, every other row is unchanged, and no open loan of the item remains |
| Equipments.OpenLoanNeverClosedAsWritten | src/db.rs:1388 | one open loan of item 4: as written it is not found, and corrected it is closed |
| Equipments.ReturnTwiceFails | src/db.rs:1377-1397 | corrected, returning the same item twice fails the second time |
| Linux.EscapeQuotes | src/handler/linux.rs:36 | every `"` in the output is preceded by a backslash; without quotes the key is unchanged |
| Linux.EscapeRoundTrip | src/handler/linux.rs:36 | reading `\"` back as `"` recovers the key exactly, so no other character is changed |
| Linux.EscapeInjective | src/handler/linux.rs:36 | two keys with the same escaped text are the same key |
| Linux.ShellWordShrinks | src/handler/linux.rs:30-43 | quote removal drops every `'` of a word or its backslash, so the text read is at least that many characters shorter |
| Linux.SingleQuotedIntact | src/handler/linux.rs:30-37 | a text between single quotes reads back unchanged iff it holds no `'` |
| Linux.QuotedAfterPrefix | src/handler/linux.rs:30-37 | after a prefix, a single-quoted text reads back as the text iff it holds no `'` |
| Linux.SshCommandAsWritten | src/handler/linux.rs:30-37 | as written, the command line starts with `ssh -t user@host `, and the shell hands `ssh` the remote command unchanged iff the remote command holds no `'` |
| Linux.QuoteInKeyBreaksCommandAsWritten | src/handler/linux.rs:30-37 | as written, a key holding a `'` keeps the shell from handing the remote command to `ssh` unchanged |
| Linux.ShellQuote | src/handler/linux.rs:30-37 | corrected quoting: a text without `'` is just put between single quotes |
| Linux.ShellQuoteRoundTrip | src/handler/linux.rs:30-37 | whatever the text holds, the shell reads its quoted form back as the text |
| Linux.SshCommand | src/handler/linux.rs:30-37 | corrected command line: the same as the one written whenever the remote command holds no `'` |
| Linux.AddLinuxUser | src/handler/linux.rs:16-62 | a command runs iff the id ("" when unreadable) is non-empty and LINUX is held, otherwise Unauthorized; the command is the corrected command line for the id and key; Ok iff it exits successfully, else 500 |
| Linux.AddLinuxUserAsWritten | src/handler/linux.rs:16-62 | as written: the same guard and statuses as the corrected handler, the command line as written, which `ssh` receives intact iff the remote command holds no `'`; identical to the corrected handler in that case |
| Linux.KeyReachesScript | src/handler/linux.rs:29-43 | with the corrected quoting, the shell hands `ssh` exactly the remote command, the account script with the id and escaped key as double-quoted arguments, whatever the key holds |
| Linux.AlphanumericAt | src/handler/linux.rs:65-71 | each of the 62 positions is an alphanumeric character |
| Linux.AlphanumericIndex | src/handler/linux.rs:65-71 | every alphanumeric character is at some position of the alphabet |
| Linux.GeneratePassword | src/handler/linux.rs:65-71 | exactly n characters, each alphanumeric |
| Linux.EveryAlphanumericWordPossible | src/handler/linux.rs:65-71 | every alphanumeric word of length n is some draw's password, so the alphabet is not narrower |
| Linux.GitGuard | src/handler/linux.rs:80-87 | passes iff the id reads, is non-empty and LINUX is held; a missing or empty id is Unauthorized before the permission test, and a clear LINUX bit is Forbidden |
| Linux.AddForgeUser | src/handler/linux.rs:75-133 | after the guard, the user is created with e-mail id@stu.pku.edu.cn and a 16-character password; Ok iff Forgejo answers 201, and the password is handed back only then |
| Linux.ResetForgePassword | src/handler/linux.rs:139-194 | after the guard, a 16-character password is sent to the user's path; Ok iff the answer is 2xx, and the password is handed back only then |
| Linux.HandedOutPasswordsAreAlphanumeric | src/handler/linux.rs:90-154 | any password handed back is 16 alphanumeric characters |
| Linux.TwoHundredOnlyResets | src/handler/linux.rs:106-165 | a 200 answer counts as success for a reset but as failure for a creation |
| Linux.LinuxBitRefusals | src/handler/linux.rs:24-87 | a logged-in caller without LINUX gets Unauthorized from the shell account route and Forbidden from both Forgejo routes |
| ConfirmLog.Distinct | utils/confirmlog.py:15 | keeps exactly the values of the input, with no repeats |
| ConfirmLog.TriplesSince | utils/confirmlog.py:14-19 | exactly the triples of timeline rows stamped at or after the cutoff |
| ConfirmLog.LoggedPairs | utils/confirmlog.py:24-34 | exactly the (student, subcourse) pairs of logs finished at or after the cutoff |
| ConfirmLog.RecentTriples | utils/confirmlog.py:14-22 | a triple is listed iff a timeline row stamped at or after the cutoff carries it; none is listed twice |
| ConfirmLog.MissingLogs | utils/confirmlog.py:34-40 | a triple is missing iff a timeline row in the window carries it and no log in the window has its pair; none is listed twice |
| ConfirmLog.FilterKeepsDistinct | utils/confirmlog.py:36-40 | filtering a list without repeats keeps it without repeats |
| ConfirmLog.StudentRow | utils/confirmlog.py:43-47 | absent iff no `students` row has the student and subcourse; otherwise the first such row, whose name and seat are read |
| ConfirmLog.ScheduleName | utils/confirmlog.py:48-50 | absent iff no schedule has the id; otherwise the name of the first schedule with the id |
| ConfirmLog.RoomOf | utils/confirmlog.py:51-53 | absent iff no subcourse has the id; otherwise the room of the first subcourse with the id |
| ConfirmLog.LogFor | utils/confirmlog.py:42-60 | absent iff a lookup finds no row; otherwise a log for the triple's pair with the student row's name and seat, the schedule's name as lab name, the subcourse's room, note "", "Log by C", "cronjob", finish time `stamp`, confirm 1 and a fresh id |
| ConfirmLog.InsertAll | utils/confirmlog.py:42-61 | fails iff some triple cannot be resolved; otherwise the old rows are kept in front, followed by one new row per triple |
| ConfirmLog.InsertAllFields | utils/confirmlog.py:42-61 | the k-th appended row carries the student, subcourse, notes, stamp and confirm=1 of the k-th missing triple |
| ConfirmLog.InsertAllRows | utils/confirmlog.py:42-61 | the k-th appended row is exactly the log built for the k-th missing triple from the lookups (name, seat, lab name, room) over the table as it stood before that insert, so its id is fresh there |
| ConfirmLog.AppendKeepsRows | utils/confirmlog.py:42-61 | appending the log built for one more triple keeps every appended row equal to the log built for its triple |
| ConfirmLog.LogForSameIds | utils/confirmlog.py:55-60 | the inserted log depends on the table only through its ids |
| Tables.NextIdSameKeys | src/db.rs:1216-1236 | two tables with the same ids row by row give a new row the same id |
| ConfirmLog.ConfirmKeepsRows | utils/confirmlog.py:59-65 | the confirming update leaves each inserted log equal to the log built for its triple |
| ConfirmLog.ConfirmRecent | utils/confirmlog.py:64-65 | exactly the unconfirmed logs of the window get confirm 1, "Conf by C" and "cronjob"; every other log is unchanged |
| ConfirmLog.CrashesIffUnresolvable | utils/confirmlog.py:42-53 | the run fails, committing nothing, iff some missing triple cannot be resolved |
| ConfirmLog.InsertThenConfirm | utils/confirmlog.py:42-65 | after inserting and confirming, the old rows are confirmed in place and each inserted row is still the log built for its triple from the lookups |
| ConfirmLog.Reconcile | utils/confirmlog.py:11-67 | the run fails iff some missing triple cannot be resolved; otherwise the table grows by exactly one row per missing triple |
| ConfirmLog.ReconcileShape | utils/confirmlog.py:11-65 | after a run, the old logs are confirmed in place, and one confirmed "Log by C" log follows per missing triple, each exactly the log built from its lookups (student name and seat, lab name, room, fresh id) |
| ConfirmLog.ConfirmedShape | utils/confirmlog.py:59-65 | no log of the window is left unconfirmed, and old rows outside the update are kept |
| ConfirmLog.WindowFullyConfirmed | utils/confirmlog.py:11-65 | after a run no log of the window has confirm 0; a log changes only if it was an unconfirmed log of the window |
| ConfirmLog.EveryRecentPairLogged | utils/confirmlog.py:11-65 | with the insert stamp inside the window, every student and subcourse of a recent timeline row has a log in the window afterwards |
| ConfirmLog.ReconcileIdempotent | utils/confirmlog.py:11-65 | a second run over the same window finds nothing missing and returns the table unchanged |
| ConfirmLog.TwoSchedulesTwoLogs | utils/confirmlog.py:36-61 | one unlogged pair with two schedules in the window gives two missing triples, so two logs |

## Left out

- Transport is not modelled: actix routing, JSON bodies, cookie encoding and
  response bodies. A handler's answer is its status and its effect on the
  tables or session.
- SQL is modelled per statement over sequences. Transactions, concurrency
  between requests (two joins racing for the last seat) and driver errors are
  not modelled, except where a handler branches on a lookup's outcome; those
  outcomes are `Fetch`/`Option` parameters. A failing insert, update or delete
  (a 500 in every handler) is therefore not a case of the model.
- `fin_time` and `timestamp` are compared in the source as text
  (`%Y-%m-%d %H:%M:%S`). Here they are integer seconds, which agrees with the
  text order for well-formed values.
- Integer widths are not modelled: i64 ids, usize page arithmetic and the
  i64-to-usize casts. Unbounded integers are used throughout.
- Equipments.OffsetLimit: page 0 is excluded. `(page - 1)` on `usize`
  underflows there, which panics or wraps depending on the build, and neither
  outcome is modelled.
- The clock is a parameter (`now`; in the nightly script also a later
  `stamp`). `utils/confirmlog.py:60` calls `datetime.now()` once per inserted
  row, inside the loop that starts at line 42. The model gives every inserted
  row the same `stamp`, so it does not cover rows of one run getting
  different finish times.
- The SSH command, the Forgejo HTTP calls and the random generator are
  outcomes passed in.
- Linux.ShellWord models only the local `sh -c` reading of the single
  argument after `ssh -t user@host`: quote removal over single quotes,
  backslashes and plain characters, with any other special character
  rejected. Double quotes, expansions and field splitting are not modelled.
  The remote shell's reading of the double-quoted arguments is not modelled
  either. There, `$`, backquote and `\` keep their meaning, and EscapeQuotes
  rewrites only `"`. So nothing is promised about what the account script
  finally receives.
- Linux.GeneratePassword: `draw` stands for the generator's samples. The
  contract covers length and alphabet only, not the distribution.
- The `/gituser` and `/resetgituser` handlers are modelled, although
  `src/main.rs` does not mount them.
- Some handlers and database functions do not agree on names, arity or return types:
  - `delete_equipment` is passed three arguments but takes two;
  - `update_equipment`, `get_meeting_agenda_by_id`, `update_meeting_agenda`
    and `confirm_meeting_agenda` return a row where the handlers match on
    `Option`;
  - `get_user_by_id` and `get_course_by_id` return a row where `login` and
    `check_course_perm` match on `Option`;
  - `get_timeline_by_id` (`src/db.rs:1195-1212`, `fetch_one`) returns a row
    where `check_timeline_permission` (`src/handler/timeline.rs:146-153`) and
    the download handler (line 238) match on `Option`;
  - `get_equipment_by_id` (`src/db.rs:1263-1276`, `fetch_one`) returns a row
    where `get_equipment` (`src/handler/equipment.rs:54-56`) matches on
    `Option`;
  - `src/handler/timeline.rs:14` imports `check_subcourse_perm`, which
    `src/utils.rs` does not define (it defines only `check_course_perm`);
  - `list_timelines_by_student` takes four parameters (`src/db.rs:1160-1165`)
    but `src/handler/timeline.rs:224` passes three;
  - `src/handler/studentlog.rs:109` calls `get_student_name`, which
    `src/db.rs` does not define.

  The model follows the handler's branches and the statement's effect.
  "No row" is NotFound where a handler distinguishes it.
- Read-only listings that compute nothing beyond their query are not
  modelled: `list_group` (`ORDER BY seat`), `get_recent_logs`,
  `get_student_logs_by_room`, `list_timelines_by_schedule`,
  `list_timelines_by_student` and `list_meeting_agendas`. Nor is
  `confirm_student_log`, which rewrites a note and flag without checks.
- `ORDER BY` orders beyond table order are not modelled.
  - `find_recent_student_log` picks a latest-finishing row, and ties are left
    open.
  - `list_equipments` is read as newest-first table order, with ids
    increasing.
  - `LIMIT 1` without `ORDER BY` takes the first row in table order.
- Equipments.ListEquipments: states the page's size and ownership, not its
  exact contents.
- File handling is not modelled: multipart parsing, file storage and the
  download handlers of `timeline.rs` and `coursefile.rs`. Only their
  permission checks are covered.
- The plain CRUD handlers (users, semesters, courses, lab rooms, meeting
  rooms, schedules, course files, sub-schedules) are mounted in `Routes` but
  their bodies are not modelled.
- The nightly script's database connection, and its crash on a missing row
  (a `TypeError` from subscripting `None`), are modelled as an absent result
  with nothing committed.

## Findings

| source | as written | input that shows it | evidently intended | confidence | as-written member | corrected member |
|---|---|---|---|---|---|---|
| src/db.rs:1556 | `confirm = ?8` binds the room id into the confirm column; the request's confirm (`?9`) is never used | a manager updates an agenda in room 3: the stored confirm is 3, not 1 | `confirm = ?9`, storing the flag the handler set | high (not executed) | Meeting.UpdateStoresRoomAsConfirm | Meeting.UpdateThenFind |
| src/db.rs:1388 | `returned_date = NULL` is unknown for every row, so no loan ever matches and `fetch_one` fails | one open loan (returned date NULL) of item 4, returned on day 120: nothing is updated | `returned_date IS NULL`, closing the item's open loans | high (not executed) | Equipments.OpenLoanNeverClosedAsWritten | Equipments.ReturnLoan |
| src/handler/linux.rs:30-37 | the remote command is put between single quotes, and only `"` of the key is escaped | a key holding `'`: the `'` closes the quoted argument early, so `ssh` no longer receives the remote command as built | quote the remote command for the shell, writing each `'` as `'\''` | high (not executed) | Linux.QuoteInKeyBreaksCommandAsWritten | Linux.KeyReachesScript |
