/** The nightly reconciliation script (utils/confirmlog.py): every student
    who handed something in during the last 24 hours but has no attendance
    log in that window gets one, then every unconfirmed log of the window is
    confirmed. Timestamps are seconds; `now` is the clock read that fixes the
    window and `stamp` the later read written into inserted logs. */
module ConfirmLog {
  import opened Wrappers
  import opened Records
  import Tables
  import StudentLogs

  const WINDOW: int := 24 * 3600

  /** What the script reads from one timeline row. */
  datatype Triple = Triple(stuId: string, subcourseId: int, scheduleId: int)

  function TripleOf(t: Timeline): Triple {
    Triple(t.stuId, t.subcourseId, t.scheduleId)
  }

  /** No value occurs twice. */
  predicate NoRepeats<T(==)>(s: seq<T>) {
    forall i, j :: 0 <= i < j < |s| ==> s[i] != s[j]
  }

  /** Removes repeats, keeping each value's first occurrence. */
  function Distinct<T(==,!new)>(s: seq<T>): (r: seq<T>)
    ensures forall x :: x in r <==> x in s
    ensures NoRepeats(r)
  {
    if |s| == 0 then []
    else
      var p := Distinct(s[..|s| - 1]);
      var x := s[|s| - 1];
      assert s == s[..|s| - 1] + [x];
      if x in p then p else p + [x]
  }

  /** The triples of the timeline rows stamped at or after `cutoff`. */
  function TriplesSince(tl: seq<Timeline>, cutoff: int): (r: seq<Triple>)
    ensures forall x :: x in r <==> exists i :: 0 <= i < |tl| && tl[i].timestamp >= cutoff && TripleOf(tl[i]) == x
  {
    if |tl| == 0 then []
    else
      var p := TriplesSince(tl[..|tl| - 1], cutoff);
      var last := tl[|tl| - 1];
      assert forall i :: 0 <= i < |tl| - 1 ==> tl[..|tl| - 1][i] == tl[i];
      if last.timestamp >= cutoff then p + [TripleOf(last)] else p
  }

  /** `SELECT DISTINCT stu_id, subcourse_id, schedule_id ... WHERE
      timestamp >= cutoff`. */
  function RecentTriples(tl: seq<Timeline>, cutoff: int): (r: seq<Triple>)
    ensures forall x :: x in r <==> exists i :: 0 <= i < |tl| && tl[i].timestamp >= cutoff && TripleOf(tl[i]) == x
    ensures NoRepeats(r)
  {
    Distinct(TriplesSince(tl, cutoff))
  }

  /** The (student, subcourse) pairs with a log at or after `cutoff`. */
  function LoggedPairs(logs: seq<StudentLog>, cutoff: int): (r: set<(string, int)>)
    ensures forall stu, sid :: (stu, sid) in r <==>
      exists i :: 0 <= i < |logs| && logs[i].finTime >= cutoff && logs[i].stuId == stu && logs[i].subcourseId == sid
  {
    set i | 0 <= i < |logs| && logs[i].finTime >= cutoff :: (logs[i].stuId, logs[i].subcourseId)
  }

  /** The test `(stu_id, subcourse_id) not in logged_pairs`. */
  function Unlogged(pairs: set<(string, int)>): Triple -> bool {
    (t: Triple) => (t.stuId, t.subcourseId) !in pairs
  }

  /** The recent triples whose pair has no recent log, in query order: a
      triple is missing exactly when some timeline row of the window
      carries it and no log of the window has its student and subcourse;
      each missing triple is listed once. */
  function MissingLogs(tl: seq<Timeline>, logs: seq<StudentLog>, cutoff: int): (r: seq<Triple>)
    ensures forall x :: x in r <==> (
      && (exists i :: 0 <= i < |tl| && tl[i].timestamp >= cutoff && TripleOf(tl[i]) == x)
      && !exists j :: 0 <= j < |logs| && logs[j].finTime >= cutoff
           && logs[j].stuId == x.stuId && logs[j].subcourseId == x.subcourseId)
    ensures NoRepeats(r)
  {
    FilterKeepsDistinct(RecentTriples(tl, cutoff), Unlogged(LoggedPairs(logs, cutoff)));
    Tables.Filter(RecentTriples(tl, cutoff), Unlogged(LoggedPairs(logs, cutoff)))
  }

  /** Filtering a list without repeats leaves a list without repeats. */
  lemma {:induction false} FilterKeepsDistinct<T(!new)>(s: seq<T>, p: T -> bool)
    requires NoRepeats(s)
    ensures NoRepeats(Tables.Filter(s, p))
  {
    if |s| > 0 {
      var init := s[..|s| - 1];
      var x := s[|s| - 1];
      assert forall i :: 0 <= i < |init| ==> init[i] == s[i];
      FilterKeepsDistinct(init, p);
      assert x !in init;
      var fi := Tables.Filter(init, p);
      assert x !in fi;
      if p(x) {
        var r := fi + [x];
        assert Tables.Filter(s, p) == r;
        forall i, j | 0 <= i < j < |r| ensures r[i] != r[j] {
          assert r[i] == fi[i];
          if j == |fi| {
            assert fi[i] in fi;
          } else {
            assert r[j] == fi[j];
          }
        }
      } else {
        assert Tables.Filter(s, p) == fi;
      }
    }
  }

  /** The first `students` row of the pair: its name and seat. */
  function StudentRow(members: seq<Member>, stu: string, sid: int): (r: Option<Member>)
    ensures r.None? <==> forall i :: 0 <= i < |members| ==> !(members[i].stuId == stu && members[i].subcourseId == sid)
    ensures r.Some? ==> exists i :: (
      && 0 <= i < |members| && members[i] == r.value
      && members[i].stuId == stu && members[i].subcourseId == sid
      && forall j :: 0 <= j < i ==> !(members[j].stuId == stu && members[j].subcourseId == sid))
  {
    Tables.First(members, (m: Member) => m.stuId == stu && m.subcourseId == sid)
  }

  /** The name of schedule `id`. */
  function ScheduleName(scheds: seq<Schedule>, id: int): (r: Option<string>)
    ensures r.None? <==> forall i :: 0 <= i < |scheds| ==> scheds[i].id != id
    ensures r.Some? ==> exists i :: (
      && 0 <= i < |scheds| && scheds[i].id == id && scheds[i].name == r.value
      && forall j :: 0 <= j < i ==> scheds[j].id != id)
  {
    match Tables.First(scheds, (s: Schedule) => s.id == id)
    case None => None
    case Some(s) => Some(s.name)
  }

  /** The room of subcourse `id`. */
  function RoomOf(subs: seq<Subcourse>, id: int): (r: Option<int>)
    ensures r.None? <==> forall i :: 0 <= i < |subs| ==> subs[i].id != id
    ensures r.Some? ==> exists i :: (
      && 0 <= i < |subs| && subs[i].id == id && subs[i].roomId == r.value
      && forall j :: 0 <= j < i ==> subs[j].id != id)
  {
    match StudentLogs.FindSubcourse(subs, id)
    case None => None
    case Some(sc) => Some(sc.roomId)
  }

  /** The triple's lookups all find a row. */
  predicate Resolvable(db: StudentLogs.Database, t: Triple) {
    && StudentRow(db.members, t.stuId, t.subcourseId).Some?
    && ScheduleName(db.scheds, t.scheduleId).Some?
    && RoomOf(db.subs, t.subcourseId).Some?
  }

  /** The log inserted for one missing triple, or None when a lookup finds
      no row (`fetchone()` returns None and subscripting it raises). */
  function LogFor(db: StudentLogs.Database, logs: seq<StudentLog>, t: Triple, stamp: int): (r: Option<StudentLog>)
    ensures r.Some? ==> InsertedFor(r.value, t, stamp)
    ensures r.Some? ==> forall i :: 0 <= i < |logs| ==> logs[i].id < r.value.id
    ensures r.None? <==> !Resolvable(db, t)
    ensures r.Some? ==>
      && r.value.stuName == StudentRow(db.members, t.stuId, t.subcourseId).value.stuName
      && r.value.seat == StudentRow(db.members, t.stuId, t.subcourseId).value.seat
      && r.value.labName == ScheduleName(db.scheds, t.scheduleId).value
      && r.value.roomId == RoomOf(db.subs, t.subcourseId).value
  {
    match StudentRow(db.members, t.stuId, t.subcourseId)
    case None => None
    case Some(m) =>
      match ScheduleName(db.scheds, t.scheduleId)
      case None => None
      case Some(lab) =>
        match RoomOf(db.subs, t.subcourseId)
        case None => None
        case Some(room) =>
          Some(StudentLog(Tables.NextId(logs, LogId), t.stuId, m.stuName, t.subcourseId, room,
                          m.seat, lab, "", "Log by C", "cronjob", stamp, 1))
  }

  /** The fields every log the script inserts for triple `t` carries. */
  predicate InsertedFor(l: StudentLog, t: Triple, stamp: int) {
    && l.stuId == t.stuId && l.subcourseId == t.subcourseId
    && l.note == "" && l.teaNote == "Log by C" && l.teaName == "cronjob"
    && l.finTime == stamp && l.confirm == 1
  }

  /** The insert loop: one log per triple, in order; the first failed lookup
      aborts the run. */
  function InsertAll(db: StudentLogs.Database, logs: seq<StudentLog>, missing: seq<Triple>, stamp: int): (r: Option<seq<StudentLog>>)
    ensures r.None? <==> exists k :: 0 <= k < |missing| && !Resolvable(db, missing[k])
    ensures r.Some? ==> |r.value| == |logs| + |missing| && r.value[..|logs|] == logs
  {
    if |missing| == 0 then Some(logs)
    else
      var n := |missing| - 1;
      assert forall k :: 0 <= k < n ==> missing[..n][k] == missing[k];
      match InsertAll(db, logs, missing[..n], stamp)
      case None => None
      case Some(prev) =>
        match LogFor(db, prev, missing[n], stamp)
        case None => None
        case Some(l) =>
          assert (prev + [l])[..|logs|] == prev[..|logs|];
          Some(prev + [l])
  }

  /** Each appended log carries the fields of its own triple, in the order
      of the triples. */
  lemma {:induction false} InsertAllFields(db: StudentLogs.Database, logs: seq<StudentLog>, missing: seq<Triple>, stamp: int)
    requires InsertAll(db, logs, missing, stamp).Some?
    ensures var r := InsertAll(db, logs, missing, stamp).value;
      forall k :: 0 <= k < |missing| ==> InsertedFor(r[|logs| + k], missing[k], stamp)
  {
    if |missing| > 0 {
      var n := |missing| - 1;
      InsertAllFields(db, logs, missing[..n], stamp);
      var prev := InsertAll(db, logs, missing[..n], stamp).value;
      var l := LogFor(db, prev, missing[n], stamp).value;
      var r := InsertAll(db, logs, missing, stamp).value;
      assert r == prev + [l];
      forall k | 0 <= k < |missing| ensures InsertedFor(r[|logs| + k], missing[k], stamp) {
        if k < n {
          assert r[|logs| + k] == prev[|logs| + k];
          assert missing[..n][k] == missing[k];
        }
      }
    }
  }

  /** Each appended row is the log built for its triple from the rows
      before it: `r[..|logs| + k]` is the table the `k`-th insert saw. */
  predicate RowsFromLookups(db: StudentLogs.Database, logs: seq<StudentLog>, r: seq<StudentLog>, m: seq<Triple>, stamp: int) {
    && |logs| + |m| <= |r|
    && forall k :: 0 <= k < |m| ==> LogFor(db, r[..|logs| + k], m[k], stamp) == Some(r[|logs| + k])
  }

  /** Each appended log is exactly the row `LogFor` builds from the lookups
      over the table as it stood when the triple's turn came. */
  lemma {:induction false} InsertAllRows(db: StudentLogs.Database, logs: seq<StudentLog>, missing: seq<Triple>, stamp: int)
    requires InsertAll(db, logs, missing, stamp).Some?
    ensures RowsFromLookups(db, logs, InsertAll(db, logs, missing, stamp).value, missing, stamp)
  {
    if |missing| > 0 {
      var n := |missing| - 1;
      InsertAllRows(db, logs, missing[..n], stamp);
      var prev := InsertAll(db, logs, missing[..n], stamp).value;
      var l := LogFor(db, prev, missing[n], stamp).value;
      assert InsertAll(db, logs, missing, stamp).value == prev + [l];
      assert missing == missing[..n] + [missing[n]];
      AppendKeepsRows(db, logs, prev, l, missing[..n], missing[n], stamp);
    }
  }

  /** Appending the log built for one more triple keeps the property. */
  lemma AppendKeepsRows(db: StudentLogs.Database, logs: seq<StudentLog>, prev: seq<StudentLog>, l: StudentLog,
                        m: seq<Triple>, t: Triple, stamp: int)
    requires RowsFromLookups(db, logs, prev, m, stamp) && |prev| == |logs| + |m|
    requires LogFor(db, prev, t, stamp) == Some(l)
    ensures RowsFromLookups(db, logs, prev + [l], m + [t], stamp)
  {
    var r := prev + [l];
    var m' := m + [t];
    forall k | 0 <= k < |m'| ensures LogFor(db, r[..|logs| + k], m'[k], stamp) == Some(r[|logs| + k]) {
      if k < |m| {
        assert r[..|logs| + k] == prev[..|logs| + k];
        assert r[|logs| + k] == prev[|logs| + k];
        assert m'[k] == m[k];
      } else {
        assert r[..|logs| + k] == prev;
      }
    }
  }

  /** The built log depends on the table only through its ids. */
  lemma LogForSameIds(db: StudentLogs.Database, a: seq<StudentLog>, b: seq<StudentLog>, t: Triple, stamp: int)
    requires |a| == |b| && forall i :: 0 <= i < |a| ==> a[i].id == b[i].id
    ensures LogFor(db, a, t, stamp) == LogFor(db, b, t, stamp)
  {
    Tables.NextIdSameKeys(a, b, LogId);
  }

  /** `UPDATE student_logs SET confirm=1, tea_note='Conf by C',
      tea_name='cronjob' WHERE confirm=0 AND fin_time>=cutoff`. */
  function ConfirmRecent(logs: seq<StudentLog>, cutoff: int): (r: seq<StudentLog>)
    ensures |r| == |logs|
    ensures forall i :: 0 <= i < |logs| ==>
      if logs[i].confirm == 0 && logs[i].finTime >= cutoff
      then r[i] == logs[i].(confirm := 1, teaNote := "Conf by C", teaName := "cronjob")
      else r[i] == logs[i]
  {
    seq(|logs|, i requires 0 <= i < |logs| =>
      if logs[i].confirm == 0 && logs[i].finTime >= cutoff
      then logs[i].(confirm := 1, teaNote := "Conf by C", teaName := "cronjob")
      else logs[i])
  }

  /** The whole run: None when it crashes, in which case nothing is
      committed; otherwise the new log table. */
  function Reconcile(db: StudentLogs.Database, tl: seq<Timeline>, now: int, stamp: int): (r: Option<seq<StudentLog>>)
    ensures var m := MissingLogs(tl, db.logs, now - WINDOW);
      r.None? <==> exists k :: 0 <= k < |m| && !Resolvable(db, m[k])
    ensures r.Some? ==> |r.value| == |db.logs| + |MissingLogs(tl, db.logs, now - WINDOW)|
  {
    var cutoff := now - WINDOW;
    match InsertAll(db, db.logs, MissingLogs(tl, db.logs, cutoff), stamp)
    case None => None
    case Some(logs) => Some(ConfirmRecent(logs, cutoff))
  }

  /** The run crashes exactly when a missing triple cannot be resolved; it
      then leaves the table as it was. */
  lemma CrashesIffUnresolvable(db: StudentLogs.Database, tl: seq<Timeline>, now: int, stamp: int)
    ensures Reconcile(db, tl, now, stamp).None? <==>
      exists x :: x in MissingLogs(tl, db.logs, now - WINDOW) && !Resolvable(db, x)
  {
    var m := MissingLogs(tl, db.logs, now - WINDOW);
    if exists x :: x in m && !Resolvable(db, x) {
      var x :| x in m && !Resolvable(db, x);
      var k :| 0 <= k < |m| && m[k] == x;
    }
  }

  /** Table `r` is table `logs` confirmed in place, followed by one
      inserted log per triple of `m`, in order. */
  predicate Shaped(logs: seq<StudentLog>, r: seq<StudentLog>, m: seq<Triple>, stamp: int, cutoff: int) {
    && |r| == |logs| + |m|
    && r[..|logs|] == ConfirmRecent(logs, cutoff)
    && forall k :: 0 <= k < |m| ==> InsertedFor(r[|logs| + k], m[k], stamp)
  }
  /** The `k`-th appended row of such a table belongs to the `k`-th triple. */
  lemma ShapedInserted(logs: seq<StudentLog>, r: seq<StudentLog>, m: seq<Triple>, stamp: int, cutoff: int, k: int)
    requires Shaped(logs, r, m, stamp, cutoff) && 0 <= k < |m|
    ensures InsertedFor(r[|logs| + k], m[k], stamp)
  {
  }


  /** Inserting and then confirming: the old rows are confirmed in place
      and each inserted row keeps the fields it was inserted with. */
  lemma InsertThenConfirm(db: StudentLogs.Database, logs: seq<StudentLog>, m: seq<Triple>, stamp: int, cutoff: int)
    requires InsertAll(db, logs, m, stamp).Some?
    ensures Shaped(logs, ConfirmRecent(InsertAll(db, logs, m, stamp).value, cutoff), m, stamp, cutoff)
    ensures RowsFromLookups(db, logs, ConfirmRecent(InsertAll(db, logs, m, stamp).value, cutoff), m, stamp)
  {
    var ins := InsertAll(db, logs, m, stamp).value;
    var r := ConfirmRecent(ins, cutoff);
    InsertAllFields(db, logs, m, stamp);
    InsertAllRows(db, logs, m, stamp);
    forall i | 0 <= i < |logs| ensures r[i] == ConfirmRecent(logs, cutoff)[i] {
      assert ins[i] == ins[..|logs|][i];
    }
    forall k | 0 <= k < |m| ensures InsertedFor(r[|logs| + k], m[k], stamp) {
      assert InsertedFor(ins[|logs| + k], m[k], stamp);
    }
    ConfirmKeepsRows(db, logs, ins, m, stamp, cutoff);
  }

  /** Confirming leaves the inserted rows, already confirmed, as they were
      and changes no id, so each still is the log built for its triple. */
  lemma ConfirmKeepsRows(db: StudentLogs.Database, logs: seq<StudentLog>, ins: seq<StudentLog>, m: seq<Triple>, stamp: int, cutoff: int)
    requires RowsFromLookups(db, logs, ins, m, stamp) && |ins| == |logs| + |m|
    requires forall k :: 0 <= k < |m| ==> InsertedFor(ins[|logs| + k], m[k], stamp)
    ensures RowsFromLookups(db, logs, ConfirmRecent(ins, cutoff), m, stamp)
  {
    var r := ConfirmRecent(ins, cutoff);
    forall k | 0 <= k < |m| ensures LogFor(db, r[..|logs| + k], m[k], stamp) == Some(r[|logs| + k]) {
      assert InsertedFor(ins[|logs| + k], m[k], stamp);
      LogForSameIds(db, r[..|logs| + k], ins[..|logs| + k], m[k], stamp);
    }
  }

  /** After a run, the old logs are still there in place, with only the
      window's unconfirmed ones confirmed; one confirmed "Log by C" row
      follows for each missing triple. */
  lemma ReconcileShape(db: StudentLogs.Database, tl: seq<Timeline>, now: int, stamp: int)
    requires Reconcile(db, tl, now, stamp).Some?
    ensures Shaped(db.logs, Reconcile(db, tl, now, stamp).value, MissingLogs(tl, db.logs, now - WINDOW), stamp, now - WINDOW)
    ensures RowsFromLookups(db, db.logs, Reconcile(db, tl, now, stamp).value, MissingLogs(tl, db.logs, now - WINDOW), stamp)
  {
    InsertThenConfirm(db, db.logs, MissingLogs(tl, db.logs, now - WINDOW), stamp, now - WINDOW);
  }

  /** Table `r`, the result of a run over `logs`, has no row of the window
      left unconfirmed, and every old row that was not an unconfirmed row of
      the window is still in its place unchanged. */
  predicate WindowConfirmed(logs: seq<StudentLog>, r: seq<StudentLog>, cutoff: int) {
    && |logs| <= |r|
    && (forall i :: 0 <= i < |r| && r[i].finTime >= cutoff ==> r[i].confirm != 0)
    && (forall i :: 0 <= i < |logs| && !(logs[i].confirm == 0 && logs[i].finTime >= cutoff) ==> r[i] == logs[i])
  }

  /** A table of that shape has every row of the window confirmed and
      keeps every old row that was not an unconfirmed row of the window. */
  lemma ConfirmedShape(logs: seq<StudentLog>, r: seq<StudentLog>, m: seq<Triple>, stamp: int, cutoff: int)
    requires Shaped(logs, r, m, stamp, cutoff)
    ensures WindowConfirmed(logs, r, cutoff)
  {
    forall i | 0 <= i < |r| && r[i].finTime >= cutoff ensures r[i].confirm != 0 {
      if i < |logs| {
        assert r[i] == r[..|logs|][i];
      } else {
        assert InsertedFor(r[|logs| + (i - |logs|)], m[i - |logs|], stamp);
      }
    }
    forall i | 0 <= i < |logs| && !(logs[i].confirm == 0 && logs[i].finTime >= cutoff)
      ensures r[i] == logs[i]
    {
      assert r[i] == r[..|logs|][i];
    }
  }

  /** After a run no log of the window is left unconfirmed, and a log is
      changed only if it was an unconfirmed log of the window. */
  lemma WindowFullyConfirmed(db: StudentLogs.Database, tl: seq<Timeline>, now: int, stamp: int)
    requires Reconcile(db, tl, now, stamp).Some?
    ensures WindowConfirmed(db.logs, Reconcile(db, tl, now, stamp).value, now - WINDOW)
  {
    ReconcileShape(db, tl, now, stamp);
    ConfirmedShape(db.logs, Reconcile(db, tl, now, stamp).value, MissingLogs(tl, db.logs, now - WINDOW), stamp, now - WINDOW);
  }

  /** If the inserted logs are stamped inside the window, every student and
      subcourse of a recent timeline row has a log in the window afterwards. */
  lemma EveryRecentPairLogged(db: StudentLogs.Database, tl: seq<Timeline>, now: int, stamp: int, i: int)
    requires Reconcile(db, tl, now, stamp).Some?
    requires stamp >= now - WINDOW
    requires 0 <= i < |tl| && tl[i].timestamp >= now - WINDOW
    ensures var r := Reconcile(db, tl, now, stamp).value;
      (tl[i].stuId, tl[i].subcourseId) in LoggedPairs(r, now - WINDOW)
  {
    var cutoff := now - WINDOW;
    var x := TripleOf(tl[i]);
    ReconcileShape(db, tl, now, stamp);
    ShapedCovers(db.logs, Reconcile(db, tl, now, stamp).value, MissingLogs(tl, db.logs, cutoff), stamp, cutoff, x);
  }

  /** In a table of that shape, stamped inside the window, a triple that
      was missing or already had a log of the window now has one. */
  lemma ShapedCovers(logs: seq<StudentLog>, r: seq<StudentLog>, m: seq<Triple>, stamp: int, cutoff: int, x: Triple)
    requires Shaped(logs, r, m, stamp, cutoff) && stamp >= cutoff
    requires x in m || (exists j :: 0 <= j < |logs| && logs[j].finTime >= cutoff
                           && logs[j].stuId == x.stuId && logs[j].subcourseId == x.subcourseId)
    ensures (x.stuId, x.subcourseId) in LoggedPairs(r, cutoff)
  {
    if x in m {
      var k :| 0 <= k < |m| && m[k] == x;
      ShapedInserted(logs, r, m, stamp, cutoff, k);
      PairLogged(r, cutoff, |logs| + k);
    } else {
      var j :| 0 <= j < |logs| && logs[j].finTime >= cutoff
        && logs[j].stuId == x.stuId && logs[j].subcourseId == x.subcourseId;
      assert r[j] == r[..|logs|][j];
      ConfirmKeepsKeys(logs, cutoff, j);
      PairLogged(r, cutoff, j);
    }
  }

  /** Confirming a row leaves its student, subcourse and finish time alone. */
  lemma ConfirmKeepsKeys(logs: seq<StudentLog>, cutoff: int, j: int)
    requires 0 <= j < |logs|
    ensures var c := ConfirmRecent(logs, cutoff)[j];
      c.stuId == logs[j].stuId && c.subcourseId == logs[j].subcourseId && c.finTime == logs[j].finTime
  {
  }

  /** A log of the window puts its pair among the logged pairs. */
  lemma PairLogged(logs: seq<StudentLog>, cutoff: int, w: int)
    requires 0 <= w < |logs| && logs[w].finTime >= cutoff
    ensures (logs[w].stuId, logs[w].subcourseId) in LoggedPairs(logs, cutoff)
  {
  }

  /** Run again over the same window, with the inserted logs inside it,
      the script finds nothing missing and changes nothing. */
  lemma ReconcileIdempotent(db: StudentLogs.Database, tl: seq<Timeline>, now: int, stamp: int, stamp2: int)
    requires Reconcile(db, tl, now, stamp).Some?
    requires stamp >= now - WINDOW
    ensures var r := Reconcile(db, tl, now, stamp).value;
      MissingLogs(tl, r, now - WINDOW) == [] && Reconcile(db.(logs := r), tl, now, stamp2) == Some(r)
  {
    var cutoff := now - WINDOW;
    var r := Reconcile(db, tl, now, stamp).value;
    var m2 := MissingLogs(tl, r, cutoff);
    if |m2| > 0 {
      var x := m2[0];
      assert x in m2;
      var i :| 0 <= i < |tl| && tl[i].timestamp >= cutoff && TripleOf(tl[i]) == x;
      EveryRecentPairLogged(db, tl, now, stamp, i);
      assert false;
    }
    WindowFullyConfirmed(db, tl, now, stamp);
    assert InsertAll(db.(logs := r), r, m2, stamp2) == Some(r);
    assert ConfirmRecent(r, cutoff) == r;
  }

  /** A student who handed in work for two schedules of the same session
      within the window, and has no log, gets two logs. */
  lemma TwoSchedulesTwoLogs(db: StudentLogs.Database, a: Timeline, b: Timeline, now: int)
    requires a.stuId == b.stuId && a.subcourseId == b.subcourseId && a.scheduleId != b.scheduleId
    requires a.timestamp >= now - WINDOW && b.timestamp >= now - WINDOW
    requires db.logs == []
    ensures MissingLogs([a, b], [], now - WINDOW) == [TripleOf(a), TripleOf(b)]
  {
    var cutoff := now - WINDOW;
    assert [a, b][..1] == [a];
    assert [a][..0] == [];
    assert TriplesSince([], cutoff) == [];
    assert TriplesSince([a], cutoff) == [TripleOf(a)];
    assert TriplesSince([a, b], cutoff) == [TripleOf(a), TripleOf(b)];
    assert [TripleOf(a), TripleOf(b)][..1] == [TripleOf(a)];
    assert [TripleOf(a)][..0] == [];
    assert Distinct([TripleOf(a)]) == [TripleOf(a)];
    assert TripleOf(b) !in [TripleOf(a)];
    assert RecentTriples([a, b], cutoff) == [TripleOf(a), TripleOf(b)];
    assert LoggedPairs([], cutoff) == {};
    var p := (t: Triple) => (t.stuId, t.subcourseId) !in LoggedPairs([], cutoff);
    assert Tables.Filter([TripleOf(a)], p) == [TripleOf(a)] by {
      assert [TripleOf(a)][..0] == [];
    }
  }
}
