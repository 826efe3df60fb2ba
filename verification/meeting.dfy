/** Meeting-room agendas (src/handler/meeting.rs and the agenda queries of
    src/db.rs): the conflict query, and the rules that set the `confirm`
    flag. An agenda table is a sequence of rows in scan order. */
module Meeting {
  import opened Wrappers
  import opened Records
  import opened Sessions
  import Config
  import Calendar

  // ---------------------------------------------------------------------
  // The conflict query

  /** The id a candidate is compared with: its own, or -1 for a request
      that has no id yet. */
  function CurrentId(cand: Agenda): int {
    match cand.id
    case Some(k) => k
    case None => -1
  }

  /** The WHERE clause of `check_meeting_conflict`: stored row `ex` clashes
      with candidate `cand` when it is in the same room, is not the
      candidate itself, falls on the candidate's date (a one-off) or
      weekday (a weekly series), and the two time ranges overlap. Only the
      stored row's `repeat` is read, never the candidate's. */
  predicate Conflicts(cand: Agenda, ex: Agenda) {
    && ex.roomId == cand.roomId
    && ex.id.Some? && ex.id.value != CurrentId(cand)
    && ((ex.repeat == 0 && ex.date == cand.date)
        || (ex.repeat == 1 && Calendar.Weekday(ex.date) == Calendar.Weekday(cand.date)))
    && cand.startTime < ex.endTime && cand.endTime > ex.startTime
  }

  /** `check_meeting_conflict`: the first clashing row (`LIMIT 1`), if any. */
  function CheckConflict(t: seq<Agenda>, cand: Agenda): (r: Option<Agenda>)
    ensures r.None? <==> forall i :: 0 <= i < |t| ==> !Conflicts(cand, t[i])
    ensures r.Some? ==> r.value in t && Conflicts(cand, r.value)
  {
    if |t| == 0 then None
    else if Conflicts(cand, t[0]) then Some(t[0])
    else CheckConflict(t[1..], cand)
  }

  /** Bookings that only touch, one ending when the other starts, never
      clash. */
  lemma BackToBackNeverConflicts(cand: Agenda, ex: Agenda)
    requires cand.startTime == ex.endTime || cand.endTime == ex.startTime
    ensures !Conflicts(cand, ex)
  {
  }

  /** A stored row never clashes with an update of itself. */
  lemma NeverConflictsWithItself(cand: Agenda, ex: Agenda)
    requires cand.id.Some? && ex.id == cand.id
    ensures !Conflicts(cand, ex)
  {
  }

  /** The candidate's own `repeat` flag has no effect on the answer. */
  lemma {:induction false} CandidateRepeatIgnored(t: seq<Agenda>, cand: Agenda, rep: int)
    ensures CheckConflict(t, cand.(repeat := rep)) == CheckConflict(t, cand)
  {
    if |t| > 0 {
      CandidateRepeatIgnored(t[1..], cand, rep);
    }
  }

  /** The relation is not symmetric: a weekly series requested on a
      Wednesday is not reported against a one-off stored on a later
      Wednesday, but that one-off, requested against the stored series,
      is. Day 1 of the calendar is a Friday, day 6 a Wednesday. */
  lemma NotSymmetric()
    ensures var series := Agenda(Some(1), "lab", "u", "U", 1, 6, 36000, 43200, 5, 0);
      var oneOff := Agenda(Some(2), "talk", "v", "V", 0, 13, 39600, 46800, 5, 0);
      !Conflicts(series, oneOff) && Conflicts(oneOff, series)
  {
    assert Calendar.Weekday(6) == 3 && Calendar.Weekday(13) == 3;
  }

  /** A weekly series on Wednesdays 10:00-12:00 blocks 11:00-13:00 on any
      later Wednesday but not 12:00-13:00, nor the same hours on Thursday. */
  lemma WednesdayScenario()
    ensures var t := [Agenda(Some(1), "lab", "u", "U", 1, 6, 36000, 43200, 5, 1)];
      CheckConflict(t, Agenda(None, "a", "v", "V", 0, 20, 39600, 46800, 5, 0)) == Some(t[0])
      && CheckConflict(t, Agenda(None, "b", "v", "V", 0, 20, 43200, 46800, 5, 0)).None?
      && CheckConflict(t, Agenda(None, "c", "v", "V", 0, 21, 39600, 46800, 5, 0)).None?
  {
    assert Calendar.Weekday(6) == 3 && Calendar.Weekday(20) == 3 && Calendar.Weekday(21) == 4;
  }

  // ---------------------------------------------------------------------
  // Row operations

  /** The first stored row with id `id`. */
  function FindAgenda(t: seq<Agenda>, id: int): (r: Option<Agenda>)
    ensures r.None? <==> forall i :: 0 <= i < |t| ==> t[i].id != Some(id)
    ensures r.Some? ==> r.value in t && r.value.id == Some(id)
  {
    if |t| == 0 then None
    else if t[0].id == Some(id) then Some(t[0])
    else FindAgenda(t[1..], id)
  }

  /** One past the largest stored id. */
  function NextAgendaId(t: seq<Agenda>): (k: int)
    ensures forall i :: 0 <= i < |t| && t[i].id.Some? ==> t[i].id.value < k
  {
    if |t| == 0 then 1
    else
      var rest := NextAgendaId(t[1..]);
      match t[0].id
      case Some(x) => if x + 1 > rest then x + 1 else rest
      case None => rest
  }

  /** `update_meeting_agenda` AS WRITTEN: the statement binds `confirm = ?8`,
      the room id, so the stored flag is the room number and the request's
      flag is dropped. Absent when no row has that id. */
  function UpdateRowAsWritten(t: seq<Agenda>, id: int, req: Agenda): (r: Option<seq<Agenda>>)
    ensures r.None? <==> forall i :: 0 <= i < |t| ==> t[i].id != Some(id)
    ensures r.Some? ==> (
      && |r.value| == |t|
      && (forall i :: 0 <= i < |t| && t[i].id != Some(id) ==> r.value[i] == t[i])
      && (forall i :: 0 <= i < |t| && t[i].id == Some(id) ==>
            r.value[i].confirm == req.roomId && r.value[i].(confirm := req.confirm) == req.(id := Some(id))))
  {
    if forall i :: 0 <= i < |t| ==> t[i].id != Some(id) then None
    else Some(seq(|t|, i requires 0 <= i < |t| =>
      if t[i].id == Some(id) then req.(id := Some(id), confirm := req.roomId) else t[i]))
  }

  /** `update_meeting_agenda` as evidently intended: every column of the row
      takes the request's value, `confirm` included. */
  function UpdateRow(t: seq<Agenda>, id: int, req: Agenda): (r: Option<seq<Agenda>>)
    ensures r.None? <==> forall i :: 0 <= i < |t| ==> t[i].id != Some(id)
    ensures r.Some? ==> (
      && |r.value| == |t|
      && (forall i :: 0 <= i < |t| && t[i].id != Some(id) ==> r.value[i] == t[i])
      && (forall i :: 0 <= i < |t| && t[i].id == Some(id) ==> r.value[i] == req.(id := Some(id))))
  {
    if forall i :: 0 <= i < |t| ==> t[i].id != Some(id) then None
    else Some(seq(|t|, i requires 0 <= i < |t| =>
      if t[i].id == Some(id) then req.(id := Some(id)) else t[i]))
  }

  /** The statement as written stores the room number as the flag: a
      manager's update of an agenda in room 3 is stored with confirm 3,
      not 1. */
  lemma UpdateStoresRoomAsConfirm()
    ensures var t := [Agenda(Some(1), "m", "u", "U", 0, 6, 36000, 43200, 3, 0)];
      var req := t[0].(confirm := 1);
      UpdateRowAsWritten(t, 1, req) == Some([req.(confirm := 3)])
  {
    var t := [Agenda(Some(1), "m", "u", "U", 0, 6, 36000, 43200, 3, 0)];
    var req := t[0].(confirm := 1);
    assert t[0].id == Some(1);
    var r := UpdateRowAsWritten(t, 1, req);
    assert r.value[0] == req.(confirm := 3);
    assert r.value == [req.(confirm := 3)];
  }

  /** Updating then reading the row back gives the request, with the id of
      the path, when the update is the corrected one. */
  lemma UpdateThenFind(t: seq<Agenda>, id: int, req: Agenda)
    requires UpdateRow(t, id, req).Some?
    ensures FindAgenda(UpdateRow(t, id, req).value, id) == Some(req.(id := Some(id)))
  {
    var r := UpdateRow(t, id, req).value;
    var f := FindAgenda(r, id);
    assert !f.None? by {
      var i :| 0 <= i < |t| && t[i].id == Some(id);
      assert r[i].id == Some(id);
    }
    var j :| 0 <= j < |r| && r[j] == f.value;
  }

  // ---------------------------------------------------------------------
  // The handlers

  /** The caller's permission value (0 when unreadable) has the
      MEETING_MANAGER bit. */
  predicate IsManager(s: Session) {
    Config.Holds(PermissionOrZero(s), Config.MEETING_MANAGER)
  }

  /** A handler's status with the agenda table it leaves behind. */
  datatype Reply = Reply(status: Status, table: seq<Agenda>)

  /** `create_meeting_agenda`: the flag the client sent is replaced, 1 for a
      manager and 0 for anyone else; no conflict check and no identity
      check is made, and the row is stored with a fresh id. */
  function CreateAgenda(s: Session, t: seq<Agenda>, req: Agenda): (r: Reply)
    ensures r.status == Ok
    ensures |r.table| == |t| + 1 && r.table[..|t|] == t
    ensures var a := r.table[|t|];
      && (a.confirm == 1 <==> IsManager(s))
      && (a.confirm == 0 <==> !IsManager(s))
      && a.(id := req.id, confirm := req.confirm) == req
      && a.id.Some? && FindAgenda(t, a.id.value).None?
  {
    var a := req.(id := Some(NextAgendaId(t)), confirm := if IsManager(s) then 1 else 0);
    Reply(Ok, t + [a])
  }

  /** The request as the update handler submits it: a manager's flag is
      forced to 1, anyone else's is left as the client sent it. */
  function Submitted(s: Session, req: Agenda): (a: Agenda)
    ensures a.confirm == (if IsManager(s) then 1 else req.confirm)
    ensures a.(confirm := req.confirm) == req
  {
    if IsManager(s) then req.(confirm := 1) else req
  }

  /** `update_meeting_agenda` with the corrected statement: a manager's
      update is stored confirmed, anyone else's keeps the flag the client
      sent. NotFound and no change when no row has the id; otherwise every
      row with the id takes all of the request's columns and every other
      row is kept. */
  function UpdateAgenda(s: Session, t: seq<Agenda>, id: int, req: Agenda): (r: Reply)
    ensures r.status == NotFound <==> FindAgenda(t, id).None?
    ensures r.status != NotFound ==> r.status == Ok
    ensures r.status == NotFound ==> r.table == t
    ensures r.status == Ok ==> (
      && |r.table| == |t|
      && forall i :: 0 <= i < |t| ==>
           r.table[i] == if t[i].id == Some(id) then Submitted(s, req).(id := Some(id)) else t[i])
    ensures r.status == Ok ==>
      FindAgenda(r.table, id) == Some(Submitted(s, req).(id := Some(id)))
      && FindAgenda(r.table, id).value.confirm == (if IsManager(s) then 1 else req.confirm)
  {
    var req' := Submitted(s, req);
    match UpdateRow(t, id, req')
    case None => Reply(NotFound, t)
    case Some(t') =>
      UpdateThenFind(t, id, req');
      Reply(Ok, t')
  }

  /** `update_meeting_agenda` with the statement as written: the rows with
      the id take the request's columns except the flag, which is the room
      id; every other row is kept. */
  function UpdateAgendaAsWritten(s: Session, t: seq<Agenda>, id: int, req: Agenda): (r: Reply)
    ensures r.status == NotFound <==> FindAgenda(t, id).None?
    ensures r.status != NotFound ==> r.status == Ok
    ensures r.status == NotFound ==> r.table == t
    ensures r.status == Ok ==> (
      && |r.table| == |t|
      && forall i :: 0 <= i < |t| ==>
           r.table[i] == if t[i].id == Some(id) then req.(id := Some(id), confirm := req.roomId) else t[i])
  {
    var req' := Submitted(s, req);
    match UpdateRowAsWritten(t, id, req')
    case None => Reply(NotFound, t)
    case Some(t') => Reply(Ok, t')
  }

  /** As written, the stored flag after any successful update is the room
      number, manager or not. */
  lemma AsWrittenFlagIsRoom(s: Session, t: seq<Agenda>, id: int, req: Agenda, i: int)
    requires UpdateAgendaAsWritten(s, t, id, req).status == Ok
    requires 0 <= i < |t| && t[i].id == Some(id)
    ensures UpdateAgendaAsWritten(s, t, id, req).table[i].confirm == req.roomId
  {
  }

  /** `UPDATE meeting_agendas SET confirm = 1 WHERE id = ?`. */
  function ConfirmRows(t: seq<Agenda>, id: int): (r: seq<Agenda>)
    ensures |r| == |t|
    ensures forall i :: 0 <= i < |t| && t[i].id != Some(id) ==> r[i] == t[i]
    ensures forall i :: 0 <= i < |t| && t[i].id == Some(id) ==> r[i].confirm == 1 && r[i].(confirm := t[i].confirm) == t[i]
  {
    seq(|t|, i requires 0 <= i < |t| => if t[i].id == Some(id) then t[i].(confirm := 1) else t[i])
  }

  /** `confirm_meeting_agenda`: Forbidden without the MEETING_MANAGER bit,
      before the table is looked at; NotFound when no row has the id;
      otherwise Ok, with the flag of the id's rows set to 1 and nothing
      else changed. */
  function ConfirmAgenda(s: Session, t: seq<Agenda>, id: int): (r: Reply)
    ensures !IsManager(s) ==> r == Reply(Forbidden, t)
    ensures IsManager(s) && FindAgenda(t, id).None? ==> r == Reply(NotFound, t)
    ensures r.status == Ok <==> IsManager(s) && FindAgenda(t, id).Some?
    ensures r.status == Ok ==> (
      && |r.table| == |t|
      && (forall i :: 0 <= i < |t| && t[i].id != Some(id) ==> r.table[i] == t[i])
      && (forall i :: 0 <= i < |t| && t[i].id == Some(id) ==> r.table[i] == t[i].(confirm := 1))
      && FindAgenda(r.table, id) == Some(FindAgenda(t, id).value.(confirm := 1)))
  {
    if !IsManager(s) then Reply(Forbidden, t)
    else if FindAgenda(t, id).None? then Reply(NotFound, t)
    else
      var t' := ConfirmRows(t, id);
      ConfirmThenFind(t, id);
      Reply(Ok, t')
  }

  /** Reading the row back after a confirmation gives the row as it was,
      with the flag set. */
  lemma {:induction false} ConfirmThenFind(t: seq<Agenda>, id: int)
    requires FindAgenda(t, id).Some?
    ensures FindAgenda(ConfirmRows(t, id), id) == Some(FindAgenda(t, id).value.(confirm := 1))
  {
    if t[0].id != Some(id) {
      ConfirmThenFind(t[1..], id);
      assert ConfirmRows(t, id)[1..] == ConfirmRows(t[1..], id);
    }
  }

  /** Confirming twice is confirming once. */
  lemma ConfirmIdempotent(s: Session, t: seq<Agenda>, id: int)
    requires ConfirmAgenda(s, t, id).status == Ok
    ensures ConfirmAgenda(s, ConfirmAgenda(s, t, id).table, id) == ConfirmAgenda(s, t, id)
  {
    var t' := ConfirmAgenda(s, t, id).table;
    ConfirmThenFind(t, id);
    assert ConfirmRows(t', id) == t';
  }

  /** `delete_meeting_agenda`: any caller behind the teacher gate may delete
      any agenda; no session key is read. */
  function DeleteAgenda(t: seq<Agenda>, id: int): (r: Reply)
    ensures r.status == NotFound <==> FindAgenda(t, id).None?
    ensures r.status != NotFound ==> r.status == Ok
    ensures FindAgenda(r.table, id).None?
    ensures forall a :: a in t && a.id != Some(id) ==> a in r.table
    ensures forall a :: a in r.table ==> a in t
  {
    var rest := DropId(t, id);
    Reply(if FindAgenda(t, id).None? then NotFound else Ok, rest)
  }

  /** The rows whose id is not `id`. */
  function DropId(t: seq<Agenda>, id: int): (r: seq<Agenda>)
    ensures forall i :: 0 <= i < |r| ==> r[i].id != Some(id)
    ensures forall a :: a in r <==> a in t && a.id != Some(id)
  {
    if |t| == 0 then []
    else
      assert forall a :: a in t <==> a == t[0] || a in t[1..] by {
        assert t == [t[0]] + t[1..];
      }
      (if t[0].id == Some(id) then [] else [t[0]]) + DropId(t[1..], id)
  }

  /** A caller without the manager bit cannot use the confirm route, yet
      gets a confirmed agenda by sending `confirm = 1` in an update. */
  lemma NonManagerConfirmsThroughUpdate(s: Session, t: seq<Agenda>, id: int, req: Agenda)
    requires !IsManager(s) && FindAgenda(t, id).Some? && req.confirm == 1
    ensures ConfirmAgenda(s, t, id).status == Forbidden
    ensures UpdateAgenda(s, t, id, req).status == Ok
    ensures FindAgenda(UpdateAgenda(s, t, id, req).table, id).value.confirm == 1
  {
  }

  /** Creation never consults the conflict query: booking the same slot
      twice stores two rows that clash with each other. */
  lemma DoubleBookingAccepted(s: Session, req: Agenda)
    requires req.repeat == 0 && req.startTime < req.endTime
    ensures var t1 := CreateAgenda(s, [], req).table;
      var t2 := CreateAgenda(s, t1, req).table;
      |t2| == 2 && Conflicts(t2[1], t2[0])
  {
    var t1 := CreateAgenda(s, [], req).table;
    var t2 := CreateAgenda(s, t1, req).table;
    assert t2[..1] == t1;
    assert t2[0].id.value < t2[1].id.value;
  }
}
