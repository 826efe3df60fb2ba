/** Equipment records (src/handler/equipment.rs and the equipment queries
    of src/db.rs): the login guard, the owner override, pagination, and the
    loan-return statement of the equipment history. */
module Equipments {
  import opened Wrappers
  import opened Records
  import opened Sessions
  import Tables

  /** A handler's status with the equipment table it leaves behind. */
  datatype Reply = Reply(status: Status, table: seq<Equipment>)

  /** `create_equipment`: Unauthorized unless the session's user id can be
      read; the stored owner is always the caller, whatever the payload
      says. */
  function CreateEquipment(s: Session, t: seq<Equipment>, req: Equipment): (r: Reply)
    ensures r.status == Ok <==> s.userId.Found?
    ensures r.status != Ok ==> r == Reply(Unauthorized, t)
    ensures r.status == Ok ==> (
      && |r.table| == |t| + 1 && r.table[..|t|] == t
      && r.table[|t|].ownerId == s.userId.value
      && r.table[|t|].(id := req.id, ownerId := req.ownerId) == req
      && forall i :: 0 <= i < |t| ==> t[i].id != r.table[|t|].id)
  {
    match s.userId
    case Found(u) =>
      var row := req.(id := Tables.NextId(t, EquipmentId), ownerId := u);
      assert (t + [row])[..|t|] == t;
      Reply(Ok, t + [row])
    case _ => Reply(Unauthorized, t)
  }

  /** `get_equipment`: looks the row up by id alone, without reading the
      session, so any caller behind the teacher gate reads any user's
      equipment. */
  function GetEquipment(t: seq<Equipment>, id: int): (r: (Status, Option<Equipment>))
    ensures r.0 == NotFound <==> forall i :: 0 <= i < |t| ==> t[i].id != id
    ensures r.0 == Ok <==> r.1.Some?
    ensures r.0 in {Ok, NotFound}
    ensures r.1.Some? ==> r.1.value in t && r.1.value.id == id
  {
    match Tables.First(t, (e: Equipment) => e.id == id)
    case None => (NotFound, None)
    case Some(e) =>
      assert e in t by {
        var i :| Tables.FirstAt(t, (e: Equipment) => e.id == id, i) && t[i] == e;
      }
      (Ok, Some(e))
  }

  /** Two users asking for the same id see the same row. */
  lemma GetIgnoresOwner(t: seq<Equipment>, id: int, e: Equipment)
    requires e in t && e.id == id
    ensures GetEquipment(t, id).0 == Ok
  {
  }

  /** The row `id` owned by `owner`. */
  predicate OwnedRow(e: Equipment, id: int, owner: string) {
    e.id == id && e.ownerId == owner
  }

  /** `update_equipment`: the statement matches on the id AND the caller as
      owner, so another user's equipment is never changed and is reported
      NotFound. The id and owner of the row stay as they were. */
  function UpdateEquipment(s: Session, t: seq<Equipment>, id: int, req: Equipment): (r: Reply)
    ensures !s.userId.Found? ==> r == Reply(Unauthorized, t)
    ensures s.userId.Found? ==> (
      && (r.status == NotFound <==> forall i :: 0 <= i < |t| ==> !OwnedRow(t[i], id, s.userId.value))
      && (r.status != NotFound ==> r.status == Ok)
      && |r.table| == |t|
      && (forall i :: 0 <= i < |t| && !OwnedRow(t[i], id, s.userId.value) ==> r.table[i] == t[i])
      && (forall i :: 0 <= i < |t| && OwnedRow(t[i], id, s.userId.value) ==>
            r.table[i] == req.(id := id, ownerId := s.userId.value)))
  {
    match s.userId
    case Found(u) =>
      if forall i :: 0 <= i < |t| ==> !OwnedRow(t[i], id, u) then Reply(NotFound, t)
      else Reply(Ok, seq(|t|, i requires 0 <= i < |t| =>
        if OwnedRow(t[i], id, u) then req.(id := id, ownerId := u) else t[i]))
    case _ => Reply(Unauthorized, t)
  }

  /** No user can change another user's equipment through the update. */
  lemma UpdateSparesOthers(s: Session, t: seq<Equipment>, id: int, req: Equipment, i: int)
    requires 0 <= i < |t| && s.userId.Found? && t[i].ownerId != s.userId.value
    ensures UpdateEquipment(s, t, id, req).table[i] == t[i]
  {
  }

  /** `delete_equipment`: the statement the handler reaches deletes by id
      alone, so any logged-in caller behind the teacher gate deletes any
      equipment. */
  function DeleteEquipment(s: Session, t: seq<Equipment>, id: int): (r: Reply)
    ensures !s.userId.Found? ==> r == Reply(Unauthorized, t)
    ensures s.userId.Found? ==> (
      && (r.status == NotFound <==> forall i :: 0 <= i < |t| ==> t[i].id != id)
      && (r.status != NotFound ==> r.status == Ok)
      && forall e :: e in r.table <==> e in t && e.id != id)
  {
    match s.userId
    case Found(_) =>
      var rest := Tables.Filter(t, (e: Equipment) => e.id != id);
      if forall i :: 0 <= i < |t| ==> t[i].id != id then Reply(NotFound, rest)
      else Reply(Ok, rest)
    case _ => Reply(Unauthorized, t)
  }

  /** Deleting works the same for the owner and for anybody else logged in. */
  lemma DeleteIgnoresOwner(s1: Session, s2: Session, t: seq<Equipment>, id: int)
    requires s1.userId.Found? && s2.userId.Found?
    ensures DeleteEquipment(s1, t, id) == DeleteEquipment(s2, t, id)
  {
  }

  // ---------------------------------------------------------------------
  // Pagination

  /** The page number and size the listing uses: 1 and 10 when absent. A
      page of 0 would underflow the unsigned subtraction, so it is excluded. */
  predicate ValidPaging(page: Option<nat>, size: Option<nat>) {
    page.None? || page.value >= 1
  }

  /** `(page - 1) * page_size` and `page_size`, with the defaults filled in. */
  function OffsetLimit(page: Option<nat>, size: Option<nat>): (r: (nat, nat))
    requires ValidPaging(page, size)
    ensures var p := if page.Some? then page.value else 1;
      var z := if size.Some? then size.value else 10;
      r.1 == z && r.0 + z == p * z
    ensures page.None? && size.None? ==> r == (0, 10)
  {
    var p := if page.Some? then page.value else 1;
    var z := if size.Some? then size.value else 10;
    ((p - 1) * z, z)
  }

  /** `LIMIT limit OFFSET offset` over a result list. */
  function Window<T>(rows: seq<T>, offset: nat, limit: nat): (w: seq<T>)
    ensures |w| <= limit
    ensures offset <= |rows| ==> |w| == if offset + limit <= |rows| then limit else |rows| - offset
    ensures forall i :: 0 <= i < |w| ==> offset + i < |rows| && w[i] == rows[offset + i]
  {
    if offset >= |rows| then []
    else if offset + limit <= |rows| then rows[offset..offset + limit]
    else rows[offset..]
  }

  /** Page `p` followed by page `p + 1` is the two-page window from page
      `p`'s offset: pages neither overlap nor leave gaps. */
  lemma ConsecutivePages<T>(rows: seq<T>, p: nat, z: nat)
    requires p >= 1
    ensures var o1 := OffsetLimit(Some(p), Some(z)).0;
      var o2 := OffsetLimit(Some(p + 1), Some(z)).0;
      o2 == o1 + z && Window(rows, o1, z) + Window(rows, o2, z) == Window(rows, o1, 2 * z)
  {
    var o1 := OffsetLimit(Some(p), Some(z)).0;
    var o2 := OffsetLimit(Some(p + 1), Some(z)).0;
    assert o2 == o1 + z by {
      assert p * z + z == (p + 1) * z;
    }
    var a := Window(rows, o1, z);
    var b := Window(rows, o2, z);
    var c := Window(rows, o1, 2 * z);
    assert |a + b| == |c|;
    forall i | 0 <= i < |c| ensures (a + b)[i] == c[i] {
      if i < |a| {
      } else {
        assert |a| == z;
      }
    }
  }

  /** The caller's rows, newest first: `ORDER BY id DESC`, read as the
      reverse of insertion order. */
  function NewestFirst(t: seq<Equipment>, owner: string): (r: seq<Equipment>)
    ensures forall e :: e in r <==> e in t && e.ownerId == owner
  {
    if |t| == 0 then []
    else
      assert forall e :: e in t <==> e == t[0] || e in t[1..] by {
        assert t == [t[0]] + t[1..];
      }
      NewestFirst(t[1..], owner) + (if t[0].ownerId == owner then [t[0]] else [])
  }

  /** `list_equipments`: only the caller's own rows, one page of them. */
  function ListEquipments(s: Session, t: seq<Equipment>, page: Option<nat>, size: Option<nat>): (r: (Status, seq<Equipment>))
    requires ValidPaging(page, size)
    ensures !s.userId.Found? ==> r == (Unauthorized, [])
    ensures s.userId.Found? ==> (
      && r.0 == Ok
      && |r.1| <= OffsetLimit(page, size).1
      && forall e :: e in r.1 ==> e in t && e.ownerId == s.userId.value)
  {
    match s.userId
    case Found(u) =>
      var (offset, limit) := OffsetLimit(page, size);
      var rows := NewestFirst(t, u);
      var w := Window(rows, offset, limit);
      assert forall e :: e in w ==> e in rows;
      (Ok, w)
    case _ => (Unauthorized, [])
  }

  // ---------------------------------------------------------------------
  // Returning a loan

  /** A row of `equipment_histories`: one loan, open while `returnedDate`
      is NULL. */
  datatype Loan = Loan(id: int, user: string, borrowedDate: int, telephone: string,
                       note: string, returnedDate: Option<int>, itemId: int)

  /** SQL's three truth values. */
  datatype Truth = True | False | Unknown

  /** `a AND b` in SQL. */
  function And(a: Truth, b: Truth): (r: Truth)
    ensures r == True <==> a == True && b == True
  {
    if a == False || b == False then False
    else if a == True && b == True then True
    else Unknown
  }

  /** `x = v` for a nullable column against a non-null value. */
  function EqValue(x: Option<int>, v: int): (r: Truth)
    ensures r == True <==> x == Some(v)
  {
    match x
    case None => Unknown
    case Some(y) => if y == v then True else False
  }

  /** `x = NULL`: unknown for every row, NULL or not. */
  function EqNull(x: Option<int>): (r: Truth)
    ensures r == Unknown
  {
    Unknown
  }

  /** `x IS NULL`. */
  function IsNull(x: Option<int>): (r: Truth)
    ensures r == True <==> x.None?
  {
    if x.None? then True else False
  }

  /** Sets the return date on the rows a WHERE condition accepts; the
      `RETURNING` row fetched with `fetch_one` is the first of them, and
      without one the call fails. */
  function ReturnWhere(h: seq<Loan>, date: int, cond: Loan -> Truth): (r: Option<(Loan, seq<Loan>)>)
    ensures r.None? <==> forall i :: 0 <= i < |h| ==> cond(h[i]) != True
    ensures r.Some? ==> |r.value.1| == |h| && (forall i :: 0 <= i < |h| ==>
      r.value.1[i] == if cond(h[i]) == True then h[i].(returnedDate := Some(date)) else h[i])
    ensures r.Some? ==> exists i :: 0 <= i < |h| && cond(h[i]) == True && r.value.0 == h[i].(returnedDate := Some(date))
  {
    var f := Tables.First(h, (l: Loan) => cond(l) == True);
    match f
    case None => None
    case Some(l) =>
      assert exists i :: 0 <= i < |h| && cond(h[i]) == True && l == h[i] by {
        var i :| Tables.FirstAt(h, (l: Loan) => cond(l) == True, i) && h[i] == l;
      }
      Some((l.(returnedDate := Some(date)),
            seq(|h|, i requires 0 <= i < |h| => if cond(h[i]) == True then h[i].(returnedDate := Some(date)) else h[i])))
  }

  /** `update_equipment_history` AS WRITTEN: `item_id = ? and
      returned_date = NULL`. */
  function ReturnLoanAsWritten(h: seq<Loan>, itemId: int, date: int): (r: Option<(Loan, seq<Loan>)>)
    ensures r.None?
  {
    ReturnWhere(h, date, (l: Loan) => And(EqValue(Some(l.itemId), itemId), EqNull(l.returnedDate)))
  }

  /** `update_equipment_history` as evidently intended: `IS NULL`, so the
      item's open loans are closed. */
  function ReturnLoan(h: seq<Loan>, itemId: int, date: int): (r: Option<(Loan, seq<Loan>)>)
    ensures r.None? <==> forall i :: 0 <= i < |h| ==> !(h[i].itemId == itemId && h[i].returnedDate.None?)
    ensures r.Some? ==> (
      && r.value.0.itemId == itemId && r.value.0.returnedDate == Some(date)
      && |r.value.1| == |h|
      && (forall i :: 0 <= i < |h| ==>
            r.value.1[i] == if h[i].itemId == itemId && h[i].returnedDate.None?
                            then h[i].(returnedDate := Some(date)) else h[i])
      && (forall i :: 0 <= i < |h| ==> !(r.value.1[i].itemId == itemId && r.value.1[i].returnedDate.None?)))
  {
    ReturnWhere(h, date, (l: Loan) => And(EqValue(Some(l.itemId), itemId), IsNull(l.returnedDate)))
  }

  /** One open loan of item 4: the statement as written fails to find it,
      the corrected one closes it. */
  lemma OpenLoanNeverClosedAsWritten()
    ensures var h := [Loan(1, "amy", 100, "555", "", None, 4)];
      ReturnLoanAsWritten(h, 4, 120).None? && ReturnLoan(h, 4, 120).Some?
  {
    var h := [Loan(1, "amy", 100, "555", "", None, 4)];
    assert h[0].itemId == 4 && h[0].returnedDate.None?;
  }

  /** After a corrected return the item has no open loan, so returning it
      again fails. */
  lemma ReturnTwiceFails(h: seq<Loan>, itemId: int, date: int, date2: int)
    requires ReturnLoan(h, itemId, date).Some?
    ensures ReturnLoan(ReturnLoan(h, itemId, date).value.1, itemId, date2).None?
  {
  }
}
