/** Lab-group enrollment (src/db.rs): joining a subcourse's group with a
    seat, leaving it, the administrative seat override, and the subcourse
    update that can lower a group's seat limit. The `students` table is a
    sequence of rows in insertion order; joins are applied one at a time. */
module Enrollment {
  import opened Wrappers
  import opened Records
  import Tables

  /** Number of rows of group `sid` (`SELECT COUNT(*) ... WHERE subcourse_id = ?`). */
  function CountIn(g: seq<Member>, sid: int): (n: nat)
    ensures n <= |g|
    ensures n == 0 <==> forall i :: 0 <= i < |g| ==> g[i].subcourseId != sid
  {
    if |g| == 0 then 0
    else CountIn(g[..|g| - 1], sid) + (if g[|g| - 1].subcourseId == sid then 1 else 0)
  }

  /** Student `stu` already has a row in group `sid`. */
  predicate Has(g: seq<Member>, stu: string, sid: int) {
    exists i :: 0 <= i < |g| && g[i].stuId == stu && g[i].subcourseId == sid
  }

  /** `MAX(seat)` over group `sid`: absent for an empty group, otherwise the
      largest seat some row of the group holds. */
  function MaxSeat(g: seq<Member>, sid: int): (r: Option<int>)
    ensures r.None? <==> forall i :: 0 <= i < |g| ==> g[i].subcourseId != sid
    ensures r.Some? ==> forall i :: 0 <= i < |g| && g[i].subcourseId == sid ==> g[i].seat <= r.value
    ensures r.Some? ==> exists i :: 0 <= i < |g| && g[i].subcourseId == sid && g[i].seat == r.value
  {
    if |g| == 0 then None
    else
      var rest := MaxSeat(g[..|g| - 1], sid);
      var last := g[|g| - 1];
      if last.subcourseId != sid then rest
      else match rest
        case None => Some(last.seat)
        case Some(x) => Some(if last.seat > x then last.seat else x)
  }

  /** `IFNULL(MAX(seat), 0) + 1`: the seat a new member of group `sid` gets. */
  function NextSeat(g: seq<Member>, sid: int): (s: int)
    ensures forall i :: 0 <= i < |g| && g[i].subcourseId == sid ==> g[i].seat < s
    ensures CountIn(g, sid) == 0 ==> s == 1
    ensures CountIn(g, sid) > 0 ==> exists i :: 0 <= i < |g| && g[i].subcourseId == sid && g[i].seat == s - 1
  {
    match MaxSeat(g, sid)
    case None => 1
    case Some(m) => m + 1
  }

  /** `SELECT stu_limit FROM subcourses WHERE id = ?`: the limit of the first
      subcourse row with that id, absent when there is none. */
  function FindLimit(subs: seq<Subcourse>, sid: int): (r: Option<int>)
    ensures r.None? <==> forall i :: 0 <= i < |subs| ==> subs[i].id != sid
    ensures r.Some? ==> exists i :: 0 <= i < |subs| && subs[i].id == sid && subs[i].stuLimit == r.value
  {
    if |subs| == 0 then None
    else if subs[0].id == sid then Some(subs[0].stuLimit)
    else FindLimit(subs[1..], sid)
  }

  /** Why a join inserts nothing: the limit lookup found no subcourse, or the
      group is full. The handler reports both as a server error. */
  datatype JoinError = NoSuchSubcourse | GroupFull

  /** `g'` is `g` with exactly one row appended: student `stu` named `name`
      in group `sid`, on the group's next seat (one above its largest, 1
      for an empty group) and with the table's next id. */
  predicate AppendsMember(g: seq<Member>, g': seq<Member>, stu: string, name: string, sid: int) {
    && |g'| == |g| + 1
    && g'[..|g|] == g
    && g'[|g|] == Member(Tables.NextId(g, MemberId), stu, name, NextSeat(g, sid), sid)
  }

  /** `add_student_to_group`. The duplicate test comes first, so a student
      already in the group succeeds without change even when the group is
      full or its subcourse is gone; otherwise the group must be below its
      limit, and the new row gets seat `max + 1` (1 for an empty group). */
  function Join(g: seq<Member>, subs: seq<Subcourse>, stu: string, name: string, sid: int)
    : (r: Result<seq<Member>, JoinError>)
    ensures Has(g, stu, sid) ==> r == Success(g)
    ensures !Has(g, stu, sid) && FindLimit(subs, sid).None? ==> r == Failure(NoSuchSubcourse)
    ensures !Has(g, stu, sid) && FindLimit(subs, sid).Some? && CountIn(g, sid) >= FindLimit(subs, sid).value
      ==> r == Failure(GroupFull)
    ensures !Has(g, stu, sid) && FindLimit(subs, sid).Some? && CountIn(g, sid) < FindLimit(subs, sid).value
      ==> r.Success? && AppendsMember(g, r.value, stu, name, sid)
    ensures r.Success? && !Has(g, stu, sid) ==> CountIn(r.value, sid) == CountIn(g, sid) + 1
  {
    if Has(g, stu, sid) then Success(g)
    else match FindLimit(subs, sid)
      case None => Failure(NoSuchSubcourse)
      case Some(limit) =>
        if CountIn(g, sid) >= limit then Failure(GroupFull)
        else
          var g' := g + [Member(Tables.NextId(g, MemberId), stu, name, NextSeat(g, sid), sid)];
          assert g'[..|g|] == g;
          Success(g')
  }

  /** The rows left by `DELETE FROM students WHERE stu_id = ? AND subcourse_id = ?`. */
  function Remove(g: seq<Member>, stu: string, sid: int): (r: seq<Member>)
    ensures |r| <= |g|
  {
    if |g| == 0 then []
    else
      var last := g[|g| - 1];
      Remove(g[..|g| - 1], stu, sid) + (if last.stuId == stu && last.subcourseId == sid then [] else [last])
  }

  /** The removal keeps exactly the rows that do not match. */
  lemma {:induction false} RemoveMembers(g: seq<Member>, stu: string, sid: int)
    ensures forall m :: m in Remove(g, stu, sid) <==> m in g && !(m.stuId == stu && m.subcourseId == sid)
  {
    if |g| > 0 {
      var n := |g| - 1;
      RemoveMembers(g[..n], stu, sid);
      assert g == g[..n] + [g[n]];
    }
  }

  /** `remove_student_from_group`: the remaining rows, and whether any row
      was deleted. */
  function Leave(g: seq<Member>, stu: string, sid: int): (r: (seq<Member>, bool))
    ensures r.1 <==> Has(g, stu, sid)
    ensures !Has(r.0, stu, sid)
    ensures forall m :: m in g && !(m.stuId == stu && m.subcourseId == sid) ==> m in r.0
    ensures forall m :: m in r.0 ==> m in g
  {
    var rest := Remove(g, stu, sid);
    RemoveMembers(g, stu, sid);
    assert !Has(rest, stu, sid) by {
      forall i | 0 <= i < |rest|
        ensures !(rest[i].stuId == stu && rest[i].subcourseId == sid)
      {
        assert rest[i] in rest;
      }
    }
    RemoveShrinksIffHas(g, stu, sid);
    (rest, |rest| < |g|)
  }

  /** Removal shortens the table exactly when a matching row exists. */
  lemma RemoveShrinksIffHas(g: seq<Member>, stu: string, sid: int)
    ensures |Remove(g, stu, sid)| < |g| <==> Has(g, stu, sid)
  {
    if Has(g, stu, sid) {
      var i :| 0 <= i < |g| && g[i].stuId == stu && g[i].subcourseId == sid;
      RemoveDrops(g, stu, sid, i);
    } else {
      RemoveKeepsAll(g, stu, sid);
    }
  }

  /** A matching row makes the removal strictly shorter. */
  lemma {:induction false} RemoveDrops(g: seq<Member>, stu: string, sid: int, k: int)
    requires 0 <= k < |g| && g[k].stuId == stu && g[k].subcourseId == sid
    ensures |Remove(g, stu, sid)| < |g|
  {
    var n := |g| - 1;
    if k < n {
      RemoveDrops(g[..n], stu, sid, k);
    }
  }

  /** Without a matching row nothing is removed. */
  lemma {:induction false} RemoveKeepsAll(g: seq<Member>, stu: string, sid: int)
    requires !Has(g, stu, sid)
    ensures Remove(g, stu, sid) == g
  {
    if |g| > 0 {
      var n := |g| - 1;
      forall i | 0 <= i < n
        ensures !(g[..n][i].stuId == stu && g[..n][i].subcourseId == sid)
      {
        assert g[..n][i] == g[i];
      }
      RemoveKeepsAll(g[..n], stu, sid);
      assert g == g[..n] + [g[n]];
    }
  }

  /** `set_student_seat`: the row with id `rowId` gets seat `seat`; nothing
      else changes and no uniqueness is checked. */
  function SetSeat(g: seq<Member>, rowId: int, seat: int): (r: seq<Member>)
    ensures |r| == |g|
    ensures forall i :: 0 <= i < |g| ==> r[i].(seat := g[i].seat) == g[i]
    ensures forall i :: 0 <= i < |g| && g[i].id == rowId ==> r[i].seat == seat
    ensures forall i :: 0 <= i < |g| && g[i].id != rowId ==> r[i] == g[i]
  {
    seq(|g|, i requires 0 <= i < |g| => if g[i].id == rowId then g[i].(seat := seat) else g[i])
  }

  /** `update_subcourse`: every field of the row with id `id` is replaced by
      the request's; absent when no such row exists (the `RETURNING` fetch
      fails). */
  function UpdateSubcourse(subs: seq<Subcourse>, id: int, req: Subcourse): (r: Option<seq<Subcourse>>)
    ensures r.None? <==> forall i :: 0 <= i < |subs| ==> subs[i].id != id
    ensures r.Some? ==> |r.value| == |subs|
    ensures r.Some? ==> forall i :: 0 <= i < |subs| ==>
      r.value[i] == if subs[i].id == id then req.(id := id) else subs[i]
  {
    if forall i :: 0 <= i < |subs| ==> subs[i].id != id then None
    else Some(seq(|subs|, i requires 0 <= i < |subs| => if subs[i].id == id then req.(id := id) else subs[i]))
  }

  // ---------------------------------------------------------------------
  // The roster invariants

  /** No two rows of one group share a seat. */
  predicate SeatsUnique(g: seq<Member>) {
    forall i, j :: 0 <= i < j < |g| && g[i].subcourseId == g[j].subcourseId ==> g[i].seat != g[j].seat
  }

  /** At most one row per (student, group). */
  predicate OneRowPerStudent(g: seq<Member>) {
    forall i, j :: 0 <= i < j < |g| ==>
      !(g[i].stuId == g[j].stuId && g[i].subcourseId == g[j].subcourseId)
  }

  /** Row ids are distinct. */
  predicate IdsUnique(g: seq<Member>) {
    forall i, j :: 0 <= i < j < |g| ==> g[i].id != g[j].id
  }

  /** Every group whose subcourse exists has at most `stu_limit` rows. */
  ghost predicate WithinLimits(g: seq<Member>, subs: seq<Subcourse>) {
    forall sid :: FindLimit(subs, sid).Some? ==> CountIn(g, sid) <= FindLimit(subs, sid).value
  }

  ghost predicate Valid(g: seq<Member>, subs: seq<Subcourse>) {
    SeatsUnique(g) && OneRowPerStudent(g) && IdsUnique(g) && WithinLimits(g, subs)
  }

  lemma CountAppend(g: seq<Member>, m: Member, sid: int)
    ensures CountIn(g + [m], sid) == CountIn(g, sid) + (if m.subcourseId == sid then 1 else 0)
  {
    assert (g + [m])[..|g|] == g;
  }

  /** A successful join keeps every roster invariant: the new seat is above
      all seats of its group, the student had no row yet, the new id is
      fresh, and the group was below its limit. */
  lemma JoinPreservesValid(g: seq<Member>, subs: seq<Subcourse>, stu: string, name: string, sid: int)
    requires Valid(g, subs)
    requires Join(g, subs, stu, name, sid).Success?
    ensures Valid(Join(g, subs, stu, name, sid).value, subs)
  {
    var g' := Join(g, subs, stu, name, sid).value;
    if !Has(g, stu, sid) {
      var n := |g|;
      assert forall i :: 0 <= i < n ==> g'[i] == g[i] by {
        assert g'[..n] == g;
      }
      forall sid' | FindLimit(subs, sid').Some?
        ensures CountIn(g', sid') <= FindLimit(subs, sid').value
      {
        assert g' == g + [g'[n]];
        CountAppend(g, g'[n], sid');
      }
      assert OneRowPerStudent(g') by {
        forall i, j | 0 <= i < j < |g'|
          ensures !(g'[i].stuId == g'[j].stuId && g'[i].subcourseId == g'[j].subcourseId)
        {
          if j == n {
            assert g'[i] == g[i];
          }
        }
      }
    }
  }

  /** Leaving keeps every roster invariant: it only deletes rows. */
  lemma LeavePreservesValid(g: seq<Member>, subs: seq<Subcourse>, stu: string, sid: int)
    requires Valid(g, subs)
    ensures Valid(Leave(g, stu, sid).0, subs)
  {
    RemovePreserves(g, stu, sid);
    forall sid' | FindLimit(subs, sid').Some?
      ensures CountIn(Remove(g, stu, sid), sid') <= FindLimit(subs, sid').value
    {
      RemoveCount(g, stu, sid, sid');
    }
  }

  lemma {:induction false} RemoveCount(g: seq<Member>, stu: string, sid: int, sid': int)
    ensures CountIn(Remove(g, stu, sid), sid') <= CountIn(g, sid')
  {
    if |g| > 0 {
      var n := |g| - 1;
      RemoveCount(g[..n], stu, sid, sid');
      var r := Remove(g[..n], stu, sid);
      if !(g[n].stuId == stu && g[n].subcourseId == sid) {
        assert Remove(g, stu, sid) == r + [g[n]];
        CountAppend(r, g[n], sid');
      } else {
        assert Remove(g, stu, sid) == r;
      }
    }
  }

  /** A row of `g[..n]` is one of the first `n` rows. */
  lemma InPrefix(g: seq<Member>, n: int, m: Member) returns (k: int)
    requires 0 <= n <= |g| && m in g[..n]
    ensures 0 <= k < n && g[k] == m
  {
    k :| 0 <= k < n && g[..n][k] == m;
  }

  lemma {:induction false} RemovePreserves(g: seq<Member>, stu: string, sid: int)
    requires SeatsUnique(g) && OneRowPerStudent(g) && IdsUnique(g)
    ensures var r := Remove(g, stu, sid); SeatsUnique(r) && OneRowPerStudent(r) && IdsUnique(r)
  {
    if |g| > 0 {
      var n := |g| - 1;
      var p := g[..n];
      RemovePreserves(p, stu, sid);
      RemoveMembers(p, stu, sid);
      var r := Remove(p, stu, sid);
      var x := g[n];
      if !(x.stuId == stu && x.subcourseId == sid) {
        forall i | 0 <= i < |r|
          ensures r[i].id != x.id
          ensures r[i].subcourseId == x.subcourseId ==> r[i].seat != x.seat && r[i].stuId != x.stuId
        {
          assert r[i] in r;
          var k := InPrefix(g, n, r[i]);
        }
        assert Remove(g, stu, sid) == r + [x];
        AppendKeepsDistinct(r, x);
      } else {
        assert Remove(g, stu, sid) == r;
      }
    }
  }

  /** Appending a row that clashes with no earlier row keeps the three
      uniqueness invariants. */
  lemma AppendKeepsDistinct(r: seq<Member>, x: Member)
    requires SeatsUnique(r) && OneRowPerStudent(r) && IdsUnique(r)
    requires forall i :: 0 <= i < |r| ==> r[i].id != x.id
    requires forall i :: 0 <= i < |r| && r[i].subcourseId == x.subcourseId ==> r[i].seat != x.seat && r[i].stuId != x.stuId
    ensures var r' := r + [x]; SeatsUnique(r') && OneRowPerStudent(r') && IdsUnique(r')
  {
    var r' := r + [x];
    forall i, j | 0 <= i < j < |r'|
      ensures r'[i].id != r'[j].id
      ensures r'[i].subcourseId == r'[j].subcourseId ==> r'[i].seat != r'[j].seat && r'[i].stuId != r'[j].stuId
    {
      if j < |r| {
        assert r'[i] == r[i] && r'[j] == r[j];
      } else {
        assert r'[i] == r[i];
      }
    }
  }

  /** Joining twice is joining once: the second join finds the row the
      first one inserted. */
  lemma JoinIdempotent(g: seq<Member>, subs: seq<Subcourse>, stu: string, name: string, name': string, sid: int)
    requires Join(g, subs, stu, name, sid).Success?
    ensures Join(Join(g, subs, stu, name, sid).value, subs, stu, name', sid) == Join(g, subs, stu, name, sid)
  {
    var g' := Join(g, subs, stu, name, sid).value;
    if !Has(g, stu, sid) {
      assert g'[|g|].stuId == stu && g'[|g|].subcourseId == sid;
    }
  }

  /** Leaving twice is leaving once, and the second leave deletes nothing. */
  lemma LeaveIdempotent(g: seq<Member>, stu: string, sid: int)
    ensures Leave(Leave(g, stu, sid).0, stu, sid) == (Leave(g, stu, sid).0, false)
  {
    RemoveKeepsAll(Leave(g, stu, sid).0, stu, sid);
  }

  /** A join never reuses a seat still held in the group: the new seat is
      above every seat held there, so the group's largest seat only grows. */
  lemma JoinSeatAboveAll(g: seq<Member>, subs: seq<Subcourse>, stu: string, name: string, sid: int)
    requires !Has(g, stu, sid) && Join(g, subs, stu, name, sid).Success?
    ensures var g' := Join(g, subs, stu, name, sid).value;
      MaxSeat(g', sid).Some? && MaxSeat(g', sid).value == g'[|g|].seat
      && (MaxSeat(g, sid).Some? ==> MaxSeat(g, sid).value < MaxSeat(g', sid).value)
  {
    var g' := Join(g, subs, stu, name, sid).value;
    assert g'[..|g|] == g;
  }

  /** The seat override can break seat uniqueness: two members of group 7
      on seats 1 and 2, and the first is moved to seat 2. */
  lemma SetSeatCanDuplicate()
    ensures var g := [Member(1, "a", "A", 1, 7), Member(2, "b", "B", 2, 7)];
      SeatsUnique(g) && !SeatsUnique(SetSeat(g, 1, 2))
  {
    var g := [Member(1, "a", "A", 1, 7), Member(2, "b", "B", 2, 7)];
    var r := SetSeat(g, 1, 2);
    assert r[0].seat == 2 && r[1].seat == 2 && r[0].subcourseId == r[1].subcourseId;
  }

  /** The seat override never changes group sizes, so it cannot break the
      seat limits. */
  lemma {:induction false} SetSeatKeepsCounts(g: seq<Member>, rowId: int, seat: int, sid: int)
    ensures CountIn(SetSeat(g, rowId, seat), sid) == CountIn(g, sid)
  {
    if |g| > 0 {
      var n := |g| - 1;
      var r := SetSeat(g, rowId, seat);
      assert r[..n] == SetSeat(g[..n], rowId, seat);
      SetSeatKeepsCounts(g[..n], rowId, seat, sid);
    }
  }

  /** Lowering `stu_limit` through the subcourse update is not checked
      against the roster: a full group of two with its limit lowered to one
      exceeds its limit. */
  lemma LoweringLimitBreaksBound()
    ensures var sc := Subcourse(7, 1, 3, "T", "t", 1, 2, 9, 0);
      var g := [Member(1, "a", "A", 1, 7), Member(2, "b", "B", 2, 7)];
      var subs' := UpdateSubcourse([sc], 7, sc.(stuLimit := 1));
      WithinLimits(g, [sc]) && subs'.Some? && !WithinLimits(g, subs'.value)
  {
    var sc := Subcourse(7, 1, 3, "T", "t", 1, 2, 9, 0);
    var g := [Member(1, "a", "A", 1, 7), Member(2, "b", "B", 2, 7)];
    assert g[..1] == [g[0]];
    assert CountIn(g, 7) == 2;
    forall sid | FindLimit([sc], sid).Some?
      ensures CountIn(g, sid) <= FindLimit([sc], sid).value
    {
      assert sid == 7;
    }
    var subs' := UpdateSubcourse([sc], 7, sc.(stuLimit := 1));
    assert subs'.value[0] == sc.(stuLimit := 1);
    assert FindLimit(subs'.value, 7) == Some(1);
  }

  /** The scenario of a group of two: A gets seat 1, B seat 2, C is refused;
      after A leaves, C gets seat 3, not A's freed seat 1. */
  lemma GroupOfTwoScenario()
    ensures var subs := [Subcourse(7, 1, 3, "T", "t", 1, 2, 9, 0)];
      var g1 := Join([], subs, "A", "A", 7);
      g1.Success? &&
      var g2 := Join(g1.value, subs, "B", "B", 7);
      g2.Success? &&
      Join(g2.value, subs, "C", "C", 7) == Failure(GroupFull) &&
      var g3 := Leave(g2.value, "A", 7).0;
      var g4 := Join(g3, subs, "C", "C", 7);
      g1.value == [Member(1, "A", "A", 1, 7)]
      && g2.value == [Member(1, "A", "A", 1, 7), Member(2, "B", "B", 2, 7)]
      && g4 == Success([Member(2, "B", "B", 2, 7), Member(3, "C", "C", 3, 7)])
  {
    var subs := [Subcourse(7, 1, 3, "T", "t", 1, 2, 9, 0)];
    var a := Member(1, "A", "A", 1, 7);
    var b := Member(2, "B", "B", 2, 7);
    var c := Member(3, "C", "C", 3, 7);
    ScenarioFirstJoin(subs, a);
    ScenarioSecondJoin(subs, a, b);
    ScenarioFull(subs, a, b);
    ScenarioLeave(a, b);
    ScenarioRejoin(subs, b, c);
  }

  lemma ScenarioFirstJoin(subs: seq<Subcourse>, a: Member)
    requires subs == [Subcourse(7, 1, 3, "T", "t", 1, 2, 9, 0)] && a == Member(1, "A", "A", 1, 7)
    ensures Join([], subs, "A", "A", 7) == Success([a])
  {
    assert !Has([], "A", 7);
    assert FindLimit(subs, 7) == Some(2);
    assert [] + [a] == [a];
  }

  lemma ScenarioSecondJoin(subs: seq<Subcourse>, a: Member, b: Member)
    requires subs == [Subcourse(7, 1, 3, "T", "t", 1, 2, 9, 0)]
    requires a == Member(1, "A", "A", 1, 7) && b == Member(2, "B", "B", 2, 7)
    ensures Join([a], subs, "B", "B", 7) == Success([a, b])
  {
    assert !Has([a], "B", 7);
    assert FindLimit(subs, 7) == Some(2);
    assert [a][..0] == [];
    assert CountIn([a], 7) == 1;
    assert MaxSeat([a], 7) == Some(1);
    assert Tables.NextId([a], MemberId) == 2;
    assert [a] + [b] == [a, b];
  }

  lemma ScenarioFull(subs: seq<Subcourse>, a: Member, b: Member)
    requires subs == [Subcourse(7, 1, 3, "T", "t", 1, 2, 9, 0)]
    requires a == Member(1, "A", "A", 1, 7) && b == Member(2, "B", "B", 2, 7)
    ensures Join([a, b], subs, "C", "C", 7) == Failure(GroupFull)
  {
    assert [a, b][..1] == [a];
    assert [a][..0] == [];
    assert CountIn([a, b], 7) == 2;
    assert !Has([a, b], "C", 7);
    assert FindLimit(subs, 7) == Some(2);
  }

  lemma ScenarioLeave(a: Member, b: Member)
    requires a == Member(1, "A", "A", 1, 7) && b == Member(2, "B", "B", 2, 7)
    ensures Leave([a, b], "A", 7).0 == [b]
  {
    assert [a, b][..1] == [a];
    assert [a][..0] == [];
    assert Remove([a], "A", 7) == [];
    assert Remove([a, b], "A", 7) == [] + [b];
  }

  lemma ScenarioRejoin(subs: seq<Subcourse>, b: Member, c: Member)
    requires subs == [Subcourse(7, 1, 3, "T", "t", 1, 2, 9, 0)]
    requires b == Member(2, "B", "B", 2, 7) && c == Member(3, "C", "C", 3, 7)
    ensures Join([b], subs, "C", "C", 7) == Success([b, c])
  {
    assert !Has([b], "C", 7);
    assert FindLimit(subs, 7) == Some(2);
    assert [b][..0] == [];
    assert CountIn([b], 7) == 1;
    assert MaxSeat([b], 7) == Some(2);
    assert Tables.NextId([b], MemberId) == 3;
    assert [b] + [c] == [b, c];
  }
}
