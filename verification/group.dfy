/** The group handlers (src/handler/group.rs): a student joins or leaves a
    lab group under the identity stored in the session; a teacher removes
    any student from any group. */
module Groups {
  import opened Wrappers
  import opened Sessions
  import opened Records
  import Enrollment

  /** A handler's response status together with the `students` table it
      leaves behind. */
  datatype Outcome = Outcome(status: Status, roster: seq<Member>)

  /** `add_group`: the student id and name come from the session, the path
      only picks the subcourse. Both keys readable is the only way to the
      database; otherwise a read error wins over a missing key. */
  function AddGroup(s: Session, g: seq<Member>, subs: seq<Subcourse>, sid: int): (o: Outcome)
    ensures o.status == Ok <==>
      s.userId.Found? && s.realname.Found?
      && Enrollment.Join(g, subs, s.userId.value, s.realname.value, sid).Success?
    ensures o.status == Unauthorized <==>
      !s.userId.ReadError? && !s.realname.ReadError? && !(s.userId.Found? && s.realname.Found?)
    ensures o.status == InternalServerError <==>
      s.userId.ReadError? || s.realname.ReadError?
      || (s.userId.Found? && s.realname.Found?
          && Enrollment.Join(g, subs, s.userId.value, s.realname.value, sid).Failure?)
    ensures o.status != Ok ==> o.roster == g
    ensures o.status == Ok ==>
      |g| <= |o.roster| && o.roster[..|g|] == g && Enrollment.Has(o.roster, s.userId.value, sid)
    ensures o.status == Ok && !Enrollment.Has(g, s.userId.value, sid) ==>
      |o.roster| == |g| + 1 && o.roster[|g|].stuId == s.userId.value
      && o.roster[|g|].stuName == s.realname.value && o.roster[|g|].subcourseId == sid
    ensures o.status == Ok ==>
      o.roster == Enrollment.Join(g, subs, s.userId.value, s.realname.value, sid).value
    ensures o.status == Ok && Enrollment.Has(g, s.userId.value, sid) ==> o.roster == g
    ensures o.status == Ok && !Enrollment.Has(g, s.userId.value, sid) ==>
      Enrollment.AppendsMember(g, o.roster, s.userId.value, s.realname.value, sid)
  {
    match (s.userId, s.realname)
    case (Found(u), Found(n)) =>
      (match Enrollment.Join(g, subs, u, n, sid)
       case Success(g') =>
         assert Enrollment.Has(g', u, sid) by {
           if !Enrollment.Has(g, u, sid) {
             assert g'[|g|].stuId == u && g'[|g|].subcourseId == sid;
           }
         }
         Outcome(Ok, g')
       case Failure(_) => Outcome(InternalServerError, g))
    case _ =>
      if s.userId.ReadError? || s.realname.ReadError? then Outcome(InternalServerError, g)
      else Outcome(Unauthorized, g)
  }

  /** `leave_group`: deletes the session user's row of group `sid` and
      reports success whether or not a row existed. A session read error is
      answered Unauthorized like a missing key. */
  function LeaveGroup(s: Session, g: seq<Member>, sid: int): (o: Outcome)
    ensures o.status == Ok <==> s.userId.Found?
    ensures o.status != Ok ==> o.status == Unauthorized && o.roster == g
    ensures o.status == Ok ==>
      !Enrollment.Has(o.roster, s.userId.value, sid)
      && (forall m :: m in o.roster ==> m in g)
      && (forall m :: m in g && !(m.stuId == s.userId.value && m.subcourseId == sid) ==> m in o.roster)
  {
    match s.userId
    case Found(u) => Outcome(Ok, Enrollment.Leave(g, u, sid).0)
    case _ => Outcome(Unauthorized, g)
  }

  /** `remove_student`: the student and the group both come from the path;
      no session key and no course ownership is consulted, and success is
      reported whether or not a row existed. */
  function RemoveStudent(g: seq<Member>, sid: int, stu: string): (o: Outcome)
    ensures o.status == Ok
    ensures !Enrollment.Has(o.roster, stu, sid)
    ensures forall m :: m in o.roster ==> m in g
    ensures forall m :: m in g && !(m.stuId == stu && m.subcourseId == sid) ==> m in o.roster
  {
    Outcome(Ok, Enrollment.Leave(g, stu, sid).0)
  }

  /** A repeated `add_group` with the same session answers the same and
      changes nothing more, even if the group has since become full. */
  lemma AddGroupIdempotent(s: Session, g: seq<Member>, subs: seq<Subcourse>, sid: int)
    requires AddGroup(s, g, subs, sid).status == Ok
    ensures AddGroup(s, AddGroup(s, g, subs, sid).roster, subs, sid) == AddGroup(s, g, subs, sid)
  {
    Enrollment.JoinIdempotent(g, subs, s.userId.value, s.realname.value, s.realname.value, sid);
  }

  /** A repeated `leave_group` answers the same and leaves the same table. */
  lemma LeaveGroupIdempotent(s: Session, g: seq<Member>, sid: int)
    ensures LeaveGroup(s, LeaveGroup(s, g, sid).roster, sid) == LeaveGroup(s, g, sid)
  {
    if s.userId.Found? {
      Enrollment.LeaveIdempotent(g, s.userId.value, sid);
    }
  }

  /** Removing a student has exactly the effect of that student leaving on
      their own: any caller behind the teacher gate can do it, for any group. */
  lemma RemoveIsLeaveOnBehalf(s: Session, g: seq<Member>, sid: int, stu: string)
    requires s.userId == Found(stu)
    ensures RemoveStudent(g, sid, stu) == LeaveGroup(s, g, sid)
  {
  }

  /** A session with a readable id but no readable name never reaches the
      database: missing name gives Unauthorized, unreadable name gives a
      server error. */
  lemma IncompleteSessionNeverJoins(s: Session, g: seq<Member>, subs: seq<Subcourse>, sid: int)
    requires s.userId.Found? && !s.realname.Found?
    ensures AddGroup(s, g, subs, sid).roster == g
    ensures AddGroup(s, g, subs, sid).status == (if s.realname.ReadError? then InternalServerError else Unauthorized)
  {
  }
}
