/** Session establishment (src/handler/auth.rs): login by shared token,
    logout, and the greeting that reports who is logged in. */
module Auth {
  import opened Wrappers
  import opened Sessions
  import Config

  /** A row of the `users` table (src/models.rs). */
  datatype User = User(userId: string, username: string, permission: bv64)

  datatype LoginQuery = LoginQuery(userId: string, token: string)

  /** A handler's status together with the session it leaves behind. */
  datatype Reply = Reply(status: Status, session: Session)

  /** `login`: `lookup` is what the user lookup for `q.userId` returned. A
      wrong token, or a failing lookup, leaves the session as it was; a
      known user gets its own permission and name; an unknown user gets
      browse-only permission 0 under the name "Guest". */
  function Login(s: Session, q: LoginQuery, lookup: Fetch<User>): (r: Reply)
    ensures q.token != Config.TOKEN_SECRET ==> r == Reply(Unauthorized, s)
    ensures r.status == Ok <==> q.token == Config.TOKEN_SECRET && !lookup.DbError?
    ensures r.status != Ok ==> r.session == s
    ensures r.status == Ok && lookup.Row? ==>
      r.session == Session(Found(lookup.value.userId), Found(lookup.value.username), Found(lookup.value.permission))
    ensures r.status == Ok && lookup.NoRow? ==>
      r.session == Session(Found(q.userId), Found("Guest"), Found(0))
  {
    if q.token != Config.TOKEN_SECRET then Reply(Unauthorized, s)
    else match lookup
      case Row(u) => Reply(Ok, Session(Found(u.userId), Found(u.username), Found(u.permission)))
      case NoRow => Reply(Ok, Session(Found(q.userId), Found("Guest"), Found(0)))
      case DbError => Reply(InternalServerError, s)
  }

  /** `logout`: the whole session is purged. */
  function Logout(s: Session): (r: Reply)
    ensures r.status == Ok
    ensures !r.session.userId.Found? && !r.session.realname.Found? && !r.session.permissions.Found?
  {
    Reply(Ok, EMPTY)
  }

  /** `greet`: succeeds only when all three keys are stored; any read error
      is a server error, otherwise a missing key means not logged in. */
  function Greet(s: Session): (st: Status)
    ensures st == Ok <==> s.userId.Found? && s.realname.Found? && s.permissions.Found?
    ensures st == InternalServerError <==>
      s.userId.ReadError? || s.realname.ReadError? || s.permissions.ReadError?
    ensures st in {Ok, InternalServerError, Unauthorized}
  {
    if s.userId.Found? && s.realname.Found? && s.permissions.Found? then Ok
    else if s.userId.ReadError? || s.realname.ReadError? || s.permissions.ReadError? then InternalServerError
    else Unauthorized
  }

  /** After a successful login every later `greet` succeeds, and after a
      logout every later `greet` is Unauthorized. */
  lemma LoginThenGreet(s: Session, q: LoginQuery, lookup: Fetch<User>)
    requires Login(s, q, lookup).status == Ok
    ensures Greet(Login(s, q, lookup).session) == Ok
    ensures Greet(Logout(Login(s, q, lookup).session).session) == Unauthorized
  {
  }
}
