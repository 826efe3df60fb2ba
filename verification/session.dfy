/** The cookie session as the handlers see it: three keys, each of which can
    be read successfully, be absent, or fail to deserialize. */
module Sessions {
  import opened Wrappers

  /** The result of `session.get::<T>(key)`: an error, `Ok(None)` or `Ok(Some(v))`. */
  datatype Read<+T> = ReadError | Missing | Found(value: T)

  datatype Session = Session(userId: Read<string>, realname: Read<string>, permissions: Read<bv64>)

  /** A session with no keys: a fresh browser, or one after logout. */
  const EMPTY: Session := Session(Missing, Missing, Missing)

  /** `.ok().flatten().unwrap_or(d)`: a read error and an absent key both
      fall back to the default. */
  function ReadOr<T>(r: Read<T>, d: T): (v: T)
    ensures r.Found? ==> v == r.value
    ensures !r.Found? ==> v == d
  {
    match r
    case Found(x) => x
    case _ => d
  }

  /** The permission value a handler acts on: 0 unless one is stored. */
  function PermissionOrZero(s: Session): bv64 {
    ReadOr(s.permissions, 0)
  }

  /** The user id a handler compares with: "" unless one is stored. */
  function UserIdOrEmpty(s: Session): string {
    ReadOr(s.userId, "")
  }

  /** The realname a handler records: "" unless one is stored. */
  function RealnameOrEmpty(s: Session): string {
    ReadOr(s.realname, "")
  }

  /** `session.get("user_id").unwrap_or(None)`: the stored id, if readable. */
  function UserIdOption(s: Session): (o: Option<string>)
    ensures o.Some? <==> s.userId.Found?
    ensures o.Some? ==> o.value == s.userId.value
  {
    if s.userId.Found? then Some(s.userId.value) else None
  }
}
