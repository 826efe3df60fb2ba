/** The permission gate wrapped around each protected scope
    (src/middleware.rs): the inner service runs only when the stored
    permission value shares a bit with the scope's required mask. */
module Gate {
  import opened Sessions
  import Config

  /** What the gate does with a request: hand it to the inner service, or
      answer on its own without calling it. */
  datatype Decision = Forward | Unauthorized | Forbidden

  /** `CheckPermissionMiddleware::call` for a scope requiring `required`. */
  function Check(permissions: Read<bv64>, required: bv64): (d: Decision)
    ensures d == Unauthorized <==> !permissions.Found?
    ensures d == Forward <==> permissions.Found? && Config.Holds(permissions.value, required)
    ensures d == Forbidden <==> permissions.Found? && !Config.Holds(permissions.value, required)
  {
    match permissions
    case Found(p) => if Config.Holds(p, required) then Forward else Forbidden
    case _ => Unauthorized
  }

  /** The decision for a whole session: only the permission key is read. */
  function CheckSession(s: Session, required: bv64): Decision {
    Check(s.permissions, required)
  }

  /** A stored permission of 0 is Forbidden under every mask, never
      Unauthorized. */
  lemma ZeroIsForbidden(required: bv64)
    ensures Check(Found(0), required) == Forbidden
  {
    Config.NothingHoldsForZero(required);
  }

  /** Adding bits to the permission, or to the mask, never turns a
      forwarded request into a refused one. */
  lemma Monotone(p: bv64, q: bv64, m: bv64, m': bv64)
    requires Check(Found(p), m) == Forward
    ensures Check(Found(p | q), m) == Forward
    ensures Check(Found(p), m | m') == Forward
  {
    Config.HoldsWithMoreBits(p, m, q);
    Config.HoldsUnderWiderMask(p, m, m');
  }

  /** Two sessions with the same stored permission get the same decision,
      whoever they belong to. */
  lemma OnlyPermissionMatters(s: Session, t: Session, required: bv64)
    requires s.permissions == t.permissions
    ensures CheckSession(s, required) == CheckSession(t, required)
  {
  }
}
