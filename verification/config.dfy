/** Permission bits and the fixed login token of the server configuration
    (src/config.rs). A principal's permission value is the bitwise OR of the
    role bits it holds; roles are not exclusive. */
module Config {

  const ADMIN: bv64 := 0x1
  const TEACHER: bv64 := 0x2
  const LAB_MANAGER: bv64 := 0x4

  /** These three bits are used by the handlers but their values are not
      part of the configuration file this model follows, so they are left
      unconstrained: every property below holds whatever they are. */
  const STUDENT: bv64
  const LINUX: bv64
  const MEETING_MANAGER: bv64

  /** The token every login must present; it is a literal, not read from
      the environment. */
  const TOKEN_SECRET: string := "mysecret"

  /** `b` has exactly one bit set. */
  predicate SingleBit(b: bv64) {
    b != 0 && b & (b - 1) == 0
  }

  /** `p` holds at least one of the bits of mask `m`: the only permission
      test the server ever performs. */
  predicate Holds(p: bv64, m: bv64) {
    p & m != 0
  }

  lemma KnownBitsAreSingleBits()
    ensures SingleBit(ADMIN) && SingleBit(TEACHER) && SingleBit(LAB_MANAGER)
  {
  }

  lemma KnownBitsAreDisjoint()
    ensures ADMIN & TEACHER == 0 && ADMIN & LAB_MANAGER == 0 && TEACHER & LAB_MANAGER == 0
  {
  }

  /** The two combined masks the route table uses. */
  lemma CombinedMasks()
    ensures TEACHER | ADMIN == 3
    ensures LAB_MANAGER | ADMIN == 5
  {
  }

  /** Holding a role bit means passing every mask that contains it. */
  lemma HoldsWithMoreBits(p: bv64, m: bv64, b: bv64)
    requires Holds(p, m)
    ensures Holds(p | b, m)
  {
    assert (p | b) & m == (p & m) | (b & m);
  }

  /** Widening a mask never refuses a value that passed it. */
  lemma HoldsUnderWiderMask(p: bv64, m: bv64, b: bv64)
    requires Holds(p, m)
    ensures Holds(p, m | b)
  {
    assert p & (m | b) == (p & m) | (p & b);
  }

  /** A value with no bits passes no mask at all. */
  lemma NothingHoldsForZero(m: bv64)
    ensures !Holds(0, m)
  {
  }


  /** A value that is either `p` or `p | b` keeps every bit of `p` and has
      none outside `p | b`. */
  lemma OnlyAdds(p: bv64, p': bv64, b: bv64)
    requires p' == p || p' == p | b
    ensures p' & p == p
    ensures p' & !(p | b) == 0
  {
    if p' == p {
      SameBits(p, b);
    } else {
      OrBits(p, b);
    }
  }

  lemma SameBits(p: bv64, b: bv64)
    ensures p & p == p
    ensures p & !(p | b) == 0
  {
  }

  lemma OrBits(p: bv64, b: bv64)
    ensures (p | b) & p == p
    ensures (p | b) & !(p | b) == 0
  {
  }
}
