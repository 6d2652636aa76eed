/** Tenant, user, session and document identifiers. */
module Identifiers {
  predicate IsHex(s: string) {
    forall i :: 0 <= i < |s| ==> '0' <= s[i] <= '9' || 'a' <= s[i] <= 'f'
  }

  /** A UUID as its 32 lower-case hexadecimal digits. */
  type Uuid = s: string | |s| == 32 && IsHex(s) witness seq(32, _ => '0')

  /** `str(uuid)`: the 8-4-4-4-12 rendering. */
  function Text(u: Uuid): (s: string)
    ensures |s| == 36
    ensures forall i :: 0 <= i < |s| ==> s[i] == '-' || '0' <= s[i] <= '9' || 'a' <= s[i] <= 'f'
  {
    u[..8] + "-" + u[8..12] + "-" + u[12..16] + "-" + u[16..20] + "-" + u[20..]
  }

  lemma TextInjective(u: Uuid, v: Uuid)
    requires Text(u) == Text(v)
    ensures u == v
  {
    assert Text(u)[..8] == u[..8] && Text(v)[..8] == v[..8];
    assert Text(u)[9..13] == u[8..12] && Text(v)[9..13] == v[8..12];
    assert Text(u)[14..18] == u[12..16] && Text(v)[14..18] == v[12..16];
    assert Text(u)[19..23] == u[16..20] && Text(v)[19..23] == v[16..20];
    assert Text(u)[24..] == u[20..] && Text(v)[24..] == v[20..];
    assert forall w: Uuid :: w == w[..8] + w[8..12] + w[12..16] + w[16..20] + w[20..];
  }
}
