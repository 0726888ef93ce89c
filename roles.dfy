/** The membership role enumeration of memberships/models.py. The column is a
  * small integer restricted to three choices; the model keeps the choices as
  * a datatype and the integer code beside it. */
module Roles {
  import opened Common

  datatype Role = Member | Supervisor | Manager

  /** Membership.role's default. */
  const DefaultRole: Role := Member

  function RoleCode(r: Role): nat
  {
    match r
    case Member => 0
    case Supervisor => 1
    case Manager => 2
  }

  /** Reads a stored role code; codes outside the three choices are not roles. */
  function RoleFromCode(n: int): (r: Option<Role>)
    ensures r.Some? <==> 0 <= n <= 2
    ensures r.Some? ==> RoleCode(r.value) == n
  {
    if n == 0 then Some(Member)
    else if n == 1 then Some(Supervisor)
    else if n == 2 then Some(Manager)
    else None
  }

  lemma RoleCodeRoundTrip(r: Role)
    ensures RoleFromCode(RoleCode(r)) == Some(r)
    ensures RoleCode(r) <= 2
  {
  }

  /** "Maintainer": role 1 or 2. */
  predicate IsMaintainerRole(r: Role)
  {
    r == Supervisor || r == Manager
  }
}
