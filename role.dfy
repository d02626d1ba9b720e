/** The closed set of roles and the `Role` reference record. */
module RoleModel {
  import opened Wrappers
  import opened Documents

  datatype RoleEnum = Junior | Senior | Admin

  /** The enum's string value, which is what documents store. */
  function RoleName(r: RoleEnum): string
  {
    match r
    case Junior => "Junior"
    case Senior => "Senior"
    case Admin => "Admin"
  }

  /** The members of the enum in declaration order (iterating `RoleEnum`). */
  const ALL_ROLES: seq<RoleEnum> := [Junior, Senior, Admin]

  /** Enum validation of a string: only the exact value of a member is accepted. */
  function ParseRole(s: string): (r: Option<RoleEnum>)
    ensures r.None? ==> forall role :: RoleName(role) != s
    ensures r.Some? ==> RoleName(r.value) == s
  {
    if s == "Junior" then Some(Junior)
    else if s == "Senior" then Some(Senior)
    else if s == "Admin" then Some(Admin)
    else None
  }

  /** Distinct roles have distinct stored values, and every role is listed once in the enum. */
  lemma RoleNamesDistinct(a: RoleEnum, b: RoleEnum)
    ensures RoleName(a) == RoleName(b) <==> a == b
    ensures a in ALL_ROLES && |ALL_ROLES| == 3
  {
  }

  /** `Role(role=r).model_dump()`. */
  function RoleDocument(r: RoleEnum): (d: Doc)
    ensures d.Keys == {"role"} && d["role"] == Str(RoleName(r))
  {
    map["role" := Str(RoleName(r))]
  }
}
