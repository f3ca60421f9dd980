/** `checkPermission(requiredPermission)` (src/middleware/permissionMiddleware.ts):
    the guard in front of a route. The role table `ROLE_PERMISSIONS` lives in
    a module outside this model, so it is a parameter here. */
module Permissions {
  import opened Wrappers

  /** The guard lets the request through, or throws after setting the status. */
  datatype Decision = Allow | Unauthorized | Forbidden

  /** An authenticated user; only the role is consulted. */
  datatype User = User(id: int, email: string, role: string)

  /** Role name to the permissions it grants. */
  type RoleTable = map<string, seq<string>>

  /** The decision: no user is Unauthorized; a role without an entry, or
      whose list lacks the permission, is Forbidden; otherwise Allow. */
  function CheckPermission(user: Option<User>, table: RoleTable, required: string): (d: Decision)
    ensures d == Unauthorized <==> user.None?
    ensures d == Allow <==> user.Some? && user.value.role in table && required in table[user.value.role]
  {
    if user.None? then Unauthorized
    else if user.value.role !in table || required !in table[user.value.role] then Forbidden
    else Allow
  }

  /** Without a user the answer is Unauthorized, whatever is required. */
  lemma NoUserUnauthorized(table: RoleTable, required: string)
    ensures CheckPermission(None, table, required) == Unauthorized
  {
  }

  /** A role the table does not know is Forbidden everything. */
  lemma UnknownRoleForbidden(u: User, table: RoleTable, required: string)
    requires u.role !in table
    ensures CheckPermission(Some(u), table, required) == Forbidden
  {
  }

  /** A user is let through exactly when the role's list holds the permission,
      and refused with Forbidden otherwise. */
  lemma AllowedIffListed(u: User, table: RoleTable, required: string)
    ensures CheckPermission(Some(u), table, required) == Allow <==>
      u.role in table && required in table[u.role]
    ensures CheckPermission(Some(u), table, required) != Allow ==>
      CheckPermission(Some(u), table, required) == Forbidden
  {
  }

  /** Two users with the same role get the same answer. */
  lemma OnlyRoleMatters(u: User, v: User, table: RoleTable, required: string)
    requires u.role == v.role
    ensures CheckPermission(Some(u), table, required) == CheckPermission(Some(v), table, required)
  {
  }

  /** Granting a role more permissions never takes one away. */
  lemma MorePermissionsStillAllowed(u: User, table: RoleTable, wider: RoleTable, required: string)
    requires forall r :: r in table ==> r in wider && forall p :: p in table[r] ==> p in wider[r]
    requires CheckPermission(Some(u), table, required) == Allow
    ensures CheckPermission(Some(u), wider, required) == Allow
  {
  }
}
