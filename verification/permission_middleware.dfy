/**
 * The two permission gates: a role-level gate (the caller's role name must
 * carry a named permission) and a group-level gate (the group's owner always
 * passes; anybody else passes iff the group grants the named permission).
 */
module PermissionMiddleware {
  import opened Wrappers
  import opened Collabs
  import Text

  /** A value the authentication middleware may have put in the request context. */
  datatype CtxValue = Absent | StringValue(s: string) | OtherValue

  /** A row of `rolepermission`, written with the role's and the permission's names. */
  datatype RolePermission = RolePermission(role: string, permission: string)

  /** `permission.RoleHasPermission` on the ids looked up by name: an unknown name has no rows. */
  predicate RoleHasPermission(rolePermissions: set<RolePermission>, role: string, permission: string) {
    RolePermission(role, permission) in rolePermissions
  }

  /** The role gate. */
  function RoleHasPermissionMiddleware(
    rolePermissions: set<RolePermission>, userRole: CtxValue, required: string): (d: Decision)
    ensures !userRole.StringValue? ==> d == Abort(UNAUTHORIZED)
    ensures userRole.StringValue? ==>
      (d == Next <==> RoleHasPermission(rolePermissions, userRole.s, required))
    ensures userRole.StringValue? && d != Next ==> d == Abort(FORBIDDEN)
  {
    match userRole
    case Absent => Abort(UNAUTHORIZED)
    case OtherValue => Abort(UNAUTHORIZED)
    case StringValue(role) =>
      if !RoleHasPermission(rolePermissions, role, required) then Abort(FORBIDDEN) else Next
  }

  /**
   * `collabMemberHasPermission`: the permission's id is looked up by name and
   * the group must hold a grant row for it.  A name that is not seeded has id
   * 0, for which no grant row exists.
   */
  predicate CollabMemberHasPermission(grants: set<Grant>, collabId: int, permission: string) {
    permission in COLLAB_PERMISSIONS && Grant(collabId, permission) in grants
  }

  /**
   * The group gate.  `userId` is the value in the request context (absent if
   * the authentication middleware set none); the group id comes from the
   * route parameter `collab_id`.
   */
  function CollabMemberHasPermissionMiddleware(
    collabs: map<int, Collab>, grants: set<Grant>, userId: Option<int>,
    collabIdParam: string, required: string): (d: Decision)
    ensures Text.Atoi(collabIdParam).None? ==> d == Abort(BAD_REQUEST)
    ensures Text.Atoi(collabIdParam).Some? && Text.Atoi(collabIdParam).value !in collabs
      ==> d == Abort(INTERNAL_ERROR)
    ensures Text.Atoi(collabIdParam).Some? && Text.Atoi(collabIdParam).value in collabs ==>
      var id := Text.Atoi(collabIdParam).value;
      (d == Next <==> (userId == Some(collabs[id].ownerId) || CollabMemberHasPermission(grants, id, required)))
      && (d != Next ==> d == Abort(FORBIDDEN))
  {
    match Text.Atoi(collabIdParam)
    case None => Abort(BAD_REQUEST)
    case Some(id) =>
      if id !in collabs then Abort(INTERNAL_ERROR)
      else if userId == Some(collabs[id].ownerId) then Next
      else if !CollabMemberHasPermission(grants, id, required) then Abort(FORBIDDEN)
      else Next
  }

  /** The owner of an existing group passes the group gate whatever the group grants. */
  lemma OwnerAlwaysProceeds(
    collabs: map<int, Collab>, grants1: set<Grant>, grants2: set<Grant>, collabId: int, required: string)
    requires collabId in collabs
    ensures CollabMemberHasPermissionMiddleware(collabs, grants1, Some(collabs[collabId].ownerId), Text.Itoa(collabId), required) == Next
    ensures CollabMemberHasPermissionMiddleware(collabs, grants2, Some(collabs[collabId].ownerId), Text.Itoa(collabId), required) == Next
  {
    Text.AtoiItoa(collabId);
  }

  /** All non-owners of a group get the same decision: grants are per group, not per member. */
  lemma SameDecisionForNonOwners(
    collabs: map<int, Collab>, grants: set<Grant>, u1: Option<int>, u2: Option<int>,
    collabIdParam: string, required: string)
    requires Text.Atoi(collabIdParam).Some? && Text.Atoi(collabIdParam).value in collabs
    requires u1 != Some(collabs[Text.Atoi(collabIdParam).value].ownerId)
    requires u2 != Some(collabs[Text.Atoi(collabIdParam).value].ownerId)
    ensures CollabMemberHasPermissionMiddleware(collabs, grants, u1, collabIdParam, required)
         == CollabMemberHasPermissionMiddleware(collabs, grants, u2, collabIdParam, required)
  {
  }

  /** A permission name that was never seeded never passes for a non-owner. */
  lemma UnknownPermissionForbidden(
    collabs: map<int, Collab>, grants: set<Grant>, userId: Option<int>, collabId: int, required: string)
    requires collabId in collabs && userId != Some(collabs[collabId].ownerId)
    requires required !in COLLAB_PERMISSIONS
    ensures CollabMemberHasPermissionMiddleware(collabs, grants, userId, Text.Itoa(collabId), required)
         == Abort(FORBIDDEN)
  {
    Text.AtoiItoa(collabId);
  }
}
