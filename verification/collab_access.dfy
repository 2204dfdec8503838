/**
 * Access predicates and middlewares over the collaboration tables: who owns a
 * group, who has joined it, and the three gates that run before the group
 * routes (owner given by a form field, owner or member, not archived).
 */
module CollabAccess {
  import opened Wrappers
  import opened Collabs
  import Text

  /** The user owns the group with that id. Ids start at 1, so id 0 never matches. */
  predicate IsCollabOwner(collabs: map<int, Collab>, userId: int, collabId: int) {
    collabId != 0 && collabId in collabs && collabs[collabId].ownerId == userId
  }

  /** The user has a membership row for the group with `joined` set. */
  predicate IsCollabMember(members: map<(int, int), bool>, userId: int, collabId: int) {
    collabId != 0 && (collabId, userId) in members && members[(collabId, userId)]
  }

  predicate IsUserCollabOwnerOrMember(
    collabs: map<int, Collab>, members: map<(int, int), bool>, userId: int, collabId: int)
  {
    IsCollabOwner(collabs, userId, collabId) || IsCollabMember(members, userId, collabId)
  }

  /** A pending invitee of a group they do not own is neither owner nor member. */
  lemma PendingInviteeHasNoAccess(
    collabs: map<int, Collab>, members: map<(int, int), bool>, userId: int, collabId: int)
    requires (collabId, userId) in members && !members[(collabId, userId)]
    requires collabId in collabs && collabs[collabId].ownerId != userId
    ensures !IsUserCollabOwnerOrMember(collabs, members, userId, collabId)
  {
  }

  /** The gate on owner-only form posts: the group id comes from the form field `collab_id`. */
  function IsPOSTCollabOwnerMiddleware(collabs: map<int, Collab>, userId: int, formCollabId: string): (d: Decision)
    ensures Text.Atoi(formCollabId).None? ==> d == Abort(BAD_REQUEST)
    ensures Text.Atoi(formCollabId).Some? ==>
      (d == Next <==> IsCollabOwner(collabs, userId, Text.Atoi(formCollabId).value))
    ensures d == Next || d == Abort(BAD_REQUEST) || d == Abort(UNAUTHORIZED)
  {
    match Text.Atoi(formCollabId)
    case None => Abort(BAD_REQUEST)
    case Some(id) => if IsCollabOwner(collabs, userId, id) then Next else Abort(UNAUTHORIZED)
  }

  /** The gate on group routes: the caller must own the group or have joined it. */
  function IsCollabOwnerOrMemberMiddleware(
    collabs: map<int, Collab>, members: map<(int, int), bool>, userId: int, collabIdParam: string): (d: Decision)
    ensures Text.Atoi(collabIdParam).None? ==> d == Abort(BAD_REQUEST)
    ensures Text.Atoi(collabIdParam).Some? ==>
      (d == Next <==> IsUserCollabOwnerOrMember(collabs, members, userId, Text.Atoi(collabIdParam).value))
    ensures d == Next || d == Abort(BAD_REQUEST) || d == Abort(UNAUTHORIZED)
  {
    match Text.Atoi(collabIdParam)
    case None => Abort(BAD_REQUEST)
    case Some(id) =>
      if !IsCollabOwner(collabs, userId, id) && !IsCollabMember(members, userId, id) then Abort(UNAUTHORIZED)
      else Next
  }

  /** The gate that keeps archived groups read-only: a missing group and an archived group are both refused. */
  function CollabArchiveStatusMiddleware(collabs: map<int, Collab>, collabIdParam: string): (d: Decision)
    ensures d == Next <==>
      (Text.Atoi(collabIdParam).Some? && Text.Atoi(collabIdParam).value != 0
       && Text.Atoi(collabIdParam).value in collabs && !collabs[Text.Atoi(collabIdParam).value].archived)
    ensures d != Next ==> d == Abort(BAD_REQUEST)
  {
    match Text.Atoi(collabIdParam)
    case None => Abort(BAD_REQUEST)
    case Some(id) =>
      if id == 0 || id !in collabs then Abort(BAD_REQUEST)
      else if collabs[id].archived then Abort(BAD_REQUEST)
      else Next
  }

  /** The decimal rendering of an existing group's id passes the owner-or-member gate exactly for its owner and joined members. */
  lemma OwnerOrMemberGateOnRenderedId(
    collabs: map<int, Collab>, members: map<(int, int), bool>, userId: int, collabId: int)
    ensures IsCollabOwnerOrMemberMiddleware(collabs, members, userId, Text.Itoa(collabId)) == Next
        <==> IsUserCollabOwnerOrMember(collabs, members, userId, collabId)
  {
    Text.AtoiItoa(collabId);
  }

  /** An archived group is refused by the archive gate whatever the rendering of its id. */
  lemma ArchivedGroupRefused(collabs: map<int, Collab>, collabId: int)
    requires collabId in collabs && collabs[collabId].archived
    ensures CollabArchiveStatusMiddleware(collabs, Text.Itoa(collabId)) == Abort(BAD_REQUEST)
  {
    Text.AtoiItoa(collabId);
  }
}
