/**
 * The collaboration-group tables shared by the collaboration handlers:
 * `collab`, `collab_member`, `collabmemberpermission`, `invite` and
 * `invitecollab`, together with the seeded names of the group-level
 * permissions.
 */
module Collabs {

  /** A row of `collab`. */
  datatype Collab = Collab(name: string, archived: bool, color: string, ownerId: int)

  // The seeded group-level permissions (their display names are their keys).
  const CREATE_TASK: string := "Create task"
  const EDIT_TASK: string := "Edit task"
  const DELETE_TASK: string := "Delete task"
  const UPLOAD_FILE: string := "Upload file"
  const EDIT_FILE: string := "Edit file"
  const DELETE_FILE: string := "Delete file"
  const ADD_SCHEDULE_EVENT: string := "Add schedule event"
  const EDIT_SCHEDULE_EVENT: string := "Edit schedule event"
  const DELETE_SCHEDULE_EVENT: string := "Delete schedule event"

  /** Every row of `collab_permission`, in seeding order. */
  const COLLAB_PERMISSIONS: seq<string> := [
    CREATE_TASK, EDIT_TASK, DELETE_TASK,
    UPLOAD_FILE, EDIT_FILE, DELETE_FILE,
    ADD_SCHEDULE_EVENT, EDIT_SCHEDULE_EVENT, DELETE_SCHEDULE_EVENT
  ]

  /**
   * A row of `collabmemberpermission`: the group grants the named permission
   * to all of its non-owner members.
   */
  datatype Grant = Grant(collabId: int, permission: string)

  /** A row of `invite`. Each invite is linked to one group through `invitecollab`. */
  datatype Invite = Invite(token: string, userId: int)

  /** Grants only ever name a seeded permission. */
  predicate GrantsWellFormed(grants: set<Grant>) {
    forall g :: g in grants ==> g.permission in COLLAB_PERMISSIONS
  }

  // ---------------------------------------------------------------- membership views

  /** The users who have joined the group. */
  function JoinedMembers(members: map<(int, int), bool>, collabId: int): set<int> {
    set k | k in members && k.0 == collabId && members[k] :: k.1
  }

  /** The users invited to the group who have not joined yet. */
  function PendingMembers(members: map<(int, int), bool>, collabId: int): set<int> {
    set k | k in members && k.0 == collabId && !members[k] :: k.1
  }

  /** Every membership row of the group is either joined or pending, never both. */
  lemma JoinedPendingPartition(members: map<(int, int), bool>, collabId: int, userId: int)
    ensures userId in JoinedMembers(members, collabId) <==> (collabId, userId) in members && members[(collabId, userId)]
    ensures userId in PendingMembers(members, collabId) <==> (collabId, userId) in members && !members[(collabId, userId)]
    ensures JoinedMembers(members, collabId) !! PendingMembers(members, collabId)
  {
    if userId in JoinedMembers(members, collabId) {
      var k :| k in members && k.0 == collabId && members[k] && k.1 == userId;
      assert k == (collabId, userId);
    }
    if userId in PendingMembers(members, collabId) {
      var k :| k in members && k.0 == collabId && !members[k] && k.1 == userId;
      assert k == (collabId, userId);
    }
    forall u | u in JoinedMembers(members, collabId)
      ensures u !in PendingMembers(members, collabId)
    {
      var k :| k in members && k.0 == collabId && members[k] && k.1 == u;
      assert k == (collabId, u);
    }
  }

  /**
   * The collaboration tables.  `members` maps (group id, user id) to the
   * `joined` flag of that membership row: false for a pending invitee, true
   * for a member who accepted.
   */
  class CollabDb {
    var collabs: map<int, Collab>
    var members: map<(int, int), bool>
    var grants: set<Grant>
    var invites: map<int, Invite>
    var inviteCollab: map<int, int>
    var nextCollabId: int
    var nextInviteId: int

    ghost predicate Valid()
      reads this
    {
      0 < nextCollabId && 0 < nextInviteId
      && (forall id :: id in collabs ==> 0 < id < nextCollabId)
      && (forall id :: id in invites ==> 0 < id < nextInviteId)
      && (forall id :: id in inviteCollab ==> id in invites)
      && GrantsWellFormed(grants)
    }

    constructor ()
      ensures Valid()
      ensures collabs == map[] && members == map[] && grants == {}
      ensures invites == map[] && inviteCollab == map[]
    {
      collabs, members, grants := map[], map[], {};
      invites, inviteCollab := map[], map[];
      nextCollabId, nextInviteId := 1, 1;
    }
  }

  // ---------------------------------------------------------------- row ids

  /** A finite set of ids that holds `x` has a least element. */
  lemma {:induction false} LeastExists(s: set<int>, x: int)
    requires x in s
    ensures exists m :: m in s && forall y :: y in s ==> m <= y
    decreases s
  {
    if exists y :: y in s && y < x {
      var y :| y in s && y < x;
      var smaller := set z | z in s && z < x;
      assert smaller < s by {
        assert x in s && x !in smaller;
      }
      LeastExists(smaller, y);
      var m :| m in smaller && forall z :: z in smaller ==> m <= z;
      assert forall z :: z in s ==> m <= z by {
        forall z | z in s
          ensures m <= z
        {
          if z < x {
            assert z in smaller;
          }
        }
      }
    } else {
      assert forall y :: y in s ==> x <= y;
    }
  }

  /** The least id of a non-empty set: the row `First` returns, as it orders by primary key. */
  ghost function Least(s: set<int>): (m: int)
    requires exists x :: x in s
    ensures m in s && forall x :: x in s ==> m <= x
  {
    var x :| x in s;
    LeastExists(s, x);
    var m :| m in s && forall y :: y in s ==> m <= y; m
  }

  /** The smallest element of a non-empty set of ids. */
  method LeastId(s: set<int>) returns (m: int)
    requires exists x :: x in s
    ensures m == Least(s)
  {
    m :| m in s;
    var rest := s - {m};
    while exists y :: y in rest
      invariant rest <= s && m in s
      invariant forall x :: x in s && x !in rest ==> m <= x
      decreases rest
    {
      var y :| y in rest;
      if y < m {
        m := y;
      }
      rest := rest - {y};
    }
  }
}
