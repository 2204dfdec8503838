/**
 * The collaboration-list page: the groups a user sees and what they may do
 * with each, and the owner's operations on a group (create, edit with member
 * reconciliation, remove a pending invitee, archive, delete, edit the
 * group-level permissions) together with a member's leave.
 */
module CollabList {
  import opened Wrappers
  import opened Collabs
  import Text
  import CollabNotification
  import Invitations
  import PermissionMiddleware
  import InsideCollab
  import CollabFiles

  // ---------------------------------------------------------------- listing

  const VIEW_INFO: string := "View Info"
  const EDIT_COLLAB: string := "Edit Collab"
  const EDIT_PERMISSION: string := "Edit Permission"
  const ARCHIVE_COLLAB: string := "Archive Collab"
  const DELETE_COLLAB: string := "Delete Collab"
  const LEAVE_COLLAB: string := "Leave Collab"

  /**
   * The actions offered on a listed group: only viewing once it is archived;
   * the owner's five actions on an active group; viewing and leaving for
   * anybody else.
   */
  function CollabActions(archived: bool, isOwner: bool): (actions: seq<string>)
    ensures |actions| >= 1 && actions[0] == VIEW_INFO
    ensures archived ==> actions == [VIEW_INFO]
    ensures LEAVE_COLLAB in actions <==> !archived && !isOwner
    ensures EDIT_COLLAB in actions <==> !archived && isOwner
    ensures ARCHIVE_COLLAB in actions <==> !archived && isOwner
    ensures DELETE_COLLAB in actions <==> !archived && isOwner
  {
    if archived then [VIEW_INFO]
    else if isOwner then [VIEW_INFO, EDIT_COLLAB, EDIT_PERMISSION, ARCHIVE_COLLAB, DELETE_COLLAB]
    else [VIEW_INFO, LEAVE_COLLAB]
  }

  /** One entry of the list: the group, its joined members, the caller's actions and the head count. */
  datatype CollabDetails = CollabDetails(
    id: int, name: string, archived: bool, color: string, ownerId: int,
    members: set<int>, actions: seq<string>, totalMembers: int)

  function Details(collabs: map<int, Collab>, members: map<(int, int), bool>, userId: int, id: int): CollabDetails
    requires id in collabs
  {
    var c := collabs[id];
    var joined := JoinedMembers(members, id);
    CollabDetails(id, c.name, c.archived, c.color, c.ownerId, joined,
                  CollabActions(c.archived, userId == c.ownerId), |joined| + 1)
  }

  /** The groups the list shows a user: those they own and those they have joined. */
  predicate Visible(collabs: map<int, Collab>, members: map<(int, int), bool>, userId: int, id: int) {
    id in collabs
    && (collabs[id].ownerId == userId || ((id, userId) in members && members[(id, userId)]))
  }

  /** The result of the list query: each visible group once (in the order the query sorts them). */
  ghost predicate ListedFor(collabs: map<int, Collab>, members: map<(int, int), bool>, userId: int, rows: seq<int>) {
    (forall i :: 0 <= i < |rows| ==> Visible(collabs, members, userId, rows[i]))
    && (forall i, j :: 0 <= i < j < |rows| ==> rows[i] != rows[j])
    && (forall id :: Visible(collabs, members, userId, id) ==> id in rows)
  }

  /** The entries of the active (`archived == false`) or the archived groups among `rows`, in order. */
  function Bucket(collabs: map<int, Collab>, members: map<(int, int), bool>, userId: int, rows: seq<int>, archived: bool)
    : (entries: seq<CollabDetails>)
    requires forall i :: 0 <= i < |rows| ==> rows[i] in collabs
    ensures |entries| <= |rows|
    decreases |rows|
  {
    if rows == [] then []
    else
      var last := rows[|rows| - 1];
      if collabs[last].archived == archived
      then Bucket(collabs, members, userId, rows[..|rows| - 1], archived) + [Details(collabs, members, userId, last)]
      else Bucket(collabs, members, userId, rows[..|rows| - 1], archived)
  }

  /** One more row adds its entry to its own bucket and leaves the other as it was. */
  lemma BucketStep(
    collabs: map<int, Collab>, members: map<(int, int), bool>, userId: int, rows: seq<int>, i: int, archived: bool)
    requires forall j :: 0 <= j < |rows| ==> rows[j] in collabs
    requires 0 <= i < |rows|
    ensures Bucket(collabs, members, userId, rows[..i + 1], archived)
         == if collabs[rows[i]].archived == archived
            then Bucket(collabs, members, userId, rows[..i], archived) + [Details(collabs, members, userId, rows[i])]
            else Bucket(collabs, members, userId, rows[..i], archived)
  {
    assert rows[..i + 1][..i] == rows[..i];
  }

  /** Every listed group lands in exactly one of the two buckets. */
  lemma {:induction false} BucketSizes(
    collabs: map<int, Collab>, members: map<(int, int), bool>, userId: int, rows: seq<int>)
    requires forall i :: 0 <= i < |rows| ==> rows[i] in collabs
    ensures |Bucket(collabs, members, userId, rows, false)| + |Bucket(collabs, members, userId, rows, true)| == |rows|
    decreases |rows|
  {
    if rows != [] {
      BucketSizes(collabs, members, userId, rows[..|rows| - 1]);
    }
  }

  /** Each listed group's entry is in the bucket its archive flag names. */
  lemma {:induction false} BucketHolds(
    collabs: map<int, Collab>, members: map<(int, int), bool>, userId: int, rows: seq<int>, i: int)
    requires forall j :: 0 <= j < |rows| ==> rows[j] in collabs
    requires 0 <= i < |rows|
    ensures Details(collabs, members, userId, rows[i]) in Bucket(collabs, members, userId, rows, collabs[rows[i]].archived)
    decreases |rows|
  {
    var init := rows[..|rows| - 1];
    if i < |init| {
      assert init[i] == rows[i];
      BucketHolds(collabs, members, userId, init, i);
    }
  }

  /** A bucket holds only listed groups with its archive flag, each counting its joined members plus the owner. */
  lemma {:induction false} BucketEntries(
    collabs: map<int, Collab>, members: map<(int, int), bool>, userId: int, rows: seq<int>, archived: bool)
    requires forall i :: 0 <= i < |rows| ==> rows[i] in collabs
    ensures forall d :: d in Bucket(collabs, members, userId, rows, archived) ==>
      d.archived == archived && d.id in rows && d.totalMembers == |d.members| + 1
    decreases |rows|
  {
    if rows != [] {
      var init := rows[..|rows| - 1];
      BucketEntries(collabs, members, userId, init, archived);
      forall d | d in Bucket(collabs, members, userId, rows, archived)
        ensures d.archived == archived && d.id in rows && d.totalMembers == |d.members| + 1
      {
        if d in Bucket(collabs, members, userId, init, archived) {
          assert d.id in init;
          var k :| 0 <= k < |init| && init[k] == d.id;
          assert rows[k] == d.id;
        }
      }
    }
  }

  /**
   * `GetCollabListByUserID`: one pass over the query result, appending each
   * group's entry to the active or the archived list.
   */
  method GetCollabListByUserID(db: CollabDb, userId: int, rows: seq<int>)
    returns (active: seq<CollabDetails>, archived: seq<CollabDetails>)
    requires ListedFor(db.collabs, db.members, userId, rows)
    ensures active == Bucket(db.collabs, db.members, userId, rows, false)
    ensures archived == Bucket(db.collabs, db.members, userId, rows, true)
  {
    active, archived := [], [];
    var i := 0;
    while i < |rows|
      invariant 0 <= i <= |rows|
      invariant active == Bucket(db.collabs, db.members, userId, rows[..i], false)
      invariant archived == Bucket(db.collabs, db.members, userId, rows[..i], true)
    {
      var id := rows[i];
      BucketStep(db.collabs, db.members, userId, rows, i, false);
      BucketStep(db.collabs, db.members, userId, rows, i, true);
      var entry := Details(db.collabs, db.members, userId, id);
      if db.collabs[id].archived {
        archived := archived + [entry];
      } else {
        active := active + [entry];
      }
      i := i + 1;
    }
    assert rows[..|rows|] == rows;
  }

  // ---------------------------------------------------------------- names

  /** Some group already has this name, ignoring case. */
  predicate NameTaken(collabs: map<int, Collab>, name: string) {
    exists id :: id in collabs && Text.SameFold(collabs[id].name, name)
  }

  /** Some group other than `collabId` has this name, ignoring case. */
  predicate NameTakenByOther(collabs: map<int, Collab>, collabId: int, name: string) {
    exists id :: id in collabs && id != collabId && Text.SameFold(collabs[id].name, name)
  }

  /** No two groups share a name, ignoring case. */
  predicate NamesUnique(collabs: map<int, Collab>) {
    forall a, b :: a in collabs && b in collabs && a != b ==> !Text.SameFold(collabs[a].name, collabs[b].name)
  }

  /** Adding a group under a name no group has keeps the names unique. */
  lemma AddKeepsNamesUnique(collabs: map<int, Collab>, id: int, c: Collab)
    requires NamesUnique(collabs) && id !in collabs && !NameTaken(collabs, c.name)
    ensures NamesUnique(collabs[id := c])
  {
    var m := collabs[id := c];
    forall a, b | a in m && b in m && a != b
      ensures !Text.SameFold(m[a].name, m[b].name)
    {
      if a == id {
        assert !Text.SameFold(collabs[b].name, c.name);
      } else if b == id {
        assert !Text.SameFold(collabs[a].name, c.name);
      }
    }
  }

  /** Renaming a group to a name no other group has keeps the names unique. */
  lemma RenameKeepsNamesUnique(collabs: map<int, Collab>, id: int, name: string)
    requires NamesUnique(collabs) && id in collabs && !NameTakenByOther(collabs, id, name)
    ensures NamesUnique(collabs[id := collabs[id].(name := name)])
  {
    var m := collabs[id := collabs[id].(name := name)];
    forall a, b | a in m && b in m && a != b
      ensures !Text.SameFold(m[a].name, m[b].name)
    {
      if a == id {
        assert !Text.SameFold(collabs[b].name, name);
      } else if b == id {
        assert !Text.SameFold(collabs[a].name, name);
      }
    }
  }

  // ---------------------------------------------------------------- the owner in the invite list

  /** The invite list without its first entry naming the owner (a non-number names user 0). */
  function WithoutOwner(memberIds: seq<string>, ownerId: int): seq<string> {
    if memberIds == [] then []
    else if Invitations.MemberId(memberIds[0]) == ownerId then memberIds[1..]
    else [memberIds[0]] + WithoutOwner(memberIds[1..], ownerId)
  }

  /** The first entry naming the owner is the one dropped; any later one stays. */
  lemma {:induction false} WithoutOwnerDropsFirst(memberIds: seq<string>, ownerId: int, i: int)
    requires 0 <= i < |memberIds| && Invitations.MemberId(memberIds[i]) == ownerId
    requires forall j :: 0 <= j < i ==> Invitations.MemberId(memberIds[j]) != ownerId
    ensures WithoutOwner(memberIds, ownerId) == memberIds[..i] + memberIds[i + 1..]
  {
    if i > 0 {
      WithoutOwnerDropsFirst(memberIds[1..], ownerId, i - 1);
      assert memberIds[1..][..i - 1] == memberIds[1..i];
      assert memberIds[1..][i..] == memberIds[i + 1..];
      assert memberIds[..i] == [memberIds[0]] + memberIds[1..i];
    }
  }

  /** A list that does not name the owner is kept as it is. */
  lemma {:induction false} WithoutOwnerKeeps(memberIds: seq<string>, ownerId: int)
    requires forall j :: 0 <= j < |memberIds| ==> Invitations.MemberId(memberIds[j]) != ownerId
    ensures WithoutOwner(memberIds, ownerId) == memberIds
  {
    if memberIds != [] {
      WithoutOwnerKeeps(memberIds[1..], ownerId);
    }
  }

  /** The splice loop of `HandleCreateCollab`: find the owner, cut that one entry out, stop. */
  method RemoveOwner(memberIds: seq<string>, ownerId: int) returns (r: seq<string>)
    ensures r == WithoutOwner(memberIds, ownerId)
  {
    var i := 0;
    while i < |memberIds|
      invariant 0 <= i <= |memberIds|
      invariant forall j :: 0 <= j < i ==> Invitations.MemberId(memberIds[j]) != ownerId
    {
      var id := Text.Atoi(memberIds[i]);
      var n := if id.Some? then id.value else 0;
      if n == ownerId {
        WithoutOwnerDropsFirst(memberIds, ownerId, i);
        return memberIds[..i] + memberIds[i + 1..];
      }
      i := i + 1;
    }
    WithoutOwnerKeeps(memberIds, ownerId);
    r := memberIds;
  }

  // ---------------------------------------------------------------- group-level permissions

  /** A grant of every seeded permission to the group. */
  function DefaultGrants(collabId: int): set<Grant> {
    set p | p in COLLAB_PERMISSIONS :: Grant(collabId, p)
  }

  /** `setDefaultMemberPermission`: one grant row per seeded permission, in seeding order. */
  method SetDefaultMemberPermission(db: CollabDb, collabId: int)
    requires db.Valid()
    modifies db`grants
    ensures db.Valid()
    ensures db.grants == old(db.grants) + DefaultGrants(collabId)
  {
    var i := 0;
    ghost var g0 := db.grants;
    while i < |COLLAB_PERMISSIONS|
      invariant 0 <= i <= |COLLAB_PERMISSIONS|
      invariant db.Valid()
      invariant db.grants == g0 + set p | p in COLLAB_PERMISSIONS[..i] :: Grant(collabId, p)
    {
      assert COLLAB_PERMISSIONS[..i + 1] == COLLAB_PERMISSIONS[..i] + [COLLAB_PERMISSIONS[i]];
      db.grants := db.grants + {Grant(collabId, COLLAB_PERMISSIONS[i])};
      i := i + 1;
    }
    assert COLLAB_PERMISSIONS[..i] == COLLAB_PERMISSIONS;
  }

  /** After the default grants, every non-owner member passes every group-level permission gate. */
  lemma DefaultGrantsAllowEverything(grants: set<Grant>, collabId: int, permission: string)
    requires DefaultGrants(collabId) <= grants && permission in COLLAB_PERMISSIONS
    ensures PermissionMiddleware.CollabMemberHasPermission(grants, collabId, permission)
  {
    assert Grant(collabId, permission) in DefaultGrants(collabId);
  }

  /** `getCollabMemberPermissions`: every seeded permission's name, true iff the group grants it. */
  function PermissionView(grants: set<Grant>, collabId: int): map<string, bool> {
    map p | p in COLLAB_PERMISSIONS :: Grant(collabId, p) in grants
  }

  /** The view answers exactly what the group-level gate decides for a non-owner. */
  lemma PermissionViewMatchesGate(grants: set<Grant>, collabId: int, permission: string)
    ensures permission in PermissionView(grants, collabId) <==> permission in COLLAB_PERMISSIONS
    ensures permission in PermissionView(grants, collabId) ==>
      (PermissionView(grants, collabId)[permission]
       <==> PermissionMiddleware.CollabMemberHasPermission(grants, collabId, permission))
  {
  }

  /**
   * `getCollabMemberPermissions` as its two loops: every name false, then
   * true for each granted permission of the group.
   */
  method GetCollabMemberPermissions(grants: set<Grant>, collabId: int) returns (view: map<string, bool>)
    requires GrantsWellFormed(grants)
    ensures view == PermissionView(grants, collabId)
  {
    view := map[];
    var i := 0;
    while i < |COLLAB_PERMISSIONS|
      invariant 0 <= i <= |COLLAB_PERMISSIONS|
      invariant view == map p | p in COLLAB_PERMISSIONS[..i] :: false
    {
      assert COLLAB_PERMISSIONS[..i + 1] == COLLAB_PERMISSIONS[..i] + [COLLAB_PERMISSIONS[i]];
      view := view[COLLAB_PERMISSIONS[i] := false];
      i := i + 1;
    }
    assert COLLAB_PERMISSIONS[..i] == COLLAB_PERMISSIONS;
    var rows := set g | g in grants && g.collabId == collabId;
    ghost var seen: set<Grant> := {};
    while exists g :: g in rows
      invariant rows + seen == set g | g in grants && g.collabId == collabId
      invariant rows !! seen
      invariant view.Keys == set p | p in COLLAB_PERMISSIONS
      invariant forall p :: p in view ==> (view[p] <==> Grant(collabId, p) in seen)
      decreases rows
    {
      var g :| g in rows;
      view := view[g.permission := true];
      rows, seen := rows - {g}, seen + {g};
    }
  }

  /** The grants after an update request: named permissions as requested, the rest as they were. */
  function UpdatedGrants(grants: set<Grant>, collabId: int, request: map<string, bool>): set<Grant> {
    (set g | g in grants && !(g.collabId == collabId && g.permission in request && !request[g.permission]))
    + (set p | p in request && request[p] :: Grant(collabId, p))
  }

  /**
   * After an update the group grants a named permission iff the request maps
   * it to true; permissions the request does not name, and other groups,
   * keep their grants.
   */
  lemma UpdatedGrantsSpec(grants: set<Grant>, collabId: int, request: map<string, bool>)
    ensures forall p :: p in request ==> (Grant(collabId, p) in UpdatedGrants(grants, collabId, request) <==> request[p])
    ensures forall p :: p !in request ==>
      (Grant(collabId, p) in UpdatedGrants(grants, collabId, request) <==> Grant(collabId, p) in grants)
    ensures forall g: Grant :: g.collabId != collabId ==> (g in UpdatedGrants(grants, collabId, request) <==> g in grants)
  {
  }

  /** Reading the permissions back after an update that names every seeded permission gives the request. */
  lemma ViewAfterFullUpdate(grants: set<Grant>, collabId: int, request: map<string, bool>)
    requires request.Keys == set p | p in COLLAB_PERMISSIONS
    ensures PermissionView(UpdatedGrants(grants, collabId, request), collabId) == request
  {
    UpdatedGrantsSpec(grants, collabId, request);
  }

  /** The request restricted to the names handled so far. */
  function Handled(request: map<string, bool>, names: seq<string>): map<string, bool>
    requires forall i :: 0 <= i < |names| ==> names[i] in request
  {
    map p | p in names :: request[p]
  }

  /**
   * `updateCollabMemberPermissions`.  Go visits the request's names in an
   * unspecified order; `order` is that order.  A name that is not a seeded
   * permission rolls the transaction back.  On success the answer is the
   * request itself and the grants are `UpdatedGrants`.
   */
  method UpdateCollabMemberPermissions(
    db: CollabDb, collabId: int, request: map<string, bool>, order: seq<string>)
    returns (ok: bool, result: map<string, bool>)
    requires db.Valid()
    requires forall i, j :: 0 <= i < j < |order| ==> order[i] != order[j]
    requires forall p :: p in request <==> p in order
    modifies db`grants
    ensures db.Valid()
    ensures ok <==> forall p :: p in request ==> p in COLLAB_PERMISSIONS
    ensures ok ==> result == request && db.grants == UpdatedGrants(old(db.grants), collabId, request)
    ensures !ok ==> db.grants == old(db.grants)
  {
    var grants := db.grants;
    result := map[];
    var i := 0;
    while i < |order|
      invariant 0 <= i <= |order|
      invariant forall j :: 0 <= j < i ==> order[j] in COLLAB_PERMISSIONS
      invariant db.grants == old(db.grants)
      invariant result == Handled(request, order[..i])
      invariant grants == UpdatedGrants(db.grants, collabId, Handled(request, order[..i]))
      invariant GrantsWellFormed(grants)
    {
      var name := order[i];
      if name !in COLLAB_PERMISSIONS {
        assert name in request && name !in COLLAB_PERMISSIONS;
        return false, map[];
      }
      UpdateStep(db.grants, collabId, request, order, i);
      grants, result := SetOneGrant(grants, result, collabId, name, request[name]);
      i := i + 1;
    }
    assert order[..i] == order;
    assert Handled(request, order) == request;
    assert grants == UpdatedGrants(old(db.grants), collabId, request);
    db.grants := grants;
    ok := true;
  }

  /**
   * The body of the update loop for one name: delete an existing grant the
   * request turns off, create a missing one it turns on, and record the
   * requested value.
   */
  method SetOneGrant(grants: set<Grant>, result: map<string, bool>, collabId: int, name: string, has: bool)
    returns (grants': set<Grant>, result': map<string, bool>)
    ensures grants' == if has then grants + {Grant(collabId, name)} else grants - {Grant(collabId, name)}
    ensures result' == result[name := has]
  {
    grants', result' := grants, result;
    var g := Grant(collabId, name);
    if g in grants {
      if !has {
        grants' := grants - {g};
      } else {
        result' := result'[name := true];
      }
    } else if has {
      grants' := grants + {g};
      result' := result'[name := true];
    }
    if !has {
      result' := result'[name := false];
    }
  }

  /** One pass of the update loop: the next name's grant is set or cleared as requested. */
  lemma UpdateStep(grants: set<Grant>, collabId: int, request: map<string, bool>, order: seq<string>, i: int)
    requires 0 <= i < |order|
    requires forall j :: 0 <= j < |order| ==> order[j] in request
    requires forall j :: 0 <= j < i ==> order[j] != order[i]
    ensures Handled(request, order[..i + 1]) == Handled(request, order[..i])[order[i] := request[order[i]]]
    ensures var before := UpdatedGrants(grants, collabId, Handled(request, order[..i]));
      UpdatedGrants(grants, collabId, Handled(request, order[..i + 1]))
      == if request[order[i]] then before + {Grant(collabId, order[i])} else before - {Grant(collabId, order[i])}
  {
    var name := order[i];
    assert order[..i + 1] == order[..i] + [name];
    assert Handled(request, order[..i + 1]) == Handled(request, order[..i])[name := request[name]];
  }

  // ---------------------------------------------------------------- creating a group

  /** `createCollab`: the new row gets the next id, the caller as owner, and is active. */
  method CreateCollab(db: CollabDb, userId: int, name: string, color: string) returns (collabId: int)
    requires db.Valid() && !NameTaken(db.collabs, name)
    modifies db`collabs, db`nextCollabId
    ensures db.Valid()
    ensures collabId == old(db.nextCollabId) && collabId !in old(db.collabs)
    ensures db.nextCollabId == old(db.nextCollabId) + 1
    ensures db.collabs == old(db.collabs)[collabId := Collab(name, false, color, userId)]
    ensures NamesUnique(old(db.collabs)) ==> NamesUnique(db.collabs)
  {
    collabId := db.nextCollabId;
    var row := Collab(name, false, color, userId);
    if NamesUnique(db.collabs) {
      AddKeepsNamesUnique(db.collabs, collabId, row);
    }
    db.collabs := db.collabs[collabId := row];
    db.nextCollabId := db.nextCollabId + 1;
  }

  /** The invitations of a new group, sent only when the list is not empty. */
  method InviteMembers(
    db: CollabDb, collabId: int, invited: seq<string>, ownerName: string, now: int, stamp: string)
    returns (sent: seq<CollabNotification.Notification>)
    requires db.Valid() && collabId in db.collabs
    modifies db`invites, db`inviteCollab, db`members, db`nextInviteId
    ensures db.Valid()
    ensures Invitations.InviteTables(db.invites, db.inviteCollab, db.members, db.nextInviteId)
         == Invitations.AddInvites(
              Invitations.InviteTables(old(db.invites), old(db.inviteCollab), old(db.members), old(db.nextInviteId)),
              collabId, Invitations.MemberIds(invited), now)
    ensures sent == Invitations.InviteNotifications(Invitations.MemberIds(invited), collabId,
                                                    old(db.collabs[collabId].name), ownerName, now, stamp)
  {
    sent := [];
    if |invited| > 0 {
      sent := Invitations.CreateInviteTokenForMembers(db, collabId, invited, ownerName, now, stamp);
    }
  }

  /** What `HandleCreateCollab` does once the name is accepted: the row, the invitations, the default grants. */
  method CreateCollabWithMembers(
    db: CollabDb, userId: int, name: string, color: string, memberIds: seq<string>,
    ownerName: string, now: int, stamp: string)
    returns (collabId: int, sent: seq<CollabNotification.Notification>)
    requires db.Valid() && !NameTaken(db.collabs, name)
    modifies db
    ensures db.Valid()
    ensures collabId == old(db.nextCollabId) && collabId !in old(db.collabs)
    ensures db.nextCollabId == old(db.nextCollabId) + 1
    ensures db.collabs == old(db.collabs)[collabId := Collab(name, false, color, userId)]
    ensures db.grants == old(db.grants) + DefaultGrants(collabId)
    ensures Invitations.InviteTables(db.invites, db.inviteCollab, db.members, db.nextInviteId)
         == Invitations.AddInvites(
              Invitations.InviteTables(old(db.invites), old(db.inviteCollab), old(db.members), old(db.nextInviteId)),
              collabId, Invitations.MemberIds(WithoutOwner(memberIds, userId)), now)
    ensures sent == Invitations.InviteNotifications(Invitations.MemberIds(WithoutOwner(memberIds, userId)), collabId,
                                                    name, ownerName, now, stamp)
    ensures NamesUnique(old(db.collabs)) ==> NamesUnique(db.collabs)
  {
    collabId := CreateCollab(db, userId, name, color);
    var invited := RemoveOwner(memberIds, userId);
    sent := InviteMembers(db, collabId, invited, ownerName, now, stamp);
    SetDefaultMemberPermission(db, collabId);
  }

  /**
   * `HandleCreateCollab`.  The name must be non-empty as sent; it is then
   * trimmed and must differ, ignoring case, from every group's name.  The
   * group is stored with the caller as owner and the generated colour; the
   * invite list loses its first entry naming the owner and the rest are
   * invited; every seeded permission is granted to the new group.
   */
  method HandleCreateCollab(
    db: CollabDb, userId: int, collabName: string, color: string, memberIds: seq<string>,
    ownerName: string, now: int, stamp: string)
    returns (code: int, collabId: int, sent: seq<CollabNotification.Notification>)
    requires db.Valid()
    modifies db
    ensures db.Valid()
    ensures code == OK || code == BAD_REQUEST
    ensures code == BAD_REQUEST <==> collabName == [] || NameTaken(old(db.collabs), Text.TrimSpace(collabName))
    ensures code == BAD_REQUEST ==> unchanged(db) && sent == []
    ensures code == OK ==>
      collabId == old(db.nextCollabId) && collabId !in old(db.collabs)
      && db.nextCollabId == old(db.nextCollabId) + 1
      && db.collabs == old(db.collabs)[collabId := Collab(Text.TrimSpace(collabName), false, color, userId)]
      && db.grants == old(db.grants) + DefaultGrants(collabId)
    ensures code == OK ==>
      Invitations.InviteTables(db.invites, db.inviteCollab, db.members, db.nextInviteId)
      == Invitations.AddInvites(
           Invitations.InviteTables(old(db.invites), old(db.inviteCollab), old(db.members), old(db.nextInviteId)),
           collabId, Invitations.MemberIds(WithoutOwner(memberIds, userId)), now)
    ensures code == OK ==>
      sent == Invitations.InviteNotifications(Invitations.MemberIds(WithoutOwner(memberIds, userId)), collabId,
                                              Text.TrimSpace(collabName), ownerName, now, stamp)
    ensures code == OK && NamesUnique(old(db.collabs)) ==> NamesUnique(db.collabs)
  {
    sent := [];
    collabId := 0;
    if collabName == [] {
      return BAD_REQUEST, collabId, sent;
    }
    var name := Text.TrimSpace(collabName);
    if NameTaken(db.collabs, name) {
      return BAD_REQUEST, collabId, sent;
    }
    collabId, sent := CreateCollabWithMembers(db, userId, name, color, memberIds, ownerName, now, stamp);
    code := OK;
  }

  // ---------------------------------------------------------------- editing a group

  /**
   * The ids `updateCollab` passes on to the invitations: every listed id
   * except the first occurrence of each joined member (the map of current
   * members loses an id when it is first met, so a joined member listed
   * twice is met again as new).
   */
  function NewMemberIds(joined: set<int>, ids: seq<int>): seq<int>
    decreases |ids|
  {
    if ids == [] then []
    else
      var init := ids[..|ids| - 1];
      var last := ids[|ids| - 1];
      NewMemberIds(joined, init) + if last !in joined || last in init then [last] else []
  }

  /** Every listed id that has not joined is invited; nothing unlisted is. */
  lemma {:induction false} NewMemberIdsSpec(joined: set<int>, ids: seq<int>)
    ensures forall u :: u in ids && u !in joined ==> u in NewMemberIds(joined, ids)
    ensures forall u :: u in NewMemberIds(joined, ids) ==> u in ids
    decreases |ids|
  {
    if ids != [] {
      var init := ids[..|ids| - 1];
      NewMemberIdsSpec(joined, init);
      assert ids == init + [ids[|ids| - 1]];
    }
  }

  /** `updateCollab` adds a pending row for each listed id that has no membership row. */
  function WithPending(members: map<(int, int), bool>, collabId: int, ids: seq<int>): map<(int, int), bool>
    decreases |ids|
  {
    if ids == [] then members
    else
      var m := WithPending(members, collabId, ids[..|ids| - 1]);
      var u := ids[|ids| - 1];
      if (collabId, u) in m then m else m[(collabId, u) := false]
  }

  /** Pending rows are only ever added, for listed ids that had no row; existing rows are kept. */
  lemma {:induction false} WithPendingSpec(members: map<(int, int), bool>, collabId: int, ids: seq<int>)
    ensures forall k :: k in members ==> k in WithPending(members, collabId, ids) && WithPending(members, collabId, ids)[k] == members[k]
    ensures forall u :: u in ids ==> (collabId, u) in WithPending(members, collabId, ids)
    ensures forall k :: k in WithPending(members, collabId, ids) && k !in members ==>
      k.0 == collabId && k.1 in ids && !WithPending(members, collabId, ids)[k]
    decreases |ids|
  {
    if ids != [] {
      var init := ids[..|ids| - 1];
      WithPendingSpec(members, collabId, init);
      assert ids == init + [ids[|ids| - 1]];
    }
  }

  /** The membership rows left once the rows of the group for `gone` are deleted. */
  function Without(members: map<(int, int), bool>, collabId: int, gone: set<int>): map<(int, int), bool> {
    map k | k in members && !(k.0 == collabId && k.1 in gone) :: members[k]
  }

  /** The group's membership after `updateCollab` commits. */
  function Reconciled(members: map<(int, int), bool>, collabId: int, ids: seq<int>): map<(int, int), bool> {
    Without(WithPending(members, collabId, ids), collabId, JoinedMembers(members, collabId) - set u | u in ids)
  }

  /**
   * Reconciliation: joined members absent from the list are deleted, listed
   * ids without a row get a pending row, every other row of the group (a
   * listed joined member, a pending invitee) is untouched, and other groups
   * are not affected.
   */
  lemma ReconciledSpec(members: map<(int, int), bool>, collabId: int, ids: seq<int>, u: int)
    ensures (collabId, u) in members && members[(collabId, u)] && u !in ids
      ==> (collabId, u) !in Reconciled(members, collabId, ids)
    ensures u in ids && (collabId, u) !in members
      ==> (collabId, u) in Reconciled(members, collabId, ids) && !Reconciled(members, collabId, ids)[(collabId, u)]
    ensures (collabId, u) in members && (members[(collabId, u)] ==> u in ids)
      ==> (collabId, u) in Reconciled(members, collabId, ids)
          && Reconciled(members, collabId, ids)[(collabId, u)] == members[(collabId, u)]
    ensures (collabId, u) in Reconciled(members, collabId, ids) ==> (collabId, u) in members || u in ids
  {
    WithPendingSpec(members, collabId, ids);
    JoinedPendingPartition(members, collabId, u);
  }

  /** Other groups' membership rows are the same after reconciliation. */
  lemma ReconciledOtherGroups(members: map<(int, int), bool>, collabId: int, ids: seq<int>, k: (int, int))
    requires k.0 != collabId
    ensures k in Reconciled(members, collabId, ids) <==> k in members
    ensures k in members ==> Reconciled(members, collabId, ids)[k] == members[k]
  {
    WithPendingSpec(members, collabId, ids);
  }

  /** After reconciliation every listed id has a row, and every joined member is listed. */
  lemma ReconciledMembership(members: map<(int, int), bool>, collabId: int, ids: seq<int>)
    ensures forall u :: u in ids ==> (collabId, u) in Reconciled(members, collabId, ids)
    ensures JoinedMembers(Reconciled(members, collabId, ids), collabId) == JoinedMembers(members, collabId) * set u | u in ids
  {
    var r := Reconciled(members, collabId, ids);
    WithPendingSpec(members, collabId, ids);
    forall u
      ensures u in JoinedMembers(r, collabId) <==> u in JoinedMembers(members, collabId) && u in ids
    {
      JoinedPendingPartition(r, collabId, u);
      JoinedPendingPartition(members, collabId, u);
    }
  }

  /**
   * The first loop of `updateCollab`: for each listed id that is not (or no
   * longer) in the map of current members, note it as new and add a pending
   * row if it has none; then drop it from the map.
   */
  method ListedMembers(members: map<(int, int), bool>, collabId: int, ids: seq<int>, joined: set<int>)
    returns (members': map<(int, int), bool>, newIds: seq<int>, remaining: set<int>)
    requires joined == JoinedMembers(members, collabId)
    ensures members' == WithPending(members, collabId, ids)
    ensures newIds == NewMemberIds(joined, ids)
    ensures remaining == joined - set u | u in ids
  {
    members', newIds, remaining := members, [], joined;
    var i := 0;
    while i < |ids|
      invariant 0 <= i <= |ids|
      invariant members' == WithPending(members, collabId, ids[..i])
      invariant newIds == NewMemberIds(joined, ids[..i])
      invariant remaining == joined - set u | u in ids[..i]
    {
      var id := ids[i];
      ghost var init := ids[..i];
      assert ids[..i + 1] == init + [id];
      assert ids[..i + 1][..i] == init;
      assert (id !in remaining) <==> (id !in joined || id in init);
      if id !in remaining {
        newIds := newIds + [id];
        if (collabId, id) !in members' {
          members' := members'[(collabId, id) := false];
        }
      } else {
        JoinedPendingPartition(members, collabId, id);
        WithPendingSpec(members, collabId, init);
      }
      remaining := remaining - {id};
      i := i + 1;
    }
    assert ids[..i] == ids;
  }

  /** Deleting one more user's row of the group. */
  lemma WithoutStep(members: map<(int, int), bool>, collabId: int, gone: set<int>, u: int)
    ensures Without(members, collabId, gone + {u}) == Without(members, collabId, gone) - {(collabId, u)}
  {
  }

  /** The deletion loop of `updateCollab`, over the members left in the map (in any order). */
  method DeleteMembers(members: map<(int, int), bool>, collabId: int, gone: set<int>)
    returns (members': map<(int, int), bool>)
    ensures members' == Without(members, collabId, gone)
  {
    members' := members;
    var remaining := gone;
    assert members == Without(members, collabId, {});
    while exists u :: u in remaining
      invariant remaining <= gone
      invariant members' == Without(members, collabId, gone - remaining)
      decreases remaining
    {
      var u :| u in remaining;
      WithoutStep(members, collabId, gone - remaining, u);
      assert gone - (remaining - {u}) == (gone - remaining) + {u};
      members' := members' - {(collabId, u)};
      remaining := remaining - {u};
    }
    assert gone - remaining == gone;
  }

  /**
   * `updateCollab`: in one transaction, rename the group, add pending rows
   * for new ids, refresh the invitations of the new ids, and delete the
   * joined members no longer listed.  With the group present, none of these
   * steps can fail (database failures are not modelled), so the transaction
   * always commits; every new id is invited and notified, whether or not it
   * names a user.
   */
  method UpdateCollab(
    db: CollabDb, collabId: int, name: string, ids: seq<int>, ownerName: string, now: int, stamp: string)
    returns (sent: seq<CollabNotification.Notification>)
    requires db.Valid() && collabId in db.collabs
    modifies db
    ensures db.Valid()
    ensures sent == Invitations.InviteNotifications(NewMemberIds(JoinedMembers(old(db.members), collabId), ids),
                                                    collabId, name, ownerName, now, stamp)
    ensures db.collabs == old(db.collabs)[collabId := old(db.collabs[collabId]).(name := name)]
      && db.members == Reconciled(old(db.members), collabId, ids)
      && db.grants == old(db.grants) && db.nextCollabId == old(db.nextCollabId)
    ensures
      var t := Invitations.RefreshAll(
        Invitations.InviteTables(old(db.invites), old(db.inviteCollab), WithPending(old(db.members), collabId, ids),
                                 old(db.nextInviteId)),
        collabId, NewMemberIds(JoinedMembers(old(db.members), collabId), ids), now);
      db.invites == t.invites && db.inviteCollab == t.links && db.nextInviteId == t.next
  {
    db.collabs := db.collabs[collabId := db.collabs[collabId].(name := name)];
    var current := JoinedMembers(db.members, collabId);
    var members, newIds, remaining := ListedMembers(db.members, collabId, ids, current);
    db.members := members;
    var invited;
    invited, sent := Invitations.CreateOrUpdateInvitesForMembers(db, collabId, newIds, ownerName, now, stamp);
    members := DeleteMembers(db.members, collabId, remaining);
    db.members := members;
  }

  /**
   * `HandleUpdateCollab`: the group id must parse, the name must be
   * non-empty as sent (it is then trimmed), the group must exist and be
   * active, no other group may have the name ignoring case, and every member
   * id must parse; then `updateCollab` runs and the answer is 200.
   */
  method HandleUpdateCollab(
    db: CollabDb, collabIdParam: string, collabName: string, memberIds: seq<string>,
    ownerName: string, now: int, stamp: string)
    returns (code: int, sent: seq<CollabNotification.Notification>)
    requires db.Valid()
    modifies db
    ensures db.Valid()
    ensures code == OK || code == BAD_REQUEST
    ensures code == BAD_REQUEST <==>
      Text.Atoi(collabIdParam).None? || collabName == []
      || Text.Atoi(collabIdParam).value !in old(db.collabs) || old(db.collabs)[Text.Atoi(collabIdParam).value].archived
      || NameTakenByOther(old(db.collabs), Text.Atoi(collabIdParam).value, Text.TrimSpace(collabName))
      || Text.ParseIds(memberIds).None?
    ensures code == BAD_REQUEST ==> sent == [] && unchanged(db)
    ensures code == OK ==>
      var id := Text.Atoi(collabIdParam).value;
      var ids := Text.ParseIds(memberIds).value;
      db.collabs == old(db.collabs)[id := old(db.collabs[id]).(name := Text.TrimSpace(collabName))]
      && db.members == Reconciled(old(db.members), id, ids)
      && db.grants == old(db.grants) && db.nextCollabId == old(db.nextCollabId)
      && sent == Invitations.InviteNotifications(NewMemberIds(JoinedMembers(old(db.members), id), ids),
                                                 id, Text.TrimSpace(collabName), ownerName, now, stamp)
    ensures code == OK ==>
      var id := Text.Atoi(collabIdParam).value;
      var ids := Text.ParseIds(memberIds).value;
      var t := Invitations.RefreshAll(
        Invitations.InviteTables(old(db.invites), old(db.inviteCollab), WithPending(old(db.members), id, ids),
                                 old(db.nextInviteId)),
        id, NewMemberIds(JoinedMembers(old(db.members), id), ids), now);
      db.invites == t.invites && db.inviteCollab == t.links && db.nextInviteId == t.next
    ensures code == OK && NamesUnique(old(db.collabs)) ==> NamesUnique(db.collabs)
  {
    sent := [];
    var parsed := Text.Atoi(collabIdParam);
    if parsed.None? || collabName == [] {
      return BAD_REQUEST, sent;
    }
    var id := parsed.value;
    var name := Text.TrimSpace(collabName);
    if id !in db.collabs || db.collabs[id].archived {
      return BAD_REQUEST, sent;
    }
    if NameTakenByOther(db.collabs, id, name) {
      return BAD_REQUEST, sent;
    }
    var ids := Text.ParseIdList(memberIds);
    if ids.None? {
      return BAD_REQUEST, sent;
    }
    if NamesUnique(db.collabs) {
      RenameKeepsNamesUnique(db.collabs, id, name);
    }
    sent := UpdateCollab(db, id, name, ids.value, ownerName, now, stamp);
    code := OK;
  }

  // ---------------------------------------------------------------- pending invitees, archive, leave

  /**
   * `HandleRemovePendingMember`: the group must exist and be active, the
   * caller must own it, and the user must be a pending invitee of it; only
   * that membership row is deleted (the invite itself stays).
   */
  method HandleRemovePendingMember(db: CollabDb, userId: int, collabIdParam: string, pendingParam: string)
    returns (code: int)
    requires db.Valid()
    modifies db`members
    ensures db.Valid()
    ensures code == OK || code == BAD_REQUEST
    ensures code == OK <==>
      Text.Atoi(collabIdParam).Some? && Text.Atoi(pendingParam).Some?
      && var (c, u) := (Text.Atoi(collabIdParam).value, Text.Atoi(pendingParam).value);
      c in old(db.collabs) && !old(db.collabs)[c].archived && old(db.collabs)[c].ownerId == userId
      && u in PendingMembers(old(db.members), c)
    ensures code == OK ==>
      db.members == old(db.members) - {(Text.Atoi(collabIdParam).value, Text.Atoi(pendingParam).value)}
    ensures code != OK ==> db.members == old(db.members)
  {
    var parsed := Text.Atoi(collabIdParam);
    if parsed.None? {
      return BAD_REQUEST;
    }
    var c := parsed.value;
    if c !in db.collabs || db.collabs[c].archived || db.collabs[c].ownerId != userId {
      return BAD_REQUEST;
    }
    var pending := Text.Atoi(pendingParam);
    if pending.None? {
      return BAD_REQUEST;
    }
    var u := pending.value;
    JoinedPendingPartition(db.members, c, u);
    if (c, u) !in db.members || db.members[(c, u)] {
      return BAD_REQUEST;
    }
    db.members := db.members - {(c, u)};
    code := OK;
  }

  /** `HandleArchiveCollab`: an existing active group becomes archived; nothing else changes. */
  method HandleArchiveCollab(db: CollabDb, collabIdParam: string) returns (code: int)
    requires db.Valid()
    modifies db`collabs
    ensures db.Valid()
    ensures code == OK || code == BAD_REQUEST
    ensures code == OK <==>
      Text.Atoi(collabIdParam).Some? && Text.Atoi(collabIdParam).value in old(db.collabs)
      && !old(db.collabs)[Text.Atoi(collabIdParam).value].archived
    ensures code == OK ==>
      var c := Text.Atoi(collabIdParam).value;
      db.collabs == old(db.collabs)[c := old(db.collabs)[c].(archived := true)]
    ensures code != OK ==> db.collabs == old(db.collabs)
  {
    var parsed := Text.Atoi(collabIdParam);
    if parsed.None? {
      return BAD_REQUEST;
    }
    var c := parsed.value;
    if c !in db.collabs || db.collabs[c].archived {
      return BAD_REQUEST;
    }
    db.collabs := db.collabs[c := db.collabs[c].(archived := true)];
    code := OK;
  }

  /**
   * `HandleDeleteCollab` and `deleteCollab`: an existing active group is
   * deleted with its grants, its membership rows, its tasks (with their
   * subtasks, comments and assignees) and its files.  Invitations are not
   * touched.
   */
  method HandleDeleteCollab(
    db: CollabDb, tdb: InsideCollab.TaskDb, fdb: CollabFiles.FileDb, collabIdParam: string) returns (code: int)
    requires db.Valid() && tdb.Valid() && fdb.Valid()
    modifies db`collabs, db`members, db`grants
    modifies tdb`tasks, tdb`statusOf, tdb`subtasks, tdb`comments, tdb`taskComments, tdb`subtaskComments, tdb`assignees
    modifies fdb`files, fdb`links
    ensures db.Valid() && tdb.Valid() && fdb.Valid()
    ensures code == OK || code == BAD_REQUEST
    ensures code == OK <==> Text.Atoi(collabIdParam).Some? && CanArchive(old(db.collabs), Text.Atoi(collabIdParam).value)
    ensures code == OK ==>
      var c := Text.Atoi(collabIdParam).value;
      db.collabs == old(db.collabs) - {c}
      && db.members == (map k | k in old(db.members) && k.0 != c :: old(db.members)[k])
      && db.grants == (set g | g in old(db.grants) && g.collabId != c)
      && tdb.Tables() == InsideCollab.WithoutTasks(old(tdb.Tables()), InsideCollab.TasksOf(old(tdb.tasks), c))
      && fdb.Tables() == CollabFiles.WithoutFiles(old(fdb.Tables()), CollabFiles.FilesOf(old(fdb.files), c))
    ensures code != OK ==>
      db.collabs == old(db.collabs) && db.members == old(db.members) && db.grants == old(db.grants)
      && tdb.Tables() == old(tdb.Tables()) && fdb.Tables() == old(fdb.Tables())
  {
    var parsed := Text.Atoi(collabIdParam);
    if parsed.None? {
      return BAD_REQUEST;
    }
    var c := parsed.value;
    if c !in db.collabs || db.collabs[c].archived {
      return BAD_REQUEST;
    }
    DropCollabRows(db, c);
    InsideCollab.WithoutTasksShrinks(tdb.Tables(), InsideCollab.TasksOf(tdb.tasks, c));
    tdb.DeleteAllTasksOfCollab(c);
    fdb.DeleteAllCollabFiles(c);
    code := OK;
  }

  /** The group's own rows in `deleteCollab`: its grants, its membership rows and the group itself. */
  method DropCollabRows(db: CollabDb, c: int)
    requires db.Valid()
    modifies db`collabs, db`members, db`grants
    ensures db.Valid()
    ensures db.collabs == old(db.collabs) - {c}
    ensures db.members == (map k | k in old(db.members) && k.0 != c :: old(db.members)[k])
    ensures db.grants == (set g | g in old(db.grants) && g.collabId != c)
  {
    db.grants := set g | g in db.grants && g.collabId != c;
    db.members := map k | k in db.members && k.0 != c :: db.members[k];
    db.collabs := db.collabs - {c};
  }

  /** After a group is deleted nothing is left of it: no member, no pending invitee, no task, no file. */
  lemma DeletedCollabLeavesNothing(
    members: map<(int, int), bool>, t: InsideCollab.TaskTables, files: CollabFiles.FileTables, c: int)
    ensures var members' := map k | k in members && k.0 != c :: members[k];
      JoinedMembers(members', c) == {} && PendingMembers(members', c) == {}
    ensures InsideCollab.TasksOf(InsideCollab.WithoutTasks(t, InsideCollab.TasksOf(t.tasks, c)).tasks, c) == {}
    ensures CollabFiles.FilesOf(CollabFiles.WithoutFiles(files, CollabFiles.FilesOf(files.files, c)).files, c) == {}
  {
    var members' := map k | k in members && k.0 != c :: members[k];
    forall u | true
      ensures u !in JoinedMembers(members', c) && u !in PendingMembers(members', c)
    {
      JoinedPendingPartition(members', c, u);
    }
  }

  /** The archive guard as a function of the group table: an existing, active group. */
  predicate CanArchive(collabs: map<int, Collab>, collabId: int) {
    collabId in collabs && !collabs[collabId].archived
  }

  /** Archiving is one-way: once archived, a second archive is refused. */
  lemma ArchiveOnce(collabs: map<int, Collab>, collabId: int)
    requires CanArchive(collabs, collabId)
    ensures !CanArchive(collabs[collabId := collabs[collabId].(archived := true)], collabId)
  {
  }

  /** Why `HandleLeaveCollab` refuses, in the order it checks. */
  datatype LeaveCheck = LeaveOk | BadId | NoCollab | Archived | IsOwner | NotMember | NotJoined

  /** The checks of `HandleLeaveCollab`, in order. */
  function LeaveGuard(collabs: map<int, Collab>, members: map<(int, int), bool>, userId: int, collabIdParam: string)
    : (r: LeaveCheck)
    ensures r == LeaveOk <==>
      Text.Atoi(collabIdParam).Some?
      && var c := Text.Atoi(collabIdParam).value;
      c in collabs && !collabs[c].archived && collabs[c].ownerId != userId
      && userId in JoinedMembers(members, c)
  {
    match Text.Atoi(collabIdParam)
    case None => BadId
    case Some(c) =>
      JoinedPendingPartition(members, c, userId);
      if c !in collabs then NoCollab
      else if collabs[c].archived then Archived
      else if collabs[c].ownerId == userId then IsOwner
      else if (c, userId) !in members then NotMember
      else if !members[(c, userId)] then NotJoined
      else LeaveOk
  }

  /** The owner can never leave, and a pending invitee cannot leave before joining. */
  lemma OnlyJoinedNonOwnersLeave(collabs: map<int, Collab>, members: map<(int, int), bool>, userId: int, collabId: int)
    requires collabId in collabs && !collabs[collabId].archived
    ensures collabs[collabId].ownerId == userId ==> LeaveGuard(collabs, members, userId, Text.Itoa(collabId)) == IsOwner
    ensures collabs[collabId].ownerId != userId && userId in PendingMembers(members, collabId)
      ==> LeaveGuard(collabs, members, userId, Text.Itoa(collabId)) == NotJoined
  {
    Text.AtoiItoa(collabId);
    JoinedPendingPartition(members, collabId, userId);
  }

  /** `HandleLeaveCollab`: the caller's own membership row is deleted once every check passes. */
  method HandleLeaveCollab(db: CollabDb, userId: int, collabIdParam: string) returns (code: int)
    requires db.Valid()
    modifies db`members
    ensures db.Valid()
    ensures code == OK || code == BAD_REQUEST
    ensures code == OK <==> LeaveGuard(old(db.collabs), old(db.members), userId, collabIdParam) == LeaveOk
    ensures code == OK ==> db.members == old(db.members) - {(Text.Atoi(collabIdParam).value, userId)}
    ensures code != OK ==> db.members == old(db.members)
  {
    if LeaveGuard(db.collabs, db.members, userId, collabIdParam) != LeaveOk {
      return BAD_REQUEST;
    }
    var c := Text.Atoi(collabIdParam).value;
    db.members := db.members - {(c, userId)};
    code := OK;
  }

  // ---------------------------------------------------------------- permission pages

  /**
   * The checks shared by the two permission handlers: the group exists, is
   * active, and the caller owns it.  Each refusal answers 400.
   */
  predicate OwnsActiveCollab(collabs: map<int, Collab>, userId: int, collabId: int) {
    collabId in collabs && !collabs[collabId].archived && collabs[collabId].ownerId == userId
  }

  /** `HandleGetPermissionForCollabMembers`: the permission view of the caller's active group. */
  method HandleGetPermissionForCollabMembers(db: CollabDb, userId: int, collabIdParam: string)
    returns (code: int, view: map<string, bool>)
    requires db.Valid()
    ensures code == OK || code == BAD_REQUEST
    ensures code == OK <==>
      Text.Atoi(collabIdParam).Some? && OwnsActiveCollab(db.collabs, userId, Text.Atoi(collabIdParam).value)
    ensures code == OK ==> view == PermissionView(db.grants, Text.Atoi(collabIdParam).value)
  {
    view := map[];
    var parsed := Text.Atoi(collabIdParam);
    if parsed.None? || !OwnsActiveCollab(db.collabs, userId, parsed.value) {
      return BAD_REQUEST, view;
    }
    view := GetCollabMemberPermissions(db.grants, parsed.value);
    code := OK;
  }

  /**
   * `HandleUpdatePermissionForCollabMembers`: after the ownership checks the
   * update runs; an unknown permission name answers 500 and changes nothing.
   */
  method HandleUpdatePermissionForCollabMembers(
    db: CollabDb, userId: int, collabId: int, request: map<string, bool>, order: seq<string>)
    returns (code: int, result: map<string, bool>)
    requires db.Valid()
    requires forall i, j :: 0 <= i < j < |order| ==> order[i] != order[j]
    requires forall p :: p in request <==> p in order
    modifies db`grants
    ensures db.Valid()
    ensures code == OK || code == BAD_REQUEST || code == INTERNAL_ERROR
    ensures code == BAD_REQUEST <==> !OwnsActiveCollab(old(db.collabs), userId, collabId)
    ensures code == INTERNAL_ERROR <==>
      OwnsActiveCollab(old(db.collabs), userId, collabId) && exists p :: p in request && p !in COLLAB_PERMISSIONS
    ensures code == OK ==> result == request && db.grants == UpdatedGrants(old(db.grants), collabId, request)
    ensures code != OK ==> db.grants == old(db.grants)
  {
    result := map[];
    if !OwnsActiveCollab(db.collabs, userId, collabId) {
      return BAD_REQUEST, result;
    }
    var ok;
    ok, result := UpdateCollabMemberPermissions(db, collabId, request, order);
    code := if ok then OK else INTERNAL_ERROR;
  }

  // ---------------------------------------------------------------- the edit form

  /** What the edit form shows: the group, its joined members and its pending invitees. */
  datatype IndividualCollabDetails = IndividualCollabDetails(
    id: int, name: string, archived: bool, ownerId: int, members: set<int>, pendingInvites: set<int>)

  /**
   * `HandleGetUpdateFormCollab`: an unparsable id, a missing or archived
   * group answer 400; a caller who does not own the group 401.
   */
  function GetUpdateFormCollab(db: CollabDb, userId: int, collabIdParam: string)
    : (r: (int, Option<IndividualCollabDetails>))
    reads db
    ensures r.0 == OK || r.0 == BAD_REQUEST || r.0 == UNAUTHORIZED
    ensures r.0 == OK <==> r.1.Some?
    ensures r.0 == BAD_REQUEST <==>
      Text.Atoi(collabIdParam).None? || !CanArchive(db.collabs, Text.Atoi(collabIdParam).value)
    ensures r.0 == OK ==>
      var c := Text.Atoi(collabIdParam).value;
      OwnsActiveCollab(db.collabs, userId, c) && r.1.value.id == c
      && (forall u :: u in r.1.value.members <==> (c, u) in db.members && db.members[(c, u)])
      && (forall u :: u in r.1.value.pendingInvites <==> (c, u) in db.members && !db.members[(c, u)])
  {
    match Text.Atoi(collabIdParam)
    case None => (BAD_REQUEST, None)
    case Some(c) =>
      if c !in db.collabs || db.collabs[c].archived then (BAD_REQUEST, None)
      else if db.collabs[c].ownerId != userId then (UNAUTHORIZED, None)
      else
        var row := db.collabs[c];
        assert forall u :: u in JoinedMembers(db.members, c) <==> (c, u) in db.members && db.members[(c, u)] by {
          forall u ensures u in JoinedMembers(db.members, c) <==> (c, u) in db.members && db.members[(c, u)] {
            JoinedPendingPartition(db.members, c, u);
          }
        }
        assert forall u :: u in PendingMembers(db.members, c) <==> (c, u) in db.members && !db.members[(c, u)] by {
          forall u ensures u in PendingMembers(db.members, c) <==> (c, u) in db.members && !db.members[(c, u)] {
            JoinedPendingPartition(db.members, c, u);
          }
        }
        (OK, Some(IndividualCollabDetails(c, row.name, row.archived, row.ownerId,
                                          JoinedMembers(db.members, c), PendingMembers(db.members, c))))
  }
}
