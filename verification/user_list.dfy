/**
 * The administration panel's list of front-panel users: changing a user's
 * front role and account status, and listing users with their front role.
 */
module UserList {
  import opened Wrappers
  import Text
  import Roles
  import Accounts

  /**
   * `GetFrontUserRoleData(...).RoleID`: the first front role of the user, or
   * 0 when there is none or a role row is missing from the role table.
   */
  function FrontRoleData(roleNames: map<int, string>, ids: Roles.RoleIds, rows: seq<Roles.UserRole>, userId: int): (r: int)
    ensures r == 0 || (Roles.HasRole(rows, userId, r) && !Roles.IsAdminRoleId(ids, r))
  {
    var roles := Roles.RolesOf(rows, userId);
    if Roles.RoleNamesOf(roleNames, roles).Some? then Roles.FirstFrontRole(ids, roles) else 0
  }

  /** What `HandleUpdateFrontUserInfo` answered. */
  datatype UpdateOutcome = Invalid | Refused(outcome: Roles.ChangeOutcome) | NoChanges | Updated

  /**
   * `HandleUpdateFrontUserInfo`: the user id, role id and status must parse
   * and the user exist (400).  The role is changed when it differs from the
   * user's front role; a refused change answers 400 before the status is
   * touched.  A changed status is written.  Each write clears the user's API
   * tokens.  When neither differs nothing is written.
   */
  method HandleUpdateFrontUserInfo(adb: Accounts.AccountDb, rdb: Roles.RoleDb, ids: Roles.RoleIds,
                                   roleNames: map<int, string>, heads: set<int>,
                                   userIdParam: string, roleIdParam: string, statusParam: string, now: int)
    returns (code: int, outcome: UpdateOutcome)
    modifies adb`users, adb`tokens, rdb`rows
    ensures code == OK || code == BAD_REQUEST
    ensures outcome == Invalid <==>
      Text.Atoi(userIdParam).None? || Text.Atoi(roleIdParam).None? || Text.ParseBool(statusParam).None?
      || Text.Atoi(userIdParam).value !in old(adb.users)
    ensures code == BAD_REQUEST <==> outcome.Invalid? || outcome.Refused?
    ensures outcome == Invalid ==>
      adb.users == old(adb.users) && adb.tokens == old(adb.tokens) && rdb.rows == old(rdb.rows)
    ensures outcome != Invalid ==>
      var u := Text.Atoi(userIdParam).value;
      var roleId := Text.Atoi(roleIdParam).value;
      var status := Text.ParseBool(statusParam).value;
      var roleChanged := FrontRoleData(roleNames, ids, old(rdb.rows), u) != roleId;
      var statusChanged := old(adb.users)[u].status != status;
      (outcome == NoChanges <==> !roleChanged && !statusChanged)
      && (outcome.Refused? ==> roleChanged && rdb.rows == old(rdb.rows) && adb.users == old(adb.users)
                               && adb.tokens == old(adb.tokens))
      && (outcome == Updated ==>
            var current := Roles.FirstFrontRole(ids, Roles.RolesOf(old(rdb.rows), u));
            (roleChanged ==>
               rdb.rows == Roles.Without(old(rdb.rows), Roles.UserRole(u, current)) + [Roles.UserRole(u, roleId)]
               && Roles.HasRole(rdb.rows, u, roleId))
            && (!roleChanged ==> rdb.rows == old(rdb.rows))
            && (forall other :: other != u ==> Roles.RolesOf(rdb.rows, other) == Roles.RolesOf(old(rdb.rows), other))
            && adb.users == old(adb.users)[u := old(adb.users)[u].(status := status)]
            && adb.tokens == Accounts.Cleared(old(adb.tokens), u, now))
      && (outcome == NoChanges ==>
            adb.users == old(adb.users) && adb.tokens == old(adb.tokens) && rdb.rows == old(rdb.rows))
  {
    var userId := Text.Atoi(userIdParam);
    var roleId := Text.Atoi(roleIdParam);
    var status := Text.ParseBool(statusParam);
    if userId.None? || roleId.None? || status.None? || userId.value !in adb.users {
      return BAD_REQUEST, Invalid;
    }
    var u := userId.value;
    var roleChanged := FrontRoleData(roleNames, ids, rdb.rows, u) != roleId.value;
    var statusChanged := adb.users[u].status != status.value;
    if roleChanged {
      var changed := rdb.ChangeFrontUserRole(ids, heads, u, roleId.value);
      if changed != Roles.Changed {
        return BAD_REQUEST, Refused(changed);
      }
      adb.ClearApiTokenOfUser(u, now);
    }
    if statusChanged {
      adb.users := adb.users[u := adb.users[u].(status := status.value)];
      adb.ClearApiTokenOfUser(u, now);
    }
    if !roleChanged && !statusChanged {
      return OK, NoChanges;
    }
    assert adb.users == old(adb.users)[u := old(adb.users)[u].(status := status.value)];
    Accounts.ClearedTwice(old(adb.tokens), u, now);
    var current := Roles.FirstFrontRole(ids, Roles.RolesOf(old(rdb.rows), u));
    forall other | other != u
      ensures Roles.RolesOf(rdb.rows, other) == Roles.RolesOf(old(rdb.rows), other)
    {
      if roleChanged {
        Roles.WithoutKeepsOthers(old(rdb.rows), Roles.UserRole(u, current), other);
        Roles.AppendKeepsOthers(Roles.Without(old(rdb.rows), Roles.UserRole(u, current)), Roles.UserRole(u, roleId.value), other);
      }
    }
    code, outcome := OK, Updated;
  }

  /**
   * `HandleChangeFrontUserRole`: both ids must parse (400); the change is
   * attempted and the user's API tokens cleared whatever its outcome.
   */
  method HandleChangeFrontUserRole(adb: Accounts.AccountDb, rdb: Roles.RoleDb, ids: Roles.RoleIds, heads: set<int>,
                                   userIdParam: string, roleIdParam: string, now: int)
    returns (code: int, outcome: Option<Roles.ChangeOutcome>)
    modifies adb`tokens, rdb`rows
    ensures code == BAD_REQUEST <==> outcome.None?
    ensures outcome.None? <==> Text.Atoi(userIdParam).None? || Text.Atoi(roleIdParam).None?
    ensures outcome.None? ==> rdb.rows == old(rdb.rows) && adb.tokens == old(adb.tokens)
    ensures outcome.Some? ==>
      var u := Text.Atoi(userIdParam).value;
      var roleId := Text.Atoi(roleIdParam).value;
      var current := Roles.FirstFrontRole(ids, Roles.RolesOf(old(rdb.rows), u));
      code == OK
      && adb.tokens == Accounts.Cleared(old(adb.tokens), u, now)
      && (outcome.value == Roles.Changed <==>
            !Roles.HasRole(old(rdb.rows), u, roleId) && !(current == ids.hod && u in heads))
  {
    var userId := Text.Atoi(userIdParam);
    var roleId := Text.Atoi(roleIdParam);
    if userId.None? || roleId.None? {
      return BAD_REQUEST, None;
    }
    var changed := rdb.ChangeFrontUserRole(ids, heads, userId.value, roleId.value);
    adb.ClearApiTokenOfUser(userId.value, now);
    code, outcome := OK, Some(changed);
  }

  /** An entry of the user list. */
  datatype UserEntry = UserEntry(userId: int, user: Accounts.User, roleId: int)

  /**
   * The rows of `HandleGetFrontUserList`'s query, in its order, each with
   * the user's front role; a listed role is never an admin-panel role.
   */
  method FrontUserEntries(users: map<int, Accounts.User>, rows: seq<Roles.UserRole>, ids: Roles.RoleIds,
                          roleNames: map<int, string>, order: seq<int>)
    returns (entries: seq<UserEntry>)
    requires forall k :: 0 <= k < |order| ==> order[k] in users
    ensures |entries| == |order|
    ensures forall k :: 0 <= k < |entries| ==>
      entries[k].userId == order[k] && entries[k].user == users[order[k]]
      && entries[k].roleId == FrontRoleData(roleNames, ids, rows, order[k])
      && (entries[k].roleId == 0 || !Roles.IsAdminRoleId(ids, entries[k].roleId))
  {
    entries := [];
    var i := 0;
    while i < |order|
      invariant 0 <= i <= |order| && |entries| == i
      invariant forall k :: 0 <= k < i ==>
        entries[k].userId == order[k] && entries[k].user == users[order[k]]
        && entries[k].roleId == FrontRoleData(roleNames, ids, rows, order[k])
        && (entries[k].roleId == 0 || !Roles.IsAdminRoleId(ids, entries[k].roleId))
    {
      entries := entries + [UserEntry(order[i], users[order[i]], FrontRoleData(roleNames, ids, rows, order[i]))];
      i := i + 1;
    }
  }
}
