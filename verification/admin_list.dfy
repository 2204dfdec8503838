/**
 * The administration panel's admin list: promoting a user to Admin,
 * handing Super Admin over to an Admin, and removing an Admin.
 */
module AdminList {
  import opened Wrappers
  import Text
  import Roles
  import Accounts

  /**
   * `HandleAddAdmin`: the id must parse (400); the user must exist and be
   * neither Admin nor Super Admin (401).  Then the Admin role is assigned
   * (skipped when the role table has no Admin row), a reset-password row is
   * created and the freshly generated password, given here already hashed,
   * is stored.
   */
  method HandleAddAdmin(adb: Accounts.AccountDb, rdb: Roles.RoleDb, ids: Roles.RoleIds,
                        userIdParam: string, hashed: string) returns (code: int)
    modifies adb`users, adb`resets, rdb`rows
    ensures code == OK || code == BAD_REQUEST || code == UNAUTHORIZED
    ensures code == BAD_REQUEST <==> Text.Atoi(userIdParam).None?
    ensures code == OK <==>
      Text.Atoi(userIdParam).Some? && var u := Text.Atoi(userIdParam).value;
      u in old(adb.users) && !Roles.IsAdmin(ids, old(rdb.rows), u) && !Roles.IsSuperAdmin(ids, old(rdb.rows), u)
    ensures code == OK ==> var u := Text.Atoi(userIdParam).value;
      rdb.rows == old(rdb.rows) + (if ids.admin != 0 then [Roles.UserRole(u, ids.admin)] else [])
      && adb.resets == old(adb.resets)[u := Accounts.ResetRow(false, "", 0)]
      && adb.users == old(adb.users)[u := old(adb.users)[u].(password := hashed)]
    ensures code != OK ==> rdb.rows == old(rdb.rows) && adb.resets == old(adb.resets) && adb.users == old(adb.users)
  {
    var parsed := Text.Atoi(userIdParam);
    if parsed.None? {
      return BAD_REQUEST;
    }
    var u := parsed.value;
    if u !in adb.users {
      return UNAUTHORIZED;
    }
    var isAdmin := rdb.FindRole(u, ids.admin);
    if ids.admin != 0 && isAdmin {
      return UNAUTHORIZED;
    }
    var isSuper := rdb.FindRole(u, ids.superAdmin);
    if ids.superAdmin != 0 && isSuper {
      return UNAUTHORIZED;
    }
    if ids.admin != 0 {
      rdb.Assign(u, ids.admin);
    }
    adb.resets := adb.resets[u := Accounts.ResetRow(false, "", 0)];
    adb.users := adb.users[u := adb.users[u].(password := hashed)];
    code := OK;
  }

  /** After a successful add the user is an Admin with a fresh, not yet boarded reset row. */
  lemma AddedAdminIsAdmin(rows: seq<Roles.UserRole>, ids: Roles.RoleIds, u: int)
    requires ids.admin != 0
    ensures Roles.IsAdmin(ids, rows + [Roles.UserRole(u, ids.admin)], u)
  {
    assert Roles.UserRole(u, ids.admin) in rows + [Roles.UserRole(u, ids.admin)];
  }

  /**
   * `HandleTransferSuperAdmin`: the target id must parse (400); then, in
   * this order, the caller must be Super Admin, the target Admin, and the
   * caller's password must verify (`verify` stands for bcrypt) (401).
   * Then the roles are swapped and both users' API tokens cleared.
   */
  method HandleTransferSuperAdmin(adb: Accounts.AccountDb, rdb: Roles.RoleDb, ids: Roles.RoleIds,
                                  verify: (string, string) -> bool,
                                  callerId: int, userIdParam: string, password: string, now: int)
    returns (code: int)
    modifies adb`tokens, rdb`rows
    ensures code == OK || code == BAD_REQUEST || code == UNAUTHORIZED
    ensures code == BAD_REQUEST <==> Text.Atoi(userIdParam).None?
    ensures code == OK <==>
      Text.Atoi(userIdParam).Some?
      && Roles.IsSuperAdmin(ids, old(rdb.rows), callerId)
      && Roles.IsAdmin(ids, old(rdb.rows), Text.Atoi(userIdParam).value)
      && verify(Accounts.UserOrZero(adb.users, callerId).password, password)
    ensures code == OK ==> var u := Text.Atoi(userIdParam).value;
      rdb.rows == Roles.Transferred(old(rdb.rows), ids, callerId, u)
      && adb.tokens == Accounts.Cleared(Accounts.Cleared(old(adb.tokens), u, now), callerId, now)
    ensures code != OK ==> rdb.rows == old(rdb.rows) && adb.tokens == old(adb.tokens)
  {
    var parsed := Text.Atoi(userIdParam);
    if parsed.None? {
      return BAD_REQUEST;
    }
    var u := parsed.value;
    var callerSuper := rdb.FindRole(callerId, ids.superAdmin);
    if !(ids.superAdmin != 0 && callerSuper) {
      return UNAUTHORIZED;
    }
    var targetAdmin := rdb.FindRole(u, ids.admin);
    if !(ids.admin != 0 && targetAdmin) {
      return UNAUTHORIZED;
    }
    if !verify(Accounts.UserOrZero(adb.users, callerId).password, password) {
      return UNAUTHORIZED;
    }
    rdb.TransferSuperAdmin(ids, callerId, u);
    adb.ClearApiTokenOfUser(u, now);
    adb.ClearApiTokenOfUser(callerId, now);
    code := OK;
  }

  /** Why `HandleRemoveAdmin` refused, in the order it checks. */
  function RemoveRefusal(users: map<int, Accounts.User>, rows: seq<Roles.UserRole>, ids: Roles.RoleIds,
                         callerId: int, userIdParam: string, emailConfirmation: string): (code: int)
    ensures code == OK || code == BAD_REQUEST || code == UNAUTHORIZED
    ensures code == OK <==>
      Text.Atoi(userIdParam).Some? && var u := Text.Atoi(userIdParam).value;
      u != callerId && emailConfirmation != "" && u in users && users[u].email == emailConfirmation
      && Roles.IsAdmin(ids, rows, u) && !Roles.IsSuperAdmin(ids, rows, u)
    ensures Text.Atoi(userIdParam).Some? && Text.Atoi(userIdParam).value == callerId ==> code == UNAUTHORIZED
  {
    match Text.Atoi(userIdParam)
    case None => BAD_REQUEST
    case Some(u) =>
      if u == callerId then UNAUTHORIZED
      else if emailConfirmation == "" then BAD_REQUEST
      else if emailConfirmation != Accounts.UserOrZero(users, u).email then BAD_REQUEST
      else if !Roles.IsAdmin(ids, rows, u) then UNAUTHORIZED
      else if Roles.IsSuperAdmin(ids, rows, u) then UNAUTHORIZED
      else OK
  }

  /**
   * `HandleRemoveAdmin`: after the checks of `RemoveRefusal`, the Admin role
   * is removed, the user's API tokens cleared and the reset-password row
   * deleted.
   */
  method HandleRemoveAdmin(adb: Accounts.AccountDb, rdb: Roles.RoleDb, ids: Roles.RoleIds,
                           callerId: int, userIdParam: string, emailConfirmation: string, now: int)
    returns (code: int)
    modifies adb`tokens, adb`resets, rdb`rows
    ensures code == RemoveRefusal(old(adb.users), old(rdb.rows), ids, callerId, userIdParam, emailConfirmation)
    ensures code == OK ==> var u := Text.Atoi(userIdParam).value;
      rdb.rows == Roles.Without(old(rdb.rows), Roles.UserRole(u, ids.admin))
      && adb.tokens == Accounts.Cleared(old(adb.tokens), u, now)
      && adb.resets == old(adb.resets) - {u}
    ensures code != OK ==> rdb.rows == old(rdb.rows) && adb.tokens == old(adb.tokens) && adb.resets == old(adb.resets)
  {
    code := RemoveRefusal(adb.users, rdb.rows, ids, callerId, userIdParam, emailConfirmation);
    if code != OK {
      return;
    }
    var u := Text.Atoi(userIdParam).value;
    rdb.Remove(u, ids.admin);
    adb.ClearApiTokenOfUser(u, now);
    adb.resets := adb.resets - {u};
  }

  /** A removed Admin is no longer an Admin, and keeps every other role. */
  lemma RemovedAdminIsNotAdmin(rows: seq<Roles.UserRole>, ids: Roles.RoleIds, u: int, roleId: int)
    ensures !Roles.IsAdmin(ids, Roles.Without(rows, Roles.UserRole(u, ids.admin)), u)
    ensures roleId != ids.admin ==>
      (Roles.HasRole(Roles.Without(rows, Roles.UserRole(u, ids.admin)), u, roleId) <==> Roles.HasRole(rows, u, roleId))
  {
  }
}
