/**
 * The roles of users.  `userrole` rows link a user to a role; a user's
 * roles are read in row order.  Admin and Super Admin are the roles of the
 * admin panel; every other role (User, Advisor, HOD) is a front role.
 */
module Roles {
  import opened Wrappers

  const USER_ROLE: string := "User"
  const ADVISOR_ROLE: string := "Advisor"
  const HOD_ROLE: string := "HOD"
  const ADMIN_ROLE: string := "Admin"
  const SUPER_ADMIN_ROLE: string := "Super Admin"

  /** What `GetAdminPanelUserRoleName` answers for a user without an admin role: a JSON object. */
  const NO_ADMIN_ROLE: string := "{\"error\":\"No admin role found\"}"

  /** A row of `userrole`. */
  datatype UserRole = UserRole(userId: int, roleId: int)

  /**
   * The ids `GetRoleId` finds for the role names the code looks up (0 for a
   * name without a row).
   */
  datatype RoleIds = RoleIds(user: int, admin: int, superAdmin: int, hod: int)

  predicate IsAdminRoleId(ids: RoleIds, roleId: int) {
    roleId == ids.admin || roleId == ids.superAdmin
  }

  predicate IsAdminRoleName(name: string) {
    name == ADMIN_ROLE || name == SUPER_ADMIN_ROLE
  }

  /** `GetUserRoles`: the role ids of a user's rows, in row order. */
  function RolesOf(rows: seq<UserRole>, userId: int): (r: seq<int>)
    ensures forall roleId :: roleId in r <==> UserRole(userId, roleId) in rows
    ensures |r| <= |rows|
  {
    if rows == [] then []
    else
      var rest := RolesOf(rows[1..], userId);
      assert forall x :: x in rows <==> x == rows[0] || x in rows[1..];
      if rows[0].userId == userId then [rows[0].roleId] + rest else rest
  }

  /** `HasRole`: some row links the user to the role. */
  predicate HasRole(rows: seq<UserRole>, userId: int, roleId: int) {
    roleId in RolesOf(rows, userId)
  }

  /** `IsUserAdmin`: false as well when the role table has no Admin row. */
  predicate IsAdmin(ids: RoleIds, rows: seq<UserRole>, userId: int) {
    ids.admin != 0 && HasRole(rows, userId, ids.admin)
  }

  /** `IsUserSuperAdmin`. */
  predicate IsSuperAdmin(ids: RoleIds, rows: seq<UserRole>, userId: int) {
    ids.superAdmin != 0 && HasRole(rows, userId, ids.superAdmin)
  }

  /**
   * The index of the first role whose admin-ness is `admin`: every role
   * before it has the other kind, and it is `|roles|` when there is none.
   */
  function FirstRoleIndex(ids: RoleIds, roles: seq<int>, admin: bool): (j: nat)
    ensures j <= |roles|
    ensures forall i :: 0 <= i < j ==> IsAdminRoleId(ids, roles[i]) != admin
    ensures j < |roles| ==> IsAdminRoleId(ids, roles[j]) == admin
  {
    if roles == [] then 0
    else if IsAdminRoleId(ids, roles[0]) == admin then 0
    else 1 + FirstRoleIndex(ids, roles[1..], admin)
  }

  /**
   * `GetFrontUserRoleID`: the first of the roles that is not an admin role,
   * or 0 when every role is an admin role.
   */
  function FirstFrontRole(ids: RoleIds, roles: seq<int>): (r: int)
    ensures r == 0 || (r in roles && !IsAdminRoleId(ids, r))
    ensures (forall k :: 0 <= k < |roles| ==> IsAdminRoleId(ids, roles[k])) ==> r == 0
  {
    var j := FirstRoleIndex(ids, roles, false);
    if j < |roles| then roles[j] else 0
  }

  /** `GetAdminPanelUserRoleID`: the first admin role among the roles, or 0. */
  function FirstAdminRole(ids: RoleIds, roles: seq<int>): (r: int)
    ensures r == 0 || (r in roles && IsAdminRoleId(ids, r))
    ensures (forall k :: 0 <= k < |roles| ==> !IsAdminRoleId(ids, roles[k])) ==> r == 0
  {
    var j := FirstRoleIndex(ids, roles, true);
    if j < |roles| then roles[j] else 0
  }

  /** A user holding a front role gets the earliest one, in row order. */
  lemma FrontRoleIsEarliest(ids: RoleIds, roles: seq<int>, k: int)
    requires 0 <= k < |roles| && !IsAdminRoleId(ids, roles[k])
    ensures exists j :: 0 <= j <= k && roles[j] == FirstFrontRole(ids, roles)
                        && forall i :: 0 <= i < j ==> IsAdminRoleId(ids, roles[i])
  {
    var j := FirstRoleIndex(ids, roles, false);
    assert !(IsAdminRoleId(ids, roles[k]) != false);
    assert j <= k;
  }

  /**
   * `GetUserRoleData`: the names of a user's roles in row order; a row whose
   * role is missing from the role table makes the whole read fail.
   */
  function RoleNamesOf(roleNames: map<int, string>, roles: seq<int>): (r: Option<seq<string>>)
    ensures r.Some? <==> forall k :: 0 <= k < |roles| ==> roles[k] in roleNames
    ensures r.Some? ==> |r.value| == |roles| && forall k :: 0 <= k < |roles| ==> r.value[k] == roleNames[roles[k]]
  {
    if roles == [] then Some([])
    else if roles[0] !in roleNames then None
    else match RoleNamesOf(roleNames, roles[1..])
      case None => None
      case Some(rest) => Some([roleNames[roles[0]]] + rest)
  }

  /** The index of the first name with `IsAdminRoleName(name) == admin`, or `|names|`. */
  function FirstNameIndex(names: seq<string>, admin: bool): (j: nat)
    ensures j <= |names|
    ensures forall i :: 0 <= i < j ==> IsAdminRoleName(names[i]) != admin
    ensures j < |names| ==> IsAdminRoleName(names[j]) == admin
  {
    if names == [] then 0
    else if IsAdminRoleName(names[0]) == admin then 0
    else 1 + FirstNameIndex(names[1..], admin)
  }

  /** The names of a user's roles; empty when the read fails. */
  function NamesOrEmpty(roleNames: map<int, string>, rows: seq<UserRole>, userId: int): seq<string> {
    match RoleNamesOf(roleNames, RolesOf(rows, userId))
    case None => []
    case Some(names) => names
  }

  /** `GetFrontPanelUserRoleName`: the first front role name, or "" (also when the read fails). */
  function FrontPanelRoleName(roleNames: map<int, string>, rows: seq<UserRole>, userId: int): (r: string)
    ensures var names := NamesOrEmpty(roleNames, rows, userId);
      ((forall k :: 0 <= k < |names| ==> IsAdminRoleName(names[k])) ==> r == "")
    ensures r != "" ==> !IsAdminRoleName(r) && r in NamesOrEmpty(roleNames, rows, userId)
  {
    var names := NamesOrEmpty(roleNames, rows, userId);
    var j := FirstNameIndex(names, false);
    if j < |names| then names[j] else ""
  }

  /**
   * `GetAdminPanelUserRoleName`: the first admin role name; without one the
   * answer is the JSON error object.
   */
  function AdminPanelRoleName(roleNames: map<int, string>, rows: seq<UserRole>, userId: int): (r: string)
    ensures r == NO_ADMIN_ROLE || IsAdminRoleName(r)
    ensures var names := NamesOrEmpty(roleNames, rows, userId);
      (r == NO_ADMIN_ROLE <==> forall k :: 0 <= k < |names| ==> !IsAdminRoleName(names[k]))
    ensures r != NO_ADMIN_ROLE ==> r in NamesOrEmpty(roleNames, rows, userId)
  {
    var names := NamesOrEmpty(roleNames, rows, userId);
    var j := FirstNameIndex(names, true);
    if j < |names| then names[j] else NO_ADMIN_ROLE
  }

  /** A listed role name comes from one of the user's rows. */
  lemma NamesComeFromRows(roleNames: map<int, string>, rows: seq<UserRole>, userId: int, name: string)
    requires name in NamesOrEmpty(roleNames, rows, userId)
    ensures exists k :: 0 <= k < |rows| && rows[k].userId == userId && rows[k].roleId in roleNames
                        && roleNames[rows[k].roleId] == name
  {
    var roles := RolesOf(rows, userId);
    var names := NamesOrEmpty(roleNames, rows, userId);
    var i :| 0 <= i < |names| && names[i] == name;
    assert UserRole(userId, roles[i]) in rows;
  }

  /** The rows without any row equal to `row` (a `DELETE ... WHERE user_id = ? AND role_id = ?`), order kept. */
  function Without(rows: seq<UserRole>, row: UserRole): (r: seq<UserRole>)
    ensures forall x :: x in r <==> x in rows && x != row
    ensures |r| <= |rows|
  {
    if rows == [] then []
    else
      var rest := Without(rows[1..], row);
      assert forall x :: x in rows <==> x == rows[0] || x in rows[1..];
      if rows[0] == row then rest else [rows[0]] + rest
  }

  /** Removing a user's row leaves the other users' roles as they were. */
  lemma {:induction false} WithoutKeepsOthers(rows: seq<UserRole>, row: UserRole, userId: int)
    requires userId != row.userId
    ensures RolesOf(Without(rows, row), userId) == RolesOf(rows, userId)
  {
    if rows != [] {
      WithoutKeepsOthers(rows[1..], row, userId);
    }
  }

  /** Appending a row for one user leaves the other users' roles as they were. */
  lemma {:induction false} AppendKeepsOthers(rows: seq<UserRole>, row: UserRole, userId: int)
    requires userId != row.userId
    ensures RolesOf(rows + [row], userId) == RolesOf(rows, userId)
  {
    if rows != [] {
      assert (rows + [row])[1..] == rows[1..] + [row];
      AppendKeepsOthers(rows[1..], row, userId);
    } else {
      assert RolesOf([row], userId) == RolesOf([], userId) by {
        assert [row][1..] == [];
      }
    }
  }

  /** Why `ChangeFrontUserRole` refused, or that it changed the role. */
  datatype ChangeOutcome = AlreadyHasRole | HeadsDepartment | Changed

  /** The `userrole` table. */
  class RoleDb {
    var rows: seq<UserRole>

    constructor (rows: seq<UserRole>)
      ensures this.rows == rows
    {
      this.rows := rows;
    }

    /** `AssignUserRole`: one more row. */
    method Assign(userId: int, roleId: int)
      modifies this`rows
      ensures rows == old(rows) + [UserRole(userId, roleId)]
      ensures HasRole(rows, userId, roleId)
    {
      rows := rows + [UserRole(userId, roleId)];
    }

    /** `RemoveUserRole`: every row of that user and role goes. */
    method Remove(userId: int, roleId: int)
      modifies this`rows
      ensures rows == Without(old(rows), UserRole(userId, roleId))
      ensures !HasRole(rows, userId, roleId)
    {
      rows := Without(rows, UserRole(userId, roleId));
    }

    /** `HasRole`, as the loop over the user's rows computes it. */
    method FindRole(userId: int, roleId: int) returns (found: bool)
      ensures found <==> HasRole(rows, userId, roleId)
    {
      var roles := RolesOf(rows, userId);
      found := false;
      var i := 0;
      while i < |roles|
        invariant 0 <= i <= |roles|
        invariant !found && roleId !in roles[..i]
      {
        if roles[i] == roleId {
          return true;
        }
        assert roles[..i + 1] == roles[..i] + [roles[i]];
        i := i + 1;
      }
      assert roles[..i] == roles;
    }

    /**
     * `ChangeFrontUserRole`: refused when the user already holds the new
     * role, or when the current front role is HOD and the user heads a
     * department (`heads` are the users with a `departmenthead` row);
     * otherwise the current front role is removed and the new one added.
     */
    method ChangeFrontUserRole(ids: RoleIds, heads: set<int>, userId: int, newRoleId: int)
      returns (outcome: ChangeOutcome)
      modifies this`rows
      ensures var current := FirstFrontRole(ids, RolesOf(old(rows), userId));
        (outcome == AlreadyHasRole <==> HasRole(old(rows), userId, newRoleId))
        && (outcome == HeadsDepartment <==>
              !HasRole(old(rows), userId, newRoleId) && current == ids.hod && userId in heads)
        && (outcome == Changed ==>
              rows == Without(old(rows), UserRole(userId, current)) + [UserRole(userId, newRoleId)])
        && (outcome != Changed ==> rows == old(rows))
    {
      var current := FirstFrontRole(ids, RolesOf(rows, userId));
      var already := FindRole(userId, newRoleId);
      if already {
        return AlreadyHasRole;
      }
      if current == ids.hod && userId in heads {
        return HeadsDepartment;
      }
      Remove(userId, current);
      Assign(userId, newRoleId);
      outcome := Changed;
    }

    /**
     * `TransferSuperAdmin`: the source is demoted from Super Admin to Admin,
     * then the target promoted from Admin to Super Admin.
     */
    method TransferSuperAdmin(ids: RoleIds, sourceId: int, targetId: int)
      modifies this`rows
      ensures rows == Transferred(old(rows), ids, sourceId, targetId)
    {
      Remove(sourceId, ids.superAdmin);
      Assign(sourceId, ids.admin);
      Remove(targetId, ids.admin);
      Assign(targetId, ids.superAdmin);
    }
  }

  /** The rows after `TransferSuperAdmin`. */
  function Transferred(rows: seq<UserRole>, ids: RoleIds, sourceId: int, targetId: int): seq<UserRole> {
    var demoted := Without(rows, UserRole(sourceId, ids.superAdmin)) + [UserRole(sourceId, ids.admin)];
    Without(demoted, UserRole(targetId, ids.admin)) + [UserRole(targetId, ids.superAdmin)]
  }

  /**
   * After a transfer between two users the source holds Admin and not Super
   * Admin, the target Super Admin and not Admin, and every other user's roles
   * are as they were.
   */
  lemma TransferSwapsRoles(rows: seq<UserRole>, ids: RoleIds, sourceId: int, targetId: int, other: int)
    requires sourceId != targetId && ids.admin != ids.superAdmin
    ensures var r := Transferred(rows, ids, sourceId, targetId);
      HasRole(r, sourceId, ids.admin) && !HasRole(r, sourceId, ids.superAdmin)
      && HasRole(r, targetId, ids.superAdmin) && !HasRole(r, targetId, ids.admin)
      && (other != sourceId && other != targetId ==> RolesOf(r, other) == RolesOf(rows, other))
  {
    var demoted := Without(rows, UserRole(sourceId, ids.superAdmin)) + [UserRole(sourceId, ids.admin)];
    if other != sourceId && other != targetId {
      WithoutKeepsOthers(rows, UserRole(sourceId, ids.superAdmin), other);
      AppendKeepsOthers(Without(rows, UserRole(sourceId, ids.superAdmin)), UserRole(sourceId, ids.admin), other);
      WithoutKeepsOthers(demoted, UserRole(targetId, ids.admin), other);
      AppendKeepsOthers(Without(demoted, UserRole(targetId, ids.admin)), UserRole(targetId, ids.superAdmin), other);
    }
  }

  /**
   * After a change the user holds the new role and no longer the old front
   * role, and other users keep their roles.
   */
  lemma ChangedRoleSpec(rows: seq<UserRole>, userId: int, current: int, newRoleId: int, other: int)
    requires current != newRoleId
    ensures var r := Without(rows, UserRole(userId, current)) + [UserRole(userId, newRoleId)];
      HasRole(r, userId, newRoleId) && !HasRole(r, userId, current)
      && (other != userId ==> RolesOf(r, other) == RolesOf(rows, other))
  {
    if other != userId {
      WithoutKeepsOthers(rows, UserRole(userId, current), other);
      AppendKeepsOthers(Without(rows, UserRole(userId, current)), UserRole(userId, newRoleId), other);
    }
  }
}
