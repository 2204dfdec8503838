/**
 * The site-wide permissions of roles, as the administration panel reads and
 * edits them.  `permission` maps a permission id to its name;
 * `role_permission` rows link a role to a permission id.  A role's
 * permissions are shown as a map from every permission name to whether the
 * role holds it, and an update sends such maps back, one per role.
 */
module RolePermissions {
  import opened Wrappers
  import Collabs
  import Roles

  /** `role_permission` rows: (role id, permission id). */
  type Rows = set<(int, int)>

  /** A row of `role`. */
  datatype Role = Role(name: string, color: string)

  /** One entry of the update request: the wanted permission map of a role. */
  datatype RoleUpdate = RoleUpdate(roleId: int, permissions: map<string, bool>)

  /** One entry of the listing. */
  datatype RoleWithPermissions = RoleWithPermissions(roleId: int, roleName: string, roleColor: string,
                                                     permissions: map<string, bool>)

  /** The names a permission map sets to true. */
  function TrueNames(m: map<string, bool>): set<string> {
    set n | n in m && m[n]
  }

  /** The names in the `permission` table. */
  function Names(perms: map<int, string>): set<string> {
    set id | id in perms :: perms[id]
  }

  lemma NameIn(perms: map<int, string>, id: int)
    requires id in perms
    ensures perms[id] in Names(perms)
  {
  }

  /** No two permissions share a name. */
  predicate UniqueNames(perms: map<int, string>) {
    forall a, b :: a in perms && b in perms && perms[a] == perms[b] ==> a == b
  }

  /** The rows of one role. */
  function RoleRows(rows: Rows, roleId: int): Rows {
    set p | p in rows && p.0 == roleId
  }

  /** The names of the permissions a role's rows point at (rows naming no permission are skipped). */
  function Granted(perms: map<int, string>, rows: Rows, roleId: int): set<string> {
    set p | p in rows && p.0 == roleId && p.1 in perms :: perms[p.1]
  }

  /** A row of the role points at no permission. */
  predicate Dangling(perms: map<int, string>, rows: Rows, roleId: int) {
    exists p :: p in rows && p.0 == roleId && p.1 !in perms
  }

  /** Every permission name, mapped to whether the role holds it. */
  function PermissionView(perms: map<int, string>, rows: Rows, roleId: int): map<string, bool> {
    map n | n in Names(perms) :: n in Granted(perms, rows, roleId)
  }

  /** The view shows every permission, and exactly the held ones as true. */
  lemma PermissionViewSpec(perms: map<int, string>, rows: Rows, roleId: int)
    ensures PermissionView(perms, rows, roleId).Keys == Names(perms)
    ensures TrueNames(PermissionView(perms, rows, roleId)) == Granted(perms, rows, roleId)
  {
    var v := PermissionView(perms, rows, roleId);
    forall n | n in Granted(perms, rows, roleId)
      ensures n in Names(perms)
    {
      var p :| p in rows && p.0 == roleId && p.1 in perms && perms[p.1] == n;
      NameIn(perms, p.1);
    }
  }

  /** `detectPermissionChanges`: the names switched on, and the names switched off. */
  method DetectPermissionChanges(current: map<string, bool>, updated: map<string, bool>)
    returns (toAdd: set<string>, toRemove: set<string>)
    ensures toAdd == TrueNames(updated) - TrueNames(current)
    ensures toRemove == TrueNames(current) - TrueNames(updated)
  {
    toAdd := {};
    var pending := updated.Keys;
    while exists p :: p in pending
      invariant pending <= updated.Keys
      invariant toAdd == (set p | p in updated.Keys - pending && updated[p]) - TrueNames(current)
      decreases pending
    {
      var p :| p in pending;
      if updated[p] && !(p in current && current[p]) {
        toAdd := toAdd + {p};
      }
      pending := pending - {p};
    }
    assert updated.Keys - pending == updated.Keys;
    toRemove := {};
    pending := current.Keys;
    while exists p :: p in pending
      invariant pending <= current.Keys
      invariant toRemove == (set p | p in current.Keys - pending && current[p]) - TrueNames(updated)
      decreases pending
    {
      var p :| p in pending;
      if current[p] && !(p in updated && updated[p]) {
        toRemove := toRemove + {p};
      }
      pending := pending - {p};
    }
    assert current.Keys - pending == current.Keys;
  }

  /**
   * Applying the detected changes to the current permissions gives exactly
   * the updated ones, and no name is both added and removed.
   */
  lemma ChangesReachUpdated(current: map<string, bool>, updated: map<string, bool>)
    ensures var toAdd := TrueNames(updated) - TrueNames(current);
      var toRemove := TrueNames(current) - TrueNames(updated);
      (TrueNames(current) - toRemove) + toAdd == TrueNames(updated)
      && toAdd !! toRemove && toAdd !! TrueNames(current) && toRemove <= TrueNames(current)
  {
  }

  /** `getCurrentPermissions`: every permission false, then true for each of the role's rows. */
  method GetCurrentPermissions(perms: map<int, string>, rows: Rows, roleId: int) returns (m: map<string, bool>)
    ensures m == PermissionView(perms, rows, roleId)
  {
    m := map[];
    var pending := perms.Keys;
    while exists id :: id in pending
      invariant pending <= perms.Keys
      invariant m.Keys == set id | id in perms.Keys - pending :: perms[id]
      invariant forall n :: n in m ==> !m[n]
      decreases pending
    {
      var id :| id in pending;
      m := m[perms[id] := false];
      pending := pending - {id};
    }
    assert perms.Keys - pending == perms.Keys;
    var mine := RoleRows(rows, roleId);
    var left := mine;
    while exists p :: p in left
      invariant left <= mine
      invariant m.Keys == Names(perms)
      invariant forall n :: n in m ==> (m[n] <==> n in Granted(perms, mine - left, roleId))
      decreases left
    {
      var p :| p in left;
      if p.1 in perms {
        NameIn(perms, p.1);
        m := m[perms[p.1] := true];
      }
      GrantedStep(perms, mine - left, p, roleId);
      assert (mine - left) + {p} == mine - (left - {p});
      left := left - {p};
    }
    assert mine - left == mine;
    assert Granted(perms, mine, roleId) == Granted(perms, rows, roleId);
  }

  /** One more row of the role grants its permission's name (if it names one). */
  lemma GrantedStep(perms: map<int, string>, done: Rows, p: (int, int), roleId: int)
    requires p.0 == roleId
    ensures Granted(perms, done + {p}, roleId) == Granted(perms, done, roleId) + (if p.1 in perms then {perms[p.1]} else {})
  {
  }

  /** `First` on `permission_name`: the lowest id with that name. */
  ghost function IdOf(perms: map<int, string>, name: string): (id: int)
    requires name in Names(perms)
    ensures id in perms && perms[id] == name
  {
    var some :| some in perms && perms[some] == name;
    var ids := set id | id in perms && perms[id] == name;
    assert some in ids;
    Collabs.Least(ids)
  }

  /** The rows linking a role to the permissions of some names (names unknown to `permission` give none). */
  ghost function Pairs(perms: map<int, string>, roleId: int, names: set<string>): Rows {
    set n | n in names && n in Names(perms) :: (roleId, IdOf(perms, n))
  }

  /** With distinct names, a row of the role that is not among the pairs of some names names none of them. */
  lemma NotPairedName(perms: map<int, string>, roleId: int, names: set<string>, p: (int, int))
    requires UniqueNames(perms) && p.0 == roleId && p.1 in perms && p !in Pairs(perms, roleId, names)
    ensures perms[p.1] !in names
  {
    NameIn(perms, p.1);
    var n := perms[p.1];
    assert n in names ==> (roleId, IdOf(perms, n)) in Pairs(perms, roleId, names);
  }

  /** Every name a request switches on, for a role, exists in `permission`. */
  predicate Known(perms: map<int, string>, base: Rows, u: RoleUpdate) {
    TrueNames(u.permissions) - Granted(perms, base, u.roleId) <= Names(perms)
  }

  predicate AllKnown(perms: map<int, string>, base: Rows, updates: seq<RoleUpdate>) {
    forall k :: 0 <= k < |updates| ==> Known(perms, base, updates[k])
  }

  /**
   * One role's update: the rows of the names switched off go, then a row per
   * name switched on is added.  The changes are detected against `base`,
   * the table as it was before the request.
   */
  ghost function Step(perms: map<int, string>, base: Rows, rows: Rows, u: RoleUpdate): Rows {
    var current := Granted(perms, base, u.roleId);
    var wanted := TrueNames(u.permissions);
    (rows - Pairs(perms, u.roleId, current - wanted)) + Pairs(perms, u.roleId, wanted - current)
  }

  /** The updates applied in request order. */
  ghost function Applied(perms: map<int, string>, base: Rows, updates: seq<RoleUpdate>): Rows
    decreases |updates|
  {
    if updates == [] then base
    else Step(perms, base, Applied(perms, base, updates[..|updates| - 1]), updates[|updates| - 1])
  }

  /** An update changes only the rows of its own role. */
  lemma StepKeepsOtherRoles(perms: map<int, string>, base: Rows, rows: Rows, u: RoleUpdate, roleId: int)
    requires roleId != u.roleId
    ensures RoleRows(Step(perms, base, rows, u), roleId) == RoleRows(rows, roleId)
  {
  }

  /**
   * With distinct permission names, an update of a role whose rows are
   * still as before the request leaves the role holding exactly the
   * permissions the request set to true.
   */
  lemma StepGrantsExactly(perms: map<int, string>, base: Rows, rows: Rows, u: RoleUpdate)
    requires UniqueNames(perms) && Known(perms, base, u)
    requires RoleRows(rows, u.roleId) == RoleRows(base, u.roleId)
    ensures Granted(perms, Step(perms, base, rows, u), u.roleId) == TrueNames(u.permissions)
  {
    var r := u.roleId;
    var current := Granted(perms, base, r);
    var wanted := TrueNames(u.permissions);
    var after := Step(perms, base, rows, u);
    assert Granted(perms, rows, r) == current by {
      assert forall p :: p in rows && p.0 == r <==> p in base && p.0 == r by {
        forall p ensures p in rows && p.0 == r <==> p in base && p.0 == r {
          assert p in RoleRows(rows, r) <==> p in rows && p.0 == r;
          assert p in RoleRows(base, r) <==> p in base && p.0 == r;
        }
      }
    }
    forall n | n in Granted(perms, after, r)
      ensures n in wanted
    {
      var p :| p in after && p.0 == r && p.1 in perms && perms[p.1] == n;
      if p in Pairs(perms, r, wanted - current) {
        var m :| m in wanted - current && m in Names(perms) && p == (r, IdOf(perms, m));
        assert m == n;
      } else {
        assert p in rows && p !in Pairs(perms, r, current - wanted);
        assert n in current;
        NotPairedName(perms, r, current - wanted, p);
      }
    }
    forall n | n in wanted
      ensures n in Granted(perms, after, r)
    {
      if n in current {
        var p :| p in rows && p.0 == r && p.1 in perms && perms[p.1] == n;
        assert p !in Pairs(perms, r, current - wanted);
        assert p in after;
      } else {
        assert (r, IdOf(perms, n)) in Pairs(perms, r, wanted - current);
      }
    }
  }

  /**
   * With distinct permission names and one entry per role, every role named
   * in the request ends with exactly the permissions its entry sets to true.
   */
  lemma {:induction false} AppliedGrantsExactly(perms: map<int, string>, base: Rows, updates: seq<RoleUpdate>, k: int)
    requires UniqueNames(perms) && AllKnown(perms, base, updates)
    requires forall i, j :: 0 <= i < j < |updates| ==> updates[i].roleId != updates[j].roleId
    requires 0 <= k < |updates|
    ensures Granted(perms, Applied(perms, base, updates), updates[k].roleId) == TrueNames(updates[k].permissions)
    decreases |updates|
  {
    var n := |updates| - 1;
    var prefix := updates[..n];
    if k == n {
      AppliedKeepsUnnamed(perms, base, prefix, updates[n].roleId);
      StepGrantsExactly(perms, base, Applied(perms, base, prefix), updates[n]);
    } else {
      AppliedGrantsExactly(perms, base, prefix, k);
      var r := updates[k].roleId;
      StepKeepsOtherRoles(perms, base, Applied(perms, base, prefix), updates[n], r);
      GrantedOfRoleRows(perms, Applied(perms, base, updates), Applied(perms, base, prefix), r);
    }
  }

  /** A role no entry names keeps its rows. */
  lemma {:induction false} AppliedKeepsUnnamed(perms: map<int, string>, base: Rows, updates: seq<RoleUpdate>, roleId: int)
    requires forall i :: 0 <= i < |updates| ==> updates[i].roleId != roleId
    ensures RoleRows(Applied(perms, base, updates), roleId) == RoleRows(base, roleId)
    decreases |updates|
  {
    if updates != [] {
      var n := |updates| - 1;
      AppliedKeepsUnnamed(perms, base, updates[..n], roleId);
      StepKeepsOtherRoles(perms, base, Applied(perms, base, updates[..n]), updates[n], roleId);
    }
  }

  /** What a role holds depends only on its own rows. */
  lemma GrantedOfRoleRows(perms: map<int, string>, a: Rows, b: Rows, roleId: int)
    requires RoleRows(a, roleId) == RoleRows(b, roleId)
    ensures Granted(perms, a, roleId) == Granted(perms, b, roleId)
  {
    forall p ensures p in a && p.0 == roleId <==> p in b && p.0 == roleId {
      assert p in RoleRows(a, roleId) <==> p in a && p.0 == roleId;
      assert p in RoleRows(b, roleId) <==> p in b && p.0 == roleId;
    }
  }

  /** The administration tables: `permission`, `role_permission` and `role`. */
  class RolePermissionDb {
    var perms: map<int, string>
    var rows: Rows
    var roles: map<int, Role>

    constructor (perms: map<int, string>, rows: Rows, roles: map<int, Role>)
      ensures this.perms == perms && this.rows == rows && this.roles == roles
    {
      this.perms := perms;
      this.rows := rows;
      this.roles := roles;
    }

    /** `First(&permission)` by name: the lowest id with that name, or nothing. */
    method FindPermission(name: string) returns (id: Option<int>)
      ensures id.Some? <==> name in Names(perms)
      ensures id.Some? ==> id.value == IdOf(perms, name)
    {
      var ids := set i | i in perms && perms[i] == name;
      if exists i :: i in ids {
        var least := Collabs.LeastId(ids);
        return Some(least);
      }
      assert forall i :: i in perms ==> perms[i] != name by {
        forall i | i in perms ensures perms[i] != name {
          assert (i in ids) == (i in perms && perms[i] == name);
        }
      }
      return None;
    }

    /** The deletions of one role's update: every name switched off loses its row. */
    method RemoveNames(roleId: int, names: set<string>)
      modifies this`rows
      requires names <= Names(perms)
      ensures rows == old(rows) - Pairs(perms, roleId, names)
    {
      var pending := names;
      while exists n :: n in pending
        invariant pending <= names
        invariant rows == old(rows) - Pairs(perms, roleId, names - pending)
        decreases pending
      {
        var n :| n in pending;
        var id := FindPermission(n);
        rows := rows - {(roleId, id.value)};
        assert Pairs(perms, roleId, (names - pending) + {n}) == Pairs(perms, roleId, names - pending) + {(roleId, id.value)};
        assert (names - pending) + {n} == names - (pending - {n});
        pending := pending - {n};
      }
      assert names - pending == names;
    }

    /**
     * The insertions of one role's update: a row per name switched on; a
     * name `permission` does not hold stops with false.
     */
    method AddNames(roleId: int, names: set<string>) returns (ok: bool)
      modifies this`rows
      ensures ok <==> names <= Names(perms)
      ensures ok ==> rows == old(rows) + Pairs(perms, roleId, names)
    {
      var pending := names;
      while exists n :: n in pending
        invariant pending <= names
        invariant names - pending <= Names(perms)
        invariant rows == old(rows) + Pairs(perms, roleId, names - pending)
        decreases pending
      {
        var n :| n in pending;
        var id := FindPermission(n);
        if id.None? {
          return false;
        }
        rows := rows + {(roleId, id.value)};
        assert Pairs(perms, roleId, (names - pending) + {n}) == Pairs(perms, roleId, names - pending) + {(roleId, id.value)};
        assert (names - pending) + {n} == names - (pending - {n});
        pending := pending - {n};
      }
      assert names - pending == names;
      ok := true;
    }

    /**
     * `HandleUpdateRolePermissions`: a body that does not bind answers 400;
     * each entry's changes are detected against the table as it was before
     * the request (the current permissions are read outside the
     * transaction); a name switched on that `permission` does not hold
     * rolls the whole request back with 500.
     */
    method HandleUpdateRolePermissions(body: Option<seq<RoleUpdate>>) returns (code: int)
      modifies this`rows
      ensures code == OK || code == BAD_REQUEST || code == INTERNAL_ERROR
      ensures code == BAD_REQUEST <==> body.None?
      ensures code == OK <==> body.Some? && AllKnown(perms, old(rows), body.value)
      ensures code == OK ==> rows == Applied(perms, old(rows), body.value)
      ensures code != OK ==> rows == old(rows)
    {
      if body.None? {
        return BAD_REQUEST;
      }
      var updates := body.value;
      var base := rows;
      var i := 0;
      while i < |updates|
        invariant 0 <= i <= |updates|
        invariant AllKnown(perms, base, updates[..i])
        invariant rows == Applied(perms, base, updates[..i])
      {
        var u := updates[i];
        var current := GetCurrentPermissions(perms, base, u.roleId);
        PermissionViewSpec(perms, base, u.roleId);
        var toAdd, toRemove := DetectPermissionChanges(current, u.permissions);
        RemoveNames(u.roleId, toRemove);
        var ok := AddNames(u.roleId, toAdd);
        if !ok {
          rows := base;
          assert !Known(perms, base, updates[i]);
          return INTERNAL_ERROR;
        }
        assert updates[..i + 1][..i] == updates[..i];
        i := i + 1;
      }
      assert updates[..i] == updates;
      code := OK;
    }

    /** The permission map of one role in the listing. */
    method ListRolePermissions(roleId: int) returns (m: map<string, bool>)
      ensures m.Keys == Names(perms) + (if Dangling(perms, rows, roleId) then {""} else {})
      ensures forall n :: n in m ==> (m[n] <==> n in Granted(perms, rows, roleId) || (n == "" && Dangling(perms, rows, roleId)))
    {
      m := GetCurrentPermissions(perms, rows, roleId);
      PermissionViewSpec(perms, rows, roleId);
      var left := RoleRows(rows, roleId);
      var dangling := false;
      while exists p :: p in left
        invariant left <= RoleRows(rows, roleId)
        invariant m.Keys == Names(perms) + (if dangling then {""} else {})
        invariant dangling ==> Dangling(perms, rows, roleId)
        invariant !dangling ==> forall p :: p in RoleRows(rows, roleId) - left ==> p.1 in perms
        invariant forall n :: n in m ==> (m[n] <==> n in Granted(perms, rows, roleId) || (n == "" && dangling))
        decreases left
      {
        var p :| p in left;
        if p.1 !in perms {
          m := m[perms[p.1 := ""][p.1] := true];
          dangling := true;
        }
        left := left - {p};
      }
      assert RoleRows(rows, roleId) - left == RoleRows(rows, roleId);
      assert !dangling ==> !Dangling(perms, rows, roleId) by {
        if !dangling {
          forall p | p in rows && p.0 == roleId ensures p.1 in perms {
            assert p in RoleRows(rows, roleId);
          }
        }
      }
    }

    /**
     * `GetAllRolePermissionsList`: every role except Admin and Super Admin,
     * in `order` (the order the role query returns), with its permissions.
     */
    method GetAllRolePermissionsList(order: seq<int>) returns (list: seq<RoleWithPermissions>)
      requires ListsFrontRoles(roles, order)
      ensures |list| == |order|
      ensures forall k :: 0 <= k < |list| ==>
        list[k].roleId == order[k] && list[k].roleName == roles[order[k]].name
        && list[k].roleColor == roles[order[k]].color
        && TrueNames(list[k].permissions) == Granted(perms, rows, order[k])
             + (if Dangling(perms, rows, order[k]) then {""} else {})
      ensures forall k :: 0 <= k < |list| ==> !Roles.IsAdminRoleName(roles[list[k].roleId].name)
    {
      list := [];
      var i := 0;
      while i < |order|
        invariant 0 <= i <= |order| && |list| == i
        invariant forall k :: 0 <= k < i ==>
          list[k].roleId == order[k] && list[k].roleName == roles[order[k]].name
          && list[k].roleColor == roles[order[k]].color
          && TrueNames(list[k].permissions) == Granted(perms, rows, order[k])
               + (if Dangling(perms, rows, order[k]) then {""} else {})
      {
        var role := roles[order[i]];
        var m := ListRolePermissions(order[i]);
        ListedTrueNames(perms, rows, order[i], m);
        list := list + [RoleWithPermissions(order[i], role.name, role.color, m)];
        i := i + 1;
      }
    }
  }

  /** The names a listed map sets to true. */
  lemma ListedTrueNames(perms: map<int, string>, rows: Rows, roleId: int, m: map<string, bool>)
    requires m.Keys == Names(perms) + (if Dangling(perms, rows, roleId) then {""} else {})
    requires forall n :: n in m ==> (m[n] <==> n in Granted(perms, rows, roleId) || (n == "" && Dangling(perms, rows, roleId)))
    ensures TrueNames(m) == Granted(perms, rows, roleId) + (if Dangling(perms, rows, roleId) then {""} else {})
  {
    PermissionViewSpec(perms, rows, roleId);
  }

  /** The listing shows each role except the admin-panel ones exactly once. */
  predicate ListsFrontRoles(roles: map<int, Role>, order: seq<int>) {
    (forall k :: 0 <= k < |order| ==> order[k] in roles && !Roles.IsAdminRoleName(roles[order[k]].name))
    && (forall id :: id in roles && !Roles.IsAdminRoleName(roles[id].name) ==> id in order)
    && (forall i, j :: 0 <= i < j < |order| ==> order[i] != order[j])
  }
}
