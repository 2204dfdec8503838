/**
 * The administration panel's departments: adding one, updating its details
 * and heads (HODs).  A department's name is unique ignoring case and its tag
 * is stored upper-cased and unique; a user heads at most one department
 * when heads are reassigned.
 */
module Departments {
  import opened Wrappers
  import Text
  import Roles
  import Accounts

  /** A row of `department`. */
  datatype Department = Department(name: string, tag: string, color: string, status: bool)

  /** A row of `departmenthead`. */
  datatype HeadRow = HeadRow(departmentId: int, userId: int)

  /** The colour of a department added without one. */
  const DEFAULT_COLOR: string := "#333333"

  /** Another department (not `except`) already has the name, ignoring case. */
  predicate NameTaken(departments: map<int, Department>, name: string, except: Option<int>) {
    exists id :: id in departments && Some(id) != except && Text.ToLower(departments[id].name) == Text.ToLower(name)
  }

  /** Another department (not `except`) already has the (upper-cased) tag. */
  predicate TagTaken(departments: map<int, Department>, tag: string, except: Option<int>) {
    exists id :: id in departments && Some(id) != except && Text.ToUpper(departments[id].tag) == tag
  }

  /** The heads of a department, in row order. */
  function HeadsOf(heads: seq<HeadRow>, departmentId: int): (r: seq<int>)
    ensures forall u :: u in r <==> HeadRow(departmentId, u) in heads
    decreases |heads|
  {
    if heads == [] then []
    else
      var init := heads[..|heads| - 1];
      var last := heads[|heads| - 1];
      assert heads == init + [last];
      HeadsOf(init, departmentId) + (if last.departmentId == departmentId then [last.userId] else [])
  }

  /**
   * `checkUsersExistWithHODRole` for one posted id: it parses, and the front
   * role name of that user is "HOD".  A missing user reads as the zero row,
   * so the roles of user id 0 are the ones looked at.
   */
  predicate IsHodCandidate(users: map<int, Accounts.User>, roleNames: map<int, string>,
                           rows: seq<Roles.UserRole>, s: string) {
    Text.Atoi(s).Some?
    && var id := Text.Atoi(s).value;
    Roles.FrontPanelRoleName(roleNames, rows, if id in users then id else 0) == Roles.HOD_ROLE
  }

  predicate AllHodCandidates(users: map<int, Accounts.User>, roleNames: map<int, string>,
                             rows: seq<Roles.UserRole>, ss: seq<string>) {
    forall k :: 0 <= k < |ss| ==> IsHodCandidate(users, roleNames, rows, ss[k])
  }

  /** `checkUsersExistWithHODRole`: stops at the first id that fails. */
  method CheckUsersExistWithHodRole(users: map<int, Accounts.User>, roleNames: map<int, string>,
                                    rows: seq<Roles.UserRole>, ss: seq<string>) returns (ok: bool)
    ensures ok <==> AllHodCandidates(users, roleNames, rows, ss)
    ensures ok ==> Text.ParseIds(ss).Some?
  {
    var i := 0;
    while i < |ss|
      invariant 0 <= i <= |ss|
      invariant forall k :: 0 <= k < i ==> IsHodCandidate(users, roleNames, rows, ss[k])
    {
      if !IsHodCandidate(users, roleNames, rows, ss[i]) {
        return false;
      }
      i := i + 1;
    }
    ok := true;
    ParsedHodIds(users, roleNames, rows, ss);
  }

  /** Ids that pass the HOD check all parse. */
  lemma {:induction false} ParsedHodIds(users: map<int, Accounts.User>, roleNames: map<int, string>,
                                        rows: seq<Roles.UserRole>, ss: seq<string>)
    requires AllHodCandidates(users, roleNames, rows, ss)
    ensures Text.ParseIds(ss).Some?
    decreases |ss|
  {
    if ss != [] {
      ParsedHodIds(users, roleNames, rows, ss[..|ss| - 1]);
    }
  }

  /** The rows `assignHODsToDepartment` keeps: other departments' rows, and this one's heads still listed. */
  function KeptHeads(heads: seq<HeadRow>, departmentId: int, ids: seq<int>): (r: seq<HeadRow>)
    ensures forall h :: h in r <==> h in heads && (h.departmentId != departmentId || h.userId in ids)
    decreases |heads|
  {
    if heads == [] then []
    else
      var init := heads[..|heads| - 1];
      var last := heads[|heads| - 1];
      assert heads == init + [last];
      KeptHeads(init, departmentId, ids) + (if last.departmentId != departmentId || last.userId in ids then [last] else [])
  }

  /** The rows `assignHODsToDepartment` adds: one per listed id that was not a head of the department. */
  function NewHeads(departmentId: int, ids: seq<int>, current: seq<int>): (r: seq<HeadRow>)
    ensures forall h :: h in r <==> h.departmentId == departmentId && h.userId in ids && h.userId !in current
    decreases |ids|
  {
    if ids == [] then []
    else
      var init := ids[..|ids| - 1];
      var last := ids[|ids| - 1];
      assert ids == init + [last];
      NewHeads(departmentId, init, current) + (if last in current then [] else [HeadRow(departmentId, last)])
  }

  /** The rows after a successful `assignHODsToDepartment`. */
  function Assigned(heads: seq<HeadRow>, departmentId: int, ids: seq<int>): seq<HeadRow> {
    KeptHeads(heads, departmentId, ids) + NewHeads(departmentId, ids, HeadsOf(heads, departmentId))
  }

  /** A listed id that is not yet a head here but heads another department. */
  predicate HeadsElsewhere(heads: seq<HeadRow>, departmentId: int, u: int) {
    exists k :: 0 <= k < |heads| && heads[k].userId == u && heads[k].departmentId != departmentId
  }

  predicate AssignAllowed(heads: seq<HeadRow>, departmentId: int, ids: seq<int>) {
    forall k :: 0 <= k < |ids| ==>
      ids[k] in HeadsOf(heads, departmentId) || !HeadsElsewhere(heads, departmentId, ids[k])
  }

  /**
   * After an assignment the department's heads are exactly the listed ids,
   * and every other department keeps its heads.
   */
  lemma AssignedSpec(heads: seq<HeadRow>, departmentId: int, ids: seq<int>, other: int, u: int)
    ensures u in HeadsOf(Assigned(heads, departmentId, ids), departmentId) <==> u in ids
    ensures other != departmentId ==>
      (u in HeadsOf(Assigned(heads, departmentId, ids), other) <==> u in HeadsOf(heads, other))
  {
    var r := Assigned(heads, departmentId, ids);
    assert HeadRow(departmentId, u) in r <==> u in ids by {
      if u in ids && u in HeadsOf(heads, departmentId) {
        assert HeadRow(departmentId, u) in KeptHeads(heads, departmentId, ids);
      }
    }
  }

  /**
   * When the posted list already equals the current heads (as decimal
   * strings, in row order), the assignment is skipped; it would not have
   * changed who heads the department.
   */
  lemma UnchangedListKeepsHeads(heads: seq<HeadRow>, departmentId: int, ss: seq<string>, u: int)
    requires ss == HeadStrings(heads, departmentId)
    ensures Text.ParseIds(ss) == Some(HeadsOf(heads, departmentId))
    ensures u in HeadsOf(Assigned(heads, departmentId, HeadsOf(heads, departmentId)), departmentId)
            <==> u in HeadsOf(heads, departmentId)
  {
    Text.ParseRenderedIds(HeadsOf(heads, departmentId));
    AssignedSpec(heads, departmentId, HeadsOf(heads, departmentId), departmentId, u);
  }

  /** The decimal strings of the current heads, as the update handler builds them. */
  function HeadStrings(heads: seq<HeadRow>, departmentId: int): seq<string> {
    var cur := HeadsOf(heads, departmentId);
    seq(|cur|, i requires 0 <= i < |cur| => Text.Itoa(cur[i]))
  }

  /** Why the update handler refused before writing anything, or OK to go on. */
  function UpdatePrecheck(departments: map<int, Department>, users: map<int, Accounts.User>,
                          roleNames: map<int, string>, rows: seq<Roles.UserRole>,
                          departmentParam: string, name: string, tag: string, statusParam: string,
                          hodIds: seq<string>): (code: int)
    ensures code == OK || code == BAD_REQUEST
    ensures code == OK <==>
      Text.Atoi(departmentParam).Some? && Text.ParseBool(statusParam).Some?
      && AllHodCandidates(users, roleNames, rows, hodIds)
      && var d := Text.Atoi(departmentParam).value;
      d in departments && !NameTaken(departments, name, Some(d)) && !TagTaken(departments, Text.ToUpper(tag), Some(d))
  {
    if Text.Atoi(departmentParam).None? || Text.ParseBool(statusParam).None? then BAD_REQUEST
    else if |hodIds| > 0 && !AllHodCandidates(users, roleNames, rows, hodIds) then BAD_REQUEST
    else
      var d := Text.Atoi(departmentParam).value;
      if d !in departments then BAD_REQUEST
      else if NameTaken(departments, name, Some(d)) then BAD_REQUEST
      else if TagTaken(departments, Text.ToUpper(tag), Some(d)) then BAD_REQUEST
      else OK
  }

  /** The deletion loop of `assignHODsToDepartment`: the rows it leaves. */
  method KeepListedHeads(heads: seq<HeadRow>, departmentId: int, ids: seq<int>) returns (kept: seq<HeadRow>)
    ensures kept == KeptHeads(heads, departmentId, ids)
  {
    kept := [];
    var i := 0;
    while i < |heads|
      invariant 0 <= i <= |heads|
      invariant kept == KeptHeads(heads[..i], departmentId, ids)
    {
      assert heads[..i + 1][..i] == heads[..i];
      if heads[i].departmentId != departmentId || heads[i].userId in ids {
        kept := kept + [heads[i]];
      }
      i := i + 1;
    }
    assert heads[..i] == heads;
  }

  /**
   * The insertion loop of `assignHODsToDepartment`: the rows it adds, or
   * false at the first new head who heads another department.
   */
  method CollectNewHeads(heads: seq<HeadRow>, departmentId: int, ids: seq<int>) returns (ok: bool, added: seq<HeadRow>)
    ensures ok <==> AssignAllowed(heads, departmentId, ids)
    ensures ok ==> added == NewHeads(departmentId, ids, HeadsOf(heads, departmentId))
  {
    var current := HeadsOf(heads, departmentId);
    added := [];
    var j := 0;
    while j < |ids|
      invariant 0 <= j <= |ids|
      invariant added == NewHeads(departmentId, ids[..j], current)
      invariant forall k :: 0 <= k < j ==> ids[k] in current || !HeadsElsewhere(heads, departmentId, ids[k])
    {
      assert ids[..j + 1][..j] == ids[..j];
      if ids[j] !in current {
        if HeadsElsewhere(heads, departmentId, ids[j]) {
          return false, [];
        }
        added := added + [HeadRow(departmentId, ids[j])];
      }
      j := j + 1;
    }
    assert ids[..j] == ids;
    ok := true;
  }

  /** One head row per id, in order. */
  function HeadRowsFor(departmentId: int, ids: seq<int>): (r: seq<HeadRow>)
    ensures |r| == |ids| && forall k :: 0 <= k < |ids| ==> r[k] == HeadRow(departmentId, ids[k])
  {
    seq(|ids|, k requires 0 <= k < |ids| => HeadRow(departmentId, ids[k]))
  }

  /** The departments and their heads. */
  class DepartmentDb {
    var departments: map<int, Department>
    var heads: seq<HeadRow>
    var nextId: int

    constructor (departments: map<int, Department>, heads: seq<HeadRow>, nextId: int)
      ensures this.departments == departments && this.heads == heads && this.nextId == nextId
    {
      this.departments := departments;
      this.heads := heads;
      this.nextId := nextId;
    }

    /**
     * `assignHODsToDepartment`: the heads no longer listed are deleted, then
     * every listed id that was not a head here is added, unless it heads
     * another department, which refuses the whole assignment.
     */
    method AssignHods(departmentId: int, ids: seq<int>) returns (ok: bool)
      modifies this`heads
      ensures ok <==> AssignAllowed(old(heads), departmentId, ids)
      ensures ok ==> heads == Assigned(old(heads), departmentId, ids)
      ensures !ok ==> heads == old(heads)
    {
      var kept := KeepListedHeads(heads, departmentId, ids);
      var added;
      ok, added := CollectNewHeads(heads, departmentId, ids);
      if ok {
        heads := kept + added;
      }
    }

    /** The head rows of a new department, one per posted id in order. */
    method AppendHeads(departmentId: int, ids: seq<int>)
      modifies this`heads
      ensures heads == old(heads) + HeadRowsFor(departmentId, ids)
    {
      var i := 0;
      while i < |ids|
        invariant 0 <= i <= |ids|
        invariant heads == old(heads) + HeadRowsFor(departmentId, ids[..i])
      {
        assert HeadRowsFor(departmentId, ids[..i + 1]) == HeadRowsFor(departmentId, ids[..i]) + [HeadRow(departmentId, ids[i])];
        heads := heads + [HeadRow(departmentId, ids[i])];
        i := i + 1;
      }
      assert ids[..i] == ids;
    }

    /**
     * `HandleAddDepartment`: a name and a tag are required (400); the tag is
     * upper-cased and an empty colour becomes the default; the name (ignoring
     * case) and the tag must be new (400).  The department is created; when
     * heads are posted they must all pass the HOD check, otherwise the
     * department is deleted again (400); then a head row is added per id.
     */
    method HandleAddDepartment(users: map<int, Accounts.User>, roleNames: map<int, string>,
                               rows: seq<Roles.UserRole>, name: string, tag: string, color: string,
                               statusParam: string, hodIds: seq<string>)
      returns (code: int, departmentId: Option<int>)
      modifies this`departments, this`heads, this`nextId
      ensures code == OK || code == BAD_REQUEST
      ensures code == OK <==>
        name != "" && tag != ""
        && !NameTaken(old(departments), name, None) && !TagTaken(old(departments), Text.ToUpper(tag), None)
        && AllHodCandidates(users, roleNames, rows, hodIds)
      ensures code == OK ==>
        departments == old(departments)[old(nextId) := Department(name, Text.ToUpper(tag),
                         if color == "" then DEFAULT_COLOR else color, Text.ParseBool(statusParam) == Some(true))]
      ensures code == OK ==> departmentId == Some(old(nextId)) && Text.ParseIds(hodIds).Some?
      ensures code == OK && Text.ParseIds(hodIds).Some? ==>
        heads == old(heads) + HeadRowsFor(old(nextId), Text.ParseIds(hodIds).value)
      ensures code != OK ==> departments == old(departments) && heads == old(heads) && departmentId.None?
    {
      if name == "" || tag == "" {
        return BAD_REQUEST, None;
      }
      var color' := if color == "" then DEFAULT_COLOR else color;
      var tag' := Text.ToUpper(tag);
      if NameTaken(departments, name, None) || TagTaken(departments, tag', None) {
        return BAD_REQUEST, None;
      }
      var d := nextId;
      var before := departments;
      departments := departments[d := Department(name, tag', color', Text.ParseBool(statusParam) == Some(true))];
      nextId := nextId + 1;
      if |hodIds| > 0 {
        var ok := CheckUsersExistWithHodRole(users, roleNames, rows, hodIds);
        if !ok {
          departments := before;
          return BAD_REQUEST, None;
        }
      }
      var parsed := Text.ParseIdList(hodIds);
      if |hodIds| > 0 {
        ParsedHodIds(users, roleNames, rows, hodIds);
      }
      AppendHeads(d, parsed.value);
      code, departmentId := OK, Some(d);
    }

    /**
     * `HandleUpdateDepartment`: after `UpdatePrecheck`, the details are
     * written when any differs; then, when the posted head ids differ from
     * the current ones as strings in row order, the heads are reassigned.  A
     * refused reassignment answers 400 and rolls the heads back, but the
     * details were written outside the transaction and stay.
     */
    method HandleUpdateDepartment(users: map<int, Accounts.User>, roleNames: map<int, string>,
                                  rows: seq<Roles.UserRole>, departmentParam: string, name: string, tag: string,
                                  color: string, statusParam: string, hodIds: seq<string>)
      returns (code: int)
      modifies this`departments, this`heads
      ensures code == OK || code == BAD_REQUEST
      ensures var pre := UpdatePrecheck(old(departments), users, roleNames, rows, departmentParam, name, tag,
                                        statusParam, hodIds);
        (pre != OK ==> code == pre && departments == old(departments) && heads == old(heads))
        && (pre == OK ==>
              var d := Text.Atoi(departmentParam).value;
              Text.ParseIds(hodIds).Some? && var ids := Text.ParseIds(hodIds).value;
              departments == old(departments)[d := Department(name, Text.ToUpper(tag), color,
                                                              Text.ParseBool(statusParam).value)]
              && (hodIds == HeadStrings(old(heads), d) ==> code == OK && heads == old(heads))
              && (hodIds != HeadStrings(old(heads), d) ==>
                    (code == OK <==> AssignAllowed(old(heads), d, ids))
                    && (code == OK ==> heads == Assigned(old(heads), d, ids))
                    && (code != OK ==> heads == old(heads))))
    {
      code := UpdatePrecheck(departments, users, roleNames, rows, departmentParam, name, tag, statusParam, hodIds);
      if code != OK {
        return;
      }
      ParsedHodIds(users, roleNames, rows, hodIds);
      var d := Text.Atoi(departmentParam).value;
      var updated := Department(name, Text.ToUpper(tag), color, Text.ParseBool(statusParam).value);
      if updated != departments[d] {
        departments := departments[d := updated];
      }
      if hodIds != HeadStrings(heads, d) {
        var ids := Text.ParseIdList(hodIds);
        var ok := AssignHods(d, ids.value);
        code := if ok then OK else BAD_REQUEST;
      }
    }
  }

  /** A successful add leaves the new department headed by exactly the posted ids. */
  lemma AddedHeadsSpec(heads: seq<HeadRow>, d: int, ids: seq<int>, u: int)
    requires forall k :: 0 <= k < |heads| ==> heads[k].departmentId != d
    ensures u in HeadsOf(heads + HeadRowsFor(d, ids), d) <==> u in ids
  {
    var r := heads + HeadRowsFor(d, ids);
    if u in ids {
      var k :| 0 <= k < |ids| && ids[k] == u;
      assert r[|heads| + k] == HeadRow(d, u);
    }
    if HeadRow(d, u) in r {
      var k :| 0 <= k < |r| && r[k] == HeadRow(d, u);
      assert k >= |heads| ==> ids[k - |heads|] == u;
    }
  }
}
