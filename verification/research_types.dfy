/**
 * The research types an administrator maintains: adding one, updating its
 * name and status, and listing them page by page.  Type names are unique
 * ignoring case; the listing shows active types first, each group by name.
 */
module ResearchTypes {
  import opened Wrappers
  import Text
  import CollabFiles

  /** A row of `research_type`; a new type is active (the column defaults to true). */
  datatype ResearchType = ResearchType(name: string, status: bool)

  /** Another type than `except` already has the name, ignoring case. */
  predicate NameTaken(types: map<int, ResearchType>, name: string, except: Option<int>) {
    exists id :: id in types && Some(id) != except && Text.ToLower(types[id].name) == Text.ToLower(name)
  }

  /** No two types share a name ignoring case. */
  predicate UniqueNames(types: map<int, ResearchType>) {
    forall a, b :: a in types && b in types && a != b ==> Text.ToLower(types[a].name) != Text.ToLower(types[b].name)
  }

  /** Why `HandleAddResearchType` refuses a name, or OK. */
  function AddVerdict(types: map<int, ResearchType>, name: string): (code: int)
    ensures code == OK || code == BAD_REQUEST
    ensures code == OK <==> name != "" && forall id :: id in types ==> !Text.SameFold(types[id].name, name)
  {
    if name == "" then BAD_REQUEST
    else if NameTaken(types, name, None) then BAD_REQUEST
    else OK
  }

  /**
   * The id `HandleUpdateResearchType` looks up: the parameter must be
   * present, but a value that does not parse is read as 0.
   */
  function TypeIdParam(idParam: string): Option<int> {
    if idParam == "" then None
    else match Text.Atoi(idParam) case Some(v) => Some(v) case None => Some(0)
  }

  /**
   * Why `HandleUpdateResearchType` refuses, or OK: the id is given and names
   * a type, the name and the status are given, and no other type has the
   * name ignoring case.
   */
  function UpdateVerdict(types: map<int, ResearchType>, idParam: string, name: string, statusParam: string): (code: int)
    ensures code == OK || code == BAD_REQUEST
    ensures code == OK <==>
      TypeIdParam(idParam).Some? && TypeIdParam(idParam).value in types && name != "" && statusParam != ""
      && forall id :: id in types && id != TypeIdParam(idParam).value ==> !Text.SameFold(types[id].name, name)
  {
    if TypeIdParam(idParam).None? || TypeIdParam(idParam).value !in types then BAD_REQUEST
    else if name == "" || statusParam == "" then BAD_REQUEST
    else if NameTaken(types, name, TypeIdParam(idParam)) then BAD_REQUEST
    else OK
  }

  /** The status an update writes: `strconv.ParseBool` with its error dropped, so anything else is false. */
  function StatusOf(statusParam: string): (b: bool)
    ensures b <==> Text.ParseBool(statusParam) == Some(true)
  {
    match Text.ParseBool(statusParam) case Some(v) => v case None => false
  }

  /** Adding an accepted name keeps names unique. */
  lemma AddKeepsUnique(types: map<int, ResearchType>, id: int, name: string)
    requires UniqueNames(types) && id !in types && AddVerdict(types, name) == OK
    ensures UniqueNames(types[id := ResearchType(name, true)])
  {
  }

  /** Renaming a type to an accepted name keeps names unique. */
  lemma UpdateKeepsUnique(types: map<int, ResearchType>, idParam: string, name: string, statusParam: string)
    requires UniqueNames(types) && UpdateVerdict(types, idParam, name, statusParam) == OK
    ensures UniqueNames(types[TypeIdParam(idParam).value := ResearchType(name, StatusOf(statusParam))])
  {
  }

  /** The table of research types. */
  class ResearchTypeDb {
    var types: map<int, ResearchType>
    var nextId: int

    constructor (types: map<int, ResearchType>, nextId: int)
      ensures this.types == types && this.nextId == nextId
    {
      this.types := types;
      this.nextId := nextId;
    }

    /** `HandleAddResearchType`: the type is stored under the next id, active. */
    method HandleAddResearchType(name: string) returns (code: int, id: Option<int>)
      modifies this`types, this`nextId
      ensures code == AddVerdict(old(types), name)
      ensures code == OK ==> id == Some(old(nextId)) && nextId == old(nextId) + 1
      ensures code == OK ==> types == old(types)[old(nextId) := ResearchType(name, true)]
      ensures code != OK ==> id.None? && types == old(types) && nextId == old(nextId)
    {
      code := AddVerdict(types, name);
      if code != OK {
        return code, None;
      }
      id := Some(nextId);
      types := types[nextId := ResearchType(name, true)];
      nextId := nextId + 1;
    }

    /** `HandleUpdateResearchType`: exactly the name and the status of that type change. */
    method HandleUpdateResearchType(idParam: string, name: string, statusParam: string) returns (code: int)
      modifies this`types
      ensures code == UpdateVerdict(old(types), idParam, name, statusParam)
      ensures code == OK ==> types == old(types)[TypeIdParam(idParam).value := ResearchType(name, StatusOf(statusParam))]
      ensures code != OK ==> types == old(types)
    {
      code := UpdateVerdict(types, idParam, name, statusParam);
      if code == OK {
        types := types[TypeIdParam(idParam).value := ResearchType(name, StatusOf(statusParam))];
      }
    }
  }

  // ---------------------------------------------------------------- listing

  /** The listing's sort key: active before inactive, then by name. */
  predicate ListedBefore(a: ResearchType, b: ResearchType) {
    (a.status && !b.status) || (a.status == b.status && Text.LexLeq(a.name, b.name))
  }

  /** The type's name, lower-cased, contains the lower-cased search term. */
  predicate Matches(t: ResearchType, search: string) {
    Text.Contains(Text.ToLower(t.name), Text.ToLower(search))
  }

  /**
   * The rows the filtered, ordered query returns before paging: every
   * matching type exactly once, in listing order.
   */
  ghost predicate ListingOrder(types: map<int, ResearchType>, search: string, order: seq<int>) {
    (forall i :: 0 <= i < |order| ==> order[i] in types && Matches(types[order[i]], search))
    && (forall i, j :: 0 <= i < j < |order| ==> order[i] != order[j] && ListedBefore(types[order[i]], types[order[j]]))
    && (forall id :: id in types && Matches(types[id], search) ==> id in order)
  }

  /** A listed type. */
  datatype TypeRow = TypeRow(id: int, name: string, status: bool)

  /**
   * `HandleGetResearchTypeList`: one page (`page` default 1, `count`
   * default 10) of the matching types in listing order; `totalType` counts
   * every type, the search term aside.
   */
  method HandleGetResearchTypeList(types: map<int, ResearchType>, pageParam: Option<string>,
                                   countParam: Option<string>, search: string, order: seq<int>)
    returns (list: seq<TypeRow>, totalResult: nat, totalType: nat)
    requires ListingOrder(types, search, order)
    ensures var (lo, hi) := CollabFiles.PageBounds(|order|, CollabFiles.QueryInt(pageParam, 1),
                                                   CollabFiles.QueryInt(countParam, 10));
      |list| == hi - lo
      && forall k :: 0 <= k < |list| ==> list[k].id == order[lo + k]
    ensures forall k :: 0 <= k < |list| ==>
      list[k].id in types && types[list[k].id] == ResearchType(list[k].name, list[k].status)
      && Matches(types[list[k].id], search)
    ensures forall i, j :: 0 <= i < j < |list| ==>
      list[i].id != list[j].id && ListedBefore(types[list[i].id], types[list[j].id])
    ensures totalResult == |list| && totalType == |types|
  {
    var (lo, hi) := CollabFiles.PageBounds(|order|, CollabFiles.QueryInt(pageParam, 1),
                                           CollabFiles.QueryInt(countParam, 10));
    list := [];
    var k := lo;
    while k < hi
      invariant lo <= k <= hi && |list| == k - lo
      invariant forall m :: 0 <= m < |list| ==>
        list[m].id == order[lo + m] && types[list[m].id] == ResearchType(list[m].name, list[m].status)
    {
      var t := types[order[k]];
      list := list + [TypeRow(order[k], t.name, t.status)];
      k := k + 1;
    }
    totalResult := |list|;
    totalType := |types|;
  }

  /** In a listing, no inactive type comes before an active one. */
  lemma ActiveFirst(types: map<int, ResearchType>, search: string, order: seq<int>, i: int, j: int)
    requires ListingOrder(types, search, order) && 0 <= i < j < |order|
    requires types[order[j]].status
    ensures types[order[i]].status
  {
  }

  /** An empty search lists every type. */
  lemma EmptySearchListsAll(types: map<int, ResearchType>, order: seq<int>, id: int)
    requires ListingOrder(types, "", order) && id in types
    ensures id in order
  {
    assert Text.OccursAt(Text.ToLower(types[id].name), Text.ToLower(""), 0);
  }
}
