/**
 * The files of a collaboration group.  A `file` row belongs to one group and
 * is placed in a folder through `filefolder` link rows; the folders
 * themselves are shared by every group.  The handlers upload (replacing a
 * file of the same name in the folder), rename, move and delete files, list
 * a folder page by page, and drop all files of a group when it is deleted.
 * The bytes live in a separate file service; only the rows are modelled.
 */
module CollabFiles {
  import opened Wrappers
  import opened Collabs
  import Text

  /** A row of `file`; `updatedAt` is in Unix seconds. */
  datatype File = File(name: string, size: string, updatedAt: int, userId: int, collabId: int, path: string)

  /** What the file service answers for one stored upload. */
  datatype Stored = Stored(name: string, size: string, path: string)

  /** The file rows, the (folder id, file id) rows of `filefolder`, and the next file id. */
  datatype FileTables = FileTables(files: map<int, File>, links: set<(int, int)>, nextFileId: int)

  /** Ids are positive and below the next one, and every link names a file. */
  predicate TablesValid(t: FileTables) {
    0 < t.nextFileId
    && (forall id :: id in t.files ==> 0 < id < t.nextFileId)
    && (forall p :: p in t.links ==> p.1 in t.files)
  }

  /** The files of a group in a folder under a name: the join query the handlers run. */
  function NamedInFolder(t: FileTables, folderId: int, collabId: int, name: string): set<int> {
    set id | id in t.files && (folderId, id) in t.links && t.files[id].collabId == collabId && t.files[id].name == name
  }

  predicate NameTaken(t: FileTables, folderId: int, collabId: int, name: string) {
    exists id :: id in NamedInFolder(t, folderId, collabId, name)
  }

  /** No folder holds two files of the same group under the same name. */
  predicate UniqueNames(t: FileTables) {
    forall p, q :: p in t.links && q in t.links && p.0 == q.0 && p.1 != q.1
      && p.1 in t.files && q.1 in t.files && t.files[p.1].collabId == t.files[q.1].collabId
      ==> t.files[p.1].name != t.files[q.1].name
  }

  // ---------------------------------------------------------------- upload

  /**
   * One stored upload: a file of the group already in the folder under that
   * name (the first by id) gets the new path, time and user; otherwise a new
   * file row and its folder link are created.
   */
  ghost function Uploaded(t: FileTables, folderId: int, collabId: int, userId: int, now: int, f: Stored): FileTables {
    var found := NamedInFolder(t, folderId, collabId, f.name);
    if exists id :: id in found then
      var id := Least(found);
      t.(files := t.files[id := t.files[id].(path := f.path, updatedAt := now, userId := userId)])
    else
      t.(files := t.files[t.nextFileId := File(f.name, f.size, now, userId, collabId, f.path)],
         links := t.links + {(folderId, t.nextFileId)},
         nextFileId := t.nextFileId + 1)
  }

  /** The uploads in the order the file service answered them. */
  ghost function UploadedAll(t: FileTables, folderId: int, collabId: int, userId: int, now: int, fs: seq<Stored>): FileTables
    decreases |fs|
  {
    if fs == [] then t
    else Uploaded(UploadedAll(t, folderId, collabId, userId, now, fs[..|fs| - 1]), folderId, collabId, userId, now, fs[|fs| - 1])
  }

  /**
   * An upload either rewrites one existing row of the folder in place (no
   * new row, no new link) or adds exactly one file and one link; afterwards
   * the name is present in the folder.
   */
  lemma UploadedEffect(t: FileTables, folderId: int, collabId: int, userId: int, now: int, f: Stored)
    requires TablesValid(t)
    ensures var r := Uploaded(t, folderId, collabId, userId, now, f);
      TablesValid(r) && NameTaken(r, folderId, collabId, f.name)
      && (NameTaken(t, folderId, collabId, f.name) ==>
            r.links == t.links && r.files.Keys == t.files.Keys && r.nextFileId == t.nextFileId)
      && (!NameTaken(t, folderId, collabId, f.name) ==>
            r.links == t.links + {(folderId, t.nextFileId)} && t.nextFileId !in t.files
            && r.files == t.files[t.nextFileId := File(f.name, f.size, now, userId, collabId, f.path)])
  {
    var r := Uploaded(t, folderId, collabId, userId, now, f);
    var found := NamedInFolder(t, folderId, collabId, f.name);
    if exists id :: id in found {
      var id := Least(found);
      assert id in NamedInFolder(r, folderId, collabId, f.name);
    } else {
      assert t.nextFileId in NamedInFolder(r, folderId, collabId, f.name);
    }
  }

  /** An upload keeps every name that was already present in any folder. */
  lemma UploadedKeepsNames(t: FileTables, folderId: int, collabId: int, userId: int, now: int, f: Stored,
                           folder: int, collab: int, name: string)
    requires TablesValid(t) && NameTaken(t, folder, collab, name)
    ensures NameTaken(Uploaded(t, folderId, collabId, userId, now, f), folder, collab, name)
  {
    var r := Uploaded(t, folderId, collabId, userId, now, f);
    var id :| id in NamedInFolder(t, folder, collab, name);
    assert id in NamedInFolder(r, folder, collab, name);
  }

  /** An upload never puts a second file of the same name in a folder. */
  lemma UploadedKeepsUnique(t: FileTables, folderId: int, collabId: int, userId: int, now: int, f: Stored)
    requires TablesValid(t) && UniqueNames(t)
    ensures UniqueNames(Uploaded(t, folderId, collabId, userId, now, f))
  {
    var r := Uploaded(t, folderId, collabId, userId, now, f);
    var found := NamedInFolder(t, folderId, collabId, f.name);
    if !exists id :: id in found {
      var n := t.nextFileId;
      forall p, q | p in r.links && q in r.links && p.0 == q.0 && p.1 != q.1
        && p.1 in r.files && q.1 in r.files && r.files[p.1].collabId == r.files[q.1].collabId
        ensures r.files[p.1].name != r.files[q.1].name
      {
        if p.1 == n {
          assert q.1 !in found;
        } else if q.1 == n {
          assert p.1 !in found;
        }
      }
    }
  }

  /** After a whole upload every uploaded name is in the folder, and no name is there twice. */
  lemma {:induction false} UploadedAllSpec(t: FileTables, folderId: int, collabId: int, userId: int, now: int, fs: seq<Stored>)
    requires TablesValid(t) && UniqueNames(t)
    ensures var r := UploadedAll(t, folderId, collabId, userId, now, fs);
      TablesValid(r) && UniqueNames(r)
      && forall k :: 0 <= k < |fs| ==> NameTaken(r, folderId, collabId, fs[k].name)
    decreases |fs|
  {
    if fs != [] {
      var init := fs[..|fs| - 1];
      var last := fs[|fs| - 1];
      var s := UploadedAll(t, folderId, collabId, userId, now, init);
      UploadedAllSpec(t, folderId, collabId, userId, now, init);
      UploadedEffect(s, folderId, collabId, userId, now, last);
      UploadedKeepsUnique(s, folderId, collabId, userId, now, last);
      forall k | 0 <= k < |fs|
        ensures NameTaken(UploadedAll(t, folderId, collabId, userId, now, fs), folderId, collabId, fs[k].name)
      {
        if k < |fs| - 1 {
          assert fs[k] == init[k];
          UploadedKeepsNames(s, folderId, collabId, userId, now, last, folderId, collabId, fs[k].name);
        }
      }
    }
  }

  /** The checks of `HandleUploadFilesToCollab`, in its order. */
  function UploadCheck(folders: map<int, string>, requestFiles: nat, folderParam: string, collabParam: string,
                       stored: Option<seq<Stored>>): (code: int)
    ensures code == OK || code == BAD_REQUEST || code == INTERNAL_ERROR
    ensures code == BAD_REQUEST <==>
      requestFiles == 0 || Text.Atoi(folderParam).None? || Text.Atoi(folderParam).value !in folders
      || Text.Atoi(collabParam).None?
    ensures code == OK <==>
      requestFiles > 0 && Text.Atoi(folderParam).Some? && Text.Atoi(folderParam).value in folders
      && Text.Atoi(collabParam).Some? && stored.Some? && stored.value != []
  {
    if requestFiles == 0 || Text.Atoi(folderParam).None? || Text.Atoi(folderParam).value !in folders
       || Text.Atoi(collabParam).None? then BAD_REQUEST
    else if stored.None? || stored.value == [] then INTERNAL_ERROR
    else OK
  }

  // ---------------------------------------------------------------- rename and move

  /** `strings.ReplaceAll(s, " ", "-")`. */
  function Hyphenated(s: string): (r: string)
    ensures |r| == |s|
    ensures forall i :: 0 <= i < |s| ==> r[i] == (if s[i] == ' ' then '-' else s[i])
  {
    if s == [] then [] else [if s[0] == ' ' then '-' else s[0]] + Hyphenated(s[1..])
  }

  /** Replacing spaces twice is replacing them once. */
  lemma HyphenatedIdempotent(s: string)
    ensures Hyphenated(Hyphenated(s)) == Hyphenated(s)
  {
  }

  /**
   * The checks of `HandleHandleRenameFile` that look at the rows, once the
   * ids parse and the folder exists: the file must exist (500), belong to
   * the group (400), get a different name (400), and `probe` must not be the
   * name of a file of the group in the folder (400).
   */
  function RenameVerdict(t: FileTables, fileId: int, collabId: int, folderId: int, newName: string, probe: string): (code: int)
    ensures code == OK || code == BAD_REQUEST || code == INTERNAL_ERROR
    ensures code == INTERNAL_ERROR <==> fileId !in t.files
    ensures code == OK <==>
      fileId in t.files && t.files[fileId].collabId == collabId && t.files[fileId].name != newName
      && !NameTaken(t, folderId, collabId, probe)
  {
    if fileId !in t.files then INTERNAL_ERROR
    else if t.files[fileId].collabId != collabId then BAD_REQUEST
    else if t.files[fileId].name == newName then BAD_REQUEST
    else if NameTaken(t, folderId, collabId, probe) then BAD_REQUEST
    else OK
  }

  /** The rows after a rename: the stored name has its spaces replaced. */
  function Renamed(t: FileTables, fileId: int, newName: string, now: int): FileTables
    requires fileId in t.files
  {
    t.(files := t.files[fileId := t.files[fileId].(name := Hyphenated(newName), updatedAt := now)])
  }

  /**
   * As written, the uniqueness check looks for the requested name, but the
   * stored name has its spaces replaced: renaming a file to "a b" in a
   * folder holding "a-b" passes the check and leaves two files "a-b".
   */
  lemma RenameAsWrittenDuplicates()
    ensures var t := FileTables(map[1 := File("a-b", "", 0, 1, 7, ""), 2 := File("c", "", 0, 1, 7, "")], {(3, 1), (3, 2)}, 3);
      TablesValid(t) && UniqueNames(t)
      && RenameVerdict(t, 2, 7, 3, "a b", "a b") == OK
      && !UniqueNames(Renamed(t, 2, "a b", 0))
  {
    var t := FileTables(map[1 := File("a-b", "", 0, 1, 7, ""), 2 := File("c", "", 0, 1, 7, "")], {(3, 1), (3, 2)}, 3);
    assert "a-b" != "c";
    assert !NameTaken(t, 3, 7, "a b") by {
      assert "a-b" != "a b" && "c" != "a b";
    }
    var r := Renamed(t, 2, "a b", 0);
    assert Hyphenated("a b") == "a-b";
    assert r.files[1].name == r.files[2].name;
  }

  /**
   * With the stored name as the probe, renaming a file that sits only in the
   * requested folder keeps the names of every folder unique.
   */
  lemma RenameKeepsUnique(t: FileTables, fileId: int, collabId: int, folderId: int, newName: string, now: int)
    requires TablesValid(t) && UniqueNames(t)
    requires RenameVerdict(t, fileId, collabId, folderId, newName, Hyphenated(newName)) == OK
    requires forall p :: p in t.links && p.1 == fileId ==> p.0 == folderId
    ensures UniqueNames(Renamed(t, fileId, newName, now))
  {
    var r := Renamed(t, fileId, newName, now);
    forall p, q | p in r.links && q in r.links && p.0 == q.0 && p.1 != q.1
      && p.1 in r.files && q.1 in r.files && r.files[p.1].collabId == r.files[q.1].collabId
      ensures r.files[p.1].name != r.files[q.1].name
    {
      if p.1 == fileId {
        assert q.1 !in NamedInFolder(t, folderId, collabId, Hyphenated(newName));
      } else if q.1 == fileId {
        assert p.1 !in NamedInFolder(t, folderId, collabId, Hyphenated(newName));
      }
    }
  }

  /** The route part shared by rename and move: ids parse and the folder exists (otherwise 400). */
  predicate FolderRouteOk(folders: map<int, string>, fileParam: string, collabParam: string, folderParam: string) {
    Text.Atoi(fileParam).Some? && Text.Atoi(collabParam).Some? && Text.Atoi(folderParam).Some?
    && Text.Atoi(folderParam).value in folders
  }

  /**
   * All checks of `HandleHandleRenameFile`.  As written the uniqueness probe
   * is the requested name (`hyphenateFirst` false); the corrected handler
   * probes the name it will store.
   */
  function RenameCheck(folders: map<int, string>, t: FileTables, fileParam: string, newName: string,
                       collabParam: string, folderParam: string, hyphenateFirst: bool): (code: int)
    ensures code == OK || code == BAD_REQUEST || code == INTERNAL_ERROR
    ensures code == OK ==> FolderRouteOk(folders, fileParam, collabParam, folderParam) && newName != []
    ensures FolderRouteOk(folders, fileParam, collabParam, folderParam) && newName != [] ==>
      code == RenameVerdict(t, Text.Atoi(fileParam).value, Text.Atoi(collabParam).value, Text.Atoi(folderParam).value,
                            newName, if hyphenateFirst then Hyphenated(newName) else newName)
  {
    if !FolderRouteOk(folders, fileParam, collabParam, folderParam) || newName == [] then BAD_REQUEST
    else RenameVerdict(t, Text.Atoi(fileParam).value, Text.Atoi(collabParam).value, Text.Atoi(folderParam).value,
                       newName, if hyphenateFirst then Hyphenated(newName) else newName)
  }

  /** The links after a move: every link of the file now points at the target folder. */
  function Moved(links: set<(int, int)>, fileId: int, folderId: int): set<(int, int)> {
    set p | p in links :: if p.1 == fileId then (folderId, fileId) else p
  }

  /**
   * The checks of `HandleMoveFile` on the rows: the file exists (500),
   * belongs to the group (400), is not in the target already (400), and no
   * file of the group has its name in the target (400).
   */
  function MoveVerdict(t: FileTables, fileId: int, collabId: int, folderId: int): (code: int)
    ensures code == OK || code == BAD_REQUEST || code == INTERNAL_ERROR
    ensures code == INTERNAL_ERROR <==> fileId !in t.files
    ensures code == OK <==>
      fileId in t.files && t.files[fileId].collabId == collabId && (folderId, fileId) !in t.links
      && !NameTaken(t, folderId, collabId, t.files[fileId].name)
  {
    if fileId !in t.files then INTERNAL_ERROR
    else if t.files[fileId].collabId != collabId then BAD_REQUEST
    else if (folderId, fileId) in t.links then BAD_REQUEST
    else if NameTaken(t, folderId, collabId, t.files[fileId].name) then BAD_REQUEST
    else OK
  }

  function MoveCheck(folders: map<int, string>, t: FileTables, fileParam: string, collabParam: string,
                     folderParam: string): (code: int)
    ensures code == OK || code == BAD_REQUEST || code == INTERNAL_ERROR
    ensures code == OK ==> FolderRouteOk(folders, fileParam, collabParam, folderParam)
    ensures FolderRouteOk(folders, fileParam, collabParam, folderParam) ==>
      code == MoveVerdict(t, Text.Atoi(fileParam).value, Text.Atoi(collabParam).value, Text.Atoi(folderParam).value)
  {
    if !FolderRouteOk(folders, fileParam, collabParam, folderParam) then BAD_REQUEST
    else MoveVerdict(t, Text.Atoi(fileParam).value, Text.Atoi(collabParam).value, Text.Atoi(folderParam).value)
  }

  /** A permitted move puts the file in the target folder and nowhere else, and keeps the names unique. */
  lemma MoveKeepsUnique(t: FileTables, fileId: int, collabId: int, folderId: int)
    requires TablesValid(t) && UniqueNames(t)
    requires MoveVerdict(t, fileId, collabId, folderId) == OK
    ensures var links' := Moved(t.links, fileId, folderId);
      UniqueNames(t.(links := links'))
      && (forall p :: p in links' && p.1 == fileId ==> p.0 == folderId)
      && (forall p :: p in t.links && p.1 != fileId ==> p in links')
  {
    var links' := Moved(t.links, fileId, folderId);
    var r := t.(links := links');
    var name := t.files[fileId].name;
    forall p | p in t.links && p.1 != fileId
      ensures p in links'
    {
      assert p == (if p.1 == fileId then (folderId, fileId) else p);
    }
    forall p, q | p in r.links && q in r.links && p.0 == q.0 && p.1 != q.1
      && p.1 in r.files && q.1 in r.files && r.files[p.1].collabId == r.files[q.1].collabId
      ensures r.files[p.1].name != r.files[q.1].name
    {
      var p0 :| p0 in t.links && p == (if p0.1 == fileId then (folderId, fileId) else p0);
      var q0 :| q0 in t.links && q == (if q0.1 == fileId then (folderId, fileId) else q0);
      if p.1 == fileId {
        assert q == q0 && q.1 !in NamedInFolder(t, folderId, collabId, name);
      } else if q.1 == fileId {
        assert p == p0 && p.1 !in NamedInFolder(t, folderId, collabId, name);
      } else {
        assert p == p0 && q == q0;
      }
    }
  }

  // ---------------------------------------------------------------- delete

  /** The checks of `HandleDeleteCollabFile`: ids parse (400), the file exists (500) and belongs to the group (400). */
  function DeleteCheck(files: map<int, File>, fileParam: string, collabParam: string): (code: int)
    ensures code == OK || code == BAD_REQUEST || code == INTERNAL_ERROR
    ensures code == INTERNAL_ERROR <==>
      Text.Atoi(fileParam).Some? && Text.Atoi(collabParam).Some? && Text.Atoi(fileParam).value !in files
    ensures code == OK <==>
      Text.Atoi(fileParam).Some? && Text.Atoi(collabParam).Some? && Text.Atoi(fileParam).value in files
      && files[Text.Atoi(fileParam).value].collabId == Text.Atoi(collabParam).value
  {
    match (Text.Atoi(fileParam), Text.Atoi(collabParam))
    case (Some(f), Some(c)) =>
      if f !in files then INTERNAL_ERROR else if files[f].collabId != c then BAD_REQUEST else OK
    case _ => BAD_REQUEST
  }

  /** The rows without some files and their folder links. */
  function WithoutFiles(t: FileTables, ids: set<int>): (r: FileTables)
    ensures r.files.Keys == t.files.Keys - ids
    ensures forall p :: p in r.links <==> p in t.links && p.1 !in ids
  {
    t.(files := map id | id in t.files && id !in ids :: t.files[id], links := set p | p in t.links && p.1 !in ids)
  }

  /** The ids of a group's files. */
  function FilesOf(files: map<int, File>, collabId: int): set<int> {
    set id | id in files && files[id].collabId == collabId
  }

  /** Deleting files keeps the rows valid and the names unique, and leaves no file of a deleted group. */
  lemma WithoutFilesSpec(t: FileTables, ids: set<int>, collabId: int)
    requires TablesValid(t) && UniqueNames(t)
    ensures var r := WithoutFiles(t, ids);
      TablesValid(r) && UniqueNames(r)
      && (forall id :: id in r.files ==> r.files[id] == t.files[id])
      && (ids == FilesOf(t.files, collabId) ==> FilesOf(r.files, collabId) == {})
  {
  }

  // ---------------------------------------------------------------- folder pages

  /** `strconv.Atoi` with its error dropped, after `DefaultQuery`: a missing parameter takes the default, a bad one is 0. */
  function QueryInt(param: Option<string>, default: int): int {
    match param
    case None => default
    case Some(s) => match Text.Atoi(s) case Some(v) => v case None => 0
  }

  /**
   * The window `getFolderAndFiles` asks for: `OFFSET (page - 1) * count`
   * (only a positive offset is sent) and `LIMIT count` (only a non-negative
   * one is sent), over the `total` matching rows.
   */
  function PageBounds(total: nat, page: int, count: int): (r: (nat, nat))
    ensures r.0 <= r.1 <= total
    ensures (page - 1) * count > 0 ==> r.0 == if (page - 1) * count < total then (page - 1) * count else total
    ensures (page - 1) * count <= 0 ==> r.0 == 0
    ensures count >= 0 ==> r.1 - r.0 == if total - r.0 < count then total - r.0 else count
    ensures count < 0 ==> r.1 == total
  {
    var offset := (page - 1) * count;
    var lo: nat := if offset <= 0 then 0 else if offset < total then offset else total;
    var hi: nat := if count < 0 || total - lo < count then total else lo + count;
    (lo, hi)
  }

  /** The files of one page, out of the folder's files in the order the database returns them. */
  function FolderPage(rows: seq<int>, page: int, count: int): seq<int> {
    var (lo, hi) := PageBounds(|rows|, page, count);
    rows[lo..hi]
  }

  /** Pages 1 to `n` of a positive size, read one after the other, are the first `n * count` rows. */
  lemma {:induction false} PagesCover(rows: seq<int>, count: int, n: nat)
    requires count > 0
    ensures var upto := if n * count < |rows| then n * count else |rows|;
      Pages(rows, count, n) == rows[..upto]
  {
    if n > 0 {
      PagesCover(rows, count, n - 1);
      var before := if (n - 1) * count < |rows| then (n - 1) * count else |rows|;
      var upto := if n * count < |rows| then n * count else |rows|;
      assert (n - 1) * count + count == n * count;
      assert FolderPage(rows, n, count) == rows[before..upto];
      assert rows[..before] + rows[before..upto] == rows[..upto];
    }
  }

  /** Pages 1 to `n`, concatenated. */
  function Pages(rows: seq<int>, count: int, n: nat): seq<int> {
    if n == 0 then [] else Pages(rows, count, n - 1) + FolderPage(rows, n, count)
  }

  /** One folder as `HandleGetFileDetailsByFolderOfCollab` answers it: all matching files are counted, one page is listed. */
  datatype FolderDetails = FolderDetails(folderId: int, folderName: string, totalFiles: nat, files: seq<int>)

  /**
   * `HandleGetFileDetailsByFolderOfCollab`: the folder id parses and the
   * folder exists, the group id parses (400 each); a listed file whose user
   * is gone, or a missing group, answers 500.  `rows` are the group's files
   * in the folder in the order the database returns them.
   */
  function GetFileDetailsByFolder(
    folders: map<int, string>, collabs: map<int, Collab>, users: set<int>, t: FileTables, rows: seq<int>,
    pageParam: Option<string>, countParam: Option<string>, folderParam: string, collabParam: string)
    : (r: (int, Option<FolderDetails>))
    requires forall k :: 0 <= k < |rows| ==> rows[k] in t.files
    ensures r.0 == OK || r.0 == BAD_REQUEST || r.0 == INTERNAL_ERROR
    ensures r.1.Some? <==> r.0 == OK
    ensures r.0 == BAD_REQUEST <==>
      Text.Atoi(folderParam).None? || Text.Atoi(folderParam).value !in folders || Text.Atoi(collabParam).None?
    ensures r.0 == OK ==>
      var page := FolderPage(rows, QueryInt(pageParam, 1), QueryInt(countParam, 15));
      r.1.value == FolderDetails(Text.Atoi(folderParam).value, folders[Text.Atoi(folderParam).value], |rows|, page)
      && Text.Atoi(collabParam).value in collabs
      && forall k :: 0 <= k < |page| ==> t.files[page[k]].userId in users
  {
    if Text.Atoi(folderParam).None? || Text.Atoi(folderParam).value !in folders || Text.Atoi(collabParam).None? then
      (BAD_REQUEST, None)
    else
      var folderId := Text.Atoi(folderParam).value;
      var page := FolderPage(rows, QueryInt(pageParam, 1), QueryInt(countParam, 15));
      if exists k :: 0 <= k < |page| && t.files[page[k]].userId !in users then (INTERNAL_ERROR, None)
      else if Text.Atoi(collabParam).value !in collabs then (INTERNAL_ERROR, None)
      else (OK, Some(FolderDetails(folderId, folders[folderId], |rows|, page)))
  }

  // ---------------------------------------------------------------- the store

  class FileDb {
    var folders: map<int, string>
    var files: map<int, File>
    var links: set<(int, int)>
    var nextFileId: int

    ghost predicate Valid()
      reads this
    {
      TablesValid(Tables())
    }

    /** No files yet, over the seeded folders. */
    constructor (folders: map<int, string>)
      ensures Valid() && this.folders == folders
      ensures Tables() == FileTables(map[], {}, 1)
    {
      this.folders := folders;
      files, links, nextFileId := map[], {}, 1;
    }

    function Tables(): FileTables
      reads this
    {
      FileTables(files, links, nextFileId)
    }

    /** One pass of the loop of `HandleUploadFilesToCollab`. */
    method Upload(folderId: int, collabId: int, userId: int, now: int, f: Stored)
      requires Valid()
      modifies this`files, this`links, this`nextFileId
      ensures Valid()
      ensures Tables() == Uploaded(old(Tables()), folderId, collabId, userId, now, f)
    {
      var found := set id | id in files && (folderId, id) in links && files[id].collabId == collabId && files[id].name == f.name;
      assert found == NamedInFolder(Tables(), folderId, collabId, f.name);
      UploadedEffect(Tables(), folderId, collabId, userId, now, f);
      if exists id :: id in found {
        var id := LeastId(found);
        files := files[id := files[id].(path := f.path, updatedAt := now, userId := userId)];
      } else {
        files := files[nextFileId := File(f.name, f.size, now, userId, collabId, f.path)];
        links := links + {(folderId, nextFileId)};
        nextFileId := nextFileId + 1;
      }
    }

    /** `deleteAllCollabFiles`: each file of the group goes with its folder links. */
    method DeleteAllCollabFiles(collabId: int)
      requires Valid()
      modifies this`files, this`links
      ensures Valid()
      ensures Tables() == WithoutFiles(old(Tables()), FilesOf(old(files), collabId))
    {
      var ids := FilesOf(files, collabId);
      var pending := ids;
      while exists id :: id in pending
        invariant pending <= ids
        invariant Tables() == WithoutFiles(old(Tables()), ids - pending)
        decreases pending
      {
        var id :| id in pending;
        links := set p | p in links && p.1 != id;
        files := map k | k in files && k != id :: files[k];
        pending := pending - {id};
      }
      assert ids - pending == ids;
    }
  }

  /** `HandleUploadFilesToCollab`: after the checks, the stored uploads are applied one by one in one transaction. */
  method HandleUploadFilesToCollab(
    db: FileDb, requestFiles: nat, folderParam: string, collabParam: string, userId: int,
    stored: Option<seq<Stored>>, now: int) returns (code: int)
    requires db.Valid()
    modifies db`files, db`links, db`nextFileId
    ensures db.Valid()
    ensures code == UploadCheck(db.folders, requestFiles, folderParam, collabParam, stored)
    ensures code == OK ==>
      db.Tables() == UploadedAll(old(db.Tables()), Text.Atoi(folderParam).value, Text.Atoi(collabParam).value,
                                 userId, now, stored.value)
    ensures code != OK ==> db.Tables() == old(db.Tables())
  {
    code := UploadCheck(db.folders, requestFiles, folderParam, collabParam, stored);
    if code != OK {
      return;
    }
    var folderId, collabId, fs := Text.Atoi(folderParam).value, Text.Atoi(collabParam).value, stored.value;
    var i := 0;
    while i < |fs|
      invariant 0 <= i <= |fs|
      invariant db.Valid()
      invariant db.Tables() == UploadedAll(old(db.Tables()), folderId, collabId, userId, now, fs[..i])
    {
      assert fs[..i + 1][..i] == fs[..i];
      db.Upload(folderId, collabId, userId, now, fs[i]);
      i := i + 1;
    }
    assert fs[..i] == fs;
  }

  /**
   * `HandleHandleRenameFile` as written: the name probed for uniqueness is
   * the requested one, the name stored has its spaces replaced.
   */
  method HandleRenameFileAsWritten(
    db: FileDb, fileParam: string, newName: string, collabParam: string, folderParam: string, now: int)
    returns (code: int)
    requires db.Valid()
    modifies db`files
    ensures db.Valid()
    ensures code == RenameCheck(db.folders, old(db.Tables()), fileParam, newName, collabParam, folderParam, false)
    ensures code == OK ==> db.Tables() == Renamed(old(db.Tables()), Text.Atoi(fileParam).value, newName, now)
    ensures code != OK ==> db.files == old(db.files)
  {
    code := RenameCheck(db.folders, db.Tables(), fileParam, newName, collabParam, folderParam, false);
    if code == OK {
      var f := Text.Atoi(fileParam).value;
      db.files := db.files[f := db.files[f].(name := Hyphenated(newName), updatedAt := now)];
    }
  }

  /** `HandleHandleRenameFile` with the stored name probed for uniqueness. */
  method HandleRenameFile(
    db: FileDb, fileParam: string, newName: string, collabParam: string, folderParam: string, now: int)
    returns (code: int)
    requires db.Valid()
    modifies db`files
    ensures db.Valid()
    ensures code == RenameCheck(db.folders, old(db.Tables()), fileParam, newName, collabParam, folderParam, true)
    ensures code == OK ==> db.Tables() == Renamed(old(db.Tables()), Text.Atoi(fileParam).value, newName, now)
    ensures code != OK ==> db.files == old(db.files)
  {
    code := RenameCheck(db.folders, db.Tables(), fileParam, newName, collabParam, folderParam, true);
    if code == OK {
      var f := Text.Atoi(fileParam).value;
      db.files := db.files[f := db.files[f].(name := Hyphenated(newName), updatedAt := now)];
    }
  }

  /** `HandleMoveFile`: the file's time is touched and its folder links are pointed at the target. */
  method HandleMoveFile(db: FileDb, fileParam: string, collabParam: string, folderParam: string, now: int)
    returns (code: int)
    requires db.Valid()
    modifies db`files, db`links
    ensures db.Valid()
    ensures code == MoveCheck(db.folders, old(db.Tables()), fileParam, collabParam, folderParam)
    ensures code == OK ==>
      var f := Text.Atoi(fileParam).value;
      db.files == old(db.files)[f := old(db.files)[f].(updatedAt := now)]
      && db.links == Moved(old(db.links), f, Text.Atoi(folderParam).value)
    ensures code != OK ==> db.Tables() == old(db.Tables())
  {
    code := MoveCheck(db.folders, db.Tables(), fileParam, collabParam, folderParam);
    if code == OK {
      var f, folderId := Text.Atoi(fileParam).value, Text.Atoi(folderParam).value;
      db.files := db.files[f := db.files[f].(updatedAt := now)];
      db.links := Moved(db.links, f, folderId);
    }
  }

  /** `HandleDeleteCollabFile`: the file row and its folder links go. */
  method HandleDeleteCollabFile(db: FileDb, fileParam: string, collabParam: string) returns (code: int)
    requires db.Valid()
    modifies db`files, db`links
    ensures db.Valid()
    ensures code == DeleteCheck(old(db.files), fileParam, collabParam)
    ensures code == OK ==> db.Tables() == WithoutFiles(old(db.Tables()), {Text.Atoi(fileParam).value})
    ensures code != OK ==> db.Tables() == old(db.Tables())
  {
    code := DeleteCheck(db.files, fileParam, collabParam);
    if code == OK {
      var f := Text.Atoi(fileParam).value;
      db.links := set p | p in db.links && p.1 != f;
      db.files := map k | k in db.files && k != f :: db.files[k];
    }
  }
}
