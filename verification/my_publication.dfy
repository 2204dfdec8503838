/**
 * A researcher's own papers: the published, awaiting and rejected lists,
 * the previews of an awaiting or a rejected paper, and the resubmission of
 * a rejected paper, which puts it back in the awaiting state, replaces its
 * texts and its department links, and tells the heads of the departments.
 */
module MyPublication {
  import opened Wrappers
  import Text
  import Departments
  import opened Papers
  import opened UploadPaper

  // ---------------------------------------------------------------- the lists

  /** The user's papers whose lower-cased status is `status`. */
  ghost predicate OwnWithStatus(papers: map<int, Paper>, userId: int, status: string, id: int) {
    id in papers && papers[id].userId == userId && HasStatus(papers[id], status)
  }

  /** What one list query answers: each matching paper exactly once. */
  ghost predicate StatusQuery(papers: map<int, Paper>, userId: int, status: string, ids: seq<int>) {
    (forall i, j :: 0 <= i < j < |ids| ==> ids[i] != ids[j])
    && (forall i :: 0 <= i < |ids| ==> OwnWithStatus(papers, userId, status, ids[i]))
    && (forall id :: OwnWithStatus(papers, userId, status, id) ==> id in ids)
  }

  /** The published list is ordered by `published_at`, newest first. */
  ghost predicate NewestFirst(papers: map<int, Paper>, ids: seq<int>)
    requires forall i :: 0 <= i < |ids| ==> ids[i] in papers
  {
    forall i, j :: 0 <= i < j < |ids| ==> papers[ids[i]].publishedAt >= papers[ids[j]].publishedAt
  }

  /** An awaiting or rejected entry of the list: id, title and public id. */
  datatype ApprovalRow = ApprovalRow(id: int, title: string, publicId: string)

  /** Looks up the title and the public id of each listed paper. */
  method ApprovalRows(papers: map<int, Paper>, ids: seq<int>) returns (rows: seq<ApprovalRow>)
    requires forall i :: 0 <= i < |ids| ==> ids[i] in papers
    ensures |rows| == |ids|
    ensures forall k :: 0 <= k < |ids| ==>
      rows[k] == ApprovalRow(ids[k], papers[ids[k]].title, papers[ids[k]].publicId)
  {
    rows := [];
    var i := 0;
    while i < |ids|
      invariant 0 <= i <= |ids| && |rows| == i
      invariant forall k :: 0 <= k < i ==> rows[k] == ApprovalRow(ids[k], papers[ids[k]].title, papers[ids[k]].publicId)
    {
      var p := papers[ids[i]];
      rows := rows + [ApprovalRow(ids[i], p.title, p.publicId)];
      i := i + 1;
    }
  }

  /**
   * `HandleDisplayMyPublishedResearchPapers`: the three queries' answers,
   * the awaiting and rejected ones with their titles and public ids.  The
   * published papers' details come from a join that is not modelled; their
   * ids are returned in query order.
   */
  method HandleDisplayMyPublishedResearchPapers(papers: map<int, Paper>, userId: int,
                                                published: seq<int>, awaiting: seq<int>, rejected: seq<int>)
    returns (publishedIds: seq<int>, awaitingRows: seq<ApprovalRow>, rejectedRows: seq<ApprovalRow>)
    requires StatusQuery(papers, userId, PUBLISHED, published) && NewestFirst(papers, published)
    requires StatusQuery(papers, userId, AWAITING, awaiting) && StatusQuery(papers, userId, REJECTED, rejected)
    ensures publishedIds == published
    ensures |awaitingRows| == |awaiting| && |rejectedRows| == |rejected|
    ensures forall k :: 0 <= k < |awaitingRows| ==>
      OwnWithStatus(papers, userId, AWAITING, awaitingRows[k].id) && awaitingRows[k].title == papers[awaitingRows[k].id].title
    ensures forall k :: 0 <= k < |rejectedRows| ==>
      OwnWithStatus(papers, userId, REJECTED, rejectedRows[k].id) && rejectedRows[k].title == papers[rejectedRows[k].id].title
    ensures forall id :: OwnWithStatus(papers, userId, AWAITING, id) ==> exists k :: 0 <= k < |awaitingRows| && awaitingRows[k].id == id
    ensures forall id :: OwnWithStatus(papers, userId, REJECTED, id) ==> exists k :: 0 <= k < |rejectedRows| && rejectedRows[k].id == id
  {
    publishedIds := published;
    awaitingRows := ApprovalRows(papers, awaiting);
    rejectedRows := ApprovalRows(papers, rejected);
    forall id | OwnWithStatus(papers, userId, AWAITING, id)
      ensures exists k :: 0 <= k < |awaitingRows| && awaitingRows[k].id == id
    {
      var k :| 0 <= k < |awaiting| && awaiting[k] == id;
      assert awaitingRows[k].id == id;
    }
    forall id | OwnWithStatus(papers, userId, REJECTED, id)
      ensures exists k :: 0 <= k < |rejectedRows| && rejectedRows[k].id == id
    {
      var k :| 0 <= k < |rejected| && rejected[k] == id;
      assert rejectedRows[k].id == id;
    }
  }

  /**
   * The three lists partition the user's papers in those states: no paper is
   * in two lists, and an unpublished paper (or one in any other state) is in
   * none of them.
   */
  lemma StatusListsPartition(papers: map<int, Paper>, userId: int, published: seq<int>, awaiting: seq<int>,
                             rejected: seq<int>, id: int)
    requires StatusQuery(papers, userId, PUBLISHED, published)
    requires StatusQuery(papers, userId, AWAITING, awaiting) && StatusQuery(papers, userId, REJECTED, rejected)
    ensures !(id in published && id in awaiting) && !(id in published && id in rejected)
    ensures !(id in awaiting && id in rejected)
    ensures id in papers && papers[id].userId == userId ==>
      ((id in published || id in awaiting || id in rejected)
       <==> Text.ToLower(papers[id].status) in {PUBLISHED, AWAITING, REJECTED})
  {
    if id in published {
      var i :| 0 <= i < |published| && published[i] == id;
      assert OwnWithStatus(papers, userId, PUBLISHED, id);
    }
    if id in awaiting {
      var i :| 0 <= i < |awaiting| && awaiting[i] == id;
      assert OwnWithStatus(papers, userId, AWAITING, id);
    }
    if id in rejected {
      var i :| 0 <= i < |rejected| && rejected[i] == id;
      assert OwnWithStatus(papers, userId, REJECTED, id);
    }
  }

  // ---------------------------------------------------------------- previews

  /**
   * Why a preview of the caller's own paper is refused, or OK: the public id
   * is given, names a paper (`found`), the caller uploaded it, it has the
   * status the preview is for, and a full text is found for it under `how`.
   * A paper that is not found is a server error, as the lookup's error is
   * not told apart.
   */
  function PreviewVerdict(papers: map<int, Paper>, fulltexts: map<int, string>, publicId: string,
                          found: Option<int>, userId: int, status: string, how: TextLookup): (code: int)
    requires found.Some? ==> found.value in papers
    ensures code in {OK, BAD_REQUEST, FORBIDDEN, INTERNAL_ERROR}
    ensures code == OK <==>
      publicId != "" && found.Some? && papers[found.value].userId == userId
      && HasStatus(papers[found.value], status) && TextOf(papers, fulltexts, found.value, how).Some?
    ensures code == FORBIDDEN <==> publicId != "" && found.Some? && papers[found.value].userId != userId
  {
    if publicId == "" then BAD_REQUEST
    else if found.None? then INTERNAL_ERROR
    else if papers[found.value].userId != userId then FORBIDDEN
    else if !HasStatus(papers[found.value], status) then BAD_REQUEST
    else if TextOf(papers, fulltexts, found.value, how).None? then INTERNAL_ERROR
    else OK
  }

  /** The preview all four handlers share; `fullText` is the text found under `how`. */
  method PreviewOwnPaper(papers: map<int, Paper>, fulltexts: map<int, string>, publicId: string,
                         userId: int, status: string, how: TextLookup)
    returns (code: int, paperId: Option<int>, fullText: Option<string>)
    ensures code == PreviewVerdict(papers, fulltexts, publicId, PaperByPublicId(papers, publicId), userId, status, how)
    ensures code == OK ==> paperId == PaperByPublicId(papers, publicId)
    ensures code == OK ==> paperId.Some? && fullText == TextOf(papers, fulltexts, paperId.value, how) && fullText.Some?
    ensures code != OK ==> paperId.None? && fullText.None?
  {
    if publicId == "" {
      return BAD_REQUEST, None, None;
    }
    var found := FindByPublicId(papers, publicId);
    code := PreviewVerdict(papers, fulltexts, publicId, found, userId, status, how);
    if code != OK {
      return code, None, None;
    }
    paperId := found;
    fullText := TextOf(papers, fulltexts, found.value, how);
  }

  /** `HandlePreviewAwaitingPaper`: the caller's own awaiting paper and its own full text. */
  method HandlePreviewAwaitingPaper(papers: map<int, Paper>, fulltexts: map<int, string>, publicId: string, userId: int)
    returns (code: int, fullText: Option<string>)
    ensures code == PreviewVerdict(papers, fulltexts, publicId, PaperByPublicId(papers, publicId), userId, AWAITING, ByFulltextId)
    ensures code == OK ==> fullText == FulltextOf(papers, fulltexts, PaperByPublicId(papers, publicId).value)
    ensures code != OK ==> fullText.None?
  {
    var id;
    code, id, fullText := PreviewOwnPaper(papers, fulltexts, publicId, userId, AWAITING, ByFulltextId);
  }

  /** `HandlePreviewAwaitingPaper` as written: the text row whose id is the paper's id. */
  method HandlePreviewAwaitingPaperAsWritten(papers: map<int, Paper>, fulltexts: map<int, string>, publicId: string, userId: int)
    returns (code: int, fullText: Option<string>)
    ensures code == PreviewVerdict(papers, fulltexts, publicId, PaperByPublicId(papers, publicId), userId, AWAITING, ByPaperId)
    ensures code == OK ==> fullText == FulltextAsWritten(fulltexts, PaperByPublicId(papers, publicId).value)
    ensures code != OK ==> fullText.None?
  {
    var id;
    code, id, fullText := PreviewOwnPaper(papers, fulltexts, publicId, userId, AWAITING, ByPaperId);
  }

  /** `HandlePreviewRejectedPaper`: the caller's own rejected paper, its own full text and why it was rejected. */
  method HandlePreviewRejectedPaper(papers: map<int, Paper>, fulltexts: map<int, string>, publicId: string, userId: int)
    returns (code: int, fullText: Option<string>, reason: Option<string>)
    ensures code == PreviewVerdict(papers, fulltexts, publicId, PaperByPublicId(papers, publicId), userId, REJECTED, ByFulltextId)
    ensures code == OK ==> fullText == FulltextOf(papers, fulltexts, PaperByPublicId(papers, publicId).value)
    ensures code == OK ==> reason == Some(papers[PaperByPublicId(papers, publicId).value].rejectedReason)
    ensures code != OK ==> fullText.None? && reason.None?
  {
    var id;
    code, id, fullText := PreviewOwnPaper(papers, fulltexts, publicId, userId, REJECTED, ByFulltextId);
    reason := if code == OK then Some(papers[id.value].rejectedReason) else None;
  }

  /** `HandlePreviewRejectedPaper` as written: the text row whose id is the paper's id. */
  method HandlePreviewRejectedPaperAsWritten(papers: map<int, Paper>, fulltexts: map<int, string>, publicId: string, userId: int)
    returns (code: int, fullText: Option<string>, reason: Option<string>)
    ensures code == PreviewVerdict(papers, fulltexts, publicId, PaperByPublicId(papers, publicId), userId, REJECTED, ByPaperId)
    ensures code == OK ==> fullText == FulltextAsWritten(fulltexts, PaperByPublicId(papers, publicId).value)
    ensures code == OK ==> reason == Some(papers[PaperByPublicId(papers, publicId).value].rejectedReason)
    ensures code != OK ==> fullText.None? && reason.None?
  {
    var id;
    code, id, fullText := PreviewOwnPaper(papers, fulltexts, publicId, userId, REJECTED, ByPaperId);
    reason := if code == OK then Some(papers[id.value].rejectedReason) else None;
  }

  /** Only the uploader ever sees a preview, and only of a paper in the state asked for. */
  lemma PreviewOnlyOwn(papers: map<int, Paper>, fulltexts: map<int, string>, publicId: string,
                       found: Option<int>, userId: int, status: string, how: TextLookup)
    requires found.Some? ==> found.value in papers
    requires PreviewVerdict(papers, fulltexts, publicId, found, userId, status, how) == OK
    ensures found.Some? && papers[found.value].userId == userId && HasStatus(papers[found.value], status)
  {
  }

  // ---------------------------------------------------------------- resubmission

  /**
   * The PDF part of a resubmission: none posted, or posted and stored by the
   * file service (with its name and cleaned text), or posted and refused by it.
   */
  datatype PdfUpload = NoFile | Uploaded(stored: StoredPdf) | UploadFailed

  /**
   * Why `HandleResubmitRejectedPaper` refuses, or OK.  `cleaned` is the
   * cleaning service's answer, asked for only when no file was posted.
   */
  function ResubmitVerdict(papers: map<int, Paper>, idParam: string, f: PaperForm, userId: int,
                           file: PdfUpload, cleaned: Option<string>): (code: int)
    ensures code in {OK, BAD_REQUEST, FORBIDDEN, INTERNAL_ERROR}
    ensures code == OK <==>
      idParam != "" && !MissingField(f) && Text.Atoi(idParam).Some? && Text.Atoi(idParam).value in papers
      && papers[Text.Atoi(idParam).value].userId == userId && HasStatus(papers[Text.Atoi(idParam).value], REJECTED)
      && !TitleTaken(papers, f.title, Text.Atoi(idParam)) && !file.UploadFailed? && (file.NoFile? ==> cleaned.Some?)
    ensures code == FORBIDDEN <==>
      idParam != "" && !MissingField(f) && Text.Atoi(idParam).Some? && Text.Atoi(idParam).value in papers
      && papers[Text.Atoi(idParam).value].userId != userId
  {
    if idParam == "" || MissingField(f) then BAD_REQUEST
    else if Text.Atoi(idParam).None? then BAD_REQUEST
    else if Text.Atoi(idParam).value !in papers then INTERNAL_ERROR
    else if papers[Text.Atoi(idParam).value].userId != userId then FORBIDDEN
    else if !HasStatus(papers[Text.Atoi(idParam).value], REJECTED) then BAD_REQUEST
    else if TitleTaken(papers, f.title, Text.Atoi(idParam)) then BAD_REQUEST
    else if file.UploadFailed? then INTERNAL_ERROR
    else if file.NoFile? && cleaned.None? then INTERNAL_ERROR
    else OK
  }

  /**
   * The paper after a resubmission.  The update writes only the non-zero
   * fields of the form: the type only when it parses to a non-zero id, the
   * PDF path only when a file was stored under a non-empty name.  The
   * status goes back to awaiting; ids, owner and rejection reason stay.
   */
  function ResubmittedRow(p: Paper, f: PaperForm, file: PdfUpload, now: int): (r: Paper)
    ensures r.status == AWAITING && r.title == f.title && r.advisor == AdvisorOf(f.advisor) && r.submittedAt == now
    ensures r.publicId == p.publicId && r.userId == p.userId && r.rejectedReason == p.rejectedReason
    ensures r.fulltextId == p.fulltextId && r.cleantextId == p.cleantextId && r.publishedAt == p.publishedAt
    ensures r.typeId == (if IntOrZero(f.typeParam) != 0 then IntOrZero(f.typeParam) else p.typeId)
    ensures r.pdfPath != p.pdfPath ==> file.Uploaded? && r.pdfPath == file.stored.fileName
  {
    var typeId := if IntOrZero(f.typeParam) != 0 then IntOrZero(f.typeParam) else p.typeId;
    var pdfPath := if file.Uploaded? && file.stored.fileName != "" then file.stored.fileName else p.pdfPath;
    p.(typeId := typeId, title := f.title, abstractText := f.abstractText, tag := f.tag, author := f.author,
       advisor := AdvisorOf(f.advisor), pdfPath := pdfPath, status := AWAITING, submittedAt := now)
  }

  /** An `UPDATE … WHERE id = k`: the row changes if it exists, and nothing else does. */
  function UpdateRow(m: map<int, string>, k: int, v: string): (r: map<int, string>)
    ensures r.Keys == m.Keys
    ensures forall j :: j in m ==> r[j] == if j == k then v else m[j]
  {
    if k in m then m[k := v] else m
  }

  /** The clean text stored: the file service's, or the cleaning service's when no file was posted. */
  function NewCleantext(file: PdfUpload, cleaned: Option<string>): string
    requires file.Uploaded? || cleaned.Some?
  {
    if file.Uploaded? then file.stored.optimizedText else cleaned.value
  }

  /** The ids of a list, as a set: every listed department counts as known. */
  function Listed(ids: seq<int>): set<int> {
    set d | d in ids
  }

  /** The link rows left once a paper's links are deleted. */
  function WithoutPaper(links: set<(int, int)>, paperId: int): (r: set<(int, int)>)
    ensures forall l :: l in r <==> l in links && l.1 != paperId
  {
    set l | l in links && l.1 != paperId
  }

  /**
   * `HandleResubmitRejectedPaper`: after `ResubmitVerdict`, the paper is
   * rewritten and awaiting again, its full and clean texts are replaced, its
   * department links are replaced by the parsed ids of the form, and the
   * heads of each of those departments are told (no check that the
   * department exists is made here).
   */
  method HandleResubmitRejectedPaper(db: PaperDb, heads: seq<Departments.HeadRow>, idParam: string, f: PaperForm,
                                     userId: int, file: PdfUpload, cleaned: Option<string>, now: int)
    returns (code: int)
    modifies db`papers, db`fulltexts, db`cleantexts, db`links, db`outbox
    ensures code == ResubmitVerdict(old(db.papers), idParam, f, userId, file, cleaned)
    ensures code != OK ==> db.papers == old(db.papers) && db.links == old(db.links) && db.outbox == old(db.outbox)
    ensures code != OK ==> db.fulltexts == old(db.fulltexts) && db.cleantexts == old(db.cleantexts)
    ensures code == OK ==> Text.Atoi(idParam).Some? && Text.Atoi(idParam).value in old(db.papers)
    ensures code == OK && Text.Atoi(idParam).Some? && Text.Atoi(idParam).value in old(db.papers) ==>
      ResubmitEffect(old(db.papers), old(db.fulltexts), old(db.cleantexts), old(db.links), old(db.outbox),
                     Text.Atoi(idParam).value, f, heads, file, cleaned, now,
                     db.papers, db.fulltexts, db.cleantexts, db.links, db.outbox)
  {
    code := ResubmitVerdict(db.papers, idParam, f, userId, file, cleaned);
    if code != OK {
      return;
    }
    var id := Text.Atoi(idParam).value;
    var p := db.papers[id];
    db.papers := db.papers[id := ResubmittedRow(p, f, file, now)];
    db.fulltexts := UpdateRow(db.fulltexts, p.fulltextId, f.fullText);
    db.cleantexts := UpdateRow(db.cleantexts, p.cleantextId, NewCleantext(file, cleaned));
    db.links := WithoutPaper(db.links, id);
    var ids := DepartmentIds(f);
    LinkDepartments(db, id, Resubmission, f.title, Text.Split(f.departmentParam, ','), Listed(ids), heads);
  }

  /** The tables after an accepted resubmission of paper `id`. */
  ghost predicate ResubmitEffect(papers: map<int, Paper>, fulltexts: map<int, string>, cleantexts: map<int, string>,
                                 links: set<(int, int)>, outbox: seq<Notice>, id: int, f: PaperForm,
                                 heads: seq<Departments.HeadRow>, file: PdfUpload, cleaned: Option<string>, now: int,
                                 papers': map<int, Paper>, fulltexts': map<int, string>, cleantexts': map<int, string>,
                                 links': set<(int, int)>, outbox': seq<Notice>)
    requires id in papers && (file.Uploaded? || cleaned.Some?)
  {
    papers' == papers[id := ResubmittedRow(papers[id], f, file, now)]
    && fulltexts' == UpdateRow(fulltexts, papers[id].fulltextId, f.fullText)
    && cleantexts' == UpdateRow(cleantexts, papers[id].cleantextId, NewCleantext(file, cleaned))
    && links' == WithoutPaper(links, id) + LinksFor(DepartmentIds(f), id)
    && outbox' == outbox + HeadNotices(Resubmission, f.title, DepartmentIds(f), Listed(DepartmentIds(f)), heads)
  }

  /**
   * What a resubmission achieves for the paper: it awaits review again under
   * a title no other paper has, and shows the new full text.
   */
  lemma ResubmittedPaperSpec(papers: map<int, Paper>, fulltexts: map<int, string>,
                             id: int, f: PaperForm, file: PdfUpload, now: int)
    requires id in papers && !TitleTaken(papers, f.title, Some(id))
    requires papers[id].fulltextId in fulltexts
    ensures var papers' := papers[id := ResubmittedRow(papers[id], f, file, now)];
      HasStatus(papers'[id], AWAITING)
      && (forall other :: other in papers' && other != id ==> papers'[other].title != f.title)
      && FulltextOf(papers', UpdateRow(fulltexts, papers[id].fulltextId, f.fullText), id) == Some(f.fullText)
  {
    AwaitingIsLower();
  }

  /**
   * What a resubmission does to the links: the paper belongs to exactly the
   * parsed departments, and every other paper keeps its links.
   */
  lemma ResubmittedLinksSpec(links: set<(int, int)>, id: int, f: PaperForm)
    ensures var links' := WithoutPaper(links, id) + LinksFor(DepartmentIds(f), id);
      DepartmentsOf(links', id) == Listed(DepartmentIds(f))
      && forall l: (int, int) :: l.1 != id ==> (l in links' <==> l in links)
  {
    var links' := WithoutPaper(links, id) + LinksFor(DepartmentIds(f), id);
    forall d | d in DepartmentsOf(links', id) ensures d in DepartmentIds(f) {
      var l :| l in links' && l.1 == id && l.0 == d;
    }
    forall d | d in DepartmentIds(f) ensures d in DepartmentsOf(links', id) {
      assert (d, id) in links';
    }
  }

  /** A resubmission tells each head of each listed department, and no one else. */
  lemma ResubmitNotifiesHeads(f: PaperForm, heads: seq<Departments.HeadRow>, n: Notice)
    ensures n in HeadNotices(Resubmission, f.title, DepartmentIds(f), Listed(DepartmentIds(f)), heads) <==>
      n.kind == Resubmission && n.title == f.title
      && exists k :: 0 <= k < |DepartmentIds(f)| && Departments.HeadRow(DepartmentIds(f)[k], n.userId) in heads
  {
    HeadNoticesSpec(Resubmission, f.title, DepartmentIds(f), Listed(DepartmentIds(f)), heads, n);
  }
}
