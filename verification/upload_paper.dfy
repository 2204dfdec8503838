/**
 * Uploading a research paper: the required fields, the PDF check and the
 * title check come first; then the clean text, the full text and the paper
 * row are stored, the paper is linked to each posted department id that
 * parses, and the heads of each of those departments that exists are
 * notified.  The PDF itself and its cleaned text come from a separate file
 * service, whose answer is a parameter here.
 */
module UploadPaper {
  import opened Wrappers
  import Text
  import Departments
  import opened Papers

  /** The form fields of an upload (and of a resubmission). */
  datatype PaperForm = PaperForm(
    title: string, typeParam: string, abstractText: string, tag: string, author: string,
    advisor: string, departmentParam: string, fullText: string)

  /** What the file service answers for a stored PDF: its file name and the cleaned text. */
  datatype StoredPdf = StoredPdf(fileName: string, optimizedText: string)

  const PDF_TYPE: string := "application/pdf"

  /** A required field is empty (the advisor is optional). */
  predicate MissingField(f: PaperForm) {
    f.title == "" || f.typeParam == "" || f.abstractText == "" || f.tag == "" || f.author == ""
    || f.departmentParam == "" || f.fullText == ""
  }

  /** `strconv.Atoi` with its error dropped. */
  function IntOrZero(s: string): int {
    match Text.Atoi(s) case Some(n) => n case None => 0
  }

  /** The department ids of a form: its comma-separated parts that parse. */
  function DepartmentIds(f: PaperForm): seq<int> {
    Text.IntsOf(Text.Split(f.departmentParam, ','))
  }

  /**
   * Why `HandleResearchPaperUpload` refuses, or OK.  `contentType` is the
   * type of the posted file, if one was posted; `stored` is the file
   * service's answer.
   */
  function UploadVerdict(papers: map<int, Paper>, f: PaperForm, contentType: Option<string>, stored: Option<StoredPdf>)
    : (code: int)
    ensures code == OK || code == BAD_REQUEST || code == INTERNAL_ERROR
    ensures code == BAD_REQUEST <==>
      MissingField(f) || contentType != Some(PDF_TYPE) || TitleTaken(papers, f.title, None)
    ensures code == OK <==>
      !MissingField(f) && contentType == Some(PDF_TYPE) && !TitleTaken(papers, f.title, None) && stored.Some?
  {
    if MissingField(f) then BAD_REQUEST
    else if contentType.None? || contentType.value != PDF_TYPE then BAD_REQUEST
    else if TitleTaken(papers, f.title, None) then BAD_REQUEST
    else if stored.None? then INTERNAL_ERROR
    else OK
  }

  /** The row of a new paper: awaiting review, no rejection reason, submitted and published now. */
  function UploadedRow(f: PaperForm, s: StoredPdf, publicId: string, fulltextId: int, cleantextId: int,
                    userId: int, now: int): (p: Paper)
    ensures p.status == AWAITING && p.rejectedReason == NO_REASON && p.advisor == AdvisorOf(f.advisor)
    ensures p.title == f.title && p.userId == userId && p.typeId == IntOrZero(f.typeParam)
    ensures p.fulltextId == fulltextId && p.cleantextId == cleantextId && p.pdfPath == s.fileName
  {
    Paper(publicId, IntOrZero(f.typeParam), f.title, f.abstractText, f.tag, f.author, AdvisorOf(f.advisor),
          s.fileName, AWAITING, NO_REASON, fulltextId, cleantextId, userId, now, now, Unprocessed)
  }

  // ---------------------------------------------------------------- department heads

  /** `GetDepartmentHeadsByDepartmentID`: the heads of a department in row order. */
  method DepartmentHeads(heads: seq<Departments.HeadRow>, departmentId: int) returns (ids: seq<int>)
    ensures ids == Departments.HeadsOf(heads, departmentId)
  {
    ids := [];
    var i := 0;
    while i < |heads|
      invariant 0 <= i <= |heads|
      invariant ids == Departments.HeadsOf(heads[..i], departmentId)
    {
      assert heads[..i + 1][..i] == heads[..i];
      if heads[i].departmentId == departmentId {
        ids := ids + [heads[i].userId];
      }
      i := i + 1;
    }
    assert heads[..i] == heads;
  }

  /** The link rows of a paper to the listed departments. */
  function LinksFor(ids: seq<int>, paperId: int): set<(int, int)> {
    set d | d in ids :: (d, paperId)
  }

  /**
   * The notifications sent for the listed departments in order: each head of
   * each listed department found in `known`, in row order.
   */
  function HeadNotices(kind: NoticeKind, title: string, ids: seq<int>, known: set<int>,
                       heads: seq<Departments.HeadRow>): seq<Notice>
    decreases |ids|
  {
    if ids == [] then []
    else
      var d := ids[|ids| - 1];
      HeadNotices(kind, title, ids[..|ids| - 1], known, heads)
      + if d in known then NoticesTo(kind, title, Departments.HeadsOf(heads, d)) else []
  }

  /**
   * A notification is sent exactly to the heads of the listed, known
   * departments, with the kind and the title given.
   */
  lemma {:induction false} HeadNoticesSpec(kind: NoticeKind, title: string, ids: seq<int>, known: set<int>,
                                           heads: seq<Departments.HeadRow>, n: Notice)
    ensures n in HeadNotices(kind, title, ids, known, heads) <==>
      n.kind == kind && n.title == title
      && exists k :: 0 <= k < |ids| && ids[k] in known && Departments.HeadRow(ids[k], n.userId) in heads
    decreases |ids|
  {
    if ids != [] {
      var init := ids[..|ids| - 1];
      var d := ids[|ids| - 1];
      HeadNoticesSpec(kind, title, init, known, heads, n);
      var tail := if d in known then NoticesTo(kind, title, Departments.HeadsOf(heads, d)) else [];
      assert n in tail <==> n.kind == kind && n.title == title && d in known && Departments.HeadRow(d, n.userId) in heads;
      if exists k :: 0 <= k < |ids| && ids[k] in known && Departments.HeadRow(ids[k], n.userId) in heads {
        var k :| 0 <= k < |ids| && ids[k] in known && Departments.HeadRow(ids[k], n.userId) in heads;
        if k < |init| {
          assert init[k] == ids[k];
        }
      }
      if exists k :: 0 <= k < |init| && init[k] in known && Departments.HeadRow(init[k], n.userId) in heads {
        var k :| 0 <= k < |init| && init[k] in known && Departments.HeadRow(init[k], n.userId) in heads;
        assert ids[k] == init[k];
      }
    }
  }

  /** The id a single part contributes: one if it parses, none otherwise. */
  function PartIds(part: string): (r: seq<int>)
    ensures |r| <= 1
  {
    match Text.Atoi(part) case Some(n) => [n] case None => []
  }

  /** The parsed ids of one more part. */
  lemma IdsSnoc(parts: seq<string>, i: int)
    requires 0 <= i < |parts|
    ensures Text.IntsOf(parts[..i + 1]) == Text.IntsOf(parts[..i]) + PartIds(parts[i])
  {
    assert parts[..i + 1][..i] == parts[..i];
  }

  /** The ids of one more part add their links and the notices for their department. */
  lemma LinkedSnoc(ids: seq<int>, more: seq<int>, paperId: int, kind: NoticeKind, title: string, known: set<int>,
                   heads: seq<Departments.HeadRow>)
    requires |more| <= 1
    ensures LinksFor(ids + more, paperId) == LinksFor(ids, paperId) + LinksFor(more, paperId)
    ensures HeadNotices(kind, title, ids + more, known, heads)
      == HeadNotices(kind, title, ids, known, heads) + HeadNotices(kind, title, more, known, heads)
  {
    assert forall d :: d in ids + more <==> d in ids || d in more;
    NoticesSnoc(ids, more, kind, title, known, heads);
  }

  /** The notices of one more id follow those already sent. */
  lemma NoticesSnoc(ids: seq<int>, more: seq<int>, kind: NoticeKind, title: string, known: set<int>,
                    heads: seq<Departments.HeadRow>)
    requires |more| <= 1
    ensures HeadNotices(kind, title, ids + more, known, heads)
      == HeadNotices(kind, title, ids, known, heads) + HeadNotices(kind, title, more, known, heads)
  {
    if more == [] {
      assert ids + more == ids;
    } else {
      var d := more[0];
      var tail := if d in known then NoticesTo(kind, title, Departments.HeadsOf(heads, d)) else [];
      assert (ids + more)[..|ids|] == ids;
      assert (ids + more)[|ids|] == d;
      assert HeadNotices(kind, title, ids + more, known, heads) == HeadNotices(kind, title, ids, known, heads) + tail;
      assert more[..0] == [];
      assert HeadNotices(kind, title, more, known, heads) == [] + tail;
    }
  }

  /** Links the paper to the department a part names, if it parses, and tells its heads if it is known. */
  method LinkPart(db: PaperDb, paperId: int, kind: NoticeKind, title: string, part: string, known: set<int>,
                  heads: seq<Departments.HeadRow>)
    modifies db`links, db`outbox
    ensures db.links == old(db.links) + LinksFor(PartIds(part), paperId)
    ensures db.outbox == old(db.outbox) + HeadNotices(kind, title, PartIds(part), known, heads)
  {
    var n := Text.Atoi(part);
    if n.Some? {
      var d := n.value;
      assert [d][..0] == [];
      assert LinksFor([d], paperId) == {(d, paperId)};
      db.links := db.links + {(d, paperId)};
      if d in known {
        var hs := DepartmentHeads(heads, d);
        db.NotifyAll(kind, title, hs);
      }
    } else {
      assert LinksFor([], paperId) == {};
    }
  }

  /**
   * The department loop of the upload and resubmit handlers: each part that
   * parses adds a link row, and the heads of a department in `known` are
   * notified; a part that does not parse is skipped.
   */
  method LinkDepartments(db: PaperDb, paperId: int, kind: NoticeKind, title: string, parts: seq<string>,
                         known: set<int>, heads: seq<Departments.HeadRow>)
    modifies db`links, db`outbox
    ensures db.links == old(db.links) + LinksFor(Text.IntsOf(parts), paperId)
    ensures db.outbox == old(db.outbox) + HeadNotices(kind, title, Text.IntsOf(parts), known, heads)
  {
    var i := 0;
    ghost var ids: seq<int> := [];
    while i < |parts|
      invariant 0 <= i <= |parts| && ids == Text.IntsOf(parts[..i])
      invariant db.links == old(db.links) + LinksFor(ids, paperId)
      invariant db.outbox == old(db.outbox) + HeadNotices(kind, title, ids, known, heads)
    {
      IdsSnoc(parts, i);
      LinkedSnoc(ids, PartIds(parts[i]), paperId, kind, title, known, heads);
      LinkPart(db, paperId, kind, title, parts[i], known, heads);
      NoticesAssoc(old(db.outbox), HeadNotices(kind, title, ids, known, heads),
                   HeadNotices(kind, title, PartIds(parts[i]), known, heads));
      ids := ids + PartIds(parts[i]);
      i := i + 1;
    }
    assert parts[..i] == parts;
  }

  // ---------------------------------------------------------------- the handler

  /** The texts and the paper row of an accepted upload. */
  method StorePaper(db: PaperDb, f: PaperForm, s: StoredPdf, publicId: string, userId: int, now: int)
    returns (paperId: int)
    modifies db`papers, db`fulltexts, db`cleantexts, db`nextPaperId, db`nextFulltextId, db`nextCleantextId
    ensures paperId == old(db.nextPaperId) && db.nextPaperId == paperId + 1
    ensures db.nextFulltextId == old(db.nextFulltextId) + 1 && db.nextCleantextId == old(db.nextCleantextId) + 1
    ensures db.cleantexts == old(db.cleantexts)[old(db.nextCleantextId) := s.optimizedText]
    ensures db.fulltexts == old(db.fulltexts)[old(db.nextFulltextId) := f.fullText]
    ensures db.papers == old(db.papers)[paperId :=
      UploadedRow(f, s, publicId, old(db.nextFulltextId), old(db.nextCleantextId), userId, now)]
  {
    var cleantextId := db.nextCleantextId;
    db.cleantexts := db.cleantexts[cleantextId := s.optimizedText];
    db.nextCleantextId := cleantextId + 1;
    var fulltextId := db.nextFulltextId;
    db.fulltexts := db.fulltexts[fulltextId := f.fullText];
    db.nextFulltextId := fulltextId + 1;
    paperId := db.nextPaperId;
    db.papers := db.papers[paperId := UploadedRow(f, s, publicId, fulltextId, cleantextId, userId, now)];
    db.nextPaperId := paperId + 1;
  }

  /**
   * `HandleResearchPaperUpload`: after `UploadVerdict`, the new paper is
   * stored, linked to each parsed department id, and the heads of each of
   * those departments that exists are told about it.
   */
  method HandleResearchPaperUpload(db: PaperDb, departments: set<int>, heads: seq<Departments.HeadRow>,
                                   f: PaperForm, contentType: Option<string>, stored: Option<StoredPdf>,
                                   publicId: string, userId: int, now: int)
    returns (code: int, paperId: Option<int>)
    modifies db`papers, db`fulltexts, db`cleantexts, db`links, db`outbox
    modifies db`nextPaperId, db`nextFulltextId, db`nextCleantextId
    ensures code == UploadVerdict(old(db.papers), f, contentType, stored)
    ensures code != OK ==> paperId.None? && db.papers == old(db.papers) && db.links == old(db.links)
    ensures code != OK ==> db.fulltexts == old(db.fulltexts) && db.cleantexts == old(db.cleantexts)
    ensures code != OK ==> db.outbox == old(db.outbox)
    ensures code == OK ==> paperId == Some(old(db.nextPaperId)) && stored.Some?
    ensures code == OK && stored.Some? ==>
      db.papers == old(db.papers)[old(db.nextPaperId) :=
           UploadedRow(f, stored.value, publicId, old(db.nextFulltextId), old(db.nextCleantextId), userId, now)]
      && db.fulltexts == old(db.fulltexts)[old(db.nextFulltextId) := f.fullText]
      && db.cleantexts == old(db.cleantexts)[old(db.nextCleantextId) := stored.value.optimizedText]
    ensures code == OK ==>
      db.links == old(db.links) + LinksFor(DepartmentIds(f), old(db.nextPaperId))
      && db.outbox == old(db.outbox) + HeadNotices(NewSubmission, f.title, DepartmentIds(f), departments, heads)
  {
    code := UploadVerdict(db.papers, f, contentType, stored);
    if code != OK {
      return code, None;
    }
    var id := StorePaper(db, f, stored.value, publicId, userId, now);
    LinkDepartments(db, id, NewSubmission, f.title, Text.Split(f.departmentParam, ','), departments, heads);
    paperId := Some(id);
  }

  /** A stored paper shows its own full text, and no other paper kept the title. */
  lemma UploadedPaperSpec(papers: map<int, Paper>, fulltexts: map<int, string>, f: PaperForm, s: StoredPdf,
                          publicId: string, paperId: int, fulltextId: int, cleantextId: int, userId: int, now: int)
    requires !TitleTaken(papers, f.title, None) && paperId !in papers
    ensures var papers' := papers[paperId := UploadedRow(f, s, publicId, fulltextId, cleantextId, userId, now)];
      FulltextOf(papers', fulltexts[fulltextId := f.fullText], paperId) == Some(f.fullText)
      && HasStatus(papers'[paperId], AWAITING)
      && forall id :: id in papers' && papers'[id].title == f.title ==> id == paperId
  {
    AwaitingIsLower();
  }
}
