/**
 * The research-paper repository tables shared by the upload, publication,
 * approval and administration handlers: `research_paper`, its full and
 * clean texts, the `researchpaperdepartment` links, the embedding
 * collections named after paper titles, and the notifications the handlers
 * send about papers.
 *
 * A paper's life: uploaded as "awaiting"; a head of one of its departments
 * approves it ("published") or rejects it ("rejected", with a reason); a
 * rejected paper is resubmitted ("awaiting" again); an administrator toggles
 * a published paper to "unpublished" and back.
 */
module Papers {
  import opened Wrappers
  import Text
  import Collabs

  const AWAITING: string := "awaiting"
  const PUBLISHED: string := "published"
  const REJECTED: string := "rejected"
  const UNPUBLISHED: string := "unpublished"

  /** The advisor stored when none is given, and the reason stored on a new paper. */
  const NO_ADVISOR: string := "None"
  const NO_REASON: string := "none"

  /** The state of the embedding job of an approved paper (`pdf_processing_status`). */
  datatype PdfStatus = Unprocessed | Processing | Succeeded | Failed

  /** A row of `research_paper`; times are Unix seconds. */
  datatype Paper = Paper(
    publicId: string, typeId: int, title: string, abstractText: string, tag: string, author: string,
    advisor: string, pdfPath: string, status: string, rejectedReason: string,
    fulltextId: int, cleantextId: int, userId: int, submittedAt: int, publishedAt: int, pdfStatus: PdfStatus)

  /** What a paper notification announces. */
  datatype NoticeKind = NewSubmission | Resubmission | Approval | Rejection

  /**
   * A notification about a paper, addressed to one user.  The stored message
   * shows the first 20 bytes of the title and the time of sending; only its
   * parts are modelled.
   */
  datatype Notice = Notice(kind: NoticeKind, title: string, userId: int)

  /** The status words are lower case, so a paper stored with one has that status. */
  lemma AwaitingIsLower()
    ensures Text.ToLower(AWAITING) == AWAITING
  {
    assert Text.ToLower(AWAITING) == AWAITING;
  }

  lemma PublishedIsLower()
    ensures Text.ToLower(PUBLISHED) == PUBLISHED
  {
    assert Text.ToLower(PUBLISHED) == PUBLISHED;
  }

  lemma RejectedIsLower()
    ensures Text.ToLower(REJECTED) == REJECTED
  {
    assert Text.ToLower(REJECTED) == REJECTED;
  }

  /** The status test the handlers use: the stored status, lower-cased. */
  predicate HasStatus(p: Paper, status: string) {
    Text.ToLower(p.status) == status
  }

  /** A paper other than `except` already has exactly this title. */
  predicate TitleTaken(papers: map<int, Paper>, title: string, except: Option<int>) {
    exists id :: id in papers && Some(id) != except && papers[id].title == title
  }

  /** The advisor stored for a posted one. */
  function AdvisorOf(advisor: string): (r: string)
    ensures r != ""
    ensures advisor != "" ==> r == advisor
  {
    if advisor == "" then NO_ADVISOR else advisor
  }

  // ---------------------------------------------------------------- lookups

  function IdsWithPublicId(papers: map<int, Paper>, publicId: string): set<int> {
    set id | id in papers && papers[id].publicId == publicId
  }

  /** `First` on `public_id`: the lowest paper id carrying it. */
  ghost function PaperByPublicId(papers: map<int, Paper>, publicId: string): (r: Option<int>)
    ensures r.Some? <==> exists id :: id in papers && papers[id].publicId == publicId
    ensures r.Some? ==> r.value in papers && papers[r.value].publicId == publicId
  {
    var ids := IdsWithPublicId(papers, publicId);
    if exists id :: id in papers && papers[id].publicId == publicId then
      var id :| id in papers && papers[id].publicId == publicId;
      assert id in ids;
      Some(Collabs.Least(ids))
    else None
  }

  method FindByPublicId(papers: map<int, Paper>, publicId: string) returns (r: Option<int>)
    ensures r == PaperByPublicId(papers, publicId)
  {
    var ids := IdsWithPublicId(papers, publicId);
    if exists id :: id in ids {
      var least := Collabs.LeastId(ids);
      return Some(least);
    }
    assert forall id :: id in papers ==> papers[id].publicId != publicId by {
      forall id | id in papers ensures papers[id].publicId != publicId {
        assert (id in ids) == (id in papers && papers[id].publicId == publicId);
      }
    }
    return None;
  }

  /**
   * The full text the preview handlers show, as written: the `fulltext` row
   * whose id is the paper's id (`First(&fullText, paperID)`), not the row the
   * paper points to.
   */
  function FulltextAsWritten(fulltexts: map<int, string>, paperId: int): Option<string> {
    if paperId in fulltexts then Some(fulltexts[paperId]) else None
  }

  /** The paper's own full text: the row named by its `fulltext_id`. */
  function FulltextOf(papers: map<int, Paper>, fulltexts: map<int, string>, paperId: int): (r: Option<string>)
    requires paperId in papers
    ensures r.Some? <==> papers[paperId].fulltextId in fulltexts
    ensures r.Some? ==> r.value == fulltexts[papers[paperId].fulltextId]
  {
    var fid := papers[paperId].fulltextId;
    if fid in fulltexts then Some(fulltexts[fid]) else None
  }

  /**
   * How a handler finds a paper's full text: through the paper's
   * `fulltext_id`, the row the paper points to, or by the paper's own id, as
   * `First(&fulltext, id)` does in the preview and page handlers.
   */
  datatype TextLookup = ByFulltextId | ByPaperId

  /** The full text a handler finds for a paper under `how`. */
  function TextOf(papers: map<int, Paper>, fulltexts: map<int, string>, paperId: int, how: TextLookup): Option<string>
    requires paperId in papers
  {
    match how
    case ByFulltextId => FulltextOf(papers, fulltexts, paperId)
    case ByPaperId => FulltextAsWritten(fulltexts, paperId)
  }

  /**
   * Looked up by paper id, a paper whose text is row 2 finds nothing when
   * there is no row 1, although its own text is there.
   */
  lemma FulltextAsWrittenMissesOwnText()
    ensures var p := Paper("p", 1, "A", "", "", "", NO_ADVISOR, "", PUBLISHED, NO_REASON, 2, 2, 7, 0, 0, Unprocessed);
      var papers := map[1 := p];
      var fulltexts := map[2 := "text of paper 1"];
      TextOf(papers, fulltexts, 1, ByPaperId).None?
      && TextOf(papers, fulltexts, 1, ByFulltextId) == Some("text of paper 1")
  {
  }

  /**
   * The two lookups part as soon as paper and text ids are out of step (a
   * failed insert or a seeded row is enough): paper 1 whose text is row 2 is
   * shown row 1, another paper's text.
   */
  lemma FulltextAsWrittenShowsOtherText()
    ensures var p := Paper("p", 1, "A", "", "", "", NO_ADVISOR, "", AWAITING, NO_REASON, 2, 2, 7, 0, 0, Unprocessed);
      var papers := map[1 := p];
      var fulltexts := map[1 := "text of another paper", 2 := "text of paper 1"];
      FulltextAsWritten(fulltexts, 1) == Some("text of another paper")
      && FulltextOf(papers, fulltexts, 1) == Some("text of paper 1")
  {
  }

  // ---------------------------------------------------------------- notifications

  /** One notification of a kind about a title to each of the users, in order. */
  function NoticesTo(kind: NoticeKind, title: string, users: seq<int>): (r: seq<Notice>)
    ensures |r| == |users| && forall i :: 0 <= i < |users| ==> r[i] == Notice(kind, title, users[i])
  {
    seq(|users|, i requires 0 <= i < |users| => Notice(kind, title, users[i]))
  }

  /** Appending notices in two steps is appending them at once. */
  lemma NoticesAssoc(a: seq<Notice>, b: seq<Notice>, c: seq<Notice>)
    ensures a + (b + c) == (a + b) + c
  {
  }

  // ---------------------------------------------------------------- the tables

  /** The repository tables; text ids and paper ids come from separate sequences. */
  class PaperDb {
    var papers: map<int, Paper>
    var links: set<(int, int)>
    var fulltexts: map<int, string>
    var cleantexts: map<int, string>
    var collections: set<string>
    var outbox: seq<Notice>
    var nextPaperId: int
    var nextFulltextId: int
    var nextCleantextId: int

    constructor (papers: map<int, Paper>, links: set<(int, int)>, fulltexts: map<int, string>,
                 cleantexts: map<int, string>, collections: set<string>,
                 nextPaperId: int, nextFulltextId: int, nextCleantextId: int)
      ensures this.papers == papers && this.links == links && this.fulltexts == fulltexts
      ensures this.cleantexts == cleantexts && this.collections == collections && outbox == []
      ensures this.nextPaperId == nextPaperId && this.nextFulltextId == nextFulltextId
      ensures this.nextCleantextId == nextCleantextId
    {
      this.papers := papers;
      this.links := links;
      this.fulltexts := fulltexts;
      this.cleantexts := cleantexts;
      this.collections := collections;
      outbox := [];
      this.nextPaperId := nextPaperId;
      this.nextFulltextId := nextFulltextId;
      this.nextCleantextId := nextCleantextId;
    }

    /** Notifies each user in turn (`Insert…Notification` in a loop). */
    method NotifyAll(kind: NoticeKind, title: string, users: seq<int>)
      modifies this`outbox
      ensures outbox == old(outbox) + NoticesTo(kind, title, users)
    {
      var i := 0;
      while i < |users|
        invariant 0 <= i <= |users|
        invariant outbox == old(outbox) + NoticesTo(kind, title, users[..i])
      {
        assert NoticesTo(kind, title, users[..i + 1]) == NoticesTo(kind, title, users[..i]) + [Notice(kind, title, users[i])];
        outbox := outbox + [Notice(kind, title, users[i])];
        i := i + 1;
      }
      assert users[..i] == users;
    }
  }

  /** The department ids a paper is linked to. */
  function DepartmentsOf(links: set<(int, int)>, paperId: int): set<int> {
    set l | l in links && l.1 == paperId :: l.0
  }
}
