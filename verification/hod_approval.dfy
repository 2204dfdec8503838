/**
 * The head of a department reviewing submissions: the department's queue of
 * awaiting papers, the preview of one of them, approving or rejecting it,
 * and what the embedding service's answer does to an approved paper.  The
 * department is the one the HOD middleware put in the request.
 */
module HodApproval {
  import opened Wrappers
  import Text
  import opened Papers

  const APPROVE: string := "approve"
  const REJECT: string := "reject"

  /** The paper is linked to the department (`isPaperBelongsToDepartment`). */
  predicate Linked(links: set<(int, int)>, departmentId: int, paperId: int) {
    (departmentId, paperId) in links
  }

  // ---------------------------------------------------------------- the queue

  /** The department's existing papers whose lower-cased status is `status` ("" for any status). */
  function DepartmentPapers(papers: map<int, Paper>, links: set<(int, int)>, departmentId: int, status: string)
    : (r: set<int>)
    ensures forall id :: id in r <==>
      id in papers && Linked(links, departmentId, id) && (status == "" || HasStatus(papers[id], status))
  {
    set id | id in papers && Linked(links, departmentId, id) && (status == "" || HasStatus(papers[id], status))
  }

  /**
   * What the submission query answers: each awaiting paper of the
   * department exactly once, the latest submission first.
   */
  ghost predicate SubmissionQuery(papers: map<int, Paper>, links: set<(int, int)>, departmentId: int, ids: seq<int>) {
    (forall i, j :: 0 <= i < j < |ids| ==> ids[i] != ids[j])
    && (forall i :: 0 <= i < |ids| ==> ids[i] in DepartmentPapers(papers, links, departmentId, AWAITING))
    && (forall id :: id in DepartmentPapers(papers, links, departmentId, AWAITING) ==> id in ids)
    && (forall i, j :: 0 <= i < j < |ids| ==> papers[ids[i]].submittedAt >= papers[ids[j]].submittedAt)
  }

  /**
   * `QueryResearchPaperByDepartment`: the queue and the department's counts
   * of all, awaiting and rejected papers; the department must exist.  The
   * details of each queued paper come from a join that is not modelled.
   */
  method QueryResearchPaperByDepartment(papers: map<int, Paper>, links: set<(int, int)>, departments: set<int>,
                                        departmentId: int, ids: seq<int>)
    returns (code: int, queue: seq<int>, total: nat, awaiting: nat, rejected: nat)
    requires SubmissionQuery(papers, links, departmentId, ids)
    ensures code == OK <==> departmentId in departments
    ensures code == OK ==> queue == ids
    ensures code == OK ==> total == |DepartmentPapers(papers, links, departmentId, "")|
    ensures code == OK ==> awaiting == |DepartmentPapers(papers, links, departmentId, AWAITING)|
    ensures code == OK ==> rejected == |DepartmentPapers(papers, links, departmentId, REJECTED)|
    ensures code != OK ==> queue == [] && total == 0 && awaiting == 0 && rejected == 0
  {
    if departmentId !in departments {
      return INTERNAL_ERROR, [], 0, 0, 0;
    }
    code := OK;
    queue := ids;
    total := |DepartmentPapers(papers, links, departmentId, "")|;
    awaiting := |DepartmentPapers(papers, links, departmentId, AWAITING)|;
    rejected := |DepartmentPapers(papers, links, departmentId, REJECTED)|;
  }

  /** A list without repeats has as many entries as it has distinct elements. */
  lemma {:induction false} DistinctCard(s: seq<int>)
    requires forall i, j :: 0 <= i < j < |s| ==> s[i] != s[j]
    ensures |set x | x in s| == |s|
  {
    if s != [] {
      var init := s[..|s| - 1];
      DistinctCard(init);
      assert (set x | x in s) == (set x | x in init) + {s[|s| - 1]};
      assert s[|s| - 1] !in init;
    }
  }

  /**
   * The counts agree with the queue: the queue holds exactly the awaiting
   * papers, and awaiting and rejected papers together are no more than all
   * the department's papers.
   */
  lemma QueueCounts(papers: map<int, Paper>, links: set<(int, int)>, departmentId: int, ids: seq<int>)
    requires SubmissionQuery(papers, links, departmentId, ids)
    ensures |ids| == |DepartmentPapers(papers, links, departmentId, AWAITING)|
    ensures |DepartmentPapers(papers, links, departmentId, AWAITING)| + |DepartmentPapers(papers, links, departmentId, REJECTED)|
      <= |DepartmentPapers(papers, links, departmentId, "")|
  {
    var a := DepartmentPapers(papers, links, departmentId, AWAITING);
    var r := DepartmentPapers(papers, links, departmentId, REJECTED);
    var all := DepartmentPapers(papers, links, departmentId, "");
    DistinctCard(ids);
    assert (set x | x in ids) == a;
    assert a * r == {} by {
      forall id | id in a ensures id !in r {
        assert Text.ToLower(papers[id].status) == AWAITING;
      }
    }
    assert a + r <= all;
    SubsetCard(a + r, all);
  }

  /** A subset is no larger than its superset. */
  lemma {:induction false} SubsetCard(a: set<int>, b: set<int>)
    requires a <= b
    ensures |a| <= |b|
    decreases b
  {
    if exists x :: x in a {
      var x :| x in a;
      SubsetCard(a - {x}, b - {x});
    } else {
      assert a == {};
    }
  }

  // ---------------------------------------------------------------- the preview

  /**
   * Why `HandlePreviewSubmission` refuses, or OK: the public id is given and
   * names a paper (`found`), the paper is linked to the department and
   * awaiting, a full text is found for it under `how`, and its uploader
   * (`users`) exists.
   */
  function SubmissionPreviewVerdict(papers: map<int, Paper>, fulltexts: map<int, string>, links: set<(int, int)>,
                                    users: set<int>, departmentId: int, publicId: string, found: Option<int>,
                                    how: TextLookup)
    : (code: int)
    requires found.Some? ==> found.value in papers
    ensures code in {OK, BAD_REQUEST, UNAUTHORIZED, INTERNAL_ERROR}
    ensures code == OK <==>
      publicId != "" && found.Some? && Linked(links, departmentId, found.value) && HasStatus(papers[found.value], AWAITING)
      && TextOf(papers, fulltexts, found.value, how).Some? && papers[found.value].userId in users
    ensures code == UNAUTHORIZED <==> publicId != "" && found.Some? && !Linked(links, departmentId, found.value)
  {
    if publicId == "" || found.None? then BAD_REQUEST
    else if !Linked(links, departmentId, found.value) then UNAUTHORIZED
    else if !HasStatus(papers[found.value], AWAITING) then BAD_REQUEST
    else if TextOf(papers, fulltexts, found.value, how).None? then INTERNAL_ERROR
    else if papers[found.value].userId !in users then INTERNAL_ERROR
    else OK
  }

  /** `HandlePreviewSubmission`: an awaiting paper of the department, with its own full text. */
  method HandlePreviewSubmission(papers: map<int, Paper>, fulltexts: map<int, string>, links: set<(int, int)>,
                                 users: set<int>, departmentId: int, publicId: string)
    returns (code: int, paperId: Option<int>, fullText: Option<string>)
    ensures code == SubmissionPreviewVerdict(papers, fulltexts, links, users, departmentId, publicId,
                                             PaperByPublicId(papers, publicId), ByFulltextId)
    ensures code == OK ==> paperId == PaperByPublicId(papers, publicId)
    ensures code == OK ==> paperId.Some? && fullText == FulltextOf(papers, fulltexts, paperId.value)
    ensures code != OK ==> paperId.None? && fullText.None?
  {
    if publicId == "" {
      return BAD_REQUEST, None, None;
    }
    var found := FindByPublicId(papers, publicId);
    code := SubmissionPreviewVerdict(papers, fulltexts, links, users, departmentId, publicId, found, ByFulltextId);
    if code != OK {
      return code, None, None;
    }
    paperId := found;
    fullText := FulltextOf(papers, fulltexts, found.value);
  }

  /** `HandlePreviewSubmission` as written: the text shown is the row whose id is the paper's id. */
  method HandlePreviewSubmissionAsWritten(papers: map<int, Paper>, fulltexts: map<int, string>, links: set<(int, int)>,
                                          users: set<int>, departmentId: int, publicId: string)
    returns (code: int, paperId: Option<int>, fullText: Option<string>)
    ensures code == SubmissionPreviewVerdict(papers, fulltexts, links, users, departmentId, publicId,
                                             PaperByPublicId(papers, publicId), ByPaperId)
    ensures code == OK ==> paperId == PaperByPublicId(papers, publicId)
    ensures code == OK ==> paperId.Some? && fullText == FulltextAsWritten(fulltexts, paperId.value)
    ensures code != OK ==> paperId.None? && fullText.None?
  {
    if publicId == "" {
      return BAD_REQUEST, None, None;
    }
    var found := FindByPublicId(papers, publicId);
    code := SubmissionPreviewVerdict(papers, fulltexts, links, users, departmentId, publicId, found, ByPaperId);
    if code != OK {
      return code, None, None;
    }
    paperId := found;
    fullText := FulltextAsWritten(fulltexts, found.value);
  }

  // ---------------------------------------------------------------- approve or reject

  /**
   * Why `HandleApproveRejectSubmission` refuses, or OK: the id and the
   * decision are given, the id parses and is linked to the department, the
   * decision is exactly "approve" or "reject", a rejection has a reason,
   * and the paper exists and is awaiting.
   */
  function DecisionVerdict(papers: map<int, Paper>, links: set<(int, int)>, departmentId: int,
                           idParam: string, approval: string, reason: string): (code: int)
    ensures code in {OK, BAD_REQUEST, UNAUTHORIZED, INTERNAL_ERROR}
    ensures code == OK <==>
      idParam != "" && Text.Atoi(idParam).Some? && Linked(links, departmentId, Text.Atoi(idParam).value)
      && (approval == APPROVE || (approval == REJECT && reason != ""))
      && Text.Atoi(idParam).value in papers && HasStatus(papers[Text.Atoi(idParam).value], AWAITING)
    ensures code == UNAUTHORIZED <==>
      idParam != "" && approval != "" && Text.Atoi(idParam).Some? && !Linked(links, departmentId, Text.Atoi(idParam).value)
  {
    if idParam == "" || approval == "" then BAD_REQUEST
    else if Text.Atoi(idParam).None? then BAD_REQUEST
    else if !Linked(links, departmentId, Text.Atoi(idParam).value) then UNAUTHORIZED
    else if approval != APPROVE && approval != REJECT then BAD_REQUEST
    else if approval == REJECT && reason == "" then BAD_REQUEST
    else if Text.Atoi(idParam).value !in papers then INTERNAL_ERROR
    else if !HasStatus(papers[Text.Atoi(idParam).value], AWAITING) then BAD_REQUEST
    else OK
  }

  /** An approved paper: published now, its embedding job started. */
  function ApprovedRow(p: Paper, now: int): (r: Paper)
    ensures r.status == PUBLISHED && r.publishedAt == now && r.pdfStatus == Processing
    ensures r.publicId == p.publicId && r.title == p.title && r.userId == p.userId && r.submittedAt == p.submittedAt
    ensures r.fulltextId == p.fulltextId && r.rejectedReason == p.rejectedReason
  {
    p.(status := PUBLISHED, publishedAt := now, pdfStatus := Processing)
  }

  /** A rejected paper: the reason stored, its submission time reset to now. */
  function RejectedRow(p: Paper, reason: string, now: int): (r: Paper)
    ensures r.status == REJECTED && r.rejectedReason == reason && r.submittedAt == now
    ensures r.publicId == p.publicId && r.title == p.title && r.userId == p.userId && r.publishedAt == p.publishedAt
    ensures r.fulltextId == p.fulltextId && r.pdfStatus == p.pdfStatus
  {
    p.(status := REJECTED, rejectedReason := reason, submittedAt := now)
  }

  /**
   * `HandleApproveRejectSubmission`: after `DecisionVerdict`, an approval
   * publishes the paper (its embedding job runs separately, see
   * `HandlePdfProcessed`); a rejection stores the reason and tells the
   * uploader.  Nothing but that paper and the notifications changes.
   */
  method HandleApproveRejectSubmission(db: PaperDb, departmentId: int, idParam: string, approval: string,
                                       reason: string, now: int)
    returns (code: int)
    modifies db`papers, db`outbox
    ensures code == DecisionVerdict(old(db.papers), db.links, departmentId, idParam, approval, reason)
    ensures code != OK ==> db.papers == old(db.papers) && db.outbox == old(db.outbox)
    ensures code == OK ==> Text.Atoi(idParam).Some? && Text.Atoi(idParam).value in old(db.papers)
    ensures code == OK && approval == APPROVE && Text.Atoi(idParam).Some? && Text.Atoi(idParam).value in old(db.papers) ==>
      db.papers == old(db.papers)[Text.Atoi(idParam).value := ApprovedRow(old(db.papers)[Text.Atoi(idParam).value], now)]
      && db.outbox == old(db.outbox)
    ensures code == OK && approval == REJECT && Text.Atoi(idParam).Some? && Text.Atoi(idParam).value in old(db.papers) ==>
      var p := old(db.papers)[Text.Atoi(idParam).value];
      db.papers == old(db.papers)[Text.Atoi(idParam).value := RejectedRow(p, reason, now)]
      && db.outbox == old(db.outbox) + [Notice(Rejection, p.title, p.userId)]
  {
    code := DecisionVerdict(db.papers, db.links, departmentId, idParam, approval, reason);
    if code != OK {
      return;
    }
    ApplyDecision(db, Text.Atoi(idParam).value, approval == APPROVE, reason, now);
  }

  /** The writes of an accepted decision on paper `id`. */
  method ApplyDecision(db: PaperDb, id: int, approve: bool, reason: string, now: int)
    requires id in db.papers
    modifies db`papers, db`outbox
    ensures approve ==> db.papers == old(db.papers)[id := ApprovedRow(old(db.papers)[id], now)]
    ensures approve ==> db.outbox == old(db.outbox)
    ensures !approve ==> db.papers == old(db.papers)[id := RejectedRow(old(db.papers)[id], reason, now)]
    ensures !approve ==>
      db.outbox == old(db.outbox) + [Notice(Rejection, old(db.papers)[id].title, old(db.papers)[id].userId)]
  {
    var p := db.papers[id];
    if approve {
      db.papers := db.papers[id := ApprovedRow(p, now)];
    } else {
      db.papers := db.papers[id := RejectedRow(p, reason, now)];
      db.outbox := db.outbox + [Notice(Rejection, p.title, p.userId)];
    }
  }

  /**
   * A decided paper leaves the department's queue and cannot be decided a
   * second time: approved it is published, rejected it is rejected.
   */
  lemma DecidedLeavesQueue(papers: map<int, Paper>, links: set<(int, int)>, departmentId: int, idParam: string,
                           approval: string, reason: string, now: int, approval2: string, reason2: string)
    requires DecisionVerdict(papers, links, departmentId, idParam, approval, reason) == OK
    ensures var id := Text.Atoi(idParam).value;
      var p' := if approval == APPROVE then ApprovedRow(papers[id], now) else RejectedRow(papers[id], reason, now);
      var papers' := papers[id := p'];
      (approval == APPROVE ==> HasStatus(p', PUBLISHED)) && (approval != APPROVE ==> HasStatus(p', REJECTED))
      && id !in DepartmentPapers(papers', links, departmentId, AWAITING)
      && DecisionVerdict(papers', links, departmentId, idParam, approval2, reason2) != OK
  {
    PublishedIsLower();
    RejectedIsLower();
    AwaitingIsLower();
  }

  // ---------------------------------------------------------------- embedding

  /**
   * The embedding service's answer about a paper: the request could not be
   * sent, the reply could not be read, it was not JSON, or it reported a
   * `pdf_process_status`.
   */
  datatype ServiceReply = Unreachable | Unreadable | Unparsable | Replied(pdfProcessStatus: string)

  const PROCESS_FAILED: string := "failed"

  /**
   * The paper once the service has answered: an unreadable reply marks the
   * job failed; a "failed" report sends the paper back to awaiting with the
   * job failed; any other report marks the job succeeded; otherwise nothing
   * changes.
   */
  function ProcessedRow(p: Paper, reply: ServiceReply): (r: Paper)
    ensures reply.Replied? && reply.pdfProcessStatus == PROCESS_FAILED ==> r == p.(status := AWAITING, pdfStatus := Failed)
    ensures reply.Replied? && reply.pdfProcessStatus != PROCESS_FAILED ==> r == p.(pdfStatus := Succeeded)
    ensures reply == Unreadable ==> r == p.(pdfStatus := Failed)
    ensures reply == Unreachable || reply == Unparsable ==> r == p
  {
    match reply
    case Unreachable => p
    case Unreadable => p.(pdfStatus := Failed)
    case Unparsable => p
    case Replied(s) => if s == PROCESS_FAILED then p.(status := AWAITING, pdfStatus := Failed) else p.(pdfStatus := Succeeded)
  }

  /**
   * `handleSentRequestToPythonService`: applies the service's answer to the
   * paper, and tells the uploader when the job succeeded.  A paper that does
   * not exist is left alone.
   */
  method HandlePdfProcessed(db: PaperDb, paperId: int, reply: ServiceReply)
    modifies db`papers, db`outbox
    ensures paperId !in old(db.papers) ==> db.papers == old(db.papers) && db.outbox == old(db.outbox)
    ensures paperId in old(db.papers) ==> db.papers == old(db.papers)[paperId := ProcessedRow(old(db.papers)[paperId], reply)]
    ensures paperId in old(db.papers) && reply.Replied? && reply.pdfProcessStatus != PROCESS_FAILED ==>
      db.outbox == old(db.outbox) + [Notice(Approval, old(db.papers)[paperId].title, old(db.papers)[paperId].userId)]
    ensures !(paperId in old(db.papers) && reply.Replied? && reply.pdfProcessStatus != PROCESS_FAILED) ==>
      db.outbox == old(db.outbox)
  {
    if paperId !in db.papers {
      return;
    }
    var p := db.papers[paperId];
    db.papers := db.papers[paperId := ProcessedRow(p, reply)];
    if reply.Replied? && reply.pdfProcessStatus != PROCESS_FAILED {
      db.outbox := db.outbox + [Notice(Approval, p.title, p.userId)];
    }
  }

  /**
   * An approved paper after its embedding job: published with the job
   * succeeded, back to awaiting with the job failed, or still published
   * with the job processing or failed when no usable answer came back.
   */
  lemma ApprovedThenProcessed(p: Paper, now: int, reply: ServiceReply)
    ensures var r := ProcessedRow(ApprovedRow(p, now), reply);
      (HasStatus(r, PUBLISHED) && r.pdfStatus == Succeeded)
      || (HasStatus(r, AWAITING) && r.pdfStatus == Failed)
      || (HasStatus(r, PUBLISHED) && (r.pdfStatus == Processing || r.pdfStatus == Failed))
    ensures var r := ProcessedRow(ApprovedRow(p, now), reply);
      r.pdfStatus == Succeeded <==> reply.Replied? && reply.pdfProcessStatus != PROCESS_FAILED
  {
    AwaitingIsLower();
    PublishedIsLower();
  }
}
