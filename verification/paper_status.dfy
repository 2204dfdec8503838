/**
 * The callbacks the embedding service uses once it has dealt with a paper:
 * marking the paper published (and telling its uploader), and asking for an
 * e-mail to the approving head when the PDF could not be processed.
 */
module PaperStatus {
  import opened Wrappers
  import Text
  import opened Papers

  /**
   * Why `UpdatePaperStatus` refuses, or OK: both fields are given and the id
   * names a paper.  The `status` field is required but otherwise unused.
   */
  function StatusUpdateVerdict(papers: map<int, Paper>, idParam: string, status: string): (code: int)
    ensures code in {OK, BAD_REQUEST, NOT_FOUND}
    ensures code == BAD_REQUEST <==> idParam == "" || status == ""
    ensures code == OK <==> idParam != "" && status != "" && Text.Atoi(idParam).Some? && Text.Atoi(idParam).value in papers
  {
    if idParam == "" || status == "" then BAD_REQUEST
    else if Text.Atoi(idParam).None? || Text.Atoi(idParam).value !in papers then NOT_FOUND
    else OK
  }

  /**
   * `UpdatePaperStatus`: the paper becomes published, whatever the posted
   * status says, and its uploader is told it was approved.  A refused
   * request changes nothing.
   */
  method UpdatePaperStatus(db: PaperDb, idParam: string, status: string) returns (code: int)
    modifies db`papers, db`outbox
    ensures code == StatusUpdateVerdict(old(db.papers), idParam, status)
    ensures code != OK ==> db.papers == old(db.papers) && db.outbox == old(db.outbox)
    ensures code == OK ==> Text.Atoi(idParam).Some? && Text.Atoi(idParam).value in old(db.papers)
    ensures code == OK && Text.Atoi(idParam).Some? && Text.Atoi(idParam).value in old(db.papers) ==>
      var id := Text.Atoi(idParam).value;
      db.papers == old(db.papers)[id := old(db.papers)[id].(status := PUBLISHED)]
      && db.outbox == old(db.outbox) + [Notice(Approval, old(db.papers)[id].title, old(db.papers)[id].userId)]
  {
    code := StatusUpdateVerdict(db.papers, idParam, status);
    if code != OK {
      return;
    }
    var id := Text.Atoi(idParam).value;
    var p := db.papers[id];
    db.papers := db.papers[id := p.(status := PUBLISHED)];
    db.outbox := db.outbox + [Notice(Approval, p.title, p.userId)];
  }

  /**
   * The posted status has no effect: two requests that differ only in it
   * get the same answer and leave the same paper behind.
   */
  lemma StatusFieldIgnored(papers: map<int, Paper>, idParam: string, s1: string, s2: string)
    requires s1 != "" && s2 != ""
    ensures StatusUpdateVerdict(papers, idParam, s1) == StatusUpdateVerdict(papers, idParam, s2)
    ensures StatusUpdateVerdict(papers, idParam, s1) == OK ==>
      HasStatus(papers[Text.Atoi(idParam).value].(status := PUBLISHED), PUBLISHED)
  {
    PublishedIsLower();
  }

  /**
   * `NotifyUserForFailPaper`: both fields are required and the id must name
   * a paper; the e-mail goes to the given address only when the
   * fail-processing mail switch is on.  Nothing is stored.
   */
  method NotifyUserForFailPaper(papers: map<int, Paper>, email: string, idParam: string, mailSwitch: bool)
    returns (code: int, mailTo: Option<string>)
    ensures code in {OK, BAD_REQUEST, NOT_FOUND}
    ensures code == BAD_REQUEST <==> email == "" || idParam == ""
    ensures code == OK <==> email != "" && idParam != "" && Text.Atoi(idParam).Some? && Text.Atoi(idParam).value in papers
    ensures mailTo.Some? <==> code == OK && mailSwitch
    ensures mailTo.Some? ==> mailTo.value == email
  {
    if email == "" || idParam == "" {
      return BAD_REQUEST, None;
    }
    var id := Text.Atoi(idParam);
    if id.None? || id.value !in papers {
      return NOT_FOUND, None;
    }
    code := OK;
    mailTo := if mailSwitch then Some(email) else None;
  }
}
