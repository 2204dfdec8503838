/**
 * The chat sessions a reader keeps about a paper: one session per (paper,
 * user), created on first use, whose stored conversation only its owner may
 * overwrite.  A session id is a UUID, held here as its 128-bit value read
 * big-endian, so the primary-key order the database uses is integer order.
 */
module ChatSessions {
  import opened Wrappers
  import Collabs

  /** A row of `chat_sessions`; `message` is NULL until the first update. */
  datatype ChatSession = ChatSession(userId: int, paperId: int, message: Option<string>, createdAt: int, updatedAt: int)

  /** The sessions of a user about a paper. */
  function SessionsOf(sessions: map<int, ChatSession>, userId: int, paperId: int): set<int> {
    set id | id in sessions && sessions[id].userId == userId && sessions[id].paperId == paperId
  }

  /** `First` on (paper, user): the session with the lowest id, if there is one. */
  ghost function SessionFor(sessions: map<int, ChatSession>, userId: int, paperId: int): (r: Option<int>)
    ensures r.Some? <==> exists id :: id in sessions && sessions[id].userId == userId && sessions[id].paperId == paperId
    ensures r.Some? ==> r.value in sessions && sessions[r.value].userId == userId && sessions[r.value].paperId == paperId
    ensures r.Some? ==> forall id :: id in SessionsOf(sessions, userId, paperId) ==> r.value <= id
  {
    var ids := SessionsOf(sessions, userId, paperId);
    if exists id :: id in sessions && sessions[id].userId == userId && sessions[id].paperId == paperId then
      var id :| id in sessions && sessions[id].userId == userId && sessions[id].paperId == paperId;
      assert id in ids;
      Some(Collabs.Least(ids))
    else None
  }

  /** What the owner-checked update found. */
  datatype UpdateOutcome = SessionMissing | OtherOwner | Updated

  /** The outcome of `UpdateChatSessionMessageByUser`. */
  function UpdateOutcomeOf(sessions: map<int, ChatSession>, sessionId: int, userId: int): (r: UpdateOutcome)
    ensures r == Updated <==> sessionId in sessions && sessions[sessionId].userId == userId
    ensures r == SessionMissing <==> sessionId !in sessions
  {
    if sessionId !in sessions then SessionMissing
    else if sessions[sessionId].userId != userId then OtherOwner
    else Updated
  }

  /** The sessions after `UpdateChatSessionMessageByUser`: the owner's session takes the message and the time. */
  function AfterUpdate(sessions: map<int, ChatSession>, sessionId: int, userId: int, message: string, now: int)
    : map<int, ChatSession>
  {
    if UpdateOutcomeOf(sessions, sessionId, userId) == Updated
    then sessions[sessionId := sessions[sessionId].(message := Some(message), updatedAt := now)]
    else sessions
  }

  /**
   * Only the caller's own session can change, and only its message and
   * update time; every other session, and every session of a refused
   * update, stays as it was.
   */
  lemma UpdateTouchesOnlyOwnSession(sessions: map<int, ChatSession>, sessionId: int, userId: int, message: string, now: int)
    ensures AfterUpdate(sessions, sessionId, userId, message, now).Keys == sessions.Keys
    ensures forall id :: id in sessions && id != sessionId ==> AfterUpdate(sessions, sessionId, userId, message, now)[id] == sessions[id]
    ensures sessionId in sessions && sessions[sessionId].userId != userId ==> AfterUpdate(sessions, sessionId, userId, message, now) == sessions
    ensures sessionId in sessions && sessions[sessionId].userId == userId ==>
      var s := AfterUpdate(sessions, sessionId, userId, message, now)[sessionId];
      s.message == Some(message) && s.updatedAt == now && s.userId == userId
      && s.paperId == sessions[sessionId].paperId && s.createdAt == sessions[sessionId].createdAt
  {
  }

  /** The value Gin's context holds under "userID". */
  datatype CallerValue = NoCaller | IntCaller(id: int) | OtherCaller

  /**
   * The checks `UpdateChatSessionSecure` makes before touching the table,
   * in order, or None when all pass: a non-empty message that is valid
   * JSON, an authenticated caller whose id is an int, and a session id
   * that is given and parses as a UUID (`parsed`).
   */
  function SecureGuards(message: string, jsonValid: string -> bool, caller: CallerValue, sessionParam: string,
                        parsed: Option<int>): (r: Option<int>)
    ensures r.None? <==> message != "" && jsonValid(message) && caller.IntCaller? && sessionParam != "" && parsed.Some?
    ensures r.Some? ==> r.value in {BAD_REQUEST, UNAUTHORIZED, INTERNAL_ERROR}
  {
    if message == "" || !jsonValid(message) then Some(BAD_REQUEST)
    else if caller.NoCaller? then Some(UNAUTHORIZED)
    else if caller.OtherCaller? then Some(INTERNAL_ERROR)
    else if sessionParam == "" || parsed.None? then Some(BAD_REQUEST)
    else None
  }

  /** A missing or non-JSON message is refused first, whoever asks and whatever session they name. */
  lemma MessageCheckedFirst(message: string, jsonValid: string -> bool, c1: CallerValue, c2: CallerValue,
                            p1: string, p2: string, id1: Option<int>, id2: Option<int>)
    requires message == "" || !jsonValid(message)
    ensures SecureGuards(message, jsonValid, c1, p1, id1) == SecureGuards(message, jsonValid, c2, p2, id2) == Some(BAD_REQUEST)
  {
  }

  /**
   * The status the secure handler answers, as written: the missing-session
   * error is a new error that does not wrap `gorm.ErrRecordNotFound`, so
   * the handler's not-found test fails and a missing session is a 500.
   */
  function SecureUpdateCodeAsWritten(outcome: UpdateOutcome): int {
    match outcome
    case Updated => OK
    case _ => INTERNAL_ERROR
  }

  /** No session id makes the secure handler answer 404: a missing session is answered as a server error. */
  lemma MissingSessionIsServerError(sessions: map<int, ChatSession>, sessionId: int, userId: int)
    requires sessionId !in sessions
    ensures SecureUpdateCodeAsWritten(UpdateOutcomeOf(sessions, sessionId, userId)) == INTERNAL_ERROR
    ensures forall outcome: UpdateOutcome :: SecureUpdateCodeAsWritten(outcome) != NOT_FOUND
  {
  }

  /** The status the handler's not-found branch was written for: a missing session is a 404. */
  function SecureUpdateCode(outcome: UpdateOutcome): (code: int)
    ensures code == NOT_FOUND <==> outcome == SessionMissing
    ensures code == OK <==> outcome == Updated
  {
    match outcome
    case SessionMissing => NOT_FOUND
    case OtherOwner => INTERNAL_ERROR
    case Updated => OK
  }

  /** The `chat_sessions` table. */
  class ChatDb {
    var sessions: map<int, ChatSession>

    constructor (sessions: map<int, ChatSession>)
      ensures this.sessions == sessions
    {
      this.sessions := sessions;
    }

    method FindSession(userId: int, paperId: int) returns (r: Option<int>)
      ensures r == SessionFor(sessions, userId, paperId)
    {
      var ids := SessionsOf(sessions, userId, paperId);
      if exists id :: id in ids {
        var least := Collabs.LeastId(ids);
        return Some(least);
      }
      assert forall id :: id in sessions ==> !(sessions[id].userId == userId && sessions[id].paperId == paperId) by {
        forall id | id in sessions ensures !(sessions[id].userId == userId && sessions[id].paperId == paperId) {
          assert (id in ids) == (id in sessions && sessions[id].userId == userId && sessions[id].paperId == paperId);
        }
      }
      return None;
    }

    /**
     * `CreateChatSessionIfNotExists`: the caller's session about the paper
     * if one exists (`created` false), read without its message, as the
     * lookup selects every column but `message`; otherwise a new empty
     * session under the fresh UUID `newId` (`created` true).  An id already
     * taken makes the insert fail and nothing is stored.
     */
    method CreateChatSessionIfNotExists(userId: int, paperId: int, newId: int, now: int)
      returns (r: Option<(int, ChatSession)>, created: bool)
      modifies this`sessions
      ensures SessionFor(old(sessions), userId, paperId).Some? ==>
        var id := SessionFor(old(sessions), userId, paperId).value;
        r == Some((id, old(sessions)[id].(message := None))) && !created && sessions == old(sessions)
      ensures SessionFor(old(sessions), userId, paperId).None? && newId !in old(sessions) ==>
        r == Some((newId, ChatSession(userId, paperId, None, now, now))) && created
        && sessions == old(sessions)[newId := ChatSession(userId, paperId, None, now, now)]
      ensures SessionFor(old(sessions), userId, paperId).None? && newId in old(sessions) ==>
        r.None? && !created && sessions == old(sessions)
    {
      var found := FindSession(userId, paperId);
      if found.Some? {
        return Some((found.value, sessions[found.value].(message := None))), false;
      }
      if newId in sessions {
        return None, false;
      }
      var s := ChatSession(userId, paperId, None, now, now);
      sessions := sessions[newId := s];
      return Some((newId, s)), true;
    }

    /** `UpdateChatSessionMessageByUser`: the message is stored only in a session the caller owns. */
    method UpdateChatSessionMessageByUser(sessionId: int, userId: int, message: string, now: int)
      returns (outcome: UpdateOutcome)
      modifies this`sessions
      ensures outcome == UpdateOutcomeOf(old(sessions), sessionId, userId)
      ensures sessions == AfterUpdate(old(sessions), sessionId, userId, message, now)
    {
      outcome := UpdateOutcomeOf(sessions, sessionId, userId);
      if outcome == Updated {
        sessions := sessions[sessionId := sessions[sessionId].(message := Some(message), updatedAt := now)];
      }
    }

    /**
     * `UpdateChatSessionSecure`: the guards, then the owner-checked update.
     * `jsonValid` is `encoding/json`'s validity test and `parsed` what
     * `uuid.Parse` made of the session id.
     */
    method UpdateChatSessionSecure(message: string, jsonValid: string -> bool, caller: CallerValue,
                                   sessionParam: string, parsed: Option<int>, now: int)
      returns (code: int)
      modifies this`sessions
      ensures var guard := SecureGuards(message, jsonValid, caller, sessionParam, parsed);
        guard.Some? ==> code == guard.value && sessions == old(sessions)
      ensures SecureGuards(message, jsonValid, caller, sessionParam, parsed).None? ==>
        caller.IntCaller? && parsed.Some?
        && code == SecureUpdateCode(UpdateOutcomeOf(old(sessions), parsed.value, caller.id))
        && sessions == AfterUpdate(old(sessions), parsed.value, caller.id, message, now)
    {
      var guard := SecureGuards(message, jsonValid, caller, sessionParam, parsed);
      if guard.Some? {
        return guard.value;
      }
      var outcome := UpdateChatSessionMessageByUser(parsed.value, caller.id, message, now);
      code := SecureUpdateCode(outcome);
    }

    /**
     * `UpdateChatSessionSecure` as written: the same guards and update, but
     * a missing session comes back as a plain error, so it is answered 500.
     */
    method UpdateChatSessionSecureAsWritten(message: string, jsonValid: string -> bool, caller: CallerValue,
                                            sessionParam: string, parsed: Option<int>, now: int)
      returns (code: int)
      modifies this`sessions
      ensures var guard := SecureGuards(message, jsonValid, caller, sessionParam, parsed);
        guard.Some? ==> code == guard.value && sessions == old(sessions)
      ensures SecureGuards(message, jsonValid, caller, sessionParam, parsed).None? ==>
        caller.IntCaller? && parsed.Some?
        && code == SecureUpdateCodeAsWritten(UpdateOutcomeOf(old(sessions), parsed.value, caller.id))
        && sessions == AfterUpdate(old(sessions), parsed.value, caller.id, message, now)
      ensures code != NOT_FOUND
    {
      var guard := SecureGuards(message, jsonValid, caller, sessionParam, parsed);
      if guard.Some? {
        return guard.value;
      }
      var outcome := UpdateChatSessionMessageByUser(parsed.value, caller.id, message, now);
      code := SecureUpdateCodeAsWritten(outcome);
    }

    /** `HandleGetChatSession`: a given, well-formed id of an existing session; a missing one is a 500. */
    method HandleGetChatSession(sessionParam: string, parsed: Option<int>) returns (code: int, session: Option<ChatSession>)
      ensures code == OK <==> sessionParam != "" && parsed.Some? && parsed.value in sessions
      ensures code == BAD_REQUEST <==> sessionParam == "" || parsed.None?
      ensures code == OK ==> parsed.Some? && parsed.value in sessions && session == Some(sessions[parsed.value])
      ensures code != OK ==> session.None? && (code == BAD_REQUEST || code == INTERNAL_ERROR)
    {
      if sessionParam == "" || parsed.None? {
        return BAD_REQUEST, None;
      }
      if parsed.value !in sessions {
        return INTERNAL_ERROR, None;
      }
      return OK, Some(sessions[parsed.value]);
    }

    /**
     * `UpdateChatSession`, the route without the owner check: any caller's
     * message lands in the named session (its update time is left alone),
     * and a missing session is still answered OK.
     */
    method UpdateChatSession(message: string, parsed: Option<int>) returns (code: int)
      modifies this`sessions
      ensures code == OK <==> message != "" && parsed.Some?
      ensures code != OK ==> code == BAD_REQUEST && sessions == old(sessions)
      ensures code == OK && parsed.Some? && parsed.value in old(sessions) ==>
        sessions == old(sessions)[parsed.value := old(sessions)[parsed.value].(message := Some(message))]
      ensures code == OK && parsed.Some? && parsed.value !in old(sessions) ==> sessions == old(sessions)
    {
      if message == "" || parsed.None? {
        return BAD_REQUEST;
      }
      if parsed.value in sessions {
        sessions := sessions[parsed.value := sessions[parsed.value].(message := Some(message))];
      }
      return OK;
    }
  }

  /** Asking again after a creation returns the session just created and creates nothing. */
  lemma GetOrCreateIsStable(sessions: map<int, ChatSession>, userId: int, paperId: int, newId: int, now: int)
    requires SessionFor(sessions, userId, paperId).None? && newId !in sessions
    ensures var sessions' := sessions[newId := ChatSession(userId, paperId, None, now, now)];
      SessionFor(sessions', userId, paperId) == Some(newId)
  {
    var sessions' := sessions[newId := ChatSession(userId, paperId, None, now, now)];
    assert forall id :: id in sessions ==> !(sessions[id].userId == userId && sessions[id].paperId == paperId);
    assert SessionsOf(sessions', userId, paperId) == {newId};
  }
}
