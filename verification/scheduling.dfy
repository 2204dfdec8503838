/**
 * The collaboration scheduling engine: the overlap test, the owner-calendar
 * conflict check, weekly recurrence expansion, the add-event permission gate
 * and the all-or-nothing creation of one event (and its repeats) in several
 * groups at once.
 *
 * Times are whole seconds since the Unix epoch.  The server runs in
 * Asia/Bangkok (UTC+7, no daylight saving), so adding seven calendar days is
 * adding exactly `WEEK` seconds and the calendar date of an instant is
 * `LocalDate`.
 */
module Scheduling {
  import opened Wrappers
  import opened Collabs
  import Text
  import PermissionMiddleware

  const WEEK: int := 604800
  const DAY: int := 86400
  const BANGKOK_OFFSET: int := 25200
  /** Go's zero `time.Time` (January 1 of year 1, UTC) in Unix seconds. */
  const ZERO_TIME: int := -62135596800

  /** A row of `schedule`. */
  datatype Schedule = Schedule(
    id: int, title: string, start: int, end: int,
    userId: int, repeatInterval: int, repeatGroup: string)

  /** A row of `schedulecollab`: the event is shown in that group. */
  datatype ScheduleCollab = ScheduleCollab(scheduleId: int, collabId: int)

  /** The body of a create request; `collabIds` is `None` when the JSON had no list. */
  datatype NewSchedules = NewSchedules(
    collabIds: Option<seq<int>>, title: string, start: int, end: int, repeatInterval: int)

  /** The calendar date (days since the epoch) of an instant, in Bangkok time. */
  function LocalDate(t: int): int {
    (t + BANGKOK_OFFSET) / DAY
  }

  // ---------------------------------------------------------------- overlap

  /** `start.Before(e2) && end.After(s2)`: the half-open intervals share an instant. */
  predicate Overlaps(s1: int, e1: int, s2: int, e2: int) {
    s1 < e2 && e1 > s2
  }

  lemma OverlapsSymmetric(s1: int, e1: int, s2: int, e2: int)
    ensures Overlaps(s1, e1, s2, e2) == Overlaps(s2, e2, s1, e1)
  {
  }

  lemma OverlapsItself(s: int, e: int)
    ensures Overlaps(s, e, s, e) <==> s < e
  {
  }

  /** Back-to-back events do not conflict. */
  lemma TouchingIntervalsDoNotOverlap(a: int, b: int, c: int)
    ensures !Overlaps(a, b, b, c) && !Overlaps(b, c, a, b)
  {
  }

  /** `CheckOwnerOverlappingTime`: some listed event overlaps [start, end). */
  function CheckOwnerOverlappingTime(schedules: seq<Schedule>, start: int, end: int): (r: bool)
    ensures r <==> exists i :: 0 <= i < |schedules| && Overlaps(start, end, schedules[i].start, schedules[i].end)
    ensures schedules == [] ==> !r
  {
    if schedules == [] then false
    else if Overlaps(start, end, schedules[0].start, schedules[0].end) then true
    else
      var rest := CheckOwnerOverlappingTime(schedules[1..], start, end);
      assert forall i :: 1 <= i < |schedules| ==> schedules[i] == schedules[1..][i - 1];
      rest
  }

  // ---------------------------------------------------------------- owner calendar

  /** The non-archived groups the user owns. */
  function OwnedActiveCollabs(collabs: map<int, Collab>, ownerId: int): set<int> {
    set id | id in collabs && collabs[id].ownerId == ownerId && !collabs[id].archived
  }

  /** `GetCollabOfUserOwner`: the ids of the non-archived groups the user owns, each once. */
  method GetCollabOfUserOwner(collabs: map<int, Collab>, userId: int) returns (ids: seq<int>)
    ensures forall id :: id in ids <==> id in OwnedActiveCollabs(collabs, userId)
    ensures forall i, j :: 0 <= i < j < |ids| ==> ids[i] != ids[j]
  {
    ids := [];
    var rest := collabs.Keys;
    while rest != {}
      invariant rest <= collabs.Keys
      invariant forall id :: id in ids <==> id in OwnedActiveCollabs(collabs, userId) && id !in rest
      invariant forall i, j :: 0 <= i < j < |ids| ==> ids[i] != ids[j]
      decreases rest
    {
      assert (forall x :: x !in rest) ==> rest == {};
      var id :| id in rest;
      if collabs[id].ownerId == userId && !collabs[id].archived {
        ids := ids + [id];
      }
      rest := rest - {id};
    }
  }

  /** Some link shows the event in one of the groups. */
  predicate LinkedToAny(links: seq<ScheduleCollab>, scheduleId: int, groupIds: set<int>) {
    exists l :: l in links && l.scheduleId == scheduleId && l.collabId in groupIds
  }

  /**
   * `GetCollabSchedulesOfOwnerToday`: the events shown in one of the groups
   * whose start falls on the calendar date of `start`, in table order.
   */
  function SchedulesOnDateIn(
    schedules: seq<Schedule>, links: seq<ScheduleCollab>, groupIds: set<int>, start: int): (r: seq<Schedule>)
    ensures forall s :: s in r <==>
      s in schedules && LocalDate(s.start) == LocalDate(start) && LinkedToAny(links, s.id, groupIds)
  {
    if schedules == [] then []
    else
      var rest := SchedulesOnDateIn(schedules[1..], links, groupIds, start);
      assert forall s :: s in schedules <==> s == schedules[0] || s in schedules[1..];
      var s := schedules[0];
      if LocalDate(s.start) == LocalDate(start) && LinkedToAny(links, s.id, groupIds) then [s] + rest
      else rest
  }

  /**
   * The pre-check for one selected group: the new interval overlaps an event
   * on the same date in any non-archived group run by that group's owner.
   */
  predicate OwnerConflict(
    schedules: seq<Schedule>, links: seq<ScheduleCollab>, collabs: map<int, Collab>,
    collabId: int, start: int, end: int)
    requires collabId in collabs
  {
    var owned := OwnedActiveCollabs(collabs, collabs[collabId].ownerId);
    CheckOwnerOverlappingTime(SchedulesOnDateIn(schedules, links, owned, start), start, end)
  }

  /** The owner conflict, stated without the query functions. */
  lemma OwnerConflictMeans(
    schedules: seq<Schedule>, links: seq<ScheduleCollab>, collabs: map<int, Collab>,
    collabId: int, start: int, end: int)
    requires collabId in collabs
    ensures OwnerConflict(schedules, links, collabs, collabId, start, end) <==>
      exists s :: s in schedules && LocalDate(s.start) == LocalDate(start)
        && LinkedToAny(links, s.id, OwnedActiveCollabs(collabs, collabs[collabId].ownerId))
        && Overlaps(start, end, s.start, s.end)
  {
    var owned := OwnedActiveCollabs(collabs, collabs[collabId].ownerId);
    var today := SchedulesOnDateIn(schedules, links, owned, start);
    if OwnerConflict(schedules, links, collabs, collabId, start, end) {
      var i :| 0 <= i < |today| && Overlaps(start, end, today[i].start, today[i].end);
      assert today[i] in today;
    }
    if exists s :: s in schedules && LocalDate(s.start) == LocalDate(start)
        && LinkedToAny(links, s.id, owned) && Overlaps(start, end, s.start, s.end)
    {
      var s :| s in schedules && LocalDate(s.start) == LocalDate(start)
        && LinkedToAny(links, s.id, owned) && Overlaps(start, end, s.start, s.end);
      assert s in today;
      var i :| 0 <= i < |today| && today[i] == s;
    }
  }

  // ---------------------------------------------------------------- permission

  /**
   * `collabMemberHasSchedulePermission`: a missing group denies; its owner
   * passes; anybody else passes iff the group grants the permission.
   */
  predicate HasSchedulePermission(
    collabs: map<int, Collab>, grants: set<Grant>, userId: int, collabId: int, permission: string)
  {
    collabId in collabs
    && (collabs[collabId].ownerId == userId
        || PermissionMiddleware.CollabMemberHasPermission(grants, collabId, permission))
  }

  lemma OwnerMayAddEvents(collabs: map<int, Collab>, grants: set<Grant>, collabId: int)
    requires collabId in collabs
    ensures HasSchedulePermission(collabs, grants, collabs[collabId].ownerId, collabId, ADD_SCHEDULE_EVENT)
  {
  }

  /** A non-owner passes iff the group holds the "Add schedule event" grant. */
  lemma NonOwnerNeedsGrant(collabs: map<int, Collab>, grants: set<Grant>, userId: int, collabId: int)
    requires collabId in collabs && collabs[collabId].ownerId != userId
    ensures HasSchedulePermission(collabs, grants, userId, collabId, ADD_SCHEDULE_EVENT)
        <==> Grant(collabId, ADD_SCHEDULE_EVENT) in grants
  {
  }

  // ---------------------------------------------------------------- recurrence

  /** The dates visited by `for date := from; date.Before(until); date = date + 7 days`. */
  function WeeklyFrom(from: int, until: int): (r: seq<int>)
    decreases until - from
  {
    if from < until then [from] + WeeklyFrom(from + WEEK, until) else []
  }

  lemma {:induction false} WeeklyFromShape(from: int, until: int)
    ensures forall k :: 0 <= k < |WeeklyFrom(from, until)| ==> WeeklyFrom(from, until)[k] == from + k * WEEK
    ensures |WeeklyFrom(from, until)| == 0 || from + (|WeeklyFrom(from, until)| - 1) * WEEK < until
    ensures from + |WeeklyFrom(from, until)| * WEEK >= until
    decreases until - from
  {
    if from < until {
      WeeklyFromShape(from + WEEK, until);
      var r := WeeklyFrom(from, until);
      var rest := WeeklyFrom(from + WEEK, until);
      assert r == [from] + rest;
      forall k | 0 <= k < |r|
        ensures r[k] == from + k * WEEK
      {
        if k > 0 {
          assert r[k] == rest[k - 1];
        }
      }
    }
  }

  /**
   * The start of every repeat of an event: one week after the start, then
   * weekly, while before the end pushed `repeatInterval` weeks later.
   */
  function RepeatStarts(start: int, end: int, repeatInterval: int): seq<int> {
    if repeatInterval > 0 then WeeklyFrom(start + WEEK, end + WEEK * repeatInterval) else []
  }

  /** The k-th repeat starts k + 1 weeks after the event, and no repeat starts at or after the pushed end. */
  lemma RepeatStartsShape(start: int, end: int, repeatInterval: int)
    ensures forall k :: 0 <= k < |RepeatStarts(start, end, repeatInterval)| ==>
      RepeatStarts(start, end, repeatInterval)[k] == start + (k + 1) * WEEK
      && RepeatStarts(start, end, repeatInterval)[k] < end + WEEK * repeatInterval
    ensures repeatInterval > 0 ==>
      start + (|RepeatStarts(start, end, repeatInterval)| + 1) * WEEK >= end + WEEK * repeatInterval
    ensures |RepeatStarts(start, end, repeatInterval)| == 0
      || start + |RepeatStarts(start, end, repeatInterval)| * WEEK < end + WEEK * repeatInterval
  {
    if repeatInterval > 0 {
      WeeklyFromShape(start + WEEK, end + WEEK * repeatInterval);
    }
  }

  lemma NoRepeatsWithoutInterval(start: int, end: int, repeatInterval: int)
    requires repeatInterval <= 0
    ensures RepeatStarts(start, end, repeatInterval) == []
  {
  }

  /** An event no longer than a week repeats exactly `repeatInterval` times. */
  lemma RepeatCountWithinWeek(start: int, end: int, repeatInterval: int)
    requires repeatInterval > 0 && start < end <= start + WEEK
    ensures |RepeatStarts(start, end, repeatInterval)| == repeatInterval
  {
    RepeatStartsShape(start, end, repeatInterval);
    var r := RepeatStarts(start, end, repeatInterval);
    assert |r| >= repeatInterval;
    assert r[|r| - 1] == start + |r| * WEEK;
  }

  /** A zero-length event repeats one time fewer than asked. */
  lemma RepeatCountZeroLength(start: int, repeatInterval: int)
    requires repeatInterval > 0
    ensures |RepeatStarts(start, start, repeatInterval)| == repeatInterval - 1
  {
    RepeatStartsShape(start, start, repeatInterval);
    var r := RepeatStarts(start, start, repeatInterval);
    if |r| > 0 {
      assert r[|r| - 1] == start + |r| * WEEK;
    }
  }

  /** An event longer than a week repeats more often than asked. */
  lemma RepeatCountLongEvent(start: int, end: int, repeatInterval: int)
    requires repeatInterval > 0 && end > start + WEEK
    ensures |RepeatStarts(start, end, repeatInterval)| > repeatInterval
  {
    RepeatStartsShape(start, end, repeatInterval);
  }

  /** Every repeat of an event is checked for a clash by the (unseen) repeat-overlap check. */
  predicate RepeatConflict(collab: Collab, req: NewSchedules, repeatConflict: (Collab, int, int) -> bool) {
    var starts := RepeatStarts(req.start, req.end, req.repeatInterval);
    exists k :: 0 <= k < |starts| && repeatConflict(collab, starts[k], starts[k] + (req.end - req.start))
  }

  /** The repeat group of a series: the decimal id of its first row when the event repeats. */
  function SeriesGroup(firstId: int, req: NewSchedules): string {
    if req.repeatInterval > 0 then Text.Itoa(firstId) else ""
  }

  /** The event's own row, as it stands at commit. */
  function BaseRow(firstId: int, req: NewSchedules, userId: int): Schedule {
    Schedule(firstId, req.title, req.start, req.end, userId, req.repeatInterval, SeriesGroup(firstId, req))
  }

  /** The row of the k-th repeat, on `date`: as long as the event, with an id following the event's. */
  function RepeatRow(firstId: int, req: NewSchedules, userId: int, k: int, date: int): Schedule {
    Schedule(firstId + 1 + k, req.title, date, date + (req.end - req.start), userId, req.repeatInterval, SeriesGroup(firstId, req))
  }

  /** The rows of the repeats on `dates`, in order. */
  function RowsOn(firstId: int, req: NewSchedules, userId: int, dates: seq<int>): (rows: seq<Schedule>)
    ensures |rows| == |dates|
    decreases |dates|
  {
    if dates == [] then []
    else RowsOn(firstId, req, userId, dates[..|dates| - 1])
         + [RepeatRow(firstId, req, userId, |dates| - 1, dates[|dates| - 1])]
  }

  /** The links of the first `n` repeats. */
  function LinksUpTo(firstId: int, collabId: int, n: nat): (lks: seq<ScheduleCollab>)
    ensures |lks| == n
  {
    if n == 0 then [] else LinksUpTo(firstId, collabId, n - 1) + [ScheduleCollab(firstId + n, collabId)]
  }

  lemma {:induction false} RowsOnAt(firstId: int, req: NewSchedules, userId: int, dates: seq<int>)
    ensures forall k :: 0 <= k < |dates| ==> RowsOn(firstId, req, userId, dates)[k] == RepeatRow(firstId, req, userId, k, dates[k])
    decreases |dates|
  {
    if dates != [] {
      var last := |dates| - 1;
      RowsOnAt(firstId, req, userId, dates[..last]);
      forall k | 0 <= k < last
        ensures dates[..last][k] == dates[k]
      {
      }
    }
  }

  lemma {:induction false} LinksUpToAt(firstId: int, collabId: int, n: nat)
    ensures forall k :: 0 <= k < n ==> LinksUpTo(firstId, collabId, n)[k] == ScheduleCollab(firstId + 1 + k, collabId)
  {
    if n > 0 {
      LinksUpToAt(firstId, collabId, n - 1);
    }
  }

  /** One row per repeat date, each as long as the event, with ids following the event's. */
  function RepeatRows(firstId: int, req: NewSchedules, userId: int): seq<Schedule> {
    RowsOn(firstId, req, userId, RepeatStarts(req.start, req.end, req.repeatInterval))
  }

  function RepeatLinks(firstId: int, collabId: int, req: NewSchedules): seq<ScheduleCollab> {
    LinksUpTo(firstId, collabId, |RepeatStarts(req.start, req.end, req.repeatInterval)|)
  }

  /** The rows one selected group receives: the event itself, then its repeats. */
  function Series(firstId: int, req: NewSchedules, userId: int): (rows: seq<Schedule>)
    ensures |rows| == SeriesSize(req)
  {
    [BaseRow(firstId, req, userId)] + RepeatRows(firstId, req, userId)
  }

  function SeriesSize(req: NewSchedules): int {
    1 + |RepeatStarts(req.start, req.end, req.repeatInterval)|
  }

  /** The links of one selected group's rows, one per row. */
  function SeriesLinks(firstId: int, collabId: int, req: NewSchedules): (lks: seq<ScheduleCollab>)
    ensures |lks| == SeriesSize(req)
  {
    [ScheduleCollab(firstId, collabId)] + RepeatLinks(firstId, collabId, req)
  }

  /**
   * Every row of a series carries the request's title, the acting user, the
   * requested interval and the same length; repeats fall on whole weeks after
   * the event; the repeat group is the decimal id of the first row when the
   * event repeats and empty otherwise.
   */
  lemma SeriesShape(firstId: int, req: NewSchedules, userId: int)
    ensures Series(firstId, req, userId)[0].start == req.start
    ensures forall k :: 0 <= k < |Series(firstId, req, userId)| ==>
      var r := Series(firstId, req, userId)[k];
      r.id == firstId + k && r.title == req.title && r.userId == userId
      && r.repeatInterval == req.repeatInterval
      && r.end - r.start == req.end - req.start
      && r.start == req.start + k * WEEK
      && r.repeatGroup == (if req.repeatInterval > 0 then Text.Itoa(firstId) else "")
  {
    RepeatStartsShape(req.start, req.end, req.repeatInterval);
    RowsOnAt(firstId, req, userId, RepeatStarts(req.start, req.end, req.repeatInterval));
    var rows := Series(firstId, req, userId);
    forall k | 1 <= k < |rows|
      ensures rows[k] == RepeatRows(firstId, req, userId)[k - 1]
    {
    }
  }

  /** The k-th link of a series links the k-th row to the group. */
  lemma SeriesLinksAt(firstId: int, collabId: int, req: NewSchedules)
    ensures forall k :: 0 <= k < SeriesSize(req) ==> SeriesLinks(firstId, collabId, req)[k] == ScheduleCollab(firstId + k, collabId)
  {
    var n := |RepeatStarts(req.start, req.end, req.repeatInterval)|;
    LinksUpToAt(firstId, collabId, n);
    var lks := SeriesLinks(firstId, collabId, req);
    forall k | 1 <= k < SeriesSize(req)
      ensures lks[k] == ScheduleCollab(firstId + k, collabId)
    {
      assert lks[k] == LinksUpTo(firstId, collabId, n)[k - 1];
    }
  }

  /** The k-th row of a series has id `firstId + k`. */
  lemma SeriesIds(firstId: int, req: NewSchedules, userId: int)
    ensures forall k :: 0 <= k < SeriesSize(req) ==> Series(firstId, req, userId)[k].id == firstId + k
  {
    var starts := RepeatStarts(req.start, req.end, req.repeatInterval);
    RowsOnAt(firstId, req, userId, starts);
    var rows := Series(firstId, req, userId);
    forall k | 1 <= k < SeriesSize(req)
      ensures rows[k].id == firstId + k
    {
      assert rows[k] == RowsOn(firstId, req, userId, starts)[k - 1];
    }
  }

  /** Series started at different ids carry different repeat groups. */
  lemma SeriesGroupsDistinct(id1: int, id2: int, req: NewSchedules, userId: int)
    requires req.repeatInterval > 0 && id1 != id2
    ensures Series(id1, req, userId)[0].repeatGroup != Series(id2, req, userId)[0].repeatGroup
  {
    if Text.Itoa(id1) == Text.Itoa(id2) {
      Text.ItoaInjective(id1, id2);
    }
  }

  /** The rows of the whole request: one series per selected group, in order, ids consecutive. */
  function AllRows(firstId: int, collabIds: seq<int>, req: NewSchedules, userId: int): seq<Schedule>
    decreases |collabIds|
  {
    if collabIds == [] then []
    else
      var done := AllRows(firstId, collabIds[..|collabIds| - 1], req, userId);
      done + Series(firstId + |done|, req, userId)
  }

  /** The links of the whole request, one per row, each to the group the row's series was made for. */
  function AllLinks(firstId: int, collabIds: seq<int>, req: NewSchedules): seq<ScheduleCollab>
    decreases |collabIds|
  {
    if collabIds == [] then []
    else
      var done := AllLinks(firstId, collabIds[..|collabIds| - 1], req);
      done + SeriesLinks(firstId + |done|, collabIds[|collabIds| - 1], req)
  }

  /** There is one link per created row. */
  lemma {:induction false} AllLinksCount(firstId: int, collabIds: seq<int>, req: NewSchedules, userId: int)
    ensures |AllLinks(firstId, collabIds, req)| == |AllRows(firstId, collabIds, req, userId)|
    decreases |collabIds|
  {
    if collabIds != [] {
      AllLinksCount(firstId, collabIds[..|collabIds| - 1], req, userId);
    }
  }

  /** The created rows take consecutive ids from `firstId`. */
  lemma {:induction false} AllRowsIds(firstId: int, collabIds: seq<int>, req: NewSchedules, userId: int)
    ensures forall j :: 0 <= j < |AllRows(firstId, collabIds, req, userId)| ==>
      AllRows(firstId, collabIds, req, userId)[j].id == firstId + j
    decreases |collabIds|
  {
    if collabIds != [] {
      var done := AllRows(firstId, collabIds[..|collabIds| - 1], req, userId);
      var rows := AllRows(firstId, collabIds, req, userId);
      AllRowsIds(firstId, collabIds[..|collabIds| - 1], req, userId);
      SeriesIds(firstId + |done|, req, userId);
      forall j | |done| <= j < |rows|
        ensures rows[j].id == firstId + j
      {
        assert rows[j] == Series(firstId + |done|, req, userId)[j - |done|];
      }
    }
  }

  /** Each link names the row at its position, and one of the selected groups. */
  lemma {:induction false} AllLinksShape(firstId: int, collabIds: seq<int>, req: NewSchedules)
    ensures forall j :: 0 <= j < |AllLinks(firstId, collabIds, req)| ==>
      AllLinks(firstId, collabIds, req)[j].scheduleId == firstId + j
      && AllLinks(firstId, collabIds, req)[j].collabId in collabIds
    decreases |collabIds|
  {
    if collabIds != [] {
      var last := |collabIds| - 1;
      var done := AllLinks(firstId, collabIds[..last], req);
      var lks := AllLinks(firstId, collabIds, req);
      AllLinksShape(firstId, collabIds[..last], req);
      SeriesLinksAt(firstId + |done|, collabIds[last], req);
      forall j | 0 <= j < |lks|
        ensures lks[j].scheduleId == firstId + j && lks[j].collabId in collabIds
      {
        if j < |done| {
          assert lks[j] == done[j];
          assert done[j].collabId in collabIds[..last];
        } else {
          assert lks[j] == SeriesLinks(firstId + |done|, collabIds[last], req)[j - |done|];
        }
      }
    }
  }

  /**
   * The created rows take consecutive ids, and each row has exactly one link,
   * at the same position, to one of the selected groups.
   */
  lemma AllRowsLinked(firstId: int, collabIds: seq<int>, req: NewSchedules, userId: int)
    ensures |AllLinks(firstId, collabIds, req)| == |AllRows(firstId, collabIds, req, userId)|
    ensures forall j :: 0 <= j < |AllRows(firstId, collabIds, req, userId)| ==>
      AllRows(firstId, collabIds, req, userId)[j].id == firstId + j
      && AllLinks(firstId, collabIds, req)[j].scheduleId == firstId + j
      && AllLinks(firstId, collabIds, req)[j].collabId in collabIds
  {
    AllLinksCount(firstId, collabIds, req, userId);
    AllRowsIds(firstId, collabIds, req, userId);
    AllLinksShape(firstId, collabIds, req);
  }

  // ---------------------------------------------------------------- the create request

  /** The fields the handler insists on (it checks nothing else). */
  predicate MissingFields(req: NewSchedules) {
    req.collabIds.None? || req.title == "" || req.start == ZERO_TIME || req.end == ZERO_TIME
  }

  /** The outcome of the pre-check loop over the selected groups, run on the committed tables. */
  function PrecheckOutcome(
    schedules: seq<Schedule>, links: seq<ScheduleCollab>, collabs: map<int, Collab>,
    collabIds: seq<int>, start: int, end: int): int
    decreases |collabIds|
  {
    if collabIds == [] then OK
    else if collabIds[0] !in collabs then INTERNAL_ERROR
    else if OwnerConflict(schedules, links, collabs, collabIds[0], start, end) then BAD_REQUEST
    else PrecheckOutcome(schedules, links, collabs, collabIds[1..], start, end)
  }

  /** The outcome of the transaction loop over the selected groups. */
  function CommitOutcome(
    collabs: map<int, Collab>, grants: set<Grant>, userId: int, collabIds: seq<int>,
    req: NewSchedules, repeatConflict: (Collab, int, int) -> bool): int
    decreases |collabIds|
  {
    if collabIds == [] then OK
    else
      match GroupRefusal(collabs, grants, userId, collabIds[0], req, repeatConflict)
      case Some(code) => code
      case None => CommitOutcome(collabs, grants, userId, collabIds[1..], req, repeatConflict)
  }

  /**
   * Why the transaction stops at one selected group, if it does: the group
   * is unknown, the caller may not add events to it, or a repeat of the
   * event collides with its calendar.
   */
  function GroupRefusal(
    collabs: map<int, Collab>, grants: set<Grant>, userId: int, c: int,
    req: NewSchedules, repeatConflict: (Collab, int, int) -> bool): (r: Option<int>)
    ensures r.Some? ==> r.value in {INTERNAL_ERROR, UNAUTHORIZED, BAD_REQUEST}
    ensures r == Some(INTERNAL_ERROR) <==> c !in collabs
  {
    if c !in collabs then Some(INTERNAL_ERROR)
    else if !HasSchedulePermission(collabs, grants, userId, c, ADD_SCHEDULE_EVENT) then Some(UNAUTHORIZED)
    else if req.repeatInterval > 0 && RepeatConflict(collabs[c], req, repeatConflict) then Some(BAD_REQUEST)
    else None
  }

  /** The status `HandleCreateScheduleForSelectedCollabs` answers with. */
  function CreateOutcome(
    schedules: seq<Schedule>, links: seq<ScheduleCollab>, collabs: map<int, Collab>,
    grants: set<Grant>, userId: int, req: NewSchedules,
    repeatConflict: (Collab, int, int) -> bool): int
  {
    if userId == 0 then UNAUTHORIZED
    else if MissingFields(req) then BAD_REQUEST
    else
      var pre := PrecheckOutcome(schedules, links, collabs, req.collabIds.value, req.start, req.end);
      if pre != OK then pre
      else CommitOutcome(collabs, grants, userId, req.collabIds.value, req, repeatConflict)
  }

  /** A selected group passes every check of the request. */
  predicate GroupAccepts(
    schedules: seq<Schedule>, links: seq<ScheduleCollab>, collabs: map<int, Collab>,
    grants: set<Grant>, userId: int, collabId: int, req: NewSchedules,
    repeatConflict: (Collab, int, int) -> bool)
  {
    collabId in collabs
    && !OwnerConflict(schedules, links, collabs, collabId, req.start, req.end)
    && HasSchedulePermission(collabs, grants, userId, collabId, ADD_SCHEDULE_EVENT)
    && !(req.repeatInterval > 0 && RepeatConflict(collabs[collabId], req, repeatConflict))
  }

  lemma {:induction false} PrecheckOkIff(
    schedules: seq<Schedule>, links: seq<ScheduleCollab>, collabs: map<int, Collab>,
    collabIds: seq<int>, start: int, end: int)
    ensures PrecheckOutcome(schedules, links, collabs, collabIds, start, end) == OK <==>
      forall c :: c in collabIds ==> c in collabs && !OwnerConflict(schedules, links, collabs, c, start, end)
    decreases |collabIds|
  {
    if collabIds != [] {
      PrecheckOkIff(schedules, links, collabs, collabIds[1..], start, end);
      assert forall c :: c in collabIds <==> c == collabIds[0] || c in collabIds[1..];
    }
  }

  lemma {:induction false} CommitOkIff(
    collabs: map<int, Collab>, grants: set<Grant>, userId: int, collabIds: seq<int>,
    req: NewSchedules, repeatConflict: (Collab, int, int) -> bool)
    ensures CommitOutcome(collabs, grants, userId, collabIds, req, repeatConflict) == OK <==>
      forall c :: c in collabIds ==>
        c in collabs && HasSchedulePermission(collabs, grants, userId, c, ADD_SCHEDULE_EVENT)
        && !(req.repeatInterval > 0 && RepeatConflict(collabs[c], req, repeatConflict))
    decreases |collabIds|
  {
    if collabIds != [] {
      CommitOkIff(collabs, grants, userId, collabIds[1..], req, repeatConflict);
      assert forall c :: c in collabIds <==> c == collabIds[0] || c in collabIds[1..];
    }
  }

  /**
   * The request succeeds iff the caller is known, the fields are present and
   * every selected group exists, has no owner-calendar clash, lets the caller
   * add events and has no clash on a repeat date.  One failing group fails the
   * whole request.
   */
  lemma CreateOkIff(
    schedules: seq<Schedule>, links: seq<ScheduleCollab>, collabs: map<int, Collab>,
    grants: set<Grant>, userId: int, req: NewSchedules,
    repeatConflict: (Collab, int, int) -> bool)
    ensures CreateOutcome(schedules, links, collabs, grants, userId, req, repeatConflict) == OK <==>
      userId != 0 && !MissingFields(req)
      && forall c :: c in req.collabIds.value ==>
        GroupAccepts(schedules, links, collabs, grants, userId, c, req, repeatConflict)
  {
    if userId != 0 && !MissingFields(req) {
      PrecheckOkIff(schedules, links, collabs, req.collabIds.value, req.start, req.end);
      CommitOkIff(collabs, grants, userId, req.collabIds.value, req, repeatConflict);
    }
  }

  /** Missing fields are rejected whatever the tables hold: nothing is read first. */
  lemma MissingFieldsRejectedFirst(
    schedules: seq<Schedule>, links: seq<ScheduleCollab>, collabs: map<int, Collab>,
    grants: set<Grant>, userId: int, req: NewSchedules,
    repeatConflict: (Collab, int, int) -> bool)
    requires userId != 0 && MissingFields(req)
    ensures CreateOutcome(schedules, links, collabs, grants, userId, req, repeatConflict) == BAD_REQUEST
  {
  }

  // ---------------------------------------------------------------- the store

  /** Some row of the table has that id. */
  predicate HasRow(schedules: seq<Schedule>, id: int) {
    exists j :: 0 <= j < |schedules| && schedules[j].id == id
  }

  /** Schedule ids are positive, below the next id and distinct; links name existing rows. */
  predicate StoreValid(schedules: seq<Schedule>, links: seq<ScheduleCollab>, nextId: int) {
    0 < nextId
    && (forall i :: 0 <= i < |schedules| ==> 0 < schedules[i].id < nextId)
    && (forall i, j :: 0 <= i < j < |schedules| ==> schedules[i].id != schedules[j].id)
    && (forall i :: 0 <= i < |links| ==> HasRow(schedules, links[i].scheduleId))
  }

  lemma AppendRowValid(
    schedules: seq<Schedule>, links: seq<ScheduleCollab>, nextId: int, row: Schedule, collabId: int)
    requires StoreValid(schedules, links, nextId) && row.id == nextId
    ensures StoreValid(schedules + [row], links + [ScheduleCollab(nextId, collabId)], nextId + 1)
  {
    var s' := schedules + [row];
    assert s'[|schedules|] == row;
    forall i | 0 <= i < |links|
      ensures HasRow(s', links[i].scheduleId)
    {
      var j :| 0 <= j < |schedules| && schedules[j].id == links[i].scheduleId;
      assert s'[j] == schedules[j];
    }
  }

  lemma ReplaceLastValid(
    schedules: seq<Schedule>, links: seq<ScheduleCollab>, nextId: int, row: Schedule)
    requires StoreValid(schedules, links, nextId) && schedules != []
    requires row.id == schedules[|schedules| - 1].id
    ensures StoreValid(schedules[..|schedules| - 1] + [row], links, nextId)
  {
    var last := |schedules| - 1;
    var s' := schedules[..last] + [row];
    forall i | 0 <= i < |links|
      ensures HasRow(s', links[i].scheduleId)
    {
      var j :| 0 <= j < |schedules| && schedules[j].id == links[i].scheduleId;
      assert s'[j].id == schedules[j].id;
    }
  }

  /** The pre-check loop of the create handler, over the committed tables. */
  method PrecheckSelected(
    schedules: seq<Schedule>, links: seq<ScheduleCollab>, collabs: map<int, Collab>,
    ids: seq<int>, start: int, end: int) returns (code: int)
    ensures code == PrecheckOutcome(schedules, links, collabs, ids, start, end)
  {
    var i := 0;
    while i < |ids|
      invariant 0 <= i <= |ids|
      invariant PrecheckOutcome(schedules, links, collabs, ids, start, end)
             == PrecheckOutcome(schedules, links, collabs, ids[i..], start, end)
    {
      assert ids[i..][1..] == ids[i + 1..];
      if ids[i] !in collabs {
        return INTERNAL_ERROR;
      }
      var owned := GetCollabOfUserOwner(collabs, collabs[ids[i]].ownerId);
      var ownedSet := set x | x in owned;
      assert ownedSet == OwnedActiveCollabs(collabs, collabs[ids[i]].ownerId);
      var today := SchedulesOnDateIn(schedules, links, ownedSet, start);
      if CheckOwnerOverlappingTime(today, start, end) {
        return BAD_REQUEST;
      }
      i := i + 1;
    }
    return OK;
  }

  /** The repeat-date loop that asks the overlap check about every repeat of the event. */
  method CheckRepeatDates(collab: Collab, req: NewSchedules, repeatConflict: (Collab, int, int) -> bool)
    returns (conflict: bool)
    requires req.repeatInterval > 0
    ensures conflict <==> RepeatConflict(collab, req, repeatConflict)
  {
    ghost var starts := RepeatStarts(req.start, req.end, req.repeatInterval);
    RepeatStartsShape(req.start, req.end, req.repeatInterval);
    var dur := req.end - req.start;
    var endDate := req.end + WEEK * req.repeatInterval;
    var date := req.start + WEEK;
    ghost var k := 0;
    while date < endDate
      invariant 0 <= k <= |starts|
      invariant date == req.start + (k + 1) * WEEK
      invariant forall j :: 0 <= j < k ==> !repeatConflict(collab, starts[j], starts[j] + dur)
    {
      if repeatConflict(collab, date, date + dur) {
        assert starts[k] == date;
        return true;
      }
      date, k := date + WEEK, k + 1;
    }
    return false;
  }

  /** The loop that adds one row and one link per repeat date of a repeating event. */
  method AddRepeats(
    sch: seq<Schedule>, lk: seq<ScheduleCollab>, baseId: int,
    collabId: int, req: NewSchedules, userId: int)
    returns (sch': seq<Schedule>, lk': seq<ScheduleCollab>, nextId': int)
    requires req.repeatInterval > 0
    requires StoreValid(sch, lk, baseId + 1)
    ensures sch' == sch + RepeatRows(baseId, req, userId)
    ensures lk' == lk + RepeatLinks(baseId, collabId, req)
    ensures nextId' == baseId + SeriesSize(req)
    ensures StoreValid(sch', lk', nextId')
  {
    ghost var starts := RepeatStarts(req.start, req.end, req.repeatInterval);
    var group := Text.Itoa(baseId);
    var dur := req.end - req.start;
    var endDate := req.end + WEEK * req.repeatInterval;
    var date := req.start + WEEK;
    sch', lk', nextId' := sch, lk, baseId + 1;
    ghost var k := 0;
    assert starts[..0] == [];
    while date < endDate
      invariant 0 <= k <= |starts| && date == req.start + (k + 1) * WEEK && nextId' == baseId + 1 + k
      invariant RepeatLoopState(sch, lk, baseId, collabId, req, userId, k, sch', lk')
    {
      var row := Schedule(nextId', req.title, date, date + dur, userId, req.repeatInterval, group);
      RepeatLoopStep(sch, lk, baseId, collabId, req, userId, k, sch', lk');
      sch', lk', nextId' := sch' + [row], lk' + [ScheduleCollab(nextId', collabId)], nextId' + 1;
      date, k := date + WEEK, k + 1;
    }
    RepeatLoopExit(req.start, req.end, req.repeatInterval, k);
    assert starts[..k] == starts;
  }

  /** The tables after `k` turns of the repeat loop. */
  predicate RepeatLoopState(
    sch: seq<Schedule>, lk: seq<ScheduleCollab>, baseId: int, collabId: int, req: NewSchedules, userId: int,
    k: nat, curSch: seq<Schedule>, curLk: seq<ScheduleCollab>)
    requires req.repeatInterval > 0
  {
    k <= |RepeatStarts(req.start, req.end, req.repeatInterval)|
    && curSch == sch + RowsOn(baseId, req, userId, RepeatStarts(req.start, req.end, req.repeatInterval)[..k])
    && curLk == lk + LinksUpTo(baseId, collabId, k)
    && StoreValid(curSch, curLk, baseId + 1 + k)
  }

  /** One turn of the repeat loop: the row it appends is the next repeat row, and the store stays valid. */
  lemma RepeatLoopStep(
    sch: seq<Schedule>, lk: seq<ScheduleCollab>, baseId: int, collabId: int, req: NewSchedules, userId: int,
    k: nat, curSch: seq<Schedule>, curLk: seq<ScheduleCollab>)
    requires req.repeatInterval > 0
    requires req.start + (k + 1) * WEEK < req.end + WEEK * req.repeatInterval
    requires RepeatLoopState(sch, lk, baseId, collabId, req, userId, k, curSch, curLk)
    ensures RepeatLoopState(sch, lk, baseId, collabId, req, userId, k + 1,
                            curSch + [Schedule(baseId + 1 + k, req.title, req.start + (k + 1) * WEEK,
                                               req.start + (k + 1) * WEEK + (req.end - req.start), userId,
                                               req.repeatInterval, Text.Itoa(baseId))],
                            curLk + [ScheduleCollab(baseId + 1 + k, collabId)])
  {
    var starts := RepeatStarts(req.start, req.end, req.repeatInterval);
    RepeatStartsShape(req.start, req.end, req.repeatInterval);
    var date := req.start + (k + 1) * WEEK;
    assert k < |starts|;
    assert starts[k] == date;
    var row := Schedule(baseId + 1 + k, req.title, date, date + (req.end - req.start), userId,
                        req.repeatInterval, Text.Itoa(baseId));
    assert row == RepeatRow(baseId, req, userId, k, starts[k]);
    RowsOnStep(baseId, req, userId, starts, k);
    ConcatAssoc(sch, RowsOn(baseId, req, userId, starts[..k]), [row]);
    ConcatAssoc(lk, LinksUpTo(baseId, collabId, k), [ScheduleCollab(baseId + 1 + k, collabId)]);
    AppendRowValid(curSch, curLk, baseId + 1 + k, row, collabId);
  }

  /** The repeat loop stops exactly after the last repeat date. */
  lemma RepeatLoopExit(start: int, end: int, repeatInterval: int, k: nat)
    requires repeatInterval > 0
    requires k <= |RepeatStarts(start, end, repeatInterval)|
    requires start + (k + 1) * WEEK >= end + WEEK * repeatInterval
    ensures k == |RepeatStarts(start, end, repeatInterval)|
  {
    RepeatStartsShape(start, end, repeatInterval);
  }

  lemma RowsOnStep(firstId: int, req: NewSchedules, userId: int, dates: seq<int>, k: int)
    requires 0 <= k < |dates|
    ensures RowsOn(firstId, req, userId, dates[..k + 1])
         == RowsOn(firstId, req, userId, dates[..k]) + [RepeatRow(firstId, req, userId, k, dates[k])]
  {
    assert dates[..k + 1][..k] == dates[..k];
  }

  /**
   * The rows the transaction adds for one selected group: the event and its
   * link, then, when it repeats, the repeat group saved on the event and one
   * row and link per repeat date.
   */
  method AddSeries(
    sch: seq<Schedule>, lk: seq<ScheduleCollab>, nextId: int,
    collabId: int, req: NewSchedules, userId: int)
    returns (sch': seq<Schedule>, lk': seq<ScheduleCollab>, nextId': int)
    requires StoreValid(sch, lk, nextId)
    ensures sch' == sch + Series(nextId, req, userId)
    ensures lk' == lk + SeriesLinks(nextId, collabId, req)
    ensures nextId' == nextId + SeriesSize(req)
    ensures StoreValid(sch', lk', nextId')
  {
    var baseId := nextId;
    var base := Schedule(baseId, req.title, req.start, req.end, userId, req.repeatInterval, "");
    AppendRowValid(sch, lk, nextId, base, collabId);
    sch', lk', nextId' := sch + [base], lk + [ScheduleCollab(baseId, collabId)], nextId + 1;
    if req.repeatInterval > 0 {
      base := base.(repeatGroup := Text.Itoa(baseId));
      ReplaceLastValid(sch', lk', nextId', base);
      assert sch'[..|sch'| - 1] == sch;
      sch' := sch + [base];
      ghost var lk0 := lk';
      sch', lk', nextId' := AddRepeats(sch', lk', baseId, collabId, req, userId);
      ConcatAssoc(sch, [base], RepeatRows(baseId, req, userId));
      ConcatAssoc(lk, [ScheduleCollab(baseId, collabId)], RepeatLinks(baseId, collabId, req));
    }
  }

  /** One more selected group adds its series after the rows and links of the groups before it. */
  lemma AllStep(
    sch: seq<Schedule>, lk: seq<ScheduleCollab>, nextId: int, ids: seq<int>, i: int, req: NewSchedules, userId: int)
    requires 0 <= i < |ids|
    ensures var done := AllRows(nextId, ids[..i], req, userId);
      sch + AllRows(nextId, ids[..i + 1], req, userId) == (sch + done) + Series(nextId + |done|, req, userId)
      && lk + AllLinks(nextId, ids[..i + 1], req) == (lk + AllLinks(nextId, ids[..i], req)) + SeriesLinks(nextId + |done|, ids[i], req)
  {
    var done := AllRows(nextId, ids[..i], req, userId);
    var doneLinks := AllLinks(nextId, ids[..i], req);
    assert ids[..i + 1][..i] == ids[..i];
    AllLinksCount(nextId, ids[..i], req, userId);
    assert AllRows(nextId, ids[..i + 1], req, userId) == done + Series(nextId + |done|, req, userId);
    assert AllLinks(nextId, ids[..i + 1], req) == doneLinks + SeriesLinks(nextId + |done|, ids[i], req);
    ConcatAssoc(sch, done, Series(nextId + |done|, req, userId));
    ConcatAssoc(lk, doneLinks, SeriesLinks(nextId + |done|, ids[i], req));
  }

  lemma ConcatAssoc<T>(a: seq<T>, b: seq<T>, c: seq<T>)
    ensures a + (b + c) == (a + b) + c
  {
  }

  /** The checks the transaction makes on one selected group. */
  method CheckGroup(
    collabs: map<int, Collab>, grants: set<Grant>, userId: int, c: int,
    req: NewSchedules, repeatConflict: (Collab, int, int) -> bool) returns (r: Option<int>)
    ensures r == GroupRefusal(collabs, grants, userId, c, req, repeatConflict)
  {
    if c !in collabs {
      return Some(INTERNAL_ERROR);
    }
    if !HasSchedulePermission(collabs, grants, userId, c, ADD_SCHEDULE_EVENT) {
      return Some(UNAUTHORIZED);
    }
    if req.repeatInterval > 0 {
      var conflict := CheckRepeatDates(collabs[c], req, repeatConflict);
      if conflict {
        return Some(BAD_REQUEST);
      }
    }
    return None;
  }

  /** The transaction loop of the create handler, on copies of the tables. */
  method CommitSelected(
    sch: seq<Schedule>, lk: seq<ScheduleCollab>, nextId: int,
    collabs: map<int, Collab>, grants: set<Grant>, userId: int, ids: seq<int>,
    req: NewSchedules, repeatConflict: (Collab, int, int) -> bool)
    returns (code: int, sch': seq<Schedule>, lk': seq<ScheduleCollab>, nextId': int)
    requires StoreValid(sch, lk, nextId)
    ensures code == CommitOutcome(collabs, grants, userId, ids, req, repeatConflict)
    ensures code == OK ==>
      sch' == sch + AllRows(nextId, ids, req, userId)
      && lk' == lk + AllLinks(nextId, ids, req)
      && nextId' == nextId + |AllRows(nextId, ids, req, userId)|
      && StoreValid(sch', lk', nextId')
  {
    sch', lk', nextId' := sch, lk, nextId;
    var i := 0;
    while i < |ids|
      invariant 0 <= i <= |ids|
      invariant CommitOutcome(collabs, grants, userId, ids, req, repeatConflict)
             == CommitOutcome(collabs, grants, userId, ids[i..], req, repeatConflict)
      invariant sch' == sch + AllRows(nextId, ids[..i], req, userId)
      invariant lk' == lk + AllLinks(nextId, ids[..i], req)
      invariant nextId' == nextId + |AllRows(nextId, ids[..i], req, userId)|
      invariant StoreValid(sch', lk', nextId')
    {
      assert ids[i..][1..] == ids[i + 1..];
      var c := ids[i];
      var refusal := CheckGroup(collabs, grants, userId, c, req, repeatConflict);
      if refusal.Some? {
        return refusal.value, sch', lk', nextId';
      }
      AllStep(sch, lk, nextId, ids, i, req, userId);
      sch', lk', nextId' := AddSeries(sch', lk', nextId', c, req, userId);
      i := i + 1;
    }
    assert ids[..|ids|] == ids;
    return OK, sch', lk', nextId';
  }

  /** The `schedule` and `schedulecollab` tables. */
  class ScheduleStore {
    var schedules: seq<Schedule>
    var links: seq<ScheduleCollab>
    var nextScheduleId: int

    ghost predicate Valid()
      reads this
    {
      StoreValid(schedules, links, nextScheduleId)
    }

    constructor ()
      ensures Valid() && schedules == [] && links == []
    {
      schedules, links, nextScheduleId := [], [], 1;
    }

    /**
     * `HandleCreateScheduleForSelectedCollabs`.  `repeatConflict` stands for
     * the repeat-date overlap check.  The request either commits one series
     * per selected group or leaves both tables as they were.
     */
    method CreateForSelectedCollabs(
      userId: int, req: NewSchedules, collabs: map<int, Collab>, grants: set<Grant>,
      repeatConflict: (Collab, int, int) -> bool) returns (code: int)
      requires Valid()
      modifies this
      ensures Valid()
      ensures code == CreateOutcome(old(schedules), old(links), collabs, grants, userId, req, repeatConflict)
      ensures code == OK ==>
        schedules == old(schedules) + AllRows(old(nextScheduleId), req.collabIds.value, req, userId)
        && links == old(links) + AllLinks(old(nextScheduleId), req.collabIds.value, req)
        && nextScheduleId == old(nextScheduleId) + |AllRows(old(nextScheduleId), req.collabIds.value, req, userId)|
      ensures code != OK ==>
        schedules == old(schedules) && links == old(links) && nextScheduleId == old(nextScheduleId)
    {
      if userId == 0 {
        return UNAUTHORIZED;
      }
      if req.collabIds.None? || req.title == "" || req.start == ZERO_TIME || req.end == ZERO_TIME {
        return BAD_REQUEST;
      }
      var ids := req.collabIds.value;
      code := PrecheckSelected(schedules, links, collabs, ids, req.start, req.end);
      if code != OK {
        return;
      }
      var sch, lk, id;
      code, sch, lk, id := CommitSelected(schedules, links, nextScheduleId, collabs, grants, userId, ids, req, repeatConflict);
      if code == OK {
        schedules, links, nextScheduleId := sch, lk, id;
      }
    }
  }
}
