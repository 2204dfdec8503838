/**
 * Invitations to a collaboration group: the invite token, the pending
 * membership an invitation creates, refreshing invitations when a group is
 * edited, and accepting an invitation (the join state machine: no row, then
 * pending, then joined).
 */
module Invitations {
  import opened Wrappers
  import opened Collabs
  import opened Text
  import CollabNotification

  /** Invite tokens expire a day after they are issued. */
  const INVITE_LIFETIME: int := 86400

  /** What an invite token carries. */
  datatype InviteClaims = InviteClaims(userId: int, collabId: int, exp: int)

  /**
   * The claims as the token's payload: the three numbers in decimal, separated
   * by dots.  The signature is not part of this model, so this encoding stands
   * for the signed token.
   */
  function EncodeInviteToken(claims: InviteClaims): string {
    Itoa(claims.userId) + "." + Itoa(claims.collabId) + "." + Itoa(claims.exp)
  }

  /** Reading the claims back from a token; anything that is not three numbers is not a token. */
  function DecodeInviteToken(token: string): Option<InviteClaims> {
    var parts := Split(token, '.');
    if |parts| != 3 then None
    else
      match (Atoi(parts[0]), Atoi(parts[1]), Atoi(parts[2]))
      case (Some(u), Some(c), Some(e)) => Some(InviteClaims(u, c, e))
      case _ => None
  }

  /** Decoding an encoded token gives back its claims. */
  lemma DecodeEncode(claims: InviteClaims)
    ensures DecodeInviteToken(EncodeInviteToken(claims)) == Some(claims)
  {
    var a, b, c := Itoa(claims.userId), Itoa(claims.collabId), Itoa(claims.exp);
    ItoaWithout(claims.userId, '.');
    ItoaWithout(claims.collabId, '.');
    ItoaWithout(claims.exp, '.');
    assert EncodeInviteToken(claims) == a + ['.'] + (b + ['.'] + c);
    SplitConcat(a, '.', b + ['.'] + c);
    SplitConcat(b, '.', c);
    SplitNoSeparator(c, '.');
    AtoiItoa(claims.userId);
    AtoiItoa(claims.collabId);
    AtoiItoa(claims.exp);
  }

  /** `GenerateInviteToken`: the user, the group, and an expiry one day after `now`. */
  function GenerateInviteToken(userId: int, collabId: int, now: int): string {
    EncodeInviteToken(InviteClaims(userId, collabId, now + INVITE_LIFETIME))
  }

  /** `ExtractInviteTokenData`: the user and group of a token that has not expired at `now`. */
  function ExtractInviteTokenData(token: string, now: int): Option<(int, int)> {
    match DecodeInviteToken(token)
    case None => None
    case Some(claims) => if now < claims.exp then Some((claims.userId, claims.collabId)) else None
  }

  /** A generated token yields the user and group it was made for, until it expires. */
  lemma ExtractGenerated(userId: int, collabId: int, issued: int, now: int)
    ensures ExtractInviteTokenData(GenerateInviteToken(userId, collabId, issued), now)
         == if now < issued + INVITE_LIFETIME then Some((userId, collabId)) else None
  {
    DecodeEncode(InviteClaims(userId, collabId, issued + INVITE_LIFETIME));
  }

  /** Some invite of the user is linked to the group. */
  predicate HasInviteFor(invites: map<int, Invite>, inviteCollab: map<int, int>, userId: int, collabId: int) {
    exists id :: id in invites && id in inviteCollab && invites[id].userId == userId && inviteCollab[id] == collabId
  }

  /** Some invite of the user with exactly this token is linked to the group. */
  predicate InvitedWith(invites: map<int, Invite>, inviteCollab: map<int, int>, userId: int, collabId: int, token: string) {
    exists id :: id in invites && id in inviteCollab && invites[id] == Invite(token, userId) && inviteCollab[id] == collabId
  }

  /**
   * `ValidateInviteLink`: the token's user and group, provided the token has
   * not expired and that user holds an invite linked to that group.  The
   * stored token is not compared with the presented one.
   */
  function ValidateInviteLink(invites: map<int, Invite>, inviteCollab: map<int, int>, token: string, now: int): (r: Option<(int, int)>)
    ensures r.Some? ==> HasInviteFor(invites, inviteCollab, r.value.0, r.value.1)
    ensures r.Some? ==> ExtractInviteTokenData(token, now) == r
  {
    match ExtractInviteTokenData(token, now)
    case None => None
    case Some((u, c)) => if HasInviteFor(invites, inviteCollab, u, c) then Some((u, c)) else None
  }

  /** A stored invitation validates for its user and group until its token expires. */
  lemma StoredInviteValidates(
    invites: map<int, Invite>, inviteCollab: map<int, int>, userId: int, collabId: int, issued: int, now: int)
    requires InvitedWith(invites, inviteCollab, userId, collabId, GenerateInviteToken(userId, collabId, issued))
    ensures ValidateInviteLink(invites, inviteCollab, GenerateInviteToken(userId, collabId, issued), now)
         == if now < issued + INVITE_LIFETIME then Some((userId, collabId)) else None
  {
    ExtractGenerated(userId, collabId, issued, now);
  }

  /** A member id from a form: `strconv.Atoi` with the error ignored, so a non-number is 0. */
  function MemberId(s: string): int {
    match Atoi(s)
    case Some(n) => n
    case None => 0
  }

  /** The member ids of a form list, in order. */
  function MemberIds(memberIds: seq<string>): (ids: seq<int>)
    ensures |ids| == |memberIds| && forall i :: 0 <= i < |ids| ==> ids[i] == MemberId(memberIds[i])
  {
    if memberIds == [] then [] else MemberIds(memberIds[..|memberIds| - 1]) + [MemberId(memberIds[|memberIds| - 1])]
  }

  /** The invite tables as `Valid` constrains them. */
  predicate InvitesValid(invites: map<int, Invite>, links: map<int, int>, next: int) {
    0 < next && (forall id :: id in invites ==> 0 < id < next) && (forall id :: id in links ==> id in invites)
  }

  /** The tables `CreateInviteTokenForMembers` writes, with the id the next invite row gets. */
  datatype InviteTables = InviteTables(
    invites: map<int, Invite>, links: map<int, int>, members: map<(int, int), bool>, next: int)

  /**
   * One pass of the loop of `CreateInviteTokenForMembers`: a new invite with
   * a fresh token, its group link, and (`addCollabMember`) a pending row
   * unless the pair has one.
   */
  function AddInvite(t: InviteTables, collabId: int, userId: int, now: int): InviteTables {
    InviteTables(
      t.invites[t.next := Invite(GenerateInviteToken(userId, collabId, now), userId)],
      t.links[t.next := collabId],
      if (collabId, userId) in t.members then t.members else t.members[(collabId, userId) := false],
      t.next + 1)
  }

  /** The loop of `CreateInviteTokenForMembers` over `ids`, in order. */
  function AddInvites(t: InviteTables, collabId: int, ids: seq<int>, now: int): InviteTables
    decreases |ids|
  {
    if ids == [] then t
    else AddInvite(AddInvites(t, collabId, ids[..|ids| - 1], now), collabId, ids[|ids| - 1], now)
  }

  /** The notifications sent to `ids`, in order. */
  function InviteNotifications(
    ids: seq<int>, collabId: int, collabName: string, ownerName: string, now: int, stamp: string)
    : seq<CollabNotification.Notification>
    decreases |ids|
  {
    if ids == [] then []
    else
      InviteNotifications(ids[..|ids| - 1], collabId, collabName, ownerName, now, stamp)
      + [InviteNotice(ids[|ids| - 1], collabId, collabName, ownerName, now, stamp)]
  }

  /** The invitation notification one member gets, with their own token. */
  function InviteNotice(id: int, collabId: int, collabName: string, ownerName: string, now: int, stamp: string)
    : CollabNotification.Notification
  {
    CollabNotification.CollabInviteNotification(
      collabId, id, GenerateInviteToken(id, collabId, now), collabName, ownerName, now, stamp)
  }

  /** The loop adds one invite row and one link per listed id, under consecutive ids from `t.next`. */
  lemma {:induction false} AddInvitesKeys(t: InviteTables, collabId: int, ids: seq<int>, now: int)
    ensures AddInvites(t, collabId, ids, now).next == t.next + |ids|
    ensures forall id ::
      (id in AddInvites(t, collabId, ids, now).invites <==> id in t.invites || t.next <= id < t.next + |ids|)
    ensures forall id ::
      (id in AddInvites(t, collabId, ids, now).links <==> id in t.links || t.next <= id < t.next + |ids|)
    decreases |ids|
  {
    if ids != [] {
      AddInvitesKeys(t, collabId, ids[..|ids| - 1], now);
    }
  }

  /** Rows under ids below `t.next` are kept as they were. */
  lemma {:induction false} AddInvitesKeeps(t: InviteTables, collabId: int, ids: seq<int>, now: int)
    ensures forall id :: id in t.invites && id < t.next ==>
      id in AddInvites(t, collabId, ids, now).invites && AddInvites(t, collabId, ids, now).invites[id] == t.invites[id]
    ensures forall id :: id in t.links && id < t.next ==>
      id in AddInvites(t, collabId, ids, now).links && AddInvites(t, collabId, ids, now).links[id] == t.links[id]
    decreases |ids|
  {
    if ids != [] {
      var last := |ids| - 1;
      AddInvitesKeeps(t, collabId, ids[..last], now);
      AddInvitesKeys(t, collabId, ids[..last], now);
    }
  }

  /** The k-th listed id gets invite `t.next + k`, with a token for that id and the group, linked to the group. */
  lemma {:induction false} AddInvitesNew(t: InviteTables, collabId: int, ids: seq<int>, now: int)
    ensures forall id :: t.next <= id < t.next + |ids| ==>
      id in AddInvites(t, collabId, ids, now).invites && id in AddInvites(t, collabId, ids, now).links
      && AddInvites(t, collabId, ids, now).invites[id]
         == Invite(GenerateInviteToken(ids[id - t.next], collabId, now), ids[id - t.next])
      && AddInvites(t, collabId, ids, now).links[id] == collabId
    decreases |ids|
  {
    if ids != [] {
      var last := |ids| - 1;
      var p := AddInvites(t, collabId, ids[..last], now);
      var r := AddInvites(t, collabId, ids, now);
      AddInvitesNew(t, collabId, ids[..last], now);
      AddInvitesKeys(t, collabId, ids[..last], now);
      forall id | t.next <= id < t.next + |ids|
        ensures id in r.invites && id in r.links
             && r.invites[id] == Invite(GenerateInviteToken(ids[id - t.next], collabId, now), ids[id - t.next])
             && r.links[id] == collabId
      {
        if id < p.next {
          assert ids[..last][id - t.next] == ids[id - t.next];
        }
      }
    }
  }

  /**
   * What the loop does to the membership table: every existing row is kept
   * as it was, every listed id has a row for the group, and every new row
   * is a pending row of a listed id.
   */
  lemma {:induction false} AddInvitesMembers(t: InviteTables, collabId: int, ids: seq<int>, now: int)
    ensures forall key :: key in t.members ==>
      key in AddInvites(t, collabId, ids, now).members && AddInvites(t, collabId, ids, now).members[key] == t.members[key]
    ensures forall u :: u in ids ==> (collabId, u) in AddInvites(t, collabId, ids, now).members
    ensures forall key :: key in AddInvites(t, collabId, ids, now).members && key !in t.members ==>
      !AddInvites(t, collabId, ids, now).members[key] && key.0 == collabId && key.1 in ids
    decreases |ids|
  {
    if ids != [] {
      var last := |ids| - 1;
      AddInvitesMembers(t, collabId, ids[..last], now);
      assert forall u :: u in ids ==> u in ids[..last] || u == ids[last];
    }
  }

  /** The loop keeps the invite tables valid. */
  lemma AddInvitesValid(t: InviteTables, collabId: int, ids: seq<int>, now: int)
    requires InvitesValid(t.invites, t.links, t.next)
    ensures var r := AddInvites(t, collabId, ids, now); InvitesValid(r.invites, r.links, r.next)
  {
    AddInvitesKeys(t, collabId, ids, now);
  }

  /** Every listed member ends up invited to the group with the token they were sent. */
  lemma CreatedInvitesCanBeUsed(t: InviteTables, collabId: int, ids: seq<int>, now: int, k: int)
    requires 0 <= k < |ids|
    ensures var r := AddInvites(t, collabId, ids, now);
      InvitedWith(r.invites, r.links, ids[k], collabId, GenerateInviteToken(ids[k], collabId, now))
  {
    AddInvitesKeys(t, collabId, ids, now);
    AddInvitesNew(t, collabId, ids, now);
    assert t.next + k - t.next == k;
    var r := AddInvites(t, collabId, ids, now);
    assert t.next + k in r.invites && t.next + k in r.links;
  }

  /** The k-th notification goes to the k-th id and carries that id's token. */
  lemma {:induction false} InviteNotificationsAt(
    ids: seq<int>, collabId: int, collabName: string, ownerName: string, now: int, stamp: string)
    ensures |InviteNotifications(ids, collabId, collabName, ownerName, now, stamp)| == |ids|
    ensures forall k :: 0 <= k < |ids| ==>
      InviteNotifications(ids, collabId, collabName, ownerName, now, stamp)[k]
      == InviteNotice(ids[k], collabId, collabName, ownerName, now, stamp)
    decreases |ids|
  {
    if ids != [] {
      var last := |ids| - 1;
      var init := ids[..last];
      var prefix := InviteNotifications(init, collabId, collabName, ownerName, now, stamp);
      var whole := InviteNotifications(ids, collabId, collabName, ownerName, now, stamp);
      InviteNotificationsAt(init, collabId, collabName, ownerName, now, stamp);
      assert whole == prefix + [InviteNotice(ids[last], collabId, collabName, ownerName, now, stamp)];
      forall k | 0 <= k < |ids|
        ensures whole[k] == InviteNotice(ids[k], collabId, collabName, ownerName, now, stamp)
      {
        if k < last {
          assert init[k] == ids[k];
          assert whole[k] == prefix[k];
        }
      }
    }
  }

  /** Taking one more id adds that id's invite and notification after the others. */
  lemma AddInvitesStep(
    t0: InviteTables, collabId: int, ids: seq<int>, i: int, collabName: string, ownerName: string, now: int, stamp: string)
    requires 0 <= i < |ids|
    ensures AddInvites(t0, collabId, ids[..i + 1], now) == AddInvite(AddInvites(t0, collabId, ids[..i], now), collabId, ids[i], now)
    ensures InviteNotifications(ids[..i + 1], collabId, collabName, ownerName, now, stamp)
         == InviteNotifications(ids[..i], collabId, collabName, ownerName, now, stamp)
            + [InviteNotice(ids[i], collabId, collabName, ownerName, now, stamp)]
  {
    assert ids[..i + 1][..i] == ids[..i];
  }

  /**
   * The loop of `CreateInviteTokenForMembers` on the tables: each listed id
   * (a non-number counts as 0) gets an invite and a group link, and the
   * invitation notifications come out in the same order.
   */
  method WriteInvites(
    t0: InviteTables, collabId: int, collabName: string, memberIds: seq<string>, ownerName: string, now: int, stamp: string)
    returns (t: InviteTables, sent: seq<CollabNotification.Notification>)
    ensures t == AddInvites(t0, collabId, MemberIds(memberIds), now)
    ensures sent == InviteNotifications(MemberIds(memberIds), collabId, collabName, ownerName, now, stamp)
  {
    ghost var ids := MemberIds(memberIds);
    var invites, links, members, next := t0.invites, t0.links, t0.members, t0.next;
    sent := [];
    var i := 0;
    while i < |memberIds|
      invariant 0 <= i <= |memberIds|
      invariant InviteTables(invites, links, members, next) == AddInvites(t0, collabId, ids[..i], now)
      invariant sent == InviteNotifications(ids[..i], collabId, collabName, ownerName, now, stamp)
    {
      var userId := MemberId(memberIds[i]);
      var token := GenerateInviteToken(userId, collabId, now);
      AddInvitesStep(t0, collabId, ids, i, collabName, ownerName, now, stamp);
      invites := invites[next := Invite(token, userId)];
      links := links[next := collabId];
      if (collabId, userId) !in members {
        members := members[(collabId, userId) := false];
      }
      next := next + 1;
      sent := sent + [CollabNotification.CollabInviteNotification(collabId, userId, token, collabName, ownerName, now, stamp)];
      i := i + 1;
    }
    assert ids[..|memberIds|] == ids;
    t := InviteTables(invites, links, members, next);
  }

  /**
   * `CreateInviteTokenForMembers`, used when a group has just been created.
   * The owner's name is looked up by the caller; the notifications are the
   * rows inserted into `notification`.
   */
  method CreateInviteTokenForMembers(
    db: CollabDb, collabId: int, memberIds: seq<string>, ownerName: string, now: int, stamp: string)
    returns (sent: seq<CollabNotification.Notification>)
    requires db.Valid() && collabId in db.collabs
    modifies db`invites, db`inviteCollab, db`members, db`nextInviteId
    ensures db.Valid()
    ensures InviteTables(db.invites, db.inviteCollab, db.members, db.nextInviteId)
         == AddInvites(InviteTables(old(db.invites), old(db.inviteCollab), old(db.members), old(db.nextInviteId)),
                       collabId, MemberIds(memberIds), now)
    ensures sent == InviteNotifications(MemberIds(memberIds), collabId, old(db.collabs[collabId].name), ownerName, now, stamp)
  {
    var t0 := InviteTables(db.invites, db.inviteCollab, db.members, db.nextInviteId);
    var t;
    t, sent := WriteInvites(t0, collabId, db.collabs[collabId].name, memberIds, ownerName, now, stamp);
    AddInvitesValid(t0, collabId, MemberIds(memberIds), now);
    db.invites, db.inviteCollab, db.members, db.nextInviteId := t.invites, t.links, t.members, t.next;
  }

  /** The ids of the user's invites that are linked to the group. */
  function InvitesFor(invites: map<int, Invite>, links: map<int, int>, userId: int, collabId: int): set<int> {
    set id | id in invites && id in links && invites[id].userId == userId && links[id] == collabId
  }

  /** The user has an invite linked to the group exactly when there is such an id. */
  lemma InvitesForNonEmpty(invites: map<int, Invite>, links: map<int, int>, userId: int, collabId: int)
    ensures HasInviteFor(invites, links, userId, collabId) <==> exists id :: id in InvitesFor(invites, links, userId, collabId)
  {
    var found := InvitesFor(invites, links, userId, collabId);
    if HasInviteFor(invites, links, userId, collabId) {
      var id :| id in invites && id in links && invites[id].userId == userId && links[id] == collabId;
      assert id in found;
    }
  }

  /**
   * One pass of the loop of `CreateOrUpdateInvitesForMembers`: the member's
   * first invite linked to the group gets a token generated at `now`; if
   * there is none, a new invite with that token is created and linked to
   * the group.  Membership rows are not touched.
   */
  ghost function RefreshOne(t: InviteTables, collabId: int, userId: int, now: int): InviteTables {
    var found := InvitesFor(t.invites, t.links, userId, collabId);
    var invite := Invite(GenerateInviteToken(userId, collabId, now), userId);
    if exists id :: id in found then t.(invites := t.invites[Least(found) := invite])
    else t.(invites := t.invites[t.next := invite], links := t.links[t.next := collabId], next := t.next + 1)
  }

  /** The loop of `CreateOrUpdateInvitesForMembers` over `ids`, in order. */
  ghost function RefreshAll(t: InviteTables, collabId: int, ids: seq<int>, now: int): InviteTables
    decreases |ids|
  {
    if ids == [] then t
    else RefreshOne(RefreshAll(t, collabId, ids[..|ids| - 1], now), collabId, ids[|ids| - 1], now)
  }

  /**
   * What refreshing one member's invite may do to the tables: links are kept,
   * and an invite either stays as it was or, if it belongs to the member and
   * is linked to the group, gets the new token.
   */
  predicate RefreshedOne(
    invites: map<int, Invite>, links: map<int, int>, invites': map<int, Invite>, links': map<int, int>,
    collabId: int, userId: int, token: string)
  {
    (forall id :: id in links ==> id in links' && links'[id] == links[id])
    && (forall id :: id in invites ==>
          (id in invites'
           && (invites'[id] == invites[id]
               || (invites'[id] == Invite(token, userId) && invites[id].userId == userId
                   && id in links' && links'[id] == collabId))))
  }

  /** Refreshing a member keeps the invite tables valid and leaves the membership rows alone. */
  lemma RefreshOneValid(t: InviteTables, collabId: int, userId: int, now: int)
    requires InvitesValid(t.invites, t.links, t.next)
    ensures var r := RefreshOne(t, collabId, userId, now);
      InvitesValid(r.invites, r.links, r.next) && r.members == t.members
  {
  }

  /**
   * Refreshing a member: afterwards the member holds an invite linked to the
   * group with the new token, and the only invite changed is one of theirs
   * linked to the group.
   */
  lemma RefreshOneInvited(t: InviteTables, collabId: int, userId: int, now: int)
    requires InvitesValid(t.invites, t.links, t.next)
    ensures var r := RefreshOne(t, collabId, userId, now);
      InvitedWith(r.invites, r.links, userId, collabId, GenerateInviteToken(userId, collabId, now))
      && RefreshedOne(t.invites, t.links, r.invites, r.links, collabId, userId, GenerateInviteToken(userId, collabId, now))
  {
    var found := InvitesFor(t.invites, t.links, userId, collabId);
    var r := RefreshOne(t, collabId, userId, now);
    if exists id :: id in found {
      assert r.invites[Least(found)] == Invite(GenerateInviteToken(userId, collabId, now), userId);
    } else {
      assert r.invites[t.next] == Invite(GenerateInviteToken(userId, collabId, now), userId);
    }
  }

  /**
   * An existing invite is reused (no new row and no new link); otherwise
   * exactly one invite and one link are added, under the next id.
   */
  lemma RefreshOneRows(t: InviteTables, collabId: int, userId: int, now: int)
    ensures HasInviteFor(t.invites, t.links, userId, collabId) ==>
      var r := RefreshOne(t, collabId, userId, now);
      r.invites.Keys == t.invites.Keys && r.links == t.links && r.next == t.next
    ensures !HasInviteFor(t.invites, t.links, userId, collabId) ==>
      var r := RefreshOne(t, collabId, userId, now);
      r.invites == t.invites[t.next := Invite(GenerateInviteToken(userId, collabId, now), userId)]
      && r.links == t.links[t.next := collabId] && r.next == t.next + 1
  {
    InvitesForNonEmpty(t.invites, t.links, userId, collabId);
  }

  /** After refreshing one member's invite, every member who held a given token still holds it. */
  lemma RefreshKeepsInvited(
    invites: map<int, Invite>, links: map<int, int>, invites': map<int, Invite>, links': map<int, int>,
    collabId: int, userId: int, token: string, other: int, otherToken: string)
    requires InvitedWith(invites, links, other, collabId, otherToken)
    requires other == userId ==> otherToken == token
    requires RefreshedOne(invites, links, invites', links', collabId, userId, token)
    ensures InvitedWith(invites', links', other, collabId, otherToken)
  {
    var id :| id in invites && id in links && invites[id] == Invite(otherToken, other) && links[id] == collabId;
    assert id in invites' && id in links' && links'[id] == collabId;
    assert invites'[id] == Invite(otherToken, other);
  }

  /** Every id in `ids` holds an invite linked to the group with the token generated at `now`. */
  predicate AllInvited(invites: map<int, Invite>, links: map<int, int>, ids: seq<int>, collabId: int, now: int) {
    forall j :: 0 <= j < |ids| ==> InvitedWith(invites, links, ids[j], collabId, GenerateInviteToken(ids[j], collabId, now))
  }

  /** The refresh keeps the invite tables valid and leaves the membership rows alone. */
  lemma {:induction false} RefreshAllValid(t: InviteTables, collabId: int, ids: seq<int>, now: int)
    requires InvitesValid(t.invites, t.links, t.next)
    ensures var r := RefreshAll(t, collabId, ids, now); InvitesValid(r.invites, r.links, r.next) && r.members == t.members
    decreases |ids|
  {
    if ids != [] {
      var last := |ids| - 1;
      RefreshAllValid(t, collabId, ids[..last], now);
      RefreshOneValid(RefreshAll(t, collabId, ids[..last], now), collabId, ids[last], now);
    }
  }

  /** Refreshing the last listed member keeps every member before them invited. */
  lemma RefreshLastInvited(p: InviteTables, collabId: int, ids: seq<int>, now: int)
    requires ids != [] && InvitesValid(p.invites, p.links, p.next)
    requires AllInvited(p.invites, p.links, ids[..|ids| - 1], collabId, now)
    ensures var r := RefreshOne(p, collabId, ids[|ids| - 1], now); AllInvited(r.invites, r.links, ids, collabId, now)
  {
    var last := |ids| - 1;
    var r := RefreshOne(p, collabId, ids[last], now);
    var token := GenerateInviteToken(ids[last], collabId, now);
    RefreshOneInvited(p, collabId, ids[last], now);
    forall j | 0 <= j < last
      ensures InvitedWith(r.invites, r.links, ids[j], collabId, GenerateInviteToken(ids[j], collabId, now))
    {
      assert ids[..last][j] == ids[j];
      RefreshKeepsInvited(p.invites, p.links, r.invites, r.links, collabId, ids[last], token,
                          ids[j], GenerateInviteToken(ids[j], collabId, now));
    }
  }

  /** After the refresh every listed member holds an invite linked to the group with a fresh token. */
  lemma {:induction false} RefreshAllInvited(t: InviteTables, collabId: int, ids: seq<int>, now: int)
    requires InvitesValid(t.invites, t.links, t.next)
    ensures var r := RefreshAll(t, collabId, ids, now); AllInvited(r.invites, r.links, ids, collabId, now)
    decreases |ids|
  {
    if ids != [] {
      var last := |ids| - 1;
      RefreshAllInvited(t, collabId, ids[..last], now);
      RefreshAllValid(t, collabId, ids[..last], now);
      RefreshLastInvited(RefreshAll(t, collabId, ids[..last], now), collabId, ids, now);
    }
  }

  /**
   * What refreshing the invites of `memberIds` may do to the tables: links
   * are kept, and an invite either stays as it was or, if it belongs to a
   * listed member and is linked to the group, carries that member's new token.
   */
  predicate Refreshed(
    invites0: map<int, Invite>, links0: map<int, int>, invites: map<int, Invite>, links: map<int, int>,
    memberIds: seq<int>, collabId: int, now: int)
  {
    (forall id :: id in links0 ==> id in links && links[id] == links0[id])
    && (forall id :: id in invites0 ==>
          (id in invites
           && (invites[id] == invites0[id]
               || (invites0[id].userId in memberIds && id in links && links[id] == collabId
                   && invites[id] == Invite(GenerateInviteToken(invites0[id].userId, collabId, now), invites0[id].userId)))))
  }

  /** Refreshing one more listed member keeps the tables within what `Refreshed` allows. */
  lemma RefreshedStep(
    invites0: map<int, Invite>, links0: map<int, int>, invites: map<int, Invite>, links: map<int, int>,
    invites': map<int, Invite>, links': map<int, int>, memberIds: seq<int>, userId: int, collabId: int, now: int)
    requires userId in memberIds
    requires Refreshed(invites0, links0, invites, links, memberIds, collabId, now)
    requires RefreshedOne(invites, links, invites', links', collabId, userId, GenerateInviteToken(userId, collabId, now))
    ensures Refreshed(invites0, links0, invites', links', memberIds, collabId, now)
  {
    forall id | id in invites0
      ensures id in invites'
        && (invites'[id] == invites0[id]
            || (invites0[id].userId in memberIds && id in links' && links'[id] == collabId
                && invites'[id] == Invite(GenerateInviteToken(invites0[id].userId, collabId, now), invites0[id].userId)))
    {
      assert id in invites;
      if invites'[id] != invites[id] {
        assert invites[id].userId == userId;
      }
    }
  }

  /**
   * The refresh changes no group link, and changes an existing invite only
   * by giving a listed member linked to the group a fresh token.
   */
  lemma {:induction false} RefreshAllRefreshed(t: InviteTables, collabId: int, ids: seq<int>, now: int)
    requires InvitesValid(t.invites, t.links, t.next)
    ensures var r := RefreshAll(t, collabId, ids, now); Refreshed(t.invites, t.links, r.invites, r.links, ids, collabId, now)
    decreases |ids|
  {
    var r := RefreshAll(t, collabId, ids, now);
    if ids == [] {
      assert Refreshed(t.invites, t.links, r.invites, r.links, ids, collabId, now);
    } else {
      var last := |ids| - 1;
      var p := RefreshAll(t, collabId, ids[..last], now);
      RefreshAllRefreshed(t, collabId, ids[..last], now);
      RefreshAllValid(t, collabId, ids[..last], now);
      RefreshOneInvited(p, collabId, ids[last], now);
      assert forall u :: u in ids[..last] ==> u in ids;
      assert ids[last] in ids;
      RefreshedWider(t.invites, t.links, p.invites, p.links, ids[..last], ids, collabId, now);
      RefreshedStep(t.invites, t.links, p.invites, p.links, r.invites, r.links, ids, ids[last], collabId, now);
    }
  }

  /** `Refreshed` for a list holds for any longer list. */
  lemma RefreshedWider(
    invites0: map<int, Invite>, links0: map<int, int>, invites: map<int, Invite>, links: map<int, int>,
    ids: seq<int>, ids': seq<int>, collabId: int, now: int)
    requires forall u :: u in ids ==> u in ids'
    requires Refreshed(invites0, links0, invites, links, ids, collabId, now)
    ensures Refreshed(invites0, links0, invites, links, ids', collabId, now)
  {
  }

  /**
   * One pass of the loop of `CreateOrUpdateInvitesForMembers` on the invite
   * tables: the member's first invite linked to the group, by id, gets the
   * new token, or a new linked invite is created.
   */
  method RefreshInvite(t: InviteTables, collabId: int, userId: int, now: int) returns (t': InviteTables)
    ensures t' == RefreshOne(t, collabId, userId, now)
  {
    var token := GenerateInviteToken(userId, collabId, now);
    var found := set id | id in t.invites && id in t.links && t.invites[id].userId == userId && t.links[id] == collabId;
    if exists some :: some in found {
      var some :| some in found;
      LeastExists(found, some);
      var id :| id in found && forall x :: x in found ==> id <= x;
      t' := t.(invites := t.invites[id := Invite(token, userId)]);
    } else {
      t' := t.(invites := t.invites[t.next := Invite(token, userId)], links := t.links[t.next := collabId], next := t.next + 1);
    }
  }

  /** The refresh of a prefix one longer is one more refresh. */
  lemma RefreshAllStep(t0: InviteTables, collabId: int, ids: seq<int>, i: int, now: int)
    requires 0 <= i < |ids|
    ensures RefreshAll(t0, collabId, ids[..i + 1], now) == RefreshOne(RefreshAll(t0, collabId, ids[..i], now), collabId, ids[i], now)
  {
    assert ids[..i + 1][..i] == ids[..i];
  }

  /** The notifications of a prefix one longer end with one more notification. */
  lemma InviteNotificationsStep(
    ids: seq<int>, i: int, collabId: int, collabName: string, ownerName: string, now: int, stamp: string)
    requires 0 <= i < |ids|
    ensures InviteNotifications(ids[..i + 1], collabId, collabName, ownerName, now, stamp)
         == InviteNotifications(ids[..i], collabId, collabName, ownerName, now, stamp)
            + [CollabNotification.CollabInviteNotification(
                 collabId, ids[i], GenerateInviteToken(ids[i], collabId, now), collabName, ownerName, now, stamp)]
  {
    assert ids[..i + 1][..i] == ids[..i];
  }

  /**
   * The loop of `CreateOrUpdateInvitesForMembers` on the invite tables: every
   * listed member's invite is refreshed and every listed member is notified,
   * in order.
   */
  method RefreshInvites(
    t0: InviteTables, collabId: int, collabName: string, memberIds: seq<int>, ownerName: string, now: int, stamp: string)
    returns (t: InviteTables, sent: seq<CollabNotification.Notification>)
    ensures t == RefreshAll(t0, collabId, memberIds, now)
    ensures sent == InviteNotifications(memberIds, collabId, collabName, ownerName, now, stamp)
  {
    t := t0;
    sent := [];
    var i := 0;
    while i < |memberIds|
      invariant 0 <= i <= |memberIds|
      invariant t == RefreshAll(t0, collabId, memberIds[..i], now)
      invariant sent == InviteNotifications(memberIds[..i], collabId, collabName, ownerName, now, stamp)
    {
      var userId := memberIds[i];
      RefreshAllStep(t0, collabId, memberIds, i, now);
      InviteNotificationsStep(memberIds, i, collabId, collabName, ownerName, now, stamp);
      t := RefreshInvite(t, collabId, userId, now);
      sent := sent + [CollabNotification.CollabInviteNotification(
        collabId, userId, GenerateInviteToken(userId, collabId, now), collabName, ownerName, now, stamp)];
      i := i + 1;
    }
    assert memberIds[..i] == memberIds;
  }

  /**
   * `CreateOrUpdateInvitesForMembers`, used when a group is edited.  It fails
   * only for a missing group, and then changes nothing.  Its per-member user
   * lookup cannot fail: `GetUserById` tests the error of the root database
   * handle rather than that of its query, so it never reports a missing user,
   * and an id that names no user is invited and notified like any other.
   */
  method CreateOrUpdateInvitesForMembers(
    db: CollabDb, collabId: int, memberIds: seq<int>, ownerName: string, now: int, stamp: string)
    returns (ok: bool, sent: seq<CollabNotification.Notification>)
    requires db.Valid()
    modifies db`invites, db`inviteCollab, db`nextInviteId
    ensures db.Valid()
    ensures ok <==> collabId in old(db.collabs)
    ensures !ok ==> sent == [] && unchanged(db)
    ensures ok ==>
      sent == InviteNotifications(memberIds, collabId, old(db.collabs[collabId].name), ownerName, now, stamp)
      && InviteTables(db.invites, db.inviteCollab, db.members, db.nextInviteId)
         == RefreshAll(InviteTables(old(db.invites), old(db.inviteCollab), old(db.members), old(db.nextInviteId)),
                       collabId, memberIds, now)
  {
    if collabId !in db.collabs {
      return false, [];
    }
    var t0 := InviteTables(db.invites, db.inviteCollab, db.members, db.nextInviteId);
    var t;
    t, sent := RefreshInvites(t0, collabId, db.collabs[collabId].name, memberIds, ownerName, now, stamp);
    RefreshAllValid(t0, collabId, memberIds, now);
    db.invites, db.inviteCollab, db.nextInviteId := t.invites, t.links, t.next;
    ok := true;
  }

  /**
   * The checks `HandleJoinCollab` makes before it changes anything: a
   * non-empty token, valid for a user and group with an invite between them,
   * both ids non-zero, the group existing and active, the user existing and
   * not the owner, and a pending membership row.
   */
  predicate JoinAllowed(
    collabs: map<int, Collab>, members: map<(int, int), bool>, invites: map<int, Invite>,
    inviteCollab: map<int, int>, users: set<int>, token: string, now: int)
  {
    token != []
    && ValidateInviteLink(invites, inviteCollab, token, now).Some?
    && var (u, c) := ValidateInviteLink(invites, inviteCollab, token, now).value;
    u != 0 && c != 0 && c in collabs && !collabs[c].archived && u in users
    && collabs[c].ownerId != u && (c, u) in members && !members[(c, u)]
  }

  /** The ids of the invites that hold this very token for the user. */
  function TokenInvites(invites: map<int, Invite>, token: string, userId: int): set<int> {
    set id | id in invites && invites[id] == Invite(token, userId)
  }

  /**
   * `HandleJoinCollab`.  Every refused check answers 400 and changes nothing.
   * Once the checks pass, the membership row is set to joined; then the
   * invite holding this very token (the lowest such id, as `First` orders by
   * primary key) is deleted with its group link.  If that
   * invite cannot be found (its token was refreshed after this one was
   * issued), the answer is 500 but the membership stays joined.
   */
  method HandleJoinCollab(db: CollabDb, users: set<int>, token: string, now: int) returns (code: int)
    requires db.Valid()
    modifies db
    ensures db.Valid()
    ensures db.collabs == old(db.collabs) && db.grants == old(db.grants)
    ensures db.nextCollabId == old(db.nextCollabId) && db.nextInviteId == old(db.nextInviteId)
    ensures code == OK || code == BAD_REQUEST || code == INTERNAL_ERROR
    ensures code == BAD_REQUEST <==>
      !JoinAllowed(old(db.collabs), old(db.members), old(db.invites), old(db.inviteCollab), users, token, now)
    ensures code == BAD_REQUEST ==>
      db.members == old(db.members) && db.invites == old(db.invites) && db.inviteCollab == old(db.inviteCollab)
    ensures code != BAD_REQUEST ==>
      var (u, c) := ExtractInviteTokenData(token, now).value;
      db.members == old(db.members)[(c, u) := true]
    ensures code == OK ==>
      var (u, c) := ExtractInviteTokenData(token, now).value;
      var found := TokenInvites(old(db.invites), token, u);
      (exists x :: x in found)
      && var id := Least(found);
      id in old(db.inviteCollab) && old(db.inviteCollab)[id] == c
      && db.invites == old(db.invites) - {id} && db.inviteCollab == old(db.inviteCollab) - {id}
    ensures code == INTERNAL_ERROR ==> db.invites == old(db.invites) && db.inviteCollab == old(db.inviteCollab)
    ensures code != BAD_REQUEST && (forall id :: id in old(db.invites) ==> old(db.invites)[id] != Invite(token, ExtractInviteTokenData(token, now).value.0))
      ==> code == INTERNAL_ERROR
  {
    if token == [] {
      return BAD_REQUEST;
    }
    var link := ValidateInviteLink(db.invites, db.inviteCollab, token, now);
    if link.None? {
      return BAD_REQUEST;
    }
    var (u, c) := link.value;
    if u == 0 || c == 0 {
      return BAD_REQUEST;
    }
    if c !in db.collabs {
      return BAD_REQUEST;
    }
    if db.collabs[c].archived {
      return BAD_REQUEST;
    }
    if u !in users {
      return BAD_REQUEST;
    }
    if db.collabs[c].ownerId == u {
      return BAD_REQUEST;
    }
    if (c, u) !in db.members {
      return BAD_REQUEST;
    }
    if db.members[(c, u)] {
      return BAD_REQUEST;
    }
    db.members := db.members[(c, u) := true];
    // deleteInviteAndRelatedData: one transaction over the invite and its link
    var found := TokenInvites(db.invites, token, u);
    if found == {} {
      return INTERNAL_ERROR;
    }
    assert (forall x :: x !in found) ==> found == {};
    var id := LeastId(found);
    if id !in db.inviteCollab || db.inviteCollab[id] != c {
      return INTERNAL_ERROR;
    }
    db.invites := db.invites - {id};
    db.inviteCollab := db.inviteCollab - {id};
    code := OK;
  }

  /**
   * An invitation stored for a user and a group can be accepted until its
   * token expires, as long as the group is active, the user exists, is not
   * the owner, and is still pending.
   */
  lemma InvitationCanBeAccepted(
    collabs: map<int, Collab>, members: map<(int, int), bool>, invites: map<int, Invite>,
    inviteCollab: map<int, int>, users: set<int>, userId: int, collabId: int, issued: int, now: int)
    requires InvitedWith(invites, inviteCollab, userId, collabId, GenerateInviteToken(userId, collabId, issued))
    requires now < issued + INVITE_LIFETIME
    requires userId != 0 && collabId != 0 && userId in users
    requires collabId in collabs && !collabs[collabId].archived && collabs[collabId].ownerId != userId
    requires (collabId, userId) in members && !members[(collabId, userId)]
    ensures JoinAllowed(collabs, members, invites, inviteCollab, users, GenerateInviteToken(userId, collabId, issued), now)
  {
    StoredInviteValidates(invites, inviteCollab, userId, collabId, issued, now);
  }

  /** Whatever the token, a member who has joined cannot join again, and neither can the owner. */
  lemma NoSecondJoin(
    collabs: map<int, Collab>, members: map<(int, int), bool>, invites: map<int, Invite>,
    inviteCollab: map<int, int>, users: set<int>, userId: int, collabId: int, token: string, now: int)
    requires ExtractInviteTokenData(token, now) == Some((userId, collabId))
    requires ((collabId, userId) in members && members[(collabId, userId)])
          || (collabId in collabs && collabs[collabId].ownerId == userId)
    ensures !JoinAllowed(collabs, members, invites, inviteCollab, users, token, now)
  {
  }
}
