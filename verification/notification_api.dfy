/**
 * The notification inbox: the latest notifications addressed to a user, each
 * with whether that user has read it, whether all of them are read, and
 * marking one as read.  A notification is read by a user when the user's id
 * is in its `userReads` list.
 */
module NotificationApi {
  import opened Wrappers
  import Text
  import CollabNotification

  type Notification = CollabNotification.Notification

  /** The inbox shows at most this many notifications. */
  const INBOX_SIZE: nat := 20

  /** A notification as the inbox lists it. */
  datatype UserNotification = UserNotification(id: int, notification: Notification, isRead: bool)

  predicate ReadBy(n: Notification, userId: int) {
    userId in n.userReads
  }

  /**
   * The rows the inbox query returns, in its order: distinct notifications
   * addressed to the user, newest first, at most `INBOX_SIZE`; when fewer are
   * returned every notification of the user is there, and none left out is
   * newer than the last one shown.
   */
  ghost predicate InboxQuery(rows: map<int, Notification>, userId: int, order: seq<int>) {
    |order| <= INBOX_SIZE
    && (forall i :: 0 <= i < |order| ==> order[i] in rows && userId in rows[order[i]].userIds)
    && (forall i, j :: 0 <= i < j < |order| ==> order[i] != order[j] && rows[order[i]].at >= rows[order[j]].at)
    && (forall id :: id in rows && userId in rows[id].userIds && id !in order ==>
          |order| == INBOX_SIZE && rows[id].at <= rows[order[|order| - 1]].at)
  }

  /** The inner loop of `GetAllNotifications`: a linear search of the readers. */
  method IsReadBy(readers: seq<int>, userId: int) returns (isRead: bool)
    ensures isRead <==> userId in readers
  {
    isRead := false;
    var i := 0;
    while i < |readers|
      invariant 0 <= i <= |readers|
      invariant !isRead && userId !in readers[..i]
    {
      if readers[i] == userId {
        isRead := true;
        return;
      }
      assert readers[..i + 1] == readers[..i] + [readers[i]];
      i := i + 1;
    }
    assert readers[..i] == readers;
  }

  /** `GetAllNotifications`: each row of the query with the user's read flag, in the query's order. */
  method GetAllNotifications(rows: map<int, Notification>, userId: int, order: seq<int>)
    returns (list: seq<UserNotification>)
    requires forall i :: 0 <= i < |order| ==> order[i] in rows
    ensures |list| == |order|
    ensures forall k :: 0 <= k < |list| ==>
      list[k].id == order[k] && list[k].notification == rows[order[k]]
      && (list[k].isRead <==> ReadBy(rows[order[k]], userId))
  {
    list := [];
    var i := 0;
    while i < |order|
      invariant 0 <= i <= |order| && |list| == i
      invariant forall k :: 0 <= k < i ==>
        list[k].id == order[k] && list[k].notification == rows[order[k]]
        && (list[k].isRead <==> ReadBy(rows[order[k]], userId))
    {
      var n := rows[order[i]];
      var isRead := IsReadBy(n.userReads, userId);
      list := list + [UserNotification(order[i], n, isRead)];
      i := i + 1;
    }
  }

  /** The `allRead` loop of `HandleGetAllNotifications`: true for an empty inbox. */
  method AllRead(list: seq<UserNotification>) returns (allRead: bool)
    ensures allRead <==> forall k :: 0 <= k < |list| ==> list[k].isRead
  {
    allRead := true;
    var i := 0;
    while i < |list|
      invariant 0 <= i <= |list|
      invariant allRead && forall k :: 0 <= k < i ==> list[k].isRead
    {
      if !list[i].isRead {
        allRead := false;
        return;
      }
      i := i + 1;
    }
  }

  /**
   * `HandleGetAllNotifications`: the inbox of the user and whether every
   * notification in it is read.
   */
  method HandleGetAllNotifications(rows: map<int, Notification>, userId: int, order: seq<int>)
    returns (code: int, list: seq<UserNotification>, allRead: bool)
    requires InboxQuery(rows, userId, order)
    ensures code == OK && |list| == |order| <= INBOX_SIZE
    ensures forall k :: 0 <= k < |list| ==>
      list[k].notification == rows[order[k]] && userId in list[k].notification.userIds
      && (list[k].isRead <==> ReadBy(rows[order[k]], userId))
    ensures forall i, j :: 0 <= i < j < |list| ==> list[i].notification.at >= list[j].notification.at
    ensures allRead <==> forall k :: 0 <= k < |order| ==> ReadBy(rows[order[k]], userId)
  {
    list := GetAllNotifications(rows, userId, order);
    allRead := AllRead(list);
    code := OK;
  }

  /** An empty inbox means no notification at all is addressed to the user. */
  lemma EmptyInboxHasNone(rows: map<int, Notification>, userId: int)
    requires InboxQuery(rows, userId, [])
    ensures forall id :: id in rows ==> userId !in rows[id].userIds
  {
    forall id | id in rows
      ensures userId !in rows[id].userIds
    {
      var none: seq<int> := [];
      assert id !in none;
    }
  }

  /** The notification table. */
  class NotificationDb {
    var rows: map<int, Notification>

    constructor (rows: map<int, Notification>)
      ensures this.rows == rows
    {
      this.rows := rows;
    }

    /**
     * `MarkNotificationAsRead`: a missing notification, or one the user has
     * already read, is an error and changes nothing; otherwise the user is
     * appended to its readers.
     */
    method MarkAsRead(id: int, userId: int) returns (ok: bool)
      modifies this`rows
      ensures ok <==> id in old(rows) && !ReadBy(old(rows)[id], userId)
      ensures ok ==> rows == old(rows)[id := old(rows)[id].(userReads := old(rows)[id].userReads + [userId])]
      ensures !ok ==> rows == old(rows)
    {
      if id !in rows {
        return false;
      }
      var already := IsReadBy(rows[id].userReads, userId);
      if already {
        return false;
      }
      rows := rows[id := rows[id].(userReads := rows[id].userReads + [userId])];
      ok := true;
    }
  }

  /** The readers after marking `id` as read by `userId`. */
  function Marked(rows: map<int, Notification>, id: int, userId: int): map<int, Notification>
    requires id in rows
  {
    rows[id := rows[id].(userReads := rows[id].userReads + [userId])]
  }

  /**
   * Marking makes the notification read by that user (so a second mark is
   * refused), keeps every earlier reader in order, and changes nobody
   * else's read status.
   */
  lemma MarkedSpec(rows: map<int, Notification>, id: int, userId: int, other: int, otherId: int)
    requires id in rows && !ReadBy(rows[id], userId)
    ensures ReadBy(Marked(rows, id, userId)[id], userId)
    ensures Marked(rows, id, userId)[id].userReads[..|rows[id].userReads|] == rows[id].userReads
    ensures other != userId ==> (ReadBy(Marked(rows, id, userId)[id], other) <==> ReadBy(rows[id], other))
    ensures otherId != id && otherId in rows ==> Marked(rows, id, userId)[otherId] == rows[otherId]
  {
    var readers := rows[id].userReads;
    assert (readers + [userId])[..|readers|] == readers;
    assert other in readers + [userId] <==> other in readers || other == userId;
  }

  /** `HandleMarkNotificationAsRead`: an unparsable id answers 400, a refused mark 500. */
  method HandleMarkNotificationAsRead(db: NotificationDb, idParam: string, userId: int) returns (code: int)
    modifies db`rows
    ensures code == OK || code == BAD_REQUEST || code == INTERNAL_ERROR
    ensures code == BAD_REQUEST <==> Text.Atoi(idParam).None?
    ensures code == OK <==>
      Text.Atoi(idParam).Some? && Text.Atoi(idParam).value in old(db.rows)
      && !ReadBy(old(db.rows)[Text.Atoi(idParam).value], userId)
    ensures code == OK ==> db.rows == Marked(old(db.rows), Text.Atoi(idParam).value, userId)
    ensures code != OK ==> db.rows == old(db.rows)
  {
    var parsed := Text.Atoi(idParam);
    if parsed.None? {
      return BAD_REQUEST;
    }
    var ok := db.MarkAsRead(parsed.value, userId);
    code := if ok then OK else INTERNAL_ERROR;
  }
}
