/**
 * The notification rows the collaboration handlers insert: an invitation to
 * one user, and a task notification to a list of users.  A row keeps its
 * message as the values the text is built from; `MessageText` is the text
 * itself, as bytes, because the 20-character cut-off of names counts bytes.
 */
module CollabNotification {
  import opened Text

  /** What a message says; `stamp` is the wall-clock time as the handler formats it. */
  datatype Message =
    | InviteMessage(collabName: string, ownerName: string, stamp: string)
    | TaskMessage(typeName: string, creatorName: string, taskName: string, collabName: string, stamp: string)

  /**
   * A row of `notification`.  `userIds` are the recipients, `userReads` the
   * recipients who have read it (in the order they did).
   */
  datatype Notification = Notification(
    at: int, msg: Message, userIds: seq<int>, userReads: seq<int>,
    link: string, isCollabInvite: bool, inviteToken: string)

  const ELLIPSIS: seq<byte> := [46, 46, 46]

  /** `showFirst20Characters`: at most 20 bytes are kept, and a cut is marked with "...". */
  function ShowFirst20Characters(s: seq<byte>): (r: seq<byte>)
    ensures |s| <= 20 ==> r == s
    ensures |s| > 20 ==> |r| == 23 && r[..20] == s[..20] && r[20..] == ELLIPSIS
    ensures |r| <= 23
  {
    if |s| > 20 then s[..20] + ELLIPSIS else s
  }

  /** Shortening a shortened text changes nothing. */
  lemma ShowFirst20CharactersIdempotent(s: seq<byte>)
    ensures ShowFirst20Characters(ShowFirst20Characters(s)) == ShowFirst20Characters(s)
  {
    var r := ShowFirst20Characters(s);
    if |s| > 20 {
      assert ShowFirst20Characters(r) == r[..20] + ELLIPSIS;
      assert r == r[..20] + r[20..];
    }
  }

  /**
   * The text stored in `notification_msg`.  Group and task names are cut to
   * 20 bytes; the names of people are not.
   */
  function MessageText(m: Message): seq<byte> {
    match m
    case InviteMessage(collabName, ownerName, stamp) =>
      Utf8("You have been invited to ") + ShowFirst20Characters(Utf8(collabName)) + Utf8(" by ")
      + Utf8(ownerName) + Utf8(" at ") + Utf8(stamp) + Utf8(".")
    case TaskMessage(typeName, creatorName, taskName, collabName, stamp) =>
      Utf8(creatorName) + Utf8(" ") + Utf8(typeName) + Utf8(" a task '") + ShowFirst20Characters(Utf8(taskName))
      + Utf8("' in ") + ShowFirst20Characters(Utf8(collabName)) + Utf8(" at ") + Utf8(stamp) + Utf8(".")
  }

  /**
   * Two invitations to groups whose names agree on the first 20 bytes read
   * the same when the rest of the message agrees: the cut-off hides the rest
   * of the name.
   */
  lemma InviteTextHidesLongNames(a: string, b: string, ownerName: string, stamp: string)
    requires |Utf8(a)| > 20 && |Utf8(b)| > 20 && Utf8(a)[..20] == Utf8(b)[..20]
    ensures MessageText(InviteMessage(a, ownerName, stamp)) == MessageText(InviteMessage(b, ownerName, stamp))
  {
    assert ShowFirst20Characters(Utf8(a)) == ShowFirst20Characters(Utf8(b));
  }

  // ---------------------------------------------------------------- invitation

  /** The row `InsertCollabInviteNotification` stores; `stamp` is the formatted wall-clock time. */
  function CollabInviteNotification(
    collabId: int, userId: int, token: string, collabName: string, ownerName: string,
    now: int, stamp: string): (n: Notification)
    ensures n.userIds == [userId] && n.userReads == []
    ensures n.isCollabInvite && n.inviteToken == token && n.link == ""
    ensures n.at == now && n.msg == InviteMessage(collabName, ownerName, stamp)
  {
    Notification(now, InviteMessage(collabName, ownerName, stamp), [userId], [], "", true, token)
  }

  // ---------------------------------------------------------------- task notifications

  const ASSIGNED: string := "assigned you to"
  const RENAMED: string := "updated"
  const CREATED: string := "created"
  const STATUS_UPDATED: string := "updated status of"
  const DELETED: string := "deleted"

  /** The characters `url.QueryEscape` leaves as they are. */
  predicate Unreserved(b: byte) {
    (65 <= b <= 90) || (97 <= b <= 122) || (48 <= b <= 57) || b == 45 || b == 95 || b == 46 || b == 126
  }

  function HexDigit(d: nat): (c: char)
    requires d < 16
    ensures IsDigit(c) || 'A' <= c <= 'F'
  {
    if d < 10 then DigitChar(d) else ('A' as int + d - 10) as char
  }

  /** `url.QueryEscape` on the bytes of a string. */
  function QueryEscapeBytes(b: seq<byte>): (r: string)
    ensures forall i :: 0 <= i < |r| ==> r[i] != '?' && r[i] != '&' && r[i] != '=' && r[i] != '/'
  {
    if b == [] then []
    else
      var head :=
        if Unreserved(b[0]) then [b[0] as int as char]
        else if b[0] == 32 then "+"
        else ['%', HexDigit(b[0] as nat / 16), HexDigit(b[0] as nat % 16)];
      head + QueryEscapeBytes(b[1..])
  }

  function QueryEscape(s: string): string {
    QueryEscapeBytes(Utf8(s))
  }

  const LINK_PREFIX: string := "/dashboard/collaboration/group/"
  const LINK_TASKS: string := "/tasks"
  const LINK_QUERY: string := "groupId="

  /** The link of a task notification: the task board of the group, by escaped name and by id. */
  function TaskLink(collabName: string, collabId: int): string {
    LINK_PREFIX + QueryEscape(collabName) + LINK_TASKS + "?" + LINK_QUERY + Itoa(collabId)
  }

  /** The path part of a task link holds no '?': the escaped name cannot contain one. */
  lemma TaskPathHasNoQuery(collabName: string)
    ensures '?' !in LINK_PREFIX + QueryEscape(collabName) + LINK_TASKS
  {
    assert '?' !in LINK_PREFIX && '?' !in LINK_TASKS;
    assert '?' !in QueryEscape(collabName);
  }

  /**
   * Whatever the group's name, the link has exactly one query part, and that
   * part names the group's id.
   */
  lemma TaskLinkQuery(collabName: string, collabId: int)
    ensures Split(TaskLink(collabName, collabId), '?')
         == [LINK_PREFIX + QueryEscape(collabName) + LINK_TASKS, LINK_QUERY + Itoa(collabId)]
  {
    var path := LINK_PREFIX + QueryEscape(collabName) + LINK_TASKS;
    var query := LINK_QUERY + Itoa(collabId);
    TaskPathHasNoQuery(collabName);
    ItoaWithout(collabId, '?');
    assert '?' !in LINK_QUERY;
    assert '?' !in query;
    assert TaskLink(collabName, collabId) == path + ['?'] + query;
    SplitConcat(path, '?', query);
    SplitNoSeparator(query, '?');
  }

  /**
   * `TaskNotification`: the recipients are copied one by one, in order; no
   * recipient has read it yet.
   */
  method TaskNotification(
    typeName: string, creatorName: string, userIds: seq<int>, taskName: string,
    collabId: int, collabName: string, now: int, stamp: string) returns (n: Notification)
    ensures n.userIds == userIds && n.userReads == []
    ensures !n.isCollabInvite && n.inviteToken == ""
    ensures n.msg == TaskMessage(typeName, creatorName, taskName, collabName, stamp)
    ensures n.link == TaskLink(collabName, collabId)
    ensures n.at == now
  {
    var recipients: seq<int> := [];
    var i := 0;
    while i < |userIds|
      invariant 0 <= i <= |userIds|
      invariant recipients == userIds[..i]
    {
      recipients := recipients + [userIds[i]];
      i := i + 1;
    }
    assert userIds[..|userIds|] == userIds;
    n := Notification(now, TaskMessage(typeName, creatorName, taskName, collabName, stamp),
                      recipients, [], TaskLink(collabName, collabId), false, "");
  }

  method AssignTaskNotification(
    creatorName: string, userIds: seq<int>, taskName: string, collabId: int, collabName: string,
    now: int, stamp: string) returns (n: Notification)
    ensures n.userIds == userIds && n.userReads == [] && !n.isCollabInvite
    ensures n.msg == TaskMessage(ASSIGNED, creatorName, taskName, collabName, stamp)
    ensures n.link == TaskLink(collabName, collabId)
  {
    n := TaskNotification(ASSIGNED, creatorName, userIds, taskName, collabId, collabName, now, stamp);
  }

  method RenameTaskNotification(
    creatorName: string, userIds: seq<int>, taskName: string, collabId: int, collabName: string,
    now: int, stamp: string) returns (n: Notification)
    ensures n.userIds == userIds && n.userReads == [] && !n.isCollabInvite
    ensures n.msg == TaskMessage(RENAMED, creatorName, taskName, collabName, stamp)
    ensures n.link == TaskLink(collabName, collabId)
  {
    n := TaskNotification(RENAMED, creatorName, userIds, taskName, collabId, collabName, now, stamp);
  }

  method CreateTaskNotification(
    creatorName: string, userIds: seq<int>, taskName: string, collabId: int, collabName: string,
    now: int, stamp: string) returns (n: Notification)
    ensures n.userIds == userIds && n.userReads == [] && !n.isCollabInvite
    ensures n.msg == TaskMessage(CREATED, creatorName, taskName, collabName, stamp)
    ensures n.link == TaskLink(collabName, collabId)
  {
    n := TaskNotification(CREATED, creatorName, userIds, taskName, collabId, collabName, now, stamp);
  }

  method UpdateTaskStatusNotification(
    creatorName: string, userIds: seq<int>, taskName: string, collabId: int, collabName: string,
    now: int, stamp: string) returns (n: Notification)
    ensures n.userIds == userIds && n.userReads == [] && !n.isCollabInvite
    ensures n.msg == TaskMessage(STATUS_UPDATED, creatorName, taskName, collabName, stamp)
    ensures n.link == TaskLink(collabName, collabId)
  {
    n := TaskNotification(STATUS_UPDATED, creatorName, userIds, taskName, collabId, collabName, now, stamp);
  }

  method DeleteTaskNotification(
    creatorName: string, userIds: seq<int>, taskName: string, collabId: int, collabName: string,
    now: int, stamp: string) returns (n: Notification)
    ensures n.userIds == userIds && n.userReads == [] && !n.isCollabInvite
    ensures n.msg == TaskMessage(DELETED, creatorName, taskName, collabName, stamp)
    ensures n.link == TaskLink(collabName, collabId)
  {
    n := TaskNotification(DELETED, creatorName, userIds, taskName, collabId, collabName, now, stamp);
  }
}
