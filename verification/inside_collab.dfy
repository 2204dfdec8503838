/**
 * The pages inside a collaboration group: the task board with its statuses,
 * subtasks, comments and assignees, the notifications a task change sends to
 * the group, and the cascading deletes that remove a task (or every task of a
 * group) together with everything that hangs off it.
 */
module InsideCollab {
  import opened Wrappers
  import opened Collabs
  import Text
  import CollabAccess
  import CollabNotification

  /** A row of `task`; `statusUpdatedAt` is in seconds. */
  datatype Task = Task(title: string, priority: bool, collabId: int, statusUpdatedAt: int)

  /** A row of `task_status`: one column of the board. */
  datatype TaskStatus = TaskStatus(name: string, color: string)

  /** A row of `subtask`. */
  datatype Subtask = Subtask(title: string, taskId: int)

  /** A row of `comment`; it hangs off a task or a subtask through a link row. */
  datatype Comment = Comment(text: string, userId: int, at: int)

  /**
   * The task tables as one value: `statusOf` is `statustask` (task id to
   * status id), `taskComments` and `subtaskComments` are the link rows
   * (owner id, comment id), `assignees` is `taskassignee` (task id, user id).
   */
  datatype TaskTables = TaskTables(
    tasks: map<int, Task>, statusOf: map<int, int>, subtasks: map<int, Subtask>,
    comments: map<int, Comment>, taskComments: set<(int, int)>, subtaskComments: set<(int, int)>,
    assignees: set<(int, int)>)

  // ---------------------------------------------------------------- what a delete removes

  /** The subtasks of the given tasks. */
  function SubtasksOf(subtasks: map<int, Subtask>, taskIds: set<int>): set<int> {
    set s | s in subtasks && subtasks[s].taskId in taskIds
  }

  /** The comments a link table attaches to the given owners. */
  function LinkedComments(links: set<(int, int)>, owners: set<int>): set<int> {
    set p | p in links && p.0 in owners :: p.1
  }

  /** The link rows that do not hang off the given owners. */
  function Unlinked(links: set<(int, int)>, owners: set<int>): set<(int, int)> {
    set p | p in links && p.0 !in owners
  }

  /** `deleteSubtask`: the subtask, its comments and its comment links go. */
  function WithoutSubtask(t: TaskTables, s: int): TaskTables {
    t.(subtasks := t.subtasks - {s},
       comments := t.comments - LinkedComments(t.subtaskComments, {s}),
       subtaskComments := Unlinked(t.subtaskComments, {s}))
  }

  /**
   * `deleteTask` on every task of `ids`: the tasks, their status links, their
   * subtasks with the subtasks' comments, their own comments and their
   * assignees go; nothing else does.
   */
  function WithoutTasks(t: TaskTables, ids: set<int>): TaskTables {
    var subs := SubtasksOf(t.subtasks, ids);
    TaskTables(
      t.tasks - ids, t.statusOf - ids, t.subtasks - subs,
      t.comments - (LinkedComments(t.taskComments, ids) + LinkedComments(t.subtaskComments, subs)),
      Unlinked(t.taskComments, ids), Unlinked(t.subtaskComments, subs), Unlinked(t.assignees, ids))
  }

  /** The cascade only ever removes rows. */
  lemma WithoutTasksShrinks(t: TaskTables, ids: set<int>)
    ensures var r := WithoutTasks(t, ids);
      r.tasks.Keys <= t.tasks.Keys && r.statusOf.Keys <= t.statusOf.Keys
      && r.subtasks.Keys <= t.subtasks.Keys && r.comments.Keys <= t.comments.Keys
  {
  }

  /** Every link points at a row that exists. */
  ghost predicate Referenced(t: TaskTables) {
    (forall k :: k in t.statusOf ==> k in t.tasks)
    && (forall s :: s in t.subtasks ==> t.subtasks[s].taskId in t.tasks)
    && (forall p :: p in t.taskComments ==> p.0 in t.tasks && p.1 in t.comments)
    && (forall p :: p in t.subtaskComments ==> p.0 in t.subtasks && p.1 in t.comments)
    && (forall p :: p in t.assignees ==> p.0 in t.tasks)
  }

  /** Each comment hangs off exactly one task or subtask, as the comment handlers create them. */
  ghost predicate CommentsLinkedOnce(t: TaskTables) {
    (forall p, q :: p in t.taskComments && q in t.taskComments && p.1 == q.1 ==> p == q)
    && (forall p, q :: p in t.subtaskComments && q in t.subtaskComments && p.1 == q.1 ==> p == q)
    && (forall p, q :: p in t.taskComments && q in t.subtaskComments ==> p.1 != q.1)
  }

  /**
   * The cascade leaves no dangling link: whatever is left still points at
   * rows that exist, and the deleted tasks leave nothing behind.
   */
  lemma WithoutTasksKeepsReferences(t: TaskTables, ids: set<int>)
    requires Referenced(t) && CommentsLinkedOnce(t)
    ensures Referenced(WithoutTasks(t, ids)) && CommentsLinkedOnce(WithoutTasks(t, ids))
    ensures forall s :: s in WithoutTasks(t, ids).subtasks ==> WithoutTasks(t, ids).subtasks[s].taskId !in ids
  {
    var r := WithoutTasks(t, ids);
    var subs := SubtasksOf(t.subtasks, ids);
    forall p | p in r.subtaskComments
      ensures p.0 in r.subtasks
    {
      assert p.0 !in subs;
    }
  }

  /** Deleting two sets of tasks one after the other deletes their union. */
  lemma WithoutTasksCompose(t: TaskTables, a: set<int>, b: set<int>)
    ensures WithoutTasks(WithoutTasks(t, a), b) == WithoutTasks(t, a + b)
  {
    var t1 := WithoutTasks(t, a);
    var sa := SubtasksOf(t.subtasks, a);
    var sb := SubtasksOf(t1.subtasks, b);
    var sab := SubtasksOf(t.subtasks, a + b);
    assert sa + sb == sab;
    assert t1.subtasks - sb == t.subtasks - sab;
    assert Unlinked(t1.taskComments, b) == Unlinked(t.taskComments, a + b);
    assert Unlinked(t1.assignees, b) == Unlinked(t.assignees, a + b);
    assert Unlinked(t1.subtaskComments, sb) == Unlinked(t.subtaskComments, sab);
    var gone1 := LinkedComments(t.taskComments, a) + LinkedComments(t.subtaskComments, sa);
    var gone2 := LinkedComments(t1.taskComments, b) + LinkedComments(t1.subtaskComments, sb);
    var gone := LinkedComments(t.taskComments, a + b) + LinkedComments(t.subtaskComments, sab);
    assert gone1 + gone2 <= gone;
    forall c | c in gone
      ensures c in gone1 + gone2
    {
      if c in LinkedComments(t.taskComments, a + b) {
        var p :| p in t.taskComments && p.0 in a + b && p.1 == c;
        if p.0 !in a {
          assert p in t1.taskComments;
        }
      } else {
        var p :| p in t.subtaskComments && p.0 in sab && p.1 == c;
        if p.0 !in sa {
          assert p in t1.subtaskComments;
        }
      }
    }
    assert t1.comments - gone2 == t.comments - gone;
  }

  /** The cascade of one task as the handler runs it: its subtasks one by one, then the task's own rows. */
  lemma WithoutSubtaskStep(t0: TaskTables, done: set<int>, s: int)
    requires s !in done
    ensures
      var t := t0.(subtasks := t0.subtasks - done,
                   comments := t0.comments - LinkedComments(t0.subtaskComments, done),
                   subtaskComments := Unlinked(t0.subtaskComments, done));
      WithoutSubtask(t, s) ==
        t0.(subtasks := t0.subtasks - (done + {s}),
            comments := t0.comments - LinkedComments(t0.subtaskComments, done + {s}),
            subtaskComments := Unlinked(t0.subtaskComments, done + {s}))
  {
    var sc := Unlinked(t0.subtaskComments, done);
    assert LinkedComments(sc, {s}) + LinkedComments(t0.subtaskComments, done)
        == LinkedComments(t0.subtaskComments, done + {s});
    assert Unlinked(sc, {s}) == Unlinked(t0.subtaskComments, done + {s});
  }

  /** The task tables, updated in place by the handlers. */
  class TaskDb {
    var tasks: map<int, Task>
    var statusOf: map<int, int>
    var statuses: map<int, TaskStatus>
    var subtasks: map<int, Subtask>
    var comments: map<int, Comment>
    var taskComments: set<(int, int)>
    var subtaskComments: set<(int, int)>
    var assignees: set<(int, int)>
    var nextTaskId: int
    var nextSubtaskId: int
    var nextCommentId: int

    ghost predicate Valid()
      reads this
    {
      0 < nextTaskId && 0 < nextSubtaskId && 0 < nextCommentId
      && (forall id :: id in tasks ==> 0 < id < nextTaskId)
      && (forall id :: id in statusOf ==> 0 < id < nextTaskId)
      && (forall id :: id in subtasks ==> 0 < id < nextSubtaskId)
      && (forall id :: id in comments ==> 0 < id < nextCommentId)
    }

    /** An empty board over the seeded statuses. */
    constructor (statuses: map<int, TaskStatus>)
      ensures Valid() && this.statuses == statuses
      ensures Tables() == TaskTables(map[], map[], map[], map[], {}, {}, {})
    {
      this.statuses := statuses;
      tasks, statusOf, subtasks, comments := map[], map[], map[], map[];
      taskComments, subtaskComments, assignees := {}, {}, {};
      nextTaskId, nextSubtaskId, nextCommentId := 1, 1, 1;
    }

    function Tables(): TaskTables
      reads this
    {
      TaskTables(tasks, statusOf, subtasks, comments, taskComments, subtaskComments, assignees)
    }

    /** Deleting the comment rows with the given ids, one at a time. */
    method DeleteComments(ids: set<int>)
      modifies this`comments
      ensures comments == old(comments) - ids
    {
      var pending := ids;
      while exists c :: c in pending
        invariant pending <= ids
        invariant comments == old(comments) - (ids - pending)
        decreases pending
      {
        var c :| c in pending;
        comments := comments - {c};
        pending := pending - {c};
      }
      assert ids - pending == ids;
    }

    /** `deleteSubtask`: a missing subtask is an error and nothing changes. */
    method DeleteSubtask(s: int) returns (ok: bool)
      modifies this`subtasks, this`comments, this`subtaskComments
      ensures ok <==> s in old(subtasks)
      ensures ok ==> Tables() == WithoutSubtask(old(Tables()), s)
      ensures !ok ==> Tables() == old(Tables())
    {
      if s !in subtasks {
        return false;
      }
      subtasks := subtasks - {s};
      DeleteComments(LinkedComments(subtaskComments, {s}));
      subtaskComments := Unlinked(subtaskComments, {s});
      ok := true;
    }

    /** `deleteTask`: a missing task is an error and nothing changes. */
    method DeleteTask(t: int) returns (ok: bool)
      modifies this`tasks, this`statusOf, this`subtasks, this`comments
      modifies this`taskComments, this`subtaskComments, this`assignees
      ensures ok <==> t in old(tasks)
      ensures ok ==> Tables() == WithoutTasks(old(Tables()), {t})
      ensures !ok ==> Tables() == old(Tables())
    {
      if t !in tasks {
        return false;
      }
      ghost var t0 := Tables();
      tasks := tasks - {t};
      var subs := SubtasksOf(subtasks, {t});
      var pending := subs;
      while exists s :: s in pending
        invariant pending <= subs
        invariant tasks == t0.tasks - {t} && statusOf == t0.statusOf
        invariant taskComments == t0.taskComments && assignees == t0.assignees
        invariant subtasks == t0.subtasks - (subs - pending)
        invariant comments == t0.comments - LinkedComments(t0.subtaskComments, subs - pending)
        invariant subtaskComments == Unlinked(t0.subtaskComments, subs - pending)
        decreases pending
      {
        var s :| s in pending;
        WithoutSubtaskStep(t0, subs - pending, s);
        assert subs - pending + {s} == subs - (pending - {s});
        var _ := DeleteSubtask(s);
        pending := pending - {s};
      }
      assert subs - pending == subs;
      statusOf := statusOf - {t};
      DeleteComments(LinkedComments(taskComments, {t}));
      taskComments := Unlinked(taskComments, {t});
      assignees := Unlinked(assignees, {t});
      assert comments == t0.comments - (LinkedComments(t0.taskComments, {t}) + LinkedComments(t0.subtaskComments, subs));
      ok := true;
    }

    /** `deleteAllTasksAndSubtasksOfCollab`: `deleteTask` on every task of the group. */
    method DeleteAllTasksOfCollab(collabId: int)
      modifies this`tasks, this`statusOf, this`subtasks, this`comments
      modifies this`taskComments, this`subtaskComments, this`assignees
      ensures Tables() == WithoutTasks(old(Tables()), TasksOf(old(tasks), collabId))
    {
      ghost var t0 := Tables();
      var mine := TasksOf(tasks, collabId);
      var pending := mine;
      assert WithoutTasks(t0, {}) == t0;
      while exists id :: id in pending
        invariant pending <= mine
        invariant Tables() == WithoutTasks(t0, mine - pending)
        decreases pending
      {
        var id :| id in pending;
        WithoutTasksCompose(t0, mine - pending, {id});
        assert mine - pending + {id} == mine - (pending - {id});
        var _ := DeleteTask(id);
        pending := pending - {id};
      }
      assert mine - pending == mine;
    }
  }

  /** The tasks of one group. */
  function TasksOf(tasks: map<int, Task>, collabId: int): set<int> {
    set id | id in tasks && tasks[id].collabId == collabId
  }

  // ---------------------------------------------------------------- who hears about a task

  /**
   * `GetAllCollabMembersIDs`: the joined members, in the order the database
   * returns them, followed by the owner.  The owner lookup of a missing group
   * finds no row and leaves the id at 0.
   */
  method GetAllCollabMembersIDs(db: CollabDb, collabId: int) returns (ids: seq<int>)
    ensures |ids| >= 1
    ensures ids[|ids| - 1] == (if collabId in db.collabs then db.collabs[collabId].ownerId else 0)
    ensures forall u :: u in ids[..|ids| - 1] <==> u in JoinedMembers(db.members, collabId)
    ensures forall i, j :: 0 <= i < j < |ids| - 1 ==> ids[i] != ids[j]
    ensures multiset(ids) == multiset(JoinedMembers(db.members, collabId)) + multiset{ids[|ids| - 1]}
  {
    var owner := if collabId in db.collabs then db.collabs[collabId].ownerId else 0;
    var joined := JoinedMembers(db.members, collabId);
    var remaining := joined;
    var memberIds: seq<int> := [];
    while exists u :: u in remaining
      invariant remaining <= joined
      invariant forall u :: u in memberIds <==> u in joined - remaining
      invariant forall i, j :: 0 <= i < j < |memberIds| ==> memberIds[i] != memberIds[j]
      invariant multiset(memberIds) == multiset(joined - remaining)
      decreases remaining
    {
      var u :| u in remaining;
      assert joined - (remaining - {u}) == (joined - remaining) + {u};
      memberIds := memberIds + [u];
      remaining := remaining - {u};
    }
    assert joined - remaining == joined;
    ids := memberIds + [owner];
    assert ids[..|ids| - 1] == memberIds;
  }

  /** The list with the first occurrence of `x` taken out. */
  function RemoveFirst(ids: seq<int>, x: int): seq<int> {
    if ids == [] then []
    else if ids[0] == x then ids[1..]
    else [ids[0]] + RemoveFirst(ids[1..], x)
  }

  /** Exactly one copy of `x` goes, when there is one; every other entry stays. */
  lemma {:induction false} RemoveFirstCount(ids: seq<int>, x: int)
    ensures multiset(RemoveFirst(ids, x)) == multiset(ids) - multiset{x}
  {
    if ids != [] {
      assert ids == [ids[0]] + ids[1..];
      RemoveFirstCount(ids[1..], x);
    }
  }

  /** The entries before the first `x` and after it stay, in order. */
  lemma {:induction false} RemoveFirstAt(ids: seq<int>, x: int, i: nat)
    requires i < |ids| && ids[i] == x && x !in ids[..i]
    ensures RemoveFirst(ids, x) == ids[..i] + ids[i + 1..]
  {
    if i > 0 {
      assert ids[0] in ids[..i];
      assert ids[1..][..i - 1] == ids[1..i];
      RemoveFirstAt(ids[1..], x, i - 1);
      assert ids[..i] == [ids[0]] + ids[1..i];
    }
  }

  /** The creator's id is taken out of the recipients once, at its first position. */
  method RemoveCreator(ids: seq<int>, creatorId: int) returns (r: seq<int>)
    ensures r == RemoveFirst(ids, creatorId)
  {
    var i := 0;
    while i < |ids|
      invariant 0 <= i <= |ids|
      invariant RemoveFirst(ids, creatorId) == ids[..i] + RemoveFirst(ids[i..], creatorId)
    {
      if ids[i] == creatorId {
        assert ids[i..][1..] == ids[i + 1..];
        return ids[..i] + ids[i + 1..];
      }
      assert ids[i..][1..] == ids[i + 1..];
      assert ids[..i + 1] == ids[..i] + [ids[i]];
      i := i + 1;
    }
    assert ids[i..] == [];
    r := ids;
  }

  /** The verb a task notification uses for each kind of change; other kinds send nothing. */
  function TaskVerb(notiType: string): (v: Option<string>)
    ensures v.Some? <==> notiType in ["create", "rename", "delete", "updateStatus"]
  {
    if notiType == "create" then Some(CollabNotification.CREATED)
    else if notiType == "rename" then Some(CollabNotification.RENAMED)
    else if notiType == "delete" then Some(CollabNotification.DELETED)
    else if notiType == "updateStatus" then Some(CollabNotification.STATUS_UPDATED)
    else None
  }

  /**
   * What a task notification of the given verb looks like: every joined
   * member and the owner, less one copy of the creator, are told; a missing
   * group or creator means nothing is sent.
   */
  predicate TaskNotice(
    collabs: map<int, Collab>, members: map<(int, int), bool>, userNames: map<int, string>,
    collabId: int, creatorId: int, verb: string, taskName: string, stamp: string,
    sent: Option<CollabNotification.Notification>)
  {
    if collabId in collabs && creatorId in userNames then
      sent.Some?
      && multiset(sent.value.userIds)
         == multiset(JoinedMembers(members, collabId)) + multiset{collabs[collabId].ownerId} - multiset{creatorId}
      && sent.value.userReads == [] && !sent.value.isCollabInvite
      && sent.value.msg == CollabNotification.TaskMessage(verb, userNames[creatorId], taskName, collabs[collabId].name, stamp)
      && sent.value.link == CollabNotification.TaskLink(collabs[collabId].name, collabId)
    else sent == None
  }

  /**
   * `InsertNotificationForTask`: every joined member and the owner hear about
   * the change except the user who made it, who is taken out once.  A missing
   * group or creator sends nothing.
   */
  method InsertNotificationForTask(
    db: CollabDb, userNames: map<int, string>, collabId: int, notiType: string, taskName: string,
    creatorId: int, now: int, stamp: string) returns (sent: Option<CollabNotification.Notification>)
    ensures TaskVerb(notiType).None? ==> sent == None
    ensures TaskVerb(notiType).Some? ==>
      TaskNotice(db.collabs, db.members, userNames, collabId, creatorId, TaskVerb(notiType).value, taskName, stamp, sent)
  {
    if collabId !in db.collabs {
      return None;
    }
    var all := GetAllCollabMembersIDs(db, collabId);
    var memberIds := RemoveCreator(all, creatorId);
    RemoveFirstCount(all, creatorId);
    if creatorId !in userNames {
      return None;
    }
    sent := SendTaskNotification(
      notiType, userNames[creatorId], memberIds, taskName, collabId, db.collabs[collabId].name, now, stamp);
  }

  /** The `switch` on the kind of change: each kind calls its own notification builder. */
  method SendTaskNotification(
    notiType: string, creatorName: string, userIds: seq<int>, taskName: string,
    collabId: int, collabName: string, now: int, stamp: string)
    returns (sent: Option<CollabNotification.Notification>)
    ensures sent.Some? <==> TaskVerb(notiType).Some?
    ensures sent.Some? ==>
      sent.value.userIds == userIds && sent.value.userReads == [] && !sent.value.isCollabInvite
      && sent.value.msg == CollabNotification.TaskMessage(TaskVerb(notiType).value, creatorName, taskName, collabName, stamp)
      && sent.value.link == CollabNotification.TaskLink(collabName, collabId)
  {
    var n;
    if notiType == "create" {
      n := CollabNotification.CreateTaskNotification(creatorName, userIds, taskName, collabId, collabName, now, stamp);
    } else if notiType == "rename" {
      n := CollabNotification.RenameTaskNotification(creatorName, userIds, taskName, collabId, collabName, now, stamp);
    } else if notiType == "delete" {
      n := CollabNotification.DeleteTaskNotification(creatorName, userIds, taskName, collabId, collabName, now, stamp);
    } else if notiType == "updateStatus" {
      n := CollabNotification.UpdateTaskStatusNotification(creatorName, userIds, taskName, collabId, collabName, now, stamp);
    } else {
      return None;
    }
    sent := Some(n);
  }

  /**
   * Who is told about a change: every other member and the owner; the
   * creator only in the odd case of an owner who also holds a joined row,
   * where the id appears twice and only one copy is taken out.
   */
  lemma TaskRecipients(joined: set<int>, ownerId: int, creatorId: int, u: int)
    ensures var r := multiset(joined) + multiset{ownerId} - multiset{creatorId};
      (u != creatorId ==> (u in r <==> u in joined || u == ownerId))
      && (u == creatorId ==> (u in r <==> u in joined && u == ownerId))
  {
  }

  // ---------------------------------------------------------------- the board

  /** A card on the board. */
  datatype TaskDetails = TaskDetails(taskId: int, title: string, priority: bool, assignees: set<int>)

  /** A column of the board: one task status and its cards. */
  datatype TaskList = TaskList(statusId: int, name: string, color: string, details: seq<TaskDetails>)

  /** The users assigned to a task. */
  function AssigneesOf(assignees: set<(int, int)>, taskId: int): set<int> {
    set p | p in assignees && p.0 == taskId :: p.1
  }

  /** The rows of the board query: tasks with a status link, each listed once. */
  ghost predicate QueryRows(t: TaskTables, order: seq<int>) {
    (forall i :: 0 <= i < |order| ==> order[i] in t.tasks && order[i] in t.statusOf)
    && (forall i, j :: 0 <= i < j < |order| ==> order[i] != order[j])
  }

  /** The query's sort: by status id, then by the time the status last changed. */
  ghost predicate QuerySorted(t: TaskTables, order: seq<int>)
    requires QueryRows(t, order)
  {
    forall i, j :: 0 <= i < j < |order| ==>
      t.statusOf[order[i]] < t.statusOf[order[j]]
      || (t.statusOf[order[i]] == t.statusOf[order[j]]
          && t.tasks[order[i]].statusUpdatedAt <= t.tasks[order[j]].statusUpdatedAt)
  }

  /**
   * What the board query returns for a group, in the order it returns it:
   * each task of the group that has a status link exactly once, sorted.
   */
  ghost predicate BoardQuery(t: TaskTables, collabId: int, order: seq<int>) {
    QueryRows(t, order) && QuerySorted(t, order)
    && (forall id :: id in t.tasks && id in t.statusOf && t.tasks[id].collabId == collabId <==> id in order)
  }

  function Card(t: TaskTables, id: int): TaskDetails
    requires id in t.tasks
  {
    TaskDetails(id, t.tasks[id].title, t.tasks[id].priority, AssigneesOf(t.assignees, id))
  }

  /** The cards of one status, in query order. */
  function Bucket(t: TaskTables, order: seq<int>, statusId: int): (cards: seq<TaskDetails>)
    requires forall i :: 0 <= i < |order| ==> order[i] in t.tasks && order[i] in t.statusOf
    ensures |cards| <= |order|
    decreases |order|
  {
    if order == [] then []
    else
      var last := order[|order| - 1];
      Bucket(t, order[..|order| - 1], statusId) + if t.statusOf[last] == statusId then [Card(t, last)] else []
  }

  /** Every card of a column is the card of a listed task with that status. */
  lemma {:induction false} BucketCards(t: TaskTables, order: seq<int>, statusId: int)
    requires forall i :: 0 <= i < |order| ==> order[i] in t.tasks && order[i] in t.statusOf
    ensures forall k :: 0 <= k < |Bucket(t, order, statusId)| ==>
      var id := Bucket(t, order, statusId)[k].taskId;
      id in order && id in t.tasks && t.statusOf[id] == statusId && Bucket(t, order, statusId)[k] == Card(t, id)
    decreases |order|
  {
    if order != [] {
      var init := order[..|order| - 1];
      BucketCards(t, init, statusId);
      assert forall id :: id in init ==> id in order;
    }
  }

  /** Every listed task with that status has its card in the column. */
  lemma {:induction false} BucketComplete(t: TaskTables, order: seq<int>, statusId: int, id: int)
    requires forall i :: 0 <= i < |order| ==> order[i] in t.tasks && order[i] in t.statusOf
    requires id in order && t.statusOf[id] == statusId
    ensures exists k :: 0 <= k < |Bucket(t, order, statusId)| && Bucket(t, order, statusId)[k] == Card(t, id)
    decreases |order|
  {
    var init := order[..|order| - 1];
    var b := Bucket(t, init, statusId);
    if id == order[|order| - 1] {
      assert Bucket(t, order, statusId)[|b|] == Card(t, id);
    } else {
      assert id in init;
      BucketComplete(t, init, statusId, id);
      var k :| 0 <= k < |b| && b[k] == Card(t, id);
      assert Bucket(t, order, statusId)[k] == Card(t, id);
    }
  }

  /** Cards of existing tasks, oldest status change first. */
  ghost predicate OldestFirst(t: TaskTables, cards: seq<TaskDetails>) {
    forall i, j :: 0 <= i < j < |cards| ==>
      cards[i].taskId in t.tasks && cards[j].taskId in t.tasks
      && t.tasks[cards[i].taskId].statusUpdatedAt <= t.tasks[cards[j].taskId].statusUpdatedAt
  }

  /** Within a column, the cards keep the query's order: oldest status change first. */
  lemma {:induction false} BucketOrdered(t: TaskTables, order: seq<int>, statusId: int)
    requires QueryRows(t, order) && QuerySorted(t, order)
    ensures OldestFirst(t, Bucket(t, order, statusId))
    decreases |order|
  {
    BucketCards(t, order, statusId);
    if order != [] {
      var init := order[..|order| - 1];
      var last := order[|order| - 1];
      assert QueryRows(t, init);
      BucketOrdered(t, init, statusId);
      BucketCards(t, init, statusId);
      var b := Bucket(t, init, statusId);
      if t.statusOf[last] == statusId {
        var full := Bucket(t, order, statusId);
        assert full == b + [Card(t, last)];
        forall i | 0 <= i < |b|
          ensures t.tasks[b[i].taskId].statusUpdatedAt <= t.tasks[last].statusUpdatedAt
        {
          var k :| 0 <= k < |init| && init[k] == b[i].taskId;
          assert order[k] == b[i].taskId;
        }
        forall i, j | 0 <= i < j < |full|
          ensures t.tasks[full[i].taskId].statusUpdatedAt <= t.tasks[full[j].taskId].statusUpdatedAt
        {
          if j < |b| {
            assert full[i] == b[i] && full[j] == b[j];
          } else {
            assert full[i] == b[i] && full[j] == Card(t, last);
          }
        }
      } else {
        assert Bucket(t, order, statusId) == b;
      }
    }
  }

  /** The column of one status, as the board shows it. */
  function Column(statuses: map<int, TaskStatus>, t: TaskTables, order: seq<int>, statusId: int): TaskList
    requires statusId in statuses
    requires forall i :: 0 <= i < |order| ==> order[i] in t.tasks && order[i] in t.statusOf
  {
    TaskList(statusId, statuses[statusId].name, statuses[statusId].color, Bucket(t, order, statusId))
  }

  /** The status ids of a list of columns. */
  function StatusIds(lists: seq<TaskList>): set<int> {
    set k | 0 <= k < |lists| :: lists[k].statusId
  }

  /** The first loop of `getTaskByCollab`: each row's card is appended to the column of its status. */
  method FillBuckets(statuses: map<int, TaskStatus>, t: TaskTables, order: seq<int>)
    returns (buckets: map<int, seq<TaskDetails>>)
    requires forall i :: 0 <= i < |order| ==> order[i] in t.tasks && order[i] in t.statusOf
    ensures buckets.Keys == statuses.Keys
    ensures forall s :: s in buckets ==> buckets[s] == Bucket(t, order, s)
  {
    buckets := map s | s in statuses :: [];
    var i := 0;
    while i < |order|
      invariant 0 <= i <= |order|
      invariant buckets.Keys == statuses.Keys
      invariant forall s :: s in buckets ==> buckets[s] == Bucket(t, order[..i], s)
    {
      var id := order[i];
      assert order[..i + 1][..i] == order[..i];
      var s := t.statusOf[id];
      if s in buckets {
        buckets := buckets[s := buckets[s] + [Card(t, id)]];
      }
      i := i + 1;
    }
    assert order[..i] == order;
  }

  /** Columns in strictly ascending status id. */
  predicate Ascending(lists: seq<TaskList>) {
    forall i, j :: 0 <= i < j < |lists| ==> lists[i].statusId < lists[j].statusId
  }

  /** Each column carries its status's name and colour and the bucket of that status. */
  predicate ColumnsOf(statuses: map<int, TaskStatus>, buckets: map<int, seq<TaskDetails>>, lists: seq<TaskList>) {
    forall k :: 0 <= k < |lists| ==>
      lists[k].statusId in statuses && lists[k].statusId in buckets
      && lists[k] == TaskList(lists[k].statusId, statuses[lists[k].statusId].name,
                              statuses[lists[k].statusId].color, buckets[lists[k].statusId])
  }

  /** One pass of the sort: the least remaining status is appended as a column. */
  lemma AppendColumn(
    statuses: map<int, TaskStatus>, buckets: map<int, seq<TaskDetails>>,
    lists: seq<TaskList>, remaining: set<int>, s: int)
    requires buckets.Keys == statuses.Keys && remaining <= statuses.Keys
    requires statuses.Keys == remaining + StatusIds(lists)
    requires forall k, x :: 0 <= k < |lists| && x in remaining ==> lists[k].statusId < x
    requires Ascending(lists) && ColumnsOf(statuses, buckets, lists)
    requires s in remaining && forall x :: x in remaining ==> s <= x
    ensures var lists' := lists + [TaskList(s, statuses[s].name, statuses[s].color, buckets[s])];
      var remaining' := remaining - {s};
      statuses.Keys == remaining' + StatusIds(lists')
      && (forall k, x :: 0 <= k < |lists'| && x in remaining' ==> lists'[k].statusId < x)
      && Ascending(lists') && ColumnsOf(statuses, buckets, lists')
  {
    var column := TaskList(s, statuses[s].name, statuses[s].color, buckets[s]);
    var lists' := lists + [column];
    assert StatusIds(lists') == StatusIds(lists) + {s} by {
      assert forall k :: 0 <= k < |lists| ==> lists'[k] == lists[k];
      assert lists'[|lists|] == column;
    }
  }

  /** The columns in ascending status id (the final sort of `getTaskByCollab`). */
  method SortColumns(statuses: map<int, TaskStatus>, buckets: map<int, seq<TaskDetails>>)
    returns (lists: seq<TaskList>)
    requires buckets.Keys == statuses.Keys
    ensures statuses.Keys == StatusIds(lists)
    ensures Ascending(lists) && ColumnsOf(statuses, buckets, lists)
  {
    lists := [];
    var remaining := buckets.Keys;
    while exists s :: s in remaining
      invariant remaining <= statuses.Keys
      invariant statuses.Keys == remaining + StatusIds(lists)
      invariant forall k, x :: 0 <= k < |lists| && x in remaining ==> lists[k].statusId < x
      invariant Ascending(lists) && ColumnsOf(statuses, buckets, lists)
      decreases remaining
    {
      var s := LeastId(remaining);
      AppendColumn(statuses, buckets, lists, remaining, s);
      lists := lists + [TaskList(s, statuses[s].name, statuses[s].color, buckets[s])];
      remaining := remaining - {s};
    }
    assert remaining == {};
  }

  /**
   * `getTaskByCollab`: one column per task status, empty ones included, in
   * ascending status id; each task of the group sits in the column of its
   * status.  A task whose status id is not a known status is dropped.
   */
  method GetTaskByCollab(db: TaskDb, collabId: int, order: seq<int>) returns (lists: seq<TaskList>)
    requires BoardQuery(db.Tables(), collabId, order)
    ensures db.statuses.Keys == StatusIds(lists)
    ensures Ascending(lists)
    ensures forall k :: 0 <= k < |lists| ==>
      lists[k].statusId in db.statuses && lists[k] == Column(db.statuses, db.Tables(), order, lists[k].statusId)
  {
    var buckets := FillBuckets(db.statuses, db.Tables(), order);
    lists := SortColumns(db.statuses, buckets);
  }

  /** A task without a status link is on no column of the board. */
  lemma OrphanOffBoard(t: TaskTables, collabId: int, order: seq<int>, id: int)
    requires BoardQuery(t, collabId, order)
    requires id !in t.statusOf
    ensures id !in order
  {
  }

  // ---------------------------------------------------------------- task routes

  /**
   * The checks the task routes of a group share: both ids parse (400), the
   * task exists (500 otherwise), and it belongs to the group of the route (400).
   */
  function TaskInCollab(tasks: map<int, Task>, taskIdParam: string, collabIdParam: string): (code: int)
    ensures code == OK || code == BAD_REQUEST || code == INTERNAL_ERROR
    ensures code == OK <==>
      Text.Atoi(taskIdParam).Some? && Text.Atoi(collabIdParam).Some?
      && Text.Atoi(taskIdParam).value in tasks
      && tasks[Text.Atoi(taskIdParam).value].collabId == Text.Atoi(collabIdParam).value
    ensures code == INTERNAL_ERROR <==>
      Text.Atoi(taskIdParam).Some? && Text.Atoi(collabIdParam).Some? && Text.Atoi(taskIdParam).value !in tasks
  {
    match (Text.Atoi(taskIdParam), Text.Atoi(collabIdParam))
    case (Some(t), Some(c)) =>
      if t !in tasks then INTERNAL_ERROR
      else if tasks[t].collabId != c then BAD_REQUEST
      else OK
    case _ => BAD_REQUEST
  }

  /** A task of one group is refused on the route of any other group. */
  lemma TaskOfOtherCollabRefused(tasks: map<int, Task>, taskId: int, collabId: int)
    requires taskId in tasks && tasks[taskId].collabId != collabId
    ensures TaskInCollab(tasks, Text.Itoa(taskId), Text.Itoa(collabId)) == BAD_REQUEST
  {
    Text.AtoiItoa(taskId);
    Text.AtoiItoa(collabId);
  }

  /** The task with its priority flag negated. */
  function TogglePriority(tasks: map<int, Task>, id: int): (r: map<int, Task>)
    requires id in tasks
    ensures r.Keys == tasks.Keys && r[id].priority == !tasks[id].priority
    ensures r[id].(priority := tasks[id].priority) == tasks[id]
    ensures forall k :: k in tasks && k != id ==> r[k] == tasks[k]
  {
    tasks[id := tasks[id].(priority := !tasks[id].priority)]
  }

  /** Two priority updates restore the original task. */
  lemma TogglePriorityTwice(tasks: map<int, Task>, id: int)
    requires id in tasks
    ensures TogglePriority(TogglePriority(tasks, id), id) == tasks
  {
    var r := TogglePriority(TogglePriority(tasks, id), id);
    assert r[id] == tasks[id];
  }

  /** `HandleUpdateTaskPriority`: once the route checks pass, the flag is negated. */
  method HandleUpdateTaskPriority(db: TaskDb, taskIdParam: string, collabIdParam: string) returns (code: int)
    requires db.Valid()
    modifies db`tasks
    ensures db.Valid()
    ensures code == TaskInCollab(old(db.tasks), taskIdParam, collabIdParam)
    ensures code == OK ==> db.tasks == TogglePriority(old(db.tasks), Text.Atoi(taskIdParam).value)
    ensures code != OK ==> db.tasks == old(db.tasks)
  {
    code := TaskInCollab(db.tasks, taskIdParam, collabIdParam);
    if code != OK {
      return;
    }
    var id := Text.Atoi(taskIdParam).value;
    db.tasks := db.tasks[id := db.tasks[id].(priority := !db.tasks[id].priority)];
  }

  /** `HandleDeleteTask`: once the route checks pass, the task and everything under it go. */
  method HandleDeleteTask(
    db: TaskDb, cdb: CollabDb, userNames: map<int, string>, userId: int,
    taskIdParam: string, collabIdParam: string, now: int, stamp: string)
    returns (code: int, sent: Option<CollabNotification.Notification>)
    requires db.Valid()
    modifies db`tasks, db`statusOf, db`subtasks, db`comments
    modifies db`taskComments, db`subtaskComments, db`assignees
    ensures db.Valid()
    ensures code == TaskInCollab(old(db.tasks), taskIdParam, collabIdParam)
    ensures code == OK ==>
      var id := Text.Atoi(taskIdParam).value;
      db.Tables() == WithoutTasks(old(db.Tables()), {id})
      && TaskNotice(cdb.collabs, cdb.members, userNames, Text.Atoi(collabIdParam).value, userId,
                    CollabNotification.DELETED, old(db.tasks)[id].title, stamp, sent)
    ensures code != OK ==> db.Tables() == old(db.Tables()) && sent == None
  {
    sent := None;
    code := TaskInCollab(db.tasks, taskIdParam, collabIdParam);
    if code != OK {
      return;
    }
    var id := Text.Atoi(taskIdParam).value;
    var title := db.tasks[id].title;
    var _ := db.DeleteTask(id);
    sent := InsertNotificationForTask(cdb, userNames, Text.Atoi(collabIdParam).value, "delete", title, userId, now, stamp);
  }

  /** `HandleUpdateTaskName`: an empty title is refused before the route checks; the title is replaced. */
  method HandleUpdateTaskName(
    db: TaskDb, cdb: CollabDb, userNames: map<int, string>, userId: int,
    taskIdParam: string, title: string, collabIdParam: string, now: int, stamp: string)
    returns (code: int, sent: Option<CollabNotification.Notification>)
    requires db.Valid()
    modifies db`tasks
    ensures db.Valid()
    ensures code == if title == [] then BAD_REQUEST else TaskInCollab(old(db.tasks), taskIdParam, collabIdParam)
    ensures code == OK ==>
      var id := Text.Atoi(taskIdParam).value;
      db.tasks == old(db.tasks)[id := old(db.tasks)[id].(title := title)]
      && TaskNotice(cdb.collabs, cdb.members, userNames, Text.Atoi(collabIdParam).value, userId,
                    CollabNotification.RENAMED, title, stamp, sent)
    ensures code != OK ==> db.tasks == old(db.tasks) && sent == None
  {
    sent := None;
    if Text.Atoi(taskIdParam).None? || title == [] {
      return BAD_REQUEST, sent;
    }
    code := TaskInCollab(db.tasks, taskIdParam, collabIdParam);
    if code != OK {
      return;
    }
    var id := Text.Atoi(taskIdParam).value;
    db.tasks := db.tasks[id := db.tasks[id].(title := title)];
    sent := InsertNotificationForTask(cdb, userNames, Text.Atoi(collabIdParam).value, "rename", title, userId, now, stamp);
  }

  /**
   * The checks of `HandleUpdateTaskStatus`: both ids parse (400), the task
   * and its status link exist (500), and the status changes (400).  The
   * group of the route is not checked, nor that the status is a known one.
   */
  function StatusUpdateCheck(tasks: map<int, Task>, statusOf: map<int, int>, taskIdParam: string, statusParam: string)
    : (code: int)
    ensures code == OK || code == BAD_REQUEST || code == INTERNAL_ERROR
    ensures code == OK <==>
      Text.Atoi(taskIdParam).Some? && Text.Atoi(statusParam).Some?
      && Text.Atoi(taskIdParam).value in tasks && Text.Atoi(taskIdParam).value in statusOf
      && statusOf[Text.Atoi(taskIdParam).value] != Text.Atoi(statusParam).value
  {
    match (Text.Atoi(taskIdParam), Text.Atoi(statusParam))
    case (Some(t), Some(s)) =>
      if t !in tasks || t !in statusOf then INTERNAL_ERROR
      else if statusOf[t] == s then BAD_REQUEST
      else OK
    case _ => BAD_REQUEST
  }

  /** `HandleUpdateTaskStatus`: the status link moves and the task records when it moved. */
  method HandleUpdateTaskStatus(
    db: TaskDb, cdb: CollabDb, userNames: map<int, string>, userId: int,
    taskIdParam: string, statusParam: string, now: int, stamp: string)
    returns (code: int, sent: Option<CollabNotification.Notification>)
    requires db.Valid()
    modifies db`tasks, db`statusOf
    ensures db.Valid()
    ensures code == StatusUpdateCheck(old(db.tasks), old(db.statusOf), taskIdParam, statusParam)
    ensures code == OK ==>
      var id := Text.Atoi(taskIdParam).value;
      db.statusOf == old(db.statusOf)[id := Text.Atoi(statusParam).value]
      && db.tasks == old(db.tasks)[id := old(db.tasks)[id].(statusUpdatedAt := now)]
      && TaskNotice(cdb.collabs, cdb.members, userNames, old(db.tasks)[id].collabId, userId,
                    CollabNotification.STATUS_UPDATED, old(db.tasks)[id].title, stamp, sent)
    ensures code != OK ==> db.tasks == old(db.tasks) && db.statusOf == old(db.statusOf) && sent == None
  {
    sent := None;
    code := StatusUpdateCheck(db.tasks, db.statusOf, taskIdParam, statusParam);
    if code != OK {
      return;
    }
    var id := Text.Atoi(taskIdParam).value;
    var task := db.tasks[id];
    db.statusOf := db.statusOf[id := Text.Atoi(statusParam).value];
    db.tasks := db.tasks[id := task.(statusUpdatedAt := now)];
    sent := InsertNotificationForTask(cdb, userNames, task.collabId, "updateStatus", task.title, userId, now, stamp);
  }

  /** Repeating a status update that went through is refused: the status is already the requested one. */
  lemma StatusUpdateNotRepeated(tasks: map<int, Task>, statusOf: map<int, int>, taskId: int, statusId: int, now: int)
    requires taskId in tasks && taskId in statusOf && statusOf[taskId] != statusId
    ensures StatusUpdateCheck(tasks, statusOf, Text.Itoa(taskId), Text.Itoa(statusId)) == OK
    ensures StatusUpdateCheck(tasks[taskId := tasks[taskId].(statusUpdatedAt := now)], statusOf[taskId := statusId],
                              Text.Itoa(taskId), Text.Itoa(statusId)) == BAD_REQUEST
  {
    Text.AtoiItoa(taskId);
    Text.AtoiItoa(statusId);
  }

  // ---------------------------------------------------------------- adding a task

  /** The form checks of `HandleAddNewTask` that come before anything is written. */
  predicate AddTaskFormOk(collabIdParam: string, statusParam: string, title: string) {
    Text.Atoi(collabIdParam).Some? && Text.Atoi(statusParam).Some? && title != []
  }

  /**
   * `HandleAddNewTask` as written: the task row is stored before the status
   * id is looked up, so an unknown status answers 400 but leaves the new
   * task behind without a status link.
   */
  method HandleAddNewTaskAsWritten(db: TaskDb, collabIdParam: string, statusParam: string, title: string, now: int)
    returns (code: int, taskId: int)
    requires db.Valid()
    modifies db`tasks, db`statusOf, db`nextTaskId
    ensures db.Valid()
    ensures code == OK || code == BAD_REQUEST
    ensures code == OK <==> AddTaskFormOk(collabIdParam, statusParam, title) && Text.Atoi(statusParam).value in db.statuses
    ensures AddTaskFormOk(collabIdParam, statusParam, title) ==>
      taskId == old(db.nextTaskId) && taskId !in old(db.tasks) && taskId !in old(db.statusOf)
      && db.tasks == old(db.tasks)[taskId := Task(title, false, Text.Atoi(collabIdParam).value, now)]
    ensures code == OK ==> db.statusOf == old(db.statusOf)[taskId := Text.Atoi(statusParam).value]
    ensures code != OK ==> db.statusOf == old(db.statusOf)
    ensures !AddTaskFormOk(collabIdParam, statusParam, title) ==> db.tasks == old(db.tasks)
  {
    taskId := 0;
    if !AddTaskFormOk(collabIdParam, statusParam, title) {
      return BAD_REQUEST, taskId;
    }
    var c := Text.Atoi(collabIdParam).value;
    var s := Text.Atoi(statusParam).value;
    taskId := db.nextTaskId;
    db.tasks := db.tasks[taskId := Task(title, false, c, now)];
    db.nextTaskId := db.nextTaskId + 1;
    if s !in db.statuses {
      return BAD_REQUEST, taskId;
    }
    db.statusOf := db.statusOf[taskId := s];
    code := OK;
  }

  /**
   * `HandleAddNewTask` with the status looked up before anything is
   * written: every refusal leaves the tables as they were, and a stored
   * task always has its status link.
   */
  method HandleAddNewTask(
    db: TaskDb, cdb: CollabDb, userNames: map<int, string>, userId: int,
    collabIdParam: string, statusParam: string, title: string, now: int, stamp: string)
    returns (code: int, taskId: int, sent: Option<CollabNotification.Notification>)
    requires db.Valid()
    modifies db`tasks, db`statusOf, db`nextTaskId
    ensures db.Valid()
    ensures code == OK || code == BAD_REQUEST
    ensures code == OK <==> AddTaskFormOk(collabIdParam, statusParam, title) && Text.Atoi(statusParam).value in db.statuses
    ensures code == OK ==>
      taskId == old(db.nextTaskId) && taskId !in old(db.tasks)
      && db.tasks == old(db.tasks)[taskId := Task(title, false, Text.Atoi(collabIdParam).value, now)]
      && db.statusOf == old(db.statusOf)[taskId := Text.Atoi(statusParam).value]
      && TaskNotice(cdb.collabs, cdb.members, userNames, Text.Atoi(collabIdParam).value, userId,
                    CollabNotification.CREATED, title, stamp, sent)
    ensures code != OK ==> db.tasks == old(db.tasks) && db.statusOf == old(db.statusOf) && sent == None
  {
    taskId, sent := 0, None;
    if !AddTaskFormOk(collabIdParam, statusParam, title) || Text.Atoi(statusParam).value !in db.statuses {
      return BAD_REQUEST, taskId, sent;
    }
    var c := Text.Atoi(collabIdParam).value;
    taskId := db.nextTaskId;
    db.tasks := db.tasks[taskId := Task(title, false, c, now)];
    db.nextTaskId := db.nextTaskId + 1;
    db.statusOf := db.statusOf[taskId := Text.Atoi(statusParam).value];
    code := OK;
    sent := InsertNotificationForTask(cdb, userNames, c, "create", title, userId, now, stamp);
  }

  // ---------------------------------------------------------------- assignees

  /** The assignee rows after a committed update: the task's rows are exactly the requested ids. */
  function Reassigned(assignees: set<(int, int)>, taskId: int, ids: set<int>): set<(int, int)> {
    Unlinked(assignees, {taskId}) + set u | u in ids :: (taskId, u)
  }

  /** After the update the task is assigned exactly the requested users; other tasks keep theirs. */
  lemma ReassignedSpec(assignees: set<(int, int)>, taskId: int, ids: set<int>, other: int)
    ensures AssigneesOf(Reassigned(assignees, taskId, ids), taskId) == ids
    ensures other != taskId ==> AssigneesOf(Reassigned(assignees, taskId, ids), other) == AssigneesOf(assignees, other)
  {
    var r := Reassigned(assignees, taskId, ids);
    forall u | u in ids
      ensures u in AssigneesOf(r, taskId)
    {
      assert (taskId, u) in r;
    }
    if other != taskId {
      forall u | u in AssigneesOf(assignees, other)
        ensures u in AssigneesOf(r, other)
      {
        assert (other, u) in r;
      }
    }
  }

  /** A user who may not be added: not yet assigned, and neither the owner nor a joined member of the group. */
  predicate Intruder(collabs: map<int, Collab>, members: map<(int, int), bool>, current: set<int>, collabId: int, u: int) {
    u !in current && !CollabAccess.IsUserCollabOwnerOrMember(collabs, members, u, collabId)
  }

  /** No listed user is an intruder. */
  predicate NoIntruder(collabs: map<int, Collab>, members: map<(int, int), bool>, current: set<int>, collabId: int, ids: seq<int>) {
    forall k :: 0 <= k < |ids| ==> !Intruder(collabs, members, current, collabId, ids[k])
  }

  /** The first loop of `HandleAssignAssigneeToTask`: a row for every listed user not yet assigned. */
  method AddNewAssignees(db: TaskDb, cdb: CollabDb, taskId: int, collabId: int, ids: seq<int>)
    returns (ok: bool, added: bool)
    modifies db`assignees
    ensures ok <==> NoIntruder(cdb.collabs, cdb.members, AssigneesOf(old(db.assignees), taskId), collabId, ids)
    ensures ok ==> db.assignees == old(db.assignees) + set u | u in ids :: (taskId, u)
    ensures ok ==> (added <==> exists k :: 0 <= k < |ids| && ids[k] !in AssigneesOf(old(db.assignees), taskId))
  {
    var current := AssigneesOf(db.assignees, taskId);
    added := false;
    var i := 0;
    while i < |ids|
      invariant 0 <= i <= |ids|
      invariant forall k :: 0 <= k < i ==> !Intruder(cdb.collabs, cdb.members, current, collabId, ids[k])
      invariant db.assignees == old(db.assignees) + set u | u in ids[..i] :: (taskId, u)
      invariant added <==> exists k :: 0 <= k < i && ids[k] !in current
    {
      var u := ids[i];
      assert ids[..i + 1] == ids[..i] + [u];
      if u !in current {
        if !CollabAccess.IsUserCollabOwnerOrMember(cdb.collabs, cdb.members, u, collabId) {
          return false, added;
        }
        db.assignees := db.assignees + {(taskId, u)};
        added := true;
      } else {
        assert (taskId, u) in old(db.assignees);
      }
      i := i + 1;
    }
    assert ids[..i] == ids;
    ok := true;
  }

  /** The second loop: the rows of users no longer listed are deleted. */
  method RemoveUnlisted(db: TaskDb, taskId: int, current: set<int>, listed: set<int>) returns (removed: bool)
    modifies db`assignees
    ensures db.assignees == old(db.assignees) - set u | u in current - listed :: (taskId, u)
    ensures removed <==> current - listed != {}
  {
    var gone := current - listed;
    var pending := gone;
    removed := false;
    while exists u :: u in pending
      invariant pending <= gone
      invariant db.assignees == old(db.assignees) - set u | u in gone - pending :: (taskId, u)
      invariant removed <==> pending != gone
      decreases pending
    {
      var u :| u in pending;
      assert (set v | v in gone - (pending - {u}) :: (taskId, v)) == (set v | v in gone - pending :: (taskId, v)) + {(taskId, u)};
      db.assignees := db.assignees - {(taskId, u)};
      pending := pending - {u};
      removed := true;
    }
    assert gone - pending == gone;
  }

  /** Adding the listed rows and then deleting the unlisted ones is the reassignment. */
  lemma AddThenRemove(assignees: set<(int, int)>, taskId: int, ids: seq<int>)
    ensures var current := AssigneesOf(assignees, taskId);
      var listed := set u | u in ids;
      (assignees + set u | u in ids :: (taskId, u)) - (set u | u in current - listed :: (taskId, u))
        == Reassigned(assignees, taskId, listed)
  {
    var current := AssigneesOf(assignees, taskId);
    var listed := set u | u in ids;
    var a := (assignees + set u | u in ids :: (taskId, u)) - (set u | u in current - listed :: (taskId, u));
    var r := Reassigned(assignees, taskId, listed);
    forall p | p in a
      ensures p in r
    {
      if p.0 == taskId {
        var v := p.1;
        assert p == (taskId, v);
        assert (v in current - listed) == ((taskId, v) in (set u | u in current - listed :: (taskId, u)));
        if v in ids {
          assert (taskId, v) in (set u | u in listed :: (taskId, u));
        }
      }
    }
    forall p | p in r
      ensures p in a
    {
      if p.0 == taskId {
        assert p !in Unlinked(assignees, {taskId});
        assert p in (set u | u in listed :: (taskId, u));
        var u :| u in listed && p == (taskId, u);
        var k :| 0 <= k < |ids| && ids[k] == u;
        assert p in (set u | u in ids :: (taskId, u));
      }
    }
  }

  /** `InsertNotificationForAssignee`: every listed user is told, in the order listed. */
  method InsertNotificationForAssignee(
    cdb: CollabDb, userNames: map<int, string>, collabId: int, taskName: string, ids: seq<int>,
    creatorId: int, now: int, stamp: string) returns (sent: Option<CollabNotification.Notification>)
    ensures sent.Some? <==> collabId in cdb.collabs && creatorId in userNames
    ensures sent.Some? ==>
      sent.value.userIds == ids && sent.value.userReads == [] && !sent.value.isCollabInvite
      && sent.value.msg == CollabNotification.TaskMessage(
           CollabNotification.ASSIGNED, userNames[creatorId], taskName, cdb.collabs[collabId].name, stamp)
  {
    if collabId !in cdb.collabs || creatorId !in userNames {
      return None;
    }
    var n := CollabNotification.AssignTaskNotification(
      userNames[creatorId], ids, taskName, collabId, cdb.collabs[collabId].name, now, stamp);
    sent := Some(n);
  }

  /**
   * `HandleAssignAssigneeToTask`: every posted id must parse and the task
   * must exist (404).  A user not yet assigned who is neither the owner nor
   * a joined member rolls everything back (400).  Otherwise the task ends up
   * assigned exactly the posted users; when that changed nothing, nothing is
   * written and no one is told.
   */
  method HandleAssignAssigneeToTask(
    db: TaskDb, cdb: CollabDb, userNames: map<int, string>, userId: int,
    taskIdParam: string, idParams: seq<string>, now: int, stamp: string)
    returns (code: int, updated: bool, sent: Option<CollabNotification.Notification>)
    requires db.Valid()
    modifies db`assignees
    ensures db.Valid()
    ensures code == OK || code == BAD_REQUEST || code == NOT_FOUND
    ensures code == NOT_FOUND <==>
      Text.Atoi(taskIdParam).Some? && Text.ParseIds(idParams).Some? && Text.Atoi(taskIdParam).value !in db.tasks
    ensures code == OK <==>
      Text.Atoi(taskIdParam).Some? && Text.ParseIds(idParams).Some? && Text.Atoi(taskIdParam).value in db.tasks
      && NoIntruder(cdb.collabs, cdb.members, AssigneesOf(old(db.assignees), Text.Atoi(taskIdParam).value),
                    db.tasks[Text.Atoi(taskIdParam).value].collabId, Text.ParseIds(idParams).value)
    ensures code == OK ==>
      var (id, ids) := (Text.Atoi(taskIdParam).value, Text.ParseIds(idParams).value);
      db.assignees == Reassigned(old(db.assignees), id, set u | u in ids)
      && (updated <==> AssigneesOf(old(db.assignees), id) != set u | u in ids)
      && (!updated ==> sent == None)
      && (updated && db.tasks[id].collabId in cdb.collabs && userId in userNames ==>
            sent.Some? && sent.value.userIds == ids)
    ensures code != OK ==> db.assignees == old(db.assignees) && sent == None
  {
    updated, sent := false, None;
    var parsedTask := Text.Atoi(taskIdParam);
    if parsedTask.None? {
      return BAD_REQUEST, updated, sent;
    }
    var parsedIds := Text.ParseIdList(idParams);
    if parsedIds.None? {
      return BAD_REQUEST, updated, sent;
    }
    var id, ids := parsedTask.value, parsedIds.value;
    if id !in db.tasks {
      return NOT_FOUND, updated, sent;
    }
    var task := db.tasks[id];
    var ok;
    ok, updated := Reassign(db, cdb, id, task.collabId, ids);
    if !ok {
      return BAD_REQUEST, updated, sent;
    }
    if updated {
      sent := InsertNotificationForAssignee(cdb, userNames, task.collabId, task.title, ids, userId, now, stamp);
    }
    code := OK;
  }

  /**
   * The transaction of `HandleAssignAssigneeToTask`: add the new rows, delete
   * the unlisted ones, and roll back when an intruder is met or nothing changed.
   */
  method Reassign(db: TaskDb, cdb: CollabDb, taskId: int, collabId: int, ids: seq<int>)
    returns (ok: bool, updated: bool)
    modifies db`assignees
    ensures ok <==> NoIntruder(cdb.collabs, cdb.members, AssigneesOf(old(db.assignees), taskId), collabId, ids)
    ensures ok ==> db.assignees == Reassigned(old(db.assignees), taskId, set u | u in ids)
    ensures ok ==> (updated <==> AssigneesOf(old(db.assignees), taskId) != set u | u in ids)
    ensures !ok ==> db.assignees == old(db.assignees)
  {
    var saved := db.assignees;
    var current := AssigneesOf(db.assignees, taskId);
    var added;
    ok, added := AddNewAssignees(db, cdb, taskId, collabId, ids);
    updated := false;
    if !ok {
      db.assignees := saved;
      return;
    }
    var listed := set u | u in ids;
    var removed := RemoveUnlisted(db, taskId, current, listed);
    AddThenRemove(saved, taskId, ids);
    assert added <==> !(listed <= current);
    updated := added || removed;
    if !updated {
      db.assignees := saved;
    }
  }

  // ---------------------------------------------------------------- subtasks

  /** `HandleCreateSubtask`: the task id must parse and the title be non-empty; the task itself is not looked up. */
  method HandleCreateSubtask(db: TaskDb, taskIdParam: string, title: string) returns (code: int, subtaskId: int)
    requires db.Valid()
    modifies db`subtasks, db`nextSubtaskId
    ensures db.Valid()
    ensures code == OK || code == BAD_REQUEST
    ensures code == OK <==> Text.Atoi(taskIdParam).Some? && title != []
    ensures code == OK ==>
      subtaskId == old(db.nextSubtaskId) && subtaskId !in old(db.subtasks)
      && db.subtasks == old(db.subtasks)[subtaskId := Subtask(title, Text.Atoi(taskIdParam).value)]
    ensures code != OK ==> db.subtasks == old(db.subtasks)
  {
    subtaskId := 0;
    var parsed := Text.Atoi(taskIdParam);
    if parsed.None? || title == [] {
      return BAD_REQUEST, subtaskId;
    }
    subtaskId := db.nextSubtaskId;
    db.subtasks := db.subtasks[subtaskId := Subtask(title, parsed.value)];
    db.nextSubtaskId := db.nextSubtaskId + 1;
    code := OK;
  }

  /** The checks of `HandleUpdateSubtaskName`: the id parses and the title is non-empty (400), the subtask exists (500), the title changes (400). */
  function SubtaskRenameCheck(subtasks: map<int, Subtask>, subtaskIdParam: string, title: string): (code: int)
    ensures code == OK || code == BAD_REQUEST || code == INTERNAL_ERROR
    ensures code == OK <==>
      Text.Atoi(subtaskIdParam).Some? && title != [] && Text.Atoi(subtaskIdParam).value in subtasks
      && subtasks[Text.Atoi(subtaskIdParam).value].title != title
  {
    match Text.Atoi(subtaskIdParam)
    case None => BAD_REQUEST
    case Some(s) =>
      if title == [] then BAD_REQUEST
      else if s !in subtasks then INTERNAL_ERROR
      else if subtasks[s].title == title then BAD_REQUEST
      else OK
  }

  method HandleUpdateSubtaskName(db: TaskDb, subtaskIdParam: string, title: string) returns (code: int)
    requires db.Valid()
    modifies db`subtasks
    ensures db.Valid()
    ensures code == SubtaskRenameCheck(old(db.subtasks), subtaskIdParam, title)
    ensures code == OK ==>
      var s := Text.Atoi(subtaskIdParam).value;
      db.subtasks == old(db.subtasks)[s := old(db.subtasks)[s].(title := title)]
    ensures code != OK ==> db.subtasks == old(db.subtasks)
  {
    code := SubtaskRenameCheck(db.subtasks, subtaskIdParam, title);
    if code != OK {
      return;
    }
    var s := Text.Atoi(subtaskIdParam).value;
    db.subtasks := db.subtasks[s := db.subtasks[s].(title := title)];
  }

  /** Renaming a subtask to the title it was just given is refused. */
  lemma SubtaskRenameNotRepeated(subtasks: map<int, Subtask>, subtaskId: int, title: string)
    requires subtaskId in subtasks && title != []
    ensures SubtaskRenameCheck(subtasks[subtaskId := subtasks[subtaskId].(title := title)], Text.Itoa(subtaskId), title)
         == BAD_REQUEST
  {
    Text.AtoiItoa(subtaskId);
  }

  /** `HandleDeleteSubtask`: an unparsable id answers 400, a missing subtask 500; otherwise `deleteSubtask`. */
  method HandleDeleteSubtask(db: TaskDb, subtaskIdParam: string) returns (code: int)
    requires db.Valid()
    modifies db`subtasks, db`comments, db`subtaskComments
    ensures db.Valid()
    ensures code == OK || code == BAD_REQUEST || code == INTERNAL_ERROR
    ensures code == BAD_REQUEST <==> Text.Atoi(subtaskIdParam).None?
    ensures code == OK <==> Text.Atoi(subtaskIdParam).Some? && Text.Atoi(subtaskIdParam).value in old(db.subtasks)
    ensures code == OK ==> db.Tables() == WithoutSubtask(old(db.Tables()), Text.Atoi(subtaskIdParam).value)
    ensures code != OK ==> db.Tables() == old(db.Tables())
  {
    var parsed := Text.Atoi(subtaskIdParam);
    if parsed.None? {
      return BAD_REQUEST;
    }
    var ok := db.DeleteSubtask(parsed.value);
    code := if ok then OK else INTERNAL_ERROR;
  }

  // ---------------------------------------------------------------- comments

  /** A new comment on an existing task keeps every link pointing at a row, and each comment linked once. */
  lemma AddTaskCommentKeepsReferences(t: TaskTables, taskId: int, commentId: int, c: Comment)
    requires Referenced(t) && CommentsLinkedOnce(t)
    requires commentId !in t.comments && taskId in t.tasks
    ensures var t' := t.(comments := t.comments[commentId := c], taskComments := t.taskComments + {(taskId, commentId)});
      Referenced(t') && CommentsLinkedOnce(t')
  {
    var t' := t.(comments := t.comments[commentId := c], taskComments := t.taskComments + {(taskId, commentId)});
    assert forall p :: p in t.taskComments ==> p.1 != commentId;
    assert forall p :: p in t.subtaskComments ==> p.1 != commentId;
    assert Referenced(t');
    forall p: (int, int), q: (int, int) | p in t'.taskComments && q in t'.taskComments && p.1 == q.1
      ensures p == q
    {
      if p != (taskId, commentId) && q != (taskId, commentId) {
        assert p in t.taskComments && q in t.taskComments;
      }
    }
    forall p: (int, int), q: (int, int) | p in t'.taskComments && q in t'.subtaskComments
      ensures p.1 != q.1
    {
      if p != (taskId, commentId) && q != (taskId, commentId) {
        assert p in t.taskComments && q in t.subtaskComments;
      }
    }
  }

  /** The same for a new comment on an existing subtask. */
  lemma AddSubtaskCommentKeepsReferences(t: TaskTables, subtaskId: int, commentId: int, c: Comment)
    requires Referenced(t) && CommentsLinkedOnce(t)
    requires commentId !in t.comments && subtaskId in t.subtasks
    ensures var t' := t.(comments := t.comments[commentId := c], subtaskComments := t.subtaskComments + {(subtaskId, commentId)});
      Referenced(t') && CommentsLinkedOnce(t')
  {
    var t' := t.(comments := t.comments[commentId := c], subtaskComments := t.subtaskComments + {(subtaskId, commentId)});
    assert forall p :: p in t.taskComments ==> p.1 != commentId;
    assert forall p :: p in t.subtaskComments ==> p.1 != commentId;
    assert Referenced(t');
    forall p: (int, int), q: (int, int) | p in t'.subtaskComments && q in t'.subtaskComments && p.1 == q.1
      ensures p == q
    {
      if p != (subtaskId, commentId) && q != (subtaskId, commentId) {
        assert p in t.subtaskComments && q in t.subtaskComments;
      }
    }
    forall p: (int, int), q: (int, int) | p in t'.taskComments && q in t'.subtaskComments
      ensures p.1 != q.1
    {
      if p != (subtaskId, commentId) && q != (subtaskId, commentId) {
        assert p in t.taskComments && q in t.subtaskComments;
      }
    }
  }

  /**
   * `HandleAddCommentToTask` and `HandleAddCommentToSubtask`: the id parses
   * (400), the task or subtask exists (500 for a task, 404 for a subtask),
   * the text is non-empty (400); the comment and its link row are stored.
   */
  method HandleAddComment(db: TaskDb, toTask: bool, ownerIdParam: string, text: string, userId: int, now: int)
    returns (code: int, commentId: int)
    requires db.Valid()
    modifies db`comments, db`taskComments, db`subtaskComments, db`nextCommentId
    ensures db.Valid()
    ensures code == OK || code == BAD_REQUEST || code == INTERNAL_ERROR || code == NOT_FOUND
    ensures code == OK <==>
      Text.Atoi(ownerIdParam).Some? && text != []
      && (if toTask then Text.Atoi(ownerIdParam).value in db.tasks else Text.Atoi(ownerIdParam).value in db.subtasks)
    ensures code == (if toTask then INTERNAL_ERROR else NOT_FOUND) <==>
      Text.Atoi(ownerIdParam).Some?
      && (if toTask then Text.Atoi(ownerIdParam).value !in db.tasks else Text.Atoi(ownerIdParam).value !in db.subtasks)
    ensures code == OK ==>
      commentId == old(db.nextCommentId) && commentId !in old(db.comments)
      && db.comments == old(db.comments)[commentId := Comment(text, userId, now)]
      && (toTask ==> db.taskComments == old(db.taskComments) + {(Text.Atoi(ownerIdParam).value, commentId)}
                     && db.subtaskComments == old(db.subtaskComments))
      && (!toTask ==> db.subtaskComments == old(db.subtaskComments) + {(Text.Atoi(ownerIdParam).value, commentId)}
                      && db.taskComments == old(db.taskComments))
    ensures code != OK ==>
      db.comments == old(db.comments) && db.taskComments == old(db.taskComments)
      && db.subtaskComments == old(db.subtaskComments)
  {
    commentId := 0;
    var parsed := Text.Atoi(ownerIdParam);
    if parsed.None? {
      return BAD_REQUEST, commentId;
    }
    var owner := parsed.value;
    if toTask && owner !in db.tasks {
      return INTERNAL_ERROR, commentId;
    }
    if !toTask && owner !in db.subtasks {
      return NOT_FOUND, commentId;
    }
    if text == [] {
      return BAD_REQUEST, commentId;
    }
    commentId := db.nextCommentId;
    db.comments := db.comments[commentId := Comment(text, userId, now)];
    db.nextCommentId := db.nextCommentId + 1;
    if toTask {
      db.taskComments := db.taskComments + {(owner, commentId)};
    } else {
      db.subtaskComments := db.subtaskComments + {(owner, commentId)};
    }
    code := OK;
  }
}
