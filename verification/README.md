# Scholarize backend: a Dafny model of its rule-bearing core

Scholarize is a university research platform. Its Go backend does three jobs:

- it keeps a repository of research papers: upload, department-head approval, publication, and a searchable library;
- it runs collaboration groups, with members, invitations, permissions, a task board, shared files and a group calendar;
- it administers users, roles, permissions, departments and research types.

This project models the rules those handlers enforce. The primary part is the group scheduling engine:

- the overlap test;
- the owner-calendar conflict check;
- weekly recurrence expansion;
- the add-event permission gate;
- the all-or-nothing creation of one event in several groups at once.

Around it sit the handlers of the groups, the paper repository, administration, login and chat sessions.

Each core file becomes one module in a file of the same flavour:

- **Tables.** Database tables are `map`s or `seq`s held in the fields of a class (`CollabDb`, `TaskDb`, `FileDb`, `PaperDb`, `RoleDb`, `ChatDb`, ...).
- **Handlers.** A handler is a method on those classes. It returns the HTTP status it answers with. Its `ensures` states the new tables in terms of the old ones.
- **Verdicts.** Each handler's guards are collected in a pure verdict function. Lemmas prove what the verdicts promise: who may do what, what an operation preserves, which operations undo each other.
- **Pure helpers.** Bearer extraction, the e-mail domain check, 20-byte truncation, id-list parsing and result reordering are plain functions. Where Go works on a slice in place (`reverseArray`, `OrderArray`), the model is a method on an `array`.
- **Time.** Instants are whole seconds since the Unix epoch. The server's time zone, Asia/Bangkok, is UTC+7 with no daylight saving. So seven calendar days are 604800 seconds, and an instant's calendar date is `(t + 25200) / 86400`.
- **Outside services.** Everything that calls outside the program is a parameter of the method that uses it:
  - password hashing;
  - Google's token check;
  - signed tokens;
  - UUIDs;
  - JSON validity;
  - the search indexes;
  - the wall clock.
- **Shared modules.**
  - `Wrappers`: `Option`.
  - `Text`: Go's `strings` and `strconv` functions that the handlers use, on ASCII.
  - `Collabs`: the group tables and the membership lookups that every collaboration file shares.
  - `Papers`: paper rows, statuses and repository notifications.
  - `Accounts`: user rows and the token table.
- **Small lookups.** Helpers such as `collabExist`, `isOwnerCollab`, `checkExistCollabName`, `isTaskBelongsToCollab` and `checkDepartmentExists` are folded into the guard of each handler that calls them.

## Model

| member | source | states |
|---|---|---|
| Scheduling.CheckOwnerOverlappingTime | controllers/scheduling/scheduleUserController.go:92-99 | true exactly when some listed event overlaps the half-open interval [start, end); an empty list never conflicts |
| Scheduling.OverlapsSymmetric | controllers/scheduling/scheduleUserController.go:94 | the overlap test gives the same answer with its two intervals swapped |
| Scheduling.OverlapsItself | controllers/scheduling/scheduleUserController.go:94 | an interval overlaps itself exactly when it is non-empty |
| Scheduling.TouchingIntervalsDoNotOverlap | controllers/scheduling/scheduleUserController.go:94 | back-to-back events that only share an endpoint do not conflict, in either order |
| Scheduling.GetCollabOfUserOwner | controllers/scheduling/scheduleUserController.go:38-57 | the ids returned are exactly the groups the user owns that are not archived, each once |
| Scheduling.SchedulesOnDateIn | controllers/scheduling/scheduleUserController.go:76-88 | the events returned are exactly those linked to one of the given groups whose start falls on the same local calendar day as the new event |
| Scheduling.OwnerConflictMeans | controllers/scheduling/scheduleUserController.go:250-261 | the owner clash holds iff some event on the same local day, in a non-archived group of the same owner, overlaps the new interval |
| Scheduling.OwnerMayAddEvents | controllers/scheduling/scheduleUserController.go:124-139 | the owner of a group always holds the add-event permission, whatever grants the group has |
| Scheduling.NonOwnerNeedsGrant | controllers/scheduling/scheduleUserController.go:101-148 | a non-owner holds the add-event permission iff the group has a grant row for "Add schedule event" |
| Scheduling.WeeklyFromShape | controllers/scheduling/scheduleUserController.go:323-342 | the k-th date of the weekly loop is the first date plus k weeks; all dates lie before the bound, and the next one would not |
| Scheduling.RepeatStartsShape | controllers/scheduling/scheduleUserController.go:319-342 | the k-th repeat starts k+1 weeks after the event and before the end plus 7·RepeatInterval days, and the loop stops at the first start that is not before that bound |
| Scheduling.NoRepeatsWithoutInterval | controllers/scheduling/scheduleUserController.go:319 | a RepeatInterval of zero or less produces no repeat dates |
| Scheduling.RepeatCountWithinWeek | controllers/scheduling/scheduleUserController.go:319-342 | an event with 0 < end − start ≤ 7 days gets exactly RepeatInterval repeats |
| Scheduling.RepeatCountZeroLength | controllers/scheduling/scheduleUserController.go:320-323 | a zero-length event gets one repeat fewer than RepeatInterval, because the bound is computed from the end time |
| Scheduling.RepeatCountLongEvent | controllers/scheduling/scheduleUserController.go:320-323 | an event longer than a week gets more repeats than RepeatInterval |
| Scheduling.RowsOn | controllers/scheduling/scheduleUserController.go:342-350 | one repeat row per repeat date |
| Scheduling.LinksUpTo | controllers/scheduling/scheduleUserController.go:358-361 | one link row per repeat made so far |
| Scheduling.RowsOnAt | controllers/scheduling/scheduleUserController.go:343-350 | the k-th repeat row is built from the k-th date with the next consecutive id |
| Scheduling.LinksUpToAt | controllers/scheduling/scheduleUserController.go:358-361 | the k-th repeat link joins the k-th repeat row to the group |
| Scheduling.Series | controllers/scheduling/scheduleUserController.go:291-350 | the rows for one group: the event itself plus one row per repeat date |
| Scheduling.SeriesLinks | controllers/scheduling/scheduleUserController.go:307-361 | one link row per row of the series |
| Scheduling.SeriesShape | controllers/scheduling/scheduleUserController.go:291-350 | every row of a series has the request title, the acting user, RepeatInterval and the same length, and starts a whole number of weeks after the event; RepeatGroup is the decimal id of the first row when the event repeats and "" otherwise |
| Scheduling.SeriesLinksAt | controllers/scheduling/scheduleUserController.go:307-361 | the k-th link of a series joins the k-th row to the group |
| Scheduling.SeriesIds | controllers/scheduling/scheduleUserController.go:300-352 | the rows of a series get consecutive ids |
| Scheduling.SeriesGroupsDistinct | controllers/scheduling/scheduleUserController.go:335 | series that start at different ids get different repeat groups |
| Scheduling.AllLinksCount | controllers/scheduling/scheduleUserController.go:271-369 | the transaction writes one link per schedule row |
| Scheduling.AllRowsIds | controllers/scheduling/scheduleUserController.go:271-369 | the rows written for all selected groups take consecutive ids |
| Scheduling.AllLinksShape | controllers/scheduling/scheduleUserController.go:271-369 | every link names the row at its own position and one of the selected groups |
| Scheduling.AllRowsLinked | controllers/scheduling/scheduleUserController.go:271-369 | each written row has exactly one link, at the same position, to one of the selected groups |
| Scheduling.GroupRefusal | controllers/scheduling/scheduleUserController.go:273-333 | why the transaction stops at one group: unknown group (500), no add-event permission (401) or a clash on a repeat date (400) |
| Scheduling.PrecheckOkIff | controllers/scheduling/scheduleUserController.go:238-262 | the pre-check passes iff every selected group exists and has no clash on its owner's calendar |
| Scheduling.CommitOkIff | controllers/scheduling/scheduleUserController.go:271-333 | the transaction loop passes iff every selected group exists, lets the caller add events and has no clash on a repeat date |
| Scheduling.CreateOkIff | controllers/scheduling/scheduleUserController.go:213-369 | the request succeeds iff the caller is known, the fields are present and every selected group passes all checks; one failing group fails the whole request |
| Scheduling.MissingFieldsRejectedFirst | controllers/scheduling/scheduleUserController.go:230-236 | nil group ids, an empty title or a zero start or end is answered 400 whatever the tables hold |
| Scheduling.AppendRowValid | controllers/scheduling/scheduleUserController.go:300-316 | adding a row under the next id and linking it keeps ids unique and every link pointing at a row |
| Scheduling.ReplaceLastValid | controllers/scheduling/scheduleUserController.go:335-340 | saving the repeat group on the event's row keeps the tables valid |
| Scheduling.PrecheckSelected | controllers/scheduling/scheduleUserController.go:238-262 | the pre-check loop answers the outcome of the pre-check over the committed tables |
| Scheduling.CheckRepeatDates | controllers/scheduling/scheduleUserController.go:322-333 | the repeat-date loop reports a clash iff the overlap check reports one for some repeat date |
| Scheduling.AddRepeats | controllers/scheduling/scheduleUserController.go:342-368 | the repeat loop appends exactly the repeat rows and their links, under consecutive ids, and keeps the tables valid |
| Scheduling.AddSeries | controllers/scheduling/scheduleUserController.go:291-369 | one group's rows and links are appended after the existing ones, and the tables stay valid |
| Scheduling.CheckGroup | controllers/scheduling/scheduleUserController.go:273-333 | the checks on one group answer GroupRefusal |
| Scheduling.CommitSelected | controllers/scheduling/scheduleUserController.go:271-369 | the transaction loop answers CommitOutcome; on success it has appended exactly the series of every group, in order |
| Scheduling.ScheduleStore.constructor | model/model.go:369-389 | an empty pair of tables is valid |
| Scheduling.ScheduleStore.CreateForSelectedCollabs | controllers/scheduling/scheduleUserController.go:213-369 | the answer is CreateOutcome; on success both tables grow by exactly the series of every selected group, otherwise neither changes |
| Collabs.JoinedPendingPartition | model/model.go:213-218 | a membership row is joined or pending according to its joined flag, and no user is both a member and a pending invitee of one group |
| Collabs.CollabDb.constructor | model/model.go:181-251 | empty collaboration tables are valid |
| PermissionMiddleware.RoleHasPermissionMiddleware | middleware/permissionMiddleware.go:15-43 | a missing or non-string role aborts with 401; otherwise the request proceeds iff the role holds the permission, and is refused with 403 when it does not |
| PermissionMiddleware.CollabMemberHasPermissionMiddleware | middleware/permissionMiddleware.go:46-112 | a non-numeric group id aborts with 400 and an unknown group with 500; otherwise the request proceeds iff the caller owns the group or the group grants the permission, and is refused with 403 otherwise |
| PermissionMiddleware.OwnerAlwaysProceeds | middleware/permissionMiddleware.go:69-75 | the owner of an existing group proceeds whatever the group's grants |
| PermissionMiddleware.SameDecisionForNonOwners | middleware/permissionMiddleware.go:77-112 | every non-owner of a group gets the same decision, because grants belong to the group and not to a member |
| PermissionMiddleware.UnknownPermissionForbidden | middleware/permissionMiddleware.go:91-100 | a permission name that was never seeded is refused with 403 for every non-owner |
| CollabAccess.PendingInviteeHasNoAccess | middleware/collabMiddleware.go:68-82 | a pending invitee of a group they do not own is neither owner nor member |
| CollabAccess.IsPOSTCollabOwnerMiddleware | middleware/collabMiddleware.go:13-38 | a non-numeric form field collab_id aborts with 400; otherwise the request proceeds iff the caller owns that group, and 401 otherwise |
| CollabAccess.IsCollabOwnerOrMemberMiddleware | middleware/collabMiddleware.go:40-66 | a non-numeric path id aborts with 400; otherwise the request proceeds iff the caller owns the group or has joined it, and 401 otherwise |
| CollabAccess.CollabArchiveStatusMiddleware | middleware/collabMiddleware.go:84-112 | the request proceeds iff the id parses, names an existing group (id 0 never does) and that group is not archived; every refusal is 400 |
| CollabAccess.OwnerOrMemberGateOnRenderedId | middleware/collabMiddleware.go:40-82 | the decimal id of a group passes the owner-or-member gate exactly for its owner and joined members |
| CollabAccess.ArchivedGroupRefused | middleware/collabMiddleware.go:103-106 | an archived group is refused with 400 |
| CollabNotification.ShowFirst20Characters | controllers/notification/collabNotification.go:11-16 | a text of at most 20 bytes is kept; a longer one becomes its first 20 bytes followed by "..." |
| CollabNotification.ShowFirst20CharactersIdempotent | controllers/notification/collabNotification.go:11-16 | shortening an already shortened text changes nothing |
| CollabNotification.InviteTextHidesLongNames | controllers/notification/collabNotification.go:21-24 | two long group names that agree in their first 20 bytes give the same invitation text |
| CollabNotification.CollabInviteNotification | controllers/notification/collabNotification.go:19-36 | the stored invitation goes to the one invited user, is unread, is marked as an invite, carries the token, has no link and has the invitation message |
| CollabNotification.QueryEscapeBytes | controllers/notification/collabNotification.go:47 | the escaped group name contains no '?', '&', '=' or '/', so it cannot end the path or start a query |
| CollabNotification.TaskPathHasNoQuery | controllers/notification/collabNotification.go:57 | the path part of a task link has no '?' whatever the group's name |
| CollabNotification.TaskLinkQuery | controllers/notification/collabNotification.go:57 | a task link splits at '?' into exactly the path and the groupId query naming the group's id |
| CollabNotification.TaskNotification | controllers/notification/collabNotification.go:40-67 | the notification goes to the given users in order, none has read it, it is not an invite, and it carries the task message and the task link |
| CollabNotification.AssignTaskNotification | controllers/notification/collabNotification.go:70-72 | a task notification with the verb "assigned you to" |
| CollabNotification.RenameTaskNotification | controllers/notification/collabNotification.go:75-77 | a task notification with the verb "updated" |
| CollabNotification.CreateTaskNotification | controllers/notification/collabNotification.go:80-82 | a task notification with the verb "created" |
| CollabNotification.UpdateTaskStatusNotification | controllers/notification/collabNotification.go:85-87 | a task notification with the verb "updated status of" |
| CollabNotification.DeleteTaskNotification | controllers/notification/collabNotification.go:90-92 | a task notification with the verb "deleted" |
| Invitations.DecodeEncode | controllers/collaboration/invitationController.go:20-81 | reading an invite token gives back exactly the user, group and expiry it was made with |
| Invitations.ExtractGenerated | controllers/collaboration/invitationController.go:29-81 | a generated token yields its user and group until a day after it was issued, and nothing afterwards |
| Invitations.ValidateInviteLink | controllers/collaboration/invitationController.go:159-179 | a link is accepted only for an unexpired token whose user holds an invite linked to the token's group, and it answers that user and group |
| Invitations.StoredInviteValidates | controllers/collaboration/invitationController.go:159-179 | a stored invitation validates for its user and group until its token expires, and is refused afterwards |
| Invitations.MemberIds | controllers/collaboration/invitationController.go:88-89 | each form member id is read with the parse error ignored, so a non-number counts as 0, in order |
| Invitations.AddInvitesKeys | controllers/collaboration/invitationController.go:96-107 | the creation loop adds one invite row and one group link per listed id, under consecutive new ids |
| Invitations.AddInvitesKeeps | controllers/collaboration/invitationController.go:86-155 | existing invite rows and links are kept as they were |
| Invitations.AddInvitesNew | controllers/collaboration/invitationController.go:90-107 | the k-th listed id gets the k-th new invite, holding a token for that id and the group, linked to the group |
| Invitations.AddInvitesMembers | controllers/collaboration/invitationController.go:110-304 | existing membership rows are kept, every listed id has a row for the group, and every new row is a pending row of a listed id |
| Invitations.AddInvitesValid | controllers/collaboration/invitationController.go:86-155 | the creation loop keeps the invite tables valid: every link names an existing invite |
| Invitations.CreatedInvitesCanBeUsed | controllers/collaboration/invitationController.go:90-179 | every listed member ends up invited to the group with the very token they were sent |
| Invitations.InviteNotificationsAt | controllers/collaboration/invitationController.go:151 | the k-th notification goes to the k-th listed id and carries that id's token |
| Invitations.InviteNotificationsStep | controllers/collaboration/invitationController.go:151 | one more listed id adds one notification at the end |
| Invitations.WriteInvites | controllers/collaboration/invitationController.go:88-155 | the creation loop writes exactly AddInvites and sends the notifications of the listed ids, in order |
| Invitations.CreateInviteTokenForMembers | controllers/collaboration/invitationController.go:86-156 | the tables after the call are the creation loop applied to the form ids, and the notifications name the group by its stored name |
| Invitations.InvitesForNonEmpty | controllers/collaboration/invitationController.go:343 | a member holds an invite linked to the group iff the lookup of their invites for the group finds one |
| Invitations.RefreshOneValid | controllers/collaboration/invitationController.go:341-368 | refreshing one member keeps the invite tables valid and leaves the membership rows alone |
| Invitations.RefreshOneInvited | controllers/collaboration/invitationController.go:341-368 | after a refresh the member holds an invite for the group with the new token, and the only invite changed is one of theirs for that group |
| Invitations.RefreshOneRows | controllers/collaboration/invitationController.go:343-368 | an existing invite is reused with no new row or link; otherwise exactly one invite and one link are added under the next id |
| Invitations.RefreshKeepsInvited | controllers/collaboration/invitationController.go:343-350 | refreshing one member does not take a token away from any other member |
| Invitations.RefreshAllValid | controllers/collaboration/invitationController.go:329-403 | the refresh loop keeps the invite tables valid and leaves the membership rows alone |
| Invitations.RefreshLastInvited | controllers/collaboration/invitationController.go:329-368 | refreshing the last listed member keeps every earlier member invited |
| Invitations.RefreshAllInvited | controllers/collaboration/invitationController.go:329-368 | after the refresh every listed member holds an invite for the group with a fresh token |
| Invitations.RefreshedStep | controllers/collaboration/invitationController.go:343-368 | refreshing one more listed member stays within what the refresh may change |
| Invitations.RefreshAllRefreshed | controllers/collaboration/invitationController.go:329-368 | the refresh changes no group link, and changes an existing invite only by giving a listed member of the group a fresh token |
| Invitations.RefreshedWider | controllers/collaboration/invitationController.go:329 | what the refresh may change for a list it may also change for a longer list |
| Invitations.RefreshInvite | controllers/collaboration/invitationController.go:341-368 | one pass of the refresh loop: the member's first invite for the group, by id, gets the new token, or a new linked invite is created |
| Invitations.RefreshAllStep | controllers/collaboration/invitationController.go:329-403 | refreshing a prefix one longer is one more refresh |
| Invitations.RefreshInvites | controllers/collaboration/invitationController.go:329-403 | the refresh loop refreshes the invite of every listed member, in order, and notifies every listed member with the token generated for them |
| Invitations.CreateOrUpdateInvitesForMembers | controllers/collaboration/invitationController.go:319-405 | fails exactly for a missing group, then sending nothing and changing nothing; otherwise every listed id, whether or not it names a user, has its invite refreshed and is notified, in order |
| Invitations.HandleJoinCollab | controllers/collaboration/invitationController.go:182-315 | every refused check answers 400 and changes nothing; otherwise the membership row becomes joined, and the answer is OK only when an invite of this user holds the token; the one with the lowest id is deleted with its link to this group |
| Invitations.InvitationCanBeAccepted | controllers/collaboration/invitationController.go:182-236 | a stored invitation can be accepted until it expires, while the group is active, the user exists and is not the owner, and the membership is still pending |
| Invitations.NoSecondJoin | controllers/collaboration/invitationController.go:217-235 | whatever the token, a member who has joined cannot join again, and neither can the owner |
| CollabList.CollabActions | controllers/collaboration/collabListPageController.go:81-89 | An archived group offers only "View Info"; an active group offers the owner edit, archive and delete and offers anybody else leave, each action present exactly when those conditions hold |
| CollabList.Bucket | controllers/collaboration/collabListPageController.go:56-109 | A bucket is never longer than the list of groups it is built from |
| CollabList.BucketSizes | controllers/collaboration/collabListPageController.go:102-107 | Every listed group lands in exactly one of the active and archived lists |
| CollabList.BucketHolds | controllers/collaboration/collabListPageController.go:102-107 | Each listed group's entry is in the list its archive flag selects |
| CollabList.BucketEntries | controllers/collaboration/collabListPageController.go:91-107 | A list holds only listed groups with its own archive flag, each counting its joined members plus the owner |
| CollabList.GetCollabListByUserID | controllers/collaboration/collabListPageController.go:38-111 | The loop builds exactly the active and the archived bucket of the listed groups, in query order |
| CollabList.AddKeepsNamesUnique | controllers/collaboration/collabListPageController.go:164-181 | Adding a group whose name is not taken (ignoring case) keeps group names unique |
| CollabList.RenameKeepsNamesUnique | controllers/collaboration/collabListPageController.go:487-494 | Renaming a group to a name no other group holds keeps group names unique |
| CollabList.WithoutOwnerDropsFirst | controllers/collaboration/collabListPageController.go:189-195 | The splice removes exactly the first entry naming the owner and keeps the rest in order |
| CollabList.WithoutOwnerKeeps | controllers/collaboration/collabListPageController.go:189-195 | A member list that does not name the owner is left as it is |
| CollabList.RemoveOwner | controllers/collaboration/collabListPageController.go:189-195 | The splice loop computes the member list without the owner's first entry |
| CollabList.SetDefaultMemberPermission | controllers/collaboration/collabListPageController.go:257-278 | Exactly one grant per seeded group permission is added for the new group; nothing else changes |
| CollabList.DefaultGrantsAllowEverything | controllers/collaboration/collabListPageController.go:257-278 | Once the default grants are in place, every group permission gate passes for the group's members |
| CollabList.PermissionViewMatchesGate | controllers/collaboration/collabListPageController.go:814-853 | The permission view names exactly the seeded permissions, and marks one true exactly when the member permission gate passes |
| CollabList.GetCollabMemberPermissions | controllers/collaboration/collabListPageController.go:814-853 | The two loops compute the permission view: every seeded name, true exactly when the group holds that grant |
| CollabList.UpdatedGrantsSpec | controllers/collaboration/collabListPageController.go:900-965 | After an update a named permission is granted exactly when the request says true; unnamed permissions and other groups' grants are unchanged |
| CollabList.ViewAfterFullUpdate | controllers/collaboration/collabListPageController.go:900-965 | Reading the permissions back after an update naming every seeded permission yields the request |
| CollabList.UpdateCollabMemberPermissions | controllers/collaboration/collabListPageController.go:900-965 | Succeeds exactly when every requested name is a seeded permission; then answers the request and stores the updated grants; otherwise the grants are rolled back |
| CollabList.SetOneGrant | controllers/collaboration/collabListPageController.go:913-950 | One loop step adds the grant when the request turns it on, removes it when off, and records the requested value |
| CollabList.CreateCollab | controllers/collaboration/collabListPageController.go:223-238 | The new group gets the next id, which the counter then passes, the caller as owner, the given name and colour, and is active; name uniqueness is kept |
| CollabList.InviteMembers | controllers/collaboration/collabListPageController.go:197-199 | The invitations and the invite notifications of the new group are those of the invite operation for the listed ids |
| CollabList.CreateCollabWithMembers | controllers/collaboration/collabListPageController.go:175-206 | The new group row under the next id (the counter moves on by one), its invitations for every listed id except the owner, and the default grants, with nothing else changed |
| CollabList.HandleCreateCollab | controllers/collaboration/collabListPageController.go:155-212 | 400 exactly when the name is empty or its trimmed form is taken ignoring case, and then nothing changes; otherwise the group is created under the next id (the counter moves on by one), with its invites and its default grants |
| CollabList.NewMemberIdsSpec | controllers/collaboration/collabListPageController.go:546-565 | Every listed id that has not joined is treated as new, and nothing unlisted is |
| CollabList.WithPendingSpec | controllers/collaboration/collabListPageController.go:546-565 | Pending rows are only added, for listed ids that had none; existing rows are kept |
| CollabList.ReconciledSpec | controllers/collaboration/collabListPageController.go:518-587 | A joined member who is not listed loses the row; a listed id without a row gains a pending row; other rows are kept; no row appears for an unlisted user |
| CollabList.ReconciledOtherGroups | controllers/collaboration/collabListPageController.go:518-587 | Other groups' membership rows are not touched by the update |
| CollabList.ReconciledMembership | controllers/collaboration/collabListPageController.go:518-587 | After the update every listed id has a row, and the joined members are the old joined members that are listed |
| CollabList.ListedMembers | controllers/collaboration/collabListPageController.go:540-565 | The first loop adds pending rows for listed ids, collects the new ids, and leaves the joined members that are not listed |
| CollabList.DeleteMembers | controllers/collaboration/collabListPageController.go:572-578 | The deletion loop removes exactly the rows of the given users in this group |
| CollabList.UpdateCollab | controllers/collaboration/collabListPageController.go:518-587 | The group is renamed, membership is reconciled with the list, every new id (user or not) gets a refreshed invite and a notification with the new name, and nothing else changes |
| CollabList.HandleUpdateCollab | controllers/collaboration/collabListPageController.go:456-516 | 400 exactly for a bad id, an empty name, a missing or archived group, a name another group holds, or an unparsable member id, changing nothing; otherwise 200 with the group renamed to the trimmed name, membership reconciled, every new id given a refreshed invite (an existing one linked to the group gets the new token, or a new linked invite is created) and notified, and the group counter and grants unchanged |
| CollabList.HandleRemovePendingMember | controllers/collaboration/collabListPageController.go:589-659 | Succeeds exactly when the group is active, owned by the caller and the user is pending in it; then only that membership row is deleted |
| CollabList.HandleArchiveCollab | controllers/collaboration/collabListPageController.go:735-767 | An existing active group becomes archived and nothing else changes; anything else answers 400 |
| CollabList.HandleDeleteCollab | controllers/collaboration/collabListPageController.go:661-733 | An existing active group is deleted with its grants, membership rows, tasks (with their subtasks, comments and assignees) and files; otherwise nothing changes |
| CollabList.DropCollabRows | controllers/collaboration/collabListPageController.go:687-733 | The group row, its grants and its membership rows are removed and nothing else |
| CollabList.DeletedCollabLeavesNothing | controllers/collaboration/collabListPageController.go:687-733 | After deletion the group has no member, no pending invitee, no task and no file |
| CollabList.ArchiveOnce | controllers/collaboration/collabListPageController.go:743-749 | An archived group cannot be archived again |
| CollabList.LeaveGuard | controllers/collaboration/collabListPageController.go:967-1010 | Leaving is allowed exactly for a joined, non-owner member of an existing active group |
| CollabList.OnlyJoinedNonOwnersLeave | controllers/collaboration/collabListPageController.go:993-1008 | The owner is refused as owner, and a pending invitee as not yet joined |
| CollabList.HandleLeaveCollab | controllers/collaboration/collabListPageController.go:967-1028 | 200 exactly when the guard passes; then only the caller's own membership row is deleted |
| CollabList.HandleGetPermissionForCollabMembers | controllers/collaboration/collabListPageController.go:770-812 | 200 exactly when the caller owns the existing active group, answering its permission view |
| CollabList.HandleUpdatePermissionForCollabMembers | controllers/collaboration/collabListPageController.go:856-898 | 400 exactly when the caller does not own the active group, 500 exactly when a requested name is unknown; on 200 the grants are updated as requested |
| CollabList.GetUpdateFormCollab | controllers/collaboration/collabListPageController.go:420-454 | 400 for a bad id or a missing or archived group, 401 for a non-owner; on 200 the form lists exactly the joined members and the pending invitees |
| InsideCollab.WithoutTasksShrinks | controllers/collaboration/insideCollabPageController.go:1245-1299 | Deleting tasks never adds a task, status link, subtask or comment row |
| InsideCollab.WithoutTasksKeepsReferences | controllers/collaboration/insideCollabPageController.go:1245-1299 | Deleting tasks with their cascade leaves every link pointing at an existing row, each comment linked once, and no subtask of a deleted task |
| InsideCollab.WithoutTasksCompose | controllers/collaboration/insideCollabPageController.go:1301-1318 | Deleting two sets of tasks one after the other is deleting their union |
| InsideCollab.TaskDb.constructor | model/model.go:253-334 | An empty board over the seeded task statuses satisfies the table invariant |
| InsideCollab.TaskDb.DeleteComments | controllers/collaboration/insideCollabPageController.go:1229-1240 | The loop deletes exactly the comment rows with the given ids |
| InsideCollab.TaskDb.DeleteSubtask | controllers/collaboration/insideCollabPageController.go:1212-1243 | A missing subtask is an error and nothing changes; otherwise the subtask, its comment links and its comments are deleted |
| InsideCollab.TaskDb.DeleteTask | controllers/collaboration/insideCollabPageController.go:1245-1299 | A missing task is an error and nothing changes; otherwise the task, its subtasks (with their comments), its comments, status link and assignees are deleted |
| InsideCollab.TaskDb.DeleteAllTasksOfCollab | controllers/collaboration/insideCollabPageController.go:1301-1318 | Every task of the group is deleted with its cascade, and nothing else |
| InsideCollab.GetAllCollabMembersIDs | controllers/collaboration/insideCollabPageController.go:162-188 | The joined members, each once, followed by the owner (0 for a missing group) |
| InsideCollab.RemoveFirstCount | controllers/collaboration/insideCollabPageController.go:35-41 | Removing the creator takes out exactly one copy of the id when present |
| InsideCollab.RemoveFirstAt | controllers/collaboration/insideCollabPageController.go:35-41 | The entries before and after the creator's first position stay, in order |
| InsideCollab.RemoveCreator | controllers/collaboration/insideCollabPageController.go:35-41 | The splice loop computes the recipient list with the creator's first entry removed |
| InsideCollab.TaskVerb | controllers/collaboration/insideCollabPageController.go:52-61 | A notification is sent exactly for the kinds create, rename, delete and updateStatus |
| InsideCollab.InsertNotificationForTask | controllers/collaboration/insideCollabPageController.go:20-69 | Every joined member and the owner, minus the creator once, receive the message for the kind of change; an unknown kind, a missing group or a missing creator sends nothing |
| InsideCollab.SendTaskNotification | controllers/collaboration/insideCollabPageController.go:52-61 | Each kind sends the task message of its verb, to the given recipients, with the group's task link and no reads |
| InsideCollab.TaskRecipients | controllers/collaboration/insideCollabPageController.go:29-41 | Every other member and the owner are told; the creator only when, as owner, they also hold a joined row |
| InsideCollab.Bucket | controllers/collaboration/insideCollabPageController.go:262-271 | A column is never longer than the task list it is built from |
| InsideCollab.BucketCards | controllers/collaboration/insideCollabPageController.go:262-271 | Every card of a column is the card of a listed task with that status |
| InsideCollab.BucketComplete | controllers/collaboration/insideCollabPageController.go:262-271 | Every listed task with that status has its card in the column |
| InsideCollab.BucketOrdered | controllers/collaboration/insideCollabPageController.go:250-257 | Within a column, tasks appear oldest status change first, as the query orders them |
| InsideCollab.FillBuckets | controllers/collaboration/insideCollabPageController.go:236-271 | One column per known status, each holding exactly that status's cards in query order |
| InsideCollab.AppendColumn | controllers/collaboration/insideCollabPageController.go:290-301 | Adding the least remaining status keeps the columns ascending and complete so far |
| InsideCollab.SortColumns | controllers/collaboration/insideCollabPageController.go:290-301 | Every status gets a column, in ascending status id, each holding its own cards |
| InsideCollab.GetTaskByCollab | controllers/collaboration/insideCollabPageController.go:221-304 | The board has one column per task status, empty ones included, in ascending status id, each equal to that status's column of the group's tasks |
| InsideCollab.OrphanOffBoard | controllers/collaboration/insideCollabPageController.go:246-251 | A task without a status link appears on no column of the board |
| InsideCollab.TaskInCollab | controllers/collaboration/insideCollabPageController.go:377-420 | The task routes answer 400 for an unparsable id or a task of another group, 500 for a missing task, and go on only otherwise |
| InsideCollab.TaskOfOtherCollabRefused | controllers/collaboration/insideCollabPageController.go:1202-1210 | A task is refused on the route of any group it does not belong to |
| InsideCollab.TogglePriority | controllers/collaboration/insideCollabPageController.go:377-420 | Only the addressed task changes, and only its priority flag, which is negated |
| InsideCollab.TogglePriorityTwice | controllers/collaboration/insideCollabPageController.go:377-420 | Two priority updates restore the task |
| InsideCollab.HandleUpdateTaskPriority | controllers/collaboration/insideCollabPageController.go:377-420 | Once the route checks pass the flag is negated; otherwise nothing changes |
| InsideCollab.HandleDeleteTask | controllers/collaboration/insideCollabPageController.go:422-481 | Once the route checks pass the task and its cascade are deleted and the group is told; otherwise nothing changes and nothing is sent |
| InsideCollab.HandleUpdateTaskName | controllers/collaboration/insideCollabPageController.go:483-535 | An empty title is refused before the route checks; on success only the title changes and the group is told |
| InsideCollab.StatusUpdateCheck | controllers/collaboration/insideCollabPageController.go:537-598 | A status update goes through exactly when both ids parse, the task and its status link exist and the status differs |
| InsideCollab.HandleUpdateTaskStatus | controllers/collaboration/insideCollabPageController.go:537-598 | On success the status link moves, the task records when it moved, and the group is told; otherwise nothing changes |
| InsideCollab.StatusUpdateNotRepeated | controllers/collaboration/insideCollabPageController.go:537-598 | Repeating a status update that went through is refused |
| InsideCollab.HandleAddNewTaskAsWritten | controllers/collaboration/insideCollabPageController.go:306-375 | The task row is written before the status is looked up, so an unknown status answers 400 and still leaves a stored task without a status link |
| InsideCollab.HandleAddNewTask | controllers/collaboration/insideCollabPageController.go:306-375 | A valid form with a known status stores the task and its status link and tells the group; every refusal leaves the tables unchanged |
| InsideCollab.ReassignedSpec | controllers/collaboration/insideCollabPageController.go:648-749 | After reassignment the task's assignees are exactly the listed users; other tasks' assignees are unchanged |
| InsideCollab.AddNewAssignees | controllers/collaboration/insideCollabPageController.go:700-716 | The first loop succeeds exactly when no new assignee is an outsider, and then adds a row per listed user |
| InsideCollab.RemoveUnlisted | controllers/collaboration/insideCollabPageController.go:718-728 | The second loop deletes the rows of assignees no longer listed, and reports whether it deleted any |
| InsideCollab.AddThenRemove | controllers/collaboration/insideCollabPageController.go:700-728 | Adding the listed rows and deleting the unlisted ones is the reassignment |
| InsideCollab.InsertNotificationForAssignee | controllers/collaboration/insideCollabPageController.go:71-94 | Every listed assignee is told, in the order listed, once the group and the creator are found |
| InsideCollab.HandleAssignAssigneeToTask | controllers/collaboration/insideCollabPageController.go:648-749 | 404 for a missing task, 400 when an outsider would be added (rolled back); on 200 the assignees become the listed set |
| InsideCollab.Reassign | controllers/collaboration/insideCollabPageController.go:670-748 | The transaction succeeds exactly without an outsider; then the assignees become the listed set, with a change reported exactly when the set differs |
| InsideCollab.HandleCreateSubtask | controllers/collaboration/insideCollabPageController.go:761-794 | A parsable task id and a non-empty title store a new subtask; otherwise nothing changes |
| InsideCollab.SubtaskRenameCheck | controllers/collaboration/insideCollabPageController.go:796-834 | A rename goes through exactly when the id parses, the title is non-empty, the subtask exists and the title differs |
| InsideCollab.HandleUpdateSubtaskName | controllers/collaboration/insideCollabPageController.go:796-834 | On success only the subtask's title changes; otherwise nothing |
| InsideCollab.SubtaskRenameNotRepeated | controllers/collaboration/insideCollabPageController.go:796-834 | Renaming a subtask to the title it was just given is refused |
| InsideCollab.HandleDeleteSubtask | controllers/collaboration/insideCollabPageController.go:836-878 | 400 for an unparsable id, 500 for a missing subtask; otherwise the subtask and its comments are deleted |
| InsideCollab.AddTaskCommentKeepsReferences | controllers/collaboration/insideCollabPageController.go:971-1050 | A new comment on an existing task keeps every link pointing at a row and each comment linked once |
| InsideCollab.AddSubtaskCommentKeepsReferences | controllers/collaboration/insideCollabPageController.go:1110-1189 | A new comment on an existing subtask keeps every link pointing at a row and each comment linked once |
| InsideCollab.HandleAddComment | controllers/collaboration/insideCollabPageController.go:971-1050 | 400 for a bad id or empty text, 500 for a missing task (404 for a missing subtask); on success the comment is stored and linked to its task or subtask only |
| CollabFiles.UploadedEffect | controllers/collaboration/collabFileController.go:230-285 | An upload of a name already in the folder rewrites that row in place (no new row, no new link); otherwise exactly one file row and one folder link are added; the name is then in the folder |
| CollabFiles.UploadedKeepsNames | controllers/collaboration/collabFileController.go:230-285 | An upload keeps every name already present in any folder |
| CollabFiles.UploadedKeepsUnique | controllers/collaboration/collabFileController.go:230-285 | An upload never puts a second file of the same name in a folder |
| CollabFiles.UploadedAllSpec | controllers/collaboration/collabFileController.go:230-285 | After a whole upload every uploaded name is in the folder and no name is there twice |
| CollabFiles.UploadCheck | controllers/collaboration/collabFileController.go:159-227 | 400 exactly for no files, a bad or unknown folder id, or a bad group id; 500 when the file service stores nothing; otherwise the upload proceeds |
| CollabFiles.Hyphenated | controllers/collaboration/collabFileController.go:487 | Every space becomes a hyphen, every other character stays, and the length is kept |
| CollabFiles.HyphenatedIdempotent | controllers/collaboration/collabFileController.go:487 | Replacing spaces by hyphens twice is replacing them once |
| CollabFiles.RenameVerdict | controllers/collaboration/collabFileController.go:450-485 | 500 for a missing file; 400 for a file of another group, an unchanged name or a name already in the folder; otherwise the rename proceeds |
| CollabFiles.RenameAsWrittenDuplicates | controllers/collaboration/collabFileController.go:475-487 | Renaming a file to "a b" in a folder holding "a-b" passes the check and leaves two files named "a-b" in the folder |
| CollabFiles.RenameKeepsUnique | controllers/collaboration/collabFileController.go:475-487 | With the stored (hyphenated) name probed, a permitted rename keeps every folder's names unique |
| CollabFiles.RenameCheck | controllers/collaboration/collabFileController.go:388-507 | The route checks come first (400), then an empty name (400), then the row checks of the rename |
| CollabFiles.MoveVerdict | controllers/collaboration/collabFileController.go:563-598 | 500 for a missing file; 400 for a file of another group, a file already in the target folder, or a name already there; otherwise the move proceeds |
| CollabFiles.MoveCheck | controllers/collaboration/collabFileController.go:509-598 | The route checks come first, then the row checks of the move |
| CollabFiles.MoveKeepsUnique | controllers/collaboration/collabFileController.go:599-612 | A permitted move puts the file in the target folder only, keeps the other links, and keeps names unique |
| CollabFiles.DeleteCheck | controllers/collaboration/collabFileController.go:302-341 | 400 for a bad id or a file of another group, 500 for a missing file; otherwise the delete proceeds |
| CollabFiles.WithoutFiles | controllers/collaboration/collabFileController.go:789-810 | The deleted files and exactly their folder links are gone |
| CollabFiles.WithoutFilesSpec | controllers/collaboration/collabFileController.go:789-810 | Deleting files keeps the tables consistent and names unique, keeps other rows unchanged, and deleting a group's files leaves it none |
| CollabFiles.PageBounds | controllers/collaboration/collabFileController.go:729-759 | The page starts at (page-1)*count clipped to the rows and holds at most count rows; a negative count means no limit |
| CollabFiles.PagesCover | controllers/collaboration/collabFileController.go:729-759 | The first n pages together are the first n*count rows |
| CollabFiles.GetFileDetailsByFolder | controllers/collaboration/collabFileController.go:667-787 | 400 for a bad or unknown folder or a bad group id; on 200 the answer is the folder's name, total and the requested page of files, each with its uploader |
| CollabFiles.FileDb.constructor | model/model.go:336-366 | No files yet, over the seeded folders |
| CollabFiles.FileDb.Upload | controllers/collaboration/collabFileController.go:230-285 | One pass of the upload loop applies one upload to the tables |
| CollabFiles.FileDb.DeleteAllCollabFiles | controllers/collaboration/collabFileController.go:789-810 | Each file of the group goes with its folder links, and nothing else |
| CollabFiles.HandleUploadFilesToCollab | controllers/collaboration/collabFileController.go:159-300 | The answer is the upload check; on 200 the uploads are applied one by one; otherwise nothing changes |
| CollabFiles.HandleRenameFileAsWritten | controllers/collaboration/collabFileController.go:388-507 | The answer is the rename check probing the requested name; on 200 the file takes the hyphenated name |
| CollabFiles.HandleRenameFile | controllers/collaboration/collabFileController.go:388-507 | The answer is the rename check probing the stored name; on 200 the file takes the hyphenated name |
| CollabFiles.HandleMoveFile | controllers/collaboration/collabFileController.go:509-625 | The answer is the move check; on 200 the file's time is touched and its links point at the target folder; otherwise nothing changes |
| CollabFiles.HandleDeleteCollabFile | controllers/collaboration/collabFileController.go:302-386 | The answer is the delete check; on 200 the file row and its folder links are gone; otherwise nothing changes |
| NotificationApi.IsReadBy | controllers/notification/notificationAPI.go:35-40 | The read flag is true exactly when the user is among the notification's readers |
| NotificationApi.GetAllNotifications | controllers/notification/notificationAPI.go:19-47 | Each row of the query, in the query's order, paired with the user's read flag |
| NotificationApi.AllRead | controllers/notification/notificationAPI.go:90-97 | The inbox is all read exactly when every entry is read (an empty inbox is all read) |
| NotificationApi.HandleGetAllNotifications | controllers/notification/notificationAPI.go:77-100 | At most 20 notifications addressed to the user, newest first, each with its read flag; allRead exactly when the user read every one |
| NotificationApi.EmptyInboxHasNone | controllers/notification/notificationAPI.go:19-24 | An empty inbox means no notification is addressed to the user |
| NotificationApi.NotificationDb.constructor | model/model.go:394-408 | A store over the given notification rows |
| NotificationApi.NotificationDb.MarkAsRead | controllers/notification/notificationAPI.go:49-74 | A missing notification or one already read by the user is an error and changes nothing; otherwise the user is appended to its readers |
| NotificationApi.MarkedSpec | controllers/notification/notificationAPI.go:49-74 | Marking makes the notification read by the user, keeps earlier readers in order, and changes nobody else's read status or any other notification |
| NotificationApi.HandleMarkNotificationAsRead | controllers/notification/notificationAPI.go:103-119 | 400 for an unparsable id, 500 for a refused mark, otherwise the user is recorded as a reader |
| Roles.RolesOf | permission/role.go:46-50 | The roles listed for a user are exactly those of the user's rows |
| Roles.FirstRoleIndex | permission/role.go:95-107 | The first position whose role is (or is not) an admin role, every earlier one being the other kind |
| Roles.FirstFrontRole | permission/role.go:95-107 | The first role that is neither Admin nor Super Admin, or 0 when every role is one of those |
| Roles.FirstAdminRole | permission/role.go:141-153 | The first Admin or Super Admin role, or 0 when there is none |
| Roles.FrontRoleIsEarliest | permission/role.go:95-107 | A user holding a front role gets the earliest one in row order |
| Roles.RoleNamesOf | permission/user.go:39-60 | The names of the user's roles in row order; a row whose role is missing makes the read fail |
| Roles.FirstNameIndex | permission/role.go:110-123 | The first name that is (or is not) an admin role name, every earlier one being the other kind |
| Roles.FrontPanelRoleName | permission/role.go:110-123 | The first non-admin role name of the user, or empty when there is none |
| Roles.AdminPanelRoleName | permission/role.go:156-176 | The first admin role name of the user; exactly when there is none, the JSON error text |
| Roles.NamesComeFromRows | permission/user.go:39-60 | Every listed role name comes from one of the user's rows |
| Roles.Without | permission/role.go:74-77 | Exactly the rows equal to the deleted row are gone, order kept |
| Roles.WithoutKeepsOthers | permission/role.go:74-77 | Removing one user's row leaves other users' roles unchanged |
| Roles.AppendKeepsOthers | permission/role.go:64-71 | Adding a row for one user leaves other users' roles unchanged |
| Roles.RoleDb.constructor | model/model.go:59-76 | A store over the given user-role rows |
| Roles.RoleDb.Assign | permission/role.go:64-71 | One row is appended and the user then holds the role |
| Roles.RoleDb.Remove | permission/role.go:74-77 | Every row of that user and role is deleted and the user no longer holds it |
| Roles.RoleDb.FindRole | permission/role.go:53-61 | The loop answers true exactly when the user has a row with the role |
| Roles.RoleDb.ChangeFrontUserRole | permission/role.go:179-203 | Refused exactly when the user already holds the new role, or is a HOD heading a department; otherwise the front role's rows are replaced by the new role |
| Roles.RoleDb.TransferSuperAdmin | permission/role.go:206-219 | The source is demoted to Admin and the target promoted to Super Admin |
| Roles.TransferSwapsRoles | permission/role.go:206-219 | After a transfer the source holds Admin and not Super Admin, the target the reverse, and other users keep their roles |
| Roles.ChangedRoleSpec | permission/role.go:196-200 | After a change the user holds the new role and not the old front role; other users keep their roles |
| RolePermissions.NameIn | controllers/administrator/rolePermissionController.go:184-208 | Every permission's name is among the listed names |
| RolePermissions.PermissionViewSpec | controllers/administrator/rolePermissionController.go:184-208 | The current-permissions map names every permission and sets true exactly those the role holds |
| RolePermissions.DetectPermissionChanges | controllers/administrator/rolePermissionController.go:169-182 | The names to add are those turned on and not held; those to remove are held and turned off |
| RolePermissions.ChangesReachUpdated | controllers/administrator/rolePermissionController.go:169-182 | Applying the detected changes gives exactly the updated permissions; no name is both added and removed |
| RolePermissions.GetCurrentPermissions | controllers/administrator/rolePermissionController.go:184-208 | The two loops compute the current-permissions map of the role |
| RolePermissions.IdOf | controllers/administrator/rolePermissionController.go:129-131 | The permission looked up by name has that name |
| RolePermissions.StepKeepsOtherRoles | controllers/administrator/rolePermissionController.go:115-159 | Updating one role changes no other role's rows |
| RolePermissions.StepGrantsExactly | controllers/administrator/rolePermissionController.go:115-159 | With distinct permission names, an updated role holds exactly the permissions the request sets to true |
| RolePermissions.AppliedGrantsExactly | controllers/administrator/rolePermissionController.go:102-167 | With distinct names and one entry per role, every role in the request ends with exactly its requested permissions |
| RolePermissions.AppliedKeepsUnnamed | controllers/administrator/rolePermissionController.go:102-167 | A role the request does not name keeps its rows |
| RolePermissions.GrantedOfRoleRows | controllers/administrator/rolePermissionController.go:184-208 | What a role holds depends only on its own rows |
| RolePermissions.RolePermissionDb.constructor | model/model.go:78-96 | A store over the permission, role-permission and role tables |
| RolePermissions.RolePermissionDb.FindPermission | controllers/administrator/rolePermissionController.go:129-131 | Found exactly when a permission has the name, and then the lowest such id |
| RolePermissions.RolePermissionDb.RemoveNames | controllers/administrator/rolePermissionController.go:127-139 | Each name switched off loses its row for the role |
| RolePermissions.RolePermissionDb.AddNames | controllers/administrator/rolePermissionController.go:142-158 | Succeeds exactly when every name exists, and then adds a row per name |
| RolePermissions.RolePermissionDb.HandleUpdateRolePermissions | controllers/administrator/rolePermissionController.go:102-167 | 400 exactly for an unreadable body, 500 when a name is unknown (nothing changes); otherwise every entry's changes are applied |
| RolePermissions.RolePermissionDb.ListRolePermissions | controllers/administrator/rolePermissionController.go:68-86 | Every permission name, true exactly when the role holds it; a row naming a missing permission adds the empty name |
| RolePermissions.RolePermissionDb.GetAllRolePermissionsList | controllers/administrator/rolePermissionController.go:28-89 | Every role except Admin and Super Admin, in query order, with name, colour and its permission map |
| RolePermissions.ListedTrueNames | controllers/administrator/rolePermissionController.go:68-86 | The names a listed map sets true are the role's permissions, plus the empty name for a dangling row |
| Accounts.ClearedSpec | auth/token.go:429-441 | Every token row of the user gets the cleared marker and the current time; other users' rows are unchanged; no row is added or removed |
| Accounts.ClearedTwice | auth/token.go:429-441 | Clearing a user's tokens twice is the same as clearing them once |
| Accounts.UserByEmail | permission/user.go:11-18 | A user is found exactly when some user has the e-mail, and the one found has it |
| Accounts.AccountDb.constructor | model/model.go:11-47 | A store over the user, token and reset-password tables |
| Accounts.AccountDb.ClearApiTokenOfUser | auth/token.go:429-441 | The token table becomes the cleared table for the user |
| Accounts.AccountDb.FindUserByEmail | permission/user.go:11-18 | The lookup answers the user with the e-mail, if any |
| AdminList.HandleAddAdmin | controllers/administrator/adminListController.go:76-156 | 400 exactly for an unparsable id; 401 for a missing user or one already Admin or Super Admin; on 200 the Admin role is assigned, a reset row created and the password replaced; otherwise nothing changes |
| AdminList.AddedAdminIsAdmin | controllers/administrator/adminListController.go:158-167 | After the assignment the user is an Admin |
| AdminList.HandleTransferSuperAdmin | controllers/administrator/adminListController.go:179-260 | 400 exactly for an unparsable id; 200 exactly when the caller is Super Admin, the target Admin and the password verifies; then the roles swap and both users' tokens are cleared |
| AdminList.RemoveRefusal | controllers/administrator/adminListController.go:262-304 | Removal is allowed exactly for another user whose confirmed e-mail matches, who is Admin and not Super Admin; removing oneself is always refused with 401 |
| AdminList.HandleRemoveAdmin | controllers/administrator/adminListController.go:262-320 | The answer is the refusal check; on 200 the Admin role goes, the tokens are cleared and the reset row deleted; otherwise nothing changes |
| AdminList.RemovedAdminIsNotAdmin | controllers/administrator/adminListController.go:306-313 | A removed Admin is no longer Admin and keeps every other role |
| UserList.FrontRoleData | permission/role.go:80-92 | The user's first front role, or 0; never an admin-panel role |
| UserList.HandleUpdateFrontUserInfo | controllers/administrator/userListController.go:46-131 | 400 for an unparsable field or a missing user, or a refused role change; "no changes" exactly when neither role nor status differs; otherwise the user's current front role row is replaced by the new one, other users' roles are kept, the status is set and every token of the user is cleared |
| UserList.HandleChangeFrontUserRole | controllers/administrator/userListController.go:17-43 | 400 exactly for an unparsable id; otherwise the change is attempted, the user's tokens cleared, and the change succeeds exactly when the user lacks the role and is not a heading HOD |
| UserList.FrontUserEntries | controllers/administrator/userListController.go:134-198 | One entry per listed user, in query order, each with the user's front role, which is never an admin-panel role |
| Departments.HeadsOf | controllers/administrator/departmentListController.go:297-301 | The heads listed for a department are exactly the users of its head rows |
| Departments.CheckUsersExistWithHodRole | controllers/administrator/departmentListController.go:441-466 | The loop accepts exactly when every posted id parses, and the front role name of the user it names is HOD, where an id naming no user is judged by the roles of user 0 (the zero row) |
| Departments.ParsedHodIds | controllers/administrator/departmentListController.go:441-466 | Ids that pass the HOD check all parse |
| Departments.KeptHeads | controllers/administrator/departmentListController.go:389-398 | The deletion loop keeps other departments' rows and this department's heads that are still listed |
| Departments.NewHeads | controllers/administrator/departmentListController.go:400-419 | The insertion loop adds a row exactly for each listed id that was not yet a head of the department |
| Departments.AssignedSpec | controllers/administrator/departmentListController.go:373-421 | After assignment the department is headed by exactly the listed ids; other departments' heads are unchanged |
| Departments.UnchangedListKeepsHeads | controllers/administrator/departmentListController.go:297-309 | When the posted list equals the current heads as strings in row order, skipping the assignment changes nothing it would have changed |
| Departments.UpdatePrecheck | controllers/administrator/departmentListController.go:217-280 | The update goes on exactly when the id and status parse, the HOD ids pass, the department exists, and no other department has the name or the upper-cased tag |
| Departments.KeepListedHeads | controllers/administrator/departmentListController.go:389-398 | The deletion loop leaves exactly the kept head rows |
| Departments.CollectNewHeads | controllers/administrator/departmentListController.go:400-419 | The insertion loop fails exactly when a new head already heads another department; otherwise it computes the new rows |
| Departments.HeadRowsFor | controllers/administrator/departmentListController.go:180-202 | One head row per posted id, in order |
| Departments.DepartmentDb.constructor | model/model.go:149-179 | A store over the department and department-head tables |
| Departments.DepartmentDb.AssignHods | controllers/administrator/departmentListController.go:373-421 | The assignment succeeds exactly when no new head heads another department, and then yields the assigned rows; otherwise nothing changes |
| Departments.DepartmentDb.AppendHeads | controllers/administrator/departmentListController.go:180-202 | The new department's head rows are appended in posted order |
| Departments.DepartmentDb.HandleAddDepartment | controllers/administrator/departmentListController.go:123-214 | 200 exactly when name and tag are given, both new (the tag upper-cased) and every HOD id passes; then the department is stored with its heads; otherwise nothing changes |
| Departments.DepartmentDb.HandleUpdateDepartment | controllers/administrator/departmentListController.go:217-329 | A failed precheck changes nothing; otherwise the details are written, and the heads are reassigned only when the posted list differs from the current one |
| Departments.AddedHeadsSpec | controllers/administrator/departmentListController.go:180-202 | A new department is headed by exactly the posted ids |
| ResearchTypes.AddVerdict | controllers/administrator/researchTypeController.go:55-75 | A new type is accepted exactly when its name is non-empty and no type has it ignoring case |
| ResearchTypes.UpdateVerdict | controllers/administrator/researchTypeController.go:94-140 | An update is accepted exactly when the id names a type, name and status are given, and no other type has the name ignoring case |
| ResearchTypes.StatusOf | controllers/administrator/researchTypeController.go:141-146 | The status written is true exactly when the posted status parses as true |
| ResearchTypes.AddKeepsUnique | controllers/administrator/researchTypeController.go:55-92 | Adding an accepted name keeps type names unique ignoring case |
| ResearchTypes.UpdateKeepsUnique | controllers/administrator/researchTypeController.go:94-157 | An accepted rename keeps type names unique ignoring case |
| ResearchTypes.ResearchTypeDb.constructor | model/model.go:98-106 | A store over the research-type table |
| ResearchTypes.ResearchTypeDb.HandleAddResearchType | controllers/administrator/researchTypeController.go:55-92 | The answer is the add verdict; on 200 the type is stored active under the next id; otherwise nothing changes |
| ResearchTypes.ResearchTypeDb.HandleUpdateResearchType | controllers/administrator/researchTypeController.go:94-157 | The answer is the update verdict; on 200 exactly the name and status of that type change |
| ResearchTypes.HandleGetResearchTypeList | controllers/administrator/researchTypeController.go:13-53 | The requested page of the listing (active types first, then by name), each entry matching the search; totals are the page size and the number of types |
| ResearchTypes.ActiveFirst | controllers/administrator/researchTypeController.go:21-22 | No inactive type is listed before an active one |
| ResearchTypes.EmptySearchListsAll | controllers/administrator/researchTypeController.go:27-31 | An empty search lists every type |
| Papers.AdvisorOf | controllers/repository/uploadPaperController.go:112-116 | The stored advisor is never empty: the posted one, or "None" |
| Papers.PaperByPublicId | controllers/repository/helperFunction.go:18-53 | A paper is found exactly when one carries the public id, and the one found carries it |
| Papers.FindByPublicId | controllers/repository/helperFunction.go:37-53 | The lookup answers the paper with the public id, if any |
| Papers.FulltextOf | controllers/repository/hodApprovalController.go:221-241 | The text shown for a paper is its own full text, found exactly when its text row exists |
| Papers.FulltextAsWrittenShowsOtherText | controllers/repository/hodApprovalController.go:224 | Looking the text up by paper id shows paper 1 the text of row 1 when its own text is row 2 |
| Papers.FulltextAsWrittenMissesOwnText | controllers/repository/myPublicationController.go:265 | Looking the text up by paper id finds nothing for paper 1 whose text is row 2 when there is no row 1, while the fulltext-id lookup finds it |
| Papers.NoticesTo | controllers/notification/repoNotification.go:10-87 | One notice of the kind about the title per user, in order |
| Papers.PaperDb.constructor | model/model.go:108-147 | A store over the paper, link, text and collection tables with an empty outbox |
| Papers.PaperDb.NotifyAll | controllers/notification/repoNotification.go:10-87 | Each user in turn receives one notice, appended to the outbox |
| UploadPaper.UploadVerdict | controllers/repository/uploadPaperController.go:58-160 | 400 exactly for a missing field, a non-PDF file or a title already taken; 500 when the file service fails; otherwise the upload proceeds |
| UploadPaper.UploadedRow | controllers/repository/uploadPaperController.go:183-200 | A new paper awaits review with reason "none", the advisor default, the posted title, type and uploader, and the new text rows and stored PDF |
| UploadPaper.DepartmentHeads | controllers/repository/uploadPaperController.go:425-443 | The heads of a department, in row order |
| UploadPaper.HeadNoticesSpec | controllers/repository/uploadPaperController.go:220-259 | A notice goes exactly to the heads of the listed departments that exist, with the kind and title given |
| UploadPaper.PartIds | controllers/repository/uploadPaperController.go:220-226 | A department part contributes at most one id |
| UploadPaper.LinkPart | controllers/repository/uploadPaperController.go:220-259 | One part adds its link (if it parses) and the notices to its department's heads (if that department exists) |
| UploadPaper.LinkDepartments | controllers/repository/uploadPaperController.go:220-259 | The loop adds one link per parsed part and the notices to the heads of each existing listed department; unparsable parts are skipped |
| UploadPaper.StorePaper | controllers/repository/uploadPaperController.go:162-209 | The full text, the clean text and the paper row are stored under their next ids |
| UploadPaper.HandleResearchPaperUpload | controllers/repository/uploadPaperController.go:58-268 | The answer is the upload verdict; on 200 the paper, its texts, its department links and the head notices are stored; otherwise nothing changes |
| UploadPaper.UploadedPaperSpec | controllers/repository/uploadPaperController.go:140-209 | A stored paper shows its own full text, awaits review, and is the only paper with its title |
| MyPublication.ApprovalRows | controllers/repository/myPublicationController.go:95-113 | The title and public id of each listed paper, in order |
| MyPublication.HandleDisplayMyPublishedResearchPapers | controllers/repository/myPublicationController.go:125-213 | The published ids as queried, and the caller's awaiting and rejected papers each with title and public id, every such paper listed |
| MyPublication.StatusListsPartition | controllers/repository/myPublicationController.go:19-93 | No paper is in two of the three lists; a paper of the caller is listed exactly when its status is published, awaiting or rejected |
| MyPublication.PreviewVerdict | controllers/repository/myPublicationController.go:215-282 | A preview is given exactly for a given public id naming a paper of the caller in the requested state whose text the chosen lookup finds; another uploader's paper answers 403 |
| MyPublication.PreviewOwnPaper | controllers/repository/myPublicationController.go:215-292 | The answer is the preview verdict; on 200 the paper and the text the chosen lookup finds for it |
| MyPublication.HandlePreviewAwaitingPaper | controllers/repository/myPublicationController.go:215-292 | Corrected: the caller's own awaiting paper with its own full text (looked up through its fulltext id), as the verdict allows |
| MyPublication.HandlePreviewAwaitingPaperAsWritten | controllers/repository/myPublicationController.go:215-292 | As written: the same checks, but the text is the row whose id is the paper's id |
| MyPublication.HandlePreviewRejectedPaper | controllers/repository/myPublicationController.go:294-374 | Corrected: the caller's own rejected paper with its own full text and rejection reason, as the verdict allows |
| MyPublication.HandlePreviewRejectedPaperAsWritten | controllers/repository/myPublicationController.go:294-374 | As written: the same checks, but the text is the row whose id is the paper's id |
| MyPublication.PreviewOnlyOwn | controllers/repository/myPublicationController.go:240-252 | Whichever way the text is looked up, only the uploader ever sees a preview, and only of a paper in the state asked for |
| MyPublication.ResubmitVerdict | controllers/repository/myPublicationController.go:376-451 | The resubmission goes on exactly for the caller's own rejected paper with all fields, a title no other paper has, and a stored file or a cleaned text; another uploader's paper answers 403 |
| MyPublication.ResubmittedRow | controllers/repository/myPublicationController.go:455-475 | The paper awaits review again with the new title, advisor and time; the type and PDF path change only when given; identity, texts and publication time stay |
| MyPublication.UpdateRow | controllers/repository/myPublicationController.go:484-512 | An update by id changes that row if it exists and nothing else |
| MyPublication.WithoutPaper | controllers/repository/myPublicationController.go:516-521 | The paper's department links are removed and every other link stays |
| MyPublication.HandleResubmitRejectedPaper | controllers/repository/myPublicationController.go:376-571 | The answer is the resubmit verdict; on 200 the paper, its texts, its department links and the head notices are rewritten; otherwise nothing changes |
| MyPublication.ResubmittedPaperSpec | controllers/repository/myPublicationController.go:455-512 | A resubmitted paper awaits review under a title no other paper has and shows the new full text |
| MyPublication.ResubmittedLinksSpec | controllers/repository/myPublicationController.go:516-540 | After resubmission the paper belongs to exactly the parsed departments and other papers keep their links |
| MyPublication.ResubmitNotifiesHeads | controllers/repository/myPublicationController.go:540-550 | A resubmission tells each head of each listed department, and no one else |
| HodApproval.DepartmentPapers | controllers/repository/hodApprovalController.go:94-134 | The papers counted for a department are exactly the papers linked to it, with the status asked for (any status when none is given) |
| HodApproval.QueryResearchPaperByDepartment | controllers/repository/hodApprovalController.go:41-91 | 200 exactly for an existing department, answering the awaiting queue and the total, awaiting and rejected counts; otherwise nothing |
| HodApproval.QueueCounts | controllers/repository/hodApprovalController.go:24-36 | The queue holds as many papers as the awaiting count, and awaiting plus rejected never exceed the total |
| HodApproval.SubmissionPreviewVerdict | controllers/repository/hodApprovalController.go:159-248 | A preview is given exactly for a given public id naming an awaiting paper of the department whose text the chosen lookup finds and with a known uploader; a paper of another department answers 401 |
| HodApproval.HandlePreviewSubmission | controllers/repository/hodApprovalController.go:159-258 | Corrected: the answer is the preview verdict; on 200 the paper and its own full text |
| HodApproval.HandlePreviewSubmissionAsWritten | controllers/repository/hodApprovalController.go:159-258 | As written: the same verdict, but the text shown is the row whose id is the paper's id |
| HodApproval.DecisionVerdict | controllers/repository/hodApprovalController.go:261-326 | A decision goes through exactly for a parsed id linked to the department, "approve" or "reject" with a reason, on an awaiting paper; a paper of another department answers 401 |
| HodApproval.ApprovedRow | controllers/repository/hodApprovalController.go:350-370 | An approved paper is published now with its embedding job started; everything else stays |
| HodApproval.RejectedRow | controllers/repository/hodApprovalController.go:393-406 | A rejected paper stores the reason and its submission time is reset to now; everything else stays |
| HodApproval.HandleApproveRejectSubmission | controllers/repository/hodApprovalController.go:261-419 | The answer is the decision verdict; an approval publishes the paper, a rejection stores the reason and tells the uploader; a refusal changes nothing |
| HodApproval.ApplyDecision | controllers/repository/hodApprovalController.go:346-412 | The writes of an accepted approval or rejection, with the rejection notice |
| HodApproval.DecidedLeavesQueue | controllers/repository/hodApprovalController.go:321-326 | A decided paper is published or rejected, leaves the department's queue and cannot be decided again |
| HodApproval.ProcessedRow | controllers/repository/hodApprovalController.go:431-544 | A readable "failed" report sends the paper back to awaiting with the job failed; another report marks the job succeeded; an unreadable reply marks it failed; no reply changes nothing |
| HodApproval.HandlePdfProcessed | controllers/repository/hodApprovalController.go:431-544 | The service's answer is applied to an existing paper, and the uploader is told exactly when the job succeeded |
| HodApproval.ApprovedThenProcessed | controllers/repository/hodApprovalController.go:350-544 | After approval and the embedding job the paper is published with the job succeeded, awaiting with it failed, or still published; succeeded exactly when the service reports success |
| PaperStatus.StatusUpdateVerdict | controllers/repository/paperStatusController.go:15-29 | 400 exactly when a field is missing; 200 exactly when the id names a paper; 404 otherwise |
| PaperStatus.UpdatePaperStatus | controllers/repository/paperStatusController.go:15-45 | The named paper becomes published whatever status is posted, and its uploader is told; a refusal changes nothing |
| PaperStatus.StatusFieldIgnored | controllers/repository/paperStatusController.go:15-45 | Two requests differing only in the posted status get the same answer and leave the paper published |
| PaperStatus.NotifyUserForFailPaper | controllers/repository/paperStatusController.go:48-83 | 400 exactly when a field is missing, 200 exactly when the id names a paper; the e-mail goes to the given address exactly on 200 with the mail switch on |
| RepoPaperList.RepositoryIds | controllers/administrator/repoPaperListController.go:25-26 | The repository holds exactly the published and unpublished papers |
| RepoPaperList.HandleGetResearchPaperList | controllers/administrator/repoPaperListController.go:17-73 | The requested page of matching repository papers, published first and newest first; the total counts the repository before the search |
| RepoPaperList.PublishedFirst | controllers/administrator/repoPaperListController.go:26 | No unpublished paper is listed before a published one, and published papers are newest first |
| RepoPaperList.EmptySearchListsAll | controllers/administrator/repoPaperListController.go:32-35 | Without a search term every repository paper is listed |
| RepoPaperList.ToggleVerdict | controllers/administrator/repoPaperListController.go:92-126 | A toggle goes through exactly when the id is given and names a published or unpublished paper |
| RepoPaperList.Toggled | controllers/administrator/repoPaperListController.go:113-118 | The other of published and unpublished |
| RepoPaperList.HandleUpdateResearchPaper | controllers/administrator/repoPaperListController.go:92-126 | The paper switches between published and unpublished; a refusal changes nothing |
| RepoPaperList.ToggleTwiceRestores | controllers/administrator/repoPaperListController.go:92-126 | Toggling twice is accepted both times and restores the paper |
| RepoPaperList.PaperByTitle | controllers/administrator/repoPaperListController.go:150-155 | The first paper holding a title, found exactly when one holds it |
| RepoPaperList.FindByTitle | controllers/administrator/repoPaperListController.go:150-155 | The lookup answers the first paper holding the title |
| RepoPaperList.TitleVerdict | controllers/administrator/repoPaperListController.go:128-155 | A rename goes through exactly when the id and title are given, the id names a paper, and the title is free or already that paper's |
| RepoPaperList.RenameCollection | controllers/administrator/repoPaperListController.go:156-160 | The embedding collection of the old title takes the new name; other collections stay |
| RepoPaperList.HandleUpdateResearchPaperTitle | controllers/administrator/repoPaperListController.go:128-169 | The paper and its embedding collection are renamed; a refusal changes nothing |
| RepoPaperList.TitleCheckSound | controllers/administrator/repoPaperListController.go:150-155 | With unique titles, the check accepts exactly when no other paper has the title, and the rename keeps titles unique |
| RepoPaperList.ParseDate | controllers/administrator/repoPaperListController.go:186 | Every date the layout accepts is a valid calendar date |
| RepoPaperList.FormatDate | controllers/administrator/repoPaperListController.go:186 | A valid date is written in ten characters |
| RepoPaperList.ParseFormat | controllers/administrator/repoPaperListController.go:186 | Writing a valid date and parsing it back gives the date |
| RepoPaperList.FormatParse | controllers/administrator/repoPaperListController.go:186 | An accepted string is the written form of its date |
| RepoPaperList.DayNumberOrdered | controllers/administrator/repoPaperListController.go:196 | Later dates have later day numbers |
| RepoPaperList.PublishedAtForSpec | controllers/administrator/repoPaperListController.go:193-196 | The stored time falls on the chosen local day at the request's local time of day |
| RepoPaperList.DateVerdict | controllers/administrator/repoPaperListController.go:171-190 | The date update goes through exactly when the id and a well-formed date are given |
| RepoPaperList.HandleUpdateResearchPaperDate | controllers/administrator/repoPaperListController.go:171-208 | The paper's publication time moves to the chosen date at the current time of day; an unknown id updates nothing and is still answered 200 |
| Library.Reversed | controllers/repository/libraryController.go:30-36 | the result holds the elements of the input last to first, same length |
| Library.ReversedTwice | controllers/repository/libraryController.go:30-36 | reversing twice gives the slice back |
| Library.ReversedPermutes | controllers/repository/libraryController.go:30-36 | reversal only moves elements (same multiset) |
| Library.ReverseArray | controllers/repository/libraryController.go:30-36 | `reverseArray` swaps from both ends in place and returns the same slice, now reversed |
| Library.Positions | controllers/repository/libraryController.go:40-43 | the order map holds exactly the values of `order`, each mapped to the last index holding it |
| Library.KeyOfValue | controllers/repository/libraryController.go:40-48 | a value missing from the order sorts with key 0 (Go's zero value); a present one with its last index |
| Library.InsertPos | controllers/repository/libraryController.go:46-48 | stable insertion goes behind every element whose key is not larger and before every larger one |
| Library.InsertPosUnique | controllers/repository/libraryController.go:46-48 | that insertion point is the only one with this property |
| Library.WithKeyAppend | controllers/repository/libraryController.go:46-48 | the elements with one key distribute over concatenation |
| Library.WithKeySkip | controllers/repository/libraryController.go:46-48 | elements with other keys add nothing to a key's subsequence |
| Library.InsertPermutes | controllers/repository/libraryController.go:46-48 | inserting adds exactly the one element |
| Library.InsertSorted | controllers/repository/libraryController.go:46-48 | inserting into a key-sorted sequence keeps it key-sorted |
| Library.InsertKeepsEquals | controllers/repository/libraryController.go:46-48 | inserting puts the new element after all earlier elements with the same key |
| Library.SortByKeySpec | controllers/repository/libraryController.go:46-48 | the stable sort is a permutation, ordered by key, and keeps the relative order of equal keys |
| Library.FollowsOrder | controllers/repository/libraryController.go:38-51 | with a duplicate-free baseline, the result lists baseline ids in baseline order, ahead of nothing they follow |
| Library.BuildPositions | controllers/repository/libraryController.go:40-43 | the loop builds exactly the order map |
| Library.InsertStep | controllers/repository/libraryController.go:46-48 | one insertion step leaves the prefix as the stable insertion of the next element and the rest untouched |
| Library.OrderArray | controllers/repository/libraryController.go:38-51 | `OrderArray` sorts the slice in place, stably, by position in the baseline, and returns the same slice |
| Library.FinalOrder | controllers/repository/libraryController.go:190-200 | with a year filter the database order stays; otherwise a non-empty baseline reorders the ids |
| Library.SearchBaseline | controllers/repository/libraryController.go:79-126 | no search term: empty baseline; otherwise the paper index's hits, else the full-text index's, else the clean-text index's; an index error fails the search |
| Library.FallbackStopsAtFirstHit | controllers/repository/libraryController.go:79-126 | later indexes are never consulted once an earlier one has hits |
| Library.Truncate | controllers/repository/libraryController.go:250-251 | `int(float64)` drops the fraction toward zero |
| Library.NumbersOf | controllers/repository/libraryController.go:248-254 | an array of ids yields at most one id per entry |
| Library.TrimmedParts | controllers/repository/libraryController.go:255-259 | a string of ids is split at commas and every part trimmed |
| Library.ParsePaperIds | controllers/repository/libraryController.go:245-268 | the ids read from `papers_id`: an array's numbers, a string's parsable parts, otherwise none |
| Library.ArrayIds | controllers/repository/libraryController.go:248-254 | the array loop collects the truncated numbers and skips other entries |
| Library.StringIds | controllers/repository/libraryController.go:255-265 | the string loop collects each trimmed part that parses and skips the rest |
| Library.StringIdsMembership | controllers/repository/libraryController.go:255-265 | an id is read from the string exactly when some trimmed part parses to it |
| Library.IntsOfAppend | controllers/repository/libraryController.go:255-265 | parsing parts distributes over concatenation |
| Library.StringIdsInOrder | controllers/repository/libraryController.go:255-265 | the ids of `a,b` are those of `a` followed by those of `b` |
| Library.ArrayIdsInOrder | controllers/repository/libraryController.go:248-254 | array reading keeps order and skips non-numbers |
| Library.PageVerdict | controllers/repository/libraryController.go:523-575 | 400 without an id, 404 for a paper that is not published, 200 exactly for a published paper whose text the chosen lookup finds |
| Library.HandleGetIndividualPaperPage | controllers/repository/libraryController.go:523-593 | Corrected: the page answers with the found paper and its own full text on 200, and nothing otherwise |
| Library.HandleGetIndividualPaperPageAsWritten | controllers/repository/libraryController.go:523-593 | As written: the same verdict, but the text is the row whose id is the paper's id |
| Library.PageAsWrittenMissesOwnText | controllers/repository/libraryController.go:566 | A published paper whose text is row 2 gets 500 from the page as written and 200 with its text from the corrected page |
| Library.UnpublishHidesPage | controllers/repository/libraryController.go:557-563 | unpublishing a paper turns its page into 404, however its text is looked up |
| Library.InfosOf | controllers/repository/libraryController.go:479-486 | one summary per id naming a paper, in order, each the summary of that paper |
| Library.CollectInfos | controllers/repository/libraryController.go:479-486 | the handler's loop builds exactly those summaries, skipping failed lookups |
| Library.InfosComplete | controllers/repository/libraryController.go:479-486 | every id that names a paper gets its summary |
| Auth.ExtractToken | auth/authHandler.go:474-480 | a token is returned only when the header is longer than seven characters and they read "Bearer " in any case; it is then everything after them, otherwise "" |
| Auth.ExtractBearer | auth/authHandler.go:474-480 | a non-empty token behind the scheme, spelled in any case, is read back whole |
| Auth.BearerSpellings | auth/authHandler.go:474-480 | "Bearer " and "bearer " both carry the token; the scheme alone yields "" |
| Auth.AddressWithOneAt | auth/authHandler.go:452-470 | an address with one "@" is accepted exactly when its domain is configured as `true` |
| Auth.AuthorizedHasOneAt | auth/authHandler.go:452-470 | an accepted address has exactly one "@" and its domain is configured `true` |
| Auth.FrontLoginVerdict | auth/authHandler.go:24-101 | 400 exactly when a field is missing; 200 exactly when the domain is authorised, Google accepts, and the user is new or active with a refreshed token; an inactive user is refused |
| Auth.HandleFrontPanelLogin | auth/authHandler.go:24-131 | refusals before the user lookup change nothing; a new user is stored with the User role; an active known user's name and picture follow the form; the verdict is `FrontLoginVerdict` |
| Auth.RegisteredUserLogsInAgain | auth/authHandler.go:498-517 | the registered row is found again by e-mail and logs in on the next attempt |
| Auth.AdminLoginCheck | auth/authHandler.go:134-170 | accepted exactly when both fields are given and the user exists, is an admin or super admin, is active and the password verifies; each refusal names the first failed check |
| Auth.AdminLoginCode | auth/authHandler.go:140-170 | 400 for missing fields, 200 for acceptance, 401 otherwise |
| Auth.HandleAdminPanelLogin | auth/authHandler.go:134-213 | the handler's answer is the check's; on acceptance `boarded` is the reset row's flag (false without a row) and the picture falls back to the configured default |
| Auth.DisabledAdminRefused | auth/authHandler.go:154-163 | a disabled account never enters the admin panel, whatever the password |
| Auth.HandleLogout | auth/authHandler.go:432-449 | 400 without a bearer token, 500 when its claims do not parse; 200 clears every token row of the owner and nothing changes on refusal |
| ChatSessions.SessionFor | controllers/chat/chatSessionController.go:70-79 | a session is found exactly when the caller has one about the paper; it is theirs, about that paper, and the first such |
| ChatSessions.UpdateOutcomeOf | controllers/chat/chatSessionController.go:148-164 | the update goes ahead exactly when the session exists and belongs to the caller; it is "not found" exactly when no row has the id |
| ChatSessions.UpdateTouchesOnlyOwnSession | controllers/chat/chatSessionController.go:160-172 | only the caller's own session changes, and only its message and update time; a refused update changes nothing |
| ChatSessions.SecureGuards | controllers/chat/chatSessionController.go:192-241 | all checks pass exactly when the message is non-empty valid JSON, the caller is an authenticated int id and the session id is given and parses; a refusal is 400, 401 or 500 |
| ChatSessions.MessageCheckedFirst | controllers/chat/chatSessionController.go:192-207 | a missing or non-JSON message is refused with 400 whoever asks and whatever session they name |
| ChatSessions.MissingSessionIsServerError | controllers/chat/chatSessionController.go:152-155 | as written, a missing session becomes a 500 and no outcome ever maps to 404 |
| ChatSessions.SecureUpdateCode | controllers/chat/chatSessionController.go:244-260 | corrected mapping: 404 exactly for a missing session, 200 exactly for an update |
| ChatSessions.ChatDb.constructor | model/model.go:410-419 | the table starts with the given sessions |
| ChatSessions.ChatDb.FindSession | controllers/chat/chatSessionController.go:70-79 | the lookup loop returns exactly `SessionFor` |
| ChatSessions.ChatDb.CreateChatSessionIfNotExists | controllers/chat/chatSessionController.go:68-107 | an existing session is returned unchanged and not created, without its message, which the lookup does not select; otherwise a new empty session is stored under the fresh id, and an id clash stores nothing |
| ChatSessions.ChatDb.UpdateChatSessionMessageByUser | controllers/chat/chatSessionController.go:142-188 | the outcome is `UpdateOutcomeOf` and the table becomes `AfterUpdate`, the owner-checked update |
| ChatSessions.ChatDb.UpdateChatSessionSecure | controllers/chat/chatSessionController.go:191-261 | Corrected: a failed guard answers its code and changes nothing; otherwise the owner-checked update runs and its outcome picks the code, a missing session answering 404 |
| ChatSessions.ChatDb.UpdateChatSessionSecureAsWritten | controllers/chat/chatSessionController.go:191-261 | As written: the same guards and update, but no outcome answers 404; a missing session is a 500 |
| ChatSessions.ChatDb.HandleGetChatSession | controllers/chat/chatSessionController.go:32-63 | 200 with the session exactly when a well-formed id names one; 400 for a missing or malformed id; a missing session is 500 |
| ChatSessions.ChatDb.UpdateChatSession | controllers/chat/chatSessionController.go:110-138 | 200 exactly when a message and a well-formed id are given; the named session's message is replaced whoever asks, and a missing session is still 200 |
| ChatSessions.GetOrCreateIsStable | controllers/chat/chatSessionController.go:68-107 | asking again after a creation returns the session just created |

## Left out

- **Transport.** Request parsing, JSON rendering, logging and `fmt` output are left out. A handler's answer is its status code plus the values the model returns.
- **Mail, goroutines and notification failures.** SMTP mail and the goroutines that send notifications are not modelled. A failed notification insert is not modelled either: notifications are appended to an outbox sequence.
- **Signed tokens.** JWT signing and parsing are abstracted. The invite token is an encoding of its claims (user, group and expiry) with a decoder that inverts it (`Invitations.DecodeEncode`), standing in for the signature. Expiry is modelled: an invite lives `INVITE_LIFETIME` seconds and is accepted only while `now < exp`. The API token rows that `GenerateApiToken` and `UpdateApiToken` write at every login are not modelled; the only trace of them is the front login's `tokenUpdated` parameter.
- **Google and bcrypt.** Google's token check is the `google` parameter. Password checking is the `verify` parameter.
- **Password handlers.** The admin on-boarding and password-reset handlers are not modelled: `HandleUpdateAdminPasswordOnBoarding`, `HandleSendResetPasswordLink`, `HandleAccessResetPasswordPage`, `HandleUpdateAdminPasswordOnReset` and `UpdatePassword`. They need mail and signed links.
- **Search queries.** The SQL joins, Meilisearch and semantic search queries of the library are not modelled. This covers `MeiliSearchQueryFilter`, `SemanticSearchQueryFilter`, `ResearchPaperSearchQuery` and `HandleResearchPaperSemanticSearch`. Their id results are inputs. What the model keeps is the index fallback, the `papers_id` parsing and the final ordering.
- **Paper summaries.** `GetEachResearchPaperInfoOnQuery` is a plain summary of the paper row. The department and research-type joins are not modelled.
- **Downloads.** The download handlers, the Laravel and Python file-service calls and `CleanTextAtLaravel` are calls into other services. They are not modelled.
- **Listing handlers.** Handlers that only read and join user details are not modelled. This covers:
  - `HandleGetUserSchedules` and `HandleGetUserSchedulesFilter`;
  - `HandleGetAdminList` and `GetDepartmentsList`;
  - `HandleGetAllTasks`, `HandleGetTaskAssignees`, `HandleGetAllSubtasks`, `HandleGetTaskComments` and `HandleGetSubtaskComments`;
  - `HandleGetAllCollabMembers`, `HandleGetCollabDetails`, `GetIndividualCollabDetails` and `HandleGetAllFolders`;
  - the HOD and my-publication count and list readers;
  - `GetResearchPaperUploadFormData`.
- **Available-members search.** The available-members search handlers (`HandleGetAvailableMembersForNewCollab`, `HandleGetAvailableMembersForCollab` and their `getAvailableUsers*` queries) are not modelled. They are SQL searches with no state change.
- **Dashboard.** The dashboard counters are not part of this model.
- **Group colours.** `generateRandomColor` draws from a random source, so the colour is a parameter.
- **Repeat overlap.** `checkIfScheduleOverlap` has no visible body. It is the `repeatConflict` parameter of the scheduling methods.
- **Store errors.** Database failures are not modelled in any handler: no query or write of the model can fail, so the 500 answers the source gives when a query or write fails are absent (for example `HandleCreateCollab` at controllers/collaboration/collabListPageController.go:178-181 and :200-204). The one exception is the front-login token refresh, whose outcome is the `tokenUpdated` parameter. The 500 answers that follow from the data itself (a missing row, a failed check) are modelled.
- **Truncate.** Go's `float64` is modelled by `real`. `Library.Truncate` is the conversion toward zero, without `float64` rounding.
- **ExtractToken.** `Auth.ExtractToken` counts characters where Go counts bytes. The two agree on ASCII headers.
- **ToLower and ToUpper.** `Text.ToLower` and `Text.ToUpper` fold ASCII letters only, where Go folds all of Unicode. The same holds for every case-insensitive name comparison built on them.
- Text.Atoi: integers are unbounded, where Go's `strconv.Atoi` fails outside the 64-bit range. A numeric parameter such as "99999999999999999999" is refused with 400 by the source, while the model parses it and then finds no row.
- Text.Contains: a plain substring test. The source's `LIKE '%term%'` filters also treat a `%` or `_` inside the search term as wildcards, which the model does not.
- Text.LexLeq: code-point order. The source's `ORDER BY name` uses the database's collation, which may order letters of different case or accented letters differently.
- **Configuration keys.** The configuration's map of authorised e-mail domains is given as read. Viper's lower-casing of keys is not modelled.
- **HOD department at login.** The HOD department lookup at login is not modelled. The login's role data is not in the model's answer.
- **Membership rows.** Group membership is a map from (group, user) to the `joined` flag. A duplicated id in a member list collapses to one row, where the database would hold two.
- **Links and collections.** Links between rows (paper and department, task and assignee, file and folder) are sets, so their storage order is not modelled, and a duplicated id collapses to one link where the database would hold two (a department id posted twice at upload, or assignee ids `[5, 5]`).
- **Sorting.** `Library.OrderArray` is realised by a stable insertion sort in place of `sort.SliceStable`. A stable sort's result is determined by the keys, so the two agree.
- **Time zone.** Same-day tests compare calendar dates in Bangkok time (UTC+7). The source's `::date` comparisons run in the database session's time zone, which the model takes to be the same.
- **Id sequences.** Ids are handed out from a counter that a refused or rolled-back request leaves where it was. A Postgres sequence is not rolled back, so the source may skip the ids a failed transaction drew.
- **Recurrence.** Recurrence is modelled as written: a series ends before `end + 7 * RepeatInterval` days. The lemmas state how many repeats that gives for each event length.

## Findings

| source | as written | input that shows it | evidently intended | confidence | as-written member | corrected member |
|---|---|---|---|---|---|---|
| controllers/collaboration/collabFileController.go:475-487 | uniqueness is checked on the requested name, but the name is stored with spaces replaced by "-" | rename a file to "a b" in a folder that already holds "a-b" | the check runs on the stored name, so a folder never holds two files of one name | not executed | CollabFiles.RenameAsWrittenDuplicates | CollabFiles.RenameKeepsUnique |
| controllers/collaboration/insideCollabPageController.go:340-354 | the task row is created before the status id is checked, and a failed check answers 400 without rolling the row back | a valid form whose `task_status_id` names no status | a refused request stores nothing | not executed | InsideCollab.HandleAddNewTaskAsWritten | InsideCollab.HandleAddNewTask |
| controllers/repository/hodApprovalController.go:224 | the full text is fetched by the paper's id, not by the paper's fulltext id | paper 1 whose full text is row 2 while row 1 belongs to another paper | each paper shows its own full text | not executed | HodApproval.HandlePreviewSubmissionAsWritten | HodApproval.HandlePreviewSubmission |
| controllers/repository/myPublicationController.go:265 | the awaiting preview fetches the full text by the paper's id, not by the paper's fulltext id | paper 1 whose full text is row 2 and no row 1: 500 instead of the preview | the caller sees the paper's own full text | not executed | MyPublication.HandlePreviewAwaitingPaperAsWritten | MyPublication.HandlePreviewAwaitingPaper |
| controllers/repository/myPublicationController.go:346 | the rejected preview fetches the full text by the paper's id, not by the paper's fulltext id | paper 1 whose full text is row 2 and no row 1: 500 instead of the preview | the caller sees the paper's own full text | not executed | MyPublication.HandlePreviewRejectedPaperAsWritten | MyPublication.HandlePreviewRejectedPaper |
| controllers/repository/libraryController.go:566 | the public page fetches the full text by the paper's id, not by the paper's fulltext id | published paper 1 whose full text is row 2 and no row 1: 500 instead of the page | the page shows the paper's own full text | not executed | Library.PageAsWrittenMissesOwnText | Library.HandleGetIndividualPaperPage |
| controllers/chat/chatSessionController.go:152-155 | a missing session returns a formatted error, which the handler's `gorm.ErrRecordNotFound` test never matches, so it answers 500 | any well-formed session id with no row | 404 "Chat session not found" | not executed | ChatSessions.ChatDb.UpdateChatSessionSecureAsWritten | ChatSessions.ChatDb.UpdateChatSessionSecure |
