# Verified model: pages, edits, slugs, Inbox, uploads

This project models five parts of the repository in Dafny and proves what they promise over whole sequences of
requests. Where the program changes rows or fields step by step, a `class Store` has methods with loops that do the
same; each method's postcondition ties the new state to a function of the old one (`PageSteps`, `WorkspaceSteps`,
`Inbox`, …), and the theorems are about those functions.

- **The pages tree** (`Forest`, `Keys`, `PageSteps`, `PageTree`, `PageTrash`, `PageOrder`, `PageDepth`, `PageAnswers`,
  `PageStore`, `PageExamples`, `ClientTree`): pages linked to their parents, with fractional sibling keys, create, move,
  patch, delete and restore as one state machine, and the client's optimistic move and delete.
- **Field-level optimistic concurrency** (`ChangeLog`, `History`, `PageHistory`, `WorkspaceHistory`): versions, the log
  of field changes, and the conflict query.
- **Slugs over time** (`Decimal`, `Slugs`, `SlugWords`, `WorkspaceSteps`, `SlugSafety`, `SlugRace`, `PersonalWorkspace`,
  `WorkspaceAnswers`, `WorkspaceStore`): the namespace of current slugs and aliases that live for 90 days, take-back, generated slugs, creates
  between their check and their insert, and personal workspaces.
- **The Inbox** (`Notifications`, `Paging`, `CursorText`, `Inbox`, `InboxPrefix`, `InboxSync`, `InboxFlight`,
  `InboxPatches`, `InboxStays`, `InboxStore`): the server's tabs and counts, keyset pages, and the client's cache with its optimistic
  patches, pushed updates and changes in flight.
- **Resumable upload** (`Bitmap`, `Chunks`, `Upload`, `UploadStore`, `Ranges`): the bitmap, the interleaved requests of one
  transaction with their upload slots, and the challenge ranges.

A database transaction is one atomic step; the upload protocol is a state machine over the smaller steps of many
requests. `Base` holds the shared vocabulary.

What the code does that differs from what it says:

- A move can be dropped silently: when there is no room at the place asked for, and the renumbering happens to give the
  page the key it already has, the update records nothing and the transaction is rolled back. `PageOrder.MovePlaces`
  states exactly when; `PageExamples.LostMoveHappens` reaches such a state from an empty instance.
- A restore does not check the depth: `PageDepth.RestoreKeepsShallow` states exactly when the limit of 12 survives,
  `PageExamples.RestoreTooDeep` passes it by requests that start from an empty instance.
- `apps/main_service/src/workspaces/controllers/create.rs:20` promises that a create sent again is answered with the
  workspace. `SlugSafety.RepeatedCreate` states exactly when it is, whatever was requested in between: not while the slug
  that was sent is taken, be it by that workspace itself (`SlugSafety.RepeatedAtOnce`), and not once it is deleted.
- `apps/main_service/src/workspaces/utils.rs:92-93` says that the slug made of a name is always valid and short enough for
  a numeric suffix, and nothing validates it with the suffix: `SlugSafety.GeneratedIsValid` states over the slugs in use
  exactly when it would pass, `SlugSafety.ThousandthIsTooLong` is a thousandth create from an empty instance whose slug
  would not.
- A create checks its slug and inserts the workspace in two transactions, and the constraint of the table does not cover
  aliases: `SlugRace.LeftSlugStaysExactly` states exactly when a slug that is left stays the workspace's own,
  `SlugRace.RaceShares` is a run after which it leads to two.
- The comment at `apps/storage_service/src/entities/actions/service.rs:585` says the slot is released on every exit. A
  failure to save the MIME type leaks it, and so does a failing `EXPIRE` or `DECR`, or a client that disconnects before
  the request counted out: `Upload.LeakedAreLeaks` counts such ends, `Upload.NextIsAdmitted` states what they do,
  `Upload.ThreeLeaksShut` is three of them.
- Chunk offsets are not compared with the file's size. Completion by counting bits is right exactly for offsets in the
  file's chunks: `Upload.HarmlessOffset`, with `Upload.StrayCompletes` for every offset past them.
- `apps/main_service/src/notifications/controllers/read_all.rs:14` says the account-level notifications stay unread on
  a read-all. The query reads them (`apps/main_service/src/notifications/repo.rs:164`), all but those that are newer:
  `Notifications.AccountStaysUnread`, with `Notifications.AccountIsRead`.
- What another tab does to a notification while it is held is skipped, and after the release only the counts and the
  pinned groups are fetched, though `apps/frontend/src/shared/inbox/cache.ts:115-119` says the server's answer wins:
  `InboxPatches.SettlesExactly` and `InboxPatches.CachedSettles` state when the lists agree all the same,
  `InboxPatches.MissedArchive` is a case where one does not.

## Model

| member | source | states |
|---|---|---|
| Keys.Between | apps/main_service/src/pages/position.rs:15-28 | a key strictly between its neighbours and at most 32 bytes long, or none; none when the neighbours are not in order |
| Keys.Spread | apps/main_service/src/pages/position.rs:30-36 | as many strictly increasing keys as asked for |
| Keys.SpreadShort | apps/main_service/src/pages/position.rs:30-36 | they are short: `n` bytes are enough for fewer than two to the `n` keys |
| Keys.SpreadHasRoom | apps/main_service/src/pages/position.rs:30-36 | below two to the 31 keys, a renumbering leaves room before the first, after the last and between any two neighbours |
| Forest.UnderAntisymmetric | apps/main_service/src/pages/repo.rs:125-141 | chains of parents have no cycle: two different pages are never below each other |
| Forest.TrashRootAbove | apps/main_service/src/pages/repo.rs:246-289 | the root of a page's trash is above the page and was trashed on its own at the same time |
| Forest.Children | apps/main_service/src/pages/repo.rs:80-101 | a parent's live children, all of them once, in the order of (position, id) |
| Forest.ChildrenInOrder | apps/main_service/src/pages/repo.rs:80-101 | the lower key first, and of two with one key the lower id |
| Forest.ListsUnique | apps/main_service/src/pages/repo.rs:80-101 | that order determines the list: two ordered lists of the same pages are equal |
| PageTree.DiffEmpty | apps/main_service/src/pages/service.rs:204-224 | a difference is empty exactly when no column of the page changes |
| PageTree.PlaceRekeys | apps/main_service/src/pages/service.rs:108-135 | placing writes nothing but positions, and only of the live siblings there |
| PageTree.CommitShape | apps/main_service/src/pages/service.rs:226-265 | what each committed request changes, column by column and page by page; a request that does not commit changes nothing |
| PageTree.Reparent | apps/main_service/src/pages/controllers/move_page.rs:62-75 | a new parent that is not below the page keeps every chain of parents ending at the root: paths through the page are rerouted, all others stay |
| PageTree.ApplyKeepsInv | apps/main_service/src/pages/service.rs:75-97 | every request keeps the forest, its trash and the uniqueness of short ids |
| PageTree.ReachableForest | apps/main_service/src/pages/repo.rs:246-289 | in every state reached from an empty instance: chains end at the root, a live page's parent is live and in its workspace, a trashed page that is not its trash's root has its parent in the same trash below that root |
| PageTree.CreateRepeats | apps/main_service/src/pages/controllers/create_page.rs:154-167 | a create with its own id, sent again after any other requests, is answered with that page and writes nothing; from another user or workspace it is refused |
| PageTrash.DeleteTakes | apps/main_service/src/pages/controllers/delete_page.rs:48-67 | a delete trashes exactly the page and its live descendants, under that page as root; pages trashed earlier keep their own root |
| PageTrash.NextKeepsTrash | apps/main_service/src/pages/repo.rs:246-289 | no request but its own restore changes what a trash holds |
| PageTrash.RunKeepsTrash | apps/main_service/src/pages/repo.rs:246-289 | nor does any sequence of requests without that restore |
| PageTrash.RestoreReturns | apps/main_service/src/pages/controllers/restore_page.rs:51-92 | a restore brings back exactly the pages of its trash and leaves every other trash as it is |
| PageTrash.RestoreUndoesDelete | apps/main_service/src/pages/controllers/restore_page.rs:51-92 | after a delete and any requests in between, restoring the root brings back exactly the pages that delete took, with the parents they had |
| PageTrash.DeleteThenRestore | apps/main_service/src/pages/controllers/restore_page.rs:51-92 | a restore straight after the delete gives back the same live tree, parents and keys; only versions and the log differ |
| PageOrder.PlacedOrder | apps/main_service/src/pages/service.rs:108-135 | the placed key puts the page at its index among siblings that keep their order, also when all keys were rewritten |
| PageOrder.CreateIsLast | apps/main_service/src/pages/controllers/create_page.rs:77-110 | a created page is last among its siblings; every other list of siblings is unchanged |
| PageOrder.RankPlaces | apps/main_service/src/pages/controllers/move_page.rs:77-89 | counting the siblings before a page gives its index |
| PageOrder.MovePlaces | apps/main_service/src/pages/controllers/move_page.rs:77-108 | after a move the page is at min(index, n) of its new siblings and everything else keeps its order, if and only if the move is not the lost one; a committed move never is |
| PageOrder.StayedPut | apps/main_service/src/pages/controllers/move_page.rs:77-89 | a page is at the index asked for exactly when the no-op test says so |
| PageOrder.RestoreToRootIsLast | apps/main_service/src/pages/controllers/restore_page.rs:67-87 | a page restored to the root comes last there, after siblings that keep their order |
| PageExamples.LostMoveHappens | apps/main_service/src/pages/controllers/move_page.rs:104-106 | five requests from an empty instance lead to a state where a move is dropped though the page is not where it was asked to be |
| PageDepth.MovedDepth | apps/main_service/src/pages/repo.rs:143-159 | after a move each page of the subtree is at the parent's depth plus its level in the subtree, every other page where it was |
| PageDepth.MovedShallow | apps/main_service/src/pages/repo.rs:143-159 | so comparing the parent's depth and the subtree's height with 12 decides exactly whether the moved pages stay within the limit |
| PageDepth.MoveRefusedExactly | apps/main_service/src/pages/controllers/move_page.rs:62-75 | a move is refused if and only if the parent is not a live page of the workspace, or the pages would have a cycle, or a live page would be deeper than 12 |
| PageDepth.NextKeepsShallow | apps/main_service/src/pages/controllers/move_page.rs:62-75 | every request but a restore keeps all live pages at depth 12 or less |
| PageDepth.RunKeepsShallow | apps/main_service/src/pages/controllers/create_page.rs:70-75 | so does every sequence of them |
| PageDepth.RestoreKeepsShallow | apps/main_service/src/pages/controllers/restore_page.rs:67-87 | a restore keeps the depth limit if and only if the trashed pages fit below the parent they return to |
| PageDepth.RestoreRequestKeepsShallow | apps/main_service/src/pages/controllers/restore_page.rs:39-107 | the same of the whole request |
| PageExamples.RestoreTooDeep | apps/main_service/src/pages/controllers/restore_page.rs:67-87 | requests from an empty instance: thirteen creates, a delete of a leaf and a move of its parent keep depth 12, and then a restore passes it |
| ChangeLog.Conflicts | apps/main_service/src/changes/repo.rs:8-32 | for exactly the sent fields with a logged change newer than the base, the newest such change |
| ChangeLog.ReplayDiff | apps/main_service/src/changes/repo.rs:34-63 | the rows recorded for a change take each field of the difference back to its old value, and no other field |
| ChangeLog.DiffRecorded | apps/main_service/src/changes/dto.rs:24-38 | a field is recorded exactly when its value changed |
| History.NextReplays | apps/main_service/src/changes/repo.rs:34-63 | if the log replays to an earlier state, it still does after any logged change |
| History.NoConflictSameValue | apps/main_service/src/changes/repo.rs:8-32 | a field with no change newer than a version has the value it had at that version |
| PageHistory.LogReplaysEveryState | apps/main_service/src/pages/service.rs:226-265 | the log takes every page's title, icon, type and parent back to what they were in any past state |
| PageHistory.AcceptedEditSawCurrent | apps/main_service/src/pages/controllers/patch_page.rs:60-104 | an accepted edit overwrites no newer value: every field it sends has the value it had in the state the edit was made on |
| PageHistory.AcceptedEditWrites | apps/main_service/src/pages/controllers/patch_page.rs:60-104 | an accepted edit writes what it sent, changes nothing else, and raises the version once; a refused one changes nothing |
| PageHistory.UpdateSaves | apps/main_service/src/pages/service.rs:226-265 | an update writes exactly when a field differs: the next version of that row alone, and one log row for each field that changes, with its value before and after |
| PageHistory.KindOnlyOfEmpty | apps/main_service/src/pages/controllers/patch_page.rs:72-83 | a page changes its type only by an edit of it, while it has no live children and an unwritten body |
| PageHistory.ConflictsAreChanges | apps/main_service/src/pages/service.rs:139-159 | the conflicts found are exactly the sent fields that some request changed since, even if changed back |
| PageHistory.DescendantsUnlogged | apps/main_service/src/pages/repo.rs:246-270 | the trash date of a page below a deleted one changes without a row in the log |
| PageAnswers.CreateAnswer | apps/main_service/src/pages/controllers/create_page.rs:44-164 | when exactly a page is created and under which id; when the request is answered with the page that is there; when and with which error it is refused otherwise |
| PageAnswers.CreatedHolds | apps/main_service/src/pages/controllers/create_page.rs:76-104 | a created page is the actor's, in the workspace and under the parent sent, with the type, title and icon sent, the short id sent or the first unused of three made here, at version 1 and not in the trash |
| PageAnswers.MoveAnswer | apps/main_service/src/pages/controllers/move_page.rs:43-120 | refused for the first of: no such live page, no such live parent, a cycle, a page deeper than twelve; without effect when the page is at its index already or the move is lost; else done |
| PageAnswers.DeleteAnswer | apps/main_service/src/pages/controllers/delete_page.rs:37-79 | not found in another workspace, without effect in the trash, else done |
| PageAnswers.RestoreAnswer | apps/main_service/src/pages/controllers/restore_page.rs:40-107 | not found in another workspace, without effect on a live page, refused for a page trashed with another, else done |
| PageAnswers.PatchAnswer | apps/main_service/src/pages/controllers/patch_page.rs:42-105 | refused for the first of: nothing sent, no such live page, a base newer than the version, a logged change of a sent field newer than the base (with the newest for each such field), another type for a page with live children or a written body; without effect when everything sent is as it is; else done |
| PageAnswers.EditRefusedExactly | apps/main_service/src/pages/service.rs:137-159 | in any run from an empty instance, an edit made on an earlier state is refused if and only if a request since changed a field it sets, or it retypes a page that is not empty |
| PageAnswers.CurrentEditAccepted | apps/main_service/src/pages/service.rs:137-159 | so an edit on the current version that sends no type is always accepted |
| WorkspaceHistory.LogReplaysEveryState | apps/main_service/src/workspaces/service.rs:252-308 | the log takes every field of every workspace back to what it was in any past state |
| WorkspaceHistory.AcceptedEditSawCurrent | apps/main_service/src/workspaces/controllers/patch_workspace.rs:60-132 | an accepted edit overwrites no newer value |
| WorkspaceHistory.AcceptedEditWrites | apps/main_service/src/workspaces/controllers/patch_workspace.rs:60-132 | an accepted edit writes exactly what it sent and raises the version if anything changed; a refused one changes nothing |
| WorkspaceHistory.UpdateSaves | apps/main_service/src/workspaces/service.rs:252-308 | likewise for a workspace; an update that is not done changes nothing |
| WorkspaceHistory.ConflictsAreChanges | apps/main_service/src/changes/repo.rs:8-32 | the conflicts found are exactly the sent fields changed since |
| PageStore.Store.PathToRoot | apps/main_service/src/pages/repo.rs:125-141 | the recursive query returns the chain of parents, and ends |
| PageStore.Store.SubtreeHeight | apps/main_service/src/pages/repo.rs:143-172 | the recursive query returns the height of the live subtree |
| PageStore.Store.ChildrenOf | apps/main_service/src/pages/repo.rs:80-101 | the live children in order, without the moved page |
| PageStore.Store.SetPositions | apps/main_service/src/pages/repo.rs:103-123 | each listed page gets its key, nothing else changes |
| PageStore.Store.Place | apps/main_service/src/pages/service.rs:108-135 | the key for the index, the siblings renumbered when there is no room |
| PageStore.Store.CheckParent | apps/main_service/src/pages/service.rs:75-97 | the parent's depth, or not found, or a cycle |
| PageStore.Store.TrashDescendants | apps/main_service/src/pages/repo.rs:246-270 | exactly the live pages below the root are trashed with it |
| PageStore.Store.RestoreDescendants | apps/main_service/src/pages/repo.rs:273-290 | the pages trashed with the root, and no others, are live again; every other trash stays |
| PageStore.Store.UpdatePage | apps/main_service/src/pages/service.rs:226-265 | written exactly when a field differs: then the row has its next version, the log one row for each changed field with both values, and no other page differs; else nothing changes |
| PageStore.Store.CreatePage | apps/main_service/src/pages/controllers/create_page.rs:44-143 | the create step with its repeat, its refusals and at most three short ids; answered and holding what `PageAnswers` says; the invariant is kept |
| PageStore.Store.MovePage | apps/main_service/src/pages/controllers/move_page.rs:43-120 | the move step: cycle, depth and no-op tests, placement, commit or rollback; the invariant is kept |
| PageStore.Store.PatchPage | apps/main_service/src/pages/controllers/patch_page.rs:42-105 | the versioned edit, refused exactly when `PageAnswers.PatchAnswer` says; the invariant is kept |
| PageStore.Store.DeletePage | apps/main_service/src/pages/controllers/delete_page.rs:36-79 | the delete step, a no-op on a trashed page; the invariant is kept |
| PageStore.Store.RestorePage | apps/main_service/src/pages/controllers/restore_page.rs:39-107 | the restore step, in place or at the root, refused below another trash root; the invariant is kept |
| ClientTree.MovedIn | apps/frontend/src/shared/pages/tree.tsx:57-74 | the node with its title is at its index among its new parent's children, every other order and node unchanged; a missing node changes nothing |
| ClientTree.SubtreeOf | apps/frontend/src/shared/pages/usePageActions.ts:9-21 | the loop ends with the least set that holds the root and is closed under children |
| ClientTree.TreeChildren | apps/main_service/src/pages/repo.rs:11-24 | the tree query gives each parent's children in the server's order |
| ClientTree.MoveMatchesServer | apps/frontend/src/shared/pages/tree.tsx:57-74 | the optimistic move gives every parent the order the server's move gives, if and only if the move is not lost |
| ClientTree.SubtreeIsTaken | apps/frontend/src/shared/pages/usePageActions.ts:9-21 | what the client removes is exactly what the server trashes |
| Slugs.NameToSlug | apps/main_service/src/workspaces/utils.rs:95-118 | the loop over the name makes the slug that `SlugWords.SlugIs` is about |
| SlugWords.SlugIs | apps/main_service/src/workspaces/utils.rs:92-118 | the maximal runs of letters and digits of the name, in lower case, joined by one hyphen, cut at 28 characters less a hyphen at the end; `workspace` when that is empty, and added after a hyphen when it is shorter than three |
| Slugs.MadeSlugValid | apps/main_service/src/workspaces/utils.rs:95-118 | a made slug passes the validator, has no double hyphen and leaves four characters for a suffix |
| Slugs.ValidIs | apps/main_service/src/workspaces/utils.rs:36-65 | a slug is valid exactly with 3 to 32 characters, each a lower-case letter, a digit or, between two others, a hyphen |
| SlugWords.MadeSlugSpells | apps/main_service/src/workspaces/utils.rs:95-118 | its letters and digits are the first of the name in order, and all of them when its words take at most 28 characters; the fallback only for a name without any |
| Slugs.FindAvailable | apps/main_service/src/workspaces/utils.rs:120-131 | the base if it is free, else the base with the least free number from 2 |
| Slugs.AvailableUnique | apps/main_service/src/workspaces/utils.rs:120-131 | that determines the slug |
| Slugs.CandidateValid | apps/main_service/src/workspaces/utils.rs:14-14 | a numbered slug stays valid exactly while base, hyphen and number are at most 32 characters |
| SlugSafety.GeneratedIsFree | apps/main_service/src/workspaces/repo.rs:495-514 | a generated slug is nobody's, now or by any alias |
| SlugSafety.GeneratedIsValid | apps/main_service/src/workspaces/utils.rs:93-131 | a generated slug is valid exactly while its base, or a number that leaves it at most 32 characters long, is free among the slugs in use; so always while at most 998 of its family are |
| SlugSafety.ThousandthIsTooLong | apps/main_service/src/workspaces/utils.rs:93-131 | 999 creates of one name of 28 letters from an empty instance, and the thousandth is created with a slug the validator refuses |
| SlugSafety.NextKeepsInv | apps/main_service/src/workspaces/service.rs:263-291 | every request keeps slugs unique and live aliases apart from current slugs |
| SlugSafety.UpdateRefused | apps/main_service/src/workspaces/service.rs:263-291 | an update is refused exactly when it asks for another slug that leads to someone else, or to the workspace itself for a user who is no member |
| SlugSafety.UpdateReaddresses | apps/main_service/src/workspaces/repo.rs:184-210 | after any update the old and the new slug lead to the workspace alone, and every other slug leads where it did |
| SlugSafety.ResolvesToOne | apps/main_service/src/workspaces/repo.rs:9-68 | in every reachable state a slug leads to at most one workspace, and is taken exactly when it leads to one |
| SlugSafety.LeftSlugStays | apps/main_service/src/workspaces/repo.rs:298-322 | after a workspace leaves a slug, for 90 days the slug leads to that workspace alone, whatever is requested, each create in one step |
| SlugRace.HalvesMakeCreate | apps/main_service/src/workspaces/controllers/create.rs:37-92 | checking or making the slug, and at once inserting, is the create |
| SlugRace.CurrentUnique | apps/main_service/src/workspaces/repo.rs:102-161 | with other requests between the two, no slug is ever current for two workspaces |
| SlugRace.LeftSlugStaysExactly | apps/main_service/src/workspaces/controllers/create.rs:37-92 | in any state so reached, a slug that a workspace leaves stays its own for 90 days whatever follows if and only if no create is on its way that chose the slug before and can still insert |
| SlugRace.RaceShares | apps/main_service/src/workspaces/controllers/create.rs:37-92 | for any two valid slugs, four events from an empty instance after which one of them leads to two workspaces |
| SlugSafety.TakenIsRefused | apps/main_service/src/workspaces/service.rs:263-291 | while a slug leads to a workspace, no request gives it to another |
| SlugSafety.TakesBack | apps/main_service/src/workspaces/repo.rs:35-68 | the workspace can take a left slug back; the alias of it goes, and the slug it has now redirects |
| SlugSafety.RepeatedCreate | apps/main_service/src/workspaces/controllers/create.rs:37-115 | the same create again after any requests: refused when it sends a slug that is taken by then; else answered with the workspace exactly while that is not deleted; nothing is written |
| SlugSafety.RepeatedAtOnce | apps/main_service/src/workspaces/controllers/create.rs:37-115 | sent again at once with its own slug, it is refused |
| WorkspaceAnswers.CreateAnswer | apps/main_service/src/workspaces/controllers/create.rs:37-115 | when exactly a workspace is created, when the request is answered with the one that is there, and with which error it is refused otherwise |
| WorkspaceAnswers.CreatedHolds | apps/main_service/src/workspaces/repo.rs:102-161 | a created workspace is the actor's, with the name and task prefix sent, the slug sent or the first free one of the name's, no icon, at version 1; nothing else changes |
| WorkspaceAnswers.PersonalHolds | apps/main_service/src/workspaces/service.rs:112-156 | likewise a personal workspace, made only for a user who has none |
| WorkspaceAnswers.EditAnswer | apps/main_service/src/workspaces/controllers/patch_workspace.rs:60-132 | refused for the first of: no such workspace for a member, nothing sent, an invalid slug, a base newer than the version, a logged change of a sent field newer than the base (with the newest for each), a slug that leads to someone else; without effect when everything sent is as it is; else done |
| WorkspaceAnswers.EditRefusedExactly | apps/main_service/src/workspaces/controllers/patch_workspace.rs:60-132 | in any run from an empty instance, a well-formed edit made on an earlier state is refused if and only if a request since changed a field it sets, or it takes a slug that leads to someone else |
| WorkspaceAnswers.DeleteAnswer | apps/main_service/src/workspaces/controllers/soft_delete_workspace.rs:48-93 | hidden from those who may not see it, denied to others than the owner and for a personal one, without effect when deleted, else done |
| WorkspaceAnswers.RestoreAnswer | apps/main_service/src/workspaces/controllers/restore_workspace.rs:36-72 | likewise: without effect when not deleted, else done |
| PersonalWorkspace.PersonalStays | apps/main_service/src/workspaces/service.rs:112-155 | in any reachable state a user who asks gets a personal workspace; it is never deleted, and asking again after any requests is answered with the same one |
| WorkspaceSteps.EndsInUpdate | apps/main_service/src/workspaces/controllers/soft_delete_workspace.rs:48-93 | an edit, delete or restore is one update of its row or changes nothing |
| WorkspaceStore.Store.MakeSlug | apps/main_service/src/workspaces/controllers/create.rs:58-64 | the generated slug, which is free |
| WorkspaceStore.Store.CreateWorkspace | apps/main_service/src/workspaces/controllers/create.rs:37-115 | the create step with the answer to an existing id |
| WorkspaceStore.Store.EnsurePersonalWorkspace | apps/main_service/src/workspaces/service.rs:112-155 | the personal workspace found or made |
| WorkspaceStore.Store.MoveSlug | apps/main_service/src/workspaces/repo.rs:298-322 | the slug that was left is held for 90 days, the one taken up is no alias any more, every other alias stays |
| WorkspaceStore.Store.UpdateWorkspace | apps/main_service/src/workspaces/service.rs:252-308 | refused exactly for a slug that leads to someone else; done, the row has its next version, the log what changed, both slugs lead to the workspace alone and the old one is held for 90 days; else nothing changes; slugs stay unique |
| WorkspaceStore.Store.PatchWorkspace | apps/main_service/src/workspaces/controllers/patch_workspace.rs:60-132 | accepted, no sent field was changed since the base, each has the value sent and every other the one it had, saved as in the row above; refused, nothing changes; slugs stay unique |
| WorkspaceStore.Store.SoftDeleteWorkspace | apps/main_service/src/workspaces/controllers/soft_delete_workspace.rs:48-93 | done exactly for the owner of a live workspace that is not personal: its deletion is saved, its slug stays its own; else nothing changes |
| WorkspaceStore.Store.RestoreWorkspace | apps/main_service/src/workspaces/controllers/restore_workspace.rs:36-75 | done exactly for the owner of one deleted less than 30 days ago: it is live again; else nothing changes |
| Notifications.ListsUnique | apps/main_service/src/notifications/repo.rs:89-114 | the order of a tab determines its list |
| Notifications.Tab | apps/main_service/src/notifications/repo.rs:89-114 | the rows the query selects, all of them once, in its order |
| Notifications.TabShows | apps/main_service/src/notifications/repo.rs:27-75 | which rows each tab shows: the workspace's, and account-level ones that are read or archived; by whether they are archived, in Unread those that are unread |
| Notifications.TabNewestFirst | apps/main_service/src/notifications/repo.rs:27-114 | newest first by the time of archiving in Archived, else by that of the last event; then by id |
| Notifications.Store.Perform | apps/main_service/src/notifications/repo.rs:135-242 | create, read, unread, archive, unarchive and read-all on the rows; archiving a missing row is not found |
| Notifications.AgainChangesNothing | apps/main_service/src/notifications/repo.rs:135-151 | a change made again changes nothing: the first read and archive times stay |
| Notifications.CreateArrives | apps/main_service/src/notifications/repo.rs:276-290 | a new row arrives unread, neither read nor archived; every other row stays |
| Notifications.ReadAllReads | apps/main_service/src/notifications/repo.rs:153-173 | a read-all reads exactly the unread rows of the workspace and of the account that are not newer than it names |
| Notifications.UnarchiveUndoes | apps/main_service/src/notifications/repo.rs:206-225 | bringing a row back undoes its archiving, except that it stays read |
| Notifications.AccountStaysUnread | apps/main_service/src/notifications/repo.rs:153-173 | an unread account-level row stays unread on a read-all exactly when it is newer than the time named |
| Notifications.AccountIsRead | apps/main_service/src/notifications/repo.rs:153-173 | one such row that a read-all reads |
| Notifications.Store.CountUnread | apps/main_service/src/notifications/repo.rs:246-274 | the loop's counts are the numbers of unread rows per workspace and for the account, within the member workspaces |
| Notifications.CountOfIs | apps/main_service/src/notifications/repo.rs:247-274 | what is counted are the rows neither read nor archived |
| Paging.Limit | apps/main_service/src/notifications/controllers/get_list.rs:36-38 | the page size nearest to the one asked for, from 1 to 100; 50 by default |
| Paging.GetList | apps/main_service/src/notifications/controllers/get_list.rs:68-97 | the first rows after the cursor, as many as the limit or as there are, and the cursor of the last one exactly when more follow |
| Paging.PageSplits | apps/main_service/src/notifications/repo.rs:89-114 | a page and what follows its cursor are together the rows after the cursor it was asked with |
| Paging.WalkIsTheTab | apps/main_service/src/notifications/controllers/get_list.rs:68-97 | following the cursors of an unchanging tab returns exactly the tab, in order |
| Paging.WalkEnds | apps/main_service/src/notifications/controllers/get_list.rs:68-97 | such a walk ends within as many pages as the tab has rows |
| Paging.SteadyRowOnce | apps/main_service/src/notifications/repo.rs:53-114 | if rows change between the pages, each row that stays in the tab with its sort date is returned exactly once by a walk that ends |
| CursorText.CursorReadsBack | apps/main_service/src/notifications/cursor.rs:13-27 | a cursor written as text is read back as it was, negative times included |
| CursorText.UuidReadsBack | apps/main_service/src/notifications/cursor.rs:13-27 | the 32 hexadecimal digits of an id are read back |
| Inbox.PlaceJoins | apps/frontend/src/shared/inbox/cache.ts:271-299 | on the pages joined, `place` removes the notification and inserts it at its place; page boundaries keep their cursors |
| InboxStore.Place | apps/frontend/src/shared/inbox/cache.ts:271-299 | the loop over the pages with its splice does what the specification of placing says |
| InboxPrefix.BelongsIsInTab | apps/frontend/src/shared/inbox/cache.ts:246-258 | the client shows in a list exactly what the server's condition lists |
| InboxPrefix.TabAfterUpsert | apps/main_service/src/notifications/repo.rs:89-114 | the server's tab after a row is written |
| InboxPrefix.PlaceKeepsPrefix | apps/frontend/src/shared/inbox/cache.ts:246-299 | placing a written row maps a loaded prefix of the tab (all of it when the last page is loaded) to one of the new tab |
| InboxPrefix.PlaceInListsKeepsLoaded | apps/frontend/src/shared/inbox/cache.ts:305-327 | so for all cached lists at once, of this and of other workspaces |
| InboxPrefix.LoadedInOrder | apps/frontend/src/shared/inbox/cache.ts:260-269 | such a list is sorted and shows no notification twice |
| InboxPrefix.PlaceKeepsPinned | apps/frontend/src/shared/inbox/cache.ts:363-382 | placing a written row keeps a pinned group the list of account-level unread rows, newest first |
| InboxSync.LoadedAgrees | apps/main_service/src/notifications/controllers/get_list.rs:68-97 | lists loaded from the server agree with it |
| InboxSync.DeliverAgrees | apps/frontend/src/shared/inbox/cache.ts:450-490 | receiving the update of a change keeps every cached copy equal to the server's row, and sets the counts |
| InboxSync.RunAgrees | apps/frontend/src/shared/inbox/cache.ts:450-490 | so over any sequence of changes, each delivered in order with nothing in flight; the counts stay the server's |
| InboxSync.AgreeingListIsTab | apps/main_service/src/notifications/repo.rs:89-114 | a fully loaded All or Archived list that agrees has the workspace's rows of the server's tab, row for row |
| InboxSync.ListsShowTabs | apps/frontend/src/shared/inbox/cache.ts:450-490 | after any such sequence, fully loaded All and Archived lists equal the server's tabs in the workspace's own rows, row for row, in order |
| InboxSync.ArrivalIsShown | apps/frontend/src/shared/inbox/cache.ts:464-475 | a notification new to the cache, or archived or brought back elsewhere, is shown from its update on in exactly the complete lists and pinned groups it belongs to |
| InboxFlight.HeldUntouched | apps/frontend/src/shared/inbox/cache.ts:120-140 | no pushed update changes, adds or removes a cached copy of a held notification |
| InboxFlight.SummaryWaits | apps/frontend/src/shared/inbox/cache.ts:481-487 | a pushed summary is written only when nothing is in flight, and otherwise noted as skipped |
| InboxFlight.SkipsAreFetched | apps/frontend/src/shared/inbox/cache.ts:120-140 | over any sequence of events, a summary is owed only while something is in flight, and each time one comes to be owed it is fetched exactly once |
| InboxFlight.HoldTallies | apps/frontend/src/shared/inbox/cache.ts:125-126 | an id is in flight as often as it is held |
| InboxFlight.ReleaseTallies | apps/frontend/src/shared/inbox/cache.ts:128-134 | releasing takes one off for each id, and never below none |
| InboxFlight.HoldThenRelease | apps/frontend/src/shared/inbox/cache.ts:120-140 | releasing what was held undoes the hold, whatever else was held in between |
| InboxFlight.HeldThroughout | apps/frontend/src/shared/inbox/cache.ts:120-140 | over any sequence of events a notification that stays held keeps its copies in every list and pinned group, as long as no event is its own patch |
| InboxPatches.ReadIsServers | apps/frontend/src/shared/inbox/cache.ts:142-197 | the optimistic read writes what the server will exactly when none of the rows was read at another time; the unread always does |
| InboxPatches.ArchiveIsServers | apps/frontend/src/shared/inbox/cache.ts:329-345 | likewise for archiving and bringing back |
| InboxPatches.PatchReadAgrees | apps/frontend/src/shared/inbox/cache.ts:142-197 | after the patch every cached copy and list agrees with the server's rows after the change |
| InboxPatches.PinnedReadMoves | apps/frontend/src/shared/inbox/cache.ts:170-191 | a pinned notification that is sent and read in the All tab leaves that group and is in every complete All list |
| InboxPatches.PinnedReadStays | apps/frontend/src/shared/inbox/cache.ts:176-187 | in the other tabs it stays where it is |
| InboxPatches.PatchArchiveAgrees | apps/frontend/src/shared/inbox/cache.ts:329-357 | likewise for archiving and bringing back, in every list and pinned group |
| InboxPatches.PatchCountIs | apps/frontend/src/shared/inbox/cache.ts:60-98 | one edit moves the counts as it moves the number of unread rows, and the floor at zero does not act |
| InboxPatches.PatchReadCounts | apps/frontend/src/shared/inbox/cache.ts:142-197 | reading or unreading distinct cached notifications takes correct counts to correct counts; no count is cut off at zero |
| InboxPatches.PatchArchiveCounts | apps/frontend/src/shared/inbox/cache.ts:329-357 | likewise for archiving and bringing back |
| InboxPatches.ReadAllIdsAre | apps/frontend/src/shared/inbox/cache.ts:204-237 | the ids a read-all collects: each notification its rule reads in the workspace's lists and the pinned groups, once |
| InboxPatches.PatchReadAllCounts | apps/frontend/src/shared/inbox/cache.ts:204-237 | a read-all patches only rows the server's read-all reads, as it does, and conserves the counts |
| InboxPatches.SettlesExactly | apps/frontend/src/shared/inbox/cache.ts:104-140 | after pushed updates of held notifications and their release, each list agrees with the server exactly when it has no other copy of a pushed row and lacks none it is to show; and then so does the whole cache, once the release fetches the pinned groups |
| InboxPatches.CachedSettles | apps/frontend/src/shared/inbox/cache.ts:454-475 | for notifications that are cached: the lists agree exactly when every copy in them of a pushed row is that row |
| InboxPatches.ReleasedAsHeld | apps/frontend/src/shared/inbox/cache.ts:115-140 | after any sequence of holds, releases, pushed updates and patches, a notification that stayed held shows in the lists, once released, the server's row exactly if it did at the start of them |
| InboxPatches.MissedArchive | apps/frontend/src/shared/inbox/cache.ts:454-475 | an archiving in another tab that the All list never shows, whatever the release fetches |
| InboxPatches.OwnReadSettles | apps/frontend/src/shared/inbox/cache.ts:120-197 | hold, read patch, pushed update and release: the cache agrees with the rows the patch wrote, what is in flight is what was before, and when nothing was, the counts are the server's |
| InboxPatches.OwnArchiveSettles | apps/frontend/src/shared/inbox/cache.ts:120-140 | likewise for archiving and bringing back |
| InboxStays.OthersStay | apps/frontend/src/shared/inbox/cache.ts:450-490 | whatever an update pushes: but for the notifications not held that are new, archived or brought back, every list, Unread included, and every pinned group has the same rows in the same order, each as pushed, and read if the read-all reads it; the cursors stay |
| InboxStays.PushedInPlace | apps/frontend/src/shared/inbox/cache.ts:464-475 | when there is none of those, each row stays at its place, those pushed and not held as they were pushed, all others as they are |
| InboxStays.ReadStays | apps/frontend/src/shared/inbox/cache.ts:142-197 | the read patch leaves every row of every list and group where it is, those sent read or unread, but for those no longer unread in a pinned group of the All tab: they are gone from it and placed in the All lists alone |
| InboxStays.ArchiveStays | apps/frontend/src/shared/inbox/cache.ts:329-357 | the archive patch takes the notification out of every pinned group and to its place in the complete lists that show it; everything else stays |
| InboxStore.Store.PlaceEverywhere | apps/frontend/src/shared/inbox/cache.ts:305-327 | the lists of its workspace, or all for an account-level one, limited to the views given |
| InboxStore.Store.PlacePinned | apps/frontend/src/shared/inbox/cache.ts:363-382 | in the pinned groups exactly when account-level and unread |
| InboxStore.Store.Replace | apps/frontend/src/shared/inbox/cache.ts:385-404 | the copies replaced where they are, moving nothing |
| InboxStore.Store.ReadAllHere | apps/frontend/src/shared/inbox/cache.ts:407-438 | the read-all rule in place, sparing what is in flight |
| InboxStore.Store.ReceiveUpdate | apps/frontend/src/shared/inbox/cache.ts:450-490 | the whole pushed update in the order of the loop; what it does is in `InboxStays.OthersStay` and `InboxSync.ArrivalIsShown` |
| InboxStore.Store.HoldIds | apps/frontend/src/shared/inbox/cache.ts:125-126 | the counts of changes in flight |
| InboxStore.Store.ReleaseIds | apps/frontend/src/shared/inbox/cache.ts:104-140 | the counts, and the fetch of the summary and the pinned groups when the last change settles and a summary was skipped |
| InboxStore.Store.MoveCounts | apps/frontend/src/shared/inbox/cache.ts:60-98 | the summary after a list of edits |
| InboxStore.Store.PatchReadNotification | apps/frontend/src/shared/inbox/cache.ts:142-197 | the read patch: summary, lists, pinned groups, and the rows that leave a group for the lists; what it does is in `InboxStays.ReadStays` and `InboxPatches.PinnedReadMoves` |
| InboxStore.Store.PatchReadEverything | apps/frontend/src/shared/inbox/cache.ts:204-237 | the read-all patch and the ids it read |
| InboxStore.Store.PatchArchiveNotification | apps/frontend/src/shared/inbox/cache.ts:329-357 | the archive patch |
| Bitmap.SetBitMarks | apps/storage_service/src/redis/transaction.rs:256-281 | setting a bit, most significant first, marks its index and no other, growing the string when needed |
| Bitmap.BitCountIsMarked | apps/storage_service/src/redis/transaction.rs:298-309 | the count of set bits is the number of marked indices |
| Bitmap.GetAllMissing | apps/storage_service/src/redis/transaction.rs:322-357 | exactly the unmarked indices below the total, ascending |
| Upload.CountDecides | apps/storage_service/src/redis/transaction.rs:311-320 | whatever the requests send, as long as their offsets are in the chunks of the file, the count of bits reaches the total exactly when no chunk is missing |
| Upload.OffsetsBelowSize | apps/storage_service/src/redis/transaction.rs:311-320 | so it does whenever all offsets are below the size of the file |
| Upload.HarmlessOffset | apps/storage_service/src/redis/transaction.rs:311-320 | an offset is in one of the chunks if and only if counting is right in every interleaving whose other requests are in them too |
| Upload.StrayCompletes | apps/storage_service/src/entities/actions/service.rs:533-591 | on any file of more than three chunks, a byte at any offset past them makes an upload without its first chunk count as complete |
| Upload.AtMostThreeHold | apps/storage_service/src/redis/transaction.rs:215-253 | in any interleaving, failures included, at most three requests hold a slot of one transaction, and the counter is their number, those still deciding and those that leaked |
| Upload.AdmittedExactly | apps/storage_service/src/redis/transaction.rs:215-237 | in any interleaving a request that begins, with at most 5 MiB as announced, gets a slot exactly when those counted in and those that leaked are fewer than three, and else counts out again |
| Upload.NeverReset | apps/storage_service/src/redis/transaction.rs:239-253 | the counter never goes below zero, so setting it back to zero never has an effect |
| Upload.FailsWhileHolding | apps/storage_service/src/entities/actions/service.rs:563-590 | what failures leave: a type that cannot be saved ends a request for the first bytes before it writes; a write cut short has written so many bytes at the offset and marked nothing |
| Upload.LeakedAreLeaks | apps/storage_service/src/entities/actions/service.rs:533-590 | what the counter has too many is the number of requests that ended after counting in and before counting out, on an error or because the client was gone |
| Upload.NextIsAdmitted | apps/storage_service/src/entities/actions/service.rs:563-590 | with no request under way the next one gets a slot exactly while fewer than three ended so |
| Upload.ThreeLeaksShut | apps/storage_service/src/entities/actions/service.rs:563-583 | three requests whose new type cannot be saved, or whose client is gone before the first byte is written, after which every request is rejected though none is under way |
| Upload.UploadReassembles | apps/storage_service/src/entities/actions/service.rs:426-458 | after aligned writes in any order, interleaving and number, each marked chunk has the source's bytes, and nothing missing means the file is the source |
| Chunks.MarksRightChunks | apps/storage_service/src/redis/transaction.rs:360-363 | a write marks a chunk that is then right, whatever the file held, exactly when it covers the whole chunk its offset is in |
| UploadStore.Transaction.TryAcquireUploadSlot | apps/storage_service/src/redis/transaction.rs:215-237 | a slot is taken exactly when fewer than three are |
| UploadStore.Transaction.ReleaseUploadSlot | apps/storage_service/src/redis/transaction.rs:239-253 | the counter goes down, not below zero |
| UploadStore.Transaction.SetChunkUploaded | apps/storage_service/src/redis/transaction.rs:256-281 | one more index is marked |
| UploadStore.Transaction.IsUploadComplete | apps/storage_service/src/redis/transaction.rs:311-320 | complete when as many indices are marked as there are chunks |
| UploadStore.Transaction.GetAllMissingChunks | apps/storage_service/src/redis/transaction.rs:322-357 | the missing indices, ascending, also before any chunk came |
| UploadStore.Transaction.UploadChunk | apps/storage_service/src/entities/actions/service.rs:533-591 | a chunk request on its own: refusals, the bytes and the mark, and the slot given back |
| UploadStore.Transaction.UploadComplete | apps/storage_service/src/entities/actions/service.rs:648-732 | refused while incomplete or with another hash; a transaction with the wrong hash is gone |
| UploadStore.HonestUploadCompletes | apps/storage_service/src/entities/actions/service.rs:648-732 | after aligned writes the upload is complete exactly when nothing is missing, and then its hash is the source's |
| Ranges.Merge | apps/storage_service/src/entities/actions/service.rs:51-100 | sorted windows merged: ascending ranges that do not touch and cover the same bytes |
| Ranges.GenerateChallengeRanges | apps/storage_service/src/entities/actions/service.rs:51-100 | ascending ranges that do not touch, inside the file, whose union is that of the sampled windows, no longer than the samples together; the whole file when it is that small |

## Left out

- Interleavings inside one database transaction: requests on pages and edits of workspaces are serialised, so waiting for locks, and what another transaction commits between two statements of one, do not occur. Only creates of workspaces are split, in `SlugRace`; a retry of a personal workspace's insert is another create there.
- The fetch on release is answered at once, and for every pinned group.
- Validation of titles, icons, workspace names and task prefixes, trimming, and the typed confirmation of a workspace's deletion.
- Roles, capabilities and guest access: a workspace request carries whether the user is a member; the owner is a column.
- `updated_at`, `updated_by` and the bodies of pages: whether a body was written is a parameter of the patch step.
- The generator of short ids: its candidates are a parameter of the create step.
- Internals of the fractional index library, which are not part of this model: keys are byte strings with a midpoint of their own that meets the same contract.
- Transliteration of a name to ASCII: its result is a parameter.
- Task prefixes and their history, hard deletion, expiry of keys and transactions, workers, clean-up of blobs.
- Whole-file uploads, the verification step of a known hash, detection of MIME types; the hash is a parameter.
- `toTreeNodes` and `pathTo` of the frontend: display of the tree.
- Failing Redis commands have no effect, but for a lost answer to the one that counts a request in.
- Machine integers: sizes, offsets and counters are unbounded numbers, far below 64 bits in the program.
- History of `position` and of the trash date of descendants: those columns change without a log, as `PageHistory.DescendantsUnlogged` shows.
- The rows of other users: the notification table is one user's.
- `PINNED_LIMIT`: a pinned group holds all its rows.
- Account-level rows and the Unread tab in the claim on equal lists: rows read there stay in place on purpose (`apps/frontend/src/shared/inbox/cache.ts:440-449`).
- Loading a further page after cached rows were removed; entries of the query cache without data; the rollback of a patch; the highlight of arrived rows; cancelling a summary on its way.
- Lost, repeated or reordered signals, and the refetch after a rejoin.
- Timestamps: one integer clock; the server has microseconds, the client milliseconds.
- CursorText.CursorReadsBack: the range of dates is a parameter, because the date library is not part of this model.
