# Task management system — a verified model of its core

This project models the core of a multi-tenant task board written in
TypeScript. The system has two sides.

- **The API:**
  - a tasks table ordered per column, where a column is an
    (organizationId, status) pair and each task carries an `orderIndex`;
  - create / update / remove / reorder of tasks, with audit records;
  - the role-based organization-scope policy;
  - the two-level organization hierarchy;
  - the audit log file and its reader.
- **The dashboard:**
  - the task board's column computation and its request guards;
  - the client-side task cache.

Each part is proved against the promises the code makes.

| file | module | models |
|---|---|---|
| `domain.dfy` | `Domain` | shared values: Task, TaskStatus, Role (with `Other` for unknown role strings), Option/Result, errors, the task diff, audit calls |
| `org_scope.dfy` | `OrgScope` | `isOrgWithinScope` as a pure function with an optional child oracle |
| `organizations.dfy` | `Organizations` | the organization table as a class: create and update with their parent checks, plus the lookups findOne, isDirectChild, checkOrgAccess and getAccessibleOrgs |
| `task_ordering.dfy` | `TaskOrdering` | the column invariant (indices exactly 0 .. n-1), the next-index query, and `Relocated`, a reference definition of a reorder, with the density lemmas |
| `tasks_service.dfy` | `TasksApi` | the API task service as a class over a `seq<Task>` table; every bulk `UPDATE … SET orderIndex = orderIndex ± 1` is a loop, and `reorder` is proved equal to `Relocated` |
| `audit.dfy` | `Audit` | `record` (append one JSON line, swallow write errors) and the `readRecentLogs` pipeline: trim, split, drop blanks, parse-or-drop, last `limit`, reverse |
| `task_board.dfy` | `TaskBoard` | the search / category / status / sort pipeline of `updateTaskColumns`, the category list, `canEdit`, and the `isSaving` guards of drop, save and delete |
| `task_cache.dfy` | `DashboardTasks` | the dashboard's cached task list and what each server response does to it |

The ordering result is the centre of the model. Take a dense column and a
target index in range. Then:

- a reorder within the column keeps it dense;
- a reorder across columns keeps both columns dense, with the old column one
  row shorter and the new one one row longer;
- every other column is untouched.

The imperative reorder, with its loops, is proved to compute exactly
`Relocated`.

Two places where the code does less than one might expect are modelled as
the code behaves:

- **Deleting a task does not renumber its column.** `remove` calls no
  shift, so a delete can leave a gap in its column
  (`TaskOrdering.RemoveMayLeaveGap`); the other columns provably stay dense.
- **An organization update can create a grandchild.** `update` checks that
  the new parent is a root, but not that the re-parented organization has no
  children of its own (`Organizations.UpdateCanCreateGrandchild`).

All source paths below are relative to the repository root.

## Model

| member | source | states |
|---|---|---|
| `OrgScope.OwnerReachesEveryOrg` | task-management-system/auth/src/lib/org-scope.util.ts:20-22 | an Owner reaches every target organization |
| `OrgScope.AdminOwnOrgIgnoresOracle` | task-management-system/auth/src/lib/org-scope.util.ts:24-27 | an Admin reaches its own organization whatever the oracle is |
| `OrgScope.AdminOtherOrgAsksOracle` | task-management-system/auth/src/lib/org-scope.util.ts:29-34 | for another organization, an Admin's answer is exactly `isChild(userOrg, target)`, in that argument order, and false with no oracle |
| `OrgScope.ViewerOnlyOwnOrg` | task-management-system/auth/src/lib/org-scope.util.ts:37-39 | a Viewer is allowed iff the target is its own organization |
| `OrgScope.UnknownRoleRefused` | task-management-system/auth/src/lib/org-scope.util.ts:41 | any other role is refused (fail closed) |
| `OrgScope.ScopesAreNested` | task-management-system/auth/src/lib/org-scope.util.ts:15-42 | whatever a Viewer reaches an Admin reaches, and whatever an Admin reaches an Owner reaches |
| `Organizations.Position` | task-management-system/api/src/app/organizations/organizations.service.ts:55-58 | the position holds that id; none exists iff no row has the id |
| `Organizations.FindOne` | task-management-system/api/src/app/organizations/organizations.service.ts:55-66 | Ok iff some organization has the id, and the result is that organization; otherwise NotFound |
| `Organizations.Children` | task-management-system/api/src/app/organizations/organizations.service.ts:159-163 | holds exactly the organizations whose parent is the given id |
| `Organizations.IsDirectChildIff` | task-management-system/api/src/app/organizations/organizations.service.ts:121-128 | with unique ids, isDirectChild(p, c) holds iff organization c exists and its parent is p |
| `Organizations.GetAccessibleOrgs` | task-management-system/api/src/app/organizations/organizations.service.ts:149-167 | Owner gets every organization; any other role fails with an error iff its own organization is missing; Admin gets its own first, then exactly its direct children; other roles get only their own; the only error is NotFound |
| `Organizations.AccessAgreesWithListing` | task-management-system/api/src/app/organizations/organizations.service.ts:133-167 | for the three roles, checkOrgAccess allows an existing target iff getAccessibleOrgs lists it |
| `Organizations.UnknownRoleStillListsOwnOrg` | task-management-system/api/src/app/organizations/organizations.service.ts:133-167 | an unknown role is refused by checkOrgAccess yet still listed its own organization by getAccessibleOrgs |
| `Organizations.CheckParent` | task-management-system/api/src/app/organizations/organizations.service.ts:23-39 | a parent is accepted iff it exists and is a root; it is "not found" iff no row has the id |
| `Organizations.UpdateCanCreateGrandchild` | task-management-system/api/src/app/organizations/organizations.service.ts:75-103 | an update that passes every check can still break the two-level rule |
| `Organizations.OrganizationsService.Create` | task-management-system/api/src/app/organizations/organizations.service.ts:21-47 | a truthy parent that is missing or not a root is BadRequest with nothing saved; otherwise a new organization (a root when the parent is falsy) is appended; no grandchild is ever introduced |
| `Organizations.OrganizationsService.Update` | task-management-system/api/src/app/organizations/organizations.service.ts:68-111 | NotFound for an unknown id; a truthy parent is checked (missing, then depth, then self) with nothing saved on failure; null or 0 clears the parent, absent keeps it; the name changes only when non-empty; only that row changes; an update of an existing organization whose parent is not rejected succeeds |
| `Organizations.ReplaceKeepsParentsKnown` | task-management-system/api/src/app/organizations/organizations.service.ts:68-111 | saving one organization with its own id and a known or absent parent keeps ids unique and every parent known |
| `TaskOrdering.IndexSetCard` | task-management-system/api/src/app/tasks/tasks.service.ts:232-244 | a column without duplicate indices holds as many distinct indices as rows |
| `TaskOrdering.DenseIndexSet` | task-management-system/api/src/app/tasks/tasks.service.ts:232-244 | a dense column's indices are exactly {0, …, n-1} |
| `TaskOrdering.MaxIndex` | task-management-system/api/src/app/tasks/tasks.service.ts:232-244 | None iff the column is empty; otherwise an index held in the column and at least every index of the column |
| `TaskOrdering.NextOrderIndex` | task-management-system/api/src/app/tasks/tasks.service.ts:232-244 | greater than every index in the column; 0 on an empty column; otherwise one more than an index the column holds |
| `TaskOrdering.DenseNextIsCount` | task-management-system/api/src/app/tasks/tasks.service.ts:31 | on a dense column the next index is the column's size |
| `TaskOrdering.AppendKeepsDense` | task-management-system/api/src/app/tasks/tasks.service.ts:31-46 | appending a task at its column's next index keeps every dense column dense |
| `TaskOrdering.ExplicitIndexMayDuplicate` | task-management-system/api/src/app/tasks/tasks.service.ts:31 | an explicit orderIndex is stored verbatim and can duplicate an existing one |
| `TaskOrdering.RemoveMayLeaveGap` | task-management-system/api/src/app/tasks/tasks.service.ts:139-152 | remove shifts nothing, so it can leave a dense column with a gap |
| `TaskOrdering.Relocated` | task-management-system/api/src/app/tasks/tasks.service.ts:154-217 | the moved task takes (target, to); every other row changes at most in its orderIndex; rows outside both columns are unchanged |
| `TaskOrdering.RelocateToSamePlace` | task-management-system/api/src/app/tasks/tasks.service.ts:187-214 | moving a task to its own status and index changes nothing |
| `TaskOrdering.RelocateWithinColumnKeepsDense` | task-management-system/api/src/app/tasks/tasks.service.ts:187-214 | a same-column move to 0 <= to < n keeps the column dense |
| `TaskOrdering.RelocateAcrossKeepsOldColumnDense` | task-management-system/api/src/app/tasks/tasks.service.ts:178-186 | across columns the old column loses one row and stays dense |
| `TaskOrdering.RelocateAcrossKeepsNewColumnDense` | task-management-system/api/src/app/tasks/tasks.service.ts:178-186 | across columns, with 0 <= to <= n, the new column gains one row and stays dense |
| `TaskOrdering.RelocateAcrossColumnsKeepsDense` | task-management-system/api/src/app/tasks/tasks.service.ts:178-186 | both columns stay dense; the old shrinks by one and the new grows by one |
| `TaskOrdering.RelocateKeepsOtherColumns` | task-management-system/api/src/app/tasks/tasks.service.ts:154-217 | every other column keeps its density |
| `TaskOrdering.RelocatePreservesSiblingOrder` | task-management-system/api/src/app/tasks/tasks.service.ts:178-214 | two siblings of the moved task keep their relative order |
| `TasksApi.Position` | task-management-system/api/src/app/tasks/tasks.service.ts:84-95 | the position holds that id; none exists iff no row has the id |
| `TasksApi.CrossColumnMoveIsRelocation` | task-management-system/api/src/app/tasks/tasks.service.ts:178-186 | shift-down of the old column above the old index, then shift-up of the new column from the new index, then the save, is exactly Relocated |
| `TasksApi.SameColumnMoveIsRelocation` | task-management-system/api/src/app/tasks/tasks.service.ts:187-214 | +1 over [new, old) or -1 over (old, new], then the save, is exactly Relocated |
| `TasksApi.Patched` | task-management-system/api/src/app/tasks/tasks.service.ts:101-121 | an update never changes the id, owner or organization |
| `TasksApi.DiffOf` | task-management-system/api/src/app/tasks/tasks.service.ts:101-134 | the diff is empty iff the task is unchanged |
| `TasksApi.EmptyUpdateIsSilent` | task-management-system/api/src/app/tasks/tasks.service.ts:101-134 | an update supplying no field, or only current values, leaves the task unchanged with an empty diff |
| `TasksApi.RemoveDropsOneIndex` | task-management-system/api/src/app/tasks/tasks.service.ts:139-152 | remove takes exactly the removed index out of its column; the other indices are unchanged |
| `TasksApi.RemoveKeepsIds` | task-management-system/api/src/app/tasks/tasks.service.ts:139-152 | deleting one row moves the later rows down one place and keeps the ids unique |
| `TasksApi.RemoveKeepsOtherColumnsDense` | task-management-system/api/src/app/tasks/tasks.service.ts:139-152 | remove keeps every other column dense |
| `TasksApi.ApplyChanges` | task-management-system/api/src/app/tasks/tasks.service.ts:101-121 | the field-by-field checks write exactly the supplied fields and records exactly the fields that differ |
| `TasksApi.TasksService.FindOne` | task-management-system/api/src/app/tasks/tasks.service.ts:84-95 | Ok iff a task has the id, and the result is that task; otherwise NotFound |
| `TasksApi.TasksService.Create` | task-management-system/api/src/app/tasks/tasks.service.ts:25-55 | status defaults to Todo; an explicit index is kept verbatim, otherwise MAX+1 (0 for an empty column); owner and organization come from the caller; the task is appended with one task.create record {title, status}; without an explicit index every dense column stays dense |
| `TasksApi.TasksService.Update` | task-management-system/api/src/app/tasks/tasks.service.ts:97-137 | NotFound with nothing changed for an unknown id; otherwise only that row becomes the patched task, and one task.update record carrying the diff is added iff the diff is non-empty |
| `TasksApi.TasksService.Remove` | task-management-system/api/src/app/tasks/tasks.service.ts:139-152 | NotFound with nothing changed for an unknown id; otherwise one task.delete record {title, status}, then only that row is deleted |
| `TasksApi.TasksService.BulkShift` | task-management-system/api/src/app/tasks/tasks.service.ts:191-210 | the loop applies ±delta to exactly the rows of the band |
| `TasksApi.TasksService.ShiftTasksDown` | task-management-system/api/src/app/tasks/tasks.service.ts:246-259 | every row of the column above fromIndex drops by one; nothing else changes |
| `TasksApi.TasksService.ShiftTasksUp` | task-management-system/api/src/app/tasks/tasks.service.ts:261-274 | every row of the column at or above fromIndex rises by one; nothing else changes |
| `TasksApi.TasksService.Reorder` | task-management-system/api/src/app/tasks/tasks.service.ts:154-217 | NotFound for an unknown id; Forbidden with no shift when out of scope; otherwise the table becomes Relocated to (newStatus ?? status, newOrderIndex) and the moved task is returned |
| `TasksApi.TasksService.Move` | task-management-system/api/src/app/tasks/tasks.service.ts:176-216 | the shifts and the save compute exactly Relocated |
| `TasksApi.RelocatedKeepsIds` | task-management-system/api/src/app/tasks/tasks.service.ts:176-216 | reorder changes statuses and indices but keeps every row's id, so ids stay unique |
| `TasksApi.TasksService.CheckTaskAccess` | task-management-system/api/src/app/tasks/tasks.service.ts:219-230 | NotFound for an unknown task; otherwise checkOrgAccess on the task's organization |
| `Audit.TrimStart` | task-management-system/api/src/app/audit/audit.service.ts:52 | removes a whitespace prefix only, and the result does not start with whitespace |
| `Audit.TrimEnd` | task-management-system/api/src/app/audit/audit.service.ts:52 | removes a whitespace suffix only, and the result does not end with whitespace |
| `Audit.Trim` | task-management-system/api/src/app/audit/audit.service.ts:52 | the result is a slice of the input with only whitespace outside it, it has non-blank ends, and it is empty iff the input was all whitespace |
| `Audit.TrimBothEndsIsCut` | task-management-system/api/src/app/audit/audit.service.ts:52 | dropping leading and then trailing whitespace leaves one slice of the input, empty iff the input was all whitespace |
| `Audit.TrimOfTrimmed` | task-management-system/api/src/app/audit/audit.service.ts:52 | trim is the identity on a string with non-blank ends |
| `Audit.Split` | task-management-system/api/src/app/audit/audit.service.ts:53 | at least one piece, no piece holds a newline, and joining the pieces with "\n" gives the input back |
| `Audit.SplitJoin` | task-management-system/api/src/app/audit/audit.service.ts:53 | splitting newline-free lines joined with "\n" gives them back |
| `Audit.NonBlank` | task-management-system/api/src/app/audit/audit.service.ts:54 | keeps exactly the non-empty lines |
| `Audit.NonBlankAppend` | task-management-system/api/src/app/audit/audit.service.ts:54 | dropping blank lines distributes over concatenation, so the lines kept keep their order and multiplicity |
| `Audit.NonBlankSingle` | task-management-system/api/src/app/audit/audit.service.ts:54 | a single line is kept iff it is non-empty |
| `Audit.ParseAll` | task-management-system/api/src/app/audit/audit.service.ts:56-64 | every entry kept comes from a line that parses to it, and every line that parses to a value has that value kept; lines that throw or parse to null are dropped |
| `Audit.ParseAllAppend` | task-management-system/api/src/app/audit/audit.service.ts:56-64 | parsing distributes over concatenation, so the entries kept stay in file order |
| `Audit.ParseAllSingle` | task-management-system/api/src/app/audit/audit.service.ts:56-64 | a single line yields its value when it parses to one, and nothing when parsing throws or gives null |
| `Audit.SliceFrom` | task-management-system/api/src/app/audit/audit.service.ts:67 | JavaScript `slice(start)`: a suffix of the length given by the negative or clamped start |
| `Audit.Reverse` | task-management-system/api/src/app/audit/audit.service.ts:67 | the same entries in reverse order |
| `Audit.RecentFirstTakesNewest` | task-management-system/api/src/app/audit/audit.service.ts:67 | with limit >= 1: the newest min(limit, n) entries, newest first |
| `Audit.LimitZeroReturnsAll` | task-management-system/api/src/app/audit/audit.service.ts:67 | limit 0 returns every entry reversed (`slice(-0)` is `slice(0)`) |
| `Audit.NegativeLimitDropsOldest` | task-management-system/api/src/app/audit/audit.service.ts:67 | a negative limit drops the oldest -limit entries |
| `Audit.RecentFirstKeeps` | task-management-system/api/src/app/audit/audit.service.ts:67 | whatever the limit, every entry returned is one of the entries read |
| `Audit.ReadText` | task-management-system/api/src/app/audit/audit.service.ts:51-67 | for limit >= 1, a readable file yields the newest min(limit, n) of its parsed non-blank lines, newest first |
| `Audit.RecentLogs` | task-management-system/api/src/app/audit/audit.service.ts:48-74 | ENOENT reads as no entries; any other read error is rethrown; a readable file yields, for limit >= 1, the newest min(limit, n) of its parsed non-blank lines, newest first |
| `Audit.ReadEntriesComeFromLines` | task-management-system/api/src/app/audit/audit.service.ts:51-64 | every entry read comes from a non-empty line of the file that parses to it |
| `Audit.LogSnoc` | task-management-system/api/src/app/audit/audit.service.ts:39-42 | recording one more entry appends its line to the file |
| `Audit.LogParsesBack` | task-management-system/api/src/app/audit/audit.service.ts:39-64 | the lines of a non-empty log parse back to the recorded entries, in order |
| `Audit.RecordedLogReadsBack` | task-management-system/api/src/app/audit/audit.service.ts:23-74 | reading a log written by record gives the last `limit` recorded entries, newest first |
| `Audit.RecordedEntries` | task-management-system/api/src/app/audit/audit.service.ts:51-64 | exactly the recorded entries among a file's lines |
| `Audit.JunkContributesNothing` | task-management-system/api/src/app/audit/audit.service.ts:51-64 | blank and unparseable lines contribute nothing; recorded lines give their entries back, in file order |
| `Audit.FileLinesSplitBack` | task-management-system/api/src/app/audit/audit.service.ts:51-53 | a file that starts and ends with a recorded line trims and splits back into its lines |
| `Audit.JunkLinesSkipped` | task-management-system/api/src/app/audit/audit.service.ts:48-67 | reading a file whose first and last lines are recorded, with blank or unparseable lines anywhere between, gives the last `limit` recorded entries, newest first |
| `Audit.AuditService.Record` | task-management-system/api/src/app/audit/audit.service.ts:23-46 | builds the entry from the given fields with meta defaulting to {}; a successful write appends its line; a failed write is swallowed and leaves the file as it was |
| `Audit.AuditService.ReadRecentLogs` | task-management-system/api/src/app/audit/audit.service.ts:48-74 | a missing file gives no entries; another read error is rethrown; otherwise the last `limit` recorded entries, newest first |
| `DashboardTasks.FirstIndex` | task-management-system/apps/dashboard/src/app/services/tasks.service.ts:78 | the first index holding the id; none iff no cached task has the id |
| `DashboardTasks.Without` | task-management-system/apps/dashboard/src/app/services/tasks.service.ts:104 | keeps exactly the tasks with another id |
| `DashboardTasks.WithoutAppend` | task-management-system/apps/dashboard/src/app/services/tasks.service.ts:104 | filtering distributes over concatenation, so the kept tasks keep their relative order |
| `DashboardTasks.WithoutAbsent` | task-management-system/apps/dashboard/src/app/services/tasks.service.ts:100-107 | removing an absent id leaves the cache as it is |
| `DashboardTasks.ReorderLeavesSiblingsStale` | task-management-system/apps/dashboard/src/app/services/tasks.service.ts:87-98 | after a reorder, the cache refreshes only the moved task, so siblings the server shifted keep stale indices |
| `DashboardTasks.FirstIndexIsFirstMatch` | task-management-system/apps/dashboard/src/app/services/tasks.service.ts:78 | the first matching index is the one FirstIndex finds |
| `DashboardTasks.TasksService.OnList` | task-management-system/apps/dashboard/src/app/services/tasks.service.ts:59-63 | the server list replaces the cache and is emitted |
| `DashboardTasks.TasksService.OnCreate` | task-management-system/apps/dashboard/src/app/services/tasks.service.ts:65-72 | the created task is appended after the cached ones, which keep their order |
| `DashboardTasks.TasksService.FindIndex` | task-management-system/apps/dashboard/src/app/services/tasks.service.ts:78 | -1 iff no cached task has the id; otherwise the first index holding it |
| `DashboardTasks.TasksService.OnUpdated` | task-management-system/apps/dashboard/src/app/services/tasks.service.ts:74-98 | only the first cached task with the id is replaced; with none, the cache is unchanged and nothing is emitted |
| `DashboardTasks.TasksService.OnRemove` | task-management-system/apps/dashboard/src/app/services/tasks.service.ts:100-107 | every cached task with the id is dropped |
| `DashboardTasks.TasksService.GetCurrentTasks` | task-management-system/apps/dashboard/src/app/services/tasks.service.ts:111-113 | returns the cache unchanged |
| `TaskBoard.ToLower` | task-management-system/apps/dashboard/src/app/components/task-board/task-board.component.ts:74-78 | lowercasing keeps the length |
| `TaskBoard.IncludesIff` | task-management-system/apps/dashboard/src/app/components/task-board/task-board.component.ts:77-78 | `includes` holds iff the query occurs at some position |
| `TaskBoard.Searched` | task-management-system/apps/dashboard/src/app/components/task-board/task-board.component.ts:73-80 | keeps exactly the tasks whose lowercased title or description contains the lowercased query, and no extra copies |
| `TaskBoard.InCategory` | task-management-system/apps/dashboard/src/app/components/task-board/task-board.component.ts:82-84 | keeps exactly the tasks whose category equals the filter |
| `TaskBoard.Filtered` | task-management-system/apps/dashboard/src/app/components/task-board/task-board.component.ts:71-84 | each filter applies only when non-empty; a task is kept iff it is in the input and passes both |
| `TaskBoard.OfStatus` | task-management-system/apps/dashboard/src/app/components/task-board/task-board.component.ts:87 | keeps only tasks of the status, and every task of the status |
| `TaskBoard.StatusesPartition` | task-management-system/apps/dashboard/src/app/components/task-board/task-board.component.ts:86-96 | the three status filters together hold each task exactly as often as the input does |
| `TaskBoard.Insert` | task-management-system/apps/dashboard/src/app/components/task-board/task-board.component.ts:88 | inserting adds exactly that one task |
| `TaskBoard.InsertKeepsSorted` | task-management-system/apps/dashboard/src/app/components/task-board/task-board.component.ts:88 | inserting into a sorted list keeps it sorted by orderIndex |
| `TaskBoard.InsertKeepsLowerBound` | task-management-system/apps/dashboard/src/app/components/task-board/task-board.component.ts:88 | inserting a task no lower than a bound among tasks no lower than it keeps all of them no lower than it |
| `TaskBoard.SortByOrder` | task-management-system/apps/dashboard/src/app/components/task-board/task-board.component.ts:88 | sorted ascending by orderIndex, and a permutation of the input |
| `TaskBoard.Column` | task-management-system/apps/dashboard/src/app/components/task-board/task-board.component.ts:86-96 | a column is sorted by orderIndex, holds only its status, and is a permutation of the filtered tasks of that status |
| `TaskBoard.ColumnsHoldAllTasks` | task-management-system/apps/dashboard/src/app/components/task-board/task-board.component.ts:71-96 | with no search and no category filter, the three columns together hold exactly the input tasks |
| `TaskBoard.CategoryFilterIsExact` | task-management-system/apps/dashboard/src/app/components/task-board/task-board.component.ts:82-84 | the category filter alone keeps exactly the tasks of that category |
| `TaskBoard.CollectCategories` | task-management-system/apps/dashboard/src/app/components/task-board/task-board.component.ts:98 | adds each non-empty category of the tasks that is not yet listed, and no duplicates |
| `TaskBoard.Categories` | task-management-system/apps/dashboard/src/app/components/task-board/task-board.component.ts:98 | exactly the distinct non-empty categories of the unfiltered tasks |
| `TaskBoard.TaskBoardComponent.InitPermissions` | task-management-system/apps/dashboard/src/app/components/task-board/task-board.component.ts:41-44 | the role is the user's, or '' with no user; canEdit holds iff the role is 'Owner' or 'Admin' |
| `TaskBoard.TaskBoardComponent.UpdateTaskColumns` | task-management-system/apps/dashboard/src/app/components/task-board/task-board.component.ts:70-99 | the three columns are the filtered, status-split, sorted tasks, and the categories come from the unfiltered tasks |
| `TaskBoard.TaskBoardComponent.FillColumns` | task-management-system/apps/dashboard/src/app/components/task-board/task-board.component.ts:86-96 | the three column assignments |
| `TaskBoard.TaskBoardComponent.LoadTasks` | task-management-system/apps/dashboard/src/app/components/task-board/task-board.component.ts:53-55 | the board is marked loading and the error message is cleared |
| `TaskBoard.TaskBoardComponent.OnTasksLoaded` | task-management-system/apps/dashboard/src/app/components/task-board/task-board.component.ts:58-61 | the columns are recomputed and loading ends |
| `TaskBoard.TaskBoardComponent.OnLoadFailed` | task-management-system/apps/dashboard/src/app/components/task-board/task-board.component.ts:62-66 | the load-failure message is shown and loading ends |
| `TaskBoard.TaskBoardComponent.OnDrop` | task-management-system/apps/dashboard/src/app/components/task-board/task-board.component.ts:101-162 | nothing is sent when the user cannot edit, a request is in flight, or the drop is onto the same place; otherwise the board is marked saving and sends newOrderIndex = currentIndex, with newStatus only for a cross-column drop |
| `TaskBoard.TaskBoardComponent.OnDropSettled` | task-management-system/apps/dashboard/src/app/components/task-board/task-board.component.ts:122-134 | as written: saving ends and the board reloads, and the error message ends empty even after a failure |
| `TaskBoard.TaskBoardComponent.OnDropSettledKeepingError` | task-management-system/apps/dashboard/src/app/components/task-board/task-board.component.ts:147-159 | corrected: after a failure, the reorder or move message is still shown while the board reloads |
| `TaskBoard.TaskBoardComponent.OnSaveTask` | task-management-system/apps/dashboard/src/app/components/task-board/task-board.component.ts:179-184 | nothing is sent while a request is in flight; otherwise the board is marked saving and the create or update is sent |
| `TaskBoard.TaskBoardComponent.OnSaveSettled` | task-management-system/apps/dashboard/src/app/components/task-board/task-board.component.ts:186-212 | success closes the editor and reloads; a failure shows the update or create message and keeps the editor open |
| `TaskBoard.TaskBoardComponent.OnDeleteTask` | task-management-system/apps/dashboard/src/app/components/task-board/task-board.component.ts:216-222 | nothing is sent while a request is in flight; otherwise the board is marked saving and the delete is sent |
| `TaskBoard.TaskBoardComponent.OnDeleteSettled` | task-management-system/apps/dashboard/src/app/components/task-board/task-board.component.ts:222-235 | as written: saving ends and the board reloads, and the error message ends empty even after a failure |
| `TaskBoard.TaskBoardComponent.OnDeleteSettledKeepingError` | task-management-system/apps/dashboard/src/app/components/task-board/task-board.component.ts:228-234 | corrected: after a failure, the delete message is still shown while the board reloads |

## Left out

- **Persistence.** The TypeORM repository, query builder and SQLite are replaced by in-memory `seq` tables, and ids come from a counter.
- **Concurrency.** Each service method is one sequential step. The code runs each shift as a separate query with no transaction; interleavings are not modelled.
- **HTTP and authentication.** The HTTP controllers, authentication, JWT and password hashing are outside the model. The controller's call of `checkTaskAccess` is outside it too: it passes an organization id where a task id is expected.
- **Library functions as parameters.** `JSON.stringify`, `JSON.parse`, `fs.appendFile`, `fs.readFile` and the clock are not modelled as code.
  - `stringify` and `parse` are function parameters. `LineCodec` states what the read-back proof assumes of them.
  - The file is an optional string, and a read or write failure is a parameter.
  - The timestamp is the `now` parameter.
- `Audit.AuditService.ReadRecentLogs`: the default `limit = 200` is not modelled; the caller always passes a limit.
- `Audit.AuditService.ReadRecentLogs`: the service object starts from an absent file, so its read-back promise covers files it wrote itself. Files with other contents are covered at the function level, by `Audit.RecentLogs` for any text and by `Audit.JunkLinesSkipped` for a log with foreign lines.
- `Audit.JunkLinesSkipped`: the file must start and end with a recorded line. Whitespace-only lines at either end interact with `trim` and are covered only by `Audit.RecentLogs`.
- `TaskBoard.ToLower`: lowercases ASCII letters only; full Unicode case mapping is not modelled.
- **Dashboard library calls.** The local `moveItemInArray` and `transferArrayItem` moves in `onDrop` are not modelled. Nor are RxJS subscriptions or the `tasks$` subscription in `ngOnInit`. Server responses arrive as separate `On…` methods.
- `DashboardTasks.TasksService.OnUpdated`: the in-place `current[index] = …` also mutates the array emitted before it. The model uses value sequences, so that aliasing is not captured.
- `TaskBoard.SortByOrder`: the sort is not stated to be stable; only ordering and permutation are proved.
- **Operations outside the core.** Tasks `findAll`/`findByOrganization` and organizations `findAll`/`remove` are not modelled, and neither are the editor open/close helpers or the search and filter change handlers of the board.
- **Update without shifting.** `TasksApi.TasksService.Update` writes `status` and `orderIndex` directly, exactly as the code does, so it can break the column invariant. No density claim is made across it.
- **Organization update and depth.** `Organizations.OrganizationsService.Update` can create a grandchild, so the two-level rule is not claimed across it (see `Organizations.UpdateCanCreateGrandchild`).

## Findings

| source | as written | input that shows it | evidently intended | confidence | as-written member | corrected member |
|---|---|---|---|---|---|---|
| task-management-system/apps/dashboard/src/app/components/task-board/task-board.component.ts:128-134 | after a failed reorder or move, the error callback sets its message and then calls `loadTasks`, whose first lines (54-55) clear it | a drop whose reorder request fails: `errorMessage` ends as '' | the failure message stays visible while the board reloads | not executed | `TaskBoard.TaskBoardComponent.OnDropSettled` | `TaskBoard.TaskBoardComponent.OnDropSettledKeepingError` |
| task-management-system/apps/dashboard/src/app/components/task-board/task-board.component.ts:228-234 | after a failed delete, the message is set and then cleared by the `loadTasks` call that follows | a delete whose request fails: `errorMessage` ends as '' | the failure message stays visible while the board reloads | not executed | `TaskBoard.TaskBoardComponent.OnDeleteSettled` | `TaskBoard.TaskBoardComponent.OnDeleteSettledKeepingError` |
