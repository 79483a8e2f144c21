/** The dashboard's task board: the filter / column / category pipeline that
    fills the three columns, the edit permission, and the request guards of
    drag-and-drop, save and delete (one request in flight at a time). */
module TaskBoard {
  import opened Domain
  import TasksApi

  // ---- Text matching (ASCII case folding) ----

  function LowerChar(c: char): char {
    if 'A' <= c <= 'Z' then (c as int + 32) as char else c
  }

  /** `toLowerCase()` on ASCII letters. */
  function ToLower(s: string): (r: string)
    ensures |r| == |s|
  {
    if s == [] then [] else [LowerChar(s[0])] + ToLower(s[1..])
  }

  predicate OccursAt(s: string, q: string, i: int) {
    0 <= i && i + |q| <= |s| && s[i..i + |q|] == q
  }

  /** `s.includes(q)` */
  function Includes(s: string, q: string): bool
    decreases |s|
  {
    if |q| > |s| then false
    else if s[..|q|] == q then true
    else Includes(s[1..], q)
  }

  /** Includes holds exactly when the query occurs at some position. */
  lemma {:induction false} IncludesIff(s: string, q: string)
    ensures Includes(s, q) <==> exists i :: OccursAt(s, q, i)
    decreases |s|
  {
    if |q| > |s| {
    } else if s[..|q|] == q {
      assert OccursAt(s, q, 0);
    } else {
      IncludesIff(s[1..], q);
      if Includes(s[1..], q) {
        var j :| OccursAt(s[1..], q, j);
        assert s[j + 1..j + 1 + |q|] == s[1..][j..j + |q|];
        assert OccursAt(s, q, j + 1);
      } else {
        forall i | OccursAt(s, q, i)
          ensures false
        {
          assert i != 0;
          assert s[1..][i - 1..i - 1 + |q|] == s[i..i + |q|];
          assert OccursAt(s[1..], q, i - 1);
        }
      }
    }
  }

  /** The search predicate: the lowercased title, or the lowercased
      description when there is one, contains the lowercased query. */
  predicate MatchesSearch(t: Task, query: string) {
    var q := ToLower(query);
    Includes(ToLower(t.title), q) || (t.description.Some? && Includes(ToLower(t.description.value), q))
  }

  // ---- The column pipeline ----

  /** Tasks that match a non-empty search query, in order. */
  function Searched(tasks: seq<Task>, query: string): (r: seq<Task>)
    ensures multiset(r) <= multiset(tasks)
    ensures forall t :: t in r <==> t in tasks && MatchesSearch(t, query)
  {
    if tasks == [] then []
    else
      assert tasks == [tasks[0]] + tasks[1..];
      if MatchesSearch(tasks[0], query) then [tasks[0]] + Searched(tasks[1..], query)
      else Searched(tasks[1..], query)
  }

  /** Tasks whose category equals the filter, in order. */
  function InCategory(tasks: seq<Task>, category: string): (r: seq<Task>)
    ensures multiset(r) <= multiset(tasks)
    ensures forall t :: t in r <==> t in tasks && t.category == Some(category)
  {
    if tasks == [] then []
    else
      assert tasks == [tasks[0]] + tasks[1..];
      if tasks[0].category == Some(category) then [tasks[0]] + InCategory(tasks[1..], category)
      else InCategory(tasks[1..], category)
  }

  /** The filtered list: the search applies when the query is non-empty, the
      category filter when it is non-empty. */
  function Filtered(tasks: seq<Task>, searchQuery: string, categoryFilter: string): (r: seq<Task>)
    ensures multiset(r) <= multiset(tasks)
    ensures forall t :: t in r <==>
      && t in tasks
      && (searchQuery == "" || MatchesSearch(t, searchQuery))
      && (categoryFilter == "" || t.category == Some(categoryFilter))
  {
    var searched := if searchQuery != "" then Searched(tasks, searchQuery) else tasks;
    if categoryFilter != "" then InCategory(searched, categoryFilter) else searched
  }

  /** Tasks of one status, in order. */
  function OfStatus(tasks: seq<Task>, st: TaskStatus): (r: seq<Task>)
    ensures forall t | t in r :: t.status == st
    ensures forall k | 0 <= k < |tasks| && tasks[k].status == st :: tasks[k] in r
  {
    if tasks == [] then []
    else if tasks[0].status == st then [tasks[0]] + OfStatus(tasks[1..], st)
    else OfStatus(tasks[1..], st)
  }

  /** The three status filters split a list: together they hold every task
      exactly as often as the list does. */
  lemma {:induction false} StatusesPartition(tasks: seq<Task>)
    ensures multiset(OfStatus(tasks, Todo)) + multiset(OfStatus(tasks, InProgress)) + multiset(OfStatus(tasks, Done))
            == multiset(tasks)
    decreases |tasks|
  {
    if tasks != [] {
      var t := tasks[0];
      StatusesPartition(tasks[1..]);
      assert tasks == [t] + tasks[1..];
      assert multiset(OfStatus(tasks, t.status)) == multiset{t} + multiset(OfStatus(tasks[1..], t.status));
      forall st | st != t.status
        ensures OfStatus(tasks, st) == OfStatus(tasks[1..], st)
      {
      }
    }
  }

  predicate SortedByOrder(s: seq<Task>) {
    forall i, j | 0 <= i < j < |s| :: s[i].orderIndex <= s[j].orderIndex
  }

  /** Inserts t after every element whose index is not larger. */
  function Insert(t: Task, s: seq<Task>): (r: seq<Task>)
    ensures multiset(r) == multiset(s) + multiset{t}
  {
    if s == [] then [t]
    else if t.orderIndex < s[0].orderIndex then [t] + s
    else
      assert s == [s[0]] + s[1..];
      [s[0]] + Insert(t, s[1..])
  }

  /** Inserting a task no lower than a bound into tasks no lower than it keeps
      every task no lower than it. */
  lemma InsertKeepsLowerBound(t: Task, s: seq<Task>, b: int)
    requires b <= t.orderIndex
    requires forall x | x in s :: b <= x.orderIndex
    ensures forall x | x in Insert(t, s) :: b <= x.orderIndex
  {
    var r := Insert(t, s);
    forall x | x in r
      ensures b <= x.orderIndex
    {
      assert x in multiset(r);
      if x != t {
        assert x in multiset(s);
      }
    }
  }

  lemma {:induction false} InsertKeepsSorted(t: Task, s: seq<Task>)
    requires SortedByOrder(s)
    ensures SortedByOrder(Insert(t, s))
    decreases |s|
  {
    if s != [] && t.orderIndex >= s[0].orderIndex {
      var rest := Insert(t, s[1..]);
      InsertKeepsSorted(t, s[1..]);
      InsertKeepsLowerBound(t, s[1..], s[0].orderIndex);
      var r := [s[0]] + rest;
      forall i, j | 0 <= i < j < |r|
        ensures r[i].orderIndex <= r[j].orderIndex
      {
        if i == 0 {
          assert r[j] in rest;
        } else {
          assert r[i] == rest[i - 1] && r[j] == rest[j - 1];
        }
      }
    }
  }

  /** `.sort((a, b) => a.orderIndex - b.orderIndex)`: ascending by index and a
      permutation of its input. */
  function SortByOrder(s: seq<Task>): (r: seq<Task>)
    ensures SortedByOrder(r)
    ensures multiset(r) == multiset(s)
  {
    if s == [] then []
    else
      assert s == s[..|s| - 1] + [s[|s| - 1]];
      var sorted := SortByOrder(s[..|s| - 1]);
      InsertKeepsSorted(s[|s| - 1], sorted);
      Insert(s[|s| - 1], sorted)
  }

  /** One board column: the filtered tasks of that status, sorted by index. */
  function Column(tasks: seq<Task>, searchQuery: string, categoryFilter: string, st: TaskStatus): (r: seq<Task>)
    ensures SortedByOrder(r)
    ensures forall t | t in r :: t.status == st
    ensures multiset(r) == multiset(OfStatus(Filtered(tasks, searchQuery, categoryFilter), st))
  {
    var picked := OfStatus(Filtered(tasks, searchQuery, categoryFilter), st);
    var r := SortByOrder(picked);
    assert forall t | t in r :: t in picked by {
      forall t | t in r
        ensures t in picked
      {
        assert t in multiset(r);
      }
    }
    r
  }

  /** With no search and no category filter, the three columns together hold
      exactly the input tasks. */
  lemma ColumnsHoldAllTasks(tasks: seq<Task>)
    ensures multiset(Column(tasks, "", "", Todo)) + multiset(Column(tasks, "", "", InProgress))
            + multiset(Column(tasks, "", "", Done)) == multiset(tasks)
  {
    assert Filtered(tasks, "", "") == tasks;
    StatusesPartition(tasks);
  }

  /** The category filter alone keeps exactly the tasks of that category. */
  lemma CategoryFilterIsExact(tasks: seq<Task>, category: string, t: Task)
    requires category != ""
    ensures t in Filtered(tasks, "", category) <==> t in tasks && t.category == Some(category)
  {
  }

  // ---- Categories ----

  predicate DistinctStrings(s: seq<string>) {
    forall i, j | 0 <= i < j < |s| :: s[i] != s[j]
  }

  /** Some task of the list has category c. */
  predicate HasCategory(tasks: seq<Task>, c: string) {
    tasks != [] && (tasks[0].category == Some(c) || HasCategory(tasks[1..], c))
  }

  /** Adds, in order of first occurrence, each non-empty category not yet seen. */
  function CollectCategories(tasks: seq<Task>, seen: seq<string>): (r: seq<string>)
    ensures DistinctStrings(seen) ==> DistinctStrings(r)
    ensures forall c :: c in r <==> c in seen || (c != "" && HasCategory(tasks, c))
    decreases |tasks|
  {
    if tasks == [] then seen
    else
      var next := match tasks[0].category
        case Some(c) => if c != "" && c !in seen then seen + [c] else seen
        case None => seen;
      CollectCategories(tasks[1..], next)
  }

  /** `[...new Set(tasks.map(t => t.category).filter(c => !!c))]` */
  function Categories(tasks: seq<Task>): (r: seq<string>)
    ensures DistinctStrings(r)
    ensures forall c :: c in r <==> c != "" && HasCategory(tasks, c)
  {
    CollectCategories(tasks, [])
  }

  // ---- The component ----

  /** The reorder call a drop sends. */
  datatype ReorderRequest = ReorderRequest(taskId: int, newOrderIndex: int, newStatus: Option<TaskStatus>)

  /** What the editor hands to onSaveTask: a new task, or an id and changes. */
  datatype SaveData = CreateData(create: TasksApi.CreateTaskDto) | UpdateData(id: int, update: TasksApi.UpdateTaskDto)

  const ReorderFailed: string := "Failed to reorder task. Reloading..."
  const MoveFailed: string := "Failed to move task. Reloading..."
  const UpdateFailed: string := "Failed to update task. Please try again."
  const CreateFailed: string := "Failed to create task. Please try again."
  const DeleteFailed: string := "Failed to delete task. Please try again."
  const LoadFailed: string := "Failed to load tasks. Please try again."

  class TaskBoardComponent {
    var todoTasks: seq<Task>
    var inProgressTasks: seq<Task>
    var doneTasks: seq<Task>
    var searchQuery: string
    var categoryFilter: string
    var categories: seq<string>
    var isEditorOpen: bool
    var editingTask: Option<Task>
    var isLoading: bool
    var isSaving: bool
    var errorMessage: string
    var canEdit: bool
    var currentUserRole: string

    constructor ()
      ensures todoTasks == [] && inProgressTasks == [] && doneTasks == []
      ensures searchQuery == "" && categoryFilter == "" && categories == []
      ensures !isEditorOpen && editingTask.None? && isLoading && !isSaving && errorMessage == ""
      ensures !canEdit && currentUserRole == ""
    {
      todoTasks, inProgressTasks, doneTasks := [], [], [];
      searchQuery, categoryFilter, categories := "", "", [];
      isEditorOpen, editingTask := false, None;
      isLoading, isSaving, errorMessage := true, false, "";
      canEdit, currentUserRole := false, "";
    }

    /** The permission part of ngOnInit: the role of the logged-in user (or
        '' when there is none) and whether it may edit. */
    method InitPermissions(userRole: Option<string>)
      modifies this
      ensures currentUserRole == userRole.GetOr("")
      ensures canEdit <==> currentUserRole == "Owner" || currentUserRole == "Admin"
      ensures canEdit ==> userRole.Some?
      ensures isSaving == old(isSaving) && errorMessage == old(errorMessage)
    {
      currentUserRole := if userRole.Some? then userRole.value else "";
      canEdit := currentUserRole == "Owner" || currentUserRole == "Admin";
    }

    /** updateTaskColumns: fills the three columns from the filtered tasks and
        the category list from the unfiltered ones. */
    method UpdateTaskColumns(tasks: seq<Task>)
      modifies this`todoTasks, this`inProgressTasks, this`doneTasks, this`categories
      ensures todoTasks == Column(tasks, searchQuery, categoryFilter, Todo)
      ensures inProgressTasks == Column(tasks, searchQuery, categoryFilter, InProgress)
      ensures doneTasks == Column(tasks, searchQuery, categoryFilter, Done)
      ensures categories == Categories(tasks)
    {
      FillColumns(tasks);
      categories := Categories(tasks);
    }

    /** The three column assignments of updateTaskColumns. */
    method FillColumns(tasks: seq<Task>)
      modifies this`todoTasks, this`inProgressTasks, this`doneTasks
      ensures todoTasks == Column(tasks, searchQuery, categoryFilter, Todo)
      ensures inProgressTasks == Column(tasks, searchQuery, categoryFilter, InProgress)
      ensures doneTasks == Column(tasks, searchQuery, categoryFilter, Done)
    {
      todoTasks := Column(tasks, searchQuery, categoryFilter, Todo);
      inProgressTasks := Column(tasks, searchQuery, categoryFilter, InProgress);
      doneTasks := Column(tasks, searchQuery, categoryFilter, Done);
    }

    /** The synchronous part of loadTasks: the board is marked loading and the
        error message is cleared before the list request goes out. */
    method LoadTasks()
      modifies this`isLoading, this`errorMessage
      ensures isLoading && errorMessage == ""
    {
      isLoading := true;
      errorMessage := "";
    }

    /** The list response of loadTasks. */
    method OnTasksLoaded(tasks: seq<Task>)
      modifies this`todoTasks, this`inProgressTasks, this`doneTasks, this`categories, this`isLoading
      ensures todoTasks == Column(tasks, searchQuery, categoryFilter, Todo)
      ensures inProgressTasks == Column(tasks, searchQuery, categoryFilter, InProgress)
      ensures doneTasks == Column(tasks, searchQuery, categoryFilter, Done)
      ensures categories == Categories(tasks)
      ensures !isLoading
    {
      UpdateTaskColumns(tasks);
      isLoading := false;
    }

    /** The error path of loadTasks. */
    method OnLoadFailed()
      modifies this`isLoading, this`errorMessage
      ensures !isLoading && errorMessage == LoadFailed
    {
      errorMessage := LoadFailed;
      isLoading := false;
    }

    /** onDrop: refuses when the user may not edit or a request is in flight,
        ignores a drop back onto the same place, and otherwise marks the board
        saving and sends the task's new index (the drop position), with the
        target status only for a drop into another column. */
    method OnDrop(task: Task, sameContainer: bool, previousIndex: int, currentIndex: int,
                  newStatus: TaskStatus) returns (request: Option<ReorderRequest>)
      modifies this
      ensures !old(canEdit) || old(isSaving) || (sameContainer && previousIndex == currentIndex) ==>
        request.None? && isSaving == old(isSaving) && errorMessage == old(errorMessage)
      ensures old(canEdit) && !old(isSaving) && !(sameContainer && previousIndex == currentIndex) ==>
        && request == Some(ReorderRequest(task.id, currentIndex, if sameContainer then None else Some(newStatus)))
        && isSaving && errorMessage == ""
      ensures request.Some? ==> !old(isSaving)
      ensures canEdit == old(canEdit) && isLoading == old(isLoading)
    {
      if !canEdit || isSaving {
        return None;
      }
      if sameContainer && previousIndex == currentIndex {
        return None;
      }
      isSaving := true;
      errorMessage := "";
      if sameContainer {
        request := Some(ReorderRequest(task.id, currentIndex, None));
      } else {
        request := Some(ReorderRequest(task.id, currentIndex, Some(newStatus)));
      }
    }

    /** The reorder response of onDrop, as written: saving ends, a failure
        sets its message, and loadTasks then runs — which clears the message
        it has just been given. */
    method OnDropSettled(succeeded: bool, sameContainer: bool)
      modifies this
      ensures !isSaving && isLoading
      ensures errorMessage == ""
      ensures canEdit == old(canEdit)
    {
      isSaving := false;
      if !succeeded {
        errorMessage := if sameContainer then ReorderFailed else MoveFailed;
      }
      LoadTasks();
    }

    /** The reorder response with the evident intent: the failure message
        stays visible while the board reloads. */
    method OnDropSettledKeepingError(succeeded: bool, sameContainer: bool)
      modifies this
      ensures !isSaving && isLoading
      ensures succeeded ==> errorMessage == ""
      ensures !succeeded ==> errorMessage == (if sameContainer then ReorderFailed else MoveFailed)
      ensures canEdit == old(canEdit)
    {
      isSaving := false;
      LoadTasks();
      if !succeeded {
        errorMessage := if sameContainer then ReorderFailed else MoveFailed;
      }
    }

    /** onSaveTask: refuses while a request is in flight, otherwise marks the
        board saving and sends the create or update. */
    method OnSaveTask(data: SaveData) returns (request: Option<SaveData>)
      modifies this
      ensures old(isSaving) ==> request.None? && isSaving && errorMessage == old(errorMessage)
      ensures !old(isSaving) ==> request == Some(data) && isSaving && errorMessage == ""
      ensures canEdit == old(canEdit) && isEditorOpen == old(isEditorOpen)
    {
      if isSaving {
        return None;
      }
      isSaving := true;
      errorMessage := "";
      request := Some(data);
    }

    /** The save response: success closes the editor and reloads; failure
        reports which request failed and keeps the editor open. */
    method OnSaveSettled(succeeded: bool, wasUpdate: bool)
      modifies this
      ensures !isSaving
      ensures succeeded ==> !isEditorOpen && editingTask.None? && isLoading && errorMessage == ""
      ensures !succeeded ==> errorMessage == (if wasUpdate then UpdateFailed else CreateFailed)
                             && isEditorOpen == old(isEditorOpen) && isLoading == old(isLoading)
    {
      if succeeded {
        isSaving := false;
        isEditorOpen := false;
        editingTask := None;
        LoadTasks();
      } else {
        errorMessage := if wasUpdate then UpdateFailed else CreateFailed;
        isSaving := false;
      }
    }

    /** onDeleteTask: refuses while a request is in flight, otherwise marks the
        board saving and sends the delete. */
    method OnDeleteTask(id: int) returns (request: Option<int>)
      modifies this
      ensures old(isSaving) ==> request.None? && isSaving && errorMessage == old(errorMessage)
      ensures !old(isSaving) ==> request == Some(id) && isSaving && errorMessage == ""
      ensures canEdit == old(canEdit)
    {
      if isSaving {
        return None;
      }
      isSaving := true;
      errorMessage := "";
      request := Some(id);
    }

    /** The delete response, as written: like a drop, a failure's message is
        cleared by the reload that follows it. */
    method OnDeleteSettled(succeeded: bool)
      modifies this
      ensures !isSaving && isLoading && errorMessage == ""
      ensures canEdit == old(canEdit)
    {
      isSaving := false;
      if !succeeded {
        errorMessage := DeleteFailed;
      }
      LoadTasks();
    }

    /** The delete response with the evident intent: the failure message stays
        visible while the board reloads. */
    method OnDeleteSettledKeepingError(succeeded: bool)
      modifies this
      ensures !isSaving && isLoading
      ensures errorMessage == (if succeeded then "" else DeleteFailed)
      ensures canEdit == old(canEdit)
    {
      isSaving := false;
      LoadTasks();
      if !succeeded {
        errorMessage := DeleteFailed;
      }
    }
  }
}
