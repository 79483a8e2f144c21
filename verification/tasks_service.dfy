/** The API task service: the tasks table with its per-column orderIndex,
    create / update / remove / reorder, and the access check on a task. Every
    bulk `UPDATE ... SET orderIndex = orderIndex +/- 1 WHERE ...` is a loop over
    the table. Audit records are the calls handed to the audit sink. */
module TasksApi {
  import opened Domain
  import opened TaskOrdering
  import Organizations

  datatype CreateTaskDto = CreateTaskDto(
    title: string,
    description: Option<string>,
    category: Option<string>,
    status: Option<TaskStatus>,
    orderIndex: Option<int>)

  /** Every field optional; an absent field is `undefined`. */
  datatype UpdateTaskDto = UpdateTaskDto(
    title: Option<string>,
    description: Option<string>,
    category: Option<string>,
    status: Option<TaskStatus>,
    orderIndex: Option<int>)

  datatype ReorderTaskDto = ReorderTaskDto(newOrderIndex: int, newStatus: Option<TaskStatus>)

  predicate UniqueIds(rows: seq<Task>) {
    forall i, j | 0 <= i < |rows| && 0 <= j < |rows| && i != j :: rows[i].id != rows[j].id
  }

  /** Position of the row with the given id (the first one, if several). */
  function Position(rows: seq<Task>, id: int): (r: Option<nat>)
    ensures r.Some? ==> r.value < |rows| && rows[r.value].id == id
    ensures r.None? <==> forall k | 0 <= k < |rows| :: rows[k].id != id
  {
    if rows == [] then None
    else if rows[0].id == id then Some(0)
    else match Position(rows[1..], id)
      case None => None
      case Some(k) => Some(k + 1)
  }

  /** The WHERE clause of a bulk shift: organizationId = org AND status = st
      AND orderIndex >= lo [AND orderIndex < hi]. On integers `> x` is `>= x + 1`
      and `<= x` is `< x + 1`. */
  predicate InBand(t: Task, org: int, st: TaskStatus, lo: int, hi: Option<int>) {
    InColumn(t, org, st) && lo <= t.orderIndex && (hi.None? || t.orderIndex < hi.value)
  }

  function ShiftRow(t: Task, org: int, st: TaskStatus, lo: int, hi: Option<int>, delta: int): Task {
    if InBand(t, org, st, lo, hi) then t.(orderIndex := t.orderIndex + delta) else t
  }

  /** The table after one bulk shift. */
  function ShiftAll(rows: seq<Task>, org: int, st: TaskStatus, lo: int, hi: Option<int>, delta: int): seq<Task> {
    seq(|rows|, i requires 0 <= i < |rows| => ShiftRow(rows[i], org, st, lo, hi, delta))
  }

  /** A cross-column move (close the gap in the old column above the task, open
      one at `to` in the new column, write the task) is the relocation. */
  /** Deleting one row shifts the later rows down by one place and keeps the
      remaining ids unique. */
  lemma RemoveKeepsIds(rows: seq<Task>, m: nat)
    requires m < |rows|
    ensures var r := rows[..m] + rows[m + 1..];
            && |r| == |rows| - 1
            && (forall k | 0 <= k < |r| :: r[k] == rows[if k < m then k else k + 1])
            && (UniqueIds(rows) ==> UniqueIds(r))
  {
    var r := rows[..m] + rows[m + 1..];
    forall k | 0 <= k < |r| ensures r[k] == rows[if k < m then k else k + 1] {
      if k >= m {
        assert r[k] == rows[m + 1..][k - m];
      }
    }
  }

  /** A relocation renumbers and moves rows but keeps every row's id, so the
      ids stay unique. */
  lemma RelocatedKeepsIds(rows: seq<Task>, m: nat, target: TaskStatus, to: int)
    requires m < |rows|
    ensures var r := Relocated(rows, m, target, to);
            && (forall k | 0 <= k < |rows| :: r[k].id == rows[k].id)
            && (UniqueIds(rows) ==> UniqueIds(r))
  {
    var r := Relocated(rows, m, target, to);
    forall k | 0 <= k < |rows| ensures r[k].id == rows[k].id {
      if k != m {
        assert r[k].(orderIndex := rows[k].orderIndex) == rows[k];
      }
    }
  }

  lemma {:induction false} CrossColumnMoveIsRelocation(rows: seq<Task>, m: nat, target: TaskStatus, to: int)
    requires m < |rows| && target != rows[m].status
    ensures var t := rows[m];
            var down := ShiftAll(rows, t.organizationId, t.status, t.orderIndex + 1, None, -1);
            var up := ShiftAll(down, t.organizationId, target, to, None, 1);
            up[m := t.(status := target, orderIndex := to)] == Relocated(rows, m, target, to)
  {
    var t := rows[m];
    var down := ShiftAll(rows, t.organizationId, t.status, t.orderIndex + 1, None, -1);
    var up := ShiftAll(down, t.organizationId, target, to, None, 1);
    var r := up[m := t.(status := target, orderIndex := to)];
    var spec := Relocated(rows, m, target, to);
    forall i | 0 <= i < |rows|
      ensures r[i] == spec[i]
    {
      if i != m {
        assert down[i] == ShiftRow(rows[i], t.organizationId, t.status, t.orderIndex + 1, None, -1);
        assert r[i] == ShiftRow(down[i], t.organizationId, target, to, None, 1);
      }
    }
  }

  /** A move within one column (shift the band between the two positions by
      one towards the old position, write the task) is the relocation. */
  lemma {:induction false} SameColumnMoveIsRelocation(rows: seq<Task>, m: nat, to: int)
    requires m < |rows|
    ensures var t := rows[m];
            var shifted :=
              if to < t.orderIndex then ShiftAll(rows, t.organizationId, t.status, to, Some(t.orderIndex), 1)
              else if to > t.orderIndex then ShiftAll(rows, t.organizationId, t.status, t.orderIndex + 1, Some(to + 1), -1)
              else rows;
            shifted[m := t.(orderIndex := to)] == Relocated(rows, m, t.status, to)
  {
    var t := rows[m];
    var shifted :=
      if to < t.orderIndex then ShiftAll(rows, t.organizationId, t.status, to, Some(t.orderIndex), 1)
      else if to > t.orderIndex then ShiftAll(rows, t.organizationId, t.status, t.orderIndex + 1, Some(to + 1), -1)
      else rows;
    var r := shifted[m := t.(orderIndex := to)];
    var spec := Relocated(rows, m, t.status, to);
    forall i | 0 <= i < |rows|
      ensures r[i] == spec[i]
    {
    }
  }

  /** The task an update produces: every supplied field is written (a field
      equal to its current value is written unchanged). */
  function Patched(t: Task, dto: UpdateTaskDto): (p: Task)
    ensures p.id == t.id && p.ownerId == t.ownerId && p.organizationId == t.organizationId
  {
    t.(title := dto.title.GetOr(t.title),
       description := if dto.description.Some? then dto.description else t.description,
       category := if dto.category.Some? then dto.category else t.category,
       status := dto.status.GetOr(t.status),
       orderIndex := dto.orderIndex.GetOr(t.orderIndex))
  }

  /** The field-level diff between two versions of a task: a {from, to} entry
      for each field whose value differs. */
  function DiffOf(before: Task, after: Task): (d: TaskDiff)
    requires after.id == before.id && after.ownerId == before.ownerId
    requires after.organizationId == before.organizationId
    ensures d.IsEmpty() <==> before == after
  {
    TaskDiff(
      if before.title != after.title then Some(Change(before.title, after.title)) else None,
      if before.description != after.description then Some(Change(before.description, after.description)) else None,
      if before.category != after.category then Some(Change(before.category, after.category)) else None,
      if before.status != after.status then Some(Change(before.status, after.status)) else None,
      if before.orderIndex != after.orderIndex then Some(Change(before.orderIndex, after.orderIndex)) else None)
  }

  /** An update with no supplied field, or only fields equal to the current
      values, leaves the task as it is and has an empty diff. */
  lemma EmptyUpdateIsSilent(t: Task, dto: UpdateTaskDto)
    requires dto.title.Some? ==> dto.title.value == t.title
    requires dto.description.Some? ==> dto.description == t.description
    requires dto.category.Some? ==> dto.category == t.category
    requires dto.status.Some? ==> dto.status.value == t.status
    requires dto.orderIndex.Some? ==> dto.orderIndex.value == t.orderIndex
    ensures Patched(t, dto) == t && DiffOf(t, Patched(t, dto)).IsEmpty()
  {
  }

  /** Removing a row leaves the column's other indices as they were: the
      column loses exactly the removed index (a gap unless it was the last). */
  lemma RemoveDropsOneIndex(rows: seq<Task>, m: nat)
    requires m < |rows|
    requires Distinct(rows, rows[m].organizationId, rows[m].status)
    ensures var org, st := rows[m].organizationId, rows[m].status;
            IndexSet(rows[..m] + rows[m + 1..], org, st) == IndexSet(rows, org, st) - {rows[m].orderIndex}
  {
    var org, st := rows[m].organizationId, rows[m].status;
    var after := rows[..m] + rows[m + 1..];
    assert forall k | 0 <= k < |after| :: after[k] == if k < m then rows[k] else rows[k + 1];
    forall v | v in IndexSet(rows, org, st) - {rows[m].orderIndex}
      ensures v in IndexSet(after, org, st)
    {
      var k :| 0 <= k < |rows| && InColumn(rows[k], org, st) && rows[k].orderIndex == v;
      var j := if k < m then k else k - 1;
      assert after[j] == rows[k];
    }
  }

  /** Removing a row keeps every other column dense. */
  lemma RemoveKeepsOtherColumnsDense(rows: seq<Task>, m: nat, org: int, st: TaskStatus)
    requires m < |rows|
    requires !InColumn(rows[m], org, st)
    requires Dense(rows, org, st)
    ensures Dense(rows[..m] + rows[m + 1..], org, st)
  {
    var after := rows[..m] + rows[m + 1..];
    CountRemove(rows, m, org, st);
    assert InRange(after, org, st) by {
      forall k | 0 <= k < |after| && InColumn(after[k], org, st)
        ensures 0 <= after[k].orderIndex < Count(after, org, st)
      {
        var src := if k < m then k else k + 1;
        assert after[k] == rows[src];
      }
    }
    assert Distinct(after, org, st) by {
      forall i, j | 0 <= i < |after| && 0 <= j < |after| && i != j &&
                    InColumn(after[i], org, st) && InColumn(after[j], org, st)
        ensures after[i].orderIndex != after[j].orderIndex
      {
        var si := if i < m then i else i + 1;
        var sj := if j < m then j else j + 1;
        assert after[i] == rows[si] && after[j] == rows[sj];
      }
    }
  }


  /** The field-by-field step of update: for each supplied field whose value
      differs, record {from, to} and overwrite it. */
  method ApplyChanges(task: Task, dto: UpdateTaskDto) returns (updated: Task, changes: TaskDiff)
    ensures updated == Patched(task, dto)
    ensures changes == DiffOf(task, updated)
  {
    updated := task;
    changes := TaskDiff(None, None, None, None, None);
    if dto.title.Some? && dto.title.value != updated.title {
      changes := changes.(title := Some(Change(updated.title, dto.title.value)));
      updated := updated.(title := dto.title.value);
    }
    if dto.description.Some? && dto.description != updated.description {
      changes := changes.(description := Some(Change(updated.description, dto.description)));
      updated := updated.(description := dto.description);
    }
    if dto.category.Some? && dto.category != updated.category {
      changes := changes.(category := Some(Change(updated.category, dto.category)));
      updated := updated.(category := dto.category);
    }
    if dto.status.Some? && dto.status.value != updated.status {
      changes := changes.(status := Some(Change(updated.status, dto.status.value)));
      updated := updated.(status := dto.status.value);
    }
    if dto.orderIndex.Some? && dto.orderIndex.value != updated.orderIndex {
      changes := changes.(orderIndex := Some(Change(updated.orderIndex, dto.orderIndex.value)));
      updated := updated.(orderIndex := dto.orderIndex.value);
    }
  }

  class TasksService {
    var rows: seq<Task>
    /** The next value of the auto-increment primary key (ids start at 1). */
    var nextId: int
    /** The calls made to the audit sink, oldest first. */
    var audit: seq<AuditCall>
    const organizations: Organizations.OrganizationsService

    ghost predicate Valid()
      reads this
    {
      && 0 < nextId
      && UniqueIds(rows)
      && (forall k | 0 <= k < |rows| :: 0 < rows[k].id < nextId)
    }

    constructor (organizations: Organizations.OrganizationsService)
      ensures Valid() && rows == [] && audit == [] && this.organizations == organizations
    {
      rows := [];
      nextId := 1;
      audit := [];
      this.organizations := organizations;
    }

    /** findOne: the task with that id, or NotFound. */
    method FindOne(id: int) returns (r: Result<Task>)
      ensures r.Ok? <==> exists k :: 0 <= k < |rows| && rows[k].id == id
      ensures r.Ok? ==> r.value in rows && r.value.id == id
      ensures r.Err? ==> r.error == NotFound
    {
      var pos := Position(rows, id);
      if pos.None? {
        return Err(NotFound);
      }
      r := Ok(rows[pos.value]);
    }

    /** create: status defaults to Todo; an explicit orderIndex is used as
        given, otherwise the task is appended after the largest index of its
        column (0 in an empty column). One `task.create` record is emitted. */
    method Create(dto: CreateTaskDto, userId: int, userOrgId: int) returns (t: Task)
      requires Valid()
      modifies this
      ensures Valid()
      ensures t == Task(old(nextId), dto.title, dto.description, dto.category,
                        dto.status.GetOr(Todo),
                        dto.orderIndex.GetOr(NextOrderIndex(old(rows), userOrgId, dto.status.GetOr(Todo))),
                        userId, userOrgId)
      ensures rows == old(rows) + [t] && nextId == old(nextId) + 1
      ensures audit == old(audit) + [AuditCall(Some(userId), "task.create", "Task", Some(t.id), TitleStatus(t.title, t.status))]
      ensures dto.orderIndex.None? ==>
        forall org: int, st: TaskStatus | Dense(old(rows), org, st) :: Dense(rows, org, st)
    {
      var status := dto.status.GetOr(Todo);
      var orderIndex := if dto.orderIndex.Some? then dto.orderIndex.value else NextOrderIndex(rows, userOrgId, status);
      t := Task(nextId, dto.title, dto.description, dto.category, status, orderIndex, userId, userOrgId);
      ghost var before := rows;
      rows := rows + [t];
      nextId := nextId + 1;
      audit := audit + [AuditCall(Some(userId), "task.create", "Task", Some(t.id), TitleStatus(t.title, t.status))];
      assert forall k | 0 <= k < |before| :: rows[k] == before[k];
      if dto.orderIndex.None? {
        forall org: int, st: TaskStatus | Dense(before, org, st)
          ensures Dense(rows, org, st)
        {
          AppendKeepsDense(before, t, org, st);
        }
      }
    }

    /** update: writes the supplied fields that differ, status and orderIndex
        included, with no shifting of other tasks; audits the diff only when it
        is non-empty. */
    method Update(id: int, dto: UpdateTaskDto, userId: int) returns (r: Result<Task>)
      requires Valid()
      modifies this
      ensures Valid() && nextId == old(nextId)
      ensures Position(old(rows), id).None? ==>
        r == Err(NotFound) && rows == old(rows) && audit == old(audit)
      ensures Position(old(rows), id).Some? ==>
        var m := Position(old(rows), id).value;
        var before := old(rows)[m];
        var after := Patched(before, dto);
        var diff := DiffOf(before, after);
        && r == Ok(after)
        && rows == old(rows)[m := after]
        && audit == old(audit) + (if diff.IsEmpty() then []
                                  else [AuditCall(Some(userId), "task.update", "Task", Some(id), Changes(diff))])
    {
      var pos := Position(rows, id);
      if pos.None? {
        return Err(NotFound);
      }
      var task, changes := ApplyChanges(rows[pos.value], dto);
      ghost var before := rows;
      rows := rows[pos.value := task];
      assert forall k | 0 <= k < |rows| :: rows[k].id == before[k].id;
      if !changes.IsEmpty() {
        audit := audit + [AuditCall(Some(userId), "task.update", "Task", Some(task.id), Changes(changes))];
      }
      r := Ok(task);
    }

    /** remove: audits `task.delete` with the title and status, then deletes
        the row. The rest of the column is not renumbered. */
    method Remove(id: int, userId: int) returns (r: Result<()>)
      requires Valid()
      modifies this
      ensures Valid() && nextId == old(nextId)
      ensures Position(old(rows), id).None? ==>
        r == Err(NotFound) && rows == old(rows) && audit == old(audit)
      ensures Position(old(rows), id).Some? ==>
        var m := Position(old(rows), id).value;
        var task := old(rows)[m];
        && r == Ok(())
        && rows == old(rows)[..m] + old(rows)[m + 1..]
        && audit == old(audit) + [AuditCall(Some(userId), "task.delete", "Task", Some(id), TitleStatus(task.title, task.status))]
    {
      var pos := Position(rows, id);
      if pos.None? {
        return Err(NotFound);
      }
      var m := pos.value;
      var task := rows[m];
      audit := audit + [AuditCall(Some(userId), "task.delete", "Task", Some(task.id), TitleStatus(task.title, task.status))];
      ghost var before := rows;
      rows := rows[..m] + rows[m + 1..];
      RemoveKeepsIds(before, m);
      r := Ok(());
    }

    /** The bulk `SET orderIndex = orderIndex + delta` over the rows of the band. */
    method BulkShift(org: int, st: TaskStatus, lo: int, hi: Option<int>, delta: int)
      modifies this
      ensures nextId == old(nextId) && audit == old(audit)
      ensures rows == ShiftAll(old(rows), org, st, lo, hi, delta)
    {
      var i := 0;
      while i < |rows|
        invariant 0 <= i <= |rows| == |old(rows)|
        invariant forall k | 0 <= k < i :: rows[k] == ShiftRow(old(rows)[k], org, st, lo, hi, delta)
        invariant forall k | i <= k < |rows| :: rows[k] == old(rows)[k]
        invariant nextId == old(nextId) && audit == old(audit)
      {
        if InBand(rows[i], org, st, lo, hi) {
          rows := rows[i := rows[i].(orderIndex := rows[i].orderIndex + delta)];
        }
        i := i + 1;
      }
    }

    /** shiftTasksDown: every task of the column above `fromIndex` moves down by one. */
    method ShiftTasksDown(org: int, st: TaskStatus, fromIndex: int)
      modifies this
      ensures nextId == old(nextId) && audit == old(audit)
      ensures rows == ShiftAll(old(rows), org, st, fromIndex + 1, None, -1)
      ensures |rows| == |old(rows)|
      ensures forall i | 0 <= i < |rows| ::
        rows[i] == if InColumn(old(rows)[i], org, st) && old(rows)[i].orderIndex > fromIndex
                   then old(rows)[i].(orderIndex := old(rows)[i].orderIndex - 1)
                   else old(rows)[i]
    {
      BulkShift(org, st, fromIndex + 1, None, -1);
    }

    /** shiftTasksUp: every task of the column at or above `fromIndex` moves up by one. */
    method ShiftTasksUp(org: int, st: TaskStatus, fromIndex: int)
      modifies this
      ensures nextId == old(nextId) && audit == old(audit)
      ensures rows == ShiftAll(old(rows), org, st, fromIndex, None, 1)
      ensures |rows| == |old(rows)|
      ensures forall i | 0 <= i < |rows| ::
        rows[i] == if InColumn(old(rows)[i], org, st) && old(rows)[i].orderIndex >= fromIndex
                   then old(rows)[i].(orderIndex := old(rows)[i].orderIndex + 1)
                   else old(rows)[i]
    {
      BulkShift(org, st, fromIndex, None, 1);
    }

    /** reorder: NotFound for an unknown id, Forbidden (before any shift) when
        the caller's scope does not cover the task's organization; otherwise the
        siblings are shifted and the task is placed at (newStatus ?? status,
        newOrderIndex), exactly as Relocated describes. No audit record. */
    method Reorder(id: int, dto: ReorderTaskDto, role: Role, userOrgId: int) returns (r: Result<Task>)
      requires Valid()
      modifies this
      ensures Valid() && nextId == old(nextId) && audit == old(audit)
      ensures Position(old(rows), id).None? ==> r == Err(NotFound) && rows == old(rows)
      ensures Position(old(rows), id).Some? ==>
        var m := Position(old(rows), id).value;
        var task := old(rows)[m];
        if !Organizations.CheckOrgAccess(organizations.orgs, role, userOrgId, task.organizationId) then
          r == Err(Forbidden) && rows == old(rows)
        else
          && rows == Relocated(old(rows), m, dto.newStatus.GetOr(task.status), dto.newOrderIndex)
          && r == Ok(rows[m])
    {
      var pos := Position(rows, id);
      if pos.None? {
        return Err(NotFound);
      }
      var m := pos.value;
      var task := rows[m];
      var hasAccess := Organizations.CheckOrgAccess(organizations.orgs, role, userOrgId, task.organizationId);
      if !hasAccess {
        return Err(Forbidden);
      }
      r := Move(m, dto.newStatus.GetOr(task.status), dto.newOrderIndex);
    }

    /** The mutation part of reorder for the task at position m: the shifts of
        its siblings, then the save of the task at (newStatus, newOrderIndex). */
    method Move(m: nat, newStatus: TaskStatus, newOrderIndex: int) returns (r: Result<Task>)
      requires Valid() && m < |rows|
      modifies this
      ensures Valid() && nextId == old(nextId) && audit == old(audit)
      ensures rows == Relocated(old(rows), m, newStatus, newOrderIndex)
      ensures r == Ok(rows[m])
    {
      ghost var before := rows;
      var task := rows[m];
      var oldStatus := task.status;
      if oldStatus != newStatus {
        ShiftTasksDown(task.organizationId, oldStatus, task.orderIndex);
        ShiftTasksUp(task.organizationId, newStatus, newOrderIndex);
        task := task.(status := newStatus, orderIndex := newOrderIndex);
        CrossColumnMoveIsRelocation(before, m, newStatus, newOrderIndex);
      } else {
        if newOrderIndex < task.orderIndex {
          BulkShift(task.organizationId, oldStatus, newOrderIndex, Some(task.orderIndex), 1);
        } else if newOrderIndex > task.orderIndex {
          BulkShift(task.organizationId, oldStatus, task.orderIndex + 1, Some(newOrderIndex + 1), -1);
        }
        task := task.(orderIndex := newOrderIndex);
        SameColumnMoveIsRelocation(before, m, newOrderIndex);
      }
      // save(task): the loaded row, with its new status and index, is written back
      rows := rows[m := task];
      r := Ok(task);
      assert rows == Relocated(before, m, newStatus, newOrderIndex);
      RelocatedKeepsIds(before, m, newStatus, newOrderIndex);
    }

    /** checkTaskAccess: NotFound for an unknown task, otherwise the scope
        check against the task's organization. */
    method CheckTaskAccess(taskId: int, role: Role, userOrgId: int) returns (r: Result<bool>)
      ensures Position(rows, taskId).None? ==> r == Err(NotFound)
      ensures Position(rows, taskId).Some? ==>
        r == Ok(Organizations.CheckOrgAccess(organizations.orgs, role, userOrgId,
                                             rows[Position(rows, taskId).value].organizationId))
    {
      var pos := Position(rows, taskId);
      if pos.None? {
        return Err(NotFound);
      }
      var task := rows[pos.value];
      r := Ok(Organizations.CheckOrgAccess(organizations.orgs, role, userOrgId, task.organizationId));
    }
  }
}
