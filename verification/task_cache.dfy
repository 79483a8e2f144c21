/** The dashboard's task cache: the list held by the service's subject, updated
    after each server response. `emitted` records every list pushed to
    subscribers with `next`. */
module DashboardTasks {
  import opened Domain
  import TaskOrdering

  /** Index of the first task with that id (`findIndex`), None for -1. */
  function FirstIndex(tasks: seq<Task>, id: int): (r: Option<nat>)
    ensures r.Some? ==> r.value < |tasks| && tasks[r.value].id == id
    ensures r.Some? ==> forall k | 0 <= k < r.value :: tasks[k].id != id
    ensures r.None? <==> forall k | 0 <= k < |tasks| :: tasks[k].id != id
  {
    if tasks == [] then None
    else if tasks[0].id == id then Some(0)
    else match FirstIndex(tasks[1..], id)
      case None => None
      case Some(k) => Some(k + 1)
  }

  /** `tasks.filter(t => t.id !== id)` */
  function Without(tasks: seq<Task>, id: int): (r: seq<Task>)
    ensures |r| <= |tasks|
    ensures forall t :: t in r <==> t in tasks && t.id != id
  {
    if tasks == [] then []
    else if tasks[0].id == id then Without(tasks[1..], id)
    else [tasks[0]] + Without(tasks[1..], id)
  }

  /** Filtering distributes over concatenation, so the kept tasks stay in
      their relative order. */
  lemma {:induction false} WithoutAppend(a: seq<Task>, b: seq<Task>, id: int)
    ensures Without(a + b, id) == Without(a, id) + Without(b, id)
    decreases |a|
  {
    if a == [] {
      assert a + b == b;
    } else {
      assert (a + b)[0] == a[0];
      assert (a + b)[1..] == a[1..] + b;
      WithoutAppend(a[1..], b, id);
    }
  }

  /** A cache with no task of that id is left as it is by a removal. */
  lemma {:induction false} WithoutAbsent(tasks: seq<Task>, id: int)
    requires forall k | 0 <= k < |tasks| :: tasks[k].id != id
    ensures Without(tasks, id) == tasks
    decreases |tasks|
  {
    if tasks != [] {
      WithoutAbsent(tasks[1..], id);
    }
  }

  /** The cache after a reorder is refreshed only at the moved task: with
      [a at 0, b at 1] and b moved to 0, the server holds [a at 1, b at 0]
      while the cache holds two tasks at index 0. */
  lemma ReorderLeavesSiblingsStale()
    ensures var a := Task(1, "a", None, None, Todo, 0, 1, 1);
            var b := Task(2, "b", None, None, Todo, 1, 1, 1);
            var server := TaskOrdering.Relocated([a, b], 1, Todo, 0);
            var cache := [a, b][1 := server[1]];
            && server[0].orderIndex == 1
            && cache[0].orderIndex == cache[1].orderIndex == 0
            && cache != server
  {
    var a := Task(1, "a", None, None, Todo, 0, 1, 1);
    var b := Task(2, "b", None, None, Todo, 1, 1, 1);
    var server := TaskOrdering.Relocated([a, b], 1, Todo, 0);
    assert server[0] == a.(orderIndex := 1);
  }

  class TasksService {
    /** The subject's current value. */
    var current: seq<Task>
    /** Every list passed to `next`, oldest first. */
    var emitted: seq<seq<Task>>

    constructor ()
      ensures current == [] && emitted == []
    {
      current := [];
      emitted := [];
    }

    /** list: the server's list replaces the cache. */
    method OnList(tasks: seq<Task>)
      modifies this
      ensures current == tasks && emitted == old(emitted) + [tasks]
    {
      current := tasks;
      emitted := emitted + [current];
    }

    /** create: the created task is appended after the cached ones. */
    method OnCreate(task: Task)
      modifies this
      ensures current == old(current) + [task] && emitted == old(emitted) + [current]
    {
      current := current + [task];
      emitted := emitted + [current];
    }

    /** `current.findIndex(t => t.id === id)`: the first index holding the id,
        or -1 when there is none. */
    method FindIndex(id: int) returns (index: int)
      ensures -1 <= index < |current|
      ensures index == -1 <==> forall k | 0 <= k < |current| :: current[k].id != id
      ensures index != -1 ==> current[index].id == id && forall k | 0 <= k < index :: current[k].id != id
      ensures index == -1 ==> FirstIndex(current, id).None?
      ensures index != -1 ==> FirstIndex(current, id) == Some(index as nat)
    {
      var i := 0;
      while i < |current|
        invariant 0 <= i <= |current|
        invariant forall k | 0 <= k < i :: current[k].id != id
      {
        if current[i].id == id {
          index := i;
          FirstIndexIsFirstMatch(current, id, i);
          return;
        }
        i := i + 1;
      }
      index := -1;
    }

    /** update and reorder: the first cached task with that id is replaced by
        the server's version; with no such task nothing changes and nothing is
        emitted. */
    method OnUpdated(id: int, updated: Task)
      modifies this
      ensures FirstIndex(old(current), id).None? ==> current == old(current) && emitted == old(emitted)
      ensures FirstIndex(old(current), id).Some? ==>
        && current == old(current)[FirstIndex(old(current), id).value := updated]
        && emitted == old(emitted) + [current]
    {
      var index := FindIndex(id);
      if index != -1 {
        current := current[index := updated];
        emitted := emitted + [current];
      }
    }

    /** remove: every cached task with that id is dropped. */
    method OnRemove(id: int)
      modifies this
      ensures current == Without(old(current), id) && emitted == old(emitted) + [current]
    {
      current := Without(current, id);
      emitted := emitted + [current];
    }

    /** getCurrentTasks: the cached list as it is. */
    method GetCurrentTasks() returns (tasks: seq<Task>)
      ensures tasks == current
    {
      tasks := current;
    }
  }

  lemma {:induction false} FirstIndexIsFirstMatch(tasks: seq<Task>, id: int, i: nat)
    requires i < |tasks| && tasks[i].id == id
    requires forall k | 0 <= k < i :: tasks[k].id != id
    ensures FirstIndex(tasks, id) == Some(i)
    decreases i
  {
    if i > 0 {
      FirstIndexIsFirstMatch(tasks[1..], id, i - 1);
    }
  }
}
