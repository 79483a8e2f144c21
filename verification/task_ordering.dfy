/** The per-column ordering of tasks: a column is the set of rows sharing an
    (organizationId, status) pair, and its orderIndex values should be exactly
    0 .. n-1. This module states that invariant, the next-index query used by
    create, and the effect of a reorder as a reference definition, and proves
    which operations keep the invariant. */
module TaskOrdering {
  import opened Domain

  predicate InColumn(t: Task, org: int, st: TaskStatus) {
    t.organizationId == org && t.status == st
  }

  /** Number of rows in the column (org, st). */
  function Count(rows: seq<Task>, org: int, st: TaskStatus): (n: nat)
    ensures n <= |rows|
  {
    if rows == [] then 0
    else Count(rows[..|rows| - 1], org, st) + (if InColumn(rows[|rows| - 1], org, st) then 1 else 0)
  }

  /** Every index of the column lies in 0 .. n-1. */
  predicate InRange(rows: seq<Task>, org: int, st: TaskStatus) {
    forall i | 0 <= i < |rows| && InColumn(rows[i], org, st) ::
      0 <= rows[i].orderIndex < Count(rows, org, st)
  }

  /** No two rows of the column share an index. */
  predicate Distinct(rows: seq<Task>, org: int, st: TaskStatus) {
    forall i, j | 0 <= i < |rows| && 0 <= j < |rows| && i != j &&
                  InColumn(rows[i], org, st) && InColumn(rows[j], org, st) ::
      rows[i].orderIndex != rows[j].orderIndex
  }

  /** The ordering invariant of a column: dense, no gaps and no duplicates. */
  predicate Dense(rows: seq<Task>, org: int, st: TaskStatus) {
    InRange(rows, org, st) && Distinct(rows, org, st)
  }

  /** The set of orderIndex values held by the column. */
  function IndexSet(rows: seq<Task>, org: int, st: TaskStatus): set<int> {
    set i | 0 <= i < |rows| && InColumn(rows[i], org, st) :: rows[i].orderIndex
  }

  /** The set {0, ..., n-1}. */
  function Upto(n: nat): (r: set<int>)
    ensures forall k :: k in r <==> 0 <= k < n
  {
    if n == 0 then {} else Upto(n - 1) + {n - 1}
  }

  // ---------------------------------------------------------------------------
  // Counting

  lemma {:induction false} CountSameMembership(a: seq<Task>, b: seq<Task>, org: int, st: TaskStatus)
    requires |a| == |b|
    requires forall i | 0 <= i < |a| :: InColumn(a[i], org, st) == InColumn(b[i], org, st)
    ensures Count(a, org, st) == Count(b, org, st)
  {
    if a != [] {
      var n := |a| - 1;
      CountSameMembership(a[..n], b[..n], org, st);
    }
  }

  lemma {:induction false} CountUpdate(rows: seq<Task>, m: nat, t: Task, org: int, st: TaskStatus)
    requires m < |rows|
    ensures Count(rows[m := t], org, st) ==
            Count(rows, org, st) - (if InColumn(rows[m], org, st) then 1 else 0)
                                 + (if InColumn(t, org, st) then 1 else 0)
  {
    var n := |rows| - 1;
    if m < n {
      CountUpdate(rows[..n], m, t, org, st);
      assert rows[m := t][..n] == rows[..n][m := t];
    } else {
      assert rows[m := t][..n] == rows[..n];
    }
  }

  lemma CountAppend(rows: seq<Task>, t: Task, org: int, st: TaskStatus)
    ensures Count(rows + [t], org, st) == Count(rows, org, st) + (if InColumn(t, org, st) then 1 else 0)
  {
    assert (rows + [t])[..|rows|] == rows;
  }

  lemma {:induction false} CountRemove(rows: seq<Task>, m: nat, org: int, st: TaskStatus)
    requires m < |rows|
    ensures Count(rows[..m] + rows[m + 1..], org, st) ==
            Count(rows, org, st) - (if InColumn(rows[m], org, st) then 1 else 0)
  {
    var n := |rows| - 1;
    if m < n {
      CountRemove(rows[..n], m, org, st);
      assert rows[..n][..m] + rows[..n][m + 1..] == (rows[..m] + rows[m + 1..])[..n - 1];
      assert (rows[..m] + rows[m + 1..])[n - 1] == rows[n];
    } else {
      assert rows[..m] + rows[m + 1..] == rows[..n];
    }
  }

  // ---------------------------------------------------------------------------
  // A dense column holds exactly the indices 0 .. n-1

  lemma {:induction false} UptoCard(n: nat)
    ensures |Upto(n)| == n
  {
    if n > 0 {
      UptoCard(n - 1);
      assert Upto(n) == Upto(n - 1) + {n - 1};
    }
  }

  lemma {:induction false} IndexSetCard(rows: seq<Task>, org: int, st: TaskStatus)
    requires Distinct(rows, org, st)
    ensures |IndexSet(rows, org, st)| == Count(rows, org, st)
  {
    if rows != [] {
      var n := |rows| - 1;
      DistinctPrefix(rows, org, st);
      IndexSetCard(rows[..n], org, st);
      IndexSetSnoc(rows, org, st);
      if InColumn(rows[n], org, st) {
        LastIndexIsNew(rows, org, st);
      }
    }
  }

  lemma DistinctPrefix(rows: seq<Task>, org: int, st: TaskStatus)
    requires rows != [] && Distinct(rows, org, st)
    ensures Distinct(rows[..|rows| - 1], org, st)
  {
    var p := rows[..|rows| - 1];
    forall i, j | 0 <= i < |p| && 0 <= j < |p| && i != j && InColumn(p[i], org, st) && InColumn(p[j], org, st)
      ensures p[i].orderIndex != p[j].orderIndex
    {
      assert p[i] == rows[i] && p[j] == rows[j];
    }
  }

  lemma LastIndexIsNew(rows: seq<Task>, org: int, st: TaskStatus)
    requires rows != [] && Distinct(rows, org, st) && InColumn(rows[|rows| - 1], org, st)
    ensures rows[|rows| - 1].orderIndex !in IndexSet(rows[..|rows| - 1], org, st)
  {
    var n := |rows| - 1;
    var p := rows[..n];
    forall i | 0 <= i < |p| && InColumn(p[i], org, st)
      ensures p[i].orderIndex != rows[n].orderIndex
    {
      assert rows[i] == p[i];
    }
  }

  lemma IndexSetSnoc(rows: seq<Task>, org: int, st: TaskStatus)
    requires rows != []
    ensures var n := |rows| - 1;
            IndexSet(rows, org, st) ==
              IndexSet(rows[..n], org, st) + (if InColumn(rows[n], org, st) then {rows[n].orderIndex} else {})
  {
    var n := |rows| - 1;
    var p := rows[..n];
    var extra: set<int> := if InColumn(rows[n], org, st) then {rows[n].orderIndex} else {};
    forall v | v in IndexSet(rows, org, st)
      ensures v in IndexSet(p, org, st) + extra
    {
      var i :| 0 <= i < |rows| && InColumn(rows[i], org, st) && rows[i].orderIndex == v;
      if i < n {
        assert p[i] == rows[i];
      }
    }
    forall v | v in IndexSet(p, org, st) + extra
      ensures v in IndexSet(rows, org, st)
    {
      if v in IndexSet(p, org, st) {
        var i :| 0 <= i < |p| && InColumn(p[i], org, st) && p[i].orderIndex == v;
        assert rows[i] == p[i];
      }
    }
  }


  lemma SubsetOfEqualCard(a: set<int>, b: set<int>)
    requires a <= b && |a| == |b|
    ensures a == b
  {
    assert b * a == a;
    assert |b - a| == 0;
  }

  /** The dense invariant says exactly that the column's indices are {0, ..., n-1}. */
  lemma DenseIndexSet(rows: seq<Task>, org: int, st: TaskStatus)
    requires Dense(rows, org, st)
    ensures IndexSet(rows, org, st) == Upto(Count(rows, org, st))
  {
    IndexSetCard(rows, org, st);
    UptoCard(Count(rows, org, st));
    SubsetOfEqualCard(IndexSet(rows, org, st), Upto(Count(rows, org, st)));
  }

  lemma DenseCovers(rows: seq<Task>, org: int, st: TaskStatus, k: int)
    requires Dense(rows, org, st) && 0 <= k < Count(rows, org, st)
    ensures exists i :: 0 <= i < |rows| && InColumn(rows[i], org, st) && rows[i].orderIndex == k
  {
    DenseIndexSet(rows, org, st);
    assert k in Upto(Count(rows, org, st));
  }

  // ---------------------------------------------------------------------------
  // The next index used by create (MAX(orderIndex) + 1, or 0)

  /** `SELECT MAX(orderIndex)` over the column; None when the column is empty. */
  function MaxIndex(rows: seq<Task>, org: int, st: TaskStatus): (r: Option<int>)
    ensures r.None? <==> Count(rows, org, st) == 0
    ensures r.None? ==> forall i | 0 <= i < |rows| :: !InColumn(rows[i], org, st)
    ensures r.Some? ==> forall i | 0 <= i < |rows| && InColumn(rows[i], org, st) :: rows[i].orderIndex <= r.value
    ensures r.Some? ==> exists i :: 0 <= i < |rows| && InColumn(rows[i], org, st) && rows[i].orderIndex == r.value
  {
    if rows == [] then None
    else
      var n := |rows| - 1;
      var m := MaxIndex(rows[..n], org, st);
      var t := rows[n];
      if !InColumn(t, org, st) then m
      else match m
        case None => Some(t.orderIndex)
        case Some(v) => Some(if v < t.orderIndex then t.orderIndex else v)
  }

  /** `(MAX(orderIndex) ?? -1) + 1` for the column. */
  function NextOrderIndex(rows: seq<Task>, org: int, st: TaskStatus): (r: int)
    ensures forall i | 0 <= i < |rows| && InColumn(rows[i], org, st) :: rows[i].orderIndex < r
    ensures Count(rows, org, st) == 0 ==> r == 0
    ensures Count(rows, org, st) > 0 ==>
      exists i :: 0 <= i < |rows| && InColumn(rows[i], org, st) && rows[i].orderIndex == r - 1
  {
    match MaxIndex(rows, org, st)
    case None => 0
    case Some(v) => v + 1
  }

  /** On a dense column the appended index is the column's size. */
  lemma DenseNextIsCount(rows: seq<Task>, org: int, st: TaskStatus)
    requires Dense(rows, org, st)
    ensures NextOrderIndex(rows, org, st) == Count(rows, org, st)
  {
    var n := Count(rows, org, st);
    if n > 0 {
      DenseCovers(rows, org, st, n - 1);
    }
  }

  /** Appending a row whose index is the next index of its own column keeps
      every dense column dense. */
  lemma AppendKeepsDense(rows: seq<Task>, t: Task, org: int, st: TaskStatus)
    requires Dense(rows, org, st)
    requires InColumn(t, org, st) ==> t.orderIndex == NextOrderIndex(rows, org, st)
    ensures Dense(rows + [t], org, st)
  {
    CountAppend(rows, t, org, st);
    if InColumn(t, org, st) {
      DenseNextIsCount(rows, org, st);
    }
    var r := rows + [t];
    var n := Count(r, org, st);
    forall i | 0 <= i < |r| && InColumn(r[i], org, st)
      ensures 0 <= r[i].orderIndex < n
    {
      if i < |rows| {
        assert r[i] == rows[i];
      }
    }
    forall i, j | 0 <= i < |r| && 0 <= j < |r| && i != j && InColumn(r[i], org, st) && InColumn(r[j], org, st)
      ensures r[i].orderIndex != r[j].orderIndex
    {
      if i < |rows| {
        assert r[i] == rows[i];
      }
      if j < |rows| {
        assert r[j] == rows[j];
      }
    }
  }

  /** A single counterexample: appending with an explicit index that is already
      taken duplicates it. */
  lemma ExplicitIndexMayDuplicate()
    ensures var t0 := Task(1, "a", None, None, Todo, 0, 1, 1);
            var t1 := Task(2, "b", None, None, Todo, 0, 1, 1);
            Dense([t0], 1, Todo) && !Dense([t0] + [t1], 1, Todo)
  {
    var t0 := Task(1, "a", None, None, Todo, 0, 1, 1);
    var t1 := Task(2, "b", None, None, Todo, 0, 1, 1);
    assert Count([t0], 1, Todo) == 1 by { assert [t0][..0] == []; }
    var r := [t0] + [t1];
    assert r[0].orderIndex == r[1].orderIndex;
  }

  // ---------------------------------------------------------------------------
  // Removing a row

  /** Removing a row does not renumber the rest: a column can be left with a gap. */
  lemma RemoveMayLeaveGap()
    ensures var t0 := Task(1, "a", None, None, Todo, 0, 1, 1);
            var t1 := Task(2, "b", None, None, Todo, 1, 1, 1);
            Dense([t0, t1], 1, Todo) && !Dense([t1], 1, Todo)
  {
    var t0 := Task(1, "a", None, None, Todo, 0, 1, 1);
    var t1 := Task(2, "b", None, None, Todo, 1, 1, 1);
    assert [t0, t1][..1] == [t0];
    assert [t0][..0] == [];
    assert [t1][..0] == [];
    assert Count([t0, t1], 1, Todo) == 2;
    assert Count([t1], 1, Todo) == 1;
  }

  // ---------------------------------------------------------------------------
  // Reorder, as a reference definition

  /** By how much a reorder of `moved` to (target, to) changes the index of `t`:
      a cross-column move closes the gap in the old column (indices above the old
      index drop by one) and opens a slot in the new one (indices at or above the
      new index rise by one); a same-column move rotates the block between the old
      and the new index by one. */
  function Displacement(moved: Task, target: TaskStatus, to: int, t: Task): int {
    var from := moved.orderIndex;
    if t.organizationId != moved.organizationId then 0
    else if target != moved.status then
      if t.status == moved.status && t.orderIndex > from then -1
      else if t.status == target && t.orderIndex >= to then 1
      else 0
    else if t.status != target then 0
    else if to < from && to <= t.orderIndex < from then 1
    else if from < to && from < t.orderIndex <= to then -1
    else 0
  }

  /** The table after the task at position m is moved to index `to` of column `target`. */
  function Relocated(rows: seq<Task>, m: nat, target: TaskStatus, to: int): (r: seq<Task>)
    requires m < |rows|
    ensures |r| == |rows|
    ensures r[m] == rows[m].(status := target, orderIndex := to)
    ensures forall i | 0 <= i < |rows| && i != m ::
      r[i].(orderIndex := rows[i].orderIndex) == rows[i]
    ensures forall i | 0 <= i < |rows| && i != m &&
                       !InColumn(rows[i], rows[m].organizationId, rows[m].status) &&
                       !InColumn(rows[i], rows[m].organizationId, target) ::
      r[i] == rows[i]
  {
    seq(|rows|, i requires 0 <= i < |rows| =>
      if i == m then rows[m].(status := target, orderIndex := to)
      else rows[i].(orderIndex := rows[i].orderIndex + Displacement(rows[m], target, to, rows[i])))
  }

  /** Moving a task to its own position changes nothing. */
  lemma RelocateToSamePlace(rows: seq<Task>, m: nat)
    requires m < |rows|
    ensures Relocated(rows, m, rows[m].status, rows[m].orderIndex) == rows
  {
    var r := Relocated(rows, m, rows[m].status, rows[m].orderIndex);
    assert forall i | 0 <= i < |rows| :: r[i] == rows[i];
  }

  /** Row i (not the moved one) of a relocation: same row, index displaced. */
  lemma RelocatedRow(rows: seq<Task>, m: nat, target: TaskStatus, to: int, i: nat)
    requires m < |rows| && i < |rows| && i != m
    ensures Relocated(rows, m, target, to)[i] ==
            rows[i].(orderIndex := rows[i].orderIndex + Displacement(rows[m], target, to, rows[i]))
  {
  }

  /** Index arithmetic of a same-column move on a column of n rows: a sibling
      stays in 0 .. n-1, never lands on the target index, and two siblings never
      collide. */
  lemma SameColumnShiftFacts(from: int, to: int, n: int, a: int, b: int)
    requires 0 <= from < n && 0 <= to < n
    requires 0 <= a < n && a != from && 0 <= b < n && b != from
    ensures var a' := a + (if to < from && to <= a < from then 1 else if from < to && from < a <= to then -1 else 0);
            var b' := b + (if to < from && to <= b < from then 1 else if from < to && from < b <= to then -1 else 0);
            && 0 <= a' < n && a' != to
            && (a != b ==> a' != b')
  {
  }

  /** Index arithmetic of closing the gap left at `from` in a column of n rows. */
  lemma CloseGapFacts(from: int, n: int, a: int, b: int)
    requires 0 <= from < n
    requires 0 <= a < n && a != from && 0 <= b < n && b != from
    ensures var a' := a + (if a > from then -1 else 0);
            var b' := b + (if b > from then -1 else 0);
            && 0 <= a' < n - 1
            && (a != b ==> a' != b')
  {
  }

  /** Index arithmetic of opening a slot at `to` in a column of n rows. */
  lemma OpenSlotFacts(to: int, n: int, a: int, b: int)
    requires 0 <= to <= n
    requires 0 <= a < n && 0 <= b < n
    ensures var a' := a + (if a >= to then 1 else 0);
            var b' := b + (if b >= to then 1 else 0);
            && 0 <= a' < n + 1 && a' != to
            && (a != b ==> a' != b')
  {
  }

  /** Within one column, a move to 0 <= to < n keeps the column dense. */
  lemma RelocateWithinColumnKeepsDense(rows: seq<Task>, m: nat, to: int)
    requires m < |rows|
    requires Dense(rows, rows[m].organizationId, rows[m].status)
    requires 0 <= to < Count(rows, rows[m].organizationId, rows[m].status)
    ensures Dense(Relocated(rows, m, rows[m].status, to), rows[m].organizationId, rows[m].status)
  {
    var org, st := rows[m].organizationId, rows[m].status;
    var from := rows[m].orderIndex;
    var r := Relocated(rows, m, st, to);
    var n := Count(rows, org, st);
    CountSameMembership(rows, r, org, st);
    assert 0 <= from < n;
    forall i | 0 <= i < |r| && InColumn(r[i], org, st)
      ensures 0 <= r[i].orderIndex < n
    {
      if i != m {
        RelocatedRow(rows, m, st, to, i);
        assert InColumn(rows[i], org, st);
        SameColumnShiftFacts(from, to, n, rows[i].orderIndex, rows[i].orderIndex);
      }
    }
    forall i, j | 0 <= i < |r| && 0 <= j < |r| && i != j && InColumn(r[i], org, st) && InColumn(r[j], org, st)
      ensures r[i].orderIndex != r[j].orderIndex
    {
      if i != m {
        RelocatedRow(rows, m, st, to, i);
        assert InColumn(rows[i], org, st);
      }
      if j != m {
        RelocatedRow(rows, m, st, to, j);
        assert InColumn(rows[j], org, st);
      }
      if i != m && j != m {
        SameColumnShiftFacts(from, to, n, rows[i].orderIndex, rows[j].orderIndex);
      } else if i != m {
        SameColumnShiftFacts(from, to, n, rows[i].orderIndex, rows[i].orderIndex);
      } else {
        SameColumnShiftFacts(from, to, n, rows[j].orderIndex, rows[j].orderIndex);
      }
    }
  }

  /** Across columns, the old column loses the moved task and closes its gap. */
  lemma RelocateAcrossKeepsOldColumnDense(rows: seq<Task>, m: nat, target: TaskStatus, to: int)
    requires m < |rows|
    requires target != rows[m].status
    requires Dense(rows, rows[m].organizationId, rows[m].status)
    ensures var r := Relocated(rows, m, target, to);
            && Count(r, rows[m].organizationId, rows[m].status) == Count(rows, rows[m].organizationId, rows[m].status) - 1
            && Dense(r, rows[m].organizationId, rows[m].status)
  {
    var org, st := rows[m].organizationId, rows[m].status;
    var r := Relocated(rows, m, target, to);
    CountSameMembership(r, rows[m := r[m]], org, st);
    CountUpdate(rows, m, r[m], org, st);
    var from := rows[m].orderIndex;
    var n := Count(rows, org, st);
    assert 0 <= from < n;
    forall i | 0 <= i < |r| && InColumn(r[i], org, st)
      ensures 0 <= r[i].orderIndex < n - 1
    {
      RelocatedRow(rows, m, target, to, i);
      assert InColumn(rows[i], org, st);
      CloseGapFacts(from, n, rows[i].orderIndex, rows[i].orderIndex);
    }
    forall i, j | 0 <= i < |r| && 0 <= j < |r| && i != j && InColumn(r[i], org, st) && InColumn(r[j], org, st)
      ensures r[i].orderIndex != r[j].orderIndex
    {
      RelocatedRow(rows, m, target, to, i);
      RelocatedRow(rows, m, target, to, j);
      assert InColumn(rows[i], org, st) && InColumn(rows[j], org, st);
      CloseGapFacts(from, n, rows[i].orderIndex, rows[j].orderIndex);
    }
  }

  /** Across columns, the new column opens a slot at `to` for the moved task. */
  lemma RelocateAcrossKeepsNewColumnDense(rows: seq<Task>, m: nat, target: TaskStatus, to: int)
    requires m < |rows|
    requires target != rows[m].status
    requires Dense(rows, rows[m].organizationId, target)
    requires 0 <= to <= Count(rows, rows[m].organizationId, target)
    ensures var r := Relocated(rows, m, target, to);
            && Count(r, rows[m].organizationId, target) == Count(rows, rows[m].organizationId, target) + 1
            && Dense(r, rows[m].organizationId, target)
  {
    var org := rows[m].organizationId;
    var r := Relocated(rows, m, target, to);
    CountSameMembership(r, rows[m := r[m]], org, target);
    CountUpdate(rows, m, r[m], org, target);
    var n := Count(rows, org, target);
    forall i | 0 <= i < |r| && InColumn(r[i], org, target)
      ensures 0 <= r[i].orderIndex < n + 1
    {
      if i != m {
        RelocatedRow(rows, m, target, to, i);
        assert InColumn(rows[i], org, target);
        OpenSlotFacts(to, n, rows[i].orderIndex, rows[i].orderIndex);
      }
    }
    forall i, j | 0 <= i < |r| && 0 <= j < |r| && i != j && InColumn(r[i], org, target) && InColumn(r[j], org, target)
      ensures r[i].orderIndex != r[j].orderIndex
    {
      if i != m {
        RelocatedRow(rows, m, target, to, i);
        assert InColumn(rows[i], org, target);
      }
      if j != m {
        RelocatedRow(rows, m, target, to, j);
        assert InColumn(rows[j], org, target);
      }
      if i != m && j != m {
        OpenSlotFacts(to, n, rows[i].orderIndex, rows[j].orderIndex);
      } else if i != m {
        OpenSlotFacts(to, n, rows[i].orderIndex, rows[i].orderIndex);
      } else {
        OpenSlotFacts(to, n, rows[j].orderIndex, rows[j].orderIndex);
      }
    }
  }

  /** Across columns, a move to 0 <= to <= (size of the new column) keeps both
      columns dense; the old column shrinks by one and the new one grows by one. */
  lemma RelocateAcrossColumnsKeepsDense(rows: seq<Task>, m: nat, target: TaskStatus, to: int)
    requires m < |rows|
    requires target != rows[m].status
    requires Dense(rows, rows[m].organizationId, rows[m].status)
    requires Dense(rows, rows[m].organizationId, target)
    requires 0 <= to <= Count(rows, rows[m].organizationId, target)
    ensures var r := Relocated(rows, m, target, to);
            var org := rows[m].organizationId;
            && Dense(r, org, rows[m].status) && Dense(r, org, target)
            && Count(r, org, rows[m].status) == Count(rows, org, rows[m].status) - 1
            && Count(r, org, target) == Count(rows, org, target) + 1
  {
    RelocateAcrossKeepsOldColumnDense(rows, m, target, to);
    RelocateAcrossKeepsNewColumnDense(rows, m, target, to);
  }

  /** Columns other than the two a reorder touches keep their rows, and stay
      dense if they were. */
  lemma RelocateKeepsOtherColumns(rows: seq<Task>, m: nat, target: TaskStatus, to: int, org: int, st: TaskStatus)
    requires m < |rows|
    requires !(org == rows[m].organizationId && st == rows[m].status)
    requires !(org == rows[m].organizationId && st == target)
    requires Dense(rows, org, st)
    ensures Dense(Relocated(rows, m, target, to), org, st)
  {
    var r := Relocated(rows, m, target, to);
    CountSameMembership(rows, r, org, st);
  }

  /** A reorder keeps the display order of the moved task's siblings in both
      columns: two rows other than the moved one keep their relative order. */
  lemma RelocatePreservesSiblingOrder(rows: seq<Task>, m: nat, target: TaskStatus, to: int, i: nat, j: nat)
    requires m < |rows| && i < |rows| && j < |rows| && i != m && j != m
    requires rows[i].organizationId == rows[j].organizationId && rows[i].status == rows[j].status
    requires Distinct(rows, rows[m].organizationId, rows[m].status)
    requires rows[i].orderIndex < rows[j].orderIndex
    ensures Relocated(rows, m, target, to)[i].orderIndex < Relocated(rows, m, target, to)[j].orderIndex
  {
  }
}
