/** The board's task list and the pure list transformations that App.tsx
    applies to it: a drop onto a column (with its progress rule), saving an
    edited or a new task, deleting a task, and the per-column filters. */
module Board {
  import opened Opt

  datatype Priority = Low | Medium | High

  datatype Column = Pending | Progress | Done

  /** The order in which the board renders its columns. */
  const ColumnOrder: seq<Column> := [Pending, Progress, Done]

  datatype Task = Task(
    id: string,
    title: string,
    description: string,
    priority: Priority,
    progress: int,
    column: Column,
    createdAt: int)

  /** Everything about a task except where it sits and how far along it is. */
  predicate SameDetails(a: Task, b: Task) {
    a.id == b.id && a.title == b.title && a.description == b.description &&
    a.priority == b.priority && a.createdAt == b.createdAt
  }

  lemma ColumnOrderListsEveryColumnOnce(c: Column)
    ensures c in ColumnOrder
    ensures |ColumnOrder| == 3
    ensures forall i, j :: 0 <= i < j < |ColumnOrder| ==> ColumnOrder[i] != ColumnOrder[j]
  {
  }

  // ---------------------------------------------------------------------
  // Dropping a task onto a column (handleMagicDrop)

  /** The progress a task gets when it lands on column `c`. */
  function ProgressAfterMove(c: Column, current: int): int {
    match c
    case Done => 100
    case Progress => 50
    case Pending => current
  }

  function MoveOne(t: Task, id: string, c: Column): Task {
    if t.id == id then t.(column := c, progress := ProgressAfterMove(c, t.progress)) else t
  }

  /** Every task with the given id moves to column `c`. */
  function MoveTask(tasks: seq<Task>, id: string, c: Column): (r: seq<Task>)
    ensures |r| == |tasks|
  {
    if tasks == [] then [] else [MoveOne(tasks[0], id, c)] + MoveTask(tasks[1..], id, c)
  }

  lemma {:induction false} MoveTaskAt(tasks: seq<Task>, id: string, c: Column, i: nat)
    requires i < |tasks|
    ensures MoveTask(tasks, id, c)[i] == MoveOne(tasks[i], id, c)
  {
    if i > 0 {
      MoveTaskAt(tasks[1..], id, c, i - 1);
    }
  }

  /** A move changes only the tasks with that id: their column becomes `c`,
      their progress follows the column (100 on done, 50 in progress,
      unchanged on pending) and nothing else about them changes. */
  lemma MoveTaskSpec(tasks: seq<Task>, id: string, c: Column)
    ensures var r := MoveTask(tasks, id, c);
      |r| == |tasks| &&
      (forall i :: 0 <= i < |tasks| && tasks[i].id != id ==> r[i] == tasks[i]) &&
      (forall i :: 0 <= i < |tasks| && tasks[i].id == id ==>
         && r[i].column == c
         && (c == Done ==> r[i].progress == 100)
         && (c == Progress ==> r[i].progress == 50)
         && (c == Pending ==> r[i].progress == tasks[i].progress)
         && SameDetails(r[i], tasks[i]))
  {
    forall i | 0 <= i < |tasks| {
      MoveTaskAt(tasks, id, c, i);
    }
  }

  /** Dropping the same task on the same column twice is the same as once. */
  lemma {:induction false} MoveTaskIdempotent(tasks: seq<Task>, id: string, c: Column)
    ensures MoveTask(MoveTask(tasks, id, c), id, c) == MoveTask(tasks, id, c)
  {
    if tasks != [] {
      MoveTaskIdempotent(tasks[1..], id, c);
      assert MoveTask(tasks, id, c)[1..] == MoveTask(tasks[1..], id, c);
    }
  }

  /** Moving an id that no task carries leaves the list as it was. */
  lemma {:induction false} MoveMissingIdIsNoOp(tasks: seq<Task>, id: string, c: Column)
    requires forall i :: 0 <= i < |tasks| ==> tasks[i].id != id
    ensures MoveTask(tasks, id, c) == tasks
  {
    if tasks != [] {
      MoveMissingIdIsNoOp(tasks[1..], id, c);
    }
  }

  /** Dropping a task onto the column it is already in is a no-op exactly when
      its progress already agrees with that column's rule: a done task at 70
      goes to 100. */
  lemma MoveToOwnColumn(t: Task)
    ensures MoveTask([t], t.id, t.column) == [t] <==> ProgressAfterMove(t.column, t.progress) == t.progress
  {
    assert MoveTask([t], t.id, t.column) == [MoveOne(t, t.id, t.column)];
  }

  /** The part of the application state that a drop touches. */
  datatype BoardState = BoardState(tasks: seq<Task>, showCelebration: bool, recentlyMovedTaskId: Option<string>)

  /** handleMagicDrop: the celebration starts when the drop is onto done, the
      task is marked as recently moved, and the list is moved. The timers that
      later clear both flags are not modelled. */
  function MagicDrop(b: BoardState, id: string, c: Column): (r: BoardState)
    ensures r.showCelebration == (b.showCelebration || c == Done)
    ensures r.recentlyMovedTaskId == Some(id)
    ensures r.tasks == MoveTask(b.tasks, id, c)
  {
    BoardState(
      MoveTask(b.tasks, id, c),
      if c == Done then true else b.showCelebration,
      Some(id))
  }

  /** The celebration flag is raised by a drop iff the drop column is done. */
  lemma CelebratesIffDone(b: BoardState, id: string, c: Column)
    requires !b.showCelebration
    ensures MagicDrop(b, id, c).showCelebration <==> c == Done
  {
  }

  // ---------------------------------------------------------------------
  // Saving a task (handleSaveTask)

  /** The `Partial<Task>` a form or the assistant hands over; an absent field
      is `None`. */
  datatype TaskDraft = TaskDraft(
    id: Option<string>,
    title: Option<string>,
    description: Option<string>,
    priority: Option<Priority>,
    progress: Option<int>,
    column: Option<Column>,
    createdAt: Option<int>)

  /** `{ ...t, ...d }`: every field the draft carries replaces the task's. */
  function Merge(t: Task, d: TaskDraft): Task {
    Task(
      d.id.GetOr(t.id),
      d.title.GetOr(t.title),
      d.description.GetOr(t.description),
      d.priority.GetOr(t.priority),
      d.progress.GetOr(t.progress),
      d.column.GetOr(t.column),
      d.createdAt.GetOr(t.createdAt))
  }

  function UpdateOne(t: Task, d: TaskDraft): Task
    requires d.id.Some?
  {
    if t.id == d.id.value then Merge(t, d) else t
  }

  function UpdateTasks(tasks: seq<Task>, d: TaskDraft): (r: seq<Task>)
    requires d.id.Some?
    ensures |r| == |tasks|
  {
    if tasks == [] then [] else [UpdateOne(tasks[0], d)] + UpdateTasks(tasks[1..], d)
  }

  /** The progress a new task starts with, taken from its requested column. */
  function InitialProgress(c: Option<Column>): int {
    if c == Some(Done) then 100 else if c == Some(Progress) then 50 else 0
  }

  /** A new task built from a draft, with a fresh id and creation time. */
  function NewTask(d: TaskDraft, freshId: string, now: int): Task {
    Task(
      freshId,
      d.title.GetOr(""),
      d.description.GetOr(""),
      d.priority.GetOr(Medium),
      InitialProgress(d.column),
      d.column.GetOr(Pending),
      now)
  }

  /** handleSaveTask: a draft with a (truthy) id updates the tasks with that id,
      any other draft is appended as a new task. */
  function SaveTask(tasks: seq<Task>, d: TaskDraft, freshId: string, now: int): seq<Task> {
    if IsSet(d.id) then UpdateTasks(tasks, d) else tasks + [NewTask(d, freshId, now)]
  }

  lemma {:induction false} UpdateTasksAt(tasks: seq<Task>, d: TaskDraft, i: nat)
    requires d.id.Some? && i < |tasks|
    ensures UpdateTasks(tasks, d)[i] == UpdateOne(tasks[i], d)
  {
    if i > 0 {
      UpdateTasksAt(tasks[1..], d, i - 1);
    }
  }

  /** Saving a draft with an id keeps the list's length and order, merges the
      draft's fields into each task with that id (keeping the fields the draft
      leaves out) and leaves every other task alone. */
  lemma SaveExistingSpec(tasks: seq<Task>, d: TaskDraft, freshId: string, now: int)
    requires IsSet(d.id)
    ensures var r := SaveTask(tasks, d, freshId, now);
      |r| == |tasks| &&
      (forall i :: 0 <= i < |tasks| && tasks[i].id != d.id.value ==> r[i] == tasks[i]) &&
      (forall i :: 0 <= i < |tasks| && tasks[i].id == d.id.value ==>
         && r[i].id == tasks[i].id
         && (d.title.Some? ==> r[i].title == d.title.value)
         && (d.title.None? ==> r[i].title == tasks[i].title)
         && (d.description.Some? ==> r[i].description == d.description.value)
         && (d.description.None? ==> r[i].description == tasks[i].description)
         && (d.priority.Some? ==> r[i].priority == d.priority.value)
         && (d.priority.None? ==> r[i].priority == tasks[i].priority)
         && (d.progress.Some? ==> r[i].progress == d.progress.value)
         && (d.progress.None? ==> r[i].progress == tasks[i].progress)
         && (d.column.Some? ==> r[i].column == d.column.value)
         && (d.column.None? ==> r[i].column == tasks[i].column)
         && (d.createdAt.Some? ==> r[i].createdAt == d.createdAt.value)
         && (d.createdAt.None? ==> r[i].createdAt == tasks[i].createdAt))
  {
    forall i | 0 <= i < |tasks| {
      UpdateTasksAt(tasks, d, i);
    }
  }

  /** Saving a draft whose id no task carries changes nothing: the draft is
      not added. */
  lemma {:induction false} SaveUnknownIdIsNoOp(tasks: seq<Task>, d: TaskDraft, freshId: string, now: int)
    requires IsSet(d.id)
    requires forall i :: 0 <= i < |tasks| ==> tasks[i].id != d.id.value
    ensures SaveTask(tasks, d, freshId, now) == tasks
  {
    if tasks != [] {
      SaveUnknownIdIsNoOp(tasks[1..], d, freshId, now);
    }
  }

  /** Saving a draft without an id appends exactly one task, with the fresh
      id, the draft's fields or the defaults ('' title and description,
      medium priority, pending column), a progress that matches its column
      (100 done, 50 in progress, 0 otherwise) and the given creation time. */
  lemma SaveNewSpec(tasks: seq<Task>, d: TaskDraft, freshId: string, now: int)
    requires !IsSet(d.id)
    ensures var r := SaveTask(tasks, d, freshId, now);
      |r| == |tasks| + 1 && r[..|tasks|] == tasks &&
      var t := r[|tasks|];
      && t.id == freshId && t.createdAt == now
      && t.title == (if d.title.Some? then d.title.value else "")
      && t.description == (if d.description.Some? then d.description.value else "")
      && t.priority == (if d.priority.Some? then d.priority.value else Medium)
      && t.column == (if d.column.Some? then d.column.value else Pending)
      && t.progress == ProgressAfterMove(t.column, 0)
  {
  }

  // ---------------------------------------------------------------------
  // Deleting a task and grouping tasks by column

  /** The delete handler's filter: drop every task with the given id. */
  function DeleteTask(tasks: seq<Task>, id: string): (r: seq<Task>)
    ensures |r| <= |tasks|
    ensures forall t :: t in r <==> t in tasks && t.id != id
  {
    if tasks == [] then []
    else if tasks[0].id == id then DeleteTask(tasks[1..], id)
    else [tasks[0]] + DeleteTask(tasks[1..], id)
  }

  /** Deleting works piece by piece, so the survivors keep their relative order. */
  lemma {:induction false} DeleteKeepsOrder(a: seq<Task>, b: seq<Task>, id: string)
    ensures DeleteTask(a + b, id) == DeleteTask(a, id) + DeleteTask(b, id)
  {
    if a == [] {
      assert a + b == b;
    } else {
      assert (a + b)[0] == a[0] && (a + b)[1..] == a[1..] + b;
      DeleteKeepsOrder(a[1..], b, id);
    }
  }

  /** Deleting an id that no task carries leaves the list as it was. */
  lemma {:induction false} DeleteMissingIdIsNoOp(tasks: seq<Task>, id: string)
    requires forall i :: 0 <= i < |tasks| ==> tasks[i].id != id
    ensures DeleteTask(tasks, id) == tasks
  {
    if tasks != [] {
      DeleteMissingIdIsNoOp(tasks[1..], id);
    }
  }

  /** The tasks a column renders, in list order. */
  function ColumnTasks(tasks: seq<Task>, c: Column): (r: seq<Task>)
    ensures |r| <= |tasks|
  {
    if tasks == [] then []
    else if tasks[0].column == c then [tasks[0]] + ColumnTasks(tasks[1..], c)
    else ColumnTasks(tasks[1..], c)
  }

  /** A column renders exactly the tasks of the list that sit in it. */
  lemma {:induction false} ColumnTasksMembers(tasks: seq<Task>, c: Column)
    ensures forall t :: t in ColumnTasks(tasks, c) <==> t in tasks && t.column == c
  {
    if tasks != [] {
      ColumnTasksMembers(tasks[1..], c);
      assert tasks == [tasks[0]] + tasks[1..];
    }
  }

  /** Filtering works piece by piece, so a column keeps the list's order and
      every occurrence of each of its tasks. */
  lemma {:induction false} ColumnTasksConcat(a: seq<Task>, b: seq<Task>, c: Column)
    ensures ColumnTasks(a + b, c) == ColumnTasks(a, c) + ColumnTasks(b, c)
  {
    if a == [] {
      assert a + b == b;
    } else {
      var h, t := a[0], a[1..];
      assert (a + b)[0] == h && (a + b)[1..] == t + b;
      ColumnTasksConcat(t, b, c);
    }
  }

  lemma ColumnTasksSingle(t: Task, c: Column)
    ensures ColumnTasks([t], c) == if t.column == c then [t] else []
  {
    assert [t][1..] == [];
  }

  /** The positions of the list whose task sits in column `c`. */
  function ColumnIndices(tasks: seq<Task>, c: Column): set<int> {
    set i | 0 <= i < |tasks| && tasks[i].column == c
  }

  lemma ColumnIndicesSnoc(init: seq<Task>, last: Task, c: Column)
    ensures ColumnIndices(init + [last], c)
         == ColumnIndices(init, c) + (if last.column == c then {|init|} else {})
  {
    var tasks := init + [last];
    assert forall i :: 0 <= i < |init| ==> tasks[i] == init[i];
    assert tasks[|init|] == last;
  }

  /** A column renders one card per position of the list whose task sits in
      that column. */
  lemma {:induction false} ColumnTasksCount(tasks: seq<Task>, c: Column)
    ensures |ColumnTasks(tasks, c)| == |ColumnIndices(tasks, c)|
    decreases |tasks|
  {
    if tasks != [] {
      var n := |tasks|;
      var init, last := tasks[..n - 1], tasks[n - 1];
      assert init + [last] == tasks;
      ColumnTasksCount(init, c);
      ColumnTasksConcat(init, [last], c);
      ColumnTasksSingle(last, c);
      ColumnIndicesSnoc(init, last, c);
      assert |init| !in ColumnIndices(init, c);
    }
  }

  /** The columns, in the order the board renders them, partition the list:
      each task is rendered under its own column and no other, and the
      column counts add up to the length. */
  lemma {:induction false} ColumnsPartition(tasks: seq<Task>)
    ensures |ColumnTasks(tasks, ColumnOrder[0])| + |ColumnTasks(tasks, ColumnOrder[1])|
          + |ColumnTasks(tasks, ColumnOrder[2])| == |tasks|
    ensures forall t, c :: t in tasks ==> (t in ColumnTasks(tasks, c) <==> c == t.column)
  {
    if tasks != [] {
      ColumnsPartition(tasks[1..]);
    }
    ColumnTasksMembers(tasks, Pending);
    ColumnTasksMembers(tasks, Progress);
    ColumnTasksMembers(tasks, Done);
  }

  /** After a drop onto `c`, every task with that id is rendered under `c`. */
  lemma MovedTaskShowsInColumn(tasks: seq<Task>, id: string, c: Column)
    ensures forall t :: t in MoveTask(tasks, id, c) && t.id == id ==> t in ColumnTasks(MoveTask(tasks, id, c), c)
  {
    MoveTaskSpec(tasks, id, c);
    var r := MoveTask(tasks, id, c);
    ColumnTasksMembers(r, c);
    forall t | t in r && t.id == id
      ensures t.column == c
    {
      var i :| 0 <= i < |r| && r[i] == t;
    }
  }
}
