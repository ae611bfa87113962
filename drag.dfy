/** The drop handler of the board: a drag library reports where a task was
    picked up and where it was dropped, and the handler moves the task in
    the master task list and gives it the category of the column it was
    dropped on. */
module Drag {
  import opened Wrappers
  import opened Tasks

  /** A place on the board as the drag library reports it: a position and
      the id of the droppable column, which is the column's category. The
      library reports no negative positions. */
  datatype Location = Location(index: nat, droppableId: string)

  /** What the drag library hands to the handler when a drag ends; the
      destination is absent when the task was dropped outside every column. */
  datatype DropResult = DropResult(source: Location, destination: Option<Location>)

  /** `splice(source.index, 1)` found nothing to remove, so `removed` is
      undefined and assigning its category throws a TypeError. */
  datatype DragError = RemovedIsUndefined

  function Min(a: nat, b: nat): nat
  {
    if a <= b then a else b
  }

  /** `s.splice(i, 1)` on a copy: the sequence without its element `i`. */
  function RemoveAt<T>(s: seq<T>, i: nat): (r: seq<T>)
    requires i < |s|
    ensures |r| == |s| - 1
    ensures forall k :: 0 <= k < i ==> r[k] == s[k]
    ensures forall k :: i <= k < |r| ==> r[k] == s[k + 1]
  {
    s[..i] + s[i + 1..]
  }

  /** `s.splice(i, 0, x)`: the sequence with `x` inserted before position `i`. */
  function InsertAt<T>(s: seq<T>, i: nat, x: T): (r: seq<T>)
    requires i <= |s|
    ensures |r| == |s| + 1 && r[i] == x
    ensures forall k :: 0 <= k < i ==> r[k] == s[k]
    ensures forall k :: i < k < |r| ==> r[k] == s[k - 1]
  {
    s[..i] + [x] + s[i..]
  }

  /** Removing what was just inserted gives back the sequence. */
  lemma RemoveInserted<T>(s: seq<T>, i: nat, x: T)
    requires i <= |s|
    ensures RemoveAt(InsertAt(s, i, x), i) == s
  {
  }

  lemma MultisetRemoveAt<T>(s: seq<T>, i: nat)
    requires i < |s|
    ensures multiset(RemoveAt(s, i)) == multiset(s) - multiset{s[i]}
  {
    assert s == s[..i] + [s[i]] + s[i + 1..];
  }

  lemma MultisetInsertAt<T>(s: seq<T>, i: nat, x: T)
    requires i <= |s|
    ensures multiset(InsertAt(s, i, x)) == multiset(s) + multiset{x}
  {
    assert s == s[..i] + s[i..];
  }

  /** `handleOnDragEnd` on the task list: without a destination nothing
      changes; otherwise the task at master position `source.index` is taken
      out, given the destination's category and put back at master position
      `destination.index`, or at the end when that position is past the end
      (as `splice` does). Both positions are used on the master list as they
      are, although the library counts them within a column. */
  function Reorder(tasks: seq<Task>, result: DropResult): (r: Result<seq<Task>, DragError>)
    ensures r.Failure? <==> result.destination.Some? && result.source.index >= |tasks|
    ensures result.destination.None? ==> r == Success(tasks)
    ensures r.Success? ==> |r.value| == |tasks|
  {
    match result.destination
    case None => Success(tasks)
    case Some(destination) =>
      if result.source.index >= |tasks| then Failure(RemovedIsUndefined)
      else
        var rest := RemoveAt(tasks, result.source.index);
        var removed := tasks[result.source.index].(category := destination.droppableId);
        Success(InsertAt(rest, Min(destination.index, |rest|), removed))
  }

  /** The drag library counts the source position within the source column,
      and a column is never longer than the list, so a position it reports
      always finds a task: the failing case of `Reorder` needs a position the
      library does not report. */
  lemma ColumnPositionNeverFails(tasks: seq<Task>, result: DropResult)
    requires result.source.index < |Column(tasks, result.source.droppableId)|
    ensures Reorder(tasks, result).Success?
  {
  }

  /** Where the dropped task ends up in the master list. */
  function Landing(tasks: seq<Task>, destination: Location): nat
    requires |tasks| > 0
  {
    Min(destination.index, |tasks| - 1)
  }

  /** The dropped task lands at the destination position (the last one when
      that is past the end) with the destination's category, and taking it
      out again leaves the other tasks exactly as they were, in the same
      order and with the same fields. */
  lemma ReorderMovesOneTask(tasks: seq<Task>, result: DropResult)
    requires result.destination.Some? && result.source.index < |tasks|
    ensures var r, k := Reorder(tasks, result), Landing(tasks, result.destination.value);
      r.Success? &&
      r.value[k] == tasks[result.source.index].(category := result.destination.value.droppableId) &&
      RemoveAt(r.value, k) == RemoveAt(tasks, result.source.index)
  {
    var rest := RemoveAt(tasks, result.source.index);
    var k := Landing(tasks, result.destination.value);
    RemoveInserted(rest, k, tasks[result.source.index].(category := result.destination.value.droppableId));
  }

  /** The identifiers of a task list, in order. */
  function Ids(tasks: seq<Task>): (ids: seq<string>)
    ensures |ids| == |tasks|
    ensures forall k :: 0 <= k < |tasks| ==> ids[k] == tasks[k].id
  {
    seq(|tasks|, k requires 0 <= k < |tasks| => tasks[k].id)
  }

  /** A drop rearranges the tasks: the identifiers after it are the
      identifiers before it, each as often as before. */
  lemma ReorderPermutesIds(tasks: seq<Task>, result: DropResult)
    requires Reorder(tasks, result).Success?
    ensures multiset(Ids(Reorder(tasks, result).value)) == multiset(Ids(tasks))
  {
    if result.destination.Some? {
      var i := result.source.index;
      var moved := tasks[i].(category := result.destination.value.droppableId);
      var rest := RemoveAt(tasks, i);
      var k := Min(result.destination.value.index, |rest|);
      assert Ids(rest) == RemoveAt(Ids(tasks), i);
      assert Ids(InsertAt(rest, k, moved)) == InsertAt(Ids(rest), k, moved.id);
      MultisetRemoveAt(Ids(tasks), i);
      MultisetInsertAt(Ids(rest), k, moved.id);
    }
  }

  /** A drop on a column keeps every task in one of the three columns. */
  lemma ReorderKeepsCategorized(tasks: seq<Task>, result: DropResult)
    requires AllCategorized(tasks)
    requires result.destination.Some? ==> result.destination.value.droppableId in Categories
    requires Reorder(tasks, result).Success?
    ensures AllCategorized(Reorder(tasks, result).value)
  {
    if result.destination.Some? {
      var r := Reorder(tasks, result).value;
      var k := Landing(tasks, result.destination.value);
      forall j | 0 <= j < |r| ensures r[j].category in Categories {
        if j < k {
        } else if j > k {
        }
      }
    }
  }

  /** A column that is neither the moved task's old category nor the one it
      was dropped on shows the same tasks in the same order. */
  lemma ReorderKeepsOtherColumns(tasks: seq<Task>, result: DropResult, category: string)
    requires result.destination.Some? && result.source.index < |tasks|
    requires category != tasks[result.source.index].category
    requires category != result.destination.value.droppableId
    ensures Column(Reorder(tasks, result).value, category) == Column(tasks, category)
  {
    var i := result.source.index;
    var moved := tasks[i].(category := result.destination.value.droppableId);
    var rest := RemoveAt(tasks, i);
    var k := Min(result.destination.value.index, |rest|);
    assert tasks == tasks[..i] + [tasks[i]] + tasks[i + 1..];
    ColumnConcat(tasks[..i] + [tasks[i]], tasks[i + 1..], category);
    ColumnConcat(tasks[..i], [tasks[i]], category);
    ColumnOfOne(tasks[i], category);
    ColumnConcat(tasks[..i], tasks[i + 1..], category);
    var r := InsertAt(rest, k, moved);
    assert rest == rest[..k] + rest[k..];
    ColumnConcat(rest[..k] + [moved], rest[k..], category);
    ColumnConcat(rest[..k], [moved], category);
    ColumnOfOne(moved, category);
    ColumnConcat(rest[..k], rest[k..], category);
  }

  /** Dropping a task back at the master position it came from, on the
      column it already belongs to, changes nothing. */
  lemma DropInPlaceIsNoOp(tasks: seq<Task>, result: DropResult)
    requires result.destination.Some? && result.source.index < |tasks|
    requires result.destination.value.index == result.source.index
    requires result.destination.value.droppableId == tasks[result.source.index].category
    ensures Reorder(tasks, result) == Success(tasks)
  {
    var i := result.source.index;
    assert tasks[i].(category := tasks[i].category) == tasks[i];
    assert InsertAt(RemoveAt(tasks, i), i, tasks[i]) == tasks;
  }

  /** A destination position at or past the last one appends the task. */
  lemma DropPastEndAppends(tasks: seq<Task>, result: DropResult)
    requires result.destination.Some? && result.source.index < |tasks|
    requires result.destination.value.index >= |tasks| - 1
    ensures Reorder(tasks, result) == Success(RemoveAt(tasks, result.source.index) +
      [tasks[result.source.index].(category := result.destination.value.droppableId)])
  {
    var rest := RemoveAt(tasks, result.source.index);
    var moved := tasks[result.source.index].(category := result.destination.value.droppableId);
    assert InsertAt(rest, |rest|, moved) == rest + [moved];
  }

  /** The positions are not translated from a column to the master list.
      With a task `a` in the first column and a task `b` in the second,
      the only task of "In Progress" is `b`, at column position 0; dropping
      it back onto "In Progress" at position 0 reports source position 0,
      and the handler moves `a`, the task at master position 0, into
      "In Progress" instead. */
  lemma ColumnPositionTakenAsMasterPosition(a: Task, b: Task)
    requires a.category == NotYetStarted && b.category == InProgress
    ensures Column([a, b], InProgress) == [b]
    ensures ColumnPositions([a, b], InProgress) == [1]
    ensures Reorder([a, b], DropResult(Location(0, InProgress), Some(Location(0, InProgress))))
            == Success([a.(category := InProgress), b])
  {
    assert [a, b][..1] == [a];
    ColumnOfOne(a, InProgress);
    assert [a][..0] == [];
    assert RemoveAt([a, b], 0) == [b];
    assert InsertAt([b], 0, a.(category := InProgress)) == [a.(category := InProgress), b];
  }
}
