/**
 * The values held by the task board of `App`: tasks, columns, the drop
 * result that the drag-and-drop layer reports, and the edit draft. The
 * operations here are the value-level steps the handlers are built from
 * (`splice`, `filter`, `findIndex`, the object spreads), with their
 * properties; the handlers themselves are methods of `App.Board`.
 */
module Kanban {

  datatype Option<T> = None | Some(value: T)

  /** Task ids are strings (the source renders a random number). */
  type TaskId = string

  datatype Task = Task(id: TaskId, content: string, description: string)

  datatype Column = Column(name: string, items: seq<Task>)

  /** The four column keys, in the order the board lists its columns. */
  datatype ColumnKey = Requested | ToDo | InProgress | Done

  /** The board: every key maps to its column. */
  type Columns = map<ColumnKey, Column>

  /** Where a dragged task was picked up or dropped. */
  datatype DraggableLocation = DraggableLocation(droppableId: ColumnKey, index: nat)

  /** What the drag-and-drop layer reports when a drag ends; no destination
      means the task was dropped outside every column. */
  datatype DropResult = DropResult(source: DraggableLocation, destination: Option<DraggableLocation>)

  /** The in-progress edit: which task, and the draft title and description. */
  datatype EditDraft = EditDraft(taskId: Option<TaskId>, content: string, description: string)

  const EmptyDraft: EditDraft := EditDraft(None, "", "")

  // ---------------------------------------------------------------------
  // Splicing one column's items

  /** Where `splice` starts: a start past the end is the end. */
  function Clamp(index: nat, length: nat): (r: nat)
    ensures r <= length && r <= index
    ensures r == index || r == length
  {
    if index <= length then index else length
  }

  /** `items.splice(index, 1)` on a copy: the items without the one at `index`. */
  function RemoveAt(items: seq<Task>, index: nat): (r: seq<Task>)
    requires index < |items|
    ensures |r| == |items| - 1
    ensures forall j :: 0 <= j < index ==> r[j] == items[j]
    ensures forall j :: index <= j < |r| ==> r[j] == items[j + 1]
  {
    items[..index] + items[index + 1..]
  }

  /** `items.splice(index, 0, t)` on a copy: `t` now sits at `index`, the items
      before it keep their place and the ones after it move up by one. */
  function InsertAt(items: seq<Task>, index: nat, t: Task): (r: seq<Task>)
    requires index <= |items|
    ensures |r| == |items| + 1 && r[index] == t
    ensures forall j :: 0 <= j < index ==> r[j] == items[j]
    ensures forall j :: index < j < |r| ==> r[j] == items[j - 1]
  {
    items[..index] + [t] + items[index..]
  }

  /** Putting back what was removed restores the items. */
  lemma RemoveThenInsert(items: seq<Task>, index: nat)
    requires index < |items|
    ensures InsertAt(RemoveAt(items, index), index, items[index]) == items
  {
  }

  /** Removing what was inserted restores the items. */
  lemma InsertThenRemove(items: seq<Task>, index: nat, t: Task)
    requires index <= |items|
    ensures RemoveAt(InsertAt(items, index, t), index) == items
  {
  }

  /** Removing an item takes exactly that item out of the multiset. */
  lemma RemoveAtMultiset(items: seq<Task>, index: nat)
    requires index < |items|
    ensures multiset(RemoveAt(items, index)) + multiset{items[index]} == multiset(items)
  {
    assert items == items[..index] + [items[index]] + items[index + 1..];
  }

  /** Inserting an item adds exactly that item to the multiset. */
  lemma InsertAtMultiset(items: seq<Task>, index: nat, t: Task)
    requires index <= |items|
    ensures multiset(InsertAt(items, index, t)) == multiset(items) + multiset{t}
  {
    assert items == items[..index] + items[index..];
  }

  // ---------------------------------------------------------------------
  // Moving within one column

  /** The same-column drop: splice the task out at `from`, splice it back in
      at `to` (clamped as `splice` clamps it). */
  function Reorder(items: seq<Task>, from: nat, to: nat): (r: seq<Task>)
    requires from < |items|
    ensures |r| == |items|
    ensures r[Clamp(to, |items| - 1)] == items[from]
  {
    var rest := RemoveAt(items, from);
    InsertAt(rest, Clamp(to, |rest|), items[from])
  }

  /** A same-column move is a permutation that puts the moved task at the
      (clamped) destination, and the other tasks keep their relative order. */
  lemma ReorderIsPermutation(items: seq<Task>, from: nat, to: nat)
    requires from < |items|
    ensures |Reorder(items, from, to)| == |items|
    ensures multiset(Reorder(items, from, to)) == multiset(items)
    ensures Reorder(items, from, to)[Clamp(to, |items| - 1)] == items[from]
    ensures RemoveAt(Reorder(items, from, to), Clamp(to, |items| - 1)) == RemoveAt(items, from)
  {
    var rest := RemoveAt(items, from);
    InsertAtMultiset(rest, Clamp(to, |rest|), items[from]);
    RemoveAtMultiset(items, from);
    InsertThenRemove(rest, Clamp(to, |rest|), items[from]);
  }

  /** Dragging the task back from where it landed to where it came from
      undoes a same-column move. */
  lemma ReorderRoundTrip(items: seq<Task>, from: nat, to: nat)
    requires from < |items|
    ensures Reorder(Reorder(items, from, to), Clamp(to, |items| - 1), from) == items
  {
  }

  // ---------------------------------------------------------------------
  // Counting ids

  /** How many of `items` carry the id `id`. */
  function IdCount(items: seq<Task>, id: TaskId): (n: nat)
    ensures n <= |items|
    ensures n == 0 <==> forall j :: 0 <= j < |items| ==> items[j].id != id
  {
    if items == [] then 0
    else
      var rest := IdCount(items[1..], id);
      assert rest == 0 <==> forall j :: 1 <= j < |items| ==> items[j].id != id by {
        assert forall j :: 1 <= j < |items| ==> items[j] == items[1..][j - 1];
      }
      (if items[0].id == id then 1 else 0) + rest
  }

  /** Counting ids distributes over concatenation. */
  lemma {:induction false} IdCountAppend(a: seq<Task>, b: seq<Task>, id: TaskId)
    ensures IdCount(a + b, id) == IdCount(a, id) + IdCount(b, id)
  {
    if a == [] {
      assert a + b == b;
    } else {
      assert (a + b)[1..] == a[1..] + b;
      IdCountAppend(a[1..], b, id);
    }
  }

  /** Two item lists with the same ids in the same places have the same id counts. */
  lemma {:induction false} IdCountSameIds(a: seq<Task>, b: seq<Task>, id: TaskId)
    requires |a| == |b|
    requires forall j :: 0 <= j < |a| ==> a[j].id == b[j].id
    ensures IdCount(a, id) == IdCount(b, id)
  {
    if a != [] {
      IdCountSameIds(a[1..], b[1..], id);
    }
  }

  /** Removing the item at `index` lowers the count of its id by one and keeps the others. */
  lemma RemoveAtIdCount(items: seq<Task>, index: nat, id: TaskId)
    requires index < |items|
    ensures IdCount(RemoveAt(items, index), id) + (if items[index].id == id then 1 else 0)
            == IdCount(items, id)
  {
    assert items == items[..index] + ([items[index]] + items[index + 1..]);
    IdCountAppend(items[..index], [items[index]] + items[index + 1..], id);
    IdCountAppend([items[index]], items[index + 1..], id);
    IdCountAppend(items[..index], items[index + 1..], id);
  }

  /** Inserting `t` raises the count of its id by one and keeps the others. */
  lemma InsertAtIdCount(items: seq<Task>, index: nat, t: Task, id: TaskId)
    requires index <= |items|
    ensures IdCount(InsertAt(items, index, t), id)
            == IdCount(items, id) + (if t.id == id then 1 else 0)
  {
    assert items == items[..index] + items[index..];
    IdCountAppend(items[..index] + [t], items[index..], id);
    IdCountAppend(items[..index], [t], id);
    IdCountAppend(items[..index], items[index..], id);
  }

  // ---------------------------------------------------------------------
  // Deleting by id

  /** `items.filter(item => item.id !== id)`. */
  function WithoutTask(items: seq<Task>, id: TaskId): (r: seq<Task>)
    ensures |r| == |items| - IdCount(items, id)
    ensures forall t :: t in r <==> t in items && t.id != id
  {
    if items == [] then []
    else
      assert items == [items[0]] + items[1..];
      (if items[0].id != id then [items[0]] else []) + WithoutTask(items[1..], id)
  }

  /** The filter keeps relative order: it works piece by piece. */
  lemma {:induction false} WithoutTaskAppend(a: seq<Task>, b: seq<Task>, id: TaskId)
    ensures WithoutTask(a + b, id) == WithoutTask(a, id) + WithoutTask(b, id)
  {
    if a == [] {
      assert a + b == b;
    } else {
      assert (a + b)[1..] == a[1..] + b;
      WithoutTaskAppend(a[1..], b, id);
    }
  }

  /** Deleting an id no item carries changes nothing. */
  lemma {:induction false} WithoutAbsentTask(items: seq<Task>, id: TaskId)
    requires IdCount(items, id) == 0
    ensures WithoutTask(items, id) == items
  {
    if items != [] {
      assert IdCount(items[1..], id) == 0;
      WithoutAbsentTask(items[1..], id);
    }
  }

  /** Deleting an id that exactly one item carries is splicing out that item. */
  lemma {:induction false} WithoutUniqueTask(items: seq<Task>, id: TaskId, index: nat)
    requires index < |items| && items[index].id == id
    requires IdCount(items, id) == 1
    ensures WithoutTask(items, id) == RemoveAt(items, index)
  {
    var head, tail := items[0], items[1..];
    assert items == [head] + tail;
    if index == 0 {
      assert IdCount(tail, id) == 0;
      WithoutAbsentTask(tail, id);
    } else {
      assert tail[index - 1].id == id;
      assert head.id != id && IdCount(tail, id) == 1;
      WithoutUniqueTask(tail, id, index - 1);
      UnconsRemoveAt(items, index);
    }
  }

  /** Splicing out a later item keeps the first. */
  lemma UnconsRemoveAt(items: seq<Task>, index: nat)
    requires 0 < index < |items|
    ensures RemoveAt(items, index) == [items[0]] + RemoveAt(items[1..], index - 1)
  {
  }

  /** After the filter no item carries `id`; the counts of the other ids stay. */
  lemma {:induction false} WithoutTaskIdCount(items: seq<Task>, id: TaskId, other: TaskId)
    ensures IdCount(WithoutTask(items, id), other) == if other == id then 0 else IdCount(items, other)
  {
    if items != [] {
      WithoutTaskIdCount(items[1..], id, other);
      var head: seq<Task> := if items[0].id != id then [items[0]] else [];
      IdCountAppend(head, WithoutTask(items[1..], id), other);
    }
  }

  // ---------------------------------------------------------------------
  // Saving an edit

  /** `items.findIndex(item => item.id === key)`: the first item carrying the
      key, or -1. A `None` key (the source's `null`) matches no task. */
  function FindIndex(items: seq<Task>, key: Option<TaskId>): (r: int)
    ensures -1 <= r < |items|
    ensures r == -1 ==> forall j :: 0 <= j < |items| ==> key != Some(items[j].id)
    ensures 0 <= r ==> key == Some(items[r].id)
    ensures 0 <= r ==> forall j :: 0 <= j < r ==> key != Some(items[j].id)
  {
    if items == [] then -1
    else if key == Some(items[0].id) then 0
    else
      var k := FindIndex(items[1..], key);
      assert forall j :: 1 <= j < |items| ==> items[j] == items[1..][j - 1];
      if k == -1 then -1 else k + 1
  }

  /** The task at `index` takes the draft's title and description in place;
      its id and every other task stay as they were. */
  function UpdateAt(items: seq<Task>, index: nat, content: string, description: string): (r: seq<Task>)
    requires index < |items|
    ensures |r| == |items|
    ensures r[index] == Task(items[index].id, content, description)
    ensures forall j :: 0 <= j < |r| && j != index ==> r[j] == items[j]
  {
    items[index := items[index].(content := content, description := description)]
  }

  /** Saving an edit changes no id count. */
  lemma UpdateAtIdCount(items: seq<Task>, index: nat, content: string, description: string, id: TaskId)
    requires index < |items|
    ensures IdCount(UpdateAt(items, index, content, description), id) == IdCount(items, id)
  {
    IdCountSameIds(UpdateAt(items, index, content, description), items, id);
  }

  // ---------------------------------------------------------------------
  // The board

  /** The display name each column is created with. */
  function ColumnName(k: ColumnKey): (r: string)
    ensures k.Requested? <==> r == "Requested"
    ensures k.ToDo? <==> r == "To do"
    ensures k.InProgress? <==> r == "In Progress"
    ensures k.Done? <==> r == "Done"
  {
    match k
    case Requested => "Requested"
    case ToDo => "To do"
    case InProgress => "In Progress"
    case Done => "Done"
  }

  /** Every key is present and each column keeps its fixed display name. */
  predicate WellFormed(cols: Columns) {
    forall k: ColumnKey :: k in cols && cols[k].name == ColumnName(k)
  }

  /** A board that names its four columns is well formed. */
  lemma EveryKeyNamed(cols: Columns)
    requires Requested in cols && cols[Requested].name == ColumnName(Requested)
    requires ToDo in cols && cols[ToDo].name == ColumnName(ToDo)
    requires InProgress in cols && cols[InProgress].name == ColumnName(InProgress)
    requires Done in cols && cols[Done].name == ColumnName(Done)
    ensures WellFormed(cols)
  {
    forall k: ColumnKey ensures k in cols && cols[k].name == ColumnName(k) {
      match k
      case Requested =>
      case ToDo =>
      case InProgress =>
      case Done =>
    }
  }

  /** The board the application starts with: four named, empty columns. */
  function InitialColumns(): (cols: Columns)
    ensures WellFormed(cols)
    ensures forall k: ColumnKey :: cols[k].items == []
  {
    var cols := map[Requested := Column("Requested", []), ToDo := Column("To do", []),
                    InProgress := Column("In Progress", []), Done := Column("Done", [])];
    EveryKeyNamed(cols);
    cols
  }

  /** The number of tasks on the board. */
  function TaskCount(cols: Columns): nat
    requires WellFormed(cols)
  {
    |cols[Requested].items| + |cols[ToDo].items| + |cols[InProgress].items| + |cols[Done].items|
  }

  /** The number of tasks on the whole board that carry `id`. */
  function BoardIdCount(cols: Columns, id: TaskId): nat
    requires WellFormed(cols)
  {
    IdCount(cols[Requested].items, id) + IdCount(cols[ToDo].items, id)
    + IdCount(cols[InProgress].items, id) + IdCount(cols[Done].items, id)
  }

  /** No id is carried by two tasks, in one column or across columns. */
  ghost predicate UniqueIds(cols: Columns)
    requires WellFormed(cols)
  {
    forall id :: BoardIdCount(cols, id) <= 1
  }

  /** `{...columns, [k]: {...columns[k], items}}`: column `k` gets new items. */
  function WithItems(cols: Columns, k: ColumnKey, items: seq<Task>): (r: Columns)
    requires WellFormed(cols)
    ensures WellFormed(r)
    ensures r[k].items == items
    ensures forall k' :: k' != k ==> r[k'] == cols[k']
  {
    cols[k := cols[k].(items := items)]
  }

  /** One column's share of the task count. */
  lemma WithItemsCounts(cols: Columns, k: ColumnKey, items: seq<Task>)
    requires WellFormed(cols)
    ensures TaskCount(WithItems(cols, k, items)) + |cols[k].items| == TaskCount(cols) + |items|
    ensures forall id :: BoardIdCount(WithItems(cols, k, items), id) + IdCount(cols[k].items, id)
                         == BoardIdCount(cols, id) + IdCount(items, id)
  {
  }

  /** A column's count of an id is at most the board's. */
  lemma ColumnIdCount(cols: Columns, k: ColumnKey, id: TaskId)
    requires WellFormed(cols)
    ensures IdCount(cols[k].items, id) <= BoardIdCount(cols, id)
  {
  }

  /** The cross-column drop: the task at `from` leaves `src` and enters `dst`
      at `to` (clamped as `splice` clamps it). */
  function MoveAcross(cols: Columns, src: ColumnKey, from: nat, dst: ColumnKey, to: nat): (r: Columns)
    requires WellFormed(cols) && src != dst && from < |cols[src].items|
    ensures WellFormed(r)
    ensures r[src].items == RemoveAt(cols[src].items, from)
    ensures r[dst].items == InsertAt(cols[dst].items, Clamp(to, |cols[dst].items|), cols[src].items[from])
    ensures forall k :: k != src && k != dst ==> r[k] == cols[k]
  {
    var srcItems := cols[src].items;
    var dstItems := cols[dst].items;
    WithItems(WithItems(cols, src, RemoveAt(srcItems, from)), dst,
              InsertAt(dstItems, Clamp(to, |dstItems|), srcItems[from]))
  }

  /** A cross-column move takes exactly the task at `from` out of `src`,
      puts that task at the clamped `to` in `dst`, leaves the other columns
      alone, keeps the number of tasks and every id count, and therefore
      keeps ids unique. */
  lemma MoveAcrossConserves(cols: Columns, src: ColumnKey, from: nat, dst: ColumnKey, to: nat)
    requires WellFormed(cols) && src != dst && from < |cols[src].items|
    ensures var r := MoveAcross(cols, src, from, dst, to);
      && |r[src].items| == |cols[src].items| - 1
      && |r[dst].items| == |cols[dst].items| + 1
      && r[dst].items[Clamp(to, |cols[dst].items|)] == cols[src].items[from]
      && multiset(r[src].items) + multiset{cols[src].items[from]} == multiset(cols[src].items)
      && multiset(r[dst].items) == multiset(cols[dst].items) + multiset{cols[src].items[from]}
      && (forall k :: k != src && k != dst ==> r[k] == cols[k])
      && TaskCount(r) == TaskCount(cols)
      && (forall id :: BoardIdCount(r, id) == BoardIdCount(cols, id))
      && (UniqueIds(cols) ==> UniqueIds(r))
  {
    var srcItems := cols[src].items;
    var r := MoveAcross(cols, src, from, dst, to);
    RemoveAtMultiset(srcItems, from);
    InsertAtMultiset(cols[dst].items, Clamp(to, |cols[dst].items|), srcItems[from]);
    forall id ensures BoardIdCount(r, id) == BoardIdCount(cols, id) {
      MoveAcrossCounts(cols, src, from, dst, to, id);
    }
    MoveAcrossCounts(cols, src, from, dst, to, srcItems[from].id);
  }

  /** The task count and the count of one id, before and after a
      cross-column move. */
  lemma MoveAcrossCounts(cols: Columns, src: ColumnKey, from: nat, dst: ColumnKey, to: nat, id: TaskId)
    requires WellFormed(cols) && src != dst && from < |cols[src].items|
    ensures var r := MoveAcross(cols, src, from, dst, to);
      && TaskCount(r) == TaskCount(cols)
      && BoardIdCount(r, id) == BoardIdCount(cols, id)
  {
    var srcItems := cols[src].items;
    var dstItems := cols[dst].items;
    var t := srcItems[from];
    TwoColumnsCounts(cols, MoveAcross(cols, src, from, dst, to), src, dst, id);
    RemoveAtIdCount(srcItems, from, id);
    InsertAtIdCount(dstItems, Clamp(to, |dstItems|), t, id);
  }

  /** Two boards that differ in two columns at most: the task count and the
      count of one id differ by what those two columns hold. */
  lemma TwoColumnsCounts(a: Columns, b: Columns, k1: ColumnKey, k2: ColumnKey, id: TaskId)
    requires WellFormed(a) && WellFormed(b) && k1 != k2
    requires forall k :: k != k1 && k != k2 ==> b[k] == a[k]
    ensures TaskCount(b) + |a[k1].items| + |a[k2].items| == TaskCount(a) + |b[k1].items| + |b[k2].items|
    ensures BoardIdCount(b, id) + IdCount(a[k1].items, id) + IdCount(a[k2].items, id)
            == BoardIdCount(a, id) + IdCount(b[k1].items, id) + IdCount(b[k2].items, id)
  {
  }

  /** Dragging the task back from where it landed to where it came from
      restores the board. */
  lemma MoveAcrossRoundTrip(cols: Columns, src: ColumnKey, from: nat, dst: ColumnKey, to: nat)
    requires WellFormed(cols) && src != dst && from < |cols[src].items|
    ensures var r := MoveAcross(cols, src, from, dst, to);
      && Clamp(to, |cols[dst].items|) < |r[dst].items|
      && MoveAcross(r, dst, Clamp(to, |cols[dst].items|), src, from) == cols
  {
    var r := MoveAcross(cols, src, from, dst, to);
    var back := MoveAcross(r, dst, Clamp(to, |cols[dst].items|), src, from);
    forall k ensures back[k] == cols[k] {
      MoveBackColumn(cols, src, from, dst, to, k);
    }
    SameColumns(back, cols);
  }

  /** One column of the board after a move and the move back. */
  lemma MoveBackColumn(cols: Columns, src: ColumnKey, from: nat, dst: ColumnKey, to: nat, k: ColumnKey)
    requires WellFormed(cols) && src != dst && from < |cols[src].items|
    ensures var r := MoveAcross(cols, src, from, dst, to);
      && Clamp(to, |cols[dst].items|) < |r[dst].items|
      && MoveAcross(r, dst, Clamp(to, |cols[dst].items|), src, from)[k] == cols[k]
  {
    var srcItems := cols[src].items;
    var dstItems := cols[dst].items;
    var at := Clamp(to, |dstItems|);
    var t := srcItems[from];
    var r := MoveAcross(cols, src, from, dst, to);
    assert r[dst].items[at] == t;
    if k == dst {
      InsertThenRemove(dstItems, at, t);
    } else if k == src {
      assert Clamp(from, |r[src].items|) == from;
      RemoveThenInsert(srcItems, from);
    }
  }

  /** Two well-formed boards with the same columns are the same board. */
  lemma SameColumns(a: Columns, b: Columns)
    requires WellFormed(a) && WellFormed(b)
    requires forall k :: a[k] == b[k]
    ensures a == b
  {
    assert a.Keys == b.Keys;
  }

  /** The same-column drop on the board. */
  function MoveWithin(cols: Columns, k: ColumnKey, from: nat, to: nat): (r: Columns)
    requires WellFormed(cols) && from < |cols[k].items|
    ensures WellFormed(r)
    ensures r[k].items == Reorder(cols[k].items, from, to)
    ensures forall k' :: k' != k ==> r[k'] == cols[k']
  {
    WithItems(cols, k, Reorder(cols[k].items, from, to))
  }

  /** A same-column move permutes that column, puts the moved task at the
      clamped destination, and leaves every other column, the number of tasks
      and every id count as they were. */
  lemma MoveWithinConserves(cols: Columns, k: ColumnKey, from: nat, to: nat)
    requires WellFormed(cols) && from < |cols[k].items|
    ensures var r := MoveWithin(cols, k, from, to);
      && multiset(r[k].items) == multiset(cols[k].items)
      && r[k].items[Clamp(to, |cols[k].items| - 1)] == cols[k].items[from]
      && (forall k' :: k' != k ==> r[k'] == cols[k'])
      && TaskCount(r) == TaskCount(cols)
      && (forall id :: BoardIdCount(r, id) == BoardIdCount(cols, id))
      && (UniqueIds(cols) ==> UniqueIds(r))
  {
    var items := cols[k].items;
    var r := MoveWithin(cols, k, from, to);
    ReorderIsPermutation(items, from, to);
    WithItemsCounts(cols, k, Reorder(items, from, to));
    forall id ensures BoardIdCount(r, id) == BoardIdCount(cols, id) {
      var rest := RemoveAt(items, from);
      RemoveAtIdCount(items, from, id);
      InsertAtIdCount(rest, Clamp(to, |rest|), items[from], id);
    }
  }

  /** Deleting on the board: column `k` keeps the tasks not carrying `id`. */
  function Delete(cols: Columns, k: ColumnKey, id: TaskId): (r: Columns)
    requires WellFormed(cols)
    ensures WellFormed(r)
    ensures r[k].items == WithoutTask(cols[k].items, id)
    ensures forall k' :: k' != k ==> r[k'] == cols[k']
  {
    WithItems(cols, k, WithoutTask(cols[k].items, id))
  }

  /** Deleting never creates a duplicate id, and only `id` loses tasks. */
  lemma DeleteKeepsIdsUnique(cols: Columns, k: ColumnKey, id: TaskId)
    requires WellFormed(cols)
    ensures forall x :: BoardIdCount(Delete(cols, k, id), x)
                        == if x == id then BoardIdCount(cols, x) - IdCount(cols[k].items, x)
                           else BoardIdCount(cols, x)
    ensures UniqueIds(cols) ==> UniqueIds(Delete(cols, k, id))
  {
    WithItemsCounts(cols, k, WithoutTask(cols[k].items, id));
    forall x ensures IdCount(WithoutTask(cols[k].items, id), x)
                     == if x == id then 0 else IdCount(cols[k].items, x) {
      WithoutTaskIdCount(cols[k].items, id, x);
    }
  }

  /** On a board with unique ids, deleting the id of the task at `index` of
      column `k` removes exactly that task: the column is spliced at `index`,
      the board holds one task fewer, and no other column changes. */
  lemma DeletePresentTask(cols: Columns, k: ColumnKey, id: TaskId, index: nat)
    requires WellFormed(cols) && UniqueIds(cols)
    requires index < |cols[k].items| && cols[k].items[index].id == id
    ensures Delete(cols, k, id)[k].items == RemoveAt(cols[k].items, index)
    ensures TaskCount(Delete(cols, k, id)) == TaskCount(cols) - 1
    ensures forall k' :: k' != k ==> Delete(cols, k, id)[k'] == cols[k']
  {
    ColumnIdCount(cols, k, id);
    assert BoardIdCount(cols, id) <= 1;
    WithoutUniqueTask(cols[k].items, id, index);
    WithItemsCounts(cols, k, WithoutTask(cols[k].items, id));
  }

  /** Deleting an id that column `k` does not hold leaves the board as it was. */
  lemma DeleteAbsentTask(cols: Columns, k: ColumnKey, id: TaskId)
    requires WellFormed(cols)
    requires forall j :: 0 <= j < |cols[k].items| ==> cols[k].items[j].id != id
    ensures Delete(cols, k, id) == cols
  {
    WithoutAbsentTask(cols[k].items, id);
    assert forall k' :: Delete(cols, k, id)[k'] == cols[k'];
  }

  /** Saving an edit on the board: task `index` of column `k` takes the draft. */
  function SaveAt(cols: Columns, k: ColumnKey, index: nat, content: string, description: string): (r: Columns)
    requires WellFormed(cols) && index < |cols[k].items|
    ensures WellFormed(r)
    ensures r[k].items == UpdateAt(cols[k].items, index, content, description)
    ensures forall k' :: k' != k ==> r[k'] == cols[k']
  {
    WithItems(cols, k, UpdateAt(cols[k].items, index, content, description))
  }

  /** Saving keeps the number of tasks and every id count, so ids stay unique. */
  lemma SaveAtConserves(cols: Columns, k: ColumnKey, index: nat, content: string, description: string)
    requires WellFormed(cols) && index < |cols[k].items|
    ensures var r := SaveAt(cols, k, index, content, description);
      && TaskCount(r) == TaskCount(cols)
      && (forall id :: BoardIdCount(r, id) == BoardIdCount(cols, id))
      && (UniqueIds(cols) ==> UniqueIds(r))
  {
    WithItemsCounts(cols, k, UpdateAt(cols[k].items, index, content, description));
    forall id ensures IdCount(UpdateAt(cols[k].items, index, content, description), id) == IdCount(cols[k].items, id) {
      UpdateAtIdCount(cols[k].items, index, content, description, id);
    }
  }

  /** Adding: `t` goes to the end of `requested`. */
  function Append(cols: Columns, t: Task): (r: Columns)
    requires WellFormed(cols)
    ensures WellFormed(r)
    ensures r[Requested].items == cols[Requested].items + [t]
    ensures forall k :: k != Requested ==> r[k] == cols[k]
  {
    WithItems(cols, Requested, cols[Requested].items + [t])
  }

  /** Adding a task with an id not on the board puts it last in `requested`,
      keeps the earlier tasks and the other columns, adds one to the task
      count, and keeps ids unique. */
  lemma AppendFresh(cols: Columns, t: Task)
    requires WellFormed(cols) && UniqueIds(cols) && BoardIdCount(cols, t.id) == 0
    ensures var r := Append(cols, t);
      && |r[Requested].items| == |cols[Requested].items| + 1
      && r[Requested].items[|cols[Requested].items|] == t
      && r[Requested].items[..|cols[Requested].items|] == cols[Requested].items
      && (forall k :: k != Requested ==> r[k] == cols[k])
      && TaskCount(r) == TaskCount(cols) + 1
      && UniqueIds(r)
  {
    var items := cols[Requested].items;
    WithItemsCounts(cols, Requested, items + [t]);
    forall id ensures IdCount(items + [t], id) == IdCount(items, id) + (if t.id == id then 1 else 0) {
      IdCountAppend(items, [t], id);
    }
  }
}
