/** The analyser's input and its first two steps: occupancy expansion (one
    assignment row becomes the (week day, slot) cells it covers) and resource
    indexing (each cell, with a descriptor, is appended to the list of every
    resource the row binds in one of three dimensions).
 */
module Schedule {
  import opened Grouping

  datatype Option<T> = None | Some(value: T)

  /** The atomic unit of contention: one slot on one week day. */
  datatype Cell = Cell(day: int, slot: int)

  /** One row of `schedule_results`, joined with its task's slot count and the
      course, teacher and classroom names. */
  datatype Assignment = Assignment(
    scheduleId: int,
    taskId: int,
    teacherId: int,
    classroomId: int,
    weekDay: int,
    startSlot: int,
    slotsCount: int,
    courseName: string,
    teacherName: string,
    classroomName: string)

  /** One class linked to a teaching task. */
  datatype ClassLink = ClassLink(classId: int, className: string)

  /** The task -> linked classes table, filled once per assignment row. */
  type TaskClasses = map<int, seq<ClassLink>>

  /** What is appended with each cell so that a conflict can be explained;
      only the class dimension carries a class name. */
  datatype Descriptor = Descriptor(course: string, teacher: string, classroom: string, className: Option<string>)

  /** One item of a resource's list: a cell and its descriptor. */
  datatype Entry = Entry(cell: Cell, desc: Descriptor)

  /** A resource id with one of its entries, in the order appended. */
  type Record = (int, Entry)

  /** The three independent resource dimensions. */
  datatype Dimension = ClassDim | TeacherDim | ClassroomDim

  /** The number of cells an assignment occupies: `range` is empty when the
      count is not positive. */
  function Span(a: Assignment): nat
  {
    if a.slotsCount > 0 then a.slotsCount else 0
  }

  /** The cells `(day, s)` for `s` in `range(lo, hi + 1)`, ascending. */
  function Slots(day: int, lo: int, hi: int): (cells: seq<Cell>)
    decreases hi - lo
    ensures |cells| == if lo <= hi then hi - lo + 1 else 0
    ensures forall i :: 0 <= i < |cells| ==> cells[i] == Cell(day, lo + i)
  {
    if lo > hi then [] else [Cell(day, lo)] + Slots(day, lo + 1, hi)
  }

  /** Occupancy expansion of one row: `start_slot .. start_slot + slots_count - 1`
      on its week day. No validation: a non-positive count gives no cells. */
  function Expand(a: Assignment): (cells: seq<Cell>)
    ensures |cells| == Span(a)
    ensures forall i :: 0 <= i < |cells| ==> cells[i] == Cell(a.weekDay, a.startSlot + i)
    ensures forall i, j :: 0 <= i < j < |cells| ==> cells[i] != cells[j]
  {
    Slots(a.weekDay, a.startSlot, a.startSlot + a.slotsCount - 1)
  }

  /** A cell is occupied by a row exactly when it lies on the row's week day
      between its first and last slot, inclusive. */
  lemma ExpandMembers(a: Assignment, c: Cell)
    ensures c in Expand(a) <==> c.day == a.weekDay && a.startSlot <= c.slot <= a.startSlot + a.slotsCount - 1
  {
    var cells := Expand(a);
    if c.day == a.weekDay && a.startSlot <= c.slot <= a.startSlot + a.slotsCount - 1 {
      assert cells[c.slot - a.startSlot] == c;
    }
  }

  /** The classes linked to a task; a task the table does not know has none. */
  function LinksOf(tc: TaskClasses, taskId: int): seq<ClassLink>
  {
    if taskId in tc then tc[taskId] else []
  }

  /** The descriptor of a row, with the class name for the class dimension. */
  function Describe(a: Assignment, className: Option<string>): Descriptor
  {
    Descriptor(a.courseName, a.teacherName, a.classroomName, className)
  }

  function ClassBindings(a: Assignment, links: seq<ClassLink>): seq<(int, Descriptor)>
  {
    if |links| == 0 then []
    else [(links[0].classId, Describe(a, Some(links[0].className)))] + ClassBindings(a, links[1..])
  }

  /** The resources a row occupies in one dimension, each with the descriptor
      appended under it: every linked class, or the teacher, or the classroom. */
  function Bindings(dim: Dimension, a: Assignment, tc: TaskClasses): seq<(int, Descriptor)>
  {
    match dim
    case ClassDim => ClassBindings(a, LinksOf(tc, a.taskId))
    case TeacherDim => [(a.teacherId, Describe(a, None))]
    case ClassroomDim => [(a.classroomId, Describe(a, None))]
  }

  /** The entries of one descriptor at each of the given cells. */
  function Stamp(cells: seq<Cell>, d: Descriptor): (es: seq<Entry>)
    ensures |es| == |cells|
  {
    if |cells| == 0 then [] else [Entry(cells[0], d)] + Stamp(cells[1..], d)
  }

  /** Entries filed, in order, under one resource id. */
  function File(rid: int, es: seq<Entry>): (rs: seq<Record>)
    ensures |rs| == |es|
  {
    if |es| == 0 then [] else [(rid, es[0])] + File(rid, es[1..])
  }

  /** The records of one resource at each of the given cells: the stamped
      entries, filed under the resource id. */
  function Attribute(rid: int, d: Descriptor, cells: seq<Cell>): seq<Record>
  {
    File(rid, Stamp(cells, d))
  }

  /** Outer loop over the bindings, inner loop over the cells. */
  function Spread(bs: seq<(int, Descriptor)>, cells: seq<Cell>): seq<Record>
  {
    if |bs| == 0 then [] else Attribute(bs[0].0, bs[0].1, cells) + Spread(bs[1..], cells)
  }

  /** What one row appends to a dimension's index, in append order. */
  function RowRecords(dim: Dimension, a: Assignment, tc: TaskClasses): seq<Record>
  {
    Spread(Bindings(dim, a, tc), Expand(a))
  }

  /** What all rows append to a dimension's index, in input order. */
  function Records(dim: Dimension, rows: seq<Assignment>, tc: TaskClasses): seq<Record>
  {
    if |rows| == 0 then []
    else Records(dim, rows[..|rows| - 1], tc) + RowRecords(dim, rows[|rows| - 1], tc)
  }

  /** A dimension's index (`class_schedule`, `teacher_schedule` or
      `classroom_schedule`): resource id -> its entries in append order. */
  function BuildIndex(dim: Dimension, rows: seq<Assignment>, tc: TaskClasses): seq<Group<int, Entry>>
  {
    GroupBy(Records(dim, rows, tc))
  }

  /** The number of bindings of a row that name resource `r`. */
  function Multiplicity(bs: seq<(int, Descriptor)>, r: int): nat
  {
    if |bs| == 0 then 0 else (if bs[0].0 == r then 1 else 0) + Multiplicity(bs[1..], r)
  }

  /** No two entries sit at the same cell. */
  ghost predicate CellsDistinct(es: seq<Entry>)
  {
    forall i, j :: 0 <= i < j < |es| ==> es[i].cell != es[j].cell
  }
}
