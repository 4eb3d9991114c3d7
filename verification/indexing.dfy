/** Laws of resource indexing: how many entries one assignment row appends,
    under which resource ids, and that every other resource's list is left
    as it was. */
module Indexing {
  import opened Grouping
  import opened Schedule

  /** The single resource a row occupies in the teacher or classroom dimension. */
  function Owner(dim: Dimension, a: Assignment): int
    requires dim != ClassDim
  {
    if dim == TeacherDim then a.teacherId else a.classroomId
  }

  lemma {:induction false} StampFacts(cells: seq<Cell>, d: Descriptor)
    ensures |Stamp(cells, d)| == |cells|
    ensures forall i :: 0 <= i < |cells| ==> Stamp(cells, d)[i] == Entry(cells[i], d)
  {
    if |cells| > 0 {
      StampFacts(cells[1..], d);
    }
  }

  /** Entries stamped on pairwise different cells sit at pairwise different cells. */
  lemma StampDistinct(cells: seq<Cell>, d: Descriptor)
    requires forall i, j :: 0 <= i < j < |cells| ==> cells[i] != cells[j]
    ensures CellsDistinct(Stamp(cells, d))
  {
    StampFacts(cells, d);
  }

  lemma {:induction false} AttributeFacts(rid: int, d: Descriptor, cells: seq<Cell>)
    ensures |Attribute(rid, d, cells)| == |cells|
    ensures forall i :: 0 <= i < |cells| ==> Attribute(rid, d, cells)[i] == (rid, Entry(cells[i], d))
  {
    if |cells| > 0 {
      assert Stamp(cells, d)[1..] == Stamp(cells[1..], d);
      AttributeFacts(rid, d, cells[1..]);
    }
  }

  /** Records for a cell list are the first cell's record followed by the
      records for the rest, as the loop over the cells appends them. */
  lemma AttributeCons(rid: int, d: Descriptor, cells: seq<Cell>)
    requires |cells| > 0
    ensures Attribute(rid, d, cells) == [(rid, Entry(cells[0], d))] + Attribute(rid, d, cells[1..])
  {
    AttributeFacts(rid, d, cells);
    AttributeFacts(rid, d, cells[1..]);
  }

  /** Records for one resource select, for that resource, the stamped
      entries in cell order, and nothing for any other resource. */
  lemma {:induction false} AttributeSelect(rid: int, d: Descriptor, cells: seq<Cell>, k: int)
    ensures |Attribute(rid, d, cells)| == |cells|
    ensures Select(Attribute(rid, d, cells), k) == if k == rid then Stamp(cells, d) else []
  {
    if |cells| > 0 {
      AttributeCons(rid, d, cells);
      AttributeSelect(rid, d, cells[1..], k);
      SelectAppend([(rid, Entry(cells[0], d))], Attribute(rid, d, cells[1..]));
    }
  }

  lemma Distribute(m: int, x: int, y: int)
    ensures m * x + m * y == m * (x + y)
  {
  }

  /** How many records a row's bindings append: `|cells|` for each binding,
      so `|cells|` times the number of bindings that name `k` for resource `k`. */
  lemma {:induction false} SpreadSelect(bs: seq<(int, Descriptor)>, cells: seq<Cell>, k: int)
    ensures |Spread(bs, cells)| == |cells| * |bs|
    ensures |Select(Spread(bs, cells), k)| == |cells| * Multiplicity(bs, k)
  {
    if |bs| > 0 {
      SpreadSelect(bs[1..], cells, k);
      AttributeSelect(bs[0].0, bs[0].1, cells, k);
      SelectAppend(Attribute(bs[0].0, bs[0].1, cells), Spread(bs[1..], cells));
      StampFacts(cells, bs[0].1);
      var m, b := |cells|, if bs[0].0 == k then 1 else 0;
      Distribute(m, 1, |bs| - 1);
      Distribute(m, b, Multiplicity(bs[1..], k));
      assert |Spread(bs, cells)| == m * 1 + m * (|bs| - 1);
      assert |Select(Spread(bs, cells), k)| == m * b + m * Multiplicity(bs[1..], k);
    }
  }

  /** A binding list that names `k` at most once selects for `k` either
      nothing or the stamped entries of its one binding. */
  lemma {:induction false} SpreadSelectOnce(bs: seq<(int, Descriptor)>, cells: seq<Cell>, k: int)
    requires Multiplicity(bs, k) <= 1
    ensures Select(Spread(bs, cells), k) == [] || exists d :: Select(Spread(bs, cells), k) == Stamp(cells, d)
  {
    if |bs| > 0 {
      AttributeSelect(bs[0].0, bs[0].1, cells, k);
      SelectAppend(Attribute(bs[0].0, bs[0].1, cells), Spread(bs[1..], cells));
      if bs[0].0 == k {
        SpreadSelect(bs[1..], cells, k);
        assert Select(Spread(bs, cells), k) == Stamp(cells, bs[0].1);
      } else {
        SpreadSelectOnce(bs[1..], cells, k);
      }
    }
  }

  /** Everything a binding list appends for `k` is at one of the cells, and
      only a list that names `k` appends anything for it. */
  lemma {:induction false} SpreadOrigin(bs: seq<(int, Descriptor)>, cells: seq<Cell>, k: int, e: Entry)
    requires e in Select(Spread(bs, cells), k)
    ensures Multiplicity(bs, k) > 0 && e.cell in cells
  {
    AttributeSelect(bs[0].0, bs[0].1, cells, k);
    SelectAppend(Attribute(bs[0].0, bs[0].1, cells), Spread(bs[1..], cells));
    if e in Select(Attribute(bs[0].0, bs[0].1, cells), k) {
      StampFacts(cells, bs[0].1);
      var i :| 0 <= i < |cells| && Stamp(cells, bs[0].1)[i] == e;
    } else {
      SpreadOrigin(bs[1..], cells, k, e);
    }
  }

  /** The class ids of a link list, in order. */
  function ClassIds(links: seq<ClassLink>): seq<int>
  {
    if |links| == 0 then [] else [links[0].classId] + ClassIds(links[1..])
  }

  lemma {:induction false} ClassBindingsFacts(a: Assignment, links: seq<ClassLink>, k: int)
    ensures |ClassBindings(a, links)| == |links|
    ensures Multiplicity(ClassBindings(a, links), k) == multiset(ClassIds(links))[k]
  {
    if |links| > 0 {
      ClassBindingsFacts(a, links[1..], k);
      assert ClassBindings(a, links)[1..] == ClassBindings(a, links[1..]);
      assert multiset(ClassIds(links)) == multiset{links[0].classId} + multiset(ClassIds(links[1..]));
    }
  }

  /** Cell-count law, class dimension: a row appends `Span(a)` entries for
      each class linked to its task, and for one class id `Span(a)` entries
      per time that class is linked. */
  lemma ClassRowCount(a: Assignment, tc: TaskClasses, k: int)
    ensures |RowRecords(ClassDim, a, tc)| == Span(a) * |LinksOf(tc, a.taskId)|
    ensures |Select(RowRecords(ClassDim, a, tc), k)| == Span(a) * multiset(ClassIds(LinksOf(tc, a.taskId)))[k]
  {
    var links := LinksOf(tc, a.taskId);
    ClassBindingsFacts(a, links, k);
    SpreadSelect(ClassBindings(a, links), Expand(a), k);
    assert |Expand(a)| == Span(a);
  }

  /** Cell-count law, teacher and classroom dimensions: a row appends exactly
      `Span(a)` entries, all under its own teacher (classroom) id, one per
      occupied cell in slot order; other ids get nothing. */
  lemma OwnerRow(dim: Dimension, a: Assignment, tc: TaskClasses, k: int)
    requires dim != ClassDim
    ensures |RowRecords(dim, a, tc)| == Span(a)
    ensures forall i :: 0 <= i < |RowRecords(dim, a, tc)| ==>
      RowRecords(dim, a, tc)[i] == (Owner(dim, a), Entry(Expand(a)[i], Describe(a, None)))
    ensures Select(RowRecords(dim, a, tc), k) == if k == Owner(dim, a) then Stamp(Expand(a), Describe(a, None)) else []
  {
    var bs := Bindings(dim, a, tc);
    assert bs == [(Owner(dim, a), Describe(a, None))];
    assert bs[1..] == [];
    assert Spread(bs[1..], Expand(a)) == [];
    assert RowRecords(dim, a, tc) == Attribute(Owner(dim, a), Describe(a, None), Expand(a)) + [];
    assert RowRecords(dim, a, tc) == Attribute(Owner(dim, a), Describe(a, None), Expand(a));
    AttributeSelect(Owner(dim, a), Describe(a, None), Expand(a), k);
    AttributeFacts(Owner(dim, a), Describe(a, None), Expand(a));
  }

  /** One more row appends its records after the earlier ones. */
  lemma RecordsSnoc(dim: Dimension, rows: seq<Assignment>, a: Assignment, tc: TaskClasses)
    ensures Records(dim, rows + [a], tc) == Records(dim, rows, tc) + RowRecords(dim, a, tc)
  {
    assert (rows + [a])[..|rows|] == rows;
  }

  /** The records of consecutive row lists are consecutive. */
  lemma {:induction false} RecordsAppend(dim: Dimension, rows: seq<Assignment>, more: seq<Assignment>, tc: TaskClasses)
    ensures Records(dim, rows + more, tc) == Records(dim, rows, tc) + Records(dim, more, tc)
    decreases |more|
  {
    if |more| == 0 {
      assert rows + more == rows;
    } else {
      var n := |more| - 1;
      assert more == more[..n] + [more[n]];
      RecordsAppend(dim, rows, more[..n], tc);
      RecordsAppendStep(dim, rows, more[..n], more[n], tc);
    }
  }

  lemma RecordsAppendStep(dim: Dimension, rows: seq<Assignment>, front: seq<Assignment>, last: Assignment, tc: TaskClasses)
    requires Records(dim, rows + front, tc) == Records(dim, rows, tc) + Records(dim, front, tc)
    ensures Records(dim, rows + (front + [last]), tc) == Records(dim, rows, tc) + Records(dim, front + [last], tc)
  {
    Assoc(rows, front, [last]);
    RecordsSnoc(dim, rows + front, last, tc);
    RecordsSnoc(dim, front, last, tc);
    Assoc(Records(dim, rows, tc), Records(dim, front, tc), RowRecords(dim, last, tc));
  }

  /** Concatenation is associative; stated apart so that no function of the
      model is unfolded while it is used. */
  lemma Assoc<T>(a: seq<T>, b: seq<T>, c: seq<T>)
    ensures (a + b) + c == a + (b + c)
  {
  }

  /** Appending one row extends every resource's list by exactly what the row
      appends for it, keeping the earlier entries first. */
  lemma IndexStep(dim: Dimension, rows: seq<Assignment>, a: Assignment, tc: TaskClasses, k: int)
    ensures Lookup(BuildIndex(dim, rows + [a], tc), k)
         == Lookup(BuildIndex(dim, rows, tc), k) + Select(RowRecords(dim, a, tc), k)
  {
    assert (rows + [a])[..|rows|] == rows;
    SelectAppend(Records(dim, rows, tc), RowRecords(dim, a, tc));
  }

  /** Teacher and classroom index: a row adds `Span(a)` entries to its own
      resource's list and leaves every other list unchanged. */
  lemma OwnerIndexStep(dim: Dimension, rows: seq<Assignment>, a: Assignment, tc: TaskClasses, k: int)
    requires dim != ClassDim
    ensures k != Owner(dim, a) ==> Lookup(BuildIndex(dim, rows + [a], tc), k) == Lookup(BuildIndex(dim, rows, tc), k)
    ensures k == Owner(dim, a) ==>
      Lookup(BuildIndex(dim, rows + [a], tc), k) == Lookup(BuildIndex(dim, rows, tc), k) + Stamp(Expand(a), Describe(a, None))
    ensures |Lookup(BuildIndex(dim, rows + [a], tc), k)|
         == |Lookup(BuildIndex(dim, rows, tc), k)| + (if k == Owner(dim, a) then Span(a) else 0)
  {
    IndexStep(dim, rows, a, tc, k);
    OwnerRow(dim, a, tc, k);
    StampFacts(Expand(a), Describe(a, None));
  }

  /** A row whose task has no linked classes leaves the class index exactly
      as it was, while it still extends its teacher's and classroom's lists. */
  lemma UnlinkedRow(rows: seq<Assignment>, a: Assignment, tc: TaskClasses)
    requires LinksOf(tc, a.taskId) == []
    ensures BuildIndex(ClassDim, rows + [a], tc) == BuildIndex(ClassDim, rows, tc)
    ensures |Lookup(BuildIndex(TeacherDim, rows + [a], tc), a.teacherId)|
         == |Lookup(BuildIndex(TeacherDim, rows, tc), a.teacherId)| + Span(a)
    ensures |Lookup(BuildIndex(ClassroomDim, rows + [a], tc), a.classroomId)|
         == |Lookup(BuildIndex(ClassroomDim, rows, tc), a.classroomId)| + Span(a)
  {
    assert (rows + [a])[..|rows|] == rows;
    assert RowRecords(ClassDim, a, tc) == [];
    assert Records(ClassDim, rows + [a], tc) == Records(ClassDim, rows, tc);
    OwnerIndexStep(TeacherDim, rows, a, tc, a.teacherId);
    OwnerIndexStep(ClassroomDim, rows, a, tc, a.classroomId);
  }
}
