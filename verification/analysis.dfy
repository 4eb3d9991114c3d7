/** The three dimension passes of the analyser put together, and the
    properties that relate a whole schedule to its report: overlaps are found
    whatever the input order, disjoint bookings are never reported, and each
    dimension depends only on its own data. */
module Analysis {
  import opened Grouping
  import opened Schedule
  import opened Indexing
  import opened Conflicts

  /** The conflict lists of the three passes; each counter of the analyser is
      the length of its list. */
  datatype Report = Report(classConflicts: seq<Conflict>, teacherConflicts: seq<Conflict>, classroomConflicts: seq<Conflict>)

  /** One dimension's pass: index the rows, then report the crowded cells. */
  function Pass(dim: Dimension, rows: seq<Assignment>, tc: TaskClasses): (cs: seq<Conflict>)
    ensures forall k :: k in cs ==>
      |k.items| > 1 && k.items == Occupants(Records(dim, rows, tc), k.resource, k.cell)
  {
    DetectSound(Records(dim, rows, tc));
    Detect(BuildIndex(dim, rows, tc))
  }

  /** The analyser over one schedule version: class, teacher and classroom
      passes, each on its own index and independent of the others. */
  function Analyze(rows: seq<Assignment>, tc: TaskClasses): Report
  {
    Report(Pass(ClassDim, rows, tc), Pass(TeacherDim, rows, tc), Pass(ClassroomDim, rows, tc))
  }

  /** A pass's counter equals the number of (resource, cell) pairs of its
      dimension at which two or more entries collide. */
  lemma PassCounts(rows: seq<Assignment>, tc: TaskClasses, dim: Dimension)
    ensures |Pass(dim, rows, tc)| == |ConflictSpots(Records(dim, rows, tc))|
  {
    ConflictCount(Records(dim, rows, tc));
  }

  /** The report's three counters: each is the number of crowded
      (resource, cell) pairs of its own dimension's records. */
  lemma AnalyzeCounts(rows: seq<Assignment>, tc: TaskClasses)
    ensures |Analyze(rows, tc).classConflicts| == |ConflictSpots(Records(ClassDim, rows, tc))|
    ensures |Analyze(rows, tc).teacherConflicts| == |ConflictSpots(Records(TeacherDim, rows, tc))|
    ensures |Analyze(rows, tc).classroomConflicts| == |ConflictSpots(Records(ClassroomDim, rows, tc))|
  {
    PassCounts(rows, tc, ClassDim);
    PassCounts(rows, tc, TeacherDim);
    PassCounts(rows, tc, ClassroomDim);
  }

  /** Every reported conflict is a crowded cell, and every crowded cell is
      reported, with its entries in input order. */
  lemma PassExact(rows: seq<Assignment>, tc: TaskClasses, dim: Dimension, k: Conflict)
    ensures k in Pass(dim, rows, tc) <==>
      (|Occupants(Records(dim, rows, tc), k.resource, k.cell)| > 1
       && k.items == Occupants(Records(dim, rows, tc), k.resource, k.cell))
  {
    DetectExact(Records(dim, rows, tc), k);
  }

  // ---------------------------------------------------------------------
  // Overlap is detected, in either input order

  lemma {:induction false} AttributeHas(r: int, d: Descriptor, cells: seq<Cell>, c: Cell)
    requires c in cells
    ensures Entry(c, d) in Occupants(Attribute(r, d, cells), r, c)
  {
    var xs := Attribute(r, d, cells);
    AttributeCons(r, d, cells);
    assert xs == [(r, Entry(cells[0], d))] + Attribute(r, d, cells[1..]);
    assert xs[1..] == Attribute(r, d, cells[1..]);
    if cells[0] != c {
      AttributeHas(r, d, cells[1..], c);
    }
  }

  lemma {:induction false} SpreadHas(bs: seq<(int, Descriptor)>, cells: seq<Cell>, r: int, d: Descriptor, c: Cell)
    requires (r, d) in bs && c in cells
    ensures Entry(c, d) in Occupants(Spread(bs, cells), r, c)
  {
    OccupantsAppend(Attribute(bs[0].0, bs[0].1, cells), Spread(bs[1..], cells), r, c);
    if bs[0] == (r, d) {
      AttributeHas(r, d, cells, c);
    } else {
      SpreadHas(bs[1..], cells, r, d, c);
    }
  }

  /** Every record a row appends stays in the dimension's records. */
  lemma RowInRecords(dim: Dimension, rows: seq<Assignment>, tc: TaskClasses, i: nat, r: int, c: Cell, e: Entry)
    requires i < |rows|
    requires e in Occupants(RowRecords(dim, rows[i], tc), r, c)
    ensures e in Occupants(Records(dim, rows, tc), r, c)
  {
    var front, back := rows[..i + 1], rows[i + 1..];
    assert rows == front + back;
    assert front == rows[..i] + [rows[i]];
    RecordsAppend(dim, front, back, tc);
    RecordsSnoc(dim, rows[..i], rows[i], tc);
    OccupantsAppend(Records(dim, front, tc), Records(dim, back, tc), r, c);
    OccupantsAppend(Records(dim, rows[..i], tc), RowRecords(dim, rows[i], tc), r, c);
  }

  /** Overlap detection: two different rows that bind the same resource and
      share a cell make that resource's conflict at that cell, and the
      conflict lists both rows' descriptors. Duplicated rows included; the
      order of the two rows in the input does not matter. */
  lemma OverlapDetected(dim: Dimension, rows: seq<Assignment>, tc: TaskClasses,
                        i: nat, j: nat, r: int, di: Descriptor, dj: Descriptor, c: Cell)
    requires i < |rows| && j < |rows| && i != j
    requires (r, di) in Bindings(dim, rows[i], tc) && (r, dj) in Bindings(dim, rows[j], tc)
    requires c in Expand(rows[i]) && c in Expand(rows[j])
    ensures Conflict(r, c, Occupants(Records(dim, rows, tc), r, c)) in Pass(dim, rows, tc)
    ensures Entry(c, di) in Occupants(Records(dim, rows, tc), r, c)
    ensures Entry(c, dj) in Occupants(Records(dim, rows, tc), r, c)
  {
    SpreadHas(Bindings(dim, rows[i], tc), Expand(rows[i]), r, di, c);
    SpreadHas(Bindings(dim, rows[j], tc), Expand(rows[j]), r, dj, c);
    RowInRecords(dim, rows, tc, i, r, c, Entry(c, di));
    RowInRecords(dim, rows, tc, j, r, c, Entry(c, dj));
    var lo, hi := i, j;
    var dlo, dhi := di, dj;
    if j < i {
      lo, hi := j, i;
      dlo, dhi := dj, di;
    }
    var front, back := rows[..hi], rows[hi..];
    assert rows == front + back;
    assert front[lo] == rows[lo] && back[0] == rows[hi];
    RecordsAppend(dim, front, back, tc);
    OccupantsAppend(Records(dim, front, tc), Records(dim, back, tc), r, c);
    RowInRecords(dim, front, tc, lo, r, c, Entry(c, dlo));
    RowInRecords(dim, back, tc, 0, r, c, Entry(c, dhi));
    assert |Occupants(Records(dim, front, tc), r, c)| > 0;
    assert |Occupants(Records(dim, back, tc), r, c)| > 0;
    DetectExact(Records(dim, rows, tc), Conflict(r, c, Occupants(Records(dim, rows, tc), r, c)));
  }

  /** Teacher and classroom passes: two different rows with the same teacher
      (classroom) id and a shared cell are reported at that cell with both
      descriptors. */
  lemma OwnerOverlap(dim: Dimension, rows: seq<Assignment>, tc: TaskClasses, i: nat, j: nat, c: Cell)
    requires dim != ClassDim
    requires i < |rows| && j < |rows| && i != j
    requires Owner(dim, rows[i]) == Owner(dim, rows[j])
    requires c in Expand(rows[i]) && c in Expand(rows[j])
    ensures Conflict(Owner(dim, rows[i]), c, Occupants(Records(dim, rows, tc), Owner(dim, rows[i]), c)) in Pass(dim, rows, tc)
    ensures Entry(c, Describe(rows[i], None)) in Occupants(Records(dim, rows, tc), Owner(dim, rows[i]), c)
    ensures Entry(c, Describe(rows[j], None)) in Occupants(Records(dim, rows, tc), Owner(dim, rows[i]), c)
  {
    assert Bindings(dim, rows[i], tc) == [(Owner(dim, rows[i]), Describe(rows[i], None))];
    assert Bindings(dim, rows[j], tc) == [(Owner(dim, rows[j]), Describe(rows[j], None))];
    OverlapDetected(dim, rows, tc, i, j, Owner(dim, rows[i]), Describe(rows[i], None), Describe(rows[j], None), c);
  }

  lemma {:induction false} ClassBindingsHas(a: Assignment, links: seq<ClassLink>, l: ClassLink)
    requires l in links
    ensures (l.classId, Describe(a, Some(l.className))) in ClassBindings(a, links)
  {
    if links[0] != l {
      ClassBindingsHas(a, links[1..], l);
    }
  }

  /** Class pass: two different rows whose tasks both link one class and that
      share a cell are reported for that class at that cell, with both
      descriptors. */
  lemma ClassOverlap(rows: seq<Assignment>, tc: TaskClasses, i: nat, j: nat, li: ClassLink, lj: ClassLink, c: Cell)
    requires i < |rows| && j < |rows| && i != j
    requires li in LinksOf(tc, rows[i].taskId) && lj in LinksOf(tc, rows[j].taskId)
    requires li.classId == lj.classId
    requires c in Expand(rows[i]) && c in Expand(rows[j])
    ensures Conflict(li.classId, c, Occupants(Records(ClassDim, rows, tc), li.classId, c)) in Pass(ClassDim, rows, tc)
    ensures Entry(c, Describe(rows[i], Some(li.className))) in Occupants(Records(ClassDim, rows, tc), li.classId, c)
    ensures Entry(c, Describe(rows[j], Some(lj.className))) in Occupants(Records(ClassDim, rows, tc), li.classId, c)
  {
    ClassBindingsHas(rows[i], LinksOf(tc, rows[i].taskId), li);
    ClassBindingsHas(rows[j], LinksOf(tc, rows[j].taskId), lj);
    OverlapDetected(ClassDim, rows, tc, i, j, li.classId,
                    Describe(rows[i], Some(li.className)), Describe(rows[j], Some(lj.className)), c);
  }

  // ---------------------------------------------------------------------
  // No self-conflict

  /** A row occupies resource `r` in a dimension. */
  ghost predicate Binds(dim: Dimension, a: Assignment, tc: TaskClasses, r: int)
  {
    Multiplicity(Bindings(dim, a, tc), r) > 0
  }

  /** Two cell lists have no cell in common. */
  ghost predicate Disjoint(xs: seq<Cell>, ys: seq<Cell>)
  {
    forall c :: c in xs ==> c !in ys
  }

  /** Everything appended for `r` comes from a row that binds `r`, at one of
      that row's cells. */
  lemma {:induction false} RecordsOrigin(dim: Dimension, rows: seq<Assignment>, tc: TaskClasses, r: int, e: Entry)
    returns (i: nat)
    requires e in Select(Records(dim, rows, tc), r)
    ensures i < |rows| && Binds(dim, rows[i], tc, r) && e.cell in Expand(rows[i])
  {
    var n := |rows| - 1;
    SelectAppend(Records(dim, rows[..n], tc), RowRecords(dim, rows[n], tc));
    if e in Select(RowRecords(dim, rows[n], tc), r) {
      SpreadOrigin(Bindings(dim, rows[n], tc), Expand(rows[n]), r, e);
      i := n;
    } else {
      i := RecordsOrigin(dim, rows[..n], tc, r, e);
      assert rows[..n][i] == rows[i];
    }
  }

  lemma CellsDistinctAppend(xs: seq<Entry>, ys: seq<Entry>)
    requires CellsDistinct(xs) && CellsDistinct(ys)
    requires forall p, q :: 0 <= p < |xs| && 0 <= q < |ys| ==> xs[p].cell != ys[q].cell
    ensures CellsDistinct(xs + ys)
  {
    forall p, q | 0 <= p < q < |xs + ys| ensures (xs + ys)[p].cell != (xs + ys)[q].cell {
      if q < |xs| {
      } else if p >= |xs| {
        assert (xs + ys)[p] == ys[p - |xs|] && (xs + ys)[q] == ys[q - |xs|];
      } else {
        assert (xs + ys)[q] == ys[q - |xs|];
      }
    }
  }

  /** Rows that bind `r` at most once each and whose cells are pairwise
      disjoint leave `r` with entries at pairwise different cells. */
  lemma {:induction false} DisjointRowsDistinct(dim: Dimension, rows: seq<Assignment>, tc: TaskClasses, r: int)
    requires forall i :: 0 <= i < |rows| ==> Multiplicity(Bindings(dim, rows[i], tc), r) <= 1
    requires forall i, j :: 0 <= i < j < |rows| && Binds(dim, rows[i], tc, r) && Binds(dim, rows[j], tc, r) ==>
      Disjoint(Expand(rows[i]), Expand(rows[j]))
    ensures CellsDistinct(Select(Records(dim, rows, tc), r))
  {
    if |rows| > 0 {
      var n := |rows| - 1;
      var front := rows[..n];
      assert forall i :: 0 <= i < |front| ==> front[i] == rows[i];
      DisjointRowsDistinct(dim, front, tc, r);
      var xs := Select(Records(dim, front, tc), r);
      var ys := Select(RowRecords(dim, rows[n], tc), r);
      SelectAppend(Records(dim, front, tc), RowRecords(dim, rows[n], tc));
      SpreadSelectOnce(Bindings(dim, rows[n], tc), Expand(rows[n]), r);
      if ys != [] {
        var d :| ys == Stamp(Expand(rows[n]), d);
        StampDistinct(Expand(rows[n]), d);
      }
      forall p, q | 0 <= p < |xs| && 0 <= q < |ys| ensures xs[p].cell != ys[q].cell {
        var i := RecordsOrigin(dim, front, tc, r, xs[p]);
        SpreadOrigin(Bindings(dim, rows[n], tc), Expand(rows[n]), r, ys[q]);
        assert Disjoint(Expand(rows[i]), Expand(rows[n]));
      }
      CellsDistinctAppend(xs, ys);
    }
  }

  /** No self-conflict across rows: when the rows that occupy resource `r`
      bind it once each and occupy pairwise disjoint cells, `r` is never
      reported. */
  lemma DisjointNoConflict(dim: Dimension, rows: seq<Assignment>, tc: TaskClasses, r: int)
    requires forall i :: 0 <= i < |rows| ==> Multiplicity(Bindings(dim, rows[i], tc), r) <= 1
    requires forall i, j :: 0 <= i < j < |rows| && Binds(dim, rows[i], tc, r) && Binds(dim, rows[j], tc, r) ==>
      Disjoint(Expand(rows[i]), Expand(rows[j]))
    ensures forall k :: k in Pass(dim, rows, tc) ==> k.resource != r
  {
    DisjointRowsDistinct(dim, rows, tc, r);
    NoSelfConflict(Records(dim, rows, tc), r);
  }

  /** No overlap, no report: when every row binds each resource at most once
      and any two rows that share a resource occupy disjoint cells, the pass
      reports nothing. */
  lemma PairwiseDisjointNoConflict(dim: Dimension, rows: seq<Assignment>, tc: TaskClasses)
    requires forall i, r :: 0 <= i < |rows| ==> Multiplicity(Bindings(dim, rows[i], tc), r) <= 1
    requires forall i, j, r :: 0 <= i < j < |rows| && Binds(dim, rows[i], tc, r) && Binds(dim, rows[j], tc, r) ==>
      Disjoint(Expand(rows[i]), Expand(rows[j]))
    ensures Pass(dim, rows, tc) == []
  {
    var cs := Pass(dim, rows, tc);
    if cs != [] {
      DisjointNoConflict(dim, rows, tc, cs[0].resource);
    }
  }

  /** No self-conflict for one row: a row that binds every resource at most
      once reports nothing, however many cells it spans. */
  lemma SingleRowNoConflict(dim: Dimension, a: Assignment, tc: TaskClasses)
    requires forall r :: Multiplicity(Bindings(dim, a, tc), r) <= 1
    ensures Pass(dim, [a], tc) == []
  {
    var cs := Pass(dim, [a], tc);
    if cs != [] {
      DisjointNoConflict(dim, [a], tc, cs[0].resource);
    }
  }

  /** A single row never conflicts with itself in the teacher and classroom
      passes. */
  lemma SingleOwnerRowNoConflict(dim: Dimension, a: Assignment, tc: TaskClasses)
    requires dim != ClassDim
    ensures Pass(dim, [a], tc) == []
  {
    var bs := Bindings(dim, a, tc);
    assert bs[1..] == [];
    SingleRowNoConflict(dim, a, tc);
  }

  /** A single row whose task links each class at most once (in particular,
      one linked class, or a merged session of different classes) never
      conflicts with itself in the class pass. */
  lemma SingleClassRowNoConflict(a: Assignment, tc: TaskClasses)
    requires forall r :: multiset(ClassIds(LinksOf(tc, a.taskId)))[r] <= 1
    ensures Pass(ClassDim, [a], tc) == []
  {
    forall r ensures Multiplicity(Bindings(ClassDim, a, tc), r) <= 1 {
      ClassBindingsFacts(a, LinksOf(tc, a.taskId), r);
    }
    SingleRowNoConflict(ClassDim, a, tc);
  }

  /** How many records of one resource a cell list holds at cell `c`. */
  lemma {:induction false} AttributeOccupants(rid: int, d: Descriptor, cells: seq<Cell>, r: int, c: Cell)
    ensures |Occupants(Attribute(rid, d, cells), r, c)| == if rid == r then multiset(cells)[c] else 0
  {
    if |cells| > 0 {
      var head := [(rid, Entry(cells[0], d))];
      AttributeCons(rid, d, cells);
      assert Attribute(rid, d, cells) == head + Attribute(rid, d, cells[1..]);
      OccupantsAppend(head, Attribute(rid, d, cells[1..]), r, c);
      assert head[1..] == [];
      AttributeOccupants(rid, d, cells[1..], r, c);
      assert cells == [cells[0]] + cells[1..];
      assert multiset(cells) == multiset{cells[0]} + multiset(cells[1..]);
    }
  }

  /** A row's bindings put, at cell `c`, one record of `r` per binding that
      names `r` and per time `c` occurs among the cells. */
  lemma {:induction false} SpreadOccupants(bs: seq<(int, Descriptor)>, cells: seq<Cell>, r: int, c: Cell)
    ensures |Occupants(Spread(bs, cells), r, c)| == multiset(cells)[c] * Multiplicity(bs, r)
  {
    if |bs| > 0 {
      OccupantsAppend(Attribute(bs[0].0, bs[0].1, cells), Spread(bs[1..], cells), r, c);
      AttributeOccupants(bs[0].0, bs[0].1, cells, r, c);
      SpreadOccupants(bs[1..], cells, r, c);
      var m, b := multiset(cells)[c], if bs[0].0 == r then 1 else 0;
      Distribute(m, b, Multiplicity(bs[1..], r));
      assert |Occupants(Spread(bs, cells), r, c)| == m * b + m * Multiplicity(bs[1..], r);
    }
  }

  /** A sequence without repetitions holds each of its elements once. */
  lemma {:induction false} DistinctOnce<T>(xs: seq<T>, x: T)
    requires forall i, j :: 0 <= i < j < |xs| ==> xs[i] != xs[j]
    ensures multiset(xs)[x] == if x in xs then 1 else 0
  {
    if |xs| > 0 {
      DistinctOnce(xs[1..], x);
      assert xs == [xs[0]] + xs[1..];
      assert multiset(xs) == multiset{xs[0]} + multiset(xs[1..]);
      if x == xs[0] {
        assert x !in xs[1..] by {
          forall i | 0 <= i < |xs[1..]| ensures xs[1..][i] != x {
            assert xs[1..][i] == xs[i + 1];
          }
        }
      }
    }
  }

  /** One row alone in the class pass: at each of its cells, class `r` holds
      one entry per time the row's task links `r`, and none elsewhere. */
  lemma SingleClassRowOccupants(a: Assignment, tc: TaskClasses, r: int, c: Cell)
    ensures |Occupants(Records(ClassDim, [a], tc), r, c)|
         == (if c in Expand(a) then multiset(ClassIds(LinksOf(tc, a.taskId)))[r] else 0)
  {
    assert [a][..0] == [];
    assert Records(ClassDim, [a], tc) == [] + RowRecords(ClassDim, a, tc);
    assert [] + RowRecords(ClassDim, a, tc) == RowRecords(ClassDim, a, tc);
    ClassBindingsFacts(a, LinksOf(tc, a.taskId), r);
    SpreadOccupants(Bindings(ClassDim, a, tc), Expand(a), r, c);
    DistinctOnce(Expand(a), c);
  }

  /** A task that links class `r` twice or more makes a single row conflict
      with itself: class `r` is reported at every cell of the row, with one
      entry per link. */
  lemma DuplicateLinkConflict(a: Assignment, tc: TaskClasses, r: int, c: Cell)
    requires c in Expand(a)
    requires multiset(ClassIds(LinksOf(tc, a.taskId)))[r] >= 2
    ensures Conflict(r, c, Occupants(Records(ClassDim, [a], tc), r, c)) in Pass(ClassDim, [a], tc)
    ensures |Occupants(Records(ClassDim, [a], tc), r, c)| == multiset(ClassIds(LinksOf(tc, a.taskId)))[r]
  {
    SingleClassRowOccupants(a, tc, r, c);
    PassExact([a], tc, ClassDim, Conflict(r, c, Occupants(Records(ClassDim, [a], tc), r, c)));
  }

  /** The class pass of a single row is empty exactly when the row covers no
      cell or its task links every class at most once. */
  lemma SingleClassRowQuiet(a: Assignment, tc: TaskClasses)
    ensures Pass(ClassDim, [a], tc) == [] <==>
      (Span(a) == 0 || forall r :: multiset(ClassIds(LinksOf(tc, a.taskId)))[r] <= 1)
  {
    var links := ClassIds(LinksOf(tc, a.taskId));
    if Span(a) == 0 {
      var cs := Pass(ClassDim, [a], tc);
      if cs != [] {
        PassExact([a], tc, ClassDim, cs[0]);
        SingleClassRowOccupants(a, tc, cs[0].resource, cs[0].cell);
      }
    } else if forall r :: multiset(links)[r] <= 1 {
      SingleClassRowNoConflict(a, tc);
    } else {
      var r :| multiset(links)[r] > 1;
      DuplicateLinkConflict(a, tc, r, Expand(a)[0]);
    }
  }

  // ---------------------------------------------------------------------
  // Independence of the three dimensions

  /** The teacher and classroom passes never read the task -> classes table. */
  lemma {:induction false} OwnerIgnoresLinks(dim: Dimension, rows: seq<Assignment>, tc1: TaskClasses, tc2: TaskClasses)
    requires dim != ClassDim
    ensures Records(dim, rows, tc1) == Records(dim, rows, tc2)
    ensures Pass(dim, rows, tc1) == Pass(dim, rows, tc2)
  {
    if |rows| > 0 {
      OwnerIgnoresLinks(dim, rows[..|rows| - 1], tc1, tc2);
    }
  }

  /** Two rows that differ at most in their teacher and classroom ids. */
  predicate SameButIds(a: Assignment, b: Assignment)
  {
    a.(teacherId := b.teacherId, classroomId := b.classroomId) == b
  }

  /** The class pass never reads teacher or classroom ids. */
  lemma {:induction false} ClassIgnoresIds(rows1: seq<Assignment>, rows2: seq<Assignment>, tc: TaskClasses)
    requires |rows1| == |rows2|
    requires forall i :: 0 <= i < |rows1| ==> SameButIds(rows1[i], rows2[i])
    ensures Records(ClassDim, rows1, tc) == Records(ClassDim, rows2, tc)
    ensures Pass(ClassDim, rows1, tc) == Pass(ClassDim, rows2, tc)
  {
    if |rows1| > 0 {
      var n := |rows1| - 1;
      var f1, f2 := rows1[..n], rows2[..n];
      assert forall i :: 0 <= i < n ==> f1[i] == rows1[i] && f2[i] == rows2[i];
      ClassIgnoresIds(f1, f2, tc);
      ClassRowIgnoresIds(rows1[n], rows2[n], tc);
      assert Records(ClassDim, rows1, tc) == Records(ClassDim, f1, tc) + RowRecords(ClassDim, rows1[n], tc);
      assert Records(ClassDim, rows2, tc) == Records(ClassDim, f2, tc) + RowRecords(ClassDim, rows2[n], tc);
    }
  }

  lemma ClassRowIgnoresIds(a: Assignment, b: Assignment, tc: TaskClasses)
    requires SameButIds(a, b)
    ensures RowRecords(ClassDim, a, tc) == RowRecords(ClassDim, b, tc)
  {
    assert Expand(a) == Expand(b);
    ClassBindingsSameButIds(a, b, LinksOf(tc, a.taskId));
  }

  lemma {:induction false} ClassBindingsSameButIds(a: Assignment, b: Assignment, links: seq<ClassLink>)
    requires SameButIds(a, b)
    ensures ClassBindings(a, links) == ClassBindings(b, links)
  {
    if |links| > 0 {
      ClassBindingsSameButIds(a, b, links[1..]);
    }
  }
}
