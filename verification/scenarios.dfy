/** Worked schedules: small timetables and what each pass reports for them,
    derived from the general laws. */
module Scenarios {
  import opened Grouping
  import opened Schedule
  import opened Indexing
  import opened Conflicts
  import opened Analysis

  const MathLesson := Assignment(1, 1, 10, 100, 1, 1, 2, "Math", "T10", "R100")
  const PhysicsLesson := Assignment(2, 2, 10, 200, 1, 2, 1, "Physics", "T10", "R200")
  const LessonLinks: TaskClasses := map[1 := [ClassLink(1, "A")], 2 := [ClassLink(2, "B")]]

  /** Teacher 10 teaches class A on Monday slots 1-2 in room 100 and class B
      on Monday slot 2 in room 200. The class pass reports nothing: the two
      rows never share a class. */
  lemma TwoLessonsClassesApart()
    ensures Pass(ClassDim, [MathLesson, PhysicsLesson], LessonLinks) == []
  {
    var rows := [MathLesson, PhysicsLesson];
    assert Bindings(ClassDim, MathLesson, LessonLinks) == [(1, Describe(MathLesson, Some("A")))];
    assert Bindings(ClassDim, PhysicsLesson, LessonLinks) == [(2, Describe(PhysicsLesson, Some("B")))];
    forall i, r | 0 <= i < |rows| ensures Multiplicity(Bindings(ClassDim, rows[i], LessonLinks), r) <= 1 {
      assert Bindings(ClassDim, rows[i], LessonLinks)[1..] == [];
    }
    forall r ensures Multiplicity(Bindings(ClassDim, MathLesson, LessonLinks), r) == (if r == 1 then 1 else 0)
                 && Multiplicity(Bindings(ClassDim, PhysicsLesson, LessonLinks), r) == (if r == 2 then 1 else 0)
    {
      assert Bindings(ClassDim, MathLesson, LessonLinks)[1..] == [];
      assert Bindings(ClassDim, PhysicsLesson, LessonLinks)[1..] == [];
    }
    forall i, j, r | 0 <= i < j < |rows| && Binds(ClassDim, rows[i], LessonLinks, r)
      ensures !Binds(ClassDim, rows[j], LessonLinks, r)
    {
      assert i == 0 && j == 1;
    }
    PairwiseDisjointNoConflict(ClassDim, rows, LessonLinks);
  }

  /** The two Monday lessons, classroom pass: rooms 100 and 200 differ, so nothing is
      reported. */
  lemma TwoLessonsRoomsApart()
    ensures Pass(ClassroomDim, [MathLesson, PhysicsLesson], LessonLinks) == []
  {
    var rows := [MathLesson, PhysicsLesson];
    forall r ensures Multiplicity(Bindings(ClassroomDim, MathLesson, LessonLinks), r) == (if r == 100 then 1 else 0)
                 && Multiplicity(Bindings(ClassroomDim, PhysicsLesson, LessonLinks), r) == (if r == 200 then 1 else 0)
    {
      assert Bindings(ClassroomDim, MathLesson, LessonLinks)[1..] == [];
      assert Bindings(ClassroomDim, PhysicsLesson, LessonLinks)[1..] == [];
    }
    forall i, j, r | 0 <= i < j < |rows| && Binds(ClassroomDim, rows[i], LessonLinks, r)
      ensures !Binds(ClassroomDim, rows[j], LessonLinks, r)
    {
      assert i == 0 && j == 1;
    }
    PairwiseDisjointNoConflict(ClassroomDim, rows, LessonLinks);
  }

  /** The teacher records of the two Monday lessons, in append order. */
  lemma TwoLessonsTeacherRecords()
    ensures Records(TeacherDim, [MathLesson, PhysicsLesson], LessonLinks)
         == [(10, Entry(Cell(1, 1), Describe(MathLesson, None))),
             (10, Entry(Cell(1, 2), Describe(MathLesson, None))),
             (10, Entry(Cell(1, 2), Describe(PhysicsLesson, None)))]
  {
    assert Expand(MathLesson) == [Cell(1, 1), Cell(1, 2)];
    assert Expand(PhysicsLesson) == [Cell(1, 2)];
    OwnerRow(TeacherDim, MathLesson, LessonLinks, 10);
    OwnerRow(TeacherDim, PhysicsLesson, LessonLinks, 10);
    RecordsSnoc(TeacherDim, [], MathLesson, LessonLinks);
    RecordsSnoc(TeacherDim, [MathLesson], PhysicsLesson, LessonLinks);
    assert [] + [MathLesson] == [MathLesson] && [MathLesson] + [PhysicsLesson] == [MathLesson, PhysicsLesson];
  }

  /** Who sits where in the two Monday lessons' teacher records: teacher 10 alone at
      Monday slot 1, both lessons at Monday slot 2, nobody else anywhere. */
  lemma TwoLessonsTeacherOccupants(r: int, c: Cell)
    ensures Occupants(Records(TeacherDim, [MathLesson, PhysicsLesson], LessonLinks), r, c)
         == if r == 10 && c == Cell(1, 1) then [Entry(Cell(1, 1), Describe(MathLesson, None))]
            else if r == 10 && c == Cell(1, 2) then [Entry(Cell(1, 2), Describe(MathLesson, None)), Entry(Cell(1, 2), Describe(PhysicsLesson, None))]
            else []
  {
    TwoLessonsTeacherRecords();
    var recs := Records(TeacherDim, [MathLesson, PhysicsLesson], LessonLinks);
    var e1, e2 := Entry(Cell(1, 2), Describe(MathLesson, None)), Entry(Cell(1, 2), Describe(PhysicsLesson, None));
    assert recs[1..] == [(10, e1), (10, e2)];
    assert recs[1..][1..] == [(10, e2)];
    assert recs[1..][1..][1..] == [];
    assert Occupants(recs[1..][1..], r, c) == if r == 10 && c == Cell(1, 2) then [e2] else [];
    assert Occupants(recs[1..], r, c) == if r == 10 && c == Cell(1, 2) then [e1, e2] else [];
  }

  /** The two Monday lessons, teacher pass: one collision, at Monday slot 2, listing the
      two lessons in input order, and no collision anywhere else. */
  lemma TeacherOverlapAcrossSlots()
    ensures Conflict(10, Cell(1, 2), [Entry(Cell(1, 2), Describe(MathLesson, None)), Entry(Cell(1, 2), Describe(PhysicsLesson, None))])
            in Pass(TeacherDim, [MathLesson, PhysicsLesson], LessonLinks)
    ensures forall k :: k in Pass(TeacherDim, [MathLesson, PhysicsLesson], LessonLinks) ==> k.resource == 10 && k.cell == Cell(1, 2)
  {
    TwoLessonsTeacherOccupants(10, Cell(1, 2));
    assert Expand(MathLesson) == [Cell(1, 1), Cell(1, 2)];
    assert Expand(PhysicsLesson) == [Cell(1, 2)];
    OwnerOverlap(TeacherDim, [MathLesson, PhysicsLesson], LessonLinks, 0, 1, Cell(1, 2));
    forall k | k in Pass(TeacherDim, [MathLesson, PhysicsLesson], LessonLinks) ensures k.resource == 10 && k.cell == Cell(1, 2) {
      TwoLessonsTeacherOccupants(k.resource, k.cell);
    }
  }

  const TuesdayLesson := Assignment(2, 2, 10, 100, 2, 1, 2, "Physics", "T10", "R100")
  const SameClassLinks: TaskClasses := map[1 := [ClassLink(1, "A")], 2 := [ClassLink(1, "A")]]

  /** The same teacher, classroom and class on two different days: no pass
      reports anything. */
  lemma DifferentDaysNoConflict(dim: Dimension)
    ensures Pass(dim, [MathLesson, TuesdayLesson], SameClassLinks) == []
  {
    var rows := [MathLesson, TuesdayLesson];
    assert ClassBindings(MathLesson, [ClassLink(1, "A")]) == [(1, Describe(MathLesson, Some("A")))];
    assert ClassBindings(TuesdayLesson, [ClassLink(1, "A")]) == [(1, Describe(TuesdayLesson, Some("A")))];
    forall c | c in Expand(MathLesson) ensures c !in Expand(TuesdayLesson) {
      ExpandMembers(MathLesson, c);
      ExpandMembers(TuesdayLesson, c);
    }
    PairwiseDisjointNoConflict(dim, rows, SameClassLinks);
  }

  const MergedSession := Assignment(1, 1, 10, 100, 3, 4, 1, "Chemistry", "T10", "R100")
  const MergedLinks: TaskClasses := map[1 := [ClassLink(1, "A"), ClassLink(2, "B")]]

  /** One merged session of classes A and B: each class occupies the cell
      once, so nothing is reported. */
  lemma MergedSessionNoConflict(dim: Dimension)
    ensures Pass(dim, [MergedSession], MergedLinks) == []
  {
    if dim == ClassDim {
      assert ClassIds([ClassLink(1, "A"), ClassLink(2, "B")]) == [1, 2];
      SingleClassRowNoConflict(MergedSession, MergedLinks);
    } else {
      SingleOwnerRowNoConflict(dim, MergedSession, MergedLinks);
    }
  }

  /** The same row recorded twice is reported, in every
      dimension the row occupies, at each of its cells: under its teacher,
      its classroom, and every class its task links. */
  lemma DuplicateRowConflict(a: Assignment, tc: TaskClasses, c: Cell)
    requires c in Expand(a)
    ensures exists k :: k in Pass(TeacherDim, [a, a], tc) && k.resource == a.teacherId && k.cell == c
                     && Entry(c, Describe(a, None)) in k.items && |k.items| > 1
    ensures exists k :: k in Pass(ClassroomDim, [a, a], tc) && k.resource == a.classroomId && k.cell == c
                     && Entry(c, Describe(a, None)) in k.items && |k.items| > 1
    ensures forall l :: l in LinksOf(tc, a.taskId) ==>
              exists k :: k in Pass(ClassDim, [a, a], tc) && k.resource == l.classId && k.cell == c
                       && Entry(c, Describe(a, Some(l.className))) in k.items && |k.items| > 1
  {
    OwnerOverlap(TeacherDim, [a, a], tc, 0, 1, c);
    OwnerOverlap(ClassroomDim, [a, a], tc, 0, 1, c);
    forall l | l in LinksOf(tc, a.taskId)
      ensures exists k :: k in Pass(ClassDim, [a, a], tc) && k.resource == l.classId && k.cell == c
                       && Entry(c, Describe(a, Some(l.className))) in k.items && |k.items| > 1
    {
      ClassOverlap([a, a], tc, 0, 1, l, l, c);
    }
  }
}
