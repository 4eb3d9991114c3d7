/** Conflict detection: for every resource of an index, the entries are
    grouped by cell (`time_dict`), and every group of more than one entry is
    a conflict. The analyser counts one conflict per such group. */
module Conflicts {
  import opened Grouping
  import opened Schedule

  /** A resource that is wanted twice at one cell, with the colliding entries
      in the order they were appended. */
  datatype Conflict = Conflict(resource: int, cell: Cell, items: seq<Entry>)

  /** The entries of one resource keyed by their cell. */
  function CellPairs(es: seq<Entry>): seq<(Cell, Entry)>
  {
    if |es| == 0 then [] else [(es[0].cell, es[0])] + CellPairs(es[1..])
  }

  /** The groups of one resource that hold more than one entry, in group order. */
  function Flag(rid: int, gs: seq<Group<Cell, Entry>>): seq<Conflict>
  {
    if |gs| == 0 then []
    else (if |gs[0].items| > 1 then [Conflict(rid, gs[0].key, gs[0].items)] else []) + Flag(rid, gs[1..])
  }

  /** The conflicts of one dimension's index, resource after resource in
      index order (no sorting). */
  function Detect(ix: seq<Group<int, Entry>>): seq<Conflict>
  {
    if |ix| == 0 then []
    else Flag(ix[0].key, GroupBy(CellPairs(ix[0].items))) + Detect(ix[1..])
  }

  /** Reference definition: the entries recorded for resource `r` at cell `c`,
      in the order they were appended. */
  function Occupants(recs: seq<Record>, r: int, c: Cell): seq<Entry>
  {
    if |recs| == 0 then []
    else (if recs[0].0 == r && recs[0].1.cell == c then [recs[0].1] else []) + Occupants(recs[1..], r, c)
  }

  /** The (resource, cell) pairs that at least two records share. */
  ghost function ConflictSpots(recs: seq<Record>): set<(int, Cell)>
  {
    set i | 0 <= i < |recs| && |Occupants(recs, recs[i].0, recs[i].1.cell)| > 1 :: (recs[i].0, recs[i].1.cell)
  }

  /** The (resource, cell) pairs a conflict list reports. */
  ghost function SpotSet(cs: seq<Conflict>): set<(int, Cell)>
  {
    set k | k in cs :: (k.resource, k.cell)
  }

  /** No (resource, cell) pair is reported twice. */
  ghost predicate NoDupSpots(cs: seq<Conflict>)
  {
    forall p, q :: 0 <= p < q < |cs| ==> (cs[p].resource, cs[p].cell) != (cs[q].resource, cs[q].cell)
  }

  // ---------------------------------------------------------------------
  // Grouping one resource's entries by cell

  lemma {:induction false} CellPairsAppend(a: seq<Entry>, b: seq<Entry>)
    ensures CellPairs(a + b) == CellPairs(a) + CellPairs(b)
  {
    if |a| == 0 {
      assert a + b == b;
    } else {
      var ab := a + b;
      assert ab[0] == a[0];
      assert ab[1..] == a[1..] + b;
      CellPairsAppend(a[1..], b);
      assert CellPairs(ab) == [(a[0].cell, a[0])] + (CellPairs(a[1..]) + CellPairs(b));
    }
  }

  lemma {:induction false} CellPairsValues(es: seq<Entry>)
    ensures Values(CellPairs(es)) == es
  {
    if |es| > 0 {
      CellPairsValues(es[1..]);
      assert CellPairs(es)[1..] == CellPairs(es[1..]);
    }
  }

  /** The cell groups of one resource partition its entry list. */
  lemma {:induction false} CellGroupsPartition(es: seq<Entry>)
    ensures multiset(Flatten(GroupBy(CellPairs(es)))) == multiset(es)
  {
    GroupByPartitions(CellPairs(es));
    CellPairsValues(es);
  }

  /** Grouping one resource's entries then picking cell `c` is the same as
      picking the records of that resource at `c`. */
  lemma {:induction false} OccupantsSelect(recs: seq<Record>, r: int, c: Cell)
    ensures Select(CellPairs(Select(recs, r)), c) == Occupants(recs, r, c)
  {
    if |recs| > 0 {
      OccupantsSelect(recs[1..], r, c);
      var head := if recs[0].0 == r then [recs[0].1] else [];
      assert Select(recs, r) == head + Select(recs[1..], r);
      CellPairsAppend(head, Select(recs[1..], r));
      SelectAppend(CellPairs(head), CellPairs(Select(recs[1..], r)));
      if recs[0].0 == r {
        assert CellPairs(head) == [(recs[0].1.cell, recs[0].1)];
      }
    }
  }

  /** Everything in `Occupants` is a record of that resource at that cell. */
  lemma {:induction false} OccupantsOrigin(recs: seq<Record>, r: int, c: Cell, e: Entry) returns (i: nat)
    requires e in Occupants(recs, r, c)
    ensures i < |recs| && recs[i] == (r, e) && e.cell == c
  {
    if recs[0].0 == r && recs[0].1.cell == c && e == recs[0].1 {
      i := 0;
    } else {
      var j := OccupantsOrigin(recs[1..], r, c, e);
      i := j + 1;
    }
  }

  lemma {:induction false} OccupantsAppend(a: seq<Record>, b: seq<Record>, r: int, c: Cell)
    ensures Occupants(a + b, r, c) == Occupants(a, r, c) + Occupants(b, r, c)
  {
    if |a| == 0 {
      assert a + b == b;
    } else {
      OccupantsAppend(a[1..], b, r, c);
      assert (a + b)[1..] == a[1..] + b;
    }
  }

  // ---------------------------------------------------------------------
  // Exactly the crowded groups are reported

  /** A resource's conflict list holds exactly one conflict per cell group
      of more than one entry, carrying that whole group. */
  lemma {:induction false} FlagExact(rid: int, gs: seq<Group<Cell, Entry>>, k: Conflict)
    requires DistinctKeys(gs)
    ensures k in Flag(rid, gs) <==>
      (k.resource == rid && |Lookup(gs, k.cell)| > 1 && k.items == Lookup(gs, k.cell))
  {
    if |gs| > 0 {
      assert DistinctKeys(gs[1..]);
      FlagExact(rid, gs[1..], k);
      if gs[0].key == k.cell {
        LookupAbsent(gs[1..], k.cell);
      }
    }
  }

  /** Over a whole index: a conflict is reported exactly for a resource and a
      cell at which the resource's list has two or more entries. */
  lemma {:induction false} DetectIndex(ix: seq<Group<int, Entry>>, k: Conflict)
    requires DistinctKeys(ix)
    ensures k in Detect(ix) <==>
      (|Select(CellPairs(Lookup(ix, k.resource)), k.cell)| > 1
       && k.items == Select(CellPairs(Lookup(ix, k.resource)), k.cell))
  {
    if |ix| > 0 {
      assert DistinctKeys(ix[1..]);
      DetectIndex(ix[1..], k);
      var g := GroupBy(CellPairs(ix[0].items));
      FlagExact(ix[0].key, g, k);
      if ix[0].key == k.resource {
        LookupAbsent(ix[1..], k.resource);
      }
    }
  }

  /** Conflict iff crowded: `k` is reported for a dimension's records exactly
      when at least two records of `k.resource` sit at `k.cell`, and then its
      items are all of them, in input order. */
  lemma DetectExact(recs: seq<Record>, k: Conflict)
    ensures k in Detect(GroupBy(recs)) <==>
      (|Occupants(recs, k.resource, k.cell)| > 1 && k.items == Occupants(recs, k.resource, k.cell))
  {
    DetectIndex(GroupBy(recs), k);
    OccupantsSelect(recs, k.resource, k.cell);
  }

  lemma DetectSound(recs: seq<Record>)
    ensures forall k :: k in Detect(GroupBy(recs)) ==>
      |k.items| > 1 && k.items == Occupants(recs, k.resource, k.cell)
  {
    forall k | k in Detect(GroupBy(recs))
      ensures |k.items| > 1 && k.items == Occupants(recs, k.resource, k.cell)
    {
      DetectExact(recs, k);
    }
  }

  // ---------------------------------------------------------------------
  // The counter

  lemma NoDupAppend(a: seq<Conflict>, b: seq<Conflict>)
    requires NoDupSpots(a) && NoDupSpots(b)
    requires forall p, q :: 0 <= p < |a| && 0 <= q < |b| ==> (a[p].resource, a[p].cell) != (b[q].resource, b[q].cell)
    ensures NoDupSpots(a + b)
  {
    forall p, q | 0 <= p < q < |a + b|
      ensures ((a + b)[p].resource, (a + b)[p].cell) != ((a + b)[q].resource, (a + b)[q].cell)
    {
      if q < |a| {
      } else if p >= |a| {
        assert (a + b)[p] == b[p - |a|] && (a + b)[q] == b[q - |a|];
      } else {
        assert (a + b)[q] == b[q - |a|];
      }
    }
  }

  lemma {:induction false} FlagNoDup(rid: int, gs: seq<Group<Cell, Entry>>)
    requires DistinctKeys(gs)
    ensures NoDupSpots(Flag(rid, gs))
  {
    if |gs| > 0 {
      assert DistinctKeys(gs[1..]);
      FlagNoDup(rid, gs[1..]);
      var head := if |gs[0].items| > 1 then [Conflict(rid, gs[0].key, gs[0].items)] else [];
      var rest := Flag(rid, gs[1..]);
      forall p, q | 0 <= p < |head| && 0 <= q < |rest|
        ensures (head[p].resource, head[p].cell) != (rest[q].resource, rest[q].cell)
      {
        FlagExact(rid, gs[1..], rest[q]);
        LookupAbsent(gs[1..], gs[0].key);
      }
      NoDupAppend(head, rest);
    }
  }

  lemma {:induction false} DetectNoDup(ix: seq<Group<int, Entry>>)
    requires DistinctKeys(ix)
    ensures NoDupSpots(Detect(ix))
  {
    if |ix| > 0 {
      assert DistinctKeys(ix[1..]);
      DetectNoDup(ix[1..]);
      var g := GroupBy(CellPairs(ix[0].items));
      FlagNoDup(ix[0].key, g);
      var head := Flag(ix[0].key, g);
      var rest := Detect(ix[1..]);
      forall p, q | 0 <= p < |head| && 0 <= q < |rest|
        ensures (head[p].resource, head[p].cell) != (rest[q].resource, rest[q].cell)
      {
        FlagExact(ix[0].key, g, head[p]);
        DetectIndex(ix[1..], rest[q]);
        LookupAbsent(ix[1..], ix[0].key);
        assert CellPairs([]) == [];
      }
      NoDupAppend(head, rest);
    }
  }

  lemma {:induction false} SpotCard(cs: seq<Conflict>)
    requires NoDupSpots(cs)
    ensures |SpotSet(cs)| == |cs|
  {
    if |cs| > 0 {
      var s := (cs[0].resource, cs[0].cell);
      assert NoDupSpots(cs[1..]);
      SpotCard(cs[1..]);
      assert SpotSet(cs) == {s} + SpotSet(cs[1..]);
    }
  }

  /** The counter: the number of conflicts reported for a dimension equals the
      number of (resource, cell) pairs at which two or more records collide. */
  lemma ConflictCount(recs: seq<Record>)
    ensures |Detect(GroupBy(recs))| == |ConflictSpots(recs)|
  {
    var cs := Detect(GroupBy(recs));
    DetectNoDup(GroupBy(recs));
    SpotCard(cs);
    forall s | s in SpotSet(cs) ensures s in ConflictSpots(recs) {
      var k :| k in cs && (k.resource, k.cell) == s;
      DetectExact(recs, k);
      var i := OccupantsOrigin(recs, k.resource, k.cell, k.items[0]);
    }
    forall s | s in ConflictSpots(recs) ensures s in SpotSet(cs) {
      var i :| 0 <= i < |recs| && |Occupants(recs, recs[i].0, recs[i].1.cell)| > 1
            && s == (recs[i].0, recs[i].1.cell);
      var k := Conflict(s.0, s.1, Occupants(recs, s.0, s.1));
      DetectExact(recs, k);
    }
    assert SpotSet(cs) == ConflictSpots(recs);
  }

  // ---------------------------------------------------------------------
  // No self-conflict

  lemma {:induction false} SelectAbsentCell(es: seq<Entry>, c: Cell)
    requires forall i :: 0 <= i < |es| ==> es[i].cell != c
    ensures Select(CellPairs(es), c) == []
  {
    if |es| > 0 {
      SelectAbsentCell(es[1..], c);
    }
  }

  /** Entries at pairwise different cells never share a cell group. */
  lemma {:induction false} DistinctCellsSingleton(es: seq<Entry>, c: Cell)
    requires CellsDistinct(es)
    ensures |Select(CellPairs(es), c)| <= 1
  {
    if |es| > 0 {
      assert CellsDistinct(es[1..]);
      if es[0].cell == c {
        SelectAbsentCell(es[1..], c);
      } else {
        DistinctCellsSingleton(es[1..], c);
      }
    }
  }

  /** Two entries at one cell do share a cell group. */
  lemma {:induction false} SharedCellCrowded(es: seq<Entry>, i: nat, j: nat)
    requires i < j < |es| && es[i].cell == es[j].cell
    ensures |Select(CellPairs(es), es[i].cell)| > 1
  {
    var c := es[i].cell;
    if i == 0 {
      assert es[1..][j - 1] == es[j];
      assert es[j].cell in Keys(GroupBy(CellPairs(es[1..]))) by {
        CellPairsIndex(es[1..], j - 1);
        GroupByKeys(CellPairs(es[1..]));
      }
      var g := GroupBy(CellPairs(es[1..]));
      var p :| 0 <= p < |g| && g[p].key == c;
      LookupAt(g, p);
    } else {
      SharedCellCrowded(es[1..], i - 1, j - 1);
    }
  }

  lemma {:induction false} CellPairsIndex(es: seq<Entry>, i: nat)
    requires i < |es|
    ensures |CellPairs(es)| == |es| && CellPairs(es)[i] == (es[i].cell, es[i])
  {
    if i > 0 {
      CellPairsIndex(es[1..], i - 1);
    } else {
      CellPairsLength(es);
    }
  }

  lemma {:induction false} CellPairsLength(es: seq<Entry>)
    ensures |CellPairs(es)| == |es|
  {
    if |es| > 0 {
      CellPairsLength(es[1..]);
    }
  }

  /** No self-conflict: a resource whose entries sit at pairwise different
      cells is never reported. */
  lemma NoSelfConflict(recs: seq<Record>, r: int)
    requires CellsDistinct(Select(recs, r))
    ensures forall k :: k in Detect(GroupBy(recs)) ==> k.resource != r
  {
    forall k | k in Detect(GroupBy(recs)) ensures k.resource != r {
      DetectExact(recs, k);
      OccupantsSelect(recs, k.resource, k.cell);
      if k.resource == r {
        DistinctCellsSingleton(Select(recs, r), k.cell);
      }
    }
  }

  /** A dimension reports nothing exactly when no resource has two entries at
      one cell. */
  lemma ConflictFree(recs: seq<Record>)
    ensures Detect(GroupBy(recs)) == [] <==> forall r :: CellsDistinct(Select(recs, r))
  {
    if forall r :: CellsDistinct(Select(recs, r)) {
      var cs := Detect(GroupBy(recs));
      if cs != [] {
        NoSelfConflict(recs, cs[0].resource);
      }
    } else {
      var r :| !CellsDistinct(Select(recs, r));
      var es := Select(recs, r);
      var i, j :| 0 <= i < j < |es| && es[i].cell == es[j].cell;
      SharedCellCrowded(es, i, j);
      OccupantsSelect(recs, r, es[i].cell);
      DetectExact(recs, Conflict(r, es[i].cell, Occupants(recs, r, es[i].cell)));
    }
  }
}
