# Schedule conflict analysis — a Dafny model

This project models the conflict-detection core of `analyze_schedule_conflicts`
in `analyze_conflicts.py`. The analyser reads one version of a timetable and
looks for three kinds of double booking:

- a class in two lessons at once;
- a teacher in two lessons at once;
- a classroom holding two lessons at once.

Each assignment row is a lesson. It starts at a given slot of a week day and
runs for a number of consecutive slots. Conflicts are found in three steps:

1. **Occupancy expansion.** A row becomes the cells it covers. A cell is a
   (week day, slot) pair. The cells are
   `start_slot .. start_slot + slots_count - 1`.
2. **Resource indexing.** In each dimension, every cell is appended, with a
   descriptor, to the list of each resource the row binds. The class dimension
   binds every class linked to the row's task. The teacher and classroom
   dimensions bind the row's own teacher id and classroom id.
3. **Conflict detection.** Each resource's list is grouped by cell. Every group
   of more than one entry is a conflict, and the dimension's counter goes up
   by one for each.

Files:

- `grouping.dfy` (module `Grouping`) models the `defaultdict(list)` idiom. A
  dictionary is a sequence of buckets with distinct keys. A new key gets a
  bucket at the end, which is Python's insertion order. `Select` is the
  reference filter that the grouping is proved against.
- `schedule.dfy` (module `Schedule`) holds the data model, occupancy expansion,
  and the records each dimension appends to its index.
- `indexing.dfy` (module `Indexing`) holds the cell-count laws and the
  "other lists unchanged" laws of indexing.
- `conflicts.dfy` (module `Conflicts`) covers grouping by cell, flagging
  groups, and the counter. `Occupants` is the reference definition of a
  conflict group.
- `analysis.dfy` (module `Analysis`) has the three passes together:
  - overlap detection in either row order, duplicated rows included;
  - no self-conflict;
  - no report for disjoint bookings;
  - independence of the dimensions.
- `scenarios.dfy` (module `Scenarios`) has concrete timetables and what each
  pass reports for them.

Behaviour of the code worth knowing:

- **No validation.** `start_slot` and `slots_count` are used as given. A
  non-positive count gives `range(start, start + count)`, which is empty, so
  the row occupies no cell (`Schedule.Span`, `Schedule.Expand`). No week day
  or slot range is checked while conflicts are found. The week day is only
  used when a conflict is printed (see "## Left out").
- **No sorting.** Conflicts come out in dictionary order: resources in first
  appearance order, and within a resource, cells in first appearance order
  (`Conflicts.Detect`).
- **Duplicate class links self-conflict.** Suppose a task links the same class
  id twice. Then a single row appends each of its cells twice under that
  class, and the class is reported at every cell of the row, with one entry
  per link (`Analysis.DuplicateLinkConflict`). So the class pass of a single
  row is quiet exactly when its class ids are distinct or it covers no cell
  (`Analysis.SingleClassRowQuiet`).
- **Unlinked task.** Lines 55-65 store an entry in `task_classes` for the task
  of every row. A task with no linked classes therefore reads as the empty
  result of its query, not as the `defaultdict` default, and the row adds
  nothing to the class index (`Indexing.UnlinkedRow`). `Schedule.LinksOf`
  also reads a task missing from the table as having no links. The source
  never produces that input, because every row's task is stored.
- **The task→classes table.** It is filled once per row, by a query keyed on
  the task id. Rows with the same task therefore store the same list. The
  model takes the filled table as a map from task id to its link list.

## Model

| member | source | states |
|---|---|---|
| Schedule.Expand | analyze_conflicts.py:77-84 | a row covers exactly `max(slots_count, 0)` cells; cell `i` is `(week_day, start_slot + i)`; no cell is repeated |
| Schedule.ExpandMembers | analyze_conflicts.py:122-127 | a cell is covered exactly when it is on the row's week day, between `start_slot` and `start_slot + slots_count - 1` inclusive |
| Grouping.Insert | analyze_conflicts.py:85-91 | `d[k].append(v)` grows the list of `k` by `v` and changes no other key's list |
| Grouping.GroupBy | analyze_conflicts.py:96-98 | building a `defaultdict(list)` by appending pairs in order gives each key exactly its values in input order; keys are distinct; no list is empty |
| Grouping.GroupByKeys | analyze_conflicts.py:95-100 | the dictionary has a key exactly when some input pair carries it |
| Grouping.GroupByPartitions | analyze_conflicts.py:96-98 | grouping neither adds nor drops a value: the buckets together hold the input values as a multiset |
| Grouping.InsertDistinct | analyze_conflicts.py:85-91 | appending never creates a second bucket for a key |
| Indexing.ClassRowCount | analyze_conflicts.py:81-91 | a row adds `Span × number of linked classes` class entries; a class id gets `Span` entries for each time it is linked |
| Indexing.OwnerRow | analyze_conflicts.py:126-133 | a row adds exactly `Span` entries, one per covered cell in slot order, under its own teacher (classroom) id, and nothing under any other id |
| Indexing.IndexStep | analyze_conflicts.py:75-91 | indexing one more row extends every resource's list by what that row appends for it, after the earlier entries |
| Indexing.OwnerIndexStep | analyze_conflicts.py:161-174 | a row extends its own teacher's (classroom's) list by its stamped cells, leaves every other list unchanged, and adds `Span` to the length |
| Indexing.UnlinkedRow | analyze_conflicts.py:54-65 | a row whose task has no linked classes leaves the class index unchanged but still extends its teacher's and classroom's lists by `Span` |
| Indexing.RecordsAppend | analyze_conflicts.py:120-133 | the entries of two consecutive row lists are the entries of the first followed by those of the second |
| Indexing.SpreadSelect | analyze_conflicts.py:81-91 | a row's bindings append `|cells| × |bindings|` entries in all, and `|cells| ×` (number of bindings naming `k`) of them for resource `k` |
| Analysis.AttributeOccupants | analyze_conflicts.py:83-91 | one binding puts, at cell `c`, one entry under its resource for each time `c` occurs among the cells, and nothing under any other resource |
| Analysis.SpreadOccupants | analyze_conflicts.py:81-91 | a row's bindings put, at cell `c`, (occurrences of `c` among the cells) × (number of bindings naming `r`) entries under resource `r` |
| Conflicts.CellGroupsPartition | analyze_conflicts.py:96-98 | the cell groups of one resource hold exactly that resource's entries as a multiset (groups partition the entries) |
| Conflicts.DetectExact | analyze_conflicts.py:94-102 | a conflict is reported exactly when two or more entries of one resource share a cell, and it lists all of them in append order |
| Conflicts.ConflictCount | analyze_conflicts.py:135-143 | the counter equals the number of (resource, cell) pairs with two or more entries |
| Conflicts.NoSelfConflict | analyze_conflicts.py:176-184 | a resource whose entries are at pairwise different cells is never reported |
| Conflicts.ConflictFree | analyze_conflicts.py:100-102 | a dimension reports nothing exactly when every resource's entries are at pairwise different cells |
| Conflicts.OccupantsSelect | analyze_conflicts.py:95-98 | the group of cell `c` in resource `r`'s list is exactly the entries recorded for `r` at `c`, in order |
| Conflicts.DetectNoDup | analyze_conflicts.py:95-102 | no (resource, cell) pair is reported twice |
| Schedule.Bindings | analyze_conflicts.py:81-91 | the resources a row occupies in one dimension: every linked class, or its teacher, or its classroom. Its properties are in `Indexing.ClassRowCount` and `Indexing.OwnerRow` |
| Schedule.RowRecords | analyze_conflicts.py:120-133 | what one row appends to a dimension's index: each binding at each covered cell, bindings outermost. Counts and contents are in `Indexing.SpreadSelect`, `Indexing.ClassRowCount` and `Indexing.OwnerRow` |
| Schedule.Records | analyze_conflicts.py:75-91 | all rows' appends, in input order. `Indexing.RecordsAppend` splits it over consecutive row lists, and `Indexing.IndexStep` gives the one-row step |
| Schedule.BuildIndex | analyze_conflicts.py:159-174 | the index of one dimension: the records grouped by resource id. `Grouping.GroupBy` gives each id exactly its entries in append order, and `Indexing.OwnerIndexStep` and `Indexing.UnlinkedRow` give what one row changes |
| Conflicts.Detect | analyze_conflicts.py:94-102 | for each resource in index order, the cell groups of more than one entry. `Conflicts.DetectExact` says which conflicts it reports, `Conflicts.ConflictCount` how many, and `Conflicts.DetectNoDup` that none repeats |
| Analysis.Analyze | analyze_conflicts.py:71-196 | the report is the triple of the class, teacher and classroom `Pass` results. Each is computed on its own index (`Analysis.OwnerIgnoresLinks`, `Analysis.ClassIgnoresIds`) |
| Analysis.AnalyzeCounts | analyze_conflicts.py:111-196 | the report's three counters are the numbers of crowded (resource, cell) pairs of the class, teacher and classroom records |
| Analysis.Pass | analyze_conflicts.py:135-143 | every reported conflict has more than one entry, and those are all the entries of its resource at its cell |
| Analysis.PassCounts | analyze_conflicts.py:94-102 | each dimension's conflict count equals the number of its crowded (resource, cell) pairs |
| Analysis.PassExact | analyze_conflicts.py:176-184 | a conflict is in a dimension's report exactly when its cell is crowded for its resource, with the entries in append order |
| Analysis.OverlapDetected | analyze_conflicts.py:75-102 | two different rows that bind one resource and share a cell make a conflict there that lists both descriptors, whichever row comes first and even if the rows are identical |
| Analysis.OwnerOverlap | analyze_conflicts.py:120-143 | two rows with the same teacher (classroom) and a shared cell are reported at that cell with both descriptors |
| Analysis.ClassOverlap | analyze_conflicts.py:81-102 | two rows whose tasks link one class and that share a cell are reported for that class at that cell, with both class-named descriptors |
| Analysis.DisjointNoConflict | analyze_conflicts.py:161-184 | a resource each row binds at most once, whose rows pairwise cover disjoint cells, is never reported |
| Analysis.PairwiseDisjointNoConflict | analyze_conflicts.py:120-143 | when no two rows sharing a resource share a cell, the pass reports nothing |
| Analysis.SingleRowNoConflict | analyze_conflicts.py:81-102 | one row that binds each resource at most once reports nothing, however many cells it spans |
| Analysis.SingleOwnerRowNoConflict | analyze_conflicts.py:126-143 | one row never conflicts with itself in the teacher or classroom pass |
| Analysis.SingleClassRowNoConflict | analyze_conflicts.py:81-102 | one row whose task links pairwise different class ids never conflicts with itself in the class pass |
| Analysis.DuplicateLinkConflict | analyze_conflicts.py:81-102 | when a task links one class twice or more, a single row of it is reported for that class at every covered cell, with one entry per link |
| Analysis.SingleClassRowQuiet | analyze_conflicts.py:81-102 | a single row's class pass is empty exactly when the row covers no cell or its task links every class at most once |
| Analysis.SingleClassRowOccupants | analyze_conflicts.py:81-91 | a single row puts, at each of its cells, one entry for class `r` per link to `r`, and none at other cells |
| Analysis.OwnerIgnoresLinks | analyze_conflicts.py:120-133 | the teacher and classroom passes do not depend on the task→classes table |
| Analysis.ClassIgnoresIds | analyze_conflicts.py:75-91 | the class pass does not depend on teacher or classroom ids |
| Scenarios.TwoLessonsClassesApart | analyze_conflicts.py:81-102 | two Monday lessons of different classes: the class pass reports nothing |
| Scenarios.TwoLessonsRoomsApart | analyze_conflicts.py:162-184 | the same two lessons in different rooms: the classroom pass reports nothing |
| Scenarios.TeacherOverlapAcrossSlots | analyze_conflicts.py:121-143 | the same two lessons by one teacher: the teacher pass reports Monday slot 2 with both lessons in input order, and no other cell |
| Scenarios.DifferentDaysNoConflict | analyze_conflicts.py:77-102 | one teacher, room and class on two different days: no pass reports anything |
| Scenarios.MergedSessionNoConflict | analyze_conflicts.py:81-102 | one merged lesson of two classes: no pass reports anything |
| Scenarios.DuplicateRowConflict | analyze_conflicts.py:121-184 | a row recorded twice is reported, at each of its cells, in the teacher pass, the classroom pass, and the class pass under every class its task links |

## Left out

- Database access: the connection settings, both SQL queries and `fetchall`. The rows and the task→classes table are parameters.
- `ORDER BY week_day, start_slot`: the rows are taken in the order given. Every property holds for any row order.
- Printing: the report text, the per-conflict item lines and the summary lines. The model returns the conflicts, and each counter is the length of its list.
- `day_names[week_day]` (lines 107, 148, 189): the model does not print. The list has eight entries, so the lookup only succeeds for week days from -8 to 7, and negative days index from the end. A conflict on any other day raises `IndexError` there. Only `try`/`finally` surrounds the analysis, so that error ends the whole run after the earlier conflicts are printed. The model reports such conflicts like any other.
- `offering_id`, the version lookup, the command line and the exit path: none of them affects which conflicts are found.
- Analysis.Pass: states soundness only. Completeness is in `Analysis.PassExact`, and the count is in `Analysis.PassCounts`.
- Conflicts.Detect: the result order (dictionary insertion order) is modelled but not stated as a separate property.
