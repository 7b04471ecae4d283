# Student record store

`PY/ind.py` keeps students and their groups in an SQLite file with two tables.

- `groupss` holds an autoincrement `group_id` and a `group_num` label.
- `students` holds an autoincrement `student_id`, a name, a `group_id` and the marks.

The program has five operations:

- `create_db` creates both tables if they are missing.
- `add_student` looks the group label up, creates the group row when it is missing, and then appends the student.
- `select_all` joins students to their groups.
- `find_students` groups that join by (name, group) and keeps the groups whose mark average is at least 4.0.
- `display_students` prints a record list as a fixed-width table, or prints a single line when the list is empty.

The database file is modelled as the class `Database.Store`. Its fields are:

- whether the tables exist;
- the rows of both tables;
- the two autoincrement counters, which are SQLite's `sqlite_sequence` entries.

`add_student` is an imperative method on `Store`. Its new state is tied to the pure function `Database.Insert` of the old state, and the lemmas about `Insert` carry the properties. The two readers are functions over the store. `Queries` gives them a meaning over the model's integer-list marks:

- the inner join of SQL, scanning students in insertion order;
- `GROUP BY` and `AVG`, read by the model as pooling the marks of all rows with the same (name, group); SQL's `AVG` averages one value per row, and the two agree when each row holds one mark (see "## Left out");
- `HAVING AVG(marks) >= 4.0`, stated without division as `|m| > 0 && Sum(m) >= 4 * |m|`.

`Presenter` returns the printed lines instead of printing them. `Text` holds the string operations the table needs:

- `str()` of an integer;
- `','.join`;
- the `{:<w}`, `{:>w}` and `{:^w}` padding of `str.format`, on code points.

Marks are modelled as a sequence of integers throughout; this is an abstraction of what the program stores (see "## Left out").

## Model

| member | source | states |
|---|---|---|
| Schema.FindGroupIndex | PY/ind.py:89-95 | the lookup `SELECT group_id ... WHERE group_num = ?` plus `fetchone()` is None exactly when no row carries the label; otherwise it is the first such row in rowid order |
| Schema.IndexOfId | PY/ind.py:128 | the join condition's lookup of a group row by id is None exactly when no row has the id; otherwise it is the first row with that id |
| Schema.LabelOf | PY/ind.py:126-128 | definition (no contract of its own): the `group_num` of the group row whose `group_id` equals the given id, None when no row has it; `LabelOfDense` and `LabelOfAppendFresh` state its properties |
| Schema.LabelOfDense | PY/ind.py:56-59 | with autoincrement ids 1..n and no deletions, id k names row k-1 and its label |
| Schema.TablesValidReferencesResolve | PY/ind.py:70 | the table invariants imply the foreign key: every student's `group_id` names an existing group row |
| Schema.IndexOfIdAppend | PY/ind.py:96-103 | inserting a group row leaves every earlier id lookup unchanged; the new row answers only for its own id and only when no earlier row had it |
| Schema.LabelOfAppendFresh | PY/ind.py:96-103 | inserting a group row whose id is above all existing ids keeps every existing label and gives the new id the new label |
| Queries.MatchGroupsUnique | PY/ind.py:124-130 | with a primary key on group ids, a student joins to exactly its own group row, and a student whose group id names no row drops out of the inner join |
| Queries.MatchGroups | PY/ind.py:126-128 | definition: the join rows one student contributes, one per group row whose id equals its `group_id`, in rowid order; `MatchGroupsUnique` states what it yields |
| Queries.Join | PY/ind.py:124-131 | definition: the inner join, students in rowid order, each giving {name, group label, marks} for its matching group rows; `JoinExact`, `JoinAppendUnreferencedGroup` and `Database.JoinAppendStudent` state its properties |
| Queries.JoinExact | PY/ind.py:124-140 | when the ids are a key and the foreign key holds, `select_all` yields exactly one record per student, in insertion order: {name, label of its group_id, marks} |
| Queries.JoinAppendUnreferencedGroup | PY/ind.py:96-103 | a new group row that no student references leaves the join unchanged |
| Queries.MeetsThresholdIsAverage | PY/ind.py:157 | the integer test holds exactly when the marks are non-empty and their arithmetic mean is at least 4.0, with 4.0 included |
| Queries.QuotientAtLeast | PY/ind.py:157 | for a positive count n, s / n >= c exactly when s >= c * n, so the division-free test agrees with `AVG` |
| Queries.MeetsThreshold | PY/ind.py:157 | definition: `HAVING AVG(...) >= 4.0` without division, false for no marks; `MeetsThresholdIsAverage` proves it is "non-empty and mean at least 4.0" |
| Queries.SumForwardIsSum | PY/ind.py:157 | evaluation helper for the example averages: the front-to-back sum equals `Sum`; it models no particular order of `AVG` |
| Queries.HavingUpToSound | PY/ind.py:151-157 | every group kept among the first n rows is one of those rows, and its group's pooled average passes |
| Queries.HavingUpToKeeps | PY/ind.py:151-157 | the first row of a group whose average passes is in the result |
| Queries.HavingUpToGrows | PY/ind.py:156-157 | scanning one more row never drops a group already kept |
| Queries.HavingUpToDistinct | PY/ind.py:156 | no two kept records share a (name, group) pair |
| Queries.FirstOccurrence | PY/ind.py:156 | every row has a first row of its (name, group) group at or before it |
| Queries.PooledMarks | PY/ind.py:156-157 | definition: the marks of every join row with the given (name, group), concatenated in row order; `PooledMarksSingle` and `PooledMarksNone` state the one-row and no-row cases |
| Queries.GroupPasses | PY/ind.py:157 | definition: a row's (name, group) passes the threshold on its pooled marks |
| Queries.HavingUpTo | PY/ind.py:156-157 | definition: among the first n join rows, the first row of each (name, group) whose group passes, in first-appearance order; `HavingUpToSound`, `HavingUpToKeeps`, `HavingUpToDistinct` and `HavingUpToKeysDistinct` state its properties |
| Queries.GroupHaving | PY/ind.py:156-157 | definition: `GROUP BY ... HAVING` over the whole join, `HavingUpTo` of all rows |
| Queries.FindStudents | PY/ind.py:151-157 | definition: `GroupHaving` of `Join`; `FindStudentsSound`, `FindStudentsComplete`, `FindStudentsDistinct`, `FindStudentsUnique` and `FindStudentsKeysDistinct` state what it returns |
| Queries.FindStudentsSound | PY/ind.py:151-170 | every record `find_students` returns is a row of `select_all`, and its (name, group) has mark average at least 4.0 |
| Queries.FindStudentsComplete | PY/ind.py:151-170 | every (name, group) of the join whose average is at least 4.0 is represented in the result |
| Queries.FindStudentsDistinct | PY/ind.py:156 | `find_students` returns at most one record per (name, group) |
| Queries.PooledMarksSingle | PY/ind.py:156-157 | a (name, group) with a single row averages exactly that row's marks |
| Queries.PooledMarksNone | PY/ind.py:156-157 | a (name, group) with no rows pools no marks |
| Queries.FindStudentsUnique | PY/ind.py:151-170 | a student with a unique (name, group) is returned exactly when its own average is at least 4.0 |
| Queries.Passing | PY/ind.py:157 | the rows whose own average passes are rows of the input, and each of them passes |
| Queries.HavingUpToKeysDistinct | PY/ind.py:151-157 | when no two rows share a (name, group), grouping and filtering the first n rows equals keeping the passing rows among them |
| Queries.FindStudentsKeysDistinct | PY/ind.py:151-170 | when every (name, group) is unique, `find_students` is exactly the passing rows of the join, in join order |
| Text.NatToString | PY/ind.py:35-40 | `str()` of a natural number is a non-empty string of digits with no leading zero |
| Text.IntToStringRoundTrip | PY/ind.py:40 | `str(i)` is non-empty, contains no ',' and reads back to i |
| Text.NatToStringValue | PY/ind.py:40 | the digits of `str(n)` have the value n |
| Text.IntToString | PY/ind.py:35-40 | definition: `str()` of an integer, a '-' before the digits of a negative one; `IntToStringRoundTrip` states that it reads back |
| Text.JoinWith | PY/ind.py:40 | definition: `sep.join(parts)`; `SplitJoinWith` states that splitting undoes it |
| Text.SplitJoinWith | PY/ind.py:40 | splitting on the separator undoes `sep.join` when no piece contains the separator |
| Text.SplitAfterPiece | PY/ind.py:40 | splitting a separator-free prefix followed by any text extends the first piece |
| Text.ParseAllMarkStrings | PY/ind.py:40 | reading back `map(str, marks)` gives the marks |
| Text.MarkStrings | PY/ind.py:40 | `map(str, marks)` has one string per mark; `ParseAllMarkStrings` states that it reads back |
| Text.MarksCell | PY/ind.py:40 | definition: the marks cell `','.join(map(str, marks))`; `MarksCellRoundTrip` states that it parses back |
| Text.MarksCellRoundTrip | PY/ind.py:40 | the marks cell `','.join(map(str, marks))` of a non-empty list parses back to exactly that list |
| Text.Repeat | PY/ind.py:17-22 | `c * n` is a string of exactly n characters, each of them c |
| Text.AlignRight | PY/ind.py:35 | `{:>w}` never cuts the text, puts it at the end, and pads a shorter text to exactly w |
| Text.AlignLeft | PY/ind.py:35 | `{:<w}` never cuts the text, puts it at the start, and pads a shorter text to exactly w |
| Text.AlignCenter | PY/ind.py:25 | `{:^w}` never cuts the text, puts the smaller half of the padding on the left and the rest on the right, and pads a shorter text to exactly w |
| Text.AlignPadsWithSpaces | PY/ind.py:25-41 | every fill character the three alignments add is a space: before the text for `>`, after it for `<`, and on both sides of it for `^` |
| Presenter.Render | PY/ind.py:10-45 | an empty list prints only "список студентов пуст"; n >= 1 records print n+4 lines: border, header, border, then row i with index i for record i, then a border |
| Presenter.DisplayStudents | PY/ind.py:15-45 | the lines printed are exactly those of Render: the empty-list line, or border, header, border, one row per record and a final border |
| Presenter.Border | PY/ind.py:17-22 | definition: the `+-...-+` border line with dash runs of 4, 30, 20 and 15; `BorderShape` states its shape |
| Presenter.Header | PY/ind.py:24-31 | definition: the centred header row; `HeaderShape` states its shape |
| Presenter.RowLine | PY/ind.py:34-41 | definition: one table row, index right-aligned, name and group left-aligned, marks cell right-aligned; `RowColumns` states its shape |
| Presenter.Rows | PY/ind.py:34-42 | definition: row i formatted from index i + 1 and record i; `EnumerateLines` computes it and `RowsAligned` states its shape |
| Presenter.EnumerateLines | PY/ind.py:34-42 | the loop over `enumerate(students, 1)` yields one line per record, line i formatted from index i + 1 and record i |
| Presenter.BorderShape | PY/ind.py:17-22 | the border line is 82 characters, with '+' at the five column separators and '-' everywhere else |
| Presenter.CellsInColumns | PY/ind.py:24-42 | a line built from cells of exactly the column widths is 82 wide, with '|' at the separators and each cell in its column |
| Presenter.HeaderShape | PY/ind.py:24-31 | the header row is 82 wide, with '|' at the five column separators |
| Presenter.RowColumns | PY/ind.py:34-42 | a row whose cells fit is 82 wide; the index and marks cell are right-aligned and the name and group left-aligned in their columns |
| Presenter.RowsAligned | PY/ind.py:34-42 | every row line of records whose cells fit has '|' at the five column separators and is 82 wide |
| Presenter.RenderAligned | PY/ind.py:15-43 | when every cell fits, all lines of the table are 82 wide with the column separators at the same positions |
| Database.AppendStudentKeeps | PY/ind.py:107-113 | appending a student with the next id that refers to an existing group keeps the ids dense and the references in range |
| Database.JoinAppendStudent | PY/ind.py:107-113 | appending such a student adds exactly one record to the join, with the label of the student's group |
| Database.InsertKeeps | PY/ind.py:85-115 | `add_student` keeps the group labels unique, the ids dense and every reference resolving; the join gains exactly {name, group, marks} at its end |
| Database.InsertRows | PY/ind.py:89-113 | a label already present adds no group row and uses that row's id; a new label appends exactly one group row with the next autoincrement id; one student row with the next id, the given name and the given marks is appended; earlier rows are unchanged |
| Database.InsertNewLabel | PY/ind.py:96-113 | for a label no group row carries, `add_student` appends one group row with the next id and one student row that refers to it |
| Database.InsertKnownLabel | PY/ind.py:89-113 | for a label whose first row is at position k, `add_student` adds no group row and the new student refers to row k's id |
| Database.Insert | PY/ind.py:89-113 | definition: `add_student` on the tables, a group lookup, an optional group append and a student append; `InsertKeeps`, `InsertRows`, `InsertNewLabel` and `InsertKnownLabel` state its properties |
| Database.InsertAll | PY/ind.py:85-115 | definition: `add_student` applied to each record in turn; `InsertAllKeeps`, `InsertAllSnoc` and `SelectAllAfterInserts` state its properties |
| Database.InsertAllKeeps | PY/ind.py:85-115 | a sequence of `add_student` calls keeps the invariants, and the join gains the added records in order |
| Database.InsertIntoEmpty | PY/ind.py:96-113 | on an empty store the first student gets student id 1 and a new group with id 1 |
| Database.SelectAllAfterInserts | PY/ind.py:124-140 | on a fresh database, `select_all` returns exactly the students that were added, in order (round trip of name, group and marks) |
| Database.Store.Open | PY/ind.py:51 | a database where nothing has been created yet has no tables and no rows |
| Database.Store.CreateDb | PY/ind.py:47-74 | `CREATE TABLE IF NOT EXISTS` makes the tables exist and leaves every existing row and counter unchanged |
| Database.Store.AddStudent | PY/ind.py:76-115 | before `create_db` the statement fails and nothing changes; otherwise the new rows and counters are `Insert` of the old ones and the invariants hold |
| Database.Store.SelectAll | PY/ind.py:118-140 | fails before `create_db`; otherwise one record per student, in order, with the student's name and marks and the label of the student's group |
| Database.Store.FindStudents | PY/ind.py:143-170 | fails before `create_db`; otherwise every record is a row of the join whose (name, group) averages at least 4.0 |
| Database.FreshDatabaseSession | PY/ind.py:44-95 | adding a student before `create_db` fails; afterwards the listing is empty and displays as the single empty-list line (the group lookup at PY/ind.py:89-95 runs against a missing table; the empty-list line is PY/ind.py:44-45) |
| Database.InsertAllSnoc | PY/ind.py:85-115 | adding one more record applies `add_student` to the tables built so far |
| Database.ExampleFirst | PY/ind.py:96-113 | the first student of the example gets group 1 and student id 1 (on data adapted from PY/g_test.py:73) |
| Database.ExampleFirstTwo | PY/ind.py:96-113 | the first two students, with different labels, get groups 1 and 2 and student ids 1 and 2 (on data adapted from PY/g_test.py:73-74) |
| Database.ExampleFirstThree | PY/ind.py:96-113 | the third student, with a third label, gets group 3 (on data adapted from PY/g_test.py:73-75) |
| Database.ExampleRows | PY/ind.py:104-105 | the fourth student repeats the label "112" and reuses group row 1, so there are three group rows and four student rows (on data adapted from PY/ind_test.py:92) |
| Database.Populate | PY/ind.py:85-115 | creating the tables and adding the four students yields the example tables (on data adapted from PY/g_test.py:73-75 and PY/ind_test.py:92) |
| Database.ExampleAverages | PY/ind.py:157 | the averages 4.2, 4.25 and 4.6 pass and 3.2 does not (on data adapted from PY/g_test.py:88-95 and PY/ind_test.py:92) |
| Database.ExamplePassing | PY/ind.py:157 | the passing rows of the example join are the first, second and fourth (on data adapted from PY/g_test.py:88-95) |
| Database.ExampleFound | PY/ind.py:151-170 | `find_students` on the example returns саша, вова and соня and drops кристина (on data adapted from PY/g_test.py:88-95 and PY/ind_test.py:92-97) |
| Database.ExampleSession | PY/ind.py:85-170 | the first student row is (1, саша, 1, marks), three group rows exist, `select_all` lists the four students as added, and `find_students` returns the three with average at least 4.0 (on data adapted from PY/g_test.py:73-95 and PY/ind_test.py:92) |

## Left out

- Connections, cursors, `commit`, `close` and the database file on disk are replaced by the in-memory `Store`. `Store.Open` stands for connecting to a path where nothing exists yet.
- Marks are modelled as a sequence of integers; this is an abstraction. The source binds `marks` as a statement parameter (PY/ind.py:107-113). A Python list cannot be bound, so `add_student` with a list raises at the student `INSERT`, and a group row inserted just before it is never committed, because line 114 is not reached. The command line stores the raw `-m` string (PY/ind.py:243), and an integer is stored as one number. SQLite's type affinity for the `LIST` column and how `AVG` coerces text are engine behaviour and are not modelled. `AVG` over no marks is NULL, so an empty list never passes.
- `Queries.GroupPasses`: `AVG(student_marks)` is modelled as the mean of the pooled marks of all the group's rows. This equals SQL's `AVG` over the rows only when each row holds exactly one mark, which is the integer form the program can actually store; with several marks per row the model pools them, which SQL does not.
- `GROUP BY` with a bare `student_marks` column: SQLite does not say which row of a group supplies the bare column, nor in which order groups come out. The model picks the first row of each group and first-appearance order. Soundness, completeness and distinctness do not depend on this choice, and for unique (name, group) pairs the set of returned records is determined, but not their order. The order stated in `FindStudentsKeysDistinct`, `ExampleFound` and `ExampleSession` is the model's first-appearance choice, not a prediction of SQLite's, which typically emits the groups in key order.
- `Store.AddStudent`: ids are modelled as dense (row k has id k) with `sqlite_sequence` equal to the number of rows. This holds because the program never deletes rows. A row whose id was taken from a counter that outran the table is not modelled.
- `Store.FindStudents`: its contract states soundness only. Completeness, distinctness and the exact result for unique keys are the separate lemmas `FindStudentsComplete`, `FindStudentsDistinct`, `FindStudentsUnique` and `FindStudentsKeysDistinct` about the same query.
- `Text.MarksCellRoundTrip`: an empty marks list joins to the empty cell, which reads back as one empty piece. The round trip is therefore stated for non-empty lists only.
- Display width: padding counts code points, as Python's `str.format` does. How a terminal draws wide or combining characters is not modelled.
- `main`, argparse, the `Path.home()` default path, and the `-g` option left out (which passes None to a NOT NULL column) are command-line plumbing and not modelled.
- The test files and test runners are not part of the model. The example session (`Database.Populate` to `Database.ExampleSession`) adapts their data: саша, вова and кристина with their labels and marks from PY/g_test.py:73-95, and соня's marks from PY/ind_test.py:92. Two things are changed. The marks become integer lists, where PY/g_test.py stores the strings '4,5,4,3,5' and so on. соня's label is "112" instead of '454', so that one label repeats. The session therefore shows the model under its `seq<int>` abstraction, not what the program does on those inputs: with a list the program raises at the student `INSERT`, and with the tests' text cells SQLite's `AVG` converts each whole cell to a number instead of averaging its digits. The averages 4.2, 4.25, 3.2 and 4.6 are the model's.
