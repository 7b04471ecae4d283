/** The database file as one object: whether `create_db` has created its two
    tables, the rows of `groupss` and `students`, and SQLite's
    autoincrement counters for both tables (the `sqlite_sequence` entries).
    `add_student` changes it in place; the readers only look at it. */
module Database {
  import opened Schema
  import opened Queries
  import Presenter

  datatype Outcome = Done | Failed(error: DbError)

  /** The contents of the two tables together with their autoincrement
      counters. */
  datatype Tables = Tables(groups: seq<GroupRow>, students: seq<StudentRow>, groupSeq: nat, studentSeq: nat)

  /** The invariants the writer keeps on the tables and counters. */
  predicate Consistent(t: Tables)
  {
    TablesValid(t.groups, t.students, t.groupSeq, t.studentSeq)
  }

  /** What `add_student` does to existing tables: reuse the first group row
      carrying the label, or insert one with the next autoincrement id, then
      insert the student row with the next student id. */
  function Insert(t: Tables, name: string, groupNum: string, marks: seq<int>): Tables
  {
    match FindGroupIndex(t.groups, groupNum)
    case Some(k) =>
      Tables(t.groups, t.students + [StudentRow(t.studentSeq + 1, name, t.groups[k].id, marks)],
             t.groupSeq, t.studentSeq + 1)
    case None =>
      var id := t.groupSeq + 1;
      Tables(t.groups + [GroupRow(id, groupNum)], t.students + [StudentRow(t.studentSeq + 1, name, id, marks)],
             id, t.studentSeq + 1)
  }

  /** Appending a student row with the next id that refers to an existing
      group keeps the student ids dense and the references in range. */
  lemma AppendStudentKeeps(groups: seq<GroupRow>, students: seq<StudentRow>, studentSeq: nat, s: StudentRow)
    requires GroupIdsDense(groups, |groups|) && StudentIdsDense(students, studentSeq)
    requires GroupRefsInRange(groups, students)
    requires s.id == studentSeq + 1 && 1 <= s.groupId <= |groups|
    ensures StudentIdsDense(students + [s], studentSeq + 1)
    ensures GroupRefsInRange(groups, students + [s])
  {
  }

  /** Appending a student row that refers to an existing group adds exactly
      one record to the join, labelled with that group's label. */
  lemma JoinAppendStudent(groups: seq<GroupRow>, students: seq<StudentRow>, s: StudentRow)
    requires GroupIdsDense(groups, |groups|) && 1 <= s.groupId <= |groups|
    ensures Join(groups, students + [s]) == Join(groups, students) + [Record(s.name, groups[s.groupId - 1].num, s.marks)]
  {
    var students' := students + [s];
    assert Join(groups, students') == Join(groups, students) + MatchGroups(groups, s) by {
      assert students'[..|students|] == students && students'[|students'| - 1] == s;
    }
    assert DistinctIds(groups);
    MatchGroupsUnique(groups, s);
    LabelOfDense(groups, s.groupId);
  }

  /** `add_student` keeps the invariants of the tables, and the join (what
      `select_all` returns) gains exactly the added record at its end: the
      student's name and marks under the label it was added with. */
  lemma InsertKeeps(t: Tables, name: string, groupNum: string, marks: seq<int>)
    requires Consistent(t)
    ensures Consistent(Insert(t, name, groupNum, marks))
    ensures Join(Insert(t, name, groupNum, marks).groups, Insert(t, name, groupNum, marks).students) ==
      Join(t.groups, t.students) + [Record(name, groupNum, marks)]
  {
    match FindGroupIndex(t.groups, groupNum)
    case Some(k) =>
      var s := StudentRow(t.studentSeq + 1, name, k + 1, marks);
      AppendStudentKeeps(t.groups, t.students, t.studentSeq, s);
      JoinAppendStudent(t.groups, t.students, s);
    case None =>
      var g := GroupRow(t.groupSeq + 1, groupNum);
      var s := StudentRow(t.studentSeq + 1, name, g.id, marks);
      JoinAppendUnreferencedGroup(t.groups, g, t.students);
      AppendStudentKeeps(t.groups + [g], t.students, t.studentSeq, s);
      JoinAppendStudent(t.groups + [g], t.students, s);
  }

  /** A label already present reuses its group row and adds no group; a new
      label adds exactly one group row, with the next id. Either way exactly
      one student row is appended, with the next id, and the earlier rows are
      kept; the student's group row carries the label. */
  lemma InsertRows(t: Tables, name: string, groupNum: string, marks: seq<int>)
    requires Consistent(t)
    ensures var r := Insert(t, name, groupNum, marks);
      (exists i :: 0 <= i < |t.groups| && t.groups[i].num == groupNum) <==> r.groups == t.groups
    ensures var r := Insert(t, name, groupNum, marks);
      (forall i :: 0 <= i < |t.groups| ==> t.groups[i].num != groupNum) <==>
      r.groups == t.groups + [GroupRow(t.groupSeq + 1, groupNum)]
    ensures var r := Insert(t, name, groupNum, marks);
      |r.students| == |t.students| + 1 && r.students[..|t.students|] == t.students &&
      r.students[|t.students|] == StudentRow(t.studentSeq + 1, name, r.students[|t.students|].groupId, marks) &&
      LabelOf(r.groups, r.students[|t.students|].groupId) == Some(groupNum)
    ensures var r := Insert(t, name, groupNum, marks);
      forall i :: 0 <= i < |t.groups| && t.groups[i].num == groupNum ==>
        r.students[|t.students|].groupId == t.groups[i].id
    ensures var r := Insert(t, name, groupNum, marks);
      (forall i :: 0 <= i < |t.groups| ==> t.groups[i].num != groupNum) ==>
        r.students[|t.students|].groupId == t.groupSeq + 1
  {
    var r := Insert(t, name, groupNum, marks);
    assert r.students[..|t.students|] == t.students;
    InsertKeeps(t, name, groupNum, marks);
    LabelOfDense(r.groups, r.students[|t.students|].groupId);
  }

  /** A label no group row carries: one group row with the next id is
      inserted and the student refers to it. */
  lemma InsertNewLabel(t: Tables, name: string, groupNum: string, marks: seq<int>)
    requires forall i :: 0 <= i < |t.groups| ==> t.groups[i].num != groupNum
    ensures Insert(t, name, groupNum, marks) ==
      Tables(t.groups + [GroupRow(t.groupSeq + 1, groupNum)],
             t.students + [StudentRow(t.studentSeq + 1, name, t.groupSeq + 1, marks)],
             t.groupSeq + 1, t.studentSeq + 1)
  {
  }

  /** A label whose first row is at position k: no group row is inserted and
      the student refers to that row's id. */
  lemma InsertKnownLabel(t: Tables, name: string, groupNum: string, marks: seq<int>, k: nat)
    requires k < |t.groups| && t.groups[k].num == groupNum
    requires forall i :: 0 <= i < k ==> t.groups[i].num != groupNum
    ensures Insert(t, name, groupNum, marks) ==
      Tables(t.groups, t.students + [StudentRow(t.studentSeq + 1, name, t.groups[k].id, marks)],
             t.groupSeq, t.studentSeq + 1)
  {
    var r := FindGroupIndex(t.groups, groupNum);
    assert r.Some? && r.value <= k;
  }

  /** The tables after `add_student` has been called for each record in turn. */
  function InsertAll(t: Tables, rs: seq<Record>): Tables
  {
    if rs == [] then t
    else
      var r := rs[|rs| - 1];
      Insert(InsertAll(t, rs[..|rs| - 1]), r.name, r.group, r.marks)
  }

  /** Adding students one after another keeps the invariants, and the join
      gains exactly the added records, in the order they were added. */
  lemma {:induction false} InsertAllKeeps(t: Tables, rs: seq<Record>)
    requires Consistent(t)
    ensures Consistent(InsertAll(t, rs))
    ensures Join(InsertAll(t, rs).groups, InsertAll(t, rs).students) == Join(t.groups, t.students) + rs
  {
    if rs != [] {
      var init, r := rs[..|rs| - 1], rs[|rs| - 1];
      assert rs == init + [r];
      var u := InsertAll(t, init);
      InsertAllKeeps(t, init);
      InsertKeeps(u, r.name, r.group, r.marks);
    }
  }

  /** The tables `create_db` makes: no rows, both counters at zero. */
  const Empty := Tables([], [], 0, 0)

  /** The first student added to a fresh database gets student id 1 and a
      new group row with id 1. */
  lemma InsertIntoEmpty(name: string, groupNum: string, marks: seq<int>)
    ensures Insert(Empty, name, groupNum, marks) ==
      Tables([GroupRow(1, groupNum)], [StudentRow(1, name, 1, marks)], 1, 1)
  {
  }

  /** Round trip: on a fresh database, `select_all` returns exactly the
      students that were added, in the order they were added. */
  lemma SelectAllAfterInserts(rs: seq<Record>)
    ensures Join(InsertAll(Empty, rs).groups, InsertAll(Empty, rs).students) == rs
  {
    assert Consistent(Empty);
    InsertAllKeeps(Empty, rs);
    assert Join(Empty.groups, Empty.students) == [];
    assert [] + rs == rs;
  }

  class Store {
    var tablesExist: bool
    var groups: seq<GroupRow>
    var students: seq<StudentRow>
    var groupSeq: nat
    var studentSeq: nat

    /** The rows and counters of the database file. */
    function State(): Tables
      reads this
    {
      Tables(groups, students, groupSeq, studentSeq)
    }

    /** The invariants of the two tables; before `create_db` there is nothing. */
    ghost predicate Valid()
      reads this
    {
      Consistent(State()) &&
      (!tablesExist ==> State() == Empty)
    }

    /** `sqlite3.connect` on a path where no database exists yet. */
    constructor Open()
      ensures Valid() && !tablesExist
    {
      tablesExist := false;
      groups, students := [], [];
      groupSeq, studentSeq := 0, 0;
    }

    /** `create_db`: `CREATE TABLE IF NOT EXISTS` for both tables. Existing
        tables, their rows and their counters are left as they are. */
    method CreateDb()
      requires Valid()
      modifies this
      ensures Valid() && tablesExist
      ensures State() == old(State())
    {
      tablesExist := true;
    }

    /** `add_student`: look the group label up, insert a group row when it is
        missing (taking its id from `lastrowid`), then insert the student
        row. Before `create_db` the first statement fails and nothing changes. */
    method AddStudent(name: string, groupNum: string, marks: seq<int>) returns (outcome: Outcome)
      requires Valid()
      modifies this
      ensures Valid()
      ensures tablesExist == old(tablesExist)
      ensures !tablesExist ==> outcome == Failed(NoSuchTable) && State() == old(State())
      ensures tablesExist ==> outcome == Done && State() == Insert(old(State()), name, groupNum, marks)
    {
      if !tablesExist {
        outcome := Failed(NoSuchTable);
        return;
      }
      ghost var t := State();
      InsertKeeps(t, name, groupNum, marks);
      // SELECT group_id FROM groupss WHERE group_num = ?
      var row := FindGroupIndex(groups, groupNum);
      var groupId: int;
      if row.None? {
        InsertNewLabel(t, name, groupNum, marks);
        // INSERT INTO groupss (group_num) VALUES (?); the id is cursor.lastrowid
        groupId := groupSeq + 1;
        groups, groupSeq := groups + [GroupRow(groupId, groupNum)], groupSeq + 1;
      } else {
        InsertKnownLabel(t, name, groupNum, marks, row.value);
        groupId := groups[row.value].id;
      }
      // INSERT INTO students (student_name, group_id, student_marks) VALUES (?, ?, ?)
      students, studentSeq := students + [StudentRow(studentSeq + 1, name, groupId, marks)], studentSeq + 1;
      outcome := Done;
      assert State() == Insert(t, name, groupNum, marks);
    }

    /** `select_all`: one record per student, in insertion order, carrying
        the student's name and marks and the label of the student's group. */
    function SelectAll(): (r: Result<seq<Record>, DbError>)
      reads this
      requires Valid()
      ensures !tablesExist ==> r == Failure(NoSuchTable)
      ensures tablesExist ==> r.Success? && |r.value| == |students|
      ensures tablesExist ==> forall i :: 0 <= i < |students| ==>
        r.value[i].name == students[i].name && r.value[i].marks == students[i].marks &&
        LabelOf(groups, students[i].groupId) == Some(r.value[i].group)
    {
      if !tablesExist then Failure(NoSuchTable)
      else
        TablesValidReferencesResolve(groups, students, groupSeq, studentSeq);
        JoinExact(groups, students);
        Success(Join(groups, students))
    }

    /** `find_students`: the join grouped by (name, group), one record per
        group whose mark average is at least 4.0, each a row of the join. */
    function FindStudents(): (r: Result<seq<Record>, DbError>)
      reads this
      requires Valid()
      ensures !tablesExist ==> r == Failure(NoSuchTable)
      ensures tablesExist ==> r.Success?
      ensures tablesExist ==> forall x :: x in r.value ==>
        x in Join(groups, students) && GroupPasses(Join(groups, students), x)
    {
      if !tablesExist then Failure(NoSuchTable)
      else
        FindStudentsSound(groups, students);
        Success(Queries.FindStudents(groups, students))
    }
  }

  /** A new database: writing before `create_db` fails, and after it the
      listing is empty and is displayed as the single "empty" line. */
  method FreshDatabaseSession() returns (early: Outcome, listing: Result<seq<Record>, DbError>, lines: seq<string>)
    ensures early == Failed(NoSuchTable)
    ensures listing == Success([])
    ensures lines == [Presenter.EmptyMessage]
  {
    var db := new Store.Open();
    early := db.AddStudent("саша", "112", [5]);
    db.CreateDb();
    listing := db.SelectAll();
    lines := Presenter.DisplayStudents(listing.value);
  }

  /** The four students of the example session. The data are adapted from
      PY/g_test.py:73-75 and PY/ind_test.py:92: the marks are integer lists,
      and соня shares the label "112" so that one label repeats. */
  const Sasha := Record("саша", "112", [4, 5, 4, 3, 5])
  const Vova := Record("вова", "145", [5, 5, 4, 3])
  const Kristina := Record("кристина", "45", [4, 1, 5, 4, 2])
  const Sonya := Record("соня", "112", [5, 4, 5, 4, 5])

  /** The tables after `create_db` and the four `add_student` calls. */
  function ExampleState(): Tables
  {
    InsertAll(Empty, [Sasha, Vova, Kristina, Sonya])
  }

  /** InsertAll unfolded at its last record. */
  lemma InsertAllSnoc(t: Tables, rs: seq<Record>, r: Record)
    ensures InsertAll(t, rs + [r]) == Insert(InsertAll(t, rs), r.name, r.group, r.marks)
  {
    assert (rs + [r])[..|rs|] == rs;
  }

  /** The group rows and student rows the example creates. */
  const G1 := GroupRow(1, "112")
  const G2 := GroupRow(2, "145")
  const G3 := GroupRow(3, "45")
  const S1 := StudentRow(1, Sasha.name, 1, Sasha.marks)
  const S2 := StudentRow(2, Vova.name, 2, Vova.marks)
  const S3 := StudentRow(3, Kristina.name, 3, Kristina.marks)
  const S4 := StudentRow(4, Sonya.name, 1, Sonya.marks)

  /** The first student gets new group 1. */
  lemma ExampleFirst()
    ensures InsertAll(Empty, [Sasha]) == Tables([G1], [S1], 1, 1)
  {
    InsertAllSnoc(Empty, [], Sasha);
    assert [] + [Sasha] == [Sasha];
    InsertIntoEmpty(Sasha.name, Sasha.group, Sasha.marks);
  }

  /** The second student, with a new label, gets new group 2. */
  lemma ExampleFirstTwo()
    ensures InsertAll(Empty, [Sasha, Vova]) == Tables([G1, G2], [S1, S2], 2, 2)
  {
    ExampleFirst();
    InsertAllSnoc(Empty, [Sasha], Vova);
    assert [Sasha] + [Vova] == [Sasha, Vova];
    var t := Tables([G1], [S1], 1, 1);
    InsertNewLabel(t, Vova.name, Vova.group, Vova.marks);
    assert [G1] + [G2] == [G1, G2] && [S1] + [S2] == [S1, S2];
  }

  /** The third student, with a third label, gets new group 3. */
  lemma ExampleFirstThree()
    ensures InsertAll(Empty, [Sasha, Vova, Kristina]) == Tables([G1, G2, G3], [S1, S2, S3], 3, 3)
  {
    ExampleFirstTwo();
    InsertAllSnoc(Empty, [Sasha, Vova], Kristina);
    assert [Sasha, Vova] + [Kristina] == [Sasha, Vova, Kristina];
    var t := Tables([G1, G2], [S1, S2], 2, 2);
    InsertNewLabel(t, Kristina.name, Kristina.group, Kristina.marks);
    assert [G1, G2] + [G3] == [G1, G2, G3] && [S1, S2] + [S3] == [S1, S2, S3];
  }

  /** Ids start at 1 and the repeated label "112" reuses its group row. */
  lemma ExampleRows()
    ensures ExampleState() == Tables([G1, G2, G3], [S1, S2, S3, S4], 3, 4)
  {
    ExampleFirstThree();
    InsertAllSnoc(Empty, [Sasha, Vova, Kristina], Sonya);
    assert [Sasha, Vova, Kristina] + [Sonya] == [Sasha, Vova, Kristina, Sonya];
    var t := Tables([G1, G2, G3], [S1, S2, S3], 3, 3);
    InsertKnownLabel(t, Sonya.name, Sonya.group, Sonya.marks, 0);
    assert [S1, S2, S3] + [S4] == [S1, S2, S3, S4];
  }

  /** Creating the tables and adding the four students in order. */
  method Populate() returns (db: Store)
    ensures fresh(db) && db.Valid() && db.tablesExist
    ensures db.State() == ExampleState()
  {
    db := new Store.Open();
    db.CreateDb();
    var _ := db.AddStudent(Sasha.name, Sasha.group, Sasha.marks);
    InsertAllSnoc(Empty, [], Sasha);
    assert [] + [Sasha] == [Sasha];
    var _ := db.AddStudent(Vova.name, Vova.group, Vova.marks);
    InsertAllSnoc(Empty, [Sasha], Vova);
    assert [Sasha] + [Vova] == [Sasha, Vova];
    var _ := db.AddStudent(Kristina.name, Kristina.group, Kristina.marks);
    InsertAllSnoc(Empty, [Sasha, Vova], Kristina);
    assert [Sasha, Vova] + [Kristina] == [Sasha, Vova, Kristina];
    var _ := db.AddStudent(Sonya.name, Sonya.group, Sonya.marks);
    InsertAllSnoc(Empty, [Sasha, Vova, Kristina], Sonya);
    assert [Sasha, Vova, Kristina] + [Sonya] == [Sasha, Vova, Kristina, Sonya];
  }

  /** The averages are 4.2, 4.25, 3.2 and 4.6: all but the third pass. */
  lemma ExampleAverages()
    ensures MeetsThreshold(Sasha.marks) && MeetsThreshold(Vova.marks)
    ensures !MeetsThreshold(Kristina.marks) && MeetsThreshold(Sonya.marks)
  {
    SumForwardIsSum(Sasha.marks);
    assert SumForward(Sasha.marks) == 21;
    SumForwardIsSum(Vova.marks);
    assert SumForward(Vova.marks) == 17;
    SumForwardIsSum(Kristina.marks);
    assert SumForward(Kristina.marks) == 16;
    SumForwardIsSum(Sonya.marks);
    assert SumForward(Sonya.marks) == 23;
  }

  /** Filtering the example rows by their own average. */
  lemma ExamplePassing()
    ensures Passing([Sasha, Vova, Kristina, Sonya]) == [Sasha, Vova, Sonya]
  {
    ExampleAverages();
    var rs := [Sasha, Vova, Kristina, Sonya];
    assert rs[..3] == [Sasha, Vova, Kristina] && rs[..3][..2] == [Sasha, Vova] && rs[..3][..2][..1] == [Sasha];
    assert Passing([Sasha]) == [Sasha];
    assert Passing([Sasha, Vova]) == [Sasha, Vova];
    assert Passing([Sasha, Vova, Kristina]) == [Sasha, Vova];
  }

  /** `find_students` over the example keeps the three students whose
      average is at least 4.0, in the order they were added. */
  lemma ExampleFound()
    ensures Queries.FindStudents(ExampleState().groups, ExampleState().students) == [Sasha, Vova, Sonya]
  {
    var rs := [Sasha, Vova, Kristina, Sonya];
    assert KeysDistinct(rs);
    var t := ExampleState();
    SelectAllAfterInserts(rs);
    FindStudentsKeysDistinct(t.groups, t.students);
    ExamplePassing();
  }

  /** A session over the four students: `select_all` lists exactly what was
      added, in order, and `find_students` keeps the three whose average is
      at least 4.0. */
  method ExampleSession() returns (first: StudentRow, groupRows: nat,
                                   listing: Result<seq<Record>, DbError>, found: Result<seq<Record>, DbError>)
    ensures first == StudentRow(1, "саша", 1, [4, 5, 4, 3, 5])
    ensures groupRows == 3
    ensures listing == Success([Sasha, Vova, Kristina, Sonya])
    ensures found == Success([Sasha, Vova, Sonya])
  {
    var db := Populate();
    ExampleRows();
    SelectAllAfterInserts([Sasha, Vova, Kristina, Sonya]);
    ExampleFound();
    first := db.students[0];
    groupRows := |db.groups|;
    listing := db.SelectAll();
    found := db.FindStudents();
  }
}
