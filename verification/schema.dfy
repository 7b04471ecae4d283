/** The two tables of the student database (`groupss` and `students`), the
    records the readers hand to the presenter, and the invariants the writer
    keeps on the tables. */
module Schema {

  datatype Option<+T> = None | Some(value: T)

  datatype Result<+T, +E> = Success(value: T) | Failure(error: E)

  /** The only storage error the model distinguishes: a statement against a
      table that `create_db` has not created yet. */
  datatype DbError = NoSuchTable

  /** A row of `groupss`: an autoincrement id and the group label. */
  datatype GroupRow = GroupRow(id: int, num: string)

  /** A row of `students`; the marks are fixed to a sequence of integer grades. */
  datatype StudentRow = StudentRow(id: int, name: string, groupId: int, marks: seq<int>)

  /** One output record of the readers: {name, group, marks}. */
  datatype Record = Record(name: string, group: string, marks: seq<int>)

  /** `SELECT group_id FROM groupss WHERE group_num = ?` followed by
      `fetchone()`: the position of the first row, in rowid order, that
      carries `groupNum`, or None when no row does. */
  function FindGroupIndex(groups: seq<GroupRow>, groupNum: string): (r: Option<nat>)
    ensures r.None? <==> forall i :: 0 <= i < |groups| ==> groups[i].num != groupNum
    ensures r.Some? ==> r.value < |groups| && groups[r.value].num == groupNum
    ensures r.Some? ==> forall i :: 0 <= i < r.value ==> groups[i].num != groupNum
  {
    if groups == [] then None
    else if groups[|groups| - 1].num == groupNum && FindGroupIndex(groups[..|groups| - 1], groupNum).None? then
      Some(|groups| - 1)
    else
      FindGroupIndex(groups[..|groups| - 1], groupNum)
  }

  /** The position of the first group row whose id is `id` (the lookup that
      the join condition `groupss.group_id = students.group_id` performs). */
  function IndexOfId(groups: seq<GroupRow>, id: int): (r: Option<nat>)
    ensures r.None? <==> forall i :: 0 <= i < |groups| ==> groups[i].id != id
    ensures r.Some? ==> r.value < |groups| && groups[r.value].id == id
    ensures r.Some? ==> forall i :: 0 <= i < r.value ==> groups[i].id != id
  {
    if groups == [] then None
    else if groups[|groups| - 1].id == id && IndexOfId(groups[..|groups| - 1], id).None? then
      Some(|groups| - 1)
    else
      IndexOfId(groups[..|groups| - 1], id)
  }

  /** The label of the group row with the given id, if there is one. */
  function LabelOf(groups: seq<GroupRow>, id: int): Option<string>
  {
    match IndexOfId(groups, id)
    case Some(k) => Some(groups[k].num)
    case None => None
  }

  /** No two group rows share a `group_num`. */
  predicate UniqueLabels(groups: seq<GroupRow>)
  {
    forall i, j :: 0 <= i < j < |groups| ==> groups[i].num != groups[j].num
  }

  /** With AUTOINCREMENT and no deletions the group ids are 1, 2, ... in
      rowid order, and the table's counter holds the last id handed out. */
  predicate GroupIdsDense(groups: seq<GroupRow>, groupSeq: int)
  {
    groupSeq == |groups| && forall i :: 0 <= i < |groups| ==> groups[i].id == i + 1
  }

  /** The same for the student ids. */
  predicate StudentIdsDense(students: seq<StudentRow>, studentSeq: int)
  {
    studentSeq == |students| && forall i :: 0 <= i < |students| ==> students[i].id == i + 1
  }

  /** Every student's `group_id` lies among the ids handed out to groups. */
  predicate GroupRefsInRange(groups: seq<GroupRow>, students: seq<StudentRow>)
  {
    forall i :: 0 <= i < |students| ==> 1 <= students[i].groupId <= |groups|
  }

  /** Everything the writer keeps true of the two tables and their counters. */
  predicate TablesValid(groups: seq<GroupRow>, students: seq<StudentRow>, groupSeq: int, studentSeq: int)
  {
    UniqueLabels(groups) &&
    GroupIdsDense(groups, groupSeq) &&
    StudentIdsDense(students, studentSeq) &&
    GroupRefsInRange(groups, students)
  }

  /** The foreign key: every student's `group_id` names an existing group row. */
  predicate ReferencesResolve(groups: seq<GroupRow>, students: seq<StudentRow>)
  {
    forall i :: 0 <= i < |students| ==> LabelOf(groups, students[i].groupId).Some?
  }

  /** Under the invariants the id with number k names row k - 1. */
  lemma LabelOfDense(groups: seq<GroupRow>, id: int)
    requires GroupIdsDense(groups, |groups|) && 1 <= id <= |groups|
    ensures LabelOf(groups, id) == Some(groups[id - 1].num)
  {
    var r := IndexOfId(groups, id);
    assert groups[id - 1].id == id;
  }

  /** The invariants imply the foreign key: every student's group row exists. */
  lemma TablesValidReferencesResolve(groups: seq<GroupRow>, students: seq<StudentRow>, groupSeq: int, studentSeq: int)
    requires TablesValid(groups, students, groupSeq, studentSeq)
    ensures ReferencesResolve(groups, students)
  {
    forall i | 0 <= i < |students| ensures LabelOf(groups, students[i].groupId).Some? {
      LabelOfDense(groups, students[i].groupId);
    }
  }

  /** Appending a group row leaves every earlier id lookup alone and makes
      the new row the answer for its own id only when no earlier row had it. */
  lemma {:induction false} IndexOfIdAppend(groups: seq<GroupRow>, g: GroupRow, id: int)
    ensures IndexOfId(groups + [g], id) ==
      if IndexOfId(groups, id).Some? then IndexOfId(groups, id)
      else if g.id == id then Some(|groups|) else None
  {
    assert (groups + [g])[..|groups|] == groups;
  }

  /** Appending a group row whose id is above every existing id keeps every
      existing id's label and gives the new id the new label. */
  lemma LabelOfAppendFresh(groups: seq<GroupRow>, g: GroupRow, id: int)
    requires forall i :: 0 <= i < |groups| ==> groups[i].id < g.id
    ensures LabelOf(groups + [g], id) ==
      if id == g.id then Some(g.num) else LabelOf(groups, id)
  {
    IndexOfIdAppend(groups, g, id);
  }
}
