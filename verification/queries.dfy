/** The two readers, given the standard SQL meaning of their statements:
    `select_all` is the inner join of `students` with `groupss`, and
    `find_students` is that join grouped by (name, group) and kept when the
    group's mark average is at least 4.0. */
module Queries {
  import opened Schema

  /** No two group rows share an id (the primary key). */
  predicate DistinctIds(groups: seq<GroupRow>)
  {
    forall i, j :: 0 <= i < j < |groups| ==> groups[i].id != groups[j].id
  }

  /** The join rows one student contributes: one for each group row whose id
      equals the student's `group_id`, in rowid order. */
  function MatchGroups(groups: seq<GroupRow>, s: StudentRow): (r: seq<Record>)
  {
    if groups == [] then []
    else
      var g := groups[|groups| - 1];
      MatchGroups(groups[..|groups| - 1], s) +
        (if g.id == s.groupId then [Record(s.name, g.num, s.marks)] else [])
  }

  /** `SELECT students.student_name, groupss.group_num, students.student_marks
      FROM students INNER JOIN groupss ON groupss.group_id = students.group_id`,
      scanning the students in insertion order. */
  function Join(groups: seq<GroupRow>, students: seq<StudentRow>): seq<Record>
  {
    if students == [] then []
    else Join(groups, students[..|students| - 1]) + MatchGroups(groups, students[|students| - 1])
  }

  /** With a primary key on the group ids, a student joins to exactly its own
      group row, and a student whose `group_id` names no row drops out. */
  lemma {:induction false} MatchGroupsUnique(groups: seq<GroupRow>, s: StudentRow)
    requires DistinctIds(groups)
    ensures MatchGroups(groups, s) ==
      match LabelOf(groups, s.groupId)
      case Some(num) => [Record(s.name, num, s.marks)]
      case None => []
  {
    if groups != [] {
      var init, g := groups[..|groups| - 1], groups[|groups| - 1];
      assert groups == init + [g];
      MatchGroupsUnique(init, s);
      IndexOfIdAppend(init, g, s.groupId);
      if g.id == s.groupId {
        assert IndexOfId(init, s.groupId).None? by {
          forall i | 0 <= i < |init| ensures init[i].id != s.groupId {
            assert groups[i] == init[i];
          }
        }
      }
    }
  }

  /** When the ids are a key and every student's group exists, the join
      yields exactly one record per student, in insertion order, carrying the
      student's name and marks and the label of the student's group. */
  lemma {:induction false} JoinExact(groups: seq<GroupRow>, students: seq<StudentRow>)
    requires DistinctIds(groups) && ReferencesResolve(groups, students)
    ensures |Join(groups, students)| == |students|
    ensures forall i :: 0 <= i < |students| ==>
      Join(groups, students)[i] ==
        Record(students[i].name, LabelOf(groups, students[i].groupId).value, students[i].marks)
  {
    if students != [] {
      var init, s := students[..|students| - 1], students[|students| - 1];
      assert students == init + [s];
      assert ReferencesResolve(groups, init) by {
        forall i | 0 <= i < |init| ensures LabelOf(groups, init[i].groupId).Some? {
          assert init[i] == students[i];
        }
      }
      JoinExact(groups, init);
      MatchGroupsUnique(groups, s);
      assert LabelOf(groups, s.groupId).Some?;
      var prefix := Join(groups, init);
      assert Join(groups, students) == prefix + [Record(s.name, LabelOf(groups, s.groupId).value, s.marks)];
      forall i | 0 <= i < |students|
        ensures Join(groups, students)[i] ==
          Record(students[i].name, LabelOf(groups, students[i].groupId).value, students[i].marks)
      {
        if i < |init| {
          assert Join(groups, students)[i] == prefix[i] && students[i] == init[i];
        }
      }
    }
  }

  /** A group row that no student references adds nothing to the join. */
  lemma {:induction false} JoinAppendUnreferencedGroup(groups: seq<GroupRow>, g: GroupRow, students: seq<StudentRow>)
    requires forall i :: 0 <= i < |students| ==> students[i].groupId != g.id
    ensures Join(groups + [g], students) == Join(groups, students)
  {
    if students != [] {
      var init, s := students[..|students| - 1], students[|students| - 1];
      JoinAppendUnreferencedGroup(groups, g, init);
      assert (groups + [g])[..|groups|] == groups;
    }
  }

  /** The sum of a list of marks. */
  function Sum(m: seq<int>): int
  {
    if m == [] then 0 else Sum(m[..|m| - 1]) + m[|m| - 1]
  }

  /** The sum taken front to back; it evaluates the sums of concrete mark
      lists, such as those of the example session. */
  function SumForward(m: seq<int>): int
  {
    if m == [] then 0 else m[0] + SumForward(m[1..])
  }

  /** Evaluation helper: summing from either end gives the same total. */
  lemma {:induction false} SumForwardIsSum(m: seq<int>)
    ensures SumForward(m) == Sum(m)
  {
    if m != [] {
      SumForwardIsSum(m[1..]);
      if |m| > 1 {
        SumForwardIsSum(m[..|m| - 1]);
        SumForwardIsSum(m[1..][..|m| - 2]);
        assert m[1..][..|m| - 2] == m[..|m| - 1][1..];
      }
    }
  }

  /** `HAVING AVG(student_marks) >= 4.0` over integer marks, without
      division: the average of no marks is NULL, which never passes. */
  predicate MeetsThreshold(m: seq<int>)
  {
    |m| > 0 && Sum(m) >= 4 * |m|
  }

  /** The integer test is exactly "the arithmetic mean is at least 4.0",
      with 4.0 itself included. */
  lemma MeetsThresholdIsAverage(m: seq<int>)
    ensures MeetsThreshold(m) <==> |m| > 0 && (Sum(m) as real) / (|m| as real) >= 4.0
  {
    if |m| > 0 {
      QuotientAtLeast(Sum(m) as real, |m| as real, 4.0);
      assert (4 * |m|) as real == 4.0 * (|m| as real);
    }
  }

  /** For a positive divisor, s / n >= c exactly when s >= c * n. */
  lemma QuotientAtLeast(s: real, n: real, c: real)
    requires n > 0.0
    ensures s / n >= c <==> s >= c * n
  {
    var q := s / n;
    assert s == q * n;
    assert s - c * n == (q - c) * n;
    if q >= c {
      ProductNonNegative(q - c, n);
    } else {
      ProductNonNegative(c - q, n);
      assert (c - q) * n != 0.0;
    }
  }

  /** Arithmetic helper for `QuotientAtLeast`. */
  lemma ProductNonNegative(a: real, b: real)
    requires a >= 0.0 && b > 0.0
    ensures a * b >= 0.0
  {
  }

  /** Two join rows fall in the same `GROUP BY` group. */
  predicate SameKey(a: Record, b: Record)
  {
    a.name == b.name && a.group == b.group
  }

  /** All the marks of the rows of group (name, group), in row order: the
      values `AVG` aggregates over. */
  function PooledMarks(rs: seq<Record>, name: string, group: string): seq<int>
  {
    if rs == [] then []
    else
      var r := rs[|rs| - 1];
      PooledMarks(rs[..|rs| - 1], name, group) +
        (if r.name == name && r.group == group then r.marks else [])
  }

  /** The (name, group) group of row r passes `HAVING AVG(marks) >= 4.0`. */
  predicate GroupPasses(rs: seq<Record>, r: Record)
  {
    MeetsThreshold(PooledMarks(rs, r.name, r.group))
  }

  /** Row i is the first row of its group; it stands for the group in the output. */
  predicate FirstOfGroup(rs: seq<Record>, i: nat)
    requires i < |rs|
  {
    forall j :: 0 <= j < i ==> !SameKey(rs[j], rs[i])
  }

  /** The groups whose first row lies among the first n rows and whose
      average passes, one record each, in order of first appearance. */
  function HavingUpTo(rs: seq<Record>, n: nat): seq<Record>
    requires n <= |rs|
  {
    if n == 0 then []
    else
      HavingUpTo(rs, n - 1) +
        (if FirstOfGroup(rs, n - 1) && GroupPasses(rs, rs[n - 1])
         then [rs[n - 1]] else [])
  }

  /** `GROUP BY name, group HAVING AVG(marks) >= 4.0` over the join rows. */
  function GroupHaving(rs: seq<Record>): seq<Record>
  {
    HavingUpTo(rs, |rs|)
  }

  /** The query of `find_students`. */
  function FindStudents(groups: seq<GroupRow>, students: seq<StudentRow>): seq<Record>
  {
    GroupHaving(Join(groups, students))
  }

  lemma {:induction false} HavingUpToSound(rs: seq<Record>, n: nat)
    requires n <= |rs|
    ensures forall x :: x in HavingUpTo(rs, n) ==>
      x in rs[..n] && GroupPasses(rs, x)
  {
    if n > 0 {
      HavingUpToSound(rs, n - 1);
      assert rs[..n] == rs[..n - 1] + [rs[n - 1]];
    }
  }

  lemma {:induction false} HavingUpToKeeps(rs: seq<Record>, n: nat, j: nat)
    requires j < n <= |rs|
    requires FirstOfGroup(rs, j) && GroupPasses(rs, rs[j])
    ensures rs[j] in HavingUpTo(rs, n)
  {
    if j < n - 1 {
      HavingUpToKeeps(rs, n - 1, j);
      HavingUpToGrows(rs, n);
    } else {
      assert HavingUpTo(rs, n) == HavingUpTo(rs, n - 1) + [rs[j]];
    }
  }

  /** Looking at one more row never drops a group already kept. */
  lemma HavingUpToGrows(rs: seq<Record>, n: nat)
    requires 0 < n <= |rs|
    ensures forall x :: x in HavingUpTo(rs, n - 1) ==> x in HavingUpTo(rs, n)
  {
    var last := if FirstOfGroup(rs, n - 1) && GroupPasses(rs, rs[n - 1]) then [rs[n - 1]] else [];
    assert HavingUpTo(rs, n) == HavingUpTo(rs, n - 1) + last;
  }

  lemma {:induction false} HavingUpToDistinct(rs: seq<Record>, n: nat)
    requires n <= |rs|
    ensures forall a, b :: 0 <= a < b < |HavingUpTo(rs, n)| ==>
      !SameKey(HavingUpTo(rs, n)[a], HavingUpTo(rs, n)[b])
  {
    if n > 0 {
      HavingUpToDistinct(rs, n - 1);
      HavingUpToSound(rs, n - 1);
      var prev := HavingUpTo(rs, n - 1);
      if FirstOfGroup(rs, n - 1) && GroupPasses(rs, rs[n - 1]) {
        forall a | 0 <= a < |prev| ensures !SameKey(prev[a], rs[n - 1]) {
          assert prev[a] in rs[..n - 1];
          var j :| 0 <= j < n - 1 && rs[..n - 1][j] == prev[a];
          assert rs[j] == prev[a];
        }
      }
    }
  }

  /** Every row has a first row of its group at or before it. */
  lemma {:induction false} FirstOccurrence(rs: seq<Record>, i: nat) returns (j: nat)
    requires i < |rs|
    ensures j <= i && SameKey(rs[j], rs[i]) && FirstOfGroup(rs, j)
    decreases i
  {
    if FirstOfGroup(rs, i) {
      j := i;
    } else {
      var k :| 0 <= k < i && SameKey(rs[k], rs[i]);
      j := FirstOccurrence(rs, k);
    }
  }

  /** Soundness of `find_students`: each result is a row of `select_all`
      whose (name, group) group has mark average at least 4.0. */
  lemma FindStudentsSound(groups: seq<GroupRow>, students: seq<StudentRow>)
    ensures forall x :: x in FindStudents(groups, students) ==>
      x in Join(groups, students) && GroupPasses(Join(groups, students), x)
  {
    var rs := Join(groups, students);
    HavingUpToSound(rs, |rs|);
    assert rs[..|rs|] == rs;
  }

  /** Completeness of `find_students`: every (name, group) of the join whose
      average is at least 4.0 is represented in the result. */
  lemma FindStudentsComplete(groups: seq<GroupRow>, students: seq<StudentRow>)
    ensures forall r :: r in Join(groups, students) && GroupPasses(Join(groups, students), r) ==>
      exists x :: x in FindStudents(groups, students) && SameKey(x, r)
  {
    var rs := Join(groups, students);
    forall r | r in rs && GroupPasses(rs, r)
      ensures exists x :: x in GroupHaving(rs) && SameKey(x, r)
    {
      var i :| 0 <= i < |rs| && rs[i] == r;
      var j := FirstOccurrence(rs, i);
      HavingUpToKeeps(rs, |rs|, j);
      assert rs[j] in GroupHaving(rs) && SameKey(rs[j], r);
    }
  }

  /** `find_students` returns at most one record per (name, group). */
  lemma FindStudentsDistinct(groups: seq<GroupRow>, students: seq<StudentRow>)
    ensures forall a, b :: 0 <= a < b < |FindStudents(groups, students)| ==>
      !SameKey(FindStudents(groups, students)[a], FindStudents(groups, students)[b])
  {
    var rs := Join(groups, students);
    HavingUpToDistinct(rs, |rs|);
  }

  /** A group with a single row pools exactly that row's marks. */
  lemma {:induction false} PooledMarksSingle(rs: seq<Record>, i: nat)
    requires i < |rs|
    requires forall j :: 0 <= j < |rs| && j != i ==> !SameKey(rs[j], rs[i])
    ensures PooledMarks(rs, rs[i].name, rs[i].group) == rs[i].marks
  {
    var init, r := rs[..|rs| - 1], rs[|rs| - 1];
    if i == |rs| - 1 {
      PooledMarksNone(init, r.name, r.group);
    } else {
      assert forall j :: 0 <= j < |init| && j != i ==> !SameKey(init[j], init[i]) by {
        forall j | 0 <= j < |init| && j != i ensures !SameKey(init[j], init[i]) {
          assert init[j] == rs[j];
        }
      }
      PooledMarksSingle(init, i);
      assert !SameKey(rs[|rs| - 1], rs[i]);
    }
  }

  /** A group with no rows pools no marks. */
  lemma {:induction false} PooledMarksNone(rs: seq<Record>, name: string, group: string)
    requires forall j :: 0 <= j < |rs| ==> !(rs[j].name == name && rs[j].group == group)
    ensures PooledMarks(rs, name, group) == []
  {
    if rs != [] {
      PooledMarksNone(rs[..|rs| - 1], name, group);
    }
  }

  /** For a student whose (name, group) is unique, `find_students` keeps the
      record exactly when the student's own mark average is at least 4.0. */
  lemma FindStudentsUnique(groups: seq<GroupRow>, students: seq<StudentRow>, i: nat)
    requires i < |Join(groups, students)|
    requires forall j :: 0 <= j < |Join(groups, students)| && j != i ==>
      !SameKey(Join(groups, students)[j], Join(groups, students)[i])
    ensures Join(groups, students)[i] in FindStudents(groups, students) <==>
      MeetsThreshold(Join(groups, students)[i].marks)
  {
    var rs := Join(groups, students);
    PooledMarksSingle(rs, i);
    FindStudentsSound(groups, students);
    if MeetsThreshold(rs[i].marks) {
      HavingUpToKeeps(rs, |rs|, i);
    }
  }

  /** The rows whose own marks pass the threshold, in order. */
  function Passing(rs: seq<Record>): (r: seq<Record>)
    ensures forall x :: x in r ==> x in rs && MeetsThreshold(x.marks)
  {
    if rs == [] then []
    else Passing(rs[..|rs| - 1]) + (if MeetsThreshold(rs[|rs| - 1].marks) then [rs[|rs| - 1]] else [])
  }

  /** No two rows fall in the same (name, group) group. */
  predicate KeysDistinct(rs: seq<Record>)
  {
    forall i, j :: 0 <= i < j < |rs| ==> !SameKey(rs[i], rs[j])
  }

  lemma {:induction false} HavingUpToKeysDistinct(rs: seq<Record>, n: nat)
    requires n <= |rs| && KeysDistinct(rs)
    ensures HavingUpTo(rs, n) == Passing(rs[..n])
  {
    if n > 0 {
      HavingUpToKeysDistinct(rs, n - 1);
      assert rs[..n][..n - 1] == rs[..n - 1];
      PooledMarksSingle(rs, n - 1);
    }
  }

  /** When every student's (name, group) is unique, `find_students` is
      exactly the rows of the join whose own average is at least 4.0, in
      the join's order. */
  lemma FindStudentsKeysDistinct(groups: seq<GroupRow>, students: seq<StudentRow>)
    requires KeysDistinct(Join(groups, students))
    ensures FindStudents(groups, students) == Passing(Join(groups, students))
  {
    var rs := Join(groups, students);
    HavingUpToKeysDistinct(rs, |rs|);
    assert rs[..|rs|] == rs;
  }
}
