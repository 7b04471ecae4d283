/** `display_students`: a list of records becomes a fixed-width text table,
    or a single line saying that the list is empty. The lines the source
    prints are returned as a sequence instead. */
module Presenter {
  import opened Schema
  import opened Text

  /** The line printed for an empty list ("the list of students is empty"). */
  const EmptyMessage: string := "список студентов пуст"

  /** The fixed column widths: index, name, group, marks. */
  const IndexWidth: nat := 4
  const NameWidth: nat := 30
  const GroupWidth: nat := 20
  const MarksWidth: nat := 15

  /** The width of every line of a table whose cells all fit. */
  const TableWidth: nat := 82

  /** The border line `+-----...-+`, drawn above and below the header and
      below the last row. */
  function Border(): string
  {
    "+-" + Repeat('-', IndexWidth) + "-+-" + Repeat('-', NameWidth) + "-+-" + Repeat('-', GroupWidth) +
    "-+-" + Repeat('-', MarksWidth) + "-+"
  }

  /** The header row: "№", "full name", "group", "marks", each centred. */
  function Header(): string
  {
    "| " + AlignCenter("№", IndexWidth) + " | " + AlignCenter("Ф.И.О.", NameWidth) + " | " +
    AlignCenter("Группа", GroupWidth) + " | " + AlignCenter("Оценки", MarksWidth) + " |"
  }

  /** The row of record r at 1-based position idx: the index right-aligned,
      name and group left-aligned, the marks joined with ',' right-aligned. */
  function RowLine(idx: int, r: Record): string
  {
    "| " + AlignRight(IntToString(idx), IndexWidth) + " | " + AlignLeft(r.name, NameWidth) + " | " +
    AlignLeft(r.group, GroupWidth) + " | " + AlignRight(MarksCell(r.marks), MarksWidth) + " |"
  }

  /** Every line `display_students` prints for the given records, in order. */
  function Render(students: seq<Record>): (lines: seq<string>)
    ensures students == [] ==> lines == [EmptyMessage]
    ensures students != [] ==>
      |lines| == |students| + 4 &&
      lines[0] == Border() && lines[1] == Header() && lines[2] == Border() &&
      lines[|lines| - 1] == Border()
    ensures students != [] ==>
      forall i :: 0 <= i < |students| ==> lines[i + 3] == RowLine(i + 1, students[i])
  {
    if students == [] then [EmptyMessage]
    else [Border(), Header(), Border()] + Rows(students) + [Border()]
  }

  /** The row lines of the table, numbered from 1. */
  function Rows(students: seq<Record>): seq<string>
  {
    seq(|students|, i requires 0 <= i < |students| => RowLine(i + 1, students[i]))
  }

  /** `display_students`: the lines it prints, in order. */
  method DisplayStudents(students: seq<Record>) returns (lines: seq<string>)
    ensures lines == Render(students)
  {
    if students == [] {
      lines := [EmptyMessage];
      return;
    }
    var rows := EnumerateLines(students, RowLine);
    assert rows == Rows(students);
    lines := [Border(), Header(), Border()] + rows + [Border()];
  }

  /** The loop of `display_students` over `enumerate(students, 1)`: one line
      per record, formatted from its 1-based index and the record. */
  method EnumerateLines(students: seq<Record>, format: (int, Record) -> string) returns (rows: seq<string>)
    ensures |rows| == |students|
    ensures forall i :: 0 <= i < |students| ==> rows[i] == format(i + 1, students[i])
  {
    rows := [];
    for k := 0 to |students|
      invariant |rows| == k
      invariant forall i :: 0 <= i < k ==> rows[i] == format(i + 1, students[i])
    {
      var row := format(k + 1, students[k]);
      rows := rows + [row];
    }
  }

  /** The line has the width of the table and the character c where the
      table's five column separators stand. */
  predicate ColumnsAt(line: string, c: char)
  {
    |line| == TableWidth &&
    line[0] == c && line[7] == c && line[40] == c && line[63] == c && line[81] == c
  }

  /** The border is 82 characters: '+' at the five column separators and '-'
      everywhere else. */
  lemma BorderShape()
    ensures ColumnsAt(Border(), '+')
    ensures forall i :: 0 <= i < |Border()| && i !in {0, 7, 40, 63, 81} ==> Border()[i] == '-'
  {
    var b := Border();
    var parts := ["+-", Repeat('-', 4), "-+-", Repeat('-', 30), "-+-", Repeat('-', 20), "-+-", Repeat('-', 15), "-+"];
    assert b == parts[0] + parts[1] + parts[2] + parts[3] + parts[4] + parts[5] + parts[6] + parts[7] + parts[8];
    forall i | 0 <= i < |b| && i !in {0, 7, 40, 63, 81} ensures b[i] == '-' {
      if i < 2 { assert b[i] == parts[0][i]; }
      else if i < 6 { assert b[i] == parts[1][i - 2]; }
      else if i < 9 { assert b[i] == parts[2][i - 6]; }
      else if i < 39 { assert b[i] == parts[3][i - 9]; }
      else if i < 42 { assert b[i] == parts[4][i - 39]; }
      else if i < 62 { assert b[i] == parts[5][i - 42]; }
      else if i < 65 { assert b[i] == parts[6][i - 62]; }
      else if i < 80 { assert b[i] == parts[7][i - 65]; }
      else { assert b[i] == parts[8][i - 80]; }
    }
  }

  /** The line "| a | b | c | d |" built from cells of exactly the column
      widths has the table's shape, and each cell sits in its column. */
  lemma {:induction false} CellsInColumns(a: string, b: string, c: string, d: string)
    requires |a| == IndexWidth && |b| == NameWidth && |c| == GroupWidth && |d| == MarksWidth
    ensures ColumnsAt("| " + a + " | " + b + " | " + c + " | " + d + " |", '|')
    ensures var line := "| " + a + " | " + b + " | " + c + " | " + d + " |";
      line[2..6] == a && line[9..39] == b && line[42..62] == c && line[65..80] == d
  {
    var line := "| " + a + " | " + b + " | " + c + " | " + d + " |";
    assert line == "| " + a + " | " + b + " | " + c + " | " + d + " |";
    assert line[0] == '|';
    assert line[7] == (" | ")[1];
    assert line[40] == (" | ")[1];
    assert line[63] == (" | ")[1];
    assert line[81] == (" |")[1];
  }

  /** The header row has the table's shape. */
  lemma HeaderShape()
    ensures ColumnsAt(Header(), '|')
  {
    CellsInColumns(AlignCenter("№", IndexWidth), AlignCenter("Ф.И.О.", NameWidth),
                   AlignCenter("Группа", GroupWidth), AlignCenter("Оценки", MarksWidth));
  }

  /** The cells of a row are at most as wide as their columns. */
  predicate FitsColumns(idx: int, r: Record)
  {
    |IntToString(idx)| <= IndexWidth && |r.name| <= NameWidth &&
    |r.group| <= GroupWidth && |MarksCell(r.marks)| <= MarksWidth
  }

  /** A row whose cells fit has the table's shape; cutting it at the column
      positions gives back the index, name, group and marks cell. */
  lemma RowColumns(idx: int, r: Record)
    requires FitsColumns(idx, r)
    ensures ColumnsAt(RowLine(idx, r), '|')
    ensures RowLine(idx, r)[6 - |IntToString(idx)|..6] == IntToString(idx)
    ensures RowLine(idx, r)[9..9 + |r.name|] == r.name
    ensures RowLine(idx, r)[42..42 + |r.group|] == r.group
    ensures RowLine(idx, r)[80 - |MarksCell(r.marks)|..80] == MarksCell(r.marks)
  {
    var a, b := AlignRight(IntToString(idx), IndexWidth), AlignLeft(r.name, NameWidth);
    var c, d := AlignLeft(r.group, GroupWidth), AlignRight(MarksCell(r.marks), MarksWidth);
    CellsInColumns(a, b, c, d);
    var line := RowLine(idx, r);
    assert line[2..6][4 - |IntToString(idx)|..] == a[4 - |IntToString(idx)|..];
    assert line[6 - |IntToString(idx)|..6] == line[2..6][4 - |IntToString(idx)|..];
    assert line[9..9 + |r.name|] == line[9..39][..|r.name|];
    assert line[42..42 + |r.group|] == line[42..62][..|r.group|];
    assert line[80 - |MarksCell(r.marks)|..80] == line[65..80][15 - |MarksCell(r.marks)|..];
  }

  /** When every cell fits, the rendered table is aligned: all its lines are
      82 characters wide with the column separators at the same positions. */
  lemma RenderAligned(students: seq<Record>)
    requires students != []
    requires forall i :: 0 <= i < |students| ==> FitsColumns(i + 1, students[i])
    ensures forall k :: 0 <= k < |Render(students)| ==>
      |Render(students)[k]| == TableWidth &&
      (ColumnsAt(Render(students)[k], '+') || ColumnsAt(Render(students)[k], '|'))
  {
    var lines, rows := Render(students), Rows(students);
    assert lines == [Border(), Header(), Border()] + rows + [Border()];
    RowsAligned(students);
    BorderShape();
    HeaderShape();
    forall k | 0 <= k < |lines|
      ensures ColumnsAt(lines[k], '+') || ColumnsAt(lines[k], '|')
    {
      if k == 1 {
        assert lines[k] == Header();
      } else if 3 <= k < |lines| - 1 {
        assert lines[k] == rows[k - 3];
      } else {
        assert lines[k] == Border();
      }
    }
  }

  /** Every row line of records whose cells fit has the table's shape. */
  lemma RowsAligned(students: seq<Record>)
    requires forall i :: 0 <= i < |students| ==> FitsColumns(i + 1, students[i])
    ensures forall i :: 0 <= i < |students| ==> ColumnsAt(Rows(students)[i], '|')
  {
    forall i | 0 <= i < |students| ensures ColumnsAt(Rows(students)[i], '|') {
      RowColumns(i + 1, students[i]);
    }
  }
}
