/** The string operations the presenter relies on: Python's `str()` of an
    integer, `sep.join(...)`, and the `{:<w}`, `{:>w}`, `{:^w}` alignments of
    `str.format`. Each comes with the inverse or the shape fact that pins it
    down. Python counts code points, as `seq<char>` does. */
module Text {
  import opened Schema

  predicate IsDigit(c: char)
  {
    '0' <= c <= '9'
  }

  predicate AllDigits(s: string)
  {
    forall i :: 0 <= i < |s| ==> IsDigit(s[i])
  }

  function DigitChar(d: nat): (c: char)
    requires d < 10
    ensures IsDigit(c) && c as int - '0' as int == d
  {
    ('0' as int + d) as char
  }

  /** `str(n)` for n >= 0: decimal digits without leading zeros. */
  function NatToString(n: nat): (s: string)
    ensures |s| > 0 && AllDigits(s)
    ensures s[0] == '0' ==> n == 0
    decreases n
  {
    if n < 10 then [DigitChar(n)] else NatToString(n / 10) + [DigitChar(n % 10)]
  }

  /** `str(i)`: a minus sign before the digits of a negative number. */
  function IntToString(i: int): (s: string)
  {
    if i < 0 then "-" + NatToString(-i) else NatToString(i)
  }

  /** The value of a string of decimal digits. */
  function DigitsValue(s: string): nat
    requires AllDigits(s)
  {
    if s == [] then 0 else DigitsValue(s[..|s| - 1]) * 10 + (s[|s| - 1] as int - '0' as int)
  }

  /** Reads back an integer written the way `str()` writes it. */
  function ParseInt(s: string): Option<int>
  {
    if |s| > 0 && AllDigits(s) then Some(DigitsValue(s))
    else if |s| > 1 && s[0] == '-' && AllDigits(s[1..]) then Some(-(DigitsValue(s[1..]) as int))
    else None
  }

  lemma {:induction false} NatToStringValue(n: nat)
    ensures DigitsValue(NatToString(n)) == n
    decreases n
  {
    if n >= 10 {
      NatToStringValue(n / 10);
      var s := NatToString(n);
      assert s[..|s| - 1] == NatToString(n / 10);
    }
  }

  /** `str()` of an integer is never empty, never contains the ',' that
      separates marks, and reads back to the same integer. */
  lemma IntToStringRoundTrip(i: int)
    ensures |IntToString(i)| > 0 && ',' !in IntToString(i)
    ensures ParseInt(IntToString(i)) == Some(i)
  {
    var s := IntToString(i);
    if i < 0 {
      NatToStringValue(-i);
      assert s[1..] == NatToString(-i);
      assert !IsDigit(s[0]);
      assert ',' !in s by {
        forall k | 0 <= k < |s| ensures s[k] != ',' {
          if k > 0 { assert s[k] == s[1..][k - 1]; }
        }
      }
    } else {
      NatToStringValue(i);
    }
  }

  /** `sep.join(parts)`. */
  function JoinWith(parts: seq<string>, sep: char): string
  {
    if parts == [] then ""
    else if |parts| == 1 then parts[0]
    else parts[0] + [sep] + JoinWith(parts[1..], sep)
  }

  /** `s.split(sep)`: the pieces between separators; never an empty list. */
  function Split(s: string, sep: char): (parts: seq<string>)
    ensures |parts| > 0
  {
    if s == [] then [""]
    else
      var rest := Split(s[1..], sep);
      if s[0] == sep then [""] + rest else [[s[0]] + rest[0]] + rest[1..]
  }

  lemma {:induction false} SplitAfterPiece(p: string, t: string, sep: char)
    requires sep !in p
    ensures Split(p + t, sep) == [p + Split(t, sep)[0]] + Split(t, sep)[1..]
  {
    var parts := Split(t, sep);
    if p == [] {
      assert p + t == t && p + parts[0] == parts[0];
      assert parts == [parts[0]] + parts[1..];
    } else {
      SplitAfterPiece(p[1..], t, sep);
      assert (p + t)[0] == p[0] != sep;
      assert (p + t)[1..] == p[1..] + t;
      assert [p[0]] + (p[1..] + parts[0]) == p + parts[0];
    }
  }

  /** Splitting undoes joining when no piece contains the separator. */
  lemma {:induction false} SplitJoinWith(parts: seq<string>, sep: char)
    requires |parts| > 0
    requires forall i :: 0 <= i < |parts| ==> sep !in parts[i]
    ensures Split(JoinWith(parts, sep), sep) == parts
  {
    if |parts| == 1 {
      SplitAfterPiece(parts[0], "", sep);
      assert parts[0] + "" == parts[0];
    } else {
      var tail := JoinWith(parts[1..], sep);
      SplitJoinWith(parts[1..], sep);
      assert ([sep] + tail)[1..] == tail;
      SplitAfterPiece(parts[0], [sep] + tail, sep);
      assert parts[0] + [sep] + tail == parts[0] + ([sep] + tail);
      assert parts[0] + "" == parts[0];
      assert parts == [parts[0]] + parts[1..];
    }
  }

  /** `map(str, marks)`. */
  function MarkStrings(marks: seq<int>): (r: seq<string>)
    ensures |r| == |marks|
  {
    seq(|marks|, i requires 0 <= i < |marks| => IntToString(marks[i]))
  }

  /** The marks cell of a table row: `','.join(map(str, marks))`. */
  function MarksCell(marks: seq<int>): string
  {
    JoinWith(MarkStrings(marks), ',')
  }

  /** Reads each piece of a split marks cell back as an integer. */
  function ParseAll(parts: seq<string>): Option<seq<int>>
  {
    if parts == [] then Some([])
    else
      match (ParseInt(parts[0]), ParseAll(parts[1..]))
      case (Some(v), Some(vs)) => Some([v] + vs)
      case _ => None
  }

  /** Reads a comma-separated marks string, such as the cell text or the raw
      text the command line stores, back into a list. */
  function ParseMarks(s: string): Option<seq<int>>
  {
    ParseAll(Split(s, ','))
  }

  lemma {:induction false} ParseAllMarkStrings(marks: seq<int>)
    ensures ParseAll(MarkStrings(marks)) == Some(marks)
  {
    if marks != [] {
      IntToStringRoundTrip(marks[0]);
      ParseAllMarkStrings(marks[1..]);
      assert MarkStrings(marks)[1..] == MarkStrings(marks[1..]);
      assert marks == [marks[0]] + marks[1..];
    }
  }

  /** The marks cell of a non-empty list reads back to exactly that list.
      (An empty list joins to the empty cell, as in Python.) */
  lemma MarksCellRoundTrip(marks: seq<int>)
    requires |marks| > 0
    ensures ParseMarks(MarksCell(marks)) == Some(marks)
  {
    forall i | 0 <= i < |marks| ensures ',' !in MarkStrings(marks)[i] {
      IntToStringRoundTrip(marks[i]);
    }
    SplitJoinWith(MarkStrings(marks), ',');
    ParseAllMarkStrings(marks);
  }

  /** The character c written n times (`c * n` in Python). */
  function Repeat(c: char, n: nat): (s: string)
    ensures |s| == n && forall i :: 0 <= i < n ==> s[i] == c
  {
    seq(n, _ => c)
  }

  /** How many fill characters `str.format` adds to reach `width`. */
  function Fill(s: string, width: nat): nat
  {
    if |s| < width then width - |s| else 0
  }

  /** `'{:>width}'.format(s)`: the text is never cut, and a shorter text is
      padded on the left to exactly `width`. */
  function AlignRight(s: string, width: nat): (r: string)
    ensures |r| == |s| + Fill(s, width) && (|s| < width ==> |r| == width)
    ensures r[Fill(s, width)..] == s
  {
    Repeat(' ', Fill(s, width)) + s
  }

  /** `'{:<width}'.format(s)`: the text first, padded on the right. */
  function AlignLeft(s: string, width: nat): (r: string)
    ensures |r| == |s| + Fill(s, width) && (|s| < width ==> |r| == width)
    ensures r[..|s|] == s
  {
    s + Repeat(' ', Fill(s, width))
  }

  /** `'{:^width}'.format(s)`: the text centred, the odd fill character
      going to the right. */
  function AlignCenter(s: string, width: nat): (r: string)
    ensures |r| == |s| + Fill(s, width) && (|s| < width ==> |r| == width)
    ensures r[Fill(s, width) / 2..Fill(s, width) / 2 + |s|] == s
  {
    Repeat(' ', Fill(s, width) / 2) + s + Repeat(' ', Fill(s, width) - Fill(s, width) / 2)
  }

  /** The fill characters the three alignments add are spaces, on the side
      each alignment pads. */
  lemma AlignPadsWithSpaces(s: string, width: nat)
    ensures forall i :: 0 <= i < Fill(s, width) ==> AlignRight(s, width)[i] == ' '
    ensures forall i :: |s| <= i < |AlignLeft(s, width)| ==> AlignLeft(s, width)[i] == ' '
    ensures forall i :: 0 <= i < Fill(s, width) / 2 ==> AlignCenter(s, width)[i] == ' '
    ensures forall i :: Fill(s, width) / 2 + |s| <= i < |AlignCenter(s, width)| ==> AlignCenter(s, width)[i] == ' '
  {
  }
}
