/** The styled text control reduced to what the hex view observes of it: a byte
    text cut into lines at CR, LF or CR LF, and a caret. */
module TextControl {

  /** A std::string holds bytes: characters with a code below 256. */
  predicate IsByteString(s: string) {
    forall i :: 0 <= i < |s| ==> s[i] as int < 256
  }

  predicate IsBreak(c: char) {
    c == '\r' || c == '\n'
  }

  predicate BreakFree(s: string) {
    forall i :: 0 <= i < |s| ==> !IsBreak(s[i])
  }

  /** The three end-of-line modes of the control. */
  predicate IsEol(eol: string) {
    eol == "\r" || eol == "\n" || eol == "\r\n"
  }

  /** Length of the first line of text, its terminator included. */
  function FirstLine(text: string): (n: nat)
    ensures n <= |text|
    ensures n == 0 <==> text == []
  {
    if text == [] then 0
    else if text[0] == '\n' then 1
    else if text[0] == '\r' then if |text| > 1 && text[1] == '\n' then 2 else 1
    else 1 + FirstLine(text[1..])
  }

  /** The lines of text, each with its terminator. The last one has no terminator;
      it is empty when text ends in one. */
  function SplitLines(text: string): (lines: seq<string>)
    ensures lines != []
  {
    var n := FirstLine(text);
    if n == 0 || !IsBreak(text[n - 1]) then [text]
    else [text[..n]] + SplitLines(text[n..])
  }

  function TotalLength(lines: seq<string>): nat {
    if lines == [] then 0 else |lines[0]| + TotalLength(lines[1..])
  }

  /** Position of the start of a line; the text length for the line after the last
      one, and -1 beyond that. */
  function PositionFromLine(text: string, line: nat): int {
    var lines := SplitLines(text);
    if line > |lines| then -1 else TotalLength(lines[..line])
  }

  function LineOf(lines: seq<string>, pos: nat): nat
    requires lines != []
  {
    if |lines| == 1 || pos < |lines[0]| then 0
    else 1 + LineOf(lines[1..], pos - |lines[0]|)
  }

  function Clamp(pos: int, length: nat): nat {
    if pos < 0 then 0 else if pos > length then length else pos
  }

  function LineFromPosition(text: string, pos: int): nat {
    LineOf(SplitLines(text), Clamp(pos, |text|))
  }

  /** A line with its terminator; empty for a line that does not exist. */
  function GetLine(text: string, line: nat): string {
    var lines := SplitLines(text);
    if line < |lines| then lines[line] else []
  }

  /** Number of characters of a line before its terminator. */
  function Visible(line: string): (n: nat)
    ensures n <= |line|
  {
    if line == [] || IsBreak(line[0]) then 0 else 1 + Visible(line[1..])
  }

  /** Column of a position: it does not count past the end of the visible line. */
  function GetColumn(text: string, pos: int): nat {
    var lines := SplitLines(text);
    var p := Clamp(pos, |text|);
    ColumnOf(lines, p)
  }

  function ColumnOf(lines: seq<string>, pos: nat): nat
    requires lines != []
  {
    if |lines| == 1 || pos < |lines[0]| then
      var visible := Visible(lines[0]);
      if pos < visible then pos else visible
    else
      ColumnOf(lines[1..], pos - |lines[0]|)
  }

  /** Position of the end of a line, before its terminator. */
  function GetLineEndPosition(text: string, line: nat): int {
    PositionFromLine(text, line) + Visible(GetLine(text, line))
  }

  // ----- Text made of rows -------------------------------------------------------

  /** Rows separated, not terminated, by eol. */
  function JoinLines(rows: seq<string>, eol: string): string {
    if rows == [] then []
    else if |rows| == 1 then rows[0]
    else rows[0] + eol + JoinLines(rows[1..], eol)
  }

  /** What the control shows as line r of the joined rows. */
  function RowLine(rows: seq<string>, eol: string, r: nat): string
    requires r < |rows|
  {
    if r == |rows| - 1 then rows[r] else rows[r] + eol
  }

  function RowStart(rows: seq<string>, eol: string, r: nat): nat
    requires r <= |rows|
  {
    if r == 0 then 0
    else |RowLine(rows, eol, 0)| + RowStart(rows[1..], eol, r - 1)
  }

  predicate AllBreakFree(rows: seq<string>) {
    forall r :: 0 <= r < |rows| ==> BreakFree(rows[r])
  }

  lemma {:induction false} FirstLineOfRow(row: string, rest: string, eol: string)
    requires BreakFree(row) && IsEol(eol)
    requires rest == [] || !IsBreak(rest[0])
    ensures FirstLine(row + eol + rest) == |row| + |eol|
  {
    var text := row + eol + rest;
    if row == [] {
      assert text[..|eol|] == eol;
    } else {
      assert text[1..] == row[1..] + eol + rest;
      FirstLineOfRow(row[1..], rest, eol);
    }
  }

  lemma {:induction false} FirstLineOfLastRow(row: string)
    requires BreakFree(row)
    ensures FirstLine(row) == |row|
  {
    if row != [] {
      FirstLineOfLastRow(row[1..]);
    }
  }

  function RowLines(rows: seq<string>, eol: string): (lines: seq<string>)
    ensures |lines| == |rows|
  {
    seq(|rows|, r requires 0 <= r < |rows| => RowLine(rows, eol, r))
  }

  lemma RowLinesTail(rows: seq<string>, eol: string)
    requires rows != []
    ensures RowLines(rows, eol) == [RowLine(rows, eol, 0)] + RowLines(rows[1..], eol)
  {
  }

  predicate Joinable(rows: seq<string>) {
    rows != [] && AllBreakFree(rows) && forall r :: 0 <= r < |rows| ==> rows[r] != []
  }

  /** Rows that hold no line break are exactly the lines the control sees. */
  lemma {:induction false} SplitJoin(rows: seq<string>, eol: string)
    requires IsEol(eol) && Joinable(rows)
    ensures SplitLines(JoinLines(rows, eol)) == RowLines(rows, eol)
  {
    if |rows| == 1 {
      FirstLineOfLastRow(rows[0]);
    } else {
      var line, rest := rows[0] + eol, JoinLines(rows[1..], eol);
      assert rest[0] == rows[1][0];
      FirstLineOfRow(rows[0], rest, eol);
      SplitFirst(line, rest);
      SplitJoin(rows[1..], eol);
      RowLinesTail(rows, eol);
    }
  }

  lemma SplitFirst(line: string, rest: string)
    requires line != [] && IsBreak(line[|line| - 1]) && FirstLine(line + rest) == |line|
    ensures SplitLines(line + rest) == [line] + SplitLines(rest)
  {
  }

  lemma {:induction false} VisibleOfRow(row: string, eol: string)
    requires BreakFree(row) && (eol == [] || IsEol(eol))
    ensures Visible(row + eol) == |row|
  {
    if row != [] {
      assert (row + eol)[1..] == row[1..] + eol;
      VisibleOfRow(row[1..], eol);
    }
  }

  lemma {:induction false} LengthOfRows(rows: seq<string>, eol: string, r: nat)
    requires r <= |rows|
    ensures TotalLength(RowLines(rows, eol)[..r]) == RowStart(rows, eol, r)
  {
    if r > 0 {
      var lines := RowLines(rows, eol);
      RowLinesTail(rows, eol);
      assert lines[..r][1..] == lines[1..][..r - 1];
      LengthOfRows(rows[1..], eol, r - 1);
    }
  }

  lemma {:induction false} LengthOfJoin(rows: seq<string>, eol: string)
    ensures |JoinLines(rows, eol)| == RowStart(rows, eol, |rows|)
  {
    if rows != [] {
      LengthOfJoin(rows[1..], eol);
    }
  }

  /** Offset c of row r is at line r; its column is c, or the end of the visible row. */
  lemma {:induction false} LocateRow(rows: seq<string>, eol: string, r: nat, c: nat)
    requires IsEol(eol) && AllBreakFree(rows) && r < |rows|
    requires c < |RowLine(rows, eol, r)| || (r == |rows| - 1 && c == |rows[r]|)
    ensures LineOf(RowLines(rows, eol), RowStart(rows, eol, r) + c) == r
    ensures ColumnOf(RowLines(rows, eol), RowStart(rows, eol, r) + c) == if c < |rows[r]| then c else |rows[r]|
    decreases r
  {
    hide IsEol, Visible, IsBreak;
    RowLinesTail(rows, eol);
    if r == 0 {
      VisibleOfRow(rows[0], if |rows| == 1 then [] else eol);
      assert rows[0] + [] == rows[0];
    } else {
      assert RowLine(rows[1..], eol, r - 1) == RowLine(rows, eol, r);
      LocateRow(rows[1..], eol, r - 1, c);
      hide RowLine, RowLines, Visible;
    }
  }

  /** Every position of the joined text is some offset of some row. */
  lemma {:induction false} RowOfPosition(rows: seq<string>, eol: string, pos: nat) returns (r: nat, c: nat)
    requires rows != [] && pos <= |JoinLines(rows, eol)|
    ensures r < |rows| && pos == RowStart(rows, eol, r) + c
    ensures c < |RowLine(rows, eol, r)| || (r == |rows| - 1 && c == |rows[r]|)
    decreases |rows|
  {
    if |rows| == 1 || pos < |RowLine(rows, eol, 0)| {
      r, c := 0, pos;
    } else {
      r, c := RowOfPosition(rows[1..], eol, pos - |RowLine(rows, eol, 0)|);
      assert RowLine(rows[1..], eol, r) == RowLine(rows, eol, r + 1);
      r := r + 1;
    }
  }

  lemma {:induction false} RowWithinJoin(rows: seq<string>, eol: string, r: nat)
    requires r < |rows|
    ensures RowStart(rows, eol, r) + |rows[r]| <= |JoinLines(rows, eol)|
  {
    if r > 0 {
      RowWithinJoin(rows[1..], eol, r - 1);
    }
  }

  lemma PutLeft(left: string, right: string, i: nat, x: char)
    requires i < |left|
    ensures (left + right)[i := x] == left[i := x] + right
  {
  }

  lemma PutRight(left: string, right: string, i: nat, x: char)
    requires i < |right|
    ensures (left + right)[|left| + i := x] == left + right[i := x]
  {
  }

  lemma {:induction false} RowStartNext(rows: seq<string>, eol: string, r: nat)
    requires r < |rows|
    ensures RowStart(rows, eol, r + 1) == RowStart(rows, eol, r) + |RowLine(rows, eol, r)|
  {
    if r > 0 {
      RowStartNext(rows[1..], eol, r - 1);
      assert RowLine(rows[1..], eol, r - 1) == RowLine(rows, eol, r);
    }
  }

  /** Overwriting one character of a row in the joined text is joining the changed rows. */
  lemma {:induction false} UpdateJoin(rows: seq<string>, eol: string, r: nat, c: nat, x: char)
    requires r < |rows| && c < |rows[r]|
    ensures RowStart(rows, eol, r) + c < |JoinLines(rows, eol)|
    ensures JoinLines(rows, eol)[RowStart(rows, eol, r) + c := x] == JoinLines(rows[r := rows[r][c := x]], eol)
    decreases r
  {
    RowWithinJoin(rows, eol, r);
    if |rows| > 1 {
      var rest := JoinLines(rows[1..], eol);
      if r == 0 {
        assert rows[0 := rows[0][c := x]][1..] == rows[1..];
        PutLeft(rows[0], eol, c, x);
        PutLeft(rows[0] + eol, rest, c, x);
      } else {
        assert rows[r := rows[r][c := x]][1..] == rows[1..][r - 1 := rows[r][c := x]];
        UpdateJoin(rows[1..], eol, r - 1, c, x);
        PutRight(rows[0] + eol, rest, RowStart(rows[1..], eol, r - 1) + c, x);
      }
    }
  }

  /** A text with the characters from p on overwritten by s. */
  function Patch(text: string, p: nat, s: string): (patched: string)
    requires p + |s| <= |text|
    ensures |patched| == |text|
  {
    text[..p] + s + text[p + |s|..]
  }

  /** The same for one or two characters. */
  lemma PatchJoined(rows: seq<string>, eol: string, r: nat, c: nat, s: string)
    requires r < |rows| && 1 <= |s| <= 2 && c + |s| <= |rows[r]|
    ensures RowStart(rows, eol, r) + c + |s| <= |JoinLines(rows, eol)|
    ensures Patch(JoinLines(rows, eol), RowStart(rows, eol, r) + c, s) ==
      JoinLines(rows[r := Patch(rows[r], c, s)], eol)
    ensures RowStart(rows[r := Patch(rows[r], c, s)], eol, r) == RowStart(rows, eol, r)
  {
    hide JoinLines, RowStart;
    var text, p := JoinLines(rows, eol), RowStart(rows, eol, r) + c;
    var rows' := rows[r := rows[r][c := s[0]]];
    UpdateJoin(rows, eol, r, c, s[0]);
    SameStarts(rows, rows', eol, r);
    if |s| == 1 {
      assert Patch(text, p, s) == text[p := s[0]];
      assert Patch(rows[r], c, s) == rows[r][c := s[0]];
    } else {
      var rows'' := rows'[r := rows'[r][c + 1 := s[1]]];
      UpdateJoin(rows', eol, r, c + 1, s[1]);
      SameStarts(rows', rows'', eol, r);
      assert Patch(rows[r], c, s) == rows[r][c := s[0]][c + 1 := s[1]];
      assert rows'' == rows[r := Patch(rows[r], c, s)];
      assert Patch(text, p, s) == text[p := s[0]][p + 1 := s[1]];
    }
  }

  /** And for one such replacement after another in the same row. */
  lemma PatchJoinedTwice(rows: seq<string>, eol: string, r: nat, c: nat, s: string, d: nat, t: string)
    requires r < |rows| && 1 <= |s| <= 2 && c + |s| <= |rows[r]| && 1 <= |t| <= 2 && d + |t| <= |rows[r]|
    ensures RowStart(rows, eol, r) + c + |s| <= |JoinLines(rows, eol)|
    ensures RowStart(rows, eol, r) + d + |t| <= |JoinLines(rows, eol)|
    ensures Patch(Patch(JoinLines(rows, eol), RowStart(rows, eol, r) + c, s), RowStart(rows, eol, r) + d, t)
         == JoinLines(rows[r := Patch(Patch(rows[r], c, s), d, t)], eol)
  {
    hide JoinLines, RowStart;
    var row := Patch(rows[r], c, s);
    PatchJoined(rows, eol, r, c, s);
    PatchJoined(rows[r := row], eol, r, d, t);
    hide Patch;
    assert rows[r := row][r := Patch(row, d, t)] == rows[r := Patch(row, d, t)];
  }

  predicate SameLengths(a: seq<string>, b: seq<string>) {
    |a| == |b| && forall r :: 0 <= r < |a| ==> |a[r]| == |b[r]|
  }

  /** Rows of the same lengths start at the same positions. */
  lemma {:induction false} SameStarts(rows: seq<string>, rows': seq<string>, eol: string, r: nat)
    requires SameLengths(rows, rows') && r <= |rows|
    ensures RowStart(rows, eol, r) == RowStart(rows', eol, r)
  {
    if r > 0 {
      SameStarts(rows[1..], rows'[1..], eol, r - 1);
    }
  }

  /** What the control answers about row r of joined rows. */
  lemma LineOnJoined(rows: seq<string>, eol: string, r: nat)
    requires IsEol(eol) && Joinable(rows) && r < |rows|
    ensures PositionFromLine(JoinLines(rows, eol), r) == RowStart(rows, eol, r)
    ensures GetLine(JoinLines(rows, eol), r) == RowLine(rows, eol, r)
  {
    SplitJoin(rows, eol);
    LengthOfRows(rows, eol, r);
  }

  /** What the control answers about column c of row r of joined rows. */
  lemma ColumnOnJoined(rows: seq<string>, eol: string, r: nat, c: nat)
    requires IsEol(eol) && Joinable(rows) && r < |rows| && c <= |rows[r]|
    ensures RowStart(rows, eol, r) + c <= |JoinLines(rows, eol)|
    ensures LineFromPosition(JoinLines(rows, eol), RowStart(rows, eol, r) + c) == r
    ensures GetColumn(JoinLines(rows, eol), RowStart(rows, eol, r) + c) == c
  {
    hide SplitLines, LineOf, ColumnOf, RowLines, RowStart, JoinLines;
    SplitJoin(rows, eol);
    RowWithinJoin(rows, eol, r);
    LocateRow(rows, eol, r, c);
  }
}
