/** A line of the hex view with the column the user is at, and what that column means. */
module HexLine {
  import opened Options
  import opened TextControl
  import opened HexRender

  /** The view every index computation below is written for. */
  const BYTES_PER_LINE := 16

  /** A line as captured from the control, with its terminator. */
  datatype HexLine = HexLine(line: string, lineNo: nat, column: nat, bpl: nat) {

    function StartAscii(): nat {
      3 * bpl
    }

    predicate IsAsciiField() {
      StartAscii() <= column < StartAscii() + bpl
    }

    predicate IsHexField() {
      column < StartAscii()
    }

    /** The character at the column; a std::string ends in a NUL. */
    function Here(): char {
      if column < |line| then line[column] else '\0'
    }

    predicate IsReadonly() {
      !IsAsciiField() && !(IsHexField() && Here() != ' ')
    }

    /** The column of the same byte in the other field. */
    function OtherField(): Option<nat> {
      if IsAsciiField() then Some(3 * (column - StartAscii()))
      else if IsHexField() && Here() != ' ' then Some(StartAscii() + column / 3)
      else None
    }

    /** Lines are taken to hold 16 bytes, whatever bpl is. */
    function Convert(offset: nat): nat {
      lineNo * 16 + offset
    }

    function BufferIndex(): Option<nat> {
      if column >= StartAscii() + bpl then None
      else if column >= StartAscii() then Some(Convert(column - StartAscii()))
      else if Here() != ' ' then Some(Convert(column / 3))
      else None
    }
  }

  /** The line of a caret, as it is. */
  function AtCaret(text: string, caret: int, bpl: nat): HexLine {
    var lineNo := LineFromPosition(text, caret);
    HexLine(GetLine(text, lineNo), lineNo, GetColumn(text, caret), bpl)
  }

  /** The line of a position; a position past the ASCII field stands for the first
      ASCII column of the next line. */
  function AtPosition(text: string, pos: int, bpl: nat): HexLine {
    var ml := AtCaret(text, pos, bpl);
    if ml.column >= ml.StartAscii() + bpl then
      HexLine(GetLine(text, ml.lineNo + 1), ml.lineNo + 1, ml.StartAscii(), bpl)
    else ml
  }

  /** Where going to a byte offset puts the caret. */
  function GotoOffset(text: string, offset: nat, bpl: nat): int {
    var lines := |SplitLines(text)|;
    var wanted := offset / 16;
    var lineNo := if wanted < lines then wanted else lines - 1;
    PositionFromLine(text, lineNo) + 3 * bpl + offset % 16
  }

  /** Where the right or left arrow key puts the caret. */
  function KeyMove(text: string, caret: int, right: bool, bpl: nat): int {
    var ml := AtCaret(text, caret, bpl);
    if ml.IsHexField() then KeyMoveHex(text, ml, caret, right) else KeyMoveAscii(text, ml, caret, right)
  }

  function KeyMoveHex(text: string, ml: HexLine, caret: int, right: bool): int {
    var start := PositionFromLine(text, ml.lineNo);
    var pos := Clamp(if right then caret + 3 else caret - 3, |text|);
    if pos >= start + ml.StartAscii() then PositionFromLine(text, ml.lineNo + 1)
    else if pos < start && ml.lineNo > 0 then
      PositionFromLine(text, ml.lineNo - 1) + ml.StartAscii() - 3
    else pos
  }

  function KeyMoveAscii(text: string, ml: HexLine, caret: int, right: bool): int {
    var start := PositionFromLine(text, ml.lineNo);
    var pos := Clamp(if right then caret + 1 else caret - 1, |text|);
    if pos >= start + ml.StartAscii() + ml.bpl then
      PositionFromLine(text, ml.lineNo + 1) + ml.StartAscii()
    else if pos < start + ml.StartAscii() && ml.lineNo > 0 then
      GetLineEndPosition(text, ml.lineNo - 1) - 1
    else pos
  }

  // ----- Where the bytes are -----------------------------------------------------

  /** The places that show something of a byte. */
  datatype Field = Hex | LowNibble | Ascii

  function ColumnOfByte(k: nat, field: Field, bpl: nat): nat
    requires bpl >= 1
  {
    match field
    case Hex => 3 * PlaceOf(k, bpl)
    case LowNibble => 3 * PlaceOf(k, bpl) + 1
    case Ascii => 3 * bpl + PlaceOf(k, bpl)
  }

  function Shown(b: char, field: Field): char {
    match field
    case Hex => High(b)
    case LowNibble => Low(b)
    case Ascii => Printable(b as int)
  }

  /** The row of byte k, and what it shows at the byte's columns. */
  lemma {:induction false} RowOfByte(buffer: string, bpl: nat, k: nat, field: Field)
    requires bpl >= 1 && k < |buffer|
    ensures RowOf(k, bpl) < |Rows(buffer, bpl)|
    ensures ColumnOfByte(k, field, bpl) < |Rows(buffer, bpl)[RowOf(k, bpl)]|
    ensures Rows(buffer, bpl)[RowOf(k, bpl)][ColumnOfByte(k, field, bpl)] == Shown(buffer[k], field)
  {
    hide Chunks, Row, RowsOf, RowOf, PlaceOf, HexDigit, Printable;
    var chunks := Chunks(buffer, bpl);
    ChunkOfByte(buffer, bpl, k);
    RowsOfAt(chunks, bpl, RowOf(k, bpl));
    RowAt(chunks[RowOf(k, bpl)], bpl, PlaceOf(k, bpl));
  }

  /** Position of byte k in the view of buffer. */
  function PositionOfByte(buffer: string, bpl: nat, eol: string, k: nat, field: Field): nat
    requires bpl >= 1 && RowOf(k, bpl) <= |Rows(buffer, bpl)|
  {
    RowStart(Rows(buffer, bpl), eol, RowOf(k, bpl)) + ColumnOfByte(k, field, bpl)
  }

  /** The line of byte k at one of its columns. */
  function LineOfByte(buffer: string, bpl: nat, eol: string, k: nat, field: Field): HexLine
    requires bpl >= 1 && RowOf(k, bpl) < |Rows(buffer, bpl)|
  {
    HexLine(RowLine(Rows(buffer, bpl), eol, RowOf(k, bpl)), RowOf(k, bpl), ColumnOfByte(k, field, bpl), bpl)
  }

  /** What is captured at column c of row r of a view. */
  lemma CapturedAt(buffer: string, bpl: nat, eol: string, r: nat, c: nat)
    requires bpl >= 1 && IsEol(eol)
    requires r < |Rows(buffer, bpl)| && c <= |Rows(buffer, bpl)[r]|
    ensures RowStart(Rows(buffer, bpl), eol, r) + c <= |Render(buffer, bpl, eol)|
    ensures AtCaret(Render(buffer, bpl, eol), RowStart(Rows(buffer, bpl), eol, r) + c, bpl)
         == HexLine(RowLine(Rows(buffer, bpl), eol, r), r, c, bpl)
    ensures PositionFromLine(Render(buffer, bpl, eol), r) == RowStart(Rows(buffer, bpl), eol, r)
  {
    var rows := Rows(buffer, bpl);
    RowsJoinable(buffer, bpl);
    LineOnJoined(rows, eol, r);
    ColumnOnJoined(rows, eol, r, c);
  }

  /** The position of a byte is captured as that byte. */
  lemma {:induction false} ByteOnView(buffer: string, bpl: nat, eol: string, k: nat, field: Field)
    requires bpl >= 1 && IsEol(eol) && k < |buffer|
    ensures RowOf(k, bpl) < |Rows(buffer, bpl)|
    ensures PositionOfByte(buffer, bpl, eol, k, field) <= |Render(buffer, bpl, eol)|
    ensures AtCaret(Render(buffer, bpl, eol), PositionOfByte(buffer, bpl, eol, k, field), bpl)
         == AtPosition(Render(buffer, bpl, eol), PositionOfByte(buffer, bpl, eol, k, field), bpl)
         == LineOfByte(buffer, bpl, eol, k, field)
    ensures PositionFromLine(Render(buffer, bpl, eol), RowOf(k, bpl)) == RowStart(Rows(buffer, bpl), eol, RowOf(k, bpl))
  {
    hide Render, AtCaret, Rows, RowOf, PlaceOf, RowStart, RowLine;
    RowOfByte(buffer, bpl, k, field);
    CapturedAt(buffer, bpl, eol, RowOf(k, bpl), ColumnOfByte(k, field, bpl));
  }

  /** Both fields of a byte lead to its index computed for 16 bytes per line, and to each other. */
  lemma IndexOfByte(buffer: string, bpl: nat, eol: string, k: nat, field: Field)
    requires bpl >= 1 && k < |buffer|
    ensures RowOf(k, bpl) < |Rows(buffer, bpl)|
    ensures LineOfByte(buffer, bpl, eol, k, field).BufferIndex() == Some(RowOf(k, bpl) * 16 + PlaceOf(k, bpl))
    ensures !LineOfByte(buffer, bpl, eol, k, field).IsReadonly()
    ensures LineOfByte(buffer, bpl, eol, k, field).OtherField()
         == Some(ColumnOfByte(k, if field == Ascii then Hex else Ascii, bpl))
  {
    hide Rows, RowOf, PlaceOf;
    RowOfByte(buffer, bpl, k, field);
    var ml := LineOfByte(buffer, bpl, eol, k, field);
    assert ml.line[ml.column] == Shown(buffer[k], field);
  }

  /** Going to the other field and back comes to the start of the same byte's field. */
  lemma OtherFieldTwice(buffer: string, bpl: nat, eol: string, k: nat, field: Field, ml: HexLine, other: HexLine)
    requires bpl >= 1 && k < |buffer| && RowOf(k, bpl) < |Rows(buffer, bpl)|
    requires ml == LineOfByte(buffer, bpl, eol, k, field)
    requires ml.OtherField().Some? ==> other == ml.(column := ml.OtherField().value)
    ensures ml.OtherField().Some?
    ensures other.OtherField() == Some(ColumnOfByte(k, if field == LowNibble then Hex else field, bpl))
  {
    IndexOfByte(buffer, bpl, eol, k, field);
    IndexOfByte(buffer, bpl, eol, k, if field == Ascii then Hex else Ascii);
  }

  predicate FindsByte(buffer: string, bpl: nat, eol: string, k: nat, field: Field)
    requires bpl >= 1
  {
    RowOf(k, bpl) < |Rows(buffer, bpl)| && LineOfByte(buffer, bpl, eol, k, field).BufferIndex() == Some(k)
  }

  /** The line and column arithmetic finds every byte of a buffer exactly when lines hold
      the 16 bytes it is written for, or when there is only one line. */
  lemma IndexIffSixteen(buffer: string, bpl: nat, eol: string, field: Field)
    requires bpl >= 1
    ensures (forall k :: 0 <= k < |buffer| ==> FindsByte(buffer, bpl, eol, k, field)) <==> bpl == 16 || |buffer| <= bpl
  {
    if bpl == 16 || |buffer| <= bpl {
      forall k | 0 <= k < |buffer|
        ensures FindsByte(buffer, bpl, eol, k, field)
      {
        IndexOfByte(buffer, bpl, eol, k, field);
        PlaceBySixteen(k);
      }
    } else {
      IndexOfByte(buffer, bpl, eol, bpl, field);
      assert RowOf(bpl, bpl) == 1 && PlaceOf(bpl, bpl) == 0;
      assert !FindsByte(buffer, bpl, eol, bpl, field);
    }
  }

  /** With eight bytes per line the ninth byte is taken for the seventeenth. */
  lemma EightPerLineFails(buffer: string, eol: string, field: Field)
    requires |buffer| == 9
    ensures RowOf(8, 8) < |Rows(buffer, 8)| && LineOfByte(buffer, 8, eol, 8, field).BufferIndex() == Some(16)
  {
    IndexOfByte(buffer, 8, eol, 8, field);
    assert RowOf(8, 8) == 1 && PlaceOf(8, 8) == 0;
  }

  // ----- Moving around -----------------------------------------------------------

  /** Lines as long as the rendered ones, whatever the letter case of their digits. */
  predicate IsShaped(rows: seq<string>, buffer: string) {
    Joinable(rows) && SameLengths(rows, Rows(buffer, BYTES_PER_LINE))
  }

  /** The position of a byte is captured as its line and column in any view of that shape. */
  lemma {:induction false} ByteOnShape(rows: seq<string>, buffer: string, eol: string, k: nat, field: Field)
    requires IsEol(eol) && k < |buffer| && IsShaped(rows, buffer)
    ensures RowOf(k, BYTES_PER_LINE) < |rows| == |Rows(buffer, BYTES_PER_LINE)|
    ensures PositionOfByte(buffer, BYTES_PER_LINE, eol, k, field) <= |JoinLines(rows, eol)|
    ensures AtCaret(JoinLines(rows, eol), PositionOfByte(buffer, BYTES_PER_LINE, eol, k, field), BYTES_PER_LINE)
         == HexLine(RowLine(rows, eol, RowOf(k, BYTES_PER_LINE)), RowOf(k, BYTES_PER_LINE),
                    ColumnOfByte(k, field, BYTES_PER_LINE), BYTES_PER_LINE)
    ensures PositionFromLine(JoinLines(rows, eol), RowOf(k, BYTES_PER_LINE))
         == RowStart(Rows(buffer, BYTES_PER_LINE), eol, RowOf(k, BYTES_PER_LINE))
  {
    hide JoinLines, Rows, RowOf, PlaceOf, RowStart, RowLine, PositionFromLine, LineFromPosition, GetLine, GetColumn,
         IsEol, Joinable;
    var r := RowOf(k, BYTES_PER_LINE);
    RowOfByte(buffer, BYTES_PER_LINE, k, field);
    SameStarts(rows, Rows(buffer, BYTES_PER_LINE), eol, r);
    LineOnJoined(rows, eol, r);
    ColumnOnJoined(rows, eol, r, ColumnOfByte(k, field, BYTES_PER_LINE));
  }

  /** Going to a byte offset lands on that byte's ASCII column. */
  lemma {:induction false} GotoLandsOnByte(rows: seq<string>, buffer: string, eol: string, k: nat)
    requires IsEol(eol) && k < |buffer| && IsShaped(rows, buffer)
    ensures RowOf(k, BYTES_PER_LINE) < |Rows(buffer, BYTES_PER_LINE)| == |SplitLines(JoinLines(rows, eol))|
    ensures GotoOffset(JoinLines(rows, eol), k, BYTES_PER_LINE)
         == PositionOfByte(buffer, BYTES_PER_LINE, eol, k, Ascii)
         <= |JoinLines(rows, eol)|
  {
    SplitJoin(rows, eol);
    hide JoinLines, Rows, RowStart, RowLine, PositionFromLine, SplitLines, RowLines, Joinable, IsEol, AtCaret;
    PlaceBySixteen(k);
    ByteOnShape(rows, buffer, eol, k, Ascii);
  }

  /** A line that is not the last one ends in byte 15 of that line. */
  lemma FullRow(buffer: string, eol: string, k: nat)
    requires IsEol(eol) && k + 1 < |buffer| && PlaceOf(k, BYTES_PER_LINE) == BYTES_PER_LINE - 1
    ensures RowOf(k, BYTES_PER_LINE) + 1 < |Rows(buffer, BYTES_PER_LINE)|
    ensures |Rows(buffer, BYTES_PER_LINE)[RowOf(k, BYTES_PER_LINE)]| == 4 * BYTES_PER_LINE
  {
    PlaceBySixteen(k);
    PlaceBySixteen(k + 1);
    ChunkOfByte(buffer, BYTES_PER_LINE, k);
    ChunkOfByte(buffer, BYTES_PER_LINE, k + 1);
    RowsOfAt(Chunks(buffer, BYTES_PER_LINE), BYTES_PER_LINE, RowOf(k, BYTES_PER_LINE));
  }

  /** Where a full line ends and the next one starts. */
  lemma {:induction false} AfterFullRow(rows: seq<string>, eol: string, r: nat)
    requires IsEol(eol) && Joinable(rows) && r + 1 < |rows| && |rows[r]| == 4 * BYTES_PER_LINE
    ensures RowStart(rows, eol, r + 1) == RowStart(rows, eol, r) + 4 * BYTES_PER_LINE + |eol|
    ensures GetLineEndPosition(JoinLines(rows, eol), r) == RowStart(rows, eol, r) + 4 * BYTES_PER_LINE
  {
    hide JoinLines, RowStart, PositionFromLine, GetLine;
    RowStartNext(rows, eol, r);
    LineOnJoined(rows, eol, r);
    VisibleOfRow(rows[r], eol);
  }

  /** The field a step over the line end of a low nibble falls back to. */
  function FieldAcross(k: nat, field: Field): Field {
    if field == LowNibble && PlaceOf(k, BYTES_PER_LINE) == BYTES_PER_LINE - 1 then Hex else field
  }

  lemma {:induction false} StepInLine(rows: seq<string>, buffer: string, eol: string, k: nat, field: Field)
    requires IsEol(eol) && k + 1 < |buffer| && IsShaped(rows, buffer)
    requires PlaceOf(k, BYTES_PER_LINE) < BYTES_PER_LINE - 1
    ensures RowOf(k, BYTES_PER_LINE) == RowOf(k + 1, BYTES_PER_LINE) < |Rows(buffer, BYTES_PER_LINE)|
    ensures KeyMove(JoinLines(rows, eol),
                    PositionOfByte(buffer, BYTES_PER_LINE, eol, k, field), true, BYTES_PER_LINE)
         == PositionOfByte(buffer, BYTES_PER_LINE, eol, k + 1, field)
    ensures KeyMove(JoinLines(rows, eol),
                    PositionOfByte(buffer, BYTES_PER_LINE, eol, k + 1, field), false, BYTES_PER_LINE)
         == PositionOfByte(buffer, BYTES_PER_LINE, eol, k, field)
  {
    hide JoinLines, AtCaret, Rows, RowOf, PlaceOf, RowStart, RowLine, PositionFromLine, GetLine, SplitLines, IsEol,
         IsShaped;
    PlaceBySixteen(k);
    PlaceBySixteen(k + 1);
    ByteOnShape(rows, buffer, eol, k, field);
    ByteOnShape(rows, buffer, eol, k + 1, field);
  }

  lemma {:induction false} StepAcross(rows: seq<string>, buffer: string, eol: string, k: nat, field: Field)
    requires IsEol(eol) && k + 1 < |buffer| && IsShaped(rows, buffer)
    requires PlaceOf(k, BYTES_PER_LINE) == BYTES_PER_LINE - 1
    ensures RowOf(k, BYTES_PER_LINE) + 1 == RowOf(k + 1, BYTES_PER_LINE) < |Rows(buffer, BYTES_PER_LINE)|
    ensures KeyMove(JoinLines(rows, eol),
                    PositionOfByte(buffer, BYTES_PER_LINE, eol, k, field), true, BYTES_PER_LINE)
         == PositionOfByte(buffer, BYTES_PER_LINE, eol, k + 1, FieldAcross(k, field))
    ensures KeyMove(JoinLines(rows, eol),
                    PositionOfByte(buffer, BYTES_PER_LINE, eol, k + 1, field), false, BYTES_PER_LINE)
         == PositionOfByte(buffer, BYTES_PER_LINE, eol, k, FieldAcross(k, field))
  {
    hide JoinLines, AtCaret, Rows, RowOf, PlaceOf, RowStart, RowLine, PositionFromLine, GetLine, SplitLines, IsEol,
         Joinable, GetLineEndPosition;
    var r := RowOf(k, BYTES_PER_LINE);
    PlaceBySixteen(k);
    PlaceBySixteen(k + 1);
    ByteOnShape(rows, buffer, eol, k, field);
    ByteOnShape(rows, buffer, eol, k + 1, field);
    FullRow(buffer, eol, k);
    AfterFullRow(rows, eol, r);
    SameStarts(rows, Rows(buffer, BYTES_PER_LINE), eol, r);
    SameStarts(rows, Rows(buffer, BYTES_PER_LINE), eol, r + 1);
  }

  /** Moving right or left from any column of a byte reaches the byte after or before it, across line ends
      too, in the same field; only a low nibble falls back to the high one over a line end. So from a high
      nibble or an ASCII column the two undo each other. */
  lemma StepMovesOneByte(rows: seq<string>, buffer: string, eol: string, k: nat, field: Field)
    requires IsEol(eol) && k + 1 < |buffer| && IsShaped(rows, buffer)
    ensures RowOf(k, BYTES_PER_LINE) < |Rows(buffer, BYTES_PER_LINE)|
    ensures RowOf(k + 1, BYTES_PER_LINE) < |Rows(buffer, BYTES_PER_LINE)|
    ensures KeyMove(JoinLines(rows, eol),
                    PositionOfByte(buffer, BYTES_PER_LINE, eol, k, field), true, BYTES_PER_LINE)
         == PositionOfByte(buffer, BYTES_PER_LINE, eol, k + 1, FieldAcross(k, field))
    ensures KeyMove(JoinLines(rows, eol),
                    PositionOfByte(buffer, BYTES_PER_LINE, eol, k + 1, field), false, BYTES_PER_LINE)
         == PositionOfByte(buffer, BYTES_PER_LINE, eol, k, FieldAcross(k, field))
  {
    if PlaceOf(k, BYTES_PER_LINE) == BYTES_PER_LINE - 1 {
      StepAcross(rows, buffer, eol, k, field);
    } else {
      StepInLine(rows, buffer, eol, k, field);
    }
  }

  /** The line after the last one starts at the end of the text. */
  lemma EndOfRows(rows: seq<string>, eol: string)
    requires IsEol(eol) && Joinable(rows)
    ensures PositionFromLine(JoinLines(rows, eol), |rows|) == |JoinLines(rows, eol)|
  {
    hide JoinLines, RowStart, SplitLines, RowLines, Joinable;
    SplitJoin(rows, eol);
    LengthOfRows(rows, eol, |rows|);
    LengthOfJoin(rows, eol);
  }

  lemma LastByte(buffer: string, k: nat)
    requires k + 1 == |buffer|
    ensures RowOf(k, BYTES_PER_LINE) + 1 == |Rows(buffer, BYTES_PER_LINE)|
    ensures |Rows(buffer, BYTES_PER_LINE)[RowOf(k, BYTES_PER_LINE)]| ==
      3 * BYTES_PER_LINE + PlaceOf(k, BYTES_PER_LINE) + 1
    decreases k
  {
    if |buffer| > BYTES_PER_LINE {
      LastByte(buffer[BYTES_PER_LINE..], k - BYTES_PER_LINE);
    } else {
      assert Rows(buffer, BYTES_PER_LINE) == [Row(buffer, BYTES_PER_LINE)];
    }
  }

  /** Left of the first byte there is nothing to move to but the first column, or the blank before the ASCII
      field; right of the last one the end of the view, or the columns that the byte after it would have. */
  lemma {:induction false} StepAtEnds(rows: seq<string>, buffer: string, eol: string, k: nat, field: Field)
    requires IsEol(eol) && k + 1 == |buffer| && IsShaped(rows, buffer)
    ensures RowOf(k, BYTES_PER_LINE) < |Rows(buffer, BYTES_PER_LINE)|
    ensures KeyMove(JoinLines(rows, eol), PositionOfByte(buffer, BYTES_PER_LINE, eol, 0, field), false, BYTES_PER_LINE)
         == if field == Ascii then 3 * BYTES_PER_LINE - 1 else 0
    ensures Clamp(KeyMove(JoinLines(rows, eol), PositionOfByte(buffer, BYTES_PER_LINE, eol, k, field), true,
                          BYTES_PER_LINE), |JoinLines(rows, eol)|)
         == if field == Ascii || PlaceOf(k, BYTES_PER_LINE) == BYTES_PER_LINE - 1 then |JoinLines(rows, eol)|
            else PositionOfByte(buffer, BYTES_PER_LINE, eol, k, field) + 3
  {
    hide JoinLines, AtCaret, Rows, RowOf, PlaceOf, RowLine, RowStart, PositionFromLine, GetLine, SplitLines, IsEol,
         Joinable, GetLineEndPosition;
    PlaceBySixteen(0);
    FirstRowStart(Rows(buffer, BYTES_PER_LINE), eol);
    ByteOnShape(rows, buffer, eol, 0, field);
    ByteOnShape(rows, buffer, eol, k, field);
    LastByte(buffer, k);
    EndOfRows(rows, eol);
    SameStarts(rows, Rows(buffer, BYTES_PER_LINE), eol, RowOf(k, BYTES_PER_LINE));
    LengthOfJoin(rows, eol);
    RowStartNext(rows, eol, RowOf(k, BYTES_PER_LINE));
    LastLine(rows, eol);
  }

  lemma LastLine(rows: seq<string>, eol: string)
    requires rows != []
    ensures RowLine(rows, eol, |rows| - 1) == rows[|rows| - 1]
  {
  }

  lemma {:induction false} RowHasByte(buffer: string, r: nat)
    requires r < |Rows(buffer, BYTES_PER_LINE)|
    ensures BYTES_PER_LINE * r < |buffer|
    decreases r
  {
    hide Row;
    if r > 0 {
      RowHasByte(buffer[BYTES_PER_LINE..], r - 1);
    }
  }

  /** Where line r starts when all before it have the same width. */
  function StartOf(r: nat, width: nat): nat {
    r * width
  }

  lemma StartOfNext(r: nat, width: nat)
    ensures StartOf(0, width) == 0 && StartOf(r + 1, width) == StartOf(r, width) + width
  {
  }

  /** All lines but the last are full, so every line starts where it does in any view with that line. */
  lemma {:induction false} RowStartIs(buffer: string, eol: string, r: nat)
    requires IsEol(eol) && r < |Rows(buffer, BYTES_PER_LINE)|
    ensures RowStart(Rows(buffer, BYTES_PER_LINE), eol, r) == StartOf(r, 4 * BYTES_PER_LINE + |eol|)
    decreases r
  {
    hide Rows, RowStart, IsEol, RowOf, PlaceOf, StartOf, JoinLines, GetLineEndPosition, Joinable;
    StartOfNext(if r == 0 then 0 else r - 1, 4 * BYTES_PER_LINE + |eol|);
    if r == 0 {
      FirstRowStart(Rows(buffer, BYTES_PER_LINE), eol);
    } else {
      RowStartIs(buffer, eol, r - 1);
      RowHasByte(buffer, r);
      var k := BYTES_PER_LINE * r - 1;
      PlaceBySixteen(k);
      FullRow(buffer, eol, k);
      RowsJoinable(buffer, BYTES_PER_LINE);
      AfterFullRow(Rows(buffer, BYTES_PER_LINE), eol, r - 1);
    }
  }

  lemma FirstRowStart(rows: seq<string>, eol: string)
    ensures RowStart(rows, eol, 0) == 0
  {
  }
}
