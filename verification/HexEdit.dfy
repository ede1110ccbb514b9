/** What overwriting a few characters of a hex view does to its agreement with the buffer. */
module HexEdit {
  import opened Options
  import opened TextControl
  import opened HexRender
  import opened HexLine

  /** The same digit, whatever the letter case. */
  predicate SameDigit(a: char, b: char) {
    a == b || (IsHexDigit(a) && IsHexDigit(b) && HexValue(a) == HexValue(b))
  }

  /** A row that differs from another at most in the letter case of hex digits. */
  predicate Like(row: string, rendered: string, bpl: nat) {
    && |row| == |rendered|
    && (forall c :: 0 <= c < |row| ==>
          if c < 3 * bpl then SameDigit(row[c], rendered[c]) else row[c] == rendered[c])
  }

  predicate LikeRows(rows: seq<string>, rendered: seq<string>, bpl: nat) {
    && |rows| == |rendered|
    && (forall r :: 0 <= r < |rows| ==> Like(rows[r], rendered[r], bpl))
  }

  /** A text that shows buffer, up to the letter case of its hex digits. */
  ghost predicate Shows(text: string, buffer: string, bpl: nat, eol: string)
    requires bpl >= 1
  {
    exists rows :: LikeRows(rows, Rows(buffer, bpl), bpl) && text == JoinLines(rows, eol)
  }

  lemma RenderShows(buffer: string, bpl: nat, eol: string)
    requires bpl >= 1
    ensures Shows(Render(buffer, bpl, eol), buffer, bpl, eol)
  {
  }

  /** A view that shows a buffer has the shape of its rendering. */
  lemma LikeIsShaped(rows: seq<string>, buffer: string)
    requires buffer != [] && LikeRows(rows, Rows(buffer, BYTES_PER_LINE), BYTES_PER_LINE)
    ensures IsShaped(rows, buffer)
  {
    hide Rows;
    RowsJoinable(buffer, BYTES_PER_LINE);
    LikeJoinable(rows, Rows(buffer, BYTES_PER_LINE), BYTES_PER_LINE);
    LikeLengths(rows, Rows(buffer, BYTES_PER_LINE), BYTES_PER_LINE);
  }

  /** Rows of given lengths can be told from the text they make. */
  lemma {:induction false} JoinInjective(a: seq<string>, b: seq<string>, eol: string)
    requires SameLengths(a, b) && JoinLines(a, eol) == JoinLines(b, eol)
    ensures a == b
  {
    if |a| > 1 {
      assert JoinLines(a, eol)[..|a[0]|] == a[0] && JoinLines(b, eol)[..|b[0]|] == b[0];
      assert JoinLines(a, eol)[|a[0]| + |eol|..] == JoinLines(a[1..], eol);
      assert JoinLines(b, eol)[|b[0]| + |eol|..] == JoinLines(b[1..], eol);
      JoinInjective(a[1..], b[1..], eol);
      assert a == [a[0]] + a[1..] && b == [b[0]] + b[1..];
    }
  }

  lemma LikeJoinable(rows: seq<string>, rendered: seq<string>, bpl: nat)
    requires LikeRows(rows, rendered, bpl) && Joinable(rendered)
    ensures Joinable(rows)
  {
  }

  /** The rendered line of byte k once the byte is b. */
  function RowAfter(buffer: string, bpl: nat, k: nat, b: char): string
    requires bpl >= 1 && RowOf(k, bpl) < |Chunks(buffer, bpl)|
    requires PlaceOf(k, bpl) < |Chunks(buffer, bpl)[RowOf(k, bpl)]|
  {
    Row(Chunks(buffer, bpl)[RowOf(k, bpl)][PlaceOf(k, bpl) := b], bpl)
  }

  lemma RowsAfter(buffer: string, bpl: nat, k: nat, b: char)
    requires bpl >= 1 && k < |buffer|
    ensures RowOf(k, bpl) < |Rows(buffer, bpl)| == |Chunks(buffer, bpl)|
    ensures PlaceOf(k, bpl) < |Chunks(buffer, bpl)[RowOf(k, bpl)]| <= bpl
    ensures Rows(buffer[k := b], bpl) == Rows(buffer, bpl)[RowOf(k, bpl) := RowAfter(buffer, bpl, k, b)]
    ensures |RowAfter(buffer, bpl, k, b)| == |Rows(buffer, bpl)[RowOf(k, bpl)]|
  {
    var chunks, r := Chunks(buffer, bpl), RowOf(k, bpl);
    ChunkOfByte(buffer, bpl, k);
    ChunksOfChanged(buffer, bpl, k, b);
    RowsOfChanged(chunks, bpl, r, chunks[r][PlaceOf(k, bpl) := b]);
    RowsOfAt(chunks, bpl, r);
  }

  /** When one line of a view is overwritten, the view agrees with the changed buffer
      exactly if that line does. */
  lemma ViewAfterRow(rows: seq<string>, buffer: string, bpl: nat, eol: string, k: nat, b: char, row: string)
    requires bpl >= 1 && k < |buffer| && LikeRows(rows, Rows(buffer, bpl), bpl)
    requires RowOf(k, bpl) < |rows| && |row| == |rows[RowOf(k, bpl)]|
    requires RowOf(k, bpl) < |Chunks(buffer, bpl)| && PlaceOf(k, bpl) < |Chunks(buffer, bpl)[RowOf(k, bpl)]|
    ensures Shows(JoinLines(rows[RowOf(k, bpl) := row], eol), buffer[k := b], bpl, eol)
       <==> Like(row, RowAfter(buffer, bpl, k, b), bpl)
    ensures rows == Rows(buffer, bpl) ==>
              (JoinLines(rows[RowOf(k, bpl) := row], eol) == Render(buffer[k := b], bpl, eol) <==>
                  row == RowAfter(buffer, bpl, k, b))
  {
    hide RowOf, PlaceOf, Chunks, Row, RowsOf;
    var r := RowOf(k, bpl);
    RowsAfter(buffer, bpl, k, b);
    var rows', rendered' := rows[r := row], Rows(buffer[k := b], bpl);
    assert |rows[r]| == |Rows(buffer, bpl)[r]| by { assert Like(rows[r], Rows(buffer, bpl)[r], bpl); }
    assert SameLengths(rows', rendered') by {
      forall q | 0 <= q < |rows'| ensures |rows'[q]| == |rendered'[q]| {
        assert Like(rows[q], Rows(buffer, bpl)[q], bpl);
      }
    }
    if Like(row, RowAfter(buffer, bpl, k, b), bpl) {
      assert LikeRows(rows', rendered', bpl);
    }
    if Shows(JoinLines(rows', eol), buffer[k := b], bpl, eol) {
      var shown :| LikeRows(shown, rendered', bpl) && JoinLines(rows', eol) == JoinLines(shown, eol);
      assert SameLengths(shown, rows') by {
        forall q | 0 <= q < |shown| ensures |shown[q]| == |rows'[q]| {
          assert Like(shown[q], rendered'[q], bpl);
        }
      }
      JoinInjective(shown, rows', eol);
      assert Like(shown[r], rendered'[r], bpl);
    }
    if JoinLines(rows', eol) == Render(buffer[k := b], bpl, eol) {
      JoinInjective(rows', rendered', eol);
      assert rows'[r] == rendered'[r];
    }
  }

  /** A line with both digits and the ASCII character of its byte j overwritten. */
  function EditRow(row: string, bpl: nat, j: nat, high: char, low: char, ascii: char): string
    requires j < bpl && |row| > 3 * bpl + j
  {
    row[3 * j := high][3 * j + 1 := low][3 * bpl + j := ascii]
  }

  lemma EditedRowAgrees(row: string, chunk: string, bpl: nat, j: nat, b: char, high: char, low: char, ascii: char)
    requires j < |chunk| <= bpl && Like(row, Row(chunk, bpl), bpl)
    ensures Like(EditRow(row, bpl, j, high, low, ascii), Row(chunk[j := b], bpl), bpl)
       <==> SameDigit(high, High(b)) && SameDigit(low, Low(b)) && ascii == Printable(b as int)
    ensures row == Row(chunk, bpl) ==>
              (EditRow(row, bpl, j, high, low, ascii) == Row(chunk[j := b], bpl)
               <==> high == High(b) && low == Low(b) && ascii == Printable(b as int))
  {
    RowOfChangedChunk(chunk, bpl, j, b);
    hide Row;
    var edited, rendered := EditRow(row, bpl, j, high, low, ascii), Row(chunk[j := b], bpl);
    assert edited[3 * j] == high && rendered[3 * j] == High(b);
    assert edited[3 * j + 1] == low && rendered[3 * j + 1] == Low(b);
    assert edited[3 * bpl + j] == ascii && rendered[3 * bpl + j] == Printable(b as int);
  }

  /** What a line that agrees with the buffer shows around its byte j. */
  lemma ShownAt(row: string, chunk: string, bpl: nat, j: nat)
    requires j < |chunk| <= bpl && Like(row, Row(chunk, bpl), bpl)
    ensures |row| == 3 * bpl + |chunk|
    ensures IsHexDigit(row[3 * j]) && HexValue(row[3 * j]) == HexValue(High(chunk[j]))
    ensures IsHexDigit(row[3 * j + 1]) && HexValue(row[3 * j + 1]) == HexValue(Low(chunk[j]))
    ensures row[3 * j + 2] == ' '
  {
    RowAt(chunk, bpl, j);
    hide Row;
  }

  /** A line whose separator is overwritten with a digit no longer agrees. */
  lemma SeparatorLost(row: string, chunk: string, bpl: nat, j: nat)
    requires j < |chunk| <= bpl && 3 * j + 2 < |row| && IsHexDigit(row[3 * j + 2])
    ensures !Like(row, Row(chunk, bpl), bpl)
  {
    RowAt(chunk, bpl, j);
    hide Row;
    assert !SameDigit(row[3 * j + 2], ' ');
  }

  /** Where an editable column of a view leads: the line, the place and the field of a byte. */
  lemma {:induction false} LocateByte(rows: seq<string>, buffer: string, eol: string, pos: int, wrap: bool,
          i: nat) returns (field: Field)
    requires IsEol(eol) && LikeRows(rows, Rows(buffer, BYTES_PER_LINE), BYTES_PER_LINE) && i < |buffer|
    requires var text := JoinLines(rows, eol);
             var ml := if wrap then AtPosition(text, pos, BYTES_PER_LINE) else AtCaret(text, pos, BYTES_PER_LINE);
             ml.BufferIndex() == Some(i)
    ensures RowOf(i, BYTES_PER_LINE) < |rows|
    ensures (if wrap then AtPosition(JoinLines(rows, eol), pos, BYTES_PER_LINE)
             else AtCaret(JoinLines(rows, eol), pos, BYTES_PER_LINE))
         == HexLine(RowLine(rows, eol, RowOf(i, BYTES_PER_LINE)), RowOf(i, BYTES_PER_LINE),
                    ColumnOfByte(i, field, BYTES_PER_LINE), BYTES_PER_LINE)
  {
    hide RowStart, RowsOf, Like, Chunks, RowOf, PlaceOf, SplitLines, AllBreakFree, BreakFree, IsEol, JoinLines, Visible;
    var text := JoinLines(rows, eol);
    RowsJoinable(buffer, BYTES_PER_LINE);
    LikeJoinable(rows, Rows(buffer, BYTES_PER_LINE), BYTES_PER_LINE);
    var r, c := RowOfPosition(rows, eol, Clamp(pos, |text|));
    CaptureOnJoined(rows, eol, r, c, pos);
    var ml := if wrap then AtPosition(text, pos, BYTES_PER_LINE) else AtCaret(text, pos, BYTES_PER_LINE);
    PlaceBySixteen(i);
    ChunkOfByte(buffer, BYTES_PER_LINE, i);
    var row := RowOf(i, BYTES_PER_LINE);
    assert ml.lineNo == row;
    LineOnJoined(rows, eol, row);
    assert ml.line == RowLine(rows, eol, row);
    field := FieldOfColumn(rows, buffer, eol, ml, i);
  }

  lemma {:induction false} CaptureOnJoined(rows: seq<string>, eol: string, r: nat, c: nat, pos: int)
    requires IsEol(eol) && Joinable(rows) && r < |rows|
    requires Clamp(pos, |JoinLines(rows, eol)|) == RowStart(rows, eol, r) + c
    requires c < |RowLine(rows, eol, r)| || (r == |rows| - 1 && c == |rows[r]|)
    ensures AtCaret(JoinLines(rows, eol), pos, BYTES_PER_LINE)
         == HexLine(RowLine(rows, eol, r), r, if c < |rows[r]| then c else |rows[r]|, BYTES_PER_LINE)
  {
    hide SplitLines, RowStart, JoinLines, LineOf, ColumnOf, RowLine, RowLines, IsEol, BreakFree, Visible;
    SplitJoin(rows, eol);
    LineOnJoined(rows, eol, r);
    LocateRow(rows, eol, r, c);
  }

  lemma FieldOfColumn(rows: seq<string>, buffer: string, eol: string, ml: HexLine, i: nat) returns (field: Field)
    requires LikeRows(rows, Rows(buffer, BYTES_PER_LINE), BYTES_PER_LINE) && i < |buffer|
    requires ml.bpl == BYTES_PER_LINE && ml.lineNo == RowOf(i, BYTES_PER_LINE) < |rows|
    requires ml.line == RowLine(rows, eol, ml.lineNo) && ml.BufferIndex() == Some(i)
    ensures ml.column == ColumnOfByte(i, field, BYTES_PER_LINE)
  {
    PlaceBySixteen(i);
    ChunkOfByte(buffer, BYTES_PER_LINE, i);
    var chunks := Chunks(buffer, BYTES_PER_LINE);
    RowsOfAt(chunks, BYTES_PER_LINE, ml.lineNo);
    ShownAt(rows[ml.lineNo], chunks[ml.lineNo], BYTES_PER_LINE, PlaceOf(i, BYTES_PER_LINE));
    field := if ml.IsAsciiField() then Ascii else if ml.column % 3 == 0 then Hex else LowNibble;
  }

  predicate HasByte(rows: seq<string>, i: nat) {
    && RowOf(i, BYTES_PER_LINE) < |rows|
    && |rows[RowOf(i, BYTES_PER_LINE)]| > 3 * BYTES_PER_LINE + PlaceOf(i, BYTES_PER_LINE)
  }

  /** A view in which both digits and the ASCII character of byte i are overwritten. */
  function EditedView(rows: seq<string>, eol: string, i: nat, high: char, low: char, ascii: char): string
    requires HasByte(rows, i)
  {
    var r := RowOf(i, BYTES_PER_LINE);
    JoinLines(rows[r := EditRow(rows[r], BYTES_PER_LINE, PlaceOf(i, BYTES_PER_LINE), high, low, ascii)], eol)
  }

  /** Such a view agrees with the buffer in which byte i is b exactly when it shows b. */
  lemma ViewAfterEdit(rows: seq<string>, buffer: string, eol: string, i: nat, b: char, high: char, low: char,
          ascii: char)
    requires i < |buffer| && LikeRows(rows, Rows(buffer, BYTES_PER_LINE), BYTES_PER_LINE)
    ensures HasByte(rows, i)
    ensures Shows(EditedView(rows, eol, i, high, low, ascii), buffer[i := b], BYTES_PER_LINE, eol)
       <==> SameDigit(high, High(b)) && SameDigit(low, Low(b)) && ascii == Printable(b as int)
    ensures rows == Rows(buffer, BYTES_PER_LINE) ==>
              (EditedView(rows, eol, i, high, low, ascii) == Render(buffer[i := b], BYTES_PER_LINE, eol)
               <==> high == High(b) && low == Low(b) && ascii == Printable(b as int))
  {
    var r, j, chunks := RowOf(i, BYTES_PER_LINE), PlaceOf(i, BYTES_PER_LINE), Chunks(buffer, BYTES_PER_LINE);
    ChunkOfByte(buffer, BYTES_PER_LINE, i);
    RowsOfAt(chunks, BYTES_PER_LINE, r);
    ShownAt(rows[r], chunks[r], BYTES_PER_LINE, j);
    hide RowOf, PlaceOf, Chunks, Row, RowsOf, JoinLines, Render, Shows, SameDigit;
    var row := EditRow(rows[r], BYTES_PER_LINE, j, high, low, ascii);
    EditedRowAgrees(rows[r], chunks[r], BYTES_PER_LINE, j, b, high, low, ascii);
    ViewAfterRow(rows, buffer, BYTES_PER_LINE, eol, i, b, row);
  }

  /** A row shows, up to letter case, the digits of a byte at place j and a blank after them. */
  predicate ShowsDigits(row: string, j: nat, b: char) {
    && |row| > 3 * BYTES_PER_LINE + j && j < BYTES_PER_LINE
    && IsHexDigit(row[3 * j]) && SameDigit(row[3 * j], High(b))
    && IsHexDigit(row[3 * j + 1]) && SameDigit(row[3 * j + 1], Low(b))
    && row[3 * j + 2] == ' '
  }

  /** What the line of byte i shows, and where the line starts. */
  lemma {:induction false} LineShowsByte(rows: seq<string>, buffer: string, eol: string, i: nat)
    requires IsEol(eol) && i < |buffer| && LikeRows(rows, Rows(buffer, BYTES_PER_LINE), BYTES_PER_LINE)
    ensures HasByte(rows, i)
    ensures ShowsDigits(rows[RowOf(i, BYTES_PER_LINE)], PlaceOf(i, BYTES_PER_LINE), buffer[i])
    ensures PositionFromLine(JoinLines(rows, eol), RowOf(i, BYTES_PER_LINE)) ==
      RowStart(rows, eol, RowOf(i, BYTES_PER_LINE))
  {
    hide Chunks, Row, RowsOf, JoinLines, RowStart, SplitLines, PositionFromLine, RowOf, PlaceOf, HexValue, IsEol;
    var r, j, chunks := RowOf(i, BYTES_PER_LINE), PlaceOf(i, BYTES_PER_LINE), Chunks(buffer, BYTES_PER_LINE);
    ChunkOfByte(buffer, BYTES_PER_LINE, i);
    RowsOfAt(chunks, BYTES_PER_LINE, r);
    ShownAt(rows[r], chunks[r], BYTES_PER_LINE, j);
    RowsJoinable(buffer, BYTES_PER_LINE);
    LikeJoinable(rows, Rows(buffer, BYTES_PER_LINE), BYTES_PER_LINE);
    LineOnJoined(rows, eol, r);
  }

  /** What is captured at a column of byte i. */
  function LineOn(rows: seq<string>, eol: string, i: nat, field: Field): HexLine
    requires RowOf(i, BYTES_PER_LINE) < |rows|
  {
    HexLine(RowLine(rows, eol, RowOf(i, BYTES_PER_LINE)), RowOf(i, BYTES_PER_LINE),
            ColumnOfByte(i, field, BYTES_PER_LINE), BYTES_PER_LINE)
  }

  /** Where such a line puts the byte's fields, and the digits it has at hand. */
  lemma FieldsOnLine(rows: seq<string>, eol: string, i: nat, field: Field, b: char)
    requires RowOf(i, BYTES_PER_LINE) < |rows|
    requires ShowsDigits(rows[RowOf(i, BYTES_PER_LINE)], PlaceOf(i, BYTES_PER_LINE), b)
    ensures LineOn(rows, eol, i, field).lineNo == RowOf(i, BYTES_PER_LINE)
    ensures LineOn(rows, eol, i, field).IsAsciiField() <==> field == Ascii
    ensures LineOn(rows, eol, i, field).OtherField() ==
      Some(if field == Ascii then 3 * PlaceOf(i, BYTES_PER_LINE) else 3 * BYTES_PER_LINE + PlaceOf(i, BYTES_PER_LINE))
    ensures LineOn(rows, eol, i, field).column
         == if field == Ascii then 3 * BYTES_PER_LINE + PlaceOf(i, BYTES_PER_LINE)
            else 3 * PlaceOf(i, BYTES_PER_LINE) + if field == LowNibble then 1 else 0
    ensures field != Ascii ==> |LineOn(rows, eol, i, field).line| > LineOn(rows, eol, i, field).column + 1
    ensures field != Ascii ==>
      (LineOn(rows, eol, i, field).line[LineOn(rows, eol, i, field).column + 1] == ' ' <==> field == LowNibble)
    ensures field == LowNibble ==>
      SameHex(LineOn(rows, eol, i, field).line[LineOn(rows, eol, i, field).column - 1], High(b))
    ensures field == Hex ==> SameHex(LineOn(rows, eol, i, field).line[LineOn(rows, eol, i, field).column], High(b))
  {
  }

  predicate SameHex(a: char, b: char) {
    IsHexDigit(a) && IsHexDigit(b) && HexValue(a) == HexValue(b)
  }

  /** A character overwritten at a column of byte i, and one or two at another. */
  function PatchTwice(text: string, start: int, c: nat, s: string, d: nat, t: string): string
    requires 0 <= start && start + c + |s| <= |text| && start + d + |t| <= |text|
  {
    Patch(Patch(text, start + c, s), start + d, t)
  }

  lemma RowTypedAscii(row: string, j: nat, c: char)
    requires |row| > 3 * BYTES_PER_LINE + j && j < BYTES_PER_LINE
    ensures Patch(Patch(row, 3 * BYTES_PER_LINE + j, [c]), 3 * j, [High(c), Low(c)])
         == EditRow(row, BYTES_PER_LINE, j, High(c), Low(c), c)
  {
  }

  lemma RowTypedDigit(row: string, j: nat, second: bool, c: char, ascii: char)
    requires |row| > 3 * BYTES_PER_LINE + j && j < BYTES_PER_LINE
    ensures Patch(Patch(row, 3 * j + (if second then 1 else 0), [c]), 3 * BYTES_PER_LINE + j, [ascii])
         == EditRow(row, BYTES_PER_LINE, j, if second then row[3 * j] else c,
                    if second then c else row[3 * j + 1], ascii)
  {
  }

  lemma RowTypedCode(row: string, j: nat, high: char, low: char, ascii: char)
    requires |row| > 3 * BYTES_PER_LINE + j && j < BYTES_PER_LINE
    ensures Patch(Patch(row, 3 * j, [high, low]), 3 * BYTES_PER_LINE + j, [ascii]) ==
      EditRow(row, BYTES_PER_LINE, j, high, low, ascii)
  {
  }

  /** Two places of the row of byte i overwritten in the joined text. */
  lemma PatchedRow(rows: seq<string>, eol: string, i: nat, start: nat, c: nat, s: string, d: nat, t: string,
          row: string)
    requires HasByte(rows, i) && start == RowStart(rows, eol, RowOf(i, BYTES_PER_LINE))
    requires 1 <= |s| <= 2 && c + |s| <= |rows[RowOf(i, BYTES_PER_LINE)]|
    requires 1 <= |t| <= 2 && d + |t| <= |rows[RowOf(i, BYTES_PER_LINE)]|
    requires row == Patch(Patch(rows[RowOf(i, BYTES_PER_LINE)], c, s), d, t)
    ensures start + c + |s| <= |JoinLines(rows, eol)| && start + d + |t| <= |JoinLines(rows, eol)|
    ensures PatchTwice(JoinLines(rows, eol), start, c, s, d, t) == JoinLines(rows[RowOf(i, BYTES_PER_LINE) := row], eol)
  {
    hide RowOf, PlaceOf, JoinLines, RowStart, Patch;
    PatchJoinedTwice(rows, eol, RowOf(i, BYTES_PER_LINE), c, s, d, t);
  }

  /** The ASCII column of byte i typed over, and its two digits. */
  lemma TypedAscii(rows: seq<string>, eol: string, i: nat, c: char, start: nat, ascii: nat, hex: nat)
    requires HasByte(rows, i) && start == RowStart(rows, eol, RowOf(i, BYTES_PER_LINE))
    requires ascii == 3 * BYTES_PER_LINE + PlaceOf(i, BYTES_PER_LINE) && hex == 3 * PlaceOf(i, BYTES_PER_LINE)
    ensures start + ascii + 1 <= |JoinLines(rows, eol)| && start + hex + 2 <= |JoinLines(rows, eol)|
    ensures PatchTwice(JoinLines(rows, eol), start, ascii, [c], hex, [High(c), Low(c)])
         == EditedView(rows, eol, i, High(c), Low(c), c)
  {
    hide RowOf, PlaceOf, JoinLines, RowStart, Patch, EditRow, High, Low, PatchTwice;
    var row, j := rows[RowOf(i, BYTES_PER_LINE)], PlaceOf(i, BYTES_PER_LINE);
    RowTypedAscii(row, j, c);
    var edited := EditRow(row, BYTES_PER_LINE, j, High(c), Low(c), c);
    PatchedRow(rows, eol, i, start, ascii, [c], hex, [High(c), Low(c)], edited);
  }

  /** A digit of byte i typed over, and its ASCII character. */
  lemma TypedDigit(rows: seq<string>, eol: string, i: nat, second: bool, c: char, shown: char, start: nat,
          ascii: nat, hex: nat, high: char, low: char)
    requires HasByte(rows, i) && start == RowStart(rows, eol, RowOf(i, BYTES_PER_LINE))
    requires ascii == 3 * BYTES_PER_LINE + PlaceOf(i, BYTES_PER_LINE)
    requires hex == 3 * PlaceOf(i, BYTES_PER_LINE) + if second then 1 else 0
    requires high == if second then rows[RowOf(i, BYTES_PER_LINE)][3 * PlaceOf(i, BYTES_PER_LINE)] else c
    requires low == if second then c else rows[RowOf(i, BYTES_PER_LINE)][3 * PlaceOf(i, BYTES_PER_LINE) + 1]
    ensures start + ascii + 1 <= |JoinLines(rows, eol)| && start + hex + 1 <= |JoinLines(rows, eol)|
    ensures PatchTwice(JoinLines(rows, eol), start, hex, [c], ascii, [shown]) ==
      EditedView(rows, eol, i, high, low, shown)
  {
    hide RowOf, PlaceOf, JoinLines, RowStart, Patch, EditRow, PatchTwice;
    var row, j := rows[RowOf(i, BYTES_PER_LINE)], PlaceOf(i, BYTES_PER_LINE);
    RowTypedDigit(row, j, second, c, shown);
    PatchedRow(rows, eol, i, start, hex, [c], ascii, [shown], EditRow(row, BYTES_PER_LINE, j, high, low, shown));
  }

  /** Both digits of byte i overwritten at once, and its ASCII character. */
  lemma TypedCode(rows: seq<string>, eol: string, i: nat, high: char, low: char, shown: char, start: nat,
          ascii: nat, hex: nat)
    requires HasByte(rows, i) && start == RowStart(rows, eol, RowOf(i, BYTES_PER_LINE))
    requires ascii == 3 * BYTES_PER_LINE + PlaceOf(i, BYTES_PER_LINE) && hex == 3 * PlaceOf(i, BYTES_PER_LINE)
    ensures start + ascii + 1 <= |JoinLines(rows, eol)| && start + hex + 2 <= |JoinLines(rows, eol)|
    ensures PatchTwice(JoinLines(rows, eol), start, hex, [high, low], ascii, [shown]) ==
      EditedView(rows, eol, i, high, low, shown)
  {
    hide RowOf, PlaceOf, JoinLines, RowStart, Patch, EditRow, PatchTwice;
    var row, j := rows[RowOf(i, BYTES_PER_LINE)], PlaceOf(i, BYTES_PER_LINE);
    RowTypedCode(row, j, high, low, shown);
    var edited := EditRow(row, BYTES_PER_LINE, j, high, low, shown);
    PatchedRow(rows, eol, i, start, hex, [high, low], ascii, [shown], edited);
  }

  /** The same one column further to the right: the blank after the digits is lost. */
  lemma MisplacedCode(rows: seq<string>, buffer: string, eol: string, i: nat, b: char, high: char, low: char,
          shown: char, start: nat, ascii: nat, hex: nat)
    requires i < |buffer| && LikeRows(rows, Rows(buffer, BYTES_PER_LINE), BYTES_PER_LINE)
    requires HasByte(rows, i) && start == RowStart(rows, eol, RowOf(i, BYTES_PER_LINE)) && IsHexDigit(low)
    requires ascii == 3 * BYTES_PER_LINE + PlaceOf(i, BYTES_PER_LINE) && hex == 3 * PlaceOf(i, BYTES_PER_LINE) + 1
    ensures start + ascii + 1 <= |JoinLines(rows, eol)| && start + hex + 2 <= |JoinLines(rows, eol)|
    ensures !Shows(PatchTwice(JoinLines(rows, eol), start, hex, [high, low], ascii, [shown]),
                   buffer[i := b], BYTES_PER_LINE, eol)
  {
    hide RowOf, PlaceOf, JoinLines, RowStart, PatchTwice, LikeRows, Like, Rows, Shows, Row, Chunks;
    var r, j, chunks := RowOf(i, BYTES_PER_LINE), PlaceOf(i, BYTES_PER_LINE), Chunks(buffer, BYTES_PER_LINE);
    var row := Patch(Patch(rows[r], hex, [high, low]), ascii, [shown]);
    ChunkOfByte(buffer, BYTES_PER_LINE, i);
    PatchedRow(rows, eol, i, start, hex, [high, low], ascii, [shown], row);
    assert row[3 * j + 2] == low;
    SeparatorLost(row, chunks[r][j := b], BYTES_PER_LINE, j);
    ViewAfterRow(rows, buffer, BYTES_PER_LINE, eol, i, b, row);
  }

  lemma {:induction false} NibblesOf(x: char, y: char)
    requires IsHexDigit(x) && IsHexDigit(y)
    ensures High(HexByte(x, y)) == HexDigit(HexValue(x)) && Low(HexByte(x, y)) == HexDigit(HexValue(y))
  {
  }

  lemma DigitOf(c: char)
    requires IsHexDigit(c)
    ensures SameDigit(c, HexDigit(HexValue(c)))
    ensures c == HexDigit(HexValue(c)) <==> IsUpperHexDigit(c)
  {
  }

  lemma DigitsOfByte(b: char)
    ensures High(b) == HexDigit(HexValue(High(b))) && Low(b) == HexDigit(HexValue(Low(b)))
  {
  }

  /** The digits shown after typing c over one of them, against those of the byte written. */
  lemma DigitsOfTyped(high: char, low: char, was: char, c: char, first: bool)
    requires SameDigit(high, High(was)) && SameDigit(low, Low(was)) && IsHexDigit(c)
    ensures var b := if first then HexByte(c, High(was)) else HexByte(High(was), c);
            && SameDigit(if first then c else high, High(b))
            && (SameDigit(if first then low else c, Low(b)) <==> !first || High(was) == Low(was))
            && ((if first then c == High(b) else c == Low(b)) <==> IsUpperHexDigit(c))
            && (first ==> Low(b) == High(was)) && (!first ==> High(b) == High(was))
  {
    NibblesOf(c, High(was));
    NibblesOf(High(was), c);
    DigitOf(c);
    DigitsOfByte(was);
    hide High, Low, HexByte, HexDigit, HexValue, IsHexDigit, IsUpperHexDigit;
  }

  lemma LikeLengths(rows: seq<string>, rendered: seq<string>, bpl: nat)
    requires LikeRows(rows, rendered, bpl)
    ensures SameLengths(rows, rendered)
  {
  }

  /** The position of a byte is captured as that byte, in any letter case of the digits. */
  lemma ByteOnRows(rows: seq<string>, buffer: string, eol: string, i: nat, field: Field)
    requires IsEol(eol) && i < |buffer| && LikeRows(rows, Rows(buffer, BYTES_PER_LINE), BYTES_PER_LINE)
    ensures RowOf(i, BYTES_PER_LINE) < |rows| == |Rows(buffer, BYTES_PER_LINE)|
    ensures AtPosition(JoinLines(rows, eol), PositionOfByte(buffer, BYTES_PER_LINE, eol, i, field), BYTES_PER_LINE) ==
      LineOn(rows, eol, i, field)
    ensures LineOn(rows, eol, i, field).BufferIndex() == Some(i)
  {
    hide Rows, RowOf, PlaceOf, RowStart, JoinLines, LikeRows, High, Low, AtCaret, LineOn, HexValue, ShowsDigits;
    RowsJoinable(buffer, BYTES_PER_LINE);
    LikeJoinable(rows, Rows(buffer, BYTES_PER_LINE), BYTES_PER_LINE);
    LikeLengths(rows, Rows(buffer, BYTES_PER_LINE), BYTES_PER_LINE);
    LineShowsByte(rows, buffer, eol, i);
    var r := RowOf(i, BYTES_PER_LINE);
    SameStarts(rows, Rows(buffer, BYTES_PER_LINE), eol, r);
    RowWithinJoin(rows, eol, r);
    var column, pos := ColumnOfByte(i, field, BYTES_PER_LINE), PositionOfByte(buffer, BYTES_PER_LINE, eol, i, field);
    CaptureOnJoined(rows, eol, r, column, pos);
    IndexOnLine(rows, eol, i, field, buffer[i]);
  }

  lemma {:induction false} IndexOnLine(rows: seq<string>, eol: string, i: nat, field: Field, b: char)
    requires RowOf(i, BYTES_PER_LINE) < |rows|
    requires ShowsDigits(rows[RowOf(i, BYTES_PER_LINE)], PlaceOf(i, BYTES_PER_LINE), b)
    ensures LineOn(rows, eol, i, field).BufferIndex() == Some(i)
    ensures LineOn(rows, eol, i, field)
         == HexLine(RowLine(rows, eol, RowOf(i, BYTES_PER_LINE)), RowOf(i, BYTES_PER_LINE),
                    ColumnOfByte(i, field, BYTES_PER_LINE), BYTES_PER_LINE)
    ensures ColumnOfByte(i, field, BYTES_PER_LINE) < |rows[RowOf(i, BYTES_PER_LINE)]|
    ensures ColumnOfByte(i, field, BYTES_PER_LINE) < 4 * BYTES_PER_LINE
  {
    hide RowOf, PlaceOf, High, Low, HexValue;
    PlaceBySixteen(i);
    var row, line := rows[RowOf(i, BYTES_PER_LINE)], RowLine(rows, eol, RowOf(i, BYTES_PER_LINE));
    assert line[..|row|] == row;
  }

  lemma {:induction false} LastChunk(buffer: string)
    requires buffer != []
    ensures |buffer| == BYTES_PER_LINE * (|Chunks(buffer, BYTES_PER_LINE)| - 1) +
                        |Chunks(buffer, BYTES_PER_LINE)[|Chunks(buffer, BYTES_PER_LINE)| - 1]|
    ensures |Chunks(buffer, BYTES_PER_LINE)[|Chunks(buffer, BYTES_PER_LINE)| - 1]| <= BYTES_PER_LINE
  {
    if |buffer| > BYTES_PER_LINE {
      LastChunk(buffer[BYTES_PER_LINE..]);
    }
  }

  /** The end of a view stands for the place after the last byte. */
  lemma EndOnRows(rows: seq<string>, buffer: string, eol: string)
    requires IsEol(eol) && buffer != [] && LikeRows(rows, Rows(buffer, BYTES_PER_LINE), BYTES_PER_LINE)
    ensures AtPosition(JoinLines(rows, eol), |JoinLines(rows, eol)|, BYTES_PER_LINE).IsAsciiField()
    ensures AtPosition(JoinLines(rows, eol), |JoinLines(rows, eol)|, BYTES_PER_LINE).BufferIndex() == Some(|buffer|)
  {
    hide RowStart, JoinLines, AtCaret, Row, Chunks;
    RowsJoinable(buffer, BYTES_PER_LINE);
    LikeJoinable(rows, Rows(buffer, BYTES_PER_LINE), BYTES_PER_LINE);
    var last := |rows| - 1;
    RowsOfAt(Chunks(buffer, BYTES_PER_LINE), BYTES_PER_LINE, last);
    LastChunk(buffer);
    LengthOfJoin(rows, eol);
    RowStartNext(rows, eol, last);
    CaptureOnJoined(rows, eol, last, |rows[last]|, |JoinLines(rows, eol)|);
    assert Like(rows[last], Rows(buffer, BYTES_PER_LINE)[last], BYTES_PER_LINE);
  }

  /** The end of a full line stands for the first byte of the next line, in its ASCII field. */
  lemma LineEndOnRows(rows: seq<string>, buffer: string, eol: string, k: nat)
    requires IsEol(eol) && LikeRows(rows, Rows(buffer, BYTES_PER_LINE), BYTES_PER_LINE)
    requires k + 1 < |buffer| && k % BYTES_PER_LINE == BYTES_PER_LINE - 1
    ensures k / BYTES_PER_LINE < RowOf(k + 1, BYTES_PER_LINE) < |rows|
    ensures var pos := RowStart(rows, eol, k / BYTES_PER_LINE) + 4 * BYTES_PER_LINE;
            AtPosition(JoinLines(rows, eol), pos, BYTES_PER_LINE) == LineOn(rows, eol, k + 1, Ascii)
    ensures LineOn(rows, eol, k + 1, Ascii).BufferIndex() == Some(k + 1)
  {
    hide Rows, RowOf, PlaceOf, RowStart, JoinLines, SplitLines, LineFromPosition, GetColumn, Visible, IsEol, Joinable,
         LikeRows;
    var r := k / BYTES_PER_LINE;
    PlaceBySixteen(k);
    PlaceBySixteen(k + 1);
    LikeIsShaped(rows, buffer);
    FullRow(buffer, eol, k);
    ColumnOnJoined(rows, eol, r, 4 * BYTES_PER_LINE);
    LineOnJoined(rows, eol, r + 1);
  }

  /** A text that shows the empty buffer is empty, and its only position stands for a first byte. */
  lemma EmptyView(text: string, eol: string)
    requires Shows(text, [], BYTES_PER_LINE, eol)
    ensures text == []
    ensures !AtPosition([], 0, BYTES_PER_LINE).IsAsciiField() && AtPosition([], 0, BYTES_PER_LINE).IsHexField()
    ensures AtPosition([], 0, BYTES_PER_LINE).BufferIndex() == Some(0)
  {
    assert Rows([], BYTES_PER_LINE) == [];
    assert SplitLines([]) == [[]];
  }
}
