/** Hex mode: a byte buffer, and the control that shows it. Some edits render the whole
    view again, others patch it and the buffer separately. */
module Hexmode {
  import opened Options
  import opened Strings
  import opened TextControl
  import opened HexRender
  import opened HexLine
  import opened HexEdit

  type Eol = s: string | IsEol(s) witness "\n"

  /** The styled text control. */
  class Stc {
    const eol: Eol
    var text: string
    var caret: int

    constructor (eol: Eol, text: string)
      ensures this.eol == eol && this.text == text && caret == 0
    {
      this.eol := eol;
      this.text := text;
      caret := 0;
    }

    method ClearAll()
      modifies this
      ensures text == [] && caret == 0
    {
      text, caret := [], 0;
    }

    method AppendText(s: string)
      modifies this`text
      ensures text == old(text) + s
    {
      text := text + s;
    }

    method SetCurrentPos(pos: int)
      modifies this`caret
      ensures caret == Clamp(pos, |text|)
    {
      caret := Clamp(pos, |text|);
    }

    /** Overwrites the characters from a position on with as many others. */
    method Replace(from: int, to: int, s: string)
      requires 0 <= from <= to <= |text| && |s| == to - from
      modifies this`text
      ensures text == Patch(old(text), from, s)
    {
      text := text[..from] + s + text[to..];
    }
  }

  /** What a hex insertion of two characters reads with base 16; None when it throws. */
  function ReadPair(a: char, b: char): Option<int> {
    if IsHexDigit(a) then Some(if IsHexDigit(b) then 16 * HexValue(a) + HexValue(b) else HexValue(a))
    else if (a == ' ' || '\t' <= a <= '\r' || a == '+') && IsHexDigit(b) then Some(HexValue(b))
    else if a == '-' && IsHexDigit(b) then var value: int := HexValue(b); Some(-value)
    else None
  }

  /** The pairs that a hex insertion accepts: one of the two has to be a digit. */
  predicate IsPair(a: char, b: char) {
    (IsHexDigit(a) || IsHexDigit(b)) && ReadPair(a, b).Some?
  }

  function ByteOf(code: int): (b: char)
    ensures b as int == code % 256
  {
    (code % 256) as char
  }

  /** The byte written by typing c at a column: in the high nibble of the hex field it is
      the new digit followed by the old high digit. */
  function Written(ml: HexLine, c: char, was: char): char
    requires ml.IsAsciiField() || IsHexDigit(c)
  {
    if ml.IsAsciiField() then c
    else if ml.column % 3 == 1 then HexByte(High(was), c)
    else HexByte(c, High(was))
  }

  /** A first digit goes where it belongs exactly when both digits of the byte were the same. */
  lemma FirstDigitIff(ml: HexLine, c: char, was: char)
    requires IsHexDigit(c) && ml.IsHexField() && ml.column % 3 == 0
    ensures Written(ml, c, was) == HexByte(c, Low(was)) <==> High(was) == Low(was)
  {
  }

  /** Typing '5' over the first digit of the byte 34 writes 53, not 54. */
  lemma FirstDigitFails(ml: HexLine)
    requires ml.IsHexField() && ml.column % 3 == 0
    ensures Written(ml, '5', '4') == 'S' && HexByte('5', Low('4')) == 'T'
  {
  }

  /** A pair that is accepted is the code of the byte inserted exactly when both characters are digits. */
  lemma PairShowsByteIff(a: char, b: char, code: char)
    requires ReadPair(a, b).Some? && code == ByteOf(ReadPair(a, b).value)
    ensures SameDigit(a, High(code)) && SameDigit(b, Low(code)) <==> IsHexDigit(a) && IsHexDigit(b)
  {
    if IsHexDigit(a) && IsHexDigit(b) {
      assert code == HexByte(a, b);
      NibblesOf(a, b);
      DigitOf(a);
      DigitOf(b);
    }
    DigitsOfByte(code);
  }

  /** The pair 1g is accepted and inserts the byte 01. */
  lemma HalfPairFails()
    ensures IsPair('1', 'g') && ByteOf(ReadPair('1', 'g').value) as int == 1 && Low(1 as char) != 'g'
  {
  }

  /** A pair with a digit throws exactly when it begins with neither a digit, white space nor a sign. */
  lemma PairThrowsIff(a: char, b: char)
    requires IsHexDigit(a) || IsHexDigit(b)
    ensures ReadPair(a, b).None? <==> !IsHexDigit(a) && !IsSpace(a) && a !in "+-"
  {
  }

  /** White space and a plus before a digit are skipped, a minus makes it negative and wraps round, and a
      letter beyond F throws. */
  lemma OddPairs()
    ensures ByteOf(ReadPair(' ', '5').value) as int == ByteOf(ReadPair('+', '5').value) as int == 5
    ensures ByteOf(ReadPair('-', '5').value) as int == 251
    ensures ReadPair('g', '1').None? && !IsPair('g', '1') && !IsPair('g', 'h')
  {
  }

  /** Whether the view still shows the buffer after typing c over a byte. */
  predicate StaysReadable(ml: HexLine, c: char, was: char) {
    if ml.IsAsciiField() then Printable(c as int) == c
    else ml.column % 3 == 1 || High(was) == Low(was)
  }

  /** Where the caret goes when count characters are inserted at a line captured before: behind them in
      the ASCII field, or to that field of the next line when they reach beyond the end of the line. */
  function CaretAfter(ml: HexLine, count: nat, caret: nat, view: string): nat {
    if !ml.IsAsciiField() then caret
    else if ml.column + count >= ml.bpl + ml.StartAscii() then
      Clamp(PositionFromLine(view, LineFromPosition(view, caret) + 1) + ml.StartAscii(), |view|)
    else Clamp(caret + count, |view|)
  }

  /** After an insertion at the caret, in the ASCII column of a byte, the caret is on that byte again, now
      behind what was inserted, exactly when the insertion does not reach beyond the start of the next line. */
  lemma {:induction false} CaretBehindIff(buffer: string, eol: string, k: nat, text: string, caret: nat,
          after: string, ml: HexLine)
    requires IsEol(eol) && k < |buffer| && after == buffer[..k] + text + buffer[k..]
    requires RowOf(k, BYTES_PER_LINE) < |Rows(buffer, BYTES_PER_LINE)|
    requires caret == PositionOfByte(buffer, BYTES_PER_LINE, eol, k, Ascii)
    requires ml.bpl == BYTES_PER_LINE && ml.column == ColumnOfByte(k, Ascii, BYTES_PER_LINE)
    ensures RowOf(k + |text|, BYTES_PER_LINE) < |Rows(after, BYTES_PER_LINE)|
    ensures CaretAfter(ml, |text|, caret, Render(after, BYTES_PER_LINE, eol))
         == PositionOfByte(after, BYTES_PER_LINE, eol, k + |text|, Ascii)
       <==> PlaceOf(k, BYTES_PER_LINE) + |text| <= BYTES_PER_LINE
  {
    hide Rows, RowOf, PlaceOf, RowStart, Render, SplitLines, PositionFromLine, LineFromPosition, IsEol, PositionOfByte,
         LineOfByte, CaretAfter, Clamp, StartOf;
    var n, r, j := |text|, RowOf(k, BYTES_PER_LINE), PlaceOf(k, BYTES_PER_LINE);
    var view, width := Render(after, BYTES_PER_LINE, eol), 4 * BYTES_PER_LINE + |eol|;
    PlaceBySixteen(k);
    PlaceBySixteen(k + n);
    PlaceOnView(buffer, eol, k);
    PlaceOnView(after, eol, k);
    PlaceOnView(after, eol, k + n);
    AsciiColumn(k, ml);
    CaretAfterIs(ml, n, caret, view);
    if j + n >= BYTES_PER_LINE {
      var next := BYTES_PER_LINE * (r + 1);
      PlaceBySixteen(next);
      PlaceOnView(after, eol, next);
      ClampInside(PositionFromLine(view, r + 1) + 3 * BYTES_PER_LINE, |view|);
    } else {
      ClampInside(caret + n, |view|);
    }
    BehindOnLine(k, n, r, j, RowOf(k + n, BYTES_PER_LINE), PlaceOf(k + n, BYTES_PER_LINE), width);
  }

  /** Two characters inserted at the last byte of a line leave the caret one byte short. */
  lemma TwoAtLineEndFails(buffer: string, eol: string, caret: nat, after: string, ml: HexLine)
    requires IsEol(eol) && |buffer| == 16 && after == buffer[..15] + "xy" + buffer[15..]
    requires RowOf(15, BYTES_PER_LINE) < |Rows(buffer, BYTES_PER_LINE)|
    requires caret == PositionOfByte(buffer, BYTES_PER_LINE, eol, 15, Ascii)
    requires ml.bpl == BYTES_PER_LINE && ml.column == ColumnOfByte(15, Ascii, BYTES_PER_LINE)
    ensures RowOf(17, BYTES_PER_LINE) < |Rows(after, BYTES_PER_LINE)|
    ensures CaretAfter(ml, 2, caret, Render(after, BYTES_PER_LINE, eol))
         != PositionOfByte(after, BYTES_PER_LINE, eol, 17, Ascii)
  {
    hide Rows, PositionOfByte, CaretAfter, Render;
    PlaceBySixteen(15);
    CaretBehindIff(buffer, eol, 15, "xy", caret, after, ml);
  }

  lemma ClampInside(pos: nat, length: nat)
    ensures pos <= length ==> Clamp(pos, length) == pos
  {
  }

  lemma AsciiColumn(k: nat, ml: HexLine)
    requires ml.bpl == BYTES_PER_LINE && ml.column == ColumnOfByte(k, Ascii, BYTES_PER_LINE)
    ensures ml.column == 3 * BYTES_PER_LINE + PlaceOf(k, BYTES_PER_LINE) && ml.IsAsciiField()
  {
  }

  lemma CaretAfterIs(ml: HexLine, count: nat, caret: nat, view: string)
    requires ml.IsAsciiField()
    ensures CaretAfter(ml, count, caret, view) ==
      if ml.column + count < 4 * ml.bpl then Clamp(caret + count, |view|)
      else Clamp(PositionFromLine(view, LineFromPosition(view, caret) + 1) + 3 * ml.bpl, |view|)
  {
  }

  lemma {:induction false} BehindOnLine(k: nat, n: nat, r: nat, j: nat, r': nat, j': nat, width: nat)
    requires k == BYTES_PER_LINE * r + j && j < BYTES_PER_LINE && width > BYTES_PER_LINE
    requires k + n == BYTES_PER_LINE * r' + j' && j' < BYTES_PER_LINE
    ensures j + n < BYTES_PER_LINE ==> r' == r && j' == j + n
    ensures j + n >= BYTES_PER_LINE ==> (StartOf(r + 1, width) == StartOf(r', width) + j' <==> j + n == BYTES_PER_LINE)
  {
    if j + n >= BYTES_PER_LINE {
      assert r' >= r + 1;
      LaterRow(r + 1, r', width);
    }
  }

  /** The position of a byte's ASCII column, and its line. */
  lemma {:induction false} PlaceOnView(buffer: string, eol: string, k: nat)
    requires IsEol(eol) && k < |buffer|
    ensures RowOf(k, BYTES_PER_LINE) < |Rows(buffer, BYTES_PER_LINE)|
    ensures PositionOfByte(buffer, BYTES_PER_LINE, eol, k, Ascii)
         == StartOf(RowOf(k, BYTES_PER_LINE), 4 * BYTES_PER_LINE + |eol|) +
            3 * BYTES_PER_LINE + PlaceOf(k, BYTES_PER_LINE)
         <= |Render(buffer, BYTES_PER_LINE, eol)|
    ensures PositionFromLine(Render(buffer, BYTES_PER_LINE, eol), RowOf(k, BYTES_PER_LINE))
         == StartOf(RowOf(k, BYTES_PER_LINE), 4 * BYTES_PER_LINE + |eol|)
    ensures LineFromPosition(Render(buffer, BYTES_PER_LINE, eol), PositionOfByte(buffer, BYTES_PER_LINE, eol, k, Ascii))
         == RowOf(k, BYTES_PER_LINE)
  {
    hide Rows, RowOf, PlaceOf, RowStart, RowLine, Render, AtCaret, SplitLines, PositionFromLine, LineFromPosition,
         IsEol;
    ByteOnView(buffer, BYTES_PER_LINE, eol, k, Ascii);
    RowStartIs(buffer, eol, RowOf(k, BYTES_PER_LINE));
    LineOfCaret(Render(buffer, BYTES_PER_LINE, eol), PositionOfByte(buffer, BYTES_PER_LINE, eol, k, Ascii));
  }

  lemma {:induction false} LaterRow(a: nat, b: nat, width: nat)
    requires a <= b && width > 0
    ensures a * width <= b * width && (a < b ==> a * width + width <= b * width)
  {
    if a < b {
      LaterRow(a, b - 1, width);
      assert (b - 1) * width + width == b * width;
    }
  }

  lemma LineOfCaret(text: string, caret: int)
    ensures AtCaret(text, caret, BYTES_PER_LINE).lineNo == LineFromPosition(text, caret)
  {
  }

  /** Whether a view that was the rendered one still is: hex digits are rendered in upper case. */
  predicate StaysRendered(ml: HexLine, c: char, was: char) {
    StaysReadable(ml, c, was) && (ml.IsAsciiField() || IsUpperHexDigit(c))
  }

  /** The same after overwriting a code: it has to start at the first digit, with a value that is shown
      as the byte it becomes. */
  predicate StaysReadableHex(ml: HexLine, value: int) {
    ml.column % 3 == 0 && Printable(value) == Printable(ByteOf(value) as int)
  }

  /** A buffer without count bytes from i on, or without all of them there are. */
  function Without(buffer: string, i: nat, count: nat): string
    requires i <= |buffer|
  {
    buffer[..i] + if i + count < |buffer| then buffer[i + count..] else []
  }

  // ----- What the edits mean on plain bytes -----------------------------------------

  datatype Edit =
    | Rewrite(text: string)
    | Delete(k: nat, count: nat)
    | InsertText(k: nat, text: string)
    | InsertCode(k: nat, high: char, low: char)
    | Type(k: nat, field: Field, c: char)
    | SetCode(k: nat, value: int)

  /** An edit of a byte that exists, of text that can be shown; a first digit only when both
      digits of the byte are the same. A byte given by its code can start an empty buffer. */
  predicate Allowed(edit: Edit, buffer: string) {
    match edit
    case Rewrite(_) => true
    case Delete(k, _) => k < |buffer|
    case InsertText(k, _) => k <= |buffer| && buffer != []
    case InsertCode(k, high, low) => (k < |buffer| || k == |buffer| == 0) && IsPair(high, low)
    case Type(k, Ascii, c) => k < |buffer| && 32 <= c as int < 127
    case Type(k, LowNibble, c) => k < |buffer| && IsHexDigit(c)
    case Type(k, Hex, c) => k < |buffer| && IsHexDigit(c) && High(buffer[k]) == Low(buffer[k])
    case SetCode(k, value) => k < |buffer| && 0 <= value < 256
  }

  function Apply(edit: Edit, buffer: string): string
    requires Allowed(edit, buffer)
  {
    match edit
    case Rewrite(text) => text
    case Delete(k, count) => Without(buffer, k, count)
    case InsertText(k, text) => buffer[..k] + text + buffer[k..]
    case InsertCode(k, high, low) => buffer[..k] + [ByteOf(ReadPair(high, low).value)] + buffer[k..]
    case Type(k, Ascii, c) => buffer[k := c]
    case Type(k, LowNibble, c) => buffer[k := HexByte(High(buffer[k]), c)]
    case Type(k, Hex, c) => buffer[k := HexByte(c, Low(buffer[k]))]
    case SetCode(k, value) => buffer[k := value as char]
  }

  predicate Uppercase(edit: Edit) {
    edit.Type? && edit.field != Ascii ==> IsUpperHexDigit(edit.c)
  }

  predicate AllAllowed(edits: seq<Edit>, buffer: string) {
    edits == [] || (Allowed(edits[0], buffer) && AllAllowed(edits[1..], Apply(edits[0], buffer)))
  }

  function ApplyAll(edits: seq<Edit>, buffer: string): string
    requires AllAllowed(edits, buffer)
  {
    if edits == [] then buffer else ApplyAll(edits[1..], Apply(edits[0], buffer))
  }

  /** What a deletion leaves: the bytes before k, and those from k + count on in their place. */
  lemma DeleteLeaves(b: string, k: nat, count: nat, after: string)
    requires k < |b| && after == Apply(Delete(k, count), b)
    ensures |after| == if k + count < |b| then |b| - count else k
    ensures forall i :: 0 <= i < |after| ==> after[i] == b[if i < k then i else i + count]
  {
  }

  /** Deleting as many bytes as were inserted, from where they are, gives back what was there before. */
  lemma DeleteUndoesInsert(b: string, k: nat, t: string, after: string)
    requires k <= |b| && after == b[..k] + t + b[k..] && k < |after|
    ensures Apply(Delete(k, |t|), after) == b
  {
    assert after[..k] == b[..k] && b[..k] + b[k..] == b;
    if k < |b| {
      assert after[k + |t|..] == b[k..];
    }
  }

  /** An insertion, and the deletion of what it inserts. */
  function InAndOut(insert: Edit): seq<Edit>
    requires insert.InsertText? || insert.InsertCode?
  {
    [insert, Delete(insert.k, if insert.InsertText? then |insert.text| else 1)]
  }

  /** As two edits of a run, either kind of insertion and its deletion leave the bytes as they were. */
  lemma InAndOutIsNothing(insert: Edit, b: string)
    requires (insert.InsertText? && insert.text != []) || insert.InsertCode?
    requires Allowed(insert, b)
    ensures AllAllowed(InAndOut(insert), b) && ApplyAll(InAndOut(insert), b) == b
  {
    var t := if insert.InsertText? then insert.text else [ByteOf(ReadPair(insert.high, insert.low).value)];
    hide ReadPair, ByteOf, IsPair, Without;
    var edits, after := InAndOut(insert), Apply(insert, b);
    DeleteUndoesInsert(b, insert.k, t, after);
    assert edits[1..] == [Delete(insert.k, |t|)] && edits[1..][1..] == [];
    assert AllAllowed([], b) && ApplyAll([], b) == b;
    assert AllAllowed(edits[1..], after) && ApplyAll(edits[1..], after) == b;
  }

  datatype Insertion = Refused | Threw | Done

  function From(text: string, offset: nat): string {
    if offset < |text| then text[offset..] else []
  }

  lemma FromNext(text: string, offset: nat, bpl: nat)
    requires offset < |text|
    ensures From(text, offset) == text[offset..] && Rest(From(text, offset), bpl) == From(text, offset + bpl)
  {
  }

  lemma FromEnds(text: string)
    ensures From(text, 0) == text
  {
  }

  lemma FromBeyond(text: string, offset: nat)
    requires offset >= |text|
    ensures From(text, offset) == []
  {
  }

  lemma Regroup(a: string, b: string, c: string)
    ensures a + (b + c) == (a + b) + c && [] + c == c && a + [] == a
  {
  }

  class Hexmode {
    const stc: Stc
    const bytesPerLine: nat
    var active: bool
    var buffer: string
    var bufferOriginal: string

    constructor (stc: Stc, bytesPerLine: nat := 16)
      ensures this.stc == stc && this.bytesPerLine == bytesPerLine
      ensures !active && buffer == [] && bufferOriginal == []
    {
      this.stc, this.bytesPerLine := stc, bytesPerLine;
      active, buffer, bufferOriginal := false, [], [];
    }

    /** The control shows exactly the rendered buffer. */
    ghost predicate Coherent()
      requires bytesPerLine >= 1
      reads this, stc
    {
      stc.text == Render(buffer, bytesPerLine, stc.eol)
    }

    /** The control shows the buffer, up to the letter case of hex digits. */
    ghost predicate Readable()
      requires bytesPerLine >= 1
      reads this, stc
    {
      Shows(stc.text, buffer, bytesPerLine, stc.eol)
    }

    // ----- Rendering -------------------------------------------------------------

    /** One line of the view, from offset on. */
    method Line(text: string, offset: nat) returns (line: string)
      requires bytesPerLine >= 1 && offset < |text|
      ensures line == ViewLine(text[offset..], bytesPerLine, stc.eol)
    {
      hide High, Low, Printable, HexFields, AsciiField, Repeat;
      var fieldHex, fieldAscii := "", "";
      NoFields();
      var count := |text| - offset;
      count := if bytesPerLine < count then bytesPerLine else count;
      ghost var chunk := text[offset..offset + count];
      assert chunk == text[offset..][..count];
      var byte := 0;
      while byte < count
        invariant 0 <= byte <= count
        invariant fieldHex == HexFields(chunk[..byte]) && fieldAscii == AsciiField(chunk[..byte])
      {
        var b := text[offset + byte];
        fieldHex := fieldHex + [High(b), Low(b)] + " ";
        fieldAscii := fieldAscii + [Printable(b as int)];
        FieldsOfLonger(chunk[..byte], b);
        assert b == chunk[byte] && chunk[..byte + 1] == chunk[..byte] + [b];
        byte := byte + 1;
      }
      assert chunk[..count] == chunk;
      var fieldSpaces := Repeat(' ', (bytesPerLine - count) * 3);
      assert count == |text| - offset ==> chunk == text[offset..];
      line := fieldHex + fieldSpaces + fieldAscii + (if |text| - offset > bytesPerLine then stc.eol else "");
    }

    /** The lines of a text when hex mode is active, nothing otherwise. */
    method Lines(text: string) returns (output: string)
      requires bytesPerLine >= 1
      ensures output == if active then Render(text, bytesPerLine, stc.eol) else []
    {
      hide *;
      output := "";
      if active {
        var offset := 0;
        FromEnds(text);
        Regroup("", "", Render(text, bytesPerLine, stc.eol));
        while offset < |text|
          invariant output + Render(From(text, offset), bytesPerLine, stc.eol) == Render(text, bytesPerLine, stc.eol)
        {
          var line := Line(text, offset);
          FromNext(text, offset, bytesPerLine);
          RenderFirst(text[offset..], bytesPerLine, stc.eol);
          Regroup(output, line, Render(From(text, offset + bytesPerLine), bytesPerLine, stc.eol));
          output := output + line;
          offset := offset + bytesPerLine;
        }
        FromBeyond(text, offset);
        RenderNothing(bytesPerLine, stc.eol);
        Regroup(output, "", "");
      }
    }

    // ----- The buffer as a whole -------------------------------------------------

    method AppendText(text: string)
      requires bytesPerLine >= 1
      modifies this, stc
      ensures active == old(active)
      ensures !active ==> buffer == old(buffer) && bufferOriginal == old(bufferOriginal) && stc.text == old(stc.text)
      ensures active ==> buffer == old(buffer) + text && bufferOriginal == buffer
      ensures active ==> stc.text == old(stc.text) + Render(text, bytesPerLine, stc.eol)
      ensures active && old(Coherent()) ==> (Coherent() <==> old(buffer) == [] || text == [])
    {
      if active {
        AppendedViewIff(buffer, text, bytesPerLine, stc.eol);
        buffer := buffer + text;
        bufferOriginal := buffer;
        var lines := Lines(text);
        stc.AppendText(lines);
      }
    }

    /** Whatever the control showed, it now shows the text; the caret is put back. */
    method SetText(text: string)
      requires bytesPerLine >= 1
      modifies this, stc
      ensures active == old(active)
      ensures !active ==> buffer == old(buffer) && bufferOriginal == old(bufferOriginal) && stc.text == old(stc.text)
      ensures active ==> buffer == bufferOriginal == text && Coherent()
      ensures active ==> stc.caret == Clamp(old(stc.caret), |stc.text|)
    {
      if !active {
        return;
      }
      buffer, bufferOriginal := "", "";
      var saved := stc.caret;
      stc.ClearAll();
      AppendText(text);
      stc.SetCurrentPos(saved);
    }

    /** Switching hex mode on shows the text as bytes; switching it off shows the buffer as text. In a
        control that is not visual only the mode is switched. */
    method Set(on: bool, visual: bool) returns (changed: bool)
      requires bytesPerLine >= 1
      modifies this, stc
      ensures active == on && changed == (old(active) != on)
      ensures !changed || !visual ==> buffer == old(buffer) && stc.text == old(stc.text) && stc.caret == old(stc.caret)
      ensures changed && visual && on ==> buffer == bufferOriginal == old(stc.text) && Coherent()
      ensures changed && visual && on ==> stc.caret == Clamp(old(stc.caret), |stc.text|)
      ensures changed && visual && !on ==> buffer == old(buffer) && stc.text == buffer && stc.caret == 0
    {
      if active == on {
        return false;
      }
      active := on;
      if visual {
        if on {
          SetText(stc.text);
        } else {
          stc.ClearAll();
          stc.AppendText(buffer);
        }
      }
      return true;
    }

    method Sync() returns (ok: bool)
      requires bytesPerLine >= 1
      modifies this, stc
      ensures ok == active == old(active)
      ensures ok ==> buffer == old(buffer) && Coherent() && stc.caret == Clamp(old(stc.caret), |stc.text|)
      ensures !ok ==> buffer == old(buffer) && stc.text == old(stc.text) && stc.caret == old(stc.caret)
    {
      if !active {
        return false;
      }
      SetText(buffer);
      return true;
    }

    // ----- Edits at a position ---------------------------------------------------

    /** The line an edit works on: at a position, or at the caret. */
    function LineAt(pos: int): HexLine
      reads this, stc
    {
      if pos == -1 then AtCaret(stc.text, stc.caret, bytesPerLine) else AtPosition(stc.text, pos, bytesPerLine)
    }

    /** The byte an edit works on. */
    function Target(pos: int): Option<nat>
      reads this, stc
    {
      LineAt(pos).BufferIndex()
    }

    /** Deletes bytes from the one at a position on. */
    method Erase(count: nat, pos: int) returns (ok: bool)
      requires active && bytesPerLine >= 1
      modifies this, stc
      ensures active
      ensures match old(LineAt(pos)).BufferIndex()
              case None => !ok
              case Some(i) =>
                && (ok <==> i < |old(buffer)|)
                && (ok ==> |buffer| == if i + count < |old(buffer)| then |old(buffer)| - count else i)
                && (ok ==> forall k :: 0 <= k < |buffer| ==> buffer[k] == old(buffer)[if k < i then k else k + count])
                && (ok ==> buffer == Without(old(buffer), i, count))
      ensures ok ==> Coherent() && stc.caret == Clamp(old(stc.caret), |stc.text|)
      ensures !ok ==> buffer == old(buffer) && stc.text == old(stc.text) && stc.caret == old(stc.caret)
    {
      var ml := LineAt(pos);
      var index := ml.BufferIndex();
      if ml.IsReadonly() || index == None || index.value >= |buffer| {
        return false;
      }
      var i := index.value;
      var end := if i + count < |buffer| then i + count else |buffer|;
      buffer := buffer[..i] + buffer[end..];
      SetText(buffer);
      return true;
    }

    /** Inserts text before the byte at a position: as it is in the ASCII field, as one
        byte given by two hex digits in the hex field. */
    method Insert(text: string, pos: int) returns (done: Insertion)
      requires active && bytesPerLine >= 1
      modifies this, stc
      ensures active
      ensures done != Done ==> buffer == old(buffer) && stc.text == old(stc.text) && stc.caret == old(stc.caret)
      ensures done == Done ==> Coherent()
      ensures done == Done ==>
        stc.caret == CaretAfter(old(LineAt(pos)), |text|, Clamp(old(stc.caret), |stc.text|), stc.text)
      ensures var ml := old(LineAt(pos));
              match ml.BufferIndex()
              case None => done == Refused
              case Some(i) =>
                if ml.IsAsciiField() then
                  && (done == Done <==> i <= |old(buffer)|)
                  && (done == Done ==> buffer == old(buffer)[..i] + text + old(buffer)[i..])
                else
                  && (done == Refused <==> |text| != 2 || (!IsHexDigit(text[0]) && !IsHexDigit(text[1])))
                  && (done == Done <==> i <= |old(buffer)| && |text| == 2 && IsPair(text[0], text[1]))
                  && (done == Done ==>
                        buffer == old(buffer)[..i] + [ByteOf(ReadPair(text[0], text[1]).value)] + old(buffer)[i..])
    {
      var ml := LineAt(pos);
      var index := ml.BufferIndex();
      if ml.IsReadonly() || index == None {
        return Refused;
      }
      if ml.column >= ml.StartAscii() {
        done := InsertAscii(text, ml, index.value);
      } else {
        done := InsertHex(text, index.value);
      }
    }

    method InsertAscii(text: string, ml: HexLine, i: nat) returns (done: Insertion)
      requires active && bytesPerLine >= 1 && ml.IsAsciiField() && ml.bpl == bytesPerLine
      modifies this, stc
      ensures active && done != Refused && (done == Done <==> i <= |old(buffer)|)
      ensures done != Done ==> buffer == old(buffer) && stc.text == old(stc.text) && stc.caret == old(stc.caret)
      ensures done == Done ==> Coherent() && buffer == old(buffer)[..i] + text + old(buffer)[i..]
      ensures done == Done ==> stc.caret == CaretAfter(ml, |text|, Clamp(old(stc.caret), |stc.text|), stc.text)
    {
      hide Render, PositionFromLine, LineFromPosition;
      if i > |buffer| {
        return Threw;
      }
      buffer := buffer[..i] + text + buffer[i..];
      SetText(buffer);
      if ml.column + |text| >= bytesPerLine + ml.StartAscii() {
        var lineNo := LineFromPosition(stc.text, stc.caret) + 1;
        stc.SetCurrentPos(PositionFromLine(stc.text, lineNo) + ml.StartAscii());
      } else {
        stc.SetCurrentPos(stc.caret + |text|);
      }
      return Done;
    }

    method InsertHex(text: string, i: nat) returns (done: Insertion)
      requires active && bytesPerLine >= 1
      modifies this, stc
      ensures active
      ensures done == Refused <==> |text| != 2 || (!IsHexDigit(text[0]) && !IsHexDigit(text[1]))
      ensures done == Done <==> i <= |old(buffer)| && |text| == 2 && IsPair(text[0], text[1])
      ensures done != Done ==> buffer == old(buffer) && stc.text == old(stc.text) && stc.caret == old(stc.caret)
      ensures done == Done ==> Coherent() && stc.caret == Clamp(old(stc.caret), |stc.text|)
      ensures done == Done ==>
        buffer == old(buffer)[..i] + [ByteOf(ReadPair(text[0], text[1]).value)] + old(buffer)[i..]
    {
      hide Render;
      if |text| != 2 || (!IsHexDigit(text[0]) && !IsHexDigit(text[1])) {
        return Refused;
      }
      var code := ReadPair(text[0], text[1]);
      if code == None || i > |buffer| {
        return Threw;
      }
      buffer := buffer[..i] + [ByteOf(code.value)] + buffer[i..];
      SetText(buffer);
      return Done;
    }

    /** The rows the control shows, for proofs. */
    ghost function ShownRows(): (rows: seq<string>)
      requires bytesPerLine == BYTES_PER_LINE && Readable()
      reads this, stc
      ensures LikeRows(rows, Rows(buffer, BYTES_PER_LINE), BYTES_PER_LINE) && stc.text == JoinLines(rows, stc.eol)
      ensures Coherent() ==> rows == Rows(buffer, BYTES_PER_LINE)
    {
      if Coherent() then
        RenderShows(buffer, BYTES_PER_LINE, stc.eol);
        assert LikeRows(Rows(buffer, BYTES_PER_LINE), Rows(buffer, BYTES_PER_LINE), BYTES_PER_LINE);
        Rows(buffer, BYTES_PER_LINE)
      else
        var rows :|
          LikeRows(rows, Rows(buffer, BYTES_PER_LINE), BYTES_PER_LINE) && stc.text == JoinLines(rows, stc.eol);
        rows
    }

    /** Overwrites a character in either field, and patches the other field. */
    method Replace(c: char, pos: int) returns (ok: bool)
      requires active && bytesPerLine == BYTES_PER_LINE && Readable()
      requires Target(pos) == None || Target(pos).value < |buffer|
      modifies this`buffer, stc`text
      ensures ok <==> old(Target(pos)) != None && (old(LineAt(pos)).IsAsciiField() || IsHexDigit(c))
      ensures !ok ==> buffer == old(buffer) && stc.text == old(stc.text)
      ensures ok ==>
        buffer == old(buffer)[old(Target(pos)).value := Written(old(LineAt(pos)), c, old(buffer[Target(pos).value]))]
      ensures ok ==> (Readable() <==> StaysReadable(old(LineAt(pos)), c, old(buffer[Target(pos).value])))
      ensures ok && old(Coherent()) ==>
        (Coherent() <==> StaysRendered(old(LineAt(pos)), c, old(buffer[Target(pos).value])))
    {
      var ml := LineAt(pos);
      var index := ml.BufferIndex();
      if ml.IsReadonly() || index == None {
        return false;
      }
      if !ml.IsAsciiField() && !IsHexDigit(c) {
        return false;
      }
      ghost var rows := ShownRows();
      ghost var at := if pos == -1 then stc.caret else pos;
      ghost var field := LocateByte(rows, buffer, stc.eol, at, pos != -1, index.value);
      hide *;
      ReplaceAt(c, ml, index.value, rows, field);
      return true;
    }

    method ReplaceAt(c: char, ml: HexLine, i: nat, ghost rows: seq<string>, ghost field: Field)
      requires bytesPerLine == BYTES_PER_LINE && stc.text == JoinLines(rows, stc.eol)
      requires i < |buffer| && LikeRows(rows, Rows(buffer, BYTES_PER_LINE), BYTES_PER_LINE)
      requires RowOf(i, BYTES_PER_LINE) < |rows| && ml == LineOn(rows, stc.eol, i, field)
      requires ml.IsAsciiField() || IsHexDigit(c)
      modifies this`buffer, stc`text
      ensures buffer == old(buffer)[i := Written(ml, c, old(buffer[i]))]
      ensures Readable() <==> StaysReadable(ml, c, old(buffer[i]))
      ensures rows == Rows(old(buffer), BYTES_PER_LINE) ==>
                (Coherent() <==> StaysReadable(ml, c, old(buffer[i])) && (ml.IsAsciiField() || IsUpperHexDigit(c)))
    {
      hide Rows, RowOf, PlaceOf, RowStart, JoinLines, LikeRows, Shows, Render, PositionFromLine, High, Low, LineOn,
           IsHexDigit, IsUpperHexDigit, HexValue, Printable, HasByte, ShowsDigits;
      LineShowsByte(rows, buffer, stc.eol, i);
      FieldsOnLine(rows, stc.eol, i, field, buffer[i]);
      var start, other := PositionFromLine(stc.text, ml.lineNo), ml.OtherField().value;
      if ml.IsAsciiField() {
        ReplaceAscii(c, i, start, ml.column, other, rows);
      } else {
        var second := ml.line[ml.column + 1] == ' ';
        var b := if second then HexByte(ml.line[ml.column - 1], c) else HexByte(c, ml.line[ml.column]);
        ReplaceDigit(c, b, i, second, start, ml.column, other, rows);
      }
    }

    method ReplaceAscii(c: char, i: nat, start: nat, column: nat, other: nat, ghost rows: seq<string>)
      requires i < |buffer| && LikeRows(rows, Rows(buffer, BYTES_PER_LINE), BYTES_PER_LINE)
      requires bytesPerLine == BYTES_PER_LINE && stc.text == JoinLines(rows, stc.eol)
      requires HasByte(rows, i) && start == RowStart(rows, stc.eol, RowOf(i, BYTES_PER_LINE))
      requires column == 3 * BYTES_PER_LINE + PlaceOf(i, BYTES_PER_LINE) && other == 3 * PlaceOf(i, BYTES_PER_LINE)
      modifies this`buffer, stc`text
      ensures buffer == old(buffer)[i := c]
      ensures Readable() <==> Printable(c as int) == c
      ensures rows == Rows(old(buffer), BYTES_PER_LINE) ==> (Coherent() <==> Printable(c as int) == c)
    {
      hide Rows, RowOf, PlaceOf, RowStart, JoinLines, LikeRows, HasByte, Patch, EditedView, Shows, Render, High,
           Low, Printable;
      TypedAscii(rows, stc.eol, i, c, start, column, other);
      ViewAfterEdit(rows, buffer, stc.eol, i, c, High(c), Low(c), c);
      stc.Replace(start + column, start + column + 1, [c]);
      stc.Replace(start + other, start + other + 2, [High(c), Low(c)]);
      buffer := buffer[i := c];
    }

    method ReplaceDigit(c: char, b: char, i: nat, second: bool, start: nat, column: nat, other: nat,
            ghost rows: seq<string>)
      requires i < |buffer| && LikeRows(rows, Rows(buffer, BYTES_PER_LINE), BYTES_PER_LINE)
      requires bytesPerLine == BYTES_PER_LINE && stc.text == JoinLines(rows, stc.eol)
      requires HasByte(rows, i) && start == RowStart(rows, stc.eol, RowOf(i, BYTES_PER_LINE))
      requires column == 3 * PlaceOf(i, BYTES_PER_LINE) + if second then 1 else 0
      requires other == 3 * BYTES_PER_LINE + PlaceOf(i, BYTES_PER_LINE)
      requires ShowsDigits(rows[RowOf(i, BYTES_PER_LINE)], PlaceOf(i, BYTES_PER_LINE), buffer[i]) && IsHexDigit(c)
      requires b == if second then HexByte(High(buffer[i]), c) else HexByte(c, High(buffer[i]))
      modifies this`buffer, stc`text
      ensures buffer == old(buffer)[i := b]
      ensures Readable() <==> second || High(old(buffer)[i]) == Low(old(buffer)[i])
      ensures rows == Rows(old(buffer), BYTES_PER_LINE) ==>
                (Coherent() <==> (second || High(old(buffer)[i]) == Low(old(buffer)[i])) && IsUpperHexDigit(c))
    {
      hide Rows, RowOf, PlaceOf, RowStart, JoinLines, LikeRows, Patch, EditedView, Shows, Render, Printable,
           HexByte, HexValue, HexDigit, High, Low;
      ghost var row, j := rows[RowOf(i, BYTES_PER_LINE)], PlaceOf(i, BYTES_PER_LINE);
      if rows == Rows(buffer, BYTES_PER_LINE) {
        RowOfByte(buffer, BYTES_PER_LINE, i, Hex);
        RowOfByte(buffer, BYTES_PER_LINE, i, LowNibble);
      }
      ghost var high, low := if second then row[3 * j] else c, if second then c else row[3 * j + 1];
      DigitsOfTyped(row[3 * j], row[3 * j + 1], buffer[i], c, !second);
      TypedDigit(rows, stc.eol, i, second, c, Printable(b as int), start, other, column, high, low);
      ViewAfterEdit(rows, buffer, stc.eol, i, b, high, low, Printable(b as int));
      stc.Replace(start + column, start + column + 1, [c]);
      stc.Replace(start + other, start + other + 1, [Printable(b as int)]);
      buffer := buffer[i := b];
    }

    /** Overwrites the hex code of a byte, given as a number, and patches its ASCII character. */
    method ReplaceHex(value: int, pos: int)
      requires active && bytesPerLine == BYTES_PER_LINE && Readable() && LineAt(pos).IsHexField()
      requires Target(pos) == None || Target(pos).value < |buffer|
      modifies this`buffer, stc`text
      ensures old(Target(pos)) == None ==> buffer == old(buffer) && stc.text == old(stc.text)
      ensures old(Target(pos)) != None ==> buffer == old(buffer)[old(Target(pos)).value := ByteOf(value)]
      ensures old(Target(pos)) != None ==>
        (Readable() <==> StaysReadableHex(old(LineAt(pos)), value))
      ensures old(Target(pos)) != None && old(Coherent()) ==> (Coherent() <==> Readable())
    {
      var ml := LineAt(pos);
      var index := ml.BufferIndex();
      if ml.IsReadonly() || index == None {
        return;
      }
      ghost var rows := ShownRows();
      ghost var at := if pos == -1 then stc.caret else pos;
      ghost var field := LocateByte(rows, buffer, stc.eol, at, pos != -1, index.value);
      hide *;
      ReplaceHexAt(value, ml, index.value, rows, field);
    }

    method ReplaceHexAt(value: int, ml: HexLine, i: nat, ghost rows: seq<string>, ghost field: Field)
      requires bytesPerLine == BYTES_PER_LINE && stc.text == JoinLines(rows, stc.eol)
      requires i < |buffer| && LikeRows(rows, Rows(buffer, BYTES_PER_LINE), BYTES_PER_LINE)
      requires RowOf(i, BYTES_PER_LINE) < |rows| && field != Ascii && ml == LineOn(rows, stc.eol, i, field)
      modifies this`buffer, stc`text
      ensures buffer == old(buffer)[i := ByteOf(value)]
      ensures Readable() <==> ml.column % 3 == 0 && Printable(value) == Printable(ByteOf(value) as int)
      ensures rows == Rows(old(buffer), BYTES_PER_LINE) ==> (Coherent() <==> Readable())
    {
      var b := ByteOf(value);
      hide Rows, RowOf, PlaceOf, RowStart, JoinLines, LikeRows, Shows, Render, PositionFromLine, High, Low, LineOn,
           ByteOf, Printable, HasByte, ShowsDigits, EditedView, Patch;
      LineShowsByte(rows, buffer, stc.eol, i);
      FieldsOnLine(rows, stc.eol, i, field, buffer[i]);
      RenderShows(buffer[i := b], BYTES_PER_LINE, stc.eol);
      var start, other := PositionFromLine(stc.text, ml.lineNo), ml.OtherField().value;
      if ml.column % 3 == 0 {
        TypedCode(rows, stc.eol, i, High(b), Low(b), Printable(value), start, other, ml.column);
        ViewAfterEdit(rows, buffer, stc.eol, i, b, High(b), Low(b), Printable(value));
      } else {
        DigitsOfByte(b);
        MisplacedCode(rows, buffer, stc.eol, i, b, High(b), Low(b), Printable(value), start, other, ml.column);
      }
      stc.Replace(start + ml.column, start + ml.column + 2, [High(b), Low(b)]);
      stc.Replace(start + other, start + other + 1, [Printable(value)]);
      buffer := buffer[i := b];
    }

    // ----- Moving around ---------------------------------------------------------

    /** Going to a byte offset. */
    method Goto(offset: nat)
      requires active && bytesPerLine == BYTES_PER_LINE && Readable() && offset < |buffer|
      modifies stc`caret
      ensures RowOf(offset, BYTES_PER_LINE) <= |Rows(buffer, BYTES_PER_LINE)|
      ensures stc.caret == PositionOfByte(buffer, BYTES_PER_LINE, stc.eol, offset, Ascii)
    {
      ghost var rows := ShownRows();
      LikeIsShaped(rows, buffer);
      GotoLandsOnByte(rows, buffer, stc.eol, offset);
      hide Rows, RowOf, JoinLines, LikeRows, IsShaped, SplitLines, PositionFromLine, PositionOfByte;
      var lines := |SplitLines(stc.text)|;
      var lineNo := if offset / 16 < lines then offset / 16 else lines - 1;
      stc.SetCurrentPos(PositionFromLine(stc.text, lineNo) + 3 * bytesPerLine + offset % 16);
    }

    /** The right or left arrow key. */
    method SetPos(right: bool)
      requires active
      modifies stc`caret
      ensures stc.caret == Clamp(KeyMove(stc.text, old(stc.caret), right, bytesPerLine), |stc.text|)
    {
      var ml := AtCaret(stc.text, stc.caret, bytesPerLine);
      hide AtCaret, KeyMoveHex, KeyMoveAscii;
      if ml.IsHexField() {
        SetPosHex(ml, right);
      } else {
        SetPosAscii(ml, right);
      }
    }

    method SetPosHex(ml: HexLine, right: bool)
      requires ml.bpl == bytesPerLine
      modifies stc`caret
      ensures stc.caret == Clamp(KeyMoveHex(stc.text, ml, old(stc.caret), right), |stc.text|)
    {
      hide PositionFromLine;
      var start := PositionFromLine(stc.text, ml.lineNo);
      var pos := stc.caret;
      stc.SetCurrentPos(if right then pos + 3 else pos - 3);
      if stc.caret >= start + ml.StartAscii() {
        stc.SetCurrentPos(PositionFromLine(stc.text, ml.lineNo + 1));
      } else if stc.caret < start {
        if ml.lineNo > 0 {
          stc.SetCurrentPos(PositionFromLine(stc.text, ml.lineNo - 1) + ml.StartAscii() - 3);
        }
      }
    }

    method SetPosAscii(ml: HexLine, right: bool)
      requires ml.bpl == bytesPerLine
      modifies stc`caret
      ensures stc.caret == Clamp(KeyMoveAscii(stc.text, ml, old(stc.caret), right), |stc.text|)
    {
      hide PositionFromLine, GetLineEndPosition;
      var start := PositionFromLine(stc.text, ml.lineNo);
      var pos := stc.caret;
      stc.SetCurrentPos(if right then pos + 1 else pos - 1);
      if stc.caret >= start + ml.StartAscii() + bytesPerLine {
        stc.SetCurrentPos(PositionFromLine(stc.text, ml.lineNo + 1) + ml.StartAscii());
      } else if stc.caret < start + ml.StartAscii() {
        if ml.lineNo > 0 {
          stc.SetCurrentPos(GetLineEndPosition(stc.text, ml.lineNo - 1) - 1);
        }
      }
    }

    // ----- Runs of edits ---------------------------------------------------------

    /** One edit, made through the control at the position of its byte. */
    method Perform(edit: Edit)
      requires active && bytesPerLine == BYTES_PER_LINE && Readable() && Allowed(edit, buffer)
      modifies this, stc
      ensures active && Readable() && buffer == Apply(edit, old(buffer))
      ensures old(Coherent()) && Uppercase(edit) ==> Coherent()
    {
      if edit.Type? {
        PerformType(edit);
      } else if edit.SetCode? {
        PerformSetCode(edit);
      } else {
        PerformAnew(edit);
        RenderShows(buffer, BYTES_PER_LINE, stc.eol);
      }
    }

    method PerformAnew(edit: Edit)
      requires active && bytesPerLine == BYTES_PER_LINE && Readable() && Allowed(edit, buffer)
      requires !edit.Type? && !edit.SetCode?
      modifies this, stc
      ensures active && Coherent() && buffer == Apply(edit, old(buffer))
    {
      ghost var rows := ShownRows();
      hide LikeRows, Rows, RowOf, PlaceOf, JoinLines, AtPosition, LineOn, Shows, Render, Printable, High, Low,
           RowStart, HexByte;
      match edit
      case Rewrite(text) =>
        SetText(text);
      case Delete(k, count) =>
        ByteOnRows(rows, buffer, stc.eol, k, Hex);
        var _ := Erase(count, PositionOfByte(buffer, BYTES_PER_LINE, stc.eol, k, Hex));
      case InsertText(k, text) =>
        PerformInsertText(k, text);
      case InsertCode(k, high, low) =>
        PerformInsertCode(k, high, low);
    }

    method PerformInsertText(k: nat, text: string)
      requires active && bytesPerLine == BYTES_PER_LINE && Readable() && k <= |buffer| && buffer != []
      modifies this, stc
      ensures active && Coherent() && buffer == old(buffer)[..k] + text + old(buffer)[k..]
    {
      ghost var rows := ShownRows();
      hide LikeRows, Rows, RowOf, PlaceOf, JoinLines, AtPosition, LineOn, Shows, Render, Printable, RowStart,
           CaretAfter;
      if k == |buffer| {
        EndOnRows(rows, buffer, stc.eol);
        var _ := Insert(text, |stc.text|);
      } else {
        ByteOnRows(rows, buffer, stc.eol, k, Ascii);
        FieldOfLine(rows, k, Ascii);
        var _ := Insert(text, PositionOfByte(buffer, BYTES_PER_LINE, stc.eol, k, Ascii));
      }
    }

    method PerformInsertCode(k: nat, high: char, low: char)
      requires active && bytesPerLine == BYTES_PER_LINE && Readable()
      requires (k < |buffer| || k == |buffer| == 0) && IsPair(high, low)
      modifies this, stc
      ensures active && Coherent()
      ensures buffer == old(buffer)[..k] + [ByteOf(ReadPair(high, low).value)] + old(buffer)[k..]
    {
      hide Shows, Render, IsPair, ReadPair, ByteOf;
      if buffer == [] {
        PerformInsertFirst(high, low);
      } else {
        PerformInsertBefore(k, high, low);
      }
    }

    method PerformInsertFirst(high: char, low: char)
      requires active && bytesPerLine == BYTES_PER_LINE && Readable() && buffer == [] && IsPair(high, low)
      modifies this, stc
      ensures active && Coherent() && buffer == [ByteOf(ReadPair(high, low).value)]
    {
      EmptyView(stc.text, stc.eol);
      assert LineAt(0).BufferIndex() == Some(0) && !LineAt(0).IsAsciiField();
      hide *;
      var _ := Insert([high, low], 0);
    }

    method PerformInsertBefore(k: nat, high: char, low: char)
      requires active && bytesPerLine == BYTES_PER_LINE && Readable() && k < |buffer| && IsPair(high, low)
      modifies this, stc
      ensures active && Coherent()
      ensures buffer == old(buffer)[..k] + [ByteOf(ReadPair(high, low).value)] + old(buffer)[k..]
    {
      ghost var rows := ShownRows();
      ByteOnRows(rows, buffer, stc.eol, k, Hex);
      FieldOfLine(rows, k, Hex);
      hide LikeRows, Rows, RowOf, PlaceOf, JoinLines, AtPosition, LineOn, Shows, Render, HexValue, HexByte, RowStart,
           ReadPair, ByteOf;
      var _ := Insert([high, low], PositionOfByte(buffer, BYTES_PER_LINE, stc.eol, k, Hex));
    }

    method PerformType(edit: Edit)
      requires active && bytesPerLine == BYTES_PER_LINE && Readable() && Allowed(edit, buffer) && edit.Type?
      modifies this, stc
      ensures active && Readable() && buffer == Apply(edit, old(buffer))
      ensures old(Coherent()) && Uppercase(edit) ==> Coherent()
    {
      ghost var rows := ShownRows();
      var k, field, c := edit.k, edit.field, edit.c;
      assert field == Ascii ==> Printable(c as int) == c;
      hide LikeRows, Rows, RowOf, PlaceOf, JoinLines, AtPosition, LineOn, Shows, Render, Printable, High, Low,
           RowStart, HexByte;
      ByteOnRows(rows, buffer, stc.eol, k, field);
      FieldOfLine(rows, k, field);
      var _ := Replace(c, PositionOfByte(buffer, BYTES_PER_LINE, stc.eol, k, field));
    }

    method PerformSetCode(edit: Edit)
      requires active && bytesPerLine == BYTES_PER_LINE && Readable() && Allowed(edit, buffer) && edit.SetCode?
      modifies this, stc
      ensures active && Readable() && buffer == Apply(edit, old(buffer))
      ensures old(Coherent()) ==> Coherent()
    {
      ghost var rows := ShownRows();
      assert ByteOf(edit.value) == edit.value as char;
      hide LikeRows, Rows, RowOf, PlaceOf, JoinLines, AtPosition, LineOn, Shows, Render, Printable, High, Low,
           RowStart, HexByte,
           ByteOf, PositionOfByte, AtCaret, IsEol;
      ByteOnRows(rows, buffer, stc.eol, edit.k, Hex);
      FieldOfLine(rows, edit.k, Hex);
      ReplaceHex(edit.value, PositionOfByte(buffer, BYTES_PER_LINE, stc.eol, edit.k, Hex));
    }

    lemma FieldOfLine(rows: seq<string>, k: nat, field: Field)
      requires IsEol(stc.eol) && k < |buffer| && LikeRows(rows, Rows(buffer, BYTES_PER_LINE), BYTES_PER_LINE)
      ensures RowOf(k, BYTES_PER_LINE) < |rows|
      ensures LineOn(rows, stc.eol, k, field).IsAsciiField() <==> field == Ascii
      ensures LineOn(rows, stc.eol, k, field).IsHexField() <==> field != Ascii
      ensures field == Hex ==> LineOn(rows, stc.eol, k, field).column % 3 == 0
      ensures field == LowNibble ==> LineOn(rows, stc.eol, k, field).column % 3 == 1
    {
      hide Rows, RowOf, PlaceOf, RowLine, RowStart, JoinLines, LikeRows, AtPosition, IsEol;
      ByteOnRows(rows, buffer, stc.eol, k, field);
    }

    /** Any run of edits made through the control leaves the buffer that the same edits of
        plain bytes give, and a view that shows it: exactly the rendered one as long as
        hex digits are typed in upper case. */
    method Run(edits: seq<Edit>)
      requires active && bytesPerLine == BYTES_PER_LINE && Readable() && AllAllowed(edits, buffer)
      modifies this, stc
      ensures active && Readable() && buffer == ApplyAll(edits, old(buffer))
      ensures old(Coherent()) && (forall i :: 0 <= i < |edits| ==> Uppercase(edits[i])) ==> Coherent()
    {
      var i := 0;
      while i < |edits|
        invariant 0 <= i <= |edits| && active && Readable() && AllAllowed(edits[i..], buffer)
        invariant ApplyAll(edits[i..], buffer) == ApplyAll(edits, old(buffer))
        invariant old(Coherent()) && (forall j :: 0 <= j < |edits| ==> Uppercase(edits[j])) ==> Coherent()
      {
        hide Allowed, Apply, Uppercase, Shows, Render;
        assert edits[i..][1..] == edits[i + 1..];
        Perform(edits[i]);
        i := i + 1;
      }
    }

    /** What was inserted is deleted again: the buffer is what it was, and the view its rendering. */
    method InsertAndErase(insert: Edit)
      requires active && bytesPerLine == BYTES_PER_LINE && Readable() && Allowed(insert, buffer)
      requires (insert.InsertText? && insert.text != []) || insert.InsertCode?
      modifies this, stc
      ensures active && buffer == old(buffer) && Readable()
      ensures old(Coherent()) ==> stc.text == old(stc.text)
    {
      hide Shows, Render, Allowed, Apply, ApplyAll, AllAllowed;
      InAndOutIsNothing(insert, buffer);
      Run(InAndOut(insert));
    }
  }
}
