/** The rendered hex view: per line the hex codes of up to bpl bytes, blanks up to the
    ASCII column, then the bytes themselves with everything unprintable masked. */
module HexRender {
  import opened Strings
  import opened TextControl

  const MASK := '.'

  function HexDigit(n: nat): (c: char)
    requires n < 16
    ensures IsUpperHexDigit(c) && HexValue(c) == n
  {
    if n < 10 then ('0' as int + n) as char else ('A' as int + n - 10) as char
  }

  function High(b: char): char { HexDigit(b as int / 16 % 16) }

  function Low(b: char): char { HexDigit(b as int % 16) }

  predicate IsUpperHexDigit(c: char) {
    '0' <= c <= '9' || 'A' <= c <= 'F'
  }

  predicate IsHexDigit(c: char) {
    IsUpperHexDigit(c) || 'a' <= c <= 'f'
  }

  function HexValue(c: char): (n: nat)
    requires IsHexDigit(c)
    ensures n < 16
  {
    if c <= '9' then c as int - '0' as int
    else if c <= 'F' then c as int - 'A' as int + 10
    else c as int - 'a' as int + 10
  }

  function HexByte(high: char, low: char): char
    requires IsHexDigit(high) && IsHexDigit(low)
  {
    (16 * HexValue(high) + HexValue(low)) as char
  }

  /** The argument is the unsigned code, so a negative or large value is not ASCII. */
  function Printable(code: int): (c: char)
    ensures !IsBreak(c)
  {
    if 32 <= code < 127 then code as char else MASK
  }

  /** A field of two digits and a blank for every byte: three columns each. */
  function HexFields(chunk: string): (s: string)
    ensures |s| == 3 * |chunk|
  {
    if chunk == [] then []
    else [High(chunk[0]), Low(chunk[0]), ' '] + HexFields(chunk[1..])
  }

  function AsciiField(chunk: string): (s: string)
    ensures |s| == |chunk|
  {
    if chunk == [] then [] else [Printable(chunk[0] as int)] + AsciiField(chunk[1..])
  }

  function Row(chunk: string, bpl: nat): (row: string)
    ensures |chunk| <= bpl ==> |row| == 3 * bpl + |chunk|
  {
    HexFields(chunk) + Padding(chunk, bpl) + AsciiField(chunk)
  }

  /** Blanks for the bytes a short last line lacks. */
  function Padding(chunk: string, bpl: nat): string {
    Repeat(' ', if |chunk| < bpl then 3 * (bpl - |chunk|) else 0)
  }

  /** The bytes line by line. */
  function Chunks(buffer: string, bpl: nat): (chunks: seq<string>)
    requires bpl >= 1
    ensures chunks == [] <==> buffer == []
  {
    if buffer == [] then []
    else if |buffer| <= bpl then [buffer]
    else [buffer[..bpl]] + Chunks(buffer[bpl..], bpl)
  }

  function RowsOf(chunks: seq<string>, bpl: nat): (rows: seq<string>)
    ensures |rows| == |chunks|
  {
    if chunks == [] then [] else [Row(chunks[0], bpl)] + RowsOf(chunks[1..], bpl)
  }

  function Rows(buffer: string, bpl: nat): seq<string>
    requires bpl >= 1
  {
    RowsOf(Chunks(buffer, bpl), bpl)
  }

  /** The whole view of a buffer. */
  function Render(buffer: string, bpl: nat, eol: string): string
    requires bpl >= 1
  {
    JoinLines(Rows(buffer, bpl), eol)
  }

  // ----- No line end inside a row ------------------------------------------------

  lemma {:induction false} FieldsBreakFree(chunk: string, n: nat)
    ensures BreakFree(HexFields(chunk)) && BreakFree(AsciiField(chunk)) && BreakFree(Repeat(' ', n))
  {
    if chunk != [] {
      FieldsBreakFree(chunk[1..], n);
    }
  }

  predicate NonEmptyChunks(chunks: seq<string>) {
    forall r :: 0 <= r < |chunks| ==> chunks[r] != []
  }

  lemma {:induction false} ChunksNonEmpty(buffer: string, bpl: nat)
    requires bpl >= 1
    ensures NonEmptyChunks(Chunks(buffer, bpl))
  {
    if |buffer| > bpl {
      ChunksNonEmpty(buffer[bpl..], bpl);
    }
  }

  lemma {:induction false} RowBreakFree(chunk: string, bpl: nat)
    requires chunk != []
    ensures BreakFree(Row(chunk, bpl)) && Row(chunk, bpl) != []
  {
    FieldsBreakFree(chunk, if |chunk| < bpl then 3 * (bpl - |chunk|) else 0);
  }

  lemma {:induction false} RowsOfJoinable(chunks: seq<string>, bpl: nat)
    requires chunks != [] && NonEmptyChunks(chunks)
    ensures Joinable(RowsOf(chunks, bpl))
  {
    hide HexFields, AsciiField, Row, BreakFree;
    RowBreakFree(chunks[0], bpl);
    if |chunks| > 1 {
      RowsOfJoinable(chunks[1..], bpl);
    }
  }

  lemma RowsJoinable(buffer: string, bpl: nat)
    requires bpl >= 1 && buffer != []
    ensures Joinable(Rows(buffer, bpl))
  {
    ChunksNonEmpty(buffer, bpl);
    RowsOfJoinable(Chunks(buffer, bpl), bpl);
  }

  // ----- Reading a view back -----------------------------------------------------

  /** The bytes of the first n hex fields of a line, up to a blank one. */
  function DecodeFields(line: string, n: nat): string {
    if n > 0 && |line| >= 3 && IsHexDigit(line[0]) && IsHexDigit(line[1]) then
      [HexByte(line[0], line[1])] + DecodeFields(line[3..], n - 1)
    else []
  }

  function DecodeLines(lines: seq<string>, bpl: nat): string {
    if lines == [] then [] else DecodeFields(lines[0], bpl) + DecodeLines(lines[1..], bpl)
  }

  /** Splits a view at its line ends and reads the bytes back from the hex fields. */
  function Decode(text: string, bpl: nat): string {
    DecodeLines(SplitLines(text), bpl)
  }

  lemma HexByteOfDigits(b: char)
    requires b as int < 256
    ensures HexByte(High(b), Low(b)) == b
  {
  }

  lemma {:induction false} DecodeRow(chunk: string, n: nat, rest: string)
    requires IsByteString(chunk) && |chunk| <= n
    requires n == |chunk| || (rest != [] && rest[0] == ' ')
    ensures DecodeFields(HexFields(chunk) + rest, n) == chunk
  {
    var line := HexFields(chunk) + rest;
    if chunk != [] {
      assert line[3..] == HexFields(chunk[1..]) + rest;
      HexByteOfDigits(chunk[0]);
      DecodeRow(chunk[1..], n - 1, rest);
    }
  }

  lemma DecodeFirstLine(chunk: string, bpl: nat, end: string)
    requires IsByteString(chunk) && |chunk| <= bpl
    ensures DecodeFields(Row(chunk, bpl) + end, bpl) == chunk
  {
    var after := Padding(chunk, bpl) + AsciiField(chunk) + end;
    assert Row(chunk, bpl) + end == HexFields(chunk) + after;
    DecodeRow(chunk, bpl, after);
  }

  function Concat(chunks: seq<string>): string {
    if chunks == [] then [] else chunks[0] + Concat(chunks[1..])
  }

  predicate ByteChunks(chunks: seq<string>, bpl: nat) {
    forall r :: 0 <= r < |chunks| ==> IsByteString(chunks[r]) && |chunks[r]| <= bpl
  }

  lemma {:induction false} ConcatChunks(buffer: string, bpl: nat)
    requires bpl >= 1
    ensures Concat(Chunks(buffer, bpl)) == buffer
  {
    if |buffer| > bpl {
      ConcatChunks(buffer[bpl..], bpl);
    } else if buffer != [] {
      assert Concat([buffer]) == buffer;
    }
  }

  lemma {:induction false} ChunksOfBytes(buffer: string, bpl: nat)
    requires bpl >= 1 && IsByteString(buffer)
    ensures ByteChunks(Chunks(buffer, bpl), bpl)
  {
    if |buffer| > bpl {
      ChunksOfBytes(buffer[bpl..], bpl);
    }
  }

  lemma {:induction false} DecodeRows(chunks: seq<string>, bpl: nat, eol: string)
    requires ByteChunks(chunks, bpl)
    ensures DecodeLines(RowLines(RowsOf(chunks, bpl), eol), bpl) == Concat(chunks)
  {
    if chunks != [] {
      var rows, rest := RowsOf(chunks, bpl), chunks[1..];
      var end := if rest == [] then [] else eol;
      DecodeFirstLine(chunks[0], bpl, end);
      assert RowLine(rows, eol, 0) == Row(chunks[0], bpl) + end;
      RowLinesTail(rows, eol);
      DecodeRows(rest, bpl, eol);
    }
  }

  /** Rendering loses nothing: cutting the view at its line ends and reading the hex
      fields gives the buffer back, whatever the bytes, the width and the line ends. */
  lemma DecodeRender(buffer: string, bpl: nat, eol: string)
    requires IsByteString(buffer) && bpl >= 1 && IsEol(eol)
    ensures Decode(Render(buffer, bpl, eol), bpl) == buffer
  {
    if buffer == [] {
      assert DecodeLines([[]], bpl) == DecodeFields([], bpl) + DecodeLines([], bpl);
    } else {
      RowsJoinable(buffer, bpl);
      SplitJoin(Rows(buffer, bpl), eol);
      ConcatChunks(buffer, bpl);
      ChunksOfBytes(buffer, bpl);
      DecodeRows(Chunks(buffer, bpl), bpl, eol);
    }
  }

  /** So two buffers with the same view are the same. */
  lemma RenderInjective(a: string, b: string, bpl: nat, eol: string)
    requires IsByteString(a) && IsByteString(b) && bpl >= 1 && IsEol(eol)
    requires Render(a, bpl, eol) == Render(b, bpl, eol)
    ensures a == b
  {
    DecodeRender(a, bpl, eol);
    DecodeRender(b, bpl, eol);
  }

  // ----- Rows and bytes ----------------------------------------------------------

  /** The row of byte k, and its place in that row. */
  function RowOf(k: nat, bpl: nat): nat
    requires bpl >= 1
  {
    if k < bpl then 0 else 1 + RowOf(k - bpl, bpl)
  }

  function PlaceOf(k: nat, bpl: nat): (j: nat)
    requires bpl >= 1
    ensures j < bpl
  {
    if k < bpl then k else PlaceOf(k - bpl, bpl)
  }

  lemma {:induction false} PlaceBySixteen(k: nat)
    ensures RowOf(k, 16) == k / 16 && PlaceOf(k, 16) == k % 16
  {
    if k >= 16 {
      PlaceBySixteen(k - 16);
    }
  }

  /** The line of byte k holds it at its place. */
  lemma {:induction false} ChunkOfByte(buffer: string, bpl: nat, k: nat)
    requires bpl >= 1 && k < |buffer|
    ensures RowOf(k, bpl) < |Chunks(buffer, bpl)|
    ensures PlaceOf(k, bpl) < |Chunks(buffer, bpl)[RowOf(k, bpl)]| <= bpl
    ensures Chunks(buffer, bpl)[RowOf(k, bpl)][PlaceOf(k, bpl)] == buffer[k]
    decreases k
  {
    if k >= bpl {
      ChunkOfByte(buffer[bpl..], bpl, k - bpl);
    }
  }

  /** Changing one byte changes one line. */
  lemma {:induction false} ChunksOfChanged(buffer: string, bpl: nat, k: nat, b: char)
    requires bpl >= 1 && k < |buffer|
    requires RowOf(k, bpl) < |Chunks(buffer, bpl)| && PlaceOf(k, bpl) < |Chunks(buffer, bpl)[RowOf(k, bpl)]|
    ensures Chunks(buffer[k := b], bpl)
         == Chunks(buffer, bpl)[RowOf(k, bpl) := Chunks(buffer, bpl)[RowOf(k, bpl)][PlaceOf(k, bpl) := b]]
    decreases k
  {
    if |buffer| > bpl {
      if k < bpl {
        assert buffer[k := b][..bpl] == buffer[..bpl][k := b];
        assert buffer[k := b][bpl..] == buffer[bpl..];
      } else {
        assert buffer[k := b][..bpl] == buffer[..bpl];
        assert buffer[k := b][bpl..] == buffer[bpl..][k - bpl := b];
        ChunksOfChanged(buffer[bpl..], bpl, k - bpl, b);
      }
    }
  }

  lemma {:induction false} RowsOfAt(chunks: seq<string>, bpl: nat, r: nat)
    requires r < |chunks|
    ensures RowsOf(chunks, bpl)[r] == Row(chunks[r], bpl)
  {
    if r > 0 {
      RowsOfAt(chunks[1..], bpl, r - 1);
    }
  }

  lemma RowsOfChanged(chunks: seq<string>, bpl: nat, r: nat, chunk: string)
    requires r < |chunks|
    ensures RowsOf(chunks[r := chunk], bpl) == RowsOf(chunks, bpl)[r := Row(chunk, bpl)]
  {
    var chunks' := chunks[r := chunk];
    forall q | 0 <= q < |chunks|
      ensures RowsOf(chunks', bpl)[q] == RowsOf(chunks, bpl)[r := Row(chunk, bpl)][q]
    {
      RowsOfAt(chunks', bpl, q);
      RowsOfAt(chunks, bpl, q);
    }
  }

  lemma {:induction false} FieldsAt(chunk: string, j: nat)
    requires j < |chunk|
    ensures HexFields(chunk)[3 * j] == High(chunk[j])
    ensures HexFields(chunk)[3 * j + 1] == Low(chunk[j])
    ensures HexFields(chunk)[3 * j + 2] == ' '
    ensures AsciiField(chunk)[j] == Printable(chunk[j] as int)
  {
    if j > 0 {
      FieldsAt(chunk[1..], j - 1);
    }
  }

  /** What a row shows at the columns of its byte j. */
  lemma RowAt(chunk: string, bpl: nat, j: nat)
    requires j < |chunk| <= bpl
    ensures Row(chunk, bpl)[3 * j] == High(chunk[j])
    ensures Row(chunk, bpl)[3 * j + 1] == Low(chunk[j])
    ensures Row(chunk, bpl)[3 * j + 2] == ' '
    ensures Row(chunk, bpl)[3 * bpl + j] == Printable(chunk[j] as int)
  {
    FieldsAt(chunk, j);
  }

  const DIGITS := "0123456789ABCDEF"

  lemma DigitIs(n: nat)
    requires n < 16
    ensures HexDigit(n) == DIGITS[n] && HexValue(DIGITS[n]) == n
    ensures IsHexDigit("abcdef"[n % 6]) && HexValue("abcdef"[n % 6]) == 10 + n % 6
  {
  }

  /** Every column of a line: two digits and a blank for each byte, blanks for the bytes a short line lacks,
      then each byte, or a dot for one that is no printable ASCII character. */
  lemma RowIs(chunk: string, bpl: nat, c: nat)
    requires |chunk| <= bpl && c < 3 * bpl + |chunk|
    ensures |Row(chunk, bpl)| == 3 * bpl + |chunk|
    ensures Row(chunk, bpl)[c] ==
      if c < 3 * |chunk| then
        var b := chunk[c / 3] as int;
        if c % 3 == 0 then DIGITS[b / 16 % 16] else if c % 3 == 1 then DIGITS[b % 16] else ' '
      else if c < 3 * bpl then ' '
      else if 32 <= chunk[c - 3 * bpl] as int < 127 then chunk[c - 3 * bpl]
      else '.'
  {
    hide HexFields, AsciiField, HexDigit;
    if c < 3 * |chunk| {
      FieldsAt(chunk, c / 3);
      DigitIs(chunk[c / 3] as int / 16 % 16);
      DigitIs(chunk[c / 3] as int % 16);
      assert c == 3 * (c / 3) + c % 3;
    } else if c >= 3 * bpl {
      FieldsAt(chunk, c - 3 * bpl);
    }
  }

  lemma {:induction false} PlaceIs(k: nat, bpl: nat)
    requires bpl >= 1
    ensures RowOf(k, bpl) * bpl + PlaceOf(k, bpl) == k
  {
    if k >= bpl {
      PlaceIs(k - bpl, bpl);
      assert RowOf(k, bpl) * bpl == RowOf(k - bpl, bpl) * bpl + bpl;
    }
  }

  /** Byte k of a buffer is shown in line k / bpl, by the columns of its place in that line. */
  lemma ByteInView(buffer: string, bpl: nat, k: nat, r: nat, j: nat)
    requires bpl >= 1 && k < |buffer| && k == r * bpl + j && j < bpl
    ensures r < |Rows(buffer, bpl)| && |Rows(buffer, bpl)[r]| > 3 * bpl + j
    ensures Rows(buffer, bpl)[r][3 * j] == DIGITS[buffer[k] as int / 16 % 16]
    ensures Rows(buffer, bpl)[r][3 * j + 1] == DIGITS[buffer[k] as int % 16]
    ensures Rows(buffer, bpl)[r][3 * j + 2] == ' '
    ensures Rows(buffer, bpl)[r][3 * bpl + j] == if 32 <= buffer[k] as int < 127 then buffer[k] else '.'
  {
    hide Row, Chunks, RowsOf, RowOf, PlaceOf, HexDigit;
    PlaceIs(k, bpl);
    OnePlace(r, j, RowOf(k, bpl), PlaceOf(k, bpl), bpl);
    ChunkOfByte(buffer, bpl, k);
    var chunk := Chunks(buffer, bpl)[r];
    RowsOfAt(Chunks(buffer, bpl), bpl, r);
    RowIs(chunk, bpl, 3 * j);
    RowIs(chunk, bpl, 3 * j + 1);
    RowIs(chunk, bpl, 3 * j + 2);
    RowIs(chunk, bpl, 3 * bpl + j);
  }

  lemma OnePlace(r: nat, j: nat, r': nat, j': nat, bpl: nat)
    requires j < bpl && j' < bpl
    ensures r * bpl + j == r' * bpl + j' ==> r == r' && j == j'
  {
    if r < r' {
      LaterStart(r, r', bpl);
    } else if r' < r {
      LaterStart(r', r, bpl);
    }
  }

  lemma {:induction false} LaterStart(r: nat, r': nat, bpl: nat)
    requires r < r'
    ensures r' * bpl >= r * bpl + bpl
    decreases r'
  {
    assert r' * bpl == (r' - 1) * bpl + bpl;
    if r < r' - 1 {
      LaterStart(r, r' - 1, bpl);
    }
  }

  lemma {:induction false} HexFieldsOfChanged(chunk: string, j: nat, b: char)
    requires j < |chunk|
    ensures HexFields(chunk[j := b]) == HexFields(chunk)[3 * j := High(b)][3 * j + 1 := Low(b)]
    ensures AsciiField(chunk[j := b]) == AsciiField(chunk)[j := Printable(b as int)]
  {
    var chunk' := chunk[j := b];
    if j == 0 {
      assert chunk'[1..] == chunk[1..];
    } else {
      assert chunk'[1..] == chunk[1..][j - 1 := b];
      HexFieldsOfChanged(chunk[1..], j - 1, b);
      var head, rest := [High(chunk[0]), Low(chunk[0]), ' '], HexFields(chunk[1..]);
      PutRight(head, rest, 3 * (j - 1), High(b));
      PutRight(head, rest[3 * (j - 1) := High(b)], 3 * (j - 1) + 1, Low(b));
      PutRight([Printable(chunk[0] as int)], AsciiField(chunk[1..]), j - 1, Printable(b as int));
    }
  }

  /** The two digits and the ASCII character of byte j overwritten. */
  function PatchRow(row: string, bpl: nat, j: nat, b: char): string
    requires j < bpl && |row| > 3 * bpl + j
  {
    row[3 * j := High(b)][3 * j + 1 := Low(b)][3 * bpl + j := Printable(b as int)]
  }

  lemma RowOfChangedChunk(chunk: string, bpl: nat, j: nat, b: char)
    requires j < |chunk| <= bpl
    ensures Row(chunk[j := b], bpl) == PatchRow(Row(chunk, bpl), bpl, j, b)
  {
    HexFieldsOfChanged(chunk, j, b);
    var hex, rest := HexFields(chunk), Padding(chunk, bpl) + AsciiField(chunk);
    assert Row(chunk, bpl) == hex + rest;
    PutLeft(hex, rest, 3 * j, High(b));
    var hex' := hex[3 * j := High(b)];
    PutLeft(hex', rest, 3 * j + 1, Low(b));
    var left := HexFields(chunk[j := b]) + Padding(chunk, bpl);
    assert hex'[3 * j + 1 := Low(b)] + rest == left + AsciiField(chunk);
    PutRight(left, AsciiField(chunk), j, Printable(b as int));
  }

  /** The first line of the view of a buffer, with the line end that separates it from the next. */
  function ViewLine(buffer: string, bpl: nat, eol: string): string {
    if |buffer| > bpl then Row(buffer[..bpl], bpl) + eol else Row(buffer, bpl)
  }

  function Rest(buffer: string, bpl: nat): string {
    if |buffer| > bpl then buffer[bpl..] else []
  }

  /** A view is its first line and the view of the bytes after it. */
  lemma RenderFirst(buffer: string, bpl: nat, eol: string)
    requires bpl >= 1 && buffer != []
    ensures Render(buffer, bpl, eol) == ViewLine(buffer, bpl, eol) + Render(Rest(buffer, bpl), bpl, eol)
  {
  }

  lemma RenderNothing(bpl: nat, eol: string)
    requires bpl >= 1
    ensures Render([], bpl, eol) == []
  {
  }

  lemma NoFields()
    ensures HexFields([]) == [] && AsciiField([]) == []
  {
  }

  lemma {:induction false} FieldsOfLonger(chunk: string, b: char)
    ensures HexFields(chunk + [b]) == HexFields(chunk) + [High(b), Low(b), ' ']
    ensures AsciiField(chunk + [b]) == AsciiField(chunk) + [Printable(b as int)]
  {
    if chunk == [] {
      assert HexFields([b]) == [High(b), Low(b), ' '] + HexFields([]);
      assert AsciiField([b]) == [Printable(b as int)] + AsciiField([]);
    } else {
      assert (chunk + [b])[1..] == chunk[1..] + [b];
      FieldsOfLonger(chunk[1..], b);
    }
  }

  // ----- Two views side by side --------------------------------------------------

  /** The rows of two texts put together: the last row of a runs into the first of b. */
  function Merge(a: seq<string>, b: seq<string>): (rows: seq<string>)
    requires a != [] && b != []
    ensures |rows| == |a| + |b| - 1 && rows[|a| - 1] == a[|a| - 1] + b[0]
  {
    if |a| == 1 then [a[0] + b[0]] + b[1..] else [a[0]] + Merge(a[1..], b)
  }

  lemma {:induction false} MergeJoins(a: seq<string>, b: seq<string>, eol: string)
    requires a != [] && b != []
    ensures JoinLines(a, eol) + JoinLines(b, eol) == JoinLines(Merge(a, b), eol)
  {
    if |a| == 1 {
      if |b| > 1 {
        assert a[0] + (b[0] + eol + JoinLines(b[1..], eol)) == (a[0] + b[0]) + eol + JoinLines(b[1..], eol);
      }
    } else {
      MergeJoins(a[1..], b, eol);
      assert a[0] + eol + JoinLines(a[1..], eol) + JoinLines(b, eol)
          == a[0] + eol + (JoinLines(a[1..], eol) + JoinLines(b, eol));
    }
  }

  lemma {:induction false} MergeJoinable(a: seq<string>, b: seq<string>)
    requires Joinable(a) && Joinable(b)
    ensures Joinable(Merge(a, b))
  {
    if |a| > 1 {
      MergeJoinable(a[1..], b);
    }
  }

  lemma RowWidth(buffer: string, bpl: nat, r: nat)
    requires bpl >= 1 && r < |Rows(buffer, bpl)|
    ensures 3 * bpl < |Rows(buffer, bpl)[r]| <= 3 * bpl + bpl
  {
    ChunksNonEmpty(buffer, bpl);
    RowsOfAt(Chunks(buffer, bpl), bpl, r);
    ChunkWidth(buffer, bpl, r);
  }

  lemma {:induction false} ChunkWidth(buffer: string, bpl: nat, r: nat)
    requires bpl >= 1 && r < |Chunks(buffer, bpl)|
    ensures |Chunks(buffer, bpl)[r]| <= bpl
    decreases r
  {
    if r > 0 {
      ChunkWidth(buffer[bpl..], bpl, r - 1);
    }
  }

  /** Texts of break-free rows are equal only row by row. */
  lemma RowsFromText(a: seq<string>, b: seq<string>, eol: string, r: nat)
    requires IsEol(eol) && Joinable(a) && Joinable(b) && JoinLines(a, eol) == JoinLines(b, eol)
    requires r < |a|
    ensures r < |b| && |a[r]| == |b[r]|
  {
    hide IsEol, JoinLines, SplitLines, Visible, BreakFree;
    SplitJoin(a, eol);
    SplitJoin(b, eol);
    assert RowLine(a, eol, r) == RowLines(a, eol)[r] == RowLines(b, eol)[r] == RowLine(b, eol, r);
    VisibleOfRow(a[r], if r == |a| - 1 then [] else eol);
    VisibleOfRow(b[r], if r == |b| - 1 then [] else eol);
    assert a[r] + [] == a[r] && b[r] + [] == b[r];
  }

  /** Appending the view of a text to a view gives the view of both only when one of them
      is empty: otherwise a line end, or the rest of a short line, is missing. */
  lemma AppendedViewIff(a: string, b: string, bpl: nat, eol: string)
    requires bpl >= 1 && IsEol(eol)
    ensures Render(a, bpl, eol) + Render(b, bpl, eol) == Render(a + b, bpl, eol) <==> a == [] || b == []
  {
    if a == [] {
      assert a + b == b;
    } else if b == [] {
      assert a + b == a;
    } else {
      hide RowsOf, Chunks, Joinable, JoinLines;
      var rowsA, rowsB := Rows(a, bpl), Rows(b, bpl);
      RowsJoinable(a, bpl);
      RowsJoinable(b, bpl);
      RowsJoinable(a + b, bpl);
      assert rowsA != [] && rowsB != [];
      MergeJoins(rowsA, rowsB, eol);
      MergeJoinable(rowsA, rowsB);
      var r := |rowsA| - 1;
      RowWidth(a, bpl, r);
      RowWidth(b, bpl, 0);
      if Render(a, bpl, eol) + Render(b, bpl, eol) == Render(a + b, bpl, eol) {
        RowsFromText(Merge(rowsA, rowsB), Rows(a + b, bpl), eol, r);
        RowWidth(a + b, bpl, r);
        assert false;
      }
    }
  }

  /** Appending one byte to another leaves two views in one line. */
  lemma AppendedViewFails(eol: string)
    requires IsEol(eol)
    ensures Render("a", 16, eol) + Render("b", 16, eol) != Render("a" + "b", 16, eol)
  {
    AppendedViewIff("a", "b", 16, eol);
  }
}
