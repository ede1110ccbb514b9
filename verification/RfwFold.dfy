/** Folding of Robot Framework files: runs of comment, pipe and tab lines. The levels are
    counted up and down by looking at the lines around, and counting can resume at any line. */
module RfwFold {
  import opened TextControl
  import opened Strings

  // ----- Fold levels: a number in the low twelve bits, flags above -----------------

  const BASE := 0x400
  const WHITE_FLAG := 0x1000
  const HEADER_FLAG := 0x2000

  /** Bitwise or in two's complement. */
  function BitOr(a: int, b: int): int
    decreases if a < 0 then -a else a
  {
    if a == 0 then b
    else if a == -1 then -1
    else 2 * BitOr(a / 2, b / 2) + if a % 2 == 1 || b % 2 == 1 then 1 else 0
  }

  function NumberOf(level: int): (n: nat)
    ensures n < 0x1000
  {
    level % 0x1000
  }

  function FlagsOf(level: int): int {
    level - level % 0x1000
  }

  function Power(n: nat): (p: nat)
    ensures p >= 1
  {
    if n == 0 then 1 else 2 * Power(n - 1)
  }

  /** Flags do not disturb a number below them. */
  lemma {:induction false} OrOfFlags(number: nat, q: int, bits: nat)
    requires number < Power(bits)
    ensures BitOr(number, q * Power(bits)) == number + q * Power(bits)
    decreases bits
  {
    if number > 0 {
      var p := Power(bits - 1);
      Halves(q, p);
      OrOfFlags(number / 2, q, bits - 1);
    }
  }

  lemma Halves(q: int, p: int)
    ensures q * (2 * p) / 2 == q * p && q * (2 * p) % 2 == 0
  {
  }

  lemma PowerOfTwelve()
    ensures Power(12) == 0x1000
  {
  }

  lemma WithFlags(number: nat, q: int)
    requires number < 0x1000
    ensures BitOr(number, 0x1000 * q) == number + 0x1000 * q
    ensures NumberOf(BitOr(number, 0x1000 * q)) == number && FlagsOf(BitOr(number, 0x1000 * q)) == 0x1000 * q
  {
    hide BitOr, Power;
    PowerOfTwelve();
    OrOfFlags(number, q, 12);
  }

  // ----- What kind a line is ------------------------------------------------------

  datatype Kind = Comment | Pipe | Tab

  function MarkOf(kind: Kind): char {
    match kind
    case Comment => '#'
    case Pipe => '|'
    case Tab => '\t'
  }

  /** A tab anywhere, another mark as the first thing that is not blank. */
  predicate Scan(s: string, c: char) {
    s != [] && (s[0] == c || ((c == '\t' || s[0] == ' ' || s[0] == '\t') && Scan(s[1..], c)))
  }

  /** The last character of a line, its line feed as a rule, is not looked at. */
  function Looked(line: string): string {
    if line == [] then [] else line[..|line| - 1]
  }

  predicate Is(lines: seq<string>, k: int, kind: Kind) {
    0 <= k < |lines| && Scan(Looked(lines[k]), MarkOf(kind))
  }

  /** A line with a mark before its last character, a tab anywhere and another mark behind blanks only. */
  ghost predicate HasMark(line: string, c: char) {
    exists i :: 0 <= i < |line| - 1 && line[i] == c && (c == '\t' || OnlyBlanks(line[..i]))
  }

  predicate OnlyBlanks(s: string) {
    forall i :: 0 <= i < |s| ==> s[i] == ' ' || s[i] == '\t'
  }

  lemma {:induction false} ScanIff(s: string, c: char)
    ensures Scan(s, c) <==> exists i :: 0 <= i < |s| && s[i] == c && (c == '\t' || OnlyBlanks(s[..i]))
  {
    if s != [] {
      var t := s[1..];
      ScanIff(t, c);
      if i :| 0 <= i < |t| && t[i] == c && (c == '\t' || OnlyBlanks(t[..i])) {
        assert s[..i + 1] == [s[0]] + t[..i];
        assert s[i + 1] == c;
      }
      if i :| 0 < i < |s| && s[i] == c && (c == '\t' || OnlyBlanks(s[..i])) {
        assert s[..i] == [s[0]] + t[..i - 1];
        assert t[i - 1] == c && (c != '\t' ==> s[..i][0] == s[0] && OnlyBlanks(t[..i - 1]));
      }
      assert OnlyBlanks(s[..0]);
    }
  }

  /** The kinds of a line, by its marks. */
  lemma IsIff(lines: seq<string>, k: nat, kind: Kind)
    requires k < |lines|
    ensures Is(lines, k, kind) <==>
      HasMark(lines[k], match kind case Comment => '#' case Pipe => '|' case Tab => '\t')
  {
    var line, c := lines[k], MarkOf(kind);
    ScanIff(Looked(line), c);
    assert forall i :: 0 <= i < |line| - 1 ==> Looked(line)[..i] == line[..i];
  }

  /** Start of a line; the text's start and end for lines before and after it. */
  function LineStart(lines: seq<string>, k: int): nat {
    if k < 0 then 0 else if k >= |lines| then TotalLength(lines) else TotalLength(lines[..k])
  }

  lemma {:induction false} LineStartNext(lines: seq<string>, k: nat)
    requires k < |lines|
    ensures LineStart(lines, k + 1) == LineStart(lines, k) + |lines[k]|
  {
    if k == 0 {
      if |lines| > 1 {
        assert lines[..1] == [lines[0]];
        assert TotalLength([lines[0]]) == |lines[0]| + TotalLength([]);
      } else {
        assert lines == [lines[0]];
        assert TotalLength(lines) == |lines[0]| + TotalLength([]);
      }
    } else {
      LineStartNext(lines[1..], k - 1);
      LineStartTail(lines, k);
      LineStartTail(lines, k + 1);
    }
  }

  lemma LineStartTail(lines: seq<string>, k: nat)
    requires 0 < k && lines != []
    ensures LineStart(lines, k) == |lines[0]| + LineStart(lines[1..], k - 1)
  {
    if k < |lines| {
      assert lines[..k][1..] == lines[1..][..k - 1];
    }
  }

  predicate AtEol(text: string, i: nat)
    requires i < |text|
  {
    (text[i] == '\r' && !(i + 1 < |text| && text[i + 1] == '\n')) || text[i] == '\n'
  }

  lemma {:induction false} EolOfFirstLine(text: string, o: nat)
    requires o < FirstLine(text)
    ensures AtEol(text, o) <==> o == FirstLine(text) - 1 && IsBreak(text[o])
  {
    if o > 0 && !IsBreak(text[0]) {
      EolOfFirstLine(text[1..], o - 1);
    }
  }

  /** The character at an offset of a line, and that line ends are where lines end. */
  lemma {:induction false} CharOfLine(text: string, k: nat, o: nat)
    requires k < |SplitLines(text)| && o < |SplitLines(text)[k]|
    ensures LineStart(SplitLines(text), k) + o < |text|
    ensures text[LineStart(SplitLines(text), k) + o] == SplitLines(text)[k][o]
    ensures AtEol(text, LineStart(SplitLines(text), k) + o) <==>
      k < |SplitLines(text)| - 1 && o == |SplitLines(text)[k]| - 1
    decreases k
  {
    hide SplitLines, LineStart, FirstLine, AtEol, IsBreak;
    var n, lines := FirstLine(text), SplitLines(text);
    FirstOfSplit(text);
    if k == 0 {
      EolOfFirstLine(text, o);
    } else {
      SplitTail(text);
      CharOfLine(text[n..], k - 1, o);
      LineStartTail(lines, k);
      EolBehind(text, n, LineStart(SplitLines(text[n..]), k - 1) + o);
    }
  }

  lemma SplitTail(text: string)
    requires |SplitLines(text)| > 1
    ensures SplitLines(text)[1..] == SplitLines(text[FirstLine(text)..])
  {
  }

  lemma EolBehind(text: string, n: nat, p: nat)
    requires n + p < |text|
    ensures text[n..][p] == text[n + p] && (AtEol(text[n..], p) <==> AtEol(text, n + p))
  {
  }

  lemma FirstOfSplit(text: string)
    ensures LineStart(SplitLines(text), 0) == 0
    ensures SplitLines(text)[0] == text[..FirstLine(text)] && |SplitLines(text)[0]| == FirstLine(text)
    ensures text != [] ==> (IsBreak(text[FirstLine(text) - 1]) <==> |SplitLines(text)| > 1)
  {
  }

  lemma {:induction false} TotalOfSplit(text: string)
    ensures TotalLength(SplitLines(text)) == |text|
    ensures forall k :: 0 <= k < |SplitLines(text)| - 1 ==> SplitLines(text)[k] != []
  {
    var n := FirstLine(text);
    if n > 0 && IsBreak(text[n - 1]) {
      TotalOfSplit(text[n..]);
    } else {
      assert TotalLength([text]) == |text| + TotalLength([]);
    }
  }

  lemma {:induction false} LineInText(lines: seq<string>, k: nat)
    requires k < |lines|
    ensures LineStart(lines, k) + |lines[k]| <= TotalLength(lines)
    ensures k == |lines| - 1 ==> LineStart(lines, k) + |lines[k]| == TotalLength(lines)
  {
    if k == 0 {
      LineStartNext(lines, 0);
      if |lines| > 1 {
        assert TotalLength(lines) == |lines[0]| + TotalLength(lines[1..]);
      }
    } else {
      LineStartTail(lines, k);
      LineInText(lines[1..], k - 1);
    }
  }

  lemma {:induction false} LineOfOffset(lines: seq<string>, k: nat, o: nat)
    requires k < |lines| && (o < |lines[k]| || (k == |lines| - 1 && o == |lines[k]|))
    ensures LineOf(lines, LineStart(lines, k) + o) == k
    decreases k
  {
    if k > 0 {
      LineStartTail(lines, k);
      LineOfOffset(lines[1..], k - 1, o);
    }
  }

  // ----- Levels -------------------------------------------------------------------

  datatype Properties = Properties(comments: bool, pipes: bool, tabs: bool, compact: bool)

  function Folds(props: Properties, kind: Kind): bool {
    match kind
    case Comment => props.comments
    case Pipe => props.pipes
    case Tab => props.tabs
  }

  function CountVisible(s: string): nat {
    if s == [] then 0
    else CountVisible(s[..|s| - 1]) + if IsSpace(s[|s| - 1]) then 0 else 1
  }

  /** One for a folded kind that both the line before k and line k have. */
  function Shared(lines: seq<string>, props: Properties, kind: Kind, k: int): nat {
    if Folds(props, kind) && Is(lines, k - 1, kind) && Is(lines, k, kind) then 1 else 0
  }

  /** The depth before line k, in closed form. */
  function Depth(lines: seq<string>, props: Properties, k: int): (n: nat)
    ensures n <= 3
  {
    Shared(lines, props, Comment, k) + Shared(lines, props, Pipe, k) + Shared(lines, props, Tab, k)
  }

  /** The level of a line, from the numbers before and after it. */
  function LineLevel(number: int, next: int, visible: nat, compact: bool): int {
    var level := if visible == 0 && compact then BitOr(number, WHITE_FLAG) else number;
    if next > number && visible > 0 then BitOr(level, HEADER_FLAG) else level
  }

  /** The level of a line when the level at depth nought is start. */
  function LevelOfLine(lines: seq<string>, props: Properties, start: int, k: nat): int
    requires k < |lines|
  {
    LineLevel(start + Depth(lines, props, k), start + Depth(lines, props, k + 1), CountVisible(lines[k]), props.compact)
  }

  lemma LevelOfLineIs(lines: seq<string>, props: Properties, start: int, k: nat)
    requires k < |lines|
    ensures LevelOfLine(lines, props, start, k)
         == LineLevel(start + Depth(lines, props, k), start + Depth(lines, props, k + 1),
                      CountVisible(lines[k]), props.compact)
  {
  }

  lemma CountOfNothing(line: string)
    ensures CountVisible(line[..0]) == 0
  {
  }

  /** The level of line k after lines a to b were folded, counting from the number stored at a. */
  function LevelAfter(levels: seq<int>, lines: seq<string>, props: Properties, a: nat, b: nat, k: nat): int
    requires a <= b < |lines| <= |levels| && k < |levels|
  {
    var start := NumberOf(levels[a]) - Depth(lines, props, a);
    if a <= k < b then LevelOfLine(lines, props, start, k)
    else if k == b then BitOr(start + Depth(lines, props, b), FlagsOf(levels[b]))
    else levels[k]
  }

  lemma LookedAt(text: string, line: nat, i: nat)
    requires line < |SplitLines(text)| && LineStart(SplitLines(text), line) <= i
    requires i < LineStart(SplitLines(text), line + 1) - 1
    ensures i < |text| && i - LineStart(SplitLines(text), line) < |Looked(SplitLines(text)[line])|
    ensures Looked(SplitLines(text)[line])[i - LineStart(SplitLines(text), line)] == text[i]
  {
    LineStartNext(SplitLines(text), line);
    CharOfLine(text, line, i - LineStart(SplitLines(text), line));
  }

  /** Looks for a mark in a line, from its start to before its last character. */
  method GetLinePosEol(text: string, line: int, kind: Kind) returns (found: bool)
    ensures found == Is(SplitLines(text), line, kind)
  {
    ghost var lines := SplitLines(text);
    if 0 <= line < |lines| {
      LineStartNext(lines, line);
    }
    hide SplitLines, LineStart, Scan;
    var c := MarkOf(kind);
    var pos := LineStart(SplitLines(text), line);
    var eol := LineStart(SplitLines(text), line + 1) - 1;
    ghost var looked := if 0 <= line < |lines| then Looked(lines[line]) else [];
    LineStartOutside(lines, line);
    NothingToScan(c);
    assert eol <= pos || (0 <= line < |lines| && |looked| == eol - pos);
    hide Looked;
    var i := pos;
    assert looked[0..] == looked;
    while i < eol
      invariant pos <= i && (i <= eol || i == pos)
      invariant i < eol ==> 0 <= line < |lines|
      invariant Scan(looked, c) == Scan(looked[if i <= eol then i - pos else 0..], c)
    {
      LookedAt(text, line, i);
      var ch := text[i];
      ScanFirst(looked, i - pos, c);
      if ch == c {
        return true;
      } else if c != '\t' && ch != ' ' && ch != '\t' {
        return false;
      }
      i := i + 1;
    }
    return false;
  }

  lemma NothingToScan(c: char)
    ensures !Scan([], c)
  {
  }

  lemma ScanFirst(s: string, o: nat, c: char)
    requires o < |s|
    ensures Scan(s[o..], c) <==> s[o] == c || ((c == '\t' || s[o] == ' ' || s[o] == '\t') && Scan(s[o + 1..], c))
  {
  }

  lemma LineStartOutside(lines: seq<string>, line: int)
    ensures !(0 <= line < |lines|) ==> LineStart(lines, line) == LineStart(lines, line + 1) || line < 0
    ensures line < 0 ==> LineStart(lines, line + 1) == 0
  {
  }

  /** How the level changes at the end of a line, for one kind. */
  function Change(lines: seq<string>, props: Properties, kind: Kind, k: int): int {
    if !Folds(props, kind) || !Is(lines, k, kind) then 0
    else if !Is(lines, k - 1, kind) && Is(lines, k + 1, kind) then 1
    else if Is(lines, k - 1, kind) && !Is(lines, k + 1, kind) then -1
    else 0
  }

  method FoldKind(text: string, line: int, kind: Kind, folds: bool, levelCurrent: int) returns (level: int)
    ensures folds ==> forall props: Properties :: Folds(props, kind) ==>
        level == levelCurrent + Change(SplitLines(text), props, kind, line)
    ensures !folds ==> level == levelCurrent
  {
    level := levelCurrent;
    if folds {
      var here := GetLinePosEol(text, line, kind);
      if here {
        var before := GetLinePosEol(text, line - 1, kind);
        var after := GetLinePosEol(text, line + 1, kind);
        if !before && after {
          level := level + 1;
        } else if before && !after {
          level := level - 1;
        }
      }
    }
  }

  lemma ChangeOfDepth(lines: seq<string>, props: Properties, k: int)
    ensures Change(lines, props, Comment, k) + Change(lines, props, Pipe, k) + Change(lines, props, Tab, k)
         == Depth(lines, props, k + 1) - Depth(lines, props, k)
  {
  }

  /** The end of a line: its level is stored, and the level after it returned. */
  method FoldLine(text: string, line: nat, levelPrev: int, visibleChars: nat, props: Properties,
          levels: array<int>) returns (levelCurrent: int)
    requires line < levels.Length
    modifies levels
    ensures levelCurrent == levelPrev + Depth(SplitLines(text), props, line + 1) - Depth(SplitLines(text), props, line)
    ensures levels[line] == LineLevel(levelPrev, levelCurrent, visibleChars, props.compact)
    ensures forall k :: 0 <= k < levels.Length && k != line ==> levels[k] == old(levels[k])
  {
    levelCurrent := FoldKind(text, line, Comment, props.comments, levelPrev);
    levelCurrent := FoldKind(text, line, Pipe, props.pipes, levelCurrent);
    levelCurrent := FoldKind(text, line, Tab, props.tabs, levelCurrent);
    ChangeOfDepth(SplitLines(text), props, line);
    hide Change, Depth, SplitLines, BitOr;
    var lev := levelPrev;
    if visibleChars == 0 && props.compact {
      lev := BitOr(lev, WHITE_FLAG);
    }
    if levelCurrent > levelPrev && visibleChars > 0 {
      lev := BitOr(lev, HEADER_FLAG);
    }
    if lev != levels[line] {
      levels[line] := lev;
    }
  }

  lemma CountOfMore(line: string, o: nat)
    requires o < |line|
    ensures CountVisible(line[..o + 1]) == CountVisible(line[..o]) + if IsSpace(line[o]) then 0 else 1
    ensures o == |line| - 1 ==> line[..o + 1] == line
  {
    assert line[..o + 1][..o] == line[..o];
  }

  lemma EolIsSpace(text: string, i: nat)
    requires i < |text| && AtEol(text, i)
    ensures IsSpace(text[i])
  {
  }

  /** The levels before and after lines a to b were folded. */
  ghost predicate Folded(before: seq<int>, after: seq<int>, lines: seq<string>, props: Properties, a: nat, b: nat)
    requires a <= b < |lines|
  {
    && |lines| <= |before| == |after|
    && (forall k :: 0 <= k < |after| ==> after[k] == LevelAfter(before, lines, props, a, b, k))
  }

  /** Folds the lines that end in a part of the text that starts at a line start; the level
      before the line after them is filled in. */
  method Fold(text: string, startPos: nat, length: nat, props: Properties, levels: array<int>)
    requires startPos + length <= |text| && |SplitLines(text)| <= levels.Length
    requires LineFromPosition(text, startPos) < |SplitLines(text)|
    requires startPos == LineStart(SplitLines(text), LineFromPosition(text, startPos))
    modifies levels
    ensures LineFromPosition(text, startPos) <= LineFromPosition(text, startPos + length) < |SplitLines(text)|
    ensures Folded(old(levels[..]), levels[..], SplitLines(text), props, LineFromPosition(text, startPos),
                   LineFromPosition(text, startPos + length))
  {
    hide SplitLines, LineStart, BitOr, Depth, LineLevel, LineOf, CountVisible, LevelOfLine, NumberOf, FlagsOf;
    ghost var before, lines, a := levels[..], SplitLines(text), LineFromPosition(text, startPos);
    var endPos := startPos + length;
    var lineCurrent := LineFromPosition(text, startPos);
    var levelPrev: int, visibleChars := NumberOf(levels[lineCurrent]), 0;
    ghost var start := levelPrev - Depth(lines, props, a);
    ghost var lineStart := startPos;
    var i := startPos;
    TotalOfSplit(text);
    LineInText(lines, a);
    CountOfNothing(lines[a]);
    while i < endPos
      invariant startPos <= i <= endPos && a <= lineCurrent < |lines|
      invariant lineStart == LineStart(lines, lineCurrent) <= i
      invariant i - lineStart < |lines[lineCurrent]| ||
                (lineCurrent == |lines| - 1 && i - lineStart == |lines[lineCurrent]|)
      invariant levelPrev == start + Depth(lines, props, lineCurrent)
      invariant visibleChars == CountVisible(lines[lineCurrent][..i - lineStart])
      invariant forall k :: a <= k < lineCurrent ==> levels[k] == LevelOfLine(lines, props, start, k)
      invariant forall k :: 0 <= k < levels.Length && !(a <= k < lineCurrent) ==> levels[k] == before[k]
    {
      var ch := text[i];
      LineStartNext(lines, lineCurrent);
      LineInText(lines, lineCurrent);
      CharOfLine(text, lineCurrent, i - lineStart);
      CountOfMore(lines[lineCurrent], i - lineStart);
      if AtEol(text, i) {
        EolIsSpace(text, i);
        hide AtEol;
        var levelCurrent := FoldLine(text, lineCurrent, levelPrev, visibleChars, props, levels);
        LevelOfLineIs(lines, props, start, lineCurrent);
        lineCurrent := lineCurrent + 1;
        lineStart := i + 1;
        levelPrev := levelCurrent;
        visibleChars := 0;
        CountOfNothing(lines[lineCurrent]);
      }
      hide AtEol;
      if !IsSpace(ch) {
        visibleChars := visibleChars + 1;
      }
      i := i + 1;
    }
    LineOfOffset(lines, lineCurrent, i - lineStart);
    var flagsNext := FlagsOf(levels[lineCurrent]);
    levels[lineCurrent] := BitOr(levelPrev, flagsNext);
  }

  // ----- Folding in parts ---------------------------------------------------------

  /** The stored level of a line has the number of a fold of the whole document. */
  predicate Settled(levels: seq<int>, lines: seq<string>, props: Properties, k: nat)
    requires k < |levels|
  {
    NumberOf(levels[k]) == BASE + Depth(lines, props, k)
  }

  lemma NumberOfLine(number: nat, next: int, visible: nat, compact: bool)
    requires number < 0x1000
    ensures NumberOf(LineLevel(number, next, visible, compact)) == number
  {
    WithFlags(number, 1);
    WithFlags(number, 2);
    hide BitOr;
  }

  lemma NumberAfter(levels: seq<int>, lines: seq<string>, props: Properties, a: nat, b: nat, k: nat)
    requires a <= k <= b < |lines| <= |levels|
    requires 0 <= NumberOf(levels[a]) - Depth(lines, props, a) + Depth(lines, props, k) < 0x1000
    ensures NumberOf(LevelAfter(levels, lines, props, a, b, k))
         == NumberOf(levels[a]) - Depth(lines, props, a) + Depth(lines, props, k)
    ensures k == b ==> FlagsOf(LevelAfter(levels, lines, props, a, b, k)) == FlagsOf(levels[k])
  {
    hide Depth, BitOr, LineLevel;
    var start := NumberOf(levels[a]) - Depth(lines, props, a);
    if k == b {
      var q := FlagsOf(levels[b]) / 0x1000;
      assert FlagsOf(levels[b]) == 0x1000 * q;
      WithFlags(start + Depth(lines, props, b), q);
    } else {
      LevelOfLineIs(lines, props, start, k);
      NumberOfLine(start + Depth(lines, props, k), start + Depth(lines, props, k + 1),
                   CountVisible(lines[k]), props.compact);
    }
  }

  /** The number stored at line k leaves room for the depths to count from it; right or not. */
  predicate HasRoom(levels: seq<int>, lines: seq<string>, props: Properties, k: nat)
    requires k < |levels|
  {
    0 <= NumberOf(levels[k]) - Depth(lines, props, k) < 0x1000 - 3
  }

  /** The level a line gets from both parts, when the number stored between them continues the count. */
  lemma {:induction false} LevelFromBoth(levels: seq<int>, middle: seq<int>, lines: seq<string>, props: Properties,
        a: nat, m: nat, b: nat, k: nat)
    requires a <= m <= b < |lines| <= |levels| == |middle| && k < |levels|
    requires middle[k] == LevelAfter(levels, lines, props, a, m, k)
    requires middle[b] == LevelAfter(levels, lines, props, a, m, b)
    requires NumberOf(middle[m]) == NumberOf(levels[a]) - Depth(lines, props, a) + Depth(lines, props, m)
    requires FlagsOf(middle[m]) == FlagsOf(levels[m])
    ensures LevelAfter(middle, lines, props, m, b, k) == LevelAfter(levels, lines, props, a, b, k)
  {
    hide Depth, BitOr, LevelOfLine, NumberOf, FlagsOf;
  }

  /** Folding a part and then, from the level it left behind, the part after it is folding both at once,
      from a right level or a wrong one; a right one stays right. */
  lemma {:induction false} FoldInTwo(levels: seq<int>, middle: seq<int>, after: seq<int>, lines: seq<string>,
        props: Properties, a: nat, m: nat, b: nat)
    requires a <= m <= b < |lines| <= |levels| && HasRoom(levels, lines, props, a)
    requires Folded(levels, middle, lines, props, a, m) && Folded(middle, after, lines, props, m, b)
    ensures Folded(levels, after, lines, props, a, b)
    ensures HasRoom(middle, lines, props, m) && HasRoom(after, lines, props, b)
    ensures Settled(middle, lines, props, m) <==> Settled(levels, lines, props, a)
    ensures Settled(after, lines, props, b) <==> Settled(levels, lines, props, a)
  {
    NumberAfter(levels, lines, props, a, m, m);
    NumberAfter(middle, lines, props, m, b, b);
    hide Depth, BitOr, LevelOfLine, LevelAfter, NumberOf, FlagsOf;
    assert middle[b] == LevelAfter(levels, lines, props, a, m, b);
    forall k | 0 <= k < |after|
      ensures after[k] == LevelAfter(levels, lines, props, a, b, k)
    {
      assert after[k] == LevelAfter(middle, lines, props, m, b, k);
      LevelFromBoth(levels, middle, lines, props, a, m, b, k);
    }
  }

  /** Levels after folding part after part, between the lines in cuts. */
  ghost predicate FoldedInParts(levels: seq<seq<int>>, lines: seq<string>, props: Properties, cuts: seq<nat>) {
    && |levels| == |cuts| >= 1
    && (forall i :: 0 <= i < |cuts| ==> cuts[i] < |lines|)
    && (forall i :: 0 < i < |cuts| ==>
          cuts[i - 1] <= cuts[i] && Folded(levels[i - 1], levels[i], lines, props, cuts[i - 1], cuts[i]))
  }

  /** However a document is cut at line starts, folding it part by part gives what one pass gives. */
  lemma {:induction false} FoldInParts(levels: seq<seq<int>>, lines: seq<string>, props: Properties, cuts: seq<nat>)
    requires FoldedInParts(levels, lines, props, cuts) && |cuts| >= 2
    requires cuts[0] < |levels[0]| && HasRoom(levels[0], lines, props, cuts[0])
    ensures cuts[0] <= cuts[|cuts| - 1] < |lines|
    ensures Folded(levels[0], levels[|cuts| - 1], lines, props, cuts[0], cuts[|cuts| - 1])
  {
    var last := |cuts| - 1;
    if last > 1 {
      assert Folded(levels[0], levels[1], lines, props, cuts[0], cuts[1]);
      assert Folded(levels[1], levels[2], lines, props, cuts[1], cuts[2]);
      NumberAfter(levels[0], lines, props, cuts[0], cuts[1], cuts[1]);
      FoldInParts(levels[1..], lines, props, cuts[1..]);
      FoldInTwo(levels[0], levels[1], levels[last], lines, props, cuts[0], cuts[1], cuts[last]);
    }
  }

  lemma {:induction false} VisibleIff(s: string)
    ensures CountVisible(s) == 0 <==> AllSpace(s)
  {
    if s != [] {
      var t := s[..|s| - 1];
      VisibleIff(t);
      assert s == t + [s[|s| - 1]];
      assert forall i :: 0 <= i < |t| ==> t[i] == s[i];
    }
  }

  /** The flags of a line by the levels stored for it and for the line after it: a fold point where a line
      with something on it is followed by a higher number, white where there is nothing, and no other. */
  predicate FlagsAre(level: int, next: int, line: string, compact: bool) {
    && (level / 0x2000 % 2 == 1 <==> !AllSpace(line) && NumberOf(next) > NumberOf(level))
    && (level / 0x1000 % 2 == 1 <==> compact && AllSpace(line))
    && 0 <= level < 0x4000
  }

  lemma LineLevelIs(number: nat, next: int, visible: nat, compact: bool)
    requires number < 0x1000
    ensures LineLevel(number, next, visible, compact)
         == number + if visible == 0 then if compact then 0x1000 else 0 else if next > number then 0x2000 else 0
  {
    WithFlags(number, 1);
    WithFlags(number, 2);
    hide BitOr;
  }

  /** Every line folded has its flags, from whatever level the fold started; the line after them keeps the
      flags it had, and no other line changes. */
  lemma FlagsOfFold(levels: seq<int>, after: seq<int>, lines: seq<string>, props: Properties, a: nat, b: nat)
    requires a <= b < |lines| <= |levels| && HasRoom(levels, lines, props, a)
    requires Folded(levels, after, lines, props, a, b)
    ensures forall k :: a <= k < b ==> FlagsAre(after[k], after[k + 1], lines[k], props.compact)
    ensures FlagsOf(after[b]) == FlagsOf(levels[b])
    ensures forall k :: 0 <= k < |levels| && !(a <= k <= b) ==> after[k] == levels[k]
  {
    hide Depth, LineLevel, BitOr;
    NumberAfter(levels, lines, props, a, b, b);
    var start := NumberOf(levels[a]) - Depth(lines, props, a);
    forall k | a <= k < b ensures FlagsAre(after[k], after[k + 1], lines[k], props.compact) {
      NumberAfter(levels, lines, props, a, b, k);
      NumberAfter(levels, lines, props, a, b, k + 1);
      LevelOfLineIs(lines, props, start, k);
      LineLevelIs(start + Depth(lines, props, k), start + Depth(lines, props, k + 1),
                  CountVisible(lines[k]), props.compact);
      VisibleIff(lines[k]);
    }
  }

  /** What a fold of the whole document gives a line. */
  function Expected(lines: seq<string>, props: Properties, k: nat): int
    requires k < |lines|
  {
    LevelOfLine(lines, props, BASE, k)
  }

  /** One when a kind is folded and both lines have its mark. */
  ghost function Both(folds: bool, line: string, next: string, mark: char): nat {
    if folds && HasMark(line, mark) && HasMark(next, mark) then 1 else 0
  }

  lemma DepthIs(lines: seq<string>, props: Properties, k: nat)
    requires 0 < k < |lines|
    ensures Depth(lines, props, k) == Both(props.comments, lines[k - 1], lines[k], '#') +
                                      Both(props.pipes, lines[k - 1], lines[k], '|') +
                                      Both(props.tabs, lines[k - 1], lines[k], '\t')
  {
    hide Is, HasMark;
    IsIff(lines, k - 1, Comment);
    IsIff(lines, k - 1, Pipe);
    IsIff(lines, k - 1, Tab);
    IsIff(lines, k, Comment);
    IsIff(lines, k, Pipe);
    IsIff(lines, k, Tab);
  }

  /** A fold of the whole document: the number of a line is the base, and one more for each folded kind of
      which it and the line before it have the mark; and every line but the last has its flags. */
  lemma WholeFold(levels: seq<int>, after: seq<int>, lines: seq<string>, props: Properties)
    requires lines != [] && |lines| <= |levels| && NumberOf(levels[0]) == 0x400
    requires Folded(levels, after, lines, props, 0, |lines| - 1)
    ensures forall k :: 0 <= k < |lines| - 1 ==> after[k] == Expected(lines, props, k)
    ensures NumberOf(after[0]) == 0x400
    ensures forall k :: 0 < k < |lines| ==>
      NumberOf(after[k]) == 0x400 + Both(props.comments, lines[k - 1], lines[k], '#') +
                            Both(props.pipes, lines[k - 1], lines[k], '|') +
                            Both(props.tabs, lines[k - 1], lines[k], '\t')
    ensures forall k :: 0 <= k < |lines| - 1 ==> FlagsAre(after[k], after[k + 1], lines[k], props.compact)
  {
    hide Depth, BitOr, LineLevel, LevelOfLine, HasMark;
    DepthOfFirst(lines, props);
    FlagsOfFold(levels, after, lines, props, 0, |lines| - 1);
    forall k | 0 <= k < |lines|
      ensures NumberOf(after[k]) == BASE + Depth(lines, props, k)
    {
      NumberAfter(levels, lines, props, 0, |lines| - 1, k);
    }
    forall k | 0 < k < |lines|
      ensures Depth(lines, props, k) == Both(props.comments, lines[k - 1], lines[k], '#') +
                                        Both(props.pipes, lines[k - 1], lines[k], '|') +
                                        Both(props.tabs, lines[k - 1], lines[k], '\t')
    {
      DepthIs(lines, props, k);
    }
  }

  /** Two comments, a line that is none and an empty one: the first line is a fold point, the second inside
      it, and the last one is white. */
  lemma FoldOfFour(levels: seq<int>, after: seq<int>, lines: seq<string>, props: Properties)
    requires lines == ["#a\n", "#b\n", "x\n", "\n", ""] && props == Properties(true, false, false, true)
    requires |levels| >= 5 && NumberOf(levels[0]) == 0x400 && Folded(levels, after, lines, props, 0, 4)
    ensures after[..4] == [0x2400, 0x401, 0x400, 0x1400]
  {
    hide LevelAfter, Expected, FlagsAre, HasMark;
    WholeFold(levels, after, lines, props);
    FoldOfFourMarks(lines);
    FoldOfFourLevels(after, lines);
  }

  lemma FoldOfFourMarks(lines: seq<string>)
    requires lines == ["#a\n", "#b\n", "x\n", "\n", ""]
    ensures HasMark(lines[0], '#') && HasMark(lines[1], '#')
    ensures !HasMark(lines[2], '#') && !HasMark(lines[3], '#') && !HasMark(lines[4], '#')
  {
    assert lines[0][0] == lines[1][0] == '#' && OnlyBlanks(lines[0][..0]) && OnlyBlanks(lines[1][..0]);
  }

  lemma FoldOfFourLevels(after: seq<int>, lines: seq<string>)
    requires lines == ["#a\n", "#b\n", "x\n", "\n", ""] && |after| >= 5
    requires NumberOf(after[0]) == NumberOf(after[2]) == NumberOf(after[3]) == NumberOf(after[4]) == 0x400
    requires NumberOf(after[1]) == 0x401
    requires forall k :: 0 <= k < 4 ==> FlagsAre(after[k], after[k + 1], lines[k], true)
    ensures after[..4] == [0x2400, 0x401, 0x400, 0x1400]
  {
    assert lines[0][0] == '#' && lines[1][0] == '#' && lines[2][0] == 'x';
    assert AllSpace(lines[3]);
    assert FlagsAre(after[0], after[1], lines[0], true) && FlagsAre(after[1], after[2], lines[1], true);
    assert FlagsAre(after[2], after[3], lines[2], true) && FlagsAre(after[3], after[4], lines[3], true);
  }

  lemma DepthOfFirst(lines: seq<string>, props: Properties)
    ensures Depth(lines, props, 0) == 0
  {
  }

  /** A fold resumed at line a gives every line from there on the level of a fold of the
      whole document exactly when the number stored at a is that of such a fold. */
  lemma ResumeIffSettled(levels: seq<int>, after: seq<int>, lines: seq<string>, props: Properties, a: nat)
    requires a < |lines| <= |levels| && Folded(levels, after, lines, props, a, |lines| - 1)
    ensures (forall k :: a <= k < |lines| - 1 ==> after[k] == Expected(lines, props, k))
         && NumberOf(after[|lines| - 1]) == BASE + Depth(lines, props, |lines| - 1)
       <==> Settled(levels, lines, props, a)
  {
    hide Depth, BitOr, LineLevel, LevelOfLine;
    var last := |lines| - 1;
    NumberAfter(levels, lines, props, a, last, a);
    if Settled(levels, lines, props, a) {
      NumberAfter(levels, lines, props, a, last, last);
    } else if a < last {
      assert after[a] == LevelAfter(levels, lines, props, a, last, a);
      LevelOfLineIs(lines, props, BASE, a);
      NumberOfLine(BASE + Depth(lines, props, a), BASE + Depth(lines, props, a + 1),
                   CountVisible(lines[a]), props.compact);
      assert after[a] != Expected(lines, props, a);
    }
  }

  // ----- Folding after an edit ----------------------------------------------------

  /** Two documents with the same first j lines. */
  predicate AgreeBelow(a: seq<string>, b: seq<string>, j: nat) {
    j <= |a| && j <= |b| && a[..j] == b[..j]
  }

  lemma DepthBelow(a: seq<string>, b: seq<string>, props: Properties, j: nat, k: nat)
    requires AgreeBelow(a, b, j) && k < j
    ensures Depth(a, props, k) == Depth(b, props, k) && a[k] == b[k]
  {
  }

  /** After an edit that leaves the first j lines alone, folding again from any line before
      j, line j - 1 at the latest, makes every level right: a line looks one line ahead. */
  lemma RefoldAfterEdit(levels: seq<int>, after: seq<int>, earlier: seq<string>, lines: seq<string>,
          props: Properties, j: nat, a: nat)
    requires AgreeBelow(earlier, lines, j) && a < j && |lines| <= |levels|
    requires forall k :: 0 <= k < a ==> levels[k] == Expected(earlier, props, k)
    requires Settled(levels, earlier, props, a) && Folded(levels, after, lines, props, a, |lines| - 1)
    ensures forall k :: 0 <= k < |lines| - 1 ==> after[k] == Expected(lines, props, k)
    ensures NumberOf(after[|lines| - 1]) == BASE + Depth(lines, props, |lines| - 1)
  {
    hide Depth, BitOr, LineLevel, LevelOfLine;
    DepthBelow(earlier, lines, props, j, a);
    ResumeIffSettled(levels, after, lines, props, a);
    forall k | 0 <= k < a
      ensures after[k] == Expected(lines, props, k)
    {
      assert after[k] == LevelAfter(levels, lines, props, a, |lines| - 1, k);
      DepthBelow(earlier, lines, props, j, k);
      DepthBelow(earlier, lines, props, j, k + 1);
      LevelOfLineIs(earlier, props, BASE, k);
      LevelOfLineIs(lines, props, BASE, k);
    }
  }

  /** Folding again only from the first changed line makes the levels right exactly when
      the edit leaves the depth before that line as it was. */
  lemma RefoldFromEditIff(levels: seq<int>, after: seq<int>, earlier: seq<string>, lines: seq<string>,
          props: Properties, j: nat)
    requires AgreeBelow(earlier, lines, j) && j < |lines| <= |levels|
    requires Settled(levels, earlier, props, j) && Folded(levels, after, lines, props, j, |lines| - 1)
    ensures (forall k :: j <= k < |lines| - 1 ==> after[k] == Expected(lines, props, k))
         && NumberOf(after[|lines| - 1]) == BASE + Depth(lines, props, |lines| - 1)
       <==> Depth(earlier, props, j) == Depth(lines, props, j)
  {
    ResumeIffSettled(levels, after, lines, props, j);
  }

  /** Turning the line after a comment into a comment is an edit that does not: folding again from that
      line leaves it, and what follows, a level too low. */
  lemma RefoldFromEditFails(earlier: seq<string>, lines: seq<string>, props: Properties, levels: seq<int>,
          after: seq<int>)
    requires earlier == ["#a\n", "x\n", ""] && lines == ["#a\n", "#b\n", ""]
    requires props == Properties(true, false, false, true)
    requires levels == [BASE, BASE, BASE]
    requires after == seq(3, k requires 0 <= k < 3 => LevelAfter(levels, lines, props, 1, 2, k))
    ensures AgreeBelow(earlier, lines, 1) && Settled(levels, earlier, props, 1)
    ensures Folded(levels, after, lines, props, 1, 2)
    ensures NumberOf(after[1]) == BASE && NumberOf(Expected(lines, props, 1)) == BASE + 1
    ensures after[1] != Expected(lines, props, 1)
  {
    CommentDepths(earlier, lines, props);
    hide Depth, BitOr, LineLevel;
    NumberAfter(levels, lines, props, 1, 2, 1);
    LevelOfLineIs(lines, props, BASE, 1);
    NumberOfLine(BASE + 1, BASE + Depth(lines, props, 2), CountVisible(lines[1]), props.compact);
  }

  lemma CommentDepths(earlier: seq<string>, lines: seq<string>, props: Properties)
    requires earlier == ["#a\n", "x\n", ""] && lines == ["#a\n", "#b\n", ""]
    requires props == Properties(true, false, false, true)
    ensures Depth(earlier, props, 1) == 0 && Depth(lines, props, 1) == 1 && Depth(lines, props, 2) == 0
  {
  }
}
