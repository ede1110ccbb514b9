# Verification of wex

A Dafny model of the algorithms behind the wex editor library, with proofs. wex
is mostly user interface; this project models the parts below it that carry
invariants of their own.

| file | what it models |
|---|---|
| `TextControl.dfy` | the styled text control as a text with lines, positions and columns |
| `HexRender.dfy` | rendering a byte buffer as hex and ASCII columns, and reading it back |
| `HexLine.dfy` | the meaning of a column of the hex view, and moving around in it |
| `HexEdit.dfy`, `Hexmode.dfy` | the buffer and the view, kept side by side by edits that patch both |
| `QueueThread.dfy` | producers, a pool of workers and start and stop, one step of one thread at a time |
| `RfwFold.dfy` | folding a Robot Framework document, in one pass and in parts |
| `CommentWrap.dfy` | wrapping a text into comment lines |
| `AdaLiteral.dfy` | the recognisers of Ada numeric literals and identifiers |
| `JsonTree.dfy`, `ItemPath.dfy`, `ConfigStore.dfy`, `Config.dfy`, `RecentList.dfy` | the configuration: a tree with dotted items, child sessions, lists of recent values |
| `Scope.dfy` | the names known at each fold level |
| `ReplaceAll.dfy`, `SortLines.dfy`, `FindMargin.dfy` | replacing in place, sorting lines, searching the margins |
| `Strings.dfy`, `Tokenize.dfy`, `Options.dfy` | white space and repeated characters, tokens, and a result that may be missing |

`dafny verify dfyconfig.toml` checks all of it.

The model follows the code where the code and its intent differ. Each such place
has a lemma that says exactly when the intent is met:

- Typing over the first digit of a byte combines the new digit with the old first
  digit (src/stc/hexmode-line.cpp:211-215): right exactly when both digits were the
  same (`Hexmode.FirstDigitIff`, `Hexmode.FirstDigitFails`).
- A position in the view is turned into an index with 16 bytes per line
  (src/stc/hexmode-line.h:86): right for a whole buffer exactly when there are 16, or
  one line only (`HexLine.IndexIffSixteen`, `HexLine.EightPerLineFails`).
- Appending puts new lines behind an unfinished last line
  (src/stc/hexmode.cpp:67-75): the view stays the rendered one exactly when one of
  the two texts is empty (`HexRender.AppendedViewIff`, `HexRender.AppendedViewFails`).
- A hex insertion is accepted when one of its two characters is a digit
  (src/stc/hexmode-line.cpp:155): the byte inserted shows the pair typed exactly when
  both are (`Hexmode.PairShowsByteIff`, `Hexmode.HalfPairFails`). White space or a sign
  before a digit is read as `std::stoi` reads it, and a first character that is none of
  these throws (`Hexmode.PairThrowsIff`, `Hexmode.OddPairs`).
- After an insertion in the ASCII field that reaches beyond the start of the next line,
  the caret goes to that start and not behind what was inserted
  (src/stc/hexmode-line.cpp:135-149, `Hexmode.CaretBehindIff`,
  `Hexmode.TwoAtLineEndFails`).
- A worker offers the event it still holds to the handler again after an idle
  wake-up (include/wex/queue-thread.h:198-201): no event is handed over twice exactly
  when every handler empties the pointer (`QueueThread.NeverTwiceIffEmptied`).
- A fold that starts at an edited line takes the level stored for it: right exactly
  when that level is (`RfwFold.RefoldFromEditIff`, `RfwFold.RefoldFromEditFails`). This
  is about `fold` alone: where the control starts it is not part of this model, and a
  start one line earlier is right (`RfwFold.RefoldAfterEdit`).
  The last character of a line is not looked at (src/lexers/lex-rfw.h:162-177); the
  closed form says so through `Looked`.
- `get_word` cuts as many characters as the word has from the start of the text
  (src/core/util.cpp:259-263), and then trims more kinds of white space than separate
  words: the words of a text are taken exactly when nothing but white space is left of
  the first one and no later one begins with white space
  (`CommentWrap.TakenIsWordsIff`); without other white space than blanks and tabs,
  exactly when no blank leads the text (`CommentWrap.PlainTextIff`,
  `CommentWrap.LeadingBlankFails`).
- When the first word does not fit behind the header, the first word after it that
  fits behind another is glued to that one (src/factory/lexer.cpp:295-309):
  `CommentWrap.WordsKeptIff` says exactly when all words survive, and
  `CommentWrap.LostBlankFails` shows three that do not. A first word that
  just fills the line counts as one that does not fit, and gets a line without any word
  before it (`CommentWrap.FullLineFails`); `CommentWrap.WrapIsShortestIff` says exactly
  when the wrap still has as few lines as can be.
- A filled-out comment line of a lexer without a begin delimiter is one character
  too long (src/factory/lexer.cpp:598-644, `CommentWrap.FilledLineIff`,
  `CommentWrap.NoBeginFails`).
- An item name of more than six parts is kept at the root under its last part
  (src/core/config-imp.cpp:67-69, `ItemPath.RouteOfDotted`), and looking up an item
  makes the items above it exist (`ConfigStore.ExistsAfterLookupIff`).
- A child session of a parent whose name has a dot keeps its keys where the dotted
  name does not find them, and one of a parent that is a scalar sets nothing. A key set
  in a session is found under its dotted name exactly when the parent's name has no dot
  and neither the root nor the parent is a scalar, or, with a dot, when the value was
  found there before (`Config.SessionKeyFoundIff`, `Config.DottedParentFails`,
  `Config.ScalarParentFails`).
- Trimming a list of recent values removes everything equal to its last element
  (src/core/config.cpp:339-342, `RecentList.UseFirstIff`).
- Asking a scope for the entry of a name binds the name at the current level
  (src/stc/scope.cpp:88-97); it is an event of its own in the histories of
  `Scope.dfy`, and hides an outer binding from then on.
- Sorting a column pads nothing: a line changes outside its column exactly when the
  key it gets has another length (`SortLines.ColumnStaysIff`).

## Model

| member | source | states |
|---|---|---|
| TextControl.SplitJoin | src/factory/hexmode.cpp:52-73 | a text joined from break-free rows splits into exactly these rows, each but the last with its line end |
| TextControl.LocateRow | src/stc/hexmode-line.cpp:13-58 | a position inside a row of a joined text is found on that line |
| TextControl.PatchJoined | src/stc/hexmode-line.cpp:183-231 | overwriting characters inside one row of a joined text changes that row and no other |
| HexRender.DecodeRender | src/factory/hexmode.cpp:29-73 | splitting a rendered text at line ends and decoding the hex fields gives the bytes back, for any bytes, any bytes per line from 1 on and any line end |
| HexRender.RenderInjective | src/factory/hexmode.cpp:29-73 | different byte strings are rendered differently |
| HexRender.RowsJoinable | src/factory/hexmode.cpp:75-90 | no row holds a line break, since control characters are masked |
| HexRender.RowIs | src/factory/hexmode.cpp:29-50 | every column of a line, character by character: two digits and a blank for a byte, blanks for missing bytes, then the byte or a dot |
| HexRender.ByteInView | src/factory/hexmode.cpp:52-73 | in which line and at which columns each byte of a buffer is shown, and by which characters, for any bytes per line from 1 on |
| HexRender.RenderFirst | src/factory/hexmode.cpp:52-73 | the rendering is the first line followed by the rendering of the rest |
| HexRender.RowOfChangedChunk | src/factory/hexmode.cpp:29-50 | changing one byte changes two digits and one ASCII character of its row and nothing else |
| HexRender.ChunksOfChanged | src/factory/hexmode.cpp:52-73 | changing one byte leaves the bytes of all other rows alone |
| HexRender.AppendedViewIff | src/stc/hexmode.cpp:67-75 | the rendering of a text behind that of another is the rendering of both exactly when one of them is empty |
| HexRender.AppendedViewFails | src/stc/hexmode.cpp:67-75 | one byte appended to one byte |
| HexLine.ByteOnView | src/stc/hexmode-line.cpp:13-58 | the line and column captured at the position of a byte are those of the byte, with both ways of capturing |
| HexLine.IndexOfByte | src/stc/hexmode-line.cpp:60-81 | every column of a byte gives the same index, is editable, and has the byte's column in the other field as its partner |
| HexLine.OtherFieldTwice | src/stc/hexmode-line.h:61-75 | the other field of the other field is the start of the same byte's own field |
| HexLine.IndexIffSixteen | src/stc/hexmode-line.h:86 | the index arithmetic finds every byte exactly when lines hold 16 bytes or there is one line |
| HexLine.EightPerLineFails | src/stc/hexmode-line.h:86 | with eight bytes per line the ninth byte is taken for the seventeenth |
| HexLine.GotoLandsOnByte | src/stc/hexmode.cpp:136-155 | in any view with lines as long as the rendered ones, going to an offset lands on the ASCII column of the byte at that offset |
| HexLine.StepMovesOneByte | src/stc/hexmode-line.cpp:289-337 | in any such view an arrow key moves to the neighbouring byte, across line ends too, in the same field but for a low nibble, which falls back to the high one over a line end; from a high nibble or an ASCII column left undoes right |
| HexLine.StepAtEnds | src/stc/hexmode-line.cpp:289-337 | where left of the first byte and right of the last one lead, from every field |
| HexLine.RowStartIs | src/factory/hexmode.cpp:52-73 | every line of a view starts where it would if all lines were full |
| HexEdit.ViewAfterRow | src/stc/hexmode-line.cpp:165-234 | after one line of a view is overwritten, the view shows the changed buffer exactly when that line shows the changed row |
| HexEdit.EditedRowAgrees | src/stc/hexmode-line.cpp:165-234 | a row with both digits and the ASCII character of a byte overwritten shows the changed bytes exactly when these three are those of the byte |
| HexEdit.ViewAfterEdit | src/stc/hexmode-line.cpp:165-273 | the same for the whole view, up to letter case and character for character |
| HexEdit.LocateByte | src/stc/hexmode-line.cpp:13-81 | a column with an index belongs to a field of the byte with that index, in any view that shows the buffer |
| HexEdit.LikeIsShaped | src/stc/hexmode-line.cpp:13-58 | a view that shows a buffer, in any letter case, has lines as long as the rendered ones |
| HexEdit.MisplacedCode | src/stc/hexmode-line.cpp:251-273 | a code written from the second digit on destroys the blank, so the view no longer shows the buffer |
| HexEdit.DigitsOfTyped | src/stc/hexmode-line.cpp:207-218 | the digits shown after typing over one of them, against the digits of the byte written |
| HexEdit.EmptyView | src/stc/hexmode-line.cpp:60-81 | the view of the empty buffer is empty, and its position stands for a first byte in the hex field |
| HexEdit.LineEndOnRows | src/stc/hexmode-line.cpp:13-58 | the end of a full line stands for the first byte of the next one, in its ASCII field |
| Hexmode.FirstDigitIff | src/stc/hexmode-line.cpp:211-215 | what typing a first digit writes is the byte intended exactly when both digits were the same |
| Hexmode.FirstDigitFails | src/stc/hexmode-line.cpp:211-215 | typing 5 over the first digit of 34 writes 53 |
| Hexmode.PairShowsByteIff | src/stc/hexmode-line.cpp:147-160 | the byte inserted for a pair shows that pair exactly when both characters are hex digits |
| Hexmode.HalfPairFails | src/stc/hexmode-line.cpp:147-160 | the pair 1g inserts the byte 01 |
| Hexmode.PairThrowsIff | src/stc/hexmode-line.cpp:147-160 | a pair with a digit throws exactly when it begins with neither a digit, white space nor a sign |
| Hexmode.OddPairs | src/stc/hexmode-line.cpp:147-160 | a blank and a plus before a digit are skipped, a minus wraps round, to the byte 251 for -5, and g1 throws |
| Hexmode.CaretBehindIff | src/stc/hexmode-line.cpp:130-149 | after an insertion at the caret in the ASCII field the caret is on the same byte, behind what was inserted, exactly when that does not reach beyond the start of the next line |
| Hexmode.TwoAtLineEndFails | src/stc/hexmode-line.cpp:130-149 | two characters inserted at the last byte of a line leave the caret short of that byte |
| Hexmode.DeleteLeaves | src/stc/hexmode-line.cpp:92 | the length of what a deletion leaves, and which byte stands at each place of it |
| Hexmode.DeleteUndoesInsert | src/stc/hexmode-line.cpp:83-130 | deleting as many bytes as were inserted, from where they are, gives back the bytes from before |
| Hexmode.InAndOutIsNothing | src/stc/hexmode-line.cpp:83-163 | as two edits, an insertion of either kind and the deletion of what it inserts leave the bytes as they were, also of an empty buffer |
| Hexmode.Hexmode.Line | src/factory/hexmode.cpp:29-50 | the loop over the bytes of a line gives the rendered line |
| Hexmode.Hexmode.Lines | src/factory/hexmode.cpp:52-73 | the loop over the lines gives the rendering, and nothing while hex mode is off |
| Hexmode.Hexmode.AppendText | src/stc/hexmode.cpp:67-75 | what buffer and control hold afterwards, and exactly when the view is still the rendered buffer |
| Hexmode.Hexmode.SetText | src/stc/hexmode.cpp:279-294 | the control shows exactly the rendered text, whatever it showed before |
| Hexmode.Hexmode.Set | src/stc/hexmode.cpp:49-123 | in a visual control switching on shows the text rendered and switching off shows the buffer as it is; otherwise only the mode changes |
| Hexmode.Hexmode.Sync | src/stc/hexmode.cpp:296-306 | the view is the rendered buffer again and the buffer is unchanged |
| Hexmode.Hexmode.Erase | src/stc/hexmode-line.cpp:83-100 | how many bytes are left and which byte stands at each place, when nothing happens, and that the view is the rendered buffer with the caret put back |
| Hexmode.Hexmode.Insert | src/stc/hexmode-line.cpp:123-163 | what is inserted in either field, what is refused, what throws, where the caret goes, and that the view is the rendered buffer |
| Hexmode.Hexmode.Replace | src/stc/hexmode-line.cpp:165-234 | which byte is written, and exactly when the two patches leave a view that shows the buffer, or the rendered view |
| Hexmode.Hexmode.ReplaceHex | src/stc/hexmode-line.cpp:251-273 | which byte is written, and that the view shows the buffer exactly when the column was the first digit and the value is shown as its byte is |
| Hexmode.Hexmode.Goto | src/stc/hexmode.cpp:136-155 | in any view that shows the buffer the caret is on the byte at the offset |
| Hexmode.Hexmode.SetPos | src/stc/hexmode-line.cpp:289-337 | the caret moves as the key function of the moving lemmas says |
| Hexmode.Hexmode.Perform | src/stc/hexmode-line.cpp:83-273 | one edit at the position of its byte does to the buffer what it does to plain bytes, and the view shows it |
| Hexmode.Hexmode.Run | src/stc/hexmode-line.cpp:83-273 | any sequence of edits, also from and through an empty buffer, leaves the buffer that plain byte edits give, and a view that shows it, exactly the rendered one with upper-case digits |
| Hexmode.Hexmode.InsertAndErase | src/stc/hexmode-line.cpp:83-163 | through the control, an insertion and its deletion give back the buffer and the view |
| QueueThread.InvariantKept | include/wex/queue-thread.h:97-203 | every step of every thread keeps the invariant: first in first out with nothing lost or doubled, one lock holder, one owner per event, every event taken is handed over before the next is taken, and the counts after a stop |
| QueueThread.RunKeepsInvariant | include/wex/queue-thread.h:97-203 | the invariant holds after any interleaving, for a pool of any size |
| QueueThread.RunKeepsOnce | include/wex/queue-thread.h:184-201 | when handlers empty the pointer, after any interleaving every event taken was handed over exactly once, or not yet while its worker is on the way to the handler |
| QueueThread.HandedOverTwice | include/wex/queue-thread.h:198-201 | an event that its handler leaves in the pointer is handed over again after an idle wait, shown by a sequence of steps |
| QueueThread.NeverTwiceIffEmptied | include/wex/queue-thread.h:162-203 | no interleaving hands an event over twice exactly when every handler empties the pointer |
| QueueThread.StartFillsPool | include/wex/queue-thread.h:113-135 | after any interleaving, a start that has come back has left exactly the workers that the last start of a stopped pool asked for; a start of a running pool and a stop of a stopped one change nothing |
| QueueThread.RunKeepsAlive | include/wex/queue-thread.h:113-127 | after any interleaving no worker has left its loop while the flag is up |
| QueueThread.WorkNeverStuck | include/wex/queue-thread.h:162-203 | then some worker can always take a step |
| QueueThread.WorkDrains | include/wex/queue-thread.h:166-196 | while there is an event, each step of a worker lowers the backlog, and an event more raises it by eight |
| QueueThread.QueueIsDrained | include/wex/queue-thread.h:162-203 | so in any interleaving the queue is empty after at most as many steps as the backlog and eight more for every event emplaced meanwhile |
| QueueThread.StopAdvances | include/wex/queue-thread.h:129-160 | while stopping, every step of a worker or of the stopping thread lowers a rank |
| QueueThread.StopNeverStuck | include/wex/queue-thread.h:129-160 | while stopping, some such step can always be taken |
| QueueThread.StopEnds | include/wex/queue-thread.h:129-160 | so stopping ends after at most as many such steps as the rank |
| QueueThread.AfterStop | include/wex/queue-thread.h:129-160 | afterwards no worker is left, every event taken was handed over, exactly once if its handler empties the pointer, at most one event per worker was taken since the flag fell, and the rest stay queued in order |
| RfwFold.GetLinePosEol | src/lexers/lex-rfw.h:162-177 | the scan finds whether the part of a line that is looked at holds the mark first behind white space |
| RfwFold.IsIff | src/lexers/lex-rfw.h:162-231 | a line is a comment, pipe or tab line exactly when its mark stands before its last character, behind blanks only but for the tab |
| RfwFold.Fold | src/lexers/lex-rfw.cpp:770-853 | the character loop leaves exactly the levels of a fold from its first to its last line, the relation that the following lemmas are about |
| RfwFold.ChangeOfDepth | src/lexers/lex-rfw.cpp:788-830 | counting up and down by neighbouring lines comes to the kinds that two lines share |
| RfwFold.FoldInTwo | src/lexers/lex-rfw.cpp:770-853 | folding a part and then the part behind it is folding both at once, from a right level or a wrong one, and a level right before is right after |
| RfwFold.FoldInParts | src/lexers/lex-rfw.cpp:770-853 | the same for any cuts at line starts |
| RfwFold.WholeFold | src/lexers/lex-rfw.cpp:770-853 | a whole fold gives every line 0x400 and one more for each folded kind whose mark it and the line before it have, and its flags |
| RfwFold.FlagsOfFold | src/lexers/lex-rfw.cpp:832-852 | in any fold, from a right level or a wrong one, a line is a fold point exactly when there is something on it and the number after it is higher, white exactly when folding is compact and it is all white space, and has no other flag; the line after keeps its flags and no other line changes |
| RfwFold.FoldOfFour | src/lexers/lex-rfw.cpp:770-853 | the levels of two comments, a line that is none and an empty one |
| RfwFold.ResumeIffSettled | src/lexers/lex-rfw.cpp:770-784 | a resumed fold agrees with a whole one exactly when the level it starts from does |
| RfwFold.RefoldAfterEdit | src/lexers/lex-rfw.cpp:770-853 | after an edit, folding again from a line that the edit did not reach gives what a whole fold gives |
| RfwFold.RefoldFromEditIff | src/lexers/lex-rfw.cpp:770-784 | folding again from the edited line does so exactly when its own depth did not change |
| RfwFold.RefoldFromEditFails | src/lexers/lex-rfw.cpp:770-784 | a document and an edit after which a fold from the edited line leaves it one level too low |
| CommentWrap.GetWordIff | src/core/util.cpp:251-268 | for any text, the word taken is the first one, and the words left are the others exactly when only white space is left of it and the next does not begin with white space |
| CommentWrap.WordsAreTokens | src/core/util.cpp:251-268 | the words are the tokens between blanks and tabs |
| CommentWrap.TakenIsWordsIff | src/core/util.cpp:251-268 | for any text, taking words until nothing is left takes its words, in order and each once, exactly when it is clean in that sense |
| CommentWrap.PlainTextIff | src/core/util.cpp:251-268 | for a text with no other white space than blanks and tabs, exactly when no blank leads it |
| CommentWrap.LeadingBlankFails | src/core/util.cpp:259-263 | a one-letter word behind a blank is taken twice |
| CommentWrap.AlignText | src/factory/lexer.cpp:280-315 | the loop gives the block of the wrapped words, and throws when a line of the block does; the comment made reads back as the text exactly when the wrap keeps its words |
| CommentWrap.WordsKeptIff | src/factory/lexer.cpp:291-310 | the words read back from the lines are the words wrapped exactly when there are none, the first one fits behind the header, or no two neighbours fit on a line |
| CommentWrap.WrapGlues | src/factory/lexer.cpp:295-309 | once a word has started a line before any word fitted, the words read back are those wrapped exactly when no two neighbours fit on a line |
| CommentWrap.LostBlankFails | src/factory/lexer.cpp:295-309 | three words of which the last two come out as one |
| CommentWrap.WrapWithinIff | src/factory/lexer.cpp:280-315 | every line keeps within the limit exactly when every word does with its header or indent |
| CommentWrap.FullerLine | src/factory/lexer.cpp:291-310 | starting with a fuller line never takes fewer lines |
| CommentWrap.FewestLines | src/factory/lexer.cpp:291-310 | no in-order grouping that fits needs fewer lines than the greedy count |
| CommentWrap.MinLinesIsLeast | src/factory/lexer.cpp:280-315 | no in-order layout of all words within the limit has fewer lines than the least number |
| CommentWrap.MinLinesIsReached | src/factory/lexer.cpp:280-315 | some layout has just that many, when every word fits by itself |
| CommentWrap.WrapIsShortestIff | src/factory/lexer.cpp:280-315 | the wrap has that least number of lines exactly when the first word fits behind the header with a character to spare, or the blank lost later saves a line; otherwise it has one more |
| CommentWrap.FullLineFails | src/factory/lexer.cpp:297-303 | a word as long as a line gets an empty line before it |
| CommentWrap.AlignedText | src/factory/lexer.cpp:280-315 | from text to lines: words kept in order, lines within the width exactly when the words are, and as few lines as can be |
| CommentWrap.FilledLineIff | src/factory/lexer.cpp:598-644 | for any delimiters, when a line is filled out, when that throws, and its exact size: the line size, and one more without a begin delimiter |
| CommentWrap.NoBeginFails | src/factory/lexer.cpp:598-644 | with an end delimiter only, a line of ten comes out as eleven |
| CommentWrap.LineReadsBack | src/factory/lexer.cpp:598-644 | a comment line is its begin, one fill character, its text, more of that character, and its end behind one of them; and which character that is |
| CommentWrap.UnfilledLine | src/factory/lexer.cpp:598-644 | a line that is not to be filled out is always made, and nothing is added but the delimiters |
| CommentWrap.HeaderCanFill | src/factory/lexer.cpp:619-627 | behind a header no line is empty, so the character to fill out with is always there |
| CommentWrap.BlockIff | src/factory/lexer.cpp:280-315 | a block is made exactly when each of its lines is |
| CommentWrap.FilledBlockIff | src/factory/lexer.cpp:280-315 | all lines of a filled-out block have the line size exactly when the wrapped words keep within the usable width |
| CommentWrap.CommentReadsAsIff | src/factory/lexer.cpp:280-315 | cut at its line ends, without delimiters and behind the header or as many blanks, a comment has the words of its text exactly when the first fits behind the header or no two neighbours fit on a line |
| CommentWrap.CommentIsShortest | src/factory/lexer.cpp:280-315 | a comment whose first word fits behind the header has as few lines as its words can be put on |
| CommentWrap.FilledComment | src/factory/lexer.cpp:280-315 | filled out between two delimiters, every line of the comment has the line size |
| CommentWrap.HelloComment | src/factory/lexer.cpp:280-315 | the comment made of one word |
| AdaLiteral.GroupedIff | src/lexers/LexAda.cxx:570-602 | the rule for grouped characters derives the words that start and end well with every underline behind a good character |
| AdaLiteral.MantissaIff | src/lexers/LexAda.cxx:614-638 | what the two flags accept is what the grammar derives with or without a point |
| AdaLiteral.ValueGrows | src/lexers/LexAda.cxx:652-656 | a longer base has no smaller value, so giving up on a base beyond sixteen is sound |
| AdaLiteral.DecimalIff | src/lexers/LexAda.cxx:614-638 | a decimal literal can be cut in one way only, behind its longest mantissa |
| AdaLiteral.BasedIff | src/lexers/LexAda.cxx:639-714 | a based literal can be cut in one way only, at its first two number signs |
| AdaLiteral.ExponentIff | src/lexers/LexAda.cxx:716-758 | an exponent is a letter, an allowed sign and a numeral, told apart by its first two characters |
| AdaLiteral.DecimalNumber | src/lexers/LexAda.cxx:614-638 | the loop leaves just the exponent to decide, or there is no decimal literal |
| AdaLiteral.ParseBase | src/lexers/LexAda.cxx:640-669 | the loop reads the value of a legal base, or there is none |
| AdaLiteral.ParseBased | src/lexers/LexAda.cxx:670-714 | the loop accepts exactly the mantissas over the digits of the base |
| AdaLiteral.ParseExponent | src/lexers/LexAda.cxx:716-758 | accepted exactly when the rest of the number is an exponent, with a minus only behind a point |
| AdaLiteral.IsValidNumber | src/lexers/LexAda.cxx:604-762 | true exactly for the numeric literals of sections 2.4.1 and 2.4.2 of ISO/IEC 8652:1995 |
| AdaLiteral.IsValidIdentifier | src/lexers/LexAda.cxx:570-602 | true exactly for the identifiers of section 2.3 over ASCII letters |
| AdaLiteral.Samples | src/lexers/LexAda.cxx:604-762 | a literal of base sixteen with all its parts, one with a digit beyond its base, and one with a minus but no point |
| JsonTree.FindAfter | src/core/config-imp.cpp:44-71 | what is found at any path after indexing or assigning along another |
| JsonTree.ThrowsIff | src/core/config-imp.cpp:44-71 | indexing throws exactly when a scalar stands on the way |
| JsonTree.AnswerAfterSet | src/core/config-imp.h:61-78 | after a set its path answers with the value, paths above and below answer nothing, all others what they did |
| JsonTree.AnswerAfterLookup | src/core/config-imp.h:80-100 | the nodes a lookup creates change no typed answer anywhere |
| JsonTree.NodesAfterLookup | src/core/config-imp.cpp:44-71 | a lookup makes exist exactly the nodes on its way |
| JsonTree.DescendOnward | src/core/config-imp.cpp:44-71 | indexing one part at a time comes to the same as indexing the whole path |
| JsonTree.ThrowCreatesNothing | src/core/config-imp.h:61-78 | when indexing throws, the steps before it have created nothing |
| JsonTree.SetShows | src/core/config-imp.h:61-78 | on the flat table of values a set replaces one entry and drops those below, or changes nothing below another value |
| Tokenize.TokensIff | include/wex/tokenize.h:18-33 | the tokens are the longest runs without a separator, all of them in order, and nothing else is |
| ItemPath.RouteOfDotted | src/core/config-imp.cpp:44-71 | up to six parts an item is kept at the path it spells, a longer one under its last part at the root |
| ItemPath.RouteOfChildIff | src/core/util.cpp:21-57 | the key of a child is kept in the parent's own member exactly when the parent's name has no dot |
| ItemPath.CutAround | src/core/util.cpp:21-57 | what is before and behind the first or last of a character makes up the text around it, and the part cut off at that end holds no other |
| ConfigStore.ConfigImp.constructor | src/core/config-imp.cpp:27-42 | a child store starts with the item's node, or with its parent's emptied |
| ConfigStore.ChildStartsEmpty | src/core/config-imp.cpp:27-42 | the child store of a missing item holds no item, and is the empty value of its parent's kind |
| ConfigStore.ConfigImp.Accessor | src/core/config-imp.cpp:44-71 | the node reached, what was created, and that a throw creates nothing |
| ConfigStore.ConfigImp.Set | src/core/config-imp.h:61-78 | the item's path is assigned, or the store is unchanged |
| ConfigStore.ConfigImp.Value | src/core/config-imp.h:80-100 | kind by kind, the answer is the value from before the lookup, or the default for a missing value and for one of another kind |
| ConfigStore.ConfigImp.Exists | src/core/config-imp.cpp:93-104 | whether the item was there before the call, and exactly when it throws |
| ConfigStore.ConfigImp.Perform | src/core/config-imp.h:61-100 | a sequence of uses, with the answers it gets |
| ConfigStore.RunRefinesTable | src/core/config-imp.h:61-100 | any sequence of sets and lookups is answered as a plain table of values would answer it |
| ConfigStore.GetAfterPut | src/core/config-imp.h:61-100 | a text, number, flag or list that was set is what the next lookup with a default of its kind answers; a default of another kind is answered itself |
| ConfigStore.GetAfterThrow | src/core/config-imp.h:61-100 | after a set that throws a lookup answers what it would have without it |
| ConfigStore.ExistsAfterLookupIff | src/core/config-imp.cpp:93-104 | for any store and names, after a lookup an item exists exactly when it did, or when the lookup is of a dotted item, does not throw, and goes by it |
| Config.Config.ChildStart | src/core/config.cpp:73-83 | when a session starts, and with what |
| Config.Config.ChildEnd | src/core/config.cpp:49-71 | the local store becomes the parent's member, or nothing changes when the root is a scalar |
| Config.Config.SetFirstOf | src/core/config.cpp:332-347 | the value moves to the front of the stored list |
| Config.Config.Session | src/core/config.cpp:49-83 | a session with any writes, as a function of the store and the writes |
| Config.WriteBackCommutes | src/core/config.cpp:49-83 | writing the local store back at the end comes to the same as having written it back at the start |
| Config.SessionIsDirectIff | src/core/config.cpp:49-83 | a session leaves what setting parent.key directly leaves, without the dotted writes below the parent, exactly when it sets a key or the parent was there or the root is a scalar |
| Config.SessionAnswers | src/core/config.cpp:49-83 | for any store, writes and key, what parent.key answers after the session |
| Config.SessionKeyFoundIff | src/core/config.cpp:73-83 | for any store and keys set, the value set last is found under its dotted name exactly when the parent's name has no dot and neither root nor parent is a scalar, or, with a dot, when it was found there before |
| Config.DottedParentFails | src/core/config.cpp:73-83 | a key set under the parent a.b of an empty store is not found |
| Config.ScalarParentFails | src/core/config-imp.cpp:27-42 | a session of a parent that holds a number leaves the store as it was |
| Config.KeptInStoreIff | src/core/config.cpp:332-347 | the stored list is the first values by most recent use exactly when no scalar stands above the item |
| RecentList.UseFirstIff | src/core/config.cpp:332-347 | one use keeps the first of the list with the value in front, exactly when trimming hits only what is in excess |
| RecentList.KeptIsMostRecent | src/core/config.cpp:332-347 | trimming at every use keeps the same values as trimming the full history |
| RecentList.RecencyHoldsUses | src/core/config.cpp:332-347 | the full history holds exactly the values used |
| RecentList.RecencyIsByLastUse | src/core/config.cpp:332-347 | the full history is ordered by last use |
| Scope.Scope.CheckLevels | src/stc/scope.cpp:20-53 | levels too deep are dropped and missing ones opened |
| Scope.Scope.Sync | src/stc/scope.cpp:133-137 | exactly the levels up to the current one are open |
| Scope.Scope.Find | src/stc/scope.cpp:82-86 | the iterator stands at the innermost binding, or at the end |
| Scope.Scope.Insert | src/stc/scope.cpp:99-110 | a name bound at the level keeps its entry, and the iterator stands at it |
| Scope.Scope.Get | src/stc/scope.cpp:88-97 | the entry at the current level, made empty when there was none |
| Scope.LevelsOpen | src/stc/scope.cpp:20-53 | after any history one map more than the current level is open |
| Scope.EmptyNameStays | src/stc/scope.cpp:36-45 | after any history the empty name is bound at every open level, to the empty entry |
| Scope.FiltersHoldLive | src/stc/scope.cpp:20-53 | after any history a name is bound at a level exactly when it was bound there in the block still open, to what came first |
| Scope.FindSeesInnermost | src/stc/scope.cpp:112-131 | a lookup finds the innermost level with such a binding, and only it |
| Scope.LeftNamesStayGone | src/stc/scope.cpp:20-53 | once a block was left, whatever follows, a name is bound at its depth exactly when it was bound there since |
| ReplaceAll.JoinOfSplit | src/common/stream.cpp:170-192 | the pieces between the matches and the matches make up the text |
| ReplaceAll.SplitIff | src/common/stream.cpp:170-192 | the pieces are the only way to cut the text at matches that are leftmost and do not overlap |
| ReplaceAll.ReplacedIsSameIff | src/common/stream.cpp:170-192 | the text is unchanged exactly when there is no match or the replacement is the text searched for |
| ReplaceAll.ReplaceAll | src/common/stream.cpp:170-192 | the loop ends and puts the replacement between the pieces of the input, with the count, the length and the first match |
| SortLines.LeqIff | src/factory/sort.cpp:161-163 | keys are ordered by the first character in which they differ, a prefix first |
| SortLines.StableSortIff | src/factory/sort.cpp:159-208 | the container that keeps equal keys is the stable sort of its elements, and nothing else is |
| SortLines.UniqueSortIff | src/factory/sort.cpp:182-186 | the container without equal keys is sorted and keeps the first element of each key, and nothing else is |
| SortLines.PairsAre | src/factory/sort.cpp:166-193 | every token makes a line, in order, with the separator behind it and as many characters from its column as there are for a key |
| SortLines.InsertAllPermutes | src/factory/sort.cpp:182-192 | sorting loses and adds nothing |
| SortLines.ReversedAt | src/factory/sort.cpp:199-203 | descending order is the exact reverse |
| SortLines.ColumnStaysIff | src/factory/sort.cpp:35-47 | a line with a key put in its column is unchanged outside it exactly when the key is as long as its own |
| SortLines.ColumnSortKeepsTheRest | src/factory/sort.cpp:35-47 | with lines long enough the sorted columns hold the same keys as before, and nothing else moves |
| SortLines.Sort.GetLines | src/factory/sort.cpp:35-47 | the lines with their new columns, or a throw for a line that ends before the column |
| SortLines.SortedFrom | src/factory/sort.cpp:182-208 | a sort of lines makes none up, and without dropping doubles loses none |
| SortLines.SortedText | src/factory/sort.cpp:182-219 | cut at its separators, the sorted text has just the lines of the sort |
| SortLines.TwoLines | src/factory/sort.cpp:182-186 | a line that is there twice is there twice afterwards, and once when doubles are dropped |
| SortLines.Sort.String | src/factory/sort.cpp:151-219 | the input when the separator is not white space; otherwise a stable sort of the lines, or one that keeps the first of each key, read from the back when descending; with a length every line where it was with one of the sorted keys in its column, or a throw when a line ends before the column |
| FindMargin.Find.SetPos | src/data/find.cpp:77-111 | where a search starts and ends, in either direction and round |
| FindMargin.Find.Scan | src/data/find.cpp:42-57 | the loop finds the first match from its first line to its end line |
| FindMargin.Find.FindMargin | src/data/find.cpp:30-75 | the match the fewest steps away in the direction of the search, the line of origin last; without wrapping only as far as the end of the document |
| FindMargin.NearestIsUnique | src/data/find.cpp:30-75 | no two lines can both be that match |
| FindMargin.FailsIff | src/data/find.cpp:59-72 | a search that wraps fails exactly when no line matches |

## Left out

- Windows, dialogs, menus, printing, styling, files, processes, logging, locale and `std::regex`: user interface and foreign calls.
- The control's internals: it is a text with lines, a caret and a fixed line end; tabs do not widen columns, and undo, selections and modification marks are not modelled.
- `hexmode::replace_target` and the vi selections it serves: its test for replacing and its count for deleting read the target's end differently.
- `hexmode::undo`: its effect on the text is the control's own undo buffer, which is not part of this model.
- The hex dialogs, and the highlighting of the other field.
- Hexmode.Hexmode.Replace: is stated for a view that shows the buffer; nothing is claimed for further patches of a view that an earlier edit has made disagree, which the next edit that renders the view puts right. The caret stays, as in the code; moving it on is up to the caller.
- HexRender.RowsJoinable: the character that stands for control characters is the dot that switching hex mode on sets in the control (src/stc/hexmode.cpp:53); another symbol set meanwhile is not modelled.
- QueueThread.InvariantKept: the protocol is a state machine on values, so no step is smaller than one access to the flag, the queue or a lock; emplacing is one step because it happens under the queue mutex, and a wait may end at any time, which covers notifications, timeouts and spurious wake-ups.
- QueueThread.StopEnds: handlers are taken to return; a handler that calls stop itself is not modelled.
- RfwFold.Fold: quotes, styles and the lexer's own state are not read by the fold and are not modelled.
- CommentWrap.AlignText: `get_word` is a function that returns the word and the text left, where the code changes its argument; lexers other than through their two delimiters, the hypertext flag and the line size are not modelled.
- AdaLiteral.IsValidIdentifier: letters are the ASCII letters of the code; the standard also allows the letters of Latin-1.
- ConfigStore.ConfigImp.Value: values are texts, whole numbers, flags and lists of texts; the conversions between numbers and flags that the JSON library makes are not modelled, a value of another type gives the default.
- ConfigStore.ConfigImp.Perform: a throw of `exists` is taken to be caught by the caller.
- `config::erase`, `children`, `size`, `elements`, `toggle` and the status bar, colour and font values: one-line uses of what is modelled.
- Scope.Scope.Find: the level has to be open; the code reads beyond its vector otherwise.
- `scope::class_name`: it looks at the iterator of an earlier lookup.
- ReplaceAll.ReplaceAll: the search text is not empty, which `process_begin` sees to (src/common/stream.cpp:136-145).
- SortLines.Sort.String: characters are compared by their code; selections and rectangular blocks in the control are not modelled.
- FindMargin.Find.FindMargin: a match is a property of a line and false outside the document; the fields are as the constructor sets them, so a second search with the same object after it wrapped is not covered.
- vi and ex, macros, debugging, version control, ctags and the remaining lexers.
