/** Wrapping the words of a text into comment lines. */
module CommentWrap {
  import opened Strings
  import opened Tokenize

  datatype Result<+T> = Success(value: T) | Failure

  // ----- Words --------------------------------------------------------------------

  predicate IsBlank(c: char) {
    c == ' ' || c == '\t'
  }

  function SkipBlanks(s: string): (rest: string)
    ensures |rest| <= |s| && (rest != [] ==> !IsBlank(rest[0]))
  {
    if s != [] && IsBlank(s[0]) then SkipBlanks(s[1..]) else s
  }

  lemma {:induction false} SkipIs(s: string)
    ensures SkipBlanks(s) == s[|s| - |SkipBlanks(s)|..]
  {
    if s != [] && IsBlank(s[0]) {
      SkipIs(s[1..]);
    }
  }

  function TrimLeft(s: string): (rest: string)
    ensures |rest| <= |s|
  {
    if s != [] && IsSpace(s[0]) then TrimLeft(s[1..]) else s
  }

  function FirstWord(s: string): (word: string)
    ensures |word| <= |s| && word == s[..|word|]
    ensures s != [] && !IsBlank(s[0]) ==> word != []
  {
    if s != [] && !IsBlank(s[0]) then [s[0]] + FirstWord(s[1..]) else []
  }

  /** The words of a text: its longest runs without a blank. */
  function Words(s: string): seq<string>
    decreases |s|
  {
    var t := SkipBlanks(s);
    if t == [] then [] else [FirstWord(t)] + Words(t[|FirstWord(t)|..])
  }

  /** The first word of a text, and the text with as many characters cut from its start;
      then leading space is trimmed. */
  function GetWord(text: string): (r: (string, string))
    ensures text != [] ==> |r.1| < |text|
  {
    var word := FirstWord(SkipBlanks(text));
    (word, TrimLeft(text[|word|..]))
  }

  /** The words a loop over GetWord takes from a text. */
  function Taken(text: string): seq<string>
    decreases |text|
  {
    if text == [] then [] else [GetWord(text).0] + Taken(GetWord(text).1)
  }

  lemma {:induction false} WordsOfSkipped(s: string)
    ensures Words(SkipBlanks(s)) == Words(s)
  {
  }

  lemma WordsOfWord(t: string)
    requires t != [] && !IsBlank(t[0])
    ensures Words(t) == [FirstWord(t)] + Words(t[|FirstWord(t)|..])
  {
  }

  const BLANKS := " \t"

  lemma {:induction false} FirstWordIsToken(s: string)
    ensures FirstWord(s) == FirstToken(s, BLANKS)
  {
    if s != [] && !IsBlank(s[0]) {
      FirstWordIsToken(s[1..]);
    }
  }

  /** The words of a text are its tokens between blanks and tabs. */
  lemma {:induction false} WordsAreTokens(s: string)
    ensures Words(s) == Tokens(s, BLANKS)
    decreases |s|
  {
    hide Words;
    if s == [] {
      WordsOfNothing();
    } else if IsBlank(s[0]) {
      WordsAreTokens(s[1..]);
      WordsOfSkipped(s);
      WordsOfSkipped(s[1..]);
    } else {
      FirstWordIsToken(s);
      WordsOfWord(s);
      WordsAreTokens(s[|FirstWord(s)|..]);
    }
  }

  lemma {:induction false} TrimSpace(space: string, s: string)
    requires AllSpace(space)
    ensures TrimLeft(space + s) == TrimLeft(s)
  {
    if space == [] {
      assert space + s == s;
    } else {
      assert (space + s)[1..] == space[1..] + s;
      TrimSpace(space[1..], s);
    }
  }

  /** Trimming a text that is not all space keeps what is behind it. */
  lemma {:induction false} TrimBefore(s: string, after: string)
    requires !AllSpace(s)
    ensures TrimLeft(s + after) == TrimLeft(s) + after && TrimLeft(s) != []
  {
    if IsSpace(s[0]) {
      assert (s + after)[1..] == s[1..] + after;
      assert !AllSpace(s[1..]) by {
        var i :| 0 <= i < |s| && !IsSpace(s[i]);
        assert s[1..][i - 1] == s[i];
      }
      TrimBefore(s[1..], after);
    }
  }

  lemma {:induction false} TrimmedStart(s: string)
    ensures TrimLeft(s) != [] ==> !IsSpace(TrimLeft(s)[0])
    ensures NoBlank(s) ==> NoBlank(TrimLeft(s))
  {
    if s != [] && IsSpace(s[0]) {
      TrimmedStart(s[1..]);
    }
  }

  /** The text behind the first word. */
  function Behind(text: string): string {
    SkipBlanks(text)[|FirstWord(SkipBlanks(text))|..]
  }

  /** The end of the first word that is still there when as many characters as it has are cut from
      the start of the text: as many as there are blanks before it. */
  function LeftOver(text: string): string {
    var t, word := SkipBlanks(text), FirstWord(SkipBlanks(text));
    if |text| - |t| < |word| then word[|word| - (|text| - |t|)..] else word
  }

  lemma LeadIsBlank(text: string)
    ensures forall i :: 0 <= i < |text| - |SkipBlanks(text)| ==> IsBlank(text[i])
  {
  }

  lemma BlankBehindWord(t: string)
    ensures |FirstWord(t)| < |t| ==> IsBlank(t[|FirstWord(t)|])
  {
  }

  lemma {:induction false} Cut(text: string, t: string, k: nat, n: nat)
    requires k <= |text| && t == text[k..] && n <= |t|
    ensures text[n..] == if k < n then t[n - k..n] + t[n..] else text[n..k] + (t[..n] + t[n..])
  {
    assert t == t[..n] + t[n..];
    if k < n {
      assert text[n..] == t[n - k..];
    } else {
      assert text[n..] == text[n..k] + t;
    }
  }

  /** What the next word is taken from: what is left of the first word, and the text behind it. */
  lemma {:induction false} RestIs(text: string)
    ensures GetWord(text).1 == TrimLeft(LeftOver(text) + Behind(text))
  {
    hide FirstWord, TrimLeft, AllSpace, SkipBlanks;
    var t, word := SkipBlanks(text), FirstWord(SkipBlanks(text));
    var k, n := |text| - |t|, |word|;
    SkipIs(text);
    Cut(text, t, k, n);
    if k < n {
      assert word[n - k..] == t[n - k..n];
    } else {
      LeadIsBlank(text);
      BlanksAreSpace(text[n..k]);
      TrimSpace(text[n..k], word + t[n..]);
    }
  }

  /** The words of a text are the first one and those behind it. */
  lemma WordsSplit(text: string)
    ensures Words(text) == [] <==> SkipBlanks(text) == []
    ensures Words(text) != [] ==> Words(text) == [FirstWord(SkipBlanks(text))] + Words(Behind(text))
    ensures Words(text) != [] ==> Words(text)[0][0] == SkipBlanks(text)[0] && !IsBlank(SkipBlanks(text)[0])
  {
    hide Words;
    WordsOfSkipped(text);
    if SkipBlanks(text) == [] {
      WordsOfNothing();
    } else {
      WordsOfWord(SkipBlanks(text));
    }
  }

  lemma LeftOverClean(text: string)
    ensures NoBlank(LeftOver(text))
  {
    FirstWordClean(SkipBlanks(text));
  }

  /** The first of some words does not begin with white space. */
  predicate PlainStart(words: seq<string>) {
    words == [] || words[0] == [] || !IsSpace(words[0][0])
  }

  /** Of a word, and a text that does not go on with it, the word is the first. */
  lemma {:induction false} WordThenText(u: string, after: string)
    requires u != [] && NoBlank(u) && (after == [] || IsBlank(after[0]))
    ensures Words(u + after) == [u] + Words(after)
  {
    hide Words, FirstWord;
    FirstWordOf(u, after);
    assert (u + after)[0] == u[0];
    WordsOfWord(u + after);
    assert (u + after)[|u|..] == after;
  }

  lemma BehindIsBlank(text: string)
    ensures Behind(text) == [] || IsBlank(Behind(text)[0])
  {
    BlankBehindWord(SkipBlanks(text));
  }

  /** The words that follow when something but white space is left of the first word: it comes again. */
  lemma {:induction false} WordsAfterLeftOver(text: string)
    requires !AllSpace(LeftOver(text))
    ensures Words(GetWord(text).1) == [TrimLeft(LeftOver(text))] + Words(Behind(text))
  {
    hide Words, FirstWord, TrimLeft, SkipBlanks, AllSpace, NoBlank, GetWord, LeftOver, Behind;
    RestIs(text);
    TrimBefore(LeftOver(text), Behind(text));
    LeftOverClean(text);
    TrimmedStart(LeftOver(text));
    BehindIsBlank(text);
    WordThenText(TrimLeft(LeftOver(text)), Behind(text));
  }

  /** Trimming a text leaves its words exactly when the first does not begin with white space. */
  lemma {:induction false} TrimmedWordsIff(text: string)
    ensures Words(TrimLeft(text)) == Words(text) <==> PlainStart(Words(text))
    ensures Words(text) == [] ==> TrimLeft(text) == []
  {
    hide Words, FirstWord, AllSpace;
    var s := SkipBlanks(text);
    SkipIs(text);
    LeadIsBlank(text);
    BlanksAreSpace(text[..|text| - |s|]);
    TrimSpace(text[..|text| - |s|], s);
    assert text == text[..|text| - |s|] + s;
    WordsSplit(text);
    WordsOfSkipped(text);
    TrimmedStart(s);
    hide SkipBlanks;
    TrimmedFirst(TrimLeft(s));
    if s == [] {
      WordsOfNothing();
    }
  }

  lemma BlanksAreSpace(s: string)
    requires forall i :: 0 <= i < |s| ==> IsBlank(s[i])
    ensures AllSpace(s)
  {
  }

  lemma TrimmedFirst(s: string)
    requires s != [] ==> !IsSpace(s[0])
    ensures s == [] <==> Words(s) == []
    ensures s != [] ==> Words(s)[0] != [] && Words(s)[0][0] == s[0] && !IsSpace(s[0])
  {
    hide Words;
    WordsSplit(s);
    if s != [] {
      WordsOfWord(s);
      WordsOfSkipped(s);
    } else {
      WordsOfNothing();
    }
  }

  /** Taking a word leaves the words after it, exactly when nothing but white space is left of it, and
      the next word does not begin with white space of another kind than the blanks between words. */
  lemma {:induction false} GetWordIff(text: string)
    ensures Words(text) != [] ==> GetWord(text).0 == Words(text)[0]
    ensures Words(text) != [] ==>
      (Words(GetWord(text).1) == Words(text)[1..] <==> AllSpace(LeftOver(text)) && PlainStart(Words(text)[1..]))
    ensures Words(text) == [] ==> GetWord(text) == ("", "")
  {
    hide Words, FirstWord, AllSpace, TrimLeft, SkipBlanks, LeftOver, Behind;
    WordsSplit(text);
    if Words(text) == [] {
      OnlyBlanks(text);
    } else {
      assert Words(text)[1..] == Words(Behind(text));
      if AllSpace(LeftOver(text)) {
        RestIs(text);
        TrimSpace(LeftOver(text), Behind(text));
        TrimmedWordsIff(Behind(text));
      } else {
        WordsAfterLeftOver(text);
        assert |Words(GetWord(text).1)| == |Words(Behind(text))| + 1;
      }
    }
  }

  lemma OnlyBlanks(text: string)
    requires SkipBlanks(text) == []
    ensures GetWord(text) == ("", "")
  {
    LeadIsBlank(text);
    BlanksAreSpace(text);
    TrimSpace(text, []);
    assert text + [] == text == text[0..];
  }

  /** No word begins with white space. */
  predicate PlainStarts(words: seq<string>) {
    forall i :: 0 <= i < |words| ==> words[i] != [] && !IsSpace(words[i][0])
  }

  /** A text that can be taken word by word: nothing but white space of its first word is left when the
      word is cut from its start, and no later word begins with white space of another kind. */
  predicate Clean(text: string) {
    text == [] || (Words(text) != [] && AllSpace(LeftOver(text)) && PlainStarts(Words(text)[1..]))
  }

  lemma {:induction false} TakenStarts(text: string)
    requires text != [] ==> !IsSpace(text[0])
    ensures PlainStarts(Taken(text))
    decreases |text|
  {
    hide FirstWord, TrimLeft, PlainStarts;
    if text != [] {
      var word, rest := GetWord(text).0, GetWord(text).1;
      TrimmedStart(text[|word|..]);
      assert SkipBlanks(text) == text;
      assert word != [] && word[0] == text[0];
      TakenStarts(rest);
      hide *;
      TakenFirst(text);
      PlainStartsFirst(word, Taken(rest));
    } else {
      NoPlainStarts();
    }
  }

  lemma NoPlainStarts()
    ensures PlainStarts(Taken([]))
  {
  }

  lemma {:induction false} TakenFirst(text: string)
    requires text != []
    ensures Taken(text) == [GetWord(text).0] + Taken(GetWord(text).1)
  {
  }

  lemma PlainStartsFirst(word: string, words: seq<string>)
    ensures PlainStarts([word] + words) <==> word != [] && !IsSpace(word[0]) && PlainStarts(words)
  {
    assert ([word] + words)[0] == word;
    assert forall i :: 0 <= i < |words| ==> ([word] + words)[i + 1] == words[i];
  }

  /** Nothing is left of the first word of a text that it begins with. */
  lemma NothingLeft(text: string)
    requires text != [] && !IsBlank(text[0])
    ensures LeftOver(text) == [] && AllSpace([]) && Words(text) != []
  {
    WordsOfWord(text);
  }

  /** The loop takes the words of a text, in order and each once, exactly when the text is clean. */
  lemma {:induction false} TakenIsWordsIff(text: string)
    ensures Taken(text) == Words(text) <==> Clean(text)
    decreases |text|
  {
    hide Words, AllSpace, GetWord, LeftOver, Behind, PlainStarts, PlainStart;
    if text == [] {
      WordsOfNothing();
    } else {
      var word, rest := GetWord(text).0, GetWord(text).1;
      assert Taken(text) == [word] + Taken(rest);
      GetWordIff(text);
      RestStarts(text);
      if Words(text) != [] {
        assert Words(text) == [word] + Words(text)[1..];
        TakenIsWordsIff(rest);
        TakenStarts(rest);
        CleanRest(rest);
        PlainTail(Words(text)[1..]);
        WordsOfNothing();
        var words := Words(text)[1..];
        assert Taken(text)[1..] == Taken(rest);
        if !AllSpace(LeftOver(text)) {
          WordsAfterLeftOver(text);
          WordsSplit(text);
          assert Words(rest)[1..] == Words(text)[1..];
          assert |Words(rest)| > |words|;
        }
      }
    }
  }

  lemma PlainTail(words: seq<string>)
    ensures PlainStarts(words) ==> PlainStart(words) && (words != [] ==> PlainStarts(words[1..]))
  {
  }

  lemma CleanRest(rest: string)
    requires rest != [] ==> !IsSpace(rest[0])
    ensures rest != [] ==> Words(rest) != []
    ensures Clean(rest) <==> rest == [] || PlainStarts(Words(rest)[1..])
  {
    hide Words, LeftOver, PlainStarts;
    if rest != [] {
      NothingLeft(rest);
    }
  }

  lemma RestStarts(text: string)
    ensures GetWord(text).1 != [] ==> !IsSpace(GetWord(text).1[0])
  {
    TrimmedStart(text[|GetWord(text).0|..]);
  }

  /** No white space but blanks and tabs. */
  predicate PlainBlanks(s: string) {
    forall i :: 0 <= i < |s| && IsSpace(s[i]) ==> IsBlank(s[i])
  }

  lemma {:induction false} PlainWords(text: string)
    requires PlainBlanks(text)
    ensures PlainStarts(Words(text))
    decreases |text|
  {
    hide Words, IsSpace, IsBlank;
    var t := SkipBlanks(text);
    SkipIs(text);
    WordsSplit(text);
    if Words(text) != [] {
      PlainWords(Behind(text));
      PlainStartsFirst(FirstWord(t), Words(Behind(text)));
    }
  }

  /** A text with no other white space is taken word by word exactly when no blank leads it. */
  lemma {:induction false} PlainTextIff(text: string)
    requires PlainBlanks(text)
    ensures Taken(text) == Words(text) <==> text == [] || !IsBlank(text[0])
  {
    hide Words, Taken, PlainBlanks, PlainStarts, LeftOver, AllSpace;
    TakenIsWordsIff(text);
    if text != [] && Words(text) != [] {
      PlainWords(text);
      PlainTail(Words(text));
      if IsBlank(text[0]) {
        WordsSplit(text);
        SomethingLeft(text);
      } else {
        NothingLeft(text);
      }
    } else if text != [] && !IsBlank(text[0]) {
      NothingLeft(text);
    }
  }

  /** Behind a blank, something is left of the first word of a text without other white space. */
  lemma {:induction false} SomethingLeft(text: string)
    requires PlainBlanks(text) && text != [] && IsBlank(text[0]) && SkipBlanks(text) != []
    ensures !AllSpace(LeftOver(text))
  {
    hide Words, SkipBlanks, FirstWord;
    SkipIs(text);
    WordsSplit(text);
    LeftOverClean(text);
    var left, t := LeftOver(text), SkipBlanks(text);
    var word := FirstWord(t);
    assert word != [] && left != [];
    var k := |word| - |left|;
    assert left[0] == word[k] == t[k] == text[|text| - |t| + k];
  }

  /** A word of one letter with a blank before it is taken twice. */
  lemma {:induction false} LeadingBlankFails(letter: char, word: string, text: string)
    requires !IsSpace(letter) && word == [letter] && text == " " + word
    ensures Words(text) == [word] && Taken(text) == [word, word]
  {
    hide Words, GetWord, SkipBlanks;
    SkipOne(word, text);
    WordsOfSkipped(text);
    OneWord(word);
    TakenLetter(letter, word, text);
    assert Taken([]) == [];
    assert Taken(word) == [word] + Taken([]);
    assert Taken(text) == [word] + Taken(word);
  }

  lemma {:induction false} TakenLetter(letter: char, word: string, text: string)
    requires !IsSpace(letter) && word == [letter] && text == " " + word
    ensures GetWord(word) == (word, []) && GetWord(text) == (word, word)
  {
    hide SkipBlanks, FirstWord, TrimLeft;
    LetterAlone(letter);
    SkipOne(word, text);
    OnlyWord(word);
    assert word[1..] == [];
    assert text[1..] == word;
  }

  lemma {:induction false} OnlyWord(word: string)
    requires NoBlank(word)
    ensures FirstWord(word) == word
  {
    if word != [] {
      OnlyWord(word[1..]);
    }
  }

  lemma {:induction false} LetterAlone(letter: char)
    requires !IsSpace(letter)
    ensures SkipBlanks([letter]) == [letter] == TrimLeft([letter]) && TrimLeft([]) == []
  {
  }
  // ----- Lines --------------------------------------------------------------------

  /** Line by line the words after line, as the loop makes them: a word that does not fit
      starts a line, behind pad; one that fits is put behind a blank, but without one as
      long as none was put anywhere. */
  function Wrap(words: seq<string>, line: string, atBegin: bool, pad: string, limit: nat): (lines: seq<string>)
    ensures lines != []
  {
    if words == [] then [line]
    else if |line| + 1 + |words[0]| > limit then
      [line] + Wrap(words[1..], pad + words[0], atBegin, pad, limit)
    else
      Wrap(words[1..], line + (if line != [] && !atBegin then " " else "") + words[0], false, pad, limit)
  }

  predicate AreWords(words: seq<string>) {
    forall i :: 0 <= i < |words| ==> words[i] != [] && NoBlank(words[i])
  }

  predicate NoBlank(s: string) {
    forall i :: 0 <= i < |s| ==> !IsBlank(s[i])
  }

  /** The words read back from lines, after the header or the blanks in its place. */
  function ReadBack(lines: seq<string>, indent: nat): seq<string> {
    if lines == [] then []
    else (if indent <= |lines[0]| then Words(lines[0][indent..]) else []) + ReadBack(lines[1..], indent)
  }

  lemma {:induction false} FirstWordOf(word: string, rest: string)
    requires NoBlank(word) && (rest == [] || IsBlank(rest[0]))
    ensures FirstWord(word + rest) == word
  {
    if word != [] {
      assert (word + rest)[1..] == word[1..] + rest;
      FirstWordOf(word[1..], rest);
    }
  }

  /** Words of a line to which a word is added behind a blank. */
  lemma {:induction false} WordsOfMore(s: string, word: string, tail: string)
    requires word != [] && NoBlank(word) && tail == " " + word
    ensures Words(s + tail) == Words(s) + [word]
    decreases |s|
  {
    hide Words, FirstWord, NoBlank, SkipBlanks;
    var t := SkipBlanks(s);
    SkipOf(s, tail);
    WordsOfSkipped(s + tail);
    WordsOfSkipped(s);
    if t == [] {
      SkipOne(word, tail);
      OneWord(word);
      WordsOfNothing();
    } else {
      var n := |FirstWord(t)|;
      WordAndMore(t, tail, n);
      WordsOfMore(t[n..], word, tail);
    }
  }

  lemma {:induction false} WordAndMore(t: string, tail: string, n: nat)
    requires t != [] && !IsBlank(t[0]) && tail != [] && IsBlank(tail[0]) && n == |FirstWord(t)|
    ensures Words(t) == [FirstWord(t)] + Words(t[n..])
    ensures Words(t + tail) == [FirstWord(t)] + Words(t[n..] + tail)
  {
    hide Words, FirstWord;
    FirstWordBefore(t, tail);
    assert (t + tail)[n..] == t[n..] + tail;
    WordsOfWord(t);
    WordsOfWord(t + tail);
  }

  lemma {:induction false} SkipOne(word: string, tail: string)
    requires word != [] && NoBlank(word) && tail == " " + word
    ensures SkipBlanks(tail) == word
  {
  }

  lemma WordsOfNothing()
    ensures Words([]) == []
  {
  }

  lemma {:induction false} OneWord(word: string)
    requires word != [] && NoBlank(word)
    ensures Words(word) == [word]
  {
    assert word + [] == word;
    FirstWordOf(word, []);
    WordsOfWord(word);
    assert word[|word|..] == [];
  }

  lemma {:induction false} SkipOf(s: string, rest: string)
    ensures SkipBlanks(s + rest) == if SkipBlanks(s) == [] then SkipBlanks(rest) else SkipBlanks(s) + rest
  {
    if s == [] {
      assert s + rest == rest;
    } else if IsBlank(s[0]) {
      assert (s + rest)[1..] == s[1..] + rest;
      SkipOf(s[1..], rest);
    }
  }

  lemma {:induction false} FirstWordBefore(s: string, rest: string)
    requires s != [] && rest != [] && IsBlank(rest[0])
    ensures FirstWord(s + rest) == FirstWord(s)
  {
    if !IsBlank(s[0]) {
      assert (s + rest)[1..] == s[1..] + rest;
      if |s| > 1 {
        FirstWordBefore(s[1..], rest);
      } else {
        assert s[1..] + rest == rest;
      }
    }
  }

  lemma {:induction false} FirstWordClean(s: string)
    ensures NoBlank(FirstWord(s))
  {
    if s != [] && !IsBlank(s[0]) {
      FirstWordClean(s[1..]);
    }
  }

  lemma {:induction false} WordsAreWords(s: string)
    ensures AreWords(Words(s))
    decreases |s|
  {
    hide Words, AreWords, NoBlank;
    var t := SkipBlanks(s);
    WordsOfSkipped(s);
    if t == [] {
      WordsOfNothing();
      NoWords();
    } else {
      hide SkipBlanks;
      FirstWordClean(t);
      WordsAreWords(t[|FirstWord(t)|..]);
      WordsOfWord(t);
      AreWordsFirst(FirstWord(t), Words(t[|FirstWord(t)|..]));
    }
  }

  lemma NoWords()
    ensures AreWords([])
  {
  }

  lemma AreWordsFirst(word: string, words: seq<string>)
    ensures AreWords([word] + words) <==> word != [] && NoBlank(word) && AreWords(words)
  {
    hide NoBlank;
    assert ([word] + words)[0] == word;
    assert forall i :: 0 <= i < |words| ==> ([word] + words)[i + 1] == words[i];
  }

  lemma {:induction false} ReadBackFirst(line: string, lines: seq<string>, indent: nat)
    requires indent <= |line|
    ensures ReadBack([line] + lines, indent) == Words(line[indent..]) + ReadBack(lines, indent)
  {
  }

  lemma ReadBackLast(line: string, indent: nat)
    requires indent <= |line|
    ensures ReadBack([line], indent) == Words(line[indent..])
  {
    assert [line][1..] == [];
    assert Words(line[indent..]) + [] == Words(line[indent..]);
  }

  /** Words after an indent, once a word is added to them. */
  lemma {:induction false} WordsOfLine(line: string, indent: nat, word: string)
    requires indent <= |line| && word != [] && NoBlank(word)
    ensures Words((line + (if line != [] then " " else "") + word)[indent..]) == Words(line[indent..]) + [word]
  {
    var tail := " " + word;
    if line == [] {
      assert line + "" + word == word;
      OneWord(word);
      WordsOfNothing();
    } else {
      assert (line + " " + word)[indent..] == line[indent..] + tail;
      WordsOfMore(line[indent..], word, tail);
    }
  }

  lemma {:induction false} WordsOfStart(pad: string, word: string)
    requires word != [] && NoBlank(word)
    ensures Words((pad + word)[|pad|..]) == [word]
  {
    assert (pad + word)[|pad|..] == word;
    OneWord(word);
  }

  /** Once a word was put behind the header, no word is lost, split or moved. */
  lemma {:induction false} WrapKeepsWords(words: seq<string>, line: string, pad: string, limit: nat)
    requires AreWords(words) && |pad| <= |line|
    ensures ReadBack(Wrap(words, line, false, pad, limit), |pad|) == Words(line[|pad|..]) + words
  {
    hide Words;
    if words == [] {
      ReadBackFirst(line, [], |pad|);
      assert [line] + [] == [line];
    } else if |line| + 1 + |words[0]| > limit {
      WordsOfStart(pad, words[0]);
      WrapKeepsWords(words[1..], pad + words[0], pad, limit);
      ReadBackFirst(line, Wrap(words[1..], pad + words[0], false, pad, limit), |pad|);
    } else {
      WordsOfLine(line, |pad|, words[0]);
      WrapKeepsWords(words[1..], line + (if line != [] then " " else "") + words[0], pad, limit);
    }
  }

  /** No word fits on the line of the word before it. */
  predicate NoPairFits(word: string, words: seq<string>, indent: nat, limit: nat)
    decreases |words|
  {
    words == [] || (indent + |word| + 1 + |words[0]| > limit && NoPairFits(words[0], words[1..], indent, limit))
  }

  /** When the first word started a line, the first word that fits behind another is glued to it. */
  lemma {:induction false} WrapGlues(words: seq<string>, word: string, pad: string, limit: nat)
    requires AreWords(words) && word != [] && NoBlank(word)
    ensures ReadBack(Wrap(words, pad + word, true, pad, limit), |pad|) == [word] + words <==>
      NoPairFits(word, words, |pad|, limit)
  {
    hide Words;
    WordsOfStart(pad, word);
    if words == [] {
      ReadBackFirst(pad + word, [], |pad|);
      assert [pad + word] + [] == [pad + word];
    } else if |pad| + |word| + 1 + |words[0]| > limit {
      WrapGlues(words[1..], words[0], pad, limit);
      var lines := Wrap(words[1..], pad + words[0], true, pad, limit);
      ReadBackFirst(pad + word, lines, |pad|);
      var back := ReadBack(lines, |pad|);
      assert ([word] + back)[1..] == back && ([word] + words)[1..] == words == [words[0]] + words[1..];
    } else {
      var glued := word + words[0];
      assert pad + word + "" + words[0] == pad + glued;
      WordsOfStart(pad, glued);
      WrapKeepsWords(words[1..], pad + glued, pad, limit);
      assert |[glued] + words[1..]| < |[word] + words|;
    }
  }

  /** All words are kept, in order, exactly when the first fits behind the header, or when
      no word fits behind another at all. */
  lemma {:induction false} WordsKeptIff(words: seq<string>, header: string, pad: string, limit: nat)
    requires AreWords(words) && |pad| == |header|
    ensures ReadBack(Wrap(words, header, true, pad, limit), |header|) == words
       <==> words == [] || |header| + 1 + |words[0]| <= limit || NoPairFits(words[0], words[1..], |header|, limit)
  {
    hide Words, ReadBack, NoBlank, AreWords;
    if words != [] {
      assert words == [words[0]] + words[1..];
      AreWordsFirst(words[0], words[1..]);
    }
    WordsOfNothing();
    assert header[|header|..] == [];
    if words == [] {
      ReadBackLast(header, |header|);
    } else if |header| + 1 + |words[0]| > limit {
      WrapGlues(words[1..], words[0], pad, limit);
      ReadBackFirst(header, Wrap(words[1..], pad + words[0], true, pad, limit), |header|);
    } else {
      var line := header + words[0];
      assert header + "" + words[0] == line;
      WordsOfStart(header, words[0]);
      WrapKeepsWords(words[1..], line, pad, limit);
    }
  }

  /** The blank between two words is lost when the word before them fills its line. */
  lemma LostBlankFails(words: seq<string>)
    requires words == ["abcde", "b", "c"]
    ensures Wrap(words, "", true, "", 5) == ["", "abcde", "bc"]
    ensures ReadBack(Wrap(words, "", true, "", 5), 0) != words
  {
    WrapThree(words);
    assert NoBlank("abcde");
    assert AreWords(words);
    assert words[1..] == ["b", "c"] && ["b", "c"][1..] == ["c"];
    assert !NoPairFits("abcde", ["b", "c"], 0, 5);
    hide Wrap, ReadBack, AreWords;
    WordsKeptIff(words, "", "", 5);
  }

  lemma WrapThree(words: seq<string>)
    requires words == ["abcde", "b", "c"]
    ensures Wrap(words, "", true, "", 5) == ["", "abcde", "bc"]
  {
    assert words[1..] == ["b", "c"] && ["b", "c"][1..] == ["c"] && ["c"][1..] == [];
    assert "" + "abcde" == "abcde" && "" + "b" == "b" && "b" + "" + "c" == "bc";
    assert Wrap([], "bc", false, "", 5) == ["bc"];
    assert Wrap(["c"], "b", true, "", 5) == Wrap([], "b" + "" + "c", false, "", 5);
    assert Wrap(["b", "c"], "abcde", true, "", 5) == ["abcde"] + Wrap(["c"], "" + "b", true, "", 5);
    assert Wrap(words, "", true, "", 5) == [""] + Wrap(["b", "c"], "" + "abcde", true, "", 5);
  }

  // ----- Width --------------------------------------------------------------------

  predicate Within(lines: seq<string>, limit: nat) {
    forall i :: 0 <= i < |lines| ==> |lines[i]| <= limit
  }

  predicate WordsWithin(words: seq<string>, indent: nat, limit: nat) {
    forall i :: 0 <= i < |words| ==> indent + |words[i]| <= limit
  }

  lemma WithinFirst(line: string, lines: seq<string>, limit: nat)
    ensures Within([line] + lines, limit) <==> |line| <= limit && Within(lines, limit)
  {
    assert ([line] + lines)[0] == line && ([line] + lines)[1..] == lines;
    if Within([line] + lines, limit) {
      forall i | 0 <= i < |lines|
        ensures |lines[i]| <= limit
      {
        assert lines[i] == ([line] + lines)[i + 1];
      }
    }
  }

  lemma WordsWithinFirst(words: seq<string>, indent: nat, limit: nat)
    requires words != []
    ensures WordsWithin(words, indent, limit) <==>
      indent + |words[0]| <= limit && WordsWithin(words[1..], indent, limit)
  {
  }

  /** No line is too long exactly when the line begun and every word by itself are not. */
  lemma {:induction false} WrapWithinIff(words: seq<string>, line: string, atBegin: bool, pad: string, limit: nat)
    requires |line| >= |pad|
    ensures Within(Wrap(words, line, atBegin, pad, limit), limit) <==>
      |line| <= limit && WordsWithin(words, |pad|, limit)
  {
    if words == [] {
      assert [line][0] == line;
    } else {
      WordsWithinFirst(words, |pad|, limit);
      hide WordsWithin, Within;
      if |line| + 1 + |words[0]| > limit {
        WrapWithinIff(words[1..], pad + words[0], atBegin, pad, limit);
        WithinFirst(line, Wrap(words[1..], pad + words[0], atBegin, pad, limit), limit);
      } else {
        WrapWithinIff(words[1..], line + (if line != [] && !atBegin then " " else "") + words[0], false, pad, limit);
      }
    }
  }

  // ----- As few lines as possible ---------------------------------------------------

  /** Number of lines for words behind a line of used characters that has a word already. */
  function LineCount(words: seq<string>, used: nat, indent: nat, limit: nat): nat {
    if words == [] then 1
    else if used + 1 + |words[0]| > limit then 1 + LineCount(words[1..], indent + |words[0]|, indent, limit)
    else LineCount(words[1..], used + 1 + |words[0]|, indent, limit)
  }

  lemma {:induction false} WrapCounts(words: seq<string>, line: string, pad: string, limit: nat)
    requires AreWords(words) && line != []
    ensures |Wrap(words, line, false, pad, limit)| == LineCount(words, |line|, |pad|, limit)
  {
    if words != [] {
      assert AreWords(words[1..]);
      if |line| + 1 + |words[0]| > limit {
        WrapCounts(words[1..], pad + words[0], pad, limit);
      } else {
        WrapCounts(words[1..], line + " " + words[0], pad, limit);
      }
    }
  }

  /** A fuller line never saves lines, and an emptier one saves at most one. */
  lemma {:induction false} FullerLine(words: seq<string>, u: nat, v: nat, indent: nat, limit: nat)
    requires u >= indent && v >= indent
    ensures u <= v ==> LineCount(words, u, indent, limit) <= LineCount(words, v, indent, limit)
    ensures LineCount(words, u, indent, limit) <= LineCount(words, v, indent, limit) + 1
  {
    if words != [] {
      var w := |words[0]|;
      FullerLine(words[1..], u + 1 + w, v + 1 + w, indent, limit);
      FullerLine(words[1..], u + 1 + w, indent + w, indent, limit);
      FullerLine(words[1..], indent + w, v + 1 + w, indent, limit);
    }
  }

  function Flatten(groups: seq<seq<string>>): seq<string> {
    if groups == [] then [] else groups[0] + Flatten(groups[1..])
  }

  /** Characters of words each behind a blank. */
  function Width(words: seq<string>): nat {
    if words == [] then 0 else 1 + |words[0]| + Width(words[1..])
  }

  /** Some way to go on with words: the first group on a line of used characters, every
      other on a line of its own behind the indent. */
  predicate Layout(groups: seq<seq<string>>, used: nat, indent: nat, limit: nat) {
    && groups != [] && used + Width(groups[0]) <= limit
    && (forall i :: 1 <= i < |groups| ==> groups[i] != [] && indent + Width(groups[i]) - 1 <= limit)
  }

  lemma {:induction false} TakeFirst(groups: seq<seq<string>>, rest: seq<seq<string>>)
    requires groups != [] && groups[0] != [] && rest == [groups[0][1..]] + groups[1..]
    ensures |rest| == |groups| && rest[1..] == groups[1..]
    ensures Flatten(groups) == [groups[0][0]] + Flatten(rest)
    ensures Width(groups[0]) == 1 + |groups[0][0]| + Width(rest[0])
  {
    assert groups[0] == [groups[0][0]] + groups[0][1..];
  }

  lemma EmptyFirst(groups: seq<seq<string>>)
    requires groups != [] && groups[0] == []
    ensures Flatten(groups) == Flatten(groups[1..]) && Width([]) == 0
  {
  }

  /** The loop never makes more lines than any other way to keep the words in order. */
  lemma {:induction false} FewestLines(words: seq<string>, groups: seq<seq<string>>, used: nat, indent: nat, limit: nat)
    requires Layout(groups, used, indent, limit) && Flatten(groups) == words && used >= indent
    ensures LineCount(words, used, indent, limit) <= |groups|
    decreases |words|
  {
    if words != [] {
      hide Flatten, Width;
      var w := |words[0]|;
      if groups[0] != [] {
        var rest := [groups[0][1..]] + groups[1..];
        TakeFirst(groups, rest);
        FewestLines(words[1..], rest, used + 1 + w, indent, limit);
      } else {
        EmptyFirst(groups);
        NoGroups(groups[1..]);
        var rest := [groups[1][1..]] + groups[2..];
        assert groups[1..][1..] == groups[2..];
        TakeFirst(groups[1..], rest);
        FewestLines(words[1..], rest, indent + w, indent, limit);
        FullerLine(words[1..], used + 1 + w, indent + w, indent, limit);
      }
    }
  }

  lemma NoGroups(groups: seq<seq<string>>)
    ensures groups == [] ==> Flatten(groups) == []
  {
  }

  /** A way to put words, in order, on lines of their own behind an indent. */
  predicate Fits(groups: seq<seq<string>>, indent: nat, limit: nat) {
    forall i :: 0 <= i < |groups| ==> groups[i] != [] && indent + Width(groups[i]) - 1 <= limit
  }

  /** As few lines as words can be put on, in order and each behind the indent. */
  function MinLines(words: seq<string>, indent: nat, limit: nat): nat {
    if words == [] then 0 else LineCount(words[1..], indent + |words[0]|, indent, limit)
  }

  lemma {:induction false} MinLinesIsLeast(words: seq<string>, groups: seq<seq<string>>, indent: nat, limit: nat)
    requires Fits(groups, indent, limit) && Flatten(groups) == words
    ensures MinLines(words, indent, limit) <= |groups|
  {
    if groups == [] {
      NoGroups(groups);
    } else {
      hide Flatten, Width;
      var rest := [groups[0][1..]] + groups[1..];
      TakeFirst(groups, rest);
      FewestLines(words[1..], rest, indent + |words[0]|, indent, limit);
    }
  }

  lemma PutFirst(word: string, groups: seq<seq<string>>, put: seq<seq<string>>)
    requires groups != [] && put == [[word] + groups[0]] + groups[1..]
    ensures |put| == |groups| && put[1..] == groups[1..]
    ensures Flatten(put) == [word] + Flatten(groups) && Width(put[0]) == 1 + |word| + Width(groups[0])
  {
    assert ([word] + groups[0])[1..] == groups[0];
  }

  /** The lines of the loop, as groups of words. */
  lemma {:induction false} GreedyLayout(words: seq<string>, used: nat, indent: nat,
          limit: nat) returns (groups: seq<seq<string>>)
    requires used <= limit && WordsWithin(words, indent, limit)
    ensures Layout(groups, used, indent, limit) && Flatten(groups) == words
    ensures |groups| == LineCount(words, used, indent, limit)
    decreases |words|
  {
    if words == [] {
      groups := [[]];
    } else {
      hide Flatten, Width, WordsWithin;
      WordsWithinFirst(words, indent, limit);
      var w := |words[0]|;
      if used + 1 + w > limit {
        var rest := GreedyLayout(words[1..], indent + w, indent, limit);
        var put := [[words[0]] + rest[0]] + rest[1..];
        PutFirst(words[0], rest, put);
        groups := [[]] + put;
        assert groups[1..] == put;
        EmptyFirst(groups);
      } else {
        var rest := GreedyLayout(words[1..], used + 1 + w, indent, limit);
        groups := [[words[0]] + rest[0]] + rest[1..];
        PutFirst(words[0], rest, groups);
      }
    }
  }

  /** The least number of lines is reached by some way to put the words. */
  lemma {:induction false} MinLinesIsReached(words: seq<string>, indent: nat,
          limit: nat) returns (groups: seq<seq<string>>)
    requires WordsWithin(words, indent, limit)
    ensures Fits(groups, indent, limit) && Flatten(groups) == words && |groups| == MinLines(words, indent, limit)
  {
    if words == [] {
      groups := [];
    } else {
      hide Flatten, Width, WordsWithin, LineCount;
      WordsWithinFirst(words, indent, limit);
      var rest := GreedyLayout(words[1..], indent + |words[0]|, indent, limit);
      groups := [[words[0]] + rest[0]] + rest[1..];
      PutFirst(words[0], rest, groups);
      assert forall i :: 1 <= i < |groups| ==> groups[i] == rest[i];
    }
  }

  /** Whether the blank that the first pair of words on a line does without saves a line. */
  predicate GlueSaves(word: string, words: seq<string>, indent: nat, limit: nat)
    decreases |words|
  {
    if words == [] then false
    else
      var used := indent + |word|;
      if used + 1 + |words[0]| > limit then GlueSaves(words[0], words[1..], indent, limit)
      else
        var glued := used + |words[0]|;
        LineCount(words[1..], glued, indent, limit) < LineCount(words[1..], glued + 1, indent, limit)
  }

  lemma {:induction false} GluedCount(words: seq<string>, word: string, pad: string, limit: nat, lines: nat)
    requires AreWords(words) && word != [] && lines == LineCount(words, |pad| + |word|, |pad|, limit)
    ensures |Wrap(words, pad + word, true, pad, limit)| ==
            if GlueSaves(word, words, |pad|, limit) then lines - 1 else lines
    ensures NoPairFits(word, words, |pad|, limit) ==> !GlueSaves(word, words, |pad|, limit)
    decreases |words|
  {
    if words != [] {
      assert AreWords(words[1..]);
      var w, u := |words[0]|, |pad| + |word|;
      if u + 1 + w > limit {
        GluedCount(words[1..], words[0], pad, limit, LineCount(words[1..], |pad| + w, |pad|, limit));
      } else {
        assert pad + word + "" + words[0] == pad + word + words[0];
        WrapCounts(words[1..], pad + word + words[0], pad, limit);
        FullerLine(words[1..], u + w, u + 1 + w, |pad|, limit);
        FullerLine(words[1..], u + 1 + w, u + w, |pad|, limit);
      }
    }
  }

  /** Wrapping makes as few lines as can be, exactly when the first word fits behind the header with a
      character to spare, or when the blank that is lost later saves the line that the header takes;
      otherwise it makes one more. */
  lemma WrapIsShortestIff(words: seq<string>, header: string, pad: string, limit: nat)
    requires AreWords(words) && words != [] && |pad| == |header|
    ensures |Wrap(words, header, true, pad, limit)| == MinLines(words, |header|, limit) <==>
      |header| + 1 + |words[0]| <= limit || GlueSaves(words[0], words[1..], |header|, limit)
    ensures 0 <= |Wrap(words, header, true, pad, limit)| - MinLines(words, |header|, limit) <= 1
  {
    assert AreWords(words[1..]);
    if |header| + 1 + |words[0]| <= limit {
      assert header + "" + words[0] == header + words[0];
      WrapCounts(words[1..], header + words[0], pad, limit);
    } else {
      GluedCount(words[1..], words[0], pad, limit, MinLines(words, |header|, limit));
    }
  }

  /** A word as long as a line gets an empty line before it. */
  lemma FullLineFails()
    ensures Wrap(["word"], "", true, "", 4) == ["", "word"] && Fits([["word"]], 0, 4)
  {
    assert ["word"][1..] == [] && "" + "word" == "word";
    assert Wrap([], "word", true, "", 4) == ["word"];
    assert Wrap(["word"], "", true, "", 4) == [""] + Wrap([], "" + "word", true, "", 4);
    assert Width(["word"]) == 5;
  }

  /** From text to lines: a clean text whose first word fits behind the header keeps its words, in order,
      is within the limit exactly when the header and each word are, and takes as few lines as can be. */
  lemma {:induction false} AlignedText(text: string, header: string, pad: string, limit: nat, lines: seq<string>)
    requires Clean(text) && Words(text) != [] && |header| + 1 + |Words(text)[0]| <= limit
    requires |pad| == |header| && lines == Wrap(Taken(text), header, true, pad, limit)
    ensures ReadBack(lines, |header|) == Words(text)
    ensures Within(lines, limit) <==> WordsWithin(Words(text), |header|, limit)
    ensures |lines| == MinLines(Words(text), |header|, limit)
  {
    hide Words, Wrap, ReadBack, MinLines, WordsWithin, Within, Clean, Taken, AreWords;
    TakenIsWordsIff(text);
    WordsAreWords(text);
    WordsKeptIff(Words(text), header, pad, limit);
    WrapWithinIff(Words(text), header, true, pad, limit);
    WrapIsShortestIff(Words(text), header, pad, limit);
  }

  // ----- Comments -----------------------------------------------------------------

  const SIZE_LIMIT := 0x1_0000_0000_0000_0000
  const MAX_STRING := 0x7fff_ffff_ffff_ffff
  const MAX_TEXT := 0x3fff_ffff_ffff_ffff

  /** What a lexer knows of comments, and the size of a line. */
  datatype Lexer = Lexer(begin: string, end: string, hypertext: bool, lineSize: nat) {

    /** Characters the delimiters take, each with a character between it and the text. */
    function Reserved(): nat {
      (if begin != [] then |begin| + 1 else 0) + if end != [] then |end| + 1 else 0
    }

    /** Unsigned: it wraps round when the delimiters do not fit on the line. */
    function UsableCharsPerLine(): nat {
      (lineSize - Reserved()) % SIZE_LIMIT
    }

    /** Characters to fill out with behind a text; unsigned as well. */
    function FillCount(size: nat): nat {
      (UsableCharsPerLine() - size) % SIZE_LIMIT
    }

    predicate Sizes() {
      lineSize <= MAX_TEXT && Reserved() <= MAX_TEXT
    }

    /** The character to fill out with; the last of begin is read only when there is one. */
    predicate CanFill(text: string, withSpace: bool) {
      withSpace || hypertext || text != [] || begin == end || begin != []
    }

    function FillCharacter(text: string, withSpace: bool): char
      requires CanFill(text, withSpace)
    {
      if withSpace || hypertext || text != [] then ' '
      else if begin == end then '-'
      else begin[|begin| - 1]
    }

    /** One line of comment; it throws when the number of characters to fill out with
        is more than a string can hold. */
    function SingleLine(text: string, withSpace: bool, fillOut: bool): Result<string>
      requires CanFill(text, withSpace)
    {
      if begin == [] && end == [] then Success(text)
      else
        var c := FillCharacter(text, withSpace);
        var fill := if fillOut && (c != ' ' || end != []) then FillCount(|text|) else 0;
        if fill > MAX_STRING then Failure
        else Success(begin + [c] + text + Repeat(c, fill) + if end != [] then [c] + end else [])
    }
  }

  /** Whether a line is filled out at all. */
  predicate IsFilled(lexer: Lexer, text: string, withSpace: bool)
    requires lexer.CanFill(text, withSpace)
  {
    (lexer.begin != [] || lexer.end != []) && (lexer.end != [] || lexer.FillCharacter(text, withSpace) != ' ')
  }

  /** A line to fill out is made exactly when the text fits between the delimiters, and then has the size
      of a line: one more when there is no begin.  A line that is not filled keeps its length. */
  lemma {:induction false} FilledLineIff(lexer: Lexer, text: string, withSpace: bool, line: Result<string>)
    requires lexer.Sizes() && |text| <= MAX_TEXT && lexer.CanFill(text, withSpace)
    requires line == lexer.SingleLine(text, withSpace, true)
    ensures line.Success? <==> IsFilled(lexer, text, withSpace) ==> |text| + lexer.Reserved() <= lexer.lineSize
    ensures line.Success? && IsFilled(lexer, text, withSpace) ==>
      |line.value| == lexer.lineSize + if lexer.begin == [] then 1 else 0
    ensures line.Success? && !IsFilled(lexer, text, withSpace) ==> |line.value| == |text| + lexer.Reserved()
  {
    hide Lexer.FillCount;
    FillIs(lexer, |text|);
  }

  /** A line begins with the one delimiter and a fill character; then come its text, as many more of that
      character as there are, and the other delimiter behind one of its own. */
  predicate IsCommentOf(s: string, text: string, begin: string, end: string, c: char) {
    var from, to := |begin| + 1, |begin| + 1 + |text|;
    var back := |s| - if end != [] then |end| + 1 else 0;
    && to <= back && s[..|begin|] == begin && s[|begin|] == c
    && s[from..to] == text
    && (forall i :: to <= i < back ==> s[i] == c)
    && (end != [] ==> s[back] == c && s[back + 1..] == end)
  }

  /** A comment line reads back: what it says is the text, and what it adds is one character, a blank
      unless the text is empty. */
  lemma LineReadsBack(lexer: Lexer, text: string, withSpace: bool, fillOut: bool, line: Result<string>)
    requires lexer.CanFill(text, withSpace) && line == lexer.SingleLine(text, withSpace, fillOut) && line.Success?
    ensures lexer.begin == [] && lexer.end == [] ==> line.value == text
    ensures lexer.begin != [] || lexer.end != [] ==>
      IsCommentOf(line.value, text, lexer.begin, lexer.end,
                  if withSpace || lexer.hypertext || text != [] then ' '
                  else if lexer.begin == lexer.end then '-'
                  else lexer.begin[|lexer.begin| - 1])
  {
    if lexer.begin != [] || lexer.end != [] {
      var c := lexer.FillCharacter(text, withSpace);
      var fill := if fillOut && (c != ' ' || lexer.end != []) then lexer.FillCount(|text|) else 0;
      hide Lexer.FillCount;
      PartsOfLine(line.value, lexer.begin, c, text, Repeat(c, fill), lexer.end);
    }
  }

  /** Without filling out, a line is always made, and is as long as its text and the delimiters. */
  lemma UnfilledLine(lexer: Lexer, text: string, withSpace: bool, line: Result<string>)
    requires lexer.CanFill(text, withSpace) && line == lexer.SingleLine(text, withSpace, false)
    ensures line.Success?
    ensures |line.value| == |text| + (if lexer.begin == [] && lexer.end == [] then 0 else |lexer.begin| + 1) +
                            (if lexer.end == [] then 0 else |lexer.end| + 1)
  {
  }

  lemma PartsOfLine(s: string, begin: string, c: char, text: string, fill: string, end: string)
    requires s == begin + [c] + text + fill + if end != [] then [c] + end else []
    requires forall i :: 0 <= i < |fill| ==> fill[i] == c
    ensures IsCommentOf(s, text, begin, end, c)
  {
    var to := |begin| + 1 + |text|;
    var back := |s| - if end != [] then |end| + 1 else 0;
    assert s[|begin| + 1..to] == text;
    assert s[to..back] == fill;
    forall i | to <= i < back ensures s[i] == c {
      assert s[i] == s[to..back][i - to];
    }
  }

  /** With an end delimiter only, a line of ten comes out as eleven. */
  lemma NoBeginFails(lexer: Lexer, line: Result<string>)
    requires lexer == Lexer("", "*/", false, 10) && line == lexer.SingleLine("a", true, true)
    ensures line.Success? && |line.value| == 11
  {
    FilledLineIff(lexer, "a", true, line);
  }

  lemma FillIs(lexer: Lexer, size: nat)
    requires lexer.Sizes() && size <= MAX_TEXT
    ensures size + lexer.Reserved() <= lexer.lineSize ==>
      lexer.FillCount(size) == lexer.lineSize - lexer.Reserved() - size
    ensures size + lexer.Reserved() > lexer.lineSize ==> lexer.FillCount(size) > MAX_STRING
  {
    var room := lexer.lineSize - lexer.Reserved();
    Wrapped(room);
    Wrapped(room - size);
    SubtractTwice(room, size);
  }

  lemma SubtractTwice(room: int, used: int)
    ensures (room % SIZE_LIMIT - used) % SIZE_LIMIT == (room - used) % SIZE_LIMIT
  {
  }

  lemma Wrapped(n: int)
    requires -SIZE_LIMIT <= n < SIZE_LIMIT
    ensures n % SIZE_LIMIT == if n >= 0 then n else n + SIZE_LIMIT
  {
  }

  /** The character to fill out with is there for every line that needs one. */
  predicate AllCanFill(lexer: Lexer, lines: seq<string>, withSpace: bool) {
    forall i :: 0 <= i < |lines| ==> lexer.CanFill(lines[i], withSpace)
  }

  lemma {:induction false} AllCanFillFirst(lexer: Lexer, line: string, lines: seq<string>, withSpace: bool)
    ensures AllCanFill(lexer, [line] + lines, withSpace) <==>
      lexer.CanFill(line, withSpace) && AllCanFill(lexer, lines, withSpace)
  {
    assert ([line] + lines)[0] == line;
    assert forall i :: 0 <= i < |lines| ==> ([line] + lines)[i + 1] == lines[i];
  }

  /** Only an empty line can lack it, and none is empty behind a header. */
  lemma {:induction false} HeaderCanFill(lexer: Lexer, words: seq<string>, line: string, atBegin: bool, pad: string,
        limit: nat, withSpace: bool)
    requires line != [] && pad != []
    ensures AllCanFill(lexer, Wrap(words, line, atBegin, pad, limit), withSpace)
    decreases |words|
  {
    hide AllCanFill;
    if words == [] {
      AllCanFillFirst(lexer, line, [], withSpace);
      assert [line] + [] == [line];
      NoneToFill(lexer, withSpace);
    } else if |line| + 1 + |words[0]| > limit {
      HeaderCanFill(lexer, words[1..], pad + words[0], atBegin, pad, limit, withSpace);
      AllCanFillFirst(lexer, line, Wrap(words[1..], pad + words[0], atBegin, pad, limit), withSpace);
    } else {
      var longer := line + (if line != [] && !atBegin then " " else "") + words[0];
      HeaderCanFill(lexer, words[1..], longer, false, pad, limit, withSpace);
    }
  }

  lemma NoneToFill(lexer: Lexer, withSpace: bool)
    ensures AllCanFill(lexer, [], withSpace)
  {
  }

  /** Comment lines, one under another; it throws when one of them does. */
  function Block(lexer: Lexer, lines: seq<string>, withSpace: bool, fillOut: bool): Result<string>
    requires lines != [] && AllCanFill(lexer, lines, withSpace)
  {
    var first := lexer.SingleLine(lines[0], withSpace, fillOut);
    if first.Failure? || |lines| == 1 then first
    else
      var rest := Block(lexer, lines[1..], withSpace, fillOut);
      if rest.Failure? then rest else Success(first.value + "\n" + rest.value)
  }

  function Before(out: string, rest: Result<string>): Result<string> {
    if rest.Failure? then Failure else Success(out + rest.value)
  }

  /** The lines that a text is wrapped into behind a header. */
  function Lines(lexer: Lexer, text: string, header: string): (lines: seq<string>)
    ensures lines != []
  {
    Wrap(Taken(text), header, true, Repeat(' ', |header|), lexer.UsableCharsPerLine())
  }

  // ----- Reading a block back -----

  lemma {:induction false} WordsBeforeBlanks(s: string, blanks: string)
    requires forall i :: 0 <= i < |blanks| ==> IsBlank(blanks[i])
    ensures Words(s + blanks) == Words(s)
    decreases |s|
  {
    hide Words, FirstWord, SkipBlanks;
    var t := SkipBlanks(s);
    SkipOf(s, blanks);
    WordsOfSkipped(s + blanks);
    WordsOfSkipped(s);
    if blanks == [] {
      assert s + blanks == s;
    } else if t == [] {
      SkipAll(blanks);
    } else {
      var n := |FirstWord(t)|;
      WordAndMore(t, blanks, n);
      WordsBeforeBlanks(t[n..], blanks);
    }
  }

  lemma {:induction false} SkipAll(blanks: string)
    requires forall i :: 0 <= i < |blanks| ==> IsBlank(blanks[i])
    ensures SkipBlanks(blanks) == []
  {
    if blanks != [] {
      SkipAll(blanks[1..]);
    }
  }

  /** What a comment line has between its delimiters. */
  function Inner(lexer: Lexer, line: string): string {
    if lexer.begin == [] && lexer.end == [] then line
    else
      var back := |line| - if lexer.end != [] then |lexer.end| + 1 else 0;
      if |lexer.begin| + 1 <= back then line[|lexer.begin| + 1..back] else []
  }

  function Inners(lexer: Lexer, lines: seq<string>): (inners: seq<string>)
    ensures |inners| == |lines|
  {
    if lines == [] then [] else [Inner(lexer, lines[0])] + Inners(lexer, lines[1..])
  }

  predicate IsPlain(s: string) {
    s != [] && NoneIn(s, "\n")
  }

  predicate ArePlain(lines: seq<string>) {
    forall i :: 0 <= i < |lines| ==> IsPlain(lines[i])
  }

  /** A line that is not empty has its text between the delimiters, with nothing but blanks behind it. */
  lemma InnerOfLine(lexer: Lexer, text: string, withSpace: bool, fillOut: bool, line: string)
    requires text != [] && lexer.CanFill(text, withSpace)
    requires lexer.SingleLine(text, withSpace, fillOut) == Success(line)
    ensures text <= Inner(lexer, line) && Inner(lexer, line)[..|text|] == text
    ensures forall i :: |text| <= i < |Inner(lexer, line)| ==> Inner(lexer, line)[i] == ' '
    ensures NoneIn(text, "\n") && NoneIn(lexer.begin, "\n") && NoneIn(lexer.end, "\n") ==> IsPlain(line)
  {
    LineReadsBack(lexer, text, withSpace, fillOut, Success(line));
    if lexer.begin != [] || lexer.end != [] {
      InnerOfParts(lexer, text, line);
    }
  }

  lemma InnerOfParts(lexer: Lexer, text: string, line: string)
    requires (lexer.begin != [] || lexer.end != []) && IsCommentOf(line, text, lexer.begin, lexer.end, ' ')
    ensures text <= Inner(lexer, line) && Inner(lexer, line)[..|text|] == text
    ensures forall i :: |text| <= i < |Inner(lexer, line)| ==> Inner(lexer, line)[i] == ' '
    ensures NoneIn(text, "\n") && NoneIn(lexer.begin, "\n") && NoneIn(lexer.end, "\n") ==> IsPlain(line)
  {
    var from, to := |lexer.begin| + 1, |lexer.begin| + 1 + |text|;
    var back := |line| - if lexer.end != [] then |lexer.end| + 1 else 0;
    assert Inner(lexer, line) == line[from..back];
    assert line[from..back][..|text|] == line[from..to] == text;
    forall i | 0 <= i < |line|
      ensures line[i] == if i < |lexer.begin| then lexer.begin[i] else if i < from then ' '
                         else if i < to then text[i - from] else if i <= back && i < |line| - |lexer.end| then ' '
                         else lexer.end[i - back - 1]
    {
      if i < |lexer.begin| {
        assert line[i] == line[..|lexer.begin|][i];
      } else if from <= i < to {
        assert line[i] == line[from..to][i - from];
      } else if i > back {
        assert line[i] == line[back + 1..][i - back - 1];
      }
    }
  }

  /** The lines of a block are what is left when it is cut at its line ends. */
  lemma {:induction false} BlockLines(lexer: Lexer, lines: seq<string>, withSpace: bool, fillOut: bool)
    requires ArePlain(lines) && lines != [] && NoneIn(lexer.begin, "\n") && NoneIn(lexer.end, "\n")
    requires AllCanFill(lexer, lines, withSpace) && Block(lexer, lines, withSpace, fillOut).Success?
    ensures var cut := Tokens(Block(lexer, lines, withSpace, fillOut).value, "\n");
            && |cut| == |lines|
            && forall i :: 0 <= i < |lines| ==> lexer.SingleLine(lines[i], withSpace, fillOut) == Success(cut[i])
  {
    hide Tokens, NoneIn, Lexer.SingleLine, Lexer.CanFill;
    var first := lexer.SingleLine(lines[0], withSpace, fillOut);
    assert IsPlain(lines[0]) && lexer.CanFill(lines[0], withSpace);
    InnerOfLine(lexer, lines[0], withSpace, fillOut, first.value);
    if |lines| == 1 {
      OneToken(first.value);
    } else {
      BlockLines(lexer, lines[1..], withSpace, fillOut);
      MoreTokens(first.value, Block(lexer, lines[1..], withSpace, fillOut).value);
    }
  }

  lemma OneToken(line: string)
    requires IsPlain(line)
    ensures Tokens(line, "\n") == [line]
  {
    TokenThenRest(line, "", "\n");
    NoTokens("\n");
    assert line + "" == line;
  }

  lemma MoreTokens(line: string, rest: string)
    requires IsPlain(line)
    ensures Tokens(line + "\n" + rest, "\n") == [line] + Tokens(rest, "\n")
  {
    TokenThenRest(line, "\n" + rest, "\n");
    SkipGap("\n", rest, "\n");
    assert line + ("\n" + rest) == line + "\n" + rest;
  }

  /** The first line made begins with the line begun, every other one with the indent. */
  lemma {:induction false} WrapStarts(words: seq<string>, line: string, atBegin: bool, pad: string, limit: nat)
    ensures line <= Wrap(words, line, atBegin, pad, limit)[0]
    ensures forall i :: 1 <= i < |Wrap(words, line, atBegin, pad, limit)| ==>
      pad <= Wrap(words, line, atBegin, pad, limit)[i]
  {
    if words != [] {
      if |line| + 1 + |words[0]| > limit {
        WrapStarts(words[1..], pad + words[0], atBegin, pad, limit);
      } else {
        WrapStarts(words[1..], line + (if line != [] && !atBegin then " " else "") + words[0], false, pad, limit);
      }
    }
  }

  lemma {:induction false} WrapPlain(words: seq<string>, line: string, atBegin: bool, pad: string, limit: nat)
    requires ArePlain(words) && IsPlain(line) && NoneIn(pad, "\n")
    ensures ArePlain(Wrap(words, line, atBegin, pad, limit))
  {
    if words != [] {
      assert IsPlain(words[0]) && ArePlain(words[1..]);
      if |line| + 1 + |words[0]| > limit {
        WrapPlain(words[1..], pad + words[0], atBegin, pad, limit);
      } else {
        WrapPlain(words[1..], line + (if line != [] && !atBegin then " " else "") + words[0], false, pad, limit);
      }
    }
  }

  lemma {:induction false} WordsPlain(text: string)
    requires NoneIn(text, "\n")
    ensures ArePlain(Words(text))
    decreases |text|
  {
    hide Words, SkipBlanks, FirstWord;
    SkipIs(text);
    WordsSplit(text);
    if Words(text) != [] {
      WordsPlain(Behind(text));
      FirstWordPlain(text);
      PlainFirst(FirstWord(SkipBlanks(text)), Words(Behind(text)));
    }
  }

  lemma FirstWordPlain(text: string)
    requires NoneIn(text, "\n") && SkipBlanks(text) != []
    ensures IsPlain(FirstWord(SkipBlanks(text)))
  {
  }

  lemma PlainFirst(word: string, words: seq<string>)
    ensures ArePlain([word] + words) <==> IsPlain(word) && ArePlain(words)
  {
    hide IsPlain;
    assert ([word] + words)[0] == word;
    assert forall i :: 0 <= i < |words| ==> ([word] + words)[i + 1] == words[i];
  }

  /** A line with blanks put behind it. */
  predicate IsPadded(s: string, line: string) {
    line <= s && forall i :: |line| <= i < |s| ==> s[i] == ' '
  }

  predicate ArePadded(a: seq<string>, b: seq<string>) {
    |a| == |b| && forall i :: 0 <= i < |a| ==> IsPadded(a[i], b[i])
  }

  predicate AtLeast(lines: seq<string>, indent: nat) {
    forall i :: 0 <= i < |lines| ==> indent <= |lines[i]|
  }

  lemma {:induction false} WordsOfPadded(s: string, line: string, indent: nat)
    requires IsPadded(s, line) && indent <= |line|
    ensures indent <= |s| && Words(s[indent..]) == Words(line[indent..])
  {
    hide Words;
    assert s == line + s[|line|..] && s[indent..] == line[indent..] + s[|line|..];
    WordsBeforeBlanks(line[indent..], s[|line|..]);
  }

  /** The words behind an indent are the same when blanks are put behind the lines. */
  lemma {:induction false} ReadBackPadded(a: seq<string>, b: seq<string>, indent: nat)
    requires ArePadded(a, b) && AtLeast(b, indent)
    ensures ReadBack(a, indent) == ReadBack(b, indent)
  {
    hide Words, IsPadded;
    if a != [] {
      assert IsPadded(a[0], b[0]);
      WordsOfPadded(a[0], b[0], indent);
      ReadBackPadded(a[1..], b[1..], indent);
    }
  }

  /** The lines that a comment is cut into at its line ends, without their delimiters. */
  function CommentLines(lexer: Lexer, comment: string): seq<string> {
    Inners(lexer, Tokens(comment, "\n"))
  }

  lemma {:induction false} InnersAt(lexer: Lexer, lines: seq<string>, i: nat)
    requires i < |lines|
    ensures Inners(lexer, lines)[i] == Inner(lexer, lines[i])
  {
    if i > 0 {
      InnersAt(lexer, lines[1..], i - 1);
    }
  }

  /** A block shows its lines: cut at the line ends, and without the delimiters and the blanks filled out with. */
  lemma BlockReadsBack(lexer: Lexer, lines: seq<string>, withSpace: bool, fillOut: bool, comment: string)
    requires ArePlain(lines) && lines != [] && NoneIn(lexer.begin, "\n") && NoneIn(lexer.end, "\n")
    requires AllCanFill(lexer, lines, withSpace) && Block(lexer, lines, withSpace, fillOut) == Success(comment)
    ensures ArePadded(CommentLines(lexer, comment), lines)
  {
    hide Tokens, NoneIn, Block, Lexer.SingleLine, Lexer.CanFill, Inner;
    BlockLines(lexer, lines, withSpace, fillOut);
    var cut := Tokens(comment, "\n");
    forall i | 0 <= i < |lines| ensures IsPadded(Inners(lexer, cut)[i], lines[i]) {
      assert IsPlain(lines[i]) && lexer.CanFill(lines[i], withSpace);
      InnersAt(lexer, cut, i);
      InnerOfLine(lexer, lines[i], withSpace, fillOut, cut[i]);
    }
  }

  /** A text, its header and delimiters without line ends: the text can be taken word by word, and no line
      made of it is empty. */
  predicate IsReadable(lexer: Lexer, text: string, header: string) {
    && Clean(text) && Words(text) != []
    && (header != [] || 1 + |Words(text)[0]| <= lexer.UsableCharsPerLine())
    && NoneIn(text, "\n") && NoneIn(header, "\n") && NoneIn(lexer.begin, "\n") && NoneIn(lexer.end, "\n")
  }

  /** Whether lines begin with a header and, from the second on, with an indent. */
  predicate StartWith(lines: seq<string>, header: string, pad: string) {
    lines != [] && header <= lines[0] && forall i :: 1 <= i < |lines| ==> pad <= lines[i]
  }

  /** A comment reads back as a text: behind the header, and as much blank in every other line, are its words. */
  predicate ReadsAs(lexer: Lexer, comment: string, text: string, header: string) {
    var lines := CommentLines(lexer, comment);
    && ReadBack(lines, |header|) == Words(text)
    && StartWith(lines, header, Repeat(' ', |header|))
  }

  /** Whether wrapping keeps the words: the first fits behind the header, or no word fits behind another. */
  predicate KeepsWords(words: seq<string>, indent: nat, limit: nat) {
    words == [] || indent + 1 + |words[0]| <= limit || NoPairFits(words[0], words[1..], indent, limit)
  }

  lemma ReadableParts(lexer: Lexer, text: string, header: string)
    requires IsReadable(lexer, text, header)
    ensures Clean(text) && Words(text) != [] && NoneIn(text, "\n") && NoneIn(header, "\n")
    ensures NoneIn(lexer.begin, "\n") && NoneIn(lexer.end, "\n")
    ensures header != [] || 1 + |Words(text)[0]| <= lexer.UsableCharsPerLine()
  {
  }

  lemma {:induction false} LinesAre(lexer: Lexer, text: string, header: string)
    requires Clean(text)
    ensures Lines(lexer, text, header)
         == Wrap(Words(text), header, true, Repeat(' ', |header|), lexer.UsableCharsPerLine()) != []
    ensures AreWords(Words(text))
  {
    hide Clean, Words, Taken, Wrap, AreWords, Lexer.UsableCharsPerLine, Repeat;
    TakenIsWordsIff(text);
    WordsAreWords(text);
  }

  lemma BlanksPlain(n: nat)
    ensures NoneIn(Repeat(' ', n), "\n") && |Repeat(' ', n)| == n
  {
  }

  lemma {:induction false} LinesPlain(lexer: Lexer, text: string, header: string)
    requires IsReadable(lexer, text, header)
    ensures ArePlain(Lines(lexer, text, header))
  {
    var pad, limit, words := Repeat(' ', |header|), lexer.UsableCharsPerLine(), Words(text);
    hide *;
    ReadableParts(lexer, text, header);
    LinesAre(lexer, text, header);
    WordsPlain(text);
    BlanksPlain(|header|);
    FirstLinePlain(words, header);
    if header != [] {
      WrapPlain(words, header, true, pad, limit);
    } else {
      WrapFits(words, header, pad, limit);
      WrapPlain(words[1..], header + words[0], false, pad, limit);
    }
  }

  lemma FirstLinePlain(words: seq<string>, header: string)
    requires ArePlain(words) && words != [] && NoneIn(header, "\n")
    ensures ArePlain(words[1..]) && IsPlain(header + words[0]) && (header != [] ==> IsPlain(header))
  {
    assert IsPlain(words[0]);
  }

  lemma WrapFits(words: seq<string>, header: string, pad: string, limit: nat)
    requires words != [] && |header| + 1 + |words[0]| <= limit
    ensures Wrap(words, header, true, pad, limit) == Wrap(words[1..], header + words[0], false, pad, limit)
  {
    assert header + "" + words[0] == header + words[0];
  }

  lemma PaddedStart(a: seq<string>, b: seq<string>, header: string, pad: string)
    requires ArePadded(a, b) && StartWith(b, header, pad) && |pad| == |header|
    ensures StartWith(a, header, pad) && AtLeast(b, |header|)
  {
    assert IsPadded(a[0], b[0]);
  }

  /** The lines made of a text, before they become comments. */
  lemma {:induction false} LinesOfText(lexer: Lexer, text: string, header: string)
    requires IsReadable(lexer, text, header)
    ensures Lines(lexer, text, header) != [] && StartWith(Lines(lexer, text, header), header, Repeat(' ', |header|))
    ensures ReadBack(Lines(lexer, text, header), |header|) == Words(text) <==>
      KeepsWords(Words(text), |header|, lexer.UsableCharsPerLine())
  {
    var pad, limit := Repeat(' ', |header|), lexer.UsableCharsPerLine();
    hide *;
    ReadableParts(lexer, text, header);
    LinesAre(lexer, text, header);
    BlanksPlain(|header|);
    WordsKeptIff(Words(text), header, pad, limit);
    KeepsMeans(Words(text), |header|, limit);
    WrapStarts(Words(text), header, true, pad, limit);
    StartsMean(Lines(lexer, text, header), header, pad);
  }

  lemma KeepsMeans(words: seq<string>, indent: nat, limit: nat)
    ensures KeepsWords(words, indent, limit) <==>
      words == [] || indent + 1 + |words[0]| <= limit || NoPairFits(words[0], words[1..], indent, limit)
  {
  }

  lemma StartsMean(lines: seq<string>, header: string, pad: string)
    requires lines != [] && header <= lines[0] && forall i :: 1 <= i < |lines| ==> pad <= lines[i]
    ensures StartWith(lines, header, pad)
  {
  }

  /** From text to comment: the block made of a text reads back as that text exactly when the wrap keeps
      its words. */
  lemma {:induction false} CommentReadsAsIff(lexer: Lexer, text: string, header: string, withSpace: bool,
        fillOut: bool, comment: string)
    requires IsReadable(lexer, text, header) && AllCanFill(lexer, Lines(lexer, text, header), withSpace)
    requires Block(lexer, Lines(lexer, text, header), withSpace, fillOut) == Success(comment)
    ensures ReadsAs(lexer, comment, text, header) <==>
      KeepsWords(Words(text), |header|, lexer.UsableCharsPerLine())
  {
    var lines, pad := Lines(lexer, text, header), Repeat(' ', |header|);
    hide *;
    BlanksPlain(|header|);
    ReadableParts(lexer, text, header);
    LinesPlain(lexer, text, header);
    BlockReadsBack(lexer, lines, withSpace, fillOut, comment);
    LinesOfText(lexer, text, header);
    PaddedStart(CommentLines(lexer, comment), lines, header, pad);
    ReadBackPadded(CommentLines(lexer, comment), lines, |header|);
    ReadsAsMeans(lexer, comment, text, header);
  }

  lemma ReadsAsMeans(lexer: Lexer, comment: string, text: string, header: string)
    ensures ReadsAs(lexer, comment, text, header) <==>
      ReadBack(CommentLines(lexer, comment), |header|) == Words(text) &&
      StartWith(CommentLines(lexer, comment), header, Repeat(' ', |header|))
  {
  }

  /** The word hello becomes a comment that says hello. */
  lemma {:induction false} HelloComment(lexer: Lexer)
    requires lexer == Lexer("//", "", false, 80)
    ensures AllCanFill(lexer, Lines(lexer, "hello", ""), false)
    ensures Block(lexer, Lines(lexer, "hello", ""), false, false) == Success("// hello")
  {
    var limit := lexer.UsableCharsPerLine();
    hide Words, Taken, Clean, Wrap;
    TakenIsWordsIff("hello");
    PlainTextIff("hello");
    OneWord("hello");
    WrapFits(["hello"], "", "", limit);
    assert ["hello"][1..] == [] && "" + "hello" == "hello";
    WrapNothing("hello", "", limit);
    assert Repeat(' ', 0) == [];
    assert lexer.SingleLine("hello", false, false).value == "//" + [' '] + "hello" + [] + [] == "// hello";
  }

  lemma WrapNothing(line: string, pad: string, limit: nat)
    ensures Wrap([], line, false, pad, limit) == [line]
  {
  }

  /** Wraps the words of a text behind a header into comment lines. */
  method AlignText(lexer: Lexer, text: string, header: string, withSpace: bool,
          fillOut: bool) returns (r: Result<string>)
    requires AllCanFill(lexer, Lines(lexer, text, header), withSpace)
    ensures r == Block(lexer, Lines(lexer, text, header), withSpace, fillOut)
    ensures r.Success? && IsReadable(lexer, text, header) ==>
      (ReadsAs(lexer, r.value, text, header) <==> KeepsWords(Words(text), |header|, lexer.UsableCharsPerLine()))
  {
    var lineLength := lexer.UsableCharsPerLine();
    var headerWithSpaces := Repeat(' ', |header|);
    var atBegin := true;
    var rest, line, out := text, header, "";
    ghost var all := Block(lexer, Wrap(Taken(text), header, true, headerWithSpaces, lineLength), withSpace, fillOut);
    BeforeNothing(all);
    while rest != []
      invariant AllCanFill(lexer, Wrap(Taken(rest), line, atBegin, headerWithSpaces, lineLength), withSpace)
      invariant all == Before(out,
        Block(lexer, Wrap(Taken(rest), line, atBegin, headerWithSpaces, lineLength), withSpace, fillOut))
      decreases |rest|
    {
      hide Block, GetWord;
      var (word, after) := GetWord(rest);
      assert Taken(rest) == [word] + Taken(after);
      rest := after;
      if |line| + 1 + |word| > lineLength {
        var lines := Wrap(Taken(rest), headerWithSpaces + word, atBegin, headerWithSpaces, lineLength);
        AllCanFillFirst(lexer, line, lines, withSpace);
        BlockFirst(lexer, line, lines, withSpace, fillOut);
        var comment := lexer.SingleLine(line, withSpace, fillOut);
        if comment.Failure? {
          return Failure;
        }
        BeforeMore(out, comment.value + "\n", Block(lexer, lines, withSpace, fillOut));
        out := out + (comment.value + "\n");
        line := headerWithSpaces + word;
      } else {
        line := line + (if line != [] && !atBegin then " " else "") + word;
        atBegin := false;
      }
    }
    r := Before(out, lexer.SingleLine(line, withSpace, fillOut));
    assert r == all;
    hide *;
    if r.Success? && IsReadable(lexer, text, header) {
      CommentReadsAsIff(lexer, text, header, withSpace, fillOut, r.value);
    }
  }

  lemma BeforeNothing(rest: Result<string>)
    ensures Before("", rest) == rest
  {
    if rest.Success? {
      assert "" + rest.value == rest.value;
    }
  }

  lemma BeforeMore(out: string, more: string, rest: Result<string>)
    ensures Before(out, Before(more, rest)) == Before(out + more, rest)
  {
    if rest.Success? {
      assert out + (more + rest.value) == (out + more) + rest.value;
    }
  }

  lemma BlockFirst(lexer: Lexer, line: string, lines: seq<string>, withSpace: bool, fillOut: bool)
    requires lines != [] && AllCanFill(lexer, [line] + lines, withSpace)
    requires lexer.CanFill(line, withSpace) && AllCanFill(lexer, lines, withSpace)
    ensures Block(lexer, [line] + lines, withSpace, fillOut)
         == if lexer.SingleLine(line, withSpace, fillOut).Failure? then Failure
            else Before(lexer.SingleLine(line, withSpace, fillOut).value + "\n",
                        Block(lexer, lines, withSpace, fillOut))
  {
  }

  /** Every line of a block has a given size. */
  ghost predicate EveryLine(lexer: Lexer, lines: seq<string>, withSpace: bool, size: nat)
    requires AllCanFill(lexer, lines, withSpace)
  {
    forall i :: 0 <= i < |lines| ==>
      lexer.SingleLine(lines[i], withSpace, true).Success? &&
      |lexer.SingleLine(lines[i], withSpace, true).value| == size
  }

  lemma {:induction false} BlockIff(lexer: Lexer, lines: seq<string>, withSpace: bool)
    requires lines != [] && AllCanFill(lexer, lines, withSpace)
    ensures Block(lexer, lines, withSpace, true).Success?
       <==> forall i :: 0 <= i < |lines| ==> lexer.SingleLine(lines[i], withSpace, true).Success?
  {
    if |lines| > 1 {
      BlockIff(lexer, lines[1..], withSpace);
      assert lines == [lines[0]] + lines[1..];
    }
  }

  /** The header, and every word behind as much blank, fit between the delimiters. */
  predicate AllFit(lexer: Lexer, words: seq<string>, header: string) {
    && |header| + lexer.Reserved() <= lexer.lineSize
    && WordsWithin(words, |header|, lexer.lineSize - lexer.Reserved())
  }

  /** A text filled out between two delimiters: a block is made exactly when the header and
      every word behind it fit, and then every one of its lines has the size of a line. */
  lemma {:induction false} FilledBlockIff(lexer: Lexer, words: seq<string>, header: string, pad: string,
        withSpace: bool)
    requires lexer.Sizes() && lexer.begin != [] && lexer.end != []
    requires lexer.Reserved() <= lexer.lineSize && |pad| == |header|
    requires Within(Wrap(words, header, true, pad, lexer.UsableCharsPerLine()), MAX_TEXT)
    ensures Block(lexer, Wrap(words, header, true, pad, lexer.UsableCharsPerLine()), withSpace, true).Success?
       <==> AllFit(lexer, words, header)
    ensures Block(lexer, Wrap(words, header, true, pad, lexer.UsableCharsPerLine()), withSpace, true).Success? ==>
              EveryLine(lexer, Wrap(words, header, true, pad, lexer.UsableCharsPerLine()), withSpace, lexer.lineSize)
  {
    var room := lexer.lineSize - lexer.Reserved();
    Wrapped(room);
    var lines := Wrap(words, header, true, pad, room);
    hide Wrap, Block, WordsWithin;
    WrapWithinIff(words, header, true, pad, room);
    BlockIff(lexer, lines, withSpace);
    forall i | 0 <= i < |lines|
      ensures lexer.SingleLine(lines[i], withSpace, true).Success? <==> |lines[i]| <= room
      ensures lexer.SingleLine(lines[i], withSpace, true).Success? ==>
        |lexer.SingleLine(lines[i], withSpace, true).value| == lexer.lineSize
    {
      FilledLineIff(lexer, lines[i], withSpace, lexer.SingleLine(lines[i], withSpace, true));
    }
  }

  /** The comment made of a text whose first word fits behind the header has as few lines as the words can
      be put on. */
  lemma {:induction false} CommentIsShortest(lexer: Lexer, text: string, header: string, withSpace: bool,
        fillOut: bool, comment: string)
    requires IsReadable(lexer, text, header) && AllCanFill(lexer, Lines(lexer, text, header), withSpace)
    requires Block(lexer, Lines(lexer, text, header), withSpace, fillOut) == Success(comment)
    requires |header| + 1 + |Words(text)[0]| <= lexer.UsableCharsPerLine()
    ensures |Tokens(comment, "\n")| == MinLines(Words(text), |header|, lexer.UsableCharsPerLine())
  {
    var lines, pad, limit := Lines(lexer, text, header), Repeat(' ', |header|), lexer.UsableCharsPerLine();
    hide *;
    ReadableParts(lexer, text, header);
    LinesAre(lexer, text, header);
    LinesPlain(lexer, text, header);
    BlanksPlain(|header|);
    BlockLines(lexer, lines, withSpace, fillOut);
    WrapIsShortestIff(Words(text), header, pad, limit);
  }

  /** Filled out between two delimiters, every line of the comment has the size of a line. */
  lemma {:induction false} FilledComment(lexer: Lexer, text: string, header: string, withSpace: bool, comment: string)
    requires IsReadable(lexer, text, header) && AllCanFill(lexer, Lines(lexer, text, header), withSpace)
    requires lexer.Sizes() && lexer.begin != [] && lexer.end != [] && lexer.Reserved() <= lexer.lineSize
    requires Within(Lines(lexer, text, header), MAX_TEXT)
    requires Block(lexer, Lines(lexer, text, header), withSpace, true) == Success(comment)
    ensures forall i :: 0 <= i < |Tokens(comment, "\n")| ==> |Tokens(comment, "\n")[i]| == lexer.lineSize
  {
    var lines, pad := Lines(lexer, text, header), Repeat(' ', |header|);
    hide *;
    ReadableParts(lexer, text, header);
    LinesAre(lexer, text, header);
    LinesPlain(lexer, text, header);
    BlanksPlain(|header|);
    BlockLines(lexer, lines, withSpace, true);
    FilledBlockIff(lexer, Words(text), header, pad, withSpace);
    SizesOfLines(lexer, lines, withSpace, Tokens(comment, "\n"));
  }

  lemma SizesOfLines(lexer: Lexer, lines: seq<string>, withSpace: bool, cut: seq<string>)
    requires AllCanFill(lexer, lines, withSpace) && EveryLine(lexer, lines, withSpace, lexer.lineSize)
    requires |cut| == |lines|
    requires forall i :: 0 <= i < |lines| ==>
      lexer.CanFill(lines[i], withSpace) && lexer.SingleLine(lines[i], withSpace, true) == Success(cut[i])
    ensures forall i :: 0 <= i < |cut| ==> |cut[i]| == lexer.lineSize
  {
    hide Lexer.SingleLine, Lexer.CanFill;
  }
}
