/** Replacing every match in a text, in place, from left to right. */
module ReplaceAll {
  import opened Options

  predicate Occurs(text: string, search: string, i: nat) {
    i + |search| <= |text| && text[i..i + |search|] == search
  }

  /** The first place from `pos` on where `search` occurs. */
  function Find(text: string, search: string, pos: nat): (r: Option<nat>)
    requires pos <= |text|
    ensures r.Some? ==> pos <= r.value && Occurs(text, search, r.value)
    ensures r.Some? ==> forall i :: pos <= i < r.value ==> !Occurs(text, search, i)
    ensures r.None? ==> forall i :: pos <= i ==> !Occurs(text, search, i)
    decreases |text| - pos
  {
    if Occurs(text, search, pos) then Some(pos)
    else if pos == |text| then None
    else Find(text, search, pos + 1)
  }

  /** The pieces of a text between the matches, which are taken leftmost first and do not overlap. */
  function Split(text: string, search: string): (pieces: seq<string>)
    requires search != ""
    ensures pieces != []
    decreases |text|
  {
    var at := Find(text, search, 0);
    if at.None? then [text] else [text[..at.value]] + Split(text[at.value + |search|..], search)
  }

  function Join(pieces: seq<string>, between: string): string
    requires pieces != []
    decreases |pieces|
  {
    if |pieces| == 1 then pieces[0] else pieces[0] + between + Join(pieces[1..], between)
  }

  lemma {:induction false} JoinOfSplit(text: string, search: string)
    requires search != ""
    ensures Join(Split(text, search), search) == text
    decreases |text|
  {
    var at := Find(text, search, 0);
    if at.Some? {
      var rest := text[at.value + |search|..];
      JoinOfSplit(rest, search);
      assert Split(text, search)[1..] == Split(rest, search);
      assert text == text[..at.value] + search + rest;
    }
  }

  /** Pieces with a match behind each but the last, and with no match that begins earlier. */
  predicate Leftmost(pieces: seq<string>, search: string)
    decreases |pieces|
  {
    && pieces != []
    && if |pieces| == 1 then Find(pieces[0], search, 0).None?
       else Find(pieces[0] + search, search, 0) == Some(|pieces[0]|) && Leftmost(pieces[1..], search)
  }

  lemma OccursIn(text: string, more: string, search: string, i: nat)
    requires i + |search| <= |text|
    ensures Occurs(text + more, search, i) <==> Occurs(text, search, i)
  {
  }

  lemma FirstMatch(piece: string, search: string, rest: string)
    requires search != ""
    ensures Find(piece + search, search, 0) == Some(|piece|) <==>
      Find(piece + search + rest, search, 0) == Some(|piece|)
  {
    var text := piece + search;
    forall i: nat | i <= |piece| ensures Occurs(text + rest, search, i) <==> Occurs(text, search, i) {
      OccursIn(text, rest, search, i);
    }
    assert Occurs(text, search, |piece|);
  }

  /** The first piece, with the match behind it, and the rest. */
  lemma {:induction false} SplitFirst(text: string, search: string, at: nat, piece: string, rest: string)
    requires search != "" && Find(text, search, 0) == Some(at)
    requires piece == text[..at] && rest == text[at + |search|..]
    ensures Split(text, search) == [piece] + Split(rest, search) && text == piece + search + rest
    ensures Find(piece + search, search, 0) == Some(|piece|)
  {
    assert text == piece + search + rest;
    FirstMatch(piece, search, rest);
  }

  lemma {:induction false} SplitIsLeftmost(text: string, search: string)
    requires search != ""
    ensures Leftmost(Split(text, search), search)
    decreases |text|
  {
    var at := Find(text, search, 0);
    hide Find, Occurs;
    if at.Some? {
      FindInside(text, search, 0);
      var piece, rest := text[..at.value], text[at.value + |search|..];
      SplitFirst(text, search, at.value, piece, rest);
      SplitIsLeftmost(rest, search);
      assert ([piece] + Split(rest, search))[1..] == Split(rest, search);
    }
  }

  lemma {:induction false} LeftmostIsSplit(pieces: seq<string>, search: string)
    requires search != "" && Leftmost(pieces, search)
    ensures Split(Join(pieces, search), search) == pieces
    decreases |pieces|
  {
    if |pieces| > 1 {
      var rest := Join(pieces[1..], search);
      var text := pieces[0] + search + rest;
      FirstMatch(pieces[0], search, rest);
      assert text[..|pieces[0]|] == pieces[0];
      assert text[|pieces[0]| + |search|..] == rest;
      LeftmostIsSplit(pieces[1..], search);
    }
  }

  /** There is exactly one way to cut a text at its leftmost matches. */
  lemma SplitIff(text: string, search: string, pieces: seq<string>)
    requires search != ""
    ensures pieces == Split(text, search) <==> pieces != [] && Leftmost(pieces, search) && Join(pieces, search) == text
  {
    SplitIsLeftmost(text, search);
    JoinOfSplit(text, search);
    if pieces != [] && Leftmost(pieces, search) {
      LeftmostIsSplit(pieces, search);
    }
  }

  /** Replacing grows or shrinks the text by the same amount for every match. */
  lemma {:induction false} JoinLength(pieces: seq<string>, between: string, other: string)
    requires pieces != []
    ensures |Join(pieces, between)| - (|pieces| - 1) * |between| == |Join(pieces, other)| - (|pieces| - 1) * |other|
    decreases |pieces|
  {
    if |pieces| > 1 {
      JoinLength(pieces[1..], between, other);
    }
  }

  lemma {:induction false} JoinDiffers(pieces: seq<string>, between: string, other: string)
    requires |pieces| > 1 && between != other
    ensures Join(pieces, between) != Join(pieces, other)
  {
    if |between| == |other| {
      SecondPart(pieces, between);
      SecondPart(pieces, other);
    } else {
      JoinLength(pieces, between, other);
      hide Join;
      ProductOrder(|pieces| - 1, |between|, |other|);
    }
  }

  lemma {:induction false} SecondPart(pieces: seq<string>, between: string)
    requires |pieces| > 1
    ensures |Join(pieces, between)| >= |pieces[0]| + |between|
    ensures Join(pieces, between)[|pieces[0]|..|pieces[0]| + |between|] == between
  {
  }

  lemma {:induction false} ProductOrder(n: nat, a: nat, b: nat)
    requires n > 0
    ensures a < b ==> n * a < n * b
    ensures a > b ==> n * a > n * b
  {
    if n > 1 {
      ProductOrder(n - 1, a, b);
      assert n * a == (n - 1) * a + a && n * b == (n - 1) * b + b;
    }
  }

  /** Replacing leaves a text as it is exactly when there is no match or nothing to change in one. */
  lemma ReplacedIsSameIff(text: string, search: string, replace: string)
    requires search != ""
    ensures Join(Split(text, search), replace) == text <==> search == replace || Find(text, search, 0).None?
  {
    JoinOfSplit(text, search);
    if search != replace && Find(text, search, 0).Some? {
      JoinDiffers(Split(text, search), search, replace);
    }
  }

  lemma {:induction false} FindBehind(text: string, search: string, pos: nat)
    requires pos <= |text|
    ensures Find(text[pos..], search, 0) ==
            if Find(text, search, pos).Some? then Some(Find(text, search, pos).value - pos) else None
  {
    var rest := text[pos..];
    forall i: nat ensures Occurs(rest, search, i) <==> Occurs(text, search, pos + i) {
      if i + |search| <= |rest| {
        assert rest[i..i + |search|] == text[pos + i..pos + i + |search|];
      }
    }
    var f, g := Find(rest, search, 0), Find(text, search, pos);
    if f.Some? {
      assert Occurs(text, search, pos + f.value);
    }
    if g.Some? {
      assert Occurs(rest, search, g.value - pos);
    }
  }

  /** One round of the loop takes one piece off the part that is still to be searched. */
  lemma OneRound(text: string, search: string, replace: string, pos: nat, at: nat, next: string)
    requires search != "" && pos <= |text| && Find(text, search, pos) == Some(at)
    requires next == text[..at] + replace + text[at + |search|..]
    ensures Split(text[pos..], search) == [text[pos..at]] + Split(next[at + |replace|..], search)
    ensures text[..pos] + Join(Split(text[pos..], search), replace) ==
            next[..at + |replace|] + Join(Split(next[at + |replace|..], search), replace)
  {
    hide Find;
    FindBehind(text, search, pos);
    var piece, rest := text[pos..at], text[at + |search|..];
    assert text[pos..][..at - pos] == piece;
    assert text[pos..][at - pos + |search|..] == rest;
    assert next[at + |replace|..] == rest;
    assert next[..at + |replace|] == text[..at] + replace;
    var pieces := [piece] + Split(rest, search);
    assert pieces[1..] == Split(rest, search);
    assert text[..pos] + piece == text[..at];
    assert text[..pos] + (piece + replace + Join(Split(rest, search), replace)) ==
           text[..at] + replace + Join(Split(rest, search), replace);
  }

  /** The loop over the text: it changes in place, also when it grows, and what has been put in is
      not searched again.  The first match is reported only if there is one. */
  method ReplaceAll(input: string, search: string, replace: string)
    returns (text: string, count: nat, matchPos: Option<nat>)
    requires search != ""
    ensures text == Join(Split(input, search), replace)
    ensures count == |Split(input, search)| - 1
    ensures |text| == |input| + count * |replace| - count * |search|
    ensures matchPos == Find(input, search, 0)
  {
    hide Join, Occurs, Find;
    text, count, matchPos := input, 0, None;
    var pos: nat := 0;
    assert text[0..] == input;
    var found := Find(text, search, pos);
    while found.Some?
      invariant pos <= |text| && found == Find(text, search, pos)
      invariant text[..pos] + Join(Split(text[pos..], search), replace) == Join(Split(input, search), replace)
      invariant count + |Split(text[pos..], search)| == |Split(input, search)|
      invariant matchPos == if count == 0 then None else Find(input, search, 0)
      invariant count == 0 ==> pos == 0 && text == input
      decreases |text| - pos
    {
      FindInside(text, search, pos);
      OneRound(text, search, replace, pos, found.value, text[..found.value] + replace + text[found.value + |search|..]);
      pos := found.value;
      if matchPos.None? {
        matchPos := Some(pos);
      }
      text := text[..pos] + replace + text[pos + |search|..];
      pos := pos + |replace|;
      count := count + 1;
      found := Find(text, search, pos);
    }
    FindBehind(text, search, pos);
    SplitWithoutMatch(text[pos..], search, replace);
    assert text == text[..pos] + text[pos..];
    JoinLength(Split(input, search), search, replace);
    JoinOfSplit(input, search);
  }

  lemma FindInside(text: string, search: string, pos: nat)
    requires pos <= |text| && Find(text, search, pos).Some?
    ensures Find(text, search, pos).value + |search| <= |text|
  {
  }

  lemma SplitWithoutMatch(text: string, search: string, replace: string)
    requires search != "" && Find(text, search, 0).None?
    ensures Split(text, search) == [text] && Join([text], replace) == text
  {
  }
}
