/** How the name of a configuration item, parts joined by dots, becomes a path into the tree. */
module ItemPath {
  import opened Tokenize

  const DOT := "."

  /** The position of the first or the last `c`; -1 if there is none. */
  function Position(text: string, c: char, first: bool): (pos: int)
    ensures pos == -1 <==> c !in text
    ensures pos != -1 ==> 0 <= pos < |text| && text[pos] == c
    ensures pos != -1 && first ==> forall k :: 0 <= k < pos ==> text[k] != c
    ensures pos != -1 && !first ==> forall k :: pos < k < |text| ==> text[k] != c
    decreases |text|
  {
    if text == "" then -1
    else if first then
      if text[0] == c then 0
      else
        var pos := Position(text[1..], c, first);
        if pos == -1 then -1 else pos + 1
    else if text[|text| - 1] == c then |text| - 1
    else
      Position(text[..|text| - 1], c, first)
  }

  /** The text behind the first or last `c`, or all of it. */
  function After(text: string, c: char, first: bool): string {
    var pos := Position(text, c, first);
    if pos == -1 then text else text[pos + 1..]
  }

  /** The text before the first or last `c`, or all of it. */
  function Before(text: string, c: char, first: bool): string {
    var pos := Position(text, c, first);
    if pos == -1 then text else text[..pos]
  }

  /** What is before and behind the first or last `c` makes up the text around it. */
  lemma CutAround(text: string, c: char, first: bool)
    ensures c in text ==> Before(text, c, first) + [c] + After(text, c, first) == text
    ensures c in text ==> c !in if first then Before(text, c, first) else After(text, c, first)
    ensures c !in text ==> Before(text, c, first) == After(text, c, first) == text
  {
    hide Position;
  }

  const MAX_DEPTH := 5

  /** The node a dotted parent name leads to: a name with too many parts leads to the root. */
  function ParentPath(parent: string): seq<string> {
    if |Tokens(parent, DOT)| > MAX_DEPTH then [] else Tokens(parent, DOT)
  }

  /** The path an item's value is kept at. */
  function Route(item: string): (path: seq<string>)
    ensures path != []
  {
    if '.' !in item then [item]
    else ParentPath(Before(item, '.', false)) + [After(item, '.', false)]
  }

  /** A part of an item name: not empty, and without a dot. */
  predicate IsPart(part: string) {
    part != "" && '.' !in part
  }

  /** The parts written with dots between them. */
  function Dotted(parts: seq<string>): string
    requires parts != []
  {
    if |parts| == 1 then parts[0] else Dotted(parts[..|parts| - 1]) + "." + parts[|parts| - 1]
  }

  lemma TokensOfPart(part: string)
    requires IsPart(part)
    ensures Tokens(part, DOT) == [part]
  {
    var token := FirstToken(part, DOT);
    assert forall k :: 0 <= k < |part| ==> part[k] != '.';
    assert token == part;
    assert part[|part|..] == "";
  }

  lemma FirstTokenBefore(text: string, rest: string)
    requires rest != "" && rest[0] == '.'
    ensures FirstToken(text + rest, DOT) == FirstToken(text, DOT)
  {
    if text == "" {
      assert text + rest == rest;
    } else {
      assert (text + rest)[1..] == text[1..] + rest;
      FirstTokenBefore(text[1..], rest);
    }
  }

  lemma {:induction false} TokensOfJoined(text: string, part: string)
    requires IsPart(part)
    ensures Tokens(text + "." + part, DOT) == Tokens(text, DOT) + [part]
    decreases |text|
  {
    hide FirstToken, NoneIn;
    var rest := "." + part;
    var whole := text + "." + part;
    assert whole == text + rest;
    if text == "" {
      assert whole[1..] == part;
      TokensOfPart(part);
    } else if text[0] == '.' {
      assert whole[1..] == text[1..] + "." + part;
      TokensOfJoined(text[1..], part);
    } else {
      var token := FirstToken(text, DOT);
      FirstTokenBefore(text, rest);
      assert whole[|token|..] == text[|token|..] + "." + part;
      TokensOfJoined(text[|token|..], part);
    }
  }

  lemma {:induction false} TokensOfDotted(parts: seq<string>)
    requires parts != [] && forall p :: p in parts ==> IsPart(p)
    ensures Tokens(Dotted(parts), DOT) == parts
    decreases |parts|
  {
    var last := |parts| - 1;
    if last == 0 {
      TokensOfPart(parts[0]);
    } else {
      TokensOfDotted(parts[..last]);
      TokensOfJoined(Dotted(parts[..last]), parts[last]);
    }
  }

  /** The last dot of `text.part` is the one in front of the part. */
  lemma CutAtLastDot(text: string, part: string)
    requires '.' !in part
    ensures Before(text + "." + part, '.', false) == text
    ensures After(text + "." + part, '.', false) == part
  {
    var whole := text + "." + part;
    var pos := Position(whole, '.', false);
    assert whole[|text|] == '.';
    forall k | |text| < k < |whole| ensures whole[k] != '.' {
      assert whole[k] == part[k - |text| - 1];
    }
    assert pos == |text|;
    assert whole[..|text|] == text;
    assert whole[|text| + 1..] == part;
  }

  /** Up to six parts, an item is kept at the path its name spells; a longer one is kept at the root,
      under its last part alone. */
  lemma {:induction false} RouteOfDotted(parts: seq<string>)
    requires parts != [] && forall p :: p in parts ==> IsPart(p)
    ensures Route(Dotted(parts)) == if |parts| <= 6 then parts else [parts[|parts| - 1]]
  {
    hide Position, Before, After, Tokens;
    var last := |parts| - 1;
    assert IsPart(parts[last]);
    if last > 0 {
      var parent := parts[..last];
      forall p | p in parent ensures IsPart(p) {
        assert p in parts;
      }
      TokensOfDotted(parent);
      CutAtLastDot(Dotted(parent), parts[last]);
      assert Dotted(parts)[|Dotted(parent)|] == '.';
      assert parts == parent + [parts[last]];
    }
  }

  /** A child's key is kept under its parent's member exactly when the parent's name has no dot. */
  lemma RouteOfChildIff(parent: string, key: string)
    requires parent != "" && '.' !in key
    ensures Route(parent + "." + key) == [parent, key] <==> '.' !in parent
  {
    CutAtLastDot(parent, key);
    assert (parent + "." + key)[|parent|] == '.';
    if '.' !in parent {
      TokensOfPart(parent);
    }
    if Route(parent + "." + key) == [parent, key] {
      assert ParentPath(parent) == [parent];
      TokensHaveNoDot(parent);
    }
  }

  lemma {:induction false} TokensHaveNoDot(text: string)
    ensures forall i :: 0 <= i < |Tokens(text, DOT)| ==> '.' !in Tokens(text, DOT)[i]
    decreases |text|
  {
    if text != "" {
      if text[0] == '.' {
        TokensHaveNoDot(text[1..]);
      } else {
        TokensHaveNoDot(text[|FirstToken(text, DOT)|..]);
      }
    }
  }
}
