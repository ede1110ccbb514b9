/** Cutting a text into tokens at separators. */
module Tokenize {
  function FirstToken(text: string, sep: string): (token: string)
    ensures token <= text && NoneIn(token, sep)
    ensures text != "" && text[0] !in sep ==> token != ""
    ensures |token| < |text| ==> text[|token|] in sep
  {
    if text == "" || text[0] in sep then "" else [text[0]] + FirstToken(text[1..], sep)
  }

  /** The tokens of a text, cut at the characters of the separator; empty ones are dropped. */
  function Tokens(text: string, sep: string): seq<string>
    decreases |text|
  {
    if text == "" then []
    else if text[0] in sep then Tokens(text[1..], sep)
    else [FirstToken(text, sep)] + Tokens(text[|FirstToken(text, sep)|..], sep)
  }

  predicate NoneIn(s: string, sep: string) {
    forall i :: 0 <= i < |s| ==> s[i] !in sep
  }

  predicate AllIn(s: string, sep: string) {
    forall i :: 0 <= i < |s| ==> s[i] in sep
  }

  /** Tokens with the gaps before, between and behind them. */
  function Weave(gaps: seq<string>, tokens: seq<string>): string
    requires |gaps| == |tokens| + 1
  {
    if tokens == [] then gaps[0] else gaps[0] + tokens[0] + Weave(gaps[1..], tokens[1..])
  }

  /** Tokens that are not empty and hold no separator, in gaps that hold nothing else; the gaps between
      two tokens are not empty, so no token could be longer. */
  predicate IsCut(gaps: seq<string>, tokens: seq<string>, sep: string) {
    && |gaps| == |tokens| + 1
    && (forall i :: 0 <= i < |gaps| ==> AllIn(gaps[i], sep) && (0 < i < |tokens| ==> gaps[i] != ""))
    && (forall i :: 0 <= i < |tokens| ==> tokens[i] != "" && NoneIn(tokens[i], sep))
  }

  lemma {:induction false} SkipGap(gap: string, text: string, sep: string)
    requires AllIn(gap, sep)
    ensures Tokens(gap + text, sep) == Tokens(text, sep)
  {
    if gap == "" {
      assert gap + text == text;
    } else {
      assert (gap + text)[1..] == gap[1..] + text;
      SkipGap(gap[1..], text, sep);
    }
  }

  lemma {:induction false} FirstTokenOf(token: string, rest: string, sep: string)
    requires NoneIn(token, sep) && (rest == "" || rest[0] in sep)
    ensures FirstToken(token + rest, sep) == token
  {
    if token == "" {
      assert token + rest == rest;
    } else {
      assert (token + rest)[1..] == token[1..] + rest;
      FirstTokenOf(token[1..], rest, sep);
    }
  }

  lemma {:induction false} TokenThenRest(token: string, rest: string, sep: string)
    requires token != "" && NoneIn(token, sep) && (rest == "" || rest[0] in sep)
    ensures Tokens(token + rest, sep) == [token] + Tokens(rest, sep)
  {
    hide FirstToken;
    FirstTokenOf(token, rest, sep);
    assert (token + rest)[0] == token[0] && (token + rest)[|token|..] == rest;
  }

  lemma {:induction false} CutIsTokens(gaps: seq<string>, tokens: seq<string>, sep: string)
    requires IsCut(gaps, tokens, sep)
    ensures Tokens(Weave(gaps, tokens), sep) == tokens
    decreases |tokens|
  {
    hide Tokens, NoneIn, AllIn;
    if tokens == [] {
      SkipGap(gaps[0], "", sep);
      assert gaps[0] + "" == gaps[0];
      NoTokens(sep);
    } else {
      var rest := Weave(gaps[1..], tokens[1..]);
      CutIsTokens(gaps[1..], tokens[1..], sep);
      assert AllIn(gaps[1], sep) && NoneIn(tokens[0], sep);
      WeaveStart(gaps[1..], tokens[1..], sep);
      SkipGap(gaps[0], tokens[0] + rest, sep);
      assert gaps[0] + (tokens[0] + rest) == gaps[0] + tokens[0] + rest;
      TokenThenRest(tokens[0], rest, sep);
    }
  }

  lemma WeaveStart(gaps: seq<string>, tokens: seq<string>, sep: string)
    requires |gaps| == |tokens| + 1 && AllIn(gaps[0], sep) && (tokens != [] ==> gaps[0] != "")
    ensures Weave(gaps, tokens) == "" || Weave(gaps, tokens)[0] in sep
  {
  }

  lemma NoTokens(sep: string)
    ensures Tokens("", sep) == []
  {
  }

  /** The gaps between the tokens of a text. */
  lemma {:induction false} GapsOf(text: string, sep: string) returns (gaps: seq<string>)
    ensures IsCut(gaps, Tokens(text, sep), sep) && Weave(gaps, Tokens(text, sep)) == text
    ensures text == "" || text[0] !in sep || gaps[0] != ""
    decreases |text|
  {
    if text == "" {
      gaps := [""];
    } else if text[0] in sep {
      var below := GapsOf(text[1..], sep);
      gaps := [[text[0]] + below[0]] + below[1..];
      LongerGap(text[0], below, gaps, Tokens(text, sep), sep);
    } else {
      var token := FirstToken(text, sep);
      var below := GapsOf(text[|token|..], sep);
      gaps := [""] + below;
      TokenBefore(token, below, gaps, Tokens(text[|token|..], sep), Tokens(text, sep), sep);
      assert text == token + text[|token|..];
    }
  }

  lemma LongerGap(c: char, below: seq<string>, gaps: seq<string>, tokens: seq<string>, sep: string)
    requires IsCut(below, tokens, sep) && c in sep && gaps == [[c] + below[0]] + below[1..]
    ensures IsCut(gaps, tokens, sep) && Weave(gaps, tokens) == [c] + Weave(below, tokens)
  {
    assert gaps[1..] == below[1..];
    assert AllIn(below[0], sep);
    forall i | 0 <= i < |gaps| ensures AllIn(gaps[i], sep) && (0 < i < |tokens| ==> gaps[i] != "") {
      if i > 0 {
        assert gaps[i] == below[i];
      }
    }
  }

  lemma TokenBefore(token: string, below: seq<string>, gaps: seq<string>, tokens: seq<string>, all: seq<string>,
          sep: string)
    requires IsCut(below, tokens, sep) && (tokens != [] ==> below[0] != "")
    requires token != "" && NoneIn(token, sep) && gaps == [""] + below && all == [token] + tokens
    ensures IsCut(gaps, all, sep) && Weave(gaps, all) == token + Weave(below, tokens)
  {
    assert gaps[1..] == below && all[1..] == tokens;
    forall i | 0 <= i < |gaps| ensures AllIn(gaps[i], sep) && (0 < i < |all| ==> gaps[i] != "") {
      if i > 0 {
        assert gaps[i] == below[i - 1];
      }
    }
  }

  predicate Cuts(gaps: seq<string>, tokens: seq<string>, text: string, sep: string) {
    IsCut(gaps, tokens, sep) && Weave(gaps, tokens) == text
  }

  /** The tokens are the longest runs without a separator, all of them and in order, and nothing else is. */
  lemma TokensIff(text: string, sep: string, tokens: seq<string>)
    ensures tokens == Tokens(text, sep) <==> exists gaps :: Cuts(gaps, tokens, text, sep)
  {
    var gaps := GapsOf(text, sep);
    assert Cuts(gaps, Tokens(text, sep), text, sep);
    hide Tokens, IsCut, Weave;
    if other :| Cuts(other, tokens, text, sep) {
      CutGivesTokens(other, tokens, text, sep);
    }
  }

  lemma CutGivesTokens(gaps: seq<string>, tokens: seq<string>, text: string, sep: string)
    requires Cuts(gaps, tokens, text, sep)
    ensures tokens == Tokens(text, sep)
  {
    CutIsTokens(gaps, tokens, sep);
  }
}
