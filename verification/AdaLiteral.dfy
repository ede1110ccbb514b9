/**
 * The Ada lexer decides with two flag-and-index loops whether a word it has
 * collected is a legal numeric literal or a legal identifier.  The grammar of
 * ISO/IEC 8652:1995, sections 2.3, 2.4.1 and 2.4.2, is written down here rule by
 * rule, and the loops are proved to accept exactly what it derives.
 */
module AdaLiteral {
  // ----- Character classes -----

  predicate IsADigit(ch: char) {
    '0' <= ch <= '9'
  }

  predicate IsAlpha(ch: char) {
    'a' <= ch <= 'z' || 'A' <= ch <= 'Z'
  }

  function ToLower(ch: char): char {
    if 'A' <= ch <= 'Z' then ch + ' ' else ch
  }

  predicate IsWordStartCharacter(ch: char) {
    IsAlpha(ch) || ch == '_'
  }

  predicate IsWordCharacter(ch: char) {
    IsWordStartCharacter(ch) || IsADigit(ch)
  }

  // ----- The grammar -----

  /** The value of a digit or an extended digit; sixteen for any other character. */
  function DigitValue(ch: char): nat {
    if IsADigit(ch) then (ch - '0') as int
    else if 'a' <= ch <= 'f' then (ch - 'a') as int + 10
    else if 'A' <= ch <= 'F' then (ch - 'A') as int + 10
    else 16
  }

  /** What may begin, and what may continue, a name or a numeral. */
  datatype Alphabet = Letters | Digits(base: nat)

  predicate Continues(a: Alphabet, ch: char) {
    match a
    case Letters => IsAlpha(ch) || IsADigit(ch)
    case Digits(base) => DigitValue(ch) < 16 && DigitValue(ch) < base
  }

  predicate Begins(a: Alphabet, ch: char) {
    Continues(a, ch) && (a.Letters? ==> IsAlpha(ch))
  }

  /** The rule `x {[underline] y}` shared by identifier, numeral and based_numeral. */
  predicate Grouped(s: string, a: Alphabet)
    decreases |s|
  {
    if |s| <= 1 then |s| == 1 && Begins(a, s[0])
    else Continues(a, s[|s| - 1]) && (Grouped(s[..|s| - 1], a) || (s[|s| - 2] == '_' && Grouped(s[..|s| - 2], a)))
  }

  /** identifier ::= identifier_letter {[underline] letter_or_digit}, over the ASCII letters. */
  predicate Identifier(s: string) {
    Grouped(s, Letters)
  }

  predicate AreNumerals(n: string, f: string, base: nat) {
    Grouped(n, Digits(base)) && Grouped(f, Digits(base))
  }

  /** numeral [. numeral], or based_numeral [. based_numeral]; `point` tells which. */
  ghost predicate Mantissa(s: string, base: nat, point: bool) {
    if point then
      exists n: string, f: string :: s == n + "." + f && AreNumerals(n, f, base)
    else
      Grouped(s, Digits(base))
  }

  /** exponent ::= E [+] numeral | E - numeral, the minus only for a literal with a point. */
  ghost predicate Exponent(s: string, point: bool) {
    exists letter: string, sign: string, n: string ::
      s == letter + sign + n && IsExponent(letter, sign, n, point)
  }

  predicate IsExponent(letter: string, sign: string, n: string, point: bool) {
    && (letter == "e" || letter == "E")
    && (sign == "" || sign == "+" || (sign == "-" && point))
    && Grouped(n, Digits(10))
  }

  ghost predicate OptionalExponent(s: string, point: bool) {
    s == "" || Exponent(s, point)
  }

  /** decimal_literal ::= numeral [. numeral] [exponent] */
  ghost predicate DecimalLiteral(s: string) {
    exists m: string, e: string, point: bool :: s == m + e && Mantissa(m, 10, point) && OptionalExponent(e, point)
  }

  /** The value of a decimal numeral, underlines skipped. */
  function Value(s: string): nat {
    if s == "" then 0
    else if s[|s| - 1] == '_' then Value(s[..|s| - 1])
    else 10 * Value(s[..|s| - 1]) + DigitValue(s[|s| - 1])
  }

  /** A base is a numeral of a value from two to sixteen. */
  predicate Base(b: string) {
    Grouped(b, Digits(10)) && 2 <= Value(b) <= 16
  }

  /** based_literal ::= base # based_numeral [. based_numeral] # [exponent] */
  ghost predicate BasedLiteral(s: string) {
    exists b: string, m: string, e: string, point: bool ::
      s == b + "#" + m + "#" + e && Base(b) && Mantissa(m, Value(b), point) && OptionalExponent(e, point)
  }

  ghost predicate NumericLiteral(s: string) {
    DecimalLiteral(s) || BasedLiteral(s)
  }

  // ----- Spacing: what the flags of the loops keep track of -----

  /** The character at `k` continues a word of `a`, or is an underline right behind such a character. */
  predicate SpacedAt(s: string, k: nat, a: Alphabet)
    requires k < |s|
  {
    Continues(a, s[k]) || (s[k] == '_' && k > 0 && Continues(a, s[k - 1]))
  }

  predicate Spaced(s: string, a: Alphabet) {
    forall k :: 0 <= k < |s| ==> SpacedAt(s, k, a)
  }

  lemma SpacedInit(s: string, a: Alphabet)
    requires s != ""
    ensures Spaced(s, a) <==> Spaced(s[..|s| - 1], a) && SpacedAt(s, |s| - 1, a)
  {
    var t := s[..|s| - 1];
    forall k | 0 <= k < |t| ensures SpacedAt(t, k, a) <==> SpacedAt(s, k, a) {}
    if Spaced(s, a) {
      forall k | 0 <= k < |t| ensures SpacedAt(t, k, a) {
        assert SpacedAt(s, k, a);
      }
    }
    if Spaced(t, a) && SpacedAt(s, |s| - 1, a) {
      forall k | 0 <= k < |s| ensures SpacedAt(s, k, a) {
        if k < |s| - 1 { assert SpacedAt(t, k, a); }
      }
    }
  }

  /** The rule derives the words that begin and end well and set every underline behind a good character. */
  lemma {:induction false} GroupedIff(s: string, a: Alphabet)
    ensures Grouped(s, a) <==> s != "" && Begins(a, s[0]) && Continues(a, s[|s| - 1]) && Spaced(s, a)
    decreases |s|
  {
    if |s| > 1 {
      var n := |s|;
      GroupedIff(s[..n - 1], a);
      SpacedInit(s, a);
      SpacedInit(s[..n - 1], a);
      assert s[..n - 1][..n - 2] == s[..n - 2];
      GroupedIff(s[..n - 2], a);
    }
  }

  lemma NumeralIff(s: string, base: nat)
    ensures Grouped(s, Digits(base)) <==> s != "" && Continues(Digits(base), s[|s| - 1]) && Spaced(s, Digits(base))
  {
    GroupedIff(s, Digits(base));
    if s != "" && Spaced(s, Digits(base)) {
      assert SpacedAt(s, 0, Digits(base));
    }
  }

  predicate IsSpecial(ch: char) {
    ch == '_' || ch == '.'
  }

  predicate InMantissa(ch: char, base: nat) {
    IsSpecial(ch) || Continues(Digits(base), ch)
  }

  /** The character at `k` is a digit, or an underline or a point right behind a digit. */
  predicate MarkedAt(s: string, k: nat, base: nat)
    requires k < |s|
  {
    Continues(Digits(base), s[k]) || (IsSpecial(s[k]) && k > 0 && Continues(Digits(base), s[k - 1]))
  }

  predicate Marked(s: string, base: nat) {
    forall k :: 0 <= k < |s| ==> MarkedAt(s, k, base)
  }

  predicate OnePoint(s: string) {
    forall j, k :: 0 <= j < k < |s| && s[j] == '.' ==> s[k] != '.'
  }

  /** What the flags of the mantissa loops amount to when they end behind `s`. */
  predicate WellMarked(s: string, base: nat) {
    s != "" && Continues(Digits(base), s[|s| - 1]) && Marked(s, base) && OnePoint(s)
  }

  lemma MarkedWithoutPoint(s: string, base: nat)
    requires '.' !in s
    ensures Marked(s, base) <==> Spaced(s, Digits(base))
  {
    forall k | 0 <= k < |s| ensures MarkedAt(s, k, base) <==> SpacedAt(s, k, Digits(base)) {}
  }

  lemma SpacedMeans(s: string, k: nat, a: Alphabet)
    requires Spaced(s, a) && k < |s|
    ensures SpacedAt(s, k, a)
  {
  }

  lemma SpacedHasNoPoint(s: string, a: Alphabet)
    requires Spaced(s, a)
    ensures '.' !in s
  {
    forall k | 0 <= k < |s| ensures s[k] != '.' {
      assert SpacedAt(s, k, a);
    }
  }

  lemma JoinedIsMarked(n: string, f: string, base: nat)
    requires Grouped(n, Digits(base)) && Grouped(f, Digits(base))
    ensures WellMarked(n + "." + f, base)
  {
    hide Grouped, Spaced;
    var s := n + "." + f;
    NumeralIff(n, base);
    NumeralIff(f, base);
    SpacedHasNoPoint(n, Digits(base));
    SpacedHasNoPoint(f, Digits(base));
    forall k | 0 <= k < |s| ensures MarkedAt(s, k, base) {
      if k < |n| {
        SpacedMeans(n, k, Digits(base));
      } else if k > |n| {
        SpacedMeans(f, k - |n| - 1, Digits(base));
      }
    }
    forall j, k | 0 <= j < k < |s| && s[j] == '.' ensures s[k] != '.' {
      assert j == |n|;
    }
  }

  lemma MarkedIsJoined(s: string, base: nat, k: nat)
    requires WellMarked(s, base) && k < |s| && s[k] == '.'
    ensures Grouped(s[..k], Digits(base)) && Grouped(s[k + 1..], Digits(base))
  {
    var n, f := s[..k], s[k + 1..];
    assert MarkedAt(s, k, base);
    assert MarkedAt(s, 0, base);
    assert k + 1 < |s|;
    assert MarkedAt(s, k + 1, base);
    forall j | 0 <= j < |n| ensures SpacedAt(n, j, Digits(base)) {
      assert MarkedAt(s, j, base);
    }
    forall j | 0 <= j < |f| ensures SpacedAt(f, j, Digits(base)) {
      assert MarkedAt(s, k + 1 + j, base);
    }
    GroupedIff(n, Digits(base));
    GroupedIff(f, Digits(base));
  }

  /** The flags accept what the grammar derives, and the point flag says which of its two forms it is. */
  lemma MantissaIff(s: string, base: nat, point: bool)
    ensures Mantissa(s, base, point) <==> WellMarked(s, base) && (point <==> '.' in s)
  {
    hide Grouped, Marked, Spaced, MarkedAt, SpacedAt, Continues;
    NumeralIff(s, base);
    if '.' in s {
      var k :| 0 <= k < |s| && s[k] == '.';
      if WellMarked(s, base) {
        MarkedIsJoined(s, base, k);
        assert s == s[..k] + "." + s[k + 1..];
      }
      if Spaced(s, Digits(base)) {
        SpacedHasNoPoint(s, Digits(base));
      }
    } else {
      MarkedWithoutPoint(s, base);
    }
    forall n: string, f: string | s == n + "." + f && Grouped(n, Digits(base)) && Grouped(f, Digits(base))
      ensures '.' in s && WellMarked(s, base)
    {
      JoinedIsMarked(n, f, base);
      assert s[|n|] == '.';
    }
  }

  // ----- Where the parts of a literal end -----

  /** How many characters at the front of `s` can belong to a mantissa. */
  function MantissaLength(s: string, base: nat): (n: nat)
    ensures n <= |s|
    ensures forall k :: 0 <= k < n ==> InMantissa(s[k], base)
    ensures n < |s| ==> !InMantissa(s[n], base)
  {
    if s == "" || !InMantissa(s[0], base) then 0 else 1 + MantissaLength(s[1..], base)
  }

  /** The index of the first '#' from `from` on, or the length. */
  function NextHash(s: string, from: nat): (n: nat)
    requires from <= |s|
    ensures from <= n <= |s|
    ensures forall k :: from <= k < n ==> s[k] != '#'
    ensures n < |s| ==> s[n] == '#'
    decreases |s| - from
  {
    if from == |s| || s[from] == '#' then from else NextHash(s, from + 1)
  }

  lemma MantissaChars(s: string, base: nat, point: bool)
    requires Mantissa(s, base, point)
    ensures forall k :: 0 <= k < |s| ==> InMantissa(s[k], base)
  {
    MantissaIff(s, base, point);
    forall k | 0 <= k < |s| ensures InMantissa(s[k], base) {
      assert MarkedAt(s, k, base);
    }
  }

  lemma NumeralChars(s: string)
    requires Grouped(s, Digits(10))
    ensures forall k :: 0 <= k < |s| ==> s[k] == '_' || IsADigit(s[k])
  {
  }

  lemma ExponentStart(e: string, point: bool)
    requires OptionalExponent(e, point) && e != ""
    ensures e[0] in "eE" && '#' !in e
  {
    var letter: string, sign: string, n: string :|
      e == letter + sign + n && IsExponent(letter, sign, n, point);
    NumeralChars(n);
  }

  /** There is one way only to cut a decimal literal: behind its longest mantissa. */
  lemma DecimalIff(s: string, i: nat)
    requires i == MantissaLength(s, 10)
    ensures DecimalLiteral(s) <==>
      WellMarked(s[..i], 10) && OptionalExponent(s[i..], '.' in s[..i])
  {
    hide Grouped, WellMarked, Exponent;
    forall m: string, e: string, point: bool | s == m + e && Mantissa(m, 10, point) && OptionalExponent(e, point)
      ensures m == s[..i] && e == s[i..]
    {
      MantissaChars(m, 10, point);
      if e != "" {
        ExponentStart(e, point);
        assert s[|m|] == e[0];
      }
      assert forall k :: 0 <= k < |m| ==> s[k] == m[k];
      assert i == |m|;
    }
    assert s == s[..i] + s[i..];
    MantissaIff(s[..i], 10, true);
    MantissaIff(s[..i], 10, false);
  }

  /** A decimal literal holds no '#'. */
  lemma DecimalHasNoHash(s: string)
    requires DecimalLiteral(s)
    ensures '#' !in s
  {
    hide Grouped, Mantissa, OptionalExponent;
    var m: string, e: string, point: bool :| s == m + e && Mantissa(m, 10, point) && OptionalExponent(e, point);
    MantissaChars(m, 10, point);
    if e != "" {
      ExponentStart(e, point);
    }
  }

  lemma MakeBased(b: string, m: string, e: string, point: bool)
    requires Base(b) && Mantissa(m, Value(b), point) && OptionalExponent(e, point)
    ensures BasedLiteral(b + "#" + m + "#" + e)
  {
  }

  lemma BasedParts(s: string) returns (b: string, m: string, e: string, point: bool)
    requires BasedLiteral(s)
    ensures s == b + "#" + m + "#" + e && Base(b) && Mantissa(m, Value(b), point) && OptionalExponent(e, point)
    ensures '#' !in b && '#' !in m
  {
    hide Grouped, Exponent, Value, OptionalExponent, Mantissa;
    b, m, e, point :|
      s == b + "#" + m + "#" + e && Base(b) && Mantissa(m, Value(b), point) && OptionalExponent(e, point);
    NumeralChars(b);
    MantissaChars(m, Value(b), point);
  }

  lemma CutAtHashes(s: string, b: string, m: string, e: string, h: nat, g: nat)
    requires s == b + "#" + m + "#" + e && '#' !in b && '#' !in m
    requires h == NextHash(s, 0) < |s| && g == NextHash(s, h + 1)
    ensures g < |s| && b == s[..h] && m == s[h + 1..g] && e == s[g + 1..]
  {
    assert forall k :: 0 <= k < |b| ==> s[k] == b[k];
    assert s[|b|] == '#';
    assert h == |b|;
    assert forall k :: 0 <= k < |m| ==> s[h + 1 + k] == m[k];
    assert s[h + 1 + |m|] == '#';
    assert forall k :: h + 1 <= k < h + 1 + |m| ==> s[k] == m[k - h - 1];
    assert g == h + 1 + |m|;
  }

  /** There is one way only to cut a based literal: at its first two '#'. */
  lemma BasedIff(s: string, h: nat, g: nat)
    requires h == NextHash(s, 0) < |s| && g == NextHash(s, h + 1)
    ensures BasedLiteral(s) <==>
      g < |s| && Base(s[..h]) && WellMarked(s[h + 1..g], Value(s[..h])) &&
      OptionalExponent(s[g + 1..], '.' in s[h + 1..g])
  {
    hide *;
    if BasedLiteral(s) {
      var b, m, e, point := BasedParts(s);
      CutAtHashes(s, b, m, e, h, g);
      MantissaIff(m, Value(b), point);
    }
    if g < |s| && Base(s[..h]) && WellMarked(s[h + 1..g], Value(s[..h])) {
      MantissaIff(s[h + 1..g], Value(s[..h]), '.' in s[h + 1..g]);
      if OptionalExponent(s[g + 1..], '.' in s[h + 1..g]) {
        MakeBased(s[..h], s[h + 1..g], s[g + 1..], '.' in s[h + 1..g]);
        assert s == s[..h] + "#" + s[h + 1..g] + "#" + s[g + 1..];
      }
    }
  }

  lemma BasedHasHash(s: string)
    requires BasedLiteral(s)
    ensures '#' in s
  {
  }

  lemma ExponentIff(s: string, point: bool)
    ensures Exponent(s, point) <==>
      s != "" && s[0] in "eE" &&
      (Grouped(s[1..], Digits(10)) ||
       (|s| > 1 && (s[1] == '+' || (s[1] == '-' && point)) && Grouped(s[2..], Digits(10))))
  {
    hide Grouped;
    if s != "" && s[0] in "eE" {
      var letter := s[..1];
      assert letter == "e" || letter == "E";
      if Grouped(s[1..], Digits(10)) {
        assert s == letter + "" + s[1..] && IsExponent(letter, "", s[1..], point);
      }
      if |s| > 1 && (s[1] == '+' || (s[1] == '-' && point)) && Grouped(s[2..], Digits(10)) {
        var sign := s[1..2];
        assert sign == "+" || (sign == "-" && point);
        assert s == letter + sign + s[2..] && IsExponent(letter, sign, s[2..], point);
      }
    }
    forall letter: string, sign: string, n: string | s == letter + sign + n && IsExponent(letter, sign, n, point)
      ensures s[0] in "eE" && (if sign == "" then n == s[1..] else |s| > 1 && s[1] == sign[0] && n == s[2..])
    {}
  }

  // ----- Values: the early rejection of a growing base -----

  /** A longer base has no smaller value, so one beyond sixteen can be given up at once. */
  lemma {:induction false} ValueGrows(s: string, i: nat)
    requires i <= |s|
    ensures Value(s[..i]) <= Value(s)
    decreases |s|
  {
    if i == |s| {
      assert s[..i] == s;
    } else {
      ValueGrows(s[..|s| - 1], i);
      assert s[..|s| - 1][..i] == s[..i];
    }
  }

  // ----- The loops -----

  lemma SpacedStep(s: string, i: nat, a: Alphabet)
    requires i < |s|
    ensures Spaced(s[..i + 1], a) <==> Spaced(s[..i], a) && SpacedAt(s, i, a)
    ensures Spaced(s, a) ==> Spaced(s[..i + 1], a)
  {
    var t := s[..i + 1];
    SpacedInit(t, a);
    assert t[..i] == s[..i];
    if Spaced(s, a) {
      forall k | 0 <= k < |t| ensures SpacedAt(t, k, a) {
        assert SpacedAt(s, k, a);
      }
    }
  }

  /** An identifier is valid exactly when the grammar derives it. */
  method IsValidIdentifier(identifier: string) returns (valid: bool)
    ensures valid <==> Identifier(identifier)
  {
    assert Spaced("", Letters);
    hide Spaced, Grouped;
    GroupedIff(identifier, Letters);
    var lastWasUnderscore := true;
    var length := |identifier|;
    if length == 0 {
      return false;
    }
    if !IsWordStartCharacter(identifier[0]) {
      return false;
    }
    for i := 0 to length
      invariant Spaced(identifier[..i], Letters)
      invariant lastWasUnderscore <==> i == 0 || identifier[i - 1] == '_'
      invariant i > 0 && !lastWasUnderscore ==> Continues(Letters, identifier[i - 1])
      invariant i > 0 ==> identifier[0] != '_'
    {
      SpacedStep(identifier, i, Letters);
      if !IsWordCharacter(identifier[i]) || (identifier[i] == '_' && lastWasUnderscore) {
        return false;
      }
      lastWasUnderscore := identifier[i] == '_';
    }
    assert identifier[..length] == identifier;
    if lastWasUnderscore {
      return false;
    }
    return true;
  }

  /** What the two flags of a mantissa loop say about the characters read so far. */
  ghost predicate Reading(s: string, base: nat, canBeSpecial: bool, seenDot: bool) {
    && Marked(s, base)
    && OnePoint(s)
    && (seenDot <==> '.' in s)
    && (canBeSpecial <==> s != "" && Continues(Digits(base), s[|s| - 1]))
  }

  lemma ReadNothing(base: nat)
    ensures Reading("", base, false, false)
  {
  }

  /** How one more character moves the flags, or spoils the mantissa. */
  lemma ReadNext(s: string, ch: char, base: nat, canBeSpecial: bool, seenDot: bool)
    requires Reading(s, base, canBeSpecial, seenDot)
    ensures ch == '_' && canBeSpecial ==> Reading(s + [ch], base, false, seenDot)
    ensures ch == '.' && canBeSpecial && !seenDot ==> Reading(s + [ch], base, false, true)
    ensures Continues(Digits(base), ch) ==> Reading(s + [ch], base, true, seenDot)
    ensures IsSpecial(ch) && !canBeSpecial ==> !Marked(s + [ch], base)
    ensures ch == '.' && seenDot ==> !OnePoint(s + [ch])
    ensures !InMantissa(ch, base) ==> !Marked(s + [ch], base)
  {
    var t := s + [ch];
    assert t[|s|] == ch;
    forall k | 0 <= k < |s| ensures MarkedAt(t, k, base) {
      assert MarkedAt(s, k, base);
    }
    assert MarkedAt(t, |s|, base) ==> Marked(t, base);
    assert forall k :: 0 <= k < |s| ==> t[k] == s[k];
  }

  lemma SpoiltPrefix(s: string, i: nat, base: nat)
    requires i <= |s| && (!Marked(s[..i], base) || !OnePoint(s[..i]))
    ensures !WellMarked(s, base)
  {
    var p := s[..i];
    if Marked(s, base) {
      forall k | 0 <= k < |p| ensures MarkedAt(p, k, base) {
        assert MarkedAt(s, k, base);
      }
    }
  }

  /** Reads the mantissa of a decimal literal. */
  method DecimalNumber(number: string) returns (ok: bool, i: nat, seenDot: bool)
    ensures i <= |number|
    ensures ok ==> (DecimalLiteral(number) <==> OptionalExponent(number[i..], seenDot))
    ensures !ok ==> !DecimalLiteral(number)
  {
    hide DecimalLiteral, OptionalExponent, Marked, OnePoint;
    var canBeSpecial := false;
    i, seenDot := 0, false;
    ghost var end := MantissaLength(number, 10);
    DecimalIff(number, end);
    ReadNothing(10);
    while i < |number|
      invariant i <= end
      invariant Reading(number[..i], 10, canBeSpecial, seenDot)
    {
      ghost var read := number[..i];
      ReadNext(read, number[i], 10, canBeSpecial, seenDot);
      assert read + [number[i]] == number[..i + 1];
      if i < end {
        assert number[..end][..i + 1] == number[..i + 1];
      }
      if number[i] == '_' {
        if !canBeSpecial {
          SpoiltPrefix(number[..end], i + 1, 10);
          return false, i, seenDot;
        }
        canBeSpecial := false;
      } else if number[i] == '.' {
        if !canBeSpecial || seenDot {
          SpoiltPrefix(number[..end], i + 1, 10);
          return false, i, seenDot;
        }
        canBeSpecial := false;
        seenDot := true;
      } else if IsADigit(number[i]) {
        canBeSpecial := true;
      } else {
        break;
      }
      i := i + 1;
    }
    ok := canBeSpecial;
  }

  /** What the flag of a numeral loop says about the characters read so far. */
  ghost predicate Counting(s: string, canBeSpecial: bool) {
    Spaced(s, Digits(10)) && (canBeSpecial <==> s != "" && IsADigit(s[|s| - 1]))
  }

  lemma CountNext(s: string, ch: char, canBeSpecial: bool)
    requires Counting(s, canBeSpecial)
    ensures ch == '_' && canBeSpecial ==> Counting(s + [ch], false)
    ensures IsADigit(ch) ==> Counting(s + [ch], true)
    ensures !IsADigit(ch) && !(ch == '_' && canBeSpecial) ==> !Spaced(s + [ch], Digits(10))
  {
    SpacedInit(s + [ch], Digits(10));
    assert (s + [ch])[..|s|] == s;
  }

  lemma SpoiltNumeral(s: string, i: nat)
    requires i <= |s| && !Spaced(s[..i], Digits(10))
    ensures !Grouped(s, Digits(10))
  {
    NumeralIff(s, 10);
    if Spaced(s, Digits(10)) {
      forall k | 0 <= k < i ensures SpacedAt(s[..i], k, Digits(10)) {
        assert SpacedAt(s, k, Digits(10));
      }
    }
  }

  lemma ValueNext(s: string, ch: char)
    ensures ch == '_' ==> Value(s + [ch]) == Value(s)
    ensures IsADigit(ch) ==> Value(s + [ch]) == 10 * Value(s) + (ch - '0') as int
  {
  }

  /** Reads the base of a based literal, up to its '#'. */
  method ParseBase(number: string) returns (ok: bool, i: nat, base: nat)
    ensures ok ==> i == NextHash(number, 0) && base == Value(number[..i]) <= 16
    ensures ok && i < |number| ==> Grouped(number[..i], Digits(10))
    ensures !ok ==> !Base(number[..NextHash(number, 0)])
  {
    hide Spaced, Value, Grouped;
    var canBeSpecial := false;
    i, base := 0, 0;
    ghost var h := NextHash(number, 0);
    ghost var whole := number[..h];
    CountNothing();
    while i < |number|
      invariant i <= h
      invariant Counting(number[..i], canBeSpecial)
      invariant base == Value(number[..i]) <= 16
    {
      var ch := number[i];
      ghost var read := number[..i];
      CountNext(read, ch, canBeSpecial);
      ValueNext(read, ch);
      assert read + [ch] == number[..i + 1];
      if ch != '#' {
        assert whole[..i + 1] == number[..i + 1];
      }
      if ch == '_' {
        if !canBeSpecial {
          SpoiltNumeral(whole, i + 1);
          return false, i, base;
        }
        canBeSpecial := false;
      } else if IsADigit(ch) {
        base := base * 10 + (ch - '0') as int;
        if base > 16 {
          ValueGrows(whole, i + 1);
          return false, i, base;
        }
        canBeSpecial := true;
      } else if ch == '#' && canBeSpecial {
        break;
      } else {
        NumeralIff(whole, 10);
        if ch != '#' {
          SpoiltNumeral(whole, i + 1);
        }
        return false, i, base;
      }
      i := i + 1;
    }
    NumeralIff(number[..i], 10);
    ok := true;
  }

  lemma CountNothing()
    ensures Counting("", false) && Value("") == 0
  {
  }

  /** The two range tests of the loop below, on the lower case of a character, ask for a digit of the base. */
  lemma LoweredDigit(ch: char, base: nat)
    requires base <= 16
    ensures Continues(Digits(base), ch) <==>
      (if IsADigit(ToLower(ch)) then (ToLower(ch) - '0') as int < base
       else 'a' <= ToLower(ch) <= 'f' && (ToLower(ch) - 'a') as int + 10 < base)
    ensures ToLower(ch) in "_.#" <==> ch in "_.#"
    ensures ToLower(ch) in "_.#" ==> ToLower(ch) == ch
  {
  }

  /** Reads the mantissa of a based literal, up to the second '#'. */
  method ParseBased(number: string, from: nat, base: nat) returns (ok: bool, i: nat, seenDot: bool)
    requires from <= |number| && base <= 16
    ensures ok ==> i == NextHash(number, from)
    ensures ok && i < |number| ==> WellMarked(number[from..i], base) && (seenDot <==> '.' in number[from..i])
    ensures !ok ==> !WellMarked(number[from..NextHash(number, from)], base)
  {
    hide Marked, OnePoint, Continues, DigitValue, ToLower, MantissaLength;
    var canBeSpecial := false;
    i, seenDot := from, false;
    ghost var g := NextHash(number, from);
    ghost var whole := number[from..g];
    ReadNothing(base);
    assert number[from..from] == "";
    while i < |number|
      invariant from <= i <= g
      invariant Reading(number[from..i], base, canBeSpecial, seenDot)
    {
      var ch := ToLower(number[i]);
      LoweredDigit(number[i], base);
      ghost var read := number[from..i];
      ReadNext(read, number[i], base, canBeSpecial, seenDot);
      assert read + [number[i]] == number[from..i + 1];
      if i < g {
        assert whole[..i + 1 - from] == number[from..i + 1];
      }
      if ch == '_' {
        if !canBeSpecial {
          SpoiltPrefix(whole, i + 1 - from, base);
          return false, i, seenDot;
        }
        canBeSpecial := false;
      } else if ch == '.' {
        if !canBeSpecial || seenDot {
          SpoiltPrefix(whole, i + 1 - from, base);
          return false, i, seenDot;
        }
        canBeSpecial := false;
        seenDot := true;
      } else if IsADigit(ch) {
        if (ch - '0') as int >= base {
          SpoiltPrefix(whole, i + 1 - from, base);
          return false, i, seenDot;
        }
        canBeSpecial := true;
      } else if 'a' <= ch <= 'f' {
        if (ch - 'a') as int + 10 >= base {
          SpoiltPrefix(whole, i + 1 - from, base);
          return false, i, seenDot;
        }
        canBeSpecial := true;
      } else if ch == '#' && canBeSpecial {
        break;
      } else {
        if ch != '#' {
          SpoiltPrefix(whole, i + 1 - from, base);
        }
        return false, i, seenDot;
      }
      i := i + 1;
    }
    ok := true;
  }

  /** Reads the exponent from its letter to the end of the number. */
  method ParseExponent(number: string, from: nat, seenDot: bool) returns (valid: bool)
    requires from < |number|
    ensures valid <==> Exponent(number[from..], seenDot)
  {
    hide Exponent, Spaced, Grouped;
    var i := from;
    ghost var s := number[from..];
    ExponentIff(s, seenDot);
    if number[i] != 'e' && number[i] != 'E' {
      return false;
    }
    i := i + 1;
    if i == |number| {
      GroupedIff("", Digits(10));
      return false;
    }
    ghost var behind := s[1..];
    NumeralIff(behind, 10);
    if number[i] == '+' {
      SignIsNoDigit(behind);
      i := i + 1;
    } else if number[i] == '-' {
      SignIsNoDigit(behind);
      if seenDot {
        i := i + 1;
      } else {
        return false;
      }
    }
    valid := ParseNumeral(number, i);
  }

  lemma SignIsNoDigit(s: string)
    requires s != "" && s[0] in "+-"
    ensures !Grouped(s, Digits(10))
  {
  }

  /** Reads the numeral that has to fill the rest of the number. */
  method ParseNumeral(number: string, from: nat) returns (valid: bool)
    requires from <= |number|
    ensures valid <==> Grouped(number[from..], Digits(10))
  {
    hide Spaced, Grouped;
    var i := from;
    ghost var whole := number[from..];
    NumeralIff(whole, 10);
    if i == |number| {
      return false;
    }
    var canBeSpecial := false;
    CountNothing();
    assert number[from..from] == "";
    while i < |number|
      invariant from <= i <= |number|
      invariant Counting(number[from..i], canBeSpecial)
    {
      ghost var read := number[from..i];
      CountNext(read, number[i], canBeSpecial);
      assert read + [number[i]] == number[from..i + 1] == whole[..i + 1 - from];
      if number[i] == '_' {
        if !canBeSpecial {
          SpoiltNumeral(whole, i + 1 - from);
          return false;
        }
        canBeSpecial := false;
      } else if IsADigit(number[i]) {
        canBeSpecial := true;
      } else {
        SpoiltNumeral(whole, i + 1 - from);
        return false;
      }
      i := i + 1;
    }
    assert number[from..i] == whole;
    return canBeSpecial;
  }

  /** A number is valid exactly when it is a numeric literal of the grammar. */
  method IsValidNumber(number: string) returns (valid: bool)
    ensures valid <==> NumericLiteral(number)
  {
    hide DecimalLiteral, BasedLiteral, WellMarked, Grouped, Value, Exponent, MantissaLength;
    NotBoth(number);
    if |number| == 0 {
      return false;
    }
    var ok, i, seenDot, base := false, 0, false, 0;
    if '#' !in number {
      ok, i, seenDot := DecimalNumber(number);
      if !ok {
        return false;
      }
    } else {
      ghost var h := NextHash(number, 0);
      ghost var g := NextHash(number, h + 1);
      BasedIff(number, h, g);
      ok, i, base := ParseBase(number);
      if !ok || base < 2 || i == |number| {
        return false;
      }
      i := i + 1;
      ok, i, seenDot := ParseBased(number, i, base);
      if !ok || i == |number| {
        return false;
      }
      i := i + 1;
    }
    if i < |number| {
      valid := ParseExponent(number, i, seenDot);
    } else {
      valid := i == |number|;
    }
  }

  /** A literal of base sixteen with all its parts; eight is no digit of base eight, and a minus needs a point. */
  lemma Samples()
    ensures NumericLiteral("16#f_F.0#e1") && !NumericLiteral("8#8#") && !NumericLiteral("1e-1")
  {
    hide *;
    BasedSample();
    EightSample();
    MinusSample();
    LiteralKinds("16#f_F.0#e1");
    LiteralKinds("8#8#");
    LiteralKinds("1e-1");
  }

  lemma LiteralKinds(s: string)
    ensures NumericLiteral(s) <==> DecimalLiteral(s) || BasedLiteral(s)
  {
  }

  lemma EightSample()
    ensures !DecimalLiteral("8#8#") && !BasedLiteral("8#8#")
  {
    var s := "8#8#";
    hide DecimalLiteral, BasedLiteral, Base, OptionalExponent, Grouped;
    NotBoth(s);
    BasedIff(s, 1, 3);
    assert s[1] == '#' && s[..1] == "8" && s[2..3] == "8";
    assert Value("") == 0 && "8"[..0] == "" && Value("8") == 8;
    assert "8"[0] == '8' && !Continues(Digits(8), '8');
  }

  lemma MinusSample()
    ensures !DecimalLiteral("1e-1") && !BasedLiteral("1e-1")
  {
    var s := "1e-1";
    hide DecimalLiteral, BasedLiteral, Grouped, Exponent, WellMarked;
    NotBoth(s);
    DecimalIff(s, 1);
    assert s[..1] == "1" && s[1..] == "e-1";
    ExponentIff("e-1", false);
    SignIsNoDigit("e-1"[1..]);
  }

  lemma DigitsSample()
    ensures Grouped("16", Digits(10)) && Value("16") == 16
    ensures Grouped("f_F", Digits(16)) && Grouped("0", Digits(16)) && Grouped("1", Digits(10))
  {
    assert "16"[..1] == "1" && "1"[..0] == "" && Value("") == 0 && Value("1") == 1;
    assert "f_F"[..1] == "f" && Grouped("f", Digits(16));
  }

  lemma BasedSample()
    ensures BasedLiteral("16#f_F.0#e1")
  {
    var s, b, m, e := "16#f_F.0#e1", "16", "f_F.0", "e1";
    hide Grouped, Value;
    DigitsSample();
    assert s == b + "#" + m + "#" + e;
    assert m == "f_F" + "." + "0" && AreNumerals("f_F", "0", 16) && Mantissa(m, 16, true);
    assert e == "e" + "" + "1" && IsExponent("e", "", "1", true);
    assert OptionalExponent(e, true);
  }

  lemma NotBoth(s: string)
    ensures DecimalLiteral(s) ==> '#' !in s
    ensures BasedLiteral(s) ==> '#' in s
    ensures s == "" ==> !DecimalLiteral(s)
  {
    hide DecimalLiteral, BasedLiteral;
    if DecimalLiteral(s) {
      DecimalHasNoHash(s);
      DecimalIff(s, MantissaLength(s, 10));
    }
    if BasedLiteral(s) {
      BasedHasHash(s);
    }
  }
}
