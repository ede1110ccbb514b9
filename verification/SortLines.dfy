/** Sorting the lines of a text, whole or by a column. */
module SortLines {
  import opened Options
  import opened Strings
  import opened Tokenize

  // ----- The order of strings -----

  predicate Leq(a: string, b: string) {
    a == "" || (b != "" && (a[0] < b[0] || (a[0] == b[0] && Leq(a[1..], b[1..]))))
  }

  lemma {:induction false} LeqTotal(a: string, b: string)
    ensures Leq(a, b) || Leq(b, a)
    ensures Leq(a, b) && Leq(b, a) ==> a == b
  {
    if a != "" && b != "" {
      LeqTotal(a[1..], b[1..]);
      if a[0] == b[0] && a[1..] == b[1..] {
        assert a == [a[0]] + a[1..] && b == [b[0]] + b[1..];
      }
    }
  }

  lemma {:induction false} LeqTransitive(a: string, b: string, c: string)
    requires Leq(a, b) && Leq(b, c)
    ensures Leq(a, c)
  {
    if a != "" && a[0] == b[0] == c[0] {
      LeqTransitive(a[1..], b[1..], c[1..]);
    }
  }

  /** The first place where two texts differ has the smaller character of the first one. */
  predicate LessAt(a: string, b: string, k: nat) {
    k < |a| && k < |b| && a[..k] == b[..k] && a[k] < b[k]
  }

  lemma LessAtTail(a: string, b: string, k: nat)
    requires a != "" && b != "" && a[0] == b[0]
    ensures LessAt(a, b, k + 1) <==> LessAt(a[1..], b[1..], k)
    ensures !LessAt(a, b, 0) && (a <= b <==> a[1..] <= b[1..])
  {
    if k < |a| - 1 && k < |b| - 1 {
      assert a[..k + 1] == [a[0]] + a[1..][..k] && b[..k + 1] == [b[0]] + b[1..][..k];
    }
  }

  lemma LessAtStart(a: string, b: string, k: nat)
    requires a != "" && b != "" && a[0] != b[0]
    ensures LessAt(a, b, k) <==> k == 0 && a[0] < b[0]
  {
    if 0 < k < |a| && k < |b| {
      assert a[..k][0] == a[0] && b[..k][0] == b[0];
    }
  }

  /** A prefix comes first, and otherwise the text with the smaller character where they first differ. */
  lemma {:induction false} LeqIff(a: string, b: string)
    ensures Leq(a, b) <==> a <= b || exists k: nat :: LessAt(a, b, k)
  {
    if a != "" && b != "" {
      var s, t := a[1..], b[1..];
      LeqIff(s, t);
      hide LessAt;
      if a[0] == b[0] {
        LessAtTail(a, b, 0);
        if k: nat :| LessAt(s, t, k) {
          LessAtTail(a, b, k);
        }
        if k: nat :| LessAt(a, b, k) {
          LessAtTail(a, b, k - 1);
        }
      } else {
        LessAtStart(a, b, 0);
        if k: nat :| LessAt(a, b, k) {
          LessAtStart(a, b, k);
        }
      }
    }
  }

  // ----- The containers -----

  /** An element of a container ordered by key; a plain set of keys holds empty lines. */
  datatype Pair = Pair(key: string, line: string)

  /** Inserts behind the elements whose keys are not greater. */
  function Insert(ps: seq<Pair>, p: Pair): seq<Pair> {
    if ps == [] then [p]
    else if Leq(ps[0].key, p.key) then [ps[0]] + Insert(ps[1..], p)
    else [p] + ps
  }

  predicate HasKey(ps: seq<Pair>, key: string) {
    exists i :: 0 <= i < |ps| && ps[i].key == key
  }

  /** Inserts, unless there is an element with the key. */
  function InsertNew(ps: seq<Pair>, p: Pair): seq<Pair> {
    if HasKey(ps, p.key) then ps else Insert(ps, p)
  }

  function InsertAll(ps: seq<Pair>): seq<Pair> {
    if ps == [] then [] else Insert(InsertAll(ps[..|ps| - 1]), ps[|ps| - 1])
  }

  function InsertAllNew(ps: seq<Pair>): seq<Pair> {
    if ps == [] then [] else InsertNew(InsertAllNew(ps[..|ps| - 1]), ps[|ps| - 1])
  }

  function Reversed(ps: seq<Pair>): (r: seq<Pair>)
    ensures |r| == |ps|
  {
    if ps == [] then [] else Reversed(ps[1..]) + [ps[0]]
  }

  // ----- What it means to be sorted -----

  predicate Ordered(ps: seq<Pair>) {
    forall i, j :: 0 <= i < j < |ps| ==> Leq(ps[i].key, ps[j].key)
  }

  /** The elements with a key, in the order they stand. */
  function WithKey(ps: seq<Pair>, key: string): seq<Pair> {
    if ps == [] then []
    else (if ps[0].key == key then [ps[0]] else []) + WithKey(ps[1..], key)
  }

  /** A stable sort: ordered by key, with the elements of every key kept in their order. */
  ghost predicate IsStableSort(sorted: seq<Pair>, ps: seq<Pair>) {
    Ordered(sorted) && forall key: string :: WithKey(sorted, key) == WithKey(ps, key)
  }

  lemma {:induction false} WithKeyAppend(a: seq<Pair>, b: seq<Pair>, key: string)
    ensures WithKey(a + b, key) == WithKey(a, key) + WithKey(b, key)
  {
    if a == [] {
      assert a + b == b;
    } else {
      var head := if a[0].key == key then [a[0]] else [];
      assert (a + b)[1..] == a[1..] + b;
      WithKeyAppend(a[1..], b, key);
      assert head + (WithKey(a[1..], key) + WithKey(b, key)) == head + WithKey(a[1..], key) + WithKey(b, key);
    }
  }

  lemma {:induction false} InsertInside(ps: seq<Pair>, p: Pair)
    ensures forall q :: q in Insert(ps, p) <==> q == p || q in ps
  {
    if ps != [] && Leq(ps[0].key, p.key) {
      InsertInside(ps[1..], p);
    }
  }

  lemma OrderedFirst(ps: seq<Pair>)
    requires ps != []
    ensures Ordered(ps) <==> Ordered(ps[1..]) && forall q :: q in ps[1..] ==> Leq(ps[0].key, q.key)
  {
  }

  lemma {:induction false} InsertOrdered(ps: seq<Pair>, p: Pair)
    requires Ordered(ps)
    ensures Ordered(Insert(ps, p))
  {
    if ps != [] {
      OrderedFirst(ps);
      var r := Insert(ps, p);
      OrderedFirst(r);
      if Leq(ps[0].key, p.key) {
        InsertOrdered(ps[1..], p);
        InsertInside(ps[1..], p);
      } else {
        LeqTotal(ps[0].key, p.key);
        forall q | q in ps ensures Leq(p.key, q.key) {
          if q != ps[0] {
            assert q in ps[1..];
            LeqTransitive(p.key, ps[0].key, q.key);
          }
        }
      }
    }
  }

  lemma {:induction false} WithKeyNone(ps: seq<Pair>, key: string)
    requires forall q :: q in ps ==> q.key != key
    ensures WithKey(ps, key) == []
  {
    if ps != [] {
      WithKeyNone(ps[1..], key);
    }
  }

  /** Nothing in an ordered container that begins behind a key has that key. */
  lemma NoneBefore(ps: seq<Pair>, key: string)
    requires ps != [] && Ordered(ps) && !Leq(ps[0].key, key)
    ensures WithKey(ps, key) == []
  {
    OrderedFirst(ps);
    LeqTotal(ps[0].key, ps[0].key);
    forall q | q in ps ensures q.key != key {
      if q != ps[0] {
        assert q in ps[1..];
      }
    }
    WithKeyNone(ps, key);
  }

  lemma {:induction false} InsertLast(ps: seq<Pair>, p: Pair, key: string)
    requires Ordered(ps)
    ensures WithKey(Insert(ps, p), key) == WithKey(ps, key) + (if p.key == key then [p] else [])
  {
    hide Leq, Ordered;
    if ps != [] {
      OrderedFirst(ps);
      var head := if ps[0].key == key then [ps[0]] else [];
      var added := if p.key == key then [p] else [];
      if Leq(ps[0].key, p.key) {
        InsertLast(ps[1..], p, key);
        assert ([ps[0]] + Insert(ps[1..], p))[1..] == Insert(ps[1..], p);
        assert head + (WithKey(ps[1..], key) + added) == head + WithKey(ps[1..], key) + added;
      } else {
        assert ([p] + ps)[1..] == ps;
        if p.key == key {
          NoneBefore(ps, key);
          assert added + [] == [] + added;
        } else {
          assert added + WithKey(ps, key) == WithKey(ps, key) + added;
        }
      }
    }
  }

  lemma {:induction false} InsertAllIsStableSort(ps: seq<Pair>)
    ensures IsStableSort(InsertAll(ps), ps)
  {
    if ps != [] {
      var before, last := ps[..|ps| - 1], ps[|ps| - 1];
      InsertAllIsStableSort(before);
      InsertOrdered(InsertAll(before), last);
      forall key: string ensures WithKey(InsertAll(ps), key) == WithKey(ps, key) {
        InsertLast(InsertAll(before), last, key);
        assert ps == before + [last];
        WithKeyAppend(before, [last], key);
      }
    }
  }

  lemma {:induction false} WithKeyFrom(ps: seq<Pair>, key: string)
    ensures forall q :: q in WithKey(ps, key) ==> q in ps && q.key == key
  {
    if ps != [] {
      WithKeyFrom(ps[1..], key);
    }
  }

  /** The smallest key stands first, so what stands first is the first element with its key. */
  lemma SameFirst(a: seq<Pair>, b: seq<Pair>)
    requires a != [] && b != [] && Ordered(a) && Ordered(b)
    requires forall key: string :: WithKey(a, key) == WithKey(b, key)
    ensures a[0] == b[0]
  {
    OrderedFirst(a);
    OrderedFirst(b);
    var ka, kb := a[0].key, b[0].key;
    WithKeyFrom(a, kb);
    WithKeyFrom(b, ka);
    assert WithKey(a, ka) == WithKey(b, ka) && WithKey(a, kb) == WithKey(b, kb);
    var p, q := WithKey(b, ka)[0], WithKey(a, kb)[0];
    assert p in b && q in a;
    assert Leq(kb, ka) by {
      if p != b[0] { assert p in b[1..]; }
      LeqTotal(kb, kb);
    }
    assert Leq(ka, kb) by {
      if q != a[0] { assert q in a[1..]; }
      LeqTotal(ka, ka);
    }
    LeqTotal(ka, kb);
  }

  lemma WithKeyTail(ps: seq<Pair>, key: string)
    requires ps != []
    ensures ps[0].key == key ==> WithKey(ps, key) == [ps[0]] + WithKey(ps[1..], key)
    ensures ps[0].key == key ==> WithKey(ps[1..], key) == WithKey(ps, key)[1..]
    ensures ps[0].key != key ==> WithKey(ps[1..], key) == WithKey(ps, key)
  {
  }

  lemma SomeInBoth(a: seq<Pair>, b: seq<Pair>)
    requires forall key: string :: WithKey(a, key) == WithKey(b, key)
    ensures a != [] ==> b != []
  {
    if a != [] {
      assert WithKey(b, a[0].key) == WithKey(a, a[0].key);
    }
  }

  /** Order and the elements of each key leave nothing open. */
  lemma {:induction false} SameElementsSameOrder(a: seq<Pair>, b: seq<Pair>)
    requires Ordered(a) && Ordered(b) && forall key: string :: WithKey(a, key) == WithKey(b, key)
    ensures a == b
  {
    SomeInBoth(a, b);
    SomeInBoth(b, a);
    if a != [] && b != [] {
      SameFirst(a, b);
      OrderedFirst(a);
      OrderedFirst(b);
      forall key: string ensures WithKey(a[1..], key) == WithKey(b[1..], key) {
        assert WithKey(a, key) == WithKey(b, key);
        WithKeyTail(a, key);
        WithKeyTail(b, key);
      }
      SameElementsSameOrder(a[1..], b[1..]);
      assert a == [a[0]] + a[1..] && b == [b[0]] + b[1..];
    }
  }

  /** The container that keeps equal keys is the stable sort, and nothing else is one. */
  lemma StableSortIff(sorted: seq<Pair>, ps: seq<Pair>)
    ensures sorted == InsertAll(ps) <==> IsStableSort(sorted, ps)
  {
    InsertAllIsStableSort(ps);
    if IsStableSort(sorted, ps) {
      SameElementsSameOrder(sorted, InsertAll(ps));
    }
  }

  function FirstOf(ps: seq<Pair>): seq<Pair> {
    if ps == [] then [] else [ps[0]]
  }

  /** Sorted without doubles: of every key just the element that came first. */
  ghost predicate IsUniqueSort(sorted: seq<Pair>, ps: seq<Pair>) {
    Ordered(sorted) && forall key: string :: WithKey(sorted, key) == FirstOf(WithKey(ps, key))
  }

  lemma HasKeyIff(ps: seq<Pair>, key: string)
    ensures HasKey(ps, key) <==> WithKey(ps, key) != []
  {
  }

  lemma InsertNewFirst(r: seq<Pair>, before: seq<Pair>, last: Pair, key: string)
    requires Ordered(r) && WithKey(r, key) == FirstOf(WithKey(before, key))
    requires last.key == key ==> (HasKey(r, key) <==> WithKey(before, key) != [])
    ensures WithKey(InsertNew(r, last), key) == FirstOf(WithKey(before + [last], key))
  {
    hide Ordered, HasKey, Insert;
    InsertLast(r, last, key);
    WithKeyAppend(before, [last], key);
  }

  lemma InsertNewKeeps(r: seq<Pair>, before: seq<Pair>, last: Pair)
    requires IsUniqueSort(r, before)
    ensures IsUniqueSort(InsertNew(r, last), before + [last])
  {
    hide Ordered, WithKey, Insert, HasKey;
    assert WithKey(r, last.key) == FirstOf(WithKey(before, last.key));
    HasKeyIff(r, last.key);
    InsertOrdered(r, last);
    forall key: string ensures WithKey(InsertNew(r, last), key) == FirstOf(WithKey(before + [last], key)) {
      assert WithKey(r, key) == FirstOf(WithKey(before, key));
      InsertNewFirst(r, before, last, key);
    }
  }

  lemma {:induction false} InsertAllNewIsUniqueSort(ps: seq<Pair>)
    ensures IsUniqueSort(InsertAllNew(ps), ps)
  {
    if ps != [] {
      hide IsUniqueSort, InsertNew;
      var before, last := ps[..|ps| - 1], ps[|ps| - 1];
      InsertAllNewIsUniqueSort(before);
      InsertNewKeeps(InsertAllNew(before), before, last);
      assert ps == before + [last];
    }
  }

  lemma UniqueSortIff(sorted: seq<Pair>, ps: seq<Pair>)
    ensures sorted == InsertAllNew(ps) <==> IsUniqueSort(sorted, ps)
  {
    InsertAllNewIsUniqueSort(ps);
    if IsUniqueSort(sorted, ps) {
      SameElementsSameOrder(sorted, InsertAllNew(ps));
    }
  }

  lemma {:induction false} InsertPermutes(ps: seq<Pair>, p: Pair)
    ensures multiset(Insert(ps, p)) == multiset(ps) + multiset{p}
  {
    if ps != [] {
      assert ps == [ps[0]] + ps[1..];
      if Leq(ps[0].key, p.key) {
        InsertPermutes(ps[1..], p);
      }
    }
  }

  lemma {:induction false} InsertAllPermutes(ps: seq<Pair>)
    ensures multiset(InsertAll(ps)) == multiset(ps)
  {
    if ps != [] {
      var before, last := ps[..|ps| - 1], ps[|ps| - 1];
      InsertAllPermutes(before);
      InsertPermutes(InsertAll(before), last);
      assert ps == before + [last];
    }
  }

  lemma {:induction false} ReversedAt(ps: seq<Pair>, k: nat)
    requires k < |ps|
    ensures Reversed(ps)[k] == ps[|ps| - 1 - k]
  {
    if k < |ps| - 1 {
      ReversedAt(ps[1..], k);
    }
  }

  lemma ReversedTwice(ps: seq<Pair>)
    ensures Reversed(Reversed(ps)) == ps
  {
    forall k | 0 <= k < |ps| ensures Reversed(Reversed(ps))[k] == ps[k] {
      ReversedAt(Reversed(ps), k);
      ReversedAt(ps, |ps| - 1 - k);
    }
  }

  lemma {:induction false} ReversedPermutes(ps: seq<Pair>)
    ensures multiset(Reversed(ps)) == multiset(ps)
  {
    if ps != [] {
      ReversedPermutes(ps[1..]);
      assert ps == [ps[0]] + ps[1..];
    }
  }

  // ----- Lines and columns -----

  /** Up to `len` characters from `pos` on; a line that is too short has an empty key. */
  function KeyOf(line: string, pos: nat, len: Option<nat>): string {
    if pos >= |line| then ""
    else if len.Some? && pos + len.value < |line| then line[pos..pos + len.value]
    else line[pos..]
  }

  /** A key has the characters of the line from `pos` on, as many as its column or the line allows. */
  predicate IsKey(key: string, line: string, pos: nat, len: Option<nat>) {
    && (key == "" || (pos + |key| <= |line| && key == line[pos..pos + |key|]))
    && (len.Some? ==> |key| <= len.value)
    && (pos + |key| >= |line| || (len.Some? && |key| == len.value))
  }

  lemma KeyIs(line: string, pos: nat, len: Option<nat>, key: string)
    ensures key == KeyOf(line, pos, len) <==> IsKey(key, line, pos, len)
  {
  }

  function PairOf(line: string, pos: nat, len: Option<nat>): Pair {
    Pair(KeyOf(line, pos, len), line)
  }

  function Pairs(tokens: seq<string>, sep: string, pos: nat, len: Option<nat>): seq<Pair> {
    seq(|tokens|, i requires 0 <= i < |tokens| => PairOf(tokens[i] + sep, pos, len))
  }

  function Keys(ps: seq<Pair>): seq<Pair> {
    seq(|ps|, i requires 0 <= i < |ps| => Pair(ps[i].key, ""))
  }

  /** Every token makes a line, in order, with the separator behind it and its key. */
  lemma PairsAre(tokens: seq<string>, sep: string, pos: nat, len: Option<nat>, i: nat)
    requires i < |tokens|
    ensures |Keys(Pairs(tokens, sep, pos, len))| == |Pairs(tokens, sep, pos, len)| == |tokens|
    ensures Pairs(tokens, sep, pos, len)[i].line == tokens[i] + sep
    ensures IsKey(Pairs(tokens, sep, pos, len)[i].key, tokens[i] + sep, pos, len)
    ensures Keys(Pairs(tokens, sep, pos, len))[i].key == Pairs(tokens, sep, pos, len)[i].key
  {
    KeyIs(tokens[i] + sep, pos, len, KeyOf(tokens[i] + sep, pos, len));
  }

  function Concat(ps: seq<Pair>): string {
    if ps == [] then "" else Concat(ps[..|ps| - 1]) + ps[|ps| - 1].line
  }

  /** The line with its column replaced. */
  function WithColumn(line: string, pos: nat, len: nat, key: string): string
    requires pos <= |line|
  {
    line[..pos] + key + (if pos + len < |line| then line[pos + len..] else "")
  }

  /** The lines one after another, each with the key at its place in its column; a line that ends
      before the column throws. */
  function Columns(ps: seq<Pair>, keys: seq<Pair>, pos: nat, len: nat): Option<string>
    requires |ps| <= |keys|
  {
    if ps == [] then Some("")
    else
      var n := |ps| - 1;
      var before := Columns(ps[..n], keys, pos, len);
      if before.None? || pos > |ps[n].line| then None
      else Some(before.value + WithColumn(ps[n].line, pos, len, keys[n].key))
  }

  function Directed(ps: seq<Pair>, descending: bool): (r: seq<Pair>)
    ensures |r| == |ps|
  {
    if descending then Reversed(ps) else ps
  }

  // ----- What sorting a text means -----

  /** Whole lines sorted: read from the back when descending, a stable sort, or one without doubles. */
  ghost predicate IsLineSort(r: seq<Pair>, ps: seq<Pair>, unique: bool, descending: bool) {
    var up := if descending then Reversed(r) else r;
    if unique then IsUniqueSort(up, ps) else IsStableSort(up, ps)
  }

  /** A line with a key in place of its column, up to its end if that comes first. */
  predicate HasColumn(p: Pair, line: string, pos: nat, len: nat) {
    var behind := pos + |p.key|;
    && pos <= |line| && behind <= |p.line|
    && p.line[..pos] == line[..pos] && p.line[pos..behind] == p.key
    && p.line[behind..] == if pos + len < |line| then line[pos + len..] else ""
  }

  /** Columns sorted: every line has its own text around one of the sorted keys. */
  ghost predicate IsColumnSort(r: seq<Pair>, ps: seq<Pair>, pos: nat, len: nat, descending: bool) {
    && |r| == |ps|
    && IsStableSort(if descending then Reversed(Keys(r)) else Keys(r), Keys(ps))
    && forall i :: 0 <= i < |r| ==> HasColumn(r[i], ps[i].line, pos, len)
  }

  predicate EndsBefore(ps: seq<Pair>, pos: nat) {
    exists i :: 0 <= i < |ps| && |ps[i].line| < pos
  }

  lemma DirectedIsSorted(ps: seq<Pair>, unique: bool, descending: bool)
    ensures IsLineSort(Directed(if unique then InsertAllNew(ps) else InsertAll(ps), descending), ps, unique, descending)
  {
    hide IsStableSort, IsUniqueSort, Reversed;
    InsertAllIsStableSort(ps);
    InsertAllNewIsUniqueSort(ps);
    ReversedTwice(InsertAll(ps));
    ReversedTwice(InsertAllNew(ps));
  }

  /** The lines with the keys put in. */
  function PutIn(ps: seq<Pair>, keys: seq<Pair>, pos: nat, len: nat): seq<Pair>
    requires |ps| <= |keys| && !EndsBefore(ps, pos)
  {
    seq(|ps|, i requires 0 <= i < |ps| => Pair(keys[i].key, WithColumn(ps[i].line, pos, len, keys[i].key)))
  }

  lemma {:induction false} ColumnsIs(ps: seq<Pair>, keys: seq<Pair>, pos: nat, len: nat)
    requires |ps| <= |keys|
    ensures Columns(ps, keys, pos, len).None? <==> EndsBefore(ps, pos)
    ensures !EndsBefore(ps, pos) ==> Columns(ps, keys, pos, len).value == Concat(PutIn(ps, keys, pos, len))
    decreases |ps|
  {
    hide WithColumn;
    if ps != [] {
      var n := |ps| - 1;
      ColumnsIs(ps[..n], keys, pos, len);
      if !EndsBefore(ps, pos) {
        assert PutIn(ps, keys, pos, len)[..n] == PutIn(ps[..n], keys, pos, len);
      }
    }
  }

  lemma PutInIsColumnSort(ps: seq<Pair>, keys: seq<Pair>, pos: nat, len: nat, descending: bool)
    requires keys == Directed(InsertAll(Keys(ps)), descending) && |ps| == |keys| && !EndsBefore(ps, pos)
    ensures IsColumnSort(PutIn(ps, keys, pos, len), ps, pos, len, descending)
  {
    var r := PutIn(ps, keys, pos, len);
    KeysOfKeys(Keys(ps), keys, descending);
    assert Keys(r) == keys;
    DirectedIsSorted(Keys(ps), false, descending);
  }

  /** Sorted keys are still keys, without a line. */
  lemma KeysOfKeys(ps: seq<Pair>, keys: seq<Pair>, descending: bool)
    requires keys == Directed(InsertAll(ps), descending) && forall p :: p in ps ==> p.line == ""
    ensures forall i :: 0 <= i < |keys| ==> keys[i].line == ""
  {
    InsertAllPermutes(ps);
    ReversedPermutes(InsertAll(ps));
    forall i | 0 <= i < |keys| ensures keys[i].line == "" {
      assert keys[i] in multiset(keys) && keys[i] in multiset(ps);
    }
  }

  class Sort {
    const descending: bool
    const unique: bool
    const pos: nat
    /** None means up to the end of the line. */
    const len: Option<nat>

    constructor (descending: bool, unique: bool, pos: nat, len: Option<nat>)
      ensures this.descending == descending && this.unique == unique && this.pos == pos && this.len == len
    {
      this.descending, this.unique, this.pos, this.len := descending, unique, pos, len;
    }

    method GetColumn(ps: seq<Pair>) returns (text: string)
      ensures text == Concat(ps)
    {
      text := "";
      assert ps[..0] == [];
      for i := 0 to |ps|
        invariant text == Concat(ps[..i])
      {
        assert ps[..i + 1][..i] == ps[..i];
        text := text + ps[i].line;
      }
      assert ps[..|ps|] == ps;
    }

    method GetLines(ps: seq<Pair>, keys: seq<Pair>, n: nat) returns (text: Option<string>)
      requires |ps| == |keys|
      ensures text == Columns(ps, keys, pos, n)
    {
      var s := "";
      assert ps[..0] == [];
      for i := 0 to |ps|
        invariant Columns(ps[..i], keys, pos, n) == Some(s)
      {
        assert ps[..i + 1][..i] == ps[..i];
        if pos > |ps[i].line| {
          ColumnsIs(ps, keys, pos, n);
          return None;
        }
        s := s + WithColumn(ps[i].line, pos, n, keys[i].key);
      }
      assert ps[..|ps|] == ps;
      return Some(s);
    }

    /** What the text of some lines, with their keys, is sorted to: whole lines by key, or the lines where
        they were with the sorted keys in their columns; None when a line ends before the column. */
    ghost predicate IsSorted(text: Option<string>, ps: seq<Pair>) {
      if len.None? then
        exists r :: IsLineSort(r, ps, unique, descending) && text == Some(Concat(r))
      else
        if EndsBefore(ps, pos) then text == None
        else exists r :: IsColumnSort(r, ps, pos, len.value, descending) && text == Some(Concat(r))
    }

    /** Sorts the lines of a text. */
    method String(input: string, sep: string) returns (text: Option<string>)
      ensures !AllSpace(sep) ==> text == Some(input)
      ensures AllSpace(sep) ==> IsSorted(text, Pairs(Tokens(input, sep), sep, pos, len))
    {
      hide Tokens, Insert, Columns, Concat, KeyOf, IsSorted;
      if exists i :: 0 <= i < |sep| && !IsSpace(sep[i]) {
        return Some(input);
      }
      var m: seq<Pair>, mm: seq<Pair>, ms: seq<Pair>, lines: seq<Pair> := [], [], [], [];
      var tokens := Tokens(input, sep);
      ghost var ps := Pairs(tokens, sep, pos, len);
      assert ps[..0] == [] && Keys(ps)[..0] == [];
      for i := 0 to |tokens|
        invariant len.None? && unique ==> m == InsertAllNew(ps[..i])
        invariant len.None? && !unique ==> mm == InsertAll(ps[..i])
        invariant len.Some? ==> lines == ps[..i] && ms == InsertAll(Keys(ps)[..i])
      {
        var line := tokens[i] + sep;
        var key := KeyOf(line, pos, len);
        assert ps[i] == Pair(key, line);
        assert ps[..i + 1] == ps[..i] + [ps[i]] && ps[..i + 1][..i] == ps[..i];
        assert Keys(ps)[..i + 1] == Keys(ps)[..i] + [Pair(key, "")] && Keys(ps)[..i + 1][..i] == Keys(ps)[..i];
        if len.None? {
          if unique {
            m := InsertNew(m, Pair(key, line));
          } else {
            mm := Insert(mm, Pair(key, line));
          }
        } else {
          lines := lines + [Pair(key, line)];
          ms := Insert(ms, Pair(key, ""));
        }
      }
      assert ps[..|tokens|] == ps && Keys(ps)[..|tokens|] == Keys(ps);
      hide InsertAll, InsertAllNew, InsertNew, Directed, Keys, Pairs;
      if len.None? {
        var s := GetColumn(Directed(if unique then m else mm, descending));
        LinesSorted(ps);
        return Some(s);
      }
      SameLength(ps);
      text := GetLines(lines, Directed(ms, descending), len.value);
      ColumnsSorted(ps);
    }

    lemma LinesSorted(ps: seq<Pair>)
      requires len.None?
      ensures IsSorted(Some(Concat(Directed(if unique then InsertAllNew(ps) else InsertAll(ps), descending))), ps)
    {
      DirectedIsSorted(ps, unique, descending);
    }

    lemma ColumnsSorted(ps: seq<Pair>)
      requires len.Some?
      ensures |InsertAll(Keys(ps))| == |ps|
      ensures IsSorted(Columns(ps, Directed(InsertAll(Keys(ps)), descending), pos, len.value), ps)
    {
      SameLength(ps);
      var keys := Directed(InsertAll(Keys(ps)), descending);
      hide InsertAll, Directed, IsColumnSort, Columns, Concat;
      ColumnsIs(ps, keys, pos, len.value);
      if !EndsBefore(ps, pos) {
        PutInIsColumnSort(ps, keys, pos, len.value, descending);
      }
    }
  }

  lemma SameLength(ps: seq<Pair>)
    ensures |InsertAll(Keys(ps))| == |ps|
  {
    InsertAllPermutes(Keys(ps));
    assert |multiset(InsertAll(Keys(ps)))| == |InsertAll(Keys(ps))|;
  }

  // ----- What the sorted text holds -----

  /** Two equal lines stay two unless doubles are dropped. */
  lemma TwoLines(r: seq<Pair>, p: Pair, ps: seq<Pair>, unique: bool, descending: bool)
    requires ps == [p, p] && IsLineSort(r, ps, unique, descending)
    ensures r == if unique then [p] else [p, p]
  {
    var up := if descending then Reversed(r) else r;
    assert WithKey([p], p.key) == [p];
    assert ps[1..] == [p];
    assert WithKey(ps, p.key) == [p, p];
    ReversedTwice(r);
    TwoOrdered(p);
    var want := if unique then [p] else [p, p];
    forall key: string ensures WithKey(up, key) == WithKey(want, key) {
      assert WithKey([p], key) == if key == p.key then [p] else [];
    }
    SameElementsSameOrder(up, want);
    assert Reversed(want) == want;
  }

  lemma TwoOrdered(p: Pair)
    ensures Ordered([p]) && Ordered([p, p])
  {
    LeqTotal(p.key, p.key);
  }

  lemma ConcatLast(r: seq<Pair>, n: nat)
    requires |r| == n + 1
    ensures Concat(r) == Concat(r[..n]) + r[n].line
  {
  }

  lemma {:induction false} ConcatFirst(r: seq<Pair>)
    requires r != []
    ensures Concat(r) == r[0].line + Concat(r[1..])
    decreases |r|
  {
    hide Concat;
    var n := |r| - 1;
    ConcatLast(r, n);
    if n == 0 {
      NoConcat();
      assert r[..0] == [] && r[1..] == [] && "" + r[0].line == r[0].line + "";
    } else {
      ConcatFirst(r[..n]);
      ConcatLast(r[1..], n - 1);
      assert r[..n][1..] == r[1..][..n - 1];
      Regroup(r[0].line, Concat(r[1..][..n - 1]), r[n].line);
    }
  }

  lemma Regroup(a: string, b: string, c: string)
    ensures a + b + c == a + (b + c)
  {
  }

  /** Lines made of a token and the separator behind it. */
  predicate AreLines(r: seq<Pair>, tokens: seq<string>, sep: string) {
    |r| == |tokens| && forall i :: 0 <= i < |r| ==>
      tokens[i] != "" && NoneIn(tokens[i], sep) && r[i].line == tokens[i] + sep
  }

  /** The text of some lines is cut into just these lines again. */
  lemma {:induction false} TokensOfLines(r: seq<Pair>, tokens: seq<string>, sep: string)
    requires sep != "" && AreLines(r, tokens, sep)
    ensures Tokens(Concat(r), sep) == tokens
  {
    hide Tokens, NoneIn, Concat;
    if r == [] {
      NoTokens(sep);
      NoConcat();
    } else {
      ConcatFirst(r);
      TokensOfLines(r[1..], tokens[1..], sep);
      var rest := Concat(r[1..]);
      assert AllIn(sep, sep);
      SkipGap(sep, rest, sep);
      TokenThenRest(tokens[0], sep + rest, sep);
      assert tokens[0] + (sep + rest) == tokens[0] + sep + rest;
    }
  }

  lemma NoConcat()
    ensures Concat([]) == ""
  {
  }

  lemma {:induction false} InWithKey(ps: seq<Pair>, p: Pair)
    requires p in ps
    ensures p in WithKey(ps, p.key)
  {
    if ps[0] != p {
      InWithKey(ps[1..], p);
    }
  }

  /** A sort makes no line up; a stable one loses none either. */
  lemma SortedFrom(r: seq<Pair>, ps: seq<Pair>, unique: bool, descending: bool)
    requires IsLineSort(r, ps, unique, descending)
    ensures forall p :: p in r ==> p in ps
    ensures !unique ==> multiset(r) == multiset(ps)
  {
    hide Ordered, WithKey;
    var up := if descending then Reversed(r) else r;
    ReversedPermutes(r);
    if !unique {
      StableSortIff(up, ps);
      InsertAllPermutes(ps);
    }
    forall p | p in r ensures p in ps {
      assert p in multiset(r) && p in multiset(up);
      InWithKey(up, p);
      assert WithKey(up, p.key) == if unique then FirstOf(WithKey(ps, p.key)) else WithKey(ps, p.key);
      WithKeyFrom(ps, p.key);
    }
  }

  /** The lines of the sorted text are those of the sort, each with the separator behind it. */
  lemma SortedText(r: seq<Pair>, input: string, sep: string, pos: nat, unique: bool, descending: bool)
    requires sep != "" && IsLineSort(r, Pairs(Tokens(input, sep), sep, pos, None), unique, descending)
    ensures |Tokens(Concat(r), sep)| == |r|
    ensures forall i :: 0 <= i < |r| ==> Tokens(Concat(r), sep)[i] + sep == r[i].line
  {
    hide Tokens, NoneIn, Concat, IsLineSort, KeyOf, Weave;
    var tokens := Tokens(input, sep);
    var ps := Pairs(tokens, sep, pos, None);
    SortedFrom(r, ps, unique, descending);
    var gaps := GapsOf(input, sep);
    forall i | 0 <= i < |r|
      ensures |r[i].line| > |sep| && r[i].line == r[i].line[..|r[i].line| - |sep|] + sep
      ensures NoneIn(r[i].line[..|r[i].line| - |sep|], sep)
    {
      assert r[i] in ps;
      var k :| 0 <= k < |ps| && ps[k] == r[i];
      assert r[i].line == tokens[k] + sep && r[i].line[..|r[i].line| - |sep|] == tokens[k];
    }
    var cut := seq(|r|, i requires 0 <= i < |r| => r[i].line[..|r[i].line| - |sep|]);
    TokensOfLines(r, cut, sep);
  }

  /** Nothing but the column differs: every character outside it is where it was. */
  predicate StaysOutside(line: string, out: string, pos: nat, len: nat) {
    && |out| == |line|
    && forall k :: 0 <= k < |line| && (k < pos || k >= pos + len) ==> out[k] == line[k]
  }

  /** A line stays as it is outside its column exactly when it gets a key as long as its own. */
  lemma ColumnStaysIff(p: Pair, line: string, pos: nat, len: nat)
    requires HasColumn(p, line, pos, len)
    ensures StaysOutside(line, p.line, pos, len) <==> |p.key| == |KeyOf(line, pos, Some(len))|
  {
    var behind := pos + |p.key|;
    assert |p.line| == behind + |p.line[behind..]|;
    assert |p.line| == |line| <==> |p.key| == |KeyOf(line, pos, Some(len))|;
    if |p.line| == |line| {
      forall k | 0 <= k < |line| && (k < pos || k >= pos + len) ensures p.line[k] == line[k] {
        if k < pos {
          assert p.line[..pos][k] == line[..pos][k];
        } else {
          assert p.line[behind..][k - behind] == line[pos + len..][k - pos - len];
        }
      }
    }
  }

  /** When every line reaches beyond the column, the keys change places among the columns and nothing
      else moves. */
  lemma {:induction false} ColumnSortKeepsTheRest(r: seq<Pair>, ps: seq<Pair>, pos: nat, len: nat, descending: bool)
    requires forall i :: 0 <= i < |ps| ==> ps[i] == PairOf(ps[i].line, pos, Some(len)) && pos + len <= |ps[i].line|
    requires IsColumnSort(r, ps, pos, len, descending)
    ensures multiset(Keys(r)) == multiset(Keys(ps))
    ensures forall i :: 0 <= i < |ps| ==> StaysOutside(ps[i].line, r[i].line, pos, len)
  {
    hide InsertAll, IsStableSort, StaysOutside, HasColumn;
    StableSortIff(if descending then Reversed(Keys(r)) else Keys(r), Keys(ps));
    InsertAllPermutes(Keys(ps));
    ReversedPermutes(Keys(r));
    forall i | 0 <= i < |ps| ensures StaysOutside(ps[i].line, r[i].line, pos, len) {
      KeyLength(ps, pos, len, Keys(r), i);
      assert ps[i].key == KeyOf(ps[i].line, pos, Some(len));
      ColumnStaysIff(r[i], ps[i].line, pos, len);
    }
  }

  lemma KeyLength(ps: seq<Pair>, pos: nat, len: nat, keys: seq<Pair>, i: nat)
    requires forall i :: 0 <= i < |ps| ==> ps[i] == PairOf(ps[i].line, pos, Some(len)) && pos + len <= |ps[i].line|
    requires multiset(keys) == multiset(Keys(ps)) && i < |keys| == |ps|
    ensures |keys[i].key| == len == |KeyOf(ps[i].line, pos, Some(len))|
  {
    assert keys[i] in multiset(keys);
    assert keys[i] in Keys(ps);
    var k :| 0 <= k < |ps| && Keys(ps)[k] == keys[i];
    assert ps[k].key == KeyOf(ps[k].line, pos, Some(len));
    assert ps[i].key == KeyOf(ps[i].line, pos, Some(len));
  }
}
