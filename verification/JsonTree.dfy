/** The tree a configuration is kept in, and what indexing it along a path does. */
module JsonTree {
  import opened Options

  datatype Leaf = Text(text: string) | Number(number: int) | Flag(flag: bool) | List(items: seq<string>)

  datatype Json = Null | Scalar(leaf: Leaf) | Object(fields: map<string, Json>)

  type Path = seq<string>

  function Fields(j: Json): map<string, Json> {
    if j.Object? then j.fields else map[]
  }

  /** What indexing with a key yields: a missing member comes into being as null. */
  function Member(j: Json, key: string): Json {
    if key in Fields(j) then Fields(j)[key] else Null
  }

  /** Indexes along a path and, when `end` holds a value, assigns it there.  Null turns into an
      object when it is indexed; indexing a scalar throws, which is None. */
  function Descend(j: Json, path: Path, end: Option<Json>): Option<Json>
    decreases |path|
  {
    if path == [] then Some(if end.Some? then end.value else j)
    else if j.Scalar? then None
    else
      var below := Descend(Member(j, path[0]), path[1..], end);
      if below.None? then None else Some(Object(Fields(j)[path[0] := below.value]))
  }

  /** The node at a path, if the tree has one; nothing is created. */
  function Find(j: Json, path: Path): Option<Json>
    decreases |path|
  {
    if path == [] then Some(j)
    else if path[0] in Fields(j) then Find(Fields(j)[path[0]], path[1..])
    else None
  }

  /** The scalar at a path, which is all that a typed lookup can answer. */
  function Answer(j: Json, path: Path): Option<Leaf> {
    if Find(j, path).Some? && Find(j, path).value.Scalar? then Some(Find(j, path).value.leaf) else None
  }

  /** What a descent leaves at the end of its path. */
  function Landed(j: Json, path: Path, end: Option<Json>): Json {
    if end.Some? then end.value else if Find(j, path).Some? then Find(j, path).value else Null
  }

  /** After a descent a node is found below its end, on the way there, or where it always was. */
  lemma {:induction false} FindAfter(j: Json, p: Path, end: Option<Json>, q: Path)
    requires Descend(j, p, end).Some?
    ensures p <= q ==> Find(Descend(j, p, end).value, q) == Find(Landed(j, p, end), q[|p|..])
    ensures q < p ==> Find(Descend(j, p, end).value, q).Some? && Find(Descend(j, p, end).value, q).value.Object?
    ensures !(p <= q) && !(q <= p) ==> Find(Descend(j, p, end).value, q) == Find(j, q)
    decreases |p|
  {
    if p == [] {
      assert q[0..] == q;
    } else if q != [] {
      assert p <= q <==> p[0] == q[0] && p[1..] <= q[1..];
      assert q < p <==> p[0] == q[0] && q[1..] < p[1..];
      assert q <= p <==> p[0] == q[0] && q[1..] <= p[1..];
      if p[0] == q[0] {
        FindAfter(Member(j, p[0]), p[1..], end, q[1..]);
        if p <= q {
          assert q[1..][|p[1..]|..] == q[|p|..];
        }
      }
    }
  }

  /** A descent throws exactly when a scalar stands on the way. */
  lemma {:induction false} ThrowsIff(j: Json, p: Path, end: Option<Json>)
    ensures Descend(j, p, end).None? <==> exists k :: 0 <= k < |p| && Answer(j, p[..k]).Some?
    decreases |p|
  {
    if p == [] {
    } else if j.Scalar? {
      assert Answer(j, p[..0]).Some?;
    } else {
      ThrowsIff(Member(j, p[0]), p[1..], end);
      forall k | 0 <= k < |p|
        ensures Answer(j, p[..k]).Some? <==> k > 0 && Answer(Member(j, p[0]), p[1..][..k - 1]).Some?
      {
        if k > 0 {
          assert p[..k][1..] == p[1..][..k - 1];
        }
      }
      if k: nat :| k < |p| - 1 && Answer(Member(j, p[0]), p[1..][..k]).Some? {
        assert Answer(j, p[..k + 1]).Some?;
      }
    }
  }

  /** Setting a value: its path answers with it, the paths above and below answer nothing, all others
      answer what they did. */
  lemma AnswerAfterSet(j: Json, p: Path, v: Leaf, q: Path)
    requires Descend(j, p, Some(Scalar(v))).Some?
    ensures Answer(Descend(j, p, Some(Scalar(v))).value, q) ==
            if q == p then Some(v) else if q <= p || p <= q then None else Answer(j, q)
  {
    FindAfter(j, p, Some(Scalar(v)), q);
    if p <= q {
      assert q == p + q[|p|..];
    } else if q <= p {
      assert q < p;
    }
  }

  /** A descent that assigns nothing changes no answer at any path. */
  lemma AnswerAfterLookup(j: Json, p: Path, q: Path)
    requires Descend(j, p, None).Some?
    ensures Answer(Descend(j, p, None).value, q) == Answer(j, q)
  {
    FindAfter(j, p, None, q);
    ThrowsIff(j, p, None);
    if p <= q {
      FindBelow(j, p, q[|p|..]);
      assert q == p + q[|p|..];
    } else if q <= p {
      assert q < p && q == p[..|q|];
      assert Answer(j, p[..|q|]).None?;
    }
  }

  lemma {:induction false} FindBelow(j: Json, p: Path, q: Path)
    ensures Find(j, p + q) == if Find(j, p).Some? then Find(Find(j, p).value, q) else None
    decreases |p|
  {
    if p == [] {
      assert p + q == q;
    } else {
      assert (p + q)[1..] == p[1..] + q;
      if p[0] in Fields(j) {
        FindBelow(Fields(j)[p[0]], p[1..], q);
      }
    }
  }

  /** What does change is which nodes exist: those on the way come into being. */
  lemma NodesAfterLookup(j: Json, p: Path, q: Path)
    requires Descend(j, p, None).Some?
    ensures Find(Descend(j, p, None).value, q).Some? <==> Find(j, q).Some? || q <= p
  {
    FindAfter(j, p, None, q);
    if p <= q {
      FindBelow(j, p, q[|p|..]);
      assert q == p + q[|p|..];
      if q == p {
        assert q[|p|..] == [];
      }
    } else if q <= p {
      assert q < p;
    }
  }

  /** Indexing step by step: a longer descent may start over from what a shorter one left. */
  lemma {:induction false} DescendOnward(j: Json, p: Path, q: Path, end: Option<Json>)
    requires Descend(j, p, None).Some? && p <= q
    ensures Descend(Descend(j, p, None).value, q, end) == Descend(j, q, end)
    decreases |p|
  {
    if p != [] {
      var j' := Descend(j, p, None).value;
      assert p[0] == q[0] && p[1..] <= q[1..];
      DescendOnward(Member(j, p[0]), p[1..], q[1..], end);
      var below := Descend(Member(j, p[0]), q[1..], end);
      if below.Some? {
        assert Fields(j')[q[0] := below.value] == Fields(j)[q[0] := below.value];
      }
    }
  }

  /** When a descent throws, the steps before the one that throws have created nothing. */
  lemma {:induction false} ThrowCreatesNothing(j: Json, p: Path, q: Path, end: Option<Json>)
    requires Descend(j, p, None).Some? && p <= q && Descend(j, q, end).None?
    ensures Descend(j, p, None) == Some(j)
    decreases |p|
  {
    if p != [] {
      assert p[0] == q[0] && p[1..] <= q[1..];
      ThrowCreatesNothing(Member(j, p[0]), p[1..], q[1..], end);
      if p[0] !in Fields(j) {
        NullNeverThrows(q[1..], end);
      }
      assert Fields(j)[p[0] := Member(j, p[0])] == Fields(j);
    }
  }

  lemma {:induction false} NullNeverThrows(p: Path, end: Option<Json>)
    ensures Descend(Null, p, end).Some?
    decreases |p|
  {
    if p != [] {
      NullNeverThrows(p[1..], end);
    }
  }

  // ----- The flat view -----

  /** A set that throws is caught and changes nothing. */
  function SetIn(j: Json, p: Path, v: Leaf): Json {
    var next := Descend(j, p, Some(Scalar(v)));
    if next.Some? then next.value else j
  }

  /** A lookup may create nodes on its way; one that throws creates none. */
  function LookIn(j: Json, p: Path): Json {
    var next := Descend(j, p, None);
    if next.Some? then next.value else j
  }

  /** The reference the store refines: a plain table of values by path, without a tree. */
  type Table = imap<Path, Leaf>

  ghost function TableOf(j: Json): Table {
    imap q: Path | Answer(j, q).Some? :: Answer(j, q).value
  }

  /** A value cannot be set below another one; setting one drops all that is below it. */
  ghost function SetFlat(m: Table, p: Path, v: Leaf): Table {
    if exists k :: 0 <= k < |p| && p[..k] in m then m
    else (imap q | q in m && !(p <= q) :: m[q])[p := v]
  }

  lemma SetShows(j: Json, p: Path, v: Leaf)
    ensures TableOf(SetIn(j, p, v)) == SetFlat(TableOf(j), p, v)
  {
    var m := TableOf(j);
    ThrowsIff(j, p, Some(Scalar(v)));
    forall k | 0 <= k < |p| ensures Answer(j, p[..k]).Some? <==> p[..k] in m {}
    if Descend(j, p, Some(Scalar(v))).Some? {
      forall q: Path
        ensures Answer(SetIn(j, p, v), q) == if q in SetFlat(m, p, v) then Some(SetFlat(m, p, v)[q]) else None
      {
        AnswerAfterSet(j, p, v, q);
        if q <= p && q != p {
          assert q == p[..|q|];
        }
      }
    }
  }

  lemma LookShows(j: Json, p: Path)
    ensures TableOf(LookIn(j, p)) == TableOf(j)
  {
    if Descend(j, p, None).Some? {
      forall q: Path ensures Answer(LookIn(j, p), q) == Answer(j, q) {
        AnswerAfterLookup(j, p, q);
      }
    }
  }
}
