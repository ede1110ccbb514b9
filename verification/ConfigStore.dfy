/** The configuration store: items set and looked up by dotted names, and child sessions on a local copy. */
module ConfigStore {
  import opened Options
  import opened JsonTree
  import opened ItemPath
  import opened Tokenize

  // ----- One store -----

  predicate SameType(a: Leaf, b: Leaf) {
    a.Text? == b.Text? && a.Number? == b.Number? && a.Flag? == b.Flag?
  }

  /** A typed lookup answers with the default for a missing value and for one of another type. */
  function Typed(found: Option<Leaf>, def: Leaf): Leaf {
    if found.Some? && SameType(found.value, def) then found.value else def
  }

  /** The node a dotted item's key is looked up in. */
  function ParentOf(item: string): Path {
    ParentPath(Before(item, '.', false))
  }

  /** Looking up a dotted item creates the nodes above it; looking up a plain one creates nothing. */
  function Looked(j: Json, item: string): Json {
    if '.' !in item then j else LookIn(j, ParentOf(item))
  }

  /** What a child's store starts from: the item's node, or its parent emptied. */
  function ChildOf(j: Json, item: string): Json {
    if item == "" then j else if item in Fields(j) then Fields(j)[item] else Cleared(j)
  }

  function Cleared(j: Json): Json {
    match j
    case Null => Null
    case Object(_) => Object(map[])
    case Scalar(Text(_)) => Scalar(Text(""))
    case Scalar(Number(_)) => Scalar(Number(0))
    case Scalar(Flag(_)) => Scalar(Flag(false))
    case Scalar(List(_)) => Scalar(List([]))
  }

  /** The child store of a missing item has no item, and is the empty value of the kind its parent is. */
  lemma ChildStartsEmpty(j: Json, item: string, p: Path)
    requires item != "" && item !in Fields(j) && p != []
    ensures Find(ChildOf(j, item), p).None?
    ensures ChildOf(j, item).Object? == j.Object? && ChildOf(j, item).Null? == j.Null?
    ensures Answer(ChildOf(j, item), []) ==
      match Answer(j, [])
      case None => None
      case Some(Text(_)) => Some(Text(""))
      case Some(Number(_)) => Some(Number(0))
      case Some(Flag(_)) => Some(Flag(false))
      case Some(List(_)) => Some(List([]))
  {
  }

  class ConfigImp {
    var json: Json
    const item: string

    constructor (c: ConfigImp?, item: string)
      ensures this.item == item
      ensures json == ChildOf(if c == null then Object(map[]) else c.json, item)
    {
      this.item := item;
      json := if c == null then Object(map[]) else c.json;
      new;
      if item != "" {
        if item in Fields(json) {
          json := Fields(json)[item];
        } else {
          json := Cleared(json);
        }
      }
    }

    /** Indexes the tree along the parts of a parent name, one at a time; None is a throw. */
    method Accessor(parent: string) returns (node: Option<Path>)
      modifies this`json
      ensures node.None? <==> Descend(old(json), ParentPath(parent), None).None?
      ensures node.Some? ==> node.value == ParentPath(parent)
      ensures json == LookIn(old(json), ParentPath(parent))
    {
      var v := Tokens(parent, DOT);
      if |v| > MAX_DEPTH {
        v := [];
      }
      var k := 0;
      assert v[..0] == [];
      while k < |v|
        invariant k <= |v| && v == ParentPath(parent)
        invariant Descend(old(json), v[..k], None) == Some(json)
      {
        DescendOnward(old(json), v[..k], v[..k + 1], None);
        var next := Descend(json, v[..k + 1], None);
        if next.None? {
          ThrowsBelow(old(json), v[..k + 1], v, None);
          ThrowCreatesNothing(old(json), v[..k], v, None);
          return None;
        }
        json := next.value;
        k := k + 1;
      }
      assert v[..k] == v;
      return Some(v);
    }

    /** Sets an item; a set that throws is caught and leaves the store as it was. */
    method Set(item: string, v: Leaf)
      modifies this`json
      ensures json == SetIn(old(json), Route(item), v)
    {
      hide Descend;
      if '.' !in item {
        var next := Descend(json, [item], Some(Scalar(v)));
        if next.Some? {
          json := next.value;
        }
      } else {
        ghost var path := Route(item);
        ghost var above := ParentOf(item);
        assert above <= path;
        var node := Accessor(Before(item, '.', false));
        if node.None? {
          ThrowsBelow(old(json), above, path, Some(Scalar(v)));
          return;
        }
        DescendOnward(old(json), above, path, Some(Scalar(v)));
        var next := Descend(json, node.value + [After(item, '.', false)], Some(Scalar(v)));
        if next.Some? {
          json := next.value;
        } else {
          ThrowCreatesNothing(old(json), above, path, Some(Scalar(v)));
        }
      }
    }

    /** A typed lookup; the answer is the one the store gave before any node was created for it. */
    method Value(item: string, def: Leaf) returns (r: Leaf)
      modifies this`json
      ensures r == Typed(Answer(old(json), Route(item)), def)
      ensures match Answer(old(json), Route(item))
              case None => r == def
              case Some(Text(t)) => r == if def.Text? then Text(t) else def
              case Some(Number(n)) => r == if def.Number? then Number(n) else def
              case Some(Flag(b)) => r == if def.Flag? then Flag(b) else def
              case Some(List(l)) => r == if def.List? then List(l) else def
      ensures json == Looked(old(json), item)
    {
      hide Descend;
      if '.' !in item {
        return Typed(Answer(json, [item]), def);
      }
      ghost var above := ParentOf(item);
      ghost var key := After(item, '.', false);
      var node := Accessor(Before(item, '.', false));
      if node.None? {
        NoAnswerBelow(old(json), above, key);
        return def;
      }
      AnswerAfterLookup(old(json), above, Route(item));
      return Typed(Answer(json, node.value + [After(item, '.', false)]), def);
    }

    /** Whether an item is there; None when indexing throws, as nothing here catches it. */
    method Exists(item: string) returns (r: Option<bool>)
      modifies this`json
      ensures r.None? <==> '.' in item && Descend(old(json), ParentOf(item), None).None?
      ensures r.Some? ==> r.value == Find(old(json), Route(item)).Some?
      ensures json == Looked(old(json), item)
    {
      hide Descend;
      if '.' !in item {
        return Some(Find(json, [item]).Some?);
      }
      var node := Accessor(Before(item, '.', false));
      if node.None? {
        return None;
      }
      NodesAfterLookup(old(json), ParentOf(item), Route(item));
      return Some(Find(json, node.value + [After(item, '.', false)]).Some?);
    }

    /** Performs a run of sets and lookups, and collects what the lookups answer. */
    method Perform(uses: seq<Use>) returns (answers: seq<Leaf>)
      modifies this`json
      ensures json == Run(old(json), uses)
      ensures answers == Answers(old(json), uses)
    {
      hide Looked, Route, Run, Answers, Typed, Answer, SetIn;
      answers := [];
      var i := 0;
      assert uses[0..] == uses;
      while i < |uses|
        invariant i <= |uses|
        invariant Run(json, uses[i..]) == Run(old(json), uses)
        invariant answers + Answers(json, uses[i..]) == Answers(old(json), uses)
      {
        RunFrom(json, uses, i);
        match uses[i] {
          case Put(item, v) => Set(item, v);
          case Get(item, def) =>
            var answer := Value(item, def);
            answers := answers + [answer];
          case Ask(item) =>
            var found := Exists(item);
        }
        i := i + 1;
      }
      RunOver(json, uses[i..]);
    }
  }

  lemma RunFrom(j: Json, uses: seq<Use>, i: nat)
    requires i < |uses|
    ensures Run(j, uses[i..]) == Run(Used(j, uses[i]), uses[i + 1..])
    ensures Answers(j, uses[i..]) ==
      (if uses[i].Get? then [Typed(Answer(j, Route(uses[i].item)), uses[i].def)] else []) +
      Answers(Used(j, uses[i]), uses[i + 1..])
  {
    assert uses[i..][1..] == uses[i + 1..];
  }

  lemma RunOver(j: Json, uses: seq<Use>)
    requires uses == []
    ensures Run(j, uses) == j && Answers(j, uses) == []
  {
  }

  lemma {:induction false} ThrowsBelow(j: Json, p: Path, q: Path, end: Option<Json>)
    requires p <= q && Descend(j, p, None).None?
    ensures Descend(j, q, end).None?
  {
    ThrowsIff(j, p, None);
    ThrowsIff(j, q, end);
    var k :| 0 <= k < |p| && Answer(j, p[..k]).Some?;
    assert q[..k] == p[..k];
  }

  lemma NoAnswerBelow(j: Json, p: Path, key: string)
    requires Descend(j, p, None).None?
    ensures Answer(j, p + [key]).None?
  {
    ThrowsIff(j, p, None);
    var k :| 0 <= k < |p| && Answer(j, p[..k]).Some?;
    FindBelow(j, p[..k], p[k..] + [key]);
    assert p + [key] == p[..k] + (p[k..] + [key]);
  }

  // ----- Any run of uses -----

  datatype Use = Put(item: string, leaf: Leaf) | Get(item: string, def: Leaf) | Ask(item: string)

  function Used(j: Json, use: Use): Json {
    match use
    case Put(item, v) => SetIn(j, Route(item), v)
    case Get(item, _) => Looked(j, item)
    case Ask(item) => Looked(j, item)
  }

  function Run(j: Json, uses: seq<Use>): Json
    decreases |uses|
  {
    if uses == [] then j else Run(Used(j, uses[0]), uses[1..])
  }

  function Answers(j: Json, uses: seq<Use>): seq<Leaf>
    decreases |uses|
  {
    if uses == [] then []
    else (if uses[0].Get? then [Typed(Answer(j, Route(uses[0].item)), uses[0].def)] else []) +
         Answers(Used(j, uses[0]), uses[1..])
  }

  /** The same on the plain table: only a set changes anything. */
  ghost function UsedFlat(m: Table, use: Use): Table {
    match use
    case Put(item, v) => SetFlat(m, Route(item), v)
    case _ => m
  }

  ghost function RunFlat(m: Table, uses: seq<Use>): Table
    decreases |uses|
  {
    if uses == [] then m else RunFlat(UsedFlat(m, uses[0]), uses[1..])
  }

  /** A lookup in the table: the value there, if it is of the kind asked for. */
  ghost function Lookup(m: Table, p: Path, def: Leaf): Leaf {
    if p !in m then def
    else match def
      case Text(_) => if m[p].Text? then m[p] else def
      case Number(_) => if m[p].Number? then m[p] else def
      case Flag(_) => if m[p].Flag? then m[p] else def
      case List(_) => if m[p].List? then m[p] else def
  }

  ghost function AnswersFlat(m: Table, uses: seq<Use>): seq<Leaf>
    decreases |uses|
  {
    if uses == [] then []
    else (if uses[0].Get? then [Lookup(m, Route(uses[0].item), uses[0].def)] else []) +
         AnswersFlat(UsedFlat(m, uses[0]), uses[1..])
  }

  lemma UseShows(j: Json, use: Use)
    ensures TableOf(Used(j, use)) == UsedFlat(TableOf(j), use)
  {
    hide SetIn, SetFlat, LookIn, Find;
    match use {
      case Put(item, v) => SetShows(j, Route(item), v);
      case _ => LookShows(j, ParentOf(use.item));
    }
  }

  lemma LookupShows(j: Json, p: Path, def: Leaf)
    ensures Lookup(TableOf(j), p, def) == Typed(Answer(j, p), def)
  {
    hide Answer;
  }

  /** The store answers every run of uses as the plain table does: the tree, the throws that are
      caught and the nodes that lookups create make no difference to any typed answer. */
  lemma {:induction false} RunRefinesTable(j: Json, uses: seq<Use>)
    ensures TableOf(Run(j, uses)) == RunFlat(TableOf(j), uses)
    ensures Answers(j, uses) == AnswersFlat(TableOf(j), uses)
    decreases |uses|
  {
    hide Used, UsedFlat, TableOf, Typed, Lookup, Answer;
    if uses != [] {
      UseShows(j, uses[0]);
      if uses[0].Get? {
        LookupShows(j, Route(uses[0].item), uses[0].def);
      }
      RunRefinesTable(Used(j, uses[0]), uses[1..]);
    }
  }

  /** What was set is looked up again with a default of its kind; a default of any other kind is answered
      itself. */
  lemma GetAfterPut(j: Json, item: string, v: Leaf, def: Leaf)
    requires Descend(j, Route(item), Some(Scalar(v))).Some?
    ensures Answers(j, [Put(item, v), Get(item, def)]) ==
      match v
      case Text(t) => if def.Text? then [Text(t)] else [def]
      case Number(n) => if def.Number? then [Number(n)] else [def]
      case Flag(b) => if def.Flag? then [Flag(b)] else [def]
      case List(l) => if def.List? then [List(l)] else [def]
  {
    hide Descend, Route, Answer;
    var uses := [Put(item, v), Get(item, def)];
    assert uses[1..] == [Get(item, def)] && uses[1..][1..] == [];
    AnswerAfterSet(j, Route(item), v, Route(item));
    assert Answers(Used(Used(j, uses[0]), uses[1]), []) == [];
    assert Answers(Used(j, uses[0]), uses[1..]) == [Typed(Some(v), def)];
  }

  /** A set that throws leaves what was there: the lookup answers as it would have. */
  lemma GetAfterThrow(j: Json, item: string, v: Leaf, def: Leaf)
    requires Descend(j, Route(item), Some(Scalar(v))).None?
    ensures Answers(j, [Put(item, v), Get(item, def)]) == Answers(j, [Get(item, def)])
  {
    hide Descend, Route, Answer;
    var uses := [Put(item, v), Get(item, def)];
    assert uses[1..] == [Get(item, def)];
  }

  /** A lookup does change which items exist: those on the way to a dotted one, unless that throws. */
  lemma ExistsAfterLookupIff(j: Json, looked: string, asked: string)
    ensures Find(Looked(j, looked), Route(asked)).Some? <==>
      Find(j, Route(asked)).Some? ||
      ('.' in looked && Descend(j, ParentOf(looked), None).Some? && Route(asked) <= ParentOf(looked))
  {
    hide Route, Find, Descend;
    if '.' in looked && Descend(j, ParentOf(looked), None).Some? {
      NodesAfterLookup(j, ParentOf(looked), Route(asked));
    }
  }
}
