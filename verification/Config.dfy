/** An item of the configuration, and sessions that set the children of one item on a local copy. */
module Config {
  import opened Options
  import opened JsonTree
  import opened ItemPath
  import opened ConfigStore
  import opened RecentList

  /** Assigns a whole node to a member of the root; a throw is caught and changes nothing. */
  function WriteBack(j: Json, item: string, node: Json): Json {
    var next := Descend(j, [item], Some(node));
    if next.Some? then next.value else j
  }

  datatype Write = Write(item: string, leaf: Leaf)

  class Config {
    var item: string
    var local: ConfigImp?
    const store: ConfigImp

    ghost predicate Valid()
      reads this
    {
      local != store
    }

    constructor (store: ConfigImp, item: string)
      ensures Valid() && this.store == store && this.item == item && local == null
    {
      this.store := store;
      this.item := item;
      local := null;
    }

    /** A dotted item always goes to the shared store, any other one to the local store if there is one. */
    function GetStore(): ConfigImp
      reads this
    {
      if '.' in item || local == null then store else local
    }

    method ChildStart() returns (ok: bool)
      requires Valid()
      modifies this`local
      ensures Valid()
      ensures ok <==> old(local) == null && item != ""
      ensures ok ==> local != null && fresh(local) && local.item == item && local.json == ChildOf(store.json, item)
      ensures !ok ==> local == old(local)
    {
      if local != null || item == "" {
        return false;
      }
      local := new ConfigImp(store, item);
      return true;
    }

    method ChildEnd() returns (ok: bool)
      requires Valid()
      modifies this`local, store`json
      ensures Valid() && local == null
      ensures ok <==> old(local) != null
      ensures store.json ==
        if old(local) == null then old(store.json) else WriteBack(old(store.json), old(local).item, old(local.json))
    {
      if local == null {
        return false;
      }
      var next := Descend(store.json, [local.item], Some(local.json));
      if next.Some? {
        store.json := next.value;
      }
      local := null;
      return true;
    }

    method Set(v: Leaf)
      requires Valid()
      modifies GetStore()`json
      ensures GetStore().json == SetIn(old(GetStore().json), Route(item), v)
    {
      var s := GetStore();
      s.Set(item, v);
    }

    /** A typed lookup of the item. */
    method Get(def: Leaf) returns (r: Leaf)
      requires Valid()
      modifies GetStore()`json
      ensures r == Typed(Answer(old(GetStore().json), Route(item)), def)
      ensures GetStore().json == Looked(old(GetStore().json), item)
    {
      var s := GetStore();
      r := s.Value(item, def);
    }

    /** Puts a value in front of the list that the item keeps. */
    method SetFirstOf(v: string, max: nat) returns (r: string)
      requires Valid()
      modifies GetStore()`json
      ensures r == v
      ensures GetStore().json == FirstUsed(old(GetStore().json), item, v, max)
    {
      hide Route;
      var found := Get(List([]));
      var l := [v] + Without(found.items, v);
      if |l| > max {
        l := Without(l, l[|l| - 1]);
      }
      Set(List(l));
      return v;
    }

    /** Starts a child session, performs the writes and ends it. */
    method Session(parent: string, writes: seq<Write>)
      requires Valid() && local == null && parent != ""
      modifies this, store`json
      ensures Valid() && local == null
      ensures store.json == SessionEnd(old(store.json), parent, writes)
    {
      hide Route, SetIn, ChildOf, WriteBack;
      item := parent;
      var started := ChildStart();
      var i := 0;
      assert writes[0..] == writes;
      while i < |writes|
        invariant i <= |writes| && Valid()
        invariant local != null && fresh(local) && local.item == parent
        invariant SessionRun(store.json, local.json, writes[i..]) ==
                  SessionRun(old(store.json), ChildOf(old(store.json), parent), writes)
      {
        assert writes[i..][1..] == writes[i + 1..];
        item := writes[i].item;
        Set(writes[i].leaf);
        i := i + 1;
      }
      var ended := ChildEnd();
    }
  }

  /** The shared and the local store after the writes of a session. */
  function SessionRun(store: Json, local: Json, writes: seq<Write>): (Json, Json)
    decreases |writes|
  {
    if writes == [] then (store, local)
    else
      var path, v := Route(writes[0].item), writes[0].leaf;
      if '.' in writes[0].item then SessionRun(SetIn(store, path, v), local, writes[1..])
      else SessionRun(store, SetIn(local, path, v), writes[1..])
  }

  function SessionEnd(store: Json, parent: string, writes: seq<Write>): Json {
    var r := SessionRun(store, ChildOf(store, parent), writes);
    WriteBack(r.0, parent, r.1)
  }

  // ----- The same writes without a session -----

  /** A child's key is set as `parent.key`; a dotted item is set as it is, but a session loses the
      ones it sets below its own parent. */
  function DirectUses(parent: string, writes: seq<Write>): seq<Use>
    decreases |writes|
  {
    if writes == [] then []
    else
      var item, v := writes[0].item, writes[0].leaf;
      (if '.' !in item then [Put(parent + "." + item, v)]
       else if Route(item)[0] == parent then []
       else [Put(item, v)]) + DirectUses(parent, writes[1..])
  }

  lemma WriteBackIs(s: Json, parent: string, l: Json)
    ensures WriteBack(s, parent, l) == if s.Scalar? then s else Object(Fields(s)[parent := l])
  {
    assert [parent][1..] == [];
    assert Descend(Member(s, parent), [], Some(l)) == Some(l);
  }

  lemma SetInIs(s: Json, q: Path, v: Leaf)
    requires q != []
    ensures SetIn(s, q, v) ==
      if s.Scalar? || Descend(Member(s, q[0]), q[1..], Some(Scalar(v))).None? then s
      else Object(Fields(s)[q[0] := SetIn(Member(s, q[0]), q[1..], v)])
  {
  }

  lemma LocalWrite(s: Json, l: Json, parent: string, key: string, v: Leaf)
    ensures WriteBack(s, parent, SetIn(l, [key], v)) == SetIn(WriteBack(s, parent, l), [parent, key], v)
  {
    hide WriteBack, Descend;
    var w := WriteBack(s, parent, l);
    WriteBackIs(s, parent, l);
    WriteBackIs(s, parent, SetIn(l, [key], v));
    SetInIs(w, [parent, key], v);
    SetInIs(l, [key], v);
    assert [parent, key][1..] == [key];
    if !s.Scalar? {
      assert Member(w, parent) == l;
      assert Fields(w)[parent := SetIn(l, [key], v)] == Fields(s)[parent := SetIn(l, [key], v)];
    }
  }

  lemma OtherWrite(s: Json, l: Json, parent: string, q: Path, v: Leaf)
    requires q != [] && q[0] != parent
    ensures WriteBack(SetIn(s, q, v), parent, l) == SetIn(WriteBack(s, parent, l), q, v)
  {
    hide WriteBack, SetIn, Descend;
    var w := WriteBack(s, parent, l);
    WriteBackIs(s, parent, l);
    WriteBackIs(SetIn(s, q, v), parent, l);
    SetInIs(s, q, v);
    SetInIs(w, q, v);
    if !s.Scalar? {
      assert Member(w, q[0]) == Member(s, q[0]);
      var below := SetIn(Member(s, q[0]), q[1..], v);
      assert Fields(w)[q[0] := below] == Fields(s)[q[0] := below][parent := l];
    }
  }

  lemma LostWrite(s: Json, l: Json, q: Path, v: Leaf)
    requires q != []
    ensures WriteBack(SetIn(s, q, v), q[0], l) == WriteBack(s, q[0], l)
  {
    hide WriteBack, SetIn, Descend;
    WriteBackIs(s, q[0], l);
    WriteBackIs(SetIn(s, q, v), q[0], l);
    SetInIs(s, q, v);
    if !s.Scalar? {
      var below := SetIn(Member(s, q[0]), q[1..], v);
      assert Fields(s)[q[0] := below][q[0] := l] == Fields(s)[q[0] := l];
    }
  }

  /** Writing back the local store at the end comes to the same as having it written back at the start. */
  lemma {:induction false} WriteBackCommutes(s: Json, l: Json, parent: string, writes: seq<Write>)
    requires parent != "" && '.' !in parent
    ensures WriteBack(SessionRun(s, l, writes).0, parent, SessionRun(s, l, writes).1) ==
            Run(WriteBack(s, parent, l), DirectUses(parent, writes))
    decreases |writes|
  {
    hide SetIn, WriteBack, Route, Looked;
    if writes != [] {
      var item, v := writes[0].item, writes[0].leaf;
      var uses := DirectUses(parent, writes[1..]);
      if '.' !in item {
        RouteOfKey(item);
        RouteOfChildIff(parent, item);
        LocalWrite(s, l, parent, item, v);
        WriteBackCommutes(s, SetIn(l, [item], v), parent, writes[1..]);
        assert ([Put(parent + "." + item, v)] + uses)[1..] == uses;
      } else {
        var path := Route(item);
        WriteBackCommutes(SetIn(s, path, v), l, parent, writes[1..]);
        if path[0] == parent {
          LostWrite(s, l, path, v);
          assert [] + uses == uses;
        } else {
          OtherWrite(s, l, parent, path, v);
          assert ([Put(item, v)] + uses)[1..] == uses;
        }
      }
    }
  }

  lemma RouteOfKey(key: string)
    requires '.' !in key
    ensures Route(key) == [key]
  {
  }

  predicate HasKey(writes: seq<Write>) {
    exists i :: 0 <= i < |writes| && '.' !in writes[i].item
  }

  lemma FirstKey(d: Json, l: Json, parent: string, key: string, v: Leaf)
    requires parent !in Fields(d) && (l == Object(map[]) || l == Null)
    ensures SetIn(WriteBack(d, parent, l), [parent, key], v) == SetIn(d, [parent, key], v)
  {
    hide WriteBack, Descend, SetIn;
    LocalWrite(d, l, parent, key, v);
    WriteBackIs(d, parent, SetIn(l, [key], v));
    SetInIs(l, [key], v);
    SetInIs(Null, [key], v);
    NullNeverThrows([key], Some(Scalar(v)));
    NullNeverThrows([key][1..], Some(Scalar(v)));
    SetInIs(d, [parent, key], v);
    assert [parent, key][1..] == [key];
    assert Fields(l) == map[];
  }

  lemma StaysWithout(d: Json, parent: string, q: Path, v: Leaf)
    requires q != [] && q[0] != parent && !d.Scalar? && parent !in Fields(d)
    ensures !SetIn(d, q, v).Scalar? && parent !in Fields(SetIn(d, q, v))
  {
  }

  /** A member that the session creates empty makes no difference once a key is set in it; without
      one it stays, where the direct writes create nothing. */
  lemma {:induction false} EmptyMember(d: Json, l: Json, parent: string, writes: seq<Write>)
    requires parent != "" && '.' !in parent && !d.Scalar? && parent !in Fields(d)
    requires l == Object(map[]) || l == Null
    ensures Run(WriteBack(d, parent, l), DirectUses(parent, writes)) == Run(d, DirectUses(parent, writes)) <==>
      HasKey(writes)
    decreases |writes|
  {
    hide SetIn, WriteBack, Route, Looked;
    if writes == [] {
      WriteBackIs(d, parent, l);
      assert parent in Fields(WriteBack(d, parent, l));
    } else {
      var item, v := writes[0].item, writes[0].leaf;
      var uses := DirectUses(parent, writes[1..]);
      HasKeyFirst(writes);
      if '.' !in item {
        RouteOfChildIff(parent, item);
        FirstKey(d, l, parent, item, v);
        assert ([Put(parent + "." + item, v)] + uses)[1..] == uses;
      } else {
        var path := Route(item);
        if path[0] == parent {
          EmptyMember(d, l, parent, writes[1..]);
          assert [] + uses == uses;
        } else {
          OtherWrite(d, l, parent, path, v);
          StaysWithout(d, parent, path, v);
          EmptyMember(SetIn(d, path, v), l, parent, writes[1..]);
          assert ([Put(item, v)] + uses)[1..] == uses;
        }
      }
    }
  }

  lemma HasKeyFirst(writes: seq<Write>)
    requires writes != []
    ensures HasKey(writes) <==> '.' !in writes[0].item || HasKey(writes[1..])
  {
  }

  /** A session leaves the store as the direct writes do, exactly when it sets a key, or the parent
      was there already, or the root is a scalar, which nothing can be set in. */
  lemma {:induction false} SessionIsDirectIff(store: Json, parent: string, writes: seq<Write>)
    requires parent != "" && '.' !in parent
    ensures SessionEnd(store, parent, writes) == Run(store, DirectUses(parent, writes)) <==>
      HasKey(writes) || parent in Fields(store) || store.Scalar?
  {
    hide Run, DirectUses, SessionRun, WriteBack, HasKey;
    var l := ChildOf(store, parent);
    WriteBackCommutes(store, l, parent, writes);
    WriteBackIs(store, parent, l);
    if store.Scalar? {
    } else if parent in Fields(store) {
      assert Fields(store)[parent := l] == Fields(store);
    } else {
      EmptyMember(store, l, parent, writes);
    }
  }

  // ----- What a session leaves under the dotted names of its keys -----

  /** The value that the writes set a key to last; dotted items are not keys. */
  function LastSet(writes: seq<Write>, key: string): Option<Leaf>
    decreases |writes|
  {
    if writes == [] then None
    else if LastSet(writes[1..], key).Some? then LastSet(writes[1..], key)
    else if writes[0].item == key && '.' !in key then Some(writes[0].leaf)
    else None
  }

  function LastSetOr(writes: seq<Write>, key: string, before: Option<Leaf>): Option<Leaf> {
    if LastSet(writes, key).Some? then LastSet(writes, key) else before
  }

  lemma AnswerAtKey(j: Json, key: string)
    ensures Answer(j, [key]) ==
      if key in Fields(j) && Fields(j)[key].Scalar? then Some(Fields(j)[key].leaf) else None
  {
    assert [key][1..] == [];
    assert key in Fields(j) ==> Find(j, [key]) == Find(Fields(j)[key], []);
  }

  lemma KeyWritten(l: Json, k: string, v: Leaf, key: string)
    requires !l.Scalar?
    ensures !SetIn(l, [k], v).Scalar?
    ensures Answer(SetIn(l, [k], v), [key]) == if key == k then Some(v) else Answer(l, [key])
  {
    hide Descend, SetIn, Answer;
    SetInIs(l, [k], v);
    SetInAtEnd(Member(l, k), v);
    assert [k][1..] == [];
    AnswerAtKey(SetIn(l, [k], v), key);
    AnswerAtKey(l, key);
  }

  lemma SetInAtEnd(l: Json, v: Leaf)
    ensures Descend(l, [], Some(Scalar(v))).Some? && SetIn(l, [], v) == Scalar(v)
  {
  }

  /** The local store takes the keys, unless it is a scalar; the shared one stays what it is, a scalar or not. */
  lemma {:induction false} LocalAnswers(s: Json, l: Json, writes: seq<Write>, key: string)
    ensures SessionRun(s, l, writes).0.Scalar? <==> s.Scalar?
    ensures SessionRun(s, l, writes).1.Scalar? <==> l.Scalar?
    ensures !l.Scalar? && '.' !in key ==>
      Answer(SessionRun(s, l, writes).1, [key]) == LastSetOr(writes, key, Answer(l, [key]))
    decreases |writes|
  {
    hide Answer, SetIn, Route;
    if writes != [] {
      var item, v := writes[0].item, writes[0].leaf;
      var path := Route(item);
      if '.' in item {
        SetInIs(s, path, v);
        LocalAnswers(SetIn(s, path, v), l, writes[1..], key);
      } else {
        RouteOfKey(item);
        SetInIs(l, [item], v);
        LocalAnswers(s, SetIn(l, [item], v), writes[1..], key);
        if !l.Scalar? {
          KeyWritten(l, item, v, key);
        }
      }
    }
  }

  lemma AnswerUnderMember(s: Json, parent: string, l: Json, key: string)
    requires !s.Scalar?
    ensures Answer(WriteBack(s, parent, l), [parent, key]) == Answer(l, [key])
  {
    hide WriteBack;
    WriteBackIs(s, parent, l);
    assert [parent, key][1..] == [key];
  }

  lemma AnswerElsewhere(s: Json, parent: string, l: Json, q: Path)
    requires q != [] && q[0] != parent
    ensures Answer(WriteBack(s, parent, l), q) == Answer(s, q)
  {
    hide WriteBack;
    WriteBackIs(s, parent, l);
  }

  lemma ChildAnswers(s: Json, parent: string, key: string)
    requires parent != "" && !s.Scalar?
    ensures ChildOf(s, parent).Scalar? <==> Member(s, parent).Scalar?
    ensures !Member(s, parent).Scalar? ==> Answer(ChildOf(s, parent), [key]) == Answer(s, [parent, key])
  {
    assert [parent, key][1..] == [key];
  }

  /** The path of `parent.key` does not begin with a parent that has a dot in its name. */
  lemma RouteOfDottedParent(parent: string, key: string)
    requires '.' in parent && '.' !in key
    ensures Route(parent + "." + key)[0] != parent
  {
    CutAtLastDot(parent, key);
    TokensHaveNoDot(parent);
    assert (parent + "." + key)[|parent|] == '.';
  }

  /** What `parent.key` answers after a session with any writes.  Under a plain name it is what the
      session set last, unless a scalar stands at the root or at the parent: then nothing can be set,
      and nothing is found.  Under a name with dots the session changes nothing: only the dotted writes,
      which go to the shared store, do. */
  lemma SessionAnswers(s: Json, parent: string, writes: seq<Write>, key: string)
    requires parent != "" && '.' !in key
    ensures Answer(SessionEnd(s, parent, writes), Route(parent + "." + key)) ==
      if '.' in parent then Answer(SessionRun(s, ChildOf(s, parent), writes).0, Route(parent + "." + key))
      else if s.Scalar? || Member(s, parent).Scalar? then None
      else LastSetOr(writes, key, Answer(s, Route(parent + "." + key)))
  {
    hide Answer, WriteBack, SessionRun, ChildOf, Member, Route;
    var l := ChildOf(s, parent);
    var r := SessionRun(s, l, writes);
    RouteOfChildIff(parent, key);
    LocalAnswers(s, l, writes, key);
    if '.' in parent {
      RouteOfDottedParent(parent, key);
      AnswerElsewhere(r.0, parent, r.1, Route(parent + "." + key));
    } else if s.Scalar? {
      WriteBackIs(r.0, parent, r.1);
      NothingInScalar(r.0, parent, key);
    } else {
      ChildAnswers(s, parent, key);
      AnswerUnderMember(r.0, parent, r.1, key);
      if r.1.Scalar? {
        NothingAtKey(r.1, key);
      }
    }
  }

  lemma NothingInScalar(j: Json, parent: string, key: string)
    requires j.Scalar?
    ensures Answer(j, [parent, key]).None?
  {
  }

  lemma NothingAtKey(j: Json, key: string)
    requires j.Scalar?
    ensures Answer(j, [key]).None?
  {
  }

  /** Writes of keys only leave the shared store alone. */
  lemma {:induction false} KeysStayLocal(s: Json, l: Json, writes: seq<Write>)
    requires forall i :: 0 <= i < |writes| ==> '.' !in writes[i].item
    ensures SessionRun(s, l, writes).0 == s
    decreases |writes|
  {
    hide SetIn, Route;
    if writes != [] {
      KeysStayLocal(s, SetIn(l, Route(writes[0].item), writes[0].leaf), writes[1..]);
    }
  }

  /** The value a session sets a key to last is found under `parent.key` exactly when the parent's name
      has no dot and neither the root nor the parent is a scalar; with a dot, only when it was found
      there before. */
  lemma {:induction false} SessionKeyFoundIff(s: Json, parent: string, writes: seq<Write>, key: string, v: Leaf)
    requires parent != "" && '.' !in key && LastSet(writes, key) == Some(v)
    requires forall i :: 0 <= i < |writes| ==> '.' !in writes[i].item
    ensures Answer(SessionEnd(s, parent, writes), Route(parent + "." + key)) == Some(v) <==>
      if '.' in parent then Answer(s, Route(parent + "." + key)) == Some(v)
      else !s.Scalar? && !Member(s, parent).Scalar?
  {
    hide Answer, SessionEnd, SessionRun, ChildOf, Member, Route, LastSet;
    SessionAnswers(s, parent, writes, key);
    KeysStayLocal(s, ChildOf(s, parent), writes);
  }

  /** Under a parent with a dot in its name, what a session of an empty store sets is not found. */
  lemma DottedParentFails(v: Leaf)
    ensures Answer(SessionEnd(Object(map[]), "a.b", [Write("k", v)]), Route("a.b" + "." + "k")) == None
  {
    hide SessionEnd, SessionRun, Route, ChildOf;
    var s, w := Object(map[]), [Write("k", v)];
    KeysStayLocal(s, ChildOf(s, "a.b"), w);
    SessionAnswers(s, "a.b", w, "k");
    assert "a.b"[1] == '.';
  }

  /** With a number where the parent should be, a session sets nothing. */
  lemma ScalarParentFails(v: Leaf)
    ensures SessionEnd(Object(map["p" := Scalar(Number(5))]), "p", [Write("k", v)])
         == Object(map["p" := Scalar(Number(5))])
    ensures Answer(SessionEnd(Object(map["p" := Scalar(Number(5))]), "p", [Write("k", v)]), Route("p.k")) == None
  {
    hide WriteBack, SetIn, Route;
    var s, l, w := Object(map["p" := Scalar(Number(5))]), Scalar(Number(5)), [Write("k", v)];
    RouteOfKey("k");
    assert w[1..] == [];
    SetInIs(l, ["k"], v);
    assert SessionRun(s, l, w) == SessionRun(s, l, []);
    WriteBackIs(s, "p", l);
    assert "p" + "." + "k" == "p.k";
    SessionAnswers(s, "p", w, "k");
  }

  // ----- Recently used values -----

  function ListAt(j: Json, item: string): seq<string> {
    Typed(Answer(j, Route(item)), List([])).items
  }

  function FirstUsed(j: Json, item: string, v: string, max: nat): Json {
    SetIn(Looked(j, item), Route(item), List(UseFirst(ListAt(j, item), v, max)))
  }

  /** The store after putting values in front of an item's list one after another. */
  function FirstUsedAll(j: Json, item: string, uses: seq<string>, max: nat): Json
    decreases |uses|
  {
    if uses == [] then j else FirstUsed(FirstUsedAll(j, item, uses[..|uses| - 1], max), item, uses[|uses| - 1], max)
  }

  lemma SameThrows(j: Json, j': Json, p: Path, end: Option<Json>, end': Option<Json>)
    requires forall k :: 0 <= k < |p| ==> Answer(j, p[..k]) == Answer(j', p[..k])
    ensures Descend(j, p, end).Some? <==> Descend(j', p, end').Some?
  {
    hide Answer;
    ThrowsIff(j, p, end);
    ThrowsIff(j', p, end');
  }

  lemma LookedAnswers(j: Json, item: string, q: Path)
    ensures Answer(Looked(j, item), q) == Answer(j, q)
  {
    hide Answer, LookIn;
    LookShows(j, ParentOf(item));
    assert q in TableOf(LookIn(j, ParentOf(item))) <==> q in TableOf(j);
  }

  lemma OneUse(j: Json, item: string, v: string, max: nat, path: Path)
    requires path == Route(item)
    ensures Descend(FirstUsed(j, item, v, max), path, None).Some? <==> Descend(j, path, None).Some?
    ensures ListAt(FirstUsed(j, item, v, max), item) ==
      if Descend(j, path, None).Some? then UseFirst(ListAt(j, item), v, max) else ListAt(j, item)
  {
    hide Answer, Route, Looked, Descend;
    var looked := Looked(j, item);
    var leaf := List(UseFirst(ListAt(j, item), v, max));
    forall q: Path ensures Answer(looked, q) == Answer(j, q) {
      LookedAnswers(j, item, q);
    }
    SameThrows(j, looked, path, None, Some(Scalar(leaf)));
    if Descend(looked, path, Some(Scalar(leaf))).Some? {
      AnswerAfterSet(looked, path, leaf, path);
      ThrowsIff(looked, path, Some(Scalar(leaf)));
      forall k | 0 <= k < |path| ensures Answer(FirstUsed(j, item, v, max), path[..k]) == Answer(j, path[..k]) {
        AnswerAfterSet(looked, path, leaf, path[..k]);
      }
    }
    SameThrows(j, FirstUsed(j, item, v, max), path, None, None);
  }

  /** The store keeps the most recently used values, exactly when no scalar stands above the item. */
  lemma {:induction false} KeptInStoreIff(j: Json, item: string, uses: seq<string>, max: nat)
    requires ListAt(j, item) == [] && uses != [] && max > 0
    ensures ListAt(FirstUsedAll(j, item, uses, max), item) == Take(Recency(uses), max) <==>
      Descend(j, Route(item), None).Some?
  {
    hide ListAt, Descend;
    KeptInStore(j, item, uses, max);
    KeptIsMostRecent(uses, max);
  }

  lemma {:induction false} KeptInStore(j: Json, item: string, uses: seq<string>, max: nat)
    requires ListAt(j, item) == []
    ensures Descend(FirstUsedAll(j, item, uses, max), Route(item), None).Some? <==> Descend(j, Route(item), None).Some?
    ensures ListAt(FirstUsedAll(j, item, uses, max), item) ==
      if Descend(j, Route(item), None).Some? then Kept(uses, max) else []
    decreases |uses|
  {
    hide ListAt, Descend, Route, UseFirst, FirstUsed;
    if uses != [] {
      var before := uses[..|uses| - 1];
      KeptInStore(j, item, before, max);
      OneUse(FirstUsedAll(j, item, before, max), item, uses[|uses| - 1], max, Route(item));
    }
  }
}
