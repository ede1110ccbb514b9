/** The names that auto completion knows, one map for every fold level that is open. */
module Scope {
  import opened Options

  /** A tag entry; the empty one stands for a name that was only asked for. */
  datatype Entry = Empty | Tag(text: string)

  type Filters = seq<map<string, Entry>>

  // ----- What happens to a scope -----

  /** The caret moves to a level and the scope is synchronized, or a name is bound at the current level. */
  datatype Event = Moved(level: nat) | Bound(name: string, entry: Entry)

  /** Levels deeper than the current one are dropped, missing ones open with the empty name only. */
  function Synced(filters: Filters, level: nat): (r: Filters)
    ensures |r| == level + 1
  {
    if level < |filters| then filters[..level + 1]
    else filters + seq(level + 1 - |filters|, _ => map["" := Empty])
  }

  /** A name that is already bound at this level keeps its entry. */
  function Inserted(filters: Filters, level: nat, name: string, entry: Entry): Filters
    requires level < |filters|
  {
    if name in filters[level] then filters else filters[level := filters[level][name := entry]]
  }

  function Applied(filters: Filters, e: Event): Filters
    requires filters != []
  {
    match e
    case Moved(level) => Synced(filters, level)
    case Bound(name, entry) => Inserted(filters, |filters| - 1, name, entry)
  }

  /** The innermost level, from `level` outwards, at which the name is bound. */
  function Innermost(filters: Filters, level: int, name: string): (r: Option<nat>)
    requires level < |filters|
    ensures r.Some? ==> r.value <= level && name in filters[r.value]
    ensures r.Some? ==> forall i :: r.value < i <= level ==> name !in filters[i]
    ensures r.None? ==> forall i :: 0 <= i <= level ==> name !in filters[i]
    decreases level + 1
  {
    if level < 0 then None
    else if name in filters[level] then Some(level)
    else Innermost(filters, level - 1, name)
  }

  class Scope {
    var filters: Filters
    /** Where the iterator stands: a level and a name bound there, or the end. */
    var it: Option<(nat, string)>

    constructor ()
      ensures filters == [] && it == None
    {
      filters, it := [], None;
    }

    method CheckLevels(level: nat, down: bool, up: bool)
      modifies this
      ensures down && up ==> filters == Synced(old(filters), level)
      ensures filters == old(filters) || (filters == Synced(old(filters), level) && it == None)
      ensures filters == old(filters) ==> it == old(it)
    {
      var changed := false;
      var size := |filters|;
      if down && size >= 1 && level < size - 1 {
        filters := filters[..level + 1];
        changed := true;
      }
      if !changed && up && level >= size {
        filters := filters + seq(level - size + 1, _ => map["" := Empty]);
        changed := true;
      }
      if changed {
        it := None;
      }
      assert down && up && !changed ==> filters[..level + 1] == filters;
    }

    method Sync(level: nat)
      modifies this
      ensures filters == Synced(old(filters), level)
      ensures filters == old(filters) || it == None
    {
      CheckLevels(level, true, true);
    }

    /** Looks for a name from the current level outwards; the empty name is never found. */
    method Find(level: nat, text: string) returns (found: bool)
      requires level < |filters|
      modifies this`it
      ensures found <==> it.Some?
      ensures it == if text == "" || Innermost(filters, level, text).None? then None
                    else Some((Innermost(filters, level, text).value, text))
    {
      it := None;
      if text != "" {
        var i: int := if level < |filters| - 1 then level else |filters| - 1;
        while i >= 0 && it.None?
          invariant -1 <= i <= level
          invariant it.None? ==> Innermost(filters, i, text) == Innermost(filters, level, text)
          invariant it.Some? ==> it.value.1 == text && Innermost(filters, level, text) == Some(it.value.0)
          decreases i, if it.None? then 1 else 0
        {
          if text in filters[i] {
            it := Some((i, text));
          } else {
            i := i - 1;
          }
        }
      }
      return it.Some?;
    }

    /** Binds a name at the current level, without overwriting, and looks it up. */
    method Insert(level: nat, text: string, entry: Entry)
      requires level < |filters| && text != ""
      modifies this
      ensures filters == Inserted(old(filters), level, text, entry)
      ensures it == Some((level, text))
    {
      if text !in filters[level] {
        filters := filters[level := filters[level][text := entry]];
      }
      var found := Find(level, text);
    }

    /** The entry of a name at the current level; a name that is not bound there is, from now on, to the
        empty entry. */
    method Get(level: nat, text: string) returns (entry: Entry)
      requires filters == [] || level < |filters|
      modifies this
      ensures level < |filters|
      ensures filters ==
        Inserted(if old(filters) == [] then Synced([], level) else old(filters), level, text, Empty)
      ensures text in filters[level] && entry == filters[level][text]
    {
      if filters == [] {
        Sync(level);
      }
      if text !in filters[level] {
        filters := filters[level := filters[level][text := Empty]];
      }
      entry := filters[level][text];
    }
  }

  // ----- The history a scope stands for -----

  /** A scope is synchronized before anything is bound. */
  predicate Starts(history: seq<Event>) {
    history != [] && history[0].Moved?
  }

  /** The filters after a history. */
  function Run(history: seq<Event>): (filters: Filters)
    requires Starts(history)
    ensures filters != []
    decreases |history|
  {
    if |history| == 1 then Synced([], history[0].level)
    else Applied(Run(history[..|history| - 1]), history[|history| - 1])
  }

  function LevelNow(history: seq<Event>): nat
    requires Starts(history)
    decreases |history|
  {
    var last := |history| - 1;
    if history[last].Moved? then history[last].level else LevelNow(history[..last])
  }

  /** Event `i` binds the name at a level, in the block that is still open there: the caret has not been
      below that level since. */
  ghost predicate Live(history: seq<Event>, level: nat, name: string, i: nat)
    requires Starts(history)
  {
    && 0 < i < |history| && history[i].Bound? && history[i].name == name
    && LevelNow(history[..i]) == level
    && forall k :: i < k < |history| && history[k].Moved? ==> history[k].level >= level
  }

  ghost predicate FirstLive(history: seq<Event>, level: nat, name: string, i: nat)
    requires Starts(history)
  {
    Live(history, level, name, i) && forall k: nat :: k < i ==> !Live(history, level, name, k)
  }

  lemma {:induction false} LevelsOpen(history: seq<Event>)
    requires Starts(history)
    ensures |Run(history)| == LevelNow(history) + 1
    decreases |history|
  {
    if |history| > 1 && !history[|history| - 1].Moved? {
      LevelsOpen(history[..|history| - 1]);
    }
  }

  lemma LiveBefore(history: seq<Event>, level: nat, name: string, i: nat, before: seq<Event>, last: Event)
    requires Starts(before) && history == before + [last]
    ensures Live(history, level, name, i) <==>
      if i == |before| then last.Bound? && last.name == name && LevelNow(before) == level
      else Live(before, level, name, i) && (last.Moved? ==> last.level >= level)
  {
    if i < |before| {
      assert history[..i] == before[..i];
      assert forall k :: 0 <= k < |before| ==> history[k] == before[k];
      assert history[|before|] == last;
    } else if i == |before| {
      assert history[..i] == before;
    }
  }

  lemma {:induction false} LiveIsOpen(history: seq<Event>, level: nat, name: string, i: nat)
    requires Starts(history) && Live(history, level, name, i)
    ensures level <= LevelNow(history)
    decreases |history|
  {
    var before, last := history[..|history| - 1], history[|history| - 1];
    assert history == before + [last];
    LiveBefore(history, level, name, i, before, last);
    if i < |before| && !last.Moved? {
      LiveIsOpen(before, level, name, i);
    }
  }

  lemma {:induction false} LeastLive(history: seq<Event>, level: nat, name: string, i: nat) returns (k: nat)
    requires Starts(history) && Live(history, level, name, i)
    ensures FirstLive(history, level, name, k)
  {
    hide Live;
    if j: nat :| j < i && Live(history, level, name, j) {
      k := LeastLive(history, level, name, j);
    } else {
      k := i;
    }
  }

  /** The empty name is bound at every open level, to the empty entry, and stays so. */
  lemma {:induction false} EmptyNameStays(history: seq<Event>, level: nat)
    requires Starts(history) && level <= LevelNow(history)
    ensures |Run(history)| == LevelNow(history) + 1
    ensures "" in Run(history)[level] && Run(history)[level][""] == Empty
    decreases |history|
  {
    LevelsOpen(history);
    if |history| > 1 {
      var before := history[..|history| - 1];
      LevelsOpen(before);
      if level <= LevelNow(before) {
        EmptyNameStays(before, level);
      }
    }
  }

  /** What the filters hold is what the history says: a name is bound at a level exactly when it was
      bound there in the block that is still open, and to what it was bound to first. */
  lemma {:induction false} FiltersHoldLive(history: seq<Event>, level: nat, name: string)
    requires Starts(history) && name != "" && level <= LevelNow(history)
    ensures |Run(history)| == LevelNow(history) + 1
    ensures name in Run(history)[level] <==> exists i: nat :: FirstLive(history, level, name, i)
    ensures forall i: nat :: FirstLive(history, level, name, i) ==> Run(history)[level][name] == history[i].entry
    decreases |history|, 1
  {
    hide FirstLive;
    LevelsOpen(history);
    if |history| > 1 {
      var before, last := history[..|history| - 1], history[|history| - 1];
      assert history == before + [last];
      LevelsOpen(before);
      if last.Moved? {
        HoldAfterMove(history, level, name, before, last);
      } else {
        HoldAfterBind(history, level, name, before, last);
      }
    } else {
      forall i: nat ensures !FirstLive(history, level, name, i) {
        NoneLive(history, level, name, i);
      }
    }
  }

  lemma NoneLive(history: seq<Event>, level: nat, name: string, i: nat)
    requires Starts(history) && |history| == 1
    ensures !FirstLive(history, level, name, i)
  {
  }

  lemma {:induction false} HoldAfterMove(history: seq<Event>, level: nat, name: string, before: seq<Event>, last: Event)
    requires Starts(before) && history == before + [last] && name != "" && level <= LevelNow(history) && last.Moved?
    requires |Run(history)| == LevelNow(history) + 1 && |Run(before)| == LevelNow(before) + 1
    ensures name in Run(history)[level] <==> exists i: nat :: FirstLive(history, level, name, i)
    ensures forall i: nat :: FirstLive(history, level, name, i) ==> Run(history)[level][name] == history[i].entry
    decreases |before| + 1, 0
  {
    hide Live;
    assert history[..|history| - 1] == before && history[|history| - 1] == last;
    forall i: nat ensures Live(history, level, name, i) <==> Live(before, level, name, i) {
      LiveBefore(history, level, name, i, before, last);
      LiveIsInside(before, level, name, i);
    }
    forall i: nat ensures FirstLive(history, level, name, i) <==> FirstLive(before, level, name, i) {}
    if level <= LevelNow(before) {
      FiltersHoldLive(before, level, name);
      assert Run(history)[level] == Run(before)[level];
      assert forall i: nat :: FirstLive(history, level, name, i) ==> i < |before| by {
        forall i: nat ensures FirstLive(history, level, name, i) ==> i < |before| {
          LiveIsInside(before, level, name, i);
        }
      }
    } else {
      forall i: nat ensures !FirstLive(before, level, name, i) {
        if Live(before, level, name, i) {
          LiveIsOpen(before, level, name, i);
        }
      }
    }
  }

  lemma LiveIsInside(history: seq<Event>, level: nat, name: string, i: nat)
    requires Starts(history)
    ensures Live(history, level, name, i) ==> i < |history|
  {
  }

  lemma {:induction false} HoldAfterBind(history: seq<Event>, level: nat, name: string, before: seq<Event>, last: Event)
    requires Starts(before) && history == before + [last] && name != "" && level <= LevelNow(history) && last.Bound?
    requires |Run(history)| == LevelNow(history) + 1 && |Run(before)| == LevelNow(before) + 1
    ensures name in Run(history)[level] <==> exists i: nat :: FirstLive(history, level, name, i)
    ensures forall i: nat :: FirstLive(history, level, name, i) ==> Run(history)[level][name] == history[i].entry
    decreases |before| + 1, 0
  {
    hide Live;
    var n := |before|;
    assert history[..n] == before && history[n] == last;
    forall i: nat
      ensures Live(history, level, name, i) <==>
        if i == n then last.name == name && LevelNow(before) == level else Live(before, level, name, i)
      ensures Live(before, level, name, i) ==> i < n
    {
      LiveBefore(history, level, name, i, before, last);
      LiveIsInside(before, level, name, i);
    }
    forall i: nat | i < n ensures FirstLive(history, level, name, i) <==> FirstLive(before, level, name, i) {}
    FiltersHoldLive(before, level, name);
    if name in Run(before)[level] {
      assert forall i: nat :: FirstLive(history, level, name, i) ==> i < n;
    } else {
      forall i: nat ensures !Live(before, level, name, i) {
        if Live(before, level, name, i) {
          var k := LeastLive(before, level, name, i);
        }
      }
      assert FirstLive(history, level, name, n) <==> last.name == name && LevelNow(before) == level;
    }
  }

  /** A lookup finds the innermost of the bindings whose blocks are still open. */
  lemma FindSeesInnermost(history: seq<Event>, name: string, level: nat)
    requires Starts(history) && name != ""
    ensures |Run(history)| == LevelNow(history) + 1
    ensures Innermost(Run(history), LevelNow(history), name) == Some(level) <==>
      level <= LevelNow(history) && (exists i: nat :: FirstLive(history, level, name, i)) &&
      forall m: nat, i: nat :: level < m <= LevelNow(history) ==> !FirstLive(history, m, name, i)
  {
    hide FirstLive, Run;
    LevelsOpen(history);
    forall m: nat | m <= LevelNow(history)
      ensures name in Run(history)[m] <==> exists i: nat :: FirstLive(history, m, name, i)
    {
      FiltersHoldLive(history, m, name);
    }
    var found := Innermost(Run(history), LevelNow(history), name);
    if found.Some? {
      var i: nat :| FirstLive(history, found.value, name, i);
    }
    if level <= LevelNow(history) && exists i: nat :: FirstLive(history, level, name, i) {
      assert name in Run(history)[level];
    }
    if found == Some(level) {
      forall m: nat, i: nat | level < m <= LevelNow(history) ensures !FirstLive(history, m, name, i) {
        assert name !in Run(history)[m];
      }
    }
  }

  /** Leaving a block drops its names for good: whatever follows, what is bound at its depth afterwards
      was bound there since. */
  lemma LeftNamesStayGone(before: seq<Event>, out: nat, more: seq<Event>, history: seq<Event>, level: nat, name: string)
    requires Starts(before) && history == before + [Moved(out)] + more
    requires name != "" && out < level <= LevelNow(history)
    ensures |Run(history)| == LevelNow(history) + 1
    ensures name in Run(history)[level] <==> exists i: nat :: i > |before| && Live(history, level, name, i)
  {
    hide Run, Live;
    FiltersHoldLive(history, level, name);
    forall i: nat | Live(history, level, name, i) ensures i > |before| {
      LiveSinceLeft(before, out, more, history, level, name, i);
    }
    if i: nat :| Live(history, level, name, i) {
      var k := LeastLive(history, level, name, i);
    }
    if i: nat :| FirstLive(history, level, name, i) {
      assert Live(history, level, name, i);
    }
  }

  lemma LiveSinceLeft(before: seq<Event>, out: nat, more: seq<Event>, history: seq<Event>, level: nat,
          name: string, i: nat)
    requires Starts(before) && history == before + [Moved(out)] + more
    requires out < level && Live(history, level, name, i)
    ensures i > |before|
  {
    assert history[|before|] == Moved(out);
  }
}
