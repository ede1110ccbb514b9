/** The list of recently used values that a configuration item keeps. */
module RecentList {
  /** All but the elements equal to `v`. */
  function Without(l: seq<string>, v: string): (r: seq<string>)
    ensures v !in r && |r| <= |l|
    ensures v !in l ==> r == l
    ensures forall w :: w in r <==> w in l && w != v
  {
    if l == [] then []
    else if l[0] == v then Without(l[1..], v)
    else [l[0]] + Without(l[1..], v)
  }

  function Take(l: seq<string>, max: nat): seq<string> {
    if |l| <= max then l else l[..max]
  }

  predicate Distinct(l: seq<string>) {
    forall i, j :: 0 <= i < j < |l| ==> l[i] != l[j]
  }

  /** Moves or adds `v` to the front; a list that has grown beyond `max` loses every element equal
      to its last one. */
  function UseFirst(l: seq<string>, v: string, max: nat): seq<string> {
    var used := [v] + Without(l, v);
    if |used| > max then Without(used, used[|used| - 1]) else used
  }

  lemma {:induction false} WithoutIndex(l: seq<string>, v: string, k: nat)
    requires k <= |l| && v !in l[..k] && forall i :: k <= i < |l| ==> l[i] == v
    ensures Without(l, v) == l[..k]
    decreases |l|
  {
    if l != [] {
      assert forall i :: 0 <= i < |l[1..]| ==> l[1..][i] == l[i + 1];
      if k == 0 {
        WithoutIndex(l[1..], v, 0);
      } else {
        assert l[..k][0] == l[0];
        assert l[1..][..k - 1] == l[..k][1..];
        WithoutIndex(l[1..], v, k - 1);
        assert l[..k] == [l[0]] + l[1..][..k - 1];
      }
    }
  }

  lemma {:induction false} WithoutCut(l: seq<string>, v: string, k: nat)
    requires k <= |l| && Without(l, v) == l[..k]
    ensures forall i :: k <= i < |l| ==> l[i] == v
    decreases |l|
  {
    if l != [] {
      assert v !in l[..k];
      assert k > 0 ==> l[..k][0] == l[0];
      if l[0] == v {
        WithoutCut(l[1..], v, 0);
      } else {
        assert k > 0;
        assert Without(l[1..], v) == l[1..][..k - 1];
        WithoutCut(l[1..], v, k - 1);
      }
      assert forall i :: 0 < i < |l| ==> l[i] == l[1..][i - 1];
    }
  }

  /** Using a value keeps the first `max` of the list with the value in front, exactly when nothing
      has to go, or what has to go is equal to the last element and nothing else is. */
  lemma {:induction false} UseFirstIff(l: seq<string>, v: string, max: nat, used: seq<string>)
    requires used == [v] + Without(l, v)
    ensures UseFirst(l, v, max) == Take(used, max) <==>
      |used| <= max ||
      (used[|used| - 1] !in used[..max] && forall i :: max <= i < |used| ==> used[i] == used[|used| - 1])
  {
    hide Without;
    if |used| > max {
      var back := used[|used| - 1];
      if Without(used, back) == used[..max] {
        WithoutCut(used, back, max);
      }
      if back !in used[..max] && forall i :: max <= i < |used| ==> used[i] == back {
        WithoutIndex(used, back, max);
      }
    }
  }

  lemma {:induction false} WithoutDistinct(l: seq<string>, v: string)
    requires Distinct(l)
    ensures Distinct(Without(l, v))
    ensures |Without(l, v)| >= |l| - 1
    decreases |l|
  {
    if l != [] {
      assert Distinct(l[1..]) by {
        assert forall i :: 0 <= i < |l[1..]| ==> l[1..][i] == l[i + 1];
      }
      WithoutDistinct(l[1..], v);
      var r := Without(l[1..], v);
      if l[0] == v {
        assert v !in l[1..];
      } else {
        assert l[0] !in l[1..];
        assert l[0] !in r;
      }
    }
  }

  lemma {:induction false} WithoutPrefix(l: seq<string>, k: nat, v: string)
    requires k <= |l|
    ensures Without(l[..k], v) <= Without(l, v)
    decreases |l|
  {
    if k > 0 {
      assert l[..k][1..] == l[1..][..k - 1];
      WithoutPrefix(l[1..], k - 1, v);
    }
  }

  // ----- Runs -----

  /** The values used, each once, the most recent use first: what is kept without a maximum. */
  function Recency(uses: seq<string>): seq<string>
    decreases |uses|
  {
    if uses == [] then [] else [uses[|uses| - 1]] + Without(Recency(uses[..|uses| - 1]), uses[|uses| - 1])
  }

  /** The list after a run of uses, all with the same maximum, from an empty list. */
  function Kept(uses: seq<string>, max: nat): seq<string>
    decreases |uses|
  {
    if uses == [] then [] else UseFirst(Kept(uses[..|uses| - 1], max), uses[|uses| - 1], max)
  }

  /** Cutting the list before a use loses nothing that would be kept after it. */
  lemma CutBeforeUse(l: seq<string>, v: string, max: nat)
    requires Distinct(l)
    ensures UseFirst(Take(l, max), v, max) == Take([v] + Without(l, v), max)
  {
    hide Without, UseFirst;
    var cut := Take(l, max);
    var used := [v] + Without(cut, v);
    WithoutDistinct(cut, v);
    assert Distinct(used);
    UseFirstIff(cut, v, max, used);
    if |l| > max {
      WithoutPrefix(l, max, v);
    }
  }

  /** Cutting at every use keeps the first `max` of the full history: the most recent values. */
  lemma {:induction false} KeptIsMostRecent(uses: seq<string>, max: nat)
    ensures Distinct(Recency(uses))
    ensures Kept(uses, max) == Take(Recency(uses), max)
    decreases |uses|
  {
    if uses != [] {
      var before := uses[..|uses| - 1];
      KeptIsMostRecent(before, max);
      WithoutDistinct(Recency(before), uses[|uses| - 1]);
      CutBeforeUse(Recency(before), uses[|uses| - 1], max);
    }
  }

  /** The index of the last use of a value; -1 if it was never used. */
  function LastUse(uses: seq<string>, v: string): (i: int)
    ensures -1 <= i < |uses|
    ensures i >= 0 ==> uses[i] == v
    ensures forall k :: i < k < |uses| ==> uses[k] != v
    decreases |uses|
  {
    if uses == [] then -1 else if uses[|uses| - 1] == v then |uses| - 1 else LastUse(uses[..|uses| - 1], v)
  }

  predicate ByLastUse(l: seq<string>, uses: seq<string>) {
    forall i, j :: 0 <= i < j < |l| ==> LastUse(uses, l[i]) > LastUse(uses, l[j])
  }

  lemma {:induction false} WithoutByLastUse(l: seq<string>, v: string, uses: seq<string>)
    requires ByLastUse(l, uses)
    ensures ByLastUse(Without(l, v), uses)
    decreases |l|
  {
    hide LastUse;
    if l != [] {
      var rest := l[1..];
      forall i, j | 0 <= i < j < |rest| ensures LastUse(uses, rest[i]) > LastUse(uses, rest[j]) {
        assert rest[i] == l[i + 1] && rest[j] == l[j + 1];
      }
      WithoutByLastUse(rest, v, uses);
      var r := Without(rest, v);
      forall j | 0 <= j < |r| ensures LastUse(uses, l[0]) > LastUse(uses, r[j]) {
        assert r[j] in rest;
        var k :| 0 <= k < |rest| && rest[k] == r[j];
        assert l[k + 1] == r[j];
      }
    }
  }

  lemma {:induction false} RecencyHoldsUses(uses: seq<string>)
    ensures forall w :: w in Recency(uses) <==> w in uses
    decreases |uses|
  {
    if uses != [] {
      RecencyHoldsUses(uses[..|uses| - 1]);
      assert uses == uses[..|uses| - 1] + [uses[|uses| - 1]];
    }
  }

  /** The history has the later used values first. */
  lemma {:induction false} RecencyIsByLastUse(uses: seq<string>)
    ensures ByLastUse(Recency(uses), uses)
    decreases |uses|
  {
    if uses != [] {
      var before, v := uses[..|uses| - 1], uses[|uses| - 1];
      RecencyIsByLastUse(before);
      WithoutByLastUse(Recency(before), v, before);
      var r := Without(Recency(before), v);
      forall j | 0 <= j < |r| ensures LastUse(uses, r[j]) == LastUse(before, r[j]) {
        assert r[j] in r;
      }
    }
  }
}
