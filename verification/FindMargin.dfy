/** Searching the margins of a document line by line, wrapping around once. */
module FindMargin {
  import opened Options

  /** Whether the margin of a line matches; outside the document there is no margin. */
  predicate Matches(margins: seq<bool>, line: int) {
    0 <= line < |margins| && margins[line]
  }

  /** The number of steps a search from `origin` takes to reach a line; back to itself is a full round. */
  function Steps(lines: nat, origin: int, line: int, forward: bool): int {
    if forward then if line > origin then line - origin else line - origin + lines
    else if line < origin then origin - line else origin - line + lines
  }

  /** The matching line the fewest steps away, of those that are less than `limit` steps away. */
  ghost predicate IsNearest(margins: seq<bool>, origin: int, forward: bool, limit: int, found: Option<int>) {
    match found
    case None =>
      forall k :: Matches(margins, k) ==> Steps(|margins|, origin, k, forward) >= limit
    case Some(line) =>
      && Matches(margins, line) && Steps(|margins|, origin, line, forward) < limit
      && forall k :: Matches(margins, k) ==>
           Steps(|margins|, origin, line, forward) <= Steps(|margins|, origin, k, forward)
  }

  /** At most one answer is nearest: no two lines are the same number of steps away. */
  lemma NearestIsUnique(margins: seq<bool>, origin: nat, forward: bool, limit: int, a: Option<int>, b: Option<int>)
    requires origin < |margins| && IsNearest(margins, origin, forward, limit, a)
    requires IsNearest(margins, origin, forward, limit, b)
    ensures a == b
  {
  }

  /** With a full round to go, a search fails exactly when no line matches. */
  lemma FailsIff(margins: seq<bool>, origin: nat, forward: bool, found: Option<int>)
    requires origin < |margins| && IsNearest(margins, origin, forward, |margins| + 1, found)
    ensures found.None? <==> forall k :: 0 <= k < |margins| ==> !margins[k]
  {
    if found.None? {
      forall k | 0 <= k < |margins| ensures !margins[k] {
        assert Matches(margins, k) ==> Steps(|margins|, origin, k, forward) >= |margins| + 1;
      }
    }
  }

  class Find {
    const forward: bool
    const wrapscan: bool
    const margins: seq<bool>
    /** The lines of the caret and of the start of the selection, if there is one. */
    const current: nat
    const selection: Option<nat>
    var recursive: bool
    var startLine: int
    var endLine: int

    ghost predicate Valid() {
      current < |margins| && (selection.Some? ==> selection.value < |margins|)
    }

    function SelectionLine(): nat {
      if selection.Some? then selection.value else current
    }

    /** The line the search starts behind. */
    function Origin(): nat {
      if forward then current else SelectionLine()
    }

    ghost predicate Positioned()
      reads this
    {
      startLine == (if !recursive then Origin() else if forward then 0 else |margins| - 1) &&
      endLine == (if recursive then Origin() else if forward then |margins| - 1 else 0)
    }

    constructor (margins: seq<bool>, current: nat, selection: Option<nat>, forward: bool, wrapscan: bool)
      requires current < |margins| && (selection.Some? ==> selection.value < |margins|)
      ensures Valid() && Positioned() && !recursive
      ensures this.margins == margins && this.current == current && this.selection == selection
      ensures this.forward == forward && this.wrapscan == wrapscan
    {
      this.margins, this.current, this.selection := margins, current, selection;
      this.forward, this.wrapscan := forward, wrapscan;
      recursive := false;
      startLine, endLine := 0, 0;
      new;
      SetPos();
    }

    method SetPos()
      requires Valid()
      modifies this`startLine, this`endLine
      ensures Positioned()
    {
      if forward {
        if recursive {
          startLine := 0;
          endLine := current;
        } else {
          startLine := current;
          endLine := |margins| - 1;
        }
      } else {
        if recursive {
          startLine := |margins| - 1;
          endLine := current;
          if selection.Some? {
            endLine := selection.value;
          }
        } else {
          startLine := current;
          if selection.Some? {
            startLine := selection.value;
          }
          endLine := 0;
        }
      }
    }

    /** Whether the search from `first` passes a line before it comes to `line`. */
    predicate Passes(first: int, line: int, k: int) {
      if forward then first <= k < line else line < k <= first
    }

    /** The loop: looks at `first`, then goes on to the end line. */
    method Scan(first: int) returns (found: Option<int>)
      requires if forward then first <= |margins| else first >= -1
      requires if forward then endLine < |margins| else endLine >= 0
      ensures found.None? ==> forall k :: Matches(margins, k) ==>
        if forward then k < first || k > endLine else k > first || k < endLine
      ensures found.Some? ==> Matches(margins, found.value)
      ensures found.Some? ==> forall k :: Matches(margins, k) ==> !Passes(first, found.value, k)
      ensures found.Some? ==> if forward then first <= found.value else found.value <= first
      ensures found.Some? ==> found.value == first || if forward then found.value <= endLine else found.value >= endLine
    {
      var line := first;
      found := None;
      if Matches(margins, line) {
        found := Some(line);
      } else {
        line := if forward then line + 1 else line - 1;
      }
      while (if forward then line <= endLine else line >= endLine) && found.None?
        invariant if forward then first <= line else line <= first
        invariant found.Some? ==> found.value == line && Matches(margins, line)
        invariant found.Some? ==> line == first || if forward then line <= endLine else line >= endLine
        invariant forall k :: Matches(margins, k) ==> !Passes(first, line, k)
        decreases if forward then endLine - line else line - endLine, if found.None? then 1 else 0
      {
        if Matches(margins, line) {
          found := Some(line);
        } else {
          line := if forward then line + 1 else line - 1;
        }
      }
    }

    /** The search, and at most one search more from the other end of the document.  The line found is
        the matching one that comes next in the direction of the search, the line of origin last. */
    method FindMargin() returns (found: Option<int>)
      requires Valid() && Positioned() && !recursive
      modifies this
      ensures !recursive
      ensures var from := if !forward && selection.Some? then selection.value else current;
              IsNearest(margins, from, forward,
                        if wrapscan then |margins| + 1 else if forward then |margins| - from else from + 1, found)
      decreases 1
    {
      found := Scan(startLine + if forward then 1 else -1);
      if found.None? && wrapscan {
        recursive := true;
        SetPos();
        found := FindFromEnd();
        recursive := false;
      }
    }

    /** The same search when it runs as the one search more: it takes the start line in as well. */
    method FindFromEnd() returns (found: Option<int>)
      requires Valid() && Positioned() && recursive
      ensures found.None? ==> forall k :: Matches(margins, k) ==> if forward then k > Origin() else k < Origin()
      ensures found.Some? ==> Matches(margins, found.value)
      ensures found.Some? ==> if forward then found.value <= Origin() else found.value >= Origin()
      ensures found.Some? ==> forall k :: Matches(margins, k) ==> if forward then found.value <= k else k <= found.value
      decreases 0
    {
      found := Scan(startLine);
    }
  }
}
