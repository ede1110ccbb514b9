/** A queue with a pool of worker threads, as the steps its threads take one at a time:
    producers, the workers' loop, and the thread that starts or stops the pool. */
module QueueThread {
  import opened Options

  /** Where a worker is in its loop. In Looking, Rechecking, Taking and Releasing it
      holds the queue mutex. */
  datatype Pc =
    | Test        // about to read the running flag
    | WantLock    // about to lock the queue
    | Looking     // about to see whether the queue is empty
    | Waiting     // waiting, with the queue unlocked, for a notification or the timeout
    | Rechecking  // woken up, about to read the flag and the queue again
    | Taking      // about to take the first event
    | Releasing   // about to unlock the queue
    | Handling    // about to look at the event it holds
    | Processing  // inside the event handler
    | Exited

  /** unseen: the event held was not given to the handler yet.
      takes: how many events were taken since the running flag last fell. */
  datatype Worker = Worker(pc: Pc, held: Option<nat>, unseen: bool, takes: nat)

  /** What the thread that owns the thread mutex is doing. */
  datatype Control =
    | Idle
    | Starting(left: nat)
    | Notifying
    | Joining(joined: nat)

  /** An event is known by its identity; a null pointer can be emplaced too. The last five
      fields record history. */
  datatype State = State(
    queue: seq<Option<nat>>,
    running: bool,
    locked: Option<nat>,
    workers: seq<Worker>,
    control: Control,
    emplaced: seq<Option<nat>>,
    taken: seq<Option<nat>>,
    processed: seq<nat>,
    takenAtStop: nat,
    poolAtStop: nat)

  const INITIAL := State([], false, None, [], Idle, [], [], [], 0, 0)

  datatype Step =
    | Emplace(event: Option<nat>)
    | Start(pool: nat)
    | Spawn
    | Stop
    | Notify
    | Join
    | Clear
    | Work(worker: nat)

  predicate Enabled(s: State, step: Step) {
    match step
    case Emplace(event) => s.locked == None && (event == None || event !in s.emplaced)
    case Start(_) => s.control == Idle
    case Spawn => s.control.Starting?
    case Stop => s.control == Idle
    case Notify => s.control == Notifying && s.locked == None
    case Join => s.control.Joining? && s.control.joined < |s.workers| && s.workers[s.control.joined].pc == Exited
    case Clear => s.control.Joining? && s.control.joined >= |s.workers|
    case Work(i) => i < |s.workers| && CanWork(s, i)
  }

  predicate CanWork(s: State, i: nat)
    requires i < |s.workers|
  {
    match s.workers[i].pc
    case WantLock => s.locked == None
    case Waiting => s.locked == None
    case Taking => s.queue != []
    case Exited => false
    case _ => true
  }

  /** empties: whether the handler leaves the pointer to an event empty. */
  function Do(s: State, step: Step, empties: nat -> bool): State
    requires Enabled(s, step)
  {
    match step
    case Emplace(event) => s.(queue := s.queue + [event], emplaced := s.emplaced + [event])
    case Start(pool) =>
      if s.running then s
      else s.(running := true, control := if pool == 0 then Idle else Starting(pool))
    case Spawn =>
      s.(workers := s.workers + [Worker(Test, None, false, 0)],
         control := if s.control.left <= 1 then Idle else Starting(s.control.left - 1))
    case Stop =>
      if !s.running then s
      else s.(running := false, control := Notifying, takenAtStop := |s.taken|, poolAtStop := |s.workers|,
              workers := ResetTakes(s.workers))
    case Notify => s.(control := Joining(0))
    case Join => s.(control := Joining(s.control.joined + 1))
    case Clear => s.(control := Idle, workers := [])
    case Work(i) => DoWork(s, i, empties)
  }

  function ResetTakes(workers: seq<Worker>): (reset: seq<Worker>)
    ensures |reset| == |workers|
    ensures forall i :: 0 <= i < |workers| ==> reset[i] == workers[i].(takes := 0)
  {
    if workers == [] then [] else [workers[0].(takes := 0)] + ResetTakes(workers[1..])
  }

  function DoWork(s: State, i: nat, empties: nat -> bool): State
    requires i < |s.workers| && CanWork(s, i)
  {
    var w := s.workers[i];
    match w.pc
    case Test => Move(s, i, if s.running then WantLock else Exited)
    case WantLock => Move(s, i, Looking).(locked := Some(i))
    case Looking => if s.queue != [] then Move(s, i, Taking) else Move(s, i, Waiting).(locked := None)
    case Waiting => Move(s, i, Rechecking).(locked := Some(i))
    case Rechecking => Move(s, i, if s.running && s.queue != [] then Taking else Releasing)
    case Taking =>
      s.(workers := s.workers[i := Worker(Releasing, s.queue[0], s.queue[0] != None, w.takes + 1)],
         queue := s.queue[1..], taken := s.taken + [s.queue[0]])
    case Releasing => Move(s, i, Handling).(locked := None)
    case Handling =>
      if w.held == None then Move(s, i, Test)
      else s.(workers := s.workers[i := w.(pc := Processing, unseen := false)],
          processed := s.processed + [w.held.value])
    case Processing =>
      var left := if w.held != None && empties(w.held.value) then None else w.held;
      s.(workers := s.workers[i := w.(pc := Test, held := left)])
  }

  function Move(s: State, i: nat, pc: Pc): State
    requires i < |s.workers|
  {
    s.(workers := s.workers[i := s.workers[i].(pc := pc)])
  }

  // ----- Runs --------------------------------------------------------------------

  predicate CanRun(s: State, steps: seq<Step>, empties: nat -> bool)
    decreases |steps|
  {
    steps == [] || (Enabled(s, steps[0]) && CanRun(Do(s, steps[0], empties), steps[1..], empties))
  }

  function Run(s: State, steps: seq<Step>, empties: nat -> bool): State
    requires CanRun(s, steps, empties)
    decreases |steps|
  {
    if steps == [] then s else Run(Do(s, steps[0], empties), steps[1..], empties)
  }

  /** How often an event was given to the handler. */
  function Count(processed: seq<nat>, event: nat): nat {
    if processed == [] then 0
    else (if processed[|processed| - 1] == event then 1 else 0) + Count(processed[..|processed| - 1], event)
  }

  // ----- What every step keeps ---------------------------------------------------

  predicate HoldsLock(pc: Pc) {
    pc == Looking || pc == Rechecking || pc == Taking || pc == Releasing
  }

  /** First in, first out: nothing is lost, invented or reordered. */
  ghost predicate Fifo(s: State) {
    s.emplaced == s.taken + s.queue
  }

  ghost predicate NoRepeats(events: seq<Option<nat>>) {
    forall i, j :: 0 <= i < j < |events| ==> events[i] == None || events[i] != events[j]
  }

  ghost predicate Locking(s: State) {
    && (s.locked != None ==> s.locked.value < |s.workers|)
    && (forall i :: 0 <= i < |s.workers| ==> (HoldsLock(s.workers[i].pc) <==> s.locked == Some(i)))
    && (forall i :: 0 <= i < |s.workers| && s.workers[i].pc == Taking ==> s.queue != [])
  }

  /** No event is held by two workers. */
  ghost predicate Ownership(s: State) {
    && (forall i :: 0 <= i < |s.workers| && s.workers[i].held != None ==> s.workers[i].held in s.taken)
    && (forall i, j :: 0 <= i < j < |s.workers| && s.workers[i].held != None ==> s.workers[i].held != s.workers[j].held)
  }

  ghost predicate HasUnseen(s: State, i: nat, event: nat) {
    i < |s.workers| && s.workers[i].unseen && s.workers[i].held == Some(event)
  }

  /** An event that was taken reached the handler, unless its worker is still on the way
      there: it takes no other event and does not exit before. */
  ghost predicate Handed(s: State) {
    && (forall i :: 0 <= i < |s.workers| && s.workers[i].unseen ==>
          s.workers[i].held != None && (s.workers[i].pc == Releasing || s.workers[i].pc == Handling)
          && s.workers[i].held.value !in s.processed)
    && (forall i :: 0 <= i < |s.workers| && s.workers[i].pc == Processing ==> s.workers[i].held != None)
    && (forall e :: e in s.processed ==> Some(e) in s.taken)
    && (forall e: nat :: Some(e) in s.taken ==> e in s.processed || exists i :: HasUnseen(s, i, e))
  }

  ghost predicate Controlling(s: State) {
    && (s.control == Idle && !s.running ==> s.workers == [])
    && (s.control.Starting? ==> s.running)
    && (s.control == Notifying || s.control.Joining? ==> !s.running)
    && (s.control.Joining? ==> s.control.joined <= |s.workers|)
    && (s.control.Joining? ==> forall i :: 0 <= i < s.control.joined ==> s.workers[i].pc == Exited)
  }

  /** How many events a worker can still take once the flag has fallen. */
  function MayTake(pc: Pc): nat {
    if pc == WantLock || pc == Looking || pc == Taking then 1 else 0
  }

  function CanTake(w: Worker): nat {
    w.takes + MayTake(w.pc)
  }

  function Takes(workers: seq<Worker>): nat {
    if workers == [] then 0 else workers[|workers| - 1].takes + Takes(workers[..|workers| - 1])
  }

  /** After the flag fell a worker takes at most one more event, so the pool at most as
      many events as it has workers. */
  ghost predicate Stopping(s: State) {
    && (!s.running ==> forall i :: 0 <= i < |s.workers| ==> CanTake(s.workers[i]) <= 1)
    && (!s.running && s.workers != [] ==> |s.workers| == s.poolAtStop && |s.taken| == s.takenAtStop + Takes(s.workers))
    && (!s.running ==> s.takenAtStop <= |s.taken| <= s.takenAtStop + s.poolAtStop)
  }

  ghost predicate Invariant(s: State) {
    && Fifo(s) && NoRepeats(s.emplaced) && Locking(s) && Ownership(s) && Handed(s) && Controlling(s) && Stopping(s)
  }

  lemma QueueKept(s: State, step: Step, empties: nat -> bool)
    requires Enabled(s, step) && Fifo(s) && NoRepeats(s.emplaced)
    ensures Fifo(Do(s, step, empties)) && NoRepeats(Do(s, step, empties).emplaced)
  {
    if step.Work? {
      hide NoRepeats, Enabled;
      QueueOfWork(s, step.worker, empties);
    } else if step.Emplace? {
      assert s.taken + (s.queue + [step.event]) == s.taken + s.queue + [step.event];
    } else {
      hide NoRepeats;
    }
  }

  lemma QueueOfWork(s: State, i: nat, empties: nat -> bool)
    requires i < |s.workers| && CanWork(s, i)
    ensures DoWork(s, i, empties).taken + DoWork(s, i, empties).queue == s.taken + s.queue
    ensures DoWork(s, i, empties).emplaced == s.emplaced
  {
    if s.workers[i].pc == Taking {
      assert s.queue == [s.queue[0]] + s.queue[1..];
    }
  }

  lemma LockingKept(s: State, step: Step, empties: nat -> bool)
    requires Enabled(s, step) && Locking(s) && Controlling(s)
    ensures Locking(Do(s, step, empties))
  {
    if step.Work? {
      LockingOfWork(s, step.worker, empties);
    } else if step.Clear? {
      assert forall i :: 0 <= i < |s.workers| ==> !HoldsLock(s.workers[i].pc);
    }
  }

  lemma LockingOfWork(s: State, i: nat, empties: nat -> bool)
    requires i < |s.workers| && CanWork(s, i) && Locking(s)
    ensures Locking(DoWork(s, i, empties))
  {
    var s' := DoWork(s, i, empties);
    assert s'.workers == s.workers[i := s'.workers[i]];
    if s.workers[i].pc == Taking {
      assert forall j :: 0 <= j < |s.workers| && j != i ==> s.workers[j].pc != Taking;
    }
    LockHandover(s, s', i);
  }

  lemma LockHandover(s: State, s': State, i: nat)
    requires Locking(s) && i < |s.workers| == |s'.workers|
    requires forall j :: 0 <= j < |s.workers| && j != i ==> s'.workers[j] == s.workers[j]
    requires HoldsLock(s'.workers[i].pc) <==> s'.locked == Some(i)
    requires s'.locked != s.locked ==>
      (s.locked == None && s'.locked == Some(i)) || (s.locked == Some(i) && s'.locked == None)
    requires forall j :: 0 <= j < |s.workers| && s'.workers[j].pc == Taking ==> s'.queue != []
    ensures Locking(s')
  {
  }

  lemma HeadIsNew(s: State)
    requires Fifo(s) && NoRepeats(s.emplaced) && s.queue != [] && s.queue[0] != None
    ensures s.queue[0] !in s.taken
  {
    var head := s.emplaced[|s.taken|];
    forall i | 0 <= i < |s.taken|
      ensures s.taken[i] != head
    {
      assert s.emplaced[i] == s.taken[i];
    }
  }

  lemma OwnershipKept(s: State, step: Step, empties: nat -> bool)
    requires Enabled(s, step) && Fifo(s) && NoRepeats(s.emplaced) && Ownership(s)
    ensures Ownership(Do(s, step, empties))
  {
    if step.Work? {
      var i := step.worker;
      var s' := DoWork(s, i, empties);
      if s.workers[i].pc == Taking {
        if s.queue[0] != None {
          HeadIsNew(s);
        }
        OwnershipHandover(s, s', i, s.queue[0]);
      } else {
        OwnershipHandover(s, s', i, None);
      }
    } else if step.Stop? {
      OwnershipSame(s, Do(s, step, empties));
    }
  }

  lemma OwnershipSame(s: State, s': State)
    requires Ownership(s) && |s'.workers| == |s.workers| && s'.taken == s.taken
    requires forall i :: 0 <= i < |s.workers| ==> s'.workers[i].held == s.workers[i].held
    ensures Ownership(s')
  {
  }

  /** A worker that keeps or drops its event, or takes one nobody took before. */
  lemma OwnershipHandover(s: State, s': State, i: nat, got: Option<nat>)
    requires Ownership(s) && i < |s.workers| == |s'.workers| && (got == None || got !in s.taken)
    requires forall j :: 0 <= j < |s.workers| && j != i ==> s'.workers[j] == s.workers[j]
    requires s'.workers[i].held in {None, got, s.workers[i].held}
    requires s'.taken == s.taken || s'.taken == s.taken + [got]
    requires s'.workers[i].held == got ==> got == None || got in s'.taken
    ensures Ownership(s')
  {
  }

  lemma HandedKept(s: State, step: Step, empties: nat -> bool)
    requires Enabled(s, step) && Fifo(s) && NoRepeats(s.emplaced) && Ownership(s) && Handed(s) && Controlling(s)
    ensures Handed(Do(s, step, empties))
  {
    var s' := Do(s, step, empties);
    match step
    case Work(i) => HandedOfWork(s, i, empties);
    case Clear =>
      AllHanded(s);
    case _ => HandedSame(s, s');
  }

  /** Once every worker has left its loop, every event taken has reached the handler. */
  lemma AllHanded(s: State)
    requires Handed(s) && forall i :: 0 <= i < |s.workers| ==> s.workers[i].pc == Exited
    ensures forall e: nat :: Some(e) in s.taken ==> e in s.processed
  {
  }

  lemma HandedSame(s: State, s': State)
    requires Handed(s) && s'.taken == s.taken && s'.processed == s.processed && |s.workers| <= |s'.workers|
    requires forall i :: 0 <= i < |s.workers| ==> s'.workers[i] == s.workers[i].(takes := s'.workers[i].takes)
    requires forall i :: |s.workers| <= i < |s'.workers| ==> s'.workers[i].pc == Test && !s'.workers[i].unseen
    ensures Handed(s')
  {
    forall e: nat | Some(e) in s'.taken && e !in s'.processed
      ensures exists i :: HasUnseen(s', i, e)
    {
      var i :| HasUnseen(s, i, e);
      assert HasUnseen(s', i, e);
    }
  }

  lemma HandedOfWork(s: State, i: nat, empties: nat -> bool)
    requires i < |s.workers| && CanWork(s, i) && Fifo(s) && NoRepeats(s.emplaced) && Ownership(s) && Handed(s)
    ensures Handed(DoWork(s, i, empties))
  {
    var s' := DoWork(s, i, empties);
    if s.workers[i].pc == Taking {
      HandedOfTaking(s, i, empties);
    } else if s.workers[i].pc == Handling && s.workers[i].held != None {
      HandedOfHandling(s, i, empties);
    } else {
      UnseenKept(s, s', i);
    }
  }

  lemma UnseenKept(s: State, s': State, i: nat)
    requires Handed(s) && i < |s.workers| == |s'.workers| && s'.taken == s.taken && s'.processed == s.processed
    requires forall j :: 0 <= j < |s.workers| && j != i ==> s'.workers[j] == s.workers[j]
    requires s'.workers[i].unseen == s.workers[i].unseen
    requires (s.workers[i].unseen ==> s'.workers[i].held == s.workers[i].held)
    requires s.workers[i].unseen ==> s'.workers[i].pc == Handling
    requires s'.workers[i].pc == Processing ==> s'.workers[i].held != None
    ensures Handed(s')
  {
    forall e: nat | Some(e) in s'.taken && e !in s'.processed
      ensures exists j :: HasUnseen(s', j, e)
    {
      var j :| HasUnseen(s, j, e);
      assert HasUnseen(s', j, e);
    }
  }

  lemma HandedOfHandling(s: State, i: nat, empties: nat -> bool)
    requires i < |s.workers| && CanWork(s, i) && Ownership(s) && Handed(s)
    requires s.workers[i].pc == Handling && s.workers[i].held != None
    ensures Handed(DoWork(s, i, empties))
  {
    var s' := DoWork(s, i, empties);
    forall e: nat | Some(e) in s'.taken && e !in s'.processed
      ensures exists j :: HasUnseen(s', j, e)
    {
      var j :| HasUnseen(s, j, e);
      assert HasUnseen(s', j, e);
    }
  }

  lemma HandedOfTaking(s: State, i: nat, empties: nat -> bool)
    requires i < |s.workers| && CanWork(s, i) && Fifo(s) && NoRepeats(s.emplaced) && Handed(s)
    requires s.workers[i].pc == Taking
    ensures Handed(DoWork(s, i, empties))
  {
    var s' := DoWork(s, i, empties);
    if s.queue[0] != None {
      HeadIsNew(s);
    }
    forall e: nat | Some(e) in s'.taken && e !in s'.processed
      ensures exists j :: HasUnseen(s', j, e)
    {
      if Some(e) in s.taken {
        var j :| HasUnseen(s, j, e);
        assert HasUnseen(s', j, e);
      } else {
        assert HasUnseen(s', i, e);
      }
    }
  }

  lemma ControllingKept(s: State, step: Step, empties: nat -> bool)
    requires Enabled(s, step) && Controlling(s)
    ensures Controlling(Do(s, step, empties))
  {
  }

  lemma {:induction false} TakesOfReset(workers: seq<Worker>)
    requires forall i :: 0 <= i < |workers| ==> workers[i].takes == 0
    ensures Takes(workers) == 0
  {
    if workers != [] {
      TakesOfReset(workers[..|workers| - 1]);
    }
  }

  lemma {:induction false} TakesOfUpdate(workers: seq<Worker>, i: nat, w: Worker)
    requires i < |workers|
    ensures Takes(workers[i := w]) == Takes(workers) - workers[i].takes + w.takes
  {
    var last := |workers| - 1;
    if i < last {
      assert workers[i := w][..last] == workers[..last][i := w];
      TakesOfUpdate(workers[..last], i, w);
    } else {
      assert workers[i := w][..last] == workers[..last];
    }
  }

  lemma {:induction false} TakesAtMostOne(workers: seq<Worker>)
    requires forall i :: 0 <= i < |workers| ==> workers[i].takes <= 1
    ensures Takes(workers) <= |workers|
  {
    if workers != [] {
      TakesAtMostOne(workers[..|workers| - 1]);
    }
  }

  lemma StoppingKept(s: State, step: Step, empties: nat -> bool)
    requires Enabled(s, step) && Controlling(s) && Stopping(s)
    ensures Stopping(Do(s, step, empties))
  {
    if step.Stop? && s.running {
      TakesOfReset(Do(s, step, empties).workers);
    }
    if step.Work? {
      StoppingOfWork(s, step.worker, empties);
    }
  }

  /** A step of a worker changes that worker alone; when it takes an event it could take one. */
  lemma OneWorker(s: State, i: nat, empties: nat -> bool)
    requires i < |s.workers| && CanWork(s, i)
    ensures |DoWork(s, i, empties).workers| == |s.workers|
    ensures DoWork(s, i, empties).workers == s.workers[i := DoWork(s, i, empties).workers[i]]
    ensures DoWork(s, i, empties).running == s.running && DoWork(s, i, empties).control == s.control
    ensures DoWork(s, i, empties).poolAtStop == s.poolAtStop && DoWork(s, i, empties).takenAtStop == s.takenAtStop
    ensures |DoWork(s, i, empties).taken| - |s.taken| == DoWork(s, i, empties).workers[i].takes - s.workers[i].takes
    ensures !s.running ==> CanTake(DoWork(s, i, empties).workers[i]) <= CanTake(s.workers[i])
  {
  }

  lemma StoppingOfWork(s: State, i: nat, empties: nat -> bool)
    requires i < |s.workers| && CanWork(s, i) && Stopping(s)
    ensures Stopping(DoWork(s, i, empties))
  {
    var s' := DoWork(s, i, empties);
    var w, w' := s.workers[i], s'.workers[i];
    OneWorker(s, i, empties);
    hide DoWork, CanWork, Takes;
    TakesOfUpdate(s.workers, i, w');
    if !s.running {
      assert CanTake(w') <= CanTake(w) <= 1;
      TakesAtMostOne(s'.workers);
    }
  }

  lemma InvariantKept(s: State, step: Step, empties: nat -> bool)
    requires Enabled(s, step) && Invariant(s)
    ensures Invariant(Do(s, step, empties))
  {
    QueueKept(s, step, empties);
    LockingKept(s, step, empties);
    OwnershipKept(s, step, empties);
    HandedKept(s, step, empties);
    ControllingKept(s, step, empties);
    StoppingKept(s, step, empties);
  }

  /** Under every interleaving: first in first out, no event with two workers, every event
      taken handed over before its worker goes on, and a bounded shutdown. */
  lemma {:induction false} RunKeepsInvariant(s: State, steps: seq<Step>, empties: nat -> bool)
    requires CanRun(s, steps, empties) && Invariant(s)
    ensures Invariant(Run(s, steps, empties))
    decreases |steps|
  {
    if steps != [] {
      InvariantKept(s, steps[0], empties);
      RunKeepsInvariant(Do(s, steps[0], empties), steps[1..], empties);
    }
  }

  // ----- Once, or more often -----------------------------------------------------

  /** An event whose handler empties the pointer is given to it at most once. */
  ghost predicate Once(s: State, empties: nat -> bool) {
    forall e: nat :: empties(e) ==> OnceFor(s, e)
  }

  ghost predicate OnceFor(s: State, e: nat) {
    && Count(s.processed, e) <= 1
    && (forall i :: 0 <= i < |s.workers| && s.workers[i].held == Some(e) ==>
        s.workers[i].unseen || s.workers[i].pc == Processing)
  }

  lemma {:induction false} CountOfOther(processed: seq<nat>, e: nat)
    requires e !in processed
    ensures Count(processed, e) == 0
  {
    if processed != [] {
      CountOfOther(processed[..|processed| - 1], e);
    }
  }

  lemma CountOfMore(processed: seq<nat>, more: nat, e: nat)
    ensures Count(processed + [more], e) == Count(processed, e) + if more == e then 1 else 0
  {
  }

  lemma OnceForKept(s: State, step: Step, empties: nat -> bool, e: nat)
    requires Enabled(s, step) && Handed(s) && OnceFor(s, e) && empties(e)
    requires Fifo(s) && NoRepeats(s.emplaced)
    ensures OnceFor(Do(s, step, empties), e)
  {
    if step.Work? {
      OnceOfWork(s, step.worker, empties, e);
    }
  }

  lemma OnceOfWork(s: State, i: nat, empties: nat -> bool, e: nat)
    requires i < |s.workers| && CanWork(s, i) && Handed(s) && OnceFor(s, e) && empties(e)
    ensures OnceFor(DoWork(s, i, empties), e)
  {
    if s.workers[i].pc == Handling && s.workers[i].held != None {
      var handled := s.workers[i].held.value;
      if handled == e {
        assert s.workers[i].unseen;
        CountOfOther(s.processed, e);
      }
      CountOfMore(s.processed, handled, e);
    }
  }

  /** Every event taken whose handler empties the pointer was handed over exactly once, or not at all yet
      while its worker is on the way to the handler with it. */
  ghost predicate HandedOnce(s: State, empties: nat -> bool) {
    forall e: nat :: empties(e) && Some(e) in s.taken ==>
      Count(s.processed, e) == if exists i :: HasUnseen(s, i, e) then 0 else 1
  }

  lemma {:induction false} CountOfSome(processed: seq<nat>, e: nat)
    requires e in processed
    ensures Count(processed, e) >= 1
  {
    if processed[|processed| - 1] != e {
      CountOfSome(processed[..|processed| - 1], e);
    }
  }

  lemma OnceIsExact(s: State, empties: nat -> bool)
    requires Handed(s) && Once(s, empties)
    ensures HandedOnce(s, empties)
  {
    forall e: nat | empties(e) && Some(e) in s.taken
      ensures Count(s.processed, e) == if exists i :: HasUnseen(s, i, e) then 0 else 1
    {
      assert OnceFor(s, e);
      if i :| HasUnseen(s, i, e) {
        CountOfOther(s.processed, e);
      } else {
        CountOfSome(s.processed, e);
      }
    }
  }

  lemma {:induction false} RunKeepsOnce(s: State, steps: seq<Step>, empties: nat -> bool)
    requires CanRun(s, steps, empties) && Invariant(s) && Once(s, empties)
    ensures Once(Run(s, steps, empties), empties) && HandedOnce(Run(s, steps, empties), empties)
    decreases |steps|
  {
    if steps == [] {
      OnceIsExact(s, empties);
    } else {
      var s' := Do(s, steps[0], empties);
      InvariantKept(s, steps[0], empties);
      forall e: nat | empties(e)
        ensures OnceFor(s', e)
      {
        OnceForKept(s, steps[0], empties, e);
      }
      RunKeepsOnce(s', steps[1..], empties);
    }
  }

  lemma {:induction false} RunSnoc(s: State, steps: seq<Step>, step: Step, empties: nat -> bool)
    requires CanRun(s, steps, empties) && Enabled(Run(s, steps, empties), step)
    ensures CanRun(s, steps + [step], empties)
    ensures Run(s, steps + [step], empties) == Do(Run(s, steps, empties), step, empties)
    decreases |steps|
  {
    if steps == [] {
      assert CanRun(Do(s, step, empties), [], empties);
    } else {
      assert (steps + [step])[1..] == steps[1..] + [step];
      RunSnoc(Do(s, steps[0], empties), steps[1..], step, empties);
    }
  }

  /** A run made one step longer. */
  lemma OneMore(steps: seq<Step>, step: Step, s: State, s': State, empties: nat -> bool) returns (steps': seq<Step>)
    requires CanRun(INITIAL, steps, empties) && Run(INITIAL, steps, empties) == s
    requires Enabled(s, step) && Do(s, step, empties) == s'
    ensures CanRun(INITIAL, steps', empties) && Run(INITIAL, steps', empties) == s'
  {
    hide CanRun, Run, Do, Enabled;
    RunSnoc(INITIAL, steps, step, empties);
    steps' := steps + [step];
  }

  /** One worker, started on an empty queue, after event e was emplaced. */
  function Alone(e: nat, w: Worker, queued: bool, locked: bool, processed: seq<nat>): State {
    State(if queued then [Some(e)] else [], true, if locked then Some(0) else None, [w], Idle,
          [Some(e)], if queued then [] else [Some(e)], processed, 0, 0)
  }

  lemma UpToEvent(e: nat, empties: nat -> bool) returns (steps: seq<Step>)
    ensures CanRun(INITIAL, steps, empties)
    ensures Run(INITIAL, steps, empties) == Alone(e, Worker(Test, None, false, 0), true, false, [])
  {
    var s := INITIAL.(running := true, control := Starting(1));
    steps := OneMore([], Start(1), INITIAL, s, empties);
    var s' := s.(control := Idle, workers := [Worker(Test, None, false, 0)]);
    steps := OneMore(steps, Spawn, s, s', empties);
    steps := OneMore(steps, Emplace(Some(e)), s', Alone(e, Worker(Test, None, false, 0), true, false, []), empties);
  }

  lemma UpToHandler(e: nat, empties: nat -> bool) returns (steps: seq<Step>)
    ensures CanRun(INITIAL, steps, empties)
    ensures Run(INITIAL, steps, empties) == Alone(e, Worker(Handling, Some(e), true, 1), false, false, [])
  {
    steps := UpToEvent(e, empties);
    hide CanRun, Run;
    var a := Alone(e, Worker(Test, None, false, 0), true, false, []);
    var b := Alone(e, Worker(WantLock, None, false, 0), true, false, []);
    var c := Alone(e, Worker(Looking, None, false, 0), true, true, []);
    var d := Alone(e, Worker(Taking, None, false, 0), true, true, []);
    var f := Alone(e, Worker(Releasing, Some(e), true, 1), false, true, []);
    steps := OneMore(steps, Work(0), a, b, empties);
    steps := OneMore(steps, Work(0), b, c, empties);
    steps := OneMore(steps, Work(0), c, d, empties);
    steps := OneMore(steps, Work(0), d, f, empties);
    steps := OneMore(steps, Work(0), f, Alone(e, Worker(Handling, Some(e), true, 1), false, false, []), empties);
  }

  lemma UpToIdle(e: nat, empties: nat -> bool) returns (steps: seq<Step>)
    requires !empties(e)
    ensures CanRun(INITIAL, steps, empties)
    ensures Run(INITIAL, steps, empties) == Alone(e, Worker(Waiting, Some(e), false, 1), false, false, [e])
  {
    steps := UpToHandler(e, empties);
    hide CanRun, Run;
    var a := Alone(e, Worker(Handling, Some(e), true, 1), false, false, []);
    var b := Alone(e, Worker(Processing, Some(e), false, 1), false, false, [e]);
    var c := Alone(e, Worker(Test, Some(e), false, 1), false, false, [e]);
    var d := Alone(e, Worker(WantLock, Some(e), false, 1), false, false, [e]);
    var f := Alone(e, Worker(Looking, Some(e), false, 1), false, true, [e]);
    steps := OneMore(steps, Work(0), a, b, empties);
    steps := OneMore(steps, Work(0), b, c, empties);
    steps := OneMore(steps, Work(0), c, d, empties);
    steps := OneMore(steps, Work(0), d, f, empties);
    steps := OneMore(steps, Work(0), f, Alone(e, Worker(Waiting, Some(e), false, 1), false, false, [e]), empties);
  }

  /** An event that the handler leaves in the pointer is handed over again by a wake-up
      that finds the queue empty. */
  lemma HandedOverTwice(e: nat, empties: nat -> bool) returns (steps: seq<Step>)
    requires !empties(e)
    ensures CanRun(INITIAL, steps, empties) && Run(INITIAL, steps, empties).processed == [e, e]
  {
    steps := UpToIdle(e, empties);
    hide CanRun, Run;
    var a := Alone(e, Worker(Waiting, Some(e), false, 1), false, false, [e]);
    var b := Alone(e, Worker(Rechecking, Some(e), false, 1), false, true, [e]);
    var c := Alone(e, Worker(Releasing, Some(e), false, 1), false, true, [e]);
    var d := Alone(e, Worker(Handling, Some(e), false, 1), false, false, [e]);
    steps := OneMore(steps, Work(0), a, b, empties);
    steps := OneMore(steps, Work(0), b, c, empties);
    steps := OneMore(steps, Work(0), c, d, empties);
    steps := OneMore(steps, Work(0), d, Alone(e, Worker(Processing, Some(e), false, 1), false, false, [e, e]), empties);
  }

  ghost predicate NeverTwice(steps: seq<Step>, empties: nat -> bool) {
    CanRun(INITIAL, steps, empties) ==> forall e: nat :: Count(Run(INITIAL, steps, empties).processed, e) <= 1
  }

  lemma InitialOnce(empties: nat -> bool)
    ensures Invariant(INITIAL) && Once(INITIAL, empties)
  {
    assert forall e: nat :: OnceFor(INITIAL, e);
  }

  lemma NeverTwiceWhenEmptied(steps: seq<Step>, empties: nat -> bool)
    requires forall e: nat :: empties(e)
    ensures NeverTwice(steps, empties)
  {
    if CanRun(INITIAL, steps, empties) {
      InitialOnce(empties);
      hide CanRun, Run, Invariant, HandedOnce, Count;
      RunKeepsOnce(INITIAL, steps, empties);
      forall e: nat
        ensures Count(Run(INITIAL, steps, empties).processed, e) <= 1
      {
        assert OnceFor(Run(INITIAL, steps, empties), e);
      }
    }
  }

  lemma TwiceWhenNotEmptied(e: nat, empties: nat -> bool) returns (steps: seq<Step>)
    requires !empties(e)
    ensures !NeverTwice(steps, empties)
  {
    hide CanRun, Run;
    steps := HandedOverTwice(e, empties);
    CountOfMore([], e, e);
    CountOfMore([e], e, e);
    assert [] + [e] == [e] && [e] + [e] == [e, e];
  }

  /** No run hands an event to the handler twice exactly when the handler always takes the
      event out of the pointer. */
  lemma NeverTwiceIffEmptied(empties: nat -> bool)
    ensures (forall steps :: NeverTwice(steps, empties)) <==> (forall e: nat :: empties(e))
  {
    hide NeverTwice;
    if forall e: nat :: empties(e) {
      forall steps
        ensures NeverTwice(steps, empties)
      {
        NeverTwiceWhenEmptied(steps, empties);
      }
    } else {
      var e: nat :| !empties(e);
      var steps := TwiceWhenNotEmptied(e, empties);
    }
  }

  // ----- Starting ----------------------------------------------------------------

  /** The pool that the last start asked for which found the flag down; any other start comes to nothing. */
  function Asked(s: State, steps: seq<Step>, empties: nat -> bool, pool: nat): nat
    requires CanRun(s, steps, empties)
    decreases |steps|
  {
    if steps == [] then pool
    else Asked(Do(s, steps[0], empties), steps[1..], empties,
               if steps[0].Start? && !s.running then steps[0].pool else pool)
  }

  /** The workers there are, and those still to be spawned, are as many as were asked for. */
  predicate IsFilling(s: State, pool: nat) {
    && (s.control.Starting? ==> s.control.left > 0 && |s.workers| + s.control.left == pool)
    && (s.control == Idle && s.running ==> |s.workers| == pool)
  }

  lemma FillingKept(s: State, step: Step, empties: nat -> bool, pool: nat)
    requires Enabled(s, step) && Controlling(s) && IsFilling(s, pool)
    ensures IsFilling(Do(s, step, empties), if step.Start? && !s.running then step.pool else pool)
  {
  }

  lemma {:induction false} RunKeepsFilling(s: State, steps: seq<Step>, empties: nat -> bool, pool: nat)
    requires CanRun(s, steps, empties) && Invariant(s) && IsFilling(s, pool)
    ensures IsFilling(Run(s, steps, empties), Asked(s, steps, empties, pool))
    decreases |steps|
  {
    hide Enabled, Do, IsFilling;
    if steps != [] {
      InvariantKept(s, steps[0], empties);
      FillingKept(s, steps[0], empties, pool);
      RunKeepsFilling(Do(s, steps[0], empties), steps[1..], empties,
                      if steps[0].Start? && !s.running then steps[0].pool else pool);
    }
  }

  /** After any interleaving, a start that has come back has left exactly the workers it was asked for: none
      is missing, and a start of a pool that runs, or a stop of one that does not, changes nothing. */
  lemma StartFillsPool(steps: seq<Step>, empties: nat -> bool, pool: nat)
    requires CanRun(INITIAL, steps, empties) && Run(INITIAL, steps, empties).control == Idle
    ensures Run(INITIAL, steps, empties).running ==>
      |Run(INITIAL, steps, empties).workers| == Asked(INITIAL, steps, empties, 0)
    ensures Run(INITIAL, steps, empties).running ==>
      Do(Run(INITIAL, steps, empties), Start(pool), empties) == Run(INITIAL, steps, empties)
    ensures !Run(INITIAL, steps, empties).running ==>
      Do(Run(INITIAL, steps, empties), Stop, empties) == Run(INITIAL, steps, empties)
  {
    hide CanRun, Run, Invariant, Do, Asked;
    InitialOnce(empties);
    RunKeepsFilling(INITIAL, steps, empties, 0);
    AgainIsNothing(Run(INITIAL, steps, empties), pool, empties);
  }

  lemma AgainIsNothing(s: State, pool: nat, empties: nat -> bool)
    requires s.control == Idle
    ensures s.running ==> Do(s, Start(pool), empties) == s
    ensures !s.running ==> Do(s, Stop, empties) == s
  {
  }

  // ----- Stopping ----------------------------------------------------------------

  predicate InStop(s: State) {
    s.control == Notifying || s.control.Joining?
  }

  /** Steps a worker has left once the flag has fallen. */
  function StepsLeft(pc: Pc): nat {
    match pc
    case WantLock => 9
    case Looking => 8
    case Waiting => 7
    case Rechecking => 6
    case Taking => 5
    case Releasing => 4
    case Handling => 3
    case Processing => 2
    case Test => 1
    case Exited => 0
  }

  function AllStepsLeft(workers: seq<Worker>): nat {
    if workers == [] then 0 else StepsLeft(workers[|workers| - 1].pc) + AllStepsLeft(workers[..|workers| - 1])
  }

  function Rank(s: State): nat {
    AllStepsLeft(s.workers) +
    match s.control
    case Notifying => |s.workers| + 2
    case Joining(n) => if n <= |s.workers| then |s.workers| - n + 1 else 1
    case _ => 0
  }

  lemma {:induction false} StepsLeftOfUpdate(workers: seq<Worker>, i: nat, w: Worker)
    requires i < |workers|
    ensures AllStepsLeft(workers[i := w]) == AllStepsLeft(workers) - StepsLeft(workers[i].pc) + StepsLeft(w.pc)
  {
    var last := |workers| - 1;
    if i < last {
      assert workers[i := w][..last] == workers[..last][i := w];
      StepsLeftOfUpdate(workers[..last], i, w);
    } else {
      assert workers[i := w][..last] == workers[..last];
    }
  }

  /** While a stop is under way every step of a worker or of the stopping thread brings its
      end nearer; producers do not move it away; and no start gets in between. */
  lemma StopAdvances(s: State, step: Step, empties: nat -> bool)
    requires Enabled(s, step) && Invariant(s) && InStop(s)
    ensures step.Emplace? ==> Rank(Do(s, step, empties)) == Rank(s) && InStop(Do(s, step, empties))
    ensures !step.Emplace? ==> Rank(Do(s, step, empties)) < Rank(s)
    ensures !step.Start? && !step.Spawn? && !step.Stop?
    ensures step.Clear? || InStop(Do(s, step, empties))
  {
    assert Controlling(s);
    hide Invariant, Fifo, NoRepeats, Locking, Ownership, Handed, Stopping;
    if step.Work? {
      WorkAdvances(s, step.worker, empties);
    } else if step.Clear? {
      assert AllStepsLeft([]) == 0;
    }
  }

  lemma WorkAdvances(s: State, i: nat, empties: nat -> bool)
    requires i < |s.workers| && CanWork(s, i) && !s.running
    ensures |DoWork(s, i, empties).workers| == |s.workers| && DoWork(s, i, empties).control == s.control
    ensures AllStepsLeft(DoWork(s, i, empties).workers) < AllStepsLeft(s.workers)
  {
    var s' := DoWork(s, i, empties);
    assert s'.workers == s.workers[i := s'.workers[i]];
    StepsLeftOfUpdate(s.workers, i, s'.workers[i]);
  }

  /** Nor is a stop ever stuck: the owner of the queue lock, the stopping thread or a
      worker it waits for can always go on. */
  lemma StopNeverStuck(s: State) returns (step: Step)
    requires Invariant(s) && InStop(s)
    ensures Enabled(s, step) && !step.Emplace?
  {
    if s.locked != None {
      step := Work(s.locked.value);
    } else if s.control == Notifying {
      step := Notify;
    } else if s.control.joined >= |s.workers| {
      step := Clear;
    } else if s.workers[s.control.joined].pc == Exited {
      step := Join;
    } else {
      step := Work(s.control.joined);
    }
  }

  function Internal(steps: seq<Step>): nat {
    if steps == [] then 0 else (if steps[0].Emplace? then 0 else 1) + Internal(steps[1..])
  }

  predicate StaysInStop(s: State, steps: seq<Step>, empties: nat -> bool)
    requires CanRun(s, steps, empties)
    decreases |steps|
  {
    InStop(s) && (steps == [] || StaysInStop(Do(s, steps[0], empties), steps[1..], empties))
  }

  /** So a stop is over after at most Rank steps that are not a producer's. */
  lemma {:induction false} StopEnds(s: State, steps: seq<Step>, empties: nat -> bool)
    requires CanRun(s, steps, empties) && Invariant(s) && StaysInStop(s, steps, empties)
    ensures Internal(steps) <= Rank(s)
    decreases |steps|
  {
    if steps != [] {
      StopAdvances(s, steps[0], empties);
      InvariantKept(s, steps[0], empties);
      StopEnds(Do(s, steps[0], empties), steps[1..], empties);
    }
  }

  // ----- Working -----------------------------------------------------------------

  /** While the flag is up no worker leaves its loop. */
  ghost predicate Alive(s: State) {
    s.running ==> forall i :: 0 <= i < |s.workers| ==> s.workers[i].pc != Exited
  }

  lemma AliveKept(s: State, step: Step, empties: nat -> bool)
    requires Enabled(s, step) && Controlling(s) && Alive(s)
    ensures Alive(Do(s, step, empties))
  {
  }

  lemma {:induction false} RunKeepsAlive(s: State, steps: seq<Step>, empties: nat -> bool)
    requires CanRun(s, steps, empties) && Invariant(s) && Alive(s)
    ensures Alive(Run(s, steps, empties))
    decreases |steps|
  {
    hide Alive, Enabled, Do;
    if steps != [] {
      InvariantKept(s, steps[0], empties);
      AliveKept(s, steps[0], empties);
      RunKeepsAlive(Do(s, steps[0], empties), steps[1..], empties);
    }
  }

  /** The pool is never stuck while the flag is up: the owner of the queue lock, or any worker when there
      is none, can go on. */
  lemma WorkNeverStuck(s: State) returns (i: nat)
    requires Invariant(s) && Alive(s) && s.running && s.workers != []
    ensures Enabled(s, Work(i))
  {
    if s.locked != None {
      i := s.locked.value;
    } else {
      i := 0;
    }
  }

  /** Steps a worker has left until it takes an event, as long as there is one. */
  function StepsToTake(pc: Pc): nat {
    match pc
    case Releasing => 8
    case Handling => 7
    case Processing => 6
    case Test => 5
    case WantLock => 4
    case Looking => 3
    case Waiting => 3
    case Rechecking => 2
    case Taking => 1
    case Exited => 0
  }

  function AllStepsToTake(workers: seq<Worker>): nat {
    if workers == [] then 0
    else StepsToTake(workers[|workers| - 1].pc) + AllStepsToTake(workers[..|workers| - 1])
  }

  function Backlog(s: State): nat {
    8 * |s.queue| + AllStepsToTake(s.workers)
  }

  lemma {:induction false} StepsToTakeOfUpdate(workers: seq<Worker>, i: nat, w: Worker)
    requires i < |workers|
    ensures AllStepsToTake(workers[i := w])
         == AllStepsToTake(workers) - StepsToTake(workers[i].pc) + StepsToTake(w.pc)
  {
    var last := |workers| - 1;
    if i < last {
      assert workers[i := w][..last] == workers[..last][i := w];
      StepsToTakeOfUpdate(workers[..last], i, w);
    } else {
      assert workers[i := w][..last] == workers[..last];
    }
  }

  /** While there is an event, every step of a worker brings the pool nearer to an empty queue, and an
      event more sets it back by eight steps. */
  lemma {:induction false} WorkDrains(s: State, step: Step, empties: nat -> bool)
    requires Enabled(s, step) && s.running && s.queue != [] && (step.Work? || step.Emplace?)
    ensures Do(s, step, empties).running
    ensures step.Work? ==> Backlog(Do(s, step, empties)) < Backlog(s)
    ensures step.Emplace? ==> Backlog(Do(s, step, empties)) == Backlog(s) + 8
  {
    if step.Work? {
      var i := step.worker;
      var s' := DoWork(s, i, empties);
      OneWorker(s, i, empties);
      StepsToTakeOfUpdate(s.workers, i, s'.workers[i]);
      hide AllStepsToTake;
    }
  }

  /** Steps of workers and producers during which the queue is never empty. */
  predicate StaysBusy(s: State, steps: seq<Step>, empties: nat -> bool)
    requires CanRun(s, steps, empties)
    decreases |steps|
  {
    steps == [] ||
    (s.queue != [] && (steps[0].Work? || steps[0].Emplace?) && StaysBusy(Do(s, steps[0], empties), steps[1..], empties))
  }

  function Emplaced(steps: seq<Step>): nat {
    if steps == [] then 0 else (if steps[0].Emplace? then 1 else 0) + Emplaced(steps[1..])
  }

  /** So however its threads are interleaved, the pool empties the queue after at most as many steps as the
      backlog, when nothing more is emplaced, and after eight more for every event that is. */
  lemma {:induction false} QueueIsDrained(s: State, steps: seq<Step>, empties: nat -> bool)
    requires CanRun(s, steps, empties) && s.running && StaysBusy(s, steps, empties)
    ensures Internal(steps) <= Backlog(s) + 8 * Emplaced(steps)
    decreases |steps|
  {
    hide Enabled, Do, Backlog;
    if steps != [] {
      WorkDrains(s, steps[0], empties);
      QueueIsDrained(Do(s, steps[0], empties), steps[1..], empties);
    }
  }

  // ----- After a stop ------------------------------------------------------------

  /** When stop has returned no worker is alive, every event taken has reached the handler,
      exactly once if the handler empties the pointer, at most one event per worker was taken
      after the flag fell, and what is left is queued in the order it came. */
  lemma AfterStop(steps: seq<Step>, empties: nat -> bool)
    requires CanRun(INITIAL, steps, empties)
    requires Run(INITIAL, steps, empties).control == Idle && !Run(INITIAL, steps, empties).running
    ensures Run(INITIAL, steps, empties).workers == []
    ensures forall e: nat :: Some(e) in Run(INITIAL, steps, empties).taken ==>
      e in Run(INITIAL, steps, empties).processed
    ensures forall e: nat :: empties(e) && Some(e) in Run(INITIAL, steps, empties).taken ==>
      Count(Run(INITIAL, steps, empties).processed, e) == 1
    ensures |Run(INITIAL, steps, empties).taken| <=
        Run(INITIAL, steps, empties).takenAtStop + Run(INITIAL, steps, empties).poolAtStop
    ensures Run(INITIAL, steps, empties).emplaced ==
      Run(INITIAL, steps, empties).taken + Run(INITIAL, steps, empties).queue
  {
    RunKeepsInvariant(INITIAL, steps, empties);
    AllHanded(Run(INITIAL, steps, empties));
    InitialOnce(empties);
    RunKeepsOnce(INITIAL, steps, empties);
    NoneUnseen(Run(INITIAL, steps, empties));
  }

  lemma NoneUnseen(s: State)
    requires s.workers == []
    ensures forall i: nat, e: nat :: !HasUnseen(s, i, e)
  {
  }
}
