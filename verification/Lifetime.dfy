/**
 The lifetime of a board: a reference count that opens may only raise from a
 value above zero, one completion, and a removal that waits for the clients.
 Each step is one atomic operation on the count or the completion.
 */
module Lifetime {

  type Handle = nat

  /** Where the removal of the device stands. */
  datatype Removal = Running | Removing | Signalling | Waiting | Terminated | Freed

  datatype Board = Board(
    refcount: nat,
    done: nat,                  // the completion
    entering: set<Handle>,      // opens that have found the structure, before they test the count
    opening: set<Handle>,       // opens past the increment
    open: set<Handle>,          // file handles
    signalling: set<Handle>,    // releases that took the count to zero, before complete
    removal: Removal,
    fired: nat,                 // history: calls of complete
    strays: nat)                // history: tests of the count after the structure was freed

  datatype Step =
    | Lookup(h: Handle)
    | BeginOpen(h: Handle)      // increment unless zero
    | FinishOpen(h: Handle)
    | FailOpen(h: Handle)       // the open releases what it took
    | Close(h: Handle)
    | Signal(h: Handle)
    | BeginRemove               // the nodes go, and nobody finds the structure any more
    | DropHold
    | SignalHold
    | Terminate                 // wait_for_completion returns, terminate_board starts
    | Free

  predicate Init(b: Board) {
    b == Board(1, 0, {}, {}, {}, {}, Running, 0, 0)
  }

  predicate Known(b: Board, h: Handle) {
    h in b.entering || h in b.opening || h in b.open || h in b.signalling
  }

  predicate Enabled(b: Board, step: Step) {
    match step
    case Lookup(h) => b.removal.Running? && !Known(b, h)
    case BeginOpen(h) => h in b.entering
    case FinishOpen(h) => h in b.opening
    case FailOpen(h) => h in b.opening && b.refcount > 0
    case Close(h) => h in b.open && b.refcount > 0
    case Signal(h) => h in b.signalling
    case BeginRemove => b.removal.Running?
    case DropHold => b.removal.Removing? && b.refcount > 0
    case SignalHold => b.removal.Signalling?
    case Terminate => b.removal.Waiting? && b.done > 0
    case Free => b.removal.Terminated?
  }

  /** `atomic_dec_and_test`, and who then calls complete. */
  function Drop(b: Board, h: Handle): Board
    requires b.refcount > 0
  {
    b.(refcount := b.refcount - 1, signalling := if b.refcount == 1 then b.signalling + {h} else b.signalling)
  }

  function Apply(b: Board, step: Step): Board
    requires Enabled(b, step)
  {
    match step
    case Lookup(h) => b.(entering := b.entering + {h})
    case BeginOpen(h) =>
      var b' := b.(entering := b.entering - {h});
      if b.removal.Freed? then b'.(strays := b.strays + 1)
      else if b.refcount == 0 then b'
      else b'.(refcount := b.refcount + 1, opening := b.opening + {h})
    case FinishOpen(h) => b.(opening := b.opening - {h}, open := b.open + {h})
    case FailOpen(h) => Drop(b.(opening := b.opening - {h}), h)
    case Close(h) => Drop(b.(open := b.open - {h}), h)
    case Signal(h) => b.(signalling := b.signalling - {h}, done := b.done + 1, fired := b.fired + 1)
    case BeginRemove => b.(removal := Removing)
    case DropHold => b.(refcount := b.refcount - 1, removal := if b.refcount == 1 then Signalling else Waiting)
    case SignalHold => b.(removal := Waiting, done := b.done + 1, fired := b.fired + 1)
    case Terminate => b.(removal := Terminated, done := b.done - 1)
    case Free => b.(removal := Freed)
  }

  /** The driver's own hold on the count. */
  function Hold(r: Removal): nat {
    if r.Running? || r.Removing? then 1 else 0
  }

  /** Past the wait for the clients. */
  predicate Past(r: Removal) {
    r.Terminated? || r.Freed?
  }

  /** Who is between taking the count to zero and calling complete. */
  function Signallers(b: Board): nat {
    |b.signalling| + if b.removal.Signalling? then 1 else 0
  }

  /**
   The count is the driver's hold plus opens in progress plus open handles, and
   the completion is due, on its way or given exactly when the count is zero.
   */
  predicate Inv(b: Board) {
    && b.opening !! b.open && (b.opening + b.open) !! b.signalling && b.entering !! (b.opening + b.open + b.signalling)
    && b.refcount == Hold(b.removal) + |b.opening| + |b.open|
    && b.fired + Signallers(b) == (if b.refcount == 0 then 1 else 0)
    && b.fired == b.done + (if Past(b.removal) then 1 else 0)
    && (!b.removal.Freed? ==> b.strays == 0)
  }

  lemma Shrink(s: set<Handle>, h: Handle)
    requires h in s
    ensures |s - {h}| == |s| - 1
  {
  }

  lemma Grow(s: set<Handle>, h: Handle)
    requires h !in s
    ensures |s + {h}| == |s| + 1
  {
  }

  lemma Nobody(s: set<Handle>)
    requires |s| == 0
    ensures s == {}
  {
  }

  lemma OpenStep(b: Board, h: Handle)
    requires Inv(b) && Enabled(b, BeginOpen(h))
    ensures Inv(Apply(b, BeginOpen(h)))
  {
    Grow(b.opening, h);
  }

  lemma FinishStep(b: Board, h: Handle)
    requires Inv(b) && Enabled(b, FinishOpen(h))
    ensures Inv(Apply(b, FinishOpen(h)))
  {
    Shrink(b.opening, h);
    Grow(b.open, h);
  }

  /** Giving up one reference, of an open in progress or of a handle. */
  lemma DropStep(b: Board, rest: Board, h: Handle)
    requires Inv(b) && h !in b.signalling
    requires (h in b.opening && rest == b.(opening := b.opening - {h})) || (h in b.open && rest == b.(open := b.open - {h}))
    ensures b.refcount > 0 && Inv(Drop(rest, h))
  {
    if h in b.opening {
      Shrink(b.opening, h);
    } else {
      Shrink(b.open, h);
    }
    Grow(b.signalling, h);
  }

  lemma SignalStep(b: Board, h: Handle)
    requires Inv(b) && Enabled(b, Signal(h))
    ensures Inv(Apply(b, Signal(h)))
  {
    Shrink(b.signalling, h);
  }

  lemma InvStep(b: Board, step: Step)
    requires Inv(b) && Enabled(b, step)
    ensures Inv(Apply(b, step))
  {
    match step {
      case BeginOpen(h) => OpenStep(b, h);
      case FinishOpen(h) => FinishStep(b, h);
      case FailOpen(h) => DropStep(b, b.(opening := b.opening - {h}), h);
      case Close(h) => DropStep(b, b.(open := b.open - {h}), h);
      case Signal(h) => SignalStep(b, h);
      case _ =>
    }
  }

  predicate Runs(b: Board, steps: seq<Step>)
    decreases steps
  {
    steps == [] || (Enabled(b, steps[0]) && Runs(Apply(b, steps[0]), steps[1..]))
  }

  function After(b: Board, steps: seq<Step>): Board
    requires Runs(b, steps)
    decreases steps
  {
    if steps == [] then b else After(Apply(b, steps[0]), steps[1..])
  }

  lemma {:induction false} InvRun(b: Board, steps: seq<Step>)
    requires Inv(b) && Runs(b, steps)
    ensures Inv(After(b, steps))
    decreases steps
  {
    if steps != [] {
      InvStep(b, steps[0]);
      InvRun(Apply(b, steps[0]), steps[1..]);
    }
  }

  lemma InitInv(b0: Board)
    requires Init(b0)
    ensures Inv(b0)
  {
  }

  lemma Reachable(b0: Board, steps: seq<Step>, b: Board)
    requires Init(b0) && Runs(b0, steps) && b == After(b0, steps)
    ensures Inv(b)
  {
    InitInv(b0);
    InvRun(b0, steps);
  }

  lemma Safe(b: Board)
    requires Inv(b)
    ensures b.refcount == Hold(b.removal) + |b.opening| + |b.open|
    ensures b.fired <= 1 && (b.fired == 1 ==> b.refcount == 0) && (Past(b.removal) ==> b.fired == 1)
    ensures Past(b.removal) || Enabled(b, Terminate) ==> b.refcount == 0 && b.opening == {} && b.open == {}
  {
    if b.refcount == 0 {
      Nobody(b.opening);
      Nobody(b.open);
    }
  }

  // ---------------------------------------------------------------------
  // Results
  // ---------------------------------------------------------------------

  /**
   After any run of opens, failed opens, closes and a removal: the count is the
   driver's hold plus opens in progress plus open handles; complete has been
   called once at most, only at zero, and exactly once when the removal has got
   past its wait; and termination starts with no open in progress and no open
   handle.
   */
  lemma RemovalIsSafe(b0: Board, steps: seq<Step>, b: Board)
    requires Init(b0) && Runs(b0, steps) && b == After(b0, steps)
    ensures b.refcount == Hold(b.removal) + |b.opening| + |b.open|
    ensures b.fired <= 1 && (b.fired == 1 ==> b.refcount == 0) && (Past(b.removal) ==> b.fired == 1)
    ensures Past(b.removal) || Enabled(b, Terminate) ==> b.refcount == 0 && b.opening == {} && b.open == {}
  {
    Reachable(b0, steps, b);
    Safe(b);
  }

  lemma {:induction false} ZeroStays(b: Board, steps: seq<Step>)
    requires Inv(b) && Runs(b, steps) && b.refcount == 0
    ensures After(b, steps).refcount == 0
    decreases steps
  {
    if steps != [] {
      InvStep(b, steps[0]);
      Nobody(b.opening);
      Nobody(b.open);
      ZeroStays(Apply(b, steps[0]), steps[1..]);
    }
  }

  /**
   A count that has reached zero is never raised again: every later open that finds the
   structure still there finds the device gone, and takes nothing.
   */
  lemma ZeroIsFinal(b0: Board, steps: seq<Step>, b: Board, more: seq<Step>, later: Board, h: Handle)
    requires Init(b0) && Runs(b0, steps) && b == After(b0, steps) && b.refcount == 0
    requires Runs(b, more) && later == After(b, more) && Enabled(later, BeginOpen(h)) && !later.removal.Freed?
    ensures Apply(later, BeginOpen(h)) == later.(entering := later.entering - {h})
  {
    Reachable(b0, steps, b);
    ZeroStays(b, more);
  }

  /**
   In every reachable state before the free, an open that tests the count is let
   in, and the count goes up by one, if and only if somebody holds it: the
   driver, an open in progress or a handle. Otherwise nothing is taken.
   */
  lemma OpenIsLetInExactly(b0: Board, steps: seq<Step>, b: Board, h: Handle)
    requires Init(b0) && Runs(b0, steps) && b == After(b0, steps) && Enabled(b, BeginOpen(h)) && !b.removal.Freed?
    ensures var b' := Apply(b, BeginOpen(h));
            && (h in b'.opening && b'.refcount == b.refcount + 1 <==> Held(b))
            && (!Held(b) ==> b' == b.(entering := b.entering - {h}))
  {
    Reachable(b0, steps, b);
    HeldIsCounted(b);
  }

  /** Somebody holds the count. */
  predicate Held(b: Board) {
    b.removal.Running? || b.removal.Removing? || b.opening != {} || b.open != {}
  }

  lemma HeldIsCounted(b: Board)
    requires Inv(b)
    ensures Held(b) <==> b.refcount > 0
  {
    if b.refcount == 0 {
      Nobody(b.opening);
      Nobody(b.open);
    }
  }

  /** The three steps of an open, each possible, and where they lead. */
  predicate OpensTo(b: Board, h: Handle, z: Board) {
    && Enabled(b, Lookup(h))
    && var b1 := Apply(b, Lookup(h));
    && Enabled(b1, BeginOpen(h))
    && var b2 := Apply(b1, BeginOpen(h));
    && Enabled(b2, FinishOpen(h)) && z == Apply(b2, FinishOpen(h))
  }

  lemma OpensAlone(b: Board, h: Handle) returns (z: Board)
    requires b.refcount > 0 && b.removal.Running? && !Known(b, h)
    ensures OpensTo(b, h, z) && z == b.(refcount := b.refcount + 1, open := b.open + {h})
  {
    z := b.(refcount := b.refcount + 1, open := b.open + {h});
    assert (b.entering + {h}) - {h} == b.entering && (b.opening + {h}) - {h} == b.opening;
  }

  /** In every reachable state of a running board any newcomer can open it by its own steps, and all that changes is that it is counted. */
  lemma OpenIsServed(b0: Board, steps: seq<Step>, b: Board, h: Handle) returns (z: Board)
    requires Init(b0) && Runs(b0, steps) && b == After(b0, steps) && b.removal.Running? && !Known(b, h)
    ensures OpensTo(b, h, z) && z == b.(refcount := b.refcount + 1, open := b.open + {h})
  {
    Reachable(b0, steps, b);
    HeldIsCounted(b);
    z := OpensAlone(b, h);
  }

  /** Steps other than new opens. */
  predicate Closing(steps: seq<Step>) {
    forall i :: 0 <= i < |steps| ==> !steps[i].Lookup? && !steps[i].BeginOpen?
  }

  /** How much is left to do before the removal can end. */
  function Left(b: Board): nat {
    3 * |b.opening| + 2 * |b.open| + |b.signalling|
      + match b.removal case Running => 5 case Removing => 4 case Signalling => 2 case Waiting => 1 case _ => 0
  }

  /** A step that brings the end nearer, in any state where the removal is not over. */
  lemma NextClosing(b: Board) returns (step: Step)
    requires Inv(b) && !Past(b.removal)
    ensures Enabled(b, step) && !step.Lookup? && !step.BeginOpen? && Left(Apply(b, step)) < Left(b)
  {
    if h :| h in b.opening {
      step := FinishOpen(h);
      Shrink(b.opening, h);
      Grow(b.open, h);
    } else if h :| h in b.open {
      step := Close(h);
      Shrink(b.open, h);
      Grow(b.signalling, h);
    } else if h :| h in b.signalling {
      step := Signal(h);
      Shrink(b.signalling, h);
    } else {
      Idle(b);
      step := if b.removal.Running? then BeginRemove else if b.removal.Removing? then DropHold
              else if b.removal.Signalling? then SignalHold else Terminate;
    }
  }

  lemma Idle(b: Board)
    requires Inv(b) && b.opening == {} && b.open == {} && b.signalling == {}
    ensures b.refcount == Hold(b.removal) && (b.removal.Waiting? ==> b.done == 1)
  {
  }

  lemma {:induction false} CanFinish(b: Board) returns (steps: seq<Step>)
    requires Inv(b)
    ensures Runs(b, steps) && Closing(steps) && Past(After(b, steps).removal)
    decreases Left(b)
  {
    if Past(b.removal) {
      steps := [];
    } else {
      var step := NextClosing(b);
      InvStep(b, step);
      var rest := CanFinish(Apply(b, step));
      steps := [step] + rest;
      assert steps[1..] == rest;
    }
  }

  /** No wake-up is ever lost: from every reachable state the clients' closing alone lets the removal end. */
  lemma RemovalIsNeverStuck(b0: Board, steps: seq<Step>, b: Board)
    requires Init(b0) && Runs(b0, steps) && b == After(b0, steps)
    ensures exists more :: Runs(b, more) && Closing(more) && Past(After(b, more).removal)
  {
    Reachable(b0, steps, b);
    var more := CanFinish(b);
  }

  // ---------------------------------------------------------------------
  // After the free
  // ---------------------------------------------------------------------

  /** Some run from here tests the count of the freed structure. */
  ghost predicate CanStray(b: Board) {
    exists steps :: Runs(b, steps) && After(b, steps).strays > 0
  }

  /** Once freed, only an open that found the structure before can touch it. */
  lemma OnlyStrays(b: Board, step: Step)
    requires Inv(b) && b.removal.Freed? && Enabled(b, step)
    ensures step.BeginOpen? && step.h in b.entering
  {
    Safe(b);
    Nobody(b.signalling);
  }

  lemma {:induction false} NoStrays(b: Board, steps: seq<Step>)
    requires Inv(b) && b.removal.Freed? && b.entering == {} && Runs(b, steps)
    ensures After(b, steps) == b
    decreases steps
  {
    if steps != [] {
      OnlyStrays(b, steps[0]);
    }
  }

  /**
   The structure is not used after it is freed if and only if, at that moment,
   no open is between finding it and testing its count. Nothing in the driver
   waits for such opens.
   */
  lemma FreeIsSafeExactly(b0: Board, steps: seq<Step>, b: Board)
    requires Init(b0) && Runs(b0, steps) && b == After(b0, steps) && Enabled(b, Free)
    ensures CanStray(Apply(b, Free)) <==> b.entering != {}
  {
    Reachable(b0, steps, b);
    var freed := Apply(b, Free);
    InvStep(b, Free);
    if h :| h in b.entering {
      StraysBy(freed, h);
    } else {
      forall more | Runs(freed, more)
        ensures After(freed, more).strays == 0
      {
        NoStrays(freed, more);
      }
    }
  }

  lemma StraysBy(b: Board, h: Handle)
    requires b.removal.Freed? && h in b.entering
    ensures CanStray(b)
  {
    var b' := Apply(b, BeginOpen(h));
    assert Runs(b', []) && After(b', []).strays > 0;
    StraysAfter(b, BeginOpen(h));
  }

  /** And it happens: an open that is slow to test the count, and a removal that meets no other. */
  lemma StrayOpenHappens(b0: Board, h: Handle)
    requires Init(b0)
    ensures CanStray(b0)
  {
    var b1 := Apply(b0, Lookup(h));
    var b2 := Apply(b1, BeginRemove);
    var b3 := Apply(b2, DropHold);
    var b4 := Apply(b3, SignalHold);
    var b5 := Apply(b4, Terminate);
    var b6 := Apply(b5, Free);
    StraysBy(b6, h);
    StraysAfter(b5, Free);
    StraysAfter(b4, Terminate);
    StraysAfter(b3, SignalHold);
    StraysAfter(b2, DropHold);
    StraysAfter(b1, BeginRemove);
    StraysAfter(b0, Lookup(h));
  }

  lemma StraysAfter(b: Board, step: Step)
    requires Enabled(b, step) && CanStray(Apply(b, step))
    ensures CanStray(b)
  {
    var rest :| Runs(Apply(b, step), rest) && After(Apply(b, step), rest).strays > 0;
    assert ([step] + rest)[1..] == rest;
    assert Runs(b, [step] + rest);
  }
}
