/**
 When a waiter's wake-up means that its own transfer has ended. The engine's
 interrupt, the controller's latched bit, the handler in service and the
 completion count can each carry the end of an earlier transfer; a wait is
 sound exactly when none of them does at the moment the transfer is started.
 */
module DmaCompletion {
  import opened DmaSystem

  /** The handler will not call complete on account of what it has already seen. */
  predicate QuietIsr(s: System) {
    s.isr.Acking? || (!s.latched && (s.isr.IsrIdle? || s.isr == Seen(false)))
  }

  /** An earlier transfer can still signal the completion. */
  predicate Stale(s: System) {
    s.done > 0 || (s.engine.irq && s.engine.irqEn) || !QuietIsr(s)
  }

  predicate NotBy(t: Tid, step: Step) {
    IsHardware(step) || step.t != t
  }

  predicate NoneBy(t: Tid, steps: seq<Step>) {
    forall i :: 0 <= i < |steps| ==> NotBy(t, steps[i])
  }

  /** `t` waits, and as long as its transfer runs nothing can wake it. */
  predicate Guarded(s: System, t: Tid) {
    && t in s.threads && s.threads[t].pc.Waiting?
    && (s.engine.job.Some? ==> s.engine.job.value.owner == t && !Stale(s))
  }

  lemma GuardedStep(s: System, step: Step, t: Tid)
    requires Inv(s) && Enabled(s, step) && Guarded(s, t) && NotBy(t, step)
    ensures Guarded(Apply(s, step), t)
  {
    assert ThreadOk(s, t);
    if IsHardware(step) {
      HardwareFrame(s, step);
      GuardedHardware(s, step);
    } else {
      OthersOnlyCall(s, step);
    }
  }

  /** While a transfer runs, hardware makes no signal where there was none. */
  lemma GuardedHardware(s: System, step: Step)
    requires s.cfg.Valid() && Enabled(s, step) && IsHardware(step)
    ensures var s' := Apply(s, step);
            s'.engine.job.Some? ==>
              && s.engine.job.Some? && s'.engine.job.value.owner == s.engine.job.value.owner
              && (!Stale(s) ==> !Stale(s'))
  {
  }

  lemma {:induction false} GuardedRun(s: System, steps: seq<Step>, t: Tid)
    requires Inv(s) && Runs(s, steps) && Guarded(s, t) && NoneBy(t, steps)
    ensures Guarded(After(s, steps), t)
    decreases steps
  {
    if steps != [] {
      InvStep(s, steps[0]);
      GuardedStep(s, steps[0], t);
      GuardedRun(Apply(s, steps[0]), steps[1..], t);
    }
  }

  /** `t` can be woken while its own transfer is still running. */
  ghost predicate CanWakeEarly(s: System, t: Tid)
    requires s.cfg.Valid()
  {
    exists steps :: Runs(s, steps) && NoneBy(t, steps) && WakesEarly(After(s, steps), t)
  }

  predicate WakesEarly(s: System, t: Tid)
    requires s.cfg.Valid()
  {
    Enabled(s, Wake(t)) && s.engine.job.Some? && s.engine.job.value.owner == t
  }

  lemma OneStep(s: System, step: Step, rest: seq<Step>)
    requires s.cfg.Valid() && Enabled(s, step) && Apply(s, step).cfg == s.cfg && Runs(Apply(s, step), rest)
    ensures Runs(s, [step] + rest) && After(s, [step] + rest) == After(Apply(s, step), rest)
  {
    assert ([step] + rest)[1..] == rest;
  }

  // ---------------------------------------------------------------------
  // From an outstanding signal to the completion
  // ---------------------------------------------------------------------

  /** How far a signal still has to go. */
  function Distance(s: System): nat {
    match s.isr
    case Cleared => 1
    case GotStatus(_) => 2
    case Seen(dma) => if dma then 3 else 6
    case IsrIdle => if s.latched then 4 else 5
    case Acking => 6
  }

  function NextHop(s: System): Step {
    match s.isr
    case Cleared => IsrComplete
    case GotStatus(_) => IsrClear
    case Seen(dma) => if dma then IsrStatus else IsrAck
    case IsrIdle => if s.latched then IsrEnter else Latch
    case Acking => IsrAck
  }

  /** Steps of the interrupt controller and the handler. */
  predicate AllSignals(steps: seq<Step>) {
    forall i :: 0 <= i < |steps| ==> steps[i].Latch? || IsIsr(steps[i])
  }

  /** The same but for signals on their way. */
  predicate SameButSignals(s: System, s': System) {
    && s' == s.(engine := s'.engine, latched := s'.latched, isr := s'.isr, done := s'.done, tally := s'.tally)
    && s'.engine == s.engine.(irq := s'.engine.irq)
  }

  lemma HopsOn(s: System)
    requires s.cfg.Valid() && Stale(s) && s.done == 0
    ensures (NextHop(s).Latch? || IsIsr(NextHop(s))) && Enabled(s, NextHop(s))
    ensures var s' := Apply(s, NextHop(s));
            s'.cfg == s.cfg && SameButSignals(s, s') && Stale(s') && (s'.done > 0 || Distance(s') < Distance(s))
  {
  }

  /** A signal that is about reaches the completion, and nothing else need change. */
  lemma {:induction false} SignalArrives(s: System) returns (steps: seq<Step>)
    requires s.cfg.Valid() && Stale(s)
    ensures Runs(s, steps) && AllSignals(steps)
    ensures After(s, steps).done > 0 && SameButSignals(s, After(s, steps))
    decreases if s.done > 0 then 0 else Distance(s)
  {
    if s.done > 0 {
      steps := [];
    } else {
      HopsOn(s);
      var rest := SignalArrives(Apply(s, NextHop(s)));
      OneStep(s, NextHop(s), rest);
      steps := [NextHop(s)] + rest;
    }
  }

  /** A stale signal reaches the completion before the new transfer moves a byte. */
  lemma StaleCompletes(s: System, t: Tid)
    requires s.cfg.Valid() && t in s.threads && s.threads[t].pc.Waiting?
    requires s.engine.job.Some? && s.engine.job.value.owner == t && Stale(s)
    ensures CanWakeEarly(s, t)
  {
    var steps := SignalArrives(s);
    assert NoneBy(t, steps) && WakesEarly(After(s, steps), t);
  }

  /**
   After a start, the waiter can be woken before its own transfer has ended if
   and only if a stale signal was outstanding when it was started.
   */
  lemma EarlyWakeExactly(s: System, t: Tid)
    requires Inv(s) && Enabled(s, Start(t))
    ensures CanWakeEarly(Apply(s, Start(t)), t) <==> Stale(s)
  {
    var s' := Apply(s, Start(t));
    InvStep(s, Start(t));
    if Stale(s) {
      StaleCompletes(s', t);
    } else {
      forall steps | Runs(s', steps) && NoneBy(t, steps)
        ensures !WakesEarly(After(s', steps), t)
      {
        GuardedRun(s', steps, t);
      }
    }
  }
}
