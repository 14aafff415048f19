/**
 Signals in runs without killed waits: from the start of a transfer to the end
 of its wait there is one signal at most, and at all other times none. Such
 runs are therefore sound.
 */
module DmaSignals {
  import opened DmaSystem
  import opened DmaCompletion
  import opened DmaAtomic

  /** No transfer, no signal of one anywhere. */
  predicate AtRest(s: System) {
    && s.engine.job.None? && !s.engine.irq && s.done == 0 && QuietIsr(s)
    && s.tally.started == s.tally.ended == s.tally.completed
  }

  /** A transfer is running, and no signal is about. */
  predicate Moving(s: System) {
    && s.engine.job.Some? && !s.engine.irq && s.done == 0 && QuietIsr(s)
    && s.tally.started == s.tally.ended + 1 && s.tally.ended == s.tally.completed
  }

  /** Exactly one signal of the ended transfer is on its way to the waiter. */
  predicate Signalled(s: System) {
    && s.engine.job.None? && s.tally.started == s.tally.ended
    && if s.done > 0 then s.done == 1 && !s.engine.irq && QuietIsr(s) && s.tally.ended == s.tally.completed
       else
         && s.tally.ended == s.tally.completed + 1
         && if s.isr.Cleared? then !s.engine.irq
            else s.engine.irq && s.isr != GotStatus(false)
  }

  predicate Signals(s: System) {
    if HolderWaits(s) then Moving(s) || Signalled(s) else AtRest(s)
  }

  ghost predicate Orderly(s: System) {
    Inv(s) && Signals(s)
  }

  lemma InitOrderly(s: System)
    requires Init(s)
    ensures Orderly(s)
  {
    InitInv(s);
  }

  /** Moving bytes and ending. */
  lemma EngineSignals(s: System, step: Step)
    requires s.cfg.Valid() && Enabled(s, step) && (step.Move? || step.Finish? || step.Break?)
    ensures var s' := Apply(s, step); !AtRest(s) && !Signalled(s) && (Moving(s) ==> Moving(s') || Signalled(s'))
  {
  }

  /** The handler and the controller pass the one signal on. */
  lemma SignalPassed(s: System, step: Step)
    requires s.cfg.Valid() && Enabled(s, step) && (step.Latch? || IsIsr(step))
    ensures var s' := Apply(s, step);
            (AtRest(s) ==> AtRest(s')) && (Moving(s) ==> Moving(s')) && (Signalled(s) ==> Signalled(s'))
  {
  }

  lemma HardwareOrderly(s: System, step: Step)
    requires Orderly(s) && Enabled(s, step) && IsHardware(step)
    ensures Orderly(Apply(s, step))
  {
    InvStep(s, step);
    HardwareFrame(s, step);
    if step.Latch? || IsIsr(step) {
      SignalPassed(s, step);
    } else {
      EngineSignals(s, step);
    }
  }

  /** Steps of a holder that does not wait and does not start to. */
  lemma RestKeeps(s: System, step: Step)
    requires s.cfg.Valid() && Enabled(s, step) && !IsHardware(step) && !step.Start? && !step.Wake? && !step.Kill?
    requires AtRest(s)
    ensures AtRest(Apply(s, step))
  {
  }

  lemma StartSignals(s: System, t: Tid)
    requires s.cfg.Valid() && Enabled(s, Start(t)) && AtRest(s)
    ensures Moving(Apply(s, Start(t)))
  {
  }

  lemma WakeSignals(s: System, t: Tid)
    requires s.cfg.Valid() && Enabled(s, Wake(t)) && (Moving(s) || Signalled(s))
    ensures AtRest(Apply(s, Wake(t)))
  {
  }

  /** Which steps begin and end a wait. */
  lemma WaitFrame(s: System, step: Step)
    requires Inv(s) && Enabled(s, step) && !IsHardware(step) && !step.Call?
    ensures HolderWaits(Apply(s, step)) <==> step.Start?
    ensures HolderWaits(s) <==> step.Wake? || step.Kill?
  {
    ThreadFrame(s, step);
    assert ThreadOk(s, step.t);
  }

  lemma CallOrderly(s: System, t: Tid, op: Op)
    requires Orderly(s) && Enabled(s, Call(t, op))
    ensures Orderly(Apply(s, Call(t, op)))
  {
    InvStep(s, Call(t, op));
    CallFrame(s, t, op);
    assert ThreadOk(s, t);
    assert HolderWaits(Apply(s, Call(t, op))) <==> HolderWaits(s);
  }

  lemma ThreadOrderly(s: System, step: Step)
    requires Orderly(s) && Enabled(s, step) && !IsHardware(step) && !step.Call? && !step.Kill?
    ensures Orderly(Apply(s, step))
  {
    InvStep(s, step);
    WaitFrame(s, step);
    if step.Start? {
      StartSignals(s, step.t);
    } else if step.Wake? {
      WakeSignals(s, step.t);
    } else {
      RestKeeps(s, step);
    }
  }

  lemma OrderlyStep(s: System, step: Step)
    requires Orderly(s) && Enabled(s, step) && !step.Kill?
    ensures Orderly(Apply(s, step)) && Sound(s, step)
  {
    if IsHardware(step) {
      HardwareOrderly(s, step);
    } else if step.Call? {
      CallOrderly(s, step.t, step.op);
    } else {
      WaitFrame(s, step);
      ThreadOrderly(s, step);
    }
  }

  /** In a run without killed waits there is one signal at most, and every step is sound. */
  lemma {:induction false} OrderlyRun(s: System, steps: seq<Step>)
    requires Orderly(s) && Runs(s, steps) && KillFree(steps)
    ensures Orderly(After(s, steps)) && SoundRun(s, steps)
    decreases steps
  {
    if steps != [] {
      OrderlyStep(s, steps[0]);
      OrderlyRun(Apply(s, steps[0]), steps[1..]);
    }
  }

  // ---------------------------------------------------------------------
  // Kills that come late
  // ---------------------------------------------------------------------

  /** Waits are killed only when their transfer has ended, and no transfer is started with a stale signal about. */
  predicate LateKills(s: System, steps: seq<Step>)
    requires s.cfg.Valid() && Runs(s, steps)
    decreases steps
  {
    steps != [] ==>
      && (steps[0].Kill? ==> s.engine.job.None?) && (steps[0].Start? ==> !Stale(s))
      && LateKills(Apply(s, steps[0]), steps[1..])
  }

  lemma NoOrphanStep(s: System, step: Step)
    requires Steady(s) && !Orphan(s) && Enabled(s, step)
    requires (step.Kill? ==> s.engine.job.None?) && (step.Start? ==> !Stale(s))
    ensures Sound(s, step) && !Orphan(Apply(s, step))
  {
    if IsHardware(step) {
      HardwareFrame(s, step);
      NeverStarts(s, step);
    } else if step.Call? {
      CallFrame(s, step.t, step.op);
      assert ThreadOk(s, step.t);
    } else {
      NoOrphanThread(s, step);
    }
  }

  /** Hardware starts no transfer. */
  lemma NeverStarts(s: System, step: Step)
    requires s.cfg.Valid() && Enabled(s, step) && IsHardware(step)
    ensures Apply(s, step).engine.job.Some? ==> s.engine.job.Some?
  {
  }

  lemma NoOrphanThread(s: System, step: Step)
    requires Steady(s) && !Orphan(s) && Enabled(s, step) && !IsHardware(step) && !step.Call?
    requires (step.Kill? ==> s.engine.job.None?) && (step.Start? ==> !Stale(s))
    ensures !Orphan(Apply(s, step))
  {
    WaitFrame(s, step);
    if step.Wake? {
      ThreadFrame(s, step);
      NoJobAtWake(s, step.t);
    }
  }

  lemma NoJobAtWake(s: System, t: Tid)
    requires s.cfg.Valid() && Ready(s, t) && HolderOk(s, t) && Enabled(s, Wake(t))
    ensures s.engine.job.None?
  {
  }

  lemma {:induction false} LateKillsAreSound(s: System, steps: seq<Step>)
    requires Steady(s) && !Orphan(s) && Runs(s, steps) && LateKills(s, steps)
    ensures SoundRun(s, steps)
    decreases steps
  {
    if steps != [] {
      NoOrphanStep(s, steps[0]);
      SteadyStep(s, steps[0]);
      LateKillsAreSound(Apply(s, steps[0]), steps[1..]);
    }
  }
}
