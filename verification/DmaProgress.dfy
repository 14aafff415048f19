/**
 No wake-up is lost: in a run without killed waits a waiting call is always one
 that the engine, the controller and the handler can bring to its end alone.
 The interrupt line is level-triggered, so an end that falls between a handler's
 complete and its acknowledge is latched again.
 */
module DmaProgress {
  import opened Wrappers
  import opened DmaSystem
  import opened DmaCompletion
  import opened DmaAtomic
  import opened DmaSignals

  /** The hardware and the interrupt handler alone can get `t` to the end of its wait. */
  ghost predicate CanBeWoken(s: System, t: Tid)
    requires s.cfg.Valid()
  {
    exists steps :: Runs(s, steps) && AllHardware(steps) && Enabled(After(s, steps), Wake(t))
  }

  predicate AllHardware(steps: seq<Step>) {
    forall i :: 0 <= i < |steps| ==> IsHardware(steps[i])
  }

  lemma WokenAfter(s: System, step: Step, s': System, t: Tid)
    requires s.cfg.Valid() && IsHardware(step) && Enabled(s, step) && s' == Apply(s, step)
    requires s'.cfg == s.cfg && CanBeWoken(s', t)
    ensures CanBeWoken(s, t)
  {
    var rest :| Runs(s', rest) && AllHardware(rest) && Enabled(After(s', rest), Wake(t));
    Prefixed(s, step, s', rest, [step] + rest);
  }

  lemma Prefixed(s: System, step: Step, s': System, rest: seq<Step>, all: seq<Step>)
    requires s.cfg.Valid() && IsHardware(step) && Enabled(s, step) && s' == Apply(s, step) && s'.cfg == s.cfg
    requires Runs(s', rest) && AllHardware(rest) && all == [step] + rest
    ensures Runs(s, all) && AllHardware(all) && After(s, all) == After(s', rest)
  {
    OneStep(s, step, rest);
  }

  /** A waiter with a signal about. */
  lemma SignalWakes(s: System, t: Tid)
    requires s.cfg.Valid() && t in s.threads && s.threads[t].pc.Waiting? && Stale(s)
    ensures CanBeWoken(s, t)
  {
    var steps := SignalArrives(s);
    assert AllHardware(steps) && Enabled(After(s, steps), Wake(t));
  }

  // ---------------------------------------------------------------------
  // The interrupt stays enabled
  // ---------------------------------------------------------------------

  /** Interrupts are off only after a failed reset, which leaves the error bits that force the next one. */
  predicate PcEnabled(pc: Pc, e: Engine) {
    && (pc.NeedReset? ==> e.err)
    && (pc.Program? || pc.Waiting? ==> e.irqEn)
  }

  predicate IrqEnabled(s: System) {
    && (s.engine.irqEn || s.engine.err)
    && (s.mutex.Some? && s.mutex.value in s.threads ==> PcEnabled(s.threads[s.mutex.value].pc, s.engine))
  }

  lemma IrqHardware(s: System, step: Step)
    requires Inv(s) && IrqEnabled(s) && Enabled(s, step) && IsHardware(step)
    ensures IrqEnabled(Apply(s, step))
  {
    HardwareFrame(s, step);
    EngineKeepsIrqEn(s, step);
  }

  lemma EngineKeepsIrqEn(s: System, step: Step)
    requires s.cfg.Valid() && Enabled(s, step) && IsHardware(step)
    ensures Apply(s, step).engine.irqEn == s.engine.irqEn && (s.engine.err ==> Apply(s, step).engine.err)
  {
  }

  /** Steps of the holder other than `Reset` leave the interrupt enable and the error bits alone. */
  lemma HolderPc(s: System, step: Step)
    requires s.cfg.Valid() && Enabled(s, step) && !IsHardware(step) && !step.Call? && !step.Unlock?
    requires step.ReadStatus? ==> s.engine.job.None?
    requires (s.engine.irqEn || s.engine.err) && PcEnabled(s.threads[step.t].pc, s.engine)
    ensures var s' := Apply(s, step);
            && step.t in s'.threads && (s'.engine.irqEn || s'.engine.err) && PcEnabled(s'.threads[step.t].pc, s'.engine)
  {
  }

  lemma IrqStep(s: System, step: Step)
    requires Orderly(s) && IrqEnabled(s) && Enabled(s, step)
    ensures IrqEnabled(Apply(s, step))
  {
    if IsHardware(step) {
      IrqHardware(s, step);
    } else {
      ThreadFrame(s, step);
      assert ThreadOk(s, step.t);
      if !step.Call? && !step.Unlock? {
        HolderPc(s, step);
      }
    }
  }

  lemma {:induction false} IrqRun(s: System, steps: seq<Step>)
    requires Orderly(s) && IrqEnabled(s) && Runs(s, steps) && KillFree(steps)
    ensures IrqEnabled(After(s, steps))
    decreases steps
  {
    if steps != [] {
      IrqStep(s, steps[0]);
      OrderlyStep(s, steps[0]);
      IrqRun(Apply(s, steps[0]), steps[1..]);
    }
  }

  // ---------------------------------------------------------------------
  // Every wait can end
  // ---------------------------------------------------------------------

  predicate WaitingHolder(s: System, t: Tid) {
    s.mutex == Some(t) && t in s.threads && s.threads[t].pc.Waiting?
  }

  lemma SignalOnItsWay(s: System, t: Tid)
    requires Orderly(s) && IrqEnabled(s) && WaitingHolder(s, t) && s.engine.job.None?
    ensures Stale(s)
  {
  }

  function EngineHop(s: System): Step
    requires s.engine.job.Some?
  {
    if s.engine.job.value.moved < s.engine.job.value.count then Move else Finish
  }

  lemma EngineHops(s: System, t: Tid)
    requires Steady(s) && WaitingHolder(s, t) && s.engine.job.Some?
    ensures IsHardware(EngineHop(s)) && Enabled(s, EngineHop(s)) && s.engine.job.value.moved <= s.engine.job.value.count
    ensures var s' := Apply(s, EngineHop(s));
            && s'.cfg == s.cfg && s'.threads == s.threads && s'.mutex == s.mutex
            && (s'.engine.job.Some? ==> s'.engine.job.value == s.engine.job.value.(moved := s.engine.job.value.moved + 1))
  {
  }

  lemma {:induction false} WaitCanEnd(s: System, t: Tid)
    requires Steady(s) && Orderly(s) && IrqEnabled(s) && WaitingHolder(s, t)
    ensures CanBeWoken(s, t)
    decreases if s.engine.job.None? then -1 else s.engine.job.value.count - s.engine.job.value.moved
  {
    if s.engine.job.None? {
      SignalOnItsWay(s, t);
      SignalWakes(s, t);
    } else {
      var step := EngineHop(s);
      EngineHops(s, t);
      OrderlyStep(s, step);
      SteadyStep(s, step);
      IrqStep(s, step);
      var s' := Apply(s, step);
      WaitCanEnd(s', t);
      WokenAfter(s, step, s', t);
    }
  }

  /**
   In every state a run without killed waits can reach, every waiting call can
   be brought to its end by steps of the hardware and the handler alone.
   */
  lemma NoWaitHangs(s0: System, steps: seq<Step>, s: System, t: Tid)
    requires Init(s0) && Runs(s0, steps) && KillFree(steps) && s == After(s0, steps)
    requires t in s.threads && s.threads[t].pc.Waiting?
    ensures CanBeWoken(s, t)
  {
    InitOrderly(s0);
    InitSteady(s0);
    OrderlyRun(s0, steps);
    SteadyRun(s0, steps);
    IrqRun(s0, steps);
    assert ThreadOk(s, t);
    WaitCanEnd(s, t);
  }
}
