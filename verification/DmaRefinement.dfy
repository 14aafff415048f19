/**
 The refinement from the interleaved device to the atomic memory, for every
 sound run, and so for every run without killed waits.
 */
module DmaRefinement {
  import opened Wrappers
  import opened Bits
  import opened DmaWindow
  import opened DmaSystem
  import opened DmaCompletion
  import opened AtomicMemory
  import opened DmaAtomic
  import opened DmaSignals

  function AbsClient(th: Thread): Client {
    Client(th.window, th.pos, if th.pc.Idle? then None else Some(th.pc.req.op))
  }

  function AbsClients(threads: map<Tid, Thread>): (c: map<Tid, Client>)
    ensures c.Keys == threads.Keys
  {
    map t | t in threads :: AbsClient(threads[t])
  }

  /** The memory as the last finished call left it. */
  function Abs(s: System): Atomic {
    Atomic(s.committed, AbsClients(s.threads))
  }

  function LabelOf(s: System, step: Step): Label
    requires s.cfg.Valid() && Enabled(s, step)
  {
    match step
    case Call(t, op) => if Admit(s.cfg, s.threads[t], op).Some? then Invoked(t, op) else Silent
    case Unlock(t) => Responded(t, s.threads[t].pc.result, s.threads[t].pc.req.copied)
    case _ => Silent
  }

  lemma ClientsUpdate(threads: map<Tid, Thread>, t: Tid, th: Thread)
    ensures AbsClients(threads[t := th]) == AbsClients(threads)[t := AbsClient(th)]
  {
  }

  lemma ClientsSame(threads: map<Tid, Thread>, t: Tid, th: Thread)
    requires t in threads && AbsClient(th) == AbsClient(threads[t])
    ensures AbsClients(threads[t := th]) == AbsClients(threads)
  {
  }

  lemma SilentStep(s: System, step: Step)
    requires Inv(s) && Enabled(s, step) && !step.Call? && !step.Unlock?
    ensures Abs(Apply(s, step)) == Abs(s)
  {
    var s' := Apply(s, step);
    if IsHardware(step) {
      HardwareFrame(s, step);
    } else {
      SilentThread(s, step);
      ClientsSame(s.threads, step.t, s'.threads[step.t]);
    }
  }

  lemma SilentThread(s: System, step: Step)
    requires s.cfg.Valid() && Enabled(s, step) && !IsHardware(step) && !step.Call? && !step.Unlock?
    ensures var s' := Apply(s, step);
            && s'.committed == s.committed && step.t in s'.threads
            && s'.threads == s.threads[step.t := s'.threads[step.t]]
            && AbsClient(s'.threads[step.t]) == AbsClient(s.threads[step.t])
  {
  }

  lemma CallRefines(s: System, t: Tid, op: Op)
    requires Inv(s) && Enabled(s, Call(t, op))
    ensures AtomicStep(Abs(s), LabelOf(s, Call(t, op)), Abs(Apply(s, Call(t, op))))
  {
    var r := Admit(s.cfg, s.threads[t], op);
    if r.Some? {
      AdmitsOp(s.cfg, s.threads[t], op);
      ClientsUpdate(s.threads, t, s.threads[t].(pc := WantLock(r.value)));
    }
  }

  lemma AdmitsOp(c: DmaConfig, th: Thread, op: Op)
    requires c.Valid() && th.window.Valid() && (op.ReadOp? ==> op.want < WORD64 / 2) && Admit(c, th, op).Some?
    ensures Admit(c, th, op).value.op == op
  {
  }

  /** What a leaving call must have done for its response to be an atomic one. */
  ghost predicate LeavesAtomic(s: System, t: Tid)
    requires t in s.threads && s.threads[t].pc.Leaving?
  {
    var th := s.threads[t];
    Effect(s.committed, s.mem, th.window, th.pos, th.pc.req.op, th.pc.result, th.pc.req.copied)
  }

  /** A response is an atomic step if and only if its call has had the effect of one. */
  lemma UnlockExactly(s: System, t: Tid)
    requires s.cfg.Valid() && Enabled(s, Unlock(t))
    ensures AtomicStep(Abs(s), LabelOf(s, Unlock(t)), Abs(Apply(s, Unlock(t)))) <==> LeavesAtomic(s, t)
  {
    ClientsUpdate(s.threads, t, Apply(s, Unlock(t)).threads[t]);
  }

  lemma StepRefines(s: System, step: Step)
    requires Steady(s) && Enabled(s, step)
    ensures AtomicStep(Abs(s), LabelOf(s, step), Abs(Apply(s, step)))
  {
    if step.Call? {
      CallRefines(s, step.t, step.op);
    } else if step.Unlock? {
      ThreadFrame(s, step);
      UnlockExactly(s, step.t);
    } else {
      SilentStep(s, step);
    }
  }

  /** What a run shows to the outside, step by step. */
  function Trace(s: System, steps: seq<Step>): seq<Label>
    requires s.cfg.Valid() && Runs(s, steps)
    decreases steps
  {
    if steps == [] then [] else [LabelOf(s, steps[0])] + Trace(Apply(s, steps[0]), steps[1..])
  }

  lemma {:induction false} RunRefines(s: System, steps: seq<Step>)
    requires Steady(s) && Runs(s, steps) && SoundRun(s, steps)
    ensures AtomicRun(Abs(s), Trace(s, steps), Abs(After(s, steps)))
    decreases steps
  {
    if steps != [] {
      StepRefines(s, steps[0]);
      SteadyStep(s, steps[0]);
      RunRefines(Apply(s, steps[0]), steps[1..]);
      assert Trace(s, steps)[1..] == Trace(Apply(s, steps[0]), steps[1..]);
    }
  }

  // ---------------------------------------------------------------------
  // Results
  // ---------------------------------------------------------------------

  /**
   Every sound run of any number of handles, killed waits included, shows
   exactly what some run of the atomic memory shows.
   */
  lemma SoundRunsAreAtomic(s0: System, steps: seq<Step>)
    requires Init(s0) && Runs(s0, steps) && SoundRun(s0, steps)
    ensures AtomicRun(Abs(s0), Trace(s0, steps), Abs(After(s0, steps)))
  {
    InitSteady(s0);
    RunRefines(s0, steps);
  }

  /** In particular every run without killed waits. */
  lemma DeviceIsAtomic(s0: System, steps: seq<Step>)
    requires Init(s0) && Runs(s0, steps) && KillFree(steps)
    ensures AtomicRun(Abs(s0), Trace(s0, steps), Abs(After(s0, steps)))
  {
    InitOrderly(s0);
    OrderlyRun(s0, steps);
    SoundRunsAreAtomic(s0, steps);
  }

  /** And every run whose kills come after the end of the transfer, if their signals are gone before the next start. */
  lemma LateKillsAreAtomic(s0: System, steps: seq<Step>)
    requires Init(s0) && Runs(s0, steps) && LateKills(s0, steps)
    ensures AtomicRun(Abs(s0), Trace(s0, steps), Abs(After(s0, steps)))
  {
    InitSteady(s0);
    LateKillsAreSound(s0, steps);
    SoundRunsAreAtomic(s0, steps);
  }

  /**
   Without killed waits a transfer is never started with a stale signal
   outstanding, so by `EarlyWakeExactly` no wait ends before its own transfer;
   and every ended transfer has caused exactly one completion once the waiter
   may wake.
   */
  lemma SignalsAreOneToOne(s0: System, steps: seq<Step>, t: Tid)
    requires Init(s0) && Runs(s0, steps) && KillFree(steps)
    ensures var s := After(s0, steps);
            && s.done <= 1 && s.tally.completed <= s.tally.ended <= s.tally.completed + 1
            && (Enabled(s, Start(t)) ==> !Stale(s) && s.tally.completed == s.tally.ended == s.tally.started)
            && (Enabled(s, Wake(t)) ==> s.engine.job.None? && s.tally.completed == s.tally.ended == s.tally.started)
  {
    InitOrderly(s0);
    OrderlyRun(s0, steps);
    var s := After(s0, steps);
    if t in s.threads {
      assert ThreadOk(s, t);
    }
  }
}
