/**
 Reaching states of the interleaved device: runs put together from the stages
 of a call, so that what can happen is shown by a run in which it does.
 */
module DmaRuns {
  import opened Wrappers
  import opened Bits
  import opened DmaSystem
  import opened DmaCompletion
  import opened AtomicMemory

  // ---------------------------------------------------------------------
  // Reaching a state
  // ---------------------------------------------------------------------

  /** No transfer is started with a stale signal about. */
  predicate CleanRun(s: System, steps: seq<Step>)
    requires s.cfg.Valid() && Runs(s, steps)
    decreases steps
  {
    steps == [] || ((steps[0].Start? ==> !Stale(s)) && CleanRun(Apply(s, steps[0]), steps[1..]))
  }

  /** Some run leads from `s` to `z`; if `clean`, one with clean starts. */
  ghost predicate Reaches(s: System, z: System, clean: bool)
    requires s.cfg.Valid()
  {
    exists steps :: Leads(s, steps, z, clean)
  }

  predicate Leads(s: System, steps: seq<Step>, z: System, clean: bool)
    requires s.cfg.Valid()
  {
    Runs(s, steps) && After(s, steps) == z && (clean ==> CleanRun(s, steps))
  }

  lemma Here(s: System, clean: bool)
    requires s.cfg.Valid()
    ensures Reaches(s, s, clean)
  {
    assert Leads(s, [], s, clean);
  }

  lemma LeadsBy(s: System, step: Step, s': System, rest: seq<Step>, z: System, clean: bool)
    requires s.cfg.Valid() && Enabled(s, step) && s' == Apply(s, step) && s'.cfg == s.cfg
    requires (clean && step.Start? ==> !Stale(s)) && Leads(s', rest, z, clean)
    ensures Leads(s, [step] + rest, z, clean)
  {
    OneStep(s, step, rest);
    assert ([step] + rest)[1..] == rest;
  }

  /** One step, and on from there. */
  lemma By(s: System, step: Step, s': System, z: System, clean: bool)
    requires s.cfg.Valid() && Enabled(s, step) && s' == Apply(s, step) && s'.cfg == s.cfg
    requires (clean && step.Start? ==> !Stale(s)) && Reaches(s', z, clean)
    ensures Reaches(s, z, clean)
  {
    var rest :| Leads(s', rest, z, clean);
    LeadsBy(s, step, s', rest, z, clean);
  }

  lemma {:induction false} LeadsOn(s: System, steps: seq<Step>, m: System, z: System, clean: bool)
    requires s.cfg.Valid() && Leads(s, steps, m, clean) && m.cfg == s.cfg && Reaches(m, z, clean)
    ensures Reaches(s, z, clean)
    decreases steps
  {
    if steps != [] {
      var s' := Apply(s, steps[0]);
      assert s'.cfg == s.cfg;
      LeadsOn(s', steps[1..], m, z, clean);
      By(s, steps[0], s', z, clean);
    }
  }

  lemma Then(s: System, m: System, z: System, clean: bool)
    requires s.cfg.Valid() && m.cfg == s.cfg && Reaches(s, m, clean) && Reaches(m, z, clean)
    ensures Reaches(s, z, clean)
  {
    var steps :| Leads(s, steps, m, clean);
    LeadsOn(s, steps, m, z, clean);
  }

  lemma {:induction false} SignalsAreClean(s: System, steps: seq<Step>)
    requires s.cfg.Valid() && Runs(s, steps) && AllSignals(steps)
    ensures CleanRun(s, steps)
    decreases steps
  {
    if steps != [] {
      SignalsAreClean(Apply(s, steps[0]), steps[1..]);
    }
  }

  /** A signal that is about reaches the completion. */
  lemma SignalReaches(s: System, clean: bool) returns (z: System)
    requires s.cfg.Valid() && Stale(s)
    ensures Reaches(s, z, clean) && z.done > 0 && SameButSignals(s, z)
  {
    var steps := SignalArrives(s);
    SignalsAreClean(s, steps);
    z := After(s, steps);
    assert Leads(s, steps, z, clean);
  }

  // ---------------------------------------------------------------------
  // Pieces of runs
  // ---------------------------------------------------------------------

  /** A running transfer whose bytes lie in the memory and the buffer. */
  predicate Running(s: System, j: Job) {
    s.engine.job == Some(j) && j.moved <= j.count <= |s.buffer| && j.addr + j.count <= |s.mem|
  }

  /** Device memory and buffer once the running transfer has moved all its bytes. */
  function MemMoved(s: System, j: Job): seq<Byte>
    requires Running(s, j)
  {
    if j.toDevice then Patch(s.mem, j.addr + j.moved, s.buffer[j.moved..j.count]) else s.mem
  }

  function BufferMoved(s: System, j: Job): seq<Byte>
    requires Running(s, j)
  {
    if j.toDevice then s.buffer else Patch(s.buffer, j.moved, s.mem[j.addr + j.moved..j.addr + j.count])
  }

  function AllMoved(s: System, j: Job): System
    requires Running(s, j)
  {
    Advanced(s, j, j.count, MemMoved(s, j), BufferMoved(s, j))
  }

  function Advanced(s: System, j: Job, moved: nat, mem: seq<Byte>, buffer: seq<Byte>): System {
    s.(engine := s.engine.(job := Some(j.(moved := moved))), mem := mem, buffer := buffer)
  }

  lemma PatchFirst(m: seq<Byte>, a: nat, d: seq<Byte>)
    requires d != [] && a + |d| <= |m|
    ensures Patch(m[a := d[0]], a + 1, d[1..]) == Patch(m, a, d)
  {
  }

  lemma FirstOut(s: System, j: Job)
    requires j.moved < j.count <= |s.buffer| && j.addr + j.count <= |s.mem|
    ensures Patch(s.mem[j.addr + j.moved := s.buffer[j.moved]], j.addr + j.moved + 1, s.buffer[j.moved + 1..j.count])
            == Patch(s.mem, j.addr + j.moved, s.buffer[j.moved..j.count])
  {
    var d := s.buffer[j.moved..j.count];
    PatchFirst(s.mem, j.addr + j.moved, d);
    assert d[1..] == s.buffer[j.moved + 1..j.count];
  }

  lemma FirstIn(s: System, j: Job)
    requires j.moved < j.count <= |s.buffer| && j.addr + j.count <= |s.mem|
    ensures Patch(s.buffer[j.moved := s.mem[j.addr + j.moved]], j.moved + 1, s.mem[j.addr + j.moved + 1..j.addr + j.count])
            == Patch(s.buffer, j.moved, s.mem[j.addr + j.moved..j.addr + j.count])
  {
    var d := s.mem[j.addr + j.moved..j.addr + j.count];
    PatchFirst(s.buffer, j.moved, d);
    assert d[1..] == s.mem[j.addr + j.moved + 1..j.addr + j.count];
  }

  lemma MoveIs(s: System, j: Job)
    requires s.cfg.Valid() && Running(s, j) && j.moved < j.count
    ensures Enabled(s, Move)
    ensures Apply(s, Move) == Advanced(s, j, j.moved + 1,
                                  if j.toDevice then s.mem[j.addr + j.moved := s.buffer[j.moved]] else s.mem,
                                  if j.toDevice then s.buffer else s.buffer[j.moved := s.mem[j.addr + j.moved]])
  {
  }

  lemma MovedFirstOut(s: System, j: Job, s': System, j': Job)
    requires Running(s, j) && j.moved < j.count && j' == j.(moved := j.moved + 1) && j.toDevice
    requires s' == Advanced(s, j, j.moved + 1, s.mem[j.addr + j.moved := s.buffer[j.moved]], s.buffer)
    ensures Running(s', j') && MemMoved(s', j') == MemMoved(s, j) && BufferMoved(s', j') == BufferMoved(s, j)
  {
    FirstOut(s, j);
  }

  lemma MovedFirstIn(s: System, j: Job, s': System, j': Job)
    requires Running(s, j) && j.moved < j.count && j' == j.(moved := j.moved + 1) && !j.toDevice
    requires s' == Advanced(s, j, j.moved + 1, s.mem, s.buffer[j.moved := s.mem[j.addr + j.moved]])
    ensures Running(s', j') && MemMoved(s', j') == MemMoved(s, j) && BufferMoved(s', j') == BufferMoved(s, j)
  {
    FirstIn(s, j);
  }

  lemma MovedFirst(s: System, j: Job, s': System, j': Job)
    requires s.cfg.Valid() && Running(s, j) && j.moved < j.count && j' == j.(moved := j.moved + 1)
    requires Enabled(s, Move) && s' == Apply(s, Move)
    ensures Running(s', j') && AllMoved(s', j') == AllMoved(s, j)
  {
    MoveIs(s, j);
    if j.toDevice {
      MovedFirstOut(s, j, s', j');
    } else {
      MovedFirstIn(s, j, s', j');
    }
  }

  lemma {:induction false} MovesAll(s: System, j: Job, clean: bool)
    requires s.cfg.Valid() && Running(s, j)
    ensures Reaches(s, AllMoved(s, j), clean)
    decreases j.count - j.moved
  {
    if j.moved == j.count {
      PatchNothing(s.mem, j.addr + j.moved, s.buffer[j.moved..j.count]);
      PatchNothing(s.buffer, j.moved, s.mem[j.addr + j.moved..j.addr + j.count]);
      Here(s, clean);
    } else {
      MoveIs(s, j);
      MovedFirst(s, j, Apply(s, Move), j.(moved := j.moved + 1));
      MovesAll(Apply(s, Move), j.(moved := j.moved + 1), clean);
      By(s, Move, Apply(s, Move), AllMoved(s, j), clean);
    }
  }

  /** From `s` to `z` only the stage of `u`, the engine and signals have changed. */
  predicate Staged(s: System, z: System, u: Tid, pc: Pc)
    requires u in s.threads
  {
    && z == s.(threads := z.threads, engine := z.engine, done := z.done, tally := z.tally, isr := z.isr, latched := z.latched)
    && z.threads == s.threads[u := s.threads[u].(pc := pc)]
  }

  const IDLE_ENGINE := Engine(None, false, false, true)

  lemma GotoTwice(s: System, u: Tid, a: Pc, b: Pc)
    requires u in s.threads
    ensures s.threads[u := s.threads[u].(pc := a)][u := s.threads[u].(pc := a).(pc := b)] == s.threads[u := s.threads[u].(pc := b)]
  {
  }

  lemma FromNeedReset(s: System, u: Tid, req: Req, clean: bool) returns (z: System)
    requires s.cfg.Valid() && u in s.threads && s.threads[u].pc == NeedReset(req)
    ensures Reaches(s, z, clean) && Staged(s, z, u, Program(req))
    ensures z.engine == IDLE_ENGINE && z.done == s.done && z.isr == s.isr && z.latched == s.latched
  {
    z := Apply(s, Reset(u, true));
    Here(z, clean);
    By(s, Reset(u, true), z, z, clean);
  }

  lemma FromArmed(s: System, u: Tid, req: Req, clean: bool) returns (z: System)
    requires s.cfg.Valid() && u in s.threads && s.threads[u].pc == Armed(req)
    ensures Reaches(s, z, clean) && Staged(s, z, u, Program(req))
    ensures z.engine == (if s.engine.err || s.engine.job.Some? then IDLE_ENGINE else s.engine)
    ensures z.done == s.done && z.isr == s.isr && z.latched == s.latched
  {
    var s1 := Apply(s, ReadStatus(u));
    if s.engine.err || s.engine.job.Some? {
      z := FromNeedReset(s1, u, req, clean);
      GotoTwice(s, u, NeedReset(req), Program(req));
    } else {
      z := s1;
      Here(z, clean);
    }
    By(s, ReadStatus(u), s1, z, clean);
  }

  /** From the lock, or from the copy, to the point where the transfer is started. */
  lemma FromLock(s: System, u: Tid, req: Req, clean: bool) returns (z: System)
    requires s.cfg.Valid() && u in s.threads && Aligned(s.cfg, req.addr, req.count)
    requires s.threads[u].pc == Copied(req) || (s.threads[u].pc == Locked(req) && req.op.ReadOp?)
    ensures Reaches(s, z, clean) && Staged(s, z, u, Program(req))
    ensures z.engine == (if s.engine.err || s.engine.job.Some? then IDLE_ENGINE else s.engine)
    ensures z.done == 0 && z.isr == s.isr && z.latched == s.latched
  {
    var s1 := Apply(s, Reinit(u));
    z := FromArmed(s1, u, req, clean);
    GotoTwice(s, u, Armed(req), Program(req));
    By(s, Reinit(u), s1, z, clean);
  }

  predicate Fits(s: System, req: Req) {
    req.addr + req.count <= |s.mem| && req.count <= |s.buffer|
  }

  function MemAfter(s: System, req: Req): seq<Byte>
    requires Fits(s, req)
  {
    if req.op.WriteOp? then Patch(s.mem, req.addr, s.buffer[..req.count]) else s.mem
  }

  function BufferAfter(s: System, req: Req): seq<Byte>
    requires Fits(s, req)
  {
    if req.op.WriteOp? then s.buffer else Patch(s.buffer, 0, s.mem[req.addr..req.addr + req.count])
  }

  function JobOf(u: Tid, req: Req): Job {
    Job(u, req.op.WriteOp?, req.addr, req.count, 0)
  }

  lemma Started(s: System, u: Tid, req: Req, s1: System)
    requires s.cfg.Valid() && u in s.threads && s.threads[u].pc == Program(req) && Fits(s, req) && s1 == Apply(s, Start(u))
    ensures Running(s1, JobOf(u, req)) && Staged(s, s1, u, Waiting(req))
    ensures s1.engine == s.engine.(job := Some(JobOf(u, req))) && s1.done == s.done && s1.isr == s.isr && s1.latched == s.latched
  {
  }

  lemma MovedAll(s: System, u: Tid, req: Req, s1: System, s2: System)
    requires u in s.threads && Fits(s, req) && Staged(s, s1, u, Waiting(req))
    requires Running(s1, JobOf(u, req)) && s2 == AllMoved(s1, JobOf(u, req))
    ensures s2 == s1.(mem := MemAfter(s, req), buffer := BufferAfter(s, req), engine := s1.engine.(job := s2.engine.job))
    ensures s2.engine.job == Some(JobOf(u, req).(moved := req.count))
  {
    assert s.buffer[0..req.count] == s.buffer[..req.count];
  }

  /** A started transfer moves all its bytes and ends well. */
  lemma Transfers(s: System, u: Tid, req: Req, clean: bool) returns (z: System)
    requires s.cfg.Valid() && u in s.threads && s.threads[u].pc == Program(req) && Fits(s, req)
    requires s.engine.job.None? && !s.engine.err && (clean ==> !Stale(s))
    ensures Reaches(s, z, clean) && Staged(s, z.(mem := s.mem, buffer := s.buffer), u, Waiting(req))
    ensures z.mem == MemAfter(s, req) && z.buffer == BufferAfter(s, req)
    ensures z.engine == Engine(None, true, false, s.engine.irqEn) && z.done == s.done && z.isr == s.isr && z.latched == s.latched
  {
    var s1 := Apply(s, Start(u));
    Started(s, u, req, s1);
    MovesAll(s1, JobOf(u, req), clean);
    var s2 := AllMoved(s1, JobOf(u, req));
    MovedAll(s, u, req, s1, s2);
    z := FinishedFrom(s2, clean);
    Then(s1, s2, z, clean);
    By(s, Start(u), s1, z, clean);
  }

  lemma FinishedFrom(s: System, clean: bool) returns (z: System)
    requires s.cfg.Valid() && s.engine.job.Some? && s.engine.job.value.moved == s.engine.job.value.count
    ensures Reaches(s, z, clean) && z == s.(engine := s.engine.(job := None, irq := true), tally := z.tally)
  {
    z := Apply(s, Finish);
    Here(z, clean);
    By(s, Finish, z, z, clean);
  }

  /** A wait with a signal about ends. */
  lemma Wakes(s: System, u: Tid, req: Req, clean: bool) returns (z: System)
    requires s.cfg.Valid() && u in s.threads && s.threads[u].pc == Waiting(req) && Stale(s)
    ensures Reaches(s, z, clean) && Staged(s, z, u, Woken(req))
    ensures z.engine.err == s.engine.err
  {
    var s1 := SignalReaches(s, clean);
    z := Apply(s1, Wake(u));
    Here(z, clean);
    By(s1, Wake(u), z, z, clean);
    Then(s, s1, z, clean);
  }

  /** A woken write answers. */
  lemma WriteAnswers(s: System, u: Tid, req: Req, clean: bool) returns (z: System)
    requires s.cfg.Valid() && u in s.threads && s.threads[u].pc == Woken(req) && req.op.WriteOp? && !s.engine.err
    ensures Reaches(s, z, clean) && Staged(s, z, u, Leaving(req, Done(req.count, [])))
  {
    z := Apply(s, CheckStatus(u));
    Here(z, clean);
    By(s, CheckStatus(u), z, z, clean);
  }

  /** A woken read answers with what is in the buffer. */
  lemma ReadAnswers(s: System, u: Tid, req: Req, n: nat, clean: bool) returns (z: System)
    requires s.cfg.Valid() && u in s.threads && s.threads[u].pc == Woken(req) && req.op.ReadOp? && !s.engine.err
    requires 0 < n <= Offered(req) && req.inOffset + n <= |s.buffer|
    ensures Reaches(s, z, clean) && Staged(s, z, u, Leaving(req, Done(n, s.buffer[req.inOffset..req.inOffset + n])))
  {
    var s1 := Apply(s, CheckStatus(u));
    z := Apply(s1, CopyOut(u, n));
    GotoTwice(s, u, Transferred(req), z.threads[u].pc);
    Here(z, clean);
    By(s1, CopyOut(u, n), z, z, clean);
    By(s, CheckStatus(u), s1, z, clean);
  }
}
