/**
 The DMA file device as interleaved steps: any number of open handles reading
 and writing through one engine and one bounce buffer, the mutex, the engine
 moving bytes one at a time, the interrupt controller and the interrupt
 handler. A step is one access to shared state by one of them.
 */
module DmaSystem {
  import opened Wrappers
  import opened Errno
  import opened Bits
  import opened DmaWindow

  type Tid = nat

  // ---------------------------------------------------------------------
  // State
  // ---------------------------------------------------------------------

  /** A system call on a handle: what to read, or the user's bytes to write. */
  datatype Op = ReadOp(want: nat) | WriteOp(bytes: seq<Byte>)

  /** A call past its checks: where it transfers, how much, and what it copied in. */
  datatype Req = Req(op: Op, addr: nat, count: nat, inOffset: nat, copied: nat)

  datatype Result = Done(n: nat, data: seq<Byte>) | Failed(code: int)

  /** Where a handle's call stands; from `Locked` to `Leaving` it holds the mutex. */
  datatype Pc =
    | Idle
    | WantLock(req: Req)
    | Locked(req: Req)
    | Copied(req: Req)                  // user bytes are in the buffer
    | Armed(req: Req)                   // completion reinitialised, request aligned
    | NeedReset(req: Req)
    | Program(req: Req)                 // about to write the registers
    | Waiting(req: Req)
    | Woken(req: Req)                   // about to check the status register
    | Transferred(req: Req)             // about to copy to the user
    | Leaving(req: Req, result: Result) // about to unlock

  datatype Thread = Thread(window: Window, pos: nat, pc: Pc)

  /** A running transfer between device memory at `addr` and the buffer. */
  datatype Job = Job(owner: Tid, toDevice: bool, addr: nat, count: nat, moved: nat)

  /** The engine: idle without a job; `irq` and `err` are its status bits. */
  datatype Engine = Engine(job: Option<Job>, irq: bool, err: bool, irqEn: bool)

  /** The interrupt handler, between its register accesses. */
  datatype Isr =
    | IsrIdle
    | Seen(dma: bool)                   // has read the controller's status
    | GotStatus(irq: bool)              // has read the engine's status
    | Cleared                           // has written it back
    | Acking                            // has called complete

  /** History: transfers started, ended, and calls of complete. */
  datatype Tally = Tally(started: nat, ended: nat, completed: nat)

  datatype System = System(
    cfg: DmaConfig,
    mem: seq<Byte>,
    buffer: seq<Byte>,
    engine: Engine,
    latched: bool,          // DMA bit of the interrupt controller
    isr: Isr,
    done: nat,              // the completion
    mutex: Option<Tid>,
    threads: map<Tid, Thread>,
    committed: seq<Byte>,   // history: device memory at the last unlock
    tally: Tally)

  datatype Step =
    | Call(t: Tid, op: Op)
    | Acquire(t: Tid)
    | CopyIn(t: Tid, n: nat)
    | Reinit(t: Tid)
    | ReadStatus(t: Tid)
    | Reset(t: Tid, ok: bool)
    | Start(t: Tid)
    | Wake(t: Tid)
    | Kill(t: Tid)
    | CheckStatus(t: Tid)
    | CopyOut(t: Tid, n: nat)
    | Unlock(t: Tid)
    | Move
    | Finish
    | Break
    | Latch
    | IsrEnter
    | IsrStatus
    | IsrClear
    | IsrComplete
    | IsrAck

  predicate Holding(pc: Pc) {
    !pc.Idle? && !pc.WantLock?
  }

  predicate At(s: System, t: Tid) {
    t in s.threads
  }

  function PcOf(s: System, t: Tid): Pc
    requires At(s, t)
  {
    s.threads[t].pc
  }

  function Goto(s: System, t: Tid, pc: Pc): System
    requires At(s, t)
  {
    s.(threads := s.threads[t := s.threads[t].(pc := pc)])
  }

  /** `m` with `d` written at `a`. */
  function Patch(m: seq<Byte>, a: nat, d: seq<Byte>): (r: seq<Byte>)
    requires a + |d| <= |m|
    ensures |r| == |m|
  {
    m[..a] + d + m[a + |d|..]
  }

  // ---------------------------------------------------------------------
  // Steps
  // ---------------------------------------------------------------------

  /** The checks at the top of the read and write calls; `None` returns at once. */
  function Admit(c: DmaConfig, th: Thread, op: Op): Option<Req>
    requires c.Valid() && th.window.Valid() && (op.ReadOp? ==> op.want < WORD64 / 2)
  {
    var w := th.window;
    match op
    case ReadOp(want) =>
      (match PlanRead(c, w, th.pos, want)
       case Transfer(inOffset, addr, n) => Some(Req(op, addr, Clipped(c, n), inOffset, 0))
       case _ => None)
    case WriteOp(bytes) =>
      if th.pos >= w.length || |bytes| > w.length - th.pos || |bytes| > c.BufferSize() then None
      else Some(Req(op, w.base + th.pos, Clipped(c, |bytes|), 0, 0))
  }

  /** The count actually programmed. */
  function Clipped(c: DmaConfig, n: nat): nat
    requires c.Valid()
  {
    AlignmentFits(c);
    TransferCount(c, n)
  }

  /** The alignment test of `configure_dma_engine`. */
  predicate Aligned(c: DmaConfig, addr: nat, n: nat) {
    IsAligned(addr, c.Alignment()) && IsAligned(c.bufferDma, c.Alignment()) && IsAligned(n, c.Alignment())
  }

  /** What passes the test, in plain arithmetic. */
  predicate InBlocks(c: DmaConfig, addr: nat, n: nat) {
    addr % c.Alignment() == 0 && c.bufferDma % c.Alignment() == 0 && n % c.Alignment() == 0
  }

  lemma AlignedMeaning(c: DmaConfig, addr: nat, n: nat)
    ensures Aligned(c, addr, n) <==> InBlocks(c, addr, n)
  {
    IsAlignedMeaning(addr, c.shift);
    IsAlignedMeaning(c.bufferDma, c.shift);
    IsAlignedMeaning(n, c.shift);
  }

  lemma ClippedMeaning(c: DmaConfig, n: nat)
    requires c.Valid()
    ensures Clipped(c, n) == Min(n, Largest(c)) && (n > 0 ==> Clipped(c, n) > 0)
  {
    MaxTransferMeaning(c);
  }

  /**
   A call goes on to the lock exactly when the file device does not refuse it:
   a read below the window's last whole block that asks for something or stands
   inside a block, a write that fits the rest of the window and the buffer. Its
   request is the range of whole blocks around the bytes, or just the bytes.
   */
  lemma AdmitReadExactly(c: DmaConfig, th: Thread, want: nat)
    requires c.Valid() && th.window.Valid() && want < WORD64 / 2
    ensures var a, w, pos := c.Alignment(), th.window, th.pos;
            Admit(c, th, ReadOp(want)) ==
              if Down(w.length, a) <= pos || (want == 0 && pos % a == 0) then None
              else Some(Req(ReadOp(want), w.base + Down(pos, a),
                            Min(Min(Up(pos + want, a), Down(w.length, a)) - Down(pos, a), Largest(c)), pos - Down(pos, a), 0))
  {
    var p := PlanRead(c, th.window, th.pos, want);
    PlanReadExactly(c, th.window, th.pos, want, p);
    AdmitPlan(c, th, want, p);
    if p.Transfer? {
      ClippedMeaning(c, p.count);
    }
  }

  lemma AdmitPlan(c: DmaConfig, th: Thread, want: nat, p: ReadPlan)
    requires c.Valid() && th.window.Valid() && want < WORD64 / 2 && p == PlanRead(c, th.window, th.pos, want)
    ensures Admit(c, th, ReadOp(want)) ==
            if p.Transfer? then Some(Req(ReadOp(want), p.addr, Clipped(c, p.count), p.inOffset, 0)) else None
  {
  }

  lemma AdmitWriteExactly(c: DmaConfig, th: Thread, bytes: seq<Byte>)
    requires c.Valid() && th.window.Valid()
    ensures var w, pos := th.window, th.pos;
            Admit(c, th, WriteOp(bytes)) ==
              if w.length <= pos || |bytes| > w.length - pos || |bytes| > c.BufferSize() then None
              else Some(Req(WriteOp(bytes), w.base + pos, Min(|bytes|, Largest(c)), 0, 0))
  {
    ClippedMeaning(c, |bytes|);
  }

  /** Bytes a finished read may hand to the user. */
  function Offered(req: Req): int
    requires req.op.ReadOp?
  {
    Min(req.op.want, req.count - req.inOffset)
  }

  predicate Enabled(s: System, step: Step)
    requires s.cfg.Valid()
  {
    match step
    case Call(t, op) => At(s, t) && PcOf(s, t).Idle? && s.threads[t].window.Valid() && (op.ReadOp? ==> op.want < WORD64 / 2)
    case Acquire(t) => At(s, t) && PcOf(s, t).WantLock? && s.mutex.None?
    case CopyIn(t, n) =>
      && At(s, t) && PcOf(s, t).Locked? && PcOf(s, t).req.op.WriteOp?
      && n <= |PcOf(s, t).req.op.bytes| <= |s.buffer|
    case Reinit(t) => At(s, t) && ((PcOf(s, t).Locked? && PcOf(s, t).req.op.ReadOp?) || PcOf(s, t).Copied?)
    case ReadStatus(t) => At(s, t) && PcOf(s, t).Armed?
    case Reset(t, _) => At(s, t) && PcOf(s, t).NeedReset?
    case Start(t) => At(s, t) && PcOf(s, t).Program?
    case Wake(t) => At(s, t) && PcOf(s, t).Waiting? && s.done > 0
    case Kill(t) => At(s, t) && PcOf(s, t).Waiting? && s.done == 0
    case CheckStatus(t) => At(s, t) && PcOf(s, t).Woken?
    case CopyOut(t, n) =>
      && At(s, t) && PcOf(s, t).Transferred? && PcOf(s, t).req.op.ReadOp?
      && n <= Offered(PcOf(s, t).req) && PcOf(s, t).req.inOffset + n <= |s.buffer|
    case Unlock(t) => At(s, t) && PcOf(s, t).Leaving?
    case Move =>
      && s.engine.job.Some? && s.engine.job.value.moved < s.engine.job.value.count
      && s.engine.job.value.addr + s.engine.job.value.moved < |s.mem| && s.engine.job.value.moved < |s.buffer|
    case Finish => s.engine.job.Some? && s.engine.job.value.moved == s.engine.job.value.count
    case Break => s.engine.job.Some?
    case Latch => s.engine.irq && s.engine.irqEn
    case IsrEnter => s.isr.IsrIdle?
    case IsrStatus => s.isr == Seen(true)
    case IsrClear => s.isr.GotStatus?
    case IsrComplete => s.isr.Cleared?
    case IsrAck => s.isr.Acking? || s.isr == Seen(false)
  }

  function Apply(s: System, step: Step): System
    requires s.cfg.Valid() && Enabled(s, step)
  {
    match step
    case Call(t, op) =>
      (match Admit(s.cfg, s.threads[t], op)
       case Some(req) => Goto(s, t, WantLock(req))
       case None => s)
    case Acquire(t) => Goto(s, t, Locked(PcOf(s, t).req)).(mutex := Some(t))
    case CopyIn(t, n) =>
      var req := PcOf(s, t).req;
      Goto(s, t, if n == 0 then Leaving(req, Failed(EFAULT)) else Copied(req.(copied := n)))
      .(buffer := req.op.bytes[..n] + s.buffer[n..])
    case Reinit(t) =>
      var req := PcOf(s, t).req;
      Goto(s, t, if Aligned(s.cfg, req.addr, req.count) then Armed(req) else Leaving(req, Failed(EINVAL))).(done := 0)
    case ReadStatus(t) =>
      var req := PcOf(s, t).req;
      Goto(s, t, if s.engine.err || s.engine.job.Some? then NeedReset(req) else Program(req))
    case Reset(t, ok) =>
      var req := PcOf(s, t).req;
      if ok then Goto(s, t, Program(req)).(engine := Engine(None, false, false, true))
      else Goto(s, t, Leaving(req, Failed(EIO))).(engine := s.engine.(irqEn := false))
    case Start(t) =>
      var req := PcOf(s, t).req;
      Goto(s, t, Waiting(req)).(
        engine := s.engine.(job := Some(Job(t, req.op.WriteOp?, req.addr, req.count, 0))),
        tally := s.tally.(started := s.tally.started + 1))
    case Wake(t) => Goto(s, t, Woken(PcOf(s, t).req)).(done := s.done - 1)
    case Kill(t) => Goto(s, t, Leaving(PcOf(s, t).req, Failed(ERESTARTSYS)))
    case CheckStatus(t) =>
      var req := PcOf(s, t).req;
      Goto(s, t, if s.engine.err then Leaving(req, Failed(EIO))
                 else if req.op.WriteOp? then Leaving(req, Done(req.count, []))
                 else Transferred(req))
    case CopyOut(t, n) =>
      var req := PcOf(s, t).req;
      Goto(s, t, Leaving(req, if n == 0 then Failed(EFAULT) else Done(n, s.buffer[req.inOffset..req.inOffset + n])))
    case Unlock(t) =>
      var th := s.threads[t];
      var pos := if th.pc.result.Done? then Advance(th.window, th.pos, th.pc.result.n) else th.pos;
      s.(threads := s.threads[t := th.(pos := pos, pc := Idle)], mutex := None, committed := s.mem)
    case Move =>
      var j := s.engine.job.value;
      var moved := s.(engine := s.engine.(job := Some(j.(moved := j.moved + 1))));
      if j.toDevice then moved.(mem := s.mem[j.addr + j.moved := s.buffer[j.moved]])
      else moved.(buffer := s.buffer[j.moved := s.mem[j.addr + j.moved]])
    case Finish => Ended(s, false)
    case Break => Ended(s, true)
    case Latch => s.(latched := true)
    case IsrEnter => s.(isr := Seen(s.latched))
    case IsrStatus => s.(isr := GotStatus(s.engine.irq))
    case IsrClear => s.(isr := Cleared, engine := s.engine.(irq := s.engine.irq && !s.isr.irq))
    case IsrComplete =>
      s.(isr := Acking, done := s.done + 1, tally := s.tally.(completed := s.tally.completed + 1))
    case IsrAck => s.(isr := IsrIdle, latched := s.latched && !s.isr.Acking?)
  }

  /** A transfer ends: idle again, interrupt status set, error bits set if it failed. */
  function Ended(s: System, error: bool): System
    requires s.engine.job.Some?
  {
    s.(engine := s.engine.(job := None, irq := true, err := s.engine.err || error),
       tally := s.tally.(ended := s.tally.ended + 1))
  }

  // ---------------------------------------------------------------------
  // Runs
  // ---------------------------------------------------------------------

  /** Every step of the run is possible where it is taken. */
  predicate Runs(s: System, steps: seq<Step>)
    requires s.cfg.Valid()
    decreases steps
  {
    steps == [] || (Enabled(s, steps[0]) && Runs(Apply(s, steps[0]), steps[1..]))
  }

  function After(s: System, steps: seq<Step>): (r: System)
    requires s.cfg.Valid() && Runs(s, steps)
    ensures r.cfg == s.cfg
    decreases steps
  {
    if steps == [] then s else After(Apply(s, steps[0]), steps[1..])
  }

  predicate KillFree(steps: seq<Step>) {
    forall i :: 0 <= i < |steps| ==> !steps[i].Kill?
  }

  /** Handles on windows of the device memory, everything at rest. */
  predicate Init(s: System) {
    && s.cfg.Valid() && |s.buffer| == s.cfg.BufferSize() && s.committed == s.mem
    && s.engine == Engine(None, false, false, true) && !s.latched && s.isr.IsrIdle?
    && s.done == 0 && s.mutex.None? && s.tally == Tally(0, 0, 0)
    && forall t :: t in s.threads ==>
         && s.threads[t].pc.Idle? && s.threads[t].window.Valid()
         && s.threads[t].window.base + s.threads[t].window.length <= |s.mem|
  }

  // ---------------------------------------------------------------------
  // What holds in every run, killed waits included
  // ---------------------------------------------------------------------

  /** A request that was planned for its handle: inside the window and the buffer. */
  predicate Planned(s: System, th: Thread, req: Req)
    requires s.cfg.Valid()
  {
    && th.pos < th.window.length && req.inOffset <= req.count <= |s.buffer|
    && th.window.base <= req.addr && req.addr + req.count <= th.window.base + th.window.length <= |s.mem|
    && req.addr + req.inOffset == th.window.base + th.pos
    && req.count <= MAX_DMA_TRANSFER
    && (req.op.ReadOp? ==> req.count % s.cfg.Alignment() == 0 && req.inOffset < req.count)
    && (req.op.WriteOp? ==>
          && req.inOffset == 0 && req.copied <= |req.op.bytes| && req.count <= |req.op.bytes| <= |s.buffer|
          && (req.op.bytes != [] ==> req.count > 0))
  }

  predicate ThreadOk(s: System, t: Tid)
    requires s.cfg.Valid() && At(s, t)
  {
    var th := s.threads[t];
    && th.window.Valid() && th.window.base + th.window.length <= |s.mem|
    && (Holding(th.pc) <==> s.mutex == Some(t))
    && (!th.pc.Idle? ==> Planned(s, th, th.pc.req))
    && (th.pc.Program? || th.pc.Armed? || th.pc.NeedReset? || th.pc.Waiting? ==> Aligned(s.cfg, th.pc.req.addr, th.pc.req.count))
    && (th.pc.Program? ==> s.engine.job.None? && !s.engine.err)
    && (th.pc.Transferred? ==> th.pc.req.op.ReadOp?)
  }

  ghost predicate Inv(s: System) {
    && s.cfg.Valid() && |s.buffer| == s.cfg.BufferSize() && |s.committed| == |s.mem|
    && (s.mutex.Some? ==> s.mutex.value in s.threads)
    && forall t :: t in s.threads ==> ThreadOk(s, t)
  }

  lemma InitInv(s: System)
    requires Init(s)
    ensures Inv(s)
  {
  }

  lemma AdmitPlanned(s: System, t: Tid, op: Op)
    requires Inv(s) && Enabled(s, Call(t, op)) && Admit(s.cfg, s.threads[t], op).Some?
    ensures Planned(s, s.threads[t], Admit(s.cfg, s.threads[t], op).value)
  {
    var th := s.threads[t];
    assert ThreadOk(s, t);
    MaxTransferMeaning(s.cfg);
    if op.ReadOp? {
      ReadTransfer(s.cfg, th.window, th.pos, op.want);
    }
  }

  predicate IsHardware(step: Step) {
    step.Move? || step.Finish? || step.Break? || step.Latch? || IsIsr(step)
  }

  predicate IsIsr(step: Step) {
    step.IsrEnter? || step.IsrStatus? || step.IsrClear? || step.IsrComplete? || step.IsrAck?
  }

  /** Hardware leaves the threads and the mutex alone. */
  lemma HardwareFrame(s: System, step: Step)
    requires s.cfg.Valid() && IsHardware(step) && Enabled(s, step)
    ensures var s' := Apply(s, step);
            && s'.cfg == s.cfg && s'.threads == s.threads && s'.mutex == s.mutex && s'.committed == s.committed
            && |s'.mem| == |s.mem| && |s'.buffer| == |s.buffer|
            && (s.engine.job.None? && !s.engine.err ==> s'.engine.job.None? && !s'.engine.err)
  {
  }

  /** A thread's step leaves the other threads alone and needs the mutex beyond `Acquire`. */
  lemma ThreadFrame(s: System, step: Step)
    requires Inv(s) && !IsHardware(step) && Enabled(s, step)
    ensures var s' := Apply(s, step);
            && s'.cfg == s.cfg && |s'.mem| == |s.mem| && |s'.buffer| == |s.buffer| && |s'.committed| == |s.mem|
            && step.t in s.threads && s'.threads.Keys == s.threads.Keys
            && (forall u :: u in s.threads && u != step.t ==> s'.threads[u] == s.threads[u])
            && (step.Call? ==> s'.mutex == s.mutex && s'.engine == s.engine)
            && (step.Acquire? ==> s.mutex.None? && s'.mutex == Some(step.t) && s'.engine == s.engine)
            && (step.Unlock? ==> s.mutex == Some(step.t) && s'.mutex.None? && s'.engine == s.engine)
            && (!step.Call? && !step.Acquire? && !step.Unlock? ==> s.mutex == Some(step.t) == s'.mutex)
  {
    assert ThreadOk(s, step.t);
  }

  /** While one thread holds the mutex the others can only enter a call. */
  lemma OthersOnlyCall(s: System, step: Step)
    requires Inv(s) && !IsHardware(step) && Enabled(s, step) && s.mutex.Some? && s.mutex != Some(step.t)
    ensures step.Call?
    ensures var s' := Apply(s, step); s' == s.(threads := s'.threads) && s'.threads[s.mutex.value] == s.threads[s.mutex.value]
  {
    ThreadFrame(s, step);
  }

  lemma CallStep(s: System, t: Tid, op: Op)
    requires Inv(s) && Enabled(s, Call(t, op))
    ensures t in Apply(s, Call(t, op)).threads && ThreadOk(Apply(s, Call(t, op)), t)
  {
    assert ThreadOk(s, t);
    if Admit(s.cfg, s.threads[t], op).Some? {
      AdmitPlanned(s, t, op);
    }
  }

  lemma SetupStep(s: System, step: Step)
    requires Inv(s) && (step.Acquire? || step.CopyIn? || step.Reinit?) && Enabled(s, step)
    ensures step.t in Apply(s, step).threads && ThreadOk(Apply(s, step), step.t)
  {
    assert ThreadOk(s, step.t);
  }

  lemma EngineStep(s: System, step: Step)
    requires Inv(s) && (step.ReadStatus? || step.Start?) && Enabled(s, step)
    ensures step.t in Apply(s, step).threads && ThreadOk(Apply(s, step), step.t)
  {
    assert ThreadOk(s, step.t);
  }

  lemma ResetStep(s: System, t: Tid, ok: bool)
    requires Inv(s) && Enabled(s, Reset(t, ok))
    ensures t in Apply(s, Reset(t, ok)).threads && ThreadOk(Apply(s, Reset(t, ok)), t)
  {
    assert ThreadOk(s, t);
  }

  lemma LeaveStep(s: System, step: Step)
    requires Inv(s) && (step.Wake? || step.Kill? || step.CheckStatus? || step.CopyOut? || step.Unlock?)
    requires Enabled(s, step)
    ensures step.t in Apply(s, step).threads && ThreadOk(Apply(s, step), step.t)
  {
    assert ThreadOk(s, step.t);
  }

  lemma InvStep(s: System, step: Step)
    requires Inv(s) && Enabled(s, step)
    ensures Inv(Apply(s, step))
  {
    var s' := Apply(s, step);
    if IsHardware(step) {
      HardwareFrame(s, step);
      forall t | t in s'.threads
        ensures ThreadOk(s', t)
      {
        assert ThreadOk(s, t);
      }
    } else {
      ThreadFrame(s, step);
      if step.Call? {
        CallStep(s, step.t, step.op);
      } else if step.Acquire? || step.CopyIn? || step.Reinit? {
        SetupStep(s, step);
      } else if step.ReadStatus? || step.Start? {
        EngineStep(s, step);
      } else if step.Reset? {
        ResetStep(s, step.t, step.ok);
      } else {
        LeaveStep(s, step);
      }
      forall t | t in s'.threads
        ensures ThreadOk(s', t)
      {
        OtherThread(s, step, t);
      }
    }
  }

  lemma OtherThread(s: System, step: Step, t: Tid)
    requires Inv(s) && !IsHardware(step) && Enabled(s, step) && t in s.threads && t in Apply(s, step).threads
    requires ThreadOk(Apply(s, step), step.t)
    ensures ThreadOk(Apply(s, step), t)
  {
    if t != step.t {
      ThreadFrame(s, step);
      assert ThreadOk(s, t);
    }
  }

  lemma {:induction false} InvRun(s: System, steps: seq<Step>)
    requires Inv(s) && Runs(s, steps)
    ensures Inv(After(s, steps))
    decreases steps
  {
    if steps != [] {
      InvStep(s, steps[0]);
      InvRun(Apply(s, steps[0]), steps[1..]);
    }
  }

  /**
   In every run, killed waits included, a transfer is only ever started under
   the mutex, on an idle engine without error bits, with aligned addresses and
   count, within the byte-count register, the buffer and the handle's window.
   */
  lemma StartsAreExclusive(s0: System, steps: seq<Step>, t: Tid)
    requires Init(s0) && Runs(s0, steps) && Enabled(After(s0, steps), Start(t))
    ensures var s := After(s0, steps); var th := s.threads[t]; var req := th.pc.req; var a := s.cfg.Alignment();
            && s.mutex == Some(t) && s.engine.job.None? && !s.engine.err
            && req.addr % a == 0 && s.cfg.bufferDma % a == 0 && req.count % a == 0
            && req.count <= MAX_DMA_TRANSFER && req.count <= |s.buffer|
            && th.window.base <= req.addr && req.addr + req.count <= th.window.base + th.window.length
  {
    InitInv(s0);
    InvRun(s0, steps);
    var s := After(s0, steps);
    assert ThreadOk(s, t);
    IsAlignedMeaning(s.threads[t].pc.req.addr, s.cfg.shift);
    IsAlignedMeaning(s.threads[t].pc.req.count, s.cfg.shift);
    IsAlignedMeaning(s.cfg.bufferDma, s.cfg.shift);
  }
}
