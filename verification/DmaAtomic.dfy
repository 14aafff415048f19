/**
 What the bytes are worth at every stage of a call, in every run whose steps
 are sound: transfers start with no stale signal about, and a transfer left
 behind by a killed wait changes neither device memory nor bytes that a later
 write has copied in.
 */
module DmaAtomic {
  import opened Wrappers
  import opened Bits
  import opened DmaWindow
  import opened DmaSystem
  import opened DmaCompletion
  import opened AtomicMemory

  // ---------------------------------------------------------------------
  // Sound steps
  // ---------------------------------------------------------------------

  predicate HolderWaits(s: System) {
    s.mutex.Some? && s.mutex.value in s.threads && s.threads[s.mutex.value].pc.Waiting?
  }

  /** A transfer is running that nobody waits for. */
  predicate Orphan(s: System) {
    s.engine.job.Some? && !HolderWaits(s)
  }

  /** User bytes that the holder has put in the buffer and has yet to send. */
  function Unsent(s: System): nat {
    if s.mutex.Some? && s.mutex.value in s.threads then
      var pc := s.threads[s.mutex.value].pc;
      if !(pc.Copied? || pc.Armed? || pc.NeedReset?) || pc.req.op.ReadOp? then 0
      else if Aligned(s.cfg, pc.req.addr, pc.req.count) then Sent(pc.req)
      else 0
    else 0
  }

  /** How many of the bytes a write transfers are its user's. */
  function Sent(req: Req): (n: nat)
    ensures n <= req.count && n <= req.copied
  {
    Min(req.copied, req.count)
  }

  /** The next byte of an orphan would change device memory, or a byte that a write has copied in. */
  predicate Harmful(s: System)
    requires s.cfg.Valid() && Enabled(s, Move)
  {
    var j := s.engine.job.value;
    && Orphan(s) && s.mem[j.addr + j.moved] != s.buffer[j.moved]
    && (j.toDevice || j.moved < Unsent(s))
  }

  predicate Sound(s: System, step: Step)
    requires s.cfg.Valid() && Enabled(s, step)
  {
    (step.Start? ==> !Stale(s)) && (step.Move? ==> !Harmful(s))
  }

  predicate SoundRun(s: System, steps: seq<Step>)
    requires s.cfg.Valid() && Runs(s, steps)
    decreases steps
  {
    steps == [] || (Sound(s, steps[0]) && SoundRun(Apply(s, steps[0]), steps[1..]))
  }

  // ---------------------------------------------------------------------
  // The invariant of sound runs
  // ---------------------------------------------------------------------

  /** The bytes a request concerns: device memory now and before it, and the buffer. */
  datatype Data = Data(mem: seq<Byte>, before: seq<Byte>, buffer: seq<Byte>)

  function DataOf(s: System): Data {
    Data(s.mem, s.committed, s.buffer)
  }

  predicate Covers(d: Data, req: Req) {
    |d.mem| == |d.before| && req.addr + req.count <= |d.before| && req.count <= |d.buffer|
  }

  /** The first `k` bytes of the request have been moved. */
  ghost predicate Moved(d: Data, req: Req, k: nat)
    requires Covers(d, req)
  {
    && k <= req.count
    && d.mem == (if req.op.WriteOp? then Patch(d.before, req.addr, d.buffer[..k]) else d.before)
    && (req.op.ReadOp? ==> d.buffer[..k] == d.before[req.addr..req.addr + k])
  }

  /** What a failed request may have done. */
  ghost predicate Touched(d: Data, req: Req)
    requires Covers(d, req)
  {
    if req.op.ReadOp? then d.mem == d.before
    else exists x: seq<Byte> :: |x| <= req.count && d.mem == Patch(d.before, req.addr, x)
  }

  lemma MovedTouches(d: Data, req: Req, k: nat)
    requires Covers(d, req) && Moved(d, req, k)
    ensures Touched(d, req)
  {
    assert |d.buffer[..k]| == k;
  }

  lemma NothingTouched(d: Data, req: Req)
    requires Covers(d, req) && d.mem == d.before
    ensures Touched(d, req)
  {
    PatchNothing(d.before, req.addr, []);
  }

  /** The copied user bytes that the transfer will send are in the buffer. */
  predicate UserBytes(buffer: seq<Byte>, req: Req) {
    req.op.WriteOp? ==>
      && 0 < req.copied <= |req.op.bytes| && req.count <= |buffer|
      && buffer[..Sent(req)] == req.op.bytes[..Sent(req)]
  }

  /** A transfer that has ended: all of it moved, or with an error some part of it. */
  ghost predicate Over(d: Data, req: Req, err: bool)
    requires Covers(d, req)
  {
    if err then Touched(d, req) else Moved(d, req, req.count)
  }

  /** A waiter's transfer runs and nothing can end the wait, or has ended. */
  ghost predicate WaitOk(s: System, t: Tid, req: Req)
    requires Covers(DataOf(s), req)
  {
    match s.engine.job
    case None => Over(DataOf(s), req, s.engine.err)
    case Some(j) =>
      && j == Job(t, req.op.WriteOp?, req.addr, req.count, j.moved)
      && !s.engine.err && !Stale(s) && Moved(DataOf(s), req, j.moved)
  }

  /** The holder's request lies inside its window, the memory and the buffer. */
  predicate Ready(s: System, t: Tid) {
    && t in s.threads && Holding(s.threads[t].pc) && |s.committed| == |s.mem|
    && var th := s.threads[t]; var req := th.pc.req;
    && th.window.base + th.window.length <= |s.mem| && th.pos < th.window.length
    && req.inOffset <= req.count <= |s.buffer|
    && th.window.base <= req.addr && req.addr + req.count <= th.window.base + th.window.length
    && req.addr + req.inOffset == th.window.base + th.pos
    && (req.op.ReadOp? ==> req.count > 0)
    && (req.op.WriteOp? ==>
          && req.inOffset == 0 && req.copied <= |req.op.bytes| && req.count <= |req.op.bytes| <= |s.buffer|
          && (req.op.bytes != [] ==> req.count > 0))
  }

  ghost predicate HolderOk(s: System, t: Tid)
    requires Ready(s, t)
  {
    var th := s.threads[t];
    var req := th.pc.req;
    match th.pc
    case Waiting(_) => WaitOk(s, t, req) && UserBytes(s.buffer, req)
    case Woken(_) => s.engine.job.None? && Over(DataOf(s), req, s.engine.err) && UserBytes(s.buffer, req)
    case Transferred(_) => s.engine.job.None? && req.op.ReadOp? && Moved(DataOf(s), req, req.count)
    case Leaving(_, r) => Effect(s.committed, s.mem, th.window, th.pos, req.op, r, req.copied)
    case Locked(_) => s.mem == s.committed
    case Copied(_) => s.mem == s.committed && (Aligned(s.cfg, req.addr, req.count) ==> UserBytes(s.buffer, req))
    case _ => s.mem == s.committed && UserBytes(s.buffer, req)
  }

  lemma HolderReady(s: System, t: Tid)
    requires Inv(s) && s.mutex == Some(t)
    ensures Ready(s, t)
  {
    assert ThreadOk(s, t);
  }

  ghost predicate Steady(s: System) {
    && Inv(s)
    && match s.mutex
       case None => s.mem == s.committed
       case Some(t) => Ready(s, t) && HolderOk(s, t)
  }

  lemma InitSteady(s: System)
    requires Init(s)
    ensures Steady(s)
  {
    InitInv(s);
  }

  lemma HolderSuffices(s: System, t: Tid)
    requires Inv(s) && s.mutex == Some(t) && Ready(s, t) && HolderOk(s, t)
    ensures Steady(s)
  {
  }

  // ---------------------------------------------------------------------
  // The engine
  // ---------------------------------------------------------------------

  lemma PatchOneMore(m: seq<Byte>, a: nat, d: seq<Byte>, b: Byte)
    requires a + |d| < |m|
    ensures Patch(m, a, d)[a + |d| := b] == Patch(m, a, d + [b])
  {
  }

  /** One more byte written to the device. */
  lemma MoveOut(d: Data, req: Req, k: nat)
    requires Covers(d, req) && req.op.WriteOp? && Moved(d, req, k) && k < req.count
    ensures Moved(d.(mem := d.mem[req.addr + k := d.buffer[k]]), req, k + 1)
  {
    PatchOneMore(d.before, req.addr, d.buffer[..k], d.buffer[k]);
    assert d.buffer[..k + 1] == d.buffer[..k] + [d.buffer[k]];
  }

  /** One more byte read from the device. */
  lemma MoveIn(d: Data, req: Req, k: nat)
    requires Covers(d, req) && req.op.ReadOp? && Moved(d, req, k) && k < req.count
    ensures Moved(d.(buffer := d.buffer[k := d.mem[req.addr + k]]), req, k + 1)
  {
    var b := d.before[req.addr + k];
    assert d.buffer[k := b][..k + 1] == d.buffer[..k] + [b];
    assert d.before[req.addr..req.addr + (k + 1)] == d.before[req.addr..req.addr + k] + [b];
  }

  /** What one byte moved does to the bytes of the request. */
  function Shifted(d: Data, req: Req, k: nat): Data
    requires Covers(d, req) && k < req.count
  {
    if req.op.WriteOp? then d.(mem := d.mem[req.addr + k := d.buffer[k]])
    else d.(buffer := d.buffer[k := d.mem[req.addr + k]])
  }

  lemma MoveData(d: Data, req: Req, k: nat)
    requires Covers(d, req) && Moved(d, req, k) && k < req.count
    ensures Covers(Shifted(d, req, k), req) && Moved(Shifted(d, req, k), req, k + 1)
    ensures UserBytes(d.buffer, req) ==> UserBytes(Shifted(d, req, k).buffer, req)
  {
    if req.op.WriteOp? {
      MoveOut(d, req, k);
    } else {
      MoveIn(d, req, k);
    }
  }

  lemma MoveEffect(s: System, j: Job, req: Req)
    requires s.cfg.Valid() && Enabled(s, Move) && s.engine.job == Some(j) && Covers(DataOf(s), req)
    requires j == Job(j.owner, req.op.WriteOp?, req.addr, req.count, j.moved)
    ensures var s' := Apply(s, Move);
            && s' == s.(mem := s'.mem, buffer := s'.buffer, engine := s.engine.(job := Some(j.(moved := j.moved + 1))))
            && DataOf(s') == Shifted(DataOf(s), req, j.moved)
  {
  }

  lemma MovedOn(s: System, s': System, t: Tid, j: Job)
    requires Ready(s, t) && s.threads[t].pc.Waiting? && HolderOk(s, t) && s.engine.job == Some(j) && j.moved < j.count
    requires s' == s.(mem := s'.mem, buffer := s'.buffer, engine := s.engine.(job := Some(j.(moved := j.moved + 1))))
    requires DataOf(s') == Shifted(DataOf(s), s.threads[t].pc.req, j.moved)
    requires Moved(DataOf(s'), s.threads[t].pc.req, j.moved + 1) && UserBytes(s'.buffer, s.threads[t].pc.req)
    ensures Ready(s', t) && HolderOk(s', t)
  {
  }

  /** A byte of the waiter's own transfer. */
  lemma OwnMove(s: System, t: Tid)
    requires s.cfg.Valid() && Ready(s, t) && s.threads[t].pc.Waiting? && HolderOk(s, t) && Enabled(s, Move)
    ensures Ready(Apply(s, Move), t) && HolderOk(Apply(s, Move), t)
  {
    var j, req := s.engine.job.value, s.threads[t].pc.req;
    MoveData(DataOf(s), req, j.moved);
    MoveEffect(s, j, req);
    MovedOn(s, Apply(s, Move), t, j);
  }

  /** A harmless byte of an orphan. */
  lemma OrphanMove(s: System)
    requires s.cfg.Valid() && Enabled(s, Move) && Orphan(s) && !Harmful(s)
    ensures var s' := Apply(s, Move);
            && s' == s.(buffer := s'.buffer, engine := s'.engine)
            && |s'.buffer| == |s.buffer|
            && (Unsent(s) <= |s.buffer| ==> s'.buffer[..Unsent(s)] == s.buffer[..Unsent(s)])
  {
    var j := s.engine.job.value;
    if j.toDevice {
      assert s.mem[j.addr + j.moved := s.buffer[j.moved]] == s.mem;
    }
  }

  lemma OrphanKeeps(s: System, s': System, t: Tid)
    requires s.mutex == Some(t) && Ready(s, t) && HolderOk(s, t) && Orphan(s)
    requires s' == s.(buffer := s'.buffer, engine := s'.engine) && |s'.buffer| == |s.buffer|
    requires Unsent(s) <= |s.buffer| ==> s'.buffer[..Unsent(s)] == s.buffer[..Unsent(s)]
    requires s.threads[t].pc.Program? ==> s.engine.job.None?
    requires s.threads[t].pc.Armed? || s.threads[t].pc.NeedReset? ==> Aligned(s.cfg, s.threads[t].pc.req.addr, s.threads[t].pc.req.count)
    ensures Ready(s', t) && HolderOk(s', t)
  {
  }

  lemma MoveSteady(s: System)
    requires Steady(s) && Enabled(s, Move) && Sound(s, Move)
    ensures Steady(Apply(s, Move))
  {
    var s' := Apply(s, Move);
    InvStep(s, Move);
    HardwareFrame(s, Move);
    if HolderWaits(s) {
      OwnMove(s, s.mutex.value);
    } else {
      OrphanMove(s);
      if s.mutex.Some? {
        assert ThreadOk(s, s.mutex.value);
        OrphanKeeps(s, s', s.mutex.value);
      }
    }
  }

  lemma EndKeeps(s: System, error: bool, t: Tid)
    requires Ready(s, t) && HolderOk(s, t) && s.engine.job.Some?
    requires error || s.engine.job.value.moved == s.engine.job.value.count
    ensures Ready(Ended(s, error), t) && HolderOk(Ended(s, error), t)
  {
    if s.threads[t].pc.Waiting? {
      MovedTouches(DataOf(s), s.threads[t].pc.req, s.engine.job.value.moved);
    }
  }

  lemma EndSteady(s: System, step: Step)
    requires Steady(s) && Enabled(s, step) && (step.Finish? || step.Break?)
    ensures Steady(Apply(s, step))
  {
    InvStep(s, step);
    if s.mutex.Some? {
      EndKeeps(s, step.Break?, s.mutex.value);
    }
  }

  /** The controller and the handler touch no data, and make no signal where there was none. */
  lemma SignalFrame(s: System, step: Step)
    requires s.cfg.Valid() && Enabled(s, step) && (step.Latch? || IsIsr(step))
    ensures var s' := Apply(s, step);
            && s'.cfg == s.cfg && s'.threads == s.threads && s'.mutex == s.mutex && DataOf(s') == DataOf(s)
            && s'.engine.job == s.engine.job && s'.engine.err == s.engine.err
            && (!Stale(s) ==> !Stale(s'))
  {
  }

  lemma SignalKeeps(s: System, s': System, t: Tid)
    requires Ready(s, t) && HolderOk(s, t)
    requires s'.cfg == s.cfg && s'.threads == s.threads && DataOf(s') == DataOf(s)
    requires s'.engine.job == s.engine.job && s'.engine.err == s.engine.err && (!Stale(s) ==> !Stale(s'))
    ensures Ready(s', t) && HolderOk(s', t)
  {
  }

  lemma SignalSteady(s: System, step: Step)
    requires Steady(s) && Enabled(s, step) && (step.Latch? || IsIsr(step))
    ensures Steady(Apply(s, step))
  {
    InvStep(s, step);
    SignalFrame(s, step);
    if s.mutex.Some? {
      SignalKeeps(s, Apply(s, step), s.mutex.value);
    }
  }

  // ---------------------------------------------------------------------
  // Steps of the holder
  // ---------------------------------------------------------------------

  /** A failed call that touched no more than it may. */
  lemma FailureIsEffect(s: System, t: Tid, code: int)
    requires Ready(s, t) && Touched(DataOf(s), s.threads[t].pc.req)
    ensures var th := s.threads[t]; Effect(s.committed, s.mem, th.window, th.pos, th.pc.req.op, Failed(code), th.pc.req.copied)
  {
    var req := s.threads[t].pc.req;
    if req.op.WriteOp? {
      var x: seq<Byte> :| |x| <= req.count && s.mem == Patch(s.committed, req.addr, x);
    }
  }

  /** The holder gives up. */
  lemma FailKeeps(s: System, s': System, t: Tid, req: Req, code: int)
    requires Ready(s, t) && Touched(DataOf(s), s.threads[t].pc.req) && req == s.threads[t].pc.req
    requires t in s'.threads && s'.threads[t] == s.threads[t].(pc := Leaving(req, Failed(code)))
    requires s'.mem == s.mem && s'.committed == s.committed && |s'.buffer| == |s.buffer|
    ensures Ready(s', t) && HolderOk(s', t)
  {
    FailureIsEffect(s, t, code);
  }

  lemma CopyInHolder(s: System, t: Tid, n: nat)
    requires s.cfg.Valid() && Enabled(s, CopyIn(t, n)) && Ready(s, t) && HolderOk(s, t)
    ensures Ready(Apply(s, CopyIn(t, n)), t) && HolderOk(Apply(s, CopyIn(t, n)), t)
  {
    var s', req := Apply(s, CopyIn(t, n)), s.threads[t].pc.req;
    NothingTouched(DataOf(s), req);
    if n == 0 {
      FailKeeps(s, s', t, req, s'.threads[t].pc.result.code);
    } else {
      var m := Sent(req.(copied := n));
      assert s'.buffer[..m] == req.op.bytes[..m];
    }
  }

  /** The holder goes on to the next stage before its transfer; no data changes. */
  lemma StillNothing(s: System, s': System, t: Tid, pc: Pc)
    requires Ready(s, t) && HolderOk(s, t) && s.mem == s.committed
    requires pc.Leaving? || UserBytes(s.buffer, s.threads[t].pc.req)
    requires t in s'.threads && s'.threads[t] == s.threads[t].(pc := pc) && DataOf(s') == DataOf(s)
    requires (pc.Armed? || pc.NeedReset? || pc.Program? || (pc.Leaving? && pc.result.Failed?)) && pc.req == s.threads[t].pc.req
    ensures Ready(s', t) && HolderOk(s', t)
  {
    NothingTouched(DataOf(s), pc.req);
    if pc.Leaving? {
      FailKeeps(s, s', t, pc.req, pc.result.code);
    }
  }

  lemma SetupFrame(s: System, step: Step)
    requires s.cfg.Valid() && (step.Reinit? || step.ReadStatus? || step.Reset?) && Enabled(s, step)
    ensures DataOf(Apply(s, step)) == DataOf(s) && step.t in Apply(s, step).threads
    ensures var pc := Apply(s, step).threads[step.t].pc;
            && Apply(s, step).threads[step.t] == s.threads[step.t].(pc := pc)
            && (pc.Armed? || pc.NeedReset? || pc.Program? || (pc.Leaving? && pc.result.Failed?))
            && pc.req == s.threads[step.t].pc.req
            && (step.Reinit? ==> pc.Leaving? || Aligned(s.cfg, pc.req.addr, pc.req.count))
  {
  }

  lemma SetupHolder(s: System, step: Step)
    requires s.cfg.Valid() && (step.Reinit? || step.ReadStatus? || step.Reset?) && Enabled(s, step)
    requires Ready(s, step.t) && HolderOk(s, step.t)
    ensures Ready(Apply(s, step), step.t) && HolderOk(Apply(s, step), step.t)
  {
    SetupFrame(s, step);
    StillNothing(s, Apply(s, step), step.t, Apply(s, step).threads[step.t].pc);
  }

  lemma StartHolder(s: System, t: Tid)
    requires s.cfg.Valid() && Enabled(s, Start(t)) && Ready(s, t) && HolderOk(s, t)
    requires s.engine.job.None? && !s.engine.err && !Stale(s)
    ensures Ready(Apply(s, Start(t)), t) && HolderOk(Apply(s, Start(t)), t)
  {
    PatchNothing(s.committed, s.threads[t].pc.req.addr, s.buffer[..0]);
  }

  lemma WakeHolder(s: System, t: Tid)
    requires s.cfg.Valid() && Enabled(s, Wake(t)) && Ready(s, t) && HolderOk(s, t)
    ensures Ready(Apply(s, Wake(t)), t) && HolderOk(Apply(s, Wake(t)), t)
  {
    assert s.engine.job.None?;
  }

  lemma KillHolder(s: System, t: Tid)
    requires s.cfg.Valid() && Enabled(s, Kill(t)) && Ready(s, t) && HolderOk(s, t)
    ensures Ready(Apply(s, Kill(t)), t) && HolderOk(Apply(s, Kill(t)), t)
  {
    var req := s.threads[t].pc.req;
    if s.engine.job.Some? {
      MovedTouches(DataOf(s), req, s.engine.job.value.moved);
    } else if !s.engine.err {
      MovedTouches(DataOf(s), req, req.count);
    }
    FailKeeps(s, Apply(s, Kill(t)), t, req, Apply(s, Kill(t)).threads[t].pc.result.code);
  }

  /** A write whose transfer is over has updated the memory, as far as copied with its user's bytes. */
  lemma WriteIsEffect(d: Data, w: Window, pos: nat, req: Req)
    requires Covers(d, req) && req.op.WriteOp? && Moved(d, req, req.count) && UserBytes(d.buffer, req)
    requires w.base + w.length <= |d.before| && req.addr == w.base + pos && pos + req.count <= w.length
    requires 0 < req.count <= |req.op.bytes|
    ensures Effect(d.before, d.mem, w, pos, req.op, Done(req.count, []), req.copied)
  {
    var n, m := req.count, Sent(req);
    assert d.buffer[..n][..m] == req.op.bytes[..m];
    assert Updates(d.before, d.mem, w.base + pos, d.buffer[..n], n, req.op.bytes[..Min(req.copied, n)]);
  }

  lemma CheckHolder(s: System, t: Tid)
    requires s.cfg.Valid() && Enabled(s, CheckStatus(t)) && Ready(s, t) && HolderOk(s, t)
    ensures Ready(Apply(s, CheckStatus(t)), t) && HolderOk(Apply(s, CheckStatus(t)), t)
  {
    var s', th := Apply(s, CheckStatus(t)), s.threads[t];
    if s.engine.err {
      FailKeeps(s, s', t, th.pc.req, s'.threads[t].pc.result.code);
    } else if th.pc.req.op.WriteOp? {
      WriteIsEffect(DataOf(s), th.window, th.pos, th.pc.req);
    }
  }

  lemma CopyOutHolder(s: System, t: Tid, n: nat)
    requires s.cfg.Valid() && Enabled(s, CopyOut(t, n)) && Ready(s, t) && HolderOk(s, t)
    ensures Ready(Apply(s, CopyOut(t, n)), t) && HolderOk(Apply(s, CopyOut(t, n)), t)
  {
    var s', req := Apply(s, CopyOut(t, n)), s.threads[t].pc.req;
    if n == 0 {
      FailKeeps(s, s', t, req, s'.threads[t].pc.result.code);
    } else {
      SlicesAgree(s.buffer, s.committed, req.addr, req.count, req.inOffset, n);
    }
  }

  lemma SlicesAgree(b: seq<Byte>, m: seq<Byte>, a: nat, c: nat, i: nat, n: nat)
    requires c <= |b| && a + c <= |m| && i + n <= c && b[..c] == m[a..a + c]
    ensures b[i..i + n] == m[a + i..a + i + n]
  {
    forall k | 0 <= k < c
      ensures b[k] == m[a + k]
    {
      assert b[..c][k] == m[a..a + c][k];
    }
  }

  /** Every step of the holder between lock and unlock. */
  lemma HolderStep(s: System, step: Step)
    requires s.cfg.Valid() && Enabled(s, step) && !IsHardware(step) && !step.Call? && !step.Acquire? && !step.Unlock?
    requires Ready(s, step.t) && HolderOk(s, step.t)
    requires step.Start? ==> s.engine.job.None? && !s.engine.err && !Stale(s)
    ensures Ready(Apply(s, step), step.t) && HolderOk(Apply(s, step), step.t)
  {
    match step {
      case CopyIn(t, n) => CopyInHolder(s, t, n);
      case Reinit(_) => SetupHolder(s, step);
      case ReadStatus(_) => SetupHolder(s, step);
      case Reset(_, _) => SetupHolder(s, step);
      case Start(t) => StartHolder(s, t);
      case Wake(t) => WakeHolder(s, t);
      case Kill(t) => KillHolder(s, t);
      case CheckStatus(t) => CheckHolder(s, t);
      case CopyOut(t, n) => CopyOutHolder(s, t, n);
      case _ =>
    }
  }

  lemma HolderSteady(s: System, step: Step)
    requires Steady(s) && Enabled(s, step) && Sound(s, step)
    requires !IsHardware(step) && !step.Call? && !step.Acquire? && !step.Unlock?
    ensures Steady(Apply(s, step))
  {
    ThreadFrame(s, step);
    InvStep(s, step);
    assert ThreadOk(s, step.t);
    HolderStep(s, step);
    HolderSuffices(Apply(s, step), step.t);
  }

  // ---------------------------------------------------------------------
  // Entering and leaving
  // ---------------------------------------------------------------------

  lemma AcquireSteady(s: System, t: Tid)
    requires Steady(s) && Enabled(s, Acquire(t))
    ensures Steady(Apply(s, Acquire(t)))
  {
    InvStep(s, Acquire(t));
    HolderReady(Apply(s, Acquire(t)), t);
  }

  lemma UnlockSteady(s: System, t: Tid)
    requires Steady(s) && Enabled(s, Unlock(t))
    ensures Steady(Apply(s, Unlock(t)))
  {
    assert ThreadOk(s, t);
    InvStep(s, Unlock(t));
  }

  lemma HolderUnseen(s: System, s': System, u: Tid)
    requires Ready(s, u) && HolderOk(s, u) && u in s'.threads
    requires s' == s.(threads := s'.threads) && s'.threads[u] == s.threads[u]
    ensures Ready(s', u) && HolderOk(s', u)
  {
  }

  lemma CallFrame(s: System, t: Tid, op: Op)
    requires s.cfg.Valid() && Enabled(s, Call(t, op))
    ensures var s' := Apply(s, Call(t, op));
            s' == s.(threads := s'.threads) && forall u :: u in s.threads && u != t ==> u in s'.threads && s'.threads[u] == s.threads[u]
  {
  }

  lemma CallSteady(s: System, t: Tid, op: Op)
    requires Steady(s) && Enabled(s, Call(t, op))
    ensures Steady(Apply(s, Call(t, op)))
  {
    var s' := Apply(s, Call(t, op));
    InvStep(s, Call(t, op));
    CallFrame(s, t, op);
    assert s'.mutex == s.mutex;
    if s.mutex.Some? {
      assert ThreadOk(s, t);
      HolderUnseen(s, s', s.mutex.value);
    }
  }

  // ---------------------------------------------------------------------
  // Every sound step, and every sound run
  // ---------------------------------------------------------------------

  lemma SteadyStep(s: System, step: Step)
    requires Steady(s) && Enabled(s, step) && Sound(s, step)
    ensures Steady(Apply(s, step))
  {
    if step.Move? {
      MoveSteady(s);
    } else if step.Finish? || step.Break? {
      EndSteady(s, step);
    } else if step.Latch? || IsIsr(step) {
      SignalSteady(s, step);
    } else if step.Call? {
      CallSteady(s, step.t, step.op);
    } else if step.Acquire? {
      AcquireSteady(s, step.t);
    } else if step.Unlock? {
      UnlockSteady(s, step.t);
    } else {
      HolderSteady(s, step);
    }
  }

  lemma {:induction false} SteadyRun(s: System, steps: seq<Step>)
    requires Steady(s) && Runs(s, steps) && SoundRun(s, steps)
    ensures Steady(After(s, steps))
    decreases steps
  {
    if steps != [] {
      SteadyStep(s, steps[0]);
      SteadyRun(Apply(s, steps[0]), steps[1..]);
    }
  }
}
