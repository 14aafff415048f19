/**
 Where the device is not an atomic memory. A write whose user bytes were copied
 in part stores old buffer bytes behind them. A transfer left behind by a killed
 wait can overwrite bytes that the next write has copied into the buffer, or go
 on writing to the device after its call has returned, and its signal can end
 the next wait too early: these are the steps that sound runs exclude. From each
 of them some run leads to a response that is not one of an atomic memory, and
 all of it is reached from every initial state that admits the calls.
 */
module DmaFaults {
  import opened Wrappers
  import opened Errno
  import opened Bits
  import opened DmaWindow
  import opened DmaSystem
  import opened DmaCompletion
  import opened AtomicMemory
  import opened DmaAtomic
  import opened DmaRefinement
  import opened DmaRuns

  /** Some run ends in a call of `u` whose response is not one of an atomic memory. */
  ghost predicate CanBreak(s: System, u: Tid, clean: bool)
    requires s.cfg.Valid()
  {
    exists z :: Reaches(s, z, clean) && Broken(z, u)
  }

  ghost predicate Broken(s: System, u: Tid) {
    u in s.threads && s.threads[u].pc.Leaving? && !LeavesAtomic(s, u)
  }

  /** A call that is about to return `r`, with `mem` in the device and `committed` before it. */
  predicate Returns(s: System, z: System, u: Tid, req: Req, r: Result, mem: seq<Byte>) {
    && z.cfg == s.cfg && u in s.threads && u in z.threads
    && z.threads[u] == s.threads[u].(pc := Leaving(req, r)) && z.mem == mem && z.committed == s.committed
  }

  // ---------------------------------------------------------------------
  // A leftover read and the next write
  // ---------------------------------------------------------------------

  /** A write past its copy can be brought to send whatever the buffer holds. */
  lemma SendsBuffer(s: System, u: Tid, req: Req, clean: bool) returns (z: System)
    requires s.cfg.Valid() && u in s.threads && s.threads[u].pc == Copied(req) && req.op.WriteOp?
    requires Aligned(s.cfg, req.addr, req.count) && Fits(s, req)
    requires s.engine.err || s.engine.job.Some? || s.engine == IDLE_ENGINE
    requires clean ==> QuietIsr(s)
    ensures Reaches(s, z, clean)
    ensures Returns(s, z, u, req, Done(req.count, []), Patch(s.mem, req.addr, s.buffer[..req.count]))
  {
    var s1 := FromLock(s, u, req, clean);
    z := SendsFromProgram(s1, u, req, clean);
    Then(s, s1, z, clean);
  }

  lemma SendsFromProgram(s: System, u: Tid, req: Req, clean: bool) returns (z: System)
    requires s.cfg.Valid() && u in s.threads && s.threads[u].pc == Program(req) && req.op.WriteOp? && Fits(s, req)
    requires s.engine == IDLE_ENGINE && (clean ==> QuietIsr(s) && s.done == 0)
    ensures Reaches(s, z, clean)
    ensures Returns(s, z, u, req, Done(req.count, []), Patch(s.mem, req.addr, s.buffer[..req.count]))
  {
    var s1 := Transfers(s, u, req, clean);
    var s2 := Wakes(s1, u, req, clean);
    z := WriteAnswers(s2, u, req, clean);
    Then(s1, s2, z, clean);
    Then(s, s1, z, clean);
  }

  /** Bytes that do not begin with the user's are no atomic write. */
  lemma NotTheUsers(m: seq<Byte>, w: Window, pos: nat, bytes: seq<Byte>, b: seq<Byte>, data: seq<Byte>, copied: nat, i: nat)
    requires w.base + pos + |b| <= |m| && |b| <= |bytes| && copied <= |bytes|
    requires i < copied && i < |b| && b[i] != bytes[i]
    ensures !Effect(m, Patch(m, w.base + pos, b), w, pos, WriteOp(bytes), Done(|b|, data), copied)
  {
    var a, n := w.base + pos, |b|;
    var start := bytes[..Min(copied, n)];
    forall d: seq<Byte> | |d| == n && Patch(m, a, b) == Patch(m, a, d)
      ensures d == b
    {
      PatchInjective(m, a, b, d);
    }
    assert start[i] != b[i];
  }

  lemma SpoiltIsBroken(s: System, z: System, u: Tid, req: Req, i: nat)
    requires u in s.threads && req.op.WriteOp? && Fits(s, req) && s.mem == s.committed
    requires Returns(s, z, u, req, Done(req.count, []), Patch(s.mem, req.addr, s.buffer[..req.count]))
    requires req.addr == s.threads[u].window.base + s.threads[u].pos && req.count <= |req.op.bytes|
    requires req.copied <= |req.op.bytes| && i < Sent(req) && s.buffer[i] != req.op.bytes[i]
    ensures Broken(z, u)
  {
    var th := s.threads[u];
    NotTheUsers(s.mem, th.window, th.pos, req.op.bytes, s.buffer[..req.count], [], req.copied, i);
  }

  /** From any stage between copy and start, with a transfer to be reset. */
  lemma SendsFromStage(s: System, u: Tid, req: Req) returns (z: System)
    requires s.cfg.Valid() && u in s.threads && req.op.WriteOp? && Fits(s, req) && s.engine.job.Some?
    requires var pc := s.threads[u].pc; pc == Copied(req) || pc == Armed(req) || pc == NeedReset(req)
    requires Aligned(s.cfg, req.addr, req.count)
    ensures Reaches(s, z, false)
    ensures Returns(s, z, u, req, Done(req.count, []), Patch(s.mem, req.addr, s.buffer[..req.count]))
  {
    if s.threads[u].pc.Copied? {
      z := SendsBuffer(s, u, req, false);
    } else {
      var s1;
      if s.threads[u].pc.Armed? {
        s1 := FromArmed(s, u, req, false);
      } else {
        s1 := FromNeedReset(s, u, req, false);
      }
      z := SendsFromProgram(s1, u, req, false);
      Then(s, s1, z, false);
    }
  }

  /**
   A byte that a leftover read puts over one a write has copied in breaks
   atomicity: the write can be brought to send it and to answer with success.
   */
  lemma HarmfulReadBreaks(s: System)
    requires Steady(s) && Enabled(s, Move) && Harmful(s) && !s.engine.job.value.toDevice
    ensures s.mutex.Some? && CanBreak(Apply(s, Move), s.mutex.value, false)
  {
    var u, j, s' := s.mutex.value, s.engine.job.value, Apply(s, Move);
    var req := s.threads[u].pc.req;
    assert ThreadOk(s, u);
    assert s.buffer[..Sent(req)][j.moved] == req.op.bytes[..Sent(req)][j.moved];
    var z := SendsFromStage(s', u, req);
    SpoiltIsBroken(s', z, u, req, j.moved);
  }

  // ---------------------------------------------------------------------
  // A leftover write
  // ---------------------------------------------------------------------

  /** A read can be brought to fail without touching anything. */
  lemma ReadFails(s: System, u: Tid, req: Req, clean: bool) returns (z: System, code: int)
    requires s.cfg.Valid() && u in s.threads && s.threads[u].pc == WantLock(req) && req.op.ReadOp? && s.mutex.None?
    requires s.engine.job.Some?
    ensures Reaches(s, z, clean) && Returns(s, z, u, req, Failed(code), s.mem)
  {
    var s1 := Apply(s, Acquire(u));
    var s2 := Apply(s1, Reinit(u));
    if s2.threads[u].pc.Leaving? {
      z, code := s2, EINVAL;
      Here(z, clean);
    } else {
      z, code := ResetFails(s2, u, req, clean);
    }
    By(s1, Reinit(u), s2, z, clean);
    By(s, Acquire(u), s1, z, clean);
  }

  lemma ResetFails(s: System, u: Tid, req: Req, clean: bool) returns (z: System, code: int)
    requires s.cfg.Valid() && u in s.threads && s.threads[u].pc == Armed(req) && s.engine.job.Some?
    ensures Reaches(s, z, clean) && Returns(s, z, u, req, Failed(code), s.mem)
  {
    var s1 := Apply(s, ReadStatus(u));
    z, code := Apply(s1, Reset(u, false)), EIO;
    Here(z, clean);
    By(s1, Reset(u, false), z, z, clean);
    By(s, ReadStatus(u), s1, z, clean);
  }

  /**
   A byte that a leftover write changes in the device breaks atomicity: a read
   that even fails finds the memory changed between two calls.
   */
  lemma HarmfulWriteBreaks(s: System, u: Tid)
    requires Steady(s) && Enabled(s, Move) && Harmful(s) && s.engine.job.value.toDevice && s.mutex.None?
    requires u in s.threads && s.threads[u].pc.WantLock? && s.threads[u].pc.req.op.ReadOp?
    ensures CanBreak(Apply(s, Move), u, true)
  {
    var j, s' := s.engine.job.value, Apply(s, Move);
    var z, code := ReadFails(s', u, s.threads[u].pc.req, true);
    assert z.mem[j.addr + j.moved] != z.committed[j.addr + j.moved];
    assert Broken(z, u);
  }

  // ---------------------------------------------------------------------
  // A stale signal
  // ---------------------------------------------------------------------

  /** What a call that is answered before its transfer has moved a byte answers with. */
  function EarlyResult(s: System, req: Req): Result
    requires req.op.ReadOp? ==> 0 <= Offered(req) && req.inOffset + Offered(req) <= |s.buffer|
  {
    if req.op.WriteOp? then Done(req.count, [])
    else Done(Offered(req), s.buffer[req.inOffset..req.inOffset + Offered(req)])
  }

  lemma AnswersEarly(s: System, u: Tid, req: Req) returns (z: System)
    requires s.cfg.Valid() && u in s.threads && s.threads[u].pc == Program(req) && !s.engine.err && Stale(s)
    requires req.op.ReadOp? ==> 0 < Offered(req) && req.inOffset + Offered(req) <= |s.buffer|
    ensures Reaches(s, z, false) && Returns(s, z, u, req, EarlyResult(s, req), s.mem)
  {
    var s1 := WokenEarly(s, u, req);
    if req.op.WriteOp? {
      z := WriteAnswers(s1, u, req, false);
    } else {
      z := ReadAnswers(s1, u, req, Offered(req), false);
    }
    Then(s, s1, z, false);
  }

  lemma WokenEarly(s: System, u: Tid, req: Req) returns (z: System)
    requires s.cfg.Valid() && u in s.threads && s.threads[u].pc == Program(req) && !s.engine.err && Stale(s)
    ensures Reaches(s, z, false) && Staged(s, z, u, Woken(req)) && !z.engine.err
  {
    var s1 := Apply(s, Start(u));
    z := Wakes(s1, u, req, false);
    GotoTwice(s, u, Waiting(req), Woken(req));
    By(s, Start(u), s1, z, false);
  }

  /** The bytes a call is after are where they should be without any transfer. */
  predicate HasTheBytes(s: System, u: Tid, req: Req)
    requires u in s.threads && Fits(s, req)
    requires req.op.ReadOp? ==> 0 <= Offered(req) && req.inOffset + Offered(req) <= |s.buffer|
    requires req.op.ReadOp? ==> s.threads[u].window.base + s.threads[u].pos + Offered(req) <= |s.mem|
    requires req.op.WriteOp? ==> req.copied <= |req.op.bytes|
  {
    var a := s.threads[u].window.base + s.threads[u].pos;
    if req.op.ReadOp? then s.buffer[req.inOffset..req.inOffset + Offered(req)] == s.mem[a..a + Offered(req)]
    else s.mem[req.addr..req.addr + Sent(req)] == req.op.bytes[..Sent(req)]
  }

  lemma PatchItself(m: seq<Byte>, a: nat, n: nat)
    requires a + n <= |m|
    ensures Patch(m, a, m[a..a + n]) == m
  {
  }

  lemma SliceStart(m: seq<Byte>, a: nat, k: nat, n: nat)
    requires k <= n && a + n <= |m|
    ensures m[a..a + n][..k] == m[a..a + k]
  {
  }

  lemma UnmovedGood(m: seq<Byte>, w: Window, pos: nat, bytes: seq<Byte>, n: nat, copied: nat, start: seq<Byte>)
    requires w.base + w.length <= |m| && 0 < n <= |bytes| && pos + n <= w.length && copied <= |bytes|
    requires start == bytes[..Min(copied, n)] && m[w.base + pos..w.base + pos + |start|] == start
    ensures Effect(m, m, w, pos, WriteOp(bytes), Done(n, []), copied)
  {
    var a := w.base + pos;
    var d := m[a..a + n];
    PatchItself(m, a, n);
    SliceStart(m, a, |start|, n);
    assert d[..|start|] == start;
    assert Updates(m, m, a, d, n, start);
  }

  lemma UnmovedOnly(m: seq<Byte>, w: Window, pos: nat, bytes: seq<Byte>, n: nat, copied: nat, start: seq<Byte>)
    requires Effect(m, m, w, pos, WriteOp(bytes), Done(n, []), copied) && start == bytes[..Min(copied, n)]
    ensures m[w.base + pos..w.base + pos + |start|] == start
  {
    var a := w.base + pos;
    var d: seq<Byte> :| Updates(m, m, a, d, n, start);
    PatchReads(m, a, d);
    SliceStart(m, a, |start|, n);
    assert d[..|start|] == start;
  }

  /** A write answered without having moved a byte. */
  lemma UnmovedWrite(m: seq<Byte>, w: Window, pos: nat, bytes: seq<Byte>, n: nat, copied: nat, start: seq<Byte>)
    requires w.base + w.length <= |m| && 0 < n <= |bytes| && pos + n <= w.length && copied <= |bytes|
    requires start == bytes[..Min(copied, n)]
    ensures Effect(m, m, w, pos, WriteOp(bytes), Done(n, []), copied) <==> m[w.base + pos..w.base + pos + |start|] == start
  {
    if m[w.base + pos..w.base + pos + |start|] == start {
      UnmovedGood(m, w, pos, bytes, n, copied, start);
    } else if Effect(m, m, w, pos, WriteOp(bytes), Done(n, []), copied) {
      UnmovedOnly(m, w, pos, bytes, n, copied, start);
    }
  }

  /**
   A transfer started with a stale signal about can be answered for before it
   has moved a byte. The answer is an atomic one if and only if the bytes were
   in place already.
   */
  lemma StaleStartBreaks(s: System, u: Tid, req: Req) returns (z: System)
    requires Steady(s) && Enabled(s, Start(u)) && Stale(s) && req == s.threads[u].pc.req
    requires req.op.ReadOp? ==> req.op.want > 0
    ensures Fits(s, req) && (req.op.ReadOp? ==> req.inOffset + Offered(req) <= |s.buffer|)
    ensures s.threads[u].window.base + s.threads[u].pos + (if req.op.ReadOp? then Offered(req) else 0) <= |s.mem|
    ensures req.op.WriteOp? ==> req.copied <= |req.op.bytes|
    ensures Reaches(s, z, false) && Returns(s, z, u, req, EarlyResult(s, req), s.mem)
    ensures LeavesAtomic(z, u) <==> HasTheBytes(s, u, req)
  {
    assert ThreadOk(s, u);
    z := AnswersEarly(s, u, req);
    EarlyAnswerExactly(s, z, u, req);
  }

  lemma EarlyAnswerExactly(s: System, z: System, u: Tid, req: Req)
    requires s.cfg.Valid() && u in s.threads && Planned(s, s.threads[u], req) && s.mem == s.committed
    requires req.op.WriteOp? ==> req.op.bytes != []
    requires req.op.ReadOp? ==> req.op.want > 0
    requires Returns(s, z, u, req, EarlyResult(s, req), s.mem)
    ensures LeavesAtomic(z, u) <==> HasTheBytes(s, u, req)
  {
    if req.op.WriteOp? {
      EarlyWriteExactly(s, z, u, req);
    } else {
      EarlyReadExactly(s, z, u, req);
    }
  }

  lemma EarlyWriteExactly(s: System, z: System, u: Tid, req: Req)
    requires s.cfg.Valid() && u in s.threads && Planned(s, s.threads[u], req) && s.mem == s.committed
    requires req.op.WriteOp? && req.op.bytes != [] && Returns(s, z, u, req, Done(req.count, []), s.mem)
    ensures LeavesAtomic(z, u) <==> HasTheBytes(s, u, req)
  {
    var th := s.threads[u];
    UnmovedWrite(s.mem, th.window, th.pos, req.op.bytes, req.count, req.copied, req.op.bytes[..Sent(req)]);
  }

  lemma EarlyReadExactly(s: System, z: System, u: Tid, req: Req)
    requires s.cfg.Valid() && u in s.threads && Planned(s, s.threads[u], req) && s.mem == s.committed
    requires req.op.ReadOp? && req.op.want > 0
    requires Returns(s, z, u, req, Done(Offered(req), s.buffer[req.inOffset..req.inOffset + Offered(req)]), s.mem)
    ensures LeavesAtomic(z, u) <==> HasTheBytes(s, u, req)
  {
  }

  // ---------------------------------------------------------------------
  // All of it happens
  // ---------------------------------------------------------------------

  /** A handle that can make the call, and the aligned request it becomes. */
  predicate CanCall(s: System, t: Tid, op: Op, req: Req)
    requires s.cfg.Valid()
  {
    && t in s.threads && s.threads[t].window.Valid() && (op.ReadOp? ==> op.want < WORD64 / 2)
    && Admit(s.cfg, s.threads[t], op) == Some(req) && Aligned(s.cfg, req.addr, req.count)
  }

  lemma CanCallFits(s: System, t: Tid, op: Op, req: Req)
    requires Init(s) && CanCall(s, t, op, req)
    ensures Fits(s, req) && req.op == op && req.copied == 0
    ensures op.ReadOp? ==> req.inOffset < req.count
    ensures op.WriteOp? ==> req.count <= |op.bytes| <= |s.buffer| && (op.bytes != [] ==> req.count > 0)
    ensures op.WriteOp? ==> req.addr == s.threads[t].window.base + s.threads[t].pos
  {
    CanCallPlanned(s, t, op, req);
    AdmitsOp(s.cfg, s.threads[t], op);
  }

  lemma CanCallPlanned(s: System, t: Tid, op: Op, req: Req)
    requires Init(s) && CanCall(s, t, op, req)
    ensures Planned(s, s.threads[t], req)
  {
    InitInv(s);
    AdmitPlanned(s, t, op);
  }

  /** Two handles past their checks, everything else as at the start. */
  predicate BothWant(s0: System, s: System, t: Tid, rt: Req, u: Tid, ru: Req)
    requires t in s0.threads && u in s0.threads
  {
    && s == s0.(threads := s.threads) && t in s.threads && u in s.threads
    && s.threads[t] == s0.threads[t].(pc := WantLock(rt)) && s.threads[u] == s0.threads[u].(pc := WantLock(ru))
  }

  lemma BothCall(s0: System, t: Tid, opT: Op, rt: Req, u: Tid, opU: Op, ru: Req) returns (z: System)
    requires Init(s0) && t != u && CanCall(s0, t, opT, rt) && CanCall(s0, u, opU, ru)
    ensures Reaches(s0, z, true) && BothWant(s0, z, t, rt, u, ru)
  {
    var s1 := Apply(s0, Call(t, opT));
    z := Apply(s1, Call(u, opU));
    Here(z, true);
    By(s1, Call(u, opU), z, z, true);
    By(s0, Call(t, opT), s1, z, true);
  }

  /** The request once the user's bytes are in the buffer, and the buffer then. */
  function Filled(req: Req): Req {
    if req.op.WriteOp? then req.(copied := |req.op.bytes|) else req
  }

  function FilledBuffer(buffer: seq<Byte>, req: Req): seq<Byte>
    requires req.op.WriteOp? ==> |req.op.bytes| <= |buffer|
  {
    if req.op.WriteOp? then CopiedOver(buffer, req.op.bytes, |req.op.bytes|) else buffer
  }

  /** A write takes the lock and copies the first `k` of its bytes in. */
  lemma CopiesPart(s: System, u: Tid, req: Req, k: nat) returns (z: System)
    requires s.cfg.Valid() && u in s.threads && s.threads[u].pc == WantLock(req) && s.mutex.None?
    requires req.op.WriteOp? && 0 < k <= |req.op.bytes| <= |s.buffer|
    ensures Reaches(s, z, true)
    ensures z == s.(threads := z.threads, buffer := CopiedOver(s.buffer, req.op.bytes, k), mutex := Some(u))
    ensures z.threads == s.threads[u := s.threads[u].(pc := Copied(req.(copied := k)))]
  {
    var s1 := Apply(s, Acquire(u));
    z := Apply(s1, CopyIn(u, k));
    GotoTwice(s, u, Locked(req), Copied(req.(copied := k)));
    Here(z, true);
    By(s1, CopyIn(u, k), z, z, true);
    By(s, Acquire(u), s1, z, true);
  }

  /** A call takes the lock and gets to the point where its transfer is started. */
  lemma GetsReady(s: System, t: Tid, req: Req) returns (z: System)
    requires s.cfg.Valid() && t in s.threads && s.threads[t].pc == WantLock(req) && s.mutex.None?
    requires Aligned(s.cfg, req.addr, req.count) && s.engine == IDLE_ENGINE && QuietIsr(s)
    requires req.op.WriteOp? ==> 0 < |req.op.bytes| <= |s.buffer|
    ensures Reaches(s, z, true) && !Stale(z)
    ensures z == s.(threads := z.threads, buffer := FilledBuffer(s.buffer, req), done := 0, mutex := Some(t), tally := z.tally)
    ensures z.threads == s.threads[t := s.threads[t].(pc := Program(Filled(req)))]
  {
    if req.op.WriteOp? {
      var s1 := CopiesPart(s, t, req, |req.op.bytes|);
      z := FromLock(s1, t, Filled(req), true);
      GotoTwice(s, t, Copied(Filled(req)), Program(Filled(req)));
      Then(s, s1, z, true);
    } else {
      var s1 := Apply(s, Acquire(t));
      z := FromLock(s1, t, req, true);
      GotoTwice(s, t, Locked(req), Program(req));
      By(s, Acquire(t), s1, z, true);
    }
  }

  /** A call whose wait is killed at once, its transfer running and the lock free. */
  lemma LeavesBehind(s: System, t: Tid, req: Req) returns (z: System)
    requires s.cfg.Valid() && t in s.threads && s.threads[t].pc == WantLock(req) && s.mutex.None?
    requires Aligned(s.cfg, req.addr, req.count) && s.engine == IDLE_ENGINE && QuietIsr(s)
    requires req.op.WriteOp? ==> 0 < |req.op.bytes| <= |s.buffer|
    ensures Reaches(s, z, true)
    ensures z == s.(threads := z.threads, buffer := FilledBuffer(s.buffer, req), done := 0, tally := z.tally,
                    engine := IDLE_ENGINE.(job := Some(JobOf(t, Filled(req)))), committed := s.mem)
    ensures z.threads == s.threads[t := s.threads[t].(pc := Idle)]
  {
    var s1 := GetsReady(s, t, req);
    z := KilledAtOnce(s1, t, Filled(req));
    Then(s, s1, z, true);
  }

  lemma KilledAtOnce(s: System, t: Tid, req: Req) returns (z: System)
    requires s.cfg.Valid() && t in s.threads && s.threads[t].pc == Program(req) && s.done == 0 && !Stale(s)
    ensures Reaches(s, z, true)
    ensures z == s.(threads := z.threads, tally := z.tally, mutex := None, committed := s.mem,
                    engine := s.engine.(job := Some(JobOf(t, req))))
    ensures z.threads == s.threads[t := s.threads[t].(pc := Idle)]
  {
    var s1 := Apply(s, Start(t));
    var s2 := Apply(s1, Kill(t));
    GotoTwice(s, t, Waiting(req), s2.threads[t].pc);
    z := Apply(s2, Unlock(t));
    GotoTwice(s, t, s2.threads[t].pc, Idle);
    Here(z, true);
    By(s2, Unlock(t), z, z, true);
    By(s1, Kill(t), s2, z, true);
    By(s, Start(t), s1, z, true);
  }

  /** With a leftover read about, a write copies its bytes in and sees the first of them overwritten. */
  lemma OverwritesFirst(s: System, t: Tid, rt: Req, u: Tid, ru: Req) returns (z: System)
    requires s.cfg.Valid() && u in s.threads && s.threads[u].pc == WantLock(ru) && ru.op.WriteOp? && s.mutex.None?
    requires rt.op.ReadOp? && rt.count > 0 && Fits(s, rt) && s.engine == IDLE_ENGINE.(job := Some(JobOf(t, rt)))
    requires 0 < |ru.op.bytes| <= |s.buffer|
    ensures Reaches(s, z, true) && u in z.threads && z.threads[u] == s.threads[u].(pc := Copied(Filled(ru)))
    ensures z.cfg == s.cfg && z.mem == s.mem && z.committed == s.committed && z.isr == s.isr && z.latched == s.latched
    ensures z.engine.job.Some? && |z.buffer| == |s.buffer| && z.buffer[0] == s.mem[rt.addr]
  {
    var s1 := CopiesPart(s, u, ru, |ru.op.bytes|);
    MoveIs(s1, JobOf(t, rt));
    z := Apply(s1, Move);
    Here(z, true);
    By(s1, Move, z, z, true);
    Then(s, s1, z, true);
  }

  /**
   From every initial state with a read and a write that can be called: the
   read's wait is killed, the write copies all its bytes in, the leftover read
   overwrites the first one, and the write answers with success having stored
   something else. Both transfers were started without a stale signal about.
   */
  lemma KilledReadSpoilsWrite(s0: System, t: Tid, opT: Op, rt: Req, u: Tid, opU: Op, ru: Req) returns (z: System)
    requires Init(s0) && t != u && CanCall(s0, t, opT, rt) && CanCall(s0, u, opU, ru)
    requires opT.ReadOp? && opU.WriteOp? && opU.bytes != []
    ensures rt.addr < |s0.mem|
    ensures Reaches(s0, z, true) && u in z.threads && z.threads[u].pc == Leaving(Filled(ru), Done(ru.count, []))
    ensures opU.bytes[0] != s0.mem[rt.addr] ==> Broken(z, u)
  {
    CanCallFits(s0, t, opT, rt);
    CanCallFits(s0, u, opU, ru);
    var s1 := BothCall(s0, t, opT, rt, u, opU, ru);
    var s2 := LeavesBehind(s1, t, rt);
    var s3 := OverwritesFirst(s2, t, rt, u, ru);
    z := SendsBuffer(s3, u, Filled(ru), true);
    Then(s2, s3, z, true);
    Then(s1, s2, z, true);
    Then(s0, s1, z, true);
    if opU.bytes[0] != s0.mem[rt.addr] {
      SpoiltIsBroken(s3, z, u, Filled(ru), 0);
    }
  }

  /**
   From every initial state with a write and a read that can be called: the
   write's wait is killed and its call returns, the leftover write goes on, and
   the read meets memory that no call has changed.
   */
  lemma KilledWriteGoesOn(s0: System, t: Tid, opT: Op, rt: Req, u: Tid, opU: Op, ru: Req) returns (z: System)
    requires Init(s0) && t != u && CanCall(s0, t, opT, rt) && CanCall(s0, u, opU, ru)
    requires opT.WriteOp? && opT.bytes != [] && opU.ReadOp?
    ensures rt.addr < |s0.mem|
    ensures Reaches(s0, z, true) && u in z.threads && z.threads[u].pc.Leaving?
    ensures opT.bytes[0] != s0.mem[rt.addr] ==> Broken(z, u)
  {
    CanCallFits(s0, t, opT, rt);
    var s1 := BothCall(s0, t, opT, rt, u, opU, ru);
    var s2 := LeavesBehind(s1, t, rt);
    var s3 := Apply(s2, Move);
    var code;
    CanCallFits(s0, u, opU, ru);
    z, code := ReadFails(s3, u, ru, true);
    By(s2, Move, s3, z, true);
    Then(s1, s2, z, true);
    Then(s0, s1, z, true);
    assert z.mem[rt.addr] == opT.bytes[0] && z.committed[rt.addr] == s0.mem[rt.addr];
  }

  /** A wait whose transfer has ended, its interrupt not served, and a read that wants the lock. */
  predicate KilledTooLate(s: System, t: Tid, u: Tid) {
    && t in s.threads && s.threads[t].pc.Waiting? && s.mutex == Some(t)
    && s.engine == Engine(None, true, false, true) && s.done == 0
    && u in s.threads && u != t && s.threads[u].pc.WantLock? && s.threads[u].pc.req.op.ReadOp?
    && Aligned(s.cfg, s.threads[u].pc.req.addr, s.threads[u].pc.req.count)
  }

  /** Such a state is reached from every initial state with two reads that can be called. */
  lemma KilledTooLateIsReached(s0: System, t: Tid, opT: Op, rt: Req, u: Tid, opU: Op, ru: Req) returns (z: System)
    requires Init(s0) && t != u && CanCall(s0, t, opT, rt) && CanCall(s0, u, opU, ru) && opT.ReadOp? && opU.ReadOp?
    ensures Fits(s0, rt) && Fits(s0, ru) && ru.op == opU && ru.inOffset < ru.count
    ensures Reaches(s0, z, true) && KilledTooLate(z, t, u) && z.cfg == s0.cfg
    ensures z.threads[u] == s0.threads[u].(pc := WantLock(ru)) && z.mem == s0.mem
    ensures z.buffer == BufferAfter(s0, rt)
  {
    CanCallFits(s0, t, opT, rt);
    CanCallFits(s0, u, opU, ru);
    var s1 := BothCall(s0, t, opT, rt, u, opU, ru);
    var s2 := GetsReady(s1, t, rt);
    z := Transfers(s2, t, rt, true);
    Then(s1, s2, z, true);
    Then(s0, s1, z, true);
  }

  /** The kill, and the next read getting to its start with the signal still about. */
  lemma KilledWaitGoesStale(s: System, t: Tid, u: Tid) returns (z: System)
    requires s.cfg.Valid() && KilledTooLate(s, t, u)
    ensures Reaches(s, z, true) && z.cfg == s.cfg && u in z.threads && Stale(z) && !z.engine.err
    ensures z.threads[u] == s.threads[u].(pc := Program(s.threads[u].pc.req))
    ensures z.mem == z.committed == s.mem && z.buffer == s.buffer
  {
    var s1 := Apply(s, Kill(t));
    var s2 := Apply(s1, Unlock(t));
    var s3 := Apply(s2, Acquire(u));
    z := FromLock(s3, u, s.threads[u].pc.req, true);
    By(s2, Acquire(u), s3, z, true);
    By(s1, Unlock(t), s2, z, true);
    By(s, Kill(t), s1, z, true);
  }

  lemma Dirty(s: System, z: System)
    requires s.cfg.Valid() && Reaches(s, z, true)
    ensures Reaches(s, z, false)
  {
    var steps :| Leads(s, steps, z, true);
    assert Leads(s, steps, z, false);
  }

  /**
   From every initial state with two reads that can be called: the first one's
   wait is killed after its transfer has ended, and the second one answers with
   the bytes of the first. The answer is right only if they happen to agree.
   */
  lemma KilledReadAnswersNext(s0: System, t: Tid, opT: Op, rt: Req, u: Tid, opU: Op, ru: Req) returns (k: System, z: System)
    requires Init(s0) && t != u && CanCall(s0, t, opT, rt) && CanCall(s0, u, opU, ru)
    requires opT.ReadOp? && opU.ReadOp? && opU.want > 0
    ensures Reaches(s0, k, true) && KilledTooLate(k, t, u) && Fits(s0, rt) && k.buffer == BufferAfter(s0, rt)
    ensures Reaches(s0, z, false) && ReadsFrom(s0, z, u, ru, k.buffer)
  {
    k := KilledTooLateIsReached(s0, t, opT, rt, u, opU, ru);
    CanCallPlanned(s0, u, opU, ru);
    z := NextAnswer(s0, k, t, u, ru);
  }

  lemma NextAnswer(s0: System, k: System, t: Tid, u: Tid, ru: Req) returns (z: System)
    requires s0.cfg.Valid() && Reaches(s0, k, true) && k.cfg == s0.cfg && KilledTooLate(k, t, u)
    requires u in s0.threads && k.threads[u] == s0.threads[u].(pc := WantLock(ru)) && k.mem == s0.mem
    requires |k.buffer| == |s0.buffer| && Planned(s0, s0.threads[u], ru) && ru.op.ReadOp? && 0 < ru.op.want
    ensures Reaches(s0, z, false) && ReadsFrom(s0, z, u, ru, k.buffer)
  {
    z := AnswersNext(k, t, u, ru);
    Dirty(s0, k);
    Then(s0, k, z, false);
    ReadAnswerExactly(s0, z, u, ru, k.buffer);
  }

  /** `u` answers with what `buffer` holds, an atomic answer if and only if that is what the memory holds. */
  ghost predicate ReadsFrom(s: System, z: System, u: Tid, req: Req, buffer: seq<Byte>) {
    && u in s.threads && u in z.threads && req.op.ReadOp?
    && var n, a := Offered(req), s.threads[u].window.base + s.threads[u].pos;
    && 0 < n && req.inOffset + n <= |buffer| && a + n <= |s.mem|
    && z.threads[u].pc == Leaving(req, Done(n, buffer[req.inOffset..req.inOffset + n]))
    && (LeavesAtomic(z, u) <==> buffer[req.inOffset..req.inOffset + n] == s.mem[a..a + n])
  }

  lemma AnswersNext(s: System, t: Tid, u: Tid, ru: Req) returns (z: System)
    requires s.cfg.Valid() && KilledTooLate(s, t, u) && ru == s.threads[u].pc.req
    requires 0 < Offered(ru) && ru.inOffset + Offered(ru) <= |s.buffer|
    ensures Reaches(s, z, false) && u in z.threads && z.mem == z.committed == s.mem
    ensures z.threads[u] == s.threads[u].(pc := Leaving(ru, EarlyResult(s, ru)))
  {
    var s1 := KilledWaitGoesStale(s, t, u);
    z := AnswersEarly(s1, u, ru);
    Dirty(s, s1);
    Then(s, s1, z, false);
  }

  lemma ReadAnswerExactly(s: System, z: System, u: Tid, req: Req, buffer: seq<Byte>)
    requires s.cfg.Valid() && u in s.threads && Planned(s, s.threads[u], req) && req.op.ReadOp? && 0 < req.op.want
    requires |buffer| == |s.buffer| && u in z.threads && z.mem == z.committed == s.mem
    requires z.threads[u] == s.threads[u].(pc := Leaving(req, Done(Offered(req), buffer[req.inOffset..req.inOffset + Offered(req)])))
    ensures ReadsFrom(s, z, u, req, buffer)
  {
  }

  // ---------------------------------------------------------------------
  // A partial copy
  // ---------------------------------------------------------------------

  /**
   From every initial state with a write that can be called, and for every
   part of its bytes that may get copied: the write answers with success, and
   has stored its user's bytes if and only if all it transferred was copied or
   the buffer held the rest before.
   */
  lemma PartialCopyStores(s0: System, u: Tid, op: Op, req: Req, k: nat) returns (z: System)
    requires Init(s0) && CanCall(s0, u, op, req) && op.WriteOp? && 0 < k <= |op.bytes|
    ensures Fits(s0, req) && req.count <= |op.bytes| <= |s0.buffer|
    ensures Reaches(s0, z, true) && u in z.threads
    ensures z.threads[u].pc == Leaving(req.(copied := k), Done(req.count, []))
    ensures z.mem == Patch(s0.mem, req.addr, CopiedOver(s0.buffer, op.bytes, k)[..req.count])
    ensures z.mem == Patch(s0.mem, req.addr, op.bytes[..req.count])
            <==> k >= req.count || s0.buffer[k..req.count] == op.bytes[k..req.count]
  {
    CanCallFits(s0, u, op, req);
    var s1 := Apply(s0, Call(u, op));
    var s2 := CopiesPart(s1, u, req, k);
    z := SendsBuffer(s2, u, req.(copied := k), true);
    Then(s1, s2, z, true);
    By(s0, Call(u, op), s1, z, true);
    StoredExactly(s0.buffer, op.bytes, k, req.count);
    StoredPatch(s0.mem, req.addr, CopiedOver(s0.buffer, op.bytes, k)[..req.count], op.bytes[..req.count]);
  }
}
