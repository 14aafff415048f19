/**
 Calls that should succeed can: from every initial state, a read of reachable
 bytes and a write that fits, on aligned windows, have runs to a successful
 answer, in plain terms of the handle's window and position.
 */
module DmaService {
  import opened Wrappers
  import opened Bits
  import opened DmaWindow
  import opened DmaSystem
  import opened DmaCompletion
  import opened AtomicMemory
  import opened DmaRuns
  import opened DmaFaults

  predicate Opened(s: System, u: Tid) {
    s.cfg.Valid() && u in s.threads && s.threads[u].window.Valid()
  }

  /** A call enters and gets to the point where its transfer is started. */
  lemma GetsIn(s0: System, u: Tid, op: Op, req: Req) returns (z: System)
    requires Init(s0) && CanCall(s0, u, op, req) && (op.WriteOp? ==> op.bytes != [])
    ensures Fits(s0, req) && req.op == op && (op.WriteOp? ==> |op.bytes| <= |s0.buffer|)
    ensures Reaches(s0, z, true) && z.cfg == s0.cfg && !Stale(z) && z.engine == IDLE_ENGINE
    ensures z.mem == s0.mem && z.committed == s0.mem && z.buffer == FilledBuffer(s0.buffer, req) && QuietIsr(z) && z.done == 0
    ensures u in z.threads && z.threads[u] == s0.threads[u].(pc := Program(Filled(req)))
  {
    CanCallFits(s0, u, op, req);
    var s1 := Apply(s0, Call(u, op));
    z := GetsReady(s1, u, req);
    By(s0, Call(u, op), s1, z, true);
  }

  /** What a read can be made to return: any number of bytes from the position on, as far as asked for and reachable. */
  lemma ReadIsServed(s0: System, u: Tid, want: nat, n: nat) returns (z: System)
    requires Init(s0) && Opened(s0, u) && want < WORD64 / 2
    requires InBlocks(s0.cfg, s0.threads[u].window.base, 0)
    requires 0 < n <= want && s0.threads[u].pos + n <= Reach(s0.cfg, s0.threads[u].window, s0.threads[u].pos)
    ensures var a := s0.threads[u].window.base + s0.threads[u].pos;
            && a + n <= |s0.mem| && Reaches(s0, z, true) && u in z.threads && z.threads[u].pc.Leaving?
            && z.threads[u].pc.result == Done(n, s0.mem[a..a + n]) && z.mem == s0.mem
  {
    var req := ReadRequest(s0, u, want, n);
    z := ReadComesBack(s0, u, want, req, n);
  }

  lemma ReadRequest(s: System, u: Tid, want: nat, n: nat) returns (req: Req)
    requires Init(s) && Opened(s, u) && want < WORD64 / 2 && InBlocks(s.cfg, s.threads[u].window.base, 0)
    requires 0 < n <= want && s.threads[u].pos + n <= Reach(s.cfg, s.threads[u].window, s.threads[u].pos)
    ensures CanCall(s, u, ReadOp(want), req) && req.op == ReadOp(want) && n <= Offered(req)
    ensures req.addr + req.inOffset == s.threads[u].window.base + s.threads[u].pos
  {
    AdmitReadExactly(s.cfg, s.threads[u], want);
    req := Admit(s.cfg, s.threads[u], ReadOp(want)).value;
    ReadCanCall(s, u, want, req);
  }

  lemma ReadComesBack(s0: System, u: Tid, want: nat, req: Req, n: nat) returns (z: System)
    requires Init(s0) && CanCall(s0, u, ReadOp(want), req) && req.op == ReadOp(want) && 0 < n <= Offered(req)
    ensures var a := req.addr + req.inOffset;
            && a + n <= |s0.mem| && Reaches(s0, z, true) && u in z.threads && z.threads[u].pc.Leaving?
            && z.threads[u].pc.result == Done(n, s0.mem[a..a + n]) && z.mem == s0.mem
  {
    var s1 := GetsIn(s0, u, ReadOp(want), req);
    z := ReadsOut(s1, u, req, n);
    Then(s0, s1, z, true);
  }

  lemma ReadCanCall(s: System, u: Tid, want: nat, req: Req)
    requires Init(s) && Opened(s, u) && want < WORD64 / 2 && Admit(s.cfg, s.threads[u], ReadOp(want)) == Some(req)
    requires InBlocks(s.cfg, s.threads[u].window.base, 0)
    ensures CanCall(s, u, ReadOp(want), req)
  {
    var a, th := s.cfg.Alignment(), s.threads[u];
    InitInv(s);
    AdmitPlanned(s, u, ReadOp(want));
    AdmitReadExactly(s.cfg, th, want);
    RoundDown(th.pos, a);
    ModSum(th.window.base, Down(th.pos, a), a);
    AlignedMeaning(s.cfg, req.addr, req.count);
  }

  lemma ReadsOut(s: System, u: Tid, req: Req, n: nat) returns (z: System)
    requires s.cfg.Valid() && u in s.threads && s.threads[u].pc == Program(req) && req.op.ReadOp? && Fits(s, req)
    requires s.engine == IDLE_ENGINE && !Stale(s) && 0 < n <= Offered(req)
    ensures var a := req.addr + req.inOffset;
            && a + n <= |s.mem| && Reaches(s, z, true) && u in z.threads && z.mem == s.mem
            && z.threads[u].pc == Leaving(req, Done(n, s.mem[a..a + n]))
  {
    var s1 := WokenWell(s, u, req);
    z := ReadAnswers(s1, u, req, n, true);
    PatchedStart(s.buffer, s.mem, req.addr, req.count, req.inOffset, n);
    Then(s, s1, z, true);
  }

  lemma WokenWell(s: System, u: Tid, req: Req) returns (z: System)
    requires s.cfg.Valid() && u in s.threads && s.threads[u].pc == Program(req) && req.op.ReadOp? && Fits(s, req)
    requires s.engine == IDLE_ENGINE && !Stale(s)
    ensures Reaches(s, z, true) && z.cfg == s.cfg && u in z.threads && z.threads[u].pc == Woken(req)
    ensures z.mem == s.mem && z.buffer == BufferAfter(s, req) && !z.engine.err
  {
    var s1 := Transfers(s, u, req, true);
    z := Wakes(s1, u, req, true);
    Then(s, s1, z, true);
  }

  lemma PatchedStart(b: seq<Byte>, m: seq<Byte>, a: nat, c: nat, i: nat, n: nat)
    requires c <= |b| && a + c <= |m| && i + n <= c
    ensures Patch(b, 0, m[a..a + c])[i..i + n] == m[a + i..a + i + n]
  {
    var d := m[a..a + c];
    assert forall j :: 0 <= j < c ==> d[j] == m[a + j];
  }

  /** A write that fits, in whole blocks, can be made to store as many of its bytes as one transfer takes. */
  lemma WriteIsServed(s0: System, u: Tid, bytes: seq<Byte>) returns (z: System)
    requires Init(s0) && Opened(s0, u) && bytes != [] && |bytes| <= s0.cfg.BufferSize()
    requires s0.threads[u].pos + |bytes| <= s0.threads[u].window.length
    requires InBlocks(s0.cfg, s0.threads[u].window.base + s0.threads[u].pos, Min(|bytes|, Largest(s0.cfg)))
    ensures var n, a := Min(|bytes|, Largest(s0.cfg)), s0.threads[u].window.base + s0.threads[u].pos;
            && n > 0 && a + n <= |s0.mem| && Reaches(s0, z, true) && u in z.threads && z.threads[u].pc.Leaving?
            && z.threads[u].pc.result == Done(n, []) && z.mem == Patch(s0.mem, a, bytes[..n])
  {
    var req := WriteCanCall(s0, u, bytes);
    z := WriteGoesOut(s0, u, bytes, req);
  }

  lemma WriteCanCall(s: System, u: Tid, bytes: seq<Byte>) returns (req: Req)
    requires Init(s) && Opened(s, u) && bytes != [] && |bytes| <= s.cfg.BufferSize()
    requires s.threads[u].pos + |bytes| <= s.threads[u].window.length
    requires InBlocks(s.cfg, s.threads[u].window.base + s.threads[u].pos, Min(|bytes|, Largest(s.cfg)))
    ensures CanCall(s, u, WriteOp(bytes), req) && req.count == Min(|bytes|, Largest(s.cfg)) > 0
    ensures req.addr == s.threads[u].window.base + s.threads[u].pos
  {
    AdmitWriteExactly(s.cfg, s.threads[u], bytes);
    MaxTransferMeaning(s.cfg);
    req := Admit(s.cfg, s.threads[u], WriteOp(bytes)).value;
    AlignedMeaning(s.cfg, req.addr, req.count);
  }

  lemma WriteGoesOut(s0: System, u: Tid, bytes: seq<Byte>, req: Req) returns (z: System)
    requires Init(s0) && CanCall(s0, u, WriteOp(bytes), req) && bytes != [] && req.count <= |bytes|
    ensures req.addr + req.count <= |s0.mem| && Reaches(s0, z, true) && u in z.threads && z.threads[u].pc.Leaving?
    ensures z.threads[u].pc.result == Done(req.count, []) && z.mem == Patch(s0.mem, req.addr, bytes[..req.count])
  {
    var s1 := GetsIn(s0, u, WriteOp(bytes), req);
    z := SendsFromProgram(s1, u, Filled(req), true);
    assert s1.buffer[..req.count] == bytes[..req.count];
    Then(s0, s1, z, true);
  }
}
