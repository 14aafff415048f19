/**
 The specification of the DMA file device: a memory with one pending call per
 handle, in which every call takes effect as a single action.
 */
module AtomicMemory {
  import opened Wrappers
  import opened Bits
  import opened DmaWindow
  import opened DmaSystem

  /** A handle as its user sees it. */
  datatype Client = Client(window: Window, pos: nat, call: Option<Op>)

  datatype Atomic = Atomic(mem: seq<Byte>, clients: map<Tid, Client>)

  /** What the outside observes of a step; `copied` is how far a write got its user's bytes. */
  datatype Label = Silent | Invoked(t: Tid, op: Op) | Responded(t: Tid, result: Result, copied: nat)

  /** The effect of one call on the memory, as a single action. */
  ghost predicate Effect(m: seq<Byte>, m': seq<Byte>, w: Window, pos: nat, op: Op, r: Result, copied: nat)
  {
    var a := w.base + pos;
    && w.base + w.length <= |m| && pos <= w.length
    && match (op, r)
       case (ReadOp(_), Failed(_)) => m' == m
       case (ReadOp(want), Done(n, data)) =>
         0 < n <= want && pos + n <= w.length && m' == m && data == m[a..a + n]
       case (WriteOp(bytes), Failed(_)) =>
         exists d: seq<Byte> :: |d| <= |bytes| && pos + |d| <= w.length && m' == Patch(m, a, d)
       case (WriteOp(bytes), Done(n, _)) =>
         && 0 < n <= |bytes| && pos + n <= w.length && copied <= |bytes|
         && exists d: seq<Byte> :: Updates(m, m', a, d, n, bytes[..Min(copied, n)])
  }

  /** `m'` is `m` with `n` bytes `d` at `a`, which begin with `start`. */
  predicate Updates(m: seq<Byte>, m': seq<Byte>, a: nat, d: seq<Byte>, n: nat, start: seq<Byte>) {
    |d| == n && a + n <= |m| && m' == Patch(m, a, d) && start <= d
  }

  ghost predicate AtomicStep(a: Atomic, l: Label, a': Atomic) {
    match l
    case Silent => a' == a
    case Invoked(t, op) =>
      && t in a.clients && a.clients[t].call.None?
      && a' == a.(clients := a.clients[t := a.clients[t].(call := Some(op))])
    case Responded(t, r, copied) =>
      && t in a.clients && a.clients[t].call.Some?
      && var c := a.clients[t];
      && var pos := if r.Done? then Advance(c.window, c.pos, r.n) else c.pos;
      && a'.clients == a.clients[t := Client(c.window, pos, None)]
      && Effect(a.mem, a'.mem, c.window, c.pos, c.call.value, r, copied)
  }

  /** The atomic memory can go from `a` to `b` showing exactly `trace`. */
  ghost predicate AtomicRun(a: Atomic, trace: seq<Label>, b: Atomic)
    decreases trace
  {
    if trace == [] then a == b
    else exists mid :: AtomicStep(a, trace[0], mid) && AtomicRun(mid, trace[1..], b)
  }

  // ---------------------------------------------------------------------
  // When a successful write has stored its user's bytes
  // ---------------------------------------------------------------------

  lemma PatchNothing(m: seq<Byte>, a: nat, d: seq<Byte>)
    requires a <= |m| && |d| == 0
    ensures Patch(m, a, d) == m
  {
  }

  lemma PatchReads(m: seq<Byte>, a: nat, d: seq<Byte>)
    requires a + |d| <= |m|
    ensures Patch(m, a, d)[a..a + |d|] == d
  {
  }

  lemma PatchInjective(m: seq<Byte>, a: nat, d: seq<Byte>, e: seq<Byte>)
    requires |d| == |e| && a + |d| <= |m| && Patch(m, a, d) == Patch(m, a, e)
    ensures d == e
  {
    PatchReads(m, a, d);
    PatchReads(m, a, e);
  }

  lemma StoredPatch(m: seq<Byte>, a: nat, d: seq<Byte>, e: seq<Byte>)
    requires |d| == |e| && a + |d| <= |m|
    ensures Patch(m, a, d) == Patch(m, a, e) <==> d == e
  {
    if Patch(m, a, d) == Patch(m, a, e) {
      PatchInjective(m, a, d, e);
    }
  }

  /** A write that copied all it transferred puts exactly its user's bytes in place. */
  lemma FullCopy(m: seq<Byte>, m': seq<Byte>, w: Window, pos: nat, bytes: seq<Byte>, n: nat, data: seq<Byte>, copied: nat)
    requires Effect(m, m', w, pos, WriteOp(bytes), Done(n, data), copied) && copied >= n
    ensures m' == Patch(m, w.base + pos, bytes[..n])
  {
    var d :| Updates(m, m', w.base + pos, d, n, bytes[..n]);
    assert d == bytes[..n];
  }

  /** What the buffer holds after a copy of the first `copied` user bytes. */
  function CopiedOver(buffer: seq<Byte>, bytes: seq<Byte>, copied: nat): (b: seq<Byte>)
    requires copied <= |bytes| <= |buffer|
    ensures |b| == |buffer|
  {
    bytes[..copied] + buffer[copied..]
  }

  /** The first `n` bytes are then the user's if and only if so many were copied, or the rest was there before. */
  lemma StoredExactly(buffer: seq<Byte>, bytes: seq<Byte>, copied: nat, n: nat)
    requires copied <= |bytes| <= |buffer| && n <= |bytes|
    ensures CopiedOver(buffer, bytes, copied)[..n] == bytes[..n] <==> copied >= n || buffer[copied..n] == bytes[copied..n]
  {
    var b := CopiedOver(buffer, bytes, copied);
    if copied < n {
      assert b[..n] == bytes[..copied] + buffer[copied..n];
      assert bytes[..n] == bytes[..copied] + bytes[copied..n];
      assert b[..n][copied..] == buffer[copied..n] && bytes[..n][copied..] == bytes[copied..n];
    } else {
      assert b[..n] == bytes[..n];
    }
  }

  /** The user's bytes with one behind the copied part changed. */
  function Spoilt(bytes: seq<Byte>, n: nat, copied: nat): (d: seq<Byte>)
    requires copied < n <= |bytes|
    ensures |d| == n && bytes[..copied] <= d && d != bytes[..n]
  {
    var d := bytes[..n][copied := if bytes[copied] == 0 then 1 else 0];
    assert d[copied] != bytes[..n][copied];
    assert d[..copied] == bytes[..copied];
    d
  }

  /**
   A successful write is bound to have stored its user's bytes if and only if
   it copied at least as many as it transferred.
   */
  lemma WriteIsExact(m: seq<Byte>, w: Window, pos: nat, bytes: seq<Byte>, n: nat, data: seq<Byte>, copied: nat)
    requires w.base + w.length <= |m| && 0 < n <= |bytes| && pos + n <= w.length && copied <= |bytes|
    ensures (forall m' :: Effect(m, m', w, pos, WriteOp(bytes), Done(n, data), copied) ==>
                            m' == Patch(m, w.base + pos, bytes[..n])) <==> copied >= n
  {
    var a := w.base + pos;
    if copied >= n {
      forall m' | Effect(m, m', w, pos, WriteOp(bytes), Done(n, data), copied)
        ensures m' == Patch(m, a, bytes[..n])
      {
        FullCopy(m, m', w, pos, bytes, n, data, copied);
      }
    } else {
      var d := Spoilt(bytes, n, copied);
      var m' := Patch(m, a, d);
      assert Updates(m, m', a, d, n, bytes[..Min(copied, n)]);
      assert Effect(m, m', w, pos, WriteOp(bytes), Done(n, data), copied);
      PatchReads(m, a, d);
      PatchReads(m, a, bytes[..n]);
    }
  }
}
