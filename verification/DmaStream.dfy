/**
 What one handle reads in a run of the device in which nobody writes: the
 contents of its window over and over, whatever the other handles read.
 */
module DmaStream {
  import opened Bits
  import opened DmaWindow
  import opened DmaSystem
  import opened AtomicMemory
  import opened DmaAtomic
  import opened DmaRefinement

  /** No write is called. */
  predicate NoWrites(trace: seq<Label>) {
    forall i :: 0 <= i < |trace| ==> trace[i].Invoked? ==> trace[i].op.ReadOp?
  }

  predicate OnlyReadsPending(a: Atomic) {
    forall t :: t in a.clients && a.clients[t].call.Some? ==> a.clients[t].call.value.ReadOp?
  }

  /** The bytes a label hands to `t`. */
  function Given(l: Label, t: Tid): seq<Byte> {
    if l.Responded? && l.t == t && l.result.Done? then l.result.data else []
  }

  /** All the bytes handed to `t`, and in how many answers. */
  function Output(trace: seq<Label>, t: Tid): seq<Byte> {
    if trace == [] then [] else Given(trace[0], t) + Output(trace[1..], t)
  }

  function Answers(trace: seq<Label>, t: Tid): nat {
    if trace == [] then 0 else (if Given(trace[0], t) != [] then 1 else 0) + Answers(trace[1..], t)
  }

  /** Where handle `t` stands after reading `out` in `n` answers. */
  ghost predicate ReadSoFar(a: Atomic, t: Tid, w: Window, mem: seq<Byte>, out: seq<Byte>, n: nat)
    requires w.length > 0 && w.base + w.length <= |mem|
  {
    && a.mem == mem && OnlyReadsPending(a) && t in a.clients && a.clients[t].window == w
    && InCycle(w, mem, Stream(out, a.clients[t].pos), n)
  }

  lemma ReadsOneMore(a: Atomic, l: Label, b: Atomic, t: Tid, w: Window, mem: seq<Byte>, out: seq<Byte>, n: nat)
    requires w.length > 0 && w.base + w.length <= |mem| && ReadSoFar(a, t, w, mem, out, n)
    requires AtomicStep(a, l, b) && (l.Invoked? ==> l.op.ReadOp?)
    ensures ReadSoFar(b, t, w, mem, out + Given(l, t), n + if Given(l, t) != [] then 1 else 0)
  {
    assert out + [] == out;
    if l.Responded? && l.t == t && l.result.Done? {
      CycleStep(w, mem, Stream(out, a.clients[t].pos), n, l.result.n);
    }
  }

  lemma FirstStep(a: Atomic, trace: seq<Label>, b: Atomic) returns (mid: Atomic)
    requires AtomicRun(a, trace, b) && trace != []
    ensures AtomicStep(a, trace[0], mid) && AtomicRun(mid, trace[1..], b)
  {
    mid :| AtomicStep(a, trace[0], mid) && AtomicRun(mid, trace[1..], b);
  }

  lemma FirstGiven(trace: seq<Label>, t: Tid, out: seq<Byte>, all: seq<Byte>)
    requires trace != [] && all == out + Output(trace, t)
    ensures all == out + Given(trace[0], t) + Output(trace[1..], t)
    ensures Answers(trace, t) == (if Given(trace[0], t) != [] then 1 else 0) + Answers(trace[1..], t)
  {
  }

  /** `all` and `k` are the bytes and answers at the end of the run. */
  lemma {:induction false} ReadsOn(a: Atomic, trace: seq<Label>, b: Atomic, t: Tid, w: Window, mem: seq<Byte>,
                                   out: seq<Byte>, n: nat, all: seq<Byte>, k: nat)
    requires w.length > 0 && w.base + w.length <= |mem| && ReadSoFar(a, t, w, mem, out, n)
    requires AtomicRun(a, trace, b) && NoWrites(trace) && all == out + Output(trace, t) && k == n + Answers(trace, t)
    ensures ReadSoFar(b, t, w, mem, all, k)
    decreases trace
  {
    if trace == [] {
      assert all == out;
    } else {
      var mid := FirstStep(a, trace, b);
      var given := Given(trace[0], t);
      ReadsOneMore(a, trace[0], mid, t, w, mem, out, n);
      FirstGiven(trace, t, out, all);
      ReadsOn(mid, trace[1..], b, t, w, mem, out + given, n + if given != [] then 1 else 0, all, k);
    }
  }

  /**
   In every sound run from the start in which nobody writes, what a handle's
   successful reads return, put together, is its window repeated for ever as
   far as it goes, at least a byte in each.
   */
  lemma HandleReadsCycle(s0: System, steps: seq<Step>, t: Tid)
    requires Init(s0) && Runs(s0, steps) && SoundRun(s0, steps) && NoWrites(Trace(s0, steps))
    requires t in s0.threads && s0.threads[t].pos == 0 && s0.threads[t].window.length > 0
    ensures Cycles(s0.threads[t].window, s0.mem, Output(Trace(s0, steps), t))
    ensures |Output(Trace(s0, steps), t)| >= Answers(Trace(s0, steps), t)
  {
    var w, trace := s0.threads[t].window, Trace(s0, steps);
    SoundRunsAreAtomic(s0, steps);
    ModUnique(0, w.length, 0, 0);
    assert [] + Output(trace, t) == Output(trace, t);
    ReadsOn(Abs(s0), trace, Abs(After(s0, steps)), t, w, s0.mem, [], 0, Output(trace, t), Answers(trace, t));
  }
}
