/**
 The arithmetic of the DMA file device: how a request at a file position in a
 memory window becomes one aligned transfer, and what repeated reads yield.
 */
module DmaWindow {
  import opened Wrappers
  import opened Bits

  /** The DMA limits fixed at initialisation. */
  datatype DmaConfig = DmaConfig(shift: nat, blockShift: nat, bufferDma: nat) {

    /** Page-sized or larger buffer, and an alignment it can hold. */
    predicate Valid() {
      12 <= blockShift <= 30 && shift <= blockShift && shift <= 22 && bufferDma < WORD64
    }

    function Alignment(): (a: nat)
      ensures a > 0
    {
      Pow2(shift)
    }

    function BufferSize(): (n: nat)
      ensures n > 0
    {
      Pow2(blockShift)
    }

    /** `max_transfer`: 23 bits of byte count, aligned down. */
    function MaxTransfer(): nat
      requires Alignment() <= WORD64
    {
      AlignDown(Min(MAX_DMA_TRANSFER, BufferSize()), Alignment())
    }
  }

  const MAX_DMA_TRANSFER := 0x7f_ffff

  /** struct memory_context: a device address range, far from 64-bit wrap. */
  datatype Window = Window(base: nat, length: nat) {
    predicate Valid() {
      base + length < WORD64 / 2
    }
  }

  lemma AlignmentFits(c: DmaConfig)
    requires c.Valid()
    ensures c.Alignment() <= Pow2(22) == 0x40_0000
    ensures c.Alignment() <= c.BufferSize() <= Pow2(30) < WORD64
  {
    Pow2Monotone(c.shift, 22);
    Pow2Monotone(c.shift, c.blockShift);
    Pow2Monotone(c.blockShift, 30);
    Pow2Monotone(30, 32);
    Pow2Constants();
  }

  /** What one transfer can move at most: the count register and the buffer, in whole blocks. */
  function Largest(c: DmaConfig): nat {
    Down(Min(MAX_DMA_TRANSFER, c.BufferSize()), c.Alignment())
  }

  /** `max_transfer` is the largest multiple of the alignment within both limits, and not zero. */
  lemma MaxTransferMeaning(c: DmaConfig)
    requires c.Valid()
    ensures c.Alignment() <= WORD64 && c.MaxTransfer() == Largest(c)
    ensures c.Alignment() <= c.MaxTransfer() <= MAX_DMA_TRANSFER
    ensures c.MaxTransfer() <= c.BufferSize() && c.MaxTransfer() % c.Alignment() == 0
    ensures forall n: nat :: n % c.Alignment() == 0 && n <= MAX_DMA_TRANSFER && n <= c.BufferSize() ==> n <= c.MaxTransfer()
  {
    AlignmentFits(c);
    var a, m := c.Alignment(), Min(MAX_DMA_TRANSFER, c.BufferSize());
    AlignDownMeaning(m, c.shift);
    RoundDown(m, a);
    ModUnique(a, a, 1, 0);
    MultipleBelow(a, m, a);
    forall n: nat | n % a == 0 && n <= m
      ensures n <= Down(m, a)
    {
      MultipleBelow(n, m, a);
    }
  }

  // ---------------------------------------------------------------------
  // Planning a read
  // ---------------------------------------------------------------------

  /** The outcome of the arithmetic at the top of `amc_pci_dma_read`. */
  datatype ReadPlan =
    | AtEnd                                             // returns 0
    | Fault                                             // returns -EFAULT
    | Transfer(inOffset: nat, addr: nat, count: nat)

  /** Clips the `asked` bytes to the window, where `rest` is what is left rounded down. */
  function ClipRead(w: Window, pos: nat, inOffset: nat, asked: nat, rest: nat): ReadPlan
    requires inOffset <= pos
  {
    var addr := w.base + pos - inOffset;
    var n := if addr + asked > w.base + w.length then rest else asked;
    if n == 0 then Fault else Transfer(inOffset, addr, n)
  }

  /** The part of the position below the alignment: `offset & (alignment - 1)`. */
  function InOffset(c: DmaConfig, pos: nat): (r: nat)
    ensures r == And(pos, c.Alignment() - 1)
  {
    AndLowMask(pos, c.shift);
    pos - Down(pos, c.Alignment())
  }

  /** A count rounded up to the alignment: `ALIGN(x, alignment)`. */
  function Asked(c: DmaConfig, x: nat): (r: nat)
    requires c.Valid() && x < WORD64 / 2 + c.Alignment()
    ensures c.Alignment() <= WORD64 && r == Align(x, c.Alignment())
  {
    AlignmentFits(c);
    AlignMeaning(x, c.shift);
    Up(x, c.Alignment())
  }

  /** What is left of the window, rounded down: `ALIGN_DOWN(x, alignment)`. */
  function Rest(c: DmaConfig, x: nat): (r: nat)
    requires c.Valid() && x < WORD64
    ensures c.Alignment() <= WORD64 && r == AlignDown(x, c.Alignment())
  {
    AlignmentFits(c);
    AlignDownMeaning(x, c.shift);
    Down(x, c.Alignment())
  }

  function PlanRead(c: DmaConfig, w: Window, pos: nat, count: nat): ReadPlan
    requires c.Valid() && w.Valid() && count < WORD64 / 2
  {
    if pos == w.length then AtEnd
    else if pos > w.length then Fault
    else
      var inOffset := InOffset(c, pos);
      ClipRead(w, pos, inOffset, Asked(c, count + inOffset), Rest(c, w.base + w.length - (w.base + pos - inOffset)))
  }

  /** Rounding a request of `count` bytes at `pos` in `length` bytes, in multiples of `a`. */
  lemma ClippedRounding(a: nat, length: nat, pos: nat, count: nat)
    requires a > 0 && pos < length
    ensures var start := Down(pos, a); var asked := Up(count + (pos - start), a);
            var n := if start + asked > length then Down(length - start, a) else asked;
            && (n == 0 <==> pos >= Down(length, a) || (count == 0 && pos == start))
            && n % a == 0 && (n > 0 ==> n >= a && start + n <= Down(length, a))
            && start + n == Min(Up(pos + count, a), Down(length, a))
  {
    var start := Down(pos, a);
    var left := length - start;
    var asked := Up(count + (pos - start), a);
    RoundDown(pos, a);
    RoundDown(left, a);
    RoundUp(count + (pos - start), a);
    DownShift(length, start, a);
    UpShift(count + (pos - start), start, a);
    MultipleBelow(start, length, a);
    ModUnique(0, a, 0, 0);
    if start + asked > length {
      if Down(left, a) > 0 {
        MultiplesApart(0, Down(left, a), a);
      }
    } else if asked > 0 {
      MultiplesApart(0, asked, a);
      ModSum(start, asked, a);
      MultipleBelow(start + asked, length, a);
    }
  }

  lemma UpShift(x: nat, s: nat, a: nat)
    requires a > 0 && s % a == 0
    ensures Up(s + x, a) == s + Up(x, a)
  {
    DownShift(s + x + (a - 1), s, a);
  }

  /**
   The plan of a read inside the window: it faults exactly when nothing is
   asked from an aligned position or the position lies in the unaligned tail;
   otherwise the transfer is a positive multiple of the alignment, starts at
   the aligned address at or below the position, and ends where the request
   ends, rounded up, or the window ends, rounded down.
   */
  lemma PlanReadMeaning(c: DmaConfig, w: Window, pos: nat, count: nat)
    requires c.Valid() && w.Valid() && count < WORD64 / 2 && pos < w.length
    ensures var a := c.Alignment(); var p := PlanRead(c, w, pos, count);
            && !p.AtEnd?
            && (p.Fault? <==> pos >= Down(w.length, a) || (count == 0 && pos == Down(pos, a)))
            && (p.Transfer? ==>
                  && p.inOffset == pos - Down(pos, a) && p.addr == w.base + Down(pos, a)
                  && p.count % a == 0 && p.count >= a
                  && Down(pos, a) + p.count == Min(Up(pos + count, a), Down(w.length, a)))
  {
    ClippedRounding(c.Alignment(), w.length, pos, count);
  }

  /** The plan of a read at any position. */
  lemma PlanReadExactly(c: DmaConfig, w: Window, pos: nat, count: nat, p: ReadPlan)
    requires c.Valid() && w.Valid() && count < WORD64 / 2 && p == PlanRead(c, w, pos, count)
    ensures var a := c.Alignment();
            && (p.Transfer? <==> pos < Down(w.length, a) && (count > 0 || pos % a != 0))
            && (p.Transfer? ==>
                  && p.inOffset == pos - Down(pos, a) && p.addr == w.base + Down(pos, a)
                  && p.count == Min(Up(pos + count, a), Down(w.length, a)) - Down(pos, a))
  {
    if pos < w.length {
      PlanReadMeaning(c, w, pos, count);
    }
  }

  // ---------------------------------------------------------------------
  // Transfers and file positions
  // ---------------------------------------------------------------------

  /** The count `dma_operation_unlocked` programs for a request of `n` bytes. */
  function TransferCount(c: DmaConfig, n: nat): nat
    requires c.Alignment() <= WORD64
  {
    if n > c.MaxTransfer() then c.MaxTransfer() else n
  }

  /** The file position after `n` bytes: back to the start once the end is reached. */
  function Advance(w: Window, pos: nat, n: nat): nat {
    if pos + n >= w.length then 0 else pos + n
  }

  /** How many bytes a read can hand out: at least one if any were asked for. */
  function Available(c: DmaConfig, p: ReadPlan, count: nat): int
    requires p.Transfer? && c.Alignment() <= WORD64
  {
    Min(count, TransferCount(c, p.count) - p.inOffset)
  }

  /** The transfer of a read, as programmed: aligned, bounded, and all of it inside the window. */
  lemma ReadTransfer(c: DmaConfig, w: Window, pos: nat, count: nat)
    requires c.Valid() && w.Valid() && count < WORD64 / 2 && pos < w.length
    requires PlanRead(c, w, pos, count).Transfer?
    ensures c.Alignment() <= WORD64
    ensures var p := PlanRead(c, w, pos, count); var n := TransferCount(c, p.count);
            && 0 < n <= MAX_DMA_TRANSFER && n <= c.BufferSize() && n % c.Alignment() == 0
            && w.base <= p.addr && p.addr + n <= w.base + w.length
            && (w.base % c.Alignment() == 0 ==> p.addr % c.Alignment() == 0)
            && p.addr + p.inOffset == w.base + pos && p.inOffset < n
            && pos + Available(c, p, count) <= Down(w.length, c.Alignment())
            && (count > 0 ==> Available(c, p, count) > 0)
  {
    PlanReadMeaning(c, w, pos, count);
    MaxTransferMeaning(c);
    RoundDown(pos, c.Alignment());
    ModSum(w.base, Down(pos, c.Alignment()), c.Alignment());
  }

  // ---------------------------------------------------------------------
  // Repeated reads
  // ---------------------------------------------------------------------

  /** A read call, and how many bytes the copy to user space takes. */
  datatype ReadCall = ReadCall(count: nat, copied: nat)

  /** Bytes handed out by a read whose transfer succeeds; `None` is an error or an empty read. */
  function ReadBytes(c: DmaConfig, w: Window, pos: nat, r: ReadCall): Option<nat>
    requires c.Valid() && w.Valid() && r.count < WORD64 / 2
  {
    MaxTransferMeaning(c);
    var p := PlanRead(c, w, pos, r.count);
    if p.Transfer? && Min(r.copied, Available(c, p, r.count)) > 0
    then Some(Min(r.copied, Available(c, p, r.count))) else None
  }

  /** The output and the position after consecutive successful reads from the start. */
  datatype Stream = Stream(out: seq<Byte>, pos: nat)

  /** One more read. */
  function ReadOn(c: DmaConfig, w: Window, mem: seq<Byte>, s: Stream, call: ReadCall): Option<Stream>
    requires c.Valid() && w.Valid() && w.base + w.length <= |mem| && call.count < WORD64 / 2
  {
    ReadBytesInside(c, w, s.pos, call);
    match ReadBytes(c, w, s.pos, call)
    case None => None
    case Some(got) => Some(Stream(s.out + mem[w.base + s.pos..w.base + s.pos + got], Advance(w, s.pos, got)))
  }

  function ReadAll(c: DmaConfig, w: Window, mem: seq<Byte>, calls: seq<ReadCall>): Option<Stream>
    requires c.Valid() && w.Valid() && w.base + w.length <= |mem|
    requires forall i :: 0 <= i < |calls| ==> calls[i].count < WORD64 / 2
  {
    if calls == [] then Some(Stream([], 0))
    else
      match ReadAll(c, w, mem, calls[..|calls| - 1])
      case None => None
      case Some(s) => ReadOn(c, w, mem, s, calls[|calls| - 1])
  }

  /**
   A read succeeds exactly from positions below the rounded-down length. It
   hands out what was asked for and can be copied, as far as the window in whole
   blocks and the largest transfer from the block of its position reach.
   */
  lemma ReadBytesInside(c: DmaConfig, w: Window, pos: nat, r: ReadCall)
    requires c.Valid() && w.Valid() && r.count < WORD64 / 2
    ensures var got := ReadBytes(c, w, pos, r);
            && (got.Some? <==> r.count > 0 && r.copied > 0 && pos < Down(w.length, c.Alignment()))
            && (got.Some? ==> 0 < got.value <= r.count && pos + got.value <= Down(w.length, c.Alignment()))
            && (got.Some? ==> got.value == Min(r.copied, Min(r.count, Reach(c, w, pos) - pos)))
  {
    if pos < w.length {
      PlanReadMeaning(c, w, pos, r.count);
      if PlanRead(c, w, pos, r.count).Transfer? {
        ReadTransfer(c, w, pos, r.count);
        AvailableExactly(c, w, pos, r.count, PlanRead(c, w, pos, r.count));
      }
    }
  }

  /** How far a read at `pos` can get: to the window's last whole block, or the end of the largest transfer. */
  function Reach(c: DmaConfig, w: Window, pos: nat): nat {
    Min(Down(w.length, c.Alignment()), Down(pos, c.Alignment()) + Largest(c))
  }

  lemma AvailableExactly(c: DmaConfig, w: Window, pos: nat, count: nat, p: ReadPlan)
    requires c.Valid() && w.Valid() && count < WORD64 / 2 && pos < w.length
    requires p == PlanRead(c, w, pos, count) && p.Transfer?
    ensures c.Alignment() <= WORD64 && Available(c, p, count) == Min(count, Reach(c, w, pos) - pos)
  {
    PlanReadMeaning(c, w, pos, count);
    MaxTransferMeaning(c);
  }

  lemma Wrapped(t: nat, n: nat, length: nat)
    requires length > 0 && t % length + n <= length
    ensures (t + n) % length == if t % length + n == length then 0 else t % length + n
  {
    var q, r := t / length, t % length;
    assert t == q * length + r;
    if r + n == length {
      assert (q + 1) * length == q * length + length;
      ModUnique(t + n, length, q + 1, 0);
    } else {
      ModUnique(t + n, length, q, r + n);
    }
  }

  /** Byte `i` of the window's contents repeated for ever. */
  function Repeated(w: Window, mem: seq<Byte>, i: nat): Byte
    requires w.length > 0 && w.base + w.length <= |mem|
  {
    mem[w.base + i % w.length]
  }

  ghost predicate Cycles(w: Window, mem: seq<Byte>, b: seq<Byte>)
    requires w.length > 0 && w.base + w.length <= |mem|
  {
    forall i :: 0 <= i < |b| ==> b[i] == Repeated(w, mem, i)
  }

  lemma RepeatedAhead(w: Window, mem: seq<Byte>, t: nat, pos: nat, j: nat)
    requires w.length > 0 && w.base + w.length <= |mem| && pos == t % w.length && pos + j < w.length
    ensures Repeated(w, mem, t + j) == mem[w.base + pos + j]
  {
    Wrapped(t, j, w.length);
  }

  lemma MatchExtends(f: nat -> Byte, b: seq<Byte>, more: seq<Byte>)
    requires forall i: nat :: i < |b| ==> b[i] == f(i)
    requires forall j: nat :: j < |more| ==> more[j] == f(|b| + j)
    ensures forall i: nat :: i < |b + more| ==> (b + more)[i] == f(i)
  {
    forall i: nat | i < |b + more|
      ensures (b + more)[i] == f(i)
    {
      if i >= |b| {
        var j: nat := i - |b|;
        assert more[j] == f(|b| + j);
      }
    }
  }

  lemma CycleExtends(w: Window, mem: seq<Byte>, b: seq<Byte>, pos: nat, got: nat)
    requires w.length > 0 && w.base + w.length <= |mem| && Cycles(w, mem, b)
    requires pos == |b| % w.length && pos + got <= w.length
    ensures Cycles(w, mem, b + mem[w.base + pos..w.base + pos + got])
  {
    var f := (i: nat) => Repeated(w, mem, i);
    var more := mem[w.base + pos..w.base + pos + got];
    forall j: nat | j < |more|
      ensures more[j] == f(|b| + j)
    {
      RepeatedAhead(w, mem, |b|, pos, j);
    }
    MatchExtends(f, b, more);
    assert forall i: nat :: i < |b + more| ==> (b + more)[i] == f(i);
  }

  /** The last of several successful reads: its part of the output, inside the usable window. */
  lemma LastRead(c: DmaConfig, w: Window, mem: seq<Byte>, calls: seq<ReadCall>) returns (s: Stream, got: nat)
    requires c.Valid() && w.Valid() && w.base + w.length <= |mem|
    requires forall i :: 0 <= i < |calls| ==> calls[i].count < WORD64 / 2
    requires calls != [] && ReadAll(c, w, mem, calls).Some?
    ensures ReadAll(c, w, mem, calls[..|calls| - 1]) == Some(s)
    ensures 0 < got && s.pos + got <= Down(w.length, c.Alignment())
    ensures ReadAll(c, w, mem, calls).value
            == Stream(s.out + mem[w.base + s.pos..w.base + s.pos + got], Advance(w, s.pos, got))
  {
    var last := calls[|calls| - 1];
    s := ReadAll(c, w, mem, calls[..|calls| - 1]).value;
    got := ReadOnMeaning(c, w, mem, s, last);
  }

  lemma ReadOnMeaning(c: DmaConfig, w: Window, mem: seq<Byte>, s: Stream, call: ReadCall) returns (got: nat)
    requires c.Valid() && w.Valid() && w.base + w.length <= |mem| && call.count < WORD64 / 2
    requires ReadOn(c, w, mem, s, call).Some?
    ensures 0 < got && s.pos + got <= Down(w.length, c.Alignment())
    ensures ReadOn(c, w, mem, s, call).value
            == Stream(s.out + mem[w.base + s.pos..w.base + s.pos + got], Advance(w, s.pos, got))
  {
    ReadBytesInside(c, w, s.pos, call);
    got := ReadBytes(c, w, s.pos, call).value;
  }

  /** After `n` reads: at least `n` bytes, cycling through the window, position in step. */
  ghost predicate InCycle(w: Window, mem: seq<Byte>, s: Stream, n: nat)
    requires w.length > 0 && w.base + w.length <= |mem|
  {
    |s.out| >= n && s.pos == |s.out| % w.length && Cycles(w, mem, s.out)
  }

  lemma CycleStep(w: Window, mem: seq<Byte>, s: Stream, n: nat, got: nat)
    requires w.length > 0 && w.base + w.length <= |mem| && InCycle(w, mem, s, n)
    requires 0 < got && s.pos + got <= w.length
    ensures InCycle(w, mem, Stream(s.out + mem[w.base + s.pos..w.base + s.pos + got], Advance(w, s.pos, got)), n + 1)
  {
    CycleExtends(w, mem, s.out, s.pos, got);
    Wrapped(|s.out|, got, w.length);
  }

  /**
   With an aligned length, any successful reads from the start return the
   window's contents over and over, at least one byte each, and the position
   stays inside the window.
   */
  lemma {:induction false} ReadsCycle(c: DmaConfig, w: Window, mem: seq<Byte>, calls: seq<ReadCall>)
    requires c.Valid() && w.Valid() && w.base + w.length <= |mem|
    requires forall i :: 0 <= i < |calls| ==> calls[i].count < WORD64 / 2
    requires w.length > 0 && w.length % c.Alignment() == 0
    requires ReadAll(c, w, mem, calls).Some?
    ensures InCycle(w, mem, ReadAll(c, w, mem, calls).value, |calls|)
  {
    if calls == [] {
      ModUnique(0, w.length, 0, 0);
    } else {
      var s, got := LastRead(c, w, mem, calls);
      ReadsCycle(c, w, mem, calls[..|calls| - 1]);
      CycleStep(w, mem, s, |calls| - 1, got);
    }
  }

  /** After `n` reads that cannot wrap: the window's first bytes, once. */
  ghost predicate InPrefix(c: DmaConfig, w: Window, mem: seq<Byte>, s: Stream, n: nat)
    requires w.base + w.length <= |mem|
  {
    n <= |s.out| == s.pos <= Down(w.length, c.Alignment()) && s.out == mem[w.base..w.base + s.pos]
  }

  lemma PrefixStep(c: DmaConfig, w: Window, mem: seq<Byte>, s: Stream, n: nat, got: nat)
    requires w.base + w.length <= |mem| && InPrefix(c, w, mem, s, n)
    requires Down(w.length, c.Alignment()) < w.length
    requires 0 < got && s.pos + got <= Down(w.length, c.Alignment())
    ensures InPrefix(c, w, mem, Stream(s.out + mem[w.base + s.pos..w.base + s.pos + got], Advance(w, s.pos, got)), n + 1)
  {
    SliceGrows(mem, w.base, s.pos, got);
  }

  /**
   With an unaligned length, successful reads from the start return a prefix of
   the rounded-down window, once: the position never wraps. From the tail, where
   it then stands, `ReadBytesInside` says that every further read fails.
   */
  lemma {:induction false} ReadsStopShort(c: DmaConfig, w: Window, mem: seq<Byte>, calls: seq<ReadCall>)
    requires c.Valid() && w.Valid() && w.base + w.length <= |mem|
    requires forall i :: 0 <= i < |calls| ==> calls[i].count < WORD64 / 2
    requires Down(w.length, c.Alignment()) < w.length
    requires ReadAll(c, w, mem, calls).Some?
    ensures InPrefix(c, w, mem, ReadAll(c, w, mem, calls).value, |calls|)
  {
    if calls != [] {
      var s, got := LastRead(c, w, mem, calls);
      ReadsStopShort(c, w, mem, calls[..|calls| - 1]);
      PrefixStep(c, w, mem, s, |calls| - 1, got);
    }
  }

  lemma SliceGrows(mem: seq<Byte>, base: nat, i: nat, n: nat)
    requires base + i + n <= |mem|
    ensures mem[base..base + i] + mem[base + i..base + i + n] == mem[base..base + (i + n)]
  {
  }
}
