/**
 The DMA file device as the driver's code runs it for one caller: the read and
 write calls with their statements in order, over a control structure with its
 bounce buffer and status. What hardware and user copies do is a parameter.
 */
module DmaFile {
  import opened Wrappers
  import opened Errno
  import opened Bits
  import opened DmaWindow
  import opened DmaSystem
  import opened AtomicMemory

  /** The outcome of the hardware steps of one operation. */
  datatype Hardware = Hardware(resetWorks: bool, errorAfter: Option<nat>)

  /** struct dma_control, with the device memory the engine reaches. */
  class DmaControl {
    const cfg: DmaConfig
    const buffer: array<Byte>
    const memory: array<Byte>
    var errorBits: bool
    var busy: bool          // not idle: a transfer left behind by a killed wait

    ghost predicate Valid()
      reads this
    {
      cfg.Valid() && buffer.Length == cfg.BufferSize() && buffer != memory
    }

    /** The test of `maybe_reset_dma`. */
    predicate NeedsReset()
      reads this
    {
      errorBits || busy
    }

    constructor (cfg: DmaConfig, memory: array<Byte>)
      requires cfg.Valid()
      ensures Valid() && this.cfg == cfg && this.memory == memory && fresh(buffer) && !NeedsReset()
    {
      this.cfg := cfg;
      this.memory := memory;
      this.buffer := new Byte[cfg.BufferSize()](_ => 0);
      this.errorBits, this.busy := false, false;
    }

    /** The engine moves `n` bytes between `start` and the buffer. */
    method MoveBytes(start: nat, n: nat, toDevice: bool)
      requires Valid() && start + n <= memory.Length && n <= buffer.Length
      modifies buffer, memory
      ensures toDevice ==> buffer[..] == old(buffer[..]) && memory[..] == Patch(old(memory[..]), start, old(buffer[..n]))
      ensures !toDevice ==> memory[..] == old(memory[..]) && buffer[..] == Patch(old(buffer[..]), 0, old(memory[start..start + n]))
    {
      var i := 0;
      while i < n
        invariant 0 <= i <= n
        invariant toDevice ==> buffer[..] == old(buffer[..])
        invariant toDevice ==> forall k :: 0 <= k < memory.Length ==>
                    memory[k] == if start <= k < start + i then old(buffer[k - start]) else old(memory[k])
        invariant !toDevice ==> memory[..] == old(memory[..])
        invariant !toDevice ==> forall k :: 0 <= k < buffer.Length ==>
                    buffer[k] == if k < i then old(memory[start + k]) else old(buffer[k])
      {
        if toDevice {
          memory[start + i] := buffer[i];
        } else {
          buffer[i] := memory[start + i];
        }
        i := i + 1;
      }
    }

    /**
     `dma_operation_unlocked`, without a killed wait. With `n` bytes to move, the
     transfer is refused, or not started for want of a reset, or started; it then
     moves all of them or ends in an error after some.
     */
    method Operation(start: nat, count: nat, toDevice: bool, hw: Hardware) returns (rc: int, ghost moved: nat)
      requires Valid() && start + Min(count, Largest(cfg)) <= memory.Length
      modifies this`errorBits, this`busy, buffer, memory
      ensures Valid()
      ensures var n := Min(count, Largest(cfg));
              rc == if !InBlocks(cfg, start, n) then -EINVAL
                    else if (old(NeedsReset()) && !hw.resetWorks) || hw.errorAfter.Some? then -EIO
                    else n
      ensures var n := Min(count, Largest(cfg));
              moved == if !InBlocks(cfg, start, n) || (old(NeedsReset()) && !hw.resetWorks) then 0
                       else if hw.errorAfter.Some? then Min(hw.errorAfter.value, n)
                       else n
      ensures if !InBlocks(cfg, start, Min(count, Largest(cfg))) || (old(NeedsReset()) && !hw.resetWorks)
              then errorBits == old(errorBits) && busy == old(busy)
              else errorBits == hw.errorAfter.Some? && !busy
      ensures moved <= Largest(cfg) <= buffer.Length && start + moved <= memory.Length
      ensures toDevice ==> buffer[..] == old(buffer[..]) && memory[..] == Patch(old(memory[..]), start, old(buffer[..moved]))
      ensures !toDevice ==> memory[..] == old(memory[..]) && buffer[..] == Patch(old(buffer[..]), 0, old(memory[start..start + moved]))
    {
      ClippedMeaning(cfg, count);
      MaxTransferMeaning(cfg);
      var n := Clipped(cfg, count);
      moved := 0;
      rc := Configure(start, n, hw);
      if rc < 0 {
        PatchNothing(memory[..], start, buffer[..0]);
        PatchNothing(buffer[..], 0, memory[start..start + 0]);
        return;
      }
      var m := if hw.errorAfter.Some? && hw.errorAfter.value < n then hw.errorAfter.value else n;
      MoveBytes(start, m, toDevice);
      moved := m;
      if hw.errorAfter.Some? {
        errorBits := true;
        return -EIO, moved;
      }
      return n, moved;
    }

    /** `configure_dma_engine` with `maybe_reset_dma`. */
    method Configure(start: nat, n: nat, hw: Hardware) returns (rc: int)
      modifies this`errorBits, this`busy
      ensures rc == if !InBlocks(cfg, start, n) then -EINVAL else if old(NeedsReset()) && !hw.resetWorks then -EIO else 0
      ensures rc == 0 ==> !NeedsReset()
      ensures rc != 0 ==> errorBits == old(errorBits) && busy == old(busy)
    {
      AlignedMeaning(cfg, start, n);
      if !Aligned(cfg, start, n) {
        return -EINVAL;
      }
      if NeedsReset() {
        if !hw.resetWorks {
          return -EIO;
        }
        errorBits, busy := false, false;
      }
      return 0;
    }
  }

  /** Nothing outside `[lo, hi)` changes. */
  ghost predicate SameOutside(m: seq<Byte>, m': seq<Byte>, lo: nat, hi: nat) {
    |m'| == |m| && forall i :: 0 <= i < |m| && !(lo <= i < hi) ==> m'[i] == m[i]
  }

  lemma PatchIsLocal(m: seq<Byte>, a: nat, d: seq<Byte>, hi: nat)
    requires a + |d| <= hi && a + |d| <= |m|
    ensures SameOutside(m, Patch(m, a, d), a, hi)
  {
  }

  /** What the plan of a read comes to, in plain arithmetic. */
  lemma ReadPlanFacts(c: DmaConfig, w: Window, pos: nat, count: nat, p: ReadPlan)
    requires c.Valid() && w.Valid() && count < WORD64 / 2 && p == PlanRead(c, w, pos, count)
    ensures p.AtEnd? <==> pos == w.length
    ensures var a := c.Alignment(); pos != w.length ==> (p.Fault? <==> Down(w.length, a) <= pos || (count == 0 && pos % a == 0))
    ensures p.Transfer? ==>
              var n := Min(p.count, Largest(c));
              && pos < w.length && 0 < n <= c.BufferSize() && p.addr + n <= w.base + w.length
              && p.inOffset < n && p.addr + p.inOffset == w.base + pos
              && Min(count, n - p.inOffset) == Min(count, Reach(c, w, pos) - pos)
              && (count > 0 ==> Reach(c, w, pos) > pos)
              && (InBlocks(c, p.addr, n) <==> InBlocks(c, w.base, 0))
  {
    var a := c.Alignment();
    RoundDown(w.length, a);
    RoundDown(pos, a);
    if pos < w.length {
      PlanReadMeaning(c, w, pos, count);
      if p.Transfer? {
        ReadTransfer(c, w, pos, count);
        AvailableExactly(c, w, pos, count, p);
        ClippedMeaning(c, p.count);
        ModSum(w.base, Down(pos, a), a);
        ModUnique(0, a, 0, 0);
      }
    }
  }

  /** An open handle: struct memory_context and its file position. */
  class MemoryFile {
    const dma: DmaControl
    const window: Window
    var pos: nat

    ghost predicate Valid()
      reads this, dma
    {
      dma.Valid() && window.Valid() && window.base + window.length <= dma.memory.Length
    }

    constructor (dma: DmaControl, window: Window)
      requires dma.Valid() && window.Valid() && window.base + window.length <= dma.memory.Length
      ensures Valid() && this.dma == dma && this.window == window && pos == 0
    {
      this.dma := dma;
      this.window := window;
      this.pos := 0;
    }

    /** The transfer a read plans lies in the window and the buffer and covers its position. */
    ghost predicate Fits(p: ReadPlan)
      reads this, dma
      requires Valid() && p.Transfer?
    {
      var n := Min(p.count, Largest(dma.cfg));
      && 0 < n <= dma.buffer.Length && p.addr + n <= window.base + window.length
      && p.inOffset < n && p.addr + p.inOffset == window.base + pos
    }

    /**
     `amc_pci_dma_read`; the copy to the user takes up to `copied` bytes. Every
     outcome, and for a success the bytes: as many as asked for and copied, as far
     as the window in whole blocks and the largest transfer reach.
     */
    method Read(count: nat, copied: nat, hw: Hardware) returns (rc: int, data: seq<Byte>)
      requires Valid() && count < WORD64 / 2
      modifies this`pos, dma`errorBits, dma`busy, dma.buffer, dma.memory
      ensures Valid() && dma.memory[..] == old(dma.memory[..])
      ensures var a, was, end := dma.cfg.Alignment(), old(pos), Down(window.length, dma.cfg.Alignment());
              rc == if was == window.length then 0
                    else if end <= was || (count == 0 && was % a == 0) then -EFAULT
                    else if window.base % a != 0 || dma.cfg.bufferDma % a != 0 then -EINVAL
                    else if (old(dma.NeedsReset()) && !hw.resetWorks) || hw.errorAfter.Some? then -EIO
                    else if count == 0 || copied == 0 then -EFAULT
                    else Min(copied, Min(count, Min(end, Down(was, a) + Largest(dma.cfg)) - was))
      ensures rc <= 0 ==> pos == old(pos) && data == []
      ensures rc > 0 ==>
                && old(pos) + rc <= window.length
                && data == old(dma.memory[window.base + pos..window.base + pos + rc])
                && pos == if old(pos) + rc >= window.length then 0 else old(pos) + rc
    {
      data := [];
      var p := PlanRead(dma.cfg, window, pos, count);
      ReadPlanFacts(dma.cfg, window, pos, count, p);
      if p.AtEnd? {
        return 0, data;
      } else if p.Fault? {
        return -EFAULT, data;
      }
      rc, data := ReadPlanned(p, count, copied, hw);
    }

    /** The rest of a read, from the lock on. */
    method ReadPlanned(p: ReadPlan, count: nat, copied: nat, hw: Hardware) returns (rc: int, data: seq<Byte>)
      requires Valid() && p.Transfer? && Fits(p)
      modifies this`pos, dma`errorBits, dma`busy, dma.buffer, dma.memory
      ensures Valid() && dma.memory[..] == old(dma.memory[..])
      ensures var n := Min(p.count, Largest(dma.cfg));
              rc == if !InBlocks(dma.cfg, p.addr, n) then -EINVAL
                    else if (old(dma.NeedsReset()) && !hw.resetWorks) || hw.errorAfter.Some? then -EIO
                    else if count == 0 || copied == 0 then -EFAULT
                    else Min(copied, Min(count, n - p.inOffset))
      ensures rc <= 0 ==> pos == old(pos) && data == []
      ensures rc > 0 ==>
                && old(pos) + rc <= window.length
                && data == old(dma.memory[window.base + pos..window.base + pos + rc])
                && pos == Advance(window, old(pos), rc)
    {
      data := [];
      ghost var moved;
      var got;
      got, moved := dma.Operation(p.addr, p.count, false, hw);
      if got <= 0 {
        return got, data;
      }
      var userCount := Min(copied, Min(count, got - p.inOffset));
      if userCount <= 0 {
        return -EFAULT, data;
      }
      data := dma.buffer[p.inOffset..p.inOffset + userCount];
      PatchedSlice(old(dma.buffer[..]), old(dma.memory[..]), p.addr, got, p.inOffset, userCount);
      pos := Advance(window, pos, userCount);
      return userCount, data;
    }

    /**
     `amc_pci_dma_write`; the copy from the user takes `copied` bytes. Every
     outcome, and what is in the device after it: nothing new unless a transfer
     was started, else as many bytes of the filled buffer as it moved.
     */
    method Write(bytes: seq<Byte>, copied: nat, hw: Hardware) returns (rc: int)
      requires Valid() && copied <= |bytes|
      modifies this`pos, dma`errorBits, dma`busy, dma.buffer, dma.memory
      ensures Valid()
      ensures var n := Min(|bytes|, Largest(dma.cfg));
              rc == if old(pos) == window.length then 0
                    else if old(pos) > window.length then -EFAULT
                    else if |bytes| > window.length - old(pos) || |bytes| > dma.cfg.BufferSize() then -EINVAL
                    else if copied == 0 then -EFAULT
                    else if !InBlocks(dma.cfg, window.base + old(pos), n) then -EINVAL
                    else if (old(dma.NeedsReset()) && !hw.resetWorks) || hw.errorAfter.Some? then -EIO
                    else n
      ensures rc <= 0 ==> pos == old(pos)
      ensures rc <= 0 && !(rc == -EIO && hw.errorAfter.Some?) ==> dma.memory[..] == old(dma.memory[..])
      ensures rc > 0 ==>
                && 0 < copied && rc <= |bytes| <= dma.buffer.Length && old(pos) + rc <= window.length
                && pos == (if old(pos) + rc >= window.length then 0 else old(pos) + rc)
                && dma.memory[..] == Patch(old(dma.memory[..]), window.base + old(pos),
                                           CopiedOver(old(dma.buffer[..]), bytes, copied)[..rc])
      ensures rc > 0 ==>
                (dma.memory[..] == Patch(old(dma.memory[..]), window.base + old(pos), bytes[..rc])
                 <==> copied >= rc || old(dma.buffer[..])[copied..rc] == bytes[copied..rc])
      ensures SameOutside(old(dma.memory[..]), dma.memory[..], window.base + old(pos), window.base + window.length)
    {
      if pos == window.length {
        return 0;
      } else if pos > window.length {
        return -EFAULT;
      }
      if |bytes| > window.length - pos || |bytes| > dma.cfg.BufferSize() {
        return -EINVAL;
      }
      rc := WriteLocked(bytes, copied, hw);
    }

    /** The rest of a write, from the lock on. */
    method WriteLocked(bytes: seq<Byte>, copied: nat, hw: Hardware) returns (rc: int)
      requires Valid() && copied <= |bytes| <= dma.buffer.Length && pos + |bytes| <= window.length
      modifies this`pos, dma`errorBits, dma`busy, dma.buffer, dma.memory
      ensures Valid()
      ensures var n := Min(|bytes|, Largest(dma.cfg));
              rc == if copied == 0 then -EFAULT
                    else if !InBlocks(dma.cfg, window.base + old(pos), n) then -EINVAL
                    else if (old(dma.NeedsReset()) && !hw.resetWorks) || hw.errorAfter.Some? then -EIO
                    else n
      ensures rc <= 0 ==> pos == old(pos)
      ensures rc <= 0 && !(rc == -EIO && hw.errorAfter.Some?) ==> dma.memory[..] == old(dma.memory[..])
      ensures rc > 0 ==>
                && 0 < copied && rc <= |bytes| && pos == Advance(window, old(pos), rc)
                && dma.memory[..] == Patch(old(dma.memory[..]), window.base + old(pos),
                                           CopiedOver(old(dma.buffer[..]), bytes, copied)[..rc])
      ensures rc > 0 ==>
                (dma.memory[..] == Patch(old(dma.memory[..]), window.base + old(pos), bytes[..rc])
                 <==> copied >= rc || old(dma.buffer[..])[copied..rc] == bytes[copied..rc])
      ensures SameOutside(old(dma.memory[..]), dma.memory[..], window.base + old(pos), window.base + window.length)
    {
      CopyFromUser(bytes, copied);
      if copied == 0 {
        return -EFAULT;
      }
      rc := SendBuffer(|bytes|, hw);
      if rc > 0 {
        StoredExactly(old(dma.buffer[..]), bytes, copied, rc);
        StoredPatch(old(dma.memory[..]), window.base + old(pos), CopiedOver(old(dma.buffer[..]), bytes, copied)[..rc], bytes[..rc]);
      }
    }

    /** The transfer of a write, and the file position after it. */
    method SendBuffer(n: nat, hw: Hardware) returns (rc: int)
      requires Valid() && 0 < n <= dma.buffer.Length && pos + n <= window.length
      modifies this`pos, dma`errorBits, dma`busy, dma.buffer, dma.memory
      ensures Valid()
      ensures var m := Min(n, Largest(dma.cfg));
              rc == if !InBlocks(dma.cfg, window.base + old(pos), m) then -EINVAL
                    else if (old(dma.NeedsReset()) && !hw.resetWorks) || hw.errorAfter.Some? then -EIO
                    else m
      ensures rc <= 0 ==> pos == old(pos)
      ensures rc <= 0 && !(rc == -EIO && hw.errorAfter.Some?) ==> dma.memory[..] == old(dma.memory[..])
      ensures rc > 0 ==>
                && rc <= n && pos == Advance(window, old(pos), rc)
                && dma.memory[..] == Patch(old(dma.memory[..]), window.base + old(pos), old(dma.buffer[..])[..rc])
      ensures SameOutside(old(dma.memory[..]), dma.memory[..], window.base + old(pos), window.base + window.length)
    {
      ghost var filled := dma.buffer[..];
      MaxTransferMeaning(dma.cfg);
      ghost var moved;
      rc, moved := dma.Operation(window.base + pos, n, true, hw);
      PatchIsLocal(old(dma.memory[..]), window.base + pos, filled[..moved], window.base + window.length);
      if moved == 0 {
        PatchNothing(old(dma.memory[..]), window.base + pos, filled[..0]);
      }
      if rc > 0 {
        pos := Advance(window, pos, rc);
      }
    }

    /** `copy_from_user` into the bounce buffer. */
    method CopyFromUser(bytes: seq<Byte>, copied: nat)
      requires Valid() && copied <= |bytes| <= dma.buffer.Length
      modifies dma.buffer
      ensures dma.buffer[..] == CopiedOver(old(dma.buffer[..]), bytes, copied)
    {
      var i := 0;
      while i < copied
        invariant 0 <= i <= copied
        invariant forall k :: 0 <= k < dma.buffer.Length ==>
                    dma.buffer[k] == if k < i then bytes[k] else old(dma.buffer[k])
      {
        dma.buffer[i] := bytes[i];
        i := i + 1;
      }
    }
  }

  lemma PatchedSlice(b: seq<Byte>, m: seq<Byte>, a: nat, n: nat, i: nat, k: nat)
    requires n <= |b| && a + n <= |m| && i + k <= n
    ensures Patch(b, 0, m[a..a + n])[i..i + k] == m[a + i..a + i + k]
  {
    var d := m[a..a + n];
    assert forall j :: 0 <= j < n ==> d[j] == m[a + j];
  }
}
