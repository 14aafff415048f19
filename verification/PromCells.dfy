/**
 The PROM as 32-bit memory cells: how the writer packs an image into cells and
 how the driver fetches bytes back word by word.
 */
module PromCells {
  import opened Errno
  import opened Bits
  import opened PromFormat

  const NCELLS := 1024

  type Cell = x: int | 0 <= x < 0x1_0000_0000

  function Zeros(n: nat): (z: seq<Byte>)
    ensures |z| == n
  {
    seq(n, _ => 0)
  }

  /** The bytes that consecutive little-endian word accesses see. */
  function RomBytes(cells: seq<Cell>): (b: seq<Byte>)
    ensures |b| == 4 * |cells|
  {
    if cells == [] then [] else LE(cells[0], 4) + RomBytes(cells[1..])
  }

  lemma {:induction false} RomBytesAppend(a: seq<Cell>, b: seq<Cell>)
    ensures RomBytes(a + b) == RomBytes(a) + RomBytes(b)
  {
    if a == [] {
      assert a + b == b;
    } else {
      RomBytesAppend(a[1..], b);
      var w: seq<Byte> := LE(a[0], 4);
      assert RomBytes(a + b) == w + RomBytes(a[1..] + b) by {
        assert (a + b)[1..] == a[1..] + b;
      }
      assert w + (RomBytes(a[1..]) + RomBytes(b)) == w + RomBytes(a[1..]) + RomBytes(b);
    }
  }

  lemma {:induction false} RomWord(cells: seq<Cell>, i: nat)
    requires i < |cells|
    ensures RomBytes(cells)[4 * i..4 * i + 4] == LE(cells[i], 4)
  {
    var first, rest := LE(cells[0], 4), RomBytes(cells[1..]);
    assert RomBytes(cells) == first + rest;
    if i == 0 {
      assert (first + rest)[..4] == first;
    } else {
      RomWord(cells[1..], i - 1);
      SliceAfter(first, rest, 4 * (i - 1));
    }
  }

  lemma SliceAfter(a: seq<Byte>, b: seq<Byte>, i: nat)
    requires i + 4 <= |b|
    ensures (a + b)[|a| + i..|a| + i + 4] == b[i..i + 4]
  {
  }

  // ---------------------------------------------------------------------
  // Writing cells
  // ---------------------------------------------------------------------

  lemma {:induction false} FromLEBound(b: seq<Byte>)
    ensures FromLE(b) < Pow2(8 * |b|)
  {
    if b != [] {
      FromLEBound(b[1..]);
      Pow2Sum(8, 8 * (|b| - 1));
      assert Pow2(8) == 256;
    }
  }

  lemma CellFits(b: seq<Byte>)
    requires |b| <= 4
    ensures FromLE(b) < 0x1_0000_0000
  {
    FromLEBound(b);
    Pow2Monotone(8 * |b|, 32);
    Pow2Constants();
  }

  /** Bytes read back from their own number, with the missing ones zero. */
  lemma {:induction false} LEOfFromLE(b: seq<Byte>, n: nat)
    requires |b| <= n
    ensures LE(FromLE(b), n) == b + Zeros(n - |b|)
  {
    if n > 0 {
      if b == [] {
        LEOfFromLE([], n - 1);
        assert Zeros(n) == [0] + Zeros(n - 1);
      } else {
        LEOfFromLE(b[1..], n - 1);
        assert FromLE(b) % 256 == b[0] && FromLE(b) / 256 == FromLE(b[1..]);
        assert b == [b[0]] + b[1..];
      }
    }
  }

  /** One cell per four bytes, the last one possibly from fewer. */
  function CoeCells(b: seq<Byte>): (cells: seq<Cell>)
    ensures |cells| == (|b| + 3) / 4
  {
    if b == [] then []
    else
      var n := Min(4, |b|);
      CellFits(b[..n]);
      [FromLE(b[..n])] + CoeCells(b[n..])
  }

  /** `int_from_byte_array` */
  method IntFromByteArray(buffer: seq<Byte>) returns (r: nat)
    ensures r == FromLE(buffer)
  {
    r := 0;
    var i := |buffer|;
    while i > 0
      invariant 0 <= i <= |buffer|
      invariant r == FromLE(buffer[i..])
    {
      i := i - 1;
      assert buffer[i..][1..] == buffer[i + 1..];
      r := r * 256 + buffer[i] as int;
    }
    assert buffer[0..] == buffer;
  }

  lemma CoeNext(b: seq<Byte>, i: nat, n: nat)
    requires i < |b| && n == Min(4, |b| - i)
    ensures FromLE(b[i..i + n]) < 0x1_0000_0000 && CoeCells(b[i..]) == [FromLE(b[i..i + n])] + CoeCells(b[i + n..])
  {
    CellFits(b[i..i + n]);
    assert b[i..][..n] == b[i..i + n];
    assert b[i..][n..] == b[i + n..];
  }

  /** The cells still to come from byte `i` on. */
  function CellsFrom(b: seq<Byte>, i: nat): seq<Cell> {
    if i < |b| then CoeCells(b[i..]) else []
  }

  lemma CellsFromEnds(b: seq<Byte>)
    ensures CellsFrom(b, 0) == CoeCells(b)
  {
    assert b[0..] == b;
  }

  /** One turn of the loop in `dump_coe`. */
  method NextCell(b: seq<Byte>, i: nat) returns (number: Cell)
    requires i < |b|
    ensures CellsFrom(b, i) == [number] + CellsFrom(b, i + 4)
  {
    var n := Min(4, |b| - i);
    CoeNext(b, i, n);
    number := IntFromByteArray(b[i..i + n]);
  }

  /** The number sequence of `dump_coe` with its default cell size. */
  method DumpCoe(binData: seq<Byte>) returns (cells: seq<Cell>)
    ensures cells == CoeCells(binData)
  {
    cells := [];
    var i := 0;
    ghost var whole := CellsFrom(binData, 0);
    while i < |binData|
      invariant 0 <= i && whole == cells + CellsFrom(binData, i)
    {
      var number := NextCell(binData, i);
      cells := cells + [number];
      i := i + 4;
    }
    CellsFromEnds(binData);
  }

  /** The cells of a memory initialised from `cells`, the rest zero. */
  function Burn(cells: seq<Cell>): (rom: seq<Cell>)
    requires |cells| <= NCELLS
    ensures |rom| == NCELLS
  {
    cells + BlankCells(NCELLS - |cells|)
  }

  function BlankCells(n: nat): (z: seq<Cell>)
    ensures |z| == n
  {
    seq(n, _ => 0)
  }

  lemma {:induction false} ZeroCells(n: nat)
    ensures RomBytes(BlankCells(n)) == Zeros(4 * n)
  {
    if n > 0 {
      ZeroCells(n - 1);
      assert BlankCells(n)[1..] == BlankCells(n - 1);
      LEOfFromLE([], 4);
    }
  }

  lemma {:induction false} CellBytes(b: seq<Byte>, cells: seq<Cell>)
    requires cells == CoeCells(b)
    ensures |b| <= 4 * |cells| && RomBytes(cells) == b + Zeros(4 * |cells| - |b|)
    decreases |b|
  {
    if b != [] {
      var n := Min(4, |b|);
      LEOfFromLE(b[..n], 4);
      CellBytes(b[n..], cells[1..]);
      GlueCell(b, n, LE(cells[0], 4), RomBytes(cells[1..]), 4 * |cells| - |b|);
    }
  }

  /** The bytes of the first cell and of the others; only the last cell has bytes missing. */
  lemma GlueCell(b: seq<Byte>, n: nat, first: seq<Byte>, rest: seq<Byte>, gap: nat)
    requires n <= |b| && n <= 4 && first == b[..n] + Zeros(4 - n) && (n < 4 ==> n == |b|)
    requires |b| - n + gap >= 4 - n && rest == b[n..] + Zeros(gap - (4 - n))
    ensures first + rest == b + Zeros(gap)
  {
    assert b == b[..n] + b[n..];
  }

  /** A 4096-byte memory holding `image`, zero after it. */
  function RomImage(image: seq<Byte>): (b: seq<Byte>)
    requires |image| <= PROM_MAX_LENGTH
    ensures |b| == PROM_MAX_LENGTH
  {
    image + Zeros(PROM_MAX_LENGTH - |image|)
  }

  /** Emitted as cells and burnt, an image reads back as itself and zeros. */
  lemma BurntImage(image: seq<Byte>, rom: seq<Cell>)
    requires |image| <= PROM_MAX_LENGTH && rom == Burn(CoeCells(image))
    ensures RomBytes(rom) == RomImage(image)
  {
    BurntFrom(image, CoeCells(image), rom);
  }

  lemma BurntFrom(image: seq<Byte>, cells: seq<Cell>, rom: seq<Cell>)
    requires cells == CoeCells(image) && |cells| <= NCELLS && rom == Burn(cells) && |image| <= PROM_MAX_LENGTH
    ensures RomBytes(rom) == RomImage(image)
  {
    CellBytes(image, cells);
    BurntCells(image, cells, NCELLS - |cells|, rom);
  }

  lemma BurntCells(image: seq<Byte>, cells: seq<Cell>, n: nat, rom: seq<Cell>)
    requires |image| <= 4 * |cells| && 4 * |cells| + 4 * n == PROM_MAX_LENGTH
    requires RomBytes(cells) == image + Zeros(4 * |cells| - |image|) && rom == cells + BlankCells(n)
    ensures RomBytes(rom) == RomImage(image)
  {
    RomBytesAppend(cells, BlankCells(n));
    ZeroCells(n);
    Glue(RomBytes(rom), RomBytes(cells), RomBytes(BlankCells(n)), image, 4 * |cells| - |image|, 4 * n);
  }

  lemma Glue(x: seq<Byte>, a: seq<Byte>, b: seq<Byte>, image: seq<Byte>, gap: nat, n: nat)
    requires x == a + b && a == image + Zeros(gap) && b == Zeros(n)
    requires |image| + gap + n == PROM_MAX_LENGTH
    ensures x == RomImage(image)
  {
    ZerosAppend(image, gap, n);
  }

  lemma ZerosAppend(b: seq<Byte>, m: nat, n: nat)
    ensures b + Zeros(m) + Zeros(n) == b + Zeros(m + n)
  {
  }

  // ---------------------------------------------------------------------
  // Reading cells
  // ---------------------------------------------------------------------

  /** Bytes in the words that `n` bytes take. */
  function WordBytes(n: nat): nat {
    (n + 3) / 4 * 4
  }

  /**
   `read_prom`. It rounds the offset down to a word and copies whole words, so
   the caller's buffer must have room for the last one.
   */
  method ReadProm(cells: seq<Cell>, buff: array<Byte>, off: nat, count: nat) returns (r: int)
    requires |cells| == NCELLS
    requires off <= PROM_MAX_LENGTH ==> WordBytes(Min(PROM_MAX_LENGTH - off / 4 * 4, count)) <= buff.Length
    modifies buff
    ensures off > PROM_MAX_LENGTH ==> r == -EINVAL && buff[..] == old(buff[..])
    ensures off <= PROM_MAX_LENGTH ==> r == Min(PROM_MAX_LENGTH - off / 4 * 4, count)
    ensures off <= PROM_MAX_LENGTH ==>
              var start, n := off / 4 * 4, WordBytes(r);
              start + n <= PROM_MAX_LENGTH && buff[..n] == RomBytes(cells)[start..start + n] && buff[n..] == old(buff[n..])
  {
    if off > PROM_MAX_LENGTH {
      return -EINVAL;
    }
    var start := off / 4 * 4;
    r := Min(PROM_MAX_LENGTH - start, count);
    RomHolds(cells);
    ReadWords(cells, buff, start, r, RomBytes(cells));
  }

  /** `rom` is what the cells hold, word by word. */
  ghost predicate Holds(cells: seq<Cell>, rom: seq<Byte>) {
    |rom| == 4 * |cells| && forall i :: 0 <= i < |cells| ==> WordAt(rom, i) == LE(cells[i], 4)
  }

  function WordAt(rom: seq<Byte>, i: nat): seq<Byte>
    requires 4 * i + 4 <= |rom|
  {
    rom[4 * i..4 * i + 4]
  }

  lemma RomHolds(cells: seq<Cell>)
    ensures Holds(cells, RomBytes(cells))
  {
    forall i | 0 <= i < |cells|
      ensures WordAt(RomBytes(cells), i) == LE(cells[i], 4)
    {
      RomWord(cells, i);
    }
  }

  /** `ioread32` at a word-aligned address. */
  method FetchWord(cells: seq<Cell>, addr: nat, ghost rom: seq<Byte>) returns (b: seq<Byte>)
    requires Holds(cells, rom) && addr % 4 == 0 && addr < |rom|
    ensures |b| == 4 && addr + 4 <= |rom| && forall j :: 0 <= j < 4 ==> b[j] == rom[addr + j]
  {
    var k := addr / 4;
    b := LE(cells[k], 4);
    assert b == WordAt(rom, k);
  }

  /** Its copying loop. */
  method ReadWords(cells: seq<Cell>, buff: array<Byte>, off: nat, size: nat, ghost rom: seq<Byte>)
    requires Holds(cells, rom) && off % 4 == 0 && off + WordBytes(size) <= |rom| && WordBytes(size) <= buff.Length
    modifies buff
    ensures var n := WordBytes(size); buff[..n] == rom[off..off + n] && buff[n..] == old(buff[n..])
  {
    var i := 0;
    while i < size
      invariant 0 <= i <= WordBytes(size) && i % 4 == 0
      invariant forall k :: 0 <= k < i ==> buff[k] == rom[off + k]
      invariant forall k :: i <= k < buff.Length ==> buff[k] == old(buff[k])
    {
      var bytes := FetchWord(cells, off + i, rom);
      Store4(buff, i, bytes);
      i := i + 4;
    }
  }

  /** The `memcpy` of one word. */
  method Store4(buff: array<Byte>, i: nat, bytes: seq<Byte>)
    requires |bytes| == 4 && i + 4 <= buff.Length
    modifies buff
    ensures forall k :: 0 <= k < buff.Length ==> buff[k] == if i <= k < i + 4 then bytes[k - i] else old(buff[k])
  {
    buff[i], buff[i + 1], buff[i + 2], buff[i + 3] := bytes[0], bytes[1], bytes[2], bytes[3];
  }

  /** Any aligned fetch from a burnt image is the matching slice of it, zeros after its end. */
  lemma FetchedSlice(image: seq<Byte>, rom: seq<Cell>, off: nat, r: nat, slice: seq<Byte>)
    requires |image| <= PROM_MAX_LENGTH && rom == Burn(CoeCells(image))
    requires off + r <= PROM_MAX_LENGTH && slice == RomBytes(rom)[off..off + r]
    ensures forall i :: 0 <= i < r ==> slice[i] == if off + i < |image| then image[off + i] else 0
  {
    BurntImage(image, rom);
  }

  function Slice(rom: seq<Byte>, off: nat, n: nat): seq<Byte>
    requires off + n <= |rom|
  {
    rom[off..off + n]
  }

  /** Rounding the offset down gives the bytes asked for, whatever the memory holds, exactly for multiples of four. */
  lemma OffsetIsExact(off: nat, n: nat)
    requires 0 < n && off + n <= PROM_MAX_LENGTH
    ensures (forall rom: seq<Byte> | |rom| == PROM_MAX_LENGTH :: Slice(rom, off / 4 * 4, n) == Slice(rom, off, n)) <==> off % 4 == 0
  {
    var start := off / 4 * 4;
    if off % 4 != 0 {
      var rom := Zeros(PROM_MAX_LENGTH)[start := 1];
      assert Slice(rom, start, n)[0] == 1 && Slice(rom, off, n)[0] == 0;
    }
  }
}
