/**
 The driver's PROM loader and its entry walk: which buffers it accepts, and
 what it counts in them.
 */
module PromLoader {
  import opened Wrappers
  import opened Bits
  import opened Checksum
  import opened PromFormat
  import opened PromCells

  /** struct prom_context; `buff` has one byte more than the PROM. */
  datatype PromContext = PromContext(
    buff: seq<Byte>, dataLen: nat, nentries: nat, dmaNentries: nat, nentriesWithMinor: nat)

  predicate IsDmaTag(tag: Byte) {
    tag == DMA_TAG || tag == DMA_EXT_TAG
  }

  /** `prom_entry_needs_minor` */
  predicate NeedsMinor(tag: Byte) {
    tag == DEVICE_TAG || tag == DMA_TAG || tag == DMA_EXT_TAG
  }

  // ---------------------------------------------------------------------
  // The index walk
  // ---------------------------------------------------------------------

  /** The offsets visited by a walk, and where it stops. */
  datatype Walked = Walked(offsets: seq<nat>, stop: nat)

  function Walk(buf: seq<Byte>, off: nat): Walked
    requires |buf| == PROM_MAX_LENGTH + 1
    decreases PROM_MAX_LENGTH - off
  {
    if off >= PROM_MAX_LENGTH || buf[off] == END_TAG then Walked([], off)
    else
      var w := Walk(buf, Next(buf, off));
      Walked([off] + w.offsets, w.stop)
  }

  /** `entry + size + 2` */
  function Next(buf: seq<Byte>, off: nat): (n: nat)
    requires off + 1 < |buf|
    ensures off + 2 <= n
  {
    off + buf[off + 1] as int + 2
  }

  predicate InBuffer(buf: seq<Byte>, offs: seq<nat>) {
    forall i :: 0 <= i < |offs| ==> offs[i] < |buf|
  }

  /** The offsets in `offs` whose tag satisfies `p`. */
  function Select(buf: seq<Byte>, offs: seq<nat>, p: Byte -> bool): (r: seq<nat>)
    requires InBuffer(buf, offs)
  {
    if offs == [] then []
    else
      var n := |offs| - 1;
      Select(buf, offs[..n], p) + if p(buf[offs[n]]) then [offs[n]] else []
  }

  lemma {:induction false} WalkInRange(buf: seq<Byte>, off: nat)
    requires |buf| == PROM_MAX_LENGTH + 1
    ensures forall i :: 0 <= i < |Walk(buf, off).offsets| ==>
              off <= Walk(buf, off).offsets[i] < PROM_MAX_LENGTH && buf[Walk(buf, off).offsets[i]] != END_TAG
    ensures off <= Walk(buf, off).stop
    decreases PROM_MAX_LENGTH - off
  {
    if off < PROM_MAX_LENGTH && buf[off] != END_TAG {
      WalkInRange(buf, Next(buf, off));
    }
  }

  /** Where a walk that has passed `i` of the entries stands. */
  function PosAt(offs: seq<nat>, stop: nat, i: nat): nat {
    if i < |offs| then offs[i] else stop
  }

  /** Entry `i` is an entry, and the next one starts right behind it. */
  predicate Link(buf: seq<Byte>, offs: seq<nat>, stop: nat, i: nat)
    requires i < |offs|
  {
    && offs[i] + 1 < |buf| && buf[offs[i]] != END_TAG
    && Next(buf, offs[i]) == PosAt(offs, stop, i + 1)
  }

  /** Entries at `offs` fill the bytes from `start` to `stop`, without gap or overlap. */
  predicate Tiles(buf: seq<Byte>, start: nat, offs: seq<nat>, stop: nat) {
    && PosAt(offs, stop, 0) == start
    && forall i :: 0 <= i < |offs| ==> Link(buf, offs, stop, i)
  }

  lemma {:induction false} WalkTiles(buf: seq<Byte>, off: nat)
    requires |buf| == PROM_MAX_LENGTH + 1
    ensures Tiles(buf, off, Walk(buf, off).offsets, Walk(buf, off).stop)
    decreases PROM_MAX_LENGTH - off
  {
    if off < PROM_MAX_LENGTH && buf[off] != END_TAG {
      var next := Next(buf, off);
      WalkTiles(buf, next);
      var rest, all := Walk(buf, next), Walk(buf, off);
      assert all.offsets == [off] + rest.offsets;
      forall i | 0 <= i < |all.offsets|
        ensures Link(buf, all.offsets, all.stop, i)
      {
        if i > 0 {
          assert Link(buf, rest.offsets, rest.stop, i - 1);
        }
      }
    }
  }

  // ---------------------------------------------------------------------
  // Loading
  // ---------------------------------------------------------------------

  /** Whether `e` holds an end marker that fits the PROM. */
  predicate EndMarker(buf: seq<Byte>, e: nat)
    requires |buf| == PROM_MAX_LENGTH + 1
  {
    && e < PROM_MAX_LENGTH && buf[e] == END_TAG
    && (buf[e + 1] == 2 || buf[e + 1] == 3)
    && Next(buf, e) < PROM_MAX_LENGTH
  }

  predicate Acceptable(buf: seq<Byte>)
    requires |buf| == PROM_MAX_LENGTH + 1
  {
    var stop := Walk(buf, FIRST_ENTRY).stop;
    && buf[4] == 1
    && EndMarker(buf, stop)
    && OnesComplement(buf[..Next(buf, stop)]) == 0
  }

  function Offsets(buf: seq<Byte>): (offs: seq<nat>)
    requires |buf| == PROM_MAX_LENGTH + 1
    ensures InBuffer(buf, offs)
  {
    WalkInRange(buf, FIRST_ENTRY);
    Walk(buf, FIRST_ENTRY).offsets
  }

  function ContextOf(buf: seq<Byte>): PromContext
    requires |buf| == PROM_MAX_LENGTH + 1 && Acceptable(buf)
  {
    PromContext(buf, Next(buf, Walk(buf, FIRST_ENTRY).stop), |Offsets(buf)|,
                |Select(buf, Offsets(buf), IsDmaTag)|, |Select(buf, Offsets(buf), NeedsMinor)|)
  }

  /** The buffer the walk runs over: the PROM, or without the magic the built-in image. */
  function LoadBuffer(rom: seq<Byte>, builtIn: seq<Byte>): (buf: seq<Byte>)
    requires |rom| == PROM_MAX_LENGTH && |builtIn| <= PROM_MAX_LENGTH
    ensures |buf| == PROM_MAX_LENGTH + 1
  {
    (if rom[..4] == MAGIC then rom else RomImage(builtIn)) + [0]
  }

  /** What loading gives; `None` is the `-EIO` of every failed test. */
  function Loaded(rom: seq<Byte>, builtIn: seq<Byte>): Option<PromContext>
    requires |rom| == PROM_MAX_LENGTH && |builtIn| <= PROM_MAX_LENGTH
  {
    var buf := LoadBuffer(rom, builtIn);
    if Acceptable(buf) then Some(ContextOf(buf)) else None
  }

  /**
   What makes a PROM: version 1, entries that fill the bytes from offset 5 to an
   end tag of size two or three, which ends before the last byte of the memory,
   and a sum of all the words up to there that is a multiple of 65535, not zero.
   */
  ghost predicate WellFormed(buf: seq<Byte>)
    requires |buf| == PROM_MAX_LENGTH + 1
  {
    buf[4] == 1 && exists offs, stop :: Tiles(buf, 5, offs, stop) && EndsWell(buf, stop)
  }

  predicate EndsWell(buf: seq<Byte>, stop: nat)
    requires |buf| == PROM_MAX_LENGTH + 1
  {
    && stop < PROM_MAX_LENGTH && buf[stop] == 0 && (buf[stop + 1] == 2 || buf[stop + 1] == 3)
    && var n := stop + buf[stop + 1] as int + 2;
    && n < PROM_MAX_LENGTH && Sum16(buf[..n]) > 0 && Sum16(buf[..n]) % 0xffff == 0
  }

  /** Entries that fill the bytes to an end are the ones the walk visits. */
  lemma {:induction false} TilesAreWalk(buf: seq<Byte>, start: nat, offs: seq<nat>, stop: nat)
    requires |buf| == PROM_MAX_LENGTH + 1 && Tiles(buf, start, offs, stop)
    requires stop >= PROM_MAX_LENGTH || buf[stop] == END_TAG
    ensures Walk(buf, start) == Walked(offs, stop)
    decreases |offs|
  {
    if offs != [] {
      assert Link(buf, offs, stop, 0);
      forall i | 0 <= i < |offs| - 1
        ensures Link(buf, offs[1..], stop, i)
      {
        assert Link(buf, offs, stop, i + 1);
      }
      TilesAreWalk(buf, Next(buf, start), offs[1..], stop);
    }
  }

  /** The loader accepts exactly the well-formed buffers. */
  lemma AcceptedExactly(buf: seq<Byte>)
    requires |buf| == PROM_MAX_LENGTH + 1
    ensures Acceptable(buf) <==> WellFormed(buf)
  {
    var stop := Walk(buf, FIRST_ENTRY).stop;
    WalkTiles(buf, FIRST_ENTRY);
    EndsExactly(buf, stop);
    if Acceptable(buf) {
      assert Tiles(buf, 5, Walk(buf, FIRST_ENTRY).offsets, stop) && EndsWell(buf, stop);
    }
    if WellFormed(buf) {
      var offs, s :| Tiles(buf, 5, offs, s) && EndsWell(buf, s);
      TilesAreWalk(buf, 5, offs, s);
    }
  }

  lemma EndsExactly(buf: seq<Byte>, stop: nat)
    requires |buf| == PROM_MAX_LENGTH + 1
    ensures EndsWell(buf, stop) <==> EndMarker(buf, stop) && OnesComplement(buf[..Next(buf, stop)]) == 0
  {
    if EndMarker(buf, stop) {
      ZeroChecksum(buf[..Next(buf, stop)]);
    }
  }

  /**
   `load_prom` over the memory cells, with `builtIn` for the image compiled in
   as `default_prom`. `beyond` is the byte found when the size look-ahead after
   the walk indexes past the buffer; no result depends on it.
   */
  method LoadProm(cells: seq<Cell>, builtIn: seq<Byte>, beyond: Byte) returns (r: Option<PromContext>)
    requires |cells| == NCELLS && |builtIn| <= PROM_MAX_LENGTH
    ensures r == Loaded(RomBytes(cells), builtIn)
    ensures r.Some? <==> WellFormed(LoadBuffer(RomBytes(cells), builtIn))
  {
    AcceptedExactly(LoadBuffer(RomBytes(cells), builtIn));
    var buff := ReadImage(cells, builtIn);
    if buff[4] != 1 {
      return None;
    }
    var entI, nentries, dmaNentries, withMinor := CountEntries(buff);
    var size: Byte := if entI + 1 < |buff| then buff[entI + 1] else beyond;
    var dataLen := entI + size as int + 2;
    if !(dataLen < PROM_MAX_LENGTH && buff[entI] == END_TAG && (size == 2 || size == 3)) {
      return None;
    }
    var checksum := CalcChecksum16(buff[..dataLen]);
    if checksum != 0 {
      return None;
    }
    return Some(PromContext(buff, dataLen, nentries, dmaNentries, withMinor));
  }

  lemma SelectNext(buf: seq<Byte>, offs: seq<nat>, i: nat, p: Byte -> bool)
    requires InBuffer(buf, offs) && i < |offs|
    ensures Select(buf, offs[..i + 1], p)
            == Select(buf, offs[..i], p) + if p(buf[offs[i]]) then [offs[i]] else []
  {
    assert offs[..i + 1][..i] == offs[..i];
  }

  lemma {:induction false} WalkEnds(buf: seq<Byte>, off: nat)
    requires |buf| == PROM_MAX_LENGTH + 1
    ensures var stop := Walk(buf, off).stop; stop < PROM_MAX_LENGTH ==> buf[stop] == END_TAG
    decreases PROM_MAX_LENGTH - off
  {
    if off < PROM_MAX_LENGTH && buf[off] != END_TAG {
      WalkEnds(buf, Next(buf, off));
    }
  }

  /** The counting loop of `load_prom`. */
  method CountEntries(buff: seq<Byte>)
    returns (entI: nat, nentries: nat, dmaNentries: nat, withMinor: nat)
    requires |buff| == PROM_MAX_LENGTH + 1
    ensures entI == Walk(buff, FIRST_ENTRY).stop && nentries == |Offsets(buff)|
    ensures dmaNentries == |Select(buff, Offsets(buff), IsDmaTag)|
    ensures withMinor == |Select(buff, Offsets(buff), NeedsMinor)|
    ensures entI >= PROM_MAX_LENGTH || buff[entI] == END_TAG
  {
    WalkInRange(buff, FIRST_ENTRY);
    WalkTiles(buff, FIRST_ENTRY);
    WalkEnds(buff, FIRST_ENTRY);
    entI, nentries, dmaNentries, withMinor := CountTiled(buff, Offsets(buff), Walk(buff, FIRST_ENTRY).stop);
  }

  method CountTiled(buff: seq<Byte>, ghost offs: seq<nat>, ghost stop: nat)
    returns (entI: nat, nentries: nat, dmaNentries: nat, withMinor: nat)
    requires |buff| == PROM_MAX_LENGTH + 1 && InBuffer(buff, offs) && Tiles(buff, FIRST_ENTRY, offs, stop)
    requires stop < PROM_MAX_LENGTH ==> buff[stop] == END_TAG
    requires forall i :: 0 <= i < |offs| ==> offs[i] < PROM_MAX_LENGTH
    ensures entI == stop && nentries == |offs|
    ensures dmaNentries == |Select(buff, offs, IsDmaTag)| && withMinor == |Select(buff, offs, NeedsMinor)|
  {
    entI, nentries, dmaNentries, withMinor := FIRST_ENTRY, 0, 0, 0;
    while entI < PROM_MAX_LENGTH && buff[entI] != END_TAG
      invariant nentries <= |offs| && entI == PosAt(offs, stop, nentries)
      invariant dmaNentries == |Select(buff, offs[..nentries], IsDmaTag)|
      invariant withMinor == |Select(buff, offs[..nentries], NeedsMinor)|
      decreases PROM_MAX_LENGTH - entI
    {
      assert Link(buff, offs, stop, nentries);
      SelectNext(buff, offs, nentries, IsDmaTag);
      SelectNext(buff, offs, nentries, NeedsMinor);
      if IsDmaTag(buff[entI]) {
        dmaNentries := dmaNentries + 1;
      }
      if NeedsMinor(buff[entI]) {
        withMinor := withMinor + 1;
      }
      entI := Next(buff, entI);
      nentries := nentries + 1;
    }
    assert nentries < |offs| ==> Link(buff, offs, stop, nentries);
    assert offs[..nentries] == offs;
  }

  /** The first part of `load_prom`: fill the zeroed buffer. */
  method ReadImage(cells: seq<Cell>, builtIn: seq<Byte>) returns (buff: seq<Byte>)
    requires |cells| == NCELLS && |builtIn| <= PROM_MAX_LENGTH
    ensures buff == LoadBuffer(RomBytes(cells), builtIn)
  {
    var b := new Byte[PROM_MAX_LENGTH + 1](_ => 0);
    RomHolds(cells);
    var magic := FetchWord(cells, 0, RomBytes(cells));
    assert magic == RomBytes(cells)[..4];
    if magic == MAGIC {
      var n := ReadProm(cells, b, 0, PROM_MAX_LENGTH);
      assert b[..] == b[..n] + b[n..];
      assert RomBytes(cells)[0..n] == RomBytes(cells);
      buff := b[..];
    } else {
      buff := RomImage(builtIn) + b[PROM_MAX_LENGTH..];
    }
  }

  /** A context that `load_prom` can have returned. */
  predicate Valid(c: PromContext) {
    |c.buff| == PROM_MAX_LENGTH + 1 && Acceptable(c.buff) && c == ContextOf(c.buff)
  }

  /** The entries of every accepted PROM tile the bytes from offset 5 to its end marker. */
  lemma AcceptedTiles(c: PromContext)
    requires Valid(c)
    ensures exists stop :: EndMarker(c.buff, stop) && c.dataLen == Next(c.buff, stop)
                           && Tiles(c.buff, FIRST_ENTRY, Offsets(c.buff), stop)
  {
    var stop := Walk(c.buff, FIRST_ENTRY).stop;
    WalkTiles(c.buff, FIRST_ENTRY);
    assert EndMarker(c.buff, stop);
  }

  /**
   Two loadable images of one length that differ in one word cannot both be
   accepted, unless the word is 0x0000 in one and 0xffff in the other.
   */
  lemma OneWordCorruption(c: PromContext, d: PromContext, k: nat)
    requires Valid(c) && Valid(d) && c.dataLen == d.dataLen <= |c.buff|
    requires DifferInOneWord(c.buff[..c.dataLen], d.buff[..d.dataLen], k)
    ensures var v, w := Word(c.buff[..c.dataLen], k), Word(d.buff[..d.dataLen], k);
            v == w || (v == 0 && w == 0xffff) || (v == 0xffff && w == 0)
  {
    var a, b := c.buff[..c.dataLen], d.buff[..d.dataLen];
    assert OnesComplement(a) == 0 && OnesComplement(b) == 0;
    if Word(a, k) != Word(b, k) {
      OneWordChange(a, b, k);
    }
  }

  lemma {:induction false} SelectTags(buf: seq<Byte>, offs: seq<nat>, p: Byte -> bool)
    requires InBuffer(buf, offs)
    ensures InBuffer(buf, Select(buf, offs, p))
    ensures forall i :: 0 <= i < |Select(buf, offs, p)| ==>
              Select(buf, offs, p)[i] in offs && p(buf[Select(buf, offs, p)[i]])
  {
    if offs != [] {
      SelectTags(buf, offs[..|offs| - 1], p);
    }
  }
}
