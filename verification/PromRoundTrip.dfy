/**
 Writing a configuration and loading the burnt image: when the driver accepts
 it, and when it reads back exactly what the configuration said.
 */
module PromRoundTrip {
  import opened Wrappers
  import opened Bits
  import opened Checksum
  import opened PromFormat
  import opened PromCells
  import opened PromLoader
  import opened PromRecords

  /** Records after the header that pack without error. */
  predicate Entries(fs: seq<Field>) {
    forall i :: 0 <= i < |fs| ==> !fs[i].Version? && Dump(fs[i]).Some?
  }

  function Records(fs: seq<Field>): (rs: seq<seq<Byte>>)
    requires Entries(fs)
    ensures |rs| == |fs| && forall i :: 0 <= i < |fs| ==> rs[i] == Dump(fs[i]).value
  {
    seq(|fs|, i requires 0 <= i < |fs| => Dump(fs[i]).value)
  }

  predicate AllAscii(fs: seq<Field>) {
    forall i :: 0 <= i < |fs| ==> IsAscii(FieldName(fs[i]))
  }

  predicate NoneHasNul(fs: seq<Field>) {
    forall i :: 0 <= i < |fs| ==> !HasNul(FieldName(fs[i]))
  }

  function TagOf(f: Field): Byte {
    match f
    case Version(_) => MAGIC[0]
    case Name(_) => DEVICE_TAG
    case Region(_, _, base, length) =>
      if base > 0xffff_ffff_ffff || length > 0xffff_ffff then DMA_EXT_TAG else DMA_TAG
    case Mask(_) => DMA_MASK_TAG
    case AlignShift(_) => DMA_ALIGN_TAG
  }

  /** The size byte counts characters where the record holds bytes: exact only for ASCII. */
  lemma RecordShape(f: Field)
    requires !f.Version? && Dump(f).Some?
    ensures IsRecord(Dump(f).value) && Dump(f).value[0] == TagOf(f)
    ensures Exact(Dump(f).value) <==> IsAscii(FieldName(f))
  {
    EncodedLength(FieldName(f));
  }

  lemma RecordsShape(fs: seq<Field>)
    requires Entries(fs)
    ensures AllRecords(Records(fs)) && (AllExact(Records(fs)) <==> AllAscii(fs))
  {
    forall i | 0 <= i < |fs|
      ensures IsRecord(Records(fs)[i]) && (Exact(Records(fs)[i]) <==> IsAscii(FieldName(fs[i])))
    {
      RecordShape(fs[i]);
    }
  }

  // ---------------------------------------------------------------------
  // Reading one record back
  // ---------------------------------------------------------------------

  lemma {:induction false} CStringHasNoNul(buf: seq<Byte>, i: nat)
    requires i <= |buf|
    ensures 0 !in CString(buf, i)
    decreases |buf| - i
  {
    if i < |buf| && buf[i] != 0 {
      CStringHasNoNul(buf, i + 1);
    }
  }

  lemma {:induction false} CStringReads(buf: seq<Byte>, i: nat, s: seq<Byte>)
    requires i + |s| < |buf| && buf[i..i + |s|] == s && buf[i + |s|] == 0 && 0 !in s
    ensures CString(buf, i) == s
    decreases |s|
  {
    if s != [] {
      assert buf[i] == buf[i..i + |s|][0] == s[0];
      assert buf[i + 1..i + 1 + |s[1..]|] == buf[i..i + |s|][1..] == s[1..];
      CStringReads(buf, i + 1, s[1..]);
    }
  }

  lemma NulIsEncoded(name: string)
    requires IsAscii(name)
    ensures 0 in Encode(name) <==> HasNul(name)
  {
    EncodedAscii(name);
    if HasNul(name) {
      var i :| 0 <= i < |name| && name[i] == '\0';
      assert Encode(name)[i] == 0;
    }
    if 0 in Encode(name) {
      var i :| 0 <= i < |name| && Encode(name)[i] == 0;
      assert name[i] == '\0';
    }
  }

  /** The name a record carries reads back unless a NUL cuts it short. */
  lemma NameReadsBack(buf: seq<Byte>, i: nat, name: string)
    requires IsAscii(name)
    requires i + |Encode(name)| < |buf| && buf[i..i + |Encode(name)|] == Encode(name)
    requires buf[i + |Encode(name)|] == 0
    ensures CString(buf, i) == Encode(name) <==> !HasNul(name)
  {
    NulIsEncoded(name);
    CStringHasNoNul(buf, i);
    if !HasNul(name) {
      CStringReads(buf, i, Encode(name));
    }
  }

  lemma LE2(x: nat)
    requires x < 0x1_0000
    ensures U16(LE(x, 2)[0], LE(x, 2)[1]) == x
  {
    assert LE(x, 2) == [x % 256] + LE(x / 256, 1);
    assert LE(x / 256, 1) == [x / 256 % 256] + LE(x / 256 / 256, 0);
  }

  lemma LE4(x: nat)
    requires x < 0x1_0000_0000
    ensures U16(LE(x, 4)[0], LE(x, 4)[1]) == x % 0x1_0000
    ensures U16(LE(x, 4)[2], LE(x, 4)[3]) == x / 0x1_0000
  {
    var y := x / 256;
    assert LE(x, 4) == [x % 256] + LE(y, 3);
    assert LE(y, 3) == [y % 256] + LE(y / 256, 2);
    assert y / 256 == x / 0x1_0000;
    LE2(x / 0x1_0000);
    assert LE(x, 4)[2] == LE(x / 0x1_0000, 2)[0] && LE(x, 4)[3] == LE(x / 0x1_0000, 2)[1];
  }

  lemma JoinWords(low: nat, high: nat)
    requires low < 0x1_0000_0000
    ensures Or(Or(low % 0x1_0000, low / 0x1_0000 * 0x1_0000), high * 0x1_0000_0000) == low + high * 0x1_0000_0000
  {
    Pow2Constants();
    OrDisjoint(low % 0x1_0000, low / 0x1_0000, 16);
    OrDisjoint(low, high, 32);
  }

  /** The three 16-bit words or-ed together are the base the writer split. */
  lemma Base48ReadsBack(buf: seq<Byte>, i: nat, base: nat)
    requires base < 0x1_0000_0000_0000 && i + 6 <= |buf|
    requires buf[i..i + 6] == LE(base % 0x1_0000_0000, 4) + LE(base / 0x1_0000_0000, 2)
    ensures ReadBase48(buf, i) == base
  {
    var low, high := base % 0x1_0000_0000, base / 0x1_0000_0000;
    var b := LE(low, 4) + LE(high, 2);
    assert buf[i] == b[0] && buf[i + 1] == b[1] && buf[i + 2] == b[2];
    assert buf[i + 3] == b[3] && buf[i + 4] == b[4] && buf[i + 5] == b[5];
    LE4(low);
    LE2(high);
    JoinWords(low, high);
  }

  lemma NameInRecord(buf: seq<Byte>, off: nat, fixed: seq<Byte>, name: string)
    requires LaidAt(buf, off, fixed + Encode(name) + [0]) && IsAscii(name)
    ensures LaidAt(buf, off, fixed)
    ensures off + |fixed| < |buf|
    ensures CString(buf, off + |fixed|) == Encode(name) <==> !HasNul(name)
  {
    LaidParts(buf, off, fixed + Encode(name), [0]);
    LaidParts(buf, off, fixed, Encode(name));
    LaidByte(buf, off + |fixed| + |Encode(name)|, [0], 0);
    NameReadsBack(buf, off + |fixed|, name);
  }

  /** Head, two numbers and permissions of a memory record. */
  lemma FixedFields(buf: seq<Byte>, off: nat, head: seq<Byte>, x: seq<Byte>, y: seq<Byte>, perm: Byte)
    requires |head| == 2 && LaidAt(buf, off, head + x + y + [perm])
    ensures buf[off] == head[0]
    ensures LaidAt(buf, off + 2, x) && LaidAt(buf, off + 2 + |x|, y)
    ensures off + 2 + |x| + |y| < |buf| && buf[off + 2 + |x| + |y|] == perm
  {
    LaidParts(buf, off, head + x + y, [perm]);
    LaidByte(buf, off + 2 + |x| + |y|, [perm], 0);
    LaidParts(buf, off, head + x, y);
    LaidParts(buf, off, head, x);
    LaidByte(buf, off, head, 0);
  }

  lemma DecodeExt(buf: seq<Byte>, off: nat, x: seq<Byte>, y: seq<Byte>, perm: Byte, base: nat, length: nat)
    requires off + 19 <= |buf| && buf[off] == DMA_EXT_TAG && |x| == 8 && |y| == 8
    requires LaidAt(buf, off + 2, x) && LaidAt(buf, off + 10, y) && buf[off + 18] == perm
    requires FromLE(x) == base && FromLE(y) == length
    ensures Decode(buf, off) == Some(DmaEntry(CString(buf, off + 19), base, length, perm))
  {
  }

  lemma DecodeShort(buf: seq<Byte>, off: nat, y: seq<Byte>, perm: Byte, base: nat, length: nat)
    requires off + 13 <= |buf| && buf[off] == DMA_TAG && |y| == 4
    requires ReadBase48(buf, off + 2) == base && LaidAt(buf, off + 8, y) && buf[off + 12] == perm
    requires FromLE(y) == length
    ensures Decode(buf, off) == Some(DmaEntry(CString(buf, off + 13), base, length, perm))
  {
  }

  lemma ExtReadsBack(buf: seq<Byte>, off: nat, name: string, x: seq<Byte>, y: seq<Byte>, perm: Byte, base: nat, length: nat)
    requires |name| + 18 < 256 && |x| == 8 && |y| == 8 && FromLE(x) == base && FromLE(y) == length
    requires LaidAt(buf, off, [DMA_EXT_TAG, |name| + 18] + x + y + [perm] + Encode(name) + [0]) && IsAscii(name)
    ensures Decode(buf, off) == Some(DmaEntry(Encode(name), base, length, perm)) <==> !HasNul(name)
  {
    var head: seq<Byte> := [DMA_EXT_TAG, |name| + 18];
    NameInRecord(buf, off, head + x + y + [perm], name);
    FixedFields(buf, off, head, x, y, perm);
    DecodeExt(buf, off, x, y, perm, base, length);
  }

  lemma ShortReadsBack(buf: seq<Byte>, off: nat, name: string, x: seq<Byte>, y: seq<Byte>, perm: Byte, base: nat, length: nat)
    requires |name| + 12 < 256 && base < 0x1_0000_0000_0000
    requires x == LE(base % 0x1_0000_0000, 4) + LE(base / 0x1_0000_0000, 2)
    requires |x| == 6 && |y| == 4 && FromLE(y) == length
    requires LaidAt(buf, off, [DMA_TAG, |name| + 12] + x + y + [perm] + Encode(name) + [0]) && IsAscii(name)
    ensures Decode(buf, off) == Some(DmaEntry(Encode(name), base, length, perm)) <==> !HasNul(name)
  {
    var head: seq<Byte> := [DMA_TAG, |name| + 12];
    NameInRecord(buf, off, head + x + y + [perm], name);
    FixedFields(buf, off, head, x, y, perm);
    Base48ReadsBack(buf, off + 2, base);
    DecodeShort(buf, off, y, perm, base, length);
  }

  /** A memory record decodes to the region it was written from, in either form. */
  lemma RegionReadsBack(buf: seq<Byte>, off: nat, f: Field)
    requires f.Region? && Dump(f).Some? && IsAscii(f.name) && LaidAt(buf, off, Dump(f).value)
    ensures off < |buf|
    ensures Decode(buf, off) == Some(Intended(f)) <==> !HasNul(f.name)
  {
    if TagOf(f) == DMA_EXT_TAG {
      ExtRegion(buf, off, f);
    } else {
      ShortRegion(buf, off, f);
    }
  }

  lemma ExtRegion(buf: seq<Byte>, off: nat, f: Field)
    requires f.Region? && Dump(f).Some? && TagOf(f) == DMA_EXT_TAG && IsAscii(f.name) && LaidAt(buf, off, Dump(f).value)
    ensures off < |buf|
    ensures Decode(buf, off) == Some(Intended(f)) <==> !HasNul(f.name)
  {
    Pow2Widths();
    LERoundTrip(f.base, 8);
    LERoundTrip(f.length, 8);
    ExtReadsBack(buf, off, f.name, LE(f.base, 8), LE(f.length, 8), f.perm, f.base, f.length);
  }

  lemma ShortRegion(buf: seq<Byte>, off: nat, f: Field)
    requires f.Region? && Dump(f).Some? && TagOf(f) == DMA_TAG && IsAscii(f.name) && LaidAt(buf, off, Dump(f).value)
    ensures off < |buf|
    ensures Decode(buf, off) == Some(Intended(f)) <==> !HasNul(f.name)
  {
    Pow2Widths();
    LERoundTrip(f.length, 4);
    var head: seq<Byte> := [DMA_TAG, |f.name| + 12];
    var low, high := LE(f.base % 0x1_0000_0000, 4), LE(f.base / 0x1_0000_0000, 2);
    assert head + low + high == head + (low + high);
    ShortReadsBack(buf, off, f.name, low + high, LE(f.length, 4), f.perm, f.base, f.length);
  }

  /** A record laid in the buffer decodes to what it was written from, unless a NUL cuts its name. */
  lemma RecordReadsBack(buf: seq<Byte>, off: nat, f: Field)
    requires !f.Version? && Dump(f).Some? && IsAscii(FieldName(f)) && LaidAt(buf, off, Dump(f).value)
    ensures off < |buf|
    ensures Decode(buf, off) == Some(Intended(f)) <==> !HasNul(FieldName(f))
  {
    var d := Dump(f).value;
    RecordShape(f);
    LaidByte(buf, off, d, 0);
    LaidByte(buf, off, d, 2);
    if f.Region? {
      RegionReadsBack(buf, off, f);
    } else if f.Name? {
      NameInRecord(buf, off, [DEVICE_TAG, |f.name| + 1], f.name);
    }
  }

  // ---------------------------------------------------------------------
  // Whole images
  // ---------------------------------------------------------------------

  predicate NoVersion(fs: seq<Field>) {
    forall i :: 0 <= i < |fs| ==> !fs[i].Version?
  }

  lemma RecordsAppend(fs: seq<Field>, f: Field)
    requires Entries(fs) && !f.Version? && Dump(f).Some?
    ensures Entries(fs + [f]) && Join(Records(fs + [f])) == Join(Records(fs)) + Dump(f).value
  {
    assert Records(fs + [f]) == Records(fs) + [Dump(f).value];
    JoinAppend(Records(fs), Dump(f).value);
  }

  function Header(v: int): seq<Byte>
    requires FitsByte(v)
  {
    MAGIC + [if v == 0 then 1 else v]
  }

  /** A version line followed by records: header, then the records in order. */
  lemma {:induction false} ContentIsJoined(v: int, fs: seq<Field>)
    requires NoVersion(fs) && Content([Version(v)] + fs).Some?
    ensures Entries(fs) && FitsByte(v)
    ensures Content([Version(v)] + fs).value == Header(v) + Join(Records(fs))
    decreases |fs|
  {
    if fs == [] {
      ContentLast([Version(v)], [], Version(v));
      assert [Version(v)] + fs == [Version(v)];
    } else {
      var init, last := fs[..|fs| - 1], fs[|fs| - 1];
      ContentLast([Version(v)] + fs, [Version(v)] + init, last);
      ContentIsJoined(v, init);
      RecordsAppend(init, last);
      assert fs == init + [last];
      Regroup(Header(v), Join(Records(init)), Dump(last).value);
    }
  }

  lemma ContentLast(config: seq<Field>, init: seq<Field>, last: Field)
    requires config == init + [last] && Content(config).Some?
    ensures Content(init).Some? && Dump(last).Some? && Content(config).value == Content(init).value + Dump(last).value
  {
    assert config[..|config| - 1] == init;
  }

  lemma Regroup(a: seq<Byte>, b: seq<Byte>, c: seq<Byte>)
    ensures a + (b + c) == a + b + c
  {
  }

  /** The buffer `load_prom` walks when `image` is burnt in the PROM. */
  function Buffer(image: seq<Byte>): (buf: seq<Byte>)
    requires |image| <= PROM_MAX_LENGTH
    ensures |buf| == PROM_MAX_LENGTH + 1 && LaidAt(buf, 0, image)
    ensures forall i :: |image| <= i < |buf| ==> buf[i] == 0
  {
    RomImage(image) + [0]
  }

  /** The layout of an image in the buffer: header, records, end marker. */
  lemma ImageLayout(v: int, fs: seq<Field>, image: seq<Byte>, buf: seq<Byte>, stop: nat)
    requires NoVersion(fs) && Image([Version(v)] + fs) == Some(image) && |image| <= PROM_MAX_LENGTH
    requires Entries(fs) && stop == FIRST_ENTRY + |Join(Records(fs))| && buf == Buffer(image)
    ensures buf[..4] == MAGIC && (buf[4] == 1 <==> v == 0 || v == 1)
    ensures stop + 4 <= |image| && LaidAt(buf, FIRST_ENTRY, Join(Records(fs)))
    ensures buf[stop] == END_TAG && (buf[stop + 1] == 2 || buf[stop + 1] == 3)
    ensures Next(buf, stop) == |image| && OnesComplement(buf[..|image|]) == 0
  {
    ContentIsJoined(v, fs);
    var head, body := Header(v), Join(Records(fs));
    var end := DumpEnd(head + body);
    SealedImage(head + body);
    LaidParts(buf, 0, head + body, end);
    LaidParts(buf, 0, head, body);
    LaidByte(buf, stop, end, 0);
    LaidByte(buf, stop, end, 1);
    LaidByte(buf, 0, head, 4);
    LaidParts(buf, 0, MAGIC, [head[4]]);
    assert buf[0..4] == buf[..4] && buf[0..|image|] == buf[..|image|];
  }

  lemma EntriesPack(v: int, fs: seq<Field>)
    requires NoVersion(fs) && Image([Version(v)] + fs).Some?
    ensures Entries(fs)
  {
    ContentIsJoined(v, fs);
  }

  predicate IsRegion(f: Field) {
    f.Region?
  }

  predicate HasNode(f: Field) {
    f.Region? || f.Name?
  }

  function Count(fs: seq<Field>, p: Field -> bool): nat {
    if fs == [] then 0
    else Count(fs[..|fs| - 1], p) + if p(fs[|fs| - 1]) then 1 else 0
  }

  lemma {:induction false} CountsAgree(buf: seq<Byte>, offs: seq<nat>, fs: seq<Field>, p: Byte -> bool, q: Field -> bool)
    requires |offs| == |fs| && InBuffer(buf, offs)
    requires forall i :: 0 <= i < |fs| ==> p(buf[offs[i]]) == q(fs[i])
    ensures |Select(buf, offs, p)| == Count(fs, q)
    decreases |fs|
  {
    if fs != [] {
      CountsAgree(buf, offs[..|fs| - 1], fs[..|fs| - 1], p, q);
    }
  }

  /** The counts of a walk that visited the records of `fs`. */
  lemma CountsOfImage(buf: seq<Byte>, fs: seq<Field>)
    requires |buf| == PROM_MAX_LENGTH + 1 && Entries(fs) && LaidAt(buf, FIRST_ENTRY, Join(Records(fs)))
    requires Offsets(buf) == StartsAt(Records(fs), FIRST_ENTRY)
    ensures |Select(buf, Offsets(buf), IsDmaTag)| == Count(fs, IsRegion)
    ensures |Select(buf, Offsets(buf), NeedsMinor)| == Count(fs, HasNode)
  {
    EachLaid(buf, FIRST_ENTRY, Records(fs));
    forall i | 0 <= i < |fs|
      ensures buf[Offsets(buf)[i]] == TagOf(fs[i])
    {
      RecordShape(fs[i]);
      assert LaidAt(buf, Offsets(buf)[i], Records(fs)[i]);
      LaidByte(buf, Offsets(buf)[i], Dump(fs[i]).value, 0);
    }
    CountsAgree(buf, Offsets(buf), fs, IsDmaTag, IsRegion);
    CountsAgree(buf, Offsets(buf), fs, NeedsMinor, HasNode);
  }

  lemma AcceptableBuffer(buf: seq<Byte>, stop: nat)
    requires |buf| == PROM_MAX_LENGTH + 1 && stop < PROM_MAX_LENGTH && Walk(buf, FIRST_ENTRY).stop == stop
    requires buf[stop] == END_TAG && (buf[stop + 1] == 2 || buf[stop + 1] == 3)
    requires Next(buf, stop) <= PROM_MAX_LENGTH && OnesComplement(buf[..Next(buf, stop)]) == 0
    ensures Acceptable(buf) <==> buf[4] == 1 && Next(buf, stop) < PROM_MAX_LENGTH
    ensures Acceptable(buf) ==>
              ContextOf(buf) == PromContext(buf, Next(buf, stop), |Offsets(buf)|,
                                            |Select(buf, Offsets(buf), IsDmaTag)|,
                                            |Select(buf, Offsets(buf), NeedsMinor)|)
  {
  }

  /** What the driver learns from a burnt image of `fs`. */
  function Expected(fs: seq<Field>, image: seq<Byte>): PromContext
    requires |image| <= PROM_MAX_LENGTH
  {
    PromContext(Buffer(image), |image|, |fs|, Count(fs, IsRegion), Count(fs, HasNode))
  }

  lemma AsciiWalk(v: int, fs: seq<Field>, image: seq<Byte>, buf: seq<Byte>)
    requires NoVersion(fs) && Image([Version(v)] + fs) == Some(image) && |image| <= PROM_MAX_LENGTH
    requires AllAscii(fs) && buf == Buffer(image)
    ensures buf[..4] == MAGIC
    ensures Acceptable(buf) <==> |image| < PROM_MAX_LENGTH && (v == 0 || v == 1)
    ensures Acceptable(buf) ==> ContextOf(buf) == Expected(fs, image)
  {
    EntriesPack(v, fs);
    var stop := FIRST_ENTRY + |Join(Records(fs))|;
    ImageLayout(v, fs, image, buf, stop);
    RecordsShape(fs);
    WalkFollows(buf, FIRST_ENTRY, Records(fs), stop);
    AcceptableBuffer(buf, stop);
    CountsOfImage(buf, fs);
  }

  /**
   An image of ASCII names is accepted exactly when its version is the driver's
   and it leaves the last PROM byte free; the context then holds the image, its
   length, and one entry per record with the right counts.
   */
  lemma ImageIsAccepted(v: int, fs: seq<Field>, image: seq<Byte>, builtIn: seq<Byte>)
    requires NoVersion(fs) && Image([Version(v)] + fs) == Some(image) && |image| <= PROM_MAX_LENGTH
    requires AllAscii(fs) && |builtIn| <= PROM_MAX_LENGTH
    ensures Loaded(RomImage(image), builtIn)
            == if |image| < PROM_MAX_LENGTH && (v == 0 || v == 1) then Some(Expected(fs, image)) else None
  {
    var rom, buf := RomImage(image), Buffer(image);
    AsciiWalk(v, fs, image, buf);
    assert rom[..4] == buf[..4];
    assert LoadBuffer(rom, builtIn) == buf;
  }

  /** Without the magic the driver loads the built-in image, whatever the memory holds. */
  lemma FallbackIsAccepted(rom: seq<Byte>, v: int, fs: seq<Field>, builtIn: seq<Byte>)
    requires |rom| == PROM_MAX_LENGTH && rom[..4] != MAGIC
    requires NoVersion(fs) && Image([Version(v)] + fs) == Some(builtIn) && |builtIn| < PROM_MAX_LENGTH
    requires AllAscii(fs) && (v == 0 || v == 1)
    ensures Loaded(rom, builtIn) == Some(Expected(fs, builtIn))
  {
    AsciiWalk(v, fs, builtIn, Buffer(builtIn));
    assert LoadBuffer(rom, builtIn) == Buffer(builtIn);
  }

  /** The buffer reads back as the configuration: same entries at the same places, same contents. */
  ghost predicate ReadsBack(buf: seq<Byte>, fs: seq<Field>)
    requires |buf| == PROM_MAX_LENGTH + 1 && Entries(fs)
  {
    var offs := StartsAt(Records(fs), FIRST_ENTRY);
    && Walk(buf, FIRST_ENTRY) == Walked(offs, FIRST_ENTRY + |Join(Records(fs))|)
    && forall i :: 0 <= i < |fs| ==> offs[i] < |buf| && Decode(buf, offs[i]) == Some(Intended(fs[i]))
  }

  /** The round trip is exact if and only if every name is ASCII without NUL. */
  lemma RoundTrip(v: int, fs: seq<Field>, image: seq<Byte>)
    requires NoVersion(fs) && Image([Version(v)] + fs) == Some(image) && |image| <= PROM_MAX_LENGTH
    ensures Entries(fs)
    ensures ReadsBack(Buffer(image), fs) <==> AllAscii(fs) && NoneHasNul(fs)
  {
    EntriesPack(v, fs);
    var buf, offs := Buffer(image), StartsAt(Records(fs), FIRST_ENTRY);
    var stop := FIRST_ENTRY + |Join(Records(fs))|;
    ImageLayout(v, fs, image, buf, stop);
    RecordsShape(fs);
    WalkFollows(buf, FIRST_ENTRY, Records(fs), stop);
    EachLaid(buf, FIRST_ENTRY, Records(fs));
    if AllAscii(fs) {
      forall i | 0 <= i < |fs|
        ensures offs[i] < |buf|
        ensures Decode(buf, offs[i]) == Some(Intended(fs[i])) <==> !HasNul(FieldName(fs[i]))
      {
        assert LaidAt(buf, offs[i], Records(fs)[i]);
        RecordReadsBack(buf, offs[i], fs[i]);
      }
    }
  }

  /** From configuration to driver through the memory cells: accepted, and read back exactly. */
  lemma PublishedConfiguration(v: int, fs: seq<Field>, image: seq<Byte>, cells: seq<Cell>, builtIn: seq<Byte>)
    requires NoVersion(fs) && Image([Version(v)] + fs) == Some(image) && |image| < PROM_MAX_LENGTH
    requires (v == 0 || v == 1) && AllAscii(fs) && NoneHasNul(fs)
    requires cells == Burn(CoeCells(image)) && |builtIn| <= PROM_MAX_LENGTH
    ensures Entries(fs)
    ensures Loaded(RomBytes(cells), builtIn) == Some(Expected(fs, image))
    ensures ReadsBack(Buffer(image), fs)
  {
    BurntImage(image, cells);
    ImageIsAccepted(v, fs, image, builtIn);
    RoundTrip(v, fs, image);
  }
}
