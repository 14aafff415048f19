/**
 The identity PROM format: the records of a configuration file, their bytes as
 the writer emits them, and the driver's view of an entry laid over a buffer.
 */
module PromFormat {
  import opened Wrappers
  import opened Bits
  import opened Checksum

  const PROM_MAX_LENGTH := 4096
  const FIRST_ENTRY := 5
  const MAGIC: seq<Byte> := [0x44, 0x49, 0x41, 0x47]  // "DIAG"

  const END_TAG := 0
  const DEVICE_TAG := 1
  const DMA_TAG := 2
  const DMA_EXT_TAG := 3
  const DMA_MASK_TAG := 4
  const DMA_ALIGN_TAG := 5

  // ---------------------------------------------------------------------
  // Numbers and text as bytes
  // ---------------------------------------------------------------------

  /** `x` as `n` little-endian bytes. */
  function LE(x: nat, n: nat): (b: seq<Byte>)
    ensures |b| == n
  {
    if n == 0 then [] else [x % 256] + LE(x / 256, n - 1)
  }

  /** The number whose little-endian bytes are `b`. */
  function FromLE(b: seq<Byte>): nat {
    if |b| == 0 then 0 else b[0] as int + 256 * FromLE(b[1..])
  }

  lemma {:induction false} LERoundTrip(x: nat, n: nat)
    requires x < Pow2(8 * n)
    ensures FromLE(LE(x, n)) == x
  {
    if n > 0 {
      Pow2Sum(8, 8 * (n - 1));
      assert Pow2(8) == 256;
      LERoundTrip(x / 256, n - 1);
      assert LE(x, n)[1..] == LE(x / 256, n - 1);
    }
  }

  lemma Pow2Widths()
    ensures Pow2(8 * 2) == 0x1_0000 && Pow2(8 * 4) == 0x1_0000_0000 && Pow2(8 * 8) == WORD64
  {
    Pow2Constants();
  }

  /** UTF-8, as Python's `str.encode()` produces it. */
  function EncodeChar(c: char): (b: seq<Byte>)
    ensures 1 <= |b| && (|b| == 1 <==> c as int < 0x80)
    ensures |b| == 1 ==> b[0] == c as int
  {
    var u := c as int;
    if u < 0x80 then [u]
    else if u < 0x800 then [0xc0 + u / 0x40, 0x80 + u % 0x40]
    else if u < 0x1_0000 then [0xe0 + u / 0x1000, 0x80 + u / 0x40 % 0x40, 0x80 + u % 0x40]
    else [0xf0 + u / 0x4_0000, 0x80 + u / 0x1000 % 0x40, 0x80 + u / 0x40 % 0x40, 0x80 + u % 0x40]
  }

  /** The code point that one UTF-8 sequence stands for. */
  function DecodeChar(b: seq<Byte>): int
    requires 1 <= |b| <= 4
  {
    if |b| == 1 then b[0] as int
    else if |b| == 2 then (b[0] as int - 0xc0) * 0x40 + (b[1] as int - 0x80)
    else if |b| == 3 then ((b[0] as int - 0xe0) * 0x40 + (b[1] as int - 0x80)) * 0x40 + (b[2] as int - 0x80)
    else (((b[0] as int - 0xf0) * 0x40 + (b[1] as int - 0x80)) * 0x40 + (b[2] as int - 0x80)) * 0x40 + (b[3] as int - 0x80)
  }

  lemma CharReadsBack(c: char)
    ensures |EncodeChar(c)| <= 4 && DecodeChar(EncodeChar(c)) == c as int
    ensures forall i :: 1 <= i < |EncodeChar(c)| ==> 0x80 <= EncodeChar(c)[i] < 0xc0
  {
    var u := c as int;
    assert u == (u / 0x40) * 0x40 + u % 0x40;
    assert u / 0x40 == (u / 0x1000) * 0x40 + u / 0x40 % 0x40;
    assert u / 0x1000 == (u / 0x4_0000) * 0x40 + u / 0x1000 % 0x40;
  }

  function Encode(name: string): seq<Byte> {
    if name == "" then [] else EncodeChar(name[0]) + Encode(name[1..])
  }

  predicate IsAscii(name: string) {
    forall i :: 0 <= i < |name| ==> name[i] as int < 0x80
  }

  predicate HasNul(name: string) {
    exists i :: 0 <= i < |name| && name[i] == '\0'
  }

  /** One byte per character exactly for ASCII names. */
  lemma {:induction false} EncodedLength(name: string)
    ensures |Encode(name)| >= |name|
    ensures |Encode(name)| == |name| <==> IsAscii(name)
  {
    if name != "" {
      EncodedLength(name[1..]);
      assert name == [name[0]] + name[1..];
      assert IsAscii(name) <==> name[0] as int < 0x80 && IsAscii(name[1..]);
    }
  }

  lemma {:induction false} EncodedAscii(name: string)
    requires IsAscii(name)
    ensures |Encode(name)| == |name|
    ensures forall i :: 0 <= i < |name| ==> Encode(name)[i] == name[i] as int
  {
    if name != "" {
      EncodedAscii(name[1..]);
    }
  }

  // ---------------------------------------------------------------------
  // Configuration records
  // ---------------------------------------------------------------------

  /** One parsed line of a configuration file. */
  datatype Field =
    | Version(version: int)
    | Name(name: string)
    | Region(name: string, perm: int, base: int, length: int)
    | Mask(mask: int)
    | AlignShift(shift: int)

  predicate FitsByte(x: int) {
    0 <= x < 256
  }

  /** `dump_header`; a zero version is replaced by the default, 1. */
  function DumpHeader(version: int): Option<seq<Byte>> {
    var v := if version == 0 then 1 else version;
    if FitsByte(v) then Some(MAGIC + [v]) else None
  }

  /** `dump_device_description` */
  function DumpDevice(name: string): Option<seq<Byte>> {
    if FitsByte(|name| + 1) then Some([DEVICE_TAG, |name| + 1] + Encode(name) + [0]) else None
  }

  /** `dump_memory_description`: the short form if base and length fit it. */
  function DumpMemory(name: string, base: int, length: int, perm: int): Option<seq<Byte>> {
    if base > 0xffff_ffff_ffff || length > 0xffff_ffff then
      if FitsByte(|name| + 18) && 0 <= base < WORD64 && 0 <= length < WORD64 && FitsByte(perm) then
        Some([DMA_EXT_TAG, |name| + 18] + LE(base, 8) + LE(length, 8) + [perm] + Encode(name) + [0])
      else None
    else
      var high, low := base / 0x1_0000_0000, base % 0x1_0000_0000;
      if FitsByte(|name| + 12) && 0 <= high < 0x1_0000 && 0 <= length && FitsByte(perm) then
        Some([DMA_TAG, |name| + 12] + LE(low, 4) + LE(high, 2) + LE(length, 4) + [perm] + Encode(name) + [0])
      else None
  }

  /** `dump_dma_mask` and `dump_dma_alignment_shift` */
  function DumpSmall(tag: Byte, x: int): Option<seq<Byte>> {
    if FitsByte(x) then Some([tag, 1, x]) else None
  }

  /** The bytes of one line; `None` is a `struct.error`. */
  function Dump(f: Field): Option<seq<Byte>> {
    match f
    case Version(v) => DumpHeader(v)
    case Name(name) => DumpDevice(name)
    case Region(name, perm, base, length) => DumpMemory(name, base, length, perm)
    case Mask(m) => DumpSmall(DMA_MASK_TAG, m)
    case AlignShift(s) => DumpSmall(DMA_ALIGN_TAG, s)
  }

  function Content(config: seq<Field>): Option<seq<Byte>> {
    if config == [] then Some([])
    else
      var n := |config| - 1;
      match (Content(config[..n]), Dump(config[n]))
      case (Some(done), Some(next)) => Some(done + next)
      case _ => None
  }

  /** The complete image, content and end marker. */
  function Image(config: seq<Field>): Option<seq<Byte>> {
    match Content(config)
    case Some(content) => Some(content + DumpEnd(content))
    case None => None
  }

  /** What a line may say: numbers that fit their fields, and names that leave the size a byte. */
  predicate Packable(f: Field) {
    match f
    case Version(v) => 0 <= v <= 255
    case Name(name) => |name| <= 254
    case Region(name, perm, base, length) =>
      && 0 <= base < 0x1_0000_0000_0000_0000 && 0 <= length < 0x1_0000_0000_0000_0000 && 0 <= perm <= 255
      && |name| + (if base < 0x1_0000_0000_0000 && length < 0x1_0000_0000 then 12 else 18) <= 255
    case Mask(m) => 0 <= m <= 255
    case AlignShift(s) => 0 <= s <= 255
  }

  lemma DumpsExactly(f: Field)
    ensures Dump(f).Some? <==> Packable(f)
  {
  }

  predicate AllPackable(config: seq<Field>) {
    forall i :: 0 <= i < |config| ==> Packable(config[i])
  }

  lemma {:induction false} ContentExactly(config: seq<Field>)
    ensures Content(config).Some? <==> AllPackable(config)
  {
    if config != [] {
      var init, last := config[..|config| - 1], config[|config| - 1];
      ContentExactly(init);
      DumpsExactly(last);
      PackableLast(config, init, last);
    }
  }

  lemma PackableLast(config: seq<Field>, init: seq<Field>, last: Field)
    requires config != [] && init == config[..|config| - 1] && last == config[|config| - 1]
    ensures AllPackable(config) <==> AllPackable(init) && Packable(last)
  {
  }

  /** An image can be written if and only if every line is packable. */
  lemma ImageExactly(config: seq<Field>)
    ensures Image(config).Some? <==> AllPackable(config)
  {
    ContentExactly(config);
  }

  /** `process_config_file` after parsing: extends `bin_data` line by line. */
  method ProcessConfigFile(config: seq<Field>) returns (r: Option<seq<Byte>>)
    ensures r == Image(config)
    ensures r.Some? <==> AllPackable(config)
  {
    ImageExactly(config);
    var binData: seq<Byte> := [];
    for i := 0 to |config|
      invariant Content(config[..i]) == Some(binData)
    {
      assert config[..i + 1][..i] == config[..i];
      var d := Dump(config[i]);
      if d.None? {
        ContentFails(config, i + 1);
        return None;
      }
      binData := binData + d.value;
    }
    assert config[..|config|] == config;
    binData := binData + DumpEnd(binData);
    return Some(binData);
  }

  lemma {:induction false} ContentFails(config: seq<Field>, i: nat)
    requires i <= |config| && Content(config[..i]).None?
    ensures Content(config).None?
    decreases |config| - i
  {
    if i == |config| {
      assert config[..i] == config;
    } else {
      assert config[..i + 1][..i] == config[..i];
      ContentFails(config, i + 1);
    }
  }

  // ---------------------------------------------------------------------
  // The driver's view of an entry
  // ---------------------------------------------------------------------

  /** What the driver reads from an entry: union prom_entry. */
  datatype Entry =
    | DeviceEntry(deviceName: seq<Byte>)
    | DmaEntry(dmaName: seq<Byte>, base: nat, length: nat, perm: Byte)
    | MaskEntry(mask: Byte)
    | AlignEntry(shift: Byte)
    | UnknownEntry(tag: Byte)

  /** The NUL-terminated string at `i`. */
  function CString(buf: seq<Byte>, i: nat): seq<Byte>
    requires i <= |buf|
    decreases |buf| - i
  {
    if i == |buf| || buf[i] == 0 then [] else [buf[i]] + CString(buf, i + 1)
  }

  /** `base[0] | base[1] << 16 | base[2] << 32` on six bytes at `i`. */
  function ReadBase48(buf: seq<Byte>, i: nat): nat
    requires i + 6 <= |buf|
  {
    Or(Or(U16(buf[i], buf[i + 1]), U16(buf[i + 2], buf[i + 3]) * 0x1_0000),
       U16(buf[i + 4], buf[i + 5]) * 0x1_0000_0000)
  }

  /** The entry at `off`; `None` if its layout reaches past the buffer. */
  function Decode(buf: seq<Byte>, off: nat): Option<Entry>
    requires off < |buf|
  {
    var tag := buf[off];
    if tag == DEVICE_TAG then
      if off + 2 <= |buf| then Some(DeviceEntry(CString(buf, off + 2))) else None
    else if tag == DMA_TAG then
      if off + 13 <= |buf| then
        Some(DmaEntry(CString(buf, off + 13), ReadBase48(buf, off + 2),
                      FromLE(buf[off + 8..off + 12]), buf[off + 12]))
      else None
    else if tag == DMA_EXT_TAG then
      if off + 19 <= |buf| then
        Some(DmaEntry(CString(buf, off + 19), FromLE(buf[off + 2..off + 10]),
                      FromLE(buf[off + 10..off + 18]), buf[off + 18]))
      else None
    else if tag == DMA_MASK_TAG then
      if off + 3 <= |buf| then Some(MaskEntry(buf[off + 2])) else None
    else if tag == DMA_ALIGN_TAG then
      if off + 3 <= |buf| then Some(AlignEntry(buf[off + 2])) else None
    else Some(UnknownEntry(tag))
  }

  /** What the author of the configuration line meant the driver to see. */
  function Intended(f: Field): (e: Entry)
    requires !f.Version? && Dump(f).Some?
  {
    match f
    case Name(name) => DeviceEntry(Encode(name))
    case Region(name, perm, base, length) => DmaEntry(Encode(name), base, length, perm)
    case Mask(m) => MaskEntry(m)
    case AlignShift(s) => AlignEntry(s)
  }

  function FieldName(f: Field): string {
    match f
    case Name(name) => name
    case Region(name, _, _, _) => name
    case _ => ""
  }
}
