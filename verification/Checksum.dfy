/**
 The 16-bit ones' complement checksum of a PROM image: the driver's C loop in
 a 32-bit accumulator, the image writer's Python loop in an unbounded one, and
 the form both are meant to compute, which folds carries back in until none is
 left (section 4.1 of RFC 1071, except that an odd last byte counts in the high
 half of its word).
 */
module Checksum {
  import opened Bits

  const WORD32 := 0x1_0000_0000

  /** The longest string whose word sum always fits the C accumulator. */
  const MAX_SUMMED := 131074

  /** The little-endian word of two bytes. */
  function U16(lo: Byte, hi: Byte): (w: nat)
    ensures w <= 0xffff
  {
    lo as int + 256 * (hi as int)
  }

  /** Word `k` of `b`; an odd last byte is the high half of its word. */
  function Word(b: seq<Byte>, k: nat): (w: nat)
    requires 2 * k < |b|
    ensures w <= 0xffff
  {
    if 2 * k + 1 < |b| then U16(b[2 * k], b[2 * k + 1]) else U16(0, b[2 * k])
  }

  /** Sum of the little-endian 16-bit words of `b`. */
  function Sum16(b: seq<Byte>): nat {
    if |b| == 0 then 0
    else if |b| == 1 then U16(0, b[0])
    else U16(b[0], b[1]) + Sum16(b[2..])
  }

  /** `(s & 0xffff) + (s >> 16)` */
  function Fold(s: nat): nat {
    s % 0x1_0000 + s / 0x1_0000
  }

  /** Folding until no carry is left. */
  function FoldAll(s: nat): nat {
    if s < 0x1_0000 then s else FoldAll(Fold(s))
  }

  /** The reference: the complement of the completely folded sum. */
  function OnesComplement(b: seq<Byte>): int
  {
    0xffff - FoldAll(Sum16(b))
  }

  // ---------------------------------------------------------------------
  // The two implementations
  // ---------------------------------------------------------------------

  /** The folds and complement at the end of `calc_checksum16`, on a `u32`. */
  function FinishC(sum: nat): (r: nat)
    requires sum < WORD32
  {
    (WORD32 - 1 - Fold(Fold(sum))) % 0x1_0000
  }

  /** The same at the end of the writer's `checksum`, on a Python integer. */
  function FinishPython(sum: nat): (r: nat) {
    (-1 - Fold(Fold(sum))) % 0x1_0000
  }

  /** `calc_checksum16`, with the wrap-around of its 32-bit accumulator. */
  method CalcChecksum16(buff: seq<Byte>) returns (r: nat)
    ensures r == FinishC(Sum16(buff) % WORD32)
    ensures |buff| <= MAX_SUMMED ==> r == OnesComplement(buff)
  {
    var result := AccumulateWords(buff);
    r := FinishC(result);
    if |buff| <= MAX_SUMMED {
      ChecksumsAgree(buff);
    }
  }

  /** Its accumulation loop. */
  method AccumulateWords(buff: seq<Byte>) returns (result: nat)
    ensures result == Sum16(buff) % WORD32
  {
    result := 0;
    for i := 0 to |buff| / 2
      invariant result == Sum16(buff[..2 * i]) % WORD32
    {
      SumNextWord(buff, i);
      AddWraps(Sum16(buff[..2 * i]), U16(buff[2 * i], buff[2 * i + 1]));
      result := (result + U16(buff[2 * i], buff[2 * i + 1])) % WORD32;
    }
    SumLastByte(buff);
    if |buff| % 2 == 1 {
      AddWraps(Sum16(buff[..2 * (|buff| / 2)]), U16(0, buff[|buff| - 1]));
      result := (result + U16(0, buff[|buff| - 1])) % WORD32;
    }
  }

  /** The writer's `checksum`: the same loop on unbounded integers. */
  method PythonChecksum(content: seq<Byte>) returns (r: nat)
    ensures r == FinishPython(Sum16(content))
    ensures |content| <= MAX_SUMMED ==> r == OnesComplement(content)
  {
    var result := AddWords(content);
    r := FinishPython(result);
    if |content| <= MAX_SUMMED {
      ChecksumsAgree(content);
    }
  }

  /** Its accumulation loop. */
  method AddWords(content: seq<Byte>) returns (result: nat)
    ensures result == Sum16(content)
  {
    result := 0;
    for i := 0 to |content| / 2
      invariant result == Sum16(content[..2 * i])
    {
      SumNextWord(content, i);
      result := result + U16(content[2 * i], content[2 * i + 1]);
    }
    SumLastByte(content);
    if |content| % 2 == 1 {
      result := result + U16(0, content[|content| - 1]);
    }
  }

  // ---------------------------------------------------------------------
  // The sum
  // ---------------------------------------------------------------------

  lemma {:induction false} SumAppend(a: seq<Byte>, b: seq<Byte>)
    requires |a| % 2 == 0
    ensures Sum16(a + b) == Sum16(a) + Sum16(b)
  {
    if |a| == 0 {
      assert a + b == b;
    } else {
      SumAppend(a[2..], b);
      assert (a + b)[2..] == a[2..] + b;
    }
  }

  lemma AddWraps(s: nat, w: nat)
    ensures (s % WORD32 + w) % WORD32 == (s + w) % WORD32
  {
  }

  lemma SumNextWord(b: seq<Byte>, i: nat)
    requires 2 * i + 2 <= |b|
    ensures Sum16(b[..2 * i + 2]) == Sum16(b[..2 * i]) + Word(b, i)
  {
    var w := [b[2 * i], b[2 * i + 1]];
    assert b[..2 * i + 2] == b[..2 * i] + w;
    SumAppend(b[..2 * i], w);
    assert w[2..] == [];
  }

  lemma SumLastByte(b: seq<Byte>)
    ensures Sum16(b) == Sum16(b[..2 * (|b| / 2)]) + if |b| % 2 == 1 then U16(0, b[|b| - 1]) else 0
  {
    var n := 2 * (|b| / 2);
    SumAppend(b[..n], b[n..]);
    assert b == b[..n] + b[n..];
    assert |b[n..]| == |b| % 2;
  }

  lemma {:induction false} SumBound(b: seq<Byte>)
    ensures Sum16(b) <= 0xffff * ((|b| + 1) / 2)
  {
    if |b| > 1 {
      SumBound(b[2..]);
    }
  }

  /** No overflow of the 32-bit accumulator up to `MAX_SUMMED` bytes. */
  lemma SumFitsAccumulator(b: seq<Byte>)
    requires |b| <= MAX_SUMMED
    ensures Sum16(b) < WORD32
  {
    SumBound(b);
  }

  lemma {:induction false} SumOfOnes(n: nat)
    ensures Sum16(seq(2 * n, _ => 255)) == 0xffff * n
  {
    var b := seq(2 * n, _ => 255 as Byte);
    if n > 0 {
      SumOfOnes(n - 1);
      assert b[2..] == seq(2 * (n - 1), _ => 255);
    }
  }

  /** The bound is tight: one more byte and the two implementations part. */
  lemma AccumulatorBoundIsTight()
    ensures var b := seq(MAX_SUMMED + 1, _ => 255 as Byte);
            FinishC(Sum16(b) % WORD32) != FinishPython(Sum16(b))
  {
    var b := seq(MAX_SUMMED + 1, _ => 255 as Byte);
    SumLastByte(b);
    SumOfOnes(65537);
    assert b[..2 * (|b| / 2)] == seq(2 * 65537, _ => 255);
    assert Sum16(b) == 0x1_0000_feff;
    assert Fold(0x1_0000_feff) == 0x1_feff && Fold(0x1_feff) == 0xff00;
    assert 0x1_0000_feff % WORD32 == 0xfeff && Fold(0xfeff) == 0xfeff;
  }

  // ---------------------------------------------------------------------
  // Folding
  // ---------------------------------------------------------------------

  /** The residue modulo 65535, with zero kept for a zero sum only. */
  function Residue(s: nat): nat {
    if s == 0 then 0 else 1 + (s - 1) % 0xffff
  }

  lemma FoldKeepsResidue(s: nat)
    ensures Residue(Fold(s)) == Residue(s)
  {
    if s > 0 {
      var h := s / 0x1_0000;
      assert s - 1 == 0xffff * h + (Fold(s) - 1);
      ModUnique(s - 1, 0xffff, h + (Fold(s) - 1) / 0xffff, (Fold(s) - 1) % 0xffff);
    }
  }

  lemma {:induction false} FoldAllIsResidue(s: nat)
    ensures FoldAll(s) == Residue(s)
  {
    if s >= 0x1_0000 {
      FoldKeepsResidue(s);
      FoldAllIsResidue(Fold(s));
    }
  }

  /** Two folds leave no carry in a 32-bit sum, so they are folding to the end. */
  lemma TwoFoldsSuffice(s: nat)
    requires s < WORD32
    ensures Fold(Fold(s)) == FoldAll(s) == Residue(s) <= 0xffff
  {
    FoldAllIsResidue(s);
    FoldKeepsResidue(s);
    FoldKeepsResidue(Fold(s));
    assert Fold(s) <= 0x1_fffe;
    assert Fold(Fold(s)) <= 0xffff;
  }

  /** On a sum that fits 32 bits both endings give the complete fold's complement. */
  lemma FinishesAgree(s: nat)
    requires s < WORD32
    ensures FinishC(s) == FinishPython(s) == 0xffff - FoldAll(s)
  {
    TwoFoldsSuffice(s);
    Complements(Fold(Fold(s)));
  }

  lemma Complements(f: nat)
    requires f <= 0xffff
    ensures (WORD32 - 1 - f) % 0x1_0000 == (-1 - f) % 0x1_0000 == 0xffff - f
  {
    ModUnique(WORD32 - 1 - f, 0x1_0000, 0xffff, 0xffff - f);
    ModUnique(-1 - f, 0x1_0000, -1, 0xffff - f);
  }

  /** Up to `MAX_SUMMED` bytes the C and Python results are the reference checksum. */
  lemma ChecksumsAgree(b: seq<Byte>)
    requires |b| <= MAX_SUMMED
    ensures FinishC(Sum16(b) % WORD32) == FinishPython(Sum16(b)) == OnesComplement(b)
  {
    SumFitsAccumulator(b);
    NoWrap32(Sum16(b));
    FinishesAgree(Sum16(b));
  }

  lemma NoWrap32(s: nat)
    requires s < WORD32
    ensures s % WORD32 == s
  {
  }

  /** What `validate_prom` accepts. */
  lemma ZeroChecksum(b: seq<Byte>)
    ensures OnesComplement(b) == 0 <==> Sum16(b) != 0 && Sum16(b) % 0xffff == 0
  {
    var s := Sum16(b);
    FoldAllIsResidue(s);
    if s > 0 {
      var q, r := (s - 1) / 0xffff, (s - 1) % 0xffff;
      assert s - 1 == q * 0xffff + r;
      if r == 0xfffe {
        ModUnique(s, 0xffff, q + 1, 0);
      } else {
        ModUnique(s, 0xffff, q, r + 1);
      }
    }
  }

  // ---------------------------------------------------------------------
  // Sealing an image, and what the seal detects
  // ---------------------------------------------------------------------

  /** Tag, size and, after odd content, a padding byte. */
  function EndHead(content: seq<Byte>): (h: seq<Byte>)
    ensures |h| == 2 + |content| % 2
  {
    if |content| % 2 == 1 then [0, 3, 0] else [0, 2]
  }

  /** The writer's `dump_end`: an end tag whose payload zeroes the checksum. */
  function DumpEnd(content: seq<Byte>): (r: seq<Byte>)
    ensures content != [] ==> |r| == 4 + |content| % 2 && r[1] == |r| - 2
    ensures |r| >= 2 && r[0] == 0 && (content == [] ==> r == [0, 0])
  {
    if content == [] then [0, 0]
    else
      var head := EndHead(content);
      head + Pack16(FinishPython(Sum16(content + head)))
  }

  /** `struct.pack("<H", x)` */
  function Pack16(x: int): (r: seq<Byte>)
    ensures |r| == 2
  {
    [x % 256, (x / 256) % 256]
  }

  lemma Pack16Sum(x: nat)
    requires x <= 0xffff
    ensures Sum16(Pack16(x)) == x
  {
    assert Pack16(x)[2..] == [];
  }

  /** A sealed image has even length and checksum zero, whatever its content. */
  lemma SealedImage(content: seq<Byte>)
    requires content != [] && |content + DumpEnd(content)| <= MAX_SUMMED
    ensures |content + DumpEnd(content)| % 2 == 0
    ensures OnesComplement(content + DumpEnd(content)) == 0
  {
    var body := content + EndHead(content);
    assert content + DumpEnd(content) == body + Pack16(OnesComplement(body)) by {
      DumpEndMeaning(content);
    }
    EndTagCounts(content);
    Padded(|content|);
    SealedBody(body);
  }

  lemma Padded(n: nat)
    ensures (n + (2 + n % 2)) % 2 == 0 && (n + (4 + n % 2)) % 2 == 0
  {
    assert n == 2 * (n / 2) + n % 2;
  }

  lemma DumpEndMeaning(content: seq<Byte>)
    requires content != [] && |content + DumpEnd(content)| <= MAX_SUMMED
    ensures DumpEnd(content) == EndHead(content) + Pack16(OnesComplement(content + EndHead(content)))
  {
    ChecksumsAgree(content + EndHead(content));
  }

  lemma SealedBody(body: seq<Byte>)
    requires |body| % 2 == 0 && Sum16(body) > 0
    ensures OnesComplement(body + Pack16(OnesComplement(body))) == 0
  {
    var s, c := Sum16(body), OnesComplement(body);
    FoldAllIsResidue(s);
    ComplementSeals(s);
    SumWithSeal(body, c);
    ZeroChecksum(body + Pack16(c));
  }

  lemma SumWithSeal(body: seq<Byte>, c: nat)
    requires |body| % 2 == 0 && c <= 0xffff
    ensures Sum16(body + Pack16(c)) == Sum16(body) + c
  {
    SumAppend(body, Pack16(c));
    Pack16Sum(c);
  }

  lemma ComplementSeals(s: nat)
    requires s > 0
    ensures 0 <= 0xffff - Residue(s) <= 0xffff && (s + (0xffff - Residue(s))) % 0xffff == 0
  {
    var q, r := (s - 1) / 0xffff, (s - 1) % 0xffff;
    ModUnique(s + (0xffff - Residue(s)), 0xffff, q + 1, 0);
  }

  /** The end tag itself contributes to the sum, so a sealed sum is never zero. */
  lemma EndTagCounts(content: seq<Byte>)
    ensures Sum16(content + EndHead(content)) > 0
  {
    var head := EndHead(content);
    if |content| % 2 == 1 {
      var n := |content| - 1;
      var tail: seq<Byte> := [content[n], 0, 3, 0];
      assert content + head == content[..n] + tail;
      SumAppend(content[..n], tail);
      assert tail[2..] == [3, 0];
      assert Sum16([3, 0]) == 3;
    } else {
      SumAppend(content, head);
      assert Sum16([0, 2]) == 512;
    }
  }

  ghost predicate DifferInOneWord(a: seq<Byte>, b: seq<Byte>, k: nat) {
    && |a| == |b| && 2 * k < |a|
    && a[..2 * k] == b[..2 * k]
    && (2 * k + 2 <= |a| ==> a[2 * k + 2..] == b[2 * k + 2..])
  }

  lemma SumSplit(a: seq<Byte>, k: nat)
    requires 2 * k < |a|
    ensures Sum16(a) == Sum16(a[..2 * k]) + Word(a, k)
                        + if 2 * k + 2 <= |a| then Sum16(a[2 * k + 2..]) else 0
  {
    var n := 2 * k;
    SplitAt(a, n);
    SumAppend(a[..n], a[n..]);
    if n + 2 <= |a| {
      assert a[n..][2..] == a[n + 2..];
    }
  }

  lemma SplitAt(a: seq<Byte>, n: nat)
    requires n <= |a|
    ensures a == a[..n] + a[n..]
  {
  }

  lemma WordDelta(d: int)
    requires -0xffff <= d <= 0xffff && d != 0
    ensures d % 0xffff == 0 <==> d == 0xffff || d == -0xffff
  {
  }

  /**
   A change confined to one word of a valid string goes unnoticed exactly when
   it swaps the two representations of zero and the sum does not become zero.
   */
  lemma OneWordChange(a: seq<Byte>, b: seq<Byte>, k: nat)
    requires DifferInOneWord(a, b, k) && Word(a, k) != Word(b, k)
    requires OnesComplement(a) == 0
    ensures OnesComplement(b) == 0 <==>
              && ((Word(a, k) == 0 && Word(b, k) == 0xffff) || (Word(a, k) == 0xffff && Word(b, k) == 0))
              && Sum16(b) != 0
  {
    var d := Word(b, k) - Word(a, k);
    assert Sum16(b) == Sum16(a) + d by {
      SumSplit(a, k);
      SumSplit(b, k);
    }
    ZeroChecksum(a);
    ZeroChecksum(b);
    ModSum(d, Sum16(a), 0xffff);
    WordDelta(d);
  }
}
