/**
 Tag-length-value records laid one after another in a buffer, and when the
 loader's walk visits exactly them.
 */
module PromRecords {
  import opened Bits
  import opened PromFormat
  import opened PromLoader

  /** An entry tag, and a size byte that does not reach past the record. */
  predicate IsRecord(r: seq<Byte>) {
    |r| >= 3 && r[0] != END_TAG && r[1] as int + 2 <= |r|
  }

  /** A record whose size byte is its true size. */
  predicate Exact(r: seq<Byte>) {
    |r| >= 2 && r[1] as int + 2 == |r|
  }

  predicate AllRecords(rs: seq<seq<Byte>>) {
    forall i :: 0 <= i < |rs| ==> IsRecord(rs[i])
  }

  predicate AllExact(rs: seq<seq<Byte>>) {
    forall i :: 0 <= i < |rs| ==> Exact(rs[i])
  }

  function Join(rs: seq<seq<Byte>>): seq<Byte> {
    if rs == [] then [] else rs[0] + Join(rs[1..])
  }

  /** Where each record starts when the first one is at `off`. */
  function StartsAt(rs: seq<seq<Byte>>, off: nat): (offs: seq<nat>)
    ensures |offs| == |rs|
  {
    if rs == [] then [] else [off] + StartsAt(rs[1..], off + |rs[0]|)
  }

  predicate LaidAt(buf: seq<Byte>, off: nat, b: seq<Byte>) {
    off + |b| <= |buf| && buf[off..off + |b|] == b
  }

  lemma LaidParts(buf: seq<Byte>, off: nat, a: seq<Byte>, b: seq<Byte>)
    requires LaidAt(buf, off, a + b)
    ensures LaidAt(buf, off, a) && LaidAt(buf, off + |a|, b)
  {
    var d := a + b;
    assert buf[off..off + |a|] == buf[off..off + |d|][..|a|] == d[..|a|] == a;
    assert buf[off + |a|..off + |a| + |b|] == buf[off..off + |d|][|a|..] == d[|a|..] == b;
  }

  lemma LaidByte(buf: seq<Byte>, off: nat, b: seq<Byte>, i: nat)
    requires LaidAt(buf, off, b) && i < |b|
    ensures buf[off + i] == b[i]
  {
    assert buf[off..off + |b|][i] == buf[off + i];
  }

  lemma {:induction false} JoinAppend(rs: seq<seq<Byte>>, r: seq<Byte>)
    ensures Join(rs + [r]) == Join(rs) + r
  {
    if rs == [] {
      assert rs + [r] == [r] && [r][1..] == [];
    } else {
      JoinAppend(rs[1..], r);
      assert (rs + [r])[1..] == rs[1..] + [r];
      assert rs[0] + (Join(rs[1..]) + r) == rs[0] + Join(rs[1..]) + r;
    }
  }

  /** Records laid end to end lie each at its own start. */
  lemma {:induction false} EachLaid(buf: seq<Byte>, off: nat, rs: seq<seq<Byte>>)
    requires LaidAt(buf, off, Join(rs))
    ensures forall i :: 0 <= i < |rs| ==> LaidAt(buf, StartsAt(rs, off)[i], rs[i])
    decreases |rs|
  {
    if rs != [] {
      LaidParts(buf, off, rs[0], Join(rs[1..]));
      EachLaid(buf, off + |rs[0]|, rs[1..]);
      var offs, rest := StartsAt(rs, off), StartsAt(rs[1..], off + |rs[0]|);
      assert offs == [off] + rest;
      forall i | 0 <= i < |rs|
        ensures LaidAt(buf, offs[i], rs[i])
      {
        if i > 0 {
          assert LaidAt(buf, rest[i - 1], rs[1..][i - 1]);
        }
      }
    }
  }

  /** Over a record the walk steps by its size byte. */
  lemma StepOverRecord(buf: seq<Byte>, off: nat, r: seq<Byte>)
    requires |buf| == PROM_MAX_LENGTH + 1 && off + |r| < PROM_MAX_LENGTH
    requires LaidAt(buf, off, r) && IsRecord(r)
    ensures buf[off] != END_TAG && Next(buf, off) <= off + |r|
    ensures Next(buf, off) == off + |r| <==> Exact(r)
    ensures Walk(buf, off) == Walked([off] + Walk(buf, Next(buf, off)).offsets, Walk(buf, Next(buf, off)).stop)
  {
    LaidByte(buf, off, r, 0);
    LaidByte(buf, off, r, 1);
  }

  lemma FirstDropped(x: nat, a: seq<nat>, b: seq<nat>)
    ensures [x] + a == [x] + b <==> a == b
  {
    assert ([x] + a)[1..] == a && ([x] + b)[1..] == b;
  }

  lemma ExactFirst(rs: seq<seq<Byte>>)
    requires rs != []
    ensures AllExact(rs) <==> Exact(rs[0]) && AllExact(rs[1..])
  {
    assert rs == [rs[0]] + rs[1..];
  }

  /** A walk that reports the starts of `rs` from `off` did start at `off`. */
  lemma WalkStart(buf: seq<Byte>, next: nat, rs: seq<seq<Byte>>, off: nat)
    requires |buf| == PROM_MAX_LENGTH + 1
    requires Walk(buf, next) == Walked(StartsAt(rs, off), off + |Join(rs)|)
    ensures next == off
  {
    WalkTiles(buf, next);
  }

  /** The walk visits exactly the records laid at `off` if and only if every size byte is exact. */
  lemma {:induction false} WalkFollows(buf: seq<Byte>, off: nat, rs: seq<seq<Byte>>, stop: nat)
    requires |buf| == PROM_MAX_LENGTH + 1 && AllRecords(rs)
    requires stop == off + |Join(rs)| < PROM_MAX_LENGTH
    requires LaidAt(buf, off, Join(rs)) && buf[stop] == END_TAG
    ensures Walk(buf, off) == Walked(StartsAt(rs, off), stop) <==> AllExact(rs)
    decreases |rs|
  {
    if rs != [] {
      var end, rest := off + |rs[0]|, rs[1..];
      LaidParts(buf, off, rs[0], Join(rest));
      StepOverRecord(buf, off, rs[0]);
      var next := Next(buf, off);
      FirstDropped(off, Walk(buf, next).offsets, StartsAt(rest, end));
      ExactFirst(rs);
      if Exact(rs[0]) {
        WalkFollows(buf, end, rest, stop);
      } else if Walk(buf, next) == Walked(StartsAt(rest, end), stop) {
        WalkStart(buf, next, rest, end);
      }
    }
  }
}
