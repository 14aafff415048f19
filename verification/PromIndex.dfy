/**
 The pointer walks over a loaded PROM: looking entries up by index, by minor
 number and by tag, and creating one device node per entry that needs a minor.
 */
module PromIndex {
  import opened Wrappers
  import opened Errno
  import opened Bits
  import opened PromFormat
  import opened PromLoader

  /** The entries that get a minor number, in order. */
  function MinorOffsets(buf: seq<Byte>): (r: seq<nat>)
    requires |buf| == PROM_MAX_LENGTH + 1
    ensures InBuffer(buf, r)
  {
    SelectTags(buf, Offsets(buf), NeedsMinor);
    Select(buf, Offsets(buf), NeedsMinor)
  }

  lemma {:induction false} SelectPrefix(buf: seq<Byte>, offs: seq<nat>, i: nat, p: Byte -> bool)
    requires InBuffer(buf, offs) && i <= |offs|
    ensures Select(buf, offs[..i], p) <= Select(buf, offs, p)
    decreases |offs| - i
  {
    if i == |offs| {
      assert offs[..i] == offs;
    } else {
      SelectNext(buf, offs, i, p);
      SelectPrefix(buf, offs, i + 1, p);
    }
  }

  /** How many of the first `i` entries need a minor. */
  ghost function MinorsAmong(buf: seq<Byte>, offs: seq<nat>, i: nat): nat
    requires InBuffer(buf, offs) && i <= |offs|
  {
    |Select(buf, offs[..i], NeedsMinor)|
  }

  /** An entry that needs a minor takes the next one. */
  lemma StepMinor(buf: seq<Byte>, offs: seq<nat>, i: nat)
    requires InBuffer(buf, offs) && i < |offs|
    ensures var minors, m := Select(buf, offs, NeedsMinor), MinorsAmong(buf, offs, i);
            if NeedsMinor(buf[offs[i]])
            then m < |minors| && minors[m] == offs[i] && MinorsAmong(buf, offs, i + 1) == m + 1
            else MinorsAmong(buf, offs, i + 1) == m
  {
    SelectNext(buf, offs, i, NeedsMinor);
    SelectPrefix(buf, offs, i + 1, NeedsMinor);
  }

  /** The marked region of a pointer walk: entries at `offs`, end tag at `stop`. */
  predicate Marked(buf: seq<Byte>, offs: seq<nat>, stop: nat) {
    InBuffer(buf, offs) && stop < |buf| && buf[stop] == END_TAG && Tiles(buf, FIRST_ENTRY, offs, stop)
  }

  lemma ValidIsMarked(c: PromContext)
    requires Valid(c)
    ensures Marked(c.buff, Offsets(c.buff), Walk(c.buff, FIRST_ENTRY).stop)
    ensures c.nentries == |Offsets(c.buff)| && c.nentriesWithMinor == |MinorOffsets(c.buff)|
  {
    WalkTiles(c.buff, FIRST_ENTRY);
  }

  lemma EntriesAreNotEnd(buf: seq<Byte>, offs: seq<nat>, stop: nat)
    requires Marked(buf, offs, stop)
    ensures forall i :: 0 <= i < |offs| ==> buf[offs[i]] != END_TAG
  {
    forall i | 0 <= i < |offs|
      ensures buf[offs[i]] != END_TAG
    {
      assert Link(buf, offs, stop, i);
    }
  }

  /** `prom_find_entry` */
  method FindEntry(c: PromContext, index: int) returns (r: Option<nat>)
    requires Valid(c)
    ensures r == if 0 <= index < c.nentries then Some(Offsets(c.buff)[index]) else None
  {
    ValidIsMarked(c);
    r := FindByIndex(c.buff, index, Offsets(c.buff), Walk(c.buff, FIRST_ENTRY).stop);
  }

  method FindByIndex(buf: seq<Byte>, index: int, ghost offs: seq<nat>, ghost stop: nat) returns (r: Option<nat>)
    requires Marked(buf, offs, stop)
    ensures r == if 0 <= index < |offs| then Some(offs[index]) else None
  {
    var i, pos: nat := 0, FIRST_ENTRY;
    EntriesAreNotEnd(buf, offs, stop);
    while buf[pos] != END_TAG
      invariant i <= |offs| && pos == PosAt(offs, stop, i) < |buf|
      invariant 0 <= index ==> i <= index
      decreases |buf| - pos
    {
      assert Link(buf, offs, stop, i);
      if i == index {
        return Some(pos);
      }
      i := i + 1;
      pos := Next(buf, pos);
    }
    return None;
  }

  /** `prom_find_entry_with_minor` */
  method FindEntryWithMinor(c: PromContext, minor: int) returns (r: Option<nat>)
    requires Valid(c)
    ensures r == if 0 <= minor < c.nentriesWithMinor then Some(MinorOffsets(c.buff)[minor]) else None
  {
    ValidIsMarked(c);
    r := FindByMinor(c.buff, minor, Offsets(c.buff), Walk(c.buff, FIRST_ENTRY).stop);
  }

  method FindByMinor(buf: seq<Byte>, minor: int, ghost offs: seq<nat>, ghost stop: nat) returns (r: Option<nat>)
    requires Marked(buf, offs, stop)
    ensures var minors := Select(buf, offs, NeedsMinor);
            r == if 0 <= minor < |minors| then Some(minors[minor]) else None
  {
    var i, pos: nat := 0, FIRST_ENTRY;
    ghost var passed := 0;
    EntriesAreNotEnd(buf, offs, stop);
    while buf[pos] != END_TAG
      invariant passed <= |offs| && pos == PosAt(offs, stop, passed) < |buf|
      invariant i == MinorsAmong(buf, offs, passed)
      invariant 0 <= minor ==> i <= minor
      decreases |buf| - pos
    {
      assert Link(buf, offs, stop, passed);
      StepMinor(buf, offs, passed);
      if NeedsMinor(buf[pos]) {
        if i == minor {
          return Some(pos);
        }
        i := i + 1;
      }
      pos, passed := Next(buf, pos), passed + 1;
    }
    assert offs[..passed] == offs;
    return None;
  }

  /** `prom_find_entry_by_tag`: the first entry with the tag, if any. */
  method FindEntryByTag(c: PromContext, tag: Byte) returns (r: Option<nat>)
    requires Valid(c)
    ensures r.None? ==> forall k :: 0 <= k < c.nentries ==> c.buff[Offsets(c.buff)[k]] != tag
    ensures r.Some? ==> exists k ::
              && 0 <= k < c.nentries && r.value == Offsets(c.buff)[k] && c.buff[r.value] == tag
              && forall j :: 0 <= j < k ==> c.buff[Offsets(c.buff)[j]] != tag
  {
    ValidIsMarked(c);
    ghost var k;
    r, k := FindByTag(c.buff, tag, Offsets(c.buff), Walk(c.buff, FIRST_ENTRY).stop);
  }

  method FindByTag(buf: seq<Byte>, tag: Byte, ghost offs: seq<nat>, ghost stop: nat)
    returns (r: Option<nat>, ghost k: nat)
    requires Marked(buf, offs, stop)
    ensures k <= |offs| && forall j :: 0 <= j < k ==> buf[offs[j]] != tag
    ensures if k < |offs| then r == Some(offs[k]) && buf[offs[k]] == tag else r == None
  {
    var pos: nat := FIRST_ENTRY;
    k := 0;
    EntriesAreNotEnd(buf, offs, stop);
    while buf[pos] != END_TAG
      invariant k <= |offs| && pos == PosAt(offs, stop, k) < |buf|
      invariant forall j :: 0 <= j < k ==> buf[offs[j]] != tag
      decreases |buf| - pos
    {
      assert Link(buf, offs, stop, k);
      if buf[pos] == tag {
        return Some(pos), k;
      }
      pos, k := Next(buf, pos), k + 1;
    }
    return None, k;
  }

  // ---------------------------------------------------------------------
  // Device nodes
  // ---------------------------------------------------------------------

  /** A node under the driver's major number, and the entry it was made for. */
  datatype Node = Node(minor: nat, entry: nat)

  /** Entry `k` is the device entry if it is the first, and else is none. */
  predicate InPlace(buf: seq<Byte>, offs: seq<nat>, k: nat)
    requires InBuffer(buf, offs) && k < |offs|
  {
    buf[offs[k]] == DEVICE_TAG <==> k == 0
  }

  /** One device entry, and before every DMA entry. */
  predicate DeviceFirst(buf: seq<Byte>, offs: seq<nat>)
    requires InBuffer(buf, offs)
  {
    forall k :: 0 <= k < |offs| ==> InPlace(buf, offs, k)
  }

  /** The first entry from `k` on that is out of place, or the end. */
  function FirstMisplaced(buf: seq<Byte>, offs: seq<nat>, k: nat): (r: nat)
    requires InBuffer(buf, offs) && k <= |offs|
    ensures k <= r <= |offs| && (r < |offs| ==> !InPlace(buf, offs, r))
    ensures forall i :: k <= i < r ==> InPlace(buf, offs, i)
    decreases |offs| - k
  {
    if k < |offs| && InPlace(buf, offs, k) then FirstMisplaced(buf, offs, k + 1) else k
  }

  lemma MisplacedAt(buf: seq<Byte>, offs: seq<nat>, r: nat)
    requires InBuffer(buf, offs) && r <= |offs| && (r < |offs| ==> !InPlace(buf, offs, r))
    requires forall i :: 0 <= i < r ==> InPlace(buf, offs, i)
    ensures FirstMisplaced(buf, offs, 0) == r && (DeviceFirst(buf, offs) <==> r == |offs|)
  {
  }

  /** The first minors of a board, one per entry in `offs` from the front. */
  predicate NumberedInOrder(nodes: seq<Node>, minor: nat, offs: seq<nat>) {
    |nodes| <= |offs| && forall k :: 0 <= k < |nodes| ==> nodes[k] == Node(minor + k, offs[k])
  }

  /** `create_device_nodes`; `cdevRc` is the kernel's answer to `cdev_add`. */
  method CreateDeviceNodes(c: PromContext, minor: nat, cdevRc: int) returns (rc: int, nodes: seq<Node>)
    requires Valid(c) && cdevRc <= 0
    ensures rc == 0 <==> cdevRc == 0 && c.nentriesWithMinor > 0 && DeviceFirst(c.buff, MinorOffsets(c.buff))
    ensures NumberedInOrder(nodes, minor, MinorOffsets(c.buff))
    ensures |nodes| == if cdevRc == 0 then FirstMisplaced(c.buff, MinorOffsets(c.buff), 0) else 0
    ensures rc == 0 ==> |nodes| == c.nentriesWithMinor
  {
    ValidIsMarked(c);
    if c.nentriesWithMinor == 0 {
      return -EINVAL, [];
    }
    if cdevRc < 0 {
      return cdevRc, [];
    }
    rc, nodes := CreateNodes(c.buff, minor, Offsets(c.buff), Walk(c.buff, FIRST_ENTRY).stop);
  }

  method CreateNodes(buf: seq<Byte>, minor: nat, ghost offs: seq<nat>, ghost stop: nat)
    returns (rc: int, nodes: seq<Node>)
    requires Marked(buf, offs, stop)
    requires InBuffer(buf, Select(buf, offs, NeedsMinor))
    ensures rc == 0 <==> DeviceFirst(buf, Select(buf, offs, NeedsMinor))
    ensures NumberedInOrder(nodes, minor, Select(buf, offs, NeedsMinor))
    ensures |nodes| == FirstMisplaced(buf, Select(buf, offs, NeedsMinor), 0)
    ensures rc == 0 ==> |nodes| == |Select(buf, offs, NeedsMinor)|
  {
    nodes := [];
    var pos: nat, haveDevice := FIRST_ENTRY, false;
    ghost var passed := 0;
    ghost var minors := Select(buf, offs, NeedsMinor);
    EntriesAreNotEnd(buf, offs, stop);
    while buf[pos] != END_TAG
      invariant passed <= |offs| && pos == PosAt(offs, stop, passed) < |buf|
      invariant |nodes| == MinorsAmong(buf, offs, passed)
      invariant NumberedInOrder(nodes, minor, minors)
      invariant forall k :: 0 <= k < |nodes| ==> InPlace(buf, minors, k)
      invariant haveDevice <==> nodes != []
      decreases |buf| - pos
    {
      assert Link(buf, offs, stop, passed);
      StepMinor(buf, offs, passed);
      assert NeedsMinor(buf[pos]) ==> minors[|nodes|] == pos;
      if buf[pos] == DEVICE_TAG {
        if haveDevice {
          MisplacedAt(buf, minors, |nodes|);
          return -EINVAL, nodes;
        }
        haveDevice := true;
        nodes := nodes + [Node(minor + |nodes|, pos)];
      } else if IsDmaTag(buf[pos]) {
        if !haveDevice {
          MisplacedAt(buf, minors, |nodes|);
          return -EINVAL, nodes;
        }
        nodes := nodes + [Node(minor + |nodes|, pos)];
      }
      pos, passed := Next(buf, pos), passed + 1;
    }
    assert offs[..passed] == offs;
    MisplacedAt(buf, minors, |nodes|);
    return 0, nodes;
  }
}
