/**
 Board numbers and device nodes: probing takes the lowest free board number and
 makes nodes in that board's block of minors, removal destroys the nodes and
 gives the number back.
 */
module Boards {
  import opened Wrappers
  import opened Errno
  import opened Bits
  import opened PromFormat
  import opened PromLoader
  import opened PromIndex

  const MAX_BOARDS := 4
  const MAX_MINORS_PER_BOARD := 16

  /** A PCI device, as the kernel names it. */
  type Pdev = nat

  /** struct amc_pci, from the start of its probe to the end of its removal. */
  datatype Board =
    | Probing(board: nat)
    | Bound(board: nat, prom: PromContext)
    | Removing(board: nat)

  function FirstMinor(board: nat): nat {
    board * MAX_MINORS_PER_BOARD
  }

  /** The `n` minors from `lo` on. */
  function Range(lo: nat, n: nat): (r: set<nat>)
    ensures forall m: nat :: m in r <==> lo <= m < lo + n
  {
    if n == 0 then {} else Range(lo, n - 1) + {lo + n - 1}
  }

  /** The minors set aside for a board. */
  function Block(board: nat): set<nat> {
    Range(FirstMinor(board), MAX_MINORS_PER_BOARD)
  }

  /** The nodes that belong to a board. */
  function NodesOf(b: Board): set<nat> {
    if b.Bound? then Range(FirstMinor(b.board), b.prom.nentriesWithMinor) else {}
  }

  // ---------------------------------------------------------------------
  // Invariant, on values
  // ---------------------------------------------------------------------

  predicate Sound(b: Board) {
    b.board < MAX_BOARDS && (b.Bound? ==> Valid(b.prom) && b.prom.nentries <= MAX_MINORS_PER_BOARD)
  }

  /** Boards have different numbers, and the mask holds exactly their numbers. */
  ghost predicate Numbered(mask: set<nat>, devices: map<Pdev, Board>) {
    && (forall p :: p in devices ==> Sound(devices[p]) && devices[p].board in mask)
    && (forall p, q :: p in devices && q in devices && devices[p].board == devices[q].board ==> p == q)
    && (forall n :: n in mask ==> exists p :: p in devices && devices[p].board == n)
  }

  /** Every bound board has its nodes, and any other node was left by a failed probe. */
  ghost predicate NodesOk(devices: map<Pdev, Board>, nodes: set<nat>, leaked: set<nat>) {
    && (forall p :: p in devices ==> NodesOf(devices[p]) <= nodes)
    && (forall m :: m in nodes ==> m in leaked || exists p :: p in devices && m in NodesOf(devices[p]))
  }

  lemma BlocksAreDisjoint(a: nat, b: nat)
    requires a != b
    ensures Block(a) !! Block(b)
  {
  }

  lemma {:induction false} SelectIsShorter(buf: seq<Byte>, offs: seq<nat>, p: Byte -> bool)
    requires InBuffer(buf, offs)
    ensures |Select(buf, offs, p)| <= |offs|
  {
    if offs != [] {
      SelectIsShorter(buf, offs[..|offs| - 1], p);
    }
  }

  /** What removal destroys covers the board's nodes and stays in its block. */
  lemma DestroyCovers(b: Board)
    requires Sound(b) && b.Bound?
    ensures NodesOf(b) <= Range(FirstMinor(b.board), b.prom.nentries) <= Block(b.board)
  {
    ValidIsMarked(b.prom);
    SelectIsShorter(b.prom.buff, Offsets(b.prom.buff), NeedsMinor);
  }

  lemma NodesInBlock(b: Board)
    requires Sound(b)
    ensures NodesOf(b) <= Block(b.board)
  {
    if b.Bound? {
      DestroyCovers(b);
    }
  }

  /** Live boards never share a minor. */
  lemma NodesAreDisjoint(mask: set<nat>, devices: map<Pdev, Board>, p: Pdev, q: Pdev)
    requires Numbered(mask, devices) && p in devices && q in devices && p != q
    ensures Block(devices[p].board) !! Block(devices[q].board)
    ensures NodesOf(devices[p]) !! NodesOf(devices[q])
  {
    BlocksAreDisjoint(devices[p].board, devices[q].board);
    NodesInBlock(devices[p]);
    NodesInBlock(devices[q]);
  }

  /** A board changes stage and keeps its number. */
  lemma Restage(mask: set<nat>, devices: map<Pdev, Board>, p: Pdev, b: Board)
    requires Numbered(mask, devices) && p in devices && Sound(b) && b.board == devices[p].board
    ensures Numbered(mask, devices[p := b])
  {
    var after := devices[p := b];
    forall n | n in mask
      ensures exists q :: q in after && after[q].board == n
    {
      var q :| q in devices && devices[q].board == n;
      assert q in after && after[q].board == n;
    }
  }

  lemma TakeNumber(mask: set<nat>, devices: map<Pdev, Board>, p: Pdev, n: nat)
    requires Numbered(mask, devices) && p !in devices && n !in mask && n < MAX_BOARDS
    ensures Numbered(mask + {n}, devices[p := Probing(n)])
  {
    var after := devices[p := Probing(n)];
    assert p in after && after[p].board == n;
    forall k | k in mask
      ensures exists q :: q in after && after[q].board == k
    {
      var q :| q in devices && devices[q].board == k;
      assert q in after && after[q].board == k;
    }
  }

  lemma GiveNumber(mask: set<nat>, devices: map<Pdev, Board>, p: Pdev)
    requires Numbered(mask, devices) && p in devices
    ensures Numbered(mask - {devices[p].board}, devices - {p})
  {
    var after := devices - {p};
    forall k | k in mask - {devices[p].board}
      ensures exists q :: q in after && after[q].board == k
    {
      var q :| q in devices && devices[q].board == k;
      assert q in after && after[q].board == k;
    }
  }

  /** A board that owns no nodes comes, goes or changes stage. */
  lemma NoNodesMove(devices: map<Pdev, Board>, after: map<Pdev, Board>, p: Pdev, nodes: set<nat>, leaked: set<nat>)
    requires NodesOk(devices, nodes, leaked)
    requires p in devices ==> NodesOf(devices[p]) == {}
    requires p in after ==> NodesOf(after[p]) == {}
    requires after - {p} == devices - {p}
    ensures NodesOk(after, nodes, leaked)
  {
    forall q
      ensures q != p ==> (q in after <==> q in devices) && (q in after ==> after[q] == devices[q])
    {
      if q != p {
        assert q in after <==> q in after - {p};
        assert q in devices <==> q in devices - {p};
        assert q in after ==> (after - {p})[q] == after[q];
        assert q in devices ==> (devices - {p})[q] == devices[q];
      }
    }
    forall m | m in nodes && m !in leaked
      ensures exists q :: q in after && m in NodesOf(after[q])
    {
      var q :| q in devices && m in NodesOf(devices[q]);
      assert q in after && m in NodesOf(after[q]);
    }
  }

  /** Adding nodes, all of them a bound board's own. */
  lemma NodesMade(devices: map<Pdev, Board>, p: Pdev, b: Board, nodes: set<nat>, leaked: set<nat>)
    requires NodesOk(devices, nodes, leaked) && p in devices && NodesOf(devices[p]) == {}
    ensures NodesOk(devices[p := b], nodes + NodesOf(b), leaked)
  {
    var after := devices[p := b];
    forall m | m in nodes + NodesOf(b) && m !in leaked
      ensures exists q :: q in after && m in NodesOf(after[q])
    {
      if m in NodesOf(b) {
        assert p in after && m in NodesOf(after[p]);
      } else {
        var q :| q in devices && m in NodesOf(devices[q]);
        assert q in after && m in NodesOf(after[q]);
      }
    }
  }

  lemma NodesDestroyed(mask: set<nat>, devices: map<Pdev, Board>, p: Pdev, nodes: set<nat>, leaked: set<nat>, gone: set<nat>)
    requires Numbered(mask, devices) && NodesOk(devices, nodes, leaked) && p in devices && devices[p].Bound?
    requires gone == Range(FirstMinor(devices[p].board), devices[p].prom.nentries)
    ensures NodesOk(devices[p := Removing(devices[p].board)], nodes - gone, leaked - gone)
    ensures NodesOf(devices[p]) <= gone <= Block(devices[p].board)
  {
    var after := devices[p := Removing(devices[p].board)];
    DestroyCovers(devices[p]);
    forall q | q in after
      ensures NodesOf(after[q]) <= nodes - gone
    {
      if q != p {
        NodesAreDisjoint(mask, devices, p, q);
        NodesInBlock(devices[q]);
      }
    }
    forall m | m in nodes - gone && m !in leaked - gone
      ensures exists q :: q in after && m in NodesOf(after[q])
    {
      var q :| q in devices && m in NodesOf(devices[q]);
      assert q in after && m in NodesOf(after[q]);
    }
  }

  lemma NodesLeaked(devices: map<Pdev, Board>, nodes: set<nat>, leaked: set<nat>, more: set<nat>)
    requires NodesOk(devices, nodes, leaked)
    ensures NodesOk(devices, nodes + more, leaked + more)
  {
    forall m | m in nodes + more && m !in leaked + more
      ensures exists q :: q in devices && m in NodesOf(devices[q])
    {
      var q :| q in devices && m in NodesOf(devices[q]);
      assert q in devices && m in NodesOf(devices[q]);
    }
  }

  lemma GoneFrame(nodes: set<nat>, gone: set<nat>, mine: set<nat>, block: set<nat>)
    requires mine <= gone <= block
    ensures mine !! (nodes - gone) && forall m :: m !in block ==> (m in nodes - gone <==> m in nodes)
  {
  }

  /** What removing the nodes of a board does, on values. */
  lemma RemovalFacts(mask: set<nat>, devices: map<Pdev, Board>, p: Pdev, b: Board, nodes: set<nat>, leaked: set<nat>, gone: set<nat>)
    requires Numbered(mask, devices) && NodesOk(devices, nodes, leaked) && p in devices && b == devices[p] && b.Bound?
    requires gone == Range(FirstMinor(b.board), b.prom.nentries)
    ensures Numbered(mask, devices[p := Removing(b.board)])
    ensures NodesOk(devices[p := Removing(b.board)], nodes - gone, leaked - gone)
    ensures NodesOf(b) !! (nodes - gone)
    ensures forall m :: m !in Block(b.board) ==> (m in nodes - gone <==> m in nodes)
  {
    NodesDestroyed(mask, devices, p, nodes, leaked, gone);
    Restage(mask, devices, p, Removing(b.board));
    GoneFrame(nodes, gone, NodesOf(b), Block(b.board));
  }

  /** While no probe has failed half-way, the nodes are exactly those of the bound boards, each with one owner. */
  lemma NodesHaveOneOwner(mask: set<nat>, devices: map<Pdev, Board>, nodes: set<nat>)
    requires Numbered(mask, devices) && NodesOk(devices, nodes, {})
    ensures forall m :: m in nodes <==> exists p :: p in devices && m in NodesOf(devices[p])
    ensures forall m, p, q :: p in devices && q in devices && m in NodesOf(devices[p]) && m in NodesOf(devices[q]) ==> p == q
  {
    forall m, p, q | p in devices && q in devices && m in NodesOf(devices[p]) && m in NodesOf(devices[q])
      ensures p == q
    {
      if p != q {
        NodesAreDisjoint(mask, devices, p, q);
      }
    }
  }

  // ---------------------------------------------------------------------
  // The driver
  // ---------------------------------------------------------------------

  /** The kernel's answers during a probe. */
  datatype Kernel = Kernel(enableRc: int, barRc: int, prom: Option<PromContext>, dmaRc: int, irqRc: int, cdevRc: int, sysfsRc: int)

  /** `initialise_board`: the first failure, if any. */
  function InitialiseRc(k: Kernel): int {
    if k.barRc < 0 then k.barRc
    else if k.prom.None? then -EIO
    else if k.prom.value.nentries > MAX_MINORS_PER_BOARD then -E2BIG
    else if k.prom.value.dmaNentries > 0 && k.dmaRc < 0 then k.dmaRc
    else if k.irqRc < 0 then k.irqRc
    else 0
  }

  /** What the board needs to come up: its register bar, a PROM that fits the minors, DMA if the PROM has regions, an interrupt. */
  predicate ComesUp(k: Kernel) {
    && k.enableRc == 0 && k.barRc == 0 && k.prom.Some? && k.prom.value.nentries <= 16
    && (k.prom.value.dmaNentries == 0 || k.dmaRc == 0) && k.irqRc == 0
  }

  /** No answer of the kernel is positive, and a PROM is one that was loaded. */
  predicate Answers(k: Kernel) {
    && k.enableRc <= 0 && k.barRc <= 0 && k.dmaRc <= 0 && k.irqRc <= 0 && k.cdevRc <= 0 && k.sysfsRc <= 0
    && (k.prom.Some? ==> Valid(k.prom.value))
  }

  /** How many nodes a probe makes, if it then fails or not. */
  function NodesMadeBy(k: Kernel): nat
    requires Answers(k)
  {
    if !ComesUp(k) || k.cdevRc < 0 then 0
    else FirstMisplaced(k.prom.value.buff, MinorOffsets(k.prom.value.buff), 0)
  }

  /**
   A probe makes no node if and only if it fails before creation, or the first
   entry that needs a minor is not the device entry; it makes all of them if
   and only if the device entry is the only one of its kind and comes first.
   */
  lemma NodesMadeExactly(k: Kernel)
    requires Answers(k)
    ensures NodesMadeBy(k) == 0 <==>
              || !ComesUp(k) || k.cdevRc < 0
              || var minors := MinorOffsets(k.prom.value.buff); minors == [] || k.prom.value.buff[minors[0]] != DEVICE_TAG
    ensures ComesUp(k) && k.cdevRc == 0 ==>
              (NodesMadeBy(k) == k.prom.value.nentriesWithMinor <==> DeviceFirst(k.prom.value.buff, MinorOffsets(k.prom.value.buff)))
  {
    if ComesUp(k) && k.cdevRc == 0 {
      var buf, minors := k.prom.value.buff, MinorOffsets(k.prom.value.buff);
      ValidIsMarked(k.prom.value);
      MisplacedAt(buf, minors, FirstMisplaced(buf, minors, 0));
      if minors != [] {
        assert InPlace(buf, minors, 0) <==> buf[minors[0]] == DEVICE_TAG;
      }
    }
  }

  class Driver {
    var deviceBoards: set<nat>
    var devices: map<Pdev, Board>
    var nodes: set<nat>             // minors with a node
    ghost var leaked: set<nat>      // minors that failed probes left a node on

    ghost predicate Ok()
      reads this
    {
      Numbered(deviceBoards, devices) && NodesOk(devices, nodes, leaked)
    }

    constructor ()
      ensures Ok() && devices == map[] && nodes == {} && leaked == {}
    {
      deviceBoards, devices, nodes, leaked := {}, map[], {}, {};
    }

    /** `get_free_board`: the lowest free number. */
    method GetFreeBoard() returns (rc: int, board: nat)
      modifies this`deviceBoards
      ensures rc == 0 <==> exists n: nat :: n < MAX_BOARDS && n !in old(deviceBoards)
      ensures rc == 0 ==> board < MAX_BOARDS && board !in old(deviceBoards) && (forall n: nat :: n < board ==> n in old(deviceBoards))
      ensures deviceBoards == if rc == 0 then old(deviceBoards) + {board} else old(deviceBoards)
      ensures rc == 0 || rc == -EIO
    {
      var bit: nat := 0;
      while bit < MAX_BOARDS
        invariant bit <= MAX_BOARDS
        invariant forall n: nat :: n < bit ==> n in deviceBoards
        invariant deviceBoards == old(deviceBoards)
      {
        if bit !in deviceBoards {
          deviceBoards := deviceBoards + {bit};
          return 0, bit;
        }
        bit := bit + 1;
      }
      return -EIO, 0;
    }

    /** The start of a probe: a number and, memory allowing, a structure. */
    method BeginProbe(p: Pdev, memory: bool) returns (rc: int)
      requires Ok() && p !in devices
      modifies this`deviceBoards, this`devices
      ensures Ok()
      ensures rc == 0 <==> memory && exists n: nat :: n < MAX_BOARDS && n !in old(deviceBoards)
      ensures rc == 0 ==> p in devices && devices == old(devices)[p := Probing(devices[p].board)]
      ensures rc != 0 ==> devices == old(devices) && deviceBoards == old(deviceBoards)
    {
      var board;
      rc, board := GetFreeBoard();
      if rc < 0 {
        return;
      }
      if !memory {
        deviceBoards := deviceBoards - {board};
        assert deviceBoards == old(deviceBoards);
        return -ENOMEM;
      }
      TakeNumber(old(deviceBoards), devices, p, board);
      NoNodesMove(devices, devices[p := Probing(board)], p, nodes, leaked);
      devices := devices[p := Probing(board)];
    }

    /** The structure and the number of a board without nodes go. */
    method Forget(p: Pdev)
      requires Ok() && p in devices && !devices[p].Bound?
      modifies this`deviceBoards, this`devices
      ensures Ok() && devices == old(devices) - {p} && deviceBoards == old(deviceBoards) - {old(devices[p].board)}
    {
      GiveNumber(deviceBoards, devices, p);
      NoNodesMove(devices, devices - {p}, p, nodes, leaked);
      deviceBoards := deviceBoards - {devices[p].board};
      devices := devices - {p};
    }

    /** The rest of a probe. A failing one gives its number back and leaves behind the nodes it has made. */
    method FinishProbe(p: Pdev, k: Kernel) returns (rc: int)
      requires Ok() && p in devices && devices[p].Probing?
      requires Answers(k)
      modifies this
      ensures Ok()
      ensures rc == 0 <==> && ComesUp(k) && k.cdevRc == 0 && k.sysfsRc == 0
                           && k.prom.value.nentriesWithMinor > 0 && DeviceFirst(k.prom.value.buff, MinorOffsets(k.prom.value.buff))
      ensures k.enableRc < 0 ==> rc == k.enableRc
      ensures k.enableRc == 0 && k.barRc < 0 ==> rc == k.barRc
      ensures k.enableRc == 0 && k.barRc == 0 && k.prom.None? ==> rc == -EIO
      ensures k.enableRc == 0 && k.barRc == 0 && k.prom.Some? && k.prom.value.nentries > 16 ==> rc == -E2BIG
      ensures rc == 0 ==> && devices == old(devices)[p := Bound(old(devices[p].board), k.prom.value)]
                          && nodes == old(nodes) + NodesOf(devices[p]) && leaked == old(leaked)
      ensures rc != 0 ==> && devices == old(devices) - {p}
                          && nodes == old(nodes) + Range(FirstMinor(old(devices[p].board)), NodesMadeBy(k))
                          && leaked == old(leaked) + Range(FirstMinor(old(devices[p].board)), NodesMadeBy(k))
      ensures forall m :: m !in Block(old(devices[p].board)) ==> (m in nodes <==> m in old(nodes))
    {
      if k.enableRc < 0 {
        Forget(p);
        return k.enableRc;
      }
      rc := InitialiseRc(k);
      if rc < 0 {
        Forget(p);
        return;
      }
      rc := CreateAndBind(p, k);
    }

    /** The part of a probe that makes nodes. */
    method CreateAndBind(p: Pdev, k: Kernel) returns (rc: int)
      requires Ok() && p in devices && devices[p].Probing?
      requires Answers(k) && ComesUp(k)
      modifies this
      ensures Ok()
      ensures rc == 0 <==> && k.cdevRc == 0 && k.sysfsRc == 0
                           && k.prom.value.nentriesWithMinor > 0 && DeviceFirst(k.prom.value.buff, MinorOffsets(k.prom.value.buff))
      ensures rc == 0 ==> && devices == old(devices)[p := Bound(old(devices[p].board), k.prom.value)]
                          && nodes == old(nodes) + NodesOf(devices[p]) && leaked == old(leaked)
      ensures rc != 0 ==> && devices == old(devices) - {p}
                          && nodes == old(nodes) + Range(FirstMinor(old(devices[p].board)), NodesMadeBy(k))
                          && leaked == old(leaked) + Range(FirstMinor(old(devices[p].board)), NodesMadeBy(k))
      ensures forall m :: m !in Block(old(devices[p].board)) ==> (m in nodes <==> m in old(nodes))
    {
      var b := Bound(devices[p].board, k.prom.value);
      NodesInBlock(b);
      var made;
      rc, made := CreateDeviceNodes(k.prom.value, FirstMinor(b.board), k.cdevRc);
      ValidIsMarked(k.prom.value);
      var minors := Range(FirstMinor(b.board), |made|);
      assert minors <= NodesOf(b);
      if rc != 0 || k.sysfsRc < 0 {
        LeakAndForget(p, minors);
        return if rc != 0 then rc else k.sysfsRc;
      }
      Bind(p, b, minors);
    }

    method LeakAndForget(p: Pdev, minors: set<nat>)
      requires Ok() && p in devices && devices[p].Probing?
      modifies this
      ensures Ok() && devices == old(devices) - {p} && nodes == old(nodes) + minors && leaked == old(leaked) + minors
    {
      NodesLeaked(devices, nodes, leaked, minors);
      nodes, leaked := nodes + minors, leaked + minors;
      Forget(p);
    }

    method Bind(p: Pdev, b: Board, minors: set<nat>)
      requires Ok() && p in devices && devices[p].Probing? && b.board == devices[p].board
      requires Sound(b) && minors == NodesOf(b)
      modifies this
      ensures Ok() && devices == old(devices)[p := b] && nodes == old(nodes) + minors && leaked == old(leaked)
    {
      assert Numbered(deviceBoards, devices[p := b]) by {
        Restage(deviceBoards, devices, p, b);
      }
      assert NodesOk(devices[p := b], nodes + minors, leaked) by {
        NodesMade(devices, p, b, nodes, leaked);
      }
      nodes := nodes + minors;
      devices := devices[p := b];
    }

    /** `destroy_device_nodes`: one minor per PROM entry, needed or not. */
    method DestroyDeviceNodes(minor: nat, nentries: nat)
      modifies this`nodes
      ensures nodes == old(nodes) - Range(minor, nentries)
    {
      for i := 0 to nentries
        invariant nodes == old(nodes) - Range(minor, i)
      {
        nodes := nodes - {minor + i};
      }
    }

    /** The start of a removal. All the board's nodes go, and no other board's. */
    method BeginRemove(p: Pdev)
      requires Ok() && p in devices && devices[p].Bound?
      modifies this
      ensures Ok() && devices == old(devices)[p := Removing(old(devices[p].board))] && deviceBoards == old(deviceBoards)
      ensures NodesOf(old(devices[p])) !! nodes
      ensures forall m :: m !in Block(old(devices[p].board)) ==> (m in nodes <==> m in old(nodes))
      ensures leaked <= old(leaked)
    {
      var b := devices[p];
      ghost var gone := Range(FirstMinor(b.board), b.prom.nentries);
      RemovalFacts(deviceBoards, devices, p, b, nodes, leaked, gone);
      DestroyDeviceNodes(FirstMinor(b.board), b.prom.nentries);
      leaked := leaked - gone;
      devices := devices[p := Removing(b.board)];
    }

    /** The end of a removal, after the clients have gone. */
    method FinishRemove(p: Pdev)
      requires Ok() && p in devices && devices[p].Removing?
      modifies this`deviceBoards, this`devices
      ensures Ok() && devices == old(devices) - {p} && deviceBoards == old(deviceBoards) - {old(devices[p].board)}
    {
      Forget(p);
    }

    /** `amc_pci_open`: which entry a node leads to. */
    method EntryOf(p: Pdev, minor: nat) returns (r: Option<nat>)
      requires Ok() && p in devices && devices[p].Bound?
      ensures r.Some? <==> minor in NodesOf(devices[p])
      ensures r.Some? ==> r.value == MinorOffsets(devices[p].prom.buff)[minor - FirstMinor(devices[p].board)]
    {
      ValidIsMarked(devices[p].prom);
      r := FindEntryWithMinor(devices[p].prom, minor - FirstMinor(devices[p].board));
    }
  }
}
