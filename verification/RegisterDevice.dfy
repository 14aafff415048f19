/**
 The register device: reader slots claimed bit by bit, events or-ed into every
 slot and taken by exchange, and the exclusive lock. A step is one atomic
 operation, or one critical section of the locking mutex.
 */
module RegisterDevice {
  import opened Wrappers

  const N_READERS := 8

  type Cid = nat

  /** A word of event bits, as the set of the bits that are set. */
  type Mask = set<nat>

  // ---------------------------------------------------------------------
  // State and steps
  // ---------------------------------------------------------------------

  /** A register context from the start of its open to the end of its release. */
  datatype Stage =
    | Searching(bit: nat)       // looking for a free slot
    | Claimed(slot: nat)        // slot bit set, events not yet reset
    | Assigned(slot: nat)       // slot ready
    | Allocated(slot: nat)
    | Live(slot: nat)           // open, counted in
    | Giving(slot: nat)         // about to clear the slot bit

  /** The interrupt handler's loop over the readers. */
  datatype Post = NoPost | Posting(mask: Mask, reader: nat)

  /** A call of `read_interrupt_events`. */
  type Call = nat

  datatype ReadStage =
    | Trying                    // about to do the exchange
    | Asleep                    // the exchange took nothing
    | Returned(events: Mask)
    | Interrupted

  datatype Reading = Reading(c: Cid, noWait: bool, stage: ReadStage)

  datatype Device = Device(
    active: set<nat>,               // bits of active_readers
    events: seq<Mask>,
    post: Post,
    contexts: map<Cid, Stage>,
    count: int,                     // reference_count
    lockedBy: Option<Cid>,
    readers: map<Call, Reading>)

  datatype Step =
    | Open(c: Cid)
    | TestAndSet(c: Cid)
    | ClearEvents(c: Cid)
    | Allocate(c: Cid, ok: bool)
    | CountIn(c: Cid)               // the critical section of open
    | GiveSlot(c: Cid)
    | Release(c: Cid)               // the critical section of release
    | Lock(c: Cid)
    | Unlock(c: Cid)
    | BeginPost(mask: Mask)
    | PostOne
    | BeginRead(call: Call, c: Cid, noWait: bool)
    | Try(call: Call)               // the exchange
    | WakeUp(call: Call)
    | Interrupt(call: Call)

  predicate HasSlot(st: Stage) {
    !st.Searching?
  }

  /** A slot whose events belong to its context. */
  predicate Ready(st: Stage) {
    HasSlot(st) && !st.Claimed?
  }

  predicate At(d: Device, c: Cid) {
    c in d.contexts
  }

  predicate InStage(d: Device, c: Cid) {
    At(d, c) && (HasSlot(d.contexts[c]) ==> d.contexts[c].slot < |d.events|)
  }

  predicate IsLive(d: Device, c: Cid) {
    InStage(d, c) && d.contexts[c].Live?
  }

  predicate AtRead(d: Device, call: Call, stage: ReadStage) {
    call in d.readers && d.readers[call].stage == stage
  }

  /** No call is reading from the context. */
  predicate NoReader(d: Device, c: Cid) {
    forall k :: k in d.readers && d.readers[k].c == c ==> d.readers[k].stage.Returned? || d.readers[k].stage.Interrupted?
  }

  predicate Enabled(d: Device, step: Step) {
    match step
    case Open(c) => !At(d, c)
    case TestAndSet(c) => InStage(d, c) && d.contexts[c].Searching?
    case ClearEvents(c) => InStage(d, c) && d.contexts[c].Claimed?
    case Allocate(c, _) => InStage(d, c) && d.contexts[c].Assigned?
    case CountIn(c) => InStage(d, c) && d.contexts[c].Allocated?
    case GiveSlot(c) => InStage(d, c) && d.contexts[c].Giving?
    case Release(c) => IsLive(d, c) && NoReader(d, c)
    case Lock(c) => IsLive(d, c)
    case Unlock(c) => IsLive(d, c)
    case BeginPost(_) => d.post.NoPost?
    case PostOne => d.post.Posting? && d.post.reader < |d.events|
    case BeginRead(call, c, _) => call !in d.readers && IsLive(d, c)
    case Try(call) => AtRead(d, call, Trying) && IsLive(d, d.readers[call].c)
    case WakeUp(call) => AtRead(d, call, Asleep)
    case Interrupt(call) => AtRead(d, call, Asleep)
  }

  function Goto(d: Device, c: Cid, st: Stage): Device {
    d.(contexts := d.contexts[c := st])
  }

  function Pend(d: Device, slot: nat, pending: Mask): Device
    requires slot < |d.events|
  {
    d.(events := d.events[slot := pending])
  }

  function SetRead(d: Device, call: Call, stage: ReadStage): Device
    requires call in d.readers
  {
    d.(readers := d.readers[call := d.readers[call].(stage := stage)])
  }

  /** What the exchange of a reading call takes. */
  function Taken(d: Device, call: Call): Mask
    requires Enabled(d, Try(call))
  {
    d.events[d.contexts[d.readers[call].c].slot]
  }

  function NextPost(mask: Mask, reader: nat): Post {
    if reader + 1 < N_READERS then Posting(mask, reader + 1) else NoPost
  }

  function Apply(d: Device, step: Step): Device
    requires Enabled(d, step)
  {
    match step
    case Open(c) => Goto(d, c, Searching(0))
    case TestAndSet(c) =>
      var bit := d.contexts[c].bit;
      if bit >= N_READERS then d.(contexts := d.contexts - {c})
      else if bit in d.active then Goto(d, c, Searching(bit + 1))
      else Goto(d, c, Claimed(bit)).(active := d.active + {bit})
    case ClearEvents(c) =>
      var slot := d.contexts[c].slot;
      Goto(Pend(d, slot, {}), c, Assigned(slot))
    case Allocate(c, ok) =>
      var slot := d.contexts[c].slot;
      Goto(d, c, if ok then Allocated(slot) else Giving(slot))
    case CountIn(c) =>
      var slot := d.contexts[c].slot;
      if d.lockedBy.Some? then Goto(d, c, Giving(slot))
      else Goto(d, c, Live(slot)).(count := d.count + 1)
    case GiveSlot(c) =>
      d.(contexts := d.contexts - {c}, active := d.active - {d.contexts[c].slot})
    case Release(c) =>
      Goto(d, c, Giving(d.contexts[c].slot)).(
        lockedBy := if d.lockedBy == Some(c) then None else d.lockedBy, count := d.count - 1)
    case Lock(c) =>
      if d.count > 1 || d.lockedBy.Some? then d else d.(lockedBy := Some(c))
    case Unlock(c) =>
      if d.lockedBy == Some(c) then d.(lockedBy := None) else d
    case BeginPost(mask) => d.(post := Posting(mask, 0))
    case PostOne =>
      var r, mask := d.post.reader, d.post.mask;
      Pend(d, r, d.events[r] + mask).(post := NextPost(mask, r))
    case BeginRead(call, c, noWait) => d.(readers := d.readers[call := Reading(c, noWait, Trying)])
    case Try(call) =>
      var taken := Taken(d, call);
      SetRead(Pend(d, d.contexts[d.readers[call].c].slot, {}), call,
              if taken != {} || d.readers[call].noWait then Returned(taken) else Asleep)
    case WakeUp(call) => SetRead(d, call, Trying)
    case Interrupt(call) => SetRead(d, call, Interrupted)
  }

  predicate Init(d: Device) {
    && d.active == {} && d.contexts == map[] && d.count == 0 && d.lockedBy.None? && d.post.NoPost?
    && |d.events| == N_READERS && d.readers == map[]
  }

  // ---------------------------------------------------------------------
  // Invariant
  // ---------------------------------------------------------------------

  function LiveSet(m: map<Cid, Stage>): set<Cid> {
    set c | c in m && m[c].Live?
  }

  predicate Holds(m: map<Cid, Stage>, c: Cid, slot: nat) {
    c in m && HasSlot(m[c]) && m[c].slot == slot
  }

  /** No slot has two holders. */
  ghost predicate Distinct(m: map<Cid, Stage>) {
    forall c, e, slot :: Holds(m, c, slot) && Holds(m, e, slot) ==> c == e
  }

  /** The slots in use are the slots held: none is shared out twice, none leaks. */
  ghost predicate SlotsHeld(m: map<Cid, Stage>, active: set<nat>) {
    && Distinct(m)
    && (forall c, slot :: Holds(m, c, slot) ==> slot in active)
    && (forall slot :: slot in active ==> slot < N_READERS && exists c :: Holds(m, c, slot))
  }

  predicate Counted(live: set<Cid>, count: int, lockedBy: Option<Cid>) {
    count == |live| && (lockedBy.Some? ==> live == {lockedBy.value})
  }

  ghost predicate Inv(d: Device) {
    && |d.events| == N_READERS
    && (d.post.Posting? ==> d.post.reader < N_READERS)
    && SlotsHeld(d.contexts, d.active)
    && Counted(LiveSet(d.contexts), d.count, d.lockedBy)
  }

  // --- how the parts of the invariant move --------------------------------

  lemma LiveChange(m: map<Cid, Stage>, c: Cid, st: Stage)
    ensures !st.Live? ==> LiveSet(m[c := st]) == LiveSet(m) - {c}
    ensures st.Live? ==> LiveSet(m[c := st]) == LiveSet(m) + {c}
  {
  }

  lemma LiveGone(m: map<Cid, Stage>, c: Cid)
    ensures LiveSet(m - {c}) == LiveSet(m) - {c}
  {
  }

  lemma Uncounted(live: set<Cid>, c: Cid, count: int, lockedBy: Option<Cid>)
    requires Counted(live, count, lockedBy) && c !in live
    ensures Counted(live - {c}, count, lockedBy)
  {
    assert live - {c} == live;
  }

  /** A context keeps its slot, or keeps having none. */
  lemma SlotKept(m: map<Cid, Stage>, active: set<nat>, c: Cid, st: Stage)
    requires SlotsHeld(m, active)
    requires forall slot :: Holds(m, c, slot) <==> HasSlot(st) && st.slot == slot
    ensures SlotsHeld(m[c := st], active)
  {
    var m' := m[c := st];
    forall e, slot
      ensures Holds(m', e, slot) <==> Holds(m, e, slot)
    {
    }
    forall slot | slot in active
      ensures exists e :: Holds(m', e, slot)
    {
      var e :| Holds(m, e, slot);
      assert Holds(m', e, slot);
    }
  }

  lemma SlotTaken(m: map<Cid, Stage>, active: set<nat>, c: Cid, st: Stage)
    requires SlotsHeld(m, active) && c in m && !HasSlot(m[c])
    requires HasSlot(st) && st.slot < N_READERS && st.slot !in active
    ensures SlotsHeld(m[c := st], active + {st.slot})
  {
    var m' := m[c := st];
    forall e, slot
      ensures Holds(m', e, slot) <==> Holds(m, e, slot) || (e == c && slot == st.slot)
    {
    }
    assert Holds(m', c, st.slot);
    forall slot | slot in active
      ensures exists e :: Holds(m', e, slot)
    {
      var e :| Holds(m, e, slot);
      assert Holds(m', e, slot);
    }
  }

  lemma SlotGiven(m: map<Cid, Stage>, active: set<nat>, c: Cid)
    requires SlotsHeld(m, active) && c in m
    ensures SlotsHeld(m - {c}, if HasSlot(m[c]) then active - {m[c].slot} else active)
  {
    var m' := m - {c};
    forall e, slot
      ensures Holds(m', e, slot) <==> Holds(m, e, slot) && e != c
    {
    }
    assert HasSlot(m[c]) ==> Holds(m, c, m[c].slot);
    forall slot | slot in active && !Holds(m, c, slot)
      ensures exists e :: Holds(m', e, slot)
    {
      var e :| Holds(m, e, slot);
      assert Holds(m', e, slot);
    }
  }

  // --- one lemma per kind of step -----------------------------------------

  lemma InitInv(d: Device)
    requires Init(d)
    ensures Inv(d)
  {
    assert LiveSet(d.contexts) == {};
  }

  /** A context that is not open moves on, or starts. */
  lemma MoveStep(d: Device, c: Cid, st: Stage)
    requires Inv(d) && !st.Live? && (c in d.contexts ==> !d.contexts[c].Live?)
    requires forall slot :: Holds(d.contexts, c, slot) <==> HasSlot(st) && st.slot == slot
    ensures Inv(Goto(d, c, st))
  {
    LiveChange(d.contexts, c, st);
    Uncounted(LiveSet(d.contexts), c, d.count, d.lockedBy);
    SlotKept(d.contexts, d.active, c, st);
  }

  lemma TestAndSetStep(d: Device, c: Cid)
    requires Inv(d) && Enabled(d, TestAndSet(c))
    ensures Inv(Apply(d, TestAndSet(c)))
  {
    var bit := d.contexts[c].bit;
    LiveGone(d.contexts, c);
    LiveChange(d.contexts, c, Claimed(bit));
    Uncounted(LiveSet(d.contexts), c, d.count, d.lockedBy);
    if bit >= N_READERS {
      SlotGiven(d.contexts, d.active, c);
    } else if bit in d.active {
      MoveStep(d, c, Searching(bit + 1));
    } else {
      SlotTaken(d.contexts, d.active, c, Claimed(bit));
    }
  }

  lemma CountInStep(d: Device, c: Cid)
    requires Inv(d) && Enabled(d, CountIn(c))
    ensures Inv(Apply(d, CountIn(c)))
  {
    var slot := d.contexts[c].slot;
    if d.lockedBy.Some? {
      MoveStep(d, c, Giving(slot));
    } else {
      LiveChange(d.contexts, c, Live(slot));
      assert c !in LiveSet(d.contexts);
      SlotKept(d.contexts, d.active, c, Live(slot));
    }
  }

  lemma GiveSlotStep(d: Device, c: Cid)
    requires Inv(d) && Enabled(d, GiveSlot(c))
    ensures Inv(Apply(d, GiveSlot(c)))
  {
    LiveGone(d.contexts, c);
    Uncounted(LiveSet(d.contexts), c, d.count, d.lockedBy);
    SlotGiven(d.contexts, d.active, c);
  }

  lemma ReleaseStep(d: Device, c: Cid)
    requires Inv(d) && Enabled(d, Release(c))
    ensures Inv(Apply(d, Release(c)))
  {
    var st := Giving(d.contexts[c].slot);
    LiveChange(d.contexts, c, st);
    assert c in LiveSet(d.contexts);
    SlotKept(d.contexts, d.active, c, st);
  }

  lemma LockStep(d: Device, c: Cid)
    requires Inv(d) && Enabled(d, Lock(c))
    ensures Inv(Apply(d, Lock(c)))
  {
    var live := LiveSet(d.contexts);
    assert c in live;
    if d.count <= 1 {
      assert |live - {c}| == 0;
      assert live == {c};
    }
  }

  lemma InvStep(d: Device, step: Step)
    requires Inv(d) && Enabled(d, step)
    ensures Inv(Apply(d, step))
  {
    match step {
      case Open(c) => MoveStep(d, c, Searching(0));
      case TestAndSet(c) => TestAndSetStep(d, c);
      case ClearEvents(c) => MoveStep(Pend(d, d.contexts[c].slot, {}), c, Assigned(d.contexts[c].slot));
      case Allocate(c, ok) => MoveStep(d, c, if ok then Allocated(d.contexts[c].slot) else Giving(d.contexts[c].slot));
      case CountIn(c) => CountInStep(d, c);
      case GiveSlot(c) => GiveSlotStep(d, c);
      case Release(c) => ReleaseStep(d, c);
      case Lock(c) => LockStep(d, c);
      case _ =>
    }
  }

  predicate Runs(d: Device, steps: seq<Step>)
    decreases steps
  {
    steps == [] || (Enabled(d, steps[0]) && Runs(Apply(d, steps[0]), steps[1..]))
  }

  function After(d: Device, steps: seq<Step>): Device
    requires Runs(d, steps)
    decreases steps
  {
    if steps == [] then d else After(Apply(d, steps[0]), steps[1..])
  }

  lemma {:induction false} InvRun(d: Device, steps: seq<Step>)
    requires Inv(d) && Runs(d, steps)
    ensures Inv(After(d, steps))
    decreases steps
  {
    if steps != [] {
      InvStep(d, steps[0]);
      InvRun(Apply(d, steps[0]), steps[1..]);
    }
  }

  lemma Reachable(d0: Device, steps: seq<Step>, d: Device)
    requires Init(d0) && Runs(d0, steps) && d == After(d0, steps)
    ensures Inv(d)
  {
    InitInv(d0);
    InvRun(d0, steps);
  }

  // ---------------------------------------------------------------------
  // Results
  // ---------------------------------------------------------------------

  /**
   In every reachable state the reference count is the number of live contexts
   and an owner of the lock is the only live context.
   */
  lemma LockIsExclusive(d0: Device, steps: seq<Step>, d: Device)
    requires Init(d0) && Runs(d0, steps) && d == After(d0, steps)
    ensures d.count == |LiveSet(d.contexts)|
    ensures d.lockedBy.Some? ==> LiveSet(d.contexts) == {d.lockedBy.value}
  {
    Reachable(d0, steps, d);
  }

  /** Asking for the lock gets it exactly when the asker is the only live context and nobody owns it. */
  lemma LockGranted(d0: Device, steps: seq<Step>, d: Device, c: Cid)
    requires Init(d0) && Runs(d0, steps) && d == After(d0, steps) && Enabled(d, Lock(c))
    ensures Apply(d, Lock(c)) == (if LiveSet(d.contexts) == {c} && d.lockedBy.None? then d.(lockedBy := Some(c)) else d)
  {
    Reachable(d0, steps, d);
    var live := LiveSet(d.contexts);
    assert c in live;
    if d.count <= 1 {
      assert |live - {c}| == 0;
      assert live == {c};
    }
  }

  /** The owner gives the lock up and all is as before; nobody else's unlocking does anything. */
  lemma UnlockUndoesLock(d0: Device, steps: seq<Step>, d: Device, c: Cid)
    requires Init(d0) && Runs(d0, steps) && d == After(d0, steps) && Enabled(d, Lock(c)) && Enabled(d, Unlock(c))
    ensures LiveSet(d.contexts) == {c} && d.lockedBy.None? ==> Apply(Apply(d, Lock(c)), Unlock(c)) == d
    ensures d.lockedBy.None? ==> Apply(d, Unlock(c)) == d
    ensures d.lockedBy.Some? ==> d.lockedBy == Some(c) && Apply(d, Unlock(c)).lockedBy.None?
  {
    Reachable(d0, steps, d);
    LockGranted(d0, steps, d, c);
    assert c in LiveSet(d.contexts);
  }

  // --- opening ---------------------------------------------------------------

  /** Steps of the open of `c`. */
  predicate Opening(steps: seq<Step>, c: Cid) {
    forall i :: 0 <= i < |steps| ==>
      steps[i] in {Open(c), TestAndSet(c), ClearEvents(c), Allocate(c, true), CountIn(c), GiveSlot(c)}
  }

  /** The lowest slot not in use. */
  predicate LowestFree(active: set<nat>, slot: nat) {
    slot < N_READERS && slot !in active && forall r: nat :: r < slot ==> r in active
  }

  lemma First(d: Device, step: Step, c: Cid, rest: seq<Step>)
    requires Enabled(d, step) && Opening([step], c) && Runs(Apply(d, step), rest) && Opening(rest, c)
    ensures Runs(d, [step] + rest) && Opening([step] + rest, c) && After(d, [step] + rest) == After(Apply(d, step), rest)
  {
    assert ([step] + rest)[1..] == rest;
    assert [step][0] == step;
  }

  /** From a free slot on, an open goes its way alone: in if nobody owns the lock, else out again. */
  lemma OpensWith(d: Device, c: Cid, slot: nat) returns (steps: seq<Step>)
    requires At(d, c) && d.contexts[c] == Searching(slot) && slot < N_READERS == |d.events| && slot !in d.active
    ensures Runs(d, steps) && Opening(steps, c) && |After(d, steps).events| == N_READERS
    ensures var z := After(d, steps);
            if d.lockedBy.None? then At(z, c) && z.contexts[c] == Live(slot) && z.count == d.count + 1 && z.events[slot] == {}
            else !At(z, c) && z.active == d.active && z.count == d.count
  {
    var d1 := Apply(d, TestAndSet(c));
    var d2 := Apply(d1, ClearEvents(c));
    var d3 := Apply(d2, Allocate(c, true));
    var d4 := Apply(d3, CountIn(c));
    steps := [];
    if d.lockedBy.Some? {
      First(d4, GiveSlot(c), c, []);
      steps := [GiveSlot(c)] + [];
      assert After(d4, steps) == Apply(d4, GiveSlot(c));
    }
    First(d3, CountIn(c), c, steps);
    First(d2, Allocate(c, true), c, [CountIn(c)] + steps);
    First(d1, ClearEvents(c), c, [Allocate(c, true)] + ([CountIn(c)] + steps));
    First(d, TestAndSet(c), c, [ClearEvents(c)] + ([Allocate(c, true)] + ([CountIn(c)] + steps)));
    steps := [TestAndSet(c)] + ([ClearEvents(c)] + ([Allocate(c, true)] + ([CountIn(c)] + steps)));
  }

  lemma {:induction false} Searches(d: Device, c: Cid, bit: nat, slot: nat) returns (steps: seq<Step>)
    requires At(d, c) && d.contexts[c] == Searching(bit) && bit <= slot && LowestFree(d.active, slot) && |d.events| == N_READERS
    ensures Runs(d, steps) && Opening(steps, c) && |After(d, steps).events| == N_READERS
    ensures var z := After(d, steps);
            if d.lockedBy.None? then At(z, c) && z.contexts[c] == Live(slot) && z.count == d.count + 1 && z.events[slot] == {}
            else !At(z, c) && z.active == d.active && z.count == d.count
    decreases slot - bit
  {
    if bit == slot {
      steps := OpensWith(d, c, slot);
    } else {
      var rest := Searches(Apply(d, TestAndSet(c)), c, bit + 1, slot);
      First(d, TestAndSet(c), c, rest);
      steps := [TestAndSet(c)] + rest;
    }
  }

  /**
   In every reachable state with a free slot an open left to itself succeeds if
   nobody owns the lock, and is then counted and holds the lowest free slot,
   emptied; if somebody does it fails and gives its slot back.
   */
  lemma OpenIsServed(d0: Device, before: seq<Step>, d: Device, c: Cid, slot: nat) returns (steps: seq<Step>)
    requires Init(d0) && Runs(d0, before) && d == After(d0, before) && !At(d, c) && LowestFree(d.active, slot)
    ensures Runs(d, steps) && Opening(steps, c) && |After(d, steps).events| == N_READERS
    ensures var z := After(d, steps);
            if d.lockedBy.None? then At(z, c) && z.contexts[c] == Live(slot) && z.count == d.count + 1 && z.events[slot] == {}
            else !At(z, c) && z.active == d.active && z.count == d.count
  {
    Reachable(d0, before, d);
    var rest := Searches(Apply(d, Open(c)), c, 0, slot);
    First(d, Open(c), c, rest);
    steps := [Open(c)] + rest;
  }

  lemma {:induction false} SearchFails(d: Device, c: Cid, bit: nat) returns (steps: seq<Step>)
    requires At(d, c) && d.contexts[c] == Searching(bit) && bit <= N_READERS && forall r: nat :: r < N_READERS ==> r in d.active
    ensures Runs(d, steps) && Opening(steps, c) && After(d, steps) == d.(contexts := d.contexts - {c})
    decreases N_READERS - bit
  {
    var d1 := Apply(d, TestAndSet(c));
    var rest: seq<Step> := [];
    if bit < N_READERS {
      rest := SearchFails(d1, c, bit + 1);
      assert d1.contexts - {c} == d.contexts - {c};
    }
    First(d, TestAndSet(c), c, rest);
    steps := [TestAndSet(c)] + rest;
  }

  /** With no slot free it fails and changes nothing. */
  lemma OpenFailsWhenFull(d: Device, c: Cid) returns (steps: seq<Step>)
    requires !At(d, c) && forall r: nat :: r < N_READERS ==> r in d.active
    ensures Runs(d, steps) && Opening(steps, c) && After(d, steps) == d
  {
    var d1 := Apply(d, Open(c));
    var rest := SearchFails(d1, c, 0);
    First(d, Open(c), c, rest);
    steps := [Open(c)] + rest;
    assert d1.contexts - {c} == d.contexts;
  }

  /** A context that nobody reads from can close by its own steps: it, its count, its slot and its lock are gone. */
  lemma CloseIsServed(d0: Device, before: seq<Step>, d: Device, c: Cid) returns (z: Device)
    requires Init(d0) && Runs(d0, before) && d == After(d0, before) && IsLive(d, c) && NoReader(d, c)
    ensures Enabled(d, Release(c)) && Enabled(Apply(d, Release(c)), GiveSlot(c)) && z == Apply(Apply(d, Release(c)), GiveSlot(c))
    ensures !At(z, c) && z.count == d.count - 1 && z.lockedBy.None? && d.contexts[c].slot !in z.active
    ensures LiveSet(z.contexts) == LiveSet(d.contexts) - {c}
  {
    Reachable(d0, before, d);
    z := Apply(Apply(d, Release(c)), GiveSlot(c));
    assert c in LiveSet(d.contexts);
    assert z.contexts == d.contexts - {c};
    LiveGone(d.contexts, c);
  }

  /**
   In every reachable state, through every way an open can fail, contexts hold
   different reader slots, all marked in use, and every slot marked in use has
   a context that will give it back.
   */
  lemma SlotsAreExclusive(d0: Device, steps: seq<Step>, d: Device)
    requires Init(d0) && Runs(d0, steps) && d == After(d0, steps)
    ensures forall c, e, slot :: Holds(d.contexts, c, slot) && Holds(d.contexts, e, slot) ==> c == e
    ensures forall slot :: slot in d.active <==> exists c :: Holds(d.contexts, c, slot)
  {
    Reachable(d0, steps, d);
  }

  // ---------------------------------------------------------------------
  // Who gets the events
  // ---------------------------------------------------------------------

  /**
   What a run has to do with context `c` since its slot was last cleared for
   it: the bits posted to the slot, the bits its own calls came back with, and
   the bits posted since the last exchange of one.
   */
  datatype Ledger = Ledger(posted: Mask, given: Mask, since: Mask)

  const EMPTY := Ledger({}, {}, {})

  function Posted(l: Ledger, mask: Mask): Ledger {
    l.(posted := l.posted + mask, since := l.since + mask)
  }

  function HandedOver(l: Ledger, events: Mask): Ledger {
    l.(given := l.given + events, since := {})
  }

  /** The events a call has come back with. */
  function Shown(d: Device, call: Call): Mask {
    if call in d.readers && d.readers[call].stage.Returned? then d.readers[call].stage.events else {}
  }

  function Record(d: Device, step: Step, c: Cid, l: Ledger): Ledger
    requires Enabled(d, step)
  {
    if step == ClearEvents(c) then EMPTY
    else if step.PostOne? && Holds(d.contexts, c, d.post.reader) then Posted(l, d.post.mask)
    else if step.Try? && d.readers[step.call].c == c then HandedOver(l, Shown(Apply(d, step), step.call))
    else l
  }

  function Account(d: Device, steps: seq<Step>, c: Cid, l: Ledger): Ledger
    requires Runs(d, steps)
    decreases steps
  {
    if steps == [] then l else Account(Apply(d, steps[0]), steps[1..], c, Record(d, steps[0], c, l))
  }

  /** Nothing is lost, made up or left over: what was posted has been given to `c` or is pending. */
  predicate Fair(l: Ledger, pending: Mask) {
    l.posted == l.given + pending && l.since == pending
  }

  predicate FairTo(d: Device, c: Cid, l: Ledger) {
    At(d, c) && Ready(d.contexts[c]) && d.contexts[c].slot < |d.events| ==> Fair(l, d.events[d.contexts[c].slot])
  }

  lemma FairPost(l: Ledger, pending: Mask, mask: Mask)
    requires Fair(l, pending)
    ensures Fair(Posted(l, mask), pending + mask)
  {
    assert (l.given + pending) + mask == l.given + (pending + mask);
  }

  lemma FairTake(l: Ledger, pending: Mask)
    requires Fair(l, pending)
    ensures Fair(HandedOver(l, pending), {})
  {
    assert (l.given + pending) + {} == l.given + pending;
  }

  lemma PostIsFair(d: Device, c: Cid, l: Ledger)
    requires Inv(d) && Enabled(d, PostOne) && FairTo(d, c, l)
    ensures FairTo(Apply(d, PostOne), c, Record(d, PostOne, c, l))
  {
    var r, mask := d.post.reader, d.post.mask;
    if At(d, c) && Ready(d.contexts[c]) && d.contexts[c].slot == r {
      FairPost(l, d.events[r], mask);
    }
  }

  /** Different contexts hold different slots. */
  lemma SlotsDiffer(d: Device, c: Cid, e: Cid)
    requires Inv(d) && At(d, c) && At(d, e) && c != e && HasSlot(d.contexts[c]) && HasSlot(d.contexts[e])
    ensures d.contexts[c].slot != d.contexts[e].slot
  {
    assert Holds(d.contexts, c, d.contexts[c].slot) && Holds(d.contexts, e, d.contexts[e].slot);
  }

  lemma ClearIsFair(d: Device, e: Cid, c: Cid, l: Ledger)
    requires Inv(d) && Enabled(d, ClearEvents(e)) && FairTo(d, c, l)
    ensures FairTo(Apply(d, ClearEvents(e)), c, Record(d, ClearEvents(e), c, l))
  {
    if e != c && At(d, c) && Ready(d.contexts[c]) {
      SlotsDiffer(d, c, e);
    }
  }

  /** A call comes back with all that its exchange took. */
  lemma ShownIsTaken(d: Device, call: Call)
    requires Enabled(d, Try(call))
    ensures Shown(Apply(d, Try(call)), call) == Taken(d, call)
  {
  }

  lemma TryIsFair(d: Device, call: Call, c: Cid, l: Ledger)
    requires Inv(d) && Enabled(d, Try(call)) && FairTo(d, c, l)
    ensures FairTo(Apply(d, Try(call)), c, Record(d, Try(call), c, l))
  {
    var e := d.readers[call].c;
    if e == c {
      ShownIsTaken(d, call);
      FairTake(l, Taken(d, call));
    } else if At(d, c) && Ready(d.contexts[c]) {
      SlotsDiffer(d, c, e);
    }
  }

  /** Other steps leave the events alone, and make nobody the owner of some. */
  lemma QuietStep(d: Device, step: Step, c: Cid)
    requires Enabled(d, step) && !step.PostOne? && !step.ClearEvents? && !step.Try?
    ensures var d' := Apply(d, step);
            && d'.events == d.events
            && (At(d', c) && Ready(d'.contexts[c]) ==>
                  At(d, c) && Ready(d.contexts[c]) && d.contexts[c].slot == d'.contexts[c].slot)
  {
  }

  lemma FairStep(d: Device, step: Step, c: Cid, l: Ledger)
    requires Inv(d) && Enabled(d, step) && FairTo(d, c, l)
    ensures FairTo(Apply(d, step), c, Record(d, step, c, l))
  {
    match step {
      case PostOne => PostIsFair(d, c, l);
      case ClearEvents(e) => ClearIsFair(d, e, c, l);
      case Try(call) => TryIsFair(d, call, c, l);
      case _ => QuietStep(d, step, c);
    }
  }

  lemma {:induction false} FairRun(d: Device, steps: seq<Step>, c: Cid, l: Ledger)
    requires Inv(d) && Runs(d, steps) && FairTo(d, c, l)
    ensures FairTo(After(d, steps), c, Account(d, steps, c, l))
    decreases steps
  {
    if steps != [] {
      InvStep(d, steps[0]);
      FairStep(d, steps[0], c, l);
      FairRun(Apply(d, steps[0]), steps[1..], c, Record(d, steps[0], c, l));
    }
  }

  /** What becomes of a call whose exchange finds `found`: a blocking one sleeps on if that is nothing. */
  predicate ComesTo(r: Reading, found: Mask) {
    if found == {} && !r.noWait then r.stage == Asleep else r.stage == Returned(found)
  }

  /**
   In every reachable state, for every context whose slot has been cleared for
   it: the bits posted to it since then are those its own calls came back with
   and those pending, and the next call comes back with exactly what was posted
   since the last exchange. No other context's calls come into it.
   */
  lemma EventsAreConserved(d0: Device, steps: seq<Step>, d: Device, c: Cid, l: Ledger)
    requires Init(d0) && Runs(d0, steps) && d == After(d0, steps) && l == Account(d0, steps, c, EMPTY)
    requires At(d, c) && Ready(d.contexts[c])
    ensures d.contexts[c].slot < |d.events| && l.posted == l.given + d.events[d.contexts[c].slot]
    ensures forall call :: Enabled(d, Try(call)) && d.readers[call].c == c ==>
              var d' := Apply(d, Try(call)); call in d'.readers && ComesTo(d'.readers[call], l.since)
  {
    InitInv(d0);
    FairRun(d0, steps, c, EMPTY);
    Reachable(d0, steps, d);
    assert Holds(d.contexts, c, d.contexts[c].slot);
  }

  predicate NeverEmptyHanded(d: Device) {
    forall call :: call in d.readers && d.readers[call].stage.Returned? && !d.readers[call].noWait ==> d.readers[call].stage.events != {}
  }

  lemma {:induction false} NotEmptyHanded(d: Device, steps: seq<Step>)
    requires Runs(d, steps) && NeverEmptyHanded(d)
    ensures NeverEmptyHanded(After(d, steps))
    decreases steps
  {
    if steps != [] {
      NotEmptyStep(d, steps[0]);
      NotEmptyHanded(Apply(d, steps[0]), steps[1..]);
    }
  }

  lemma NotEmptyStep(d: Device, step: Step)
    requires Enabled(d, step) && NeverEmptyHanded(d)
    ensures NeverEmptyHanded(Apply(d, step))
  {
  }

  /** In every reachable state a blocking read that has returned has returned some event. */
  lemma BlockingReadReturnsEvents(d0: Device, steps: seq<Step>, d: Device, call: Call)
    requires Init(d0) && Runs(d0, steps) && d == After(d0, steps)
    requires call in d.readers && !d.readers[call].noWait && d.readers[call].stage.Returned?
    ensures d.readers[call].stage.events != {}
  {
    NotEmptyHanded(d0, steps);
  }

  /** A call on a live context, new or woken, comes back at once with what is pending there, if there is something. */
  lemma ReadIsServed(d: Device, call: Call, c: Cid, noWait: bool)
    requires IsLive(d, c) && d.events[d.contexts[c].slot] != {}
    ensures call !in d.readers ==>
              && Enabled(d, BeginRead(call, c, noWait))
              && var d1 := Apply(d, BeginRead(call, c, noWait));
              && Enabled(d1, Try(call)) && AtRead(Apply(d1, Try(call)), call, Returned(d.events[d.contexts[c].slot]))
    ensures AtRead(d, call, Asleep) && d.readers[call].c == c ==>
              && Enabled(d, WakeUp(call))
              && var d1 := Apply(d, WakeUp(call));
              && Enabled(d1, Try(call)) && AtRead(Apply(d1, Try(call)), call, Returned(d.events[d.contexts[c].slot]))
    ensures AtRead(d, call, Asleep) ==> Enabled(d, Interrupt(call)) && AtRead(Apply(d, Interrupt(call)), call, Interrupted)
  {
  }

  // ---------------------------------------------------------------------
  // Every reader gets every event
  // ---------------------------------------------------------------------

  predicate Includes(all: Mask, mask: Mask) {
    all + mask == all
  }

  lemma IncludesPosted(l: Ledger, mask: Mask)
    ensures Includes(Posted(l, mask).posted, mask)
  {
  }

  lemma IncludesMore(l: Ledger, mask: Mask, more: Mask)
    requires Includes(l.posted, mask)
    ensures Includes(Posted(l, more).posted, mask)
  {
  }

  /** The context keeps its slot all through the run. */
  predicate Stays(d: Device, steps: seq<Step>, c: Cid)
    requires Runs(d, steps)
    decreases steps
  {
    && At(d, c) && Ready(d.contexts[c])
    && (steps != [] ==> Stays(Apply(d, steps[0]), steps[1..], c))
  }

  lemma PostedOnlyGrows(d: Device, step: Step, c: Cid, l: Ledger, mask: Mask)
    requires Enabled(d, step) && At(d, c) && Ready(d.contexts[c]) && Includes(l.posted, mask)
    ensures Includes(Record(d, step, c, l).posted, mask)
  {
    if step.PostOne? {
      IncludesMore(l, mask, d.post.mask);
    }
  }

  lemma {:induction false} PostedStays(d: Device, steps: seq<Step>, c: Cid, l: Ledger, mask: Mask)
    requires Runs(d, steps) && Stays(d, steps, c) && Includes(l.posted, mask)
    ensures Includes(Account(d, steps, c, l).posted, mask)
    decreases steps
  {
    if steps != [] {
      PostedOnlyGrows(d, steps[0], c, l, mask);
      PostedStays(Apply(d, steps[0]), steps[1..], c, Record(d, steps[0], c, l), mask);
    }
  }

  lemma HandlerGoesOn(d: Device, step: Step, mask: Mask, j: nat)
    requires Enabled(d, step) && d.post == Posting(mask, j)
    ensures Apply(d, step).post == if step.PostOne? then NextPost(mask, j) else d.post
  {
  }

  lemma SlotStays(d: Device, step: Step, c: Cid)
    requires Enabled(d, step) && At(d, c) && Ready(d.contexts[c])
    requires At(Apply(d, step), c) && Ready(Apply(d, step).contexts[c])
    ensures Apply(d, step).contexts[c].slot == d.contexts[c].slot
  {
  }

  /**
   Fan-out: whatever opens, closes, reads and locks come between, an interrupt
   handler that has run to its end has posted its whole mask to every context
   that kept its slot meanwhile.
   */
  lemma {:induction false} EveryReaderGetsThePost(d: Device, steps: seq<Step>, mask: Mask, j: nat, c: Cid, l: Ledger)
    requires Inv(d) && Runs(d, steps) && Stays(d, steps, c) && d.post == Posting(mask, j) && j <= d.contexts[c].slot
    requires After(d, steps).post.NoPost?
    ensures Includes(Account(d, steps, c, l).posted, mask)
    decreases steps
  {
    var step, d' := steps[0], Apply(d, steps[0]);
    var l' := Record(d, step, c, l);
    InvStep(d, step);
    HandlerGoesOn(d, step, mask, j);
    SlotStays(d, step, c);
    assert Holds(d.contexts, c, d.contexts[c].slot);
    if step.PostOne? && j == d.contexts[c].slot {
      IncludesPosted(l, mask);
      PostedStays(d', steps[1..], c, l', mask);
    } else {
      EveryReaderGetsThePost(d', steps[1..], mask, if step.PostOne? then j + 1 else j, c, l');
    }
  }

  /** An interrupt reaches, from its very start to its end, every context that keeps its slot. */
  lemma InterruptReachesEveryReader(d: Device, steps: seq<Step>, mask: Mask, c: Cid, l: Ledger)
    requires Inv(d) && Runs(d, steps) && steps != [] && steps[0] == BeginPost(mask)
    requires Stays(d, steps, c) && After(d, steps).post.NoPost?
    ensures mask <= Account(d, steps, c, l).posted
  {
    InvStep(d, steps[0]);
    EveryReaderGetsThePost(Apply(d, steps[0]), steps[1..], mask, 0, c, l);
  }

  /** All masks that come in are among `all`. */
  predicate ComesFrom(d: Device, steps: seq<Step>, all: Mask) {
    && (d.post.Posting? ==> d.post.mask <= all)
    && forall i :: 0 <= i < |steps| && steps[i].BeginPost? ==> steps[i].mask <= all
  }

  lemma PostKeepsMask(d: Device, step: Step, all: Mask)
    requires Enabled(d, step) && ComesFrom(d, [step], all)
    ensures Apply(d, step).post.Posting? ==> Apply(d, step).post.mask <= all
  {
    assert [step][0] == step;
  }

  /** No reader is told of a bit that no interrupt brought. */
  lemma {:induction false} NothingIsMadeUp(d: Device, steps: seq<Step>, c: Cid, l: Ledger, all: Mask)
    requires Runs(d, steps) && ComesFrom(d, steps, all) && l.posted <= all
    ensures Account(d, steps, c, l).posted <= all
    decreases steps
  {
    if steps != [] {
      assert ComesFrom(d, [steps[0]], all);
      PostKeepsMask(d, steps[0], all);
      NothingIsMadeUp(Apply(d, steps[0]), steps[1..], c, Record(d, steps[0], c, l), all);
    }
  }

  // ---------------------------------------------------------------------
  // Interrupted reads
  // ---------------------------------------------------------------------

  lemma ReturnedStays(d: Device, step: Step, call: Call)
    requires Enabled(d, step) && call in d.readers && d.readers[call].stage.Returned?
    ensures call in Apply(d, step).readers && Apply(d, step).readers[call] == d.readers[call]
  {
  }

  lemma {:induction false} ReturnedForGood(d: Device, steps: seq<Step>, call: Call)
    requires Runs(d, steps) && call in d.readers && d.readers[call].stage.Returned?
    ensures call in After(d, steps).readers && After(d, steps).readers[call] == d.readers[call]
    decreases steps
  {
    if steps != [] {
      ReturnedStays(d, steps[0], call);
      ReturnedForGood(Apply(d, steps[0]), steps[1..], call);
    }
  }

  predicate NotReturned(d: Device, call: Call) {
    call !in d.readers || !d.readers[call].stage.Returned?
  }

  /** The steps of one reading call. */
  predicate OfCall(step: Step, call: Call) {
    (step.BeginRead? || step.Try? || step.WakeUp? || step.Interrupt?) && step.call == call
  }

  /** An exchange of a call that never returns takes nothing, now or later. */
  lemma TryTakesNothing(d: Device, steps: seq<Step>, call: Call)
    requires Runs(d, steps) && steps != [] && steps[0] == Try(call) && NotReturned(After(d, steps), call)
    ensures Taken(d, call) == {}
  {
    if Taken(d, call) != {} {
      ReturnedForGood(Apply(d, Try(call)), steps[1..], call);
    }
  }

  /** The same run without the call. */
  function Without(steps: seq<Step>, call: Call): seq<Step> {
    if steps == [] then []
    else if OfCall(steps[0], call) then Without(steps[1..], call)
    else [steps[0]] + Without(steps[1..], call)
  }

  /** The same device without the call. */
  function Hide(d: Device, call: Call): Device {
    d.(readers := d.readers - {call})
  }

  lemma HideSet(m: map<Call, Reading>, k: Call, r: Reading, call: Call)
    ensures k != call ==> m[k := r] - {call} == (m - {call})[k := r]
    ensures m[call := r] - {call} == m - {call}
  {
  }

  /** A step of the call itself changes nothing else. */
  lemma OwnStepHides(d: Device, step: Step, call: Call)
    requires Enabled(d, step) && OfCall(step, call) && (step.Try? ==> Taken(d, call) == {})
    ensures Hide(Apply(d, step), call) == Hide(d, call)
  {
    HideSet(d.readers, call, Apply(d, step).readers[call], call);
    if step.Try? {
      var slot := d.contexts[d.readers[call].c].slot;
      assert d.events[slot := {}] == d.events;
    }
  }

  /** Every other step goes the same way without it. */
  lemma OtherStepHides(d: Device, step: Step, call: Call)
    requires Enabled(d, step) && !OfCall(step, call)
    ensures Enabled(Hide(d, call), step) && Apply(Hide(d, call), step) == Hide(Apply(d, step), call)
  {
    if step.BeginRead? || step.Try? || step.WakeUp? || step.Interrupt? {
      HideSet(d.readers, step.call, Apply(d, step).readers[step.call], call);
    }
  }

  lemma {:induction false} HiddenRun(d: Device, steps: seq<Step>, call: Call)
    requires Runs(d, steps) && NotReturned(After(d, steps), call)
    ensures Runs(Hide(d, call), Without(steps, call))
    ensures After(Hide(d, call), Without(steps, call)) == Hide(After(d, steps), call)
    decreases steps
  {
    if steps != [] {
      var step, rest := steps[0], Without(steps[1..], call);
      HiddenRun(Apply(d, step), steps[1..], call);
      if OfCall(step, call) {
        if step.Try? {
          TryTakesNothing(d, steps, call);
        }
        OwnStepHides(d, step, call);
      } else {
        OtherStepHides(d, step, call);
        assert Without(steps, call) == [step] + rest && ([step] + rest)[1..] == rest;
      }
    }
  }

  /**
   A blocking read that is interrupted, or still asleep, has consumed nothing:
   whatever else went on, the device is as if the call had never been made.
   */
  lemma InterruptedReadIsInvisible(d: Device, steps: seq<Step>, call: Call)
    requires Runs(d, steps) && call !in d.readers && call in After(d, steps).readers
    requires After(d, steps).readers[call].stage.Interrupted? || After(d, steps).readers[call].stage.Asleep?
    ensures Runs(d, Without(steps, call)) && After(d, Without(steps, call)) == Hide(After(d, steps), call)
  {
    HiddenRun(d, steps, call);
    assert Hide(d, call) == d;
  }
}
