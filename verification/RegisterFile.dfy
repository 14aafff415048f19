/**
 The register device as the driver's code runs it, one call at a time: reader
 slots and event masks in arrays, and the reference count with its exclusive
 owner. The steps that calls on other processors may take in between are the
 subject of RegisterDevice.
 */
module RegisterFile {
  import opened Wrappers
  import opened Errno
  import opened RegisterDevice

  /** What happens to a sleeping reader. */
  datatype Wake = Event(mask: Mask) | Interrupted

  /** The first wake-up that brings an event, with none before it an interruption. */
  predicate FirstEvent(wakes: seq<Wake>, i: nat) {
    && i < |wakes| && wakes[i].Event? && wakes[i].mask != {}
    && forall j :: 0 <= j < i ==> wakes[j] == Event({})
  }

  lemma NoFirstEvent(wakes: seq<Wake>, i: nat)
    requires i <= |wakes| && (i < |wakes| ==> wakes[i].Interrupted?)
    requires forall j :: 0 <= j < i ==> wakes[j] == Event({})
    ensures forall k: nat :: !FirstEvent(wakes, k)
  {
    forall k: nat
      ensures !FirstEvent(wakes, k)
    {
      if k > i && i < |wakes| {
        assert wakes[i] != Event({});
      }
    }
  }

  class InterruptControl {
    const events: array<Mask>
    var activeReaders: set<nat>

    ghost predicate Valid()
      reads this
    {
      events.Length == N_READERS
    }

    constructor ()
      ensures Valid() && fresh(events) && activeReaders == {}
      ensures forall r :: 0 <= r < N_READERS ==> events[r] == {}
    {
      events := new Mask[N_READERS](_ => {});
      activeReaders := {};
    }

    /** `assign_reader_number`: the lowest free slot, emptied. */
    method AssignReaderNumber() returns (ok: bool, reader: nat)
      requires Valid()
      modifies this`activeReaders, events
      ensures ok <==> exists r: nat :: r < N_READERS && r !in old(activeReaders)
      ensures ok ==> && reader < N_READERS && reader !in old(activeReaders)
                     && (forall r: nat :: r < reader ==> r in old(activeReaders))
      ensures activeReaders == if ok then old(activeReaders) + {reader} else old(activeReaders)
      ensures events[..] == if ok then old(events[..])[reader := {}] else old(events[..])
    {
      var bit: nat := 0;
      while bit < N_READERS
        invariant bit <= N_READERS && activeReaders == old(activeReaders) && events[..] == old(events[..])
        invariant forall r: nat :: r < bit ==> r in activeReaders
      {
        if bit !in activeReaders {
          activeReaders := activeReaders + {bit};
          events[bit] := {};
          return true, bit;
        }
        bit := bit + 1;
      }
      return false, 0;
    }

    /** `unassign_reader_number` */
    method UnassignReaderNumber(reader: nat)
      requires Valid()
      modifies this`activeReaders
      ensures activeReaders == old(activeReaders) - {reader}
    {
      activeReaders := activeReaders - {reader};
    }

    /** `event_interrupt`: every slot gets the whole mask. */
    method EventInterrupt(mask: Mask)
      requires Valid()
      modifies events
      ensures forall r :: 0 <= r < N_READERS ==> events[r] == old(events[r]) + mask
    {
      for reader := 0 to N_READERS
        invariant forall r :: 0 <= r < reader ==> events[r] == old(events[r]) + mask
        invariant forall r :: reader <= r < N_READERS ==> events[r] == old(events[r])
      {
        events[reader] := events[reader] + mask;
      }
    }

    /** The exchange that empties a slot. */
    method Exchange(reader: nat) returns (taken: Mask)
      requires Valid() && reader < N_READERS
      modifies events
      ensures taken == old(events[reader]) && events[reader] == {} && events[..] == old(events[..])[reader := {}]
    {
      taken := events[reader];
      events[reader] := {};
    }

    /**
     `read_interrupt_events`, with what wakes the reader while it sleeps. A
     call that does not wait takes what is there, even nothing; one that waits
     comes back with events or, interrupted, has taken none.
     */
    method ReadInterruptEvents(noWait: bool, reader: nat, wakes: seq<Wake>) returns (rc: int, taken: Mask)
      requires Valid() && reader < N_READERS
      modifies events
      ensures noWait ==> rc == 0 && taken == old(events[reader]) && events[..] == old(events[..])[reader := {}]
      ensures !noWait && old(events[reader]) != {} ==>
                rc == 0 && taken == old(events[reader]) && events[..] == old(events[..])[reader := {}]
      ensures !noWait && old(events[reader]) == {} ==> (rc == 0 <==> exists i: nat :: FirstEvent(wakes, i))
      ensures !noWait && old(events[reader]) == {} && rc == 0 ==>
                exists i: nat :: FirstEvent(wakes, i) && taken == wakes[i].mask && events[reader] == {}
                            && forall r :: 0 <= r < N_READERS && r != reader ==> events[r] == old(events[r]) + wakes[i].mask
      ensures !noWait && rc != 0 ==> rc == -ERESTARTSYS && taken == {} && events[..] == old(events[..])
    {
      taken := Exchange(reader);
      if noWait {
        return 0, taken;
      }
      ghost var first := taken;
      var i := 0;
      while taken == {} && i < |wakes| && wakes[i].Event?
        invariant 0 <= i <= |wakes| && events[reader] == {}
        invariant (i == 0 ==> taken == first) && (first != {} ==> i == 0)
        invariant taken == {} || i == 0 ==> forall r :: 0 <= r < N_READERS && r != reader ==> events[r] == old(events[r])
        invariant taken == {} ==> forall j :: 0 <= j < i ==> wakes[j] == Event({})
        invariant taken != {} && i > 0 ==> FirstEvent(wakes, i - 1) && taken == wakes[i - 1].mask
        invariant taken != {} && i > 0 ==>
                    forall r :: 0 <= r < N_READERS && r != reader ==> events[r] == old(events[r]) + wakes[i - 1].mask
      {
        EventInterrupt(wakes[i].mask);
        taken := Exchange(reader);
        assert taken == wakes[i].mask;
        i := i + 1;
      }
      if taken == {} {
        NoFirstEvent(wakes, i);
        assert events[..] == old(events[..]);
        return -ERESTARTSYS, taken;
      }
      assert i == 0 ==> events[..] == old(events[..])[reader := {}];
      assert i > 0 ==> FirstEvent(wakes, i - 1);
      return 0, taken;
    }
  }

  /** struct register_context: the slot of one open file. */
  class Context {
    const reader: nat

    constructor (reader: nat)
      ensures this.reader == reader
    {
      this.reader := reader;
    }
  }

  /** struct register_locking, with the interrupt control its contexts read from. */
  class RegisterLocking {
    var referenceCount: int
    var lockedBy: Context?
    const interrupts: InterruptControl
    ghost var live: set<Context>

    /** The count is the number of live contexts, an owner is the only one, and each has its own slot. */
    ghost predicate Valid()
      reads this, interrupts
    {
      && interrupts.Valid()
      && referenceCount == |live|
      && (lockedBy != null ==> live == {lockedBy})
      && (forall c :: c in live ==> c.reader < N_READERS && c.reader in interrupts.activeReaders)
      && (forall c, e :: c in live && e in live && c.reader == e.reader ==> c == e)
    }

    constructor (interrupts: InterruptControl)
      requires interrupts.Valid()
      ensures Valid() && live == {} && lockedBy == null && this.interrupts == interrupts
    {
      referenceCount, lockedBy, live := 0, null, {};
      this.interrupts := interrupts;
    }

    /** `amc_pci_reg_open`: a failed open leaves the slots and the count as they were. */
    method Open(memory: bool) returns (rc: int, context: Context?)
      requires Valid()
      modifies this, interrupts`activeReaders, interrupts.events
      ensures Valid() && lockedBy == old(lockedBy)
      ensures rc == 0 <==> memory && old(lockedBy) == null && exists r: nat :: r < N_READERS && r !in old(interrupts.activeReaders)
      ensures rc == 0 ==> && context != null && fresh(context) && live == old(live) + {context}
                          && interrupts.activeReaders == old(interrupts.activeReaders) + {context.reader}
                          && context.reader !in old(interrupts.activeReaders) && interrupts.events[context.reader] == {}
      ensures rc != 0 ==> live == old(live) && interrupts.activeReaders == old(interrupts.activeReaders)
    {
      var ok, reader := interrupts.AssignReaderNumber();
      if !ok {
        return -EIO, null;
      }
      if !memory {
        interrupts.UnassignReaderNumber(reader);
        return -ENOMEM, null;
      }
      context := new Context(reader);
      if lockedBy != null {
        interrupts.UnassignReaderNumber(reader);
        return -EBUSY, null;
      }
      referenceCount := referenceCount + 1;
      live := live + {context};
      return 0, context;
    }

    /** `amc_pci_reg_release` */
    method Release(context: Context)
      requires Valid() && context in live
      modifies this, interrupts`activeReaders
      ensures Valid() && live == old(live) - {context}
      ensures lockedBy == if old(lockedBy) == context then null else old(lockedBy)
      ensures interrupts.activeReaders == old(interrupts.activeReaders) - {context.reader}
    {
      if lockedBy == context {
        lockedBy := null;
      }
      referenceCount := referenceCount - 1;
      live := live - {context};
      interrupts.UnassignReaderNumber(context.reader);
    }

    /** `lock_register`: granted exactly to the only live context. */
    method Lock(context: Context) returns (rc: int)
      requires Valid() && context in live
      modifies this`lockedBy
      ensures Valid()
      ensures rc == if old(live) == {context} && old(lockedBy) == null then 0 else -EBUSY
      ensures lockedBy == if rc == 0 then context else old(lockedBy)
    {
      assert |live - {context}| == |live| - 1;
      assert referenceCount <= 1 ==> live - {context} == {};
      if referenceCount > 1 || lockedBy != null {
        return -EBUSY;
      }
      assert live == {context};
      lockedBy := context;
      return 0;
    }

    /** `unlock_register` */
    method Unlock(context: Context) returns (rc: int)
      requires Valid() && context in live
      modifies this`lockedBy
      ensures Valid()
      ensures rc == if old(lockedBy) == context then 0 else -EINVAL
      ensures lockedBy == if rc == 0 then null else old(lockedBy)
    {
      if lockedBy == context {
        lockedBy := null;
        return 0;
      }
      return -EINVAL;
    }
  }
}
