/** The feeds with a sanitize still running, and the guard each sanitize holds
    from its registration until it returns. */
module InFlight {
  import opened Wrappers

  /** One feed's sanitizes: still running, and of those given up on. */
  datatype Slot = Slot(running: nat, abandoned: nat)

  type Slots = map<string, Slot>

  datatype GuardState = RUNNING | ABANDONED | DONE

  /** Why a sanitize produced no body. */
  datatype GaveUp = NoPermit | TimedOut | StillRunning | Busy

  function SlotOf(slots: Slots, feed: string): Slot {
    if feed in slots then slots[feed] else Slot(0, 0)
  }

  /** Why a feed may not start a sanitize now, if it may not. */
  function Refusal(slots: Slots, feed: string): Option<GaveUp> {
    var slot := SlotOf(slots, feed);
    if slot.abandoned > 0 then Some(StillRunning)
    else if slot.running > 0 then Some(Busy)
    else None
  }

  function Registered(slots: Slots, feed: string): Slots {
    slots[feed := SlotOf(slots, feed).(running := 1)]
  }

  /** The poll gave up on a sanitize that is in the given state. */
  function Abandoned(slots: Slots, feed: string, state: GuardState): Slots {
    if state != RUNNING then slots
    else var slot := SlotOf(slots, feed); slots[feed := slot.(abandoned := slot.abandoned + 1)]
  }

  function Less1(n: nat): nat {
    if n == 0 then 0 else n - 1
  }

  /** The guard was dropped in the given state. */
  function Released(slots: Slots, feed: string, was: GuardState): Slots {
    if feed !in slots then slots
    else
      var slot := slots[feed];
      var left := Slot(Less1(slot.running), if was == ABANDONED then Less1(slot.abandoned) else slot.abandoned);
      if left == Slot(0, 0) then slots - {feed} else slots[feed := left]
  }

  /** A guard that is dropped takes just its own from the counts of its feed, and
      nothing from any other's. */
  lemma ReleasedTakesOne(slots: Slots, feed: string, was: GuardState, other: string)
    requires feed in slots && slots[feed].running > 0 && (was == ABANDONED ==> slots[feed].abandoned > 0)
    ensures var before, after := slots[feed], SlotOf(Released(slots, feed, was), feed);
      && after.running + 1 == before.running
      && (if was == ABANDONED then after.abandoned + 1 else after.abandoned) == before.abandoned
    ensures other != feed ==> (other in Released(slots, feed, was) <==> other in slots)
    ensures other != feed && other in slots ==> Released(slots, feed, was)[other] == slots[other]
  {
  }

  class Flights {
    var slots: Slots

    constructor ()
      ensures slots == map[]
    {
      slots := map[];
    }
  }

  class AbandonGuard {
    const flights: Flights
    const feed: string
    var state: GuardState

    constructor (flights: Flights, feed: string)
      ensures this.flights == flights && this.feed == feed && state == RUNNING
    {
      this.flights, this.feed, state := flights, feed, RUNNING;
    }

    /** Register a sanitize, unless the feed has one running. A refusal leaves
        nothing behind: the slot it looks at was already there. */
    static method Register(flights: Flights, feed: string) returns (r: Result<AbandonGuard, GaveUp>)
      modifies flights
      ensures match old(Refusal(flights.slots, feed))
        case Some(why) => r == Err(why) && flights.slots == old(flights.slots)
        case None =>
          && r.Ok? && fresh(r.value) && r.value.state == RUNNING
          && r.value.feed == feed && r.value.flights == flights
          && flights.slots == Registered(old(flights.slots), feed)
    {
      if feed !in flights.slots {
        flights.slots := flights.slots[feed := Slot(0, 0)];
      }
      var slot := flights.slots[feed];
      if slot.abandoned > 0 {
        return Err(StillRunning);
      }
      if slot.running > 0 {
        return Err(Busy);
      }
      flights.slots := flights.slots[feed := slot.(running := 1)];
      var guard := new AbandonGuard(flights, feed);
      return Ok(guard);
    }

    /** The poll gave up: counted as abandoned, if it is still running. */
    method Abandon()
      modifies this, flights
      ensures flights.slots == Abandoned(old(flights.slots), feed, old(state))
      ensures state == if old(state) == RUNNING then ABANDONED else old(state)
    {
      if state == RUNNING {
        state := ABANDONED;
        var slot := SlotOf(flights.slots, feed);
        flights.slots := flights.slots[feed := slot.(abandoned := slot.abandoned + 1)];
      }
    }

    method Drop()
      modifies this, flights
      ensures flights.slots == Released(old(flights.slots), feed, old(state))
      ensures state == DONE
    {
      var was := state;
      state := DONE;
      if feed in flights.slots {
        var slot := flights.slots[feed];
        slot := slot.(running := Less1(slot.running));
        if was == ABANDONED {
          slot := slot.(abandoned := Less1(slot.abandoned));
        }
        flights.slots := flights.slots[feed := slot];
        if slot.running == 0 && slot.abandoned == 0 {
          flights.slots := flights.slots - {feed};
        }
      }
    }
  }
}
