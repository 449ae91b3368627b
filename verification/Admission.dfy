/** Admission to the blocking pool as a protocol: registrations, permits of two
    pools, polls that give up or disappear, and sanitizers that return or panic,
    in any order. */
module Admission {
  import opened Wrappers
  import opened InFlight

  const SANITIZE_CONCURRENCY: nat := 4
  const SANITIZE_RESERVE: nat := 1
  const SANITIZE_RESERVE_MAX_BYTES: nat := 16 * 1024

  datatype Pool = Shared | Reserve

  function Capacity(pool: Pool): nat {
    if pool == Shared then SANITIZE_CONCURRENCY - SANITIZE_RESERVE else SANITIZE_RESERVE
  }

  /** Where a registered sanitize is. `Leaving` has waited for a permit in vain and
      still holds its guard; `Running` is on the pool with its permit and guard;
      `Returning` has dropped its guard and not yet its permit. */
  datatype Stage = Waiting | Leaving | Running(pool: Pool) | Returning(pool: Pool) | Over

  /** One call that was registered: `awaited` while a poll still waits for it. */
  datatype Call = Call(feed: string, bytes: nat, stage: Stage, guard: GuardState, awaited: bool)
  {
    predicate Live() { guard != DONE }
    predicate Holds(pool: Pool) { stage == Running(pool) || stage == Returning(pool) }
  }

  datatype State = State(slots: Slots, calls: map<nat, Call>, freeShared: nat, freeReserve: nat)
  {
    function Free(pool: Pool): nat {
      if pool == Shared then freeShared else freeReserve
    }

    function WithFree(pool: Pool, n: nat): State {
      if pool == Shared then this.(freeShared := n) else this.(freeReserve := n)
    }
  }

  const START := State(map[], map[], Capacity(Shared), Capacity(Reserve))

  datatype Event =
    | Register(id: nat, feed: string, bytes: nat)
    | Grant(id: nat, pool: Pool)
    | PermitTimeout(id: nat)
    | Leave(id: nat)
    | DropWaiting(id: nat)
    | DropPoll(id: nat)
    | RunTimeout(id: nat)
    | Deliver(id: nat)
    | Return(id: nat)
    | ReleasePermit(id: nat)

  predicate Enabled(s: State, e: Event) {
    if e.Register? then e.id !in s.calls
    else
      && e.id in s.calls
      && var c := s.calls[e.id];
        match e
        // A permit, and the spawn with it: there is no await in between.
        case Grant(_, pool) =>
          && c.stage == Waiting && s.Free(pool) > 0
          && (pool == Reserve ==> c.bytes <= SANITIZE_RESERVE_MAX_BYTES)
        case PermitTimeout(_) => c.stage == Waiting
        case Leave(_) => c.stage == Leaving
        case DropWaiting(_) => c.stage == Waiting
        // From here on the sanitize runs whether or not a poll awaits it.
        case DropPoll(_) => c.awaited && !c.stage.Waiting? && !c.stage.Leaving?
        case RunTimeout(_) => c.awaited && !c.stage.Waiting? && !c.stage.Leaving?
        case Deliver(_) => c.awaited && c.stage == Over
        case Return(_) => c.stage.Running?
        case ReleasePermit(_) => c.stage.Returning?
  }

  /** One atomic step. */
  function Apply(s: State, e: Event): State
    requires Enabled(s, e)
  {
    if e.Register? then
      if Refusal(s.slots, e.feed).Some? then s
      else s.(slots := Registered(s.slots, e.feed),
              calls := s.calls[e.id := Call(e.feed, e.bytes, Waiting, RUNNING, true)])
    else
      var c := s.calls[e.id];
      match e
      case Grant(_, pool) =>
        s.(calls := s.calls[e.id := c.(stage := Running(pool))]).WithFree(pool, s.Free(pool) - 1)
      case PermitTimeout(_) => s.(calls := s.calls[e.id := c.(stage := Leaving)])
      case Leave(_) => DropGuard(s, e.id, c.(stage := Over, awaited := false))
      case DropWaiting(_) => DropGuard(s, e.id, c.(stage := Over, awaited := false))
      case DropPoll(_) => s.(calls := s.calls[e.id := c.(awaited := false)])
      case Deliver(_) => s.(calls := s.calls[e.id := c.(awaited := false)])
      case RunTimeout(_) =>
        s.(slots := Abandoned(s.slots, c.feed, c.guard),
           calls := s.calls[e.id := c.(awaited := false, guard := if c.guard == RUNNING then ABANDONED else c.guard)])
      case Return(_) => DropGuard(s, e.id, c.(stage := Returning(c.stage.pool)))
      case ReleasePermit(_) =>
        s.(calls := s.calls[e.id := c.(stage := Over)]).WithFree(c.stage.pool, s.Free(c.stage.pool) + 1)
  }

  function DropGuard(s: State, id: nat, c: Call): State {
    s.(slots := Released(s.slots, c.feed, c.guard), calls := s.calls[id := c.(guard := DONE)])
  }

  ghost predicate Reached(events: seq<Event>, s: State) {
    if events == [] then s == START
    else
      var e := events[|events| - 1];
      exists before: State ::
        Reached(events[..|events| - 1], before) && Enabled(before, e) && s == Apply(before, e)
  }

  // ---- what holds -------------------------------------------------------------

  /** The calls of a feed whose guard is live, and of those the given-up ones. */
  function LiveOf(s: State, feed: string): set<nat> {
    set id | id in s.calls && s.calls[id].feed == feed && s.calls[id].Live()
  }

  function LiveAbandonedOf(s: State, feed: string): set<nat> {
    set id | id in s.calls && s.calls[id].feed == feed && s.calls[id].guard == ABANDONED
  }

  function Holders(s: State, pool: Pool): set<nat> {
    set id | id in s.calls && s.calls[id].Holds(pool)
  }

  /** Guards are live exactly from registration to return; only a sanitize on the
      pool can be given up on, and then no poll awaits it. */
  ghost predicate GuardsFit(s: State) {
    forall id | id in s.calls :: var c := s.calls[id];
      && (c.Live() <==> c.stage.Waiting? || c.stage.Leaving? || c.stage.Running?)
      && (c.guard == ABANDONED ==> c.stage.Running? && !c.awaited)
      && (c.Holds(Reserve) ==> c.bytes <= SANITIZE_RESERVE_MAX_BYTES)
  }

  /** A live guard of this feed belongs to this call. */
  predicate LiveFor(s: State, feed: string, id: nat) {
    id in s.calls && s.calls[id].Live() && s.calls[id].feed == feed
  }

  /** One live guard a feed at most, and a slot exactly while there is one, which
      counts it and whether it was given up on. */
  ghost predicate SlotsFit(s: State) {
    && (forall feed, a, b | LiveFor(s, feed, a) && LiveFor(s, feed, b) :: a == b)
    && (forall feed, id | LiveFor(s, feed, id) ::
          feed in s.slots && s.slots[feed] == Slot(1, if s.calls[id].guard == ABANDONED then 1 else 0))
    && (forall feed | feed in s.slots :: exists id :: LiveFor(s, feed, id))
  }

  ghost predicate PermitsFit(s: State) {
    forall pool: Pool :: |Holders(s, pool)| + s.Free(pool) == Capacity(pool)
  }

  ghost predicate Inv(s: State) {
    GuardsFit(s) && SlotsFit(s) && PermitsFit(s)
  }

  lemma StepKeepsGuards(s: State, e: Event)
    requires Enabled(s, e) && GuardsFit(s)
    ensures GuardsFit(Apply(s, e))
  {
  }

  /** A step that touches neither guards nor slots keeps them fitting. */
  lemma SameSlots(s: State, t: State)
    requires SlotsFit(s) && t.slots == s.slots && t.calls.Keys == s.calls.Keys
    requires forall id | id in s.calls :: t.calls[id].feed == s.calls[id].feed && t.calls[id].guard == s.calls[id].guard
    ensures SlotsFit(t)
  {
    assert forall feed, id :: LiveFor(t, feed, id) <==> LiveFor(s, feed, id);
  }

  /** A registration that is admitted has the feed to itself. */
  lemma GuardRegistered(s: State, id: nat, feed: string, bytes: nat)
    requires SlotsFit(s) && id !in s.calls
    ensures SlotsFit(Apply(s, Register(id, feed, bytes)))
  {
    var t := Apply(s, Register(id, feed, bytes));
    if Refusal(s.slots, feed).None? {
      assert feed in s.slots ==> exists x :: LiveFor(s, feed, x);
      assert LiveFor(t, feed, id);
      assert forall f, x | x != id :: LiveFor(t, f, x) <==> LiveFor(s, f, x);
      assert forall f, x | LiveFor(t, f, x) :: x != id ==> f != feed;
    }
  }

  /** A guard that is dropped takes its slot with it, and no count saturates. */
  lemma GuardDropped(s: State, id: nat, t: State)
    requires GuardsFit(s) && SlotsFit(s) && id in s.calls && s.calls[id].Live()
    requires t.slots == Released(s.slots, s.calls[id].feed, s.calls[id].guard)
    requires t.calls.Keys == s.calls.Keys && t.calls[id].guard == DONE
    requires forall x | x in s.calls && x != id :: t.calls[x] == s.calls[x]
    ensures SlotsFit(t) && t.slots == s.slots - {s.calls[id].feed}
    ensures var slot := SlotOf(s.slots, s.calls[id].feed);
      slot.running == 1 && slot.abandoned == if s.calls[id].guard == ABANDONED then 1 else 0
  {
    var feed := s.calls[id].feed;
    assert LiveFor(s, feed, id);
    assert forall f, x :: LiveFor(t, f, x) <==> LiveFor(s, f, x) && x != id;
    forall f | f in t.slots ensures exists x :: LiveFor(t, f, x) {
      var x :| LiveFor(s, f, x);
      assert LiveFor(t, f, x);
    }
  }

  /** A guard that is given up on has a slot already. */
  lemma GuardAbandoned(s: State, id: nat)
    requires GuardsFit(s) && SlotsFit(s) && Enabled(s, RunTimeout(id))
    ensures SlotsFit(Apply(s, RunTimeout(id)))
    ensures Apply(s, RunTimeout(id)).slots.Keys == s.slots.Keys
    ensures s.calls[id].stage.Running? ==> Refusal(Apply(s, RunTimeout(id)).slots, s.calls[id].feed) == Some(StillRunning)
  {
    var t := Apply(s, RunTimeout(id));
    assert s.calls[id].guard == RUNNING ==> LiveFor(s, s.calls[id].feed, id);
    assert forall f, x :: LiveFor(t, f, x) <==> LiveFor(s, f, x);
  }

  lemma StepKeepsSlots(s: State, e: Event)
    requires Enabled(s, e) && GuardsFit(s) && SlotsFit(s)
    ensures SlotsFit(Apply(s, e))
  {
    hide SlotsFit;
    match e
    case Register(id, feed, bytes) => GuardRegistered(s, id, feed, bytes);
    case RunTimeout(id) => GuardAbandoned(s, id);
    case Leave(id) => GuardDropped(s, id, Apply(s, e));
    case DropWaiting(id) => GuardDropped(s, id, Apply(s, e));
    case Return(id) => GuardDropped(s, id, Apply(s, e));
    case _ => SameSlots(s, Apply(s, e));
  }

  /** What one call's change does to who holds the permits of a pool. */
  lemma HoldersAfter(s: State, t: State, id: nat, c: Call, pool: Pool)
    requires t.calls == s.calls[id := c]
    ensures Holders(t, pool) == if c.Holds(pool) then Holders(s, pool) + {id} else Holders(s, pool) - {id}
  {
  }

  /** A step changes one call at most, and the free permits of a pool by just
      what that call took or gave back. */
  lemma OneCallChanges(s: State, e: Event, pool: Pool)
    requires Enabled(s, e)
    ensures var t := Apply(s, e);
      if e.Register? && Refusal(s.slots, e.feed).Some? then t == s
      else
        && e.id in t.calls && t.calls == s.calls[e.id := t.calls[e.id]]
        && var had, has := e.id in s.calls && s.calls[e.id].Holds(pool), t.calls[e.id].Holds(pool);
          t.Free(pool) == s.Free(pool) + (if had then 1 else 0) - (if has then 1 else 0)
  {
  }

  lemma StepKeepsPermits(s: State, e: Event)
    requires Enabled(s, e) && PermitsFit(s)
    ensures PermitsFit(Apply(s, e))
  {
    var t := Apply(s, e);
    hide Apply, Enabled, Holders;
    forall pool: Pool ensures |Holders(t, pool)| + t.Free(pool) == Capacity(pool) {
      OneCallChanges(s, e, pool);
      if t != s {
        HoldersAfter(s, t, e.id, t.calls[e.id], pool);
        HolderIn(s, e.id, pool);
      }
    }
  }

  lemma HolderIn(s: State, id: nat, pool: Pool)
    ensures id in Holders(s, pool) <==> id in s.calls && s.calls[id].Holds(pool)
  {
  }

  lemma {:induction false} InvAlways(events: seq<Event>, s: State)
    ensures Reached(events, s) ==> Inv(s)
  {
    if Reached(events, s) {
      if events == [] {
        assert forall pool: Pool :: Holders(START, pool) == {};
      } else {
        var front, e := events[..|events| - 1], events[|events| - 1];
        var before :| Reached(front, before) && Enabled(before, e) && s == Apply(before, e);
        InvAlways(front, before);
        StepKeepsGuards(before, e);
        StepKeepsSlots(before, e);
        StepKeepsPermits(before, e);
      }
    }
  }

  // ---- every call, read off the run -------------------------------------------

  /** Whether the guard of a call has been dropped: its sanitize returned, or it
      left, or disappeared, without a permit. */
  predicate GuardIsOver(events: seq<Event>, id: nat) {
    Return(id) in events || Leave(id) in events || DropWaiting(id) in events
  }

  /** A poll gave up on the call while its sanitize ran, and it still does: its time
      was up, and it has not returned, before that or since. */
  predicate GaveUpOn(events: seq<Event>, id: nat) {
    RunTimeout(id) in events && Return(id) !in events
  }

  /** The call holds a permit of this pool: it was granted one and has not given it
      back. */
  predicate OutOf(events: seq<Event>, id: nat, pool: Pool) {
    Grant(id, pool) in events && ReleasePermit(id) !in events
  }

  /** A poll still waits for the call: it was neither answered nor dropped, did not
      give up, and did not leave. */
  predicate IsAwaited(events: seq<Event>, id: nat) {
    && Deliver(id) !in events && DropPoll(id) !in events && RunTimeout(id) !in events
    && Leave(id) !in events && DropWaiting(id) !in events
  }

  /** The feed and the size that the last registration under this number was for. */
  function Registration(events: seq<Event>, id: nat): Option<(string, nat)> {
    if events == [] then None
    else
      var e := events[|events| - 1];
      if e.Register? && e.id == id then Some((e.feed, e.bytes)) else Registration(events[..|events| - 1], id)
  }

  /** Whether a step was about this call, other than an attempt to register it. */
  predicate Untouched(events: seq<Event>, id: nat) {
    forall e | e in events && e.id == id :: e.Register?
  }

  /** What a call is, is what the run says of it and nothing else: its guard, */
  ghost predicate GuardByEvents(events: seq<Event>, c: Call, id: nat) {
    && (c.Live() <==> !GuardIsOver(events, id))
    && (c.guard == ABANDONED <==> GaveUpOn(events, id))
    && (c.awaited <==> IsAwaited(events, id))
  }

  /** and the permits it holds. */
  predicate PermitsByEvents(events: seq<Event>, c: Call, id: nat, pool: Pool) {
    c.Holds(pool) <==> OutOf(events, id, pool)
  }

  ghost predicate CallFits(events: seq<Event>, s: State, id: nat) {
    if id in s.calls then
      var c := s.calls[id];
      && Registration(events, id) == Some((c.feed, c.bytes))
      && GuardByEvents(events, c, id)
      && PermitsByEvents(events, c, id, Shared) && PermitsByEvents(events, c, id, Reserve)
    else Untouched(events, id)
  }

  /** Besides, where it stands: what has not happened to it yet. */
  ghost predicate StageByEvents(events: seq<Event>, c: Call, id: nat) {
    && (c.stage == Waiting ==> Untouched(events, id))
    && (c.stage == Leaving ==> forall e | e in events && e.id == id :: e.Register? || e.PermitTimeout?)
    && (c.stage.Running? || c.stage.Returning? ==> ReleasePermit(id) !in events && Leave(id) !in events && DropWaiting(id) !in events)
    && (c.stage.Running? ==> Return(id) !in events)
  }

  ghost predicate StageFits(events: seq<Event>, s: State, id: nat) {
    id in s.calls ==> StageByEvents(events, s.calls[id], id)
  }

  lemma InMore(events: seq<Event>, e: Event)
    ensures forall x :: x in events + [e] <==> x in events || x == e
  {
  }

  lemma RegistrationMore(events: seq<Event>, e: Event, id: nat)
    ensures Registration(events + [e], id) == if e.Register? && e.id == id then Some((e.feed, e.bytes)) else Registration(events, id)
  {
    assert (events + [e])[..|events|] == events;
  }

  lemma OtherEvent(events: seq<Event>, e: Event, c: Call, id: nat)
    requires e.id != id
    ensures Untouched(events, id) ==> Untouched(events + [e], id)
    ensures GuardByEvents(events, c, id) ==> GuardByEvents(events + [e], c, id)
    ensures forall pool: Pool :: PermitsByEvents(events, c, id, pool) ==> PermitsByEvents(events + [e], c, id, pool)
    ensures StageByEvents(events, c, id) ==> StageByEvents(events + [e], c, id)
  {
    InMore(events, e);
  }

  lemma OtherCallStays(s: State, e: Event, id: nat)
    requires Enabled(s, e) && e.id != id
    ensures id in Apply(s, e).calls <==> id in s.calls
    ensures id in s.calls ==> Apply(s, e).calls[id] == s.calls[id]
  {
  }

  /** A step leaves every other call, and what the run says of it, as it was. */
  lemma OtherCallsFit(events: seq<Event>, s: State, e: Event, id: nat)
    requires Enabled(s, e) && CallFits(events, s, id) && StageFits(events, s, id) && e.id != id
    ensures CallFits(events + [e], Apply(s, e), id) && StageFits(events + [e], Apply(s, e), id)
  {
    hide Apply, Enabled, Registration, GuardByEvents, PermitsByEvents, StageByEvents, Untouched;
    RegistrationMore(events, e, id);
    OtherCallStays(s, e, id);
    if id in s.calls {
      OtherEvent(events, e, s.calls[id], id);
    } else {
      OtherEvent(events, e, Call("", 0, Over, DONE, false), id);
    }
  }

  function GuardAfter(c: Call, e: Event): GuardState {
    if e.Leave? || e.DropWaiting? || e.Return? then DONE
    else if e.RunTimeout? && c.guard == RUNNING then ABANDONED
    else c.guard
  }

  function AwaitedAfter(c: Call, e: Event): bool {
    c.awaited && !e.Leave? && !e.DropWaiting? && !e.DropPoll? && !e.Deliver? && !e.RunTimeout?
  }

  lemma CallAfter(s: State, e: Event)
    requires !e.Register? && Enabled(s, e)
    ensures e.id in Apply(s, e).calls
    ensures Apply(s, e).calls[e.id].guard == GuardAfter(s.calls[e.id], e)
    ensures Apply(s, e).calls[e.id].awaited == AwaitedAfter(s.calls[e.id], e)
  {
    hide Released, Abandoned;
  }

  /** What a call becomes by a step of its own, other than its registration. */
  lemma GuardStep(events: seq<Event>, s: State, e: Event)
    requires !e.Register? && Enabled(s, e) && GuardsFit(s)
    requires GuardByEvents(events, s.calls[e.id], e.id) && StageByEvents(events, s.calls[e.id], e.id)
    ensures e.id in Apply(s, e).calls && GuardByEvents(events + [e], Apply(s, e).calls[e.id], e.id)
  {
    InMore(events, e);
    var c, d := s.calls[e.id], Apply(s, e).calls[e.id];
    assert d.guard == GuardAfter(c, e) && d.awaited == AwaitedAfter(c, e) by { CallAfter(s, e); }
    var was := c.guard == ABANDONED;
    assert was ==> c.stage.Running?;
    hide Apply;
  }

  lemma PermitStep(events: seq<Event>, s: State, e: Event, pool: Pool)
    requires !e.Register? && Enabled(s, e)
    requires PermitsByEvents(events, s.calls[e.id], e.id, pool) && StageByEvents(events, s.calls[e.id], e.id)
    ensures e.id in Apply(s, e).calls && PermitsByEvents(events + [e], Apply(s, e).calls[e.id], e.id, pool)
  {
    InMore(events, e);
    hide Released, Abandoned;
  }

  lemma StageStep(events: seq<Event>, s: State, e: Event)
    requires !e.Register? && Enabled(s, e) && StageByEvents(events, s.calls[e.id], e.id)
    ensures e.id in Apply(s, e).calls && StageByEvents(events + [e], Apply(s, e).calls[e.id], e.id)
  {
    InMore(events, e);
    hide Released, Abandoned;
  }

  lemma SameCall(s: State, e: Event)
    requires !e.Register? && Enabled(s, e)
    ensures e.id in s.calls && e.id in Apply(s, e).calls
    ensures Apply(s, e).calls[e.id].feed == s.calls[e.id].feed && Apply(s, e).calls[e.id].bytes == s.calls[e.id].bytes
  {
  }

  lemma RegisterFits(events: seq<Event>, s: State, e: Event)
    requires e.Register? && Enabled(s, e) && Untouched(events, e.id)
    ensures CallFits(events + [e], Apply(s, e), e.id) && StageFits(events + [e], Apply(s, e), e.id)
  {
    InMore(events, e);
    RegistrationMore(events, e, e.id);
    hide Registration, Registered;
  }

  lemma ThisCallFits(events: seq<Event>, s: State, e: Event)
    requires Enabled(s, e) && GuardsFit(s) && CallFits(events, s, e.id) && StageFits(events, s, e.id)
    ensures CallFits(events + [e], Apply(s, e), e.id) && StageFits(events + [e], Apply(s, e), e.id)
  {
    if e.Register? {
      RegisterFits(events, s, e);
    } else {
      SameCall(s, e);
      hide Apply, Enabled, GuardsFit, Registration, GuardByEvents, PermitsByEvents, StageByEvents, Untouched;
      RegistrationMore(events, e, e.id);
      GuardStep(events, s, e);
      PermitStep(events, s, e, Shared);
      PermitStep(events, s, e, Reserve);
      StageStep(events, s, e);
    }
  }

  lemma {:induction false} CallsByEvents(events: seq<Event>, s: State, id: nat)
    ensures Reached(events, s) ==> CallFits(events, s, id) && StageFits(events, s, id)
  {
    hide Apply, Enabled, CallFits, StageFits, Inv;
    if Reached(events, s) {
      if events == [] {
        NoCalls(id);
      } else {
        var front, e := events[..|events| - 1], events[|events| - 1];
        var before :| Reached(front, before) && Enabled(before, e) && s == Apply(before, e);
        assert events == front + [e];
        CallsByEvents(front, before, id);
        InvAlways(front, before);
        if e.id == id {
          assert GuardsFit(before) by { InvHasGuards(before); }
          ThisCallFits(front, before, e);
        } else {
          OtherCallsFit(front, before, e, id);
        }
      }
    }
  }

  lemma InvHasGuards(s: State)
    requires Inv(s)
    ensures GuardsFit(s)
  {
  }

  lemma NoCalls(id: nat)
    ensures CallFits([], START, id) && StageFits([], START, id)
  {
  }

  // ---- what the protocol guarantees -------------------------------------------

  lemma LiveOfOne(s: State, feed: string)
    requires SlotsFit(s)
    ensures |LiveOf(s, feed)| <= 1
    ensures SlotOf(s.slots, feed) == Slot(|LiveOf(s, feed)|, |LiveAbandonedOf(s, feed)|)
    ensures feed in s.slots <==> LiveOf(s, feed) != {}
  {
    var live, given := LiveOf(s, feed), LiveAbandonedOf(s, feed);
    assert forall id :: id in live <==> LiveFor(s, feed, id);
    assert given <= live;
    if id :| id in live {
      assert live == {id};
      assert given == if s.calls[id].guard == ABANDONED then {id} else {};
    } else {
      assert live == {} && given == {};
    }
  }

  lemma PermitsHeld(s: State)
    requires PermitsFit(s)
    ensures |Holders(s, Shared)| <= SANITIZE_CONCURRENCY - SANITIZE_RESERVE && |Holders(s, Reserve)| <= SANITIZE_RESERVE
    ensures |Holders(s, Shared) + Holders(s, Reserve)| <= SANITIZE_CONCURRENCY
  {
    hide Holders;
    assert |Holders(s, Shared)| + s.Free(Shared) == Capacity(Shared);
    assert |Holders(s, Reserve)| + s.Free(Reserve) == Capacity(Reserve);
    UnionSize(Holders(s, Shared), Holders(s, Reserve));
  }

  lemma ReserveIsForSmall(s: State)
    requires GuardsFit(s)
    ensures forall id | id in Holders(s, Reserve) :: s.calls[id].bytes <= SANITIZE_RESERVE_MAX_BYTES
  {
  }

  /** In every interleaving, each feed has at most one live guard; its slot counts
      exactly its live guards and the given-up ones among them, and exists just
      while there is one; permits out and free make up each pool, so no more than
      four sanitizes are ever on the pool; and a body over the limit never holds
      a reserved permit. */
  lemma EveryInterleaving(events: seq<Event>, s: State, feed: string, pool: Pool)
    ensures Reached(events, s) ==>
      && |LiveOf(s, feed)| <= 1
      && SlotOf(s.slots, feed) == Slot(|LiveOf(s, feed)|, |LiveAbandonedOf(s, feed)|)
      && (feed in s.slots <==> LiveOf(s, feed) != {})
      && |Holders(s, pool)| + s.Free(pool) == Capacity(pool)
      && |Holders(s, Shared)| <= SANITIZE_CONCURRENCY - SANITIZE_RESERVE && |Holders(s, Reserve)| <= SANITIZE_RESERVE
      && |Holders(s, Shared) + Holders(s, Reserve)| <= SANITIZE_CONCURRENCY
      && forall id | id in Holders(s, Reserve) :: s.calls[id].bytes <= SANITIZE_RESERVE_MAX_BYTES
  {
    hide Reached, GuardsFit, SlotsFit, LiveOf, LiveAbandonedOf, SlotOf;
    if Reached(events, s) {
      InvAlways(events, s);
      LiveOfOne(s, feed);
      ReserveIsForSmall(s);
      PermitsHeld(s);
    }
  }

  lemma UnionSize(a: set<nat>, b: set<nat>)
    ensures |a + b| <= |a| + |b|
  {
    assert a + b == a + (b - a);
    assert |b| == |b - a| + |b * a| by {
      assert b == (b - a) + (b * a);
    }
  }

  /** A registration under this number was for this feed. */
  predicate IsFor(events: seq<Event>, id: nat, feed: string) {
    Registration(events, id).Some? && Registration(events, id).value.0 == feed
  }

  lemma CallOfEvent(events: seq<Event>, s: State, e: Event)
    requires Reached(events, s) && e in events && !e.Register?
    ensures e.id in s.calls
  {
    hide Reached;
    CallsByEvents(events, s, e.id);
  }

  /** Read off the run: a feed is refused as its own failure if and only if a poll
      gave up on a sanitize of it, whose time was up before it returned and which
      has not returned since; and it is not refused if and only if every call that
      was admitted for it is over. */
  lemma RefusedByEvents(events: seq<Event>, s: State, feed: string)
    ensures Reached(events, s) ==>
      && (Refusal(s.slots, feed) == Some(StillRunning) <==> exists id :: GaveUpOn(events, id) && IsFor(events, id, feed))
      && (Refusal(s.slots, feed) == None <==>
            forall id | id in s.calls && s.calls[id].feed == feed :: GuardIsOver(events, id))
  {
    hide Reached, Refusal, GuardIsOver, GaveUpOn, Registration;
    if Reached(events, s) {
      RefusedWhileRunning(events, s, feed);
      forall id ensures id in LiveAbandonedOf(s, feed) <==> GaveUpOn(events, id) && IsFor(events, id, feed) {
        CallsByEvents(events, s, id);
        GivenUpIsCall(events, s, id);
      }
      forall id | id in s.calls ensures id in LiveOf(s, feed) <==> s.calls[id].feed == feed && !GuardIsOver(events, id) {
        CallsByEvents(events, s, id);
      }
      assert forall id | id in LiveOf(s, feed) :: id in s.calls;
    }
  }

  lemma GivenUpIsCall(events: seq<Event>, s: State, id: nat)
    requires Reached(events, s)
    ensures GaveUpOn(events, id) ==> id in s.calls
  {
    hide Reached;
    if GaveUpOn(events, id) {
      CallOfEvent(events, s, RunTimeout(id));
    }
  }

  /** And the permits of a pool are out to just the calls that were granted one and
      have not given it back. */
  lemma HoldersByEvents(events: seq<Event>, s: State, pool: Pool, id: nat)
    ensures Reached(events, s) ==> (id in Holders(s, pool) <==> OutOf(events, id, pool))
  {
    hide Reached;
    if Reached(events, s) {
      CallsByEvents(events, s, id);
      if OutOf(events, id, pool) {
        CallOfEvent(events, s, Grant(id, pool));
      }
    }
  }

  /** A feed is refused exactly while its sanitize runs: as its own failure if a
      poll gave up on it, and as merely busy if not. */
  lemma RefusedWhileRunning(events: seq<Event>, s: State, feed: string)
    ensures Reached(events, s) ==>
      && (Refusal(s.slots, feed) == None <==> LiveOf(s, feed) == {})
      && (Refusal(s.slots, feed) == Some(StillRunning) <==> LiveAbandonedOf(s, feed) != {})
      && (Refusal(s.slots, feed) == Some(Busy) <==> LiveOf(s, feed) != {} && LiveAbandonedOf(s, feed) == {})
  {
    EveryInterleaving(events, s, feed, Shared);
  }

  /** And it is admitted again as soon as that guard is dropped, which is before
      the permit is given back. */
  lemma AdmittedAgain(events: seq<Event>, s: State, e: Event, next: nat, bytes: nat)
    ensures Reached(events, s) && Enabled(s, e) && (e.Return? || e.Leave? || e.DropWaiting?) && next !in s.calls ==>
      var t, feed := Apply(s, e), s.calls[e.id].feed;
      && Refusal(t.slots, feed) == None
      && LiveFor(Apply(t, Register(next, feed, bytes)), feed, next)
  {
    if Reached(events, s) && Enabled(s, e) && (e.Return? || e.Leave? || e.DropWaiting?) {
      InvAlways(events, s);
      GuardDropped(s, e.id, Apply(s, e));
    }
  }

  /** Sanitizes of bodies over the limit cannot starve a small one: while only
      they run, the reserved permit is free for it. */
  lemma ReserveStaysFree(events: seq<Event>, s: State, id: nat)
    ensures
      && Reached(events, s)
      && (forall x | x in s.calls && (s.calls[x].stage.Running? || s.calls[x].stage.Returning?) ::
            s.calls[x].bytes > SANITIZE_RESERVE_MAX_BYTES)
      && id in s.calls && s.calls[id].stage == Waiting && s.calls[id].bytes <= SANITIZE_RESERVE_MAX_BYTES
      ==> Enabled(s, Grant(id, Reserve))
  {
    if Reached(events, s) {
      InvAlways(events, s);
      if forall x | x in s.calls && (s.calls[x].stage.Running? || s.calls[x].stage.Returning?) ::
        s.calls[x].bytes > SANITIZE_RESERVE_MAX_BYTES
      {
        assert Holders(s, Reserve) == {};
        assert |Holders(s, Reserve)| + s.Free(Reserve) == Capacity(Reserve);
      }
    }
  }

  // ---- nothing is stuck -------------------------------------------------------

  lemma OneMoreEvent(events: seq<Event>, s: State, e: Event)
    requires Reached(events, s) && Enabled(s, e)
    ensures Reached(events + [e], Apply(s, e))
  {
    var longer := events + [e];
    assert longer[..|longer| - 1] == events && longer[|longer| - 1] == e;
    hide Enabled, Apply;
    assert Reached(longer[..|longer| - 1], s);
  }

  /** A call that waits can take a free shared permit whatever its size, and the
      reserved one if it is small; and then it holds it. */
  lemma WaitingMayRun(events: seq<Event>, s: State, id: nat, pool: Pool)
    ensures
      && Reached(events, s) && id in s.calls && s.calls[id].stage == Waiting
      && |Holders(s, pool)| < (if pool == Shared then SANITIZE_CONCURRENCY - SANITIZE_RESERVE else SANITIZE_RESERVE)
      && (pool == Reserve ==> s.calls[id].bytes <= SANITIZE_RESERVE_MAX_BYTES)
      ==>
        && Enabled(s, Grant(id, pool))
        && Reached(events + [Grant(id, pool)], Apply(s, Grant(id, pool)))
        && id in Holders(Apply(s, Grant(id, pool)), pool)
  {
    hide Reached, Inv;
    if && Reached(events, s) && id in s.calls && s.calls[id].stage == Waiting
       && |Holders(s, pool)| < (if pool == Shared then SANITIZE_CONCURRENCY - SANITIZE_RESERVE else SANITIZE_RESERVE)
       && (pool == Reserve ==> s.calls[id].bytes <= SANITIZE_RESERVE_MAX_BYTES)
    {
      EveryInterleaving(events, s, "", pool);
      OneMoreEvent(events, s, Grant(id, pool));
    }
  }

  /** The steps that are left to a call that nothing else happens to. */
  function LeftTo(c: Call, id: nat): seq<Event> {
    match c.stage
    case Waiting => [PermitTimeout(id)] + [Leave(id)]
    case Leaving => [Leave(id)]
    case Running(_) => [Return(id)] + [ReleasePermit(id)]
    case Returning(_) => [ReleasePermit(id)]
    case Over => []
  }

  lemma TwoMoreEvents(events: seq<Event>, s: State, e: Event, f: Event)
    requires Reached(events, s) && Enabled(s, e) && Enabled(Apply(s, e), f)
    ensures Reached(events + ([e] + [f]), Apply(Apply(s, e), f))
  {
    hide Reached, Enabled, Apply;
    OneMoreEvent(events, s, e);
    OneMoreEvent(events + [e], Apply(s, e), f);
    assert events + [e] + [f] == events + ([e] + [f]);
  }

  function EndOf(s: State, id: nat): State
    requires id in s.calls
  {
    var c := s.calls[id];
    match c.stage
    case Waiting => Apply(Apply(s, PermitTimeout(id)), Leave(id))
    case Leaving => Apply(s, Leave(id))
    case Running(_) => Apply(Apply(s, Return(id)), ReleasePermit(id))
    case Returning(_) => Apply(s, ReleasePermit(id))
    case Over => s
  }

  lemma EndIsOver(s: State, id: nat)
    requires id in s.calls && GuardsFit(s)
    ensures id in EndOf(s, id).calls && EndOf(s, id).calls[id].stage == Over && EndOf(s, id).calls[id].guard == DONE
  {
    hide Released;
  }

  /** From every state that is reached, every call can come to its end: its guard
      dropped and its permit given back. */
  lemma EveryCallCanEnd(events: seq<Event>, s: State, id: nat) returns (t: State)
    requires Reached(events, s) && id in s.calls
    ensures Reached(events + LeftTo(s.calls[id], id), t)
    ensures id in t.calls && t.calls[id].stage == Over && t.calls[id].guard == DONE
  {
    InvAlways(events, s);
    InvHasGuards(s);
    EndIsOver(s, id);
    t := EndOf(s, id);
    hide Reached, Inv, GuardsFit, Released;
    match s.calls[id].stage
    case Over => assert events + [] == events;
    case Waiting => TwoMoreEvents(events, s, PermitTimeout(id), Leave(id));
    case Leaving => OneMoreEvent(events, s, Leave(id));
    case Running(_) => TwoMoreEvents(events, s, Return(id), ReleasePermit(id));
    case Returning(_) => OneMoreEvent(events, s, ReleasePermit(id));
  }

  /** Until it has its answer a poll can be dropped at any step: while it waits, and
      while it runs or is over, where it can also run out of time. */
  lemma PollMayGiveUp(events: seq<Event>, s: State, id: nat)
    ensures Reached(events, s) && id in s.calls && IsAwaited(events, id) && s.calls[id].stage != Leaving ==>
      if s.calls[id].stage == Waiting then
        && Enabled(s, DropWaiting(id)) && Reached(events + [DropWaiting(id)], Apply(s, DropWaiting(id)))
      else
        && Enabled(s, RunTimeout(id)) && Reached(events + [RunTimeout(id)], Apply(s, RunTimeout(id)))
        && Enabled(s, DropPoll(id)) && Reached(events + [DropPoll(id)], Apply(s, DropPoll(id)))
  {
    hide Reached, IsAwaited, GuardIsOver, GaveUpOn;
    if Reached(events, s) && id in s.calls && IsAwaited(events, id) && s.calls[id].stage != Leaving {
      CallsByEvents(events, s, id);
      if s.calls[id].stage == Waiting {
        OneMoreEvent(events, s, DropWaiting(id));
      } else {
        OneMoreEvent(events, s, RunTimeout(id));
        OneMoreEvent(events, s, DropPoll(id));
      }
    }
  }

  /** And one whose sanitize is over can have its answer. */
  lemma PollMayEnd(events: seq<Event>, s: State, id: nat)
    ensures Reached(events, s) && id in s.calls && IsAwaited(events, id) && s.calls[id].stage == Over ==>
      Enabled(s, Deliver(id)) && Reached(events + [Deliver(id)], Apply(s, Deliver(id)))
  {
    hide Reached, IsAwaited, GuardIsOver, GaveUpOn;
    if Reached(events, s) && id in s.calls && IsAwaited(events, id) && s.calls[id].stage == Over {
      CallsByEvents(events, s, id);
      OneMoreEvent(events, s, Deliver(id));
    }
  }
}
