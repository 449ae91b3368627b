/** Polls of one feed that overlap: the steps of one may come between the two
    store calls of another. What the stored validators and bodies are after any
    such run. */
module FeedRuns {
  import opened Wrappers
  import opened FeedPoll

  /** The feed's row, and the polls that have made their first store call and not
      yet their second. */
  datatype State = State(row: Row, between: map<nat, Poll>)

  const START := State(NEW_FEED, map[])

  /** A poll's store calls, its disappearance between them (the request it ran in
      was dropped), and a sweep that deletes old entries. */
  datatype Event =
    | Record(id: nat, p: Poll)
    | Insert(id: nat, p: Poll)
    | Drop(id: nat)
    | Sweep(guids: set<string>)

  ghost predicate Enabled(st: State, e: Event) {
    match e
    case Record(id, _) => id !in st.between
    case Insert(id, p) => id in st.between && st.between[id] == p
    case Drop(id) => id in st.between
    case Sweep(_) => true
  }

  function Apply(st: State, e: Event): State {
    match e
    case Record(id, p) => State(AfterRecord(st.row, p), if Inserts(p) then st.between[id := p] else st.between)
    case Insert(id, p) => State(AfterInsert(st.row, p), st.between - {id})
    case Drop(id) => st.(between := st.between - {id})
    case Sweep(guids) => st.(row := st.row.(bodies := st.row.bodies - guids))
  }

  ghost predicate Reached(events: seq<Event>, st: State) {
    if events == [] then st == START
    else
      var e := events[|events| - 1];
      exists before: State ::
        Reached(events[..|events| - 1], before) && Enabled(before, e) && st == Apply(before, e)
  }

  lemma OneMoreEvent(events: seq<Event>, st: State, e: Event)
    requires Reached(events, st) && Enabled(st, e)
    ensures Reached(events + [e], Apply(st, e))
  {
    var longer := events + [e];
    assert longer[..|longer| - 1] == events && longer[|longer| - 1] == e;
    hide Enabled, Apply;
    assert Reached(longer[..|longer| - 1], st);
  }

  /** The poll that has made its first store call under this number and neither its
      second, nor disappeared. */
  function Waiting(events: seq<Event>, id: nat): Option<Poll> {
    if events == [] then None
    else
      var front := events[..|events| - 1];
      match events[|events| - 1]
      case Record(i, p) => if i == id && Inserts(p) then Some(p) else Waiting(front, id)
      case Insert(i, _) => if i == id then None else Waiting(front, id)
      case Drop(i) => if i == id then None else Waiting(front, id)
      case Sweep(_) => Waiting(front, id)
  }

  /** Which polls are between their store calls is read off the run. */
  lemma {:induction false} BetweenByEvents(events: seq<Event>, st: State, id: nat)
    ensures Reached(events, st) ==>
      Waiting(events, id) == if id in st.between then Some(st.between[id]) else None
  {
    hide AfterRecord, AfterInsert, Inserts;
    if Reached(events, st) && events != [] {
      var front, e := events[..|events| - 1], events[|events| - 1];
      var before :| Reached(front, before) && Enabled(before, e) && st == Apply(before, e);
      BetweenByEvents(front, before, id);
    }
  }

  // ---- validators -------------------------------------------------------------

  type Validator = Response -> Option<string>

  /** The polls that reached their first store call, in the order of those calls. */
  function Recorded(events: seq<Event>): seq<Poll> {
    if events == [] then []
    else
      Recorded(events[..|events| - 1])
      + match events[|events| - 1] case Record(_, p) => [p] case _ => []
  }

  /** The last poll that earned a validator: it recorded a response that had one,
      all of whose bodies were sanitized. */
  function Namer(polls: seq<Poll>, validator: Validator): Option<Poll> {
    if polls == [] then None
    else
      var p := polls[|polls| - 1];
      if EarnsOne(p, validator) then Some(p) else Namer(polls[..|polls| - 1], validator)
  }

  function LastEarned(polls: seq<Poll>, validator: Validator): Option<string> {
    match Namer(polls, validator)
    case Some(p) => validator(p.response)
    case None => None
  }

  predicate EarnsOne(p: Poll, validator: Validator) {
    Earns(p) && validator(p.response).Some?
  }

  /** The i-th poll earned a validator, and no later one did. */
  predicate IsNamer(polls: seq<Poll>, validator: Validator, i: nat) {
    i < |polls| && EarnsOne(polls[i], validator) && forall j | i < j < |polls| :: !EarnsOne(polls[j], validator)
  }

  /** An earned validator names a poll of the run, and no later one earned any. */
  lemma {:induction false} EarnedByAPoll(polls: seq<Poll>, validator: Validator)
    ensures match Namer(polls, validator)
      case Some(p) => EarnsOne(p, validator) && exists i: nat :: IsNamer(polls, validator, i) && polls[i] == p
      case None => forall p | p in polls :: !EarnsOne(p, validator)
  {
    hide EarnsOne;
    if polls != [] {
      var front, p := polls[..|polls| - 1], polls[|polls| - 1];
      EarnedByAPoll(front, validator);
      assert polls == front + [p];
      if EarnsOne(p, validator) {
        assert IsNamer(polls, validator, |polls| - 1);
      } else if Namer(front, validator).Some? {
        var i: nat :| IsNamer(front, validator, i) && front[i] == Namer(front, validator).value;
        assert IsNamer(polls, validator, i);
      }
    }
  }

  lemma OneMoreRecorded(events: seq<Event>, validator: Validator)
    requires events != []
    ensures var front, e := Recorded(events[..|events| - 1]), events[|events| - 1];
      LastEarned(Recorded(events), validator) ==
        if e.Record? && Earns(e.p) then Coalesce(validator(e.p.response), LastEarned(front, validator))
        else LastEarned(front, validator)
  {
    hide Earns;
    var front, e := Recorded(events[..|events| - 1]), events[|events| - 1];
    if e.Record? {
      assert Recorded(events) == front + [e.p];
      assert (front + [e.p])[..|front|] == front;
    } else {
      assert front + [] == front;
    }
  }

  /** In every interleaving of polls of a feed, a stored validator is that of the
      last response, in the order they were recorded, that had one and all of whose
      bodies were sanitized. So no 304 it earns can stand in for a response with a
      body that was given up on. */
  lemma {:induction false} ValidatorsAreEarned(events: seq<Event>, st: State)
    ensures Reached(events, st) ==>
      && st.row.etag == LastEarned(Recorded(events), EtagOf)
      && st.row.lastModified == LastEarned(Recorded(events), LastModifiedOf)
  {
    hide AfterRecord, AfterInsert, Earns, LastEarned, Recorded, EtagOf, LastModifiedOf;
    if Reached(events, st) {
      if events == [] {
        NothingEarned();
      } else {
        var front, e := events[..|events| - 1], events[|events| - 1];
        var before :| Reached(front, before) && Enabled(before, e) && st == Apply(before, e);
        ValidatorsAreEarned(front, before);
        OneMoreRecorded(events, EtagOf);
        OneMoreRecorded(events, LastModifiedOf);
        if e.Record? || e.Insert? {
          OnePollsValidators(before.row, e.p);
        }
      }
    }
  }

  lemma NothingEarned()
    ensures LastEarned(Recorded([]), EtagOf) == None && LastEarned(Recorded([]), LastModifiedOf) == None
  {
  }

  // ---- bodies -----------------------------------------------------------------

  /** A body that was given up on never replaces a stored one, whichever poll's
      step it is and whatever ran before it. */
  lemma StepNeverReplaces(st: State, e: Event, guid: string)
    requires Enabled(st, e)
    ensures guid in st.row.bodies && guid in Apply(st, e).row.bodies ==>
      var now := Apply(st, e).row.bodies[guid];
      now == st.row.bodies[guid] || (e.Insert? && exists i :: GivesBody(e.p, i, guid, now))
  {
    hide AfterRecord, AfterInsert, GivesBody;
    if e.Record? || e.Insert? {
      GivenUpNeverReplaces(st.row, e.p, guid);
    }
  }

  /** The body stored under a guid, if an entry is and has one. */
  function Stored(bodies: map<string, Option<string>>, guid: string): Option<string> {
    if guid in bodies then bodies[guid] else None
  }

  /** What some entries give a guid: the content of the last of them that has it
      and does not keep what is stored. */
  function Given(entries: seq<NewEntry>, guid: string): Option<Option<string>> {
    if entries == [] then None
    else
      var e := entries[|entries| - 1];
      if e.guid == guid && !e.keepStored then Some(e.content) else Given(entries[..|entries| - 1], guid)
  }

  function Gives(p: Poll, guid: string): Option<Option<string>> {
    if Inserts(p) then Given(EntriesOf(p), guid) else None
  }

  lemma {:induction false} StoredAfterEntries(bodies: map<string, Option<string>>, entries: seq<NewEntry>, guid: string)
    requires forall e | e in entries :: e.keepStored ==> e.content == None
    ensures Stored(WithEntries(bodies, entries), guid)
         == match Given(entries, guid) case Some(content) => content case None => Stored(bodies, guid)
  {
    if entries != [] {
      var front, e := entries[..|entries| - 1], entries[|entries| - 1];
      assert e in entries && forall x | x in front :: x in entries;
      StoredAfterEntries(bodies, front, guid);
    }
  }

  /** Whether a step decides what is stored under a guid, and what that then is. */
  predicate Touches(e: Event, guid: string) {
    match e
    case Insert(_, p) => Inserts(p) && !p.insertFails && (guid in p.trimmed || Gives(p, guid).Some?)
    case Sweep(guids) => guid in guids
    case _ => false
  }

  function Leaves(e: Event, guid: string): Option<string>
    requires Touches(e, guid)
  {
    match e
    case Insert(_, p) => if guid in p.trimmed then None else Gives(p, guid).value
    case Sweep(_) => None
  }

  lemma OneStepsBody(st: State, e: Event, guid: string)
    ensures Stored(Apply(st, e).row.bodies, guid)
         == if Touches(e, guid) then Leaves(e, guid) else Stored(st.row.bodies, guid)
  {
    if e.Insert? && Inserts(e.p) && !e.p.insertFails {
      var entries := EntriesOf(e.p);
      forall x | x in entries ensures x.keepStored ==> x.content == None {
        var i :| 0 <= i < |entries| && entries[i] == x;
        GivenByEntry(e.p, i);
      }
      hide EntriesOf, Given;
      StoredAfterEntries(st.row.bodies, entries, guid);
      hide WithEntries;
    }
  }

  /** The last step of a run that decided what is stored under a guid. */
  function LastTouch(events: seq<Event>, guid: string): (r: Option<Event>)
    ensures r.Some? ==> Touches(r.value, guid)
  {
    if events == [] then None
    else if Touches(events[|events| - 1], guid) then Some(events[|events| - 1])
    else LastTouch(events[..|events| - 1], guid)
  }

  /** The body a run leaves under a guid, read off its steps. */
  function LeftBy(events: seq<Event>, guid: string): Option<string> {
    match LastTouch(events, guid)
    case Some(e) => Leaves(e, guid)
    case None => None
  }

  /** In every interleaving, what is stored under a guid is what the last step
      that touched it left. */
  lemma {:induction false} StoredIsLastGiven(events: seq<Event>, st: State, guid: string)
    ensures Reached(events, st) ==> Stored(st.row.bodies, guid) == LeftBy(events, guid)
  {
    hide Apply, Touches, Leaves;
    if Reached(events, st) && events != [] {
      var front, e := events[..|events| - 1], events[|events| - 1];
      var before :| Reached(front, before) && Enabled(before, e) && st == Apply(before, e);
      StoredIsLastGiven(front, before, guid);
      OneStepsBody(before, e, guid);
    }
  }

  /** What a poll gives a guid is what one of its entries gives it. */
  lemma GivesIsGiven(p: Poll, guid: string)
    ensures Gives(p, guid).Some? ==> exists i :: GivesBody(p, i, guid, Gives(p, guid).value)
  {
    if Gives(p, guid).Some? {
      var i := LastGiver(EntriesOf(p), guid);
      GivenByEntry(p, i);
      assert GivesBody(p, i, guid, Gives(p, guid).value);
    }
  }

  lemma {:induction false} LastGiver(entries: seq<NewEntry>, guid: string) returns (i: nat)
    requires Given(entries, guid).Some?
    ensures i < |entries| && entries[i].guid == guid && !entries[i].keepStored && entries[i].content == Given(entries, guid).value
  {
    i := |entries| - 1;
    if !(entries[i].guid == guid && !entries[i].keepStored) {
      i := LastGiver(entries[..|entries| - 1], guid);
    }
  }

  /** Every stored body was sanitized, in a poll of the run that inserted it. */
  lemma EveryBodyWasSanitized(events: seq<Event>, st: State, guid: string)
    ensures Reached(events, st) && Stored(st.row.bodies, guid).Some? ==>
      exists e, i :: e in events && e.Insert? && GivesBody(e.p, i, guid, Stored(st.row.bodies, guid))
  {
    hide Reached;
    if Reached(events, st) && Stored(st.row.bodies, guid).Some? {
      StoredIsLastGiven(events, st, guid);
      LastTouchIsIn(events, guid);
      var e := LastTouch(events, guid).value;
      GivesIsGiven(e.p, guid);
      hide GivesBody, Gives;
      var i :| GivesBody(e.p, i, guid, Gives(e.p, guid).value);
      assert e in events && e.Insert? && GivesBody(e.p, i, guid, Stored(st.row.bodies, guid));
    }
  }

  lemma {:induction false} LastTouchIsIn(events: seq<Event>, guid: string)
    ensures LastTouch(events, guid).Some? ==> LastTouch(events, guid).value in events
  {
    if events != [] {
      LastTouchIsIn(events[..|events| - 1], guid);
      assert events[|events| - 1] in events;
    }
  }

  // ---- validators and bodies together -----------------------------------------

  /** A step that stores this body under a guid and does not trim it away. */
  predicate GaveBody(e: Event, guid: string, body: string) {
    && e.Insert? && Inserts(e.p) && !e.p.insertFails && guid !in e.p.trimmed
    && Gives(e.p, guid) == Some(Some(body))
  }

  /** The k-th step stored this body, and no later one touched the guid. */
  predicate GivenLastAt(events: seq<Event>, guid: string, body: string, k: nat) {
    && k < |events| && GaveBody(events[k], guid, body)
    && forall j | k < j < |events| :: !Touches(events[j], guid)
  }

  lemma {:induction false} LeftByPlace(events: seq<Event>, guid: string, body: string)
    ensures LeftBy(events, guid) == Some(body) <==> exists k: nat :: GivenLastAt(events, guid, body, k)
  {
    hide Gives;
    if events != [] {
      var n := |events| - 1;
      var front, e := events[..n], events[n];
      if Touches(e, guid) {
        assert GaveBody(e, guid, body) ==> GivenLastAt(events, guid, body, n);
      } else {
        LeftByPlace(front, guid, body);
        assert forall k: nat | k < n :: GivenLastAt(front, guid, body, k) ==> GivenLastAt(events, guid, body, k);
        assert forall k: nat :: GivenLastAt(events, guid, body, k) ==> k < n && GivenLastAt(front, guid, body, k);
      }
    }
  }

  /** In every interleaving, a body is stored under a guid if and only if some step
      stored it there and none since has touched that guid. */
  lemma StoredExactlyWhen(events: seq<Event>, st: State, guid: string, body: string)
    ensures Reached(events, st) ==>
      (Stored(st.row.bodies, guid) == Some(body) <==> exists k: nat :: GivenLastAt(events, guid, body, k))
  {
    hide Reached, Stored, LeftBy, GivenLastAt;
    if Reached(events, st) {
      StoredIsLastGiven(events, st, guid);
      LeftByPlace(events, guid, body);
    }
  }

  /** What is stored is what a poll gives: its bodies, and none for the entries that
      came without. */
  ghost predicate Holds(bodies: map<string, Option<string>>, p: Poll) {
    forall guid | Gives(p, guid).Some? :: Stored(bodies, guid) == Gives(p, guid).value
  }

  /** A body was stored by a step that none touched the guid after; or, where there
      should be none, no body was. */
  ghost predicate LastWordIs(events: seq<Event>, guid: string, content: Option<string>) {
    match content
    case Some(body) => exists k: nat :: GivenLastAt(events, guid, body, k)
    case None => forall body, k: nat :: !GivenLastAt(events, guid, body, k)
  }

  lemma StoredIsLastWord(events: seq<Event>, st: State, guid: string, content: Option<string>)
    requires Reached(events, st)
    ensures Stored(st.row.bodies, guid) == content <==> LastWordIs(events, guid, content)
  {
    hide Reached, Stored, GivenLastAt;
    var stored := Stored(st.row.bodies, guid);
    if content.Some? {
      StoredExactlyWhen(events, st, guid, content.value);
    } else if stored.Some? {
      StoredExactlyWhen(events, st, guid, stored.value);
    } else {
      forall body: string, k: nat ensures !GivenLastAt(events, guid, body, k) {
        StoredExactlyWhen(events, st, guid, body);
      }
    }
  }

  /** Of each guid that a poll gives something, what it gives is the last word: its
      own insert's, or that of another step which agrees. */
  ghost predicate HasTheLastWord(events: seq<Event>, p: Poll) {
    forall guid | Gives(p, guid).Some? :: LastWordIs(events, guid, Gives(p, guid).value)
  }

  lemma HoldsExactlyWhen(events: seq<Event>, st: State, p: Poll)
    requires Reached(events, st)
    ensures Holds(st.row.bodies, p) <==> HasTheLastWord(events, p)
  {
    hide Reached, Stored, Gives, LastWordIs;
    forall guid | Gives(p, guid).Some?
      ensures Stored(st.row.bodies, guid) == Gives(p, guid).value <==> LastWordIs(events, guid, Gives(p, guid).value)
    {
      StoredIsLastWord(events, st, guid, Gives(p, guid).value);
    }
  }

  /** Exactly when the stored bodies are those of the response a stored validator
      names: when the poll it came with has the last word on each of them. */
  ghost predicate NamesItsBodies(events: seq<Event>, row: Row, stored: Option<string>, validator: Validator) {
    var namer := Namer(Recorded(events), validator);
    && (stored.Some? <==> namer.Some?)
    && (namer.Some? ==>
          && stored == validator(namer.value.response)
          && (Holds(row.bodies, namer.value) <==> HasTheLastWord(events, namer.value)))
  }

  lemma NamedBodiesAreStored(events: seq<Event>, st: State)
    ensures Reached(events, st) ==>
      && NamesItsBodies(events, st.row, st.row.etag, EtagOf)
      && NamesItsBodies(events, st.row, st.row.lastModified, LastModifiedOf)
  {
    hide Reached, Recorded, Holds, HasTheLastWord, EtagOf, LastModifiedOf;
    if Reached(events, st) {
      ValidatorsAreEarned(events, st);
      EarnedByAPoll(Recorded(events), EtagOf);
      EarnedByAPoll(Recorded(events), LastModifiedOf);
      forall p: Poll ensures Holds(st.row.bodies, p) <==> HasTheLastWord(events, p) {
        HoldsExactlyWhen(events, st, p);
      }
    }
  }

  /** Which it has if its insert went through and trimmed none of them, and no step
      since touched one. */
  lemma LastInsertHasTheLastWord(before: seq<Event>, id: nat, p: Poll, since: seq<Event>)
    requires Inserts(p) && !p.insertFails
    requires forall guid | Gives(p, guid).Some? :: guid !in p.trimmed
    requires forall e, guid | e in since && Gives(p, guid).Some? :: !Touches(e, guid)
    ensures HasTheLastWord(before + [Insert(id, p)] + since, p)
  {
    hide Gives;
    var events, n := before + [Insert(id, p)] + since, |before|;
    assert events[n] == Insert(id, p);
    assert forall j | n < j < |events| :: events[j] == since[j - n - 1] && since[j - n - 1] in since;
    forall guid | Gives(p, guid).Some?
      ensures LastWordIs(events, guid, Gives(p, guid).value)
    {
      assert Touches(events[n], guid);
      match Gives(p, guid).value
      case Some(body) => assert GivenLastAt(events, guid, body, n);
      case None =>
        forall body: string, k: nat ensures !GivenLastAt(events, guid, body, k) {
          assert n < k < |events| ==> !Touches(events[k], guid);
        }
    }
  }

  /** And what an earned poll gives is the sanitized body of every entry of its
      response that is the last of its guid. */
  lemma {:induction false} EarnedGives(p: Poll, i: nat)
    requires Earns(p) && i < |p.response.entries|
    requires forall j | i < j < |p.response.entries| :: p.response.entries[j].guid != p.response.entries[i].guid
    ensures Inserts(p)
    ensures var e := p.response.entries[i];
      Gives(p, e.guid) == Some(if e.body.Some? && p.sanitize(i).Html? then Some(p.sanitize(i).html) else None)
    ensures p.response.entries[i].body.Some? ==> p.sanitize(i).Html?
  {
    var raw := p.response.entries;
    assert FirstTrouble(raw, p.sanitize, 0) == |raw|;
    assert Sanitized(raw, p.sanitize, i);
    var entries := EntriesOf(p);
    assert entries[i] == EntryAt(raw, p.sanitize, |raw|, i);
    assert forall j | 0 <= j < |entries| :: entries[j].guid == raw[j].guid;
    GivenLast(entries, i);
  }

  lemma {:induction false} GivenLast(entries: seq<NewEntry>, i: nat)
    requires i < |entries| && !entries[i].keepStored
    requires forall j | i < j < |entries| :: entries[j].guid != entries[i].guid
    ensures Given(entries, entries[i].guid) == Some(entries[i].content)
  {
    if i < |entries| - 1 {
      GivenLast(entries[..|entries| - 1], i);
    }
  }

  // ---- polls one after another ------------------------------------------------

  function StepsOf(p: Poll): seq<Event> {
    if Inserts(p) then [Record(0, p)] + [Insert(0, p)] else [Record(0, p)]
  }

  /** A poll that nothing comes between is a special case. */
  lemma PollInTurn(events: seq<Event>, row: Row, p: Poll)
    requires Reached(events, State(row, map[]))
    ensures Reached(events + StepsOf(p), State(After(row, p), map[]))
  {
    hide Reached, AfterRecord, AfterInsert;
    var start := State(row, map[]);
    var recorded := Apply(start, Record(0, p));
    OneMoreEvent(events, start, Record(0, p));
    if Inserts(p) {
      OneMoreEvent(events + [Record(0, p)], recorded, Insert(0, p));
      assert events + [Record(0, p)] + [Insert(0, p)] == events + StepsOf(p);
      assert recorded.between - {0} == start.between;
    } else {
      NothingToInsert(recorded.row, p);
    }
  }

  lemma NothingToInsert(row: Row, p: Poll)
    ensures !Inserts(p) ==> AfterInsert(row, p) == row
  {
  }

  // ---- validators over other bodies -------------------------------------------

  /** A poll of a feed with one entry, whose body is sanitized into `html`. */
  function OneEntry(etag: Option<string>, html: string): Poll {
    Poll(Feed(etag, None, [RawEntry("g", Some("raw"))]), i => Html(html), false, false, {})
  }

  lemma OneEntryGives(row: Row, etag: Option<string>, html: string)
    ensures var p := OneEntry(etag, html);
      && Earns(p) && Inserts(p) && EtagOf(p.response) == etag && Gives(p, "g") == Some(Some(html))
      && AfterRecord(row, p) == row.(etag := Coalesce(etag, row.etag))
      && AfterInsert(row, p) == row.(bodies := row.bodies["g" := Some(html)])
  {
    var p := OneEntry(etag, html);
    var raw := p.response.entries;
    assert FirstTrouble(raw, p.sanitize, 0) == 1;
    assert EntriesOf(p) == [NewEntry("g", Some(html), false)];
    assert EntriesOf(p)[..0] == [];
    assert WithEntries(row.bodies, EntriesOf(p)) == row.bodies["g" := Some(html)];
    assert Given(EntriesOf(p), "g") == Some(Some(html));
  }

  /** Two steps in a row, from a state that a run reaches. */
  lemma TwoMoreEvents(events: seq<Event>, st: State, e: Event, f: Event)
    requires Reached(events, st) && Enabled(st, e) && Enabled(Apply(st, e), f)
    ensures Reached(events + [e, f], Apply(Apply(st, e), f))
  {
    hide Reached, Enabled, Apply;
    OneMoreEvent(events, st, e);
    OneMoreEvent(events + [e], Apply(st, e), f);
    assert events + [e] + [f] == events + [e, f];
  }

  lemma NothingHappened()
    ensures Reached([], START)
  {
  }

  lemma Overlap(a: Poll, b: Poll, s1: State, s2: State, s3: State, s4: State)
    requires Apply(START, Record(0, a)) == s1 && Apply(s1, Record(1, b)) == s2
    requires Apply(s2, Insert(1, b)) == s3 && Apply(s3, Insert(0, a)) == s4
    requires s1.between == map[0 := a] && s2.between == map[0 := a, 1 := b] && s3.between == map[0 := a]
    ensures Reached([Record(0, a), Record(1, b), Insert(1, b), Insert(0, a)], s4)
  {
    hide Reached, Apply;
    NothingHappened();
    TwoMoreEvents([], START, Record(0, a), Record(1, b));
    assert [] + [Record(0, a), Record(1, b)] == [Record(0, a), Record(1, b)];
    TwoMoreEvents([Record(0, a), Record(1, b)], s2, Insert(1, b), Insert(0, a));
    var events := [Record(0, a), Record(1, b), Insert(1, b), Insert(0, a)];
    assert [Record(0, a), Record(1, b)] + [Insert(1, b), Insert(0, a)] == events;
  }

  /** Two polls that overlap, each without fault: the second records later and
      inserts first. Its validator stays, over the first one's body. */
  lemma OverlapMixesUp() returns (a: Poll, b: Poll, st: State)
    ensures Earns(a) && Earns(b) && !a.insertFails && !b.insertFails
    ensures Reached([Record(0, a), Record(1, b), Insert(1, b), Insert(0, a)], st)
    ensures Namer(Recorded([Record(0, a), Record(1, b), Insert(1, b), Insert(0, a)]), EtagOf) == Some(b)
    ensures st.row.etag == Some("v2") && Gives(b, "g") == Some(Some("two")) && Stored(st.row.bodies, "g") == Some("one")
  {
    a, b := OneEntry(Some("v1"), "one"), OneEntry(Some("v2"), "two");
    var s1 := State(NEW_FEED.(etag := Some("v1")), map[0 := a]);
    var s2 := State(NEW_FEED.(etag := Some("v2")), map[0 := a, 1 := b]);
    var s3 := State(s2.row.(bodies := map["g" := Some("two")]), map[0 := a]);
    st := State(s2.row.(bodies := map["g" := Some("one")]), map[]);
    OneEntryGives(NEW_FEED, Some("v1"), "one");
    OneEntryGives(s1.row, Some("v2"), "two");
    OneEntryGives(s2.row, Some("v2"), "two");
    OneEntryGives(s3.row, Some("v1"), "one");
    hide Reached, OneEntry, AfterRecord, AfterInsert, Earns, Inserts, Gives, EtagOf, Enabled, Namer, Recorded;
    assert Apply(START, Record(0, a)) == s1 && Apply(s1, Record(1, b)) == s2;
    assert Apply(s2, Insert(1, b)) == s3 && Apply(s3, Insert(0, a)) == st;
    Overlap(a, b, s1, s2, s3, st);
    RecordedTwo(a, b);
  }

  lemma RecordedTwo(a: Poll, b: Poll)
    requires Earns(b) && EtagOf(b.response).Some?
    ensures Namer(Recorded([Record(0, a), Record(1, b), Insert(1, b), Insert(0, a)]), EtagOf) == Some(b)
  {
    var events := [Record(0, a), Record(1, b), Insert(1, b), Insert(0, a)];
    assert Recorded(events[..0]) == [];
    assert events[..1][..0] == events[..0] && Recorded(events[..1]) == [a];
    assert events[..2][..1] == events[..1] && Recorded(events[..2]) == [a] + [b];
    assert events[..3][..2] == events[..2] && Recorded(events[..3]) == [a] + [b];
    assert events[..4] == events && events[..3] == events[..|events| - 1];
    assert Recorded(events) == [a] + [b];
  }

  /** A response without a validator keeps the one before it, over its own body. */
  lemma BareResponseKeepsValidator() returns (a: Poll, b: Poll, st: State)
    ensures Earns(a) && Earns(b)
    ensures Reached([Record(0, a), Insert(0, a), Record(0, b), Insert(0, b)], st)
    ensures st.row.etag == EtagOf(a.response) == Some("v1")
    ensures Gives(a, "g") == Some(Some("one")) && Stored(st.row.bodies, "g") == Some("two")
  {
    a, b := OneEntry(Some("v1"), "one"), OneEntry(None, "two");
    var r1 := NEW_FEED.(etag := Some("v1"));
    var r2 := r1.(bodies := map["g" := Some("one")]);
    OneEntryGives(NEW_FEED, Some("v1"), "one");
    OneEntryGives(r1, Some("v1"), "one");
    OneEntryGives(r2, None, "two");
    st := State(r1.(bodies := map["g" := Some("two")]), map[]);
    hide Reached, OneEntry, AfterRecord, AfterInsert, Earns, Inserts, Gives, EtagOf;
    NothingHappened();
    assert AfterRecord(NEW_FEED, a) == r1 && After(NEW_FEED, a) == r2;
    assert AfterRecord(r2, b) == r2 && After(r2, b) == st.row;
    PollInTurn([], NEW_FEED, a);
    assert [] + StepsOf(a) == [Record(0, a), Insert(0, a)];
    PollInTurn([Record(0, a), Insert(0, a)], r2, b);
    assert [Record(0, a), Insert(0, a)] + StepsOf(b) == [Record(0, a), Insert(0, a), Record(0, b), Insert(0, b)];
  }

  /** A poll dropped between its store calls leaves a validator over no body. */
  lemma DroppedPollLeavesValidator() returns (a: Poll, st: State)
    ensures Earns(a) && Gives(a, "g") == Some(Some("one"))
    ensures Reached([Record(0, a), Drop(0)], st) && st.row == NEW_FEED.(etag := Some("v1"))
  {
    a := OneEntry(Some("v1"), "one");
    OneEntryGives(NEW_FEED, Some("v1"), "one");
    hide Reached, OneEntry, AfterRecord, AfterInsert, Earns, Inserts, Gives, EtagOf;
    NothingHappened();
    st := State(NEW_FEED.(etag := Some("v1")), map[]);
    assert Apply(START, Record(0, a)) == State(st.row, map[0 := a]);
    TwoMoreEvents([], START, Record(0, a), Drop(0));
    assert [] + [Record(0, a), Drop(0)] == [Record(0, a), Drop(0)];
  }
}
