/** What a poll stores: entries with the bodies that could be sanitized, and the
    validators the next poll will ask with. */
module FeedPoll {
  import opened Wrappers
  import opened InFlight

  // ---- normalizing ------------------------------------------------------------

  datatype RawEntry = RawEntry(guid: string, body: Option<string>)

  datatype NewEntry = NewEntry(guid: string, content: Option<string>, keepStored: bool)

  /** What came of one attempt to sanitize a body. */
  datatype Attempt = Html(html: string) | Without(why: GaveUp) | Panicked

  /** What would come of sanitizing the body of the i-th entry. */
  type Sanitizing = nat -> Attempt

  datatype Normalized = Entries(entries: seq<NewEntry>, timedOut: bool) | Deferred | Panic

  predicate Sanitized(raw: seq<RawEntry>, sanitize: Sanitizing, i: nat)
    requires i < |raw|
  {
    raw[i].body.None? || sanitize(i).Html?
  }

  /** The first entry, from the i-th, whose body is not sanitized; none if all are. */
  function FirstTrouble(raw: seq<RawEntry>, sanitize: Sanitizing, i: nat): (k: nat)
    requires i <= |raw|
    ensures i <= k <= |raw|
    ensures forall j | i <= j < k :: Sanitized(raw, sanitize, j)
    ensures k < |raw| ==> !Sanitized(raw, sanitize, k)
    decreases |raw| - i
  {
    if i == |raw| || !Sanitized(raw, sanitize, i) then i else FirstTrouble(raw, sanitize, i + 1)
  }

  /** An entry as it is stored when the first trouble is at k: with its body
      before that, and from there on without, leaving any stored body alone. */
  function EntryAt(raw: seq<RawEntry>, sanitize: Sanitizing, k: nat, i: nat): NewEntry
    requires i < |raw|
    requires i < k ==> Sanitized(raw, sanitize, i)
  {
    if raw[i].body.None? then NewEntry(raw[i].guid, None, false)
    else if i < k then NewEntry(raw[i].guid, Some(sanitize(i).html), false)
    else NewEntry(raw[i].guid, None, true)
  }

  /** Whether an attempt without a body is held against the feed. */
  predicate FeedsFault(why: GaveUp) {
    why == TimedOut || why == StillRunning
  }

  function NormalizedAs(raw: seq<RawEntry>, sanitize: Sanitizing): Normalized {
    var k := FirstTrouble(raw, sanitize, 0);
    if k < |raw| && sanitize(k).Panicked? then Panic
    else if k < |raw| && !FeedsFault(sanitize(k).why) then Deferred
    else Entries(seq(|raw|, i requires 0 <= i < |raw| => EntryAt(raw, sanitize, k, i)), k < |raw|)
  }

  /** The entries of a poll, each body sanitized in turn until the first that is
      not. `tried` are the entries whose bodies were handed to the sanitizer. */
  method NormalizeEntries(raw: seq<RawEntry>, sanitize: Sanitizing) returns (r: Normalized, tried: seq<nat>)
    ensures r == NormalizedAs(raw, sanitize)
    ensures forall i: nat :: i in tried <==>
      i < |raw| && raw[i].body.Some? && i <= FirstTrouble(raw, sanitize, 0)
    ensures forall i, j | 0 <= i < j < |tried| :: tried[i] < tried[j]
  {
    var timedOut := false;
    var out: seq<NewEntry> := [];
    tried := [];
    ghost var k := FirstTrouble(raw, sanitize, 0);
    for i := 0 to |raw|
      invariant |out| == i && forall j | 0 <= j < i :: out[j] == EntryAt(raw, sanitize, k, j)
      invariant timedOut <==> k < i
      invariant timedOut ==> sanitize(k).Without? && FeedsFault(sanitize(k).why)
      invariant forall j: nat :: j in tried <==> j < i && raw[j].body.Some? && j <= k
      invariant forall a, b | 0 <= a < b < |tried| :: tried[a] < tried[b]
    {
      var entry := NewEntry(raw[i].guid, None, false);
      if raw[i].body.Some? {
        if timedOut {
          entry := entry.(keepStored := true);
        } else {
          assert forall a | 0 <= a < |tried| :: tried[a] in tried;
          tried := tried + [i];
          assert !Sanitized(raw, sanitize, i) ==> k == i;
          match sanitize(i)
          case Html(html) => entry := entry.(content := Some(html));
          case Without(why) =>
            if !FeedsFault(why) {
              return Deferred, tried;
            }
            timedOut := true;
            entry := entry.(keepStored := true);
          case Panicked => return Panic, tried;
        }
      }
      out := out + [entry];
    }
    r := Entries(out, timedOut);
  }

  // ---- storing ----------------------------------------------------------------

  /** A feed's row and the bodies of its stored entries. */
  datatype Row = Row(etag: Option<string>, lastModified: Option<string>, bodies: map<string, Option<string>>)

  const NEW_FEED := Row(None, None, map[])

  /** A missing value keeps the stored one. */
  function Coalesce<T>(given: Option<T>, stored: Option<T>): Option<T> {
    if given.Some? then given else stored
  }

  function WithEntry(bodies: map<string, Option<string>>, e: NewEntry): map<string, Option<string>> {
    if e.keepStored && e.guid in bodies then bodies else bodies[e.guid := e.content]
  }

  function WithEntries(bodies: map<string, Option<string>>, entries: seq<NewEntry>): map<string, Option<string>> {
    if entries == [] then bodies
    else WithEntry(WithEntries(bodies, entries[..|entries| - 1]), entries[|entries| - 1])
  }

  class FeedStore {
    var row: Row

    constructor ()
      ensures row == NEW_FEED
    {
      row := NEW_FEED;
    }

    method RecordPoll(etag: Option<string>, lastModified: Option<string>, fails: bool) returns (ok: bool)
      modifies this
      ensures ok == !fails
      ensures row == if fails then old(row) else
        old(row).(etag := Coalesce(etag, old(row).etag), lastModified := Coalesce(lastModified, old(row).lastModified))
    {
      if fails {
        return false;
      }
      row := row.(etag := Coalesce(etag, row.etag), lastModified := Coalesce(lastModified, row.lastModified));
      ok := true;
    }

    /** One transaction: every entry upserted by its guid, then the rows over the
        feed's cap deleted, whichever those are. */
    method InsertEntries(entries: seq<NewEntry>, trimmed: set<string>, fails: bool) returns (ok: bool)
      modifies this
      ensures ok == !fails
      ensures row == if fails then old(row) else old(row).(bodies := WithEntries(old(row).bodies, entries) - trimmed)
    {
      var bodies := row.bodies;
      for i := 0 to |entries|
        invariant bodies == WithEntries(row.bodies, entries[..i]) && row == old(row)
      {
        bodies := WithEntry(bodies, entries[i]);
        assert entries[..i + 1][..i] == entries[..i];
      }
      assert entries[..|entries|] == entries;
      if fails {
        return false;
      }
      row := row.(bodies := bodies - trimmed);
      ok := true;
    }
  }

  // ---- one poll ---------------------------------------------------------------

  /** What a fetch answered: nothing new, nothing usable, or a parsed feed. */
  datatype Response =
    | NotModified
    | Unusable
    | Feed(etag: Option<string>, lastModified: Option<string>, entries: seq<RawEntry>)

  datatype Outcome = Unchanged | FailedFetch | FailedBody | PollDeferred | Updated | StoreError | Crashed

  /** Everything about one poll that the feed's row does not decide. */
  datatype Poll = Poll(
    response: Response,
    sanitize: Sanitizing,
    recordFails: bool,
    insertFails: bool,
    trimmed: set<string>)

  /** A poll that gets to its second store call. */
  predicate Inserts(p: Poll) {
    p.response.Feed? && NormalizedAs(p.response.entries, p.sanitize).Entries? && !p.recordFails
  }

  function EntriesOf(p: Poll): seq<NewEntry>
    requires Inserts(p)
  {
    NormalizedAs(p.response.entries, p.sanitize).entries
  }

  /** The row after the first store call of a poll, and after the second. */
  function AfterRecord(row: Row, p: Poll): Row {
    if !Inserts(p) || NormalizedAs(p.response.entries, p.sanitize).timedOut then row
    else row.(etag := Coalesce(p.response.etag, row.etag), lastModified := Coalesce(p.response.lastModified, row.lastModified))
  }

  function AfterInsert(row: Row, p: Poll): Row {
    if !Inserts(p) || p.insertFails then row
    else row.(bodies := WithEntries(row.bodies, EntriesOf(p)) - p.trimmed)
  }

  /** What a poll comes to, whatever the row. */
  function OutcomeOf(p: Poll): Outcome {
    match p.response
    case NotModified => if p.recordFails then StoreError else Unchanged
    case Unusable => FailedFetch
    case Feed(_, _, raw) =>
      match NormalizedAs(raw, p.sanitize)
      case Panic => Crashed
      case Deferred => PollDeferred
      case Entries(_, timedOut) =>
        if p.recordFails || p.insertFails then StoreError else if timedOut then FailedBody else Updated
  }

  /** The row after a poll that nothing comes between. */
  function After(row: Row, p: Poll): Row {
    AfterInsert(AfterRecord(row, p), p)
  }

  /** A poll up to and including its first store call: what it has to insert, or
      what it came to. */
  method RecordStage(store: FeedStore, p: Poll) returns (r: Result<Normalized, Outcome>)
    modifies store
    ensures store.row == AfterRecord(old(store.row), p)
    ensures r == if Inserts(p) then Ok(NormalizedAs(p.response.entries, p.sanitize)) else Err(OutcomeOf(p))
  {
    if p.response.NotModified? {
      var touched := store.RecordPoll(None, None, p.recordFails);
      return Err(if touched then Unchanged else StoreError);
    }
    if p.response.Unusable? {
      return Err(FailedFetch);
    }
    var normalized, tried := NormalizeEntries(p.response.entries, p.sanitize);
    if normalized.Panic? {
      return Err(Crashed);
    }
    if normalized.Deferred? {
      return Err(PollDeferred);
    }
    var etag, lastModified := p.response.etag, p.response.lastModified;
    if normalized.timedOut {
      etag, lastModified := None, None;
    }
    var recorded := store.RecordPoll(etag, lastModified, p.recordFails);
    if !recorded {
      return Err(StoreError);
    }
    return Ok(normalized);
  }

  /** Its second store call, before which other polls of the feed can run. */
  method InsertStage(store: FeedStore, normalized: Normalized, p: Poll) returns (outcome: Outcome)
    requires Inserts(p) && normalized == NormalizedAs(p.response.entries, p.sanitize)
    modifies store
    ensures store.row == AfterInsert(old(store.row), p) && outcome == OutcomeOf(p)
  {
    var inserted := store.InsertEntries(normalized.entries, p.trimmed, p.insertFails);
    if !inserted {
      return StoreError;
    }
    return if normalized.timedOut then FailedBody else Updated;
  }

  method PollFeedWith(store: FeedStore, p: Poll) returns (outcome: Outcome)
    modifies store
    ensures store.row == After(old(store.row), p) && outcome == OutcomeOf(p)
    ensures outcome in {Unchanged, FailedFetch, PollDeferred, Crashed} ==> store.row == old(store.row)
  {
    var stage := RecordStage(store, p);
    if stage.Err? {
      return stage.error;
    }
    outcome := InsertStage(store, stage.value, p);
  }

  // ---- validators -------------------------------------------------------------

  /** A poll that got a whole feed, sanitized every body in it, and recorded it. */
  predicate Earns(p: Poll) {
    && p.response.Feed? && !p.recordFails
    && forall i | 0 <= i < |p.response.entries| :: Sanitized(p.response.entries, p.sanitize, i)
  }

  function EtagOf(r: Response): Option<string> {
    if r.Feed? then r.etag else None
  }

  function LastModifiedOf(r: Response): Option<string> {
    if r.Feed? then r.lastModified else None
  }

  /** The first store call leaves the validators of a poll's own response exactly
      when every body of it was sanitized, and the second leaves them alone. */
  lemma OnePollsValidators(row: Row, p: Poll)
    ensures AfterRecord(row, p).etag == Coalesce(if Earns(p) then EtagOf(p.response) else None, row.etag)
    ensures AfterRecord(row, p).lastModified == Coalesce(if Earns(p) then LastModifiedOf(p.response) else None, row.lastModified)
    ensures AfterInsert(row, p).etag == row.etag && AfterInsert(row, p).lastModified == row.lastModified
  {
    if p.response.Feed? {
      var k := FirstTrouble(p.response.entries, p.sanitize, 0);
      assert k == |p.response.entries| <==>
        forall i | 0 <= i < |p.response.entries| :: Sanitized(p.response.entries, p.sanitize, i);
    }
  }

  // ---- bodies -----------------------------------------------------------------

  /** What entries leave of one guid: the stored body, or the content of one of
      them that does not keep what is stored. */
  lemma {:induction false} BodyAfterEntries(bodies: map<string, Option<string>>, entries: seq<NewEntry>, guid: string)
    ensures guid in bodies ==>
      && guid in WithEntries(bodies, entries)
      && (WithEntries(bodies, entries)[guid] == bodies[guid]
          || exists i | 0 <= i < |entries| ::
               entries[i].guid == guid && !entries[i].keepStored && entries[i].content == WithEntries(bodies, entries)[guid])
  {
    if entries != [] && guid in bodies {
      var front, e := entries[..|entries| - 1], entries[|entries| - 1];
      BodyAfterEntries(bodies, front, guid);
      var before := WithEntries(bodies, front);
      if e.guid == guid && !e.keepStored {
        assert entries[|entries| - 1].content == WithEntries(bodies, entries)[guid];
      } else if before[guid] != bodies[guid] {
        var i :| 0 <= i < |front| && front[i].guid == guid && !front[i].keepStored && front[i].content == before[guid];
        assert entries[i] == front[i];
      }
    }
  }

  /** The i-th entry of a poll's feed gives this guid this body: one sanitized in
      the poll, or none because the entry came without. */
  predicate GivesBody(p: Poll, i: nat, guid: string, body: Option<string>) {
    && p.response.Feed? && i < |p.response.entries|
    && var e := p.response.entries[i];
      && e.guid == guid
      && if e.body.Some? then p.sanitize(i).Html? && body == Some(p.sanitize(i).html) else body == None
  }

  /** A body given up on never replaces a stored one. After the second store call
      of any poll, whatever row it finds, an entry that is still stored has the
      body it had, one sanitized in this poll, or none because the feed now sends
      it without one. The first call changes no body. */
  lemma GivenUpNeverReplaces(row: Row, p: Poll, guid: string)
    ensures AfterRecord(row, p).bodies == row.bodies
    ensures guid in row.bodies && guid in AfterInsert(row, p).bodies ==>
      var now := AfterInsert(row, p).bodies[guid];
      now == row.bodies[guid] || exists i :: GivesBody(p, i, guid, now)
  {
    if Inserts(p) && !p.insertFails && guid in row.bodies && guid in AfterInsert(row, p).bodies {
      BodyAfterEntries(row.bodies, EntriesOf(p), guid);
      var now := AfterInsert(row, p).bodies[guid];
      if now != row.bodies[guid] {
        var i :| 0 <= i < |EntriesOf(p)| && EntriesOf(p)[i].guid == guid && !EntriesOf(p)[i].keepStored && EntriesOf(p)[i].content == now;
        GivenByEntry(p, i);
      }
    }
  }

  /** What an inserted entry that does not keep the stored body gives. */
  lemma GivenByEntry(p: Poll, i: nat)
    requires Inserts(p) && i < |EntriesOf(p)|
    ensures EntriesOf(p)[i].keepStored ==> EntriesOf(p)[i].content == None
    ensures !EntriesOf(p)[i].keepStored ==> GivesBody(p, i, EntriesOf(p)[i].guid, EntriesOf(p)[i].content)
  {
    var k := FirstTrouble(p.response.entries, p.sanitize, 0);
    assert EntriesOf(p)[i] == EntryAt(p.response.entries, p.sanitize, k, i);
    assert i < k ==> Sanitized(p.response.entries, p.sanitize, i);
  }

  lemma {:induction false} SanitizedIsStored(bodies: map<string, Option<string>>, entries: seq<NewEntry>, i: nat)
    requires i < |entries| && entries[i].content.Some?
    requires forall j | i < j < |entries| :: entries[j].guid != entries[i].guid
    requires !entries[i].keepStored
    ensures entries[i].guid in WithEntries(bodies, entries)
    ensures WithEntries(bodies, entries)[entries[i].guid] == entries[i].content
  {
    if i < |entries| - 1 {
      SanitizedIsStored(bodies, entries[..|entries| - 1], i);
    }
  }

  /** A poll that earns its validators has stored the body of every entry, unless
      the row was trimmed or a later entry of the same feed has its guid; provided
      the second of its two store calls did not fail. */
  lemma EarnedIsStored(row: Row, p: Poll, i: nat)
    requires Earns(p) && i < |p.response.entries| && p.response.entries[i].body.Some?
    requires forall j | i < j < |p.response.entries| :: p.response.entries[j].guid != p.response.entries[i].guid
    ensures var guid, now := p.response.entries[i].guid, After(row, p).bodies;
      if p.insertFails then now == row.bodies
      else guid !in p.trimmed ==>
        guid in now && p.sanitize(i).Html? && now[guid] == Some(p.sanitize(i).html)
  {
    var raw := p.response.entries;
    assert FirstTrouble(raw, p.sanitize, 0) == |raw|;
    assert Sanitized(raw, p.sanitize, i);
    SanitizedIsStored(row.bodies, NormalizedAs(raw, p.sanitize).entries, i);
  }

  /** And that proviso is needed: the validators are recorded first, so when the
      entries are not stored the feed answers with 304s for bodies nobody has. */
  lemma FailedInsertLeavesValidator() returns (p: Poll)
    ensures Earns(p) && p.response.entries == [RawEntry("a", Some("body"))]
    ensures After(NEW_FEED, p) == NEW_FEED.(etag := Some("v1")) && OutcomeOf(p) == StoreError
    ensures After(NEW_FEED, p.(insertFails := false)).bodies == map["a" := Some("clean")]
  {
    p := Poll(Feed(Some("v1"), None, [RawEntry("a", Some("body"))]), i => Html("clean"), false, true, {});
    var raw := p.response.entries;
    assert FirstTrouble(raw, p.sanitize, 0) == 1;
    var entries := NormalizedAs(raw, p.sanitize).entries;
    assert entries == [NewEntry("a", Some("clean"), false)];
    assert entries[..0] == [];
    assert WithEntries(map[], entries) == map["a" := Some("clean")];
  }

  /** The k-th entry is the first whose body the sanitizer gave no markup for. */
  predicate IsFirstWithout(raw: seq<RawEntry>, sanitize: Sanitizing, k: nat) {
    && k < |raw| && raw[k].body.Some? && !sanitize(k).Html?
    && forall j | 0 <= j < k :: raw[j].body == None || sanitize(j).Html?
  }

  lemma FirstWithoutIsTrouble(raw: seq<RawEntry>, sanitize: Sanitizing, k: nat)
    requires IsFirstWithout(raw, sanitize, k)
    ensures FirstTrouble(raw, sanitize, 0) == k
  {
    var first := FirstTrouble(raw, sanitize, 0);
    assert !Sanitized(raw, sanitize, k);
    assert forall j | 0 <= j < k :: Sanitized(raw, sanitize, j);
  }

  /** What a poll comes to, by the reason its first body without markup has none:
      it is deferred when no permit came or a sanitize of the feed was in progress,
      and it fails as the feed's own failure when the time was up or a sanitize that
      was given up on still runs. */
  lemma OutcomeByReason(p: Poll, k: nat)
    ensures p.response.Feed? && IsFirstWithout(p.response.entries, p.sanitize, k) ==>
      && (OutcomeOf(p) == PollDeferred <==> p.sanitize(k) == Without(NoPermit) || p.sanitize(k) == Without(Busy))
      && (OutcomeOf(p) == Crashed <==> p.sanitize(k) == Panicked)
      && (!p.recordFails && !p.insertFails ==>
            (OutcomeOf(p) == FailedBody <==> p.sanitize(k) == Without(TimedOut) || p.sanitize(k) == Without(StillRunning)))
  {
    if p.response.Feed? && IsFirstWithout(p.response.entries, p.sanitize, k) {
      FirstWithoutIsTrouble(p.response.entries, p.sanitize, k);
    }
  }

  /** And it updates the feed exactly when there is no such body. */
  lemma UpdatedExactlyWhen(p: Poll)
    ensures p.response.Feed? && !p.recordFails && !p.insertFails ==>
      (OutcomeOf(p) == Updated <==>
         forall i | 0 <= i < |p.response.entries| :: p.response.entries[i].body == None || p.sanitize(i).Html?)
  {
    if p.response.Feed? {
      var raw, k := p.response.entries, FirstTrouble(p.response.entries, p.sanitize, 0);
      if k < |raw| {
        assert !Sanitized(raw, p.sanitize, k);
      } else {
        forall i | 0 <= i < |raw| ensures raw[i].body == None || p.sanitize(i).Html? {
          assert Sanitized(raw, p.sanitize, i);
        }
      }
    }
  }

  /** What is inserted when the poll fails for a body: every entry, with its markup
      before the first that has none, and from there on without a body and keeping
      the one that is stored. */
  lemma EntriesByReason(p: Poll, k: nat)
    ensures
      && p.response.Feed? && !p.recordFails && IsFirstWithout(p.response.entries, p.sanitize, k)
      && (p.sanitize(k) == Without(TimedOut) || p.sanitize(k) == Without(StillRunning))
      ==>
      && Inserts(p) && |EntriesOf(p)| == |p.response.entries|
      && forall i | 0 <= i < |EntriesOf(p)| ::
           var raw, e := p.response.entries[i], EntriesOf(p)[i];
           && e.guid == raw.guid
           && (raw.body == None ==> e.content == None && !e.keepStored)
           && (raw.body.Some? && i < k ==> p.sanitize(i).Html? && e.content == Some(p.sanitize(i).html) && !e.keepStored)
           && (raw.body.Some? && i >= k ==> e.content == None && e.keepStored)
  {
    if p.response.Feed? && IsFirstWithout(p.response.entries, p.sanitize, k) {
      FirstWithoutIsTrouble(p.response.entries, p.sanitize, k);
    }
  }

  /** Exactly when a poll is deferred. */
  lemma DeferredExactlyWhen(p: Poll)
    ensures OutcomeOf(p) == PollDeferred <==>
      && p.response.Feed?
      && exists k: nat :: k < |p.response.entries| && !Sanitized(p.response.entries, p.sanitize, k)
           && p.sanitize(k).Without? && !FeedsFault(p.sanitize(k).why)
           && forall j | 0 <= j < k :: Sanitized(p.response.entries, p.sanitize, j)
  {
    if p.response.Feed? {
      var k := FirstTrouble(p.response.entries, p.sanitize, 0);
      assert k < |p.response.entries| ==> !Sanitized(p.response.entries, p.sanitize, k);
    }
  }
}
