/** Recordings and flushes interleaved: the steps between which other callers can
    run, and what holds after every run of them. */
module MetricsRuns {
  import opened Wrappers
  import opened Metrics

  /** Where every sample ever observed, committed, dropped or lost went. */
  datatype History = History(observed: seq<Sample>, committed: seq<Sample>, dropped: seq<Sample>, lost: seq<Sample>)

  /** `carried` are the samples whose caller holds neither lock: in the live
      windows but not yet in the buffer. `draining` are the batches taken from
      the buffer whose transactions have not ended. */
  datatype State = State(
    stats: map<Op, Windows>,
    carried: multiset<Sample>,
    pending: seq<Sample>,
    draining: seq<seq<Sample>>,
    tables: Tables,
    history: History)

  const START := State(map[], multiset{}, [], [], Tables([], map[]), History([], [], [], []))

  datatype Event =
    | Observe(s: Sample)
    | Buffer(s: Sample)
    | Drain
    | Commit(i: nat)
    | RollBack(i: nat)

  predicate Enabled(st: State, e: Event) {
    match e
    case Observe(_) => true
    case Buffer(s) => s in st.carried
    case Drain => true
    case Commit(i) => i < |st.draining|
    case RollBack(i) => i < |st.draining|
  }

  function Without<T>(s: seq<T>, i: nat): seq<T>
    requires i < |s|
  {
    s[..i] + s[i + 1..]
  }

  /** One step, atomic under the lock it takes or in its transaction. */
  function Apply(st: State, e: Event): State
    requires Enabled(st, e)
  {
    var h := st.history;
    match e
    case Observe(s) =>
      st.(stats := Observed(st.stats, s), carried := st.carried + multiset{s},
          history := h.(observed := h.observed + [s]))
    case Buffer(s) =>
      st.(carried := st.carried - multiset{s}, pending := Buffered(st.pending, s),
          history := if |st.pending| < MAX_PENDING then h else h.(dropped := h.dropped + [st.pending[0]]))
    case Drain =>
      if st.pending == [] then st else st.(pending := [], draining := st.draining + [st.pending])
    case Commit(i) =>
      st.(draining := Without(st.draining, i), tables := Flushed(st.tables, st.draining[i]),
          history := h.(committed := h.committed + st.draining[i]))
    case RollBack(i) =>
      st.(draining := Without(st.draining, i), history := h.(lost := h.lost + st.draining[i]))
  }

  /** A run from the start, step by step. */
  ghost predicate Reached(events: seq<Event>, st: State) {
    if events == [] then st == START
    else
      var e := events[|events| - 1];
      exists before: State ::
        Reached(events[..|events| - 1], before) && Enabled(before, e) && st == Apply(before, e)
  }

  // ---- what holds -------------------------------------------------------------

  function WindowOf(w: Windows, ok: bool): seq<nat> {
    if ok then w.ok else w.err
  }

  function CountOf(w: Windows, ok: bool): nat {
    if ok then w.okCount else w.errCount
  }

  /** Every live window is the last of what its key was observed to do, in order,
      and every live count is all of it. */
  ghost predicate LiveExact(stats: map<Op, Windows>, observed: seq<Sample>) {
    forall key: Key ::
      && WindowOf(Live(stats, key.op), key.ok) == Last(Timings(observed, key), WINDOW)
      && CountOf(Live(stats, key.op), key.ok) == |Timings(observed, key)|
  }

  /** Every persisted window is the last of what was committed of its key, though
      only the keys of a batch are pruned; and no pruning touches the totals. */
  ghost predicate PersistedExact(t: Tables, committed: seq<Sample>) {
    && (forall key: Key :: Timings(t.timing, key) == Last(Timings(committed, key), WINDOW))
    && (forall op: Op ::
          TotalOf(t.totals, op)
          == Total(|Timings(committed, Key(op, true))|, |Timings(committed, Key(op, false))|))
  }

  function Together(batches: seq<seq<Sample>>): multiset<Sample> {
    if batches == [] then multiset{} else multiset(batches[0]) + Together(batches[1..])
  }

  /** Every observed sample is in exactly one place. */
  ghost predicate Conserved(st: State) {
    multiset(st.history.observed)
    == st.carried + multiset(st.pending) + Together(st.draining)
       + multiset(st.history.committed) + multiset(st.history.dropped) + multiset(st.history.lost)
  }

  ghost predicate Exact(st: State) {
    && LiveExact(st.stats, st.history.observed)
    && PersistedExact(st.tables, st.history.committed)
    && Conserved(st)
    && |st.pending| <= MAX_PENDING
  }

  // ---- the windows ------------------------------------------------------------

  lemma OneMore(samples: seq<Sample>, s: Sample, key: Key)
    ensures Timings(samples + [s], key) == Timings(samples, key) + if KeyOf(s) == key then [s.micros] else []
  {
    assert (samples + [s])[..|samples|] == samples;
  }

  lemma ObserveKeepsLive(stats: map<Op, Windows>, observed: seq<Sample>, s: Sample)
    requires LiveExact(stats, observed)
    ensures LiveExact(Observed(stats, s), observed + [s])
  {
    forall key: Key
      ensures WindowOf(Live(Observed(stats, s), key.op), key.ok) == Last(Timings(observed + [s], key), WINDOW)
           && CountOf(Live(Observed(stats, s), key.op), key.ok) == |Timings(observed + [s], key)|
    {
      OneMore(observed, s, key);
      LastOfLast(Timings(observed, key), [s.micros], WINDOW);
    }
  }

  /** Pruning a key leaves its newest rows and every other key's rows. */
  lemma {:induction false} PruneTimings(rows: seq<Sample>, key: Key, other: Key)
    ensures Timings(Prune(rows, key), other)
         == if other == key then Last(Timings(rows, key), WINDOW) else Timings(rows, other)
  {
    if rows != [] {
      var head, rest := rows[0], rows[1..];
      assert rows == [head] + rest;
      PruneTimings(rest, key, other);
      TimingsAppend([head], rest, key);
      TimingsAppend([head], rest, other);
      TimingsAppend([head], Prune(rest, key), other);
      assert [head][..0] == [];
    }
  }

  lemma {:induction false} PruneAllTimings(rows: seq<Sample>, keys: seq<Key>, other: Key)
    ensures Timings(PruneAll(rows, keys), other)
         == if other in keys then Last(Timings(rows, other), WINDOW) else Timings(rows, other)
    decreases |keys|
  {
    if keys != [] {
      PruneTimings(rows, keys[0], other);
      PruneAllTimings(Prune(rows, keys[0]), keys[1..], other);
    }
  }

  lemma {:induction false} UntouchedKey(batch: seq<Sample>, key: Key)
    requires key !in DistinctKeys(batch)
    ensures Timings(batch, key) == []
  {
    if batch != [] {
      UntouchedKey(batch[..|batch| - 1], key);
      assert batch[|batch| - 1] in batch;
    }
  }

  lemma {:induction false} CountedTotals(totals: map<Op, Total>, batch: seq<Sample>, op: Op)
    ensures TotalOf(CountedAll(totals, batch), op)
         == Total(TotalOf(totals, op).ok + |Timings(batch, Key(op, true))|,
                  TotalOf(totals, op).err + |Timings(batch, Key(op, false))|)
  {
    if batch != [] {
      CountedTotals(totals, batch[..|batch| - 1], op);
    }
  }

  lemma CommitKeepsPersisted(t: Tables, committed: seq<Sample>, batch: seq<Sample>)
    requires PersistedExact(t, committed)
    ensures PersistedExact(Flushed(t, batch), committed + batch)
  {
    forall key: Key ensures Timings(Flushed(t, batch).timing, key) == Last(Timings(committed + batch, key), WINDOW) {
      TimingsAppend(committed, batch, key);
      TimingsAppend(t.timing, batch, key);
      PruneAllTimings(t.timing + batch, DistinctKeys(batch), key);
      LastOfLast(Timings(committed, key), Timings(batch, key), WINDOW);
      if key !in DistinctKeys(batch) {
        UntouchedKey(batch, key);
      }
    }
    forall op: Op
      ensures TotalOf(Flushed(t, batch).totals, op)
           == Total(|Timings(committed + batch, Key(op, true))|, |Timings(committed + batch, Key(op, false))|)
    {
      CountedTotals(t.totals, batch, op);
      TimingsAppend(committed, batch, Key(op, true));
      TimingsAppend(committed, batch, Key(op, false));
    }
  }

  // ---- conservation -----------------------------------------------------------

  lemma {:induction false} TogetherAppend(batches: seq<seq<Sample>>, batch: seq<Sample>)
    ensures Together(batches + [batch]) == Together(batches) + multiset(batch)
  {
    if batches == [] {
      assert [batch][1..] == [];
    } else {
      assert (batches + [batch])[1..] == batches[1..] + [batch];
      TogetherAppend(batches[1..], batch);
    }
  }

  lemma WithoutFirst<T>(s: seq<T>)
    requires s != []
    ensures Without(s, 0) == s[1..]
  {
  }

  lemma WithoutLater<T>(s: seq<T>, i: nat)
    requires 0 < i < |s|
    ensures Without(s, i) != [] && Without(s, i)[0] == s[0] && Without(s, i)[1..] == Without(s[1..], i - 1)
  {
  }

  lemma {:induction false} TogetherWithout(batches: seq<seq<Sample>>, i: nat)
    requires i < |batches|
    ensures Together(batches) == Together(Without(batches, i)) + multiset(batches[i])
  {
    hide Without;
    if i == 0 {
      WithoutFirst(batches);
    } else {
      TogetherWithout(batches[1..], i - 1);
      WithoutLater(batches, i);
    }
  }

  lemma BufferKeepsAll(pending: seq<Sample>, s: Sample)
    requires |pending| <= MAX_PENDING
    ensures multiset(pending) + multiset{s}
         == multiset(Buffered(pending, s)) + if |pending| < MAX_PENDING then multiset{} else multiset{pending[0]}
  {
    if |pending| == MAX_PENDING {
      assert pending + [s] == [pending[0]] + Buffered(pending, s);
      assert multiset(pending + [s]) == multiset{pending[0]} + multiset(Buffered(pending, s));
    }
    assert multiset(pending + [s]) == multiset(pending) + multiset{s};
  }

  lemma AppendIsSum(a: seq<Sample>, b: seq<Sample>)
    ensures multiset(a + b) == multiset(a) + multiset(b)
  {
  }

  /** A sample moves from a caller's hands to the buffer, which may push out x. */
  lemma Moved(c: multiset<Sample>, p: multiset<Sample>, q: multiset<Sample>, x: multiset<Sample>, s: Sample,
              t: multiset<Sample>, k: multiset<Sample>, d: multiset<Sample>, l: multiset<Sample>)
    requires s in c && p + multiset{s} == q + x
    ensures c + p + t + k + d + l == (c - multiset{s}) + q + t + k + (d + x) + l
  {
    var before, after := c + p + t + k + d + l, (c - multiset{s}) + q + t + k + (d + x) + l;
    forall y: Sample ensures before[y] == after[y] {
      assert (p + multiset{s})[y] == (q + x)[y];
    }
    assert before == after;
  }

  lemma BufferConserves(st: State, s: Sample)
    requires s in st.carried && Conserved(st) && |st.pending| <= MAX_PENDING
    ensures Conserved(Apply(st, Buffer(s)))
  {
    hide Together, Buffered;
    var h := st.history;
    var x := if |st.pending| < MAX_PENDING then [] else [st.pending[0]];
    BufferKeepsAll(st.pending, s);
    AppendIsSum(h.dropped, x);
    assert h.dropped + [] == h.dropped;
    Moved(st.carried, multiset(st.pending), multiset(Buffered(st.pending, s)), multiset(x), s,
          Together(st.draining), multiset(h.committed), multiset(h.dropped), multiset(h.lost));
  }

  /** A batch moves from the transactions under way to where they end. */
  lemma Ended(front: multiset<Sample>, t: multiset<Sample>, b: multiset<Sample>,
              k: multiset<Sample>, d: multiset<Sample>, l: multiset<Sample>)
    ensures front + (t + b) + k + d + l == front + t + (k + b) + d + l
    ensures front + (t + b) + k + d + l == front + t + k + d + (l + b)
  {
  }

  lemma EndConserves(st: State, i: nat)
    requires i < |st.draining| && Conserved(st)
    ensures Conserved(Apply(st, Commit(i))) && Conserved(Apply(st, RollBack(i)))
  {
    hide Together, Without, Flushed;
    var h := st.history;
    TogetherWithout(st.draining, i);
    AppendIsSum(h.committed, st.draining[i]);
    AppendIsSum(h.lost, st.draining[i]);
    Ended(st.carried + multiset(st.pending), Together(Without(st.draining, i)), multiset(st.draining[i]),
          multiset(h.committed), multiset(h.dropped), multiset(h.lost));
  }

  lemma StepConserves(st: State, e: Event)
    requires Enabled(st, e) && Conserved(st) && |st.pending| <= MAX_PENDING
    ensures Conserved(Apply(st, e)) && |Apply(st, e).pending| <= MAX_PENDING
  {
    match e
    case Observe(s) => AppendIsSum(st.history.observed, [s]);
    case Buffer(s) =>
      BufferConserves(st, s);
      hide Conserved;
      BufferIsBounded(st.pending, s);
    case Drain =>
      hide Together;
      TogetherAppend(st.draining, st.pending);
    case Commit(i) =>
      EndConserves(st, i);
      hide Conserved;
    case RollBack(i) =>
      EndConserves(st, i);
      hide Conserved;
  }

  lemma BufferIsBounded(pending: seq<Sample>, s: Sample)
    ensures |Buffered(pending, s)| <= MAX_PENDING
  {
  }

  // ---- every run --------------------------------------------------------------

  lemma StartIsExact()
    ensures Exact(START)
  {
    assert forall key: Key :: Timings([], key) == [];
  }

  lemma StepKeepsExact(st: State, e: Event)
    requires Enabled(st, e) && Exact(st)
    ensures Exact(Apply(st, e))
  {
    hide LiveExact, PersistedExact, Conserved;
    StepConserves(st, e);
    match e
    case Observe(s) => ObserveKeepsLive(st.stats, st.history.observed, s);
    case Buffer(s) =>
    case Drain =>
    case Commit(i) => CommitKeepsPersisted(st.tables, st.history.committed, st.draining[i]);
    case RollBack(i) =>
  }

  /** After any interleaving of recordings and flushes, failed ones included,
      every window in memory and in the tables is the last 1024 samples of its
      key, every count is of all its samples, and every sample observed is in
      exactly one place. */
  lemma {:induction false} EveryRunIsExact(events: seq<Event>, st: State)
    ensures Reached(events, st) ==> Exact(st)
  {
    hide Exact;
    if Reached(events, st) {
      if events == [] {
        StartIsExact();
      } else {
        var front, e := events[..|events| - 1], events[|events| - 1];
        var before :| Reached(front, before) && Enabled(before, e) && st == Apply(before, e);
        EveryRunIsExact(front, before);
        StepKeepsExact(before, e);
      }
    }
  }

  // ---- what a run loses -------------------------------------------------------

  /** The count of samples buffered since the last drain, after one more step. */
  function SinceDrainThen(n: nat, e: Event): nat {
    match e
    case Buffer(_) => n + 1
    case Drain => 0
    case _ => n
  }

  /** How many samples were buffered since the last drain. */
  function SinceDrain(events: seq<Event>): nat {
    if events == [] then 0 else SinceDrainThen(SinceDrain(events[..|events| - 1]), events[|events| - 1])
  }

  /** No sample came to a full buffer: at no point were more of them buffered than
      it holds since it was last drained. */
  predicate NeverOverfull(events: seq<Event>) {
    forall k: nat | k <= |events| :: SinceDrain(events[..k]) <= MAX_PENDING
  }

  /** No transaction failed. */
  predicate NoneRolledBack(events: seq<Event>) {
    forall e | e in events :: !e.RollBack?
  }

  lemma NeverOverfullMore(events: seq<Event>)
    requires events != []
    ensures NeverOverfull(events) <==> NeverOverfull(events[..|events| - 1]) && SinceDrain(events) <= MAX_PENDING
  {
    hide SinceDrain;
    var n := |events| - 1;
    var front := events[..n];
    assert events[..n + 1] == events;
    if NeverOverfull(events) {
      forall k: nat | k <= n ensures SinceDrain(front[..k]) <= MAX_PENDING {
        assert front[..k] == events[..k];
      }
    } else {
      var k: nat :| k <= n + 1 && SinceDrain(events[..k]) > MAX_PENDING;
      assert k <= n ==> front[..k] == events[..k];
    }
  }

  lemma StepFillsBuffer(st: State, e: Event, n: nat)
    requires Enabled(st, e) && |st.pending| == Min(n, MAX_PENDING)
    requires st.history.dropped == [] ==> n <= MAX_PENDING
    ensures |Apply(st, e).pending| == Min(SinceDrainThen(n, e), MAX_PENDING)
    ensures Apply(st, e).history.dropped == [] <==> st.history.dropped == [] && SinceDrainThen(n, e) <= MAX_PENDING
  {
    hide Observed, Flushed, Without;
  }

  lemma NeverOverfullNow(events: seq<Event>)
    ensures NeverOverfull(events) ==> SinceDrain(events) <= MAX_PENDING
  {
    assert events[..|events|] == events;
  }

  /** The buffer holds what was buffered since the last drain, up to its bound, and
      something was dropped exactly if more than that bound ever was. */
  lemma {:induction false} DroppedWhenOverfull(events: seq<Event>, st: State)
    ensures Reached(events, st) ==>
      && |st.pending| == Min(SinceDrain(events), MAX_PENDING)
      && (st.history.dropped == [] <==> NeverOverfull(events))
  {
    hide Apply, Enabled, NeverOverfull;
    if Reached(events, st) {
      if events == [] {
        EmptyRun();
      } else {
        var front, e := events[..|events| - 1], events[|events| - 1];
        var before :| Reached(front, before) && Enabled(before, e) && st == Apply(before, e);
        DroppedWhenOverfull(front, before);
        NeverOverfullNow(front);
        StepFillsBuffer(before, e, SinceDrain(front));
        NeverOverfullMore(events);
      }
    }
  }

  lemma EmptyRun()
    ensures NeverOverfull([]) && NoneRolledBack([])
  {
  }

  /** No batch under way is empty. */
  ghost predicate BatchesFull(st: State) {
    forall b | b in st.draining :: b != []
  }

  lemma WithoutIsPart<T>(s: seq<T>, i: nat)
    requires i < |s|
    ensures forall x | x in Without(s, i) :: x in s
  {
  }

  lemma StepKeepsBatchesFull(st: State, e: Event)
    requires Enabled(st, e) && BatchesFull(st)
    ensures BatchesFull(Apply(st, e))
    ensures Apply(st, e).history.lost == [] <==> st.history.lost == [] && !e.RollBack?
  {
    hide Observed, Flushed, Buffered, Without;
    if e.RollBack? || e.Commit? {
      assert st.draining[e.i] in st.draining;
      WithoutIsPart(st.draining, e.i);
    }
  }

  /** Something was lost exactly if a transaction failed: none that fails is
      empty. */
  lemma {:induction false} LostWhenRolledBack(events: seq<Event>, st: State)
    ensures Reached(events, st) ==> BatchesFull(st) && (st.history.lost == [] <==> NoneRolledBack(events))
  {
    hide BatchesFull, Apply, Enabled;
    if Reached(events, st) {
      if events == [] {
        EmptyRun();
        NoBatches();
      } else {
        var front, e := events[..|events| - 1], events[|events| - 1];
        var before :| Reached(front, before) && Enabled(before, e) && st == Apply(before, e);
        LostWhenRolledBack(front, before);
        StepKeepsBatchesFull(before, e);
        assert events == front + [e];
        assert NoneRolledBack(events) <==> NoneRolledBack(front) && !e.RollBack?;
      }
    }
  }

  lemma NoBatches()
    ensures BatchesFull(START)
  {
  }

  /** At rest, with nothing in any caller's hands, the tables hold all of what was
      observed exactly when no more samples were ever buffered than the buffer
      holds and no transaction failed; otherwise what is missing is just what was
      dropped and lost. */
  lemma NothingElseIsMissing(events: seq<Event>, st: State)
    ensures Reached(events, st) && st.carried == multiset{} && st.pending == [] && st.draining == [] ==>
      && |st.history.observed| == |st.history.committed| + |st.history.dropped| + |st.history.lost|
      && (multiset(st.history.committed) == multiset(st.history.observed)
          <==> NeverOverfull(events) && NoneRolledBack(events))
  {
    hide NeverOverfull, NoneRolledBack, LiveExact, PersistedExact;
    if Reached(events, st) && st.carried == multiset{} && st.pending == [] && st.draining == [] {
      EveryRunIsExact(events, st);
      DroppedWhenOverfull(events, st);
      LostWhenRolledBack(events, st);
      hide Reached;
      var h := st.history;
      var whole := multiset(h.committed) + multiset(h.dropped) + multiset(h.lost);
      assert multiset(h.observed) == whole && |whole| == |h.committed| + |h.dropped| + |h.lost|;
    }
  }

  /** The samples that were observed in a run, in order. */
  function ObservedIn(events: seq<Event>): seq<Sample> {
    if events == [] then []
    else
      ObservedIn(events[..|events| - 1])
      + match events[|events| - 1] case Observe(s) => [s] case _ => []
  }

  lemma {:induction false} HistoryIsOfTheRun(events: seq<Event>, st: State)
    ensures Reached(events, st) ==> st.history.observed == ObservedIn(events)
  {
    hide Observed, Flushed, Buffered, Without;
    if Reached(events, st) && events != [] {
      var front, e := events[..|events| - 1], events[|events| - 1];
      var before :| Reached(front, before) && Enabled(before, e) && st == Apply(before, e);
      HistoryIsOfTheRun(front, before);
    }
  }

  // ---- runs that lose a sample ------------------------------------------------

  lemma OneMoreEvent(events: seq<Event>, st: State, e: Event)
    requires Reached(events, st) && Enabled(st, e)
    ensures Reached(events + [e], Apply(st, e))
  {
    var longer := events + [e];
    assert longer[..|longer| - 1] == events && longer[|longer| - 1] == e;
    hide Enabled, Apply;
    assert Reached(longer[..|longer| - 1], st);
  }

  /** One sample, observed, buffered and drained. */
  lemma OneDrained(s: Sample) returns (st: State)
    ensures Reached([Observe(s), Buffer(s), Drain], st)
    ensures st.draining == [[s]] && st.carried == multiset{} && st.pending == [] && st.tables == Tables([], map[])
    ensures st.history == History([s], [], [], [])
  {
    hide Reached, Observed;
    NothingHappened();
    var a := Apply(START, Observe(s));
    OneMoreEvent([], START, Observe(s));
    assert [] + [Observe(s)] == [Observe(s)] && [Observe(s)] + [Buffer(s)] == [Observe(s), Buffer(s)];
    var b := Apply(a, Buffer(s));
    OneMoreEvent([Observe(s)], a, Buffer(s));
    assert b.pending == [s];
    assert [Observe(s), Buffer(s)] + [Drain] == [Observe(s), Buffer(s), Drain];
    st := Apply(b, Drain);
    OneMoreEvent([Observe(s), Buffer(s)], b, Drain);
  }

  /** A flush whose transaction fails loses the sample it had drained. */
  lemma FailedFlushLoses(s: Sample) returns (st: State)
    ensures Reached([Observe(s), Buffer(s), Drain, RollBack(0)], st)
    ensures st.history.observed == [s] && st.history.lost == [s] && st.history.committed == []
    ensures st.carried == multiset{} && st.pending == [] && st.draining == []
  {
    hide Reached;
    var c := OneDrained(s);
    st := Apply(c, RollBack(0));
    OneMoreEvent([Observe(s), Buffer(s), Drain], c, RollBack(0));
    assert [Observe(s), Buffer(s), Drain] + [RollBack(0)] == [Observe(s), Buffer(s), Drain, RollBack(0)];
  }

  /** One whose transaction goes through has it in the tables, and nothing left
      over. */
  lemma FlushKeeps(s: Sample) returns (st: State)
    ensures Reached([Observe(s), Buffer(s), Drain, Commit(0)], st)
    ensures st.history.committed == [s] && st.history.lost == [] && st.history.dropped == []
    ensures st.tables.timing == [s]
    ensures TotalOf(st.tables.totals, s.op) == if s.ok then Total(1, 0) else Total(0, 1)
    ensures st.carried == multiset{} && st.pending == [] && st.draining == []
  {
    hide Reached, Flushed, TotalOf;
    var c := OneDrained(s);
    st := Apply(c, Commit(0));
    OneMoreEvent([Observe(s), Buffer(s), Drain], c, Commit(0));
    assert [Observe(s), Buffer(s), Drain] + [Commit(0)] == [Observe(s), Buffer(s), Drain, Commit(0)];
    OneSampleFlushed(s);
  }

  lemma PruneOne(s: Sample, key: Key)
    ensures Prune([s], key) == [s] && Prune([], key) == []
  {
    assert [s][1..] == [] && [s][..0] == [];
    assert |Timings([s], key)| <= 1;
    assert [s] + [] == [s];
  }

  lemma PruneOneKey(rows: seq<Sample>, key: Key)
    ensures PruneAll(rows, [key]) == Prune(rows, key)
  {
    hide Prune;
    assert [key][1..] == [];
    assert PruneAll(Prune(rows, key), []) == Prune(rows, key);
  }

  lemma OneKey(s: Sample)
    ensures DistinctKeys([s]) == [KeyOf(s)]
  {
    assert [s][..0] == [] && DistinctKeys([]) == [];
    assert [] + [KeyOf(s)] == [KeyOf(s)];
  }

  lemma OneSampleFlushed(s: Sample)
    ensures var t := Flushed(Tables([], map[]), [s]);
      t.timing == [s] && TotalOf(t.totals, s.op) == if s.ok then Total(1, 0) else Total(0, 1)
  {
    OneKey(s);
    PruneOne(s, KeyOf(s));
    PruneOneKey([s], KeyOf(s));
    hide Prune, PruneAll, DistinctKeys, KeyOf;
    assert [] + [s] == [s] && [s][..0] == [];
    assert CountedAll(map[], [s]) == Counted(map[], s);
  }

  lemma NothingHappened()
    ensures Reached([], START)
  {
  }

  /** The same sample recorded n times, with no flush in between. */
  function Repeated(s: Sample, n: nat): seq<Event> {
    if n == 0 then [] else Repeated(s, n - 1) + [Observe(s)] + [Buffer(s)]
  }

  lemma {:induction false} RepeatedRuns(s: Sample, n: nat) returns (st: State)
    ensures Reached(Repeated(s, n), st)
    ensures SinceDrain(Repeated(s, n)) == n
  {
    hide Reached, Observed, Buffered;
    if n == 0 {
      NothingHappened();
      st := START;
    } else {
      var before := RepeatedRuns(s, n - 1);
      var front := Repeated(s, n - 1);
      OneMoreEvent(front, before, Observe(s));
      var carried := Apply(before, Observe(s));
      OneMoreEvent(front + [Observe(s)], carried, Buffer(s));
      st := Apply(carried, Buffer(s));
      assert (front + [Observe(s)])[..|front|] == front;
      assert (front + [Observe(s)] + [Buffer(s)])[..|front| + 1] == front + [Observe(s)];
    }
  }

  /** One sample more than the buffer holds, with no flush in between, drops one. */
  lemma OverfullBufferDrops(s: Sample) returns (st: State)
    ensures Reached(Repeated(s, MAX_PENDING + 1), st) && st.history.dropped != []
  {
    hide Reached, Repeated;
    st := RepeatedRuns(s, MAX_PENDING + 1);
    var events := Repeated(s, MAX_PENDING + 1);
    DroppedWhenOverfull(events, st);
    assert events[..|events|] == events;
  }
}
