/** Call timings: bounded windows in memory, a lossy write buffer, and the
    persisted windows and totals it is flushed into. */
module Metrics {

  const WINDOW: nat := 1024
  const MAX_PENDING: nat := 16_384

  datatype Backend = Rust

  /** One operation of one backend. */
  datatype Op = Op(backend: Backend, name: string)

  datatype Sample = Sample(op: Op, micros: nat, ok: bool)

  /** Successes and failures of an operation are kept apart. */
  datatype Key = Key(op: Op, ok: bool)

  function KeyOf(s: Sample): Key {
    Key(s.op, s.ok)
  }

  /** The last n of a sequence. */
  function Last<T>(s: seq<T>, n: nat): (r: seq<T>)
    ensures |r| <= n && |r| <= |s|
  {
    if |s| <= n then s else s[|s| - n..]
  }

  /** The timings of one key, in order. */
  function Timings(samples: seq<Sample>, key: Key): seq<nat> {
    if samples == [] then []
    else
      var front, s := samples[..|samples| - 1], samples[|samples| - 1];
      Timings(front, key) + if KeyOf(s) == key then [s.micros] else []
  }

  lemma LastOfLast<T>(a: seq<T>, b: seq<T>, n: nat)
    ensures Last(Last(a, n) + b, n) == Last(a + b, n)
  {
  }

  lemma {:induction false} TimingsAppend(a: seq<Sample>, b: seq<Sample>, key: Key)
    ensures Timings(a + b, key) == Timings(a, key) + Timings(b, key)
  {
    if b == [] {
      assert a + b == a;
    } else {
      var front := b[..|b| - 1];
      assert (a + b)[..|a + b| - 1] == a + front;
      TimingsAppend(a, front, key);
    }
  }

  // ---- the live windows -------------------------------------------------------

  /** The timings of one operation as a value. */
  datatype Windows = Windows(ok: seq<nat>, err: seq<nat>, okCount: nat, errCount: nat)

  const NOTHING_YET := Windows([], [], 0, 0)

  function Recorded(w: Windows, micros: nat, ok: bool): Windows {
    if ok then w.(ok := Last(w.ok + [micros], WINDOW), okCount := w.okCount + 1)
    else w.(err := Last(w.err + [micros], WINDOW), errCount := w.errCount + 1)
  }

  class Stats {
    var okMicros: seq<nat>
    var errMicros: seq<nat>
    var okCount: nat
    var errCount: nat
    ghost const owner: Op

    ghost function View(): Windows
      reads this
    {
      Windows(okMicros, errMicros, okCount, errCount)
    }

    ghost predicate Valid()
      reads this
    {
      |okMicros| <= WINDOW && |errMicros| <= WINDOW
    }

    constructor (ghost owner: Op)
      ensures Valid() && View() == NOTHING_YET && this.owner == owner
    {
      this.owner := owner;
      okMicros, errMicros, okCount, errCount := [], [], 0, 0;
    }

    method Record(micros: nat, ok: bool)
      requires Valid()
      modifies this
      ensures Valid() && View() == Recorded(old(View()), micros, ok)
    {
      if ok {
        okCount := okCount + 1;
        if |okMicros| == WINDOW {
          okMicros := okMicros[1..];
        }
        okMicros := okMicros + [micros];
      } else {
        errCount := errCount + 1;
        if |errMicros| == WINDOW {
          errMicros := errMicros[1..];
        }
        errMicros := errMicros + [micros];
      }
    }
  }

  /** The live windows of an operation, or none yet. */
  function Live(stats: map<Op, Windows>, op: Op): Windows {
    if op in stats then stats[op] else NOTHING_YET
  }

  class RepoMetrics {
    var stats: map<Op, Stats>
    var pending: seq<Sample>

    ghost predicate Valid()
      reads this, stats.Values
    {
      && (forall op | op in stats :: stats[op].owner == op && stats[op].Valid())
      && |pending| <= MAX_PENDING
    }

    ghost function View(): map<Op, Windows>
      reads this, stats.Values
    {
      map op | op in stats :: stats[op].View()
    }

    constructor ()
      ensures Valid() && View() == map[] && pending == []
    {
      stats, pending := map[], [];
    }

    /** The windows of an operation, made if there are none. */
    method Entry(op: Op) returns (one: Stats)
      requires Valid()
      modifies this`stats
      ensures Valid() && op in stats && one == stats[op]
      ensures stats.Values <= old(stats.Values) + {one} && (one in old(stats.Values) || fresh(one))
      ensures View() == old(View())[op := Live(old(View()), op)]
    {
      if op !in stats {
        one := new Stats(op);
        stats := stats[op := one];
      }
      one := stats[op];
    }

    /** One sample into the windows of its operation, which no other shares. */
    method RecordIn(one: Stats, s: Sample)
      requires Valid() && s.op in stats && one == stats[s.op]
      modifies one
      ensures Valid() && View() == old(View())[s.op := Recorded(old(View())[s.op], s.micros, s.ok)]
    {
      hide Recorded;
      assert forall op | op in stats && op != s.op :: stats[op] != one;
      one.Record(s.micros, s.ok);
    }

    /** The first half of a recording: into the live window, under its lock. */
    method Observe(s: Sample)
      requires Valid()
      modifies this`stats, stats.Values
      ensures Valid() && fresh(stats.Values - old(stats.Values))
      ensures View() == Observed(old(View()), s)
    {
      hide Recorded;
      var one := Entry(s.op);
      RecordIn(one, s);
    }

    /** The second half: into the write buffer, under its own lock. */
    method Buffer(s: Sample)
      requires Valid()
      modifies this`pending
      ensures Valid() && pending == Buffered(old(pending), s)
    {
      if |pending| >= MAX_PENDING {
        pending := pending[1..];
      }
      pending := pending + [s];
    }

    method Record(s: Sample)
      requires Valid()
      modifies this, stats.Values
      ensures Valid() && fresh(stats.Values - old(stats.Values))
      ensures View() == Observed(old(View()), s) && pending == Buffered(old(pending), s)
    {
      Observe(s);
      Buffer(s);
    }

    method Drain() returns (taken: seq<Sample>)
      requires Valid()
      modifies this`pending
      ensures Valid() && taken == old(pending) && pending == []
    {
      taken := pending;
      pending := [];
    }
  }

  function Observed(stats: map<Op, Windows>, s: Sample): map<Op, Windows> {
    stats[s.op := Recorded(Live(stats, s.op), s.micros, s.ok)]
  }

  /** The buffer drops its oldest sample rather than grow past its bound. */
  function Buffered(pending: seq<Sample>, s: Sample): seq<Sample> {
    Last(pending + [s], MAX_PENDING)
  }

  // ---- the tables -------------------------------------------------------------

  datatype Total = Total(ok: nat, err: nat)

  /** The persisted tables. `timing` is in id order: ids only ever increase. */
  datatype Tables = Tables(timing: seq<Sample>, totals: map<Op, Total>)

  function TotalOf(totals: map<Op, Total>, op: Op): Total {
    if op in totals then totals[op] else Total(0, 0)
  }

  /** The upsert of one sample's counts. */
  function Counted(totals: map<Op, Total>, s: Sample): map<Op, Total> {
    var t := TotalOf(totals, s.op);
    totals[s.op := if s.ok then t.(ok := t.ok + 1) else t.(err := t.err + 1)]
  }

  function CountedAll(totals: map<Op, Total>, batch: seq<Sample>): map<Op, Total> {
    if batch == [] then totals
    else Counted(CountedAll(totals, batch[..|batch| - 1]), batch[|batch| - 1])
  }

  /** Delete the rows of one key that are not among its newest: a row stays if it
      is of another key, or if with the later rows of its key it is in the window. */
  function Prune(rows: seq<Sample>, key: Key): seq<Sample> {
    if rows == [] then []
    else
      var rest := Prune(rows[1..], key);
      if KeyOf(rows[0]) == key && |Timings(rows, key)| > WINDOW then rest else [rows[0]] + rest
  }

  function PruneAll(rows: seq<Sample>, keys: seq<Key>): seq<Sample>
    decreases |keys|
  {
    if keys == [] then rows else PruneAll(Prune(rows, keys[0]), keys[1..])
  }

  /** The keys a batch touches, each once. */
  function DistinctKeys(batch: seq<Sample>): (keys: seq<Key>)
    ensures forall k :: k in keys <==> exists s :: s in batch && KeyOf(s) == k
    ensures forall i, j | 0 <= i < j < |keys| :: keys[i] != keys[j]
  {
    if batch == [] then []
    else
      var front, s := batch[..|batch| - 1], batch[|batch| - 1];
      var keys := DistinctKeys(front);
      assert forall x :: x in batch <==> x in front || x == s;
      if KeyOf(s) in keys then keys else keys + [KeyOf(s)]
  }

  /** One committed flush. */
  function Flushed(t: Tables, batch: seq<Sample>): Tables {
    Tables(PruneAll(t.timing + batch, DistinctKeys(batch)), CountedAll(t.totals, batch))
  }

  class Database {
    var tables: Tables

    constructor ()
      ensures tables == Tables([], map[])
    {
      tables := Tables([], map[]);
    }
  }

  /** Write what is buffered in one transaction, which may fail: then the tables
      are as they were, and what was drained is gone. */
  method Flush(metrics: RepoMetrics, db: Database, commits: bool)
    requires metrics.Valid()
    modifies metrics`pending, db
    ensures metrics.Valid() && metrics.pending == []
    ensures db.tables ==
      if commits && old(metrics.pending) != [] then Flushed(old(db.tables), old(metrics.pending)) else old(db.tables)
  {
    var batch := metrics.Drain();
    if batch == [] {
      return;
    }
    var rows, totals := db.tables.timing, db.tables.totals;
    for i := 0 to |batch|
      invariant rows == db.tables.timing + batch[..i]
      invariant totals == CountedAll(db.tables.totals, batch[..i])
      invariant metrics.Valid() && metrics.pending == [] && db.tables == old(db.tables)
    {
      rows := rows + [batch[i]];
      totals := Counted(totals, batch[i]);
      assert batch[..i + 1][..i] == batch[..i];
    }
    assert batch[..|batch|] == batch;
    var keys := DistinctKeys(batch);
    for i := 0 to |keys|
      invariant PruneAll(rows, keys[i..]) == PruneAll(db.tables.timing + batch, keys)
      invariant metrics.Valid() && metrics.pending == [] && db.tables == old(db.tables)
    {
      rows := Prune(rows, keys[i]);
    }
    if commits {
      db.tables := Tables(rows, totals);
    }
  }
}
