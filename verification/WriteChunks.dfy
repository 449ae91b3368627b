/** Splitting a batch of writes into calls a server will take, and sending them. */
module WriteChunks {
  import opened Wrappers

  const APPLY_WRITES_MAX_OPS: nat := 200
  const APPLY_WRITES_MAX_BYTES: nat := 128 * 1024

  /** The consecutive writes from `start` up to `end`. */
  datatype Range = Range(start: nat, end: nat)

  /** The serialized length of a write, without the comma after it. */
  type Wire<!Op> = Op -> nat

  /** The bytes the writes from i up to j take, commas included. */
  function Bytes<Op>(writes: seq<Op>, wire: Wire<Op>, i: nat, j: nat): nat
    requires i <= j <= |writes|
  {
    if i == j then 0 else Bytes(writes, wire, i, j - 1) + wire(writes[j - 1]) + 1
  }

  /** One call may carry these writes: some, not too many, and not too large
      unless it is a single one, which cannot be split. */
  predicate Sendable<Op>(writes: seq<Op>, wire: Wire<Op>, r: Range) {
    && r.start < r.end <= |writes|
    && r.end - r.start <= APPLY_WRITES_MAX_OPS
    && (Bytes(writes, wire, r.start, r.end) <= APPLY_WRITES_MAX_BYTES || r.end - r.start == 1)
  }

  /** The ranges follow on from one another, from `from` up to `to`. */
  predicate Consecutive(chunks: seq<Range>, from: nat, to: nat) {
    if chunks == [] then from == to
    else chunks[0].start == from && chunks[0].end <= to && Consecutive(chunks[1..], chunks[0].end, to)
  }

  /** A way of sending the first n writes: every one in one range, every range
      one call may carry. */
  ghost predicate Covers<Op>(writes: seq<Op>, wire: Wire<Op>, chunks: seq<Range>, n: nat) {
    && Consecutive(chunks, 0, n)
    && forall c | c in chunks :: Sendable(writes, wire, c)
  }

  /** A stretch nothing can send any further in one call. */
  predicate Full<Op>(writes: seq<Op>, wire: Wire<Op>, r: Range) {
    r.end < |writes| ==> !Sendable(writes, wire, Range(r.start, r.end + 1))
  }

  lemma {:induction false} ConsecutiveAppend(chunks: seq<Range>, from: nat, mid: nat, to: nat)
    requires Consecutive(chunks, from, mid) && mid <= to
    ensures Consecutive(chunks + [Range(mid, to)], from, to)
    decreases |chunks|
  {
    if chunks == [] {
      assert Consecutive([], to, to);
    } else {
      ConsecutiveAppend(chunks[1..], chunks[0].end, mid, to);
      assert (chunks + [Range(mid, to)])[1..] == chunks[1..] + [Range(mid, to)];
    }
  }

  /** The greedy split: each range as long as the limits allow. */
  method ChunkWrites<Op>(writes: seq<Op>, wire: Wire<Op>) returns (chunks: seq<Range>)
    ensures Covers(writes, wire, chunks, |writes|)
    ensures forall c | c in chunks :: Full(writes, wire, c)
  {
    chunks := [];
    var start: nat, bytes: nat := 0, 0;
    for i := 0 to |writes|
      invariant start <= i && (i > 0 ==> start < i)
      invariant Consecutive(chunks, 0, start)
      invariant forall c | c in chunks :: Sendable(writes, wire, c) && Full(writes, wire, c)
      invariant start < i ==> Sendable(writes, wire, Range(start, i))
      invariant bytes == Bytes(writes, wire, start, i)
    {
      var size := wire(writes[i]) + 1;
      var held := i - start;
      if held > 0 && (held == APPLY_WRITES_MAX_OPS || bytes + size > APPLY_WRITES_MAX_BYTES) {
        assert Full(writes, wire, Range(start, i));
        ConsecutiveAppend(chunks, 0, start, i);
        chunks := chunks + [Range(start, i)];
        start := i;
        bytes := 0;
      }
      bytes := bytes + size;
      assert bytes == Bytes(writes, wire, start, i + 1);
    }
    if start < |writes| {
      ConsecutiveAppend(chunks, 0, start, |writes|);
      chunks := chunks + [Range(start, |writes|)];
    }
  }

  // ---- no split needs fewer calls ---------------------------------------------

  lemma {:induction false} BytesWithin<Op>(writes: seq<Op>, wire: Wire<Op>, i: nat, i': nat, j': nat, j: nat)
    requires i <= i' <= j' <= j <= |writes|
    ensures Bytes(writes, wire, i', j') <= Bytes(writes, wire, i, j)
    decreases j
  {
    if j' < j {
      BytesWithin(writes, wire, i, i', j', j - 1);
    } else if i' < j {
      BytesWithin(writes, wire, i, i', j' - 1, j - 1);
    }
  }

  /** Part of what one call may carry, one call may carry. */
  lemma PartIsSendable<Op>(writes: seq<Op>, wire: Wire<Op>, whole: Range, part: Range)
    requires Sendable(writes, wire, whole) && whole.start <= part.start < part.end <= whole.end
    ensures Sendable(writes, wire, part)
  {
    BytesWithin(writes, wire, whole.start, part.start, part.end, whole.end);
  }

  /** Greedy stays ahead: from a place no further back, ranges that are all full
      finish in no more calls than any others. */
  lemma {:induction false} StaysAhead<Op>(writes: seq<Op>, wire: Wire<Op>, greedy: seq<Range>, a: nat, other: seq<Range>, b: nat)
    requires b <= a && Consecutive(greedy, a, |writes|) && Consecutive(other, b, |writes|)
    requires forall c | c in greedy :: Sendable(writes, wire, c) && Full(writes, wire, c)
    requires forall c | c in other :: Sendable(writes, wire, c)
    ensures |greedy| <= |other|
    decreases |other|
  {
    if greedy != [] {
      var g := greedy[0];
      assert g in greedy;
      if other != [] {
        var o := other[0];
        assert o in other;
        if g.end < o.end {
          PartIsSendable(writes, wire, o, Range(g.start, g.end + 1));
        }
        assert forall c | c in greedy[1..] :: c in greedy;
        assert forall c | c in other[1..] :: c in other;
        StaysAhead(writes, wire, greedy[1..], g.end, other[1..], o.end);
      }
    }
  }

  /** A split all of whose ranges are full is the shortest there is. */
  lemma FewestCalls<Op>(writes: seq<Op>, wire: Wire<Op>, greedy: seq<Range>, other: seq<Range>)
    requires Covers(writes, wire, greedy, |writes|) && Covers(writes, wire, other, |writes|)
    requires forall c | c in greedy :: Full(writes, wire, c)
    ensures |greedy| <= |other|
  {
    StaysAhead(writes, wire, greedy, 0, other, 0);
  }

  // ---- sending them -----------------------------------------------------------

  /** A server taking calls. A call that fails may have been committed or not. */
  class Pds<Op> {
    var committed: seq<Op>
    var received: seq<seq<Op>>

    constructor ()
      ensures committed == [] && received == []
    {
      committed, received := [], [];
    }

    method Send(chunk: seq<Op>) returns (acknowledged: bool)
      modifies this
      ensures received == old(received) + [chunk]
      ensures acknowledged ==> committed == old(committed) + chunk
      ensures !acknowledged ==> committed == old(committed) || committed == old(committed) + chunk
    {
      received := received + [chunk];
      if * {
        committed := committed + chunk;
        acknowledged := *;
      } else {
        acknowledged := false;
      }
    }
  }

  /** How far a batch got before a call failed. */
  datatype Incomplete = Incomplete(landed: nat, inDoubt: nat, total: nat, chunk: nat, chunks: nat)

  function Flatten<Op>(calls: seq<seq<Op>>): seq<Op> {
    if calls == [] then [] else Flatten(calls[..|calls| - 1]) + calls[|calls| - 1]
  }

  lemma FlattenMore<Op>(calls: seq<seq<Op>>, call: seq<Op>)
    ensures Flatten(calls + [call]) == Flatten(calls) + call
  {
    assert (calls + [call])[..|calls|] == calls;
  }

  lemma FlattenNone<Op>()
    ensures Flatten<Op>([]) == []
  {
  }

  lemma PrefixMore<Op>(base: seq<Op>, writes: seq<Op>, i: nat, j: nat)
    requires i <= j <= |writes|
    ensures writes[..i] + writes[i..j] == writes[..j]
    ensures base + writes[..i] + writes[i..j] == base + writes[..j]
  {
  }

  /** The next range of a split starts where the ones before it end. */
  lemma NextRange(chunks: seq<Range>, i: nat, from: nat, to: nat)
    requires i < |chunks| && Consecutive(chunks[i..], from, to)
    ensures chunks[i].start == from && chunks[i].end <= to && Consecutive(chunks[i + 1..], chunks[i].end, to)
  {
    assert chunks[i..][1..] == chunks[i + 1..];
  }

  lemma NoneLeft(chunks: seq<Range>, from: nat, to: nat)
    requires Consecutive(chunks[|chunks|..], from, to)
    ensures from == to
  {
    assert chunks[|chunks|..] == [];
  }

  /** The split that is sent: in ranges one call may carry, and no other split
      needs fewer. */
  method PlanCalls<Op>(writes: seq<Op>, wire: Wire<Op>) returns (chunks: seq<Range>)
    ensures Consecutive(chunks, 0, |writes|)
    ensures forall c | c in chunks :: Sendable(writes, wire, c)
    ensures forall other | Covers(writes, wire, other, |writes|) :: |chunks| <= |other|
  {
    chunks := ChunkWrites(writes, wire);
    forall other | Covers(writes, wire, other, |writes|) ensures |chunks| <= |other| {
      FewestCalls(writes, wire, chunks, other);
    }
  }

  /** A call within both limits: some writes, not too many, and not too large
      unless there is only one. */
  predicate WithinLimits<Op>(call: seq<Op>, wire: Wire<Op>) {
    && 0 < |call| <= APPLY_WRITES_MAX_OPS
    && (Bytes(call, wire, 0, |call|) <= APPLY_WRITES_MAX_BYTES || |call| == 1)
  }

  /** What a batch has sent once its first `sent` writes have gone out: calls
      within the limits, which carry just those writes, in order. */
  ghost predicate SentSoFar<Op>(writes: seq<Op>, wire: Wire<Op>, calls: seq<seq<Op>>, sent: nat) {
    && sent <= |writes| && Flatten(calls) == writes[..sent]
    && forall call | call in calls :: WithinLimits(call, wire)
  }

  /** A stretch of writes takes the bytes it takes on its own. */
  lemma {:induction false} StretchBytes<Op>(writes: seq<Op>, wire: Wire<Op>, i: nat, j: nat, n: nat)
    requires i <= j <= |writes| && n <= j - i
    ensures Bytes(writes[i..j], wire, 0, n) == Bytes(writes, wire, i, i + n)
  {
    if n > 0 {
      StretchBytes(writes, wire, i, j, n - 1);
    }
  }

  lemma OneMoreCall<Op>(base: seq<Op>, writes: seq<Op>, wire: Wire<Op>, calls: seq<seq<Op>>, range: Range)
    requires SentSoFar(writes, wire, calls, range.start) && Sendable(writes, wire, range)
    ensures SentSoFar(writes, wire, calls + [writes[range.start..range.end]], range.end)
    ensures base + writes[..range.start] + writes[range.start..range.end] == base + writes[..range.end]
  {
    hide Flatten;
    StretchBytes(writes, wire, range.start, range.end, range.end - range.start);
    FlattenMore(calls, writes[range.start..range.end]);
    PrefixMore(base, writes, range.start, range.end);
  }

  /** Send a batch as consecutive calls, stopping at the first that fails.

      What the server holds is then a prefix of the batch: all of it when no call
      failed, and otherwise the writes that landed, with or without the failed
      call's. The calls it got carry that same prefix, each write once and in
      order, and nothing after it; each is within both limits, and they are as few
      as any split could make. */
  method ApplyWritesChunked<Op>(writes: seq<Op>, wire: Wire<Op>, pds: Pds<Op>)
    returns (r: Result<(), Incomplete>, ghost calls: seq<seq<Op>>)
    modifies pds
    ensures r.Ok? ==> pds.committed == old(pds.committed) + writes
    ensures r.Err? ==>
      && r.error.total == |writes| && r.error.inDoubt > 0
      && r.error.landed + r.error.inDoubt <= |writes|
      && (|| pds.committed == old(pds.committed) + writes[..r.error.landed]
          || pds.committed == old(pds.committed) + writes[..r.error.landed + r.error.inDoubt])
      && |calls| == r.error.chunk <= r.error.chunks
    ensures pds.received == old(pds.received) + calls
    ensures SentSoFar(writes, wire, calls, if r.Ok? then |writes| else r.error.landed + r.error.inDoubt)
    ensures forall other | Covers(writes, wire, other, |writes|) :: |calls| <= |other|
  {
    hide Covers, Consecutive, SentSoFar, Bytes;
    var chunks := PlanCalls(writes, wire);
    assert chunks[0..] == chunks;
    var sent: nat := 0;
    calls := [];
    NothingSent(writes, wire);
    for i := 0 to |chunks|
      invariant sent <= |writes| && Consecutive(chunks[i..], sent, |writes|)
      invariant pds.committed == old(pds.committed) + writes[..sent]
      invariant pds.received == old(pds.received) + calls && |calls| == i
      invariant SentSoFar(writes, wire, calls, sent)
    {
      var range := chunks[i];
      NextRange(chunks, i, sent, |writes|);
      assert range in chunks;
      var call := writes[range.start..range.end];
      OneMoreCall(old(pds.committed), writes, wire, calls, range);
      calls := calls + [call];
      var acknowledged := pds.Send(call);
      if !acknowledged {
        return Err(Incomplete(range.start, range.end - range.start, |writes|, i + 1, |chunks|)), calls;
      }
      sent := range.end;
    }
    NoneLeft(chunks, sent, |writes|);
    assert writes[..sent] == writes;
    return Ok(()), calls;
  }

  lemma NothingSent<Op>(writes: seq<Op>, wire: Wire<Op>)
    ensures SentSoFar(writes, wire, [], 0)
  {
    FlattenNone<Op>();
  }
}
