/** Listed records, what keeping them is charged, and the budget several walks
    of one read share. */
module Budget {
  import opened Wrappers
  import opened Json
  import opened Octets

  const USIZE_MAX: nat := 0xFFFF_FFFF_FFFF_FFFF

  // Bytes of one record's envelope: two strings and a parsed value.
  const RECORD_ENTRY: nat := 80

  datatype RecordEntry = RecordEntry(uri: Bytes, cid: Option<Bytes>, value: Value)

  function ApproxBytes(e: RecordEntry): nat {
    2 * RECORD_ENTRY + |e.uri| + (if e.cid.Some? then |e.cid.value| else 0) + JsonBytes(e.value)
  }

  function TotalBytes(page: seq<RecordEntry>): nat {
    if page == [] then 0 else ApproxBytes(page[0]) + TotalBytes(page[1..])
  }

  function TotalNodes(page: seq<RecordEntry>): nat {
    if page == [] then 0 else Nodes(page[0].value) + TotalNodes(page[1..])
  }

  /** What a caller keeps: asked about every record it is offered in turn, it may
      remember what it was asked before, so its answer depends on how many those
      were as well as on the record. */
  type Keep = (nat, RecordEntry) -> bool

  /** The records that a caller keeps of these, the first of which is the one it is
      asked about after `asked` others; in their order. */
  function Filter(keep: Keep, asked: nat, page: seq<RecordEntry>): seq<RecordEntry>
    decreases |page|
  {
    if page == [] then []
    else (if keep(asked, page[0]) then [page[0]] else []) + Filter(keep, asked + 1, page[1..])
  }

  /** The retained-byte account. `used` is what the caller really kept: a charge
      that does not fit is refused and takes nothing. */
  class ByteBudget {
    var used: nat
    const max: nat

    ghost predicate Valid()
      reads this
    {
      used <= max <= USIZE_MAX
    }

    constructor (max: nat)
      requires max <= USIZE_MAX
      ensures Valid() && used == 0 && this.max == max
    {
      this.max := max;
      used := 0;
    }

    method Charge(bytes: nat) returns (ok: bool)
      requires Valid()
      modifies this
      ensures Valid()
      ensures ok <==> bytes <= max - old(used)
      ensures used == old(used) + if ok then bytes else 0
    {
      var total := used + bytes;
      ok := total <= USIZE_MAX && total <= max;
      if ok {
        used := total;
      }
    }

    method Admit(page: seq<RecordEntry>) returns (ok: bool)
      requires Valid()
      modifies this
      ensures Valid()
      ensures ok <==> TotalBytes(page) <= max - old(used)
      ensures used == old(used) + if ok then TotalBytes(page) else 0
    {
      ok := Charge(TotalBytes(page));
    }

    function Remaining(): (left: nat)
      requires Valid()
      reads this
      ensures used + left == max
    {
      max - used
    }
  }

  /** A page onto a list that may not be cut short: all of it, or a refusal that
      leaves the list as it was. */
  method ExtendBounded(out: seq<RecordEntry>, page: seq<RecordEntry>, max: nat)
    returns (extended: seq<RecordEntry>, fits: bool)
    ensures fits <==> |out| + |page| <= max
    ensures extended == if fits then out + page else out
  {
    if |out| + |page| > max {
      return out, false;
    }
    return out + page, true;
  }

  /** A page onto a list that may be cut short: the longest part that leaves the
      list within `max`, and whether that was less than the page. */
  method ExtendTruncating(out: seq<RecordEntry>, page: seq<RecordEntry>, max: nat)
    returns (extended: seq<RecordEntry>, dropped: bool)
    ensures out <= extended <= out + page
    ensures dropped <==> extended != out + page
    ensures |extended| <= Max(max, |out|)
    ensures dropped ==> |extended| == Max(max, |out|)
  {
    var room := if |out| <= max then max - |out| else 0;
    dropped := |page| > room;
    extended := out + page[..if dropped then room else |page|];
    assert !dropped ==> page[..|page|] == page;
    assert extended == (out + page)[..|extended|];
  }

  // ---- sums and filters over concatenations -----------------------------------

  lemma {:induction false} TotalBytesAppend(a: seq<RecordEntry>, b: seq<RecordEntry>)
    ensures TotalBytes(a + b) == TotalBytes(a) + TotalBytes(b)
  {
    if a == [] {
      assert a + b == b;
    } else {
      assert (a + b)[1..] == a[1..] + b;
      TotalBytesAppend(a[1..], b);
    }
  }

  lemma {:induction false} FilterAppend(keep: Keep, asked: nat, a: seq<RecordEntry>, b: seq<RecordEntry>)
    ensures Filter(keep, asked, a + b) == Filter(keep, asked, a) + Filter(keep, asked + |a|, b)
    decreases |a|
  {
    if a == [] {
      assert a + b == b;
    } else {
      assert (a + b)[1..] == a[1..] + b && (a + b)[0] == a[0];
      FilterAppend(keep, asked + 1, a[1..], b);
      var first := if keep(asked, a[0]) then [a[0]] else [];
      var rest, more := Filter(keep, asked + 1, a[1..]), Filter(keep, asked + |a|, b);
      assert first + (rest + more) == (first + rest) + more;
    }
  }

  /** What is kept of a list is charged no more than the list. */
  lemma {:induction false} FilterIsCheaper(keep: Keep, asked: nat, page: seq<RecordEntry>)
    ensures TotalBytes(Filter(keep, asked, page)) <= TotalBytes(page)
    ensures |Filter(keep, asked, page)| <= |page|
    decreases |page|
  {
    if page != [] {
      FilterIsCheaper(keep, asked + 1, page[1..]);
      var rest := Filter(keep, asked + 1, page[1..]);
      if keep(asked, page[0]) {
        assert Filter(keep, asked, page) == [page[0]] + rest && ([page[0]] + rest)[1..] == rest;
      } else {
        assert Filter(keep, asked, page) == rest;
      }
    }
  }

  /** The records of a list that satisfy a condition, in its order. */
  function Chosen(own: RecordEntry -> bool, records: seq<RecordEntry>): seq<RecordEntry> {
    if records == [] then []
    else (if own(records[0]) then [records[0]] else []) + Chosen(own, records[1..])
  }

  lemma {:induction false} ChosenAppend(own: RecordEntry -> bool, a: seq<RecordEntry>, b: seq<RecordEntry>)
    ensures Chosen(own, a + b) == Chosen(own, a) + Chosen(own, b)
  {
    if a == [] {
      assert a + b == b;
    } else {
      assert (a + b)[1..] == a[1..] + b && (a + b)[0] == a[0];
      ChosenAppend(own, a[1..], b);
      var first := if own(a[0]) then [a[0]] else [];
      assert first + (Chosen(own, a[1..]) + Chosen(own, b)) == (first + Chosen(own, a[1..])) + Chosen(own, b);
    }
  }

  lemma {:induction false} ChosenIsCheaper(own: RecordEntry -> bool, records: seq<RecordEntry>)
    ensures |Chosen(own, records)| <= |records|
    ensures TotalBytes(Chosen(own, records)) <= TotalBytes(records)
  {
    if records != [] {
      ChosenIsCheaper(own, records[1..]);
      var rest := Chosen(own, records[1..]);
      if own(records[0]) {
        assert Chosen(own, records) == [records[0]] + rest && ([records[0]] + rest)[1..] == rest;
      } else {
        assert Chosen(own, records) == rest;
      }
    }
  }

  /** Of some records, offered to each after `asked` others, the narrower caller
      keeps just those that the wider one keeps and that satisfy the condition. */
  ghost predicate Selects(own: RecordEntry -> bool, wide: Keep, narrow: Keep, asked: nat, page: seq<RecordEntry>) {
    forall j: nat | j < |page| :: narrow(asked + j, page[j]) <==> own(page[j]) && wide(asked + j, page[j])
  }

  lemma SelectsRest(own: RecordEntry -> bool, wide: Keep, narrow: Keep, asked: nat, page: seq<RecordEntry>)
    requires Selects(own, wide, narrow, asked, page) && page != []
    ensures narrow(asked, page[0]) <==> own(page[0]) && wide(asked, page[0])
    ensures Selects(own, wide, narrow, asked + 1, page[1..])
  {
    assert narrow(asked + 0, page[0]) <==> own(page[0]) && wide(asked + 0, page[0]);
    forall j: nat | j < |page| - 1
      ensures narrow(asked + 1 + j, page[1..][j]) <==> own(page[1..][j]) && wide(asked + 1 + j, page[1..][j])
    {
      assert page[1..][j] == page[j + 1] && asked + 1 + j == asked + (j + 1);
    }
  }

  /** What the narrower caller keeps is chosen from what the wider one keeps. */
  lemma {:induction false} FilterIsChosen(own: RecordEntry -> bool, wide: Keep, narrow: Keep, asked: nat, page: seq<RecordEntry>)
    requires Selects(own, wide, narrow, asked, page)
    ensures Filter(narrow, asked, page) == Chosen(own, Filter(wide, asked, page))
    decreases |page|
  {
    if page != [] {
      SelectsRest(own, wide, narrow, asked, page);
      FilterIsChosen(own, wide, narrow, asked + 1, page[1..]);
      var r, rest := page[0], Filter(wide, asked + 1, page[1..]);
      hide Selects;
      if wide(asked, r) {
        assert Filter(wide, asked, page) == [r] + rest && ([r] + rest)[1..] == rest;
      } else {
        assert Filter(wide, asked, page) == rest;
      }
    }
  }

  /** So it is charged no more. */
  lemma FilterMonotone(own: RecordEntry -> bool, wide: Keep, narrow: Keep, asked: nat, page: seq<RecordEntry>)
    requires Selects(own, wide, narrow, asked, page)
    ensures TotalBytes(Filter(narrow, asked, page)) <= TotalBytes(Filter(wide, asked, page))
    ensures |Filter(narrow, asked, page)| <= |Filter(wide, asked, page)|
  {
    FilterIsChosen(own, wide, narrow, asked, page);
    ChosenIsCheaper(own, Filter(wide, asked, page));
  }

  /** A list of records is charged at least 64 bytes for every node it holds. */
  lemma {:induction false} RecordsPayForNodes(page: seq<RecordEntry>)
    ensures SLOT * TotalNodes(page) <= TotalBytes(page)
  {
    if page != [] {
      ChargeCoversNodes(page[0].value);
      RecordsPayForNodes(page[1..]);
    }
  }

  /** The envelopes, URIs and CIDs of some records. */
  function Envelopes(page: seq<RecordEntry>): nat {
    if page == [] then 0
    else 160 + |page[0].uri| + (match page[0].cid case None => 0 case Some(cid) => |cid|) + Envelopes(page[1..])
  }

  function TotalCensus(page: seq<RecordEntry>): Census {
    if page == [] then NONE else CensusOf(page[0].value).Plus(TotalCensus(page[1..]))
  }

  /** What a list of records is charged is exactly that for their values and that
      for what is around them. */
  lemma {:induction false} RecordsAreExact(page: seq<RecordEntry>)
    ensures TotalBytes(page) == Envelopes(page) + Charge(TotalCensus(page))
  {
    if page != [] {
      ChargeIsExact(page[0].value);
      RecordsAreExact(page[1..]);
      ChargeAdds(CensusOf(page[0].value), TotalCensus(page[1..]));
    }
  }

  lemma {:induction false} PrefixIsCheaper(a: seq<RecordEntry>, b: seq<RecordEntry>)
    requires a <= b
    ensures TotalBytes(a) <= TotalBytes(b)
  {
    assert b == a + b[|a|..];
    TotalBytesAppend(a, b[|a|..]);
  }
}
