/** The walk that truncates: the records a caller keeps, as far as the caps, the
    budget and the server let it read, with flags saying what was not read. */
module RecentWalk {
  import opened Wrappers
  import opened Octets
  import opened Budget
  import opened RepoWalk

  datatype RecordWalk = RecordWalk(
    records: seq<RecordEntry>,
    complete: bool,
    malformed: nat,
    outOfBudget: bool)

  datatype Reading = Read(walk: RecordWalk) | Broken

  /** What a page needs while it is held whole. */
  function PageCost(page: Page): nat {
    TotalBytes(page.records) + page.malformedBytes
  }

  /** What a page is charged: the records kept of it and the ones it skipped. */
  function KeptCharge(keep: Keep, asked: nat, page: Page): nat {
    TotalBytes(Filter(keep, asked, page.records)) + if page.malformed > 0 then page.malformedBytes else 0
  }

  /** Every record of the first n pages that the caller keeps. */
  function Kept(server: Server, keep: Keep, n: nat): seq<RecordEntry> {
    Filter(keep, 0, Records(server, n))
  }

  function KeptSpent(server: Server, keep: Keep, n: nat): nat {
    if n == 0 then 0
    else
      KeptSpent(server, keep, n - 1)
      + match ReplyAt(server, n - 1)
        case Served(page) => KeptCharge(keep, |Records(server, n - 1)|, page)
        case Failed => 0
  }

  /** What the reading walk makes of a request. */
  datatype ReadVerdict = ReadOn | PagesOut | Unserved | OverBudget | Dropped | Filled(last: bool) | CutOff | AllRead
  {
    /** Whether the page of the request is part of what was read. */
    predicate TakesPage() { Dropped? || Filled? || CutOff? || AllRead? || ReadOn? }
  }

  /** One served page, requested with `cursor`, when the caller was asked about
      `asked` records before it and holds `held` of them. */
  function JudgeKept(page: Page, cursor: Option<Bytes>, keep: Keep, asked: nat, cap: nat, room: int, held: nat): ReadVerdict {
    var total := held + |Filter(keep, asked, page.records)|;
    var step := NextStep(page, cursor);
    if PageCost(page) > room then OverBudget
    else if total > cap then Dropped
    else if total == cap then Filled(step == Finished)
    else
      match step
      case More => ReadOn
      case Repeated => CutOff
      case Finished => AllRead
  }

  /** The i-th request of a reading walk that started with `left` of its budget. */
  function ReadingVerdict(server: Server, keep: Keep, cap: nat, left: nat, i: nat): ReadVerdict {
    if i >= MAX_LIST_PAGES then PagesOut
    else
      match ReplyAt(server, i)
      case Failed => Unserved
      case Served(page) =>
        JudgeKept(page, CursorBefore(server, i), keep, |Records(server, i)|, cap,
                  left - KeptSpent(server, keep, i), |Kept(server, keep, i)|)
  }

  ghost predicate ReadingGoesOn(server: Server, keep: Keep, cap: nat, left: nat, n: nat) {
    n > 0 ==>
      && ReadingGoesOn(server, keep, cap, left, n - 1)
      && ReadingVerdict(server, keep, cap, left, n - 1) == ReadOn
  }

  /** How many pages are part of what a walk read that stopped at request n. */
  function PagesRead(v: ReadVerdict, n: nat): nat {
    if v.TakesPage() then n + 1 else n
  }

  function UpTo(s: seq<RecordEntry>, cap: nat): seq<RecordEntry> {
    if |s| <= cap then s else s[..cap]
  }

  /** The answer of a walk whose request n got the verdict v. */
  function AnswerAt(server: Server, keep: Keep, cap: nat, n: nat, v: ReadVerdict): Reading {
    if v.Unserved? then Broken
    else Read(RecordWalk(
      UpTo(Kept(server, keep, PagesRead(v, n)), cap),
      v.AllRead? || v == Filled(true),
      Malformed(server, if v.PagesOut? then n else n + 1),
      v.OverBudget?))
  }

  /** The reading walk answers after request n, having charged `spent`. */
  ghost predicate Reads(server: Server, keep: Keep, cap: nat, left: nat, n: nat, answer: Reading, spent: nat) {
    var v := ReadingVerdict(server, keep, cap, left, n);
    && ReadingGoesOn(server, keep, cap, left, n)
    && v != ReadOn
    && answer == AnswerAt(server, keep, cap, n, v)
    && spent == KeptSpent(server, keep, PagesRead(v, n))
  }

  /** A page that fits the remainder always pays for what is kept of it. */
  lemma KeptChargeFits(keep: Keep, asked: nat, page: Page)
    ensures KeptCharge(keep, asked, page) <= PageCost(page)
  {
    FilterIsCheaper(keep, asked, page.records);
  }

  /** One served page of the reading walk. */
  method TakeKept(page: Page, cursor: Option<Bytes>, budget: ByteBudget, keep: Keep, asked: nat, cap: nat, out: seq<RecordEntry>)
    returns (verdict: ReadVerdict, extended: seq<RecordEntry>)
    requires budget.Valid() && |out| <= cap
    modifies budget
    ensures budget.Valid()
    ensures verdict == JudgeKept(page, cursor, keep, asked, cap, budget.max - old(budget.used), |out|)
    ensures verdict.TakesPage() || verdict.OverBudget?
    ensures budget.used == old(budget.used) + if verdict.OverBudget? then 0 else KeptCharge(keep, asked, page)
    ensures extended == if verdict.OverBudget? then out else UpTo(out + Filter(keep, asked, page.records), cap)
    ensures verdict.ReadOn? ==> |out + Filter(keep, asked, page.records)| < cap
  {
    var got := page.Got();
    var more := page.cursor.Some? && got > 0 && page.cursor != cursor;
    var cutOff := page.cursor.Some? && got > 0 && page.cursor == cursor;
    if PageCost(page) > budget.Remaining() {
      return OverBudget, out;
    }
    var kept := Filter(keep, asked, page.records);
    KeptChargeFits(keep, asked, page);
    var charged;
    if page.malformed > 0 {
      charged := budget.Charge(TotalBytes(kept) + page.malformedBytes);
    } else {
      charged := budget.Admit(kept);
    }
    assert charged;
    var dropped;
    extended, dropped := ExtendTruncating(out, kept, cap);
    assert dropped ==> extended == (out + kept)[..cap];
    if dropped {
      return Dropped, extended;
    }
    if |extended| >= cap {
      return Filled(!more && !cutOff), extended;
    }
    verdict := if cutOff then CutOff else if !more then AllRead else ReadOn;
  }

  /** What one more served page adds to what has been offered and kept. */
  lemma PageAdds(server: Server, keep: Keep, i: nat)
    requires ReplyAt(server, i).Served?
    ensures var page := ReplyAt(server, i).page;
      && Kept(server, keep, i + 1) == Kept(server, keep, i) + Filter(keep, |Records(server, i)|, page.records)
      && |Records(server, i + 1)| == |Records(server, i)| + |page.records|
      && Malformed(server, i + 1) == Malformed(server, i) + page.malformed
      && CursorBefore(server, i + 1) == page.cursor
  {
    FilterAppend(keep, 0, Records(server, i), ReplyAt(server, i).page.records);
  }

  lemma NothingServedYet(server: Server, keep: Keep)
    ensures Kept(server, keep, 0) == [] && Records(server, 0) == [] && Malformed(server, 0) == 0 && CursorBefore(server, 0) == None
  {
  }

  /** A walk that stops after a served page answers with what it holds. */
  lemma Answered(server: Server, keep: Keep, cap: nat, left: nat, n: nat, v: ReadVerdict, out: seq<RecordEntry>, malformed: nat)
    requires ReadingGoesOn(server, keep, cap, left, n)
    requires v == ReadingVerdict(server, keep, cap, left, n) != ReadOn && !v.PagesOut? && !v.Unserved?
    requires out == UpTo(Kept(server, keep, PagesRead(v, n)), cap) && malformed == Malformed(server, n + 1)
    ensures Reads(server, keep, cap, left, n,
                  Read(RecordWalk(out, v.AllRead? || v == Filled(true), malformed, v.OverBudget?)),
                  KeptSpent(server, keep, PagesRead(v, n)))
  {
  }

  /** The records of a collection that the caller keeps, most recent first. */
  method ListRecentMatchingWithin(server: Server, cap: nat, budget: ByteBudget, keep: Keep)
    returns (r: Reading, ghost last: nat)
    requires budget.Valid()
    modifies budget
    ensures budget.Valid()
    ensures budget.used >= old(budget.used)
    ensures Reads(server, keep, cap, budget.max - old(budget.used), last, r, budget.used - old(budget.used))
  {
    hide After, TotalBytes, JudgeKept, KeptCharge, PageCost, Filter;
    var out: seq<RecordEntry> := [];
    var cursor: Option<Bytes> := None;
    var malformed, asked := 0, 0;
    ghost var left, charged := budget.Remaining(), budget.used;
    NothingServedYet(server, keep);
    for i := 0 to MAX_LIST_PAGES
      invariant budget.Valid()
      invariant |out| <= cap
      invariant budget.used == charged + KeptSpent(server, keep, i)
      invariant cursor == CursorBefore(server, i)
      invariant malformed == Malformed(server, i) && asked == |Records(server, i)|
      invariant out == Kept(server, keep, i)
      invariant ReadingGoesOn(server, keep, cap, left, i)
    {
      last := i;
      var reply := server(i, cursor);
      if reply.Failed? {
        return Broken, i;
      }
      malformed := malformed + reply.page.malformed;
      PageAdds(server, keep, i);
      var verdict;
      verdict, out := TakeKept(reply.page, cursor, budget, keep, asked, cap, out);
      assert ReadingVerdict(server, keep, cap, left, i) == verdict;
      if verdict != ReadOn {
        r := Read(RecordWalk(out, verdict.AllRead? || verdict == Filled(true), malformed, verdict.OverBudget?));
        Answered(server, keep, cap, left, i, verdict, out, malformed);
        return r, i;
      }
      cursor := reply.page.cursor;
      asked := asked + |reply.page.records|;
    }
    return Read(RecordWalk(out, false, malformed, false)), MAX_LIST_PAGES;
  }

  // ---- what the flags say -----------------------------------------------------

  lemma LedOn(server: Server, keep: Keep, cap: nat, left: nat, i: nat)
    ensures ReadingVerdict(server, keep, cap, left, i) == ReadOn ==>
      && i < MAX_LIST_PAGES && ReplyAt(server, i).Served? && StepAt(server, i) == More
      && var page := ReplyAt(server, i).page;
        && PageCost(page) <= left - KeptSpent(server, keep, i)
        && |Kept(server, keep, i)| + |Filter(keep, |Records(server, i)|, page.records)| < cap
  {
    hide TotalBytes, Filter, After, PageCost, KeptSpent;
  }

  /** A walk that has gone on past n pages was led on by each of them, kept less
      than its cap and charged no more than it had. */
  lemma {:induction false} ReadPast(server: Server, keep: Keep, cap: nat, left: nat, n: nat)
    requires ReadingGoesOn(server, keep, cap, left, n)
    ensures n <= MAX_LIST_PAGES && KeptSpent(server, keep, n) <= left
    ensures forall j: nat | j < n :: ReplyAt(server, j).Served? && StepAt(server, j) == More
    ensures n > 0 ==> |Kept(server, keep, n)| < cap
  {
    hide TotalBytes, Filter, After, KeptCharge, PageCost, StepAt;
    if n > 0 {
      LedOn(server, keep, cap, left, n - 1);
      ReadPast(server, keep, cap, left, n - 1);
      KeptChargeFits(keep, |Records(server, n - 1)|, ReplyAt(server, n - 1).page);
      PageAdds(server, keep, n - 1);
    } else {
      NothingServedYet(server, keep);
    }
  }

  /** The flags are truthful. The records are the first of what the caller keeps;
      `complete` means the server ended the collection and all of it was kept;
      not complete means a page was refused, a kept record was dropped, or the
      server had more to give. */
  lemma FlagsAreTruthful(server: Server, keep: Keep, cap: nat, left: nat, n: nat, w: RecordWalk, spent: nat)
    ensures Reads(server, keep, cap, left, n, Read(w), spent) ==>
      && |w.records| <= cap && w.records <= Kept(server, keep, n + 1)
      && (w.complete ==> CollectionEndsAt(server, n) && w.records == Kept(server, keep, n + 1))
      && (!w.complete ==>
            || w.outOfBudget
            || |w.records| < |Kept(server, keep, n + 1)|
            || (n < MAX_LIST_PAGES && (LeadsOn(server, n) || Repeats(server, n)))
            || (n == MAX_LIST_PAGES && LeadsOn(server, n - 1)))
  {
    hide TotalBytes, Filter, KeptCharge, After, PageCost, KeptSpent, Kept;
    if Reads(server, keep, cap, left, n, Read(w), spent) {
      ReadPast(server, keep, cap, left, n);
      StepsByPages(server, n);
      StepsByPage(server, n);
      hide LeadsOn, Repeats, Ends;
      KeptUpTo(server, keep, n);
      if ReplyAt(server, n).Served? {
        PageAdds(server, keep, n);
      }
    }
  }

  /** `outOfBudget` means exactly that the page the walk stopped at did not fit
      what was left; the account never goes over, and the count of skipped
      records is that of every page looked at. */
  lemma BudgetFlagIsExact(server: Server, keep: Keep, cap: nat, left: nat, n: nat, w: RecordWalk, spent: nat)
    ensures Reads(server, keep, cap, left, n, Read(w), spent) ==>
      && spent <= left
      && (w.outOfBudget <==>
            && n < MAX_LIST_PAGES && ReplyAt(server, n).Served?
            && var page := ReplyAt(server, n).page;
              TotalBytes(page.records) + page.malformedBytes > left - KeptSpent(server, keep, n))
      && (w.outOfBudget ==> w.records == Kept(server, keep, n) && spent == KeptSpent(server, keep, n))
      && w.malformed == Malformed(server, if n == MAX_LIST_PAGES then n else n + 1)
  {
    hide TotalBytes, Filter, After, Malformed, Records;
    if Reads(server, keep, cap, left, n, Read(w), spent) {
      ReadPast(server, keep, cap, left, n);
      KeptUpTo(server, keep, n);
      if ReplyAt(server, n).Served? {
        KeptChargeFits(keep, |Records(server, n)|, ReplyAt(server, n).page);
      }
    }
  }

  lemma KeptUpTo(server: Server, keep: Keep, n: nat)
    ensures Kept(server, keep, n) <= Kept(server, keep, n + 1)
    ensures n == 0 ==> Kept(server, keep, n) == []
  {
    if ReplyAt(server, n).Served? {
      PageAdds(server, keep, n);
    }
  }

  lemma {:induction false} KeptAccumulates(server: Server, keep: Keep, m: nat, n: nat)
    requires m <= n
    ensures Kept(server, keep, m) <= Kept(server, keep, n)
    decreases n - m
  {
    if m < n {
      KeptAccumulates(server, keep, m, n - 1);
      KeptUpTo(server, keep, n - 1);
    }
  }

  // ---- one walk against another -----------------------------------------------

  /** Two callers of which one narrows the other on the first n pages do so on any
      fewer, and on each of these pages. */
  lemma SelectsEarlier(server: Server, own: RecordEntry -> bool, wide: Keep, narrow: Keep, m: nat, n: nat)
    requires m <= n && Selects(own, wide, narrow, 0, Records(server, n))
    ensures Selects(own, wide, narrow, 0, Records(server, m))
  {
    RecordsGrow(server, m, n);
    hide After;
    var a, b := Records(server, m), Records(server, n);
    forall j: nat | j < |a| ensures narrow(0 + j, a[j]) <==> own(a[j]) && wide(0 + j, a[j]) {
      assert a[j] == b[j];
    }
  }

  lemma SelectsPage(server: Server, own: RecordEntry -> bool, wide: Keep, narrow: Keep, i: nat)
    requires Selects(own, wide, narrow, 0, Records(server, i + 1)) && ReplyAt(server, i).Served?
    ensures Selects(own, wide, narrow, |Records(server, i)|, ReplyAt(server, i).page.records)
  {
    var a, page, b := Records(server, i), ReplyAt(server, i).page.records, Records(server, i + 1);
    assert b == a + page;
    hide After;
    forall j: nat | j < |page| ensures narrow(|a| + j, page[j]) <==> own(page[j]) && wide(|a| + j, page[j]) {
      assert page[j] == b[|a| + j];
      assert narrow(0 + (|a| + j), b[|a| + j]) <==> own(b[|a| + j]) && wide(0 + (|a| + j), b[|a| + j]);
    }
  }

  /** Whatever the caps, a narrower caller is charged no more for the same pages,
      and keeps of them what it chooses from what the wider one keeps. */
  lemma {:induction false} SpendsLess(server: Server, own: RecordEntry -> bool, wide: Keep, narrow: Keep, n: nat)
    requires Selects(own, wide, narrow, 0, Records(server, n))
    ensures KeptSpent(server, narrow, n) <= KeptSpent(server, wide, n)
    ensures Kept(server, narrow, n) == Chosen(own, Kept(server, wide, n))
  {
    hide TotalBytes, Filter, After, Chosen, Selects;
    FilterIsChosen(own, wide, narrow, 0, Records(server, n));
    if n > 0 {
      SelectsEarlier(server, own, wide, narrow, n - 1, n);
      SpendsLess(server, own, wide, narrow, n - 1);
      if ReplyAt(server, n - 1).Served? {
        SelectsPage(server, own, wide, narrow, n - 1);
        FilterMonotone(own, wide, narrow, |Records(server, n - 1)|, ReplyAt(server, n - 1).page.records);
      }
    }
  }

  /** Where the wider walk takes a page, the verdict of a narrower one with no less
      budget depends on nothing but its own cap and what the server offers. */
  lemma VerdictOnTakenPage(
      server: Server, own: RecordEntry -> bool, wide: Keep, narrow: Keep, cap1: nat, cap2: nat, left1: nat, left2: nat, n: nat)
    requires left1 >= left2 && Selects(own, wide, narrow, 0, Records(server, n + 1))
    requires ReadingVerdict(server, wide, cap2, left2, n).TakesPage()
    ensures ReadingVerdict(server, narrow, cap1, left1, n) ==
      var total := |Kept(server, narrow, n + 1)|;
      if total > cap1 then Dropped
      else if total == cap1 then Filled(StepAt(server, n) == Finished)
      else match StepAt(server, n) case More => ReadOn case Repeated => CutOff case Finished => AllRead
  {
    hide TotalBytes, Filter, After, Selects, Chosen;
    SelectsEarlier(server, own, wide, narrow, n, n + 1);
    SpendsLess(server, own, wide, narrow, n);
    PageAdds(server, narrow, n);
  }

  /** Where the wider walk goes on, the narrower one does exactly as long as its
      own cap leaves it room. */
  lemma {:induction false} GoesOnWhileRoom(
      server: Server, own: RecordEntry -> bool, wide: Keep, narrow: Keep, cap1: nat, cap2: nat, left1: nat, left2: nat, n: nat)
    requires left1 >= left2 && ReadingGoesOn(server, wide, cap2, left2, n)
    requires Selects(own, wide, narrow, 0, Records(server, n))
    ensures ReadingGoesOn(server, narrow, cap1, left1, n) <==> n == 0 || |Kept(server, narrow, n)| < cap1
  {
    hide Filter, After, Selects, ReadingVerdict;
    if n > 0 {
      SelectsEarlier(server, own, wide, narrow, n - 1, n);
      GoesOnWhileRoom(server, own, wide, narrow, cap1, cap2, left1, left2, n - 1);
      LedOn(server, wide, cap2, left2, n - 1);
      VerdictOnTakenPage(server, own, wide, narrow, cap1, cap2, left1, left2, n - 1);
      KeptUpTo(server, narrow, n - 1);
    }
  }

  lemma {:induction false} GoesOnAt(server: Server, keep: Keep, cap: nat, left: nat, m: nat, n: nat)
    requires m < n && ReadingGoesOn(server, keep, cap, left, n)
    ensures ReadingVerdict(server, keep, cap, left, m) == ReadOn && ReadingGoesOn(server, keep, cap, left, m)
  {
    hide ReadingVerdict;
    if m < n - 1 {
      GoesOnAt(server, keep, cap, left, m, n - 1);
    }
  }

  lemma ChosenPrefix(own: RecordEntry -> bool, a: seq<RecordEntry>, b: seq<RecordEntry>)
    requires a <= b
    ensures Chosen(own, a) <= Chosen(own, b)
  {
    assert b == a + b[|a|..];
    ChosenAppend(own, a, b[|a|..]);
  }

  /** A walk has nothing exactly when the request it stops at fails. */
  lemma BreaksWhenARequestFails(server: Server, keep: Keep, cap: nat, left: nat, n: nat, answer: Reading, spent: nat)
    ensures Reads(server, keep, cap, left, n, answer, spent) ==>
      (answer.Broken? <==> n < MAX_LIST_PAGES && ReplyAt(server, n).Failed?)
  {
    hide TotalBytes, Filter, After;
  }

  /** Two reads of one server: a shared walk, and one alone with at least as much
      budget, which keeps of the records of the pages the shared walk took what
      that keeps and what is its own. The caps are unrelated, but what is its own
      in the shared walk fits the cap of the walk alone. */
  ghost predicate TwoReads(
      server: Server, own: RecordEntry -> bool, wide: Keep, narrow: Keep, cap1: nat, cap2: nat, left1: nat, left2: nat,
      n1: nat, alone: Reading, spent1: nat, n2: nat, shared: RecordWalk, spent2: nat)
  {
    && left1 >= left2
    && Reads(server, narrow, cap1, left1, n1, alone, spent1)
    && Reads(server, wide, cap2, left2, n2, Read(shared), spent2)
    && Selects(own, wide, narrow, 0, Records(server, PagesRead(ReadingVerdict(server, wide, cap2, left2, n2), n2)))
    && |Chosen(own, shared.records)| <= cap1
  }

  /** The walk alone goes at least as far, unless its own cap fills first. */
  lemma AloneReachesOrFills(
      server: Server, own: RecordEntry -> bool, wide: Keep, narrow: Keep, cap1: nat, cap2: nat, left1: nat, left2: nat,
      n1: nat, alone: Reading, spent1: nat, n2: nat, shared: RecordWalk, spent2: nat)
    requires TwoReads(server, own, wide, narrow, cap1, cap2, left1, left2, n1, alone, spent1, n2, shared, spent2)
    ensures n1 < n2 ==>
      && |Kept(server, narrow, n1 + 1)| >= cap1
      && alone == Read(RecordWalk(Kept(server, narrow, n1 + 1)[..cap1], false, Malformed(server, n1 + 1), false))
    ensures n1 == n2 && ReadingVerdict(server, wide, cap2, left2, n2).TakesPage() ==>
      ReadingVerdict(server, narrow, cap1, left1, n1).TakesPage()
  {
    hide TotalBytes, Filter, After, Chosen, Selects, ReadingVerdict, KeptSpent, ReadingGoesOn;
    var m2 := PagesRead(ReadingVerdict(server, wide, cap2, left2, n2), n2);
    if n1 < n2 {
      GoesOnAt(server, wide, cap2, left2, n1, n2);
      LedOn(server, wide, cap2, left2, n1);
      SelectsEarlier(server, own, wide, narrow, n1 + 1, m2);
      VerdictOnTakenPage(server, own, wide, narrow, cap1, cap2, left1, left2, n1);
    } else if n1 == n2 && m2 == n2 + 1 {
      VerdictOnTakenPage(server, own, wide, narrow, cap1, cap2, left1, left2, n1);
    }
  }

  /** What is its own in the shared walk is the first of what the walk alone keeps
      of the same pages. */
  lemma GroupIsFirst(
      server: Server, own: RecordEntry -> bool, wide: Keep, narrow: Keep, cap1: nat, cap2: nat, left1: nat, left2: nat,
      n1: nat, alone: Reading, spent1: nat, n2: nat, shared: RecordWalk, spent2: nat)
    requires TwoReads(server, own, wide, narrow, cap1, cap2, left1, left2, n1, alone, spent1, n2, shared, spent2)
    ensures var m2 := PagesRead(ReadingVerdict(server, wide, cap2, left2, n2), n2);
      && Chosen(own, shared.records) <= Kept(server, narrow, m2)
      && (!shared.outOfBudget && (shared.complete || |shared.records| < cap2) ==>
            Chosen(own, shared.records) == Kept(server, narrow, m2))
  {
    hide TotalBytes, Filter, After, Chosen, Selects;
    var m2 := PagesRead(ReadingVerdict(server, wide, cap2, left2, n2), n2);
    SpendsLess(server, own, wide, narrow, m2);
    FlagsAreTruthful(server, wide, cap2, left2, n2, shared, spent2);
    ChosenPrefix(own, shared.records, Kept(server, wide, m2));
  }

  /** Reading alone is never worse: the walk alone has every record of its own that
      the shared walk gave it, in the same places. It breaks exactly when it comes
      to a failing request, and then to one the shared walk never made. */
  lemma ReadingAloneIsNeverWorse(
      server: Server, own: RecordEntry -> bool, wide: Keep, narrow: Keep, cap1: nat, cap2: nat, left1: nat, left2: nat,
      n1: nat, alone: Reading, spent1: nat, n2: nat, shared: RecordWalk, spent2: nat)
    ensures TwoReads(server, own, wide, narrow, cap1, cap2, left1, left2, n1, alone, spent1, n2, shared, spent2) ==>
      && (alone.Read? ==> Chosen(own, shared.records) <= alone.walk.records)
      && (alone.Broken? <==> n2 < n1 < MAX_LIST_PAGES && ReplyAt(server, n1).Failed?)
  {
    hide TotalBytes, Filter, After, Chosen, Selects;
    if TwoReads(server, own, wide, narrow, cap1, cap2, left1, left2, n1, alone, spent1, n2, shared, spent2) {
      AloneReachesOrFills(server, own, wide, narrow, cap1, cap2, left1, left2, n1, alone, spent1, n2, shared, spent2);
      GroupIsFirst(server, own, wide, narrow, cap1, cap2, left1, left2, n1, alone, spent1, n2, shared, spent2);
      BreaksWhenARequestFails(server, narrow, cap1, left1, n1, alone, spent1);
      BreaksWhenARequestFails(server, wide, cap2, left2, n2, Read(shared), spent2);
      var m1 := PagesRead(ReadingVerdict(server, narrow, cap1, left1, n1), n1);
      var m2 := PagesRead(ReadingVerdict(server, wide, cap2, left2, n2), n2);
      if m1 >= m2 {
        KeptAccumulates(server, narrow, m2, m1);
      } else {
        KeptAccumulates(server, narrow, n1 + 1, m2);
      }
    }
  }

  /** The budget is the only end of the shared walk that reading alone can change.
      At every other, short of its own combined cap, and whenever what is its own
      fills the cap of the walk alone, that gives the same records again. */
  lemma OtherEndsAreTheSame(
      server: Server, own: RecordEntry -> bool, wide: Keep, narrow: Keep, cap1: nat, cap2: nat, left1: nat, left2: nat,
      n1: nat, alone: Reading, spent1: nat, n2: nat, shared: RecordWalk, spent2: nat)
    ensures
      && TwoReads(server, own, wide, narrow, cap1, cap2, left1, left2, n1, alone, spent1, n2, shared, spent2)
      && ((!shared.outOfBudget && (shared.complete || |shared.records| < cap2)) || |Chosen(own, shared.records)| == cap1)
      ==> alone.Read? && alone.walk.records == Chosen(own, shared.records)
  {
    hide TotalBytes, Filter, After, Chosen, Selects;
    if TwoReads(server, own, wide, narrow, cap1, cap2, left1, left2, n1, alone, spent1, n2, shared, spent2) {
      var group := Chosen(own, shared.records);
      AloneReachesOrFills(server, own, wide, narrow, cap1, cap2, left1, left2, n1, alone, spent1, n2, shared, spent2);
      GroupIsFirst(server, own, wide, narrow, cap1, cap2, left1, left2, n1, alone, spent1, n2, shared, spent2);
      ReadingAloneIsNeverWorse(server, own, wide, narrow, cap1, cap2, left1, left2, n1, alone, spent1, n2, shared, spent2);
      var m2 := PagesRead(ReadingVerdict(server, wide, cap2, left2, n2), n2);
      if |group| == cap1 {
        if n1 > n2 {
          KeptAccumulates(server, narrow, m2, n1);
          ReadPast(server, narrow, cap1, left1, n1);
        }
        assert n1 <= n2 && alone.Read?;
        FlagsAreTruthful(server, narrow, cap1, left1, n1, alone.walk, spent1);
      } else if !shared.outOfBudget && (shared.complete || |shared.records| < cap2) {
        if n1 > n2 {
          GoesOnAt(server, narrow, cap1, left1, n2, n1);
          EndsForBoth(server, own, wide, narrow, cap1, cap2, left1, left2, n2, shared, spent2);
        } else if n1 < n2 {
          KeptAccumulates(server, narrow, n1 + 1, m2);
        }
      }
    }
  }

  /** Where the shared walk ends other than for budget or by its cap, a walk alone
      does not go on. */
  lemma EndsForBoth(
      server: Server, own: RecordEntry -> bool, wide: Keep, narrow: Keep, cap1: nat, cap2: nat, left1: nat, left2: nat,
      n: nat, shared: RecordWalk, spent: nat)
    requires left1 >= left2 && Reads(server, wide, cap2, left2, n, Read(shared), spent)
    requires Selects(own, wide, narrow, 0, Records(server, PagesRead(ReadingVerdict(server, wide, cap2, left2, n), n)))
    requires !shared.outOfBudget && (shared.complete || |shared.records| < cap2)
    ensures ReadingVerdict(server, narrow, cap1, left1, n) != ReadOn
  {
    hide TotalBytes, Filter, After, Chosen, Selects;
    var v := ReadingVerdict(server, wide, cap2, left2, n);
    if v.TakesPage() {
      PageAdds(server, wide, n);
      VerdictOnTakenPage(server, own, wide, narrow, cap1, cap2, left1, left2, n);
    }
  }

  /** Where the shared walk is complete, the walk alone is too, exactly unless its
      own cap fills on an earlier page; which it cannot if it is no smaller. */
  lemma CompleteAlone(
      server: Server, own: RecordEntry -> bool, wide: Keep, narrow: Keep, cap1: nat, cap2: nat, left1: nat, left2: nat,
      n1: nat, alone: Reading, spent1: nat, n2: nat, shared: RecordWalk, spent2: nat)
    ensures
      && TwoReads(server, own, wide, narrow, cap1, cap2, left1, left2, n1, alone, spent1, n2, shared, spent2)
      && shared.complete
      ==>
        && alone.Read?
        && (alone.walk.complete <==> n2 == 0 || |Kept(server, narrow, n2)| < cap1)
        && (cap1 >= cap2 ==> alone.walk.complete)
  {
    hide TotalBytes, Filter, After, Chosen, Selects, JudgeKept, KeptSpent;
    if TwoReads(server, own, wide, narrow, cap1, cap2, left1, left2, n1, alone, spent1, n2, shared, spent2) && shared.complete {
      OtherEndsAreTheSame(server, own, wide, narrow, cap1, cap2, left1, left2, n1, alone, spent1, n2, shared, spent2);
      GroupIsFirst(server, own, wide, narrow, cap1, cap2, left1, left2, n1, alone, spent1, n2, shared, spent2);
      AloneReachesOrFills(server, own, wide, narrow, cap1, cap2, left1, left2, n1, alone, spent1, n2, shared, spent2);
      FlagsAreTruthful(server, wide, cap2, left2, n2, shared, spent2);
      SelectsEarlier(server, own, wide, narrow, n2, n2 + 1);
      GoesOnWhileRoom(server, own, wide, narrow, cap1, cap2, left1, left2, n2);
      VerdictOnTakenPage(server, own, wide, narrow, cap1, cap2, left1, left2, n2);
      SpendsLess(server, own, wide, narrow, n2);
      ChosenIsCheaper(own, Kept(server, wide, n2));
      ReadPast(server, wide, cap2, left2, n2);
      if n1 > n2 {
        GoesOnAt(server, narrow, cap1, left1, n2, n1);
      } else if n1 < n2 && ReadingGoesOn(server, narrow, cap1, left1, n2) {
        GoesOnAt(server, narrow, cap1, left1, n1, n2);
      }
    }
  }
}
