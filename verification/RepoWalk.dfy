/** Paging through a collection on a server that may answer anything: one walk
    that refuses rather than return a short list, and one that reports exactly
    when what it read is not everything. */
module RepoWalk {
  import opened Wrappers
  import opened Octets
  import opened Budget

  const MAX_LIST_PAGES: nat := 200
  const MAX_LIST_RECORDS: nat := 20_000

  datatype Page = Page(
    records: seq<RecordEntry>,
    cursor: Option<Bytes>,
    malformed: nat,
    wireBytes: nat,
    malformedBytes: nat)
  {
    function Got(): nat { |records| + malformed }
  }

  datatype Reply = Served(page: Page) | Failed

  /** A server: what it answers to the i-th request of a walk, which carries the
      given cursor. A server that answers by cursor alone ignores the number. */
  type Server = (nat, Option<Bytes>) -> Reply

  // ---- what a server offers, apart from any walk ------------------------------

  /** What the cursor of a page says about going on. */
  datatype Onward = More | Repeated | Finished

  function NextStep(page: Page, asked: Option<Bytes>): Onward {
    if page.cursor.None? || page.Got() == 0 then Finished
    else if page.cursor == asked then Repeated
    else More
  }

  /** What the refusing walk charges for a page: a page that skipped records pays
      for what crossed the wire if that is more than what its records retain. */
  function WholeCharge(page: Page): nat {
    if page.malformed > 0 then Max(page.wireBytes, TotalBytes(page.records)) else TotalBytes(page.records)
  }

  /** What the first requests of a walk have been served when every cursor is
      followed: the records in order, how many were malformed, what charging
      every page whole comes to, and the cursor the next request carries. */
  datatype Tally = Tally(records: seq<RecordEntry>, malformed: nat, spent: nat, cursor: Option<Bytes>)

  function Serve(t: Tally, reply: Reply): Tally {
    match reply
    case Failed => t.(cursor := None)
    case Served(page) =>
      Tally(t.records + page.records, t.malformed + page.malformed, t.spent + WholeCharge(page), page.cursor)
  }

  function After(server: Server, n: nat): Tally {
    if n == 0 then Tally([], 0, 0, None)
    else var t := After(server, n - 1); Serve(t, server(n - 1, t.cursor))
  }

  /** The cursor the i-th request carries. */
  function CursorBefore(server: Server, i: nat): Option<Bytes> {
    After(server, i).cursor
  }

  function ReplyAt(server: Server, i: nat): Reply {
    server(i, CursorBefore(server, i))
  }

  function StepAt(server: Server, i: nat): Onward {
    match ReplyAt(server, i)
    case Served(page) => NextStep(page, CursorBefore(server, i))
    case Failed => Finished
  }

  /** Every record of the first n pages, in the order served. */
  function Records(server: Server, n: nat): seq<RecordEntry> {
    After(server, n).records
  }

  function Malformed(server: Server, n: nat): nat {
    After(server, n).malformed
  }

  /** What the refusing walk charges for the first n pages. */
  function WholeSpent(server: Server, n: nat): nat {
    After(server, n).spent
  }

  /** Request i is answered by a page that has something on it, be it only records
      that were malformed, and a cursor other than the one asked with. */
  ghost predicate LeadsOn(server: Server, i: nat) {
    var reply := ReplyAt(server, i);
    && reply.Served? && (reply.page.records != [] || reply.page.malformed > 0)
    && reply.page.cursor.Some? && reply.page.cursor != CursorBefore(server, i)
  }

  /** It is answered by such a page, with just the cursor it asked with. */
  ghost predicate Repeats(server: Server, i: nat) {
    var reply := ReplyAt(server, i);
    && reply.Served? && (reply.page.records != [] || reply.page.malformed > 0)
    && reply.page.cursor.Some? && reply.page.cursor == CursorBefore(server, i)
  }

  /** It is answered by a page without a cursor, or with nothing at all on it. */
  ghost predicate Ends(server: Server, i: nat) {
    var reply := ReplyAt(server, i);
    reply.Served? && (reply.page.cursor == None || (reply.page.records == [] && reply.page.malformed == 0))
  }

  lemma StepsByPage(server: Server, i: nat)
    ensures StepAt(server, i) == More <==> LeadsOn(server, i)
    ensures StepAt(server, i) == Repeated <==> Repeats(server, i)
    ensures ReplyAt(server, i).Served? ==> (StepAt(server, i) == Finished <==> Ends(server, i))
  {
    hide After;
  }

  lemma StepsByPages(server: Server, n: nat)
    ensures (forall i: nat | i < n :: StepAt(server, i) == More) <==> (forall i: nat | i < n :: LeadsOn(server, i))
  {
    forall i: nat ensures StepAt(server, i) == More <==> LeadsOn(server, i) {
      StepsByPage(server, i);
    }
  }

  /** The first request carries no cursor, and each later one that of the page
      before it. */
  lemma CursorsFollow(server: Server, i: nat)
    ensures CursorBefore(server, 0) == None
    ensures ReplyAt(server, i).Served? ==> CursorBefore(server, i + 1) == ReplyAt(server, i).page.cursor
  {
  }

  /** The collection is exactly the first n + 1 pages: each of them but the last
      leads on, and the last ends it. */
  ghost predicate CollectionEndsAt(server: Server, n: nat) {
    (forall i: nat | i < n :: LeadsOn(server, i)) && Ends(server, n)
  }

  lemma RecordsGrow(server: Server, m: nat, n: nat)
    requires m <= n
    ensures Records(server, m) <= Records(server, n)
    decreases n - m
  {
    if m < n {
      RecordsGrow(server, m, n - 1);
    }
  }

  // ---- the walk that refuses --------------------------------------------------

  datatype OnMalformed = Refuse | Skip

  datatype Refusal =
    | Transport
    | MalformedRecords(count: nat)
    | MalformedTooLarge
    | TooManyBytes(held: nat, charged: nat)
    | TooManyRecords(held: nat, offered: nat)
    | RepeatedCursor(held: nat)
    | TooManyPages(held: nat)

  /** What a refusing walk answers. */
  datatype Listing = Listed(records: seq<RecordEntry>, malformed: nat) | Declined(why: Refusal)

  /** What the refusing walk makes of a request: goes on, refuses having charged
      for the page or not, or has it all. */
  datatype Verdict = GoOn | Refused(why: Refusal, paid: bool) | Complete

  /** One served page, asked for with the cursor `asked` by a walk that holds
      `held` records and has `room` left of a budget of which `used` is taken. */
  function JudgeWhole(page: Page, asked: Option<Bytes>, mode: OnMalformed, room: int, used: nat, held: nat): Verdict {
    if mode == Refuse && page.malformed > 0 then Refused(MalformedRecords(page.malformed), false)
    else if WholeCharge(page) > room then
      Refused(if page.malformed > 0 then MalformedTooLarge else TooManyBytes(held, used), false)
    else if held + |page.records| > MAX_LIST_RECORDS then Refused(TooManyRecords(held, |page.records|), true)
    else
      match NextStep(page, asked)
      case More => GoOn
      case Repeated => Refused(RepeatedCursor(held + |page.records|), true)
      case Finished => Complete
  }

  /** The i-th request of a refusing walk that started with `left` of a budget of
      which `charged` was already taken. */
  function ListingVerdict(server: Server, mode: OnMalformed, left: nat, charged: nat, i: nat): Verdict {
    if i >= MAX_LIST_PAGES then Refused(TooManyPages(|Records(server, i)|), false)
    else
      match ReplyAt(server, i)
      case Failed => Refused(Transport, false)
      case Served(page) =>
        JudgeWhole(page, CursorBefore(server, i), mode, left - WholeSpent(server, i),
                   charged + WholeSpent(server, i), |Records(server, i)|)
  }

  /** The refusing walk goes on after each of its first n requests. */
  ghost predicate ListingGoesOn(server: Server, mode: OnMalformed, left: nat, charged: nat, n: nat) {
    n > 0 ==>
      && ListingGoesOn(server, mode, left, charged, n - 1)
      && ListingVerdict(server, mode, left, charged, n - 1) == GoOn
  }

  /** The refusing walk answers after request n, having charged `spent`. */
  ghost predicate Lists(server: Server, mode: OnMalformed, left: nat, charged: nat, n: nat, answer: Listing, spent: nat) {
    && ListingGoesOn(server, mode, left, charged, n)
    && match ListingVerdict(server, mode, left, charged, n)
       case GoOn => false
       case Refused(why, paid) => answer == Declined(why) && spent == WholeSpent(server, if paid then n + 1 else n)
       case Complete =>
         answer == Listed(Records(server, n + 1), Malformed(server, n + 1)) && spent == WholeSpent(server, n + 1)
  }

  /** One served page of the refusing walk: charged, then appended whole. */
  method TakeWhole(page: Page, asked: Option<Bytes>, budget: ByteBudget, mode: OnMalformed, out: seq<RecordEntry>)
    returns (verdict: Verdict, extended: seq<RecordEntry>)
    requires budget.Valid()
    modifies budget
    ensures budget.Valid()
    ensures verdict == JudgeWhole(page, asked, mode, budget.max - old(budget.used), old(budget.used), |out|)
    ensures budget.used == old(budget.used) + if verdict.Refused? && !verdict.paid then 0 else WholeCharge(page)
    ensures !verdict.Refused? ==> extended == out + page.records
  {
    extended := out;
    if mode == Refuse && page.malformed > 0 {
      return Refused(MalformedRecords(page.malformed), false), out;
    }
    if page.malformed > 0 {
      var paid := budget.Charge(Max(page.wireBytes, TotalBytes(page.records)));
      if !paid {
        return Refused(MalformedTooLarge, false), out;
      }
    }
    var got := page.Got();
    if page.malformed == 0 {
      var paid := budget.Admit(page.records);
      if !paid {
        return Refused(TooManyBytes(|out|, budget.used), false), out;
      }
    }
    var fits;
    extended, fits := ExtendBounded(out, page.records, MAX_LIST_RECORDS);
    if !fits {
      return Refused(TooManyRecords(|out|, |page.records|), true), out;
    }
    if page.cursor.Some? && got > 0 && page.cursor == asked {
      return Refused(RepeatedCursor(|extended|), true), extended;
    }
    verdict := if page.cursor.Some? && got > 0 then GoOn else Complete;
  }

  /** What the walk answers with the page it stops at. */
  lemma Answers(server: Server, mode: OnMalformed, left: nat, charged: nat, n: nat, verdict: Verdict, out: seq<RecordEntry>, malformed: nat)
    requires ListingGoesOn(server, mode, left, charged, n) && verdict == ListingVerdict(server, mode, left, charged, n) != GoOn
    ensures verdict.Refused? ==>
      Lists(server, mode, left, charged, n, Declined(verdict.why), WholeSpent(server, if verdict.paid then n + 1 else n))
    ensures verdict.Complete? && out == Records(server, n + 1) && malformed == Malformed(server, n + 1) ==>
      Lists(server, mode, left, charged, n, Listed(out, malformed), WholeSpent(server, n + 1))
  {
    hide ListingGoesOn, ListingVerdict;
  }

  /** What one more served page adds to the tally. */
  lemma ServesAt(server: Server, i: nat)
    ensures ReplyAt(server, i).Served? ==>
      var t, page := After(server, i), ReplyAt(server, i).page;
      After(server, i + 1)
      == Tally(t.records + page.records, t.malformed + page.malformed, t.spent + WholeCharge(page), page.cursor)
  {
    hide WholeCharge;
  }

  /** Page through the whole collection, or refuse. */
  method WalkAllWithin(server: Server, budget: ByteBudget, mode: OnMalformed)
    returns (r: Listing, ghost last: nat)
    requires budget.Valid()
    modifies budget
    ensures budget.Valid()
    ensures budget.used >= old(budget.used)
    ensures Lists(server, mode, budget.max - old(budget.used), old(budget.used), last, r, budget.used - old(budget.used))
  {
    hide TotalBytes, JudgeWhole, WholeCharge, Lists, NextStep, Serve;
    var out: seq<RecordEntry> := [];
    var cursor: Option<Bytes> := None;
    var malformed: nat := 0;
    ghost var left, charged := budget.Remaining(), budget.used;
    for i := 0 to MAX_LIST_PAGES
      invariant budget.Valid()
      invariant budget.used >= charged
      invariant After(server, i) == Tally(out, malformed, budget.used - charged, cursor)
      invariant ListingGoesOn(server, mode, left, charged, i)
    {
      last := i;
      var reply := server(i, cursor);
      if reply.Failed? {
        Answers(server, mode, left, charged, i, Refused(Transport, false), out, 0);
        return Declined(Transport), i;
      }
      ServesAt(server, i);
      var verdict;
      verdict, out := TakeWhole(reply.page, cursor, budget, mode, out);
      assert ListingVerdict(server, mode, left, charged, i) == verdict;
      if verdict.Refused? {
        Answers(server, mode, left, charged, i, verdict, out, 0);
        return Declined(verdict.why), i;
      }
      malformed := malformed + reply.page.malformed;
      if verdict.Complete? {
        Answers(server, mode, left, charged, i, verdict, out, malformed);
        return Listed(out, malformed), i;
      }
      cursor := reply.page.cursor;
    }
    Answers(server, mode, left, charged, MAX_LIST_PAGES, Refused(TooManyPages(|out|), false), out, 0);
    return Declined(TooManyPages(|out|)), MAX_LIST_PAGES;
  }

  // ---- what the refusing walk guarantees --------------------------------------

  /** No page of the first n is a reason to refuse: each was served, is free of
      malformed records where those refuse, and fits the budget and the list. */
  ghost predicate Acceptable(server: Server, mode: OnMalformed, left: nat, n: nat) {
    && (forall i: nat | i < n :: ReplyAt(server, i).Served?)
    && (mode == Refuse ==> Malformed(server, n) == 0)
    && WholeSpent(server, n) <= left
    && |Records(server, n)| <= MAX_LIST_RECORDS
  }

  /** The collection is n + 1 pages long, none of them a reason to refuse. */
  ghost predicate Listable(server: Server, mode: OnMalformed, left: nat, n: nat) {
    n < MAX_LIST_PAGES && CollectionEndsAt(server, n) && Acceptable(server, mode, left, n + 1)
  }

  /** A walk that has gone on past n pages met nothing to refuse in them. */
  lemma {:induction false} WentOn(server: Server, mode: OnMalformed, left: nat, charged: nat, n: nat)
    requires ListingGoesOn(server, mode, left, charged, n)
    ensures Acceptable(server, mode, left, n)
    ensures forall j: nat | j < n :: StepAt(server, j) == More
    ensures n <= MAX_LIST_PAGES
  {
    hide TotalBytes;
    if n > 0 {
      WentOn(server, mode, left, charged, n - 1);
    }
  }

  /** And the other way: acceptable pages that lead on are walked past. */
  lemma {:induction false} WalksPast(server: Server, mode: OnMalformed, left: nat, charged: nat, n: nat)
    requires Acceptable(server, mode, left, n) && n <= MAX_LIST_PAGES
    requires forall j: nat | j < n :: StepAt(server, j) == More
    ensures ListingGoesOn(server, mode, left, charged, n)
  {
    if n > 0 {
      assert ReplyAt(server, n - 1).Served? && StepAt(server, n - 1) == More;
      WalksPast(server, mode, left, charged, n - 1);
      assert ListingVerdict(server, mode, left, charged, n - 1) == GoOn;
    }
  }

  lemma {:induction false} GoesOnEarlier(server: Server, mode: OnMalformed, left: nat, charged: nat, m: nat, n: nat)
    requires m < n && ListingGoesOn(server, mode, left, charged, n)
    ensures ListingVerdict(server, mode, left, charged, m) == GoOn
  {
    if m < n - 1 {
      GoesOnEarlier(server, mode, left, charged, m, n - 1);
    }
  }

  /** A walk has one answer. */
  lemma ListsOnce(server: Server, mode: OnMalformed, left: nat, charged: nat, n: nat, a: Listing, spent: nat, n': nat, a': Listing, spent': nat)
    ensures Lists(server, mode, left, charged, n, a, spent) && Lists(server, mode, left, charged, n', a', spent')
      ==> n == n' && a == a' && spent == spent'
  {
    if Lists(server, mode, left, charged, n, a, spent) && Lists(server, mode, left, charged, n', a', spent') {
      if n < n' {
        GoesOnEarlier(server, mode, left, charged, n, n');
      } else if n' < n {
        GoesOnEarlier(server, mode, left, charged, n', n);
      }
    }
  }

  /** A listable collection is what the walk lists. */
  lemma ListsTheListable(server: Server, mode: OnMalformed, left: nat, charged: nat, n: nat)
    requires Listable(server, mode, left, n)
    ensures Lists(server, mode, left, charged, n,
                  Listed(Records(server, n + 1), Malformed(server, n + 1)), WholeSpent(server, n + 1))
  {
    assert Acceptable(server, mode, left, n);
    StepsByPages(server, n);
    StepsByPage(server, n);
    WalksPast(server, mode, left, charged, n);
    assert ReplyAt(server, n).Served?;
  }

  /** The refusing walk never returns a short list. It answers with records
      exactly when the collection ends within the page limit and nothing in it
      is refused, and then with every record of it; any other server gets an
      error, and the budget never goes over. */
  lemma NeverAShortList(server: Server, mode: OnMalformed, left: nat, charged: nat, n: nat, answer: Listing, spent: nat)
    ensures Lists(server, mode, left, charged, n, answer, spent) ==>
      && spent <= left
      && (answer.Listed? <==> exists m: nat :: Listable(server, mode, left, m))
      && (forall m: nat | Listable(server, mode, left, m) ::
            answer == Listed(Records(server, m + 1), Malformed(server, m + 1)))
  {
    hide TotalBytes;
    if Lists(server, mode, left, charged, n, answer, spent) {
      WentOn(server, mode, left, charged, n);
      StepsByPages(server, n);
      StepsByPage(server, n);
      if answer.Listed? {
        assert Listable(server, mode, left, n);
      }
      forall m: nat | Listable(server, mode, left, m)
        ensures answer == Listed(Records(server, m + 1), Malformed(server, m + 1))
      {
        ListsTheListable(server, mode, left, charged, m);
        ListsOnce(server, mode, left, charged, n, answer, spent, m,
                  Listed(Records(server, m + 1), Malformed(server, m + 1)), WholeSpent(server, m + 1));
      }
    }
  }

  /** Each error names a true fact about the page that ended the walk. */
  lemma ErrorsAreTrue(server: Server, mode: OnMalformed, left: nat, charged: nat, n: nat, why: Refusal, spent: nat)
    ensures Lists(server, mode, left, charged, n, Declined(why), spent) ==>
      && (forall j: nat | j < n :: LeadsOn(server, j))
      && match why
         case Transport => ReplyAt(server, n).Failed?
         case MalformedRecords(count) => mode == Refuse && Malformed(server, n + 1) == count > 0
         case MalformedTooLarge => Malformed(server, n + 1) > Malformed(server, n) && WholeSpent(server, n + 1) > left
         case TooManyBytes(held, total) =>
           && Malformed(server, n + 1) == Malformed(server, n) && WholeSpent(server, n + 1) > left
           && held == |Records(server, n)| && total == charged + spent
         case TooManyRecords(held, offered) => held + offered == |Records(server, n + 1)| > MAX_LIST_RECORDS
         case RepeatedCursor(held) => Repeats(server, n) && held == |Records(server, n + 1)|
         case TooManyPages(held) => n == MAX_LIST_PAGES && held == |Records(server, n)|
  {
    hide TotalBytes;
    if Lists(server, mode, left, charged, n, Declined(why), spent) {
      WentOn(server, mode, left, charged, n);
      StepsByPages(server, n);
      StepsByPage(server, n);
    }
  }
}
