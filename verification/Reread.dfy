/** A publication that shared a walk with its siblings, and is read again alone
    when their records used up the budget. */
module Reread {
  import opened Wrappers
  import opened Json
  import opened Octets
  import opened Budget
  import opened RepoWalk
  import opened RecentWalk
  import opened GroupRead

  /** The walk of the requested publications that were found, with the cap of each
      times how many they are; and the walk of one of them. */
  ghost predicate ReadsGroup(
      server: Server, site: Site, found: set<nat>, per: nat, left: nat, n: nat, walk: RecordWalk, spent: nat)
  {
    && (forall r :: site(r).Some? ==> site(r).value in found)
    && Reads(server, GroupKeep(Offered(server), site, per), GroupCap(per, found), left, n, Read(walk), spent)
  }

  ghost predicate ReadsAlone(server: Server, site: Site, i: nat, per: nat, left: nat, n: nat, answer: Reading, spent: nat) {
    Reads(server, GroupKeep(Offered(server), Only(site, i), per), per, left, n, answer, spent)
  }

  /** The records of the group's walk that are one publication's. */
  function Part(walk: RecordWalk, site: Site, i: nat): seq<RecordEntry> {
    Chosen(IsOf(site, i), walk.records)
  }

  function PagesTaken(server: Server, site: Site, found: set<nat>, per: nat, left: nat, n: nat): nat {
    PagesRead(ReadingVerdict(server, GroupKeep(Offered(server), site, per), GroupCap(per, found), left, n), n)
  }

  /** A document of this publication was passed over because it had its cap. */
  predicate Capped(server: Server, site: Site, i: nat, per: nat, pages: nat) {
    CountOf(Records(server, pages), site, i) > per
  }

  /** What marks a publication to be read again: the shared walk ran out of budget,
      and not merely this publication to its cap. */
  predicate CutShort(walk: RecordWalk, found: set<nat>, capped: bool) {
    |found| > 1 && walk.outOfBudget && !capped
  }

  // ---- the group's walk -------------------------------------------------------

  lemma ServedSoFar(server: Server, n: nat)
    requires n <= MAX_LIST_PAGES
    ensures |Records(server, n)| <= |Offered(server)| && Records(server, n) == Offered(server)[..|Records(server, n)|]
  {
    RecordsGrow(server, n, MAX_LIST_PAGES);
  }

  /** Of each publication the walk keeps what it is offered, up to the cap; so never
      more than all the caps, and it drops nothing. */
  lemma GroupHasAllItKeeps(server: Server, site: Site, found: set<nat>, per: nat, left: nat, n: nat, walk: RecordWalk, spent: nat, i: nat)
    requires ReadsGroup(server, site, found, per, left, n, walk, spent)
    ensures var pages := PagesTaken(server, site, found, per, left, n);
      && pages <= MAX_LIST_PAGES
      && walk.records == Kept(server, GroupKeep(Offered(server), site, per), pages)
      && Part(walk, site, i) == FirstOf(Chosen(IsOf(site, i), Records(server, pages)), per)
    ensures AllOf(walk.records, site, found)
    ensures forall j :: CountOf(walk.records, site, j) <= per
  {
    hide TotalBytes, Filter, After, Chosen, Offered, GroupKeep, GroupCap;
    var keep := GroupKeep(Offered(server), site, per);
    var pages := PagesTaken(server, site, found, per, left, n);
    ReadPast(server, keep, GroupCap(per, found), left, n);
    ServedSoFar(server, pages);
    var kept := Kept(server, keep, pages);
    forall j ensures Chosen(IsOf(site, j), kept) == FirstOf(Chosen(IsOf(site, j), Records(server, pages)), per) {
      KeptPerSite(Offered(server), site, per, |Records(server, pages)|, j);
    }
    KeptHaveSites(Offered(server), site, per, 0, Records(server, pages));
    SumOfCounts(kept, site, found, per);
    assert walk.records == kept;
  }

  /** The part of a publication is complete exactly as its read says: when the walk
      is and no document of it was passed over, it is every document that the
      collection has of it; when one was, it is not. */
  lemma PartIsComplete(server: Server, site: Site, found: set<nat>, per: nat, left: nat, n: nat, walk: RecordWalk, spent: nat, i: nat)
    ensures ReadsGroup(server, site, found, per, left, n, walk, spent) && walk.complete ==>
      && CollectionEndsAt(server, n)
      && (Part(walk, site, i) == Chosen(IsOf(site, i), Records(server, n + 1)) <==> !Capped(server, site, i, per, n + 1))
  {
    hide TotalBytes, Filter, After, Chosen, Offered, GroupKeep, GroupCap;
    if ReadsGroup(server, site, found, per, left, n, walk, spent) && walk.complete {
      GroupHasAllItKeeps(server, site, found, per, left, n, walk, spent, i);
      FlagsAreTruthful(server, GroupKeep(Offered(server), site, per), GroupCap(per, found), left, n, walk, spent);
    }
  }

  /** So this is two reads of one server, with the caps and the filters they have. */
  lemma AreTwoReads(
      server: Server, site: Site, found: set<nat>, per: nat, i: nat, left1: nat, left2: nat,
      n1: nat, alone: Reading, spent1: nat, n2: nat, walk: RecordWalk, spent2: nat)
    requires left1 >= left2
    requires ReadsGroup(server, site, found, per, left2, n2, walk, spent2)
    requires ReadsAlone(server, site, i, per, left1, n1, alone, spent1)
    ensures TwoReads(server, IsOf(site, i), GroupKeep(Offered(server), site, per), GroupKeep(Offered(server), Only(site, i), per),
                     per, GroupCap(per, found), left1, left2, n1, alone, spent1, n2, walk, spent2)
  {
    hide Reads, Chosen, Filter, Offered, GroupKeep, GroupCap;
    GroupHasAllItKeeps(server, site, found, per, left2, n2, walk, spent2, i);
    var pages := PagesTaken(server, site, found, per, left2, n2);
    AloneSelects(Offered(server), site, per, i, 0, Records(server, pages));
  }

  // ---- what reading again gives -----------------------------------------------

  /** Whatever the group's budget did to it, a publication that is read alone gets
      every record the group gave it, in the same places; and that read fails
      exactly when it comes to a failing request, one the group never made. */
  lemma AloneKeepsItsPart(
      server: Server, site: Site, found: set<nat>, per: nat, i: nat, left1: nat, left2: nat,
      n1: nat, alone: Reading, spent1: nat, n2: nat, walk: RecordWalk, spent2: nat)
    ensures
      && left1 >= left2
      && ReadsGroup(server, site, found, per, left2, n2, walk, spent2)
      && ReadsAlone(server, site, i, per, left1, n1, alone, spent1)
      ==>
        && (alone.Read? ==> Part(walk, site, i) <= alone.walk.records)
        && (alone.Broken? <==> n2 < n1 < MAX_LIST_PAGES && ReplyAt(server, n1).Failed?)
  {
    hide TwoReads, ReadsGroup, ReadsAlone, Chosen, GroupCap;
    if && left1 >= left2
       && ReadsGroup(server, site, found, per, left2, n2, walk, spent2)
       && ReadsAlone(server, site, i, per, left1, n1, alone, spent1)
    {
      AreTwoReads(server, site, found, per, i, left1, left2, n1, alone, spent1, n2, walk, spent2);
      ReadingAloneIsNeverWorse(
        server, IsOf(site, i), GroupKeep(Offered(server), site, per), GroupKeep(Offered(server), Only(site, i), per),
        per, GroupCap(per, found), left1, left2, n1, alone, spent1, n2, walk, spent2);
    }
  }

  /** What the mark says: the group is of several, the walk stopped at a page that
      did not fit what was left, and until then it passed over no document of this
      publication. */
  lemma MarkedExactlyWhen(
      server: Server, site: Site, found: set<nat>, per: nat, i: nat, left: nat, n: nat, walk: RecordWalk, spent: nat)
    ensures ReadsGroup(server, site, found, per, left, n, walk, spent) ==>
      var pages := PagesTaken(server, site, found, per, left, n);
      CutShort(walk, found, Capped(server, site, i, per, pages)) <==>
        && |found| >= 2
        && n < MAX_LIST_PAGES && ReplyAt(server, n).Served?
        && TotalBytes(ReplyAt(server, n).page.records) + ReplyAt(server, n).page.malformedBytes
             > left - KeptSpent(server, GroupKeep(Offered(server), site, per), n)
        && Part(walk, site, i) == Chosen(IsOf(site, i), Records(server, pages))
  {
    hide TotalBytes, Filter, After, Chosen, Offered, GroupKeep, GroupCap;
    if ReadsGroup(server, site, found, per, left, n, walk, spent) {
      GroupHasAllItKeeps(server, site, found, per, left, n, walk, spent, i);
      BudgetFlagIsExact(server, GroupKeep(Offered(server), site, per), GroupCap(per, found), left, n, walk, spent);
    }
  }

  /** And a publication that is not marked to be read again would gain nothing by
      it. At the page limit, at a repeated cursor, at the end, at the combined cap
      and at its own, the walk alone gives the same records. */
  lemma OnlyCutShortGains(
      server: Server, site: Site, found: set<nat>, per: nat, i: nat, left1: nat, left2: nat,
      n1: nat, alone: Reading, spent1: nat, n2: nat, walk: RecordWalk, spent2: nat)
    ensures
      && left1 >= left2 && i in found && |found| > 1
      && ReadsGroup(server, site, found, per, left2, n2, walk, spent2)
      && ReadsAlone(server, site, i, per, left1, n1, alone, spent1)
      && !CutShort(walk, found, Capped(server, site, i, per, PagesTaken(server, site, found, per, left2, n2)))
      ==> alone.Read? && alone.walk.records == Part(walk, site, i)
  {
    hide TwoReads, ReadsGroup, ReadsAlone, Chosen, PagesTaken, GroupCap;
    if && left1 >= left2 && i in found && |found| > 1
       && ReadsGroup(server, site, found, per, left2, n2, walk, spent2)
       && ReadsAlone(server, site, i, per, left1, n1, alone, spent1)
       && !CutShort(walk, found, Capped(server, site, i, per, PagesTaken(server, site, found, per, left2, n2)))
    {
      AreTwoReads(server, site, found, per, i, left1, left2, n1, alone, spent1, n2, walk, spent2);
      GroupHasAllItKeeps(server, site, found, per, left2, n2, walk, spent2, i);
      if |walk.records| >= GroupCap(per, found) {
        AllAtTheirCap(walk.records, site, found, per, i);
      }
      OtherEndsAreTheSame(
        server, IsOf(site, i), GroupKeep(Offered(server), site, per), GroupKeep(Offered(server), Only(site, i), per),
        per, GroupCap(per, found), left1, left2, n1, alone, spent1, n2, walk, spent2);
    }
  }

  // ---- the rows ---------------------------------------------------------------

  /** Stored rows by guid, which is the record's URI. */
  type Rows = map<Bytes, RecordEntry>

  function Upserted(rows: Rows, records: seq<RecordEntry>): Rows {
    if records == [] then rows
    else
      var r := records[|records| - 1];
      Upserted(rows, records[..|records| - 1])[r.uri := r]
  }

  /** The group's read is stored first and stays; one alone is stored on top of it,
      and one that breaks stores nothing. */
  function AfterReread(rows: Rows, part: seq<RecordEntry>, alone: Reading): Rows {
    if alone.Read? then Upserted(Upserted(rows, part), alone.walk.records) else Upserted(rows, part)
  }

  lemma {:induction false} UpsertMore(rows: Rows, a: seq<RecordEntry>, b: seq<RecordEntry>)
    ensures Upserted(rows, a + b) == Upserted(Upserted(rows, a), b)
  {
    if b == [] {
      assert a + b == a;
    } else {
      var front, r := b[..|b| - 1], b[|b| - 1];
      assert (a + b)[..|a + b| - 1] == a + front && (a + b)[|a + b| - 1] == r;
      UpsertMore(rows, a, front);
    }
  }

  /** The row under a URI is the last record that has it, or the one that was there. */
  function LastOf(records: seq<RecordEntry>, uri: Bytes): Option<RecordEntry> {
    if records == [] then None
    else if records[|records| - 1].uri == uri then Some(records[|records| - 1])
    else LastOf(records[..|records| - 1], uri)
  }

  lemma {:induction false} RowIsLast(rows: Rows, records: seq<RecordEntry>, uri: Bytes)
    ensures uri in Upserted(rows, records) <==> LastOf(records, uri).Some? || uri in rows
    ensures uri in Upserted(rows, records) ==>
      Upserted(rows, records)[uri] == if LastOf(records, uri).Some? then LastOf(records, uri).value else rows[uri]
  {
    if records != [] {
      RowIsLast(rows, records[..|records| - 1], uri);
    }
  }

  lemma UpsertTwice(rows: Rows, records: seq<RecordEntry>)
    ensures Upserted(Upserted(rows, records), records) == Upserted(rows, records)
  {
    var once := Upserted(rows, records);
    var twice := Upserted(once, records);
    hide Upserted, LastOf;
    forall uri ensures (uri in twice <==> uri in once) && (uri in once ==> twice[uri] == once[uri]) {
      RowIsLast(rows, records, uri);
      RowIsLast(once, records, uri);
    }
  }

  /** Reading again is never worse than reading alone in the first place, nor than
      not reading again: the rows are exactly those a read alone would have left,
      with what the group's read gave among them; and where that read breaks they
      are what the group's left. */
  lemma RereadIsNeverWorse(
      server: Server, site: Site, found: set<nat>, per: nat, i: nat, left1: nat, left2: nat,
      n1: nat, alone: Reading, spent1: nat, n2: nat, walk: RecordWalk, spent2: nat, rows: Rows)
    ensures
      && left1 >= left2
      && ReadsGroup(server, site, found, per, left2, n2, walk, spent2)
      && ReadsAlone(server, site, i, per, left1, n1, alone, spent1)
      ==>
        var after := AfterReread(rows, Part(walk, site, i), alone);
        if n2 < n1 < MAX_LIST_PAGES && ReplyAt(server, n1).Failed?
        then after == Upserted(rows, Part(walk, site, i))
        else alone.Read? && Part(walk, site, i) <= alone.walk.records && after == Upserted(rows, alone.walk.records)
  {
    hide ReadsGroup, ReadsAlone, Chosen, Upserted, ReplyAt, Part;
    if && left1 >= left2
       && ReadsGroup(server, site, found, per, left2, n2, walk, spent2)
       && ReadsAlone(server, site, i, per, left1, n1, alone, spent1)
    {
      AloneKeepsItsPart(server, site, found, per, i, left1, left2, n1, alone, spent1, n2, walk, spent2);
      var part := Part(walk, site, i);
      if alone.Read? {
        var rest := alone.walk.records[|part|..];
        assert alone.walk.records == part + rest;
        UpsertMore(rows, part, rest);
        UpsertMore(Upserted(rows, part), part, rest);
        UpsertTwice(rows, part);
      }
    }
  }

  // ---- a read alone that breaks -----------------------------------------------

  const OWN := RecordEntry([], None, Null)
  const SIBLING := RecordEntry([1], None, Null)
  const FIRST := Page([OWN, SIBLING], Some([]), 0, 0, 0)
  const SECOND := Page([OWN], Some([1]), 0, 0, 0)

  /** Two publications, whose documents have no URI and the URI of one byte. */
  function SiteOf(r: RecordEntry): Option<nat> {
    if r.uri == [] then Some(0) else if r.uri == [1] then Some(1) else None
  }

  /** A server of two pages that each lead on, and then a failure. */
  ghost predicate FailsAfterTwo(server: Server) {
    && ReplyAt(server, 0) == Served(FIRST) && ReplyAt(server, 1) == Served(SECOND) && ReplyAt(server, 2) == Failed
    && CursorBefore(server, 0) == None && CursorBefore(server, 1) == Some([])
    && Records(server, 0) == [] && Records(server, 1) == [OWN, SIBLING] && Records(server, 2) == [OWN, SIBLING, OWN]
    && Malformed(server, 1) == Malformed(server, 2) == 0
  }

  lemma OnePage(server: Server, i: nat, page: Page)
    requires ReplyAt(server, i) == Served(page)
    ensures CursorBefore(server, i + 1) == page.cursor
    ensures Records(server, i + 1) == Records(server, i) + page.records
    ensures Malformed(server, i + 1) == Malformed(server, i) + page.malformed
  {
    hide TotalBytes;
  }

  lemma AtStart(server: Server)
    ensures CursorBefore(server, 0) == None && Records(server, 0) == [] && Malformed(server, 0) == 0
  {
  }

  function TwoThenFails(): Server {
    (i, cursor) => if i == 0 then Served(FIRST) else if i == 1 then Served(SECOND) else Failed
  }

  lemma TwoPages()
    ensures FailsAfterTwo(TwoThenFails())
  {
    var server := TwoThenFails();
    AtStart(server);
    hide CursorBefore, Records, Malformed;
    assert ReplyAt(server, 0) == Served(FIRST) && ReplyAt(server, 1) == Served(SECOND);
    OnePage(server, 0, FIRST);
    OnePage(server, 1, SECOND);
    assert ReplyAt(server, 2) == Failed;
    hide TwoThenFails, ReplyAt;
    assert [OWN, SIBLING] + [OWN] == [OWN, SIBLING, OWN] && [] + [OWN, SIBLING] == [OWN, SIBLING];
  }

  lemma ThreeAreOffered(server: Server)
    requires FailsAfterTwo(server)
    ensures |Offered(server)| >= 3
  {
    RecordsGrow(server, 2, MAX_LIST_PAGES);
    hide After;
  }

  lemma CostOf(r: RecordEntry)
    requires r.value == Null && r.cid == None
    ensures TotalBytes([r]) == 224 + |r.uri| && TotalBytes([]) == 0
  {
    assert [r][1..] == [];
  }

  lemma Costs()
    ensures TotalBytes([]) == 0 && TotalBytes([OWN]) == 224 && TotalBytes([OWN, SIBLING]) == 449
  {
    CostOf(OWN);
    CostOf(SIBLING);
    assert [OWN, SIBLING] == [OWN] + [SIBLING];
    TotalBytesAppend([OWN], [SIBLING]);
  }

  /** No publication has its cap before as many records were asked about. */
  lemma FewAreKept(served: seq<RecordEntry>, site: Site, per: nat, asked: nat, r: RecordEntry)
    requires asked < per && asked <= |served|
    ensures GroupKeep(served, site, per)(asked, r) <==> site(r).Some?
  {
    if site(r).Some? {
      ChosenIsCheaper(IsOf(site, site(r).value), served[..asked]);
    }
  }

  /** What the filters of the two walks keep, with a cap of three documents each. */
  ghost predicate KeepSo(group: Keep, alone: Keep) {
    && Filter(alone, 0, []) == Filter(group, 0, []) == []
    && Filter(alone, 0, [OWN, SIBLING]) == [OWN] && Filter(group, 0, [OWN, SIBLING]) == [OWN, SIBLING]
    && Filter(alone, 2, [OWN]) == [OWN]
    && Filter(alone, 0, [OWN, SIBLING, OWN]) == [OWN, OWN]
  }

  lemma Kepts(served: seq<RecordEntry>)
    requires |served| >= 3
    ensures KeepSo(GroupKeep(served, SiteOf, 3), GroupKeep(served, Only(SiteOf, 0), 3))
  {
    var group, alone := GroupKeep(served, SiteOf, 3), GroupKeep(served, Only(SiteOf, 0), 3);
    FewAreKept(served, SiteOf, 3, 0, OWN);
    FewAreKept(served, SiteOf, 3, 1, SIBLING);
    FewAreKept(served, Only(SiteOf, 0), 3, 0, OWN);
    FewAreKept(served, Only(SiteOf, 0), 3, 1, SIBLING);
    FewAreKept(served, Only(SiteOf, 0), 3, 2, OWN);
    FilterOne(group, 0, OWN);
    FilterOne(group, 1, SIBLING);
    FilterOne(alone, 0, OWN);
    FilterOne(alone, 1, SIBLING);
    FilterOne(alone, 2, OWN);
    hide GroupKeep;
    assert [OWN, SIBLING] == [OWN] + [SIBLING] && [OWN, SIBLING, OWN] == [OWN, SIBLING] + [OWN];
    FilterAppend(alone, 0, [OWN], [SIBLING]);
    FilterAppend(group, 0, [OWN], [SIBLING]);
    FilterAppend(alone, 0, [OWN, SIBLING], [OWN]);
    assert [OWN] + [] == [OWN] && [OWN] + [OWN] == [OWN, OWN];
  }

  lemma GroupStops(server: Server, group: Keep, alone: Keep)
    requires FailsAfterTwo(server) && KeepSo(group, alone)
    ensures Reads(server, group, 6, 449, 1, Read(RecordWalk([OWN, SIBLING], false, 0, true)), 449)
    ensures ReadingVerdict(server, group, 6, 449, 1) == OverBudget
  {
    Costs();
    hide ReplyAt, CursorBefore, Records, Malformed, TotalBytes, ApproxBytes, Filter;
    assert ReadingGoesOn(server, group, 6, 449, 0) && KeptSpent(server, group, 0) == 0;
    assert ReadingVerdict(server, group, 6, 449, 0) == ReadOn;
    assert KeptSpent(server, group, 1) == 449;
    assert ReadingVerdict(server, group, 6, 449, 1) == OverBudget;
  }

  lemma AloneBreaks(server: Server, group: Keep, alone: Keep)
    requires FailsAfterTwo(server) && KeepSo(group, alone)
    ensures Reads(server, alone, 3, 449, 2, Broken, 448)
  {
    Costs();
    hide ReplyAt, CursorBefore, Records, Malformed, TotalBytes, ApproxBytes, Filter;
    assert ReadingGoesOn(server, alone, 3, 449, 0) && KeptSpent(server, alone, 0) == 0;
    assert ReadingVerdict(server, alone, 3, 449, 0) == ReadOn;
    assert KeptSpent(server, alone, 1) == 224;
    assert ReadingGoesOn(server, alone, 3, 449, 1) && ReadingVerdict(server, alone, 3, 449, 1) == ReadOn;
    assert KeptSpent(server, alone, 2) == 448;
    assert ReadingVerdict(server, alone, 3, 449, 2) == Unserved;
  }

  lemma OwnPart()
    ensures Chosen(IsOf(SiteOf, 0), [OWN, SIBLING]) == [OWN]
  {
    hide Chosen;
    var own := IsOf(SiteOf, 0);
    assert |SIBLING.uri| == 1 && own(OWN) && !own(SIBLING);
    ChosenOne(own, OWN);
    ChosenOne(own, SIBLING);
    ChosenAppend(own, [OWN], [SIBLING]);
    assert [OWN, SIBLING] == [OWN] + [SIBLING] && [OWN] + [] == [OWN];
  }

  lemma BothStop(server: Server, group: Keep, alone: Keep)
    requires FailsAfterTwo(server)
    requires group == GroupKeep(Offered(server), SiteOf, 3) && alone == GroupKeep(Offered(server), Only(SiteOf, 0), 3)
    ensures Reads(server, group, 6, 449, 1, Read(RecordWalk([OWN, SIBLING], false, 0, true)), 449)
    ensures ReadingVerdict(server, group, 6, 449, 1) == OverBudget
    ensures Reads(server, alone, 3, 449, 2, Broken, 448)
  {
    ThreeAreOffered(server);
    Kepts(Offered(server));
    hide Reads, ReadingVerdict, GroupKeep, KeepSo, FailsAfterTwo, Offered;
    GroupStops(server, group, alone);
    AloneBreaks(server, group, alone);
  }

  lemma CapOfTwo(found: set<nat>)
    requires found == {0, 1}
    ensures |found| == 2 && GroupCap(3, found) == 6
  {
  }

  lemma FewAreCapped(server: Server)
    requires FailsAfterTwo(server)
    ensures !Capped(server, SiteOf, 0, 3, 1)
  {
    hide After;
    ChosenIsCheaper(IsOf(SiteOf, 0), Records(server, 1));
  }

  /** So the rows of the group do have to stay. Of two publications with a cap of
      three documents each, on one server and with one budget: the group's walk has
      a document of the first when it runs out of budget and marks it to be read
      again; alone, the walk is charged less, goes a page further, and breaks. */
  lemma AloneMayBreak() returns (server: Server, found: set<nat>, walk: RecordWalk)
    ensures ReadsGroup(server, SiteOf, found, 3, 449, 1, walk, 449)
    ensures CutShort(walk, found, Capped(server, SiteOf, 0, 3, PagesTaken(server, SiteOf, found, 3, 449, 1)))
    ensures ReadsAlone(server, SiteOf, 0, 3, 449, 2, Broken, 448)
    ensures Part(walk, SiteOf, 0) == [OWN]
  {
    hide TwoThenFails, Reads, Chosen, GroupKeep, ReadingVerdict, GroupCap, Offered, FailsAfterTwo, Capped;
    TwoPages();
    server, found, walk := TwoThenFails(), {0, 1}, RecordWalk([OWN, SIBLING], false, 0, true);
    CapOfTwo(found);
    OwnPart();
    BothStop(server, GroupKeep(Offered(server), SiteOf, 3), GroupKeep(Offered(server), Only(SiteOf, 0), 3));
    FewAreCapped(server);
    assert PagesTaken(server, SiteOf, found, 3, 449, 1) == 1;
  }
}
