/** Several walks of one read, of both kinds, over one budget. */
module SharedBudget {
  import opened Json
  import opened Budget
  import opened RepoWalk
  import opened RecentWalk

  /** A walk that was made: against which server, how, and what came of it. */
  datatype Walk =
    | WholeWalk(server: Server, mode: OnMalformed, n: nat, listing: Listing, spent: nat)
    | RecentWalk(server: Server, keep: Keep, cap: nat, n: nat, reading: Reading, spent: nat)
  {
    /** The walk behaved as its method does, given the budget it found. */
    ghost predicate Made(max: nat, used: nat) {
      && used <= max
      && match this
         case WholeWalk(server, mode, n, listing, spent) => Lists(server, mode, max - used, used, n, listing, spent)
         case RecentWalk(server, keep, cap, n, reading, spent) => Reads(server, keep, cap, max - used, n, reading, spent)
    }

    function Returned(): seq<RecordEntry> {
      match this
      case WholeWalk(_, _, _, listing, _) => if listing.Listed? then listing.records else []
      case RecentWalk(_, _, _, _, reading, _) => if reading.Read? then reading.walk.records else []
    }
  }

  /** What is used after a run of walks that found `used` taken. */
  function UsedAfter(walks: seq<Walk>, used: nat): nat {
    if walks == [] then used else UsedAfter(walks[1..], used + walks[0].spent)
  }

  /** Every walk of the run found the budget as the ones before it left it. */
  ghost predicate Run(walks: seq<Walk>, max: nat, used: nat) {
    walks != [] ==> walks[0].Made(max, used) && Run(walks[1..], max, used + walks[0].spent)
  }

  function NodesReturned(walks: seq<Walk>): nat {
    if walks == [] then 0 else TotalNodes(walks[0].Returned()) + NodesReturned(walks[1..])
  }

  /** Charging pages whole pays for every record of them. */
  lemma {:induction false} WholeSpentCovers(server: Server, n: nat)
    ensures TotalBytes(Records(server, n)) <= WholeSpent(server, n)
  {
    if n > 0 {
      WholeSpentCovers(server, n - 1);
      if ReplyAt(server, n - 1).Served? {
        TotalBytesAppend(Records(server, n - 1), ReplyAt(server, n - 1).page.records);
      }
    }
  }

  lemma {:induction false} KeptSpentCovers(server: Server, keep: Keep, n: nat)
    ensures TotalBytes(Kept(server, keep, n)) <= KeptSpent(server, keep, n)
  {
    hide ApproxBytes, Filter;
    if n == 0 {
      NothingServedYet(server, keep);
    } else {
      KeptSpentCovers(server, keep, n - 1);
      KeptUpTo(server, keep, n - 1);
      if ReplyAt(server, n - 1).Served? {
        var page := ReplyAt(server, n - 1).page;
        PageAdds(server, keep, n - 1);
        TotalBytesAppend(Kept(server, keep, n - 1), Filter(keep, |Records(server, n - 1)|, page.records));
      }
    }
  }

  lemma WholeWalkIsPaidFor(server: Server, mode: OnMalformed, left: nat, used: nat, n: nat, listing: Listing, spent: nat)
    requires Lists(server, mode, left, used, n, listing, spent)
    ensures spent <= left
    ensures listing.Listed? ==> TotalBytes(listing.records) <= spent
  {
    hide ApproxBytes, TotalBytes, After;
    NeverAShortList(server, mode, left, used, n, listing, spent);
    WholeSpentCovers(server, n + 1);
  }

  lemma RecentWalkIsPaidFor(server: Server, keep: Keep, cap: nat, left: nat, n: nat, reading: Reading, spent: nat)
    ensures Reads(server, keep, cap, left, n, reading, spent) ==>
      spent <= left && (reading.Read? ==> TotalBytes(reading.walk.records) <= spent)
  {
    hide ApproxBytes, TotalBytes, After, Filter, JudgeKept;
    if Reads(server, keep, cap, left, n, reading, spent) {
      ReadPast(server, keep, cap, left, n);
      if reading.Read? {
        BudgetFlagIsExact(server, keep, cap, left, n, reading.walk, spent);
        var m := PagesRead(ReadingVerdict(server, keep, cap, left, n), n);
        PrefixIsCheaper(reading.walk.records, Kept(server, keep, m));
        KeptSpentCovers(server, keep, m);
      } else {
        assert spent == KeptSpent(server, keep, n);
      }
    }
  }

  /** One walk: what it charges fits what was left, and covers what it returns. */
  lemma OneWalkIsPaidFor(walk: Walk, max: nat, used: nat)
    requires walk.Made(max, used)
    ensures used + walk.spent <= max
    ensures SLOT * TotalNodes(walk.Returned()) <= walk.spent
  {
    hide ApproxBytes, Nodes, Lists, Reads;
    RecordsPayForNodes(walk.Returned());
    match walk
    case WholeWalk(server, mode, n, listing, spent) =>
      WholeWalkIsPaidFor(server, mode, max - used, used, n, listing, spent);
    case RecentWalk(server, keep, cap, n, reading, spent) =>
      RecentWalkIsPaidFor(server, keep, cap, max - used, n, reading, spent);
  }

  /** What is counted as returned is every record of every walk that had an answer. */
  lemma {:induction false} CountsEveryAnswer(walks: seq<Walk>, i: nat, server: Server, n: nat, spent: nat)
    requires i < |walks|
    ensures forall mode, records, malformed :: walks[i] == WholeWalk(server, mode, n, Listed(records, malformed), spent) ==>
      NodesReturned(walks) == NodesReturned(walks[..i]) + TotalNodes(records) + NodesReturned(walks[i + 1..])
    ensures forall keep, cap, walk :: walks[i] == RecentWalk(server, keep, cap, n, Read(walk), spent) ==>
      NodesReturned(walks) == NodesReturned(walks[..i]) + TotalNodes(walk.records) + NodesReturned(walks[i + 1..])
  {
    hide TotalNodes;
    if i == 0 {
      assert walks[..0] == [] && NodesReturned([]) == 0;
    } else {
      assert walks[..i][0] == walks[0] && walks[..i][1..] == walks[1..][..i - 1];
      assert walks[1..][i - 1 + 1..] == walks[i + 1..];
      CountsEveryAnswer(walks[1..], i - 1, server, n, spent);
    }
  }

  /** However many walks share a budget, whatever their servers answer and however
      they end, the account stays within it, and sixty-four times every node of
      every record they returned stays within what they charged. */
  lemma {:induction false} SharedBudgetHolds(walks: seq<Walk>, max: nat, used: nat)
    ensures used <= max && Run(walks, max, used) ==>
      && UsedAfter(walks, used) <= max
      && used + SLOT * NodesReturned(walks) <= UsedAfter(walks, used)
  {
    hide Lists, Reads, TotalNodes;
    if walks != [] && used <= max && Run(walks, max, used) {
      OneWalkIsPaidFor(walks[0], max, used);
      SharedBudgetHolds(walks[1..], max, used + walks[0].spent);
    }
  }
}
