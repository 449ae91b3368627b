# FeatherReader, verified

FeatherReader is a feed reader that keeps its users' subscriptions in their
atproto repositories. Much of its code faces input it does not control: a
repository host that may answer anything, a feed of any size, a clock that may
stop, a poll that may be dropped at any await. This project models the logic
that has to hold up against that, and proves what it promises.

Verify it with `dafny verify dfyconfig.toml`.

## How it is laid out

| file | about |
|---|---|
| `Octets`, `Utf8`, `Wrappers` | bytes and UTF-8 boundaries; the text they spell; options and results |
| `Json`, `ByteBudget` | parsed JSON, what keeping it is charged, the account several walks share |
| `RepoWalk`, `RecentWalk`, `SharedBudget` | paging through a hostile server: the walk that refuses, the walk that truncates, and many of both over one budget |
| `GroupRead`, `Reread` | one walk for several publications, and one of them read again alone when it ran out of budget |
| `JsonScan` | the scan that bounds a JSON text before it is parsed, against the grammar of RFC 8259 |
| `WriteChunks` | splitting a batch of writes, and sending it to a server whose answers may be lost |
| `Tid` | sortable record keys, and their generator under any clock |
| `InFlight`, `Admission` | one sanitize a feed; the two permit pools, as a protocol over all interleavings |
| `FeedPoll`, `FeedRuns` | what a poll stores, and what is stored after any run of polls that overlap |
| `BoundedHtml` | markup and text cut to fit a bound |
| `OpmlText`, `OpmlAttr`, `OpmlRun` | escaping and un-escaping; reading one attribute; what that reading makes of a printed tag |
| `OpmlScan`, `OpmlPrint`, `OpmlTags`, `OpmlRoundTrip`, `OpmlExact`, `OpmlEachOnce` | the lenient parser, the printer, exactly when one undoes the other, and what that means for each subscription |
| `OpmlOthers` | what the parser makes of documents that other programs write |
| `BodyCodec` | the bounded decoding loop for stored article bodies |
| `Metrics`, `MetricsRuns`, `Percentile` | timing windows, their lossy buffer and tables, over all interleavings |

Code that changes state is modelled by methods over the same state (`ByteBudget`,
`TidGenerator`, `Flights` and `AbandonGuard`, `Stats` and `RepoMetrics`,
`FeedStore`, the loops), each proved against a specification function or
relation; the theorems are lemmas about those specifications. A method that runs
against an environment names in ghost results where it stopped.

The environment is arbitrary throughout. A server is any function from request
number and cursor to a page or a failure. A sanitizer is any function that keeps
text text and turns nothing into nothing. An inflater splits its progress as it
likes. A caller's filter may remember what it was asked. Which step comes next in
the three state machines is anybody's choice.

## Where the code does less than it says

Each of these is stated exactly, for all inputs, rather than assumed away.

- **OPML.** The attribute reader looks for a name inside values too, and takes a
  value's closing quote for an opening one when what stands before it looks like
  `name=`. `OpmlExact.FoundIsMeantWhenClean` says that reading back what was
  printed finds what was meant if and only if every subscription and every used
  folder name is `Clean`, a condition on the labels, URLs and names themselves.
  `OpmlExact.TitleHidesUrl` and `OpmlExact.UrlHidesSite` give the families that
  fail: any title ending in ` xmlUrl=`, any URL ending in `?htmlUrl=`. What
  comes back instead is given for every document by
  `OpmlRoundTrip.DocumentReadsAs`.
- **Validators and bodies.** A stored validator always belongs to a response all
  of whose bodies were sanitized (`FeedRuns.ValidatorsAreEarned`), but the bodies
  that are stored need not be those of that response. `FeedRuns.NamedBodiesAreStored`
  says exactly when they are, over the store calls of a run: when the last call
  that touched each of them left what that response gives. Among the ways it can
  be otherwise: the poll's second store call fails
  (`FeedPoll.FailedInsertLeavesValidator`), the poll is dropped before it
  (`FeedRuns.DroppedPollLeavesValidator`), an overlapping poll inserts after it
  (`FeedRuns.OverlapMixesUp`), or a later response has no validator of its own
  (`FeedRuns.BareResponseKeepsValidator`).
- **Metrics.** A flush whose transaction fails has already drained its samples
  (`MetricsRuns.FailedFlushLoses`). So the tables come to hold everything that was
  observed exactly if no transaction failed and no more samples than the buffer
  holds were ever buffered between two drains (`MetricsRuns.NothingElseIsMissing`).
- **Body decoding** needs a bound of at least 63 bytes: below that its first
  clamp has its ends the wrong way round and panics, on any blob with a known
  tag. `BodyCodec.DecodeTagged` says exactly when.

## Model

| member | source | states |
|---|---|---|
| `Json.ChargeCoversNodes` | src/atproto.rs:322-363 | the charge for any JSON value is at least 64 bytes for every node in it, by recursion through arrays and objects |
| `Json.EntriesCovered` | src/atproto.rs:354-360 | in an object the key and the tree entry are paid for on top of the value |
| `Json.ChargeIsExact` | src/atproto.rs:322-363 | the charge is exactly 64 bytes for a value that holds no others and the bytes of each text, 128 for an array, 512 for an object, 168 and its key for an entry |
| `Json.NodesAreCounted` | src/atproto.rs:304-313 | the nodes of a value are itself and every value below it |
| `Budget.ByteBudget.Charge` | src/atproto.rs:393-401 | a charge is taken exactly when it fits what is left, and a refused one changes nothing; `used` never passes `max` |
| `Budget.ByteBudget.Admit` | src/atproto.rs:380-388 | the same for a page at what its records retain |
| `Budget.ExtendBounded` | src/atproto.rs:430-447 | a page is appended whole or refused with the list untouched, exactly as it fits the cap |
| `Budget.ExtendTruncating` | src/atproto.rs:183-195 | the list grows by the longest part of the page the cap allows, and `dropped` says exactly whether that was less than the page |
| `Budget.RecordsPayForNodes` | src/atproto.rs:314-320 | a list of records is charged at least 64 bytes for every node it holds |
| `Budget.RecordsAreExact` | src/atproto.rs:314-320 | a list of records is charged exactly that for its values and for what is around them |
| `Budget.FilterIsChosen` | src/atproto.rs:1515 | what a narrower caller keeps of a list is chosen from what the wider one keeps |
| `Budget.FilterMonotone` | src/atproto.rs:1515-1531 | so it is charged no more |
| `RepoWalk.TakeWhole` | src/atproto.rs:1306-1375 | one page of the refusing walk: its verdict, its charge (the larger of wire and retained bytes when it skipped records) and the list after it |
| `RepoWalk.WalkAllWithin` | src/atproto.rs:1289-1407 | the loop answers what the page-by-page relation `Lists` says, and charges what it says |
| `RepoWalk.StepsByPage` | src/atproto.rs:1328-1380 | a page leads on, repeats or ends, by its cursor and by whether anything was on it at all, malformed records included |
| `RepoWalk.CursorsFollow` | src/atproto.rs:1296-1303 | each request carries the cursor of the page before it, and the first none |
| `RepoWalk.NeverAShortList` | src/atproto.rs:1289-1407 | the walk lists records if and only if the collection ends within 200 pages with nothing in it to refuse, and then it lists every record of it; every page before the end has something on it and a new cursor, and the end is a page with no cursor or with nothing on it; every other server gets an error; the budget is kept either way |
| `RepoWalk.ListsOnce` | src/atproto.rs:1289-1407 | a walk against one server has one answer |
| `RepoWalk.WentOn` | src/atproto.rs:1298-1375 | a walk that is past n pages was served them all, skipped none where that refuses, and is within its budget and its record cap |
| `RepoWalk.WalksPast` | src/atproto.rs:1298-1375 | and acceptable pages that lead on are walked past |
| `RepoWalk.ErrorsAreTrue` | src/atproto.rs:1308-1404 | each error names a true fact about the page that ended the walk, with the counts it reports |
| `RecentWalk.TakeKept` | src/atproto.rs:1488-1557 | one page of the truncating walk; the charge that is asserted there always succeeds |
| `RecentWalk.KeptChargeFits` | src/atproto.rs:1504-1531 | what is kept of a page never costs more than the page, so the asserted charge cannot fail |
| `RecentWalk.ListRecentMatchingWithin` | src/atproto.rs:1455-1568 | the loop answers what the relation `Reads` says, and charges what it says |
| `RecentWalk.FlagsAreTruthful` | src/atproto.rs:205-222 | the records are a prefix of what the caller keeps of what was served; `complete` means all of it, up to a page with no cursor or with nothing at all on it; not complete means a refused page, a dropped record, or a page with something on it and a cursor |
| `RecentWalk.BudgetFlagIsExact` | src/atproto.rs:217-221 | `out_of_budget` exactly when the page the walk stopped at exceeds what is left; nothing of that page is kept or charged; `malformed` counts every page looked at |
| `RecentWalk.SpendsLess` | src/atproto.rs:1515-1531 | whatever the caps, a narrower caller is charged no more for the same pages, and keeps of them what it chooses from what the wider one keeps |
| `RecentWalk.VerdictOnTakenPage` | src/atproto.rs:1504-1557 | where the wider walk takes a page, what the narrower one makes of it depends only on its own cap and on what the server offers |
| `RecentWalk.GoesOnWhileRoom` | src/atproto.rs:1482-1560 | where the wider walk goes on, the narrower one does if and only if its own cap leaves it room |
| `RecentWalk.ReadingAloneIsNeverWorse` | src/feed.rs:1253-1260 | two walks with unrelated caps: the one alone has every record of its own that the shared one gave it, in the same places, and breaks if and only if it comes to a failing request, which is one the shared walk never made |
| `RecentWalk.OtherEndsAreTheSame` | src/atproto.rs:217-221 | the budget is the only end of the shared walk that reading alone can change: at every other, short of its own combined cap, the walk alone gives the same records |
| `RecentWalk.CompleteAlone` | src/atproto.rs:1541-1549 | where the shared walk is complete the walk alone is too, if and only if its own cap does not fill on an earlier page |
| `GroupRead.KeptPerSite` | src/standard_site.rs:744-757 | of each publication the group's filter keeps the first documents it is asked about, up to the cap |
| `GroupRead.KeepsByWhatItKept` | src/standard_site.rs:753-761 | and it decides by how many it has kept of that publication |
| `GroupRead.AloneSelects` | src/standard_site.rs:747-772 | the filter of a walk for one publication keeps of what the group's keeps just the documents of that one |
| `GroupRead.SumOfCounts` | src/standard_site.rs:748-750 | no more than the cap of each is no more than the cap times how many they are |
| `GroupRead.AllAtTheirCap` | src/standard_site.rs:748-750 | and as many as that only if each has its cap |
| `Reread.GroupHasAllItKeeps` | src/standard_site.rs:744-788 | the group's walk drops nothing for its combined cap, and gives each publication the first of its documents, up to its cap |
| `Reread.PartIsComplete` | src/standard_site.rs:790-797 | a complete walk gives a publication every document that the collection has of it if and only if none was passed over at its cap |
| `Reread.AloneKeepsItsPart` | src/standard_site.rs:640-649 | with the caps and filters of a group and of a re-read, the re-read has every record the group gave the publication, in the same places |
| `Reread.OnlyCutShortGains` | src/standard_site.rs:798-804 | a publication that is not marked for a re-read would get the same records from one: at the page limit, a repeated cursor, the combined cap and its own |
| `Reread.MarkedExactlyWhen` | src/standard_site.rs:776-804 | a publication is marked exactly if it is one of several, the walk stopped at a page that did not fit what was left, and until then it passed over no document of it |
| `Reread.RereadIsNeverWorse` | src/feed.rs:1253-1359 | the rows after a re-read are exactly those a read alone would have left, with the group's part among them; and where the re-read breaks, those the group left |
| `Reread.AloneMayBreak` | src/feed.rs:1311-1327 | a group of two, its caps, one budget and one server: the group has a document and marks the publication, and the re-read breaks; so the rule that it then keeps the group's rows is needed |
| `SharedBudget.OneWalkIsPaidFor` | src/atproto.rs:1298-1353 | a walk of either kind charges no more than was left, and at least 64 bytes a node of what it returns |
| `SharedBudget.CountsEveryAnswer` | src/atproto.rs:368-418 | what is counted as returned is every record of every walk that had an answer |
| `SharedBudget.SharedBudgetHolds` | src/atproto.rs:368-418 | over any sequence of walks of both kinds sharing a budget, the account stays within `max`, and 64 times every node returned stays within what was charged |
| `JsonScan.CountStructuralChars` | src/atproto.rs:2370-2399 | the two-flag loop counts what the three-mode scan does |
| `JsonScan.TextAdds` | src/atproto.rs:2360-2369 | any RFC 8259 text adds to the count one for each opening bracket, comma, colon and string literal of it, whatever the literals hold, and leaves the scan outside any string |
| `JsonScan.WeightBounds` | src/atproto.rs:2353-2359 | which is at least the number of values written less one, and at most four times it less three |
| `JsonScan.ParsedNodes` | src/atproto.rs:2353-2359 | a parse has no more nodes than were written, repeated keys included |
| `JsonScan.ObjectKeepsLast` | src/atproto.rs:354-360 | an object has each key once, with the value written last |
| `JsonScan.ScanBoundsNodes` | src/atproto.rs:2351-2369 | for every value and every text of it, spaced, escaped and spelled in any way, the value has at most one node more than the count |
| `JsonScan.RefuseAStructureExplosion` | src/atproto.rs:2403-2413 | a body is accepted exactly when its count is within the cap |
| `JsonScan.GuardHolds` | src/atproto.rs:2328-2350 | no accepted body parses into more than the cap's nodes and one, and every body of up to a quarter of the cap's values is accepted |
| `WriteChunks.ChunkWrites` | src/atproto.rs:1912-1931 | non-empty consecutive ranges that cover every write once, each within both limits unless it is a single write, and each so full that one more write would not do |
| `WriteChunks.StaysAhead` | src/atproto.rs:1906-1931 | greedy stays ahead of any other split from any place no further back |
| `WriteChunks.FewestCalls` | src/atproto.rs:1906-1931 | no other valid split has fewer ranges |
| `WriteChunks.ApplyWritesChunked` | src/atproto.rs:1955-1980 | whatever the server commits of a failed call: it holds a prefix, all of it on success, else the landed writes with or without the doubtful ones; each write is sent at most once and in order, nothing after the failure is sent; every call sent is within both limits, and the calls are the fewest possible |
| `Tid.DigitIsPosition` | src/atproto.rs:2127 | a digit is its character's place in the alphabet, and the alphabet ascends |
| `Tid.EncodeS32Tid` | src/atproto.rs:2182-2194 | the buffer filled from the back spells the number's thirteen digits |
| `Tid.DecodeS32Tid` | src/atproto.rs:2249-2262 | the accumulating loop, which gives up at a carry, decodes exactly the thirteen-digit strings whose value is below the top bit |
| `Tid.OrderIsValue` | src/atproto.rs:2120-2127 | among keys of one length byte order is the order of the numbers |
| `Tid.SortsBytewise` | src/atproto.rs:2120-2127 | and the order of keys is that of their bytes, of any lengths |
| `Tid.CodecIsIsomorphic` | src/atproto.rs:2182-2262 | decoding undoes encoding below 2^63 and only there; a string decodes exactly if it is the encoding of what it decodes to; all others, the overflowing ones included, are no key; keys sort as their numbers over all 64 bits |
| `Tid.TidGenerator.Next` | src/atproto.rs:2166-2178 | the next key spells the larger of the stamped clock and one more than the last |
| `Tid.ReadingIsKept` | src/atproto.rs:2166-2178 | where the clock leads the key carries its reading, to 53 bits, and the clock's number; where it does not, it is the next after the last |
| `Tid.Drift` | src/atproto.rs:2136-2179 | the value is never behind the furthest masked reading and at most k + 1022 counts ahead of it |
| `Tid.KeysIncreaseUnderAnyClock` | src/atproto.rs:2136-2179 | under any clock keys strictly increase, and decode to a time that leads the furthest reading by at most (k + 1022) / 1024 microseconds, while the top bit is not reached; and when that is |
| `InFlight.AbandonGuard.Register` | src/feed.rs:1510-1525 | a feed with a sanitize still running is refused, as its own failure if it was given up on, and a refusal leaves the map as it was |
| `InFlight.AbandonGuard.Abandon` | src/feed.rs:1528-1535 | giving up counts a running guard once, and does nothing to one that is over |
| `InFlight.AbandonGuard.Drop` | src/feed.rs:1538-1553 | a dropped guard takes its counts with it, and the entry when nothing is left |
| `InFlight.ReleasedTakesOne` | src/feed.rs:1538-1553 | a drop takes just one from each count it was in, and nothing from another feed's |
| `Admission.GuardRegistered` | src/feed.rs:1510-1525 | an admitted registration has its feed to itself |
| `Admission.GuardDropped` | src/feed.rs:1538-1553 | the entry goes with its one guard, and neither subtraction saturates |
| `Admission.GuardAbandoned` | src/feed.rs:1528-1535 | giving up finds a slot that is already there, and leaves the feed refused as `StillRunning` |
| `Admission.OneCallChanges` | src/feed.rs:1710-1779 | a step changes one call at most, and a pool's free permits by just what that call took or gave back |
| `Admission.InvAlways` | src/feed.rs:1710-1779 | the three invariants hold in every state any interleaving reaches |
| `Admission.CallsByEvents` | src/feed.rs:1710-1779 | what every call is, its guard, its permits, whether a poll awaits it, is what the steps of the run say of it |
| `Admission.WaitingMayRun` | src/feed.rs:1718-1732 | a waiting call of any size can take a free shared permit, and a small one the reserved |
| `Admission.EveryCallCanEnd` | src/feed.rs:1762-1768 | from every state that is reached each call can come to its end, guard dropped and permit back |
| `Admission.PollMayGiveUp` | src/feed.rs:1714-1778 | until it has its answer a poll can be dropped at any step, while it waits for a permit and after, and from the spawn on it can run out of time |
| `Admission.PollMayEnd` | src/feed.rs:1769-1770 | and one whose sanitize is over can have its answer |
| `Admission.EveryInterleaving` | src/feed.rs:1710-1779 | in every interleaving: one live guard a feed; its slot counts the live and the given-up ones and exists exactly while there is one; permits out and free make up each pool; no large body holds a reserved permit |
| `Admission.RefusedWhileRunning` | src/feed.rs:1510-1525 | a feed is refused exactly while its sanitize runs, as `StillRunning` exactly if it was given up on |
| `Admission.RefusedByEvents` | src/feed.rs:1510-1535 | read off the run: refused as `StillRunning` if and only if the time of a call of the feed was up before it returned, and it has not returned since; not refused if and only if every admitted call of the feed is over |
| `Admission.HoldersByEvents` | src/feed.rs:1718-1768 | the permits are out to just the calls that were granted one and have not given it back |
| `Admission.AdmittedAgain` | src/feed.rs:1762-1768 | and is admitted again once the guard is dropped, even before the permit is back |
| `Admission.ReserveStaysFree` | src/feed.rs:1398-1431 | while only large bodies run, a small one can take the reserved permit |
| `FeedPoll.NormalizeEntries` | src/feed.rs:1804-1858 | bodies are sanitized in turn up to the first that is not and none after it; from there on entries keep what is stored; a poll that is not to blame is deferred |
| `FeedPoll.FeedStore.RecordPoll` | src/store.rs:372-398 | a missing validator keeps the stored one |
| `FeedPoll.FeedStore.InsertEntries` | src/store.rs:2284-2400 | one transaction: each entry replaces the stored body of its guid unless it says to keep it, then rows over the cap go |
| `FeedPoll.RecordStage` | src/feed.rs:1903-2021 | a poll up to and including its first store call |
| `FeedPoll.InsertStage` | src/feed.rs:2022-2037 | its second store call, between which and the first other polls can run |
| `FeedPoll.PollFeedWith` | src/feed.rs:1903-2039 | the two together, with either call failing; a deferred, failed, unchanged or crashed poll changes nothing |
| `FeedPoll.OnePollsValidators` | src/feed.rs:1998-2013 | the first call leaves the validators of a poll's own response exactly when every body of it was sanitized and it was recorded; the second changes none |
| `FeedPoll.GivenUpNeverReplaces` | src/feed.rs:1804-1858 | after either store call of any poll, whatever row it finds, a stored entry has the body it had, one sanitized in this poll, or none because the feed sends none |
| `FeedPoll.EarnedIsStored` | src/feed.rs:2019-2024 | a poll that earns its validators has stored every body, up to trimming and repeated guids, if its second store call worked, and no body if not |
| `FeedPoll.FailedInsertLeavesValidator` | src/feed.rs:2019-2024 | a poll whose second store call fails and whose validator stays |
| `FeedPoll.DeferredExactlyWhen` | src/feed.rs:1823-1843 | a poll is deferred exactly when the first body that is not sanitized found no permit or a sanitize of the feed in progress |
| `FeedPoll.OutcomeByReason` | src/feed.rs:1822-1850 | by the reason the first body without markup has none: deferred exactly for `NoPermit` and `Busy`, a failure of the feed exactly for `TimedOut` and `StillRunning`, a crash exactly for a panic |
| `FeedPoll.UpdatedExactlyWhen` | src/feed.rs:2026-2038 | and updated exactly if there is no such body |
| `FeedPoll.EntriesByReason` | src/feed.rs:1808-1857 | what a failed poll stores: markup before that body, and from there on no bodies, keeping those that are stored |
| `FeedRuns.EarnedByAPoll` | src/feed.rs:1903-2062 | the poll that names the validator is one of the run, earned it, and no later one earned any; and if none is named, none was earned |
| `FeedRuns.ValidatorsAreEarned` | src/feed.rs:1903-2062 | in every interleaving of the store calls of overlapping, dropped and failing polls a stored validator is that of the last recorded response that had one and whose bodies were all sanitized, so a 304 never stands in for a body that was given up on |
| `FeedRuns.BetweenByEvents` | src/feed.rs:2019-2024 | which polls are between their store calls is read off the run |
| `FeedRuns.StepNeverReplaces` | src/feed.rs:1804-1858 | no step of any poll, from any state, replaces a stored body with one that was given up on |
| `FeedRuns.StoredIsLastGiven` | src/store.rs:2284-2400 | in every interleaving the body stored under a guid is what the last step that touched it left, read off the steps alone |
| `FeedRuns.EveryBodyWasSanitized` | src/feed.rs:1804-1858 | every stored body was sanitized in a poll of the run that inserted it |
| `FeedRuns.StoredExactlyWhen` | src/store.rs:2284-2400 | a body is stored under a guid if and only if some step of the run stored it there untrimmed and none since touched that guid |
| `FeedRuns.NamedBodiesAreStored` | src/feed.rs:2006-2024 | the stored bodies are those of the response a stored validator names if and only if its poll has the last word on each of them |
| `FeedRuns.LastInsertHasTheLastWord` | src/feed.rs:2019-2024 | which it has if its insert went through untrimmed and no step since touched one |
| `FeedRuns.EarnedGives` | src/feed.rs:1804-1858 | what an earned poll gives is the sanitized body of each entry of its response |
| `FeedRuns.PollInTurn` | src/feed.rs:1903-2039 | a poll that nothing comes between is a run of its two steps |
| `FeedRuns.OverlapMixesUp` | src/feed.rs:1453-1460 | two faultless overlapping polls that leave the validator of one over the body of the other |
| `FeedRuns.BareResponseKeepsValidator` | src/store.rs:372-398 | a later response without a validator leaves the old one over its own body |
| `FeedRuns.DroppedPollLeavesValidator` | src/feed.rs:2019-2024 | a poll dropped between its store calls leaves a validator over no body |
| `Octets.FloorCharBoundary` | src/feed.rs:2400-2405 | the largest boundary at or before a place |
| `Octets.CeilCharBoundary` | src/feed.rs:2504-2508 | the smallest at or after it |
| `Octets.FloorIsNear` | src/feed.rs:2400-2405 | in UTF-8 a boundary is at most three bytes back |
| `Utf8.Utf8ExactlyWhen` | src/body_codec.rs:126 | bytes are well formed if and only if they encode some text |
| `BoundedHtml.NextProbe` | src/feed.rs:2477-2489 | the probe is a boundary strictly inside the bracket, leaves about half of it on either side, and gives up only where no boundary is left |
| `BoundedHtml.Bisect` | src/feed.rs:2474-2500 | the bisection keeps its bracket, returns the lower end, and however it stops is within a 1024th of the bound or within seven bytes |
| `BoundedHtml.SanitizeHtmlBounded` | src/feed.rs:2456-2512 | for any sanitizer the output fits; a body that fits is returned as it is; otherwise the first cut is the last boundary a 64th of the bound, and at least 64 bytes, under it, and what that gives is the output if it fits; if not, the lower end of a bisection below that cut is, which fits where the upper does not, and for every bound they are within a 1024th of it or within seven bytes |
| `BoundedHtml.CutsUnderTheBound` | src/feed.rs:2461-2465 | the first cut is no more than three bytes below that margin |
| `BoundedHtml.Halves` | src/feed.rs:2475-2499 | each pass halves what the gap has over seven bytes |
| `BoundedHtml.ChainIsEscape` | src/feed.rs:2361-2369 | the four chained replacements are one escape, character by character |
| `BoundedHtml.EscapedSizeIsExact` | src/feed.rs:2423-2434 | the sizes the loop adds are the sizes of what is written |
| `BoundedHtml.Utf8LenIsLength` | src/feed.rs:2430 | the length added for any other character is that of its encoding |
| `BoundedHtml.PlainTextToHtmlBounded` | src/feed.rs:2423-2439 | the output is the escape of the longest prefix that fits, and every longer one does not |
| `BoundedHtml.EscapeIsInjective` | src/feed.rs:2361-2369 | different texts escape differently |
| `OpmlText.EscapeAttr` | src/opml.rs:324-337 | the loop escapes character by character |
| `OpmlText.EscapedIsInert` | src/opml.rs:323-337 | escaped text holds no quote and no angle bracket |
| `OpmlText.OneMoreReplacement` | src/opml.rs:310-321 | a replacement after a one-pass decode is a one-pass decode with one more entity |
| `OpmlText.UnescapeIsOnePass` | src/opml.rs:310-321 | on every input the six chained replacements are one pass: nothing is decoded twice, nothing is forged |
| `OpmlText.PredefinedEntities` | src/opml.rs:310-321 | each of the entities XML predefines, and the number some writers use, is decoded to its character |
| `OpmlText.UnescapeUndoesEscape` | src/opml.rs:310-337 | un-escaping inverts escaping |
| `OpmlAttr.ReadValueAt` | src/opml.rs:262-279 | what follows a name, read over positions |
| `OpmlAttr.ReadAttr` | src/opml.rs:252-283 | the search from one occurrence to the next reads the first place at a boundary where the attribute can be read |
| `OpmlOthers.LenientReading` | src/opml.rs:248-288 | an attribute is read with white space on either side of the equals sign and in quotes of either kind, exactly unless what comes before could be part of its name |
| `OpmlOthers.OpensInAnyCase` | src/opml.rs:298-307 | a tag opens an outline exactly if it is spelled so, each letter in either case |
| `OpmlOthers.NearestIsInnermost` | src/opml.rs:112-114 | a feed's folder is the innermost group around it that has a name |
| `OpmlOthers.TextStandsForTitle` | src/opml.rs:116-126 | a feed with a text and no title comes in under its text |
| `OpmlOthers.TitleGoesFirst` | src/opml.rs:116-126 | and under its title where it has both |
| `OpmlOthers.GroupOfTitle` | src/opml.rs:135-145 | a group may be named by its title alone, and one with no name is no folder |
| `OpmlRun.ScanValue` | src/opml.rs:252-283 | reading through a quoted value: its closing quote opens another value exactly if the value misleads |
| `OpmlRun.RunReads` | src/opml.rs:252-283 | for every name and every printed run of attributes, which value is read |
| `OpmlRun.EscapedMisleads` | src/opml.rs:252-337 | escaping neither hides nor makes a misleading value |
| `OpmlRun.PrintedReadsAs` | src/opml.rs:252-337 | reading a name from attributes printed escaped, in terms of their values before escaping |
| `OpmlScan.FirstsAreKept` | src/opml.rs:115-128 | the deduplicated list is exactly the feeds no earlier one shares a URL with, in order |
| `OpmlScan.ParseOpml` | src/opml.rs:73-152 | the indexed loop with its group stack and `seen` set reads what the recursive scan reads, first of each URL |
| `OpmlPrint.SortIsStable` | src/opml.rs:164-183 | the sort puts the same folders in order, and ties stay as they stood |
| `OpmlPrint.ByPositionThenName` | src/opml.rs:170-183 | by position, those without one first, and then by name, character by character |
| `OpmlPrint.PositionIsOfFirst` | src/opml.rs:171-180 | the position is that of the first folder with the URI |
| `OpmlPrint.DocumentIsFramed` | src/opml.rs:190-227 | the frame of the document: the declaration, and within `opml` a head with the title before the body |
| `OpmlPrint.FeedOutline` | src/opml.rs:231-246 | one printed line |
| `OpmlPrint.ToOpml` | src/opml.rs:163-228 | the loops print the document: frame, top-level feeds, then each folder that has members |
| `OpmlTags.ScanPrinted` | src/opml.rs:80-148 | a printed tag is entered with what its run reads as |
| `OpmlRoundTrip.FeedReadsAs` | src/opml.rs:231-283 | what is read of a printed feed, for all labels, URLs and sites |
| `OpmlRoundTrip.GroupOpens` | src/opml.rs:112-145 | a printed folder opens a group of its name, or, if the name misleads, is taken for a feed |
| `OpmlRoundTrip.DocumentReadsAs` | src/opml.rs:73-246 | for every list of subscriptions and folders, exactly what the printed document is read back as |
| `OpmlRoundTrip.FeedIsExact` | src/opml.rs:231-283 | a subscription is read back as meant if and only if it is clean |
| `OpmlExact.FoundIsMeantWhenClean` | src/opml.rs:73-246 | the feeds found are those that were meant if and only if the document is clean |
| `OpmlExact.RoundTrip` | src/opml.rs:73-246 | parsing what was printed of a clean document gives the first of each URL of its top-level feeds and then of each folder's, with label, URL, site and folder |
| `OpmlEachOnce.EachIsPrintedOnce` | src/opml.rs:186-226 | where folder URIs are distinct every subscription is printed exactly once: in the group of the folder it refers to, or at the top level where that is none |
| `OpmlEachOnce.EachComesBackOnce` | src/opml.rs:73-246 | for a clean document with distinct URLs: what is read back is one feed for each subscription, with its title or else its URL for a label, its URL and its site, in the folder of the name it refers to, and none besides |
| `OpmlExact.RoundTripOnlyWhenClean` | src/opml.rs:73-246 | and where URLs are distinct, only of a clean one |
| `OpmlExact.TitleHidesUrl` | src/opml.rs:252-283 | any title ending in ` xmlUrl=` loses the feed's URL |
| `OpmlExact.UrlHidesSite` | src/opml.rs:252-283 | any URL ending in `?htmlUrl=` loses the feed's site |
| `BodyCodec.DecodeTagged` | src/body_codec.rs:82-127 | however the inflater splits its progress the loop ends, with what the one-line specification says: a known tag, one complete stream using every byte, at most `max` bytes of text; it panics exactly on a known tag under a bound below 63 (or of the whole word); the buffer never passes `max + 1` |
| `BodyCodec.EncodedDecodes` | src/body_codec.rs:59-67 | an encoded body decodes to itself exactly when it is within the bound |
| `BodyCodec.TagTellsCopy` | src/body_codec.rs:30-57 | the tag 1 is a copy beside the plain text, 2 the sole copy, and any other no body |
| `BodyCodec.CutOrPaddedIsNoBody` | src/body_codec.rs:69-127 | every shorter cut and every padding of a blob that decodes is no body |
| `Metrics.Stats.Record` | src/metrics.rs:68-79 | a sample goes into the window of its outcome, which keeps its last 1024 |
| `Metrics.RepoMetrics.Record` | src/metrics.rs:151-173 | one operation's windows change and no other's, and the buffer drops its oldest rather than grow |
| `Metrics.RepoMetrics.Drain` | src/metrics.rs:194-196 | draining takes all of the buffer |
| `Metrics.DistinctKeys` | src/metrics.rs:289-295 | the keys of a batch |
| `Metrics.Flush` | src/metrics.rs:229-286 | one transaction, which may fail |
| `MetricsRuns.ObserveKeepsLive` | src/metrics.rs:68-79 | every live window stays the last 1024 of all its samples in order |
| `MetricsRuns.PruneTimings` | src/metrics.rs:266-282 | pruning a key leaves its newest 1024 and all of every other |
| `MetricsRuns.CommitKeepsPersisted` | src/metrics.rs:229-286 | every persisted window stays the last 1024 flushed of its key though only touched keys are pruned, and totals stay exact |
| `MetricsRuns.StepConserves` | src/metrics.rs:151-286 | no step loses or doubles a sample |
| `MetricsRuns.EveryRunIsExact` | src/metrics.rs:151-286 | over any interleaving, failed flushes included, all of these hold |
| `MetricsRuns.HistoryIsOfTheRun` | src/metrics.rs:151-173 | what counts as observed is just what the run observed |
| `MetricsRuns.DroppedWhenOverfull` | src/metrics.rs:116-173 | the buffer holds what came since the last drain up to its bound, and a sample was dropped if and only if more than that ever came between two drains |
| `MetricsRuns.LostWhenRolledBack` | src/metrics.rs:229-286 | a sample was lost if and only if a flush's transaction failed |
| `MetricsRuns.NothingElseIsMissing` | src/metrics.rs:116-121 | at rest what was observed is what was flushed, dropped and lost, and the tables lack nothing if and only if the buffer was never overfull and no transaction failed |
| `MetricsRuns.FailedFlushLoses` | src/metrics.rs:229-286 | a run of one sample that loses it |
| `MetricsRuns.FlushKeeps` | src/metrics.rs:229-286 | and one of one sample that has it in the tables and its total, with nothing left over |
| `MetricsRuns.OverfullBufferDrops` | src/metrics.rs:151-173 | a run that drops one |
| `Percentile.PercentileOf` | src/metrics.rs:97-106 | the percentile is a sample at the nearest rank, as the rank comes out with any rounding |
| `Percentile.ExactRank` | src/metrics.rs:101-105 | computed exactly, the rank is the least whole number that is at least that part of the samples, and no less than one |
| `Percentile.RoundingMovesOnePlace` | src/metrics.rs:101-105 | in double precision that is the exact rank of the window or one next to it |
| `Percentile.NearestRankIsUnique` | src/metrics.rs:97-106 | there is only one, in whatever order the window holds them |

## Left out

- HTTP, DNS, the SSRF guard, sign-in, handle and DID resolution, templates and routing: plumbing around the logic above.
- The parsing of a `listRecords` body into a page: a page is records, a cursor, a malformed count and two byte counts, all arbitrary.
- `Reread.RereadIsNeverWorse`: rows are the records themselves, by URI; making entries of them, the deadline the re-reads share and their order are not modelled, and the cap times the number of publications is taken to fit a word, where the source saturates.
- `RepoWalk.WalkAllWithin`: cursors and budgets are as in the source, but `usize` overflow of the sums themselves (beyond the checked addition of the account) is not modelled.
- `Json.ChargeCoversNodes`: takes the size of a parsed node as 32 bytes and of a record's envelope as 80; how much memory an allocator really uses is a measurement.
- `JsonScan.ScanBoundsNodes`: what a string's escapes stand for is an arbitrary parameter, and numbers may be spelled in more ways than RFC 8259 allows, which only widens the claim.
- `WriteChunks.ChunkWrites`: the serialized length of a write is a parameter.
- `Tid.TidGenerator.Next`: requires that the counter is not at the end of 64 bits, where the source would overflow; the plausibility window of `tid_timestamp` is not modelled.
- `Admission.EveryInterleaving`: the source prefers a shared permit to a reserved one when both are free; the model allows either, which only adds runs. Fairness and elapsed time are not modelled: a timeout may strike at any step it can.
- The `Starvation` counters beside the permits, which only feed an alert.
- `FeedPoll.PollFeedWith`: titles and times are not modelled, and stored bodies are compared uncompressed.
- `FeedPoll.FeedStore.InsertEntries`: which rows the per-feed cap trims is left to the environment, because dates and stars are not modelled; what is proved holds for whichever they are.
- `BoundedHtml.SanitizeHtmlBounded`: about the sanitizer only that it maps text to text and nothing to nothing.
- `BodyCodec.DecodeTagged`: about deflate only that a stream ends where its own bytes say and that the encoder's output inflates to its input; a vector's capacity is exactly what was reserved.
- `OpmlPrint.ToOpml`: the library sort is a function with the properties a stable sort has; the check of a site link's scheme happens where records are read and is not part of this model.
- `OpmlExact.RoundTripOnlyWhenClean`: assumes no URL is there twice and none is the stray ` title=`, since a repeated URL can hide what a misread one did; `OpmlExact.FoundIsMeantWhenClean` needs no such assumption because it looks at the feeds before they are deduplicated.
- `Metrics.Flush`: rows carry no ids; their order stands for ids that only ever increase.
- `Percentile.RoundingMovesOnePlace`: a percentile from 0 to 100 and a window of up to 1024 samples; a percentile that is not a number is not modelled.
- `classify_feed_privacy`, the provider tables, configuration, rendering and the record types: tables and wiring without an invariant of their own.
