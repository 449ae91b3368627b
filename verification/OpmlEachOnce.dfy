/** The round trip said of the subscriptions themselves: each is printed once, and
    comes back once, in the folder it was in. */
module OpmlEachOnce {
  import opened Wrappers
  import opened OpmlScan
  import opened OpmlPrint
  import opened OpmlRoundTrip
  import opened OpmlExact

  /** The name of the folder with this URI, if there is one. */
  function FolderNamed(folders: Folders, uri: string): Option<string> {
    if folders == [] then None
    else if folders[0].0 == uri then Some(folders[0].1.name)
    else FolderNamed(folders[1..], uri)
  }

  /** The folder a subscription should come back in: the name of the one it refers
      to, unless there is no such folder, or it has no name. */
  function FolderFor(sub: Subscription, folders: Folders): Option<string> {
    match sub.folder
    case None => None
    case Some(uri) =>
      match FolderNamed(folders, uri)
      case None => None
      case Some(name) => if name == "" then None else Some(name)
  }

  /** What a subscription should come back as: under its title, or its URL where it
      has none. */
  function Expected(sub: Subscription, folders: Folders): ImportedFeed {
    var caption := if sub.title.Some? then sub.title.value else sub.url;
    ImportedFeed(
      sub.url,
      if caption == "" then None else Some(caption),
      if sub.siteUrl == Some("") then None else sub.siteUrl,
      FolderFor(sub, folders))
  }

  function ExpectedAll(subs: Subs, folders: Folders): seq<ImportedFeed> {
    if subs == [] then [] else [Expected(subs[0].1, folders)] + ExpectedAll(subs[1..], folders)
  }

  predicate DistinctFolders(folders: Folders) {
    forall i, j | 0 <= i < j < |folders| :: folders[i].0 != folders[j].0
  }

  predicate DistinctUrls(subs: Subs) {
    && (forall s | s in subs :: s.1.url != "")
    && forall i, j | 0 <= i < j < |subs| :: subs[i].1.url != subs[j].1.url
  }

  // ---- the printed lines ------------------------------------------------------

  /** A line of the document: a subscription, and the name of the group it is in. */
  datatype Line = Line(sub: Subscription, folder: Option<string>)

  function InGroup(members: seq<Subscription>, folder: Option<string>): seq<Line> {
    if members == [] then [] else [Line(members[0], folder)] + InGroup(members[1..], folder)
  }

  function GroupLines(subs: Subs, places: seq<Place>): seq<Line> {
    if places == [] then []
    else
      InGroup(Members(subs, places[0].uri), if places[0].name == "" then None else Some(places[0].name))
      + GroupLines(subs, places[1..])
  }

  /** The lines of a document, in the order they are printed. */
  function PrintedLines(subs: Subs, folders: Folders): seq<Line> {
    InGroup(TopLevel(subs, folders), None) + GroupLines(subs, FolderOrder(folders))
  }

  function WantedLines(subs: Subs, folders: Folders): seq<Line> {
    if subs == [] then [] else [Line(subs[0].1, FolderFor(subs[0].1, folders))] + WantedLines(subs[1..], folders)
  }

  lemma {:induction false} InGroupAppend(a: seq<Subscription>, b: seq<Subscription>, folder: Option<string>)
    ensures InGroup(a + b, folder) == InGroup(a, folder) + InGroup(b, folder)
  {
    if a == [] {
      assert a + b == b;
    } else {
      assert (a + b)[1..] == a[1..] + b;
      InGroupAppend(a[1..], b, folder);
    }
  }

  lemma OneMember(s: (string, Subscription), uri: string)
    ensures Members([s], uri) == (if s.1.folder == Some(uri) then [s.1] else []) && Members([], uri) == []
  {
    assert [s][1..] == [];
  }

  lemma {:induction false} GroupLinesCons(s: (string, Subscription), rest: Subs, places: seq<Place>)
    ensures multiset(GroupLines([s] + rest, places)) == multiset(GroupLines([s], places)) + multiset(GroupLines(rest, places))
  {
    hide InGroup;
    if places != [] {
      var uri := places[0].uri;
      GroupLinesCons(s, rest, places[1..]);
      OneMember(s, uri);
      assert ([s] + rest)[1..] == rest;
      assert Members([s] + rest, uri) == Members([s], uri) + Members(rest, uri);
      InGroupAppend(Members([s], uri), Members(rest, uri), if places[0].name == "" then None else Some(places[0].name));
    }
  }

  predicate DistinctPlaces(places: seq<Place>) {
    forall i, j | 0 <= i < j < |places| :: places[i].uri != places[j].uri
  }

  lemma OneLine(sub: Subscription, folder: Option<string>)
    ensures InGroup([sub], folder) == [Line(sub, folder)] && InGroup([], folder) == []
  {
    assert [sub][1..] == [];
  }

  /** A subscription is printed in the one group whose folder it refers to. */
  lemma {:induction false} GroupLinesOne(s: (string, Subscription), places: seq<Place>)
    requires DistinctPlaces(places)
    ensures (forall p | p in places :: s.1.folder != Some(p.uri)) ==> GroupLines([s], places) == []
    ensures forall p | p in places && s.1.folder == Some(p.uri) ::
      GroupLines([s], places) == [Line(s.1, if p.name == "" then None else Some(p.name))]
  {
    hide Members, InGroup;
    if places != [] {
      var p := places[0];
      GroupLinesOne(s, places[1..]);
      OneMember(s, p.uri);
      OneLine(s.1, if p.name == "" then None else Some(p.name));
      assert places == [p] + places[1..];
      assert forall q | q in places[1..] :: exists j | 1 <= j < |places| :: places[j] == q;
      assert forall q | q in places[1..] :: q.uri != p.uri;
    }
  }

  lemma {:induction false} NamedIsFirst(folders: Folders, uri: string)
    ensures FolderNamed(folders, uri).None? <==> forall f | f in folders :: f.0 != uri
    ensures FolderNamed(folders, uri).Some? ==>
      exists f :: f in folders && f.0 == uri && f.1.name == FolderNamed(folders, uri).value
  {
    if folders != [] {
      NamedIsFirst(folders[1..], uri);
      assert folders == [folders[0]] + folders[1..];
    }
  }

  /** The folders in their order are the folders: each once where no URI is there
      twice, and one of them is named as the folder with its URI is. */
  lemma PlacesAreFolders(folders: Folders, uri: string)
    ensures FolderNamed(folders, uri).None? ==> forall p | p in FolderOrder(folders) :: p.uri != uri
    ensures FolderNamed(folders, uri).Some? ==> Place(uri, FolderNamed(folders, uri).value) in FolderOrder(folders)
  {
    hide FolderOrder;
    NamedIsFirst(folders, uri);
    if FolderNamed(folders, uri).Some? {
      InFolderOrder(folders, Place(uri, FolderNamed(folders, uri).value));
    } else {
      forall p | p in FolderOrder(folders) ensures p.uri != uri {
        InFolderOrder(folders, p);
      }
    }
  }

  lemma {:induction false} PlacesAt(folders: Folders)
    ensures |Places(folders)| == |folders|
    ensures forall i | 0 <= i < |folders| :: Places(folders)[i] == Place(folders[i].0, folders[i].1.name)
  {
    if folders != [] {
      PlacesAt(folders[1..]);
    }
  }

  /** Whether no URI is there twice does not depend on the order. */
  lemma {:induction false} DistinctAnyOrder(a: seq<Place>, b: seq<Place>)
    requires multiset(a) == multiset(b) && DistinctPlaces(a)
    ensures DistinctPlaces(b)
  {
    forall i, j | 0 <= i < j < |b| ensures b[i].uri != b[j].uri {
      if b[i].uri == b[j].uri {
        var x := b[i];
        assert x in multiset(a) && b[j] in multiset(a);
        assert b[j] == x by {
          assert x in a && b[j] in a;
        }
        TwiceCounts(b, i, j);
        OnceCounts(a, x);
        assert false;
      }
    }
  }

  lemma TwiceCounts<T>(s: seq<T>, i: nat, j: nat)
    requires i < j < |s| && s[i] == s[j]
    ensures multiset(s)[s[i]] >= 2
  {
    assert s == s[..j] + [s[j]] + s[j + 1..];
    assert s[..j][i] == s[i];
    assert s[i] in multiset(s[..j]);
  }

  lemma {:induction false} OnceCounts(places: seq<Place>, x: Place)
    requires DistinctPlaces(places)
    ensures multiset(places)[x] <= 1
  {
    if places != [] {
      OnceCounts(places[1..], x);
      assert places == [places[0]] + places[1..];
      if x == places[0] {
        assert forall j | 0 <= j < |places[1..]| :: places[1..][j] == places[j + 1];
        assert x !in places[1..];
        assert x !in multiset(places[1..]);
      }
    }
  }

  lemma OrderIsDistinct(folders: Folders)
    requires DistinctFolders(folders)
    ensures DistinctPlaces(FolderOrder(folders))
  {
    hide FolderOrder, Places, Sort;
    PlacesAt(folders);
    SortIsStable(folders, Places(folders));
    assert FolderOrder(folders) == Sort(folders, Places(folders)) by { OrderIsSorted(folders); }
    DistinctAnyOrder(Places(folders), FolderOrder(folders));
  }

  lemma OrderIsSorted(folders: Folders)
    ensures FolderOrder(folders) == Sort(folders, Places(folders))
  {
  }

  lemma TopLevelIsUnnamed(folders: Folders, sub: Subscription)
    ensures IsTopLevel(folders, sub) <==> sub.folder.None? || FolderNamed(folders, sub.folder.value).None?
  {
    if sub.folder.Some? {
      NamedIsFirst(folders, sub.folder.value);
    }
  }

  /** One subscription: at the top level, or in its folder's group, and not both. */
  lemma OneWanted(s: (string, Subscription), folders: Folders)
    requires DistinctFolders(folders)
    ensures InGroup(TopLevel([s], folders), None) + GroupLines([s], FolderOrder(folders))
         == [Line(s.1, FolderFor(s.1, folders))]
  {
    hide FolderOrder, IsTopLevel, GroupLines;
    OrderIsDistinct(folders);
    GroupLinesOne(s, FolderOrder(folders));
    TopLevelIsUnnamed(folders, s.1);
    OneLine(s.1, None);
    assert [s][1..] == [] && TopLevel([], folders) == [];
    if s.1.folder.Some? {
      PlacesAreFolders(folders, s.1.folder.value);
    }
  }

  lemma OneMoreIsPrinted(s: (string, Subscription), rest: Subs, folders: Folders)
    requires DistinctFolders(folders)
    ensures multiset(PrintedLines([s] + rest, folders))
         == multiset([Line(s.1, FolderFor(s.1, folders))]) + multiset(PrintedLines(rest, folders))
  {
    hide FolderOrder, IsTopLevel, GroupLines, FolderFor, InGroup;
    var subs, places := [s] + rest, FolderOrder(folders);
    GroupLinesCons(s, rest, places);
    OneWanted(s, folders);
    TopLevelCons(s, rest, folders);
    var top := TopLevel([s], folders);
    InGroupAppend(top, TopLevel(rest, folders), None);
    SumOfLines(InGroup(top, None), InGroup(TopLevel(rest, folders), None),
               GroupLines([s], places), GroupLines(rest, places), GroupLines(subs, places));
  }

  lemma TopLevelCons(s: (string, Subscription), rest: Subs, folders: Folders)
    ensures TopLevel([s] + rest, folders) == TopLevel([s], folders) + TopLevel(rest, folders)
  {
    hide IsTopLevel;
    assert ([s] + rest)[1..] == rest;
    assert [s][1..] == [] && TopLevel([], folders) == [];
  }

  /** Every subscription is printed exactly once, in the group of its folder. */
  lemma {:induction false} EachIsPrintedOnce(subs: Subs, folders: Folders)
    ensures DistinctFolders(folders) ==> multiset(PrintedLines(subs, folders)) == multiset(WantedLines(subs, folders))
  {
    hide PrintedLines, FolderFor;
    if DistinctFolders(folders) {
      if subs == [] {
        NothingIsPrinted(folders);
      } else {
        EachIsPrintedOnce(subs[1..], folders);
        OneMoreIsPrinted(subs[0], subs[1..], folders);
        assert subs == [subs[0]] + subs[1..];
      }
    }
  }

  lemma NothingIsPrinted(folders: Folders)
    ensures PrintedLines([], folders) == []
  {
    hide FolderOrder;
    NoLines(FolderOrder(folders));
  }

  lemma SumOfLines(a: seq<Line>, b: seq<Line>, c: seq<Line>, d: seq<Line>, cd: seq<Line>)
    requires multiset(cd) == multiset(c) + multiset(d)
    ensures multiset((a + b) + cd) == multiset(a + c) + multiset(b + d)
  {
  }

  lemma {:induction false} NoLines(places: seq<Place>)
    ensures GroupLines([], places) == []
  {
    if places != [] {
      NoLines(places[1..]);
    }
  }

  // ---- what comes back --------------------------------------------------------

  function MeantBy(lines: seq<Line>): seq<ImportedFeed> {
    if lines == [] then [] else Meant(lines[0].sub, lines[0].folder) + MeantBy(lines[1..])
  }

  lemma {:induction false} MeantByAppend(a: seq<Line>, b: seq<Line>)
    ensures MeantBy(a + b) == MeantBy(a) + MeantBy(b)
  {
    hide Meant;
    if a == [] {
      assert a + b == b;
    } else {
      assert (a + b)[1..] == a[1..] + b;
      MeantByAppend(a[1..], b);
    }
  }

  lemma {:induction false} MeantByGroup(members: seq<Subscription>, folder: Option<string>)
    ensures MeantBy(InGroup(members, folder)) == AllMeant(members, folder)
  {
    hide Meant;
    if members != [] {
      MeantByGroup(members[1..], folder);
      assert InGroup(members, folder)[1..] == InGroup(members[1..], folder);
    }
  }

  lemma {:induction false} MeantByGroups(subs: Subs, places: seq<Place>)
    ensures MeantBy(GroupLines(subs, places)) == GroupsMeant(subs, places)
  {
    hide Members;
    if places != [] {
      var members := Members(subs, places[0].uri);
      var folder := if places[0].name == "" then None else Some(places[0].name);
      MeantByGroups(subs, places[1..]);
      MeantByGroup(members, folder);
      MeantByAppend(InGroup(members, folder), GroupLines(subs, places[1..]));
    }
  }

  lemma DocumentIsMeantByLines(subs: Subs, folders: Folders)
    ensures DocumentMeant(subs, folders) == MeantBy(PrintedLines(subs, folders))
  {
    hide FolderOrder, TopLevel;
    MeantByGroup(TopLevel(subs, folders), None);
    MeantByGroups(subs, FolderOrder(folders));
    MeantByAppend(InGroup(TopLevel(subs, folders), None), GroupLines(subs, FolderOrder(folders)));
  }

  lemma TakenOut<T>(s: seq<T>, k: nat)
    requires k < |s|
    ensures multiset(s[..k] + s[k + 1..]) == multiset(s) - multiset{s[k]}
  {
    assert s == s[..k] + ([s[k]] + s[k + 1..]);
    assert multiset(s) == multiset(s[..k]) + multiset([s[k]]) + multiset(s[k + 1..]);
  }

  lemma MeantByCons(x: Line, rest: seq<Line>)
    ensures MeantBy([x] + rest) == Meant(x.sub, x.folder) + MeantBy(rest)
  {
    hide Meant;
    assert ([x] + rest)[1..] == rest;
  }

  lemma MiddleFirst<T>(a: seq<T>, x: seq<T>, b: seq<T>)
    ensures multiset(a + (x + b)) == multiset(x) + multiset(a + b)
  {
  }

  lemma MeantByTakenOut(lines: seq<Line>, k: nat)
    requires k < |lines|
    ensures multiset(MeantBy(lines))
         == multiset(Meant(lines[k].sub, lines[k].folder)) + multiset(MeantBy(lines[..k] + lines[k + 1..]))
  {
    hide Meant, MeantBy;
    var x, before, after := lines[k], lines[..k], lines[k + 1..];
    assert lines == before + ([x] + after);
    MeantByAppend(before, after);
    MeantByAppend(before, [x] + after);
    MeantByCons(x, after);
    MiddleFirst(MeantBy(before), Meant(x.sub, x.folder), MeantBy(after));
  }

  lemma MeantByFirst(a: seq<Line>, b: seq<Line>, k: nat)
    requires a != [] && k < |b| && b[k] == a[0]
    requires multiset(MeantBy(a[1..])) == multiset(MeantBy(b[..k] + b[k + 1..]))
    ensures multiset(MeantBy(a)) == multiset(MeantBy(b))
  {
    assert a[..0] + a[1..] == a[1..];
    MeantByTakenOut(a, 0);
    MeantByTakenOut(b, k);
    hide Meant, MeantBy;
  }

  lemma PlaceOf<T>(a: seq<T>, b: seq<T>, x: T) returns (k: nat)
    requires multiset(a) == multiset(b) && x in a
    ensures k < |b| && b[k] == x
  {
    assert x in multiset(a);
    assert x in b;
    k :| 0 <= k < |b| && b[k] == x;
  }

  lemma WithoutFirst<T>(a: seq<T>, b: seq<T>) returns (k: nat)
    requires multiset(a) == multiset(b) && a != []
    ensures k < |b| && b[k] == a[0] && multiset(a[1..]) == multiset(b[..k] + b[k + 1..])
  {
    k := PlaceOf(a, b, a[0]);
    assert multiset(a[1..]) == multiset(a) - multiset{a[0]} by {
      TakenOut(a, 0);
      assert a[..0] + a[1..] == a[1..];
    }
    TakenOut(b, k);
  }

  /** The same lines in another order mean the same feeds in another order. */
  lemma {:induction false} MeantByAnyOrder(a: seq<Line>, b: seq<Line>)
    requires multiset(a) == multiset(b)
    ensures multiset(MeantBy(a)) == multiset(MeantBy(b))
  {
    hide Meant, MeantBy;
    if a == [] {
      assert |multiset(a)| == 0 && |multiset(b)| == |b|;
    } else {
      var k := WithoutFirst(a, b);
      MeantByAnyOrder(a[1..], b[..k] + b[k + 1..]);
      MeantByFirst(a, b, k);
    }
  }

  lemma {:induction false} WantedAreExpected(subs: Subs, folders: Folders)
    requires forall s | s in subs :: s.1.url != ""
    ensures MeantBy(WantedLines(subs, folders)) == ExpectedAll(subs, folders)
  {
    if subs != [] {
      assert subs[0] in subs && forall s | s in subs[1..] :: s in subs;
      WantedAreExpected(subs[1..], folders);
      assert WantedLines(subs, folders)[1..] == WantedLines(subs[1..], folders);
    }
  }

  lemma {:induction false} ExpectedAt(subs: Subs, folders: Folders)
    ensures |ExpectedAll(subs, folders)| == |subs|
    ensures forall i | 0 <= i < |subs| :: ExpectedAll(subs, folders)[i] == Expected(subs[i].1, folders)
  {
    if subs != [] {
      ExpectedAt(subs[1..], folders);
    }
  }

  lemma {:induction false} OnceFeed(feeds: seq<ImportedFeed>, x: ImportedFeed)
    requires Distinct(feeds)
    ensures multiset(feeds)[x] <= 1
  {
    if feeds != [] {
      OnceFeed(feeds[1..], x);
      assert feeds == [feeds[0]] + feeds[1..];
      if x == feeds[0] {
        assert forall j | 0 <= j < |feeds[1..]| :: feeds[1..][j] == feeds[j + 1];
        assert x !in feeds[1..];
        assert x !in multiset(feeds[1..]);
      }
    }
  }

  lemma DistinctFeedsAnyOrder(a: seq<ImportedFeed>, b: seq<ImportedFeed>)
    requires multiset(a) == multiset(b) && Distinct(a)
    ensures Distinct(b)
  {
    forall i, j | 0 <= i < j < |b| ensures b[i].feedUrl != b[j].feedUrl {
      if b[i].feedUrl == b[j].feedUrl {
        var x := b[i];
        assert x in multiset(a) && b[j] in multiset(a);
        assert b[j] == x by {
          assert x in a && b[j] in a;
        }
        TwiceCounts(b, i, j);
        OnceFeed(a, x);
        assert false;
      }
    }
  }

  /** Printing and parsing, for a clean document whose subscriptions have URLs of
      their own and whose folders have URIs of their own: what is read back is one
      feed for each subscription, with its caption, URL and site, in the folder it
      refers to, and none besides. */
  lemma EachComesBackOnce(subs: Subs, folders: Folders)
    ensures Clean(subs, folders) && DistinctUrls(subs) && DistinctFolders(folders) ==>
      multiset(Parsed(Document(subs, folders))) == multiset(ExpectedAll(subs, folders))
  {
    hide Clean, Document, Parsed, DocumentMeant, PrintedLines, WantedLines, FirstByUrl;
    if Clean(subs, folders) && DistinctUrls(subs) && DistinctFolders(folders) {
      RoundTrip(subs, folders);
      DocumentIsMeantByLines(subs, folders);
      EachIsPrintedOnce(subs, folders);
      MeantByAnyOrder(PrintedLines(subs, folders), WantedLines(subs, folders));
      WantedAreExpected(subs, folders);
      ExpectedAt(subs, folders);
      DistinctFeedsAnyOrder(ExpectedAll(subs, folders), DocumentMeant(subs, folders));
      DistinctIsKept(DocumentMeant(subs, folders));
    }
  }
}
