/** What a printed document is read back as: exactly, for all subscriptions and
    folders, and exactly when that is what was printed. */
module OpmlRoundTrip {
  import opened Wrappers
  import opened OpmlAttr
  import opened OpmlRun
  import opened OpmlScan
  import opened OpmlPrint
  import opened OpmlTags

  // ---- one feed ---------------------------------------------------------------

  /** What a misleading value gives: the text up to the quote of the next. */
  const STRAY := " title="
  const STRAY_SITE := " htmlUrl="

  function ReadUrl(sub: Subscription): string {
    if Misleads(true, Label(sub), "xmlUrl") then STRAY else sub.url
  }

  function ReadTitle(sub: Subscription): string {
    if Misleads(true, Label(sub), "title") then STRAY else Label(sub)
  }

  function ReadSite(sub: Subscription): Option<string> {
    if Misleads(true, Label(sub), "htmlUrl") then Some(STRAY)
    else if sub.siteUrl.Some? && Misleads(true, sub.url, "htmlUrl") then Some(STRAY_SITE)
    else sub.siteUrl
  }

  lemma {:induction false} MisleadingHasEquals(boundary: bool, v: string, name: string)
    requires Misleads(boundary, v, name)
    ensures '=' in v
    decreases |v|
  {
    if boundary && IsAssignment(v, name) {
      SkipSpaceStays(v[|name|..], '=');
    } else {
      MisleadingHasEquals(!IsNameChar(v[0]), v[1..], name);
    }
  }

  lemma ReadRunCons(p: Pair, q: Pair, rest: seq<Pair>, name: string)
    ensures ReadRun([p, q] + rest, name) ==
      if p.key == name then Some(p.value)
      else if Misleads(true, p.value, name) then Some(" " + q.key + "=")
      else ReadRun([q] + rest, name)
  {
    hide Misleads;
    assert ([p, q] + rest)[1..] == [q] + rest;
  }

  lemma ReadRunLast(p: Pair, name: string)
    ensures ReadRun([p], name) == if p.key == name then Some(p.value) else None
  {
    hide Misleads;
    assert [p][1..] == [];
  }

  lemma KeysAreNames(sub: Subscription, name: string)
    ensures Named(FeedPairs(sub)) && Named(GroupPairs(name))
  {
    NamesAreNames();
    hide IsName;
  }

  lemma RssIsPlain(name: string)
    ensures !Misleads(true, "rss", name)
  {
    if Misleads(true, "rss", name) {
      MisleadingHasEquals(true, "rss", name);
    }
  }

  /** The type and the label, which is there twice, come before the rest. */
  lemma LabelReadsAs(caption: string, u: Pair, more: seq<Pair>, name: string)
    ensures ReadRun([Pair("type", "rss"), Pair("text", caption), Pair("title", caption), u] + more, name) ==
      if name == "type" then Some("rss")
      else if name == "text" then Some(caption)
      else if Misleads(true, caption, name) then Some(STRAY)
      else if name == "title" then Some(caption)
      else ReadRun([u] + more, name)
  {
    RssIsPlain(name);
    hide Misleads, ReadRun;
    var t, n, l := Pair("type", "rss"), Pair("text", caption), Pair("title", caption);
    ReadRunCons(t, n, [l, u] + more, name);
    assert [t, n, l, u] + more == [t, n] + ([l, u] + more);
    ReadRunCons(n, l, [u] + more, name);
    assert [n] + ([l, u] + more) == [n, l] + ([u] + more);
    ReadRunCons(l, u, more, name);
    assert [l] + ([u] + more) == [l, u] + more;
    assert " " + l.key + "=" == STRAY;
  }

  lemma UrlReadsAs(sub: Subscription, name: string)
    ensures ReadRun([Pair("xmlUrl", sub.url)] + SitePairs(sub), name) ==
      if name == "xmlUrl" then Some(sub.url)
      else if sub.siteUrl.None? then None
      else if Misleads(true, sub.url, name) then Some(STRAY_SITE)
      else if name == "htmlUrl" then sub.siteUrl
      else None
  {
    hide Misleads, ReadRun;
    var u, more := Pair("xmlUrl", sub.url), SitePairs(sub);
    if sub.siteUrl.None? {
      assert [u] + more == [u];
      ReadRunLast(u, name);
    } else {
      assert [u] + more == [u, more[0]] + [];
      assert [more[0]] + [] == [more[0]];
      assert " " + more[0].key + "=" == STRAY_SITE;
      ReadRunCons(u, more[0], [], name);
      ReadRunLast(more[0], name);
    }
  }

  lemma FeedReadsAs(sub: Subscription)
    ensures OutlineOf(FeedPairs(sub), true)
         == Outline(Some(ReadUrl(sub)), Some(ReadTitle(sub)), Some(Label(sub)), ReadSite(sub), true)
  {
    hide Misleads, ReadRun, SitePairs;
    var u := Pair("xmlUrl", sub.url);
    LabelReadsAs(Label(sub), u, SitePairs(sub), "xmlUrl");
    LabelReadsAs(Label(sub), u, SitePairs(sub), "title");
    LabelReadsAs(Label(sub), u, SitePairs(sub), "text");
    LabelReadsAs(Label(sub), u, SitePairs(sub), "htmlUrl");
    UrlReadsAs(sub, "xmlUrl");
    UrlReadsAs(sub, "htmlUrl");
  }

  function ReadAs(sub: Subscription, folder: Option<string>): seq<ImportedFeed> {
    if ReadUrl(sub) == "" then []
    else [ImportedFeed(ReadUrl(sub), NonEmpty(Some(ReadTitle(sub))), NonEmpty(ReadSite(sub)), folder)]
  }

  /** What should come back of a subscription: its label, URL and site. One
      without a URL is no feed. */
  function Meant(sub: Subscription, folder: Option<string>): seq<ImportedFeed> {
    if sub.url == "" then []
    else [ImportedFeed(sub.url, NonEmpty(Some(Label(sub))), NonEmpty(sub.siteUrl), folder)]
  }

  /** A subscription none of whose values is read for another: no label or URL
      ends in what looks like the start of an attribute, except where what is
      then read is what was meant all along. */
  predicate CleanSub(sub: Subscription) {
    && (Misleads(true, Label(sub), "xmlUrl") ==> sub.url == STRAY)
    && (sub.url != "" ==>
          && (Misleads(true, Label(sub), "title") ==> Label(sub) == STRAY)
          && (Misleads(true, Label(sub), "htmlUrl") ==> sub.siteUrl == Some(STRAY))
          && (!Misleads(true, Label(sub), "htmlUrl") && sub.siteUrl.Some? && Misleads(true, sub.url, "htmlUrl") ==>
                sub.siteUrl == Some(STRAY_SITE)))
  }

  lemma FeedIsExact(sub: Subscription, folder: Option<string>)
    ensures ReadAs(sub, folder) == Meant(sub, folder) <==> CleanSub(sub)
    ensures |ReadAs(sub, folder)| >= |Meant(sub, folder)|
    ensures |ReadAs(sub, folder)| > |Meant(sub, folder)| ==> Listed(ReadAs(sub, folder), STRAY)
  {
    hide Misleads;
    var r, m := ReadAs(sub, folder), Meant(sub, folder);
    assert r != [] ==> r[0] in r;
    assert r != [] && m != [] ==> (r == m <==> r[0] == m[0]);
  }

  lemma FeedHasPairs(sub: Subscription)
    ensures FeedPairs(sub) != []
  {
  }

  lemma ScanFeedLine(sub: Subscription, depth: nat, t: string, st: State)
    ensures Scan(FeedLine(sub, depth) + t, st) == Scan(t, State(st.found + ReadAs(sub, Nearest(st.groups)), st.groups))
  {
    hide Scan, Misleads, OutlineTag, FeedPairs, OutlineOf;
    var tag := OutlineTag(FeedPairs(sub), true) + t;
    assert FeedLine(sub, depth) + t == Indent(depth) + tag;
    IndentIsInert(depth);
    ScanInert(Indent(depth), tag, st);
    KeysAreNames(sub, "");
    assert FeedPairs(sub) != [] by { FeedHasPairs(sub); }
    ScanPrinted(FeedPairs(sub), true, t, st);
    FeedReadsAs(sub);
    assert st.found + [] == st.found;
  }

  // ---- lists of feeds, and groups ---------------------------------------------

  function AllReadAs(subs: seq<Subscription>, folder: Option<string>): seq<ImportedFeed> {
    if subs == [] then [] else ReadAs(subs[0], folder) + AllReadAs(subs[1..], folder)
  }

  function AllMeant(subs: seq<Subscription>, folder: Option<string>): seq<ImportedFeed> {
    if subs == [] then [] else Meant(subs[0], folder) + AllMeant(subs[1..], folder)
  }

  /** A group whose name misleads is taken for a feed, and gives its members no
      folder. */
  function GroupReadAs(name: string, members: seq<Subscription>): seq<ImportedFeed> {
    if members == [] then []
    else if Misleads(true, name, "xmlUrl") then
      [FeedOf(OutlineOf(GroupPairs(name), false), STRAY, None)] + AllReadAs(members, None)
    else AllReadAs(members, NonEmpty(Some(name)))
  }

  function GroupMeant(name: string, members: seq<Subscription>): seq<ImportedFeed> {
    AllMeant(members, NonEmpty(Some(name)))
  }

  function GroupsReadAs(subs: Subs, places: seq<Place>): seq<ImportedFeed> {
    if places == [] then []
    else GroupReadAs(places[0].name, Members(subs, places[0].uri)) + GroupsReadAs(subs, places[1..])
  }

  function GroupsMeant(subs: Subs, places: seq<Place>): seq<ImportedFeed> {
    if places == [] then []
    else GroupMeant(places[0].name, Members(subs, places[0].uri)) + GroupsMeant(subs, places[1..])
  }

  function DocumentReadAs(subs: Subs, folders: Folders): seq<ImportedFeed> {
    AllReadAs(TopLevel(subs, folders), None) + GroupsReadAs(subs, FolderOrder(folders))
  }

  /** What should come back of a document: the feeds at the top level, then those
      of each folder, in the order of the folders. */
  function DocumentMeant(subs: Subs, folders: Folders): seq<ImportedFeed> {
    AllMeant(TopLevel(subs, folders), None) + GroupsMeant(subs, FolderOrder(folders))
  }

  // ---- reading it -------------------------------------------------------------

  lemma {:induction false} ScanFeedLines(subs: seq<Subscription>, depth: nat, t: string, st: State)
    ensures Scan(FeedLines(subs, depth) + t, st)
         == Scan(t, State(st.found + AllReadAs(subs, Nearest(st.groups)), st.groups))
  {
    hide Scan, FeedLine, ReadAs;
    if subs == [] {
      assert "" + t == t && st.found + [] == st.found;
    } else {
      var rest := FeedLines(subs[1..], depth) + t;
      assert FeedLines(subs, depth) + t == FeedLine(subs[0], depth) + rest;
      ScanFeedLine(subs[0], depth, rest, st);
      var folder := Nearest(st.groups);
      var next := State(st.found + ReadAs(subs[0], folder), st.groups);
      ScanFeedLines(subs[1..], depth, t, next);
      assert next.found + AllReadAs(subs[1..], folder) == st.found + (ReadAs(subs[0], folder) + AllReadAs(subs[1..], folder));
    }
  }

  lemma GroupOpens(name: string, found: seq<ImportedFeed>)
    ensures Enter(State(found, []), OutlineOf(GroupPairs(name), false)) ==
      if Misleads(true, name, "xmlUrl")
      then State(found + [FeedOf(OutlineOf(GroupPairs(name), false), STRAY, None)], [None])
      else State(found, [NonEmpty(Some(name))])
  {
    hide Misleads, ReadRun;
    var a, b := Pair("text", name), Pair("title", name);
    assert [a, b] + [] == [a, b] && [b] + [] == [b];
    assert " " + b.key + "=" == STRAY;
    ReadRunCons(a, b, [], "xmlUrl");
    ReadRunLast(b, "xmlUrl");
    ReadRunCons(a, b, [], "text");
    assert [] + [NonEmpty(Some(name))] == [NonEmpty(Some(name))];
    assert STRAY != "";
  }

  lemma ScanGroupStart(name: string, members: seq<Subscription>, t: string, found: seq<ImportedFeed>)
    requires members != []
    ensures Scan(Group(name, members) + t, State(found, []))
         == Scan(FeedLines(members, 3) + (GROUP_END + t), Enter(State(found, []), OutlineOf(GroupPairs(name), false)))
  {
    hide Scan, FeedLines, Misleads, OutlineTag, GroupPairs, OutlineOf, Enter;
    var inside := FeedLines(members, 3) + (GROUP_END + t);
    var tag := OutlineTag(GroupPairs(name), false) + inside;
    assert Group(name, members) + t == "    " + tag;
    TextIsInert("    ");
    ScanInert("    ", tag, State(found, []));
    KeysAreNames(Subscription("", None, None, None), name);
    GroupHasPairs(name);
    ScanPrinted(GroupPairs(name), false, inside, State(found, []));
  }

  lemma ScanGroupRest(name: string, members: seq<Subscription>, t: string, found: seq<ImportedFeed>)
    requires members != []
    ensures Scan(FeedLines(members, 3) + (GROUP_END + t), Enter(State(found, []), OutlineOf(GroupPairs(name), false)))
         == Scan(t, State(found + GroupReadAs(name, members), []))
  {
    hide Scan, FeedLines, Misleads, GroupPairs, OutlineOf, Enter, FeedOf, AllReadAs, Nearest, NonEmpty, Tag;
    GroupOpens(name, found);
    var st := Enter(State(found, []), OutlineOf(GroupPairs(name), false));
    NearestOfOne(st.groups);
    ScanFeedLines(members, 3, GROUP_END + t, st);
    var all := AllReadAs(members, st.groups[0]);
    ScanGroupEnd(t, State(st.found + all, st.groups));
    assert st.found + all == found + GroupReadAs(name, members);
  }

  lemma ScanGroup(name: string, members: seq<Subscription>, t: string, found: seq<ImportedFeed>)
    ensures Scan(Group(name, members) + t, State(found, [])) == Scan(t, State(found + GroupReadAs(name, members), []))
  {
    hide Scan, OutlineTag, OutlineOf, Enter, Misleads, GroupPairs, FeedOf, AllReadAs, NonEmpty, Tag, FeedLines;
    if members == [] {
      assert "" + t == t && found + [] == found;
    } else {
      hide Group, GroupReadAs;
      ScanGroupStart(name, members, t, found);
      ScanGroupRest(name, members, t, found);
    }
  }

  lemma NearestOfOne(groups: seq<Option<string>>)
    ensures |groups| == 1 ==> Nearest(groups) == groups[0]
  {
    if |groups| == 1 {
      assert groups[..0] == [];
    }
  }

  lemma GroupHasPairs(name: string)
    ensures GroupPairs(name) != []
  {
  }

  lemma {:induction false} ScanGroups(subs: Subs, places: seq<Place>, t: string, found: seq<ImportedFeed>)
    ensures Scan(Groups(subs, places) + t, State(found, [])) == Scan(t, State(found + GroupsReadAs(subs, places), []))
  {
    hide Scan, Group, GroupReadAs, Members;
    if places == [] {
      assert "" + t == t && found + [] == found;
    } else {
      var name, members := places[0].name, Members(subs, places[0].uri);
      var rest := Groups(subs, places[1..]) + t;
      assert Groups(subs, places) + t == Group(name, members) + rest;
      ScanGroup(name, members, rest, found);
      ScanGroups(subs, places[1..], t, found + GroupReadAs(name, members));
      assert found + GroupReadAs(name, members) + GroupsReadAs(subs, places[1..])
          == found + (GroupReadAs(name, members) + GroupsReadAs(subs, places[1..]));
    }
  }

  /** Exactly what every printed document is read back as, whatever is in it. */
  lemma DocumentReadsAs(subs: Subs, folders: Folders)
    ensures Scan(Document(subs, folders), START) == State(DocumentReadAs(subs, folders), [])
    ensures Parsed(Document(subs, folders)) == FirstByUrl(DocumentReadAs(subs, folders))
  {
    hide Scan, FeedLines, Groups, Lines, TopLevel, FolderOrder, AllReadAs, GroupsReadAs;
    var order := FolderOrder(folders);
    var feeds, groups, end := FeedLines(TopLevel(subs, folders), 2), Groups(subs, order), Lines(FOOTER);
    var top := AllReadAs(TopLevel(subs, folders), None);
    assert Document(subs, folders) == Lines(HEADER) + (feeds + (groups + end));
    HeaderIsInert();
    ScanLines(HEADER, feeds + (groups + end), START);
    assert Nearest(START.groups) == None;
    ScanFeedLines(TopLevel(subs, folders), 2, groups + end, START);
    assert [] + top == top;
    ScanGroups(subs, order, end, top);
    var last := State(top + GroupsReadAs(subs, order), []);
    FooterIsInert();
    assert end + "" == end;
    ScanLines(FOOTER, "", last);
    assert Scan("", last) == last by { NothingLeft("", last); }
  }
}
