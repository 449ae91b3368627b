/** When printing and reading back gives what was printed: the exact condition,
    and the values that break it. */
module OpmlExact {
  import opened Wrappers
  import opened OpmlAttr
  import opened OpmlRun
  import opened OpmlScan
  import opened OpmlPrint
  import opened OpmlTags
  import opened OpmlRoundTrip

  predicate CleanAll(subs: seq<Subscription>) {
    forall s | s in subs :: CleanSub(s)
  }

  predicate CleanGroup(name: string, members: seq<Subscription>) {
    members != [] ==> !Misleads(true, name, "xmlUrl") && CleanAll(members)
  }

  /** What a caller can check before printing: every subscription is clean, and so
      is the name of every folder that has one in it. */
  predicate Clean(subs: Subs, folders: Folders) {
    && (forall s | s in subs :: CleanSub(s.1))
    && (forall f | f in folders && Members(subs, f.0) != [] :: !Misleads(true, f.1.name, "xmlUrl"))
  }

  // ---- reading never loses a feed ---------------------------------------------

  /** What is read is at least as long as what was meant; where it is longer, a
      stray URL is in it. */
  ghost predicate Covers(read: seq<ImportedFeed>, meant: seq<ImportedFeed>) {
    && |read| >= |meant|
    && (|read| > |meant| ==> Listed(read, STRAY))
  }

  lemma CoversAppend(r1: seq<ImportedFeed>, m1: seq<ImportedFeed>, r2: seq<ImportedFeed>, m2: seq<ImportedFeed>)
    requires Covers(r1, m1) && Covers(r2, m2)
    ensures Covers(r1 + r2, m1 + m2)
    ensures r1 + r2 == m1 + m2 <==> r1 == m1 && r2 == m2
  {
    if r1 + r2 == m1 + m2 {
      assert (r1 + r2)[..|r1|] == r1 && (m1 + m2)[..|m1|] == m1;
      assert (r1 + r2)[|r1|..] == r2 && (m1 + m2)[|m1|..] == m2;
    }
    assert Listed(r1 + r2, STRAY) <==> Listed(r1, STRAY) || Listed(r2, STRAY);
  }

  lemma {:induction false} AllIsExact(subs: seq<Subscription>, folder: Option<string>)
    ensures Covers(AllReadAs(subs, folder), AllMeant(subs, folder))
    ensures AllReadAs(subs, folder) == AllMeant(subs, folder) <==> CleanAll(subs)
  {
    hide ReadAs, Meant, CleanSub, Listed;
    if subs != [] {
      FeedIsExact(subs[0], folder);
      AllIsExact(subs[1..], folder);
      CoversAppend(ReadAs(subs[0], folder), Meant(subs[0], folder), AllReadAs(subs[1..], folder), AllMeant(subs[1..], folder));
      assert subs == [subs[0]] + subs[1..];
    }
  }

  lemma {:induction false} SameLength(subs: seq<Subscription>, f: Option<string>, g: Option<string>)
    ensures |AllReadAs(subs, f)| == |AllReadAs(subs, g)|
  {
    if subs != [] {
      SameLength(subs[1..], f, g);
    }
  }

  lemma GroupIsExact(name: string, members: seq<Subscription>)
    ensures Covers(GroupReadAs(name, members), GroupMeant(name, members))
    ensures GroupReadAs(name, members) == GroupMeant(name, members) <==> CleanGroup(name, members)
  {
    hide Misleads, OutlineOf, CleanAll, AllReadAs, AllMeant;
    var folder := NonEmpty(Some(name));
    AllIsExact(members, folder);
    if members == [] {
      assert AllMeant([], folder) == [] by { NothingMeant(folder); }
    } else if Misleads(true, name, "xmlUrl") {
      SameLength(members, None, folder);
      var r := GroupReadAs(name, members);
      assert r[0] in r && r[0].feedUrl == STRAY;
    }
  }

  lemma NothingMeant(folder: Option<string>)
    ensures AllMeant([], folder) == []
  {
  }

  predicate CleanGroups(subs: Subs, places: seq<Place>) {
    forall p | p in places :: CleanGroup(p.name, Members(subs, p.uri))
  }

  lemma {:induction false} GroupsAreExact(subs: Subs, places: seq<Place>)
    ensures Covers(GroupsReadAs(subs, places), GroupsMeant(subs, places))
    ensures GroupsReadAs(subs, places) == GroupsMeant(subs, places) <==> CleanGroups(subs, places)
  {
    hide CleanGroup, GroupReadAs, GroupMeant, Members, Listed;
    if places != [] {
      var name, members := places[0].name, Members(subs, places[0].uri);
      GroupIsExact(name, members);
      GroupsAreExact(subs, places[1..]);
      CoversAppend(GroupReadAs(name, members), GroupMeant(name, members), GroupsReadAs(subs, places[1..]), GroupsMeant(subs, places[1..]));
      assert places == [places[0]] + places[1..];
    }
  }

  // ---- every subscription is printed ------------------------------------------

  lemma {:induction false} AtTopLevel(subs: Subs, folders: Folders, s: Subscription)
    ensures s in TopLevel(subs, folders) <==> IsTopLevel(folders, s) && exists p :: p in subs && p.1 == s
  {
    hide IsTopLevel;
    if subs != [] {
      AtTopLevel(subs[1..], folders, s);
      assert subs == [subs[0]] + subs[1..];
    }
  }

  lemma {:induction false} InFolder(subs: Subs, uri: string, s: Subscription)
    ensures s in Members(subs, uri) <==> s.folder == Some(uri) && exists p :: p in subs && p.1 == s
  {
    if subs != [] {
      InFolder(subs[1..], uri, s);
      assert subs == [subs[0]] + subs[1..];
    }
  }

  lemma {:induction false} PlaceOfFolder(folders: Folders, p: Place)
    ensures p in Places(folders) <==> exists f :: f in folders && Place(f.0, f.1.name) == p
  {
    if folders != [] {
      PlaceOfFolder(folders[1..], p);
      assert folders == [folders[0]] + folders[1..];
    }
  }

  lemma InFolderOrder(folders: Folders, p: Place)
    ensures p in FolderOrder(folders) <==> exists f :: f in folders && Place(f.0, f.1.name) == p
  {
    SortIsStable(folders, Places(folders));
    PlaceOfFolder(folders, p);
    assert p in FolderOrder(folders) <==> p in multiset(FolderOrder(folders));
    assert p in Places(folders) <==> p in multiset(Places(folders));
  }

  lemma CleanIsPrintedClean(subs: Subs, folders: Folders)
    ensures Clean(subs, folders) <==> CleanAll(TopLevel(subs, folders)) && CleanGroups(subs, FolderOrder(folders))
  {
    hide CleanSub, Misleads, FolderOrder;
    if Clean(subs, folders) {
      forall s | s in TopLevel(subs, folders) ensures CleanSub(s) {
        AtTopLevel(subs, folders, s);
      }
      forall p | p in FolderOrder(folders) ensures CleanGroup(p.name, Members(subs, p.uri)) {
        InFolderOrder(folders, p);
        forall s | s in Members(subs, p.uri) ensures CleanSub(s) {
          InFolder(subs, p.uri, s);
        }
      }
    }
    if CleanAll(TopLevel(subs, folders)) && CleanGroups(subs, FolderOrder(folders)) {
      forall f | f in folders ensures CleanGroup(f.1.name, Members(subs, f.0)) {
        InFolderOrder(folders, Place(f.0, f.1.name));
      }
      forall s | s in subs ensures CleanSub(s.1) {
        AtTopLevel(subs, folders, s.1);
        if !IsTopLevel(folders, s.1) {
          InFolder(subs, s.1.folder.value, s.1);
        }
      }
    }
  }

  // ---- the round trip ---------------------------------------------------------

  lemma DocumentIsExact(subs: Subs, folders: Folders)
    ensures Covers(DocumentReadAs(subs, folders), DocumentMeant(subs, folders))
    ensures DocumentReadAs(subs, folders) == DocumentMeant(subs, folders) <==> Clean(subs, folders)
  {
    hide AllReadAs, AllMeant, GroupsReadAs, GroupsMeant, TopLevel, FolderOrder, CleanAll, CleanGroups, Clean, Listed;
    var top, order := TopLevel(subs, folders), FolderOrder(folders);
    AllIsExact(top, None);
    GroupsAreExact(subs, order);
    CoversAppend(AllReadAs(top, None), AllMeant(top, None), GroupsReadAs(subs, order), GroupsMeant(subs, order));
    CleanIsPrintedClean(subs, folders);
  }

  /** The feeds found in a printed document are those that were meant, each as
      often and in the same order, exactly when it is clean. */
  lemma FoundIsMeantWhenClean(subs: Subs, folders: Folders)
    ensures Scan(Document(subs, folders), START).found == DocumentMeant(subs, folders) <==> Clean(subs, folders)
  {
    hide Scan, Document, DocumentMeant, DocumentReadAs, Clean;
    DocumentReadsAs(subs, folders);
    DocumentIsExact(subs, folders);
  }

  /** Printing and parsing gives back the first feed of each URL. */
  lemma RoundTrip(subs: Subs, folders: Folders)
    ensures Clean(subs, folders) ==> Parsed(Document(subs, folders)) == FirstByUrl(DocumentMeant(subs, folders))
  {
    hide Scan, Document, DocumentMeant, DocumentReadAs, Clean, FirstByUrl;
    FoundIsMeantWhenClean(subs, folders);
  }

  /** Where no URL is there twice and none is the stray one, that is so only for
      a clean document. */
  lemma RoundTripOnlyWhenClean(subs: Subs, folders: Folders)
    ensures Distinct(DocumentMeant(subs, folders)) && !Listed(DocumentMeant(subs, folders), STRAY) ==>
      (Parsed(Document(subs, folders)) == DocumentMeant(subs, folders) <==> Clean(subs, folders))
  {
    hide Scan, Document, DocumentMeant, DocumentReadAs, Clean, FirstByUrl, Listed;
    var read, meant := DocumentReadAs(subs, folders), DocumentMeant(subs, folders);
    DocumentReadsAs(subs, folders);
    DocumentIsExact(subs, folders);
    DistinctIsKept(read);
    SameUrls(read, STRAY);
  }

  // ---- values that are misread ------------------------------------------------

  lemma {:induction false} EndsInName(boundary: bool, x: string, c: char, name: string)
    requires IsName(name) && !IsNameChar(c)
    ensures Misleads(boundary, x + [c] + name + "=", name)
    decreases |x|
  {
    var v := x + [c] + name + "=";
    if x == [] {
      var rest := name + "=";
      assert v[0] == c && v[1..] == rest;
      assert rest[|name|..] == "=" && "="[1..] == "";
      assert SkipSpace("=") == "=" && IsAssignment(rest, name);
      assert Misleads(true, rest, name);
    } else {
      assert v[0] == x[0] && v[1..] == x[1..] + [c] + name + "=";
      EndsInName(!IsNameChar(x[0]), x[1..], c, name);
    }
  }

  lemma OneIsPrinted(uri: string, sub: Subscription)
    requires sub.folder == None
    ensures DocumentReadAs([(uri, sub)], []) == ReadAs(sub, None)
  {
    hide ReadAs;
    var subs: Subs := [(uri, sub)];
    assert TopLevel(subs, []) == [sub] by {
      assert subs[1..] == [] && TopLevel([], []) == [];
      assert IsTopLevel([], sub);
    }
    assert AllReadAs([sub], None) == ReadAs(sub, None) by {
      assert [sub][1..] == [] && AllReadAs([], None) == [];
    }
    assert FolderOrder([]) == [] && GroupsReadAs(subs, []) == [];
    assert ReadAs(sub, None) + [] == ReadAs(sub, None);
  }

  /** A title ending in ` xmlUrl=`: the feed's URL is lost, whatever it is. */
  lemma TitleHidesUrl(x: string, url: string, siteUrl: Option<string>)
    ensures var sub := Subscription(url, Some(x + " xmlUrl="), siteUrl, None);
      && |Parsed(Document([("", sub)], []))| == 1
      && Parsed(Document([("", sub)], []))[0].feedUrl == STRAY
  {
    hide Misleads, Document, Scan, FirstByUrl;
    var title := x + " xmlUrl=";
    var sub := Subscription(url, Some(title), siteUrl, None);
    assert title == x + [' '] + "xmlUrl" + "=";
    XmlUrlIsName();
    EndsInName(true, x, ' ', "xmlUrl");
    DocumentReadsAs([("", sub)], []);
    OneIsPrinted("", sub);
    var read := DocumentReadAs([("", sub)], []);
    assert Distinct(read);
    DistinctIsKept(read);
  }

  lemma XmlUrlIsName()
    ensures IsName("xmlUrl") && IsName("htmlUrl") && !IsNameChar(' ') && !IsNameChar('?')
  {
  }

  /** A URL ending in `?htmlUrl=`: the site is lost, even of a feed whose title is
      blameless. */
  lemma UrlHidesSite(x: string, title: string, site: string)
    ensures var sub := Subscription(x + "?htmlUrl=", Some(title), Some(site), None);
      '=' !in title ==>
        && |Parsed(Document([("", sub)], []))| == 1
        && Parsed(Document([("", sub)], []))[0].siteUrl == Some(STRAY_SITE)
        && Parsed(Document([("", sub)], []))[0].feedUrl == sub.url
  {
    if '=' !in title {
      var url := x + "?htmlUrl=";
      var sub := Subscription(url, Some(title), Some(site), None);
      if Misleads(true, title, "xmlUrl") { MisleadingHasEquals(true, title, "xmlUrl"); }
      if Misleads(true, title, "htmlUrl") { MisleadingHasEquals(true, title, "htmlUrl"); }
      hide Misleads, Document, Scan, FirstByUrl;
      assert url == x + ['?'] + "htmlUrl" + "=";
      XmlUrlIsName();
      EndsInName(true, x, '?', "htmlUrl");
      DocumentReadsAs([("", sub)], []);
      OneIsPrinted("", sub);
      var read := DocumentReadAs([("", sub)], []);
      assert Distinct(read);
      DistinctIsKept(read);
    }
  }
}
