/** Writing subscriptions and their folders as an OPML 2.0 document. */
module OpmlPrint {
  import opened Wrappers
  import opened OpmlText
  import opened OpmlRun

  datatype Subscription = Subscription(
    url: string,
    title: Option<string>,
    siteUrl: Option<string>,
    folder: Option<string>
  )

  datatype Folder = Folder(name: string, position: Option<nat>)

  type Subs = seq<(string, Subscription)>
  type Folders = seq<(string, Folder)>

  // ---- the order of folders ---------------------------------------------------

  datatype Place = Place(uri: string, name: string)

  function Places(folders: Folders): seq<Place> {
    if folders == [] then [] else [Place(folders[0].0, folders[0].1.name)] + Places(folders[1..])
  }

  /** The position of the first folder with this URI. */
  function PositionOf(folders: Folders, uri: string): Option<nat> {
    if folders == [] then None
    else if folders[0].0 == uri then folders[0].1.position
    else PositionOf(folders[1..], uri)
  }

  predicate NameLeq(a: string, b: string) {
    || a == []
    || (b != [] && (a[0] < b[0] || (a[0] == b[0] && NameLeq(a[1..], b[1..]))))
  }

  /** By position, a folder without one first, then by name. */
  predicate Leq(folders: Folders, a: Place, b: Place) {
    match (PositionOf(folders, a.uri), PositionOf(folders, b.uri))
    case (None, None) => NameLeq(a.name, b.name)
    case (None, Some(_)) => true
    case (Some(_), None) => false
    case (Some(p), Some(q)) => p < q || (p == q && NameLeq(a.name, b.name))
  }

  /** A stable sort: a place goes before the first that it may go before. */
  function Insert(folders: Folders, x: Place, sorted: seq<Place>): seq<Place> {
    if sorted == [] then [x]
    else if Leq(folders, x, sorted[0]) then [x] + sorted
    else [sorted[0]] + Insert(folders, x, sorted[1..])
  }

  function Sort(folders: Folders, places: seq<Place>): seq<Place> {
    if places == [] then [] else Insert(folders, places[0], Sort(folders, places[1..]))
  }

  function FolderOrder(folders: Folders): seq<Place> {
    Sort(folders, Places(folders))
  }

  lemma {:induction false} NameOrder(a: string, b: string, c: string)
    ensures NameLeq(a, b) || NameLeq(b, a)
    ensures NameLeq(a, b) && NameLeq(b, c) ==> NameLeq(a, c)
  {
    if a != [] && b != [] {
      NameOrder(a[1..], b[1..], if c == [] then [] else c[1..]);
    }
  }

  lemma LeqOrder(folders: Folders, a: Place, b: Place, c: Place)
    ensures Leq(folders, a, b) || Leq(folders, b, a)
    ensures Leq(folders, a, b) && Leq(folders, b, c) ==> Leq(folders, a, c)
  {
    hide PositionOf, NameLeq;
    NameOrder(a.name, b.name, c.name);
  }

  predicate InOrder(folders: Folders, places: seq<Place>) {
    forall i, j | 0 <= i < j < |places| :: Leq(folders, places[i], places[j])
  }

  /** The places that tie with a given one, in the order they are in. */
  function Ties(folders: Folders, x: Place, places: seq<Place>): seq<Place> {
    if places == [] then []
    else (if Leq(folders, x, places[0]) && Leq(folders, places[0], x) then [places[0]] else [])
         + Ties(folders, x, places[1..])
  }

  lemma {:induction false} InsertKeepsOrder(folders: Folders, x: Place, sorted: seq<Place>)
    requires InOrder(folders, sorted)
    ensures InOrder(folders, Insert(folders, x, sorted))
    ensures multiset(Insert(folders, x, sorted)) == multiset(sorted) + multiset{x}
  {
    hide Leq;
    if sorted != [] {
      assert sorted == [sorted[0]] + sorted[1..];
      if Leq(folders, x, sorted[0]) {
        forall j | 0 <= j < |sorted| ensures Leq(folders, x, sorted[j]) {
          LeqOrder(folders, x, sorted[0], sorted[j]);
        }
      } else {
        InsertKeepsOrder(folders, x, sorted[1..]);
        LeqOrder(folders, x, sorted[0], x);
        var rest := Insert(folders, x, sorted[1..]);
        forall y | y in rest ensures Leq(folders, sorted[0], y) {
          assert y in multiset(rest);
          assert y == x || y in sorted[1..];
        }
      }
    }
  }

  lemma {:induction false} InsertKeepsTies(folders: Folders, t: Place, x: Place, sorted: seq<Place>)
    ensures Ties(folders, t, Insert(folders, x, sorted)) == Ties(folders, t, [x]) + Ties(folders, t, sorted)
  {
    hide Leq;
    assert [x][1..] == [];
    if sorted == [] {
      assert Ties(folders, t, [x]) + [] == Ties(folders, t, [x]);
    } else if Leq(folders, x, sorted[0]) {
      assert ([x] + sorted)[1..] == sorted;
    } else {
      InsertKeepsTies(folders, t, x, sorted[1..]);
      assert ([sorted[0]] + Insert(folders, x, sorted[1..]))[1..] == Insert(folders, x, sorted[1..]);
      LeqOrder(folders, x, t, sorted[0]);
    }
  }

  lemma {:induction false} SortKeepsTies(folders: Folders, t: Place, places: seq<Place>)
    ensures Ties(folders, t, Sort(folders, places)) == Ties(folders, t, places)
  {
    hide Leq, Insert;
    if places != [] {
      SortKeepsTies(folders, t, places[1..]);
      InsertKeepsTies(folders, t, places[0], Sort(folders, places[1..]));
      assert [places[0]][1..] == [];
      assert Ties(folders, t, [places[0]]) + Ties(folders, t, places[1..]) == Ties(folders, t, places);
    }
  }

  /** The sort puts the same places in order, and those that tie stay as they
      were. */
  lemma {:induction false} SortIsStable(folders: Folders, places: seq<Place>)
    ensures InOrder(folders, Sort(folders, places))
    ensures multiset(Sort(folders, places)) == multiset(places)
    ensures forall t :: Ties(folders, t, Sort(folders, places)) == Ties(folders, t, places)
  {
    hide Leq, Insert, Ties;
    if places != [] {
      SortIsStable(folders, places[1..]);
      InsertKeepsOrder(folders, places[0], Sort(folders, places[1..]));
      assert places == [places[0]] + places[1..];
    }
    forall t ensures Ties(folders, t, Sort(folders, places)) == Ties(folders, t, places) {
      SortKeepsTies(folders, t, places);
    }
  }

  /** One name is not after another: it is the first of it, or has the lower
      character where the two first differ. */
  predicate NotAfter(a: string, b: string) {
    a <= b || exists k :: 0 <= k < |a| && k < |b| && a[..k] == b[..k] && a[k] < b[k]
  }

  lemma {:induction false} NamesCompare(a: string, b: string)
    ensures NameLeq(a, b) ==> NotAfter(a, b)
  {
    if a != [] && NameLeq(a, b) {
      if a[0] < b[0] {
        assert a[..0] == b[..0];
      } else {
        NamesCompare(a[1..], b[1..]);
        assert a == [a[0]] + a[1..] && b == [b[0]] + b[1..];
        if !(a[1..] <= b[1..]) {
          var k :| 0 <= k < |a[1..]| && k < |b[1..]| && a[1..][..k] == b[1..][..k] && a[1..][k] < b[1..][k];
          assert a[..k + 1] == [a[0]] + a[1..][..k] && b[..k + 1] == [b[0]] + b[1..][..k];
          assert a[k + 1] < b[k + 1];
        }
      }
    }
  }

  lemma {:induction false} PositionIsOfFirst(folders: Folders, uri: string, k: nat)
    requires k < |folders| && folders[k].0 == uri && forall j | 0 <= j < k :: folders[j].0 != uri
    ensures PositionOf(folders, uri) == folders[k].1.position
  {
    if k > 0 {
      PositionIsOfFirst(folders[1..], uri, k - 1);
    }
  }

  /** Folders come by position, those without one first, and where that is the same
      by name. */
  lemma ByPositionThenName(folders: Folders, i: nat, j: nat)
    requires i < j < |FolderOrder(folders)|
    ensures var a, b := FolderOrder(folders)[i], FolderOrder(folders)[j];
      var p, q := PositionOf(folders, a.uri), PositionOf(folders, b.uri);
      && (p == None || (q.Some? && p.value <= q.value))
      && (p == q ==> NotAfter(a.name, b.name))
  {
    hide Sort, NameLeq, NotAfter, PositionOf;
    SortIsStable(folders, Places(folders));
    var a, b := FolderOrder(folders)[i], FolderOrder(folders)[j];
    assert Leq(folders, a, b);
    NamesCompare(a.name, b.name);
  }

  // ---- which subscriptions go where -------------------------------------------

  predicate IsKnown(folders: Folders, uri: string) {
    exists f :: f in folders && f.0 == uri
  }

  predicate IsTopLevel(folders: Folders, sub: Subscription) {
    sub.folder.None? || !IsKnown(folders, sub.folder.value)
  }

  function TopLevel(subs: Subs, folders: Folders): seq<Subscription> {
    if subs == [] then []
    else (if IsTopLevel(folders, subs[0].1) then [subs[0].1] else []) + TopLevel(subs[1..], folders)
  }

  function Members(subs: Subs, uri: string): seq<Subscription> {
    if subs == [] then []
    else (if subs[0].1.folder == Some(uri) then [subs[0].1] else []) + Members(subs[1..], uri)
  }

  // ---- the document -----------------------------------------------------------

  function Label(sub: Subscription): string {
    if sub.title.Some? then sub.title.value else sub.url
  }

  /** The attributes of a feed, before escaping. */
  function FeedPairs(sub: Subscription): seq<Pair> {
    [Pair("type", "rss"), Pair("text", Label(sub)), Pair("title", Label(sub)), Pair("xmlUrl", sub.url)]
    + SitePairs(sub)
  }

  function SitePairs(sub: Subscription): seq<Pair> {
    match sub.siteUrl
    case None => []
    case Some(site) => [Pair("htmlUrl", site)]
  }

  function GroupPairs(name: string): seq<Pair> {
    [Pair("text", name), Pair("title", name)]
  }

  function Indent(depth: nat): (s: string)
    ensures |s| == 2 * depth && forall c | c in s :: c == ' '
  {
    if depth == 0 then "" else "  " + Indent(depth - 1)
  }

  function TagEnd(selfClosing: bool): string {
    if selfClosing then "/" else ""
  }

  function OutlineTag(pairs: seq<Pair>, selfClosing: bool): string {
    "<outline" + PrintRun(EscapedPairs(pairs)) + TagEnd(selfClosing) + ">\n"
  }

  function FeedLine(sub: Subscription, depth: nat): string {
    Indent(depth) + OutlineTag(FeedPairs(sub), true)
  }

  function FeedLines(subs: seq<Subscription>, depth: nat): string {
    if subs == [] then "" else FeedLine(subs[0], depth) + FeedLines(subs[1..], depth)
  }

  function Tag(indent: string, name: string): string {
    indent + "<" + name + ">"
  }

  const GROUP_END := Tag("    ", "/outline") + "\n"

  function Group(name: string, members: seq<Subscription>): string {
    if members == [] then ""
    else "    " + OutlineTag(GroupPairs(name), false) + FeedLines(members, 3) + GROUP_END
  }

  function Groups(subs: Subs, places: seq<Place>): string {
    if places == [] then "" else Group(places[0].name, Members(subs, places[0].uri)) + Groups(subs, places[1..])
  }

  function Lines(lines: seq<string>): string {
    if lines == [] then "" else lines[0] + Lines(lines[1..])
  }

  const L1 := Tag("", "?xml version=\"1.0\" encoding=\"UTF-8\"?") + "\n"
  const L2 := Tag("", "opml version=\"2.0\"") + "\n"
  const L3 := Tag("  ", "head") + "\n"
  const L4 := Tag("    ", "title") + "FeatherReader subscriptions" + Tag("", "/title") + "\n"
  const L5 := Tag("  ", "/head") + "\n"
  const L6 := Tag("  ", "body") + "\n"
  const F1 := Tag("  ", "/body") + "\n"
  const F2 := Tag("", "/opml") + "\n"
  const HEADER := [L1, L2, L3, L4, L5, L6]
  const FOOTER := [F1, F2]

  function Body(subs: Subs, folders: Folders): string {
    FeedLines(TopLevel(subs, folders), 2) + Groups(subs, FolderOrder(folders))
  }

  function Document(subs: Subs, folders: Folders): string {
    Lines(HEADER) + Body(subs, folders) + Lines(FOOTER)
  }

  lemma LinesMore(line: string, rest: seq<string>)
    ensures Lines([line] + rest) == line + Lines(rest) && Lines([]) == ""
  {
    assert ([line] + rest)[1..] == rest;
  }

  function Title(): string {
    Tag("    ", "title") + "FeatherReader subscriptions" + Tag("", "/title")
  }

  lemma LinesOfTwo(a: string, b: string)
    ensures Lines([a, b]) == a + b
  {
    LinesMore(a, [b]);
    LinesMore(b, []);
    assert [a] + [b] == [a, b] && [b] + [] == [b] && b + "" == b;
  }

  /** The frame of the document, in its order: the declaration, then all else inside
      `opml`, where a head with the title comes before the body. */
  lemma DocumentIsFramed(subs: Subs, folders: Folders)
    ensures Document(subs, folders) ==
      Tag("", "?xml version=\"1.0\" encoding=\"UTF-8\"?") + "\n"
      + (Tag("", "opml version=\"2.0\"") + "\n"
         + (Tag("  ", "head") + "\n" + (Title() + "\n" + (Tag("  ", "/head") + "\n"
            + (Tag("  ", "body") + "\n" + (Body(subs, folders) + (Tag("  ", "/body") + "\n"
               + (Tag("", "/opml") + "\n"))))))))
  {
    hide Tag, Body, Lines;
    FramedBy(L1, L2, L3, L4, L5, L6, F1, F2, Body(subs, folders));
  }

  lemma FramedBy(a: string, b: string, c: string, d: string, e: string, f: string, y: string, z: string, body: string)
    ensures Lines([a, b, c, d, e, f]) + body + Lines([y, z]) == a + (b + (c + (d + (e + (f + (body + (y + z)))))))
  {
    hide Lines;
    LinesOfTwo(y, z);
    LinesOfTwo(e, f);
    LinesMore(d, [e, f]);
    LinesMore(c, [d, e, f]);
    LinesMore(b, [c, d, e, f]);
    LinesMore(a, [b, c, d, e, f]);
    assert [d] + [e, f] == [d, e, f] && [c] + [d, e, f] == [c, d, e, f];
    assert [b] + [c, d, e, f] == [b, c, d, e, f] && [a] + [b, c, d, e, f] == [a, b, c, d, e, f];
  }

  // ---- writing it -------------------------------------------------------------

  lemma PrintCons(p: Pair, rest: seq<Pair>)
    ensures PrintRun([p] + rest) == PrintPair(p) + PrintRun(rest)
    ensures EscapedPairs([p] + rest) == [Pair(p.key, Escaped(p.value))] + EscapedPairs(rest)
  {
    assert ([p] + rest)[1..] == rest;
  }

  lemma PrintTwo(a: Pair, b: Pair)
    ensures PrintRun([a, b]) == PrintPair(a) + PrintPair(b)
    ensures EscapedPairs([a, b]) == [Pair(a.key, Escaped(a.value)), Pair(b.key, Escaped(b.value))]
  {
    hide PrintPair, Escaped;
    assert [a, b] == [a] + ([b] + []);
    PrintCons(b, []);
    PrintCons(a, [b] + []);
    assert PrintPair(b) + "" == PrintPair(b);
  }

  lemma PrintFour(a: Pair, b: Pair, c: Pair, d: Pair, more: seq<Pair>)
    ensures PrintRun([a, b, c, d] + more) == PrintPair(a) + PrintPair(b) + PrintPair(c) + PrintPair(d) + PrintRun(more)
    ensures EscapedPairs([a, b, c, d] + more) ==
      [Pair(a.key, Escaped(a.value)), Pair(b.key, Escaped(b.value)), Pair(c.key, Escaped(c.value)), Pair(d.key, Escaped(d.value))]
      + EscapedPairs(more)
  {
    hide PrintPair, Escaped, PrintRun, EscapedPairs;
    assert [a, b, c, d] + more == [a] + ([b] + ([c] + ([d] + more)));
    PrintCons(d, more);
    PrintCons(c, [d] + more);
    PrintCons(b, [c] + ([d] + more));
    PrintCons(a, [b] + ([c] + ([d] + more)));
  }

  lemma PrintOne(p: Pair)
    ensures PrintRun([p]) == PrintPair(p) && EscapedPairs([p]) == [Pair(p.key, Escaped(p.value))]
  {
    hide PrintPair, Escaped;
    assert [p] + [] == [p];
    PrintCons(p, []);
    assert PrintPair(p) + "" == PrintPair(p);
  }

  lemma EscapeFeed(sub: Subscription)
    ensures EscapedPairs(FeedPairs(sub)) ==
      [Pair("type", "rss"), Pair("text", Escaped(Label(sub))), Pair("title", Escaped(Label(sub))), Pair("xmlUrl", Escaped(sub.url))]
      + (match sub.siteUrl case None => [] case Some(site) => [Pair("htmlUrl", Escaped(site))])
  {
    PlainIsUnchanged("rss");
    hide Escaped;
    var more := SitePairs(sub);
    PrintFour(Pair("type", "rss"), Pair("text", Label(sub)), Pair("title", Label(sub)), Pair("xmlUrl", sub.url), more);
    if sub.siteUrl.Some? {
      PrintOne(more[0]);
      assert more == [more[0]];
    }
  }

  lemma TagAround(pairs: seq<Pair>, depth: nat)
    ensures Indent(depth) + OutlineTag(pairs, true) == Indent(depth) + "<outline" + PrintRun(EscapedPairs(pairs)) + "/>\n"
  {
    hide PrintRun, EscapedPairs, Indent;
    assert "/>\n" == TagEnd(true) + ">\n";
  }

  method FeedOutline(sub: Subscription, depth: nat) returns (line: string)
    ensures line == FeedLine(sub, depth)
  {
    hide Escaped, PrintPair, Indent, OutlineTag, EscapedPairs;
    var caption := EscapeAttr(Label(sub));
    var xmlUrl := EscapeAttr(sub.url);
    var head := Indent(depth) + "<outline";
    var t, n, l, u := Pair("type", "rss"), Pair("text", caption), Pair("title", caption), Pair("xmlUrl", xmlUrl);
    var run := PrintPair(t) + PrintPair(n) + PrintPair(l) + PrintPair(u);
    line := head + run;
    EscapeFeed(sub);
    if sub.siteUrl.Some? {
      var site := EscapeAttr(sub.siteUrl.value);
      var h := Pair("htmlUrl", site);
      line := line + PrintPair(h);
      PrintFour(t, n, l, u, [h]);
      PrintOne(h);
    } else {
      PrintFour(t, n, l, u, []);
      assert run + PrintRun([]) == run;
    }
    line := line + "/>\n";
    TagAround(FeedPairs(sub), depth);
  }

  lemma {:induction false} FeedLinesAppend(subs: seq<Subscription>, sub: Subscription, depth: nat)
    ensures FeedLines(subs + [sub], depth) == FeedLines(subs, depth) + FeedLine(sub, depth)
  {
    hide FeedLine;
    if subs == [] {
      assert [sub][1..] == [];
    } else {
      assert (subs + [sub])[1..] == subs[1..] + [sub];
      FeedLinesAppend(subs[1..], sub, depth);
    }
  }

  lemma {:induction false} TopLevelAppend(subs: Subs, s: (string, Subscription), folders: Folders)
    ensures TopLevel(subs + [s], folders) == TopLevel(subs, folders) + if IsTopLevel(folders, s.1) then [s.1] else []
  {
    hide IsTopLevel;
    var last := if IsTopLevel(folders, s.1) then [s.1] else [];
    if subs == [] {
      assert [s][1..] == [] && [] + [s] == [s];
      assert TopLevel([s], folders) == last + TopLevel([], folders);
      assert last + [] == [] + last;
    } else {
      assert (subs + [s])[1..] == subs[1..] + [s] && (subs + [s])[0] == subs[0];
      TopLevelAppend(subs[1..], s, folders);
      var first := if IsTopLevel(folders, subs[0].1) then [subs[0].1] else [];
      assert first + (TopLevel(subs[1..], folders) + last) == first + TopLevel(subs[1..], folders) + last;
    }
  }

  lemma {:induction false} GroupsAppend(subs: Subs, places: seq<Place>, p: Place)
    ensures Groups(subs, places + [p]) == Groups(subs, places) + Group(p.name, Members(subs, p.uri))
  {
    hide Group, Members;
    if places == [] {
      assert [p][1..] == [];
    } else {
      assert (places + [p])[1..] == places[1..] + [p];
      GroupsAppend(subs, places[1..], p);
    }
  }

  method PrintFeeds(subs: seq<Subscription>, depth: nat) returns (out: string)
    ensures out == FeedLines(subs, depth)
  {
    hide FeedLine;
    out := "";
    for i := 0 to |subs|
      invariant out == FeedLines(subs[..i], depth)
    {
      var line := FeedOutline(subs[i], depth);
      out := out + line;
      assert subs[..i + 1] == subs[..i] + [subs[i]];
      FeedLinesAppend(subs[..i], subs[i], depth);
    }
    assert subs[..|subs|] == subs;
  }

  method PrintGroup(name: string, members: seq<Subscription>) returns (out: string)
    ensures out == Group(name, members)
  {
    hide Escaped, FeedLines, PrintPair;
    if members == [] {
      return "";
    }
    var escaped := EscapeAttr(name);
    var text, title := Pair("text", escaped), Pair("title", escaped);
    PrintTwo(Pair("text", name), Pair("title", name));
    PrintTwo(text, title);
    var feeds := PrintFeeds(members, 3);
    assert PrintPair(text) + PrintPair(title) + TagEnd(false) == PrintPair(text) + PrintPair(title);
    out := "    " + "<outline" + PrintPair(text) + PrintPair(title) + ">\n" + feeds + GROUP_END;
  }

  method ToOpml(subs: Subs, folders: Folders) returns (out: string)
    ensures out == Document(subs, folders)
  {
    hide FeedLine, Group, Members, IsTopLevel, FolderOrder, Lines;
    var order := FolderOrder(folders);
    out := Lines(HEADER);
    assert TopLevel([], folders) == [];
    for i := 0 to |subs|
      invariant out == Lines(HEADER) + FeedLines(TopLevel(subs[..i], folders), 2)
    {
      assert subs[..i + 1] == subs[..i] + [subs[i]];
      TopLevelAppend(subs[..i], subs[i], folders);
      assert TopLevel(subs[..i], folders) + [] == TopLevel(subs[..i], folders);
      if IsTopLevel(folders, subs[i].1) {
        var line := FeedOutline(subs[i].1, 2);
        out := out + line;
        FeedLinesAppend(TopLevel(subs[..i], folders), subs[i].1, 2);
      }
    }
    assert subs[..|subs|] == subs;
    ghost var top := out;
    for i := 0 to |order|
      invariant out == top + Groups(subs, order[..i])
    {
      var group := PrintGroup(order[i].name, Members(subs, order[i].uri));
      out := out + group;
      assert order[..i + 1] == order[..i] + [order[i]];
      GroupsAppend(subs, order[..i], order[i]);
    }
    assert order[..|order|] == order;
    out := out + Lines(FOOTER);
  }
}
