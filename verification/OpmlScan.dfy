/** The lenient reading of an OPML document: a single scan for outline tags, which
    keeps the names of the groups it is inside of. */
module OpmlScan {
  import opened Wrappers
  import opened OpmlAttr

  datatype ImportedFeed = ImportedFeed(
    feedUrl: string,
    title: Option<string>,
    siteUrl: Option<string>,
    folder: Option<string>
  )

  /** What is read from one opening tag. */
  datatype Outline = Outline(
    xmlUrl: Option<string>,
    title: Option<string>,
    text: Option<string>,
    htmlUrl: Option<string>,
    selfClosing: bool
  )

  /** The feeds found so far, each time they were found, and the open groups. */
  datatype State = State(found: seq<ImportedFeed>, groups: seq<Option<string>>)

  const START := State([], [])

  function NonEmpty(o: Option<string>): Option<string> {
    if o == Some("") then None else o
  }

  function OrElse(a: Option<string>, b: Option<string>): Option<string> {
    if a.Some? then a else b
  }

  /** The innermost group that has a name. */
  function Nearest(groups: seq<Option<string>>): Option<string> {
    if groups == [] then None
    else if groups[|groups| - 1].Some? then groups[|groups| - 1]
    else Nearest(groups[..|groups| - 1])
  }

  function FeedOf(o: Outline, url: string, folder: Option<string>): ImportedFeed {
    ImportedFeed(url, NonEmpty(OrElse(o.title, o.text)), NonEmpty(o.htmlUrl), folder)
  }

  function Enter(st: State, o: Outline): State {
    match NonEmpty(o.xmlUrl)
    case Some(url) =>
      State(st.found + [FeedOf(o, url, Nearest(st.groups))],
            if o.selfClosing then st.groups else st.groups + [None])
    case None =>
      if o.selfClosing then st else State(st.found, st.groups + [NonEmpty(OrElse(o.text, o.title))])
  }

  function Leave(st: State): State {
    if st.groups == [] then st else State(st.found, st.groups[..|st.groups| - 1])
  }

  function Lower(c: char): char {
    if 'A' <= c <= 'Z' then (c as int + 32) as char else c
  }

  predicate StartsWithCi(s: string, prefix: string) {
    |prefix| <= |s| && forall i | 0 <= i < |prefix| :: Lower(s[i]) == Lower(prefix[i])
  }

  const OPEN := "<outline"
  const CLOSE := "</outline"

  function ReadTag(attrs: string): Outline {
    Outline(Attr(attrs, "xmlUrl"), Attr(attrs, "title"), Attr(attrs, "text"), Attr(attrs, "htmlUrl"),
            attrs != [] && attrs[|attrs| - 1] == '/')
  }

  lemma TagEndsLater(s: string)
    requires StartsWithCi(s, OPEN) && Find(s, '>').Some?
    ensures Find(s, '>').value >= |OPEN|
  {
    assert '>' !in OPEN;
    forall i | 0 <= i < |OPEN| ensures s[i] != '>' {
      assert OPEN[i] in OPEN;
    }
  }

  /** The rest of a document, read from a given state. */
  function Scan(s: string, st: State): State
    decreases |s|
  {
    if s == [] then st
    else if s[0] != '<' then Scan(s[1..], st)
    else if StartsWithCi(s, CLOSE) then
      match Find(s, '>')
      case None => Leave(st)
      case Some(gt) => Scan(s[gt + 1..], Leave(st))
    else if !StartsWithCi(s, OPEN) then Scan(s[1..], st)
    else
      match Find(s, '>')
      case None => st
      case Some(gt) =>
        TagEndsLater(s);
        Scan(s[gt + 1..], Enter(st, ReadTag(s[|OPEN|..gt])))
  }

  // ---- the first of each URL --------------------------------------------------

  predicate Listed(feeds: seq<ImportedFeed>, url: string) {
    exists f :: f in feeds && f.feedUrl == url
  }

  /** Only the first feed of each URL is kept. */
  function FirstByUrl(feeds: seq<ImportedFeed>): seq<ImportedFeed> {
    if feeds == [] then []
    else
      var rest, f := feeds[..|feeds| - 1], feeds[|feeds| - 1];
      if Listed(rest, f.feedUrl) then FirstByUrl(rest) else FirstByUrl(rest) + [f]
  }

  /** What a document is read as. */
  function Parsed(xml: string): seq<ImportedFeed> {
    FirstByUrl(Scan(xml, START).found)
  }

  predicate IsFirst(feeds: seq<ImportedFeed>, k: nat) {
    k < |feeds| && forall j | 0 <= j < k :: feeds[j].feedUrl != feeds[k].feedUrl
  }

  lemma FirstMore(feeds: seq<ImportedFeed>)
    requires feeds != []
    ensures var n := |feeds| - 1;
      && (Listed(feeds[..n], feeds[n].feedUrl) <==> !IsFirst(feeds, n))
      && forall k: nat :: IsFirst(feeds, k) <==> IsFirst(feeds[..n], k) || (k == n && IsFirst(feeds, n))
  {
    var n := |feeds| - 1;
    var rest := feeds[..n];
    assert forall j | 0 <= j < n :: rest[j] == feeds[j] && rest[j] in rest;
    assert forall g | g in rest :: exists j | 0 <= j < n :: rest[j] == g;
  }

  /** The places that are kept of some feeds. */
  ghost predicate ArePlaces(feeds: seq<ImportedFeed>, kept: seq<ImportedFeed>, places: seq<nat>) {
    && |places| == |kept|
    && (forall k: nat :: k in places <==> IsFirst(feeds, k))
    && (forall i, j | 0 <= i < j < |places| :: places[i] < places[j])
    && (forall i | 0 <= i < |places| :: places[i] < |feeds| && kept[i] == feeds[places[i]])
  }

  lemma OneMorePlace(feeds: seq<ImportedFeed>, kept: seq<ImportedFeed>, places: seq<nat>)
    requires feeds != [] && ArePlaces(feeds[..|feeds| - 1], kept, places)
    ensures var n := |feeds| - 1;
      if IsFirst(feeds, n) then ArePlaces(feeds, kept + [feeds[n]], places + [n]) else ArePlaces(feeds, kept, places)
  {
    hide IsFirst, Listed;
    FirstMore(feeds);
  }

  /** The places that are kept, in order: exactly those that are first. */
  lemma {:induction false} FirstsAreKept(feeds: seq<ImportedFeed>) returns (places: seq<nat>)
    ensures ArePlaces(feeds, FirstByUrl(feeds), places)
  {
    hide Listed;
    if feeds == [] {
      places := [];
    } else {
      hide ArePlaces, IsFirst;
      var n := |feeds| - 1;
      places := FirstsAreKept(feeds[..n]);
      FirstMore(feeds);
      OneMorePlace(feeds, FirstByUrl(feeds[..n]), places);
      if !Listed(feeds[..n], feeds[n].feedUrl) {
        places := places + [n];
      }
    }
  }

  lemma {:induction false} SameUrls(feeds: seq<ImportedFeed>, url: string)
    ensures Listed(FirstByUrl(feeds), url) <==> Listed(feeds, url)
  {
    if feeds != [] {
      var rest, f := feeds[..|feeds| - 1], feeds[|feeds| - 1];
      SameUrls(rest, url);
      assert feeds == rest + [f];
      assert Listed(feeds, url) <==> Listed(rest, url) || f.feedUrl == url;
      assert Listed(FirstByUrl(rest) + [f], url) <==> Listed(FirstByUrl(rest), url) || f.feedUrl == url;
    }
  }

  predicate Distinct(feeds: seq<ImportedFeed>) {
    forall i, j | 0 <= i < j < |feeds| :: feeds[i].feedUrl != feeds[j].feedUrl
  }

  lemma DistinctMore(feeds: seq<ImportedFeed>)
    requires feeds != []
    ensures var rest, f := feeds[..|feeds| - 1], feeds[|feeds| - 1];
      Distinct(feeds) <==> Distinct(rest) && !Listed(rest, f.feedUrl)
  {
    var rest, f := feeds[..|feeds| - 1], feeds[|feeds| - 1];
    assert forall j | 0 <= j < |rest| :: rest[j] == feeds[j] && rest[j] in rest;
    assert forall g | g in rest :: exists j | 0 <= j < |rest| :: rest[j] == g;
  }

  /** A list is kept whole exactly when no URL is there twice. */
  lemma {:induction false} DistinctIsKept(feeds: seq<ImportedFeed>)
    ensures |FirstByUrl(feeds)| <= |feeds|
    ensures Distinct(feeds) ==> FirstByUrl(feeds) == feeds
    ensures |FirstByUrl(feeds)| == |feeds| ==> Distinct(feeds)
  {
    hide Listed;
    if feeds != [] {
      var rest, f := feeds[..|feeds| - 1], feeds[|feeds| - 1];
      DistinctIsKept(rest);
      DistinctMore(feeds);
      hide Distinct;
      assert feeds == rest + [f];
    }
  }

  // ---- the scan ---------------------------------------------------------------

  lemma {:induction false} SkipToTag(s: string, n: nat, st: State)
    requires n <= |s| && '<' !in s[..n]
    ensures Scan(s, st) == Scan(s[n..], st)
    decreases n
  {
    assert s[0..] == s;
    if n > 0 {
      assert s[..n][0] == s[0] && s[1..][..n - 1] == s[..n][1..];
      SkipToTag(s[1..], n - 1, st);
      assert s[1..][n - 1..] == s[n..];
    }
  }

  /** The four readings of one opening tag. */
  method ReadOutline(attrs: string) returns (o: Outline)
    ensures o == ReadTag(attrs)
  {
    hide Attr;
    var xmlUrl := ReadAttr(attrs, "xmlUrl");
    var title := ReadAttr(attrs, "title");
    var text := ReadAttr(attrs, "text");
    var htmlUrl := ReadAttr(attrs, "htmlUrl");
    o := Outline(xmlUrl, title, text, htmlUrl, attrs != [] && attrs[|attrs| - 1] == '/');
  }

  function Urls(feeds: seq<ImportedFeed>): set<string> {
    set f | f in feeds :: f.feedUrl
  }

  lemma UrlsAreListed(feeds: seq<ImportedFeed>, f: ImportedFeed)
    ensures f.feedUrl in Urls(feeds) <==> Listed(feeds, f.feedUrl)
    ensures Urls(feeds + [f]) == Urls(feeds) + {f.feedUrl}
  {
  }

  /** One feed more is one more that is kept, unless its URL is already there. */
  lemma KeptOneMore(feeds: seq<ImportedFeed>, f: ImportedFeed)
    ensures FirstByUrl(feeds + [f])
         == if f.feedUrl in Urls(FirstByUrl(feeds)) then FirstByUrl(feeds) else FirstByUrl(feeds) + [f]
  {
    hide Listed, Urls;
    SameUrls(feeds, f.feedUrl);
    UrlsAreListed(FirstByUrl(feeds), f);
    assert (feeds + [f])[..|feeds|] == feeds;
  }

  /** The state after a tag, with the feeds already listed left out of `out`. */
  method EnterTag(out: seq<ImportedFeed>, seen: set<string>, groups: seq<Option<string>>, attrs: string, ghost st: State)
    returns (out': seq<ImportedFeed>, seen': set<string>, groups': seq<Option<string>>)
    requires out == FirstByUrl(st.found) && seen == Urls(out) && groups == st.groups
    ensures var st' := Enter(st, ReadTag(attrs));
      out' == FirstByUrl(st'.found) && seen' == Urls(out') && groups' == st'.groups
  {
    hide ReadTag, FirstByUrl, Urls, Nearest, FeedOf;
    out', seen', groups' := out, seen, groups;
    var o := ReadOutline(attrs);
    var xmlUrl := NonEmpty(o.xmlUrl);
    if xmlUrl.Some? {
      var feed := FeedOf(o, xmlUrl.value, Nearest(groups));
      assert feed.feedUrl == xmlUrl.value by { FeedHasUrl(o, xmlUrl.value, Nearest(groups)); }
      KeptOneMore(st.found, feed);
      UrlsAreListed(out, feed);
      if feed.feedUrl !in seen {
        seen' := seen + {feed.feedUrl};
        out' := out + [feed];
      }
      if !o.selfClosing {
        groups' := groups + [None];
      }
    } else if !o.selfClosing {
      groups' := groups + [NonEmpty(OrElse(o.text, o.title))];
    }
  }

  lemma FeedHasUrl(o: Outline, url: string, folder: Option<string>)
    ensures FeedOf(o, url, folder).feedUrl == url
  {
  }

  /** One tag of the scan: the rest of the document, and the state it is read from. */
  lemma ScanTag(s: string, st: State)
    requires s != [] && s[0] == '<'
    ensures StartsWithCi(s, CLOSE) ==>
      Scan(s, st) == if Find(s, '>').None? then Leave(st) else Scan(s[Find(s, '>').value + 1..], Leave(st))
    ensures !StartsWithCi(s, CLOSE) && !StartsWithCi(s, OPEN) ==> Scan(s, st) == Scan(s[1..], st)
    ensures !StartsWithCi(s, CLOSE) && StartsWithCi(s, OPEN) ==>
      if Find(s, '>').None? then Scan(s, st) == st
      else
        var gt := Find(s, '>').value;
        |OPEN| <= gt && Scan(s, st) == Scan(s[gt + 1..], Enter(st, ReadTag(s[|OPEN|..gt])))
  {
    hide ReadTag, Enter, Leave;
    if !StartsWithCi(s, CLOSE) && StartsWithCi(s, OPEN) && Find(s, '>').Some? {
      TagEndsLater(s);
    }
  }

  lemma ToNextTag(xml: string, i: nat, st: State)
    requires i <= |xml|
    ensures var next := Find(xml[i..], '<');
      Scan(xml[i..], st) == if next.None? then st else Scan(xml[i + next.value..], st)
  {
    hide ReadTag, Enter, Leave, Find;
    var s := xml[i..];
    var next := Find(s, '<');
    var n := if next.None? then |s| else next.value;
    assert s[..|s|] == s && s[|s|..] == [];
    SkipToTag(s, n, st);
    assert s[n..] == xml[i + n..];
  }

  /** The same over positions in the document. */
  lemma ScanTagAt(xml: string, lt: nat, st: State)
    requires lt < |xml| && xml[lt] == '<'
    ensures var tag, close := xml[lt..], Find(xml[lt..], '>');
      && (close.None? ==> Scan(xml[lt..], st) == if StartsWithCi(tag, CLOSE) then Leave(st)
                                                else if StartsWithCi(tag, OPEN) then st
                                                else Scan(xml[lt + 1..], st))
      && (close.Some? ==>
            var gt := lt + close.value;
            && (StartsWithCi(tag, CLOSE) ==> Scan(tag, st) == Scan(xml[gt + 1..], Leave(st)))
            && (!StartsWithCi(tag, CLOSE) && StartsWithCi(tag, OPEN) ==>
                  lt + |OPEN| <= gt && Scan(tag, st) == Scan(xml[gt + 1..], Enter(st, ReadTag(xml[lt + |OPEN|..gt]))))
            && (!StartsWithCi(tag, CLOSE) && !StartsWithCi(tag, OPEN) ==> Scan(tag, st) == Scan(xml[lt + 1..], st)))
  {
    hide ReadTag, Enter, Leave, Scan, StartsWithCi;
    var tag := xml[lt..];
    ScanTag(tag, st);
    assert tag[1..] == xml[lt + 1..];
    var close := Find(tag, '>');
    if close.Some? {
      assert tag[close.value + 1..] == xml[lt + close.value + 1..];
      assert |OPEN| <= close.value ==> tag[|OPEN|..close.value] == xml[lt + |OPEN|..lt + close.value];
    }
  }

  method ParseOpml(xml: string) returns (out: seq<ImportedFeed>)
    ensures out == Parsed(xml)
  {
    hide ReadTag, Enter, StartsWithCi, Scan, FirstByUrl, Find, Listed, Urls;
    out := [];
    var seen: set<string> := {};
    var groups: seq<Option<string>> := [];
    var i := 0;
    ghost var st := START;
    assert xml[0..] == xml;
    Nothing();
    while i < |xml|
      invariant i <= |xml|
      invariant Scan(xml, START) == Scan(xml[i..], st)
      invariant out == FirstByUrl(st.found) && seen == Urls(out) && groups == st.groups
    {
      ToNextTag(xml, i, st);
      var next := Find(xml[i..], '<');
      if next.None? {
        return;
      }
      var lt := i + next.value;
      ScanTagAt(xml, lt, st);
      var close := Find(xml[lt..], '>');
      if StartsWithCi(xml[lt..], CLOSE) {
        st := Leave(st);
        groups := if groups == [] then groups else groups[..|groups| - 1];
        i := if close.Some? then lt + close.value + 1 else |xml|;
        NothingLeft(xml, st);
      } else if !StartsWithCi(xml[lt..], OPEN) {
        i := lt + 1;
      } else {
        if close.None? {
          return;
        }
        var attrs := xml[lt + |OPEN|..lt + close.value];
        out, seen, groups := EnterTag(out, seen, groups, attrs, st);
        st := Enter(st, ReadTag(attrs));
        i := lt + close.value + 1;
      }
    }
    NothingLeft(xml, st);
  }

  lemma Nothing()
    ensures FirstByUrl([]) == [] && Urls([]) == {}
  {
  }

  lemma NothingLeft(xml: string, st: State)
    ensures Scan(xml[|xml|..], st) == st
  {
    hide Enter, ReadTag;
  }
}
