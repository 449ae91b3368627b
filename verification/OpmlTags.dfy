/** What the scan makes of each piece of a printed document: its frame, one tag,
    and the end of a group. */
module OpmlTags {
  import opened Wrappers
  import opened OpmlText
  import opened OpmlAttr
  import opened OpmlRun
  import opened OpmlScan
  import opened OpmlPrint

  // ---- passing over the frame -------------------------------------------------

  /** Text no outline tag starts in. */
  predicate Inert(p: string) {
    forall i | 0 <= i < |p| && p[i] == '<' ::
      && i + 3 < |p|
      && !(p[i + 1] in "oO" && p[i + 2] in "uU")
      && !(p[i + 1] == '/' && p[i + 2] in "oO" && p[i + 3] in "uU")
  }

  lemma NoOutlineHere(s: string)
    requires |s| > 3 && s[0] == '<'
    requires !(s[1] in "oO" && s[2] in "uU") && !(s[1] == '/' && s[2] in "oO" && s[3] in "uU")
    ensures !StartsWithCi(s, OPEN) && !StartsWithCi(s, CLOSE)
  {
    assert OPEN[1] == 'o' && OPEN[2] == 'u';
    assert CLOSE[1] == '/' && CLOSE[2] == 'o' && CLOSE[3] == 'u';
  }

  lemma {:induction false} ScanInert(p: string, t: string, st: State)
    requires Inert(p)
    ensures Scan(p + t, st) == Scan(t, st)
  {
    hide StartsWithCi, Enter, Leave, ReadTag;
    if p == [] {
      assert p + t == t;
    } else {
      assert (p + t)[1..] == p[1..] + t;
      assert Inert(p[1..]);
      if p[0] == '<' {
        NoOutlineHere(p + t);
      }
      ScanInert(p[1..], t, st);
    }
  }

  predicate InertName(name: string) {
    && '<' !in name && |name| >= 3
    && !(name[0] in "oO" && name[1] in "uU")
    && !(name[0] == '/' && name[1] in "oO" && name[2] in "uU")
  }

  lemma TextIsInert(p: string)
    requires '<' !in p
    ensures Inert(p)
  {
  }

  lemma InertAppend(a: string, b: string)
    requires Inert(a) && Inert(b)
    ensures Inert(a + b)
  {
  }

  lemma TagIsInert(indent: string, name: string)
    requires '<' !in indent && InertName(name)
    ensures Inert(Tag(indent, name))
  {
    var tag := "<" + name + ">";
    assert Inert(tag) by {
      var rest := name + ">";
      assert '<' !in rest;
      assert forall i | 0 < i < |tag| :: tag[i] == rest[i - 1] && rest[i - 1] in rest;
      assert tag[1] == name[0] && tag[2] == name[1] && tag[3] == name[2];
    }
    assert Inert(indent) by {
      TextIsInert(indent);
    }
    hide Inert, InertName;
    InertAppend(indent, tag);
    assert Tag(indent, name) == indent + tag;
  }

  lemma LineIsInert(indent: string, name: string)
    requires '<' !in indent && InertName(name)
    ensures Inert(Tag(indent, name) + "\n")
  {
    hide Inert, InertName, Tag;
    TagIsInert(indent, name);
    TextIsInert("\n");
    InertAppend(Tag(indent, name), "\n");
  }

  lemma HeaderIsInert()
    ensures forall l | l in HEADER :: Inert(l)
  {
    hide Inert, Tag;
    LineIsInert("", "?xml version=\"1.0\" encoding=\"UTF-8\"?");
    LineIsInert("", "opml version=\"2.0\"");
    LineIsInert("  ", "head");
    TitleIsInert();
    LineIsInert("  ", "/head");
    LineIsInert("  ", "body");
  }

  lemma TitleIsInert()
    ensures Inert(L4)
  {
    hide Inert, Tag;
    var text := "FeatherReader subscriptions";
    TagIsInert("    ", "title");
    TextIsInert(text);
    InertAppend(Tag("    ", "title"), text);
    TagIsInert("", "/title");
    InertAppend(Tag("    ", "title") + text, Tag("", "/title"));
    TextIsInert("\n");
    InertAppend(Tag("    ", "title") + text + Tag("", "/title"), "\n");
  }

  lemma FooterIsInert()
    ensures forall l | l in FOOTER :: Inert(l)
  {
    hide Inert, Tag;
    LineIsInert("  ", "/body");
    LineIsInert("", "/opml");
  }

  lemma {:induction false} ScanLines(lines: seq<string>, t: string, st: State)
    requires forall l | l in lines :: Inert(l)
    ensures Scan(Lines(lines) + t, st) == Scan(t, st)
  {
    hide Inert, Scan;
    if lines == [] {
      assert "" + t == t;
    } else {
      assert lines[0] in lines;
      assert Lines(lines) + t == lines[0] + (Lines(lines[1..]) + t);
      ScanInert(lines[0], Lines(lines[1..]) + t, st);
      ScanLines(lines[1..], t, st);
    }
  }

  lemma {:induction false} IndentIsInert(depth: nat)
    ensures Inert(Indent(depth))
  {
    hide Inert;
    TextIsInert("");
    if depth > 0 {
      IndentIsInert(depth - 1);
      TextIsInert("  ");
      InertAppend("  ", Indent(depth - 1));
    }
  }

  // ---- one printed tag --------------------------------------------------------

  /** What is read of a printed tag. */
  function OutlineOf(pairs: seq<Pair>, selfClosing: bool): Outline {
    Outline(ReadRun(pairs, "xmlUrl"), ReadRun(pairs, "title"), ReadRun(pairs, "text"), ReadRun(pairs, "htmlUrl"), selfClosing)
  }

  lemma PrintEscapedCons(pairs: seq<Pair>)
    requires pairs != []
    ensures PrintRun(EscapedPairs(pairs)) == PrintPair(Pair(pairs[0].key, Escaped(pairs[0].value))) + PrintRun(EscapedPairs(pairs[1..]))
  {
    hide PrintPair, Escaped;
    var e := [Pair(pairs[0].key, Escaped(pairs[0].value))] + EscapedPairs(pairs[1..]);
    assert e[1..] == EscapedPairs(pairs[1..]);
  }

  lemma NoTagEndInPair(key: string, value: string)
    requires IsName(key)
    ensures var p := PrintPair(Pair(key, Escaped(value))); p != [] && p[|p| - 1] == '"' && '>' !in p
  {
    EscapedIsInert(value);
    hide Escaped;
  }

  lemma {:induction false} NoTagEndInRun(pairs: seq<Pair>)
    requires Named(pairs)
    ensures '>' !in PrintRun(EscapedPairs(pairs))
    ensures pairs != [] ==>
      PrintRun(EscapedPairs(pairs)) != [] && PrintRun(EscapedPairs(pairs))[|PrintRun(EscapedPairs(pairs))| - 1] == '"'
  {
    hide IsName, PrintPair;
    if pairs != [] {
      assert pairs[0] in pairs && forall p | p in pairs[1..] :: p in pairs;
      NoTagEndInPair(pairs[0].key, pairs[0].value);
      PrintEscapedCons(pairs);
      NoTagEndInRun(pairs[1..]);
    }
  }

  lemma NamesAreNames()
    ensures IsName("xmlUrl") && IsName("title") && IsName("text") && IsName("htmlUrl") && IsName("type")
  {
  }

  lemma NothingInEnd(selfClosing: bool, name: string)
    requires IsName(name)
    ensures Unquoted(TagEnd(selfClosing)) && AttrFrom(true, TagEnd(selfClosing), name) == None
  {
    assert name[0] in name;
    assert "/"[1..] == "";
  }

  lemma ReadPrinted(pairs: seq<Pair>, selfClosing: bool)
    requires Named(pairs) && pairs != []
    ensures ReadTag(PrintRun(EscapedPairs(pairs)) + TagEnd(selfClosing)) == OutlineOf(pairs, selfClosing)
  {
    hide AttrFrom, Attr, ReadRun, PrintRun, EscapedPairs;
    NamesAreNames();
    forall name | name in {"xmlUrl", "title", "text", "htmlUrl"}
      ensures Attr(PrintRun(EscapedPairs(pairs)) + TagEnd(selfClosing), name) == ReadRun(pairs, name)
    {
      NothingInEnd(selfClosing, name);
      PrintedReadsAs(pairs, TagEnd(selfClosing), name);
    }
    NoTagEndInRun(pairs);
  }

  lemma OpensOutline(rest: string)
    ensures StartsWithCi(OPEN + rest, OPEN) && !StartsWithCi(OPEN + rest, CLOSE) && (OPEN + rest)[0] == '<' && '>' !in OPEN
  {
    assert (OPEN + rest)[1] == 'o' && CLOSE[1] == '/';
  }

  lemma ClosesOutline(rest: string)
    ensures StartsWithCi(CLOSE + rest, CLOSE) && (CLOSE + rest)[0] == '<' && '>' !in CLOSE
  {
  }

  /** A printed tag, read. */
  lemma ScanPrinted(pairs: seq<Pair>, selfClosing: bool, t: string, st: State)
    requires Named(pairs) && pairs != []
    ensures Scan(OutlineTag(pairs, selfClosing) + t, st)
         == Scan(t, Enter(st, OutlineOf(pairs, selfClosing)))
  {
    hide PrintRun, EscapedPairs, Scan, Enter, ReadTag, OutlineOf, StartsWithCi, Find, Inert;
    var attrs := PrintRun(EscapedPairs(pairs)) + TagEnd(selfClosing);
    var s := OutlineTag(pairs, selfClosing) + t;
    assert s == OPEN + (attrs + ">\n" + t) && s == (OPEN + attrs) + ['>'] + ("\n" + t);
    hide OutlineTag;
    NoTagEndInRun(pairs);
    OpensOutline(attrs + ">\n" + t);
    FindFirst(OPEN + attrs, '>', "\n" + t);
    ScanTag(s, st);
    assert s[|OPEN|..|OPEN + attrs|] == attrs;
    ReadPrinted(pairs, selfClosing);
    assert s[|OPEN + attrs| + 1..] == "\n" + t;
    TextIsInert("\n");
    ScanInert("\n", t, Enter(st, OutlineOf(pairs, selfClosing)));
  }

  lemma ScanGroupEnd(t: string, st: State)
    ensures Scan(GROUP_END + t, st) == Scan(t, Leave(st))
  {
    hide Scan, Leave, StartsWithCi, Find, Inert;
    var tag := CLOSE + ['>'] + ("\n" + t);
    assert GROUP_END == "    " + (CLOSE + ['>'] + "\n");
    assert GROUP_END + t == "    " + tag;
    TextIsInert("    ");
    ScanInert("    ", tag, st);
    assert tag == CLOSE + (">\n" + t);
    ClosesOutline(">\n" + t);
    FindFirst(CLOSE, '>', "\n" + t);
    ScanTag(tag, st);
    assert tag[|CLOSE| + 1..] == "\n" + t;
    TextIsInert("\n");
    ScanInert("\n", t, Leave(st));
  }
}
