/** What the scan makes of documents that other programs write: attributes spaced
    and quoted in other ways, feeds with a text and no title, groups in groups. */
module OpmlOthers {
  import opened Wrappers
  import opened OpmlAttr
  import opened OpmlRun
  import opened OpmlScan
  import opened OpmlPrint
  import opened OpmlTags
  import opened OpmlRoundTrip

  // ---- one attribute ----------------------------------------------------------

  predicate IsBlank(c: char) {
    c == ' ' || c == '\t' || c == '\n' || c == '\r' || c == '\U{000C}'
  }

  predicate Blank(s: string) {
    forall c | c in s :: IsBlank(c)
  }

  lemma {:induction false} SkipBlank(w: string, s: string)
    requires Blank(w) && s != [] && !IsBlank(s[0])
    ensures SkipSpace(w + s) == s
  {
    if w == [] {
      assert w + s == s;
    } else {
      assert w[0] in w && forall c | c in w[1..] :: c in w;
      assert (w + s)[1..] == w[1..] + s;
      SkipBlank(w[1..], s);
    }
  }

  /** An attribute as another program may write it, and what comes after it. */
  function Written(name: string, before: string, after: string, q: char, v: string, rest: string): string {
    name + (before + ("=" + (after + ([q] + (v + ([q] + rest))))))
  }

  lemma ValueAfterName(name: string, before: string, after: string, q: char, v: string, rest: string)
    requires Blank(before) && Blank(after) && (q == '"' || q == '\'') && q !in v
    ensures name <= Written(name, before, after, q, v, rest)
    ensures ValueHere(Written(name, before, after, q, v, rest), name) == Some(v)
  {
    var value := v + ([q] + rest);
    var quoted := [q] + value;
    var s := Written(name, before, after, q, v, rest);
    assert s[|name|..] == before + ("=" + (after + quoted));
    SkipBlank(before, "=" + (after + quoted));
    assert ("=" + (after + quoted))[1..] == after + quoted;
    SkipBlank(after, quoted);
    assert quoted[0] == q && quoted[1..] == value;
    assert value == v + [q] + rest;
    FindFirst(v, q, rest);
    hide SkipSpace, Find;
    assert value[..|v|] == v;
  }

  /** A letter, a digit, or one of the four marks that a name may hold besides. */
  predicate InNames(c: char) {
    'a' <= c <= 'z' || 'A' <= c <= 'Z' || '0' <= c <= '9' || c in "_-:."
  }

  /** An attribute is read with white space on either side of the equals sign and
      in quotes of either kind, unless what comes right before it could be part of
      its name. */
  lemma LenientReading(
      c: char, name: string, before: string, after: string, q: char, v: string, rest: string)
    requires IsName(name) && c != name[0]
    requires Blank(before) && Blank(after) && (q == '"' || q == '\'') && q !in v
    ensures var s := Written(name, before, after, q, v, rest);
      && name <= s
      && AttrFrom(true, [c] + s, name) == if InNames(c) then AttrFrom(false, s[|name|..], name) else Some(v)
  {
    ValueAfterName(name, before, after, q, v, rest);
    hide ValueHere, Blank, AttrFrom, InNames, IsName, Written;
    AfterAChar(c, Written(name, before, after, q, v, rest), name, v);
  }

  lemma AfterAChar(c: char, s: string, name: string, v: string)
    requires IsName(name) && c != name[0] && name <= s && ValueHere(s, name) == Some(v)
    ensures AttrFrom(true, [c] + s, name) == if InNames(c) then AttrFrom(false, s[|name|..], name) else Some(v)
  {
    OtherFirst(c, s, name);
    ScanOne(true, c, s, name);
    NamesHold(c);
    if InNames(c) {
      assert forall x | x in name :: IsNameChar(x);
      hide IsName, IsNameChar, InNames, AttrFrom, ValueHere;
      SkipName(s, name, name);
    } else {
      hide IsNameChar, InNames, ValueHere, AttrFrom;
      ReadHere(s, name);
    }
  }

  lemma NamesHold(c: char)
    ensures InNames(c) <==> IsNameChar(c)
  {
  }

  lemma OtherFirst(c: char, s: string, name: string)
    requires name != [] && c != name[0]
    ensures ValueHere([c] + s, name) == None
  {
  }

  // ---- any case ---------------------------------------------------------------

  lemma OpensAt(c: char, i: nat)
    requires i < 8
    ensures Lower(c) == Lower(OPEN[i]) <==> c == OPEN[i] || c == "<OUTLINE"[i]
  {
    assert OPEN[0] == '<' && "<OUTLINE"[0] == '<';
    assert OPEN[1] == 'o' && "<OUTLINE"[1] == 'O';
    assert OPEN[2] == 'u' && "<OUTLINE"[2] == 'U';
    assert OPEN[3] == 't' && "<OUTLINE"[3] == 'T';
    assert OPEN[4] == 'l' && "<OUTLINE"[4] == 'L';
    assert OPEN[5] == 'i' && "<OUTLINE"[5] == 'I';
    assert OPEN[6] == 'n' && "<OUTLINE"[6] == 'N';
    assert OPEN[7] == 'e' && "<OUTLINE"[7] == 'E';
  }

  /** A tag opens an outline exactly if it is spelled so, each letter in either
      case. */
  lemma OpensInAnyCase(s: string)
    ensures StartsWithCi(s, OPEN) <==> |s| >= 8 && forall i | 0 <= i < 8 :: s[i] == OPEN[i] || s[i] == "<OUTLINE"[i]
  {
    if |s| >= 8 {
      forall i | 0 <= i < 8 ensures Lower(s[i]) == Lower(OPEN[i]) <==> s[i] == OPEN[i] || s[i] == "<OUTLINE"[i] {
        OpensAt(s[i], i);
      }
    }
    hide Lower;
    assert |OPEN| == 8;
  }

  // ---- groups -----------------------------------------------------------------

  /** The k-th group has a name, and none inside it has one. */
  predicate IsInnermost(groups: seq<Option<string>>, k: nat) {
    k < |groups| && groups[k].Some? && forall j | k < j < |groups| :: groups[j] == None
  }

  lemma OneMoreGroup(groups: seq<Option<string>>, g: Option<string>, k: nat)
    ensures g.Some? ==> IsInnermost(groups + [g], |groups|)
    ensures g == None && IsInnermost(groups, k) ==> IsInnermost(groups + [g], k)
  {
  }

  /** The feeds of a group that has no name are in the nearest one around it that
      has. */
  lemma {:induction false} NearestIsInnermost(groups: seq<Option<string>>) returns (k: nat)
    ensures match Nearest(groups)
      case Some(name) => IsInnermost(groups, k) && groups[k] == Some(name)
      case None => forall j | 0 <= j < |groups| :: groups[j] == None
  {
    k := 0;
    if groups != [] {
      hide IsInnermost;
      var front, g := groups[..|groups| - 1], groups[|groups| - 1];
      assert groups == front + [g];
      k := NearestIsInnermost(front);
      OneMoreGroup(front, g, k);
      if g.Some? {
        k := |front|;
      } else if Nearest(front).Some? {
        assert k < |front| by { InnermostIsIn(front, k); }
      }
    }
  }

  lemma InnermostIsIn(groups: seq<Option<string>>, k: nat)
    requires IsInnermost(groups, k)
    ensures k < |groups|
  {
  }

  // ---- feeds and groups of other programs -------------------------------------

  lemma PlainNeverMisleads(v: string, name: string)
    requires '=' !in v
    ensures !Misleads(true, v, name)
  {
    if Misleads(true, v, name) {
      MisleadingHasEquals(true, v, name);
    }
  }

  /** A feed that has a text and no title comes in under its text. */
  lemma TextStandsForTitle(url: string, text: string, t: string, st: State)
    ensures url != "" && '=' !in text ==>
      Scan(OutlineTag([Pair("text", text), Pair("xmlUrl", url)], true) + t, st)
      == Scan(t, State(
           st.found + [ImportedFeed(url, if text == "" then None else Some(text), None, Nearest(st.groups))], st.groups))
  {
    if url != "" && '=' !in text {
      var a, b := Pair("text", text), Pair("xmlUrl", url);
      NamesAreNames();
      ScanPrinted([a, b], true, t, st);
      forall name ensures !Misleads(true, text, name) {
        PlainNeverMisleads(text, name);
      }
      hide Misleads, ReadRun, Scan, IsName;
      assert [a, b] + [] == [a, b] && [b] + [] == [b];
      ReadRunCons(a, b, [], "xmlUrl");
      ReadRunCons(a, b, [], "title");
      ReadRunCons(a, b, [], "text");
      ReadRunCons(a, b, [], "htmlUrl");
      ReadRunLast(b, "xmlUrl");
      ReadRunLast(b, "title");
      ReadRunLast(b, "htmlUrl");
    }
  }

  lemma ReadsThree(text: string, title: string, url: string, name: string)
    requires '=' !in text && '=' !in title
    ensures ReadRun([Pair("text", text), Pair("title", title), Pair("xmlUrl", url)], name) ==
      if name == "text" then Some(text) else if name == "title" then Some(title) else if name == "xmlUrl" then Some(url) else None
  {
    PlainNeverMisleads(text, name);
    PlainNeverMisleads(title, name);
    hide Misleads, ReadRun;
    var a, b, c := Pair("text", text), Pair("title", title), Pair("xmlUrl", url);
    assert [a, b] + [c] == [a, b, c] && [b] + [c] == [b, c] && [b, c] + [] == [b, c] && [c] + [] == [c];
    ReadRunCons(a, b, [c], name);
    ReadRunCons(b, c, [], name);
    ReadRunLast(c, name);
  }

  /** A feed that has both comes in under its title. */
  lemma TitleGoesFirst(url: string, text: string, title: string, t: string, st: State)
    ensures url != "" && '=' !in text && '=' !in title ==>
      Scan(OutlineTag([Pair("text", text), Pair("title", title), Pair("xmlUrl", url)], true) + t, st)
      == Scan(t, State(
           st.found + [ImportedFeed(url, if title == "" then None else Some(title), None, Nearest(st.groups))], st.groups))
  {
    if url != "" && '=' !in text && '=' !in title {
      NamesAreNames();
      hide ReadRun, Scan, IsName, OutlineTag, Nearest;
      ScanPrinted([Pair("text", text), Pair("title", title), Pair("xmlUrl", url)], true, t, st);
      ReadsThree(text, title, url, "xmlUrl");
      ReadsThree(text, title, url, "title");
      ReadsThree(text, title, url, "text");
      ReadsThree(text, title, url, "htmlUrl");
    }
  }

  /** A group may be named by its title alone; one that has neither is no folder. */
  lemma GroupOfTitle(title: string, t: string, st: State)
    ensures '=' !in title ==>
      Scan(OutlineTag([Pair("title", title)], false) + t, st)
      == Scan(t, State(st.found, st.groups + [if title == "" then None else Some(title)]))
  {
    if '=' !in title {
      NamesAreNames();
      var a := Pair("title", title);
      ScanPrinted([a], false, t, st);
      hide ReadRun, Scan, IsName;
      ReadRunLast(a, "xmlUrl");
      ReadRunLast(a, "text");
      ReadRunLast(a, "title");
      ReadRunLast(a, "htmlUrl");
    }
  }
}
