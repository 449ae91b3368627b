/** What the attribute scan makes of a printed run of attributes: exactly, for
    every name and all values without a quote in them. */
module OpmlRun {
  import opened Wrappers
  import opened OpmlText
  import opened OpmlAttr

  datatype Pair = Pair(key: string, value: string)

  function PrintPair(p: Pair): string {
    " " + p.key + "=\"" + p.value + "\""
  }

  function PrintRun(pairs: seq<Pair>): string {
    if pairs == [] then "" else PrintPair(pairs[0]) + PrintRun(pairs[1..])
  }

  predicate Unquoted(s: string) {
    '"' !in s && '\'' !in s
  }

  predicate Printable(pairs: seq<Pair>) {
    forall p | p in pairs :: IsName(p.key) && Unquoted(p.value)
  }

  /** The text is the name, white space, an equals sign and white space: put a
      quote after it and it reads as the start of an attribute. */
  predicate IsAssignment(v: string, name: string) {
    && name <= v
    && var t := SkipSpace(v[|name|..]);
      t != [] && t[0] == '=' && SkipSpace(t[1..]) == []
  }

  /** A text that ends in such an assignment, at a boundary. Its closing quote is
      taken for an opening one. */
  predicate Misleads(boundary: bool, v: string, name: string)
    decreases |v|
  {
    || (boundary && IsAssignment(v, name))
    || (v != [] && Misleads(!IsNameChar(v[0]), v[1..], name))
  }

  /** The raw value read from a printed run. The pairs are looked at in turn: the
      one of this name gives its value; one before it whose value misleads gives
      whatever is printed between its closing quote and the next quote. */
  function ReadRun(pairs: seq<Pair>, name: string): Option<string> {
    if pairs == [] then None
    else if pairs[0].key == name then Some(pairs[0].value)
    else if Misleads(true, pairs[0].value, name) && |pairs| > 1 then Some(" " + pairs[1].key + "=")
    else ReadRun(pairs[1..], name)
  }

  // ---- white space before a quote ---------------------------------------------

  lemma {:induction false} SkipSpaceUpTo(x: string, y: string)
    requires y != [] && !IsSpace(y[0])
    ensures SkipSpace(x + y) == SkipSpace(x) + y
  {
    if x == [] {
      assert x + y == y;
    } else {
      assert (x + y)[1..] == x[1..] + y;
      SkipSpaceUpTo(x[1..], y);
    }
  }

  lemma {:induction false} SkipSpaceStays(x: string, c: char)
    ensures c !in x ==> c !in SkipSpace(x)
    ensures SkipSpace(x) != [] ==> SkipSpace(x)[0] in x
  {
    if x != [] {
      SkipSpaceStays(x[1..], c);
    }
  }

  lemma {:induction false} FindAt(s: string, c: char, n: nat)
    requires n < |s| && s[n] == c && c !in s[..n]
    ensures Find(s, c) == Some(n)
  {
    if n > 0 {
      assert s[..n][0] == s[0] && s[1..][..n - 1] == s[..n][1..];
      FindAt(s[1..], c, n - 1);
    }
  }

  lemma FindFirst(x: string, c: char, y: string)
    requires c !in x
    ensures Find(x + [c] + y, c) == Some(|x|) && (x + [c] + y)[..|x|] == x
  {
    assert (x + [c] + y)[..|x|] == x;
    FindAt(x + [c] + y, c, |x|);
  }

  // ---- inside a value ---------------------------------------------------------

  /** Whether an attribute can be read from inside a value, and then what: the
      text after the closing quote, up to the next. */
  lemma ValueInValue(v: string, rest: string, name: string)
    requires IsName(name) && Unquoted(v)
    ensures ValueHere(v + "\"" + rest, name)
         == if IsAssignment(v, name) && Find(rest, '"').Some? then Some(rest[..Find(rest, '"').value]) else None
  {
    var s := v + "\"" + rest;
    if |v| < |name| {
      assert name[|v|] in name && s[|v|] == '"';
    } else {
      assert s[..|name|] == v[..|name|];
      assert name <= s <==> name <= v;
      if name <= v {
        var x := v[|name|..];
        assert s[|name|..] == x + ("\"" + rest);
        SkipSpaceUpTo(x, "\"" + rest);
        SkipSpaceStays(x, '"');
        SkipSpaceStays(x, '\'');
        var t := SkipSpace(x);
        if t != [] && t[0] == '=' {
          assert (t + ("\"" + rest))[1..] == t[1..] + ("\"" + rest);
          SkipSpaceUpTo(t[1..], "\"" + rest);
          SkipSpaceStays(t[1..], '"');
          SkipSpaceStays(t[1..], '\'');
          assert SkipSpace(t[1..]) == [] ==> SkipSpace(t[1..]) + ("\"" + rest) == "\"" + rest;
          assert ("\"" + rest)[1..] == rest;
        }
      }
    }
  }

  lemma ScanOne(boundary: bool, c: char, t: string, name: string)
    ensures AttrFrom(boundary, [c] + t, name) ==
      if boundary && ValueHere([c] + t, name).Some? then ValueHere([c] + t, name) else AttrFrom(!IsNameChar(c), t, name)
  {
    hide ValueHere, IsNameChar;
    assert ([c] + t)[1..] == t;
  }

  lemma MisleadsOne(boundary: bool, v: string, name: string)
    ensures v != [] ==>
      (Misleads(boundary, v, name) <==> (boundary && IsAssignment(v, name)) || Misleads(!IsNameChar(v[0]), v[1..], name))
    ensures v == [] ==> (Misleads(boundary, v, name) <==> boundary && IsAssignment(v, name))
  {
    hide IsAssignment, IsNameChar;
  }

  lemma {:induction false} ScanValue(boundary: bool, v: string, rest: string, name: string)
    requires IsName(name) && Unquoted(v)
    ensures AttrFrom(boundary, v + "\"" + rest, name)
         == if Misleads(boundary, v, name) && Find(rest, '"').Some? then Some(rest[..Find(rest, '"').value])
            else AttrFrom(true, rest, name)
    decreases |v|
  {
    ValueInValue(v, rest, name);
    MisleadsOne(boundary, v, name);
    assert v != [] ==> Unquoted(v[1..]);
    assert !IsNameChar('"');
    hide Unquoted, ValueHere, IsAssignment, IsName, Find, IsNameChar, AttrFrom, Misleads;
    if v == [] {
      assert v + "\"" + rest == ['"'] + rest;
      ScanOne(boundary, '"', rest, name);
    } else {
      assert v + "\"" + rest == [v[0]] + (v[1..] + "\"" + rest);
      ScanOne(boundary, v[0], v[1..] + "\"" + rest, name);
      ScanValue(!IsNameChar(v[0]), v[1..], rest, name);
    }
  }

  // ---- at a key ---------------------------------------------------------------

  lemma NotHere(s: string, name: string)
    requires IsName(name) && s != [] && !IsNameChar(s[0])
    ensures ValueHere(s, name) == None
  {
    assert name[0] in name;
  }

  /** At its own key a name is read; at another key it is not, not even when one
      of the two starts with the other. */
  lemma ValueAtOwnKey(name: string, w: string)
    requires IsName(name)
    ensures ValueHere(name + "=\"" + w, name)
         == if Find(w, '"').Some? then Some(w[..Find(w, '"').value]) else None
  {
    hide IsName, Find;
    var s := name + "=\"" + w;
    assert name <= s;
    assert s[|name|..] == "=\"" + w;
    assert ("=\"" + w)[1..] == "\"" + w;
    assert ("\"" + w)[1..] == w;
  }

  lemma NoValueAtOtherKey(key: string, w: string, name: string)
    requires IsName(name) && IsName(key) && key != name
    ensures ValueHere(key + "=\"" + w, name) == None
  {
    hide Find;
    var s := key + "=\"" + w;
    if |key| < |name| {
      assert name[|key|] in name && s[|key|] == '=';
    } else if |key| == |name| {
      assert s[..|name|] == key;
    } else {
      assert key[|name|] in key && s[|name|..][0] == key[|name|];
    }
  }

  /** From the rest of a key to the value after it. */
  lemma PastKey(rest: string, w: string, name: string)
    requires IsName(name) && forall c | c in rest :: IsNameChar(c)
    ensures AttrFrom(false, rest + "=\"" + w, name) == AttrFrom(true, w, name)
  {
    hide ValueHere;
    var e := "=\"" + w;
    SkipName(rest + e, name, rest);
    assert (rest + e)[|rest|..] == e;
    assert rest + "=\"" + w == rest + e;
    NotHere(e, name);
    assert e[1..] == "\"" + w;
    NotHere("\"" + w, name);
    assert ("\"" + w)[1..] == w;
  }

  lemma ScanKey(key: string, w: string, name: string)
    requires IsName(name) && IsName(key) && '"' in w
    ensures AttrFrom(true, " " + key + "=\"" + w, name)
         == if key == name then Some(w[..Find(w, '"').value]) else AttrFrom(true, w, name)
  {
    hide ValueHere, Find;
    var s := " " + key + "=\"" + w;
    var k := key + "=\"" + w;
    NotHere(s, name);
    assert s[1..] == k;
    assert AttrFrom(true, s, name) == AttrFrom(true, k, name);
    if key == name {
      ValueAtOwnKey(name, w);
    } else {
      NoValueAtOtherKey(key, w, name);
      assert key[0] in key && k[0] == key[0] && k[1..] == key[1..] + "=\"" + w;
      assert forall c | c in key[1..] :: c in key;
      PastKey(key[1..], w, name);
    }
  }

  // ---- a whole run ------------------------------------------------------------

  lemma FirstPair(pairs: seq<Pair>, end: string)
    requires Printable(pairs) && pairs != []
    ensures IsName(pairs[0].key)
    ensures PrintRun(pairs) + end
         == (" " + pairs[0].key + "=") + ['"'] + (pairs[0].value + "\"" + (PrintRun(pairs[1..]) + end))
  {
    assert pairs[0] in pairs;
    hide IsName, Unquoted;
  }

  lemma NextQuote(pairs: seq<Pair>, end: string)
    requires Printable(pairs) && Unquoted(end)
    ensures pairs == [] ==> Find(PrintRun(pairs) + end, '"') == None
    ensures pairs != [] ==> var s := PrintRun(pairs) + end;
      Find(s, '"').Some? && s[..Find(s, '"').value] == " " + pairs[0].key + "="
  {
    hide Find, Printable, IsName, PrintPair;
    if pairs == [] {
      assert PrintRun(pairs) + end == end;
    } else {
      hide PrintRun;
      FirstPair(pairs, end);
      NoQuoteInName(pairs[0].key);
      FindFirst(" " + pairs[0].key + "=", '"', pairs[0].value + "\"" + (PrintRun(pairs[1..]) + end));
    }
  }

  lemma NoQuoteInName(key: string)
    requires IsName(key)
    ensures '"' !in " " + key + "="
  {
  }

  /** The reading of a printed run is exactly ReadRun: for every name, every run
      and every ending that holds no quote and no attribute of its own. */
  lemma {:induction false} RunReads(pairs: seq<Pair>, end: string, name: string)
    requires IsName(name) && Printable(pairs) && Unquoted(end) && AttrFrom(true, end, name).None?
    ensures AttrFrom(true, PrintRun(pairs) + end, name) == ReadRun(pairs, name)
  {
    hide AttrFrom, Misleads, Find, IsName;
    if pairs == [] {
      assert PrintRun(pairs) + end == end;
    } else {
      var p, rest := pairs[0], PrintRun(pairs[1..]) + end;
      assert p in pairs && forall q | q in pairs[1..] :: q in pairs;
      var w := p.value + "\"" + rest;
      assert PrintRun(pairs) + end == " " + p.key + "=\"" + w;
      assert w == p.value + ['"'] + rest && w[|p.value|] == '"';
      ScanKey(p.key, w, name);
      if p.key == name {
        FindFirst(p.value, '"', rest);
      } else {
        ScanValue(true, p.value, rest, name);
        NextQuote(pairs[1..], end);
        RunReads(pairs[1..], end, name);
      }
    }
  }

  // ---- escaping hides nothing -------------------------------------------------

  lemma {:induction false} AssignmentIsPlain(v: string, name: string)
    requires IsName(name) && IsAssignment(v, name)
    ensures forall c | c in v :: !IsSpecial(c) && c != ';'
  {
    var x := v[|name|..];
    var t := SkipSpace(x);
    SkippedIsSpace(x);
    SkippedIsSpace(t[1..]);
    assert t == ['='] + t[1..];
    assert v == name + x;
  }

  lemma {:induction false} SkippedIsSpace(x: string)
    ensures forall c | c in x :: IsSpace(c) || c in SkipSpace(x)
  {
    if x != [] && IsSpace(x[0]) {
      SkippedIsSpace(x[1..]);
    }
  }

  /** An escaped text misleads exactly when the text itself does. */
  lemma {:induction false} EscapedMisleads(boundary: bool, v: string, name: string)
    requires IsName(name)
    ensures Misleads(boundary, Escaped(v), name) <==> Misleads(boundary, v, name)
    decreases |v|
  {
    PlainIsUnchanged(v);
    if IsAssignment(v, name) {
      AssignmentIsPlain(v, name);
    }
    if IsAssignment(Escaped(v), name) {
      AssignmentIsPlain(Escaped(v), name);
    }
    if v != [] {
      EscapedMisleads(!IsNameChar(v[0]), v[1..], name);
      var e, t := EscapedChar(v[0]), Escaped(v[1..]);
      if IsSpecial(v[0]) {
        ThroughEntity(boundary, e, t, name);
      } else {
        assert (e + t)[1..] == t;
      }
    }
  }

  /** No assignment starts inside an entity, and after it there is a boundary. */
  lemma {:induction false} ThroughEntity(boundary: bool, e: string, t: string, name: string)
    requires IsName(name) && e != [] && e[|e| - 1] == ';'
    ensures Misleads(boundary, e + t, name) <==> Misleads(true, t, name)
    decreases |e|
  {
    var s := e + t;
    assert s[|e| - 1] == ';' && ';' in s;
    if IsAssignment(s, name) {
      AssignmentIsPlain(s, name);
    }
    assert s[1..] == e[1..] + t;
    if |e| == 1 {
      assert e[1..] + t == t;
    } else {
      ThroughEntity(!IsNameChar(s[0]), e[1..], t, name);
    }
  }

  // ---- a printed run, escaped -------------------------------------------------

  predicate Named(pairs: seq<Pair>) {
    forall p | p in pairs :: IsName(p.key)
  }

  function EscapedPairs(pairs: seq<Pair>): seq<Pair> {
    if pairs == [] then []
    else [Pair(pairs[0].key, Escaped(pairs[0].value))] + EscapedPairs(pairs[1..])
  }

  lemma {:induction false} EscapedPairsArePrintable(pairs: seq<Pair>)
    requires Named(pairs)
    ensures Printable(EscapedPairs(pairs))
  {
    if pairs != [] {
      assert pairs[0] in pairs && forall p | p in pairs[1..] :: p in pairs;
      EscapedIsInert(pairs[0].value);
      EscapedPairsArePrintable(pairs[1..]);
    }
  }

  function Unescaped(value: Option<string>): Option<string> {
    match value
    case None => None
    case Some(v) => Some(Unescape(v))
  }

  lemma {:induction false} ReadEscaped(pairs: seq<Pair>, name: string)
    requires IsName(name) && Named(pairs)
    ensures Unescaped(ReadRun(EscapedPairs(pairs), name)) == ReadRun(pairs, name)
  {
    hide Misleads, Unescape;
    if pairs != [] {
      var escaped := EscapedPairs(pairs);
      assert escaped[1..] == EscapedPairs(pairs[1..]);
      assert pairs[0] in pairs && forall p | p in pairs[1..] :: p in pairs;
      UnescapeUndoesEscape(pairs[0].value);
      EscapedMisleads(true, pairs[0].value, name);
      ReadEscaped(pairs[1..], name);
      if |pairs| > 1 {
        assert escaped[1].key == pairs[1].key && pairs[1] in pairs;
        KeyIsPlain(pairs[1].key);
      }
    }
  }

  lemma KeyIsPlain(key: string)
    requires IsName(key)
    ensures Unescape(" " + key + "=") == " " + key + "="
  {
  }

  /** Reading an attribute of a run printed with its values escaped, for all
      values: what comes back is exactly what ReadRun says of the values as they
      were before escaping. */
  lemma PrintedReadsAs(pairs: seq<Pair>, end: string, name: string)
    requires IsName(name) && Named(pairs) && Unquoted(end) && AttrFrom(true, end, name).None?
    ensures Attr(PrintRun(EscapedPairs(pairs)) + end, name) == ReadRun(pairs, name)
  {
    hide AttrFrom, Unescape, ReadRun, PrintRun;
    EscapedPairsArePrintable(pairs);
    RunReads(EscapedPairs(pairs), end, name);
    ReadEscaped(pairs, name);
  }
}
