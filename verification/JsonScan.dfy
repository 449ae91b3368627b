/** The structural scan of a JSON text that has not been parsed, against the
    texts of RFC 8259 and the values they parse into. */
module JsonScan {
  import opened Wrappers
  import opened Json
  import opened Octets

  const QUOTE: byte := 0x22
  const BACKSLASH: byte := 0x5C
  const COMMA: byte := 0x2C
  const COLON: byte := 0x3A
  const LBRACKET: byte := 0x5B
  const RBRACKET: byte := 0x5D
  const LBRACE: byte := 0x7B
  const RBRACE: byte := 0x7D

  // ---- the scan ---------------------------------------------------------------

  datatype Mode = Outside | InString | Escaped

  predicate Structural(b: byte) {
    b == LBRACE || b == LBRACKET || b == COMMA || b == COLON
  }

  function Next(mode: Mode, b: byte): Mode {
    match mode
    case Outside => if b == QUOTE then InString else Outside
    case InString => if b == BACKSLASH then Escaped else if b == QUOTE then Outside else InString
    case Escaped => InString
  }

  function Counted(mode: Mode, b: byte): nat {
    if mode == Outside && (b == QUOTE || Structural(b)) then 1 else 0
  }

  /** The mode a text leaves the scan in. */
  function ModeAfter(mode: Mode, text: Bytes): Mode
    decreases |text|
  {
    if text == [] then mode else ModeAfter(Next(mode, text[0]), text[1..])
  }

  /** What a text adds to the count. */
  function Scan(mode: Mode, text: Bytes): nat
    decreases |text|
  {
    if text == [] then 0 else Counted(mode, text[0]) + Scan(Next(mode, text[0]), text[1..])
  }

  /** The scan as it runs: one pass, two flags. */
  method CountStructuralChars(body: Bytes) returns (nodes: nat)
    ensures nodes == Scan(Outside, body)
  {
    nodes := 0;
    var inString, escaped := false, false;
    for i := 0 to |body|
      invariant escaped ==> inString
      invariant var mode := if escaped then Escaped else if inString then InString else Outside;
        nodes + Scan(mode, body[i..]) == Scan(Outside, body)
    {
      var b := body[i];
      if inString {
        if escaped {
          escaped := false;
        } else if b == BACKSLASH {
          escaped := true;
        } else if b == QUOTE {
          inString := false;
        }
        continue;
      }
      if b == QUOTE {
        inString := true;
        nodes := nodes + 1;
      } else if Structural(b) {
        nodes := nodes + 1;
      }
    }
  }

  lemma {:induction false} ScanAppend(mode: Mode, a: Bytes, b: Bytes)
    ensures Scan(mode, a + b) == Scan(mode, a) + Scan(ModeAfter(mode, a), b)
    ensures ModeAfter(mode, a + b) == ModeAfter(ModeAfter(mode, a), b)
    decreases |a|
  {
    if a == [] {
      assert a + b == b;
    } else {
      assert (a + b)[1..] == a[1..] + b;
      ScanAppend(Next(mode, a[0]), a[1..], b);
    }
  }

  // ---- texts of values --------------------------------------------------------

  /** One character of a string literal: itself, a two-byte escape, or \u and
      four hexadecimal digits. */
  datatype Unit = Plain(b: byte) | Short(b: byte) | Unicode(digits: Bytes)

  const U: byte := 0x75

  predicate IsHex(b: byte) {
    0x30 <= b <= 0x39 || 0x41 <= b <= 0x46 || 0x61 <= b <= 0x66
  }

  predicate LegalUnit(u: Unit) {
    match u
    case Plain(b) => b >= 0x20 && b != QUOTE && b != BACKSLASH
    case Short(b) => b in [QUOTE, BACKSLASH, 0x2F, 0x62, 0x66, 0x6E, 0x72, 0x74]
    case Unicode(digits) => |digits| == 4 && forall d | d in digits :: IsHex(d)
  }

  function PrintUnit(u: Unit): Bytes {
    match u
    case Plain(b) => [b]
    case Short(b) => [BACKSLASH, b]
    case Unicode(digits) => [BACKSLASH, U] + digits
  }

  function PrintUnits(units: seq<Unit>): Bytes {
    if units == [] then [] else PrintUnit(units[0]) + PrintUnits(units[1..])
  }

  function PrintLiteral(units: seq<Unit>): Bytes {
    [QUOTE] + PrintUnits(units) + [QUOTE]
  }

  /** A JSON text with its spelling: the white space around every token, the
      spelling of every string and the characters of every number. */
  datatype Text =
    | Word(value: Value, spelling: Bytes)
    | Literal(units: seq<Unit>)
    | List(items: seq<Item>, blank: Bytes)
    | Dict(members: seq<Member>, blank: Bytes)

  datatype Item = Item(before: Bytes, text: Text, after: Bytes)

  datatype Member = Member(before: Bytes, key: seq<Unit>, between: Bytes, item: Item)

  predicate Blank(s: Bytes) {
    forall b | b in s :: b in [0x20, 0x09, 0x0A, 0x0D]
  }

  /** A spelling of null, true, false or a number: none of its bytes is one the
      scan looks for. */
  predicate Bare(s: Bytes) {
    forall b | b in s :: 0x30 <= b <= 0x39 || 0x61 <= b <= 0x7A || b in [0x2B, 0x2D, 0x2E, 0x45]
  }

  predicate Legal(t: Text)
    decreases t, 1
  {
    match t
    case Word(value, spelling) => !value.Array? && !value.Object? && !value.String? && Bare(spelling)
    case Literal(units) => forall u | u in units :: LegalUnit(u)
    case List(items, blank) => Blank(blank) && LegalItems(items)
    case Dict(members, blank) => Blank(blank) && LegalMembers(members)
  }

  predicate LegalItem(item: Item)
    decreases item, 2
  {
    Blank(item.before) && Blank(item.after) && Legal(item.text)
  }

  predicate LegalItems(items: seq<Item>)
    decreases items, 0
  {
    items == [] || (LegalItem(items[0]) && LegalItems(items[1..]))
  }

  predicate LegalMembers(members: seq<Member>)
    decreases members, 0
  {
    members == [] || (
      && Blank(members[0].before) && Blank(members[0].between)
      && (forall u | u in members[0].key :: LegalUnit(u))
      && LegalItem(members[0].item) && LegalMembers(members[1..]))
  }

  function Print(t: Text): Bytes
    decreases t, 1
  {
    match t
    case Word(_, spelling) => spelling
    case Literal(units) => PrintLiteral(units)
    case List(items, blank) => [LBRACKET] + (if items == [] then blank else PrintItems(items)) + [RBRACKET]
    case Dict(members, blank) => [LBRACE] + (if members == [] then blank else PrintMembers(members)) + [RBRACE]
  }

  function PrintItem(item: Item): Bytes
    decreases item, 2
  {
    item.before + Print(item.text) + item.after
  }

  function PrintItems(items: seq<Item>): Bytes
    decreases items, 0
  {
    if items == [] then []
    else PrintItem(items[0]) + if |items| == 1 then [] else [COMMA] + PrintItems(items[1..])
  }

  function PrintMember(m: Member): Bytes
    decreases m, 3
  {
    m.before + PrintLiteral(m.key) + m.between + [COLON] + PrintItem(m.item)
  }

  function PrintMembers(members: seq<Member>): Bytes
    decreases members, 0
  {
    if members == [] then []
    else PrintMember(members[0]) + if |members| == 1 then [] else [COMMA] + PrintMembers(members[1..])
  }

  /** A whole body: one text with white space around it. */
  function PrintBody(body: Item): Bytes {
    PrintItem(body)
  }

  // ---- the values they parse into ---------------------------------------------

  /** What the characters of a literal stand for. */
  type Decoding = seq<Unit> -> Bytes

  /** An entry onto the entries read so far: a repeated key takes the new value. */
  function Put(entries: seq<Entry>, key: Bytes, value: Value): seq<Entry> {
    if entries == [] then [Entry(key, value)]
    else if entries[0].key == key then [Entry(key, value)] + entries[1..]
    else [entries[0]] + Put(entries[1..], key, value)
  }

  function Parsed(t: Text, decode: Decoding): Value
    decreases t, 1
  {
    match t
    case Word(value, _) => value
    case Literal(units) => String(decode(units))
    case List(items, _) => Array(ParsedItems(items, decode))
    case Dict(members, _) => Object(ParsedOnto([], members, decode))
  }

  function ParsedItems(items: seq<Item>, decode: Decoding): seq<Value>
    decreases items, 0
  {
    if items == [] then [] else [Parsed(items[0].text, decode)] + ParsedItems(items[1..], decode)
  }

  /** The entries of an object's members, read onto the entries before them. */
  function ParsedOnto(entries: seq<Entry>, members: seq<Member>, decode: Decoding): seq<Entry>
    decreases members, 0
  {
    if members == [] then entries
    else ParsedOnto(Put(entries, decode(members[0].key), Parsed(members[0].item.text, decode)), members[1..], decode)
  }

  // ---- what the scan counts of a text -----------------------------------------

  /** The nodes a text is written with: one per value, repeated keys included. */
  function Written(t: Text): nat
    decreases t, 1
  {
    match t
    case List(items, _) => 1 + WrittenItems(items)
    case Dict(members, _) => 1 + WrittenMembers(members)
    case _ => 1
  }

  function WrittenItems(items: seq<Item>): nat
    decreases items, 0
  {
    if items == [] then 0 else Written(items[0].text) + WrittenItems(items[1..])
  }

  function WrittenMembers(members: seq<Member>): nat
    decreases members, 0
  {
    if members == [] then 0 else Written(members[0].item.text) + WrittenMembers(members[1..])
  }

  /** What a text counts: one for each bracket that opens, each comma, each colon
      and each string literal, whatever the literal holds. */
  function Weight(t: Text): nat
    decreases t, 1
  {
    match t
    case Word(_, _) => 0
    case Literal(_) => 1
    case List(items, _) => 1 + (if items == [] then 0 else |items| - 1) + ItemsWeight(items)
    case Dict(members, _) => 1 + (if members == [] then 0 else |members| - 1) + 2 * |members| + MembersWeight(members)
  }

  function ItemsWeight(items: seq<Item>): nat
    decreases items, 0
  {
    if items == [] then 0 else Weight(items[0].text) + ItemsWeight(items[1..])
  }

  function MembersWeight(members: seq<Member>): nat
    decreases members, 0
  {
    if members == [] then 0 else Weight(members[0].item.text) + MembersWeight(members[1..])
  }

  // ---- the scan counts exactly the weight -------------------------------------

  /** A stretch the scan crosses from outside any string to outside any string,
      counting n on the way. */
  ghost predicate Adds(s: Bytes, n: nat) {
    Scan(Outside, s) == n && ModeAfter(Outside, s) == Outside
  }

  lemma AddsBoth(a: Bytes, m: nat, b: Bytes, n: nat)
    requires Adds(a, m) && Adds(b, n)
    ensures Adds(a + b, m + n)
  {
    ScanAppend(Outside, a, b);
  }

  lemma {:induction false} QuietAdds(s: Bytes)
    requires forall b | b in s :: b != QUOTE && !Structural(b)
    ensures Adds(s, 0)
  {
    if s != [] {
      assert s[0] in s && forall b | b in s[1..] :: b in s;
      QuietAdds(s[1..]);
    }
  }

  lemma OneAdds(b: byte)
    requires b != QUOTE
    ensures Adds([b], if Structural(b) then 1 else 0)
  {
    assert [b][1..] == [];
  }

  /** Nothing inside a literal is counted, and nothing inside it ends it. */
  lemma {:induction false} InsideLiteral(units: seq<Unit>)
    requires forall u | u in units :: LegalUnit(u)
    ensures Scan(InString, PrintUnits(units)) == 0 && ModeAfter(InString, PrintUnits(units)) == InString
  {
    if units != [] {
      OneUnit(units[0]);
      InsideLiteral(units[1..]);
      ScanAppend(InString, PrintUnit(units[0]), PrintUnits(units[1..]));
    }
  }

  lemma OneUnit(u: Unit)
    requires LegalUnit(u)
    ensures Scan(InString, PrintUnit(u)) == 0 && ModeAfter(InString, PrintUnit(u)) == InString
  {
    match u
    case Plain(b) => assert [b][1..] == [];
    case Short(b) =>
      assert [BACKSLASH, b] == [BACKSLASH] + [b];
      ScanAppend(InString, [BACKSLASH], [b]);
    case Unicode(digits) =>
      assert ([BACKSLASH, U] + digits)[1..] == [U] + digits;
      assert ([U] + digits)[1..] == digits;
      InsideHex(digits);
  }

  lemma {:induction false} InsideHex(digits: Bytes)
    requires forall d | d in digits :: IsHex(d)
    ensures Scan(InString, digits) == 0 && ModeAfter(InString, digits) == InString
  {
    if digits != [] {
      assert IsHex(digits[0]);
      InsideHex(digits[1..]);
    }
  }

  lemma LiteralAdds(units: seq<Unit>)
    requires forall u | u in units :: LegalUnit(u)
    ensures Adds(PrintLiteral(units), 1)
  {
    InsideLiteral(units);
    assert PrintLiteral(units)[1..] == PrintUnits(units) + [QUOTE];
    ScanAppend(InString, PrintUnits(units), [QUOTE]);
    assert [QUOTE][1..] == [];
  }

  lemma {:induction false} TextAdds(t: Text)
    requires Legal(t)
    ensures Adds(Print(t), Weight(t))
    decreases t, 1
  {
    match t
    case Word(_, spelling) => QuietAdds(spelling);
    case Literal(units) => LiteralAdds(units);
    case List(items, blank) =>
      var inner := if items == [] then blank else PrintItems(items);
      QuietAdds(blank);
      ItemsAdd(items);
      Bracketed(LBRACKET, inner, Weight(t) - 1, RBRACKET);
    case Dict(members, blank) =>
      var inner := if members == [] then blank else PrintMembers(members);
      QuietAdds(blank);
      MembersAdd(members);
      Bracketed(LBRACE, inner, Weight(t) - 1, RBRACE);
  }

  lemma Bracketed(open: byte, inner: Bytes, n: nat, close: byte)
    requires Adds(inner, n) && Structural(open) && open != QUOTE && close != QUOTE && !Structural(close)
    ensures Adds([open] + inner + [close], n + 1)
  {
    OneAdds(open);
    OneAdds(close);
    AddsBoth([open], 1, inner, n);
    AddsBoth([open] + inner, n + 1, [close], 0);
  }

  lemma {:induction false} ItemAdds(item: Item)
    requires LegalItem(item)
    ensures Adds(PrintItem(item), Weight(item.text))
    decreases item, 2
  {
    QuietAdds(item.before);
    TextAdds(item.text);
    QuietAdds(item.after);
    AddsBoth(item.before, 0, Print(item.text), Weight(item.text));
    AddsBoth(item.before + Print(item.text), Weight(item.text), item.after, 0);
  }

  lemma {:induction false} ItemsAdd(items: seq<Item>)
    requires LegalItems(items)
    ensures Adds(PrintItems(items), ItemsWeight(items) + if items == [] then 0 else |items| - 1)
    decreases items, 0
  {
    if items != [] {
      var rest := items[1..];
      ItemAdds(items[0]);
      ItemsAdd(rest);
      OneAdds(COMMA);
      AddsBoth([COMMA], 1, PrintItems(rest), ItemsWeight(rest) + if rest == [] then 0 else |rest| - 1);
      if |items| == 1 {
        AddsBoth(PrintItem(items[0]), Weight(items[0].text), [], 0);
      } else {
        AddsBoth(PrintItem(items[0]), Weight(items[0].text), [COMMA] + PrintItems(rest), ItemsWeight(rest) + |rest|);
      }
    }
  }

  lemma {:induction false} MemberAdds(m: Member)
    requires Blank(m.before) && Blank(m.between) && LegalItem(m.item)
    requires forall u | u in m.key :: LegalUnit(u)
    ensures Adds(PrintMember(m), 2 + Weight(m.item.text))
    decreases m, 3
  {
    var key, w := PrintLiteral(m.key), Weight(m.item.text);
    QuietAdds(m.before);
    LiteralAdds(m.key);
    QuietAdds(m.between);
    OneAdds(COLON);
    ItemAdds(m.item);
    AddsBoth(m.before, 0, key, 1);
    AddsBoth(m.before + key, 1, m.between, 0);
    AddsBoth(m.before + key + m.between, 1, [COLON], 1);
    AddsBoth(m.before + key + m.between + [COLON], 2, PrintItem(m.item), w);
  }

  lemma {:induction false} MembersAdd(members: seq<Member>)
    requires LegalMembers(members)
    ensures Adds(PrintMembers(members), MembersWeight(members) + 2 * |members| + if members == [] then 0 else |members| - 1)
    decreases members, 0
  {
    if members != [] {
      var rest := members[1..];
      MemberAdds(members[0]);
      MembersAdd(rest);
      OneAdds(COMMA);
      var w := MembersWeight(rest) + 2 * |rest| + if rest == [] then 0 else |rest| - 1;
      AddsBoth([COMMA], 1, PrintMembers(rest), w);
      if |members| == 1 {
        AddsBoth(PrintMember(members[0]), 2 + Weight(members[0].item.text), [], 0);
      } else {
        AddsBoth(PrintMember(members[0]), 2 + Weight(members[0].item.text), [COMMA] + PrintMembers(rest), 1 + w);
      }
    }
  }

  // ---- the weight bounds the nodes --------------------------------------------

  /** A text weighs at least its nodes less the outermost one, and at most four
      times its nodes: a literal's contents can neither hide a node nor invent
      one. */
  lemma {:induction false} WeightBounds(t: Text)
    ensures Written(t) - 1 <= Weight(t) <= 4 * Written(t) - 3
    decreases t, 1
  {
    match t
    case List(items, _) => ItemsBounds(items);
    case Dict(members, _) => MembersBounds(members);
    case _ =>
  }

  lemma {:induction false} ItemsBounds(items: seq<Item>)
    ensures WrittenItems(items) - |items| <= ItemsWeight(items) <= 4 * WrittenItems(items) - 3 * |items|
    ensures |items| <= WrittenItems(items)
    decreases items, 0
  {
    if items != [] {
      WeightBounds(items[0].text);
      ItemsBounds(items[1..]);
    }
  }

  lemma {:induction false} MembersBounds(members: seq<Member>)
    ensures WrittenMembers(members) - |members| <= MembersWeight(members) <= 4 * WrittenMembers(members) - 3 * |members|
    ensures |members| <= WrittenMembers(members)
    decreases members, 0
  {
    if members != [] {
      WeightBounds(members[0].item.text);
      MembersBounds(members[1..]);
    }
  }

  lemma {:induction false} PutAddsAtMost(entries: seq<Entry>, key: Bytes, value: Value)
    ensures EntriesNodes(Put(entries, key, value)) <= EntriesNodes(entries) + Nodes(value)
  {
    if entries != [] {
      if entries[0].key == key {
        assert ([Entry(key, value)] + entries[1..])[1..] == entries[1..];
      } else {
        PutAddsAtMost(entries[1..], key, value);
        assert Put(entries, key, value)[1..] == Put(entries[1..], key, value);
      }
    }
  }

  predicate KeysDiffer(entries: seq<Entry>) {
    forall i, j | 0 <= i < j < |entries| :: entries[i].key != entries[j].key
  }

  function ValueOf(entries: seq<Entry>, key: Bytes): Option<Value> {
    if entries == [] then None else if entries[0].key == key then Some(entries[0].value) else ValueOf(entries[1..], key)
  }

  /** The value that the last member with a key has. */
  function LastWritten(members: seq<Member>, key: Bytes, decode: Decoding): Option<Value>
    decreases members, 0
  {
    if members == [] then None
    else
      var later := LastWritten(members[1..], key, decode);
      if later.Some? then later
      else if decode(members[0].key) == key then Some(Parsed(members[0].item.text, decode))
      else None
  }

  lemma {:induction false} PutReplaces(entries: seq<Entry>, key: Bytes, value: Value, other: Bytes)
    ensures ValueOf(Put(entries, key, value), other) == if other == key then Some(value) else ValueOf(entries, other)
  {
    if entries == [] {
      assert [Entry(key, value)][1..] == [];
    } else if entries[0].key == key {
      assert ([Entry(key, value)] + entries[1..])[1..] == entries[1..];
    } else {
      PutReplaces(entries[1..], key, value, other);
      assert Put(entries, key, value)[1..] == Put(entries[1..], key, value);
    }
  }

  predicate HasKey(entries: seq<Entry>, key: Bytes) {
    exists e :: e in entries && e.key == key
  }

  lemma {:induction false} PutAddsKey(entries: seq<Entry>, key: Bytes, value: Value, other: Bytes)
    ensures HasKey(Put(entries, key, value), other) <==> HasKey(entries, other) || other == key
  {
    if entries == [] {
      assert Entry(key, value) in Put(entries, key, value);
    } else {
      var rest := if entries[0].key == key then entries[1..] else Put(entries[1..], key, value);
      var head := if entries[0].key == key then Entry(key, value) else entries[0];
      PutAddsKey(entries[1..], key, value, other);
      HeadKey(entries[0], entries[1..], other);
      HeadKey(head, rest, other);
      assert entries == [entries[0]] + entries[1..];
    }
  }

  lemma HeadKey(e: Entry, rest: seq<Entry>, key: Bytes)
    ensures HasKey([e] + rest, key) <==> e.key == key || HasKey(rest, key)
  {
    assert e in [e] + rest && forall x | x in rest :: x in [e] + rest;
  }

  lemma HeadDiffers(e: Entry, rest: seq<Entry>)
    ensures KeysDiffer([e] + rest) <==> !HasKey(rest, e.key) && KeysDiffer(rest)
  {
    var all := [e] + rest;
    assert forall j | 0 <= j < |rest| :: rest[j] == all[j + 1] && rest[j] in rest;
    assert forall j | 1 <= j < |all| :: all[j] == rest[j - 1];
    assert KeysDiffer(all) ==> forall j | 1 <= j < |all| :: all[0].key != all[j].key;
    assert HasKey(rest, e.key) ==> exists j | 1 <= j < |all| :: all[j].key == e.key by {
      if HasKey(rest, e.key) {
        var x :| x in rest && x.key == e.key;
        var j :| 0 <= j < |rest| && rest[j] == x;
        assert all[j + 1].key == e.key;
      }
    }
  }

  lemma {:induction false} PutKeepsKeysDifferent(entries: seq<Entry>, key: Bytes, value: Value)
    requires KeysDiffer(entries)
    ensures KeysDiffer(Put(entries, key, value))
  {
    hide HasKey;
    if entries != [] {
      assert entries == [entries[0]] + entries[1..];
      HeadDiffers(entries[0], entries[1..]);
      if entries[0].key == key {
        HeadDiffers(Entry(key, value), entries[1..]);
      } else {
        PutKeepsKeysDifferent(entries[1..], key, value);
        PutAddsKey(entries[1..], key, value, entries[0].key);
        HeadDiffers(entries[0], Put(entries[1..], key, value));
      }
    }
  }

  /** An object has each key once, with the value it was written with last. */
  lemma {:induction false} ObjectKeepsLast(entries: seq<Entry>, members: seq<Member>, decode: Decoding, key: Bytes)
    requires KeysDiffer(entries)
    ensures KeysDiffer(ParsedOnto(entries, members, decode))
    ensures ValueOf(ParsedOnto(entries, members, decode), key) ==
      if LastWritten(members, key, decode).Some? then LastWritten(members, key, decode) else ValueOf(entries, key)
    decreases members, 1
  {
    if members != [] {
      var k, v := decode(members[0].key), Parsed(members[0].item.text, decode);
      PutReplaces(entries, k, v, key);
      PutKeepsKeysDifferent(entries, k, v);
      ObjectKeepsLast(Put(entries, k, v), members[1..], decode, key);
    }
  }

  /** A value has no more nodes than its text was written with; fewer when a key
      is repeated. */
  lemma {:induction false} ParsedNodes(t: Text, decode: Decoding)
    requires Legal(t)
    ensures Nodes(Parsed(t, decode)) <= Written(t)
    decreases t, 1
  {
    match t
    case List(items, _) => ParsedItemsNodes(items, decode);
    case Dict(members, _) => ParsedOntoNodes([], members, decode);
    case _ =>
  }

  lemma {:induction false} ParsedItemsNodes(items: seq<Item>, decode: Decoding)
    requires LegalItems(items)
    ensures ItemsNodes(ParsedItems(items, decode)) <= WrittenItems(items)
    decreases items, 0
  {
    if items != [] {
      ParsedNodes(items[0].text, decode);
      ParsedItemsNodes(items[1..], decode);
      assert ParsedItems(items, decode)[1..] == ParsedItems(items[1..], decode);
    }
  }

  lemma {:induction false} ParsedOntoNodes(entries: seq<Entry>, members: seq<Member>, decode: Decoding)
    requires LegalMembers(members)
    ensures EntriesNodes(ParsedOnto(entries, members, decode)) <= EntriesNodes(entries) + WrittenMembers(members)
    decreases members, 0
  {
    if members != [] {
      var key, value := decode(members[0].key), Parsed(members[0].item.text, decode);
      ParsedNodes(members[0].item.text, decode);
      PutAddsAtMost(entries, key, value);
      ParsedOntoNodes(Put(entries, key, value), members[1..], decode);
    }
  }

  // ---- the guard --------------------------------------------------------------

  const MAX_LIST_STRUCTURAL_CHARS: nat := 640_000

  /** Before any parse, the scan bounds what a parse can build: for every value,
      every text of it, however spaced, escaped and spelled, and however its
      strings decode, the value has at most one node more than the count. And
      the count is never above four times what was written. */
  lemma ScanBoundsNodes(body: Item, decode: Decoding)
    ensures LegalItem(body) ==>
      && Nodes(Parsed(body.text, decode)) <= Scan(Outside, PrintBody(body)) + 1
      && Scan(Outside, PrintBody(body)) <= 4 * Written(body.text) - 3
  {
    if LegalItem(body) {
      ItemAdds(body);
      WeightBounds(body.text);
      ParsedNodes(body.text, decode);
    }
  }

  /** A body may be parsed only if the scan counts no more than the cap. */
  method RefuseAStructureExplosion(body: Bytes) returns (counted: nat, accepted: bool)
    ensures counted == Scan(Outside, body)
    ensures accepted <==> counted <= MAX_LIST_STRUCTURAL_CHARS
  {
    counted := CountStructuralChars(body);
    accepted := counted <= MAX_LIST_STRUCTURAL_CHARS;
  }

  /** No accepted body parses into more than the cap's nodes and one; and every
      body written with up to a quarter of the cap's nodes is accepted. */
  lemma GuardHolds(body: Item, decode: Decoding)
    ensures LegalItem(body) && Scan(Outside, PrintBody(body)) <= MAX_LIST_STRUCTURAL_CHARS
      ==> Nodes(Parsed(body.text, decode)) <= MAX_LIST_STRUCTURAL_CHARS + 1
    ensures LegalItem(body) && 4 * Written(body.text) <= MAX_LIST_STRUCTURAL_CHARS
      ==> Scan(Outside, PrintBody(body)) <= MAX_LIST_STRUCTURAL_CHARS
  {
    ScanBoundsNodes(body, decode);
  }
}
