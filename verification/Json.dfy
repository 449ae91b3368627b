/** Parsed JSON as the reader holds it, and what one value is charged for. */
module Json {
  import opened Wrappers
  import opened Octets

  /** A parsed value. An object is its entries, one per key; the order of the
      entries plays no part in anything below. */
  datatype Value =
    | Null
    | Bool(b: bool)
    | Number(digits: Bytes)
    | String(text: Bytes)
    | Array(items: seq<Value>)
    | Object(entries: seq<Entry>)

  datatype Entry = Entry(key: Bytes, value: Value)

  // Bytes of one parsed node, and of the slot a container keeps for it.
  const NODE: nat := 32
  const SLOT: nat := 2 * NODE
  const MAP_ENTRY: nat := 104
  const MAP_NODE: nat := 512

  /** The charge for one value: the node, its slack, and everything below it. */
  function JsonBytes(v: Value): nat
    decreases v, 1
  {
    match v
    case Array(items) => 4 * NODE + ItemsBytes(items)
    case Object(entries) => MAP_NODE + EntriesBytes(entries)
    case String(text) => SLOT + |text|
    case _ => SLOT
  }

  function ItemsBytes(items: seq<Value>): nat
    decreases items, 0
  {
    if items == [] then 0 else JsonBytes(items[0]) + ItemsBytes(items[1..])
  }

  function EntriesBytes(entries: seq<Entry>): nat
    decreases entries, 0
  {
    if entries == [] then 0
    else
      MAP_ENTRY + Max(|entries[0].key|, NODE / 2) + SLOT + JsonBytes(entries[0].value)
      + EntriesBytes(entries[1..])
  }

  /** How many values a value is made of, itself included. */
  function Nodes(v: Value): nat
    decreases v, 1
  {
    match v
    case Array(items) => 1 + ItemsNodes(items)
    case Object(entries) => 1 + EntriesNodes(entries)
    case _ => 1
  }

  function ItemsNodes(items: seq<Value>): nat
    decreases items, 0
  {
    if items == [] then 0 else Nodes(items[0]) + ItemsNodes(items[1..])
  }

  function EntriesNodes(entries: seq<Entry>): nat
    decreases entries, 0
  {
    if entries == [] then 0 else Nodes(entries[0].value) + EntriesNodes(entries[1..])
  }

  /** The charge dominates the tree: every node of every value pays for two. */
  lemma {:induction false} ChargeCoversNodes(v: Value)
    ensures JsonBytes(v) >= SLOT * Nodes(v)
    decreases v, 1
  {
    match v
    case Array(items) => ItemsCovered(items);
    case Object(entries) => EntriesCovered(entries);
    case _ =>
  }

  lemma {:induction false} ItemsCovered(items: seq<Value>)
    ensures ItemsBytes(items) >= SLOT * ItemsNodes(items)
    decreases items, 0
  {
    if items != [] {
      ChargeCoversNodes(items[0]);
      ItemsCovered(items[1..]);
    }
  }

  /** In an object the key and the tree entry pay on top of the value. */
  lemma {:induction false} EntriesCovered(entries: seq<Entry>)
    ensures EntriesBytes(entries) >= SLOT * EntriesNodes(entries) + (MAP_ENTRY + NODE / 2 + SLOT) * |entries|
    decreases entries, 0
  {
    if entries != [] {
      ChargeCoversNodes(entries[0].value);
      EntriesCovered(entries[1..]);
    }
  }

  // ---- what is charged, counted -----------------------------------------------

  /** How many of each a value is made of, with the bytes of its texts, and of its
      keys at no less than half a node each. */
  datatype Census = Census(plain: nat, texts: nat, arrays: nat, objects: nat, entries: nat, textBytes: nat, keyBytes: nat)
  {
    function Plus(c: Census): Census {
      Census(plain + c.plain, texts + c.texts, arrays + c.arrays, objects + c.objects, entries + c.entries,
             textBytes + c.textBytes, keyBytes + c.keyBytes)
    }
  }

  const NONE := Census(0, 0, 0, 0, 0, 0, 0)

  function CensusOf(v: Value): Census
    decreases v, 1
  {
    match v
    case Array(items) => NONE.(arrays := 1).Plus(ItemsCensus(items))
    case Object(entries) => NONE.(objects := 1).Plus(EntriesCensus(entries))
    case String(text) => NONE.(texts := 1, textBytes := |text|)
    case _ => NONE.(plain := 1)
  }

  function ItemsCensus(items: seq<Value>): Census
    decreases items, 0
  {
    if items == [] then NONE else CensusOf(items[0]).Plus(ItemsCensus(items[1..]))
  }

  function EntriesCensus(entries: seq<Entry>): Census
    decreases entries, 0
  {
    if entries == [] then NONE
    else KeyCensus(|entries[0].key|).Plus(CensusOf(entries[0].value)).Plus(EntriesCensus(entries[1..]))
  }

  function KeyCensus(length: nat): Census {
    NONE.(entries := 1, keyBytes := if length < 16 then 16 else length)
  }

  function Charge(c: Census): nat {
    64 * (c.plain + c.texts) + c.textBytes + 128 * c.arrays + 512 * c.objects + 168 * c.entries + c.keyBytes
  }

  lemma ChargeAdds(a: Census, b: Census)
    ensures Charge(a.Plus(b)) == Charge(a) + Charge(b)
  {
  }

  lemma OneCharged(c: Census)
    ensures Charge(NONE.(arrays := 1).Plus(c)) == 128 + Charge(c)
    ensures Charge(NONE.(objects := 1).Plus(c)) == 512 + Charge(c)
  {
  }

  lemma LeafIsExact(v: Value)
    ensures !v.Array? && !v.Object? ==> JsonBytes(v) == Charge(CensusOf(v))
  {
  }

  /** The charge is exactly so much for each: 64 bytes for a value that holds no
      others and the bytes of a text, 128 for an array, 512 for an object, and 168
      and its key for an entry. */
  lemma {:induction false} ChargeIsExact(v: Value)
    ensures JsonBytes(v) == Charge(CensusOf(v))
    decreases v, 1
  {
    hide Charge, Census.Plus;
    match v
    case Array(items) =>
      ItemsAreExact(items);
      OneCharged(ItemsCensus(items));
    case Object(entries) =>
      EntriesAreExact(entries);
      OneCharged(EntriesCensus(entries));
    case _ => LeafIsExact(v);
  }

  lemma {:induction false} ItemsAreExact(items: seq<Value>)
    ensures ItemsBytes(items) == Charge(ItemsCensus(items))
    decreases items, 0
  {
    if items != [] {
      ChargeIsExact(items[0]);
      ItemsAreExact(items[1..]);
      ChargeAdds(CensusOf(items[0]), ItemsCensus(items[1..]));
    }
  }

  lemma KeyIsExact(length: nat)
    ensures Charge(KeyCensus(length)) == MAP_ENTRY + SLOT + Max(length, NODE / 2)
  {
  }

  lemma ChargeOfThree(a: Census, b: Census, c: Census)
    ensures Charge(a.Plus(b).Plus(c)) == Charge(a) + Charge(b) + Charge(c)
  {
    hide Charge, Census.Plus;
    ChargeAdds(a, b);
    ChargeAdds(a.Plus(b), c);
  }

  lemma EntriesMore(entries: seq<Entry>)
    requires entries != []
    ensures Charge(EntriesCensus(entries))
         == MAP_ENTRY + SLOT + Max(|entries[0].key|, NODE / 2) + Charge(CensusOf(entries[0].value)) + Charge(EntriesCensus(entries[1..]))
  {
    var a, b, c := KeyCensus(|entries[0].key|), CensusOf(entries[0].value), EntriesCensus(entries[1..]);
    assert EntriesCensus(entries) == a.Plus(b).Plus(c);
    hide *;
    KeyIsExact(|entries[0].key|);
    ChargeOfThree(a, b, c);
  }

  lemma {:induction false} EntriesAreExact(entries: seq<Entry>)
    ensures EntriesBytes(entries) == Charge(EntriesCensus(entries))
    decreases entries, 0
  {
    hide Charge, KeyCensus, CensusOf, Max;
    if entries == [] {
      NothingCharged();
    } else {
      ChargeIsExact(entries[0].value);
      EntriesAreExact(entries[1..]);
      EntriesMore(entries);
    }
  }

  lemma NothingCharged()
    ensures Charge(NONE) == 0
  {
  }

  /** And the nodes of a value are all of these: it counts itself, and every value
      below it, once. */
  lemma {:induction false} NodesAreCounted(v: Value)
    ensures var c := CensusOf(v); Nodes(v) == c.plain + c.texts + c.arrays + c.objects
    decreases v, 1
  {
    match v
    case Array(items) => ItemsAreCounted(items);
    case Object(entries) => EntriesAreCounted(entries);
    case _ =>
  }

  lemma {:induction false} ItemsAreCounted(items: seq<Value>)
    ensures var c := ItemsCensus(items); ItemsNodes(items) == c.plain + c.texts + c.arrays + c.objects
    decreases items, 0
  {
    if items != [] {
      NodesAreCounted(items[0]);
      ItemsAreCounted(items[1..]);
    }
  }

  lemma {:induction false} EntriesAreCounted(entries: seq<Entry>)
    ensures var c := EntriesCensus(entries); EntriesNodes(entries) == c.plain + c.texts + c.arrays + c.objects
    decreases entries, 0
  {
    if entries != [] {
      NodesAreCounted(entries[0].value);
      EntriesAreCounted(entries[1..]);
    }
  }
}
