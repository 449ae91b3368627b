/** Attribute text as OPML carries it: escaped on the way out, and on the way in
    un-escaped by replacing one entity after another (section 4.6 of XML 1.0). */
module OpmlText {
  import opened Wrappers

  // ---- escaping ---------------------------------------------------------------

  function EscapedChar(c: char): string {
    match c
    case '&' => "&amp;"
    case '<' => "&lt;"
    case '>' => "&gt;"
    case '"' => "&quot;"
    case '\'' => "&#39;"
    case _ => [c]
  }

  function Escaped(s: string): string {
    if s == [] then [] else EscapedChar(s[0]) + Escaped(s[1..])
  }

  lemma {:induction false} EscapedAppend(a: string, b: string)
    ensures Escaped(a + b) == Escaped(a) + Escaped(b)
  {
    if a == [] {
      assert a + b == b;
    } else {
      assert (a + b)[1..] == a[1..] + b;
      EscapedAppend(a[1..], b);
    }
  }

  method EscapeAttr(s: string) returns (out: string)
    ensures out == Escaped(s)
  {
    out := "";
    for i := 0 to |s|
      invariant out == Escaped(s[..i])
    {
      assert s[..i + 1] == s[..i] + [s[i]] && [s[i]][1..] == [];
      EscapedAppend(s[..i], [s[i]]);
      match s[i]
      case '&' => out := out + "&amp;";
      case '<' => out := out + "&lt;";
      case '>' => out := out + "&gt;";
      case '"' => out := out + "&quot;";
      case '\'' => out := out + "&#39;";
      case c => out := out + [c];
    }
    assert s[..|s|] == s;
  }

  predicate IsSpecial(c: char) {
    c == '&' || c == '<' || c == '>' || c == '"' || c == '\''
  }

  /** Escaped text holds nothing that could end a value or a tag. */
  lemma {:induction false} EscapedIsInert(s: string)
    ensures forall c | c in Escaped(s) :: c == '&' || !IsSpecial(c)
  {
    if s != [] {
      EscapedIsInert(s[1..]);
    }
  }

  /** Text with nothing to escape is left as it is, and only such text is without
      an ampersand once escaped. */
  lemma {:induction false} PlainIsUnchanged(s: string)
    ensures (forall c | c in s :: !IsSpecial(c)) ==> Escaped(s) == s
    ensures '&' !in Escaped(s) ==> forall c | c in s :: !IsSpecial(c)
  {
    if s != [] {
      PlainIsUnchanged(s[1..]);
      assert s == [s[0]] + s[1..];
      assert IsSpecial(s[0]) ==> EscapedChar(s[0])[0] == '&' && EscapedChar(s[0])[0] in Escaped(s);
      assert forall c | c in Escaped(s[1..]) :: c in Escaped(s);
    }
  }

  // ---- un-escaping ------------------------------------------------------------

  datatype Entity = Entity(name: string, c: char)

  const LT := Entity("&lt;", '<')
  const GT := Entity("&gt;", '>')
  const QUOT := Entity("&quot;", '"')
  const NUM39 := Entity("&#39;", '\'')
  const APOS := Entity("&apos;", '\'')
  const AMP := Entity("&amp;", '&')

  const ENTITIES: seq<Entity> := [LT, GT, QUOT, NUM39, APOS, AMP]

  /** Every occurrence of a pattern replaced, from the left. */
  function Replaced(s: string, pattern: string, c: char): string
    requires pattern != []
    decreases |s|
  {
    if s == [] then []
    else if pattern <= s then [c] + Replaced(s[|pattern|..], pattern, c)
    else [s[0]] + Replaced(s[1..], pattern, c)
  }

  /** The first k replacements, one after another. */
  function Chained(s: string, k: nat): string
    requires k <= |ENTITIES|
  {
    if k == 0 then s
    else
      NamesAreNonempty();
      Replaced(Chained(s, k - 1), ENTITIES[k - 1].name, ENTITIES[k - 1].c)
  }

  lemma NamesAreNonempty()
    ensures forall i | 0 <= i < |ENTITIES| :: ENTITIES[i].name != []
  {
  }

  /** All six: `&amp;` last. */
  function Unescape(s: string): string {
    if '&' !in s then s else Chained(s, 6)
  }

  /** The shape every entity has: an ampersand, letters, and one semicolon. */
  predicate WellFormed(e: Entity) {
    && |e.name| >= 2 && e.name[0] == '&' && e.name[|e.name| - 1] == ';'
    && forall i | 0 < i < |e.name| :: e.name[i] != '&' && (e.name[i] == ';' ==> i == |e.name| - 1)
  }

  predicate Decodable(entities: seq<Entity>) {
    forall e | e in entities :: WellFormed(e)
  }

  /** The first of the entities that a text starts with. */
  function Leading(s: string, entities: seq<Entity>): (r: Option<Entity>)
    ensures r.Some? ==> r.value in entities && r.value.name <= s
    ensures r.None? ==> forall e | e in entities :: !(e.name <= s)
  {
    if entities == [] then None
    else if entities[0].name <= s then Some(entities[0])
    else Leading(s, entities[1..])
  }

  /** Decoding in one pass: an entity becomes its character, anything else stays. */
  function OnePass(s: string, entities: seq<Entity>): string
    requires Decodable(entities)
    decreases |s|
  {
    if s == [] then []
    else
      match Leading(s, entities)
      case Some(e) => [e.c] + OnePass(s[|e.name|..], entities)
      case None => [s[0]] + OnePass(s[1..], entities)
  }

  /** Text without an ampersand is copied. */
  lemma {:induction false} CopiesPlain(q: string, t: string, entities: seq<Entity>)
    requires Decodable(entities) && '&' !in q
    ensures OnePass(q + t, entities) == q + OnePass(t, entities)
  {
    if q == [] {
      assert q + t == t;
    } else {
      assert (q + t)[1..] == q[1..] + t;
      CopiesPlain(q[1..], t, entities);
    }
  }

  /** Decoding does not write anything that could pass for part of an entity yet
      to be decoded. */
  lemma {:induction false} NothingForged(q: string, t: string, entities: seq<Entity>)
    requires Decodable(entities) && '&' !in q
    requires forall e | e in entities :: e.c !in q
    requires q <= OnePass(t, entities)
    ensures q <= t
    decreases |t|
  {
    if q != [] {
      var decoded := OnePass(t, entities);
      assert decoded[0] == q[0];
      assert Leading(t, entities).None?;
      assert decoded[1..] == OnePass(t[1..], entities);
      assert q[1..] <= decoded[1..];
      NothingForged(q[1..], t[1..], entities);
    }
  }

  lemma LeadingMore(s: string, entities: seq<Entity>, e: Entity)
    ensures Leading(s, entities + [e]) ==
      if Leading(s, entities).Some? then Leading(s, entities) else if e.name <= s then Some(e) else None
  {
    if entities == [] {
      assert entities + [e] == [e] && [e][1..] == [];
    } else {
      assert (entities + [e])[1..] == entities[1..] + [e];
      LeadingMore(s, entities[1..], e);
    }
  }

  /** Where the pass decodes, the new entity is not looked for. */
  lemma SkipsDecoded(rest: string, entities: seq<Entity>, d: Entity, e: Entity)
    requires Decodable(entities) && WellFormed(e) && d.c != '&'
    ensures Replaced([d.c] + OnePass(rest, entities), e.name, e.c) == [d.c] + Replaced(OnePass(rest, entities), e.name, e.c)
  {
    assert ([d.c] + OnePass(rest, entities))[1..] == OnePass(rest, entities);
  }

  lemma OnlyAmpersand(e: Entity)
    requires WellFormed(e)
    ensures e.name != [] && '&' !in e.name[1..]
  {
  }

  lemma CopiesFirst(s: string, entities: seq<Entity>)
    requires Decodable(entities) && s != [] && Leading(s, entities).None?
    ensures OnePass(s, entities) == [s[0]] + OnePass(s[1..], entities)
  {
  }

  /** Where the new entity stands in the text, it still stands after the pass. */
  lemma StillStands(s: string, entities: seq<Entity>, e: Entity)
    requires Decodable(entities) && WellFormed(e) && e.name <= s && Leading(s, entities).None?
    ensures OnePass(s, entities) == e.name + OnePass(s[|e.name|..], entities)
  {
    hide Leading, Decodable, OnePass;
    OnlyAmpersand(e);
    CopiesFirst(s, entities);
    hide WellFormed;
    var rest := s[|e.name|..];
    assert s[1..] == e.name[1..] + rest;
    CopiesPlain(e.name[1..], rest, entities);
    assert e.name == [s[0]] + e.name[1..];
  }

  lemma PrefixSplits(p: string, c: char, x: string)
    requires p != []
    ensures p <= [c] + x <==> p[0] == c && p[1..] <= x
  {
    assert p == [p[0]] + p[1..];
    assert ([c] + x)[1..] == x;
  }

  /** Where it does not, the pass has not made it up. */
  lemma NotMadeUp(s: string, entities: seq<Entity>, e: Entity)
    requires Decodable(entities) && WellFormed(e) && s != [] && !(e.name <= s) && Leading(s, entities).None?
    requires forall d | d in entities :: d.c !in e.name
    ensures !(e.name <= OnePass(s, entities))
  {
    PrefixSplits(e.name, s[0], OnePass(s[1..], entities));
    PrefixSplits(e.name, s[0], s[1..]);
    assert s == [s[0]] + s[1..];
    if e.name[1..] <= OnePass(s[1..], entities) {
      NothingForged(e.name[1..], s[1..], entities);
    }
  }

  /** One more replacement after a pass is a pass with one more entity. */
  lemma {:induction false} OneMoreReplacement(s: string, entities: seq<Entity>, e: Entity)
    requires Decodable(entities) && WellFormed(e) && Decodable(entities + [e])
    requires forall d | d in entities :: d.c != '&' && d.c !in e.name
    ensures Replaced(OnePass(s, entities), e.name, e.c) == OnePass(s, entities + [e])
    decreases |s|
  {
    if s != [] {
      LeadingMore(s, entities, e);
      match Leading(s, entities)
      case Some(d) =>
        SkipsDecoded(s[|d.name|..], entities, d, e);
        OneMoreReplacement(s[|d.name|..], entities, e);
      case None =>
        if e.name <= s {
          StillStands(s, entities, e);
          var rest := OnePass(s[|e.name|..], entities);
          assert (e.name + rest)[|e.name|..] == rest;
          OneMoreReplacement(s[|e.name|..], entities, e);
        } else {
          NotMadeUp(s, entities, e);
          OneMoreReplacement(s[1..], entities, e);
          assert ([s[0]] + OnePass(s[1..], entities))[1..] == OnePass(s[1..], entities);
        }
    }
  }

  lemma {:induction false} NoEntities(s: string)
    ensures OnePass(s, []) == s
  {
    if s != [] {
      NoEntities(s[1..]);
    }
  }

  lemma BracketsAreWellFormed()
    ensures WellFormed(LT) && WellFormed(GT) && WellFormed(AMP)
  {
  }

  lemma QuotesAreWellFormed()
    ensures WellFormed(QUOT) && WellFormed(NUM39) && WellFormed(APOS)
  {
  }

  lemma EntitiesAreWellFormed()
    ensures Decodable(ENTITIES)
  {
    BracketsAreWellFormed();
    QuotesAreWellFormed();
    hide WellFormed;
    assert forall e | e in ENTITIES :: e in {LT, GT, QUOT, NUM39, APOS, AMP};
  }

  /** One replacement of the chain: the k entities before it are decoded, and
      none of them can be part of it. */
  lemma ChainStep(s: string, k: nat)
    requires k < 6
    ensures Decodable(ENTITIES[..k]) && Decodable(ENTITIES[..k + 1]) && ENTITIES[k].name != []
    ensures Replaced(OnePass(s, ENTITIES[..k]), ENTITIES[k].name, ENTITIES[k].c) == OnePass(s, ENTITIES[..k + 1])
  {
    hide OnePass, Replaced, Leading;
    EntitiesAreWellFormed();
    assert forall e | e in ENTITIES :: WellFormed(e);
    assert ENTITIES[k] in ENTITIES;
    assert ENTITIES[..k + 1] == ENTITIES[..k] + [ENTITIES[k]];
    forall d | d in ENTITIES[..k] ensures d.c != '&' && d.c !in ENTITIES[k].name {
      assert d in {LT, GT, QUOT, NUM39, APOS};
    }
    OneMoreReplacement(s, ENTITIES[..k], ENTITIES[k]);
  }

  lemma {:induction false} ChainIsPass(s: string, k: nat)
    requires k <= 6
    ensures Decodable(ENTITIES[..k]) && Chained(s, k) == OnePass(s, ENTITIES[..k])
  {
    hide OnePass, Replaced, Leading;
    if k == 0 {
      NoEntities(s);
      assert ENTITIES[..0] == [];
    } else {
      ChainIsPass(s, k - 1);
      ChainStep(s, k - 1);
    }
  }

  /** On every input, the chained replacements decode each entity once, where it
      stands: nothing is decoded twice and nothing is forged. */
  lemma UnescapeIsOnePass(s: string)
    ensures Decodable(ENTITIES) && Unescape(s) == OnePass(s, ENTITIES)
  {
    EntitiesAreWellFormed();
    if '&' !in s {
      assert s + [] == s;
      CopiesPlain(s, [], ENTITIES);
    } else {
      ChainIsPass(s, 6);
      assert ENTITIES[..6] == ENTITIES;
    }
  }

  // ---- each undoes the other --------------------------------------------------

  /** An entity name is no prefix of text that starts with another. */
  lemma OneNameOnly(d: Entity, e: Entity, t: string)
    requires WellFormed(d) && WellFormed(e) && d.name <= e.name + t
    ensures d.name == e.name
  {
    assert |d.name| <= |e.name| ==> e.name[|d.name| - 1] == ';';
    assert |e.name| <= |d.name| ==> d.name[|e.name| - 1] == ';';
  }

  lemma DecodesEntity(e: Entity, t: string)
    requires e in ENTITIES
    ensures Decodable(ENTITIES) && OnePass(e.name + t, ENTITIES) == [e.c] + OnePass(t, ENTITIES)
  {
    EntitiesAreWellFormed();
    var found := Leading(e.name + t, ENTITIES);
    assert e.name <= e.name + t;
    OneNameOnly(found.value, e, t);
    NamesDiffer(found.value, e);
    assert (e.name + t)[|e.name|..] == t;
  }

  /** The five entities that XML predefines, and the number some writers use. */
  lemma PredefinedEntities(t: string)
    ensures Decodable(ENTITIES)
    ensures OnePass("&lt;" + t, ENTITIES) == ['<'] + OnePass(t, ENTITIES)
    ensures OnePass("&gt;" + t, ENTITIES) == ['>'] + OnePass(t, ENTITIES)
    ensures OnePass("&amp;" + t, ENTITIES) == ['&'] + OnePass(t, ENTITIES)
    ensures OnePass("&quot;" + t, ENTITIES) == ['"'] + OnePass(t, ENTITIES)
    ensures OnePass("&apos;" + t, ENTITIES) == ['\''] + OnePass(t, ENTITIES)
    ensures OnePass("&#39;" + t, ENTITIES) == ['\''] + OnePass(t, ENTITIES)
  {
    hide OnePass, Decodable;
    EntitiesAreWellFormed();
    DecodesEntity(LT, t);
    DecodesEntity(GT, t);
    DecodesEntity(AMP, t);
    DecodesEntity(QUOT, t);
    DecodesEntity(APOS, t);
    DecodesEntity(NUM39, t);
  }

  lemma NamesDiffer(d: Entity, e: Entity)
    requires d in ENTITIES && e in ENTITIES && d.name == e.name
    ensures d == e
  {
    assert forall x | x in ENTITIES :: x in {LT, GT, QUOT, NUM39, APOS, AMP};
    assert |d.name| == |e.name|;
    assert d.name[1] == e.name[1];
    assert |d.name| > 2 ==> d.name[2] == e.name[2];
  }

  lemma DecodesChar(c: char, t: string)
    ensures Decodable(ENTITIES) && OnePass(EscapedChar(c) + t, ENTITIES) == [c] + OnePass(t, ENTITIES)
  {
    hide OnePass, Decodable;
    EntitiesAreWellFormed();
    match c
    case '&' => DecodesEntity(AMP, t);
    case '<' => DecodesEntity(LT, t);
    case '>' => DecodesEntity(GT, t);
    case '"' => DecodesEntity(QUOT, t);
    case '\'' => DecodesEntity(NUM39, t);
    case _ => CopiesPlain([c], t, ENTITIES);
  }

  lemma {:induction false} OnePassUndoesEscape(s: string)
    ensures Decodable(ENTITIES) && OnePass(Escaped(s), ENTITIES) == s
  {
    EntitiesAreWellFormed();
    if s != [] {
      hide OnePass, EscapedChar, Decodable;
      OnePassUndoesEscape(s[1..]);
      DecodesChar(s[0], Escaped(s[1..]));
      assert s == [s[0]] + s[1..];
    }
  }

  /** Un-escaping what was escaped gives it back, whatever it was. */
  lemma UnescapeUndoesEscape(s: string)
    ensures Unescape(Escaped(s)) == s
  {
    UnescapeIsOnePass(Escaped(s));
    OnePassUndoesEscape(s);
  }
}
