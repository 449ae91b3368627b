/** Record keys that sort in creation order: the base32-sortable codec and the
    generator that must keep its keys increasing whatever the clock does. */
module Tid {
  import opened Wrappers

  const U64: nat := 0x1_0000_0000_0000_0000
  const TOP_BIT: nat := 0x8000_0000_0000_0000

  const NUMERALS: string := "234567"
  const LETTERS: string := "abcdefghijklmnopqrstuvwxyz"
  const S32_ALPHABET: string := NUMERALS + LETTERS

  // ---- digits -----------------------------------------------------------------

  function Pow32(n: nat): nat {
    if n == 0 then 1 else 32 * Pow32(n - 1)
  }

  /** The place of a character in the alphabet. */
  function Digit(c: char): Option<nat> {
    if '2' <= c <= '7' then Some(c as int - '2' as int)
    else if 'a' <= c <= 'z' then Some(c as int - 'a' as int + 6)
    else None
  }

  predicate IsS32(s: string) {
    forall i | 0 <= i < |s| :: Digit(s[i]).Some?
  }

  /** The number a string spells, most significant digit first. */
  function Value(s: string): nat
    requires IsS32(s)
  {
    if s == [] then 0 else 32 * Value(s[..|s| - 1]) + Digit(s[|s| - 1]).value
  }

  /** Bytewise order of strings, as a server sorts keys. */
  predicate Less(a: string, b: string) {
    if b == [] then false
    else if a == [] then true
    else a[0] < b[0] || (a[0] == b[0] && Less(a[1..], b[1..]))
  }

  lemma LettersAscend(i: nat)
    requires i < 26
    ensures |LETTERS| == 26 && LETTERS[i] as int == 'a' as int + i
  {
  }

  lemma NumeralsAscend(i: nat)
    requires i < 6
    ensures |NUMERALS| == 6 && NUMERALS[i] as int == '2' as int + i
  {
  }

  lemma AlphabetAt(d: nat)
    requires d < 32
    ensures |S32_ALPHABET| == 32 && Digit(S32_ALPHABET[d]) == Some(d)
  {
    if d < 6 {
      NumeralsAscend(d);
      assert S32_ALPHABET[d] == NUMERALS[d];
    } else {
      LettersAscend(d - 6);
      assert S32_ALPHABET[d] == LETTERS[d - 6];
    }
  }

  lemma DigitPlace(c: char)
    requires Digit(c).Some?
    ensures |S32_ALPHABET| == 32 && Digit(c).value < 32 && S32_ALPHABET[Digit(c).value] == c
  {
    AlphabetAt(Digit(c).value);
    assert Digit(S32_ALPHABET[Digit(c).value]) == Digit(c);
  }

  /** The digit of a character is its position in the alphabet, and the alphabet
      ascends. */
  lemma DigitIsPosition(c: char)
    ensures match Digit(c)
      case Some(d) => d < 32 == |S32_ALPHABET| && S32_ALPHABET[d] == c
      case None => c !in S32_ALPHABET
    ensures forall e: char :: Digit(c).Some? && Digit(e).Some? ==> (c < e <==> Digit(c).value < Digit(e).value)
  {
    match Digit(c)
    case Some(d) => DigitPlace(c);
    case None =>
      forall i | 0 <= i < |S32_ALPHABET| ensures S32_ALPHABET[i] != c {
        AlphabetLength();
        AlphabetAt(i);
      }
  }

  lemma AlphabetLength()
    ensures |S32_ALPHABET| == 32
  {
  }

  // ---- encoding ---------------------------------------------------------------

  /** The n low digits of a number. */
  function Spell(v: nat, n: nat): (s: string)
    ensures |s| == n
  {
    if n == 0 then ""
    else
      AlphabetLength();
      Spell(v / 32, n - 1) + [S32_ALPHABET[v % 32]]
  }

  /** A key as it is made: thirteen digits, filled in from the last. */
  method EncodeS32Tid(v: nat) returns (key: string)
    requires v < U64
    ensures key == Spell(v, 13)
  {
    AlphabetLength();
    var buf := new char[13];
    var rest, i := v, 13;
    while i > 0
      invariant 0 <= i <= 13
      invariant Spell(v, 13) == Spell(rest, i) + buf[i..]
    {
      i := i - 1;
      buf[i] := S32_ALPHABET[rest % 32];
      rest := rest / 32;
      assert buf[i..] == [buf[i]] + buf[i + 1..];
    }
    key := buf[..];
  }

  // ---- decoding ---------------------------------------------------------------

  /** What a key decodes to, said without a loop. */
  function Decode(s: string): Option<nat> {
    if |s| == 13 && IsS32(s) && Value(s) < TOP_BIT then Some(Value(s)) else None
  }

  lemma {:induction false} ValueGrows(s: string, i: nat)
    requires IsS32(s) && i <= |s|
    ensures IsS32(s[..i]) && Value(s[..i]) <= Value(s)
  {
    if i < |s| {
      var front := s[..|s| - 1];
      ValueGrows(front, i);
      assert front[..i] == s[..i];
    } else {
      assert s[..i] == s;
    }
  }

  /** A key as it is read: digit by digit, giving up at the first character that
      is none and at the first carry out of 64 bits. */
  method DecodeS32Tid(rkey: string) returns (r: Option<nat>)
    ensures r == Decode(rkey)
  {
    if |rkey| != 13 {
      return None;
    }
    var v: nat := 0;
    for i := 0 to |rkey|
      invariant IsS32(rkey[..i]) && v == Value(rkey[..i]) < U64
    {
      var digit := Digit(rkey[i]);
      if digit.None? {
        return None;
      }
      assert rkey[..i + 1][..i] == rkey[..i];
      v := v * 32;
      if v >= U64 {
        TooBig(rkey, i + 1);
        return None;
      }
      v := v + digit.value;
      assert v < U64;  // a multiple of 32 below 2^64 leaves room for any digit
    }
    assert rkey[..|rkey|] == rkey;
    r := if v < TOP_BIT then Some(v) else None;
  }

  lemma TooBig(s: string, i: nat)
    requires i <= |s| && IsS32(s[..i]) && Value(s[..i]) >= TOP_BIT
    ensures Decode(s) == None
  {
    if IsS32(s) {
      ValueGrows(s, i);
    }
  }

  // ---- the codec is an order isomorphism --------------------------------------

  lemma {:induction false} SpellValue(v: nat, n: nat)
    requires v < Pow32(n)
    ensures IsS32(Spell(v, n)) && Value(Spell(v, n)) == v
  {
    if n > 0 {
      var s := Spell(v, n);
      AlphabetAt(v % 32);
      SpellValue(v / 32, n - 1);
      assert s[..n - 1] == Spell(v / 32, n - 1);
    }
  }

  lemma LastDigit(x: nat, d: nat)
    requires d < 32
    ensures (32 * x + d) / 32 == x && (32 * x + d) % 32 == d
  {
  }

  lemma SpellMore(x: nat, c: char, n: nat)
    requires Digit(c).Some?
    ensures Spell(32 * x + Digit(c).value, n + 1) == Spell(x, n) + [c]
  {
    DigitPlace(c);
    LastDigit(x, Digit(c).value);
  }

  lemma LastOfKey(s: string)
    requires IsS32(s) && s != []
    ensures var front, c := s[..|s| - 1], s[|s| - 1];
      && IsS32(front) && Digit(c).Some? && Digit(c).value < 32
      && Value(s) == 32 * Value(front) + Digit(c).value && s == front + [c]
      && Pow32(|s|) == 32 * Pow32(|front|)
  {
    DigitPlace(s[|s| - 1]);
  }

  lemma {:induction false} ValueSpell(s: string)
    requires IsS32(s)
    ensures Value(s) < Pow32(|s|) && Spell(Value(s), |s|) == s
  {
    if s != [] {
      LastOfKey(s);
      var front, c := s[..|s| - 1], s[|s| - 1];
      hide Digit, Value, Pow32, IsS32, Spell;
      ValueSpell(front);
      SpellMore(Value(front), c, |front|);
    }
  }

  lemma Regroup(d: nat, unit: nat, x: nat, last: nat)
    ensures 32 * (d * unit + x) + last == d * (32 * unit) + (32 * x + last)
  {
  }

  lemma {:induction false} HeadValue(s: string)
    requires IsS32(s) && s != []
    ensures IsS32(s[1..]) && Value(s) == Digit(s[0]).value * Pow32(|s| - 1) + Value(s[1..])
  {
    if |s| == 1 {
      assert s[..0] == [] && s[1..] == [];
    } else {
      var front, tail := s[..|s| - 1], s[1..];
      HeadValue(front);
      assert tail[..|tail| - 1] == front[1..] && tail[|tail| - 1] == s[|s| - 1];
      assert Pow32(|s| - 1) == 32 * Pow32(|s| - 2);
      Regroup(Digit(s[0]).value, Pow32(|s| - 2), Value(front[1..]), Digit(s[|s| - 1]).value);
    }
  }

  /** One string is all of the first of another, longer one, or has the lower byte
      where the two first differ. */
  ghost predicate ComesBefore(a: string, b: string) {
    (|a| < |b| && a == b[..|a|]) || exists k: nat :: LowerAt(a, b, k)
  }

  predicate LowerAt(a: string, b: string, k: nat) {
    k < |a| && k < |b| && a[..k] == b[..k] && a[k] < b[k]
  }

  lemma {:induction false} LowerIsLess(a: string, b: string, k: nat)
    requires LowerAt(a, b, k)
    ensures Less(a, b)
  {
    if k > 0 {
      assert a[..k][0] == a[0] && b[..k][0] == b[0];
      assert a[1..][..k - 1] == a[..k][1..] && b[1..][..k - 1] == b[..k][1..];
      LowerIsLess(a[1..], b[1..], k - 1);
    }
  }

  lemma {:induction false} FirstIsLess(a: string, b: string)
    requires |a| < |b| && a == b[..|a|]
    ensures Less(a, b)
  {
    if a != [] {
      assert a[0] == b[0] && a[1..] == b[1..][..|a| - 1];
      FirstIsLess(a[1..], b[1..]);
    }
  }

  lemma {:induction false} LessComesBefore(a: string, b: string)
    requires Less(a, b)
    ensures ComesBefore(a, b)
  {
    if a != [] {
      if a[0] < b[0] {
        assert LowerAt(a, b, 0);
      } else {
        var c, d := a[1..], b[1..];
        LessComesBefore(c, d);
        assert a == [a[0]] + c && b == [b[0]] + d;
        if !(|c| < |d| && c == d[..|c|]) {
          var k: nat :| LowerAt(c, d, k);
          assert a[..k + 1] == [a[0]] + c[..k] && b[..k + 1] == [b[0]] + d[..k];
          assert LowerAt(a, b, k + 1);
        }
      }
    }
  }

  /** The order of keys is that of their bytes. */
  lemma SortsBytewise(a: string, b: string)
    ensures Less(a, b) <==> ComesBefore(a, b)
  {
    if Less(a, b) {
      LessComesBefore(a, b);
    }
    if |a| < |b| && a == b[..|a|] {
      FirstIsLess(a, b);
    }
    forall k: nat | LowerAt(a, b, k) ensures Less(a, b) {
      LowerIsLess(a, b, k);
    }
  }

  /** Among keys of one length, byte order is the order of the numbers. */
  lemma {:induction false} OrderIsValue(a: string, b: string)
    requires |a| == |b| && IsS32(a) && IsS32(b)
    ensures Less(a, b) <==> Value(a) < Value(b)
  {
    if a != [] {
      HeadValue(a);
      HeadValue(b);
      OrderIsValue(a[1..], b[1..]);
      ValueSpell(a[1..]);
      ValueSpell(b[1..]);
      DigitIsPosition(a[0]);
      DigitIsPosition(b[0]);
      HeadDecides(Digit(a[0]).value, Value(a[1..]), Digit(b[0]).value, Value(b[1..]), Pow32(|a| - 1));
    }
  }

  lemma HeadDecides(d: nat, x: nat, e: nat, y: nat, unit: nat)
    requires x < unit && y < unit
    ensures d * unit + x < e * unit + y <==> d < e || (d == e && x < y)
  {
    if d < e {
      assert (d + 1) * unit <= e * unit;
    } else if e < d {
      assert (e + 1) * unit <= d * unit;
    }
  }

  lemma SixtyFiveBits()
    ensures Pow32(13) == 2 * U64
  {
    assert Pow32(5) == 0x200_0000;
    assert Pow32(10) == 0x4_0000_0000_0000;
  }

  /** The codec is an order isomorphism. Decoding undoes encoding below the top
      bit; every string that decodes is the encoding of what it decodes to; every
      other string is no key at all, among them each of those whose 65 bits run
      over; and keys sort as their numbers do over the whole 64 bits. */
  lemma CodecIsIsomorphic(v: nat, w: nat, s: string)
    ensures v < TOP_BIT ==> Decode(Spell(v, 13)) == Some(v)
    ensures TOP_BIT <= v < U64 ==> Decode(Spell(v, 13)) == None
    ensures Decode(s) == Some(v) <==> v < TOP_BIT && s == Spell(v, 13)
    ensures Decode(s) == None <==> forall x: nat | x < TOP_BIT :: s != Spell(x, 13)
    ensures v < U64 && w < U64 ==> (Less(Spell(v, 13), Spell(w, 13)) <==> v < w)
  {
    SixtyFiveBits();
    if v < U64 {
      SpellValue(v, 13);
    }
    if w < U64 {
      SpellValue(w, 13);
    }
    if v < U64 && w < U64 {
      OrderIsValue(Spell(v, 13), Spell(w, 13));
    }
    forall x: nat | x < TOP_BIT && s == Spell(x, 13) ensures Decode(s) == Some(x) {
      SpellValue(x, 13);
    }
    if Decode(s).Some? {
      ValueSpell(s);
    }
  }

  // ---- the generator ----------------------------------------------------------

  const MASK: nat := 0x20_0000_0000_0000

  function Masked(micros: nat): nat {
    micros % MASK
  }

  /** The value after `last` when the clock reads `micros`. */
  function NextRaw(last: nat, clockId: nat, micros: nat): nat {
    var raw := Masked(micros) * 1024 + clockId;
    if raw <= last then last + 1 else raw
  }

  class TidGenerator {
    var last: nat
    const clockId: nat

    ghost predicate Valid()
      reads this
    {
      last < U64 && clockId < 1024
    }

    constructor (nanos: nat)
      ensures Valid() && last == 0 && clockId == nanos % 1024
    {
      last := 0;
      clockId := nanos % 1024;
    }

    /** The next key. The 64-bit counter must not be at its end. */
    method Next(micros: nat) returns (key: string)
      requires Valid() && last < U64 - 1
      modifies this
      ensures Valid()
      ensures last == NextRaw(old(last), clockId, micros)
      ensures key == Spell(last, 13)
      ensures var stamp := micros % 0x20_0000_0000_0000;
        if old(last) < stamp * 1024 + clockId then last / 1024 == stamp && last % 1024 == clockId else last == old(last) + 1
    {
      var raw := Masked(micros) * 1024 + clockId;
      if raw <= last {
        raw := last + 1;
      }
      last := raw;
      key := EncodeS32Tid(raw);
    }
  }

  /** Where the clock leads, the key carries its reading, to 53 bits, and the clock's
      number; where it does not, it is the next after the last. */
  lemma ReadingIsKept(last: nat, clockId: nat, micros: nat)
    requires clockId < 1024
    ensures var raw, stamp := NextRaw(last, clockId, micros), micros % 0x20_0000_0000_0000;
      && raw > last
      && (last / 1024 < stamp ==> raw / 1024 == stamp && raw % 1024 == clockId)
      && (last / 1024 > stamp ==> raw == last + 1)
  {
  }

  /** The value after a run of clock readings. */
  function Raw(clockId: nat, clock: seq<nat>): nat {
    if clock == [] then 0
    else NextRaw(Raw(clockId, clock[..|clock| - 1]), clockId, clock[|clock| - 1])
  }

  /** The furthest any of the readings got. */
  function Furthest(clock: seq<nat>): nat {
    if clock == [] then 0
    else
      var before, now := Furthest(clock[..|clock| - 1]), Masked(clock[|clock| - 1]);
      if before < now then now else before
  }

  /** However the clock runs, the k-th value is never behind the furthest reading
      and never more than k + 1022 counts ahead of it. */
  lemma {:induction false} Drift(clockId: nat, clock: seq<nat>)
    requires clockId < 1024
    ensures Furthest(clock) < MASK
    ensures Furthest(clock) * 1024 <= Raw(clockId, clock)
    ensures clock != [] ==> Raw(clockId, clock) <= Furthest(clock) * 1024 + |clock| + 1022
  {
    if clock != [] {
      Drift(clockId, clock[..|clock| - 1]);
    }
  }

  lemma {:induction false} RawIncreases(clockId: nat, clock: seq<nat>, i: nat, j: nat)
    requires i < j <= |clock|
    ensures Raw(clockId, clock[..i]) < Raw(clockId, clock[..j])
  {
    var front := clock[..j][..j - 1];
    assert front == clock[..j - 1];
    if i < j - 1 {
      RawIncreases(clockId, clock, i, j - 1);
    }
  }

  /** Over any clock readings, stalled or running backwards, the keys strictly
      increase, and each decodes to a timestamp at or after the furthest reading
      so far, ahead of it by at most (k + 1022) / 1024 microseconds at the k-th
      key, for as long as the top bit is not reached; which is as long as that
      bound itself stays below it. */
  lemma KeysIncreaseUnderAnyClock(clockId: nat, clock: seq<nat>, i: nat, k: nat)
    requires clockId < 1024 && 0 < i <= k <= |clock|
    ensures var raw := Raw(clockId, clock[..k]);
      && (i < k && raw < U64 ==> Less(Spell(Raw(clockId, clock[..i]), 13), Spell(raw, 13)))
      && (raw < TOP_BIT ==> Decode(Spell(raw, 13)) == Some(raw))
      && Furthest(clock[..k]) <= raw / 1024 <= Furthest(clock[..k]) + (k + 1022) / 1024
      && (Furthest(clock[..k]) * 1024 + k + 1022 < TOP_BIT ==> raw < TOP_BIT)
      && (k < TOP_BIT ==> raw < U64 - 1)
  {
    var raw := Raw(clockId, clock[..k]);
    Drift(clockId, clock[..k]);
    if i < k {
      RawIncreases(clockId, clock, i, k);
    }
    CodecIsIsomorphic(raw, Raw(clockId, clock[..i]), "");
    CodecIsIsomorphic(Raw(clockId, clock[..i]), raw, "");
  }
}
