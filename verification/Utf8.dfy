/** The text that UTF-8 bytes spell: being well formed is being the encoding of
    some characters (section 3 of RFC 3629). */
module Utf8 {
  import opened Octets

  function EncodeChar(c: char): Bytes {
    var n := c as int;
    if n < 0x80 then [n as byte]
    else if n < 0x800 then [(0xC0 + n / 0x40) as byte, (0x80 + n % 0x40) as byte]
    else if n < 0x1_0000 then
      [(0xE0 + n / 0x1000) as byte, (0x80 + n / 0x40 % 0x40) as byte, (0x80 + n % 0x40) as byte]
    else
      [(0xF0 + n / 0x4_0000) as byte, (0x80 + n / 0x1000 % 0x40) as byte,
       (0x80 + n / 0x40 % 0x40) as byte, (0x80 + n % 0x40) as byte]
  }

  function Encode(text: string): Bytes {
    if text == [] then [] else EncodeChar(text[0]) + Encode(text[1..])
  }

  /** One well-formed sequence of bytes. */
  predicate IsOne(s: Bytes) {
    && s != [] && Width(s[0]) == |s|
    && (|s| >= 2 ==> Follows(s[0], s[1]))
    && (|s| >= 3 ==> IsContinuation(s[2]))
    && (|s| == 4 ==> IsContinuation(s[3]))
  }

  lemma OneFirst(s: Bytes, rest: Bytes)
    requires IsOne(s)
    ensures IsUtf8(s + rest) <==> IsUtf8(rest)
  {
    assert (s + rest)[|s|..] == rest;
  }

  lemma CharIsOne(c: char)
    ensures IsOne(EncodeChar(c))
  {
    var n := c as int;
    if 0x800 <= n < 0x1_0000 {
      assert n / 0x1000 == 0 ==> n / 0x40 % 0x40 >= 0x20;
      assert n / 0x1000 == 0xD ==> n / 0x40 % 0x40 < 0x20;
    } else if n >= 0x1_0000 {
      assert n / 0x4_0000 == 0 ==> n / 0x1000 % 0x40 >= 0x10;
      assert n / 0x4_0000 == 4 ==> n / 0x1000 % 0x40 < 0x10;
    }
  }

  lemma OneIsChar(s: Bytes) returns (c: char)
    requires IsOne(s)
    ensures EncodeChar(c) == s
  {
    if |s| == 1 {
      c := s[0] as int as char;
    } else if |s| == 2 {
      c := ((s[0] as int - 0xC0) * 0x40 + (s[1] as int - 0x80)) as char;
    } else if |s| == 3 {
      c := OfThree(s[0], s[1], s[2]);
      assert s == [s[0], s[1], s[2]];
    } else {
      c := OfFour(s[0], s[1], s[2], s[3]);
      assert s == [s[0], s[1], s[2], s[3]];
    }
  }

  lemma OfThree(lead: byte, a: byte, b: byte) returns (c: char)
    requires IsOne([lead, a, b])
    ensures EncodeChar(c) == [lead, a, b]
  {
    var x, y, z := lead as int - 0xE0, a as int - 0x80, b as int - 0x80;
    assert [lead, a, b][1] == a && [lead, a, b][2] == b;
    var n := x * 0x1000 + y * 0x40 + z;
    assert 0x800 <= n < 0xD800 || 0xE000 <= n < 0x1_0000;
    assert n / 0x1000 == x && n / 0x40 % 0x40 == y && n % 0x40 == z;
    c := n as char;
  }

  /** The digits, to base 64, of a number put together from them. */
  lemma Digits(w: nat, x: nat, y: nat, z: nat)
    requires x < 0x40 && y < 0x40 && z < 0x40
    ensures var n := w * 0x4_0000 + x * 0x1000 + y * 0x40 + z;
      n / 0x4_0000 == w && n / 0x1000 % 0x40 == x && n / 0x40 % 0x40 == y && n % 0x40 == z
  {
    var n := w * 0x4_0000 + x * 0x1000 + y * 0x40 + z;
    assert n / 0x40 == w * 0x1000 + x * 0x40 + y;
    assert n / 0x1000 == w * 0x40 + x;
  }

  lemma OfFour(lead: byte, a: byte, b: byte, d: byte) returns (c: char)
    requires IsOne([lead, a, b, d])
    ensures EncodeChar(c) == [lead, a, b, d]
  {
    var s := [lead, a, b, d];
    assert s[1] == a && s[2] == b && s[3] == d;
    var w, x, y, z := lead as int - 0xF0, a as int - 0x80, b as int - 0x80, d as int - 0x80;
    var n := w * 0x4_0000 + x * 0x1000 + y * 0x40 + z;
    assert 0x1_0000 <= n < 0x11_0000;
    Digits(w, x, y, z);
    hide IsOne;
    c := n as char;
  }

  lemma {:induction false} EncodingIsUtf8(text: string)
    ensures IsUtf8(Encode(text))
  {
    if text != [] {
      CharIsOne(text[0]);
      EncodingIsUtf8(text[1..]);
      OneFirst(EncodeChar(text[0]), Encode(text[1..]));
    }
  }

  lemma {:induction false} Utf8IsEncoding(s: Bytes) returns (text: string)
    requires IsUtf8(s)
    ensures Encode(text) == s
    decreases |s|
  {
    if s == [] {
      text := [];
    } else {
      var w := Width(s[0]);
      assert IsOne(s[..w]);
      var c := OneIsChar(s[..w]);
      var rest := Utf8IsEncoding(s[w..]);
      text := [c] + rest;
      assert text[1..] == rest && s == s[..w] + s[w..];
    }
  }

  /** Bytes are well formed if and only if they encode some text. */
  lemma Utf8ExactlyWhen(s: Bytes)
    ensures IsUtf8(s) <==> exists text :: Encode(text) == s
  {
    if IsUtf8(s) {
      var text := Utf8IsEncoding(s);
      assert Encode(text) == s;
    }
    forall text | Encode(text) == s ensures IsUtf8(s) {
      EncodingIsUtf8(text);
    }
  }
}
