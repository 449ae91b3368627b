/** Bodies cut so that what is stored fits a bound: sanitized markup, whose size
    after a cut nobody can predict, and escaped plain text, whose size is exact. */
module BoundedHtml {
  import opened Wrappers
  import opened Octets
  import opened Utf8

  // ---- sanitized markup -------------------------------------------------------

  /** A cleaner of markup: it turns text into text, and nothing into nothing.
      About how much it grows or shrinks what it is given, nothing is known. */
  type Sanitizer = Bytes -> Bytes

  ghost predicate IsSanitizer(clean: Sanitizer) {
    clean([]) == [] && forall s | IsUtf8(s) :: IsUtf8(clean(s))
  }

  const SANITIZE_BOUND_ATTEMPTS: nat := 14

  /** Where the first cut is made: under the bound, with a margin for the closing
      tags the cut leaves out. */
  function FirstCut(text: Bytes, max: nat): nat {
    var margin := Max(max / 64, 64);
    FloorCharBoundary(text, if max < margin then 0 else max - margin)
  }

  /** A bisection in progress: cutting at `lo` fits, cutting at `hi` does not, and
      both are places where the text may be cut. */
  ghost predicate Brackets(clean: Sanitizer, text: Bytes, max: nat, lo: nat, hi: nat) {
    && lo < hi <= |text|
    && IsCharBoundary(text, lo) && IsCharBoundary(text, hi)
    && |clean(text[..lo])| <= max < |clean(text[..hi])|
  }

  function Pow2(n: nat): (p: nat)
    ensures p > 0
  {
    if n == 0 then 1 else 2 * Pow2(n - 1)
  }

  /** After so many passes the gap, seven bytes aside, is down to the bound's
      share: seven because a midpoint can fall inside a character. */
  ghost predicate WithinShare(gap: int, passes: nat, max: nat) {
    (gap - 7) * Pow2(passes) <= max
  }

  /** The next place to try, strictly between the two ends: the midpoint, moved
      back to a boundary, or past the character it falls in; `high` when there is
      none. Either part it leaves is about half the gap. */
  method NextProbe(text: Bytes, low: nat, high: nat) returns (cut: nat)
    requires IsUtf8(text) && low < high <= |text| && IsCharBoundary(text, low)
    ensures low < cut <= |text| && IsCharBoundary(text, cut)
    ensures high - low > 7 ==> cut < high
    ensures cut < high ==> cut - low <= (high - low) / 2 || high - low <= 7
    ensures cut < high ==> high - cut <= (high - low + 1) / 2 + 3
    ensures high <= cut ==> forall j: nat | low < j < high :: !IsCharBoundary(text, j)
  {
    hide IsUtf8;
    var middle := low + (high - low) / 2;
    cut := FloorCharBoundary(text, middle);
    FloorIsNear(text, middle);
    if cut <= low {
      cut := CeilCharBoundary(text, low + 1);
    }
  }

  /** The gap is within a 1024th of the bound, or within seven bytes. */
  predicate Near(gap: nat, max: nat) {
    gap <= Max(max / 1024, 7)
  }

  /** The bisection: it stops when the gap is down to the resolution, when no
      boundary is left to try, or after its last pass. */
  method Bisect(text: Bytes, max: nat, clean: Sanitizer, first: nat) returns (best: Bytes, ghost lo: nat, ghost hi: nat)
    requires IsSanitizer(clean) && IsUtf8(text)
    requires first <= max && first <= |text| && Brackets(clean, text, max, 0, first)
    ensures Brackets(clean, text, max, lo, hi) && hi <= first && hi <= |text|
    ensures lo <= hi && best == clean(text[..lo]) && IsUtf8(best) && |best| <= max
    ensures Near(hi - lo, max)
  {
    hide IsUtf8, IsCharBoundary, WithinShare, Brackets, Near;
    var low, high := 0, first;
    NoPassYet(clean, text, first, max);
    best := [];
    var resolution := Max(max / 1024, 1);
    for pass := 0 to SANITIZE_BOUND_ATTEMPTS
      invariant low <= high <= first && Brackets(clean, text, max, low, high)
      invariant best == clean(text[..low]) && IsUtf8(best) && |best| <= max
      invariant WithinShare(high - low, pass, max)
    {
      BracketEnds(clean, text, max, low, high);
      if high - low <= resolution {
        Fine(high - low, max);
        return best, low, high;
      }
      var cut := NextProbe(text, low, high);
      if cut >= high {
        Fine(high - low, max);
        return best, low, high;
      }
      PrefixIsUtf8(text, cut);
      var probe := clean(text[..cut]);
      PassHalves(low, high, cut, pass, max);
      BracketMoves(clean, text, max, low, high, cut);
      if |probe| <= max {
        low := cut;
        best := probe;
      } else {
        high := cut;
      }
    }
    Resolved(high - low, max);
    return best, low, high;
  }

  lemma Fine(gap: nat, max: nat)
    ensures gap <= Max(max / 1024, 1) || gap <= 7 ==> Near(gap, max)
  {
  }

  /** Markup sanitized into at most `max` bytes. When the whole does not fit, the
      answer is a sanitized prefix: the first cut if it fits, and otherwise the
      lower end of a bisection, whose upper end does not fit. Its fourteen passes
      always bring the two ends within a 1024th of the bound, or within seven
      bytes, whatever the sanitizer does and wherever characters straddle. */
  method SanitizeHtmlBounded(raw: Bytes, max: nat, clean: Sanitizer)
    returns (out: Bytes, ghost first: nat, ghost lo: nat, ghost hi: nat)
    requires IsSanitizer(clean) && IsUtf8(raw)
    ensures |out| <= max && IsUtf8(out)
    ensures |clean(raw)| <= max ==> out == clean(raw)
    ensures |clean(raw)| > max ==>
      var text := clean(raw);
      && IsFirstCut(text, max, first)
      && if |clean(text[..first])| <= max then out == clean(text[..first])
         else
           && hi <= first && Brackets(clean, text, max, lo, hi)
           && out == clean(text[..lo])
           && hi - lo <= Max(max / 1024, 7)
  {
    hide IsUtf8, FloorCharBoundary, CeilCharBoundary;
    first, lo, hi := 0, 0, 0;
    var text := clean(raw);
    if |text| <= max {
      return text, 0, 0, 0;
    }
    var cut := FirstCut(text, max);
    first := cut;
    CutsUnderTheBound(text, max);
    PrefixIsUtf8(text, cut);
    var again := clean(text[..cut]);
    if |again| <= max {
      return again, first, 0, 0;
    }
    BracketStarts(clean, text, max, cut);
    out, lo, hi := Bisect(text, max, clean, cut);
  }

  /** Where the first cut is: at the last boundary that is a 64th of the bound, and
      at least 64 bytes, under it; which is no more than three bytes further down.
      Under a bound of less than that margin nothing is left. */
  ghost predicate IsFirstCut(text: Bytes, max: nat, first: nat) {
    && first <= |text| && IsCharBoundary(text, first)
    && (max < 64 ==> first == 0)
    && (max >= 64 ==>
          var under := if max / 64 < 64 then max - 64 else max - max / 64;
          && under - 3 <= first <= under
          && forall j: nat | first < j <= under :: !IsCharBoundary(text, j))
  }

  lemma CutsUnderTheBound(text: Bytes, max: nat)
    requires IsUtf8(text) && |text| > max
    ensures IsFirstCut(text, max, FirstCut(text, max))
  {
    hide IsUtf8;
    var margin := Max(max / 64, 64);
    FloorIsNear(text, if max < margin then 0 else max - margin);
  }

  lemma BracketStarts(clean: Sanitizer, text: Bytes, max: nat, first: nat)
    requires IsSanitizer(clean) && first <= |text| && IsCharBoundary(text, first) && |clean(text[..first])| > max
    ensures Brackets(clean, text, max, 0, first) && clean(text[..0]) == []
  {
    assert text[..0] == [] && text[..first] != [];
  }

  lemma BracketEnds(clean: Sanitizer, text: Bytes, max: nat, low: nat, high: nat)
    requires Brackets(clean, text, max, low, high)
    ensures low < high <= |text| && IsCharBoundary(text, low) && |clean(text[..low])| <= max
  {
  }

  lemma BracketMoves(clean: Sanitizer, text: Bytes, max: nat, low: nat, high: nat, cut: nat)
    requires Brackets(clean, text, max, low, high) && low < cut < high && IsCharBoundary(text, cut)
    ensures if |clean(text[..cut])| <= max then Brackets(clean, text, max, cut, high) else Brackets(clean, text, max, low, cut)
  {
  }

  lemma NoPassYet(clean: Sanitizer, text: Bytes, gap: nat, max: nat)
    requires IsSanitizer(clean) && gap <= max
    ensures WithinShare(gap, 0, max) && IsUtf8([]) && clean(text[..0]) == []
  {
    assert text[..0] == [];
  }

  /** A pass that at least halves what the gap has over seven bytes keeps it
      under the bound's share. */
  lemma Halves(gap: int, next: int, pass: nat, max: nat)
    requires WithinShare(gap, pass, max)
    requires 2 * (next - 7) <= gap - 7 || next <= 7
    ensures WithinShare(next, pass + 1, max)
  {
    var p := Pow2(pass);
    if next <= 7 {
      assert (next - 7) * (2 * p) <= 0;
    } else {
      assert (next - 7) * (2 * p) == (2 * (next - 7)) * p;
      Times(2 * (next - 7), gap - 7, p);
    }
  }

  /** Whichever end a probe moves, the pass halves the gap. */
  lemma PassHalves(low: nat, high: nat, cut: nat, pass: nat, max: nat)
    requires low < cut < high && WithinShare(high - low, pass, max)
    requires cut - low <= (high - low) / 2 || high - low <= 7
    requires high - cut <= (high - low + 1) / 2 + 3
    ensures WithinShare(cut - low, pass + 1, max) && WithinShare(high - cut, pass + 1, max)
  {
    hide WithinShare;
    Halves(high - low, cut - low, pass, max);
    Halves(high - low, high - cut, pass, max);
  }

  lemma Times(a: int, b: int, p: nat)
    requires a <= b
    ensures a * p <= b * p
  {
  }

  lemma Resolved(gap: nat, max: nat)
    requires WithinShare(gap, SANITIZE_BOUND_ATTEMPTS, max)
    ensures Near(gap, max)
  {
    assert Pow2(14) == 16384;
  }

  // ---- escaped plain text -----------------------------------------------------

  /** The bytes a character takes in UTF-8. */
  function Utf8Len(c: char): nat {
    var point := c as int;
    if point < 0x80 then 1 else if point < 0x800 then 2 else if point < 0x1_0000 then 3 else 4
  }

  lemma Utf8LenIsLength(c: char)
    ensures Utf8Len(c) == |EncodeChar(c)|
  {
  }

  function Size(s: string): nat {
    if s == [] then 0 else Utf8Len(s[0]) + Size(s[1..])
  }

  /** Every occurrence of one character replaced. */
  function Replace(s: string, c: char, with: string): string {
    if s == [] then [] else (if s[0] == c then with else [s[0]]) + Replace(s[1..], c, with)
  }

  /** Plain text as markup: the four replacements, one after another. */
  function PlainTextToHtml(raw: string): string {
    var escaped := Replace(Replace(Replace(raw, '&', "&amp;"), '<', "&lt;"), '>', "&gt;");
    Replace(escaped, '\n', "<br>")
  }

  /** What one character becomes. */
  function EscapeChar(c: char): string {
    match c
    case '&' => "&amp;"
    case '<' => "&lt;"
    case '>' => "&gt;"
    case '\n' => "<br>"
    case _ => [c]
  }

  function Escape(s: string): string {
    if s == [] then [] else EscapeChar(s[0]) + Escape(s[1..])
  }

  lemma {:induction false} ReplaceAppend(a: string, b: string, c: char, with: string)
    ensures Replace(a + b, c, with) == Replace(a, c, with) + Replace(b, c, with)
  {
    if a == [] {
      assert a + b == b;
    } else {
      assert (a + b)[1..] == a[1..] + b;
      ReplaceAppend(a[1..], b, c, with);
    }
  }

  /** Text without the character is left as it is. */
  lemma {:induction false} ReplaceAbsent(s: string, c: char, with: string)
    requires c !in s
    ensures Replace(s, c, with) == s
  {
    if s != [] {
      ReplaceAbsent(s[1..], c, with);
    }
  }

  lemma ReplaceOne(x: char, c: char, with: string)
    ensures Replace([x], c, with) == if x == c then with else [x]
  {
    assert [x][1..] == [];
  }

  lemma OneCharEscapes(x: char)
    ensures PlainTextToHtml([x]) == EscapeChar(x)
  {
    hide Replace;
    ReplaceOne(x, '&', "&amp;");
    ReplaceOne(x, '<', "&lt;");
    ReplaceOne(x, '>', "&gt;");
    ReplaceOne(x, '\n', "<br>");
    ReplaceAbsent("&amp;", '<', "&lt;");
    ReplaceAbsent("&amp;", '>', "&gt;");
    ReplaceAbsent("&amp;", '\n', "<br>");
    ReplaceAbsent("&lt;", '>', "&gt;");
    ReplaceAbsent("&lt;", '\n', "<br>");
    ReplaceAbsent("&gt;", '\n', "<br>");
  }

  /** The four chained replacements are one escape, character by character: no
      later one touches what an earlier one wrote. */
  lemma {:induction false} ChainIsEscape(raw: string)
    ensures PlainTextToHtml(raw) == Escape(raw)
  {
    if raw != [] {
      var x, rest := [raw[0]], raw[1..];
      assert raw == x + rest;
      OneCharEscapes(raw[0]);
      ChainIsEscape(rest);
      ReplaceAppend(x, rest, '&', "&amp;");
      var x1, r1 := Replace(x, '&', "&amp;"), Replace(rest, '&', "&amp;");
      ReplaceAppend(x1, r1, '<', "&lt;");
      var x2, r2 := Replace(x1, '<', "&lt;"), Replace(r1, '<', "&lt;");
      ReplaceAppend(x2, r2, '>', "&gt;");
      ReplaceAppend(Replace(x2, '>', "&gt;"), Replace(r2, '>', "&gt;"), '\n', "<br>");
    }
  }

  lemma {:induction false} SizeAppend(a: string, b: string)
    ensures Size(a + b) == Size(a) + Size(b)
  {
    if a == [] {
      assert a + b == b;
    } else {
      assert (a + b)[1..] == a[1..] + b;
      SizeAppend(a[1..], b);
    }
  }

  lemma {:induction false} EscapeAppend(a: string, b: string)
    ensures Escape(a + b) == Escape(a) + Escape(b)
  {
    if a == [] {
      assert a + b == b;
    } else {
      assert (a + b)[1..] == a[1..] + b;
      EscapeAppend(a[1..], b);
    }
  }

  /** What the size loop adds up for one character. */
  function EscapedSize(c: char): nat {
    match c
    case '&' => 5
    case '<' => 4
    case '>' => 4
    case '\n' => 4
    case _ => Utf8Len(c)
  }

  /** One more character adds exactly its escaped size. */
  lemma OneMoreChar(raw: string, i: nat)
    requires i < |raw|
    ensures Size(PlainTextToHtml(raw[..i + 1])) == Size(PlainTextToHtml(raw[..i])) + EscapedSize(raw[i])
  {
    var c := raw[i];
    assert raw[..i + 1] == raw[..i] + [c];
    ChainIsEscape(raw[..i + 1]);
    ChainIsEscape(raw[..i]);
    EscapeAppend(raw[..i], [c]);
    assert [c][1..] == [] && Escape([c]) == EscapeChar(c);
    SizeAppend(Escape(raw[..i]), EscapeChar(c));
    EscapedSizeIsExact(c);
  }

  lemma EscapedSizeIsExact(c: char)
    ensures Size(EscapeChar(c)) == EscapedSize(c)
  {
    SizeAppend("&a", "mp;");
    SizeAppend("&l", "t;");
    SizeAppend("&g", "t;");
    SizeAppend("<b", "r>");
    assert "&a" + "mp;" == "&amp;" && "&l" + "t;" == "&lt;" && "&g" + "t;" == "&gt;" && "<b" + "r>" == "<br>";
    SizeAppend("m", "p;");
    assert "m" + "p;" == "mp;";
    assert [c][1..] == [];
  }

  lemma {:induction false} SizeGrows(raw: string, i: nat, j: nat)
    requires i <= j <= |raw|
    ensures Size(PlainTextToHtml(raw[..i])) <= Size(PlainTextToHtml(raw[..j]))
  {
    if i < j {
      SizeGrows(raw, i, j - 1);
      OneMoreChar(raw, j - 1);
    }
  }

  /** Plain text escaped into at most `max` bytes: the longest prefix of whole
      characters whose escaped form fits. */
  method PlainTextToHtmlBounded(raw: string, max: nat) returns (out: string, cut: nat)
    ensures cut <= |raw| && out == PlainTextToHtml(raw[..cut])
    ensures Size(out) <= max
    ensures forall longer: nat | cut < longer <= |raw| :: Size(PlainTextToHtml(raw[..longer])) > max
  {
    var size := 0;
    cut := |raw|;
    assert raw[..0] == "" && PlainTextToHtml("") == "";
    for i := 0 to |raw|
      invariant cut == |raw| && size == Size(PlainTextToHtml(raw[..i])) <= max
    {
      var escaped := EscapedSize(raw[i]);
      OneMoreChar(raw, i);
      if size + escaped > max {
        cut := i;
        forall longer: nat | cut < longer <= |raw| ensures Size(PlainTextToHtml(raw[..longer])) > max {
          SizeGrows(raw, i + 1, longer);
        }
        break;
      }
      size := size + escaped;
    }
    assert raw[..|raw|] == raw;
    out := PlainTextToHtml(raw[..cut]);
  }

  /** Nothing is lost: different texts escape differently. */
  lemma {:induction false} EscapeIsInjective(a: string, b: string)
    ensures PlainTextToHtml(a) == PlainTextToHtml(b) ==> a == b
  {
    ChainIsEscape(a);
    ChainIsEscape(b);
    if PlainTextToHtml(a) == PlainTextToHtml(b) && a != [] && b != [] {
      var ea, eb := Escape(a), Escape(b);
      HeadsAgree(a, b);
      assert ea[|EscapeChar(a[0])|..] == Escape(a[1..]);
      assert eb[|EscapeChar(b[0])|..] == Escape(b[1..]);
      ChainIsEscape(a[1..]);
      ChainIsEscape(b[1..]);
      EscapeIsInjective(a[1..], b[1..]);
    }
  }

  lemma HeadsAgree(a: string, b: string)
    requires a != [] && b != [] && Escape(a) == Escape(b)
    ensures a[0] == b[0]
  {
    OnlyOneStarts(a[0], b[0], Escape(a));
  }

  /** No two characters become prefixes of the same text. */
  lemma OnlyOneStarts(c: char, d: char, text: string)
    requires EscapeChar(c) <= text && EscapeChar(d) <= text
    ensures c == d
  {
    var x, y := EscapeChar(c), EscapeChar(d);
    assert text[0] == x[0] == y[0];
    if |x| > 1 && |y| > 1 {
      assert text[1] == x[1] == y[1];
    }
  }
}
