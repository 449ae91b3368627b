/** Bytes, and which of them spell UTF-8 text (section 4 of RFC 3629). */
module Octets {
  newtype byte = b: int | 0 <= b < 0x100

  type Bytes = seq<byte>

  predicate IsContinuation(b: byte) {
    0x80 <= b <= 0xBF
  }

  /** How many bytes a character takes that starts with this one; 0 if none does. */
  function Width(lead: byte): nat {
    if lead <= 0x7F then 1
    else if 0xC2 <= lead <= 0xDF then 2
    else if 0xE0 <= lead <= 0xEF then 3
    else if 0xF0 <= lead <= 0xF4 then 4
    else 0
  }

  /** The second byte a lead allows: no overlong form, no surrogate, nothing past
      the last code point. */
  predicate Follows(lead: byte, b: byte) {
    && IsContinuation(b)
    && (lead == 0xE0 ==> b >= 0xA0)
    && (lead == 0xED ==> b <= 0x9F)
    && (lead == 0xF0 ==> b >= 0x90)
    && (lead == 0xF4 ==> b <= 0x8F)
  }

  predicate IsUtf8(s: Bytes) {
    s == [] || (
      var w := Width(s[0]);
      && 0 < w <= |s|
      && (w >= 2 ==> Follows(s[0], s[1]))
      && (w >= 3 ==> IsContinuation(s[2]))
      && (w == 4 ==> IsContinuation(s[3]))
      && IsUtf8(s[w..]))
  }

  /** A place where a text may be cut. */
  predicate IsCharBoundary(s: Bytes, i: nat) {
    i == 0 || i == |s| || (i < |s| && !IsContinuation(s[i]))
  }

  /** The largest boundary at or before `at`. */
  function FloorCharBoundary(s: Bytes, at: nat): (r: nat)
    ensures r <= at && r <= |s| && IsCharBoundary(s, r)
    ensures forall j: nat | r < j <= at :: !IsCharBoundary(s, j)
  {
    if at >= |s| then |s|
    else if IsCharBoundary(s, at) then at
    else FloorCharBoundary(s, at - 1)
  }

  /** The smallest boundary at or after `at`. */
  function CeilCharBoundary(s: Bytes, at: nat): (r: nat)
    ensures r <= |s| && IsCharBoundary(s, r)
    ensures at <= |s| ==> at <= r
    ensures forall j: nat | at <= j < r :: !IsCharBoundary(s, j)
    decreases |s| - at
  {
    if at >= |s| then |s|
    else if IsCharBoundary(s, at) then at
    else CeilCharBoundary(s, at + 1)
  }

  /** In text, a boundary is never more than three bytes back. */
  lemma {:induction false} FloorIsNear(s: Bytes, at: nat)
    requires IsUtf8(s) && at <= |s|
    ensures at - 3 <= FloorCharBoundary(s, at)
  {
    var j := BoundaryNear(s, at);
  }

  lemma {:induction false} BoundaryNear(s: Bytes, at: nat) returns (j: nat)
    requires IsUtf8(s) && at <= |s|
    ensures at - 3 <= j <= at && IsCharBoundary(s, j)
    decreases |s|
  {
    if s == [] || at < Width(s[0]) {
      j := 0;
    } else {
      var w := Width(s[0]);
      j := BoundaryNear(s[w..], at - w);
      j := j + w;
    }
  }

  /** Text cut at a boundary is text. */
  lemma {:induction false} PrefixIsUtf8(s: Bytes, cut: nat)
    requires IsUtf8(s) && cut <= |s| && IsCharBoundary(s, cut)
    ensures IsUtf8(s[..cut])
    decreases |s|
  {
    if cut > 0 {
      var w := Width(s[0]);
      if w <= cut {
        PrefixIsUtf8(s[w..], cut - w);
        assert s[..cut][w..] == s[w..][..cut - w];
      }
    }
  }
}
