/** Stored article bodies: a tag byte and a deflate stream, decoded into a
    bounded buffer that is complete or nothing. */
module BodyCodec {
  import opened Wrappers
  import opened Octets

  const USIZE_MAX: nat := 0xFFFF_FFFF_FFFF_FFFF

  const TAG_DEFLATE: byte := 1
  const TAG_DEFLATE_SOLE: byte := 2

  datatype StoredAs = BesidePlain | Sole

  // ---- deflate, as far as it is needed ----------------------------------------

  /** What some bytes are as a raw deflate stream (RFC 1951): one that ends after
      `used` of them, one still going when they run out, or no such stream; and
      in each case what it says up to there. */
  datatype Stream =
    | Complete(data: Bytes, used: nat)
    | Unfinished(data: Bytes)
    | Corrupt(data: Bytes)

  type Inflating = Bytes -> Stream

  /** A stream ends where its own bytes say, whatever follows it. */
  ghost predicate SelfDelimiting(inflate: Inflating) {
    && (forall s :: inflate(s).Complete? ==> inflate(s).used <= |s|)
    && (forall s, tail :: inflate(s).Complete? ==> inflate(s[..inflate(s).used] + tail) == inflate(s))
  }

  /** What is deflated inflates, with nothing left over. */
  ghost predicate Inverts(inflate: Inflating, deflate: Bytes -> Bytes) {
    forall d :: inflate(deflate(d)) == Complete(d, |deflate(d)|)
  }

  datatype Status = Going | StreamEnd | Failed

  /** An inflater part of the way through its input. How far each call gets is its
      own affair: it reads some input, writes some output within the room it is
      given, and on a stream that completes it does at least one of the two or
      says that it has ended. */
  class Decompress {
    const input: Bytes
    const stream: Stream
    var totalIn: nat
    var produced: nat

    ghost predicate Valid()
      reads this
    {
      && totalIn <= Limit() <= |input|
      && produced <= |stream.data|
    }

    function Limit(): nat {
      if stream.Complete? then stream.used else |input|
    }

    predicate AtEnd()
      reads this
    {
      stream.Complete? && totalIn == stream.used && produced == |stream.data|
    }

    constructor (input: Bytes, inflate: Inflating)
      requires inflate(input).Complete? ==> inflate(input).used <= |input|
      ensures Valid() && this.input == input && stream == inflate(input)
      ensures totalIn == 0 && produced == 0
    {
      this.input := input;
      stream := inflate(input);
      totalIn, produced := 0, 0;
    }

    method DecompressVec(out: Bytes, room: nat) returns (status: Status, grown: Bytes)
      requires Valid() && room > 0
      modifies this
      ensures Valid()
      ensures old(totalIn) <= totalIn && old(produced) <= produced <= old(produced) + room
      ensures grown == out + stream.data[old(produced)..produced]
      ensures status == StreamEnd ==> AtEnd()
      ensures stream.Complete? ==>
        status == StreamEnd || (status == Going && (totalIn > old(totalIn) || produced > old(produced)))
    {
      var left := |stream.data| - produced;
      var more := if left < room then left else room;
      var stuck := stream.Complete? && AtEnd();
      var read, written :|
        && 0 <= read <= Limit() - totalIn && 0 <= written <= more
        && (stream.Complete? && !stuck ==> read + written > 0);
      grown := out + stream.data[produced..produced + written];
      totalIn := totalIn + read;
      produced := produced + written;
      if stuck {
        status := StreamEnd;
      } else if stream.Complete? {
        var ends := *;
        status := if AtEnd() && ends then StreamEnd else Going;
      } else {
        var fails := *;
        status := if fails then Failed else Going;
      }
    }
  }

  // ---- decoding ---------------------------------------------------------------

  function CopyOf(tag: byte): Option<StoredAs> {
    if tag == TAG_DEFLATE then Some(BesidePlain)
    else if tag == TAG_DEFLATE_SOLE then Some(Sole)
    else None
  }

  /** What a blob holds, said without a loop: a known tag, then one complete
      stream that uses every byte and says at most `max` bytes of text. */
  function Decoded(blob: Bytes, max: nat, inflate: Inflating): Option<(StoredAs, Bytes)> {
    if blob == [] || CopyOf(blob[0]).None? then None
    else
      match inflate(blob[1..])
      case Complete(data, used) =>
        if used == |blob| - 1 && |data| <= max && IsUtf8(data) then Some((CopyOf(blob[0]).value, data)) else None
      case _ => None
  }

  function Clamp(n: nat, low: nat, high: nat): nat
    requires low <= high
  {
    if n < low then low else if n > high then high else n
  }

  /** The decoding loop. `capacity` is how large the buffer ever was. The first
      clamp panics when its upper end is under 64, or is the word's end and one. */
  method DecodeTagged(blob: Bytes, max: nat, inflate: Inflating)
    returns (panics: bool, r: Option<(StoredAs, Bytes)>, capacity: nat)
    requires max <= USIZE_MAX
    requires SelfDelimiting(inflate)
    ensures panics <==> blob != [] && CopyOf(blob[0]).Some? && (max < 63 || max == USIZE_MAX)
    ensures !panics ==> r == Decoded(blob, max, inflate)
    ensures capacity <= max + 1
    ensures !panics && blob != [] && CopyOf(blob[0]).Some? ==>
      capacity >= 64 && (capacity >= 4 * (|blob| - 1) || capacity > max)
  {
    panics := false;
    if blob == [] {
      return false, None, 0;
    }
    var rest := blob[1..];
    var copy := CopyOf(blob[0]);
    if copy.None? {
      return false, None, 0;
    }
    if max == USIZE_MAX || max + 1 < 64 {
      return true, None, 0;
    }
    var inflater := new Decompress(rest, inflate);
    var out: Bytes := [];
    var quadruple := if 4 * |rest| > USIZE_MAX then USIZE_MAX else 4 * |rest|;
    capacity := Clamp(quadruple, 64, max + 1);
    while true
      invariant inflater.Valid()
      invariant inflater.input == rest && inflater.stream == inflate(rest)
      invariant |out| <= max && |out| <= capacity <= max + 1
      invariant capacity >= 64 && (capacity >= 4 * |rest| || capacity > max)
      invariant out == inflater.stream.data[..inflater.produced]
      decreases |rest| - inflater.totalIn + max - |out|
    {
      if |out| == capacity {
        if |out| > max {
          return false, None, capacity;
        }
        var larger := if capacity < 1024 then 1024 else capacity;
        var more := if larger < max + 1 - |out| then larger else max + 1 - |out|;
        capacity := |out| + more;
      }
      var consumed, held := inflater.totalIn, |out|;
      var status;
      status, out := inflater.DecompressVec(out, capacity - |out|);
      if status == Failed {
        return false, None, capacity;
      }
      if |out| > max {
        return false, None, capacity;
      }
      if status == StreamEnd {
        break;
      }
      var progressed := inflater.totalIn != consumed || |out| != held;
      if !progressed && |out| < capacity {
        return false, None, capacity;
      }
    }
    if inflater.totalIn != |rest| {
      return false, None, capacity;
    }
    assert out == inflater.stream.data;
    r := if IsUtf8(out) then Some((copy.value, out)) else None;
  }

  // ---- encoding ---------------------------------------------------------------

  function EncodeTagged(html: Bytes, tag: byte, deflate: Bytes -> Bytes): Bytes {
    [tag] + deflate(html)
  }

  /** An encoded body decodes to itself, as the copy its tag says it is, exactly
      when it is within the bound. */
  lemma EncodedDecodes(html: Bytes, tag: byte, max: nat, inflate: Inflating, deflate: Bytes -> Bytes)
    requires Inverts(inflate, deflate) && IsUtf8(html) && CopyOf(tag).Some?
    ensures Decoded(EncodeTagged(html, tag, deflate), max, inflate)
         == if |html| <= max then Some((CopyOf(tag).value, html)) else None
  {
    assert EncodeTagged(html, tag, deflate)[1..] == deflate(html);
  }

  /** The first byte tells the copies apart: 1 for one beside the plain text, 2 for
      the sole copy, and any other is no body. */
  lemma TagTellsCopy(html: Bytes, tag: byte, inflate: Inflating, deflate: Bytes -> Bytes)
    ensures Inverts(inflate, deflate) && IsUtf8(html) ==>
      && Decoded([1] + deflate(html), |html|, inflate) == Some((BesidePlain, html))
      && Decoded([2] + deflate(html), |html|, inflate) == Some((Sole, html))
      && (tag != 1 && tag != 2 ==> Decoded([tag] + deflate(html), |html|, inflate) == None)
  {
    assert ([1] + deflate(html))[1..] == deflate(html) && ([2] + deflate(html))[1..] == deflate(html);
  }

  /** A stream that ends with its text ends there whatever follows. */
  lemma EndsThere(inflate: Inflating, s: Bytes, tail: Bytes)
    requires SelfDelimiting(inflate)
    ensures inflate(s).Complete? && inflate(s).used == |s| ==> inflate(s + tail) == inflate(s)
  {
    if inflate(s).Complete? && inflate(s).used == |s| {
      assert s[..inflate(s).used] == s;
      assert inflate(s[..inflate(s).used] + tail) == inflate(s);
    }
  }

  /** Complete or nothing: of a blob that decodes, every shorter cut and every
      longer padding is no body at all. */
  lemma CutOrPaddedIsNoBody(blob: Bytes, max: nat, inflate: Inflating, cut: nat, tail: Bytes)
    requires SelfDelimiting(inflate) && Decoded(blob, max, inflate).Some?
    ensures cut < |blob| ==> Decoded(blob[..cut], max, inflate) == None
    ensures tail != [] ==> Decoded(blob + tail, max, inflate) == None
  {
    var rest := blob[1..];
    EndsThere(inflate, rest, tail);
    assert (blob + tail)[1..] == rest + tail;
    if 0 < cut < |blob| {
      var short := rest[..cut - 1];
      EndsThere(inflate, short, rest[cut - 1..]);
      assert short + rest[cut - 1..] == rest;
      assert blob[..cut][1..] == short;
    }
  }
}
