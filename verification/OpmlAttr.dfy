/** Reading one attribute out of the run of attributes of a tag. */
module OpmlAttr {
  import opened Wrappers
  import opened OpmlText

  predicate IsNameChar(c: char) {
    'a' <= c <= 'z' || 'A' <= c <= 'Z' || '0' <= c <= '9' || c == '_' || c == '-' || c == ':' || c == '.'
  }

  predicate IsSpace(c: char) {
    c == ' ' || c == '\t' || c == '\n' || c == '\U{000C}' || c == '\r'
  }

  /** A name that can be looked for. */
  predicate IsName(name: string) {
    name != [] && forall c | c in name :: IsNameChar(c)
  }

  /** Where a character first occurs. */
  function Find(s: string, c: char): (r: Option<nat>)
    ensures r.Some? ==> r.value < |s| && s[r.value] == c && c !in s[..r.value]
    ensures r.None? <==> c !in s
  {
    if s == [] then None
    else if s[0] == c then Some(0)
    else
      match Find(s[1..], c)
      case None => None
      case Some(i) =>
        assert s[..i + 1] == [s[0]] + s[1..][..i];
        Some(i + 1)
  }

  function SkipSpace(s: string): (r: string)
    ensures |r| <= |s|
  {
    if s != [] && IsSpace(s[0]) then SkipSpace(s[1..]) else s
  }

  /** The raw value of an attribute whose name starts this text: white space, an
      equals sign, white space, and a quoted value of either kind. */
  function ValueHere(s: string, name: string): Option<string> {
    if !(name <= s) then None
    else
      var t := SkipSpace(s[|name|..]);
      if t == [] || t[0] != '=' then None
      else
        var u := SkipSpace(t[1..]);
        if u == [] || (u[0] != '"' && u[0] != '\'') then None
        else
          match Find(u[1..], u[0])
          case None => None
          case Some(close) => Some(u[1..][..close])
  }

  /** The first place an attribute of this name can be read, from the front; a
      name counts only after a boundary, and `boundary` says whether one is
      before this text. */
  function AttrFrom(boundary: bool, s: string, name: string): Option<string>
    decreases |s|
  {
    if s == [] then None
    else if boundary && ValueHere(s, name).Some? then ValueHere(s, name)
    else AttrFrom(!IsNameChar(s[0]), s[1..], name)
  }

  function Attr(attrs: string, name: string): Option<string> {
    match AttrFrom(true, attrs, name)
    case None => None
    case Some(value) => Some(Unescape(value))
  }

  // ---- the scan ---------------------------------------------------------------

  /** Where a name first occurs. */
  function FindName(s: string, name: string): (r: Option<nat>)
    ensures r.Some? ==> r.value <= |s| && name <= s[r.value..]
    ensures forall i: nat | i <= |s| && (r.Some? ==> i < r.value) :: !(name <= s[i..])
  {
    if name <= s then Some(0)
    else if s == [] then None
    else
      match FindName(s[1..], name)
      case None =>
        assert forall i: nat | 0 < i <= |s| :: s[i..] == s[1..][i - 1..];
        None
      case Some(i) =>
        assert forall j: nat | 0 < j <= |s| :: s[j..] == s[1..][j - 1..];
        Some(i + 1)
  }

  /** Passing over places where the name does not occur changes nothing. */
  lemma {:induction false} SkipTo(boundary: bool, s: string, name: string, n: nat)
    requires n <= |s| && forall i | 0 <= i < n :: !(name <= s[i..])
    ensures AttrFrom(boundary, s, name)
         == AttrFrom(if n == 0 then boundary else !IsNameChar(s[n - 1]), s[n..], name)
    decreases n
  {
    assert s[0..] == s;
    if n > 0 {
      assert forall i | 0 <= i < n - 1 :: s[1..][i..] == s[i + 1..];
      SkipTo(!IsNameChar(s[0]), s[1..], name, n - 1);
      assert s[1..][n - 1..] == s[n..];
    }
  }

  /** No attribute can start inside a name: there is no boundary there. */
  lemma {:induction false} SkipName(s: string, name: string, key: string)
    requires key <= s && forall c | c in key :: IsNameChar(c)
    ensures AttrFrom(false, s, name) == AttrFrom(false, s[|key|..], name)
  {
    if key == [] {
      assert s[0..] == s;
    } else {
      assert key[0] == s[0] && key[0] in key;
      assert key[1..] <= s[1..];
      assert forall c | c in key[1..] :: c in key;
      SkipName(s[1..], name, key[1..]);
      assert s[1..][|key| - 1..] == s[|key|..];
    }
  }

  /** Past an occurrence of the name that is no attribute. */
  lemma PassOver(boundary: bool, s: string, name: string)
    requires IsName(name) && name <= s
    requires !boundary || ValueHere(s, name).None?
    ensures AttrFrom(boundary, s, name) == AttrFrom(false, s[|name|..], name)
  {
    assert name[0] in name && s[0] == name[0];
    assert forall c | c in name[1..] :: c in name;
    SkipName(s[1..], name, name[1..]);
    assert s[1..][|name| - 1..] == s[|name|..];
  }

  lemma SkipSpaceFrom(s: string, i: nat)
    requires i <= |s|
    ensures SkipSpace(s[i..]) == if i < |s| && IsSpace(s[i]) then SkipSpace(s[i + 1..]) else s[i..]
  {
    assert i < |s| ==> s[i..][1..] == s[i + 1..];
  }

  method SkipSpaces(s: string, from: nat) returns (j: nat)
    requires from <= |s|
    ensures from <= j <= |s| && s[j..] == SkipSpace(s[from..])
  {
    j := from;
    while j < |s| && IsSpace(s[j])
      invariant from <= j <= |s| && SkipSpace(s[from..]) == SkipSpace(s[j..])
    {
      SkipSpaceFrom(s, j);
      j := j + 1;
    }
    SkipSpaceFrom(s, j);
  }

  /** What follows a name found at a place, read as a value. */
  method ReadValueAt(attrs: string, pos: nat, name: string) returns (value: Option<string>)
    requires pos <= |attrs| && name <= attrs[pos..]
    ensures value == ValueHere(attrs[pos..], name)
  {
    hide SkipSpace, Find, IsSpace;
    var j := pos + |name|;
    assert attrs[pos..][|name|..] == attrs[j..];
    j := SkipSpaces(attrs, j);
    if j == |attrs| || attrs[j] != '=' {
      return None;
    }
    j := j + 1;
    assert attrs[j - 1..][1..] == attrs[j..];
    j := SkipSpaces(attrs, j);
    if j == |attrs| || (attrs[j] != '"' && attrs[j] != '\'') {
      return None;
    }
    var quote := attrs[j];
    var start := j + 1;
    assert attrs[j..][1..] == attrs[start..];
    var close := Find(attrs[start..], quote);
    value := if close.None? then None else Some(attrs[start..][..close.value]);
  }

  /** Whether a name at this place would count as a name. */
  predicate BoundaryAt(s: string, i: nat)
    requires i <= |s|
  {
    i == 0 || !IsNameChar(s[i - 1])
  }

  /** The scan as it runs over positions, from one occurrence of the name to the
      next. */
  method ReadAttr(attrs: string, name: string) returns (r: Option<string>)
    requires IsName(name)
    ensures r == Attr(attrs, name)
  {
    hide AttrFrom, ValueHere, Unescape, IsNameChar;
    var search := 0;
    assert attrs[0..] == attrs;
    while true
      invariant search <= |attrs|
      invariant AttrFrom(true, attrs, name) == AttrFrom(BoundaryAt(attrs, search), attrs[search..], name)
      decreases |attrs| - search
    {
      var rel := FindName(attrs[search..], name);
      if rel.None? {
        NoneLeft(BoundaryAt(attrs, search), attrs[search..], name);
        return None;
      }
      var pos := search + rel.value;
      OnTo(attrs, search, pos, name);
      var value := ReadValueAt(attrs, pos, name);
      if BoundaryAt(attrs, pos) && value.Some? {
        ReadHere(attrs[pos..], name);
        return Some(Unescape(value.value));
      }
      PassOver(BoundaryAt(attrs, pos), attrs[pos..], name);
      search := pos + |name|;
      NoBoundaryAfter(attrs, pos, name);
    }
  }

  lemma NoneLeft(boundary: bool, s: string, name: string)
    requires name != [] && forall i: nat | i <= |s| :: !(name <= s[i..])
    ensures AttrFrom(boundary, s, name) == None
  {
    SkipTo(boundary, s, name, |s|);
  }

  lemma OnTo(attrs: string, search: nat, pos: nat, name: string)
    requires search <= pos <= |attrs|
    requires forall i: nat | i < pos - search :: !(name <= attrs[search..][i..])
    ensures AttrFrom(BoundaryAt(attrs, search), attrs[search..], name) == AttrFrom(BoundaryAt(attrs, pos), attrs[pos..], name)
    ensures attrs[search..][pos - search..] == attrs[pos..]
  {
    hide AttrFrom, IsNameChar;
    var s, n := attrs[search..], pos - search;
    SkipTo(BoundaryAt(attrs, search), s, name, n);
    assert s[n..] == attrs[pos..];
    assert n > 0 ==> s[n - 1] == attrs[pos - 1];
  }

  lemma ReadHere(s: string, name: string)
    requires IsName(name) && ValueHere(s, name).Some?
    ensures AttrFrom(true, s, name) == ValueHere(s, name)
  {
  }

  lemma NoBoundaryAfter(attrs: string, pos: nat, name: string)
    requires IsName(name) && pos <= |attrs| && name <= attrs[pos..]
    ensures !BoundaryAt(attrs, pos + |name|) && attrs[pos..][|name|..] == attrs[pos + |name|..]
  {
    assert name[|name| - 1] in name && attrs[pos..][|name| - 1] == name[|name| - 1];
  }
}
