/** One walk for several publications of a repository: each keeps up to a cap of
    its own documents, and the walk as many as all of them together. */
module GroupRead {
  import opened Wrappers
  import opened Budget
  import opened RepoWalk

  /** The requested publication that a document belongs to, if any. */
  type Site = RecordEntry -> Option<nat>

  function IsOf(site: Site, i: nat): RecordEntry -> bool {
    r => site(r) == Some(i)
  }

  function CountOf(records: seq<RecordEntry>, site: Site, i: nat): nat {
    |Chosen(IsOf(site, i), records)|
  }

  /** Only this one of the publications. */
  function Only(site: Site, i: nat): Site {
    r => if site(r) == Some(i) then Some(i) else None
  }

  /** Every record that the server may ever offer a walk, in order. */
  function Offered(server: Server): seq<RecordEntry> {
    Records(server, MAX_LIST_PAGES)
  }

  /** The filter of the walk: a document of a publication that has not reached its
      cap. What it remembers, how many it kept of each, is how many it was asked
      about, up to the cap. */
  function GroupKeep(served: seq<RecordEntry>, site: Site, per: nat): Keep {
    (asked: nat, r: RecordEntry) =>
      asked <= |served| && site(r).Some? && CountOf(served[..asked], site, site(r).value) < per
  }

  lemma {:induction false} ChosenSame(p: RecordEntry -> bool, q: RecordEntry -> bool, records: seq<RecordEntry>)
    requires forall r :: p(r) <==> q(r)
    ensures Chosen(p, records) == Chosen(q, records)
  {
    if records != [] {
      ChosenSame(p, q, records[1..]);
    }
  }

  lemma ChosenOne(p: RecordEntry -> bool, r: RecordEntry)
    ensures Chosen(p, [r]) == (if p(r) then [r] else []) && Chosen(p, []) == []
  {
    assert [r][1..] == [];
    assert [r] + [] == [r];
  }

  lemma FilterOne(keep: Keep, asked: nat, r: RecordEntry)
    ensures Filter(keep, asked, [r]) == if keep(asked, r) then [r] else []
  {
    assert [r][1..] == [] && Filter(keep, asked + 1, []) == [];
    assert [r] + [] == [r];
  }

  function FirstOf(records: seq<RecordEntry>, n: nat): seq<RecordEntry> {
    records[..Min(|records|, n)]
  }

  lemma FirstOfMore(records: seq<RecordEntry>, r: RecordEntry, n: nat)
    ensures FirstOf(records + [r], n) == FirstOf(records, n) + if |records| < n then [r] else []
  {
  }

  /** What the filter keeps of a publication is the first of what it was asked
      about, up to the cap. */
  lemma {:induction false} KeptPerSite(served: seq<RecordEntry>, site: Site, per: nat, asked: nat, i: nat)
    requires asked <= |served|
    ensures Chosen(IsOf(site, i), Filter(GroupKeep(served, site, per), 0, served[..asked]))
         == FirstOf(Chosen(IsOf(site, i), served[..asked]), per)
  {
    var keep, own := GroupKeep(served, site, per), IsOf(site, i);
    if asked == 0 {
      assert served[..0] == [];
    } else {
      var front, r := served[..asked - 1], served[asked - 1];
      KeptPerSite(served, site, per, asked - 1, i);
      assert served[..asked] == front + [r];
      FilterAppend(keep, 0, front, [r]);
      FilterOne(keep, asked - 1, r);
      ChosenOne(own, r);
      ChosenAppend(own, front, [r]);
      ChosenAppend(own, Filter(keep, 0, front), Filter(keep, asked - 1, [r]));
      FirstOfMore(Chosen(own, front), r, per);
      assert own(r) ==> (keep(asked - 1, r) <==> |Chosen(own, front)| < per);
      hide Chosen, Filter, GroupKeep, FirstOf, IsOf;
      assert Chosen(own, front) + [] == Chosen(own, front);
      assert FirstOf(Chosen(own, front), per) + [] == FirstOf(Chosen(own, front), per);
    }
  }

  /** So it decides by what it has kept: a document is kept exactly if it belongs to
      a publication of which fewer than the cap were. */
  lemma KeepsByWhatItKept(served: seq<RecordEntry>, site: Site, per: nat, asked: nat)
    requires asked < |served|
    ensures GroupKeep(served, site, per)(asked, served[asked]) <==>
      && site(served[asked]).Some?
      && CountOf(Filter(GroupKeep(served, site, per), 0, served[..asked]), site, site(served[asked]).value) < per
  {
    if site(served[asked]).Some? {
      KeptPerSite(served, site, per, asked, site(served[asked]).value);
    }
  }

  lemma SameDecision(served: seq<RecordEntry>, site: Site, per: nat, i: nat, asked: nat, r: RecordEntry)
    ensures GroupKeep(served, Only(site, i), per)(asked, r) <==> IsOf(site, i)(r) && GroupKeep(served, site, per)(asked, r)
  {
    if asked <= |served| {
      ChosenSame(IsOf(Only(site, i), i), IsOf(site, i), served[..asked]);
    }
  }

  /** The filter of a walk for one publication keeps, of what the filter of the
      group keeps, the documents of that publication. */
  lemma AloneSelects(served: seq<RecordEntry>, site: Site, per: nat, i: nat, asked: nat, page: seq<RecordEntry>)
    ensures Selects(IsOf(site, i), GroupKeep(served, site, per), GroupKeep(served, Only(site, i), per), asked, page)
  {
    var own, wide, narrow := IsOf(site, i), GroupKeep(served, site, per), GroupKeep(served, Only(site, i), per);
    forall j: nat | j < |page| ensures narrow(asked + j, page[j]) <==> own(page[j]) && wide(asked + j, page[j]) {
      SameDecision(served, site, per, i, asked + j, page[j]);
    }
  }

  // ---- all publications together ----------------------------------------------

  /** The caps of all of them together. */
  function GroupCap(per: nat, found: set<nat>): nat {
    per * |found|
  }

  lemma OneMoreCap(per: nat, found: set<nat>, i: nat)
    requires i in found
    ensures GroupCap(per, found) == GroupCap(per, found - {i}) + per
  {
    var n := |found - {i}|;
    assert |found| == n + 1;
    assert per * (n + 1) == per * n + per;
  }

  ghost predicate AllOf(records: seq<RecordEntry>, site: Site, found: set<nat>) {
    forall r | r in records :: site(r).Some? && site(r).value in found
  }

  function Others(site: Site, i: nat): RecordEntry -> bool {
    r => site(r) != Some(i)
  }

  /** Without one publication: the rest of the records, of which the counts are the
      same. */
  lemma {:induction false} WithoutOne(records: seq<RecordEntry>, site: Site, i: nat, j: nat)
    ensures |records| == CountOf(records, site, i) + |Chosen(Others(site, i), records)|
    ensures i != j ==> CountOf(Chosen(Others(site, i), records), site, j) == CountOf(records, site, j)
    ensures forall r | r in Chosen(Others(site, i), records) :: r in records && site(r) != Some(i)
  {
    if records != [] {
      var r, rest := records[0], records[1..];
      WithoutOne(rest, site, i, j);
      assert records == [r] + rest;
      ChosenOne(Others(site, i), r);
      ChosenOne(IsOf(site, i), r);
      ChosenOne(IsOf(site, j), r);
      ChosenAppend(Others(site, i), [r], rest);
      ChosenAppend(IsOf(site, i), [r], rest);
      ChosenAppend(IsOf(site, j), [r], rest);
      ChosenAppend(IsOf(site, j), Chosen(Others(site, i), [r]), Chosen(Others(site, i), rest));
    }
  }

  /** Records of some publications, no more than `per` of each, are no more than
      that of all. */
  lemma {:induction false} SumOfCounts(records: seq<RecordEntry>, site: Site, found: set<nat>, per: nat)
    requires AllOf(records, site, found)
    requires forall j :: CountOf(records, site, j) <= per
    ensures |records| <= GroupCap(per, found)
    decreases |found|
  {
    hide Chosen, CountOf, GroupCap;
    assert records != [] ==> records[0] in records;
    if found != {} {
      var i :| i in found;
      OneFewer(records, site, found, per, i);
      SumOfCounts(Chosen(Others(site, i), records), site, found - {i}, per);
      WithoutOne(records, site, i, i);
      OneMoreCap(per, found, i);
    }
  }

  lemma OneFewer(records: seq<RecordEntry>, site: Site, found: set<nat>, per: nat, i: nat)
    requires AllOf(records, site, found) && i in found
    requires forall j :: CountOf(records, site, j) <= per
    ensures AllOf(Chosen(Others(site, i), records), site, found - {i})
    ensures forall j :: CountOf(Chosen(Others(site, i), records), site, j) <= per
  {
    var others := Chosen(Others(site, i), records);
    WithoutOne(records, site, i, i);
    forall j ensures CountOf(others, site, j) <= per {
      WithoutOne(records, site, i, j);
      if j == i {
        NoneOf(others, site, i);
      }
    }
  }

  lemma {:induction false} NoneOf(records: seq<RecordEntry>, site: Site, i: nat)
    requires forall r | r in records :: site(r) != Some(i)
    ensures CountOf(records, site, i) == 0
  {
    if records != [] {
      assert records[0] in records && forall r | r in records[1..] :: r in records;
      NoneOf(records[1..], site, i);
    }
  }

  /** And where they are as many as that, each publication has its cap. */
  lemma AllAtTheirCap(records: seq<RecordEntry>, site: Site, found: set<nat>, per: nat, i: nat)
    requires AllOf(records, site, found) && i in found
    requires forall j :: CountOf(records, site, j) <= per
    requires |records| >= GroupCap(per, found)
    ensures CountOf(records, site, i) == per
  {
    hide Chosen, CountOf, GroupCap;
    OneFewer(records, site, found, per, i);
    SumOfCounts(Chosen(Others(site, i), records), site, found - {i}, per);
    WithoutOne(records, site, i, i);
    OneMoreCap(per, found, i);
  }

  lemma {:induction false} KeptHaveSites(served: seq<RecordEntry>, site: Site, per: nat, asked: nat, page: seq<RecordEntry>)
    ensures forall r | r in Filter(GroupKeep(served, site, per), asked, page) :: site(r).Some?
    decreases |page|
  {
    if page != [] {
      KeptHaveSites(served, site, per, asked + 1, page[1..]);
    }
  }
}
