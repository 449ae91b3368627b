/** The nearest-rank percentile of a window. */
module Percentile {
  import opened Wrappers

  predicate Sorted(s: seq<nat>) {
    forall i, j | 0 <= i < j < |s| :: s[i] <= s[j]
  }

  function Insert(s: seq<nat>, x: nat): seq<nat> {
    if s == [] || x <= s[0] then [x] + s else [s[0]] + Insert(s[1..], x)
  }

  /** The samples in ascending order. */
  function SortedCopy(s: seq<nat>): seq<nat> {
    if s == [] then [] else Insert(SortedCopy(s[1..]), s[0])
  }

  /** How many samples are at most x; how many are below it. */
  function AtMost(s: seq<nat>, x: nat): nat {
    if s == [] then 0 else (if s[0] <= x then 1 else 0) + AtMost(s[1..], x)
  }

  function Below(s: seq<nat>, x: nat): nat {
    if s == [] then 0 else (if s[0] < x then 1 else 0) + Below(s[1..], x)
  }

  lemma {:induction false} InsertCounts(s: seq<nat>, x: nat, y: nat)
    ensures |Insert(s, x)| == |s| + 1
    ensures AtMost(Insert(s, x), y) == AtMost(s, y) + if x <= y then 1 else 0
    ensures Below(Insert(s, x), y) == Below(s, y) + if x < y then 1 else 0
    ensures forall z :: z in Insert(s, x) <==> z == x || z in s
  {
    if s == [] || x <= s[0] {
      assert ([x] + s)[1..] == s;
    } else {
      InsertCounts(s[1..], x, y);
      assert Insert(s, x)[1..] == Insert(s[1..], x);
      assert s == [s[0]] + s[1..];
    }
  }

  lemma ConsSorts(a: nat, rest: seq<nat>)
    requires Sorted(rest) && forall z | z in rest :: a <= z
    ensures Sorted([a] + rest)
  {
    assert forall j | 0 <= j < |rest| :: rest[j] in rest;
  }

  lemma HeadIsLeast(s: seq<nat>)
    requires Sorted(s) && s != []
    ensures Sorted(s[1..]) && forall z | z in s :: s[0] <= z
  {
  }

  lemma {:induction false} InsertSorts(s: seq<nat>, x: nat)
    requires Sorted(s)
    ensures Sorted(Insert(s, x))
  {
    hide Sorted, AtMost, Below;
    if s == [] {
      assert [x] + [] == [x];
      ConsSorts(x, []);
    } else {
      HeadIsLeast(s);
      if x <= s[0] {
        ConsSorts(x, s);
      } else {
        InsertSorts(s[1..], x);
        InsertCounts(s[1..], x, 0);
        assert forall z | z in s[1..] :: z in s;
        ConsSorts(s[0], Insert(s[1..], x));
      }
    }
  }

  lemma {:induction false} SortedCopyFacts(s: seq<nat>, y: nat)
    ensures |SortedCopy(s)| == |s| && Sorted(SortedCopy(s))
    ensures AtMost(SortedCopy(s), y) == AtMost(s, y) && Below(SortedCopy(s), y) == Below(s, y)
    ensures forall z :: z in SortedCopy(s) <==> z in s
  {
    if s != [] {
      SortedCopyFacts(s[1..], y);
      InsertCounts(SortedCopy(s[1..]), s[0], y);
      InsertSorts(SortedCopy(s[1..]), s[0]);
      hide Sorted, Insert;
      assert s == [s[0]] + s[1..];
    }
  }

  /** In ascending order, the i-th sample has i samples or fewer below it and more
      than i at most it. */
  lemma {:induction false} PlaceInOrder(s: seq<nat>, i: nat)
    requires Sorted(s) && i < |s|
    ensures Below(s, s[i]) <= i < AtMost(s, s[i])
  {
    if i == 0 {
      NoneBelow(s, s[0]);
    } else {
      PlaceInOrder(s[1..], i - 1);
    }
  }

  lemma {:induction false} NoneBelow(s: seq<nat>, x: nat)
    requires forall i | 0 <= i < |s| :: x <= s[i]
    ensures Below(s, x) == 0
  {
    if s != [] {
      NoneBelow(s[1..], x);
    }
  }

  function Ceil(x: real): int {
    -((-x).Floor)
  }

  function Scaled(x: real, n: nat): real {
    x * n as real
  }

  /** How a machine rounds the exact result of one operation. */
  type Rounding = real -> real

  /** The nearest rank of a percentile among n samples, from 1 to n, as computed
      with a rounding after each operation. */
  function Rank(p: real, n: nat, round: Rounding): (r: nat)
    requires n > 0
    ensures 1 <= r <= n
  {
    var r := Ceil(round(Scaled(round(p / 100.0), n)));
    if r < 1 then 1 else if r > n then n else r
  }

  function Exactly(): Rounding {
    x => x
  }

  function Abs(x: real): real {
    if x < 0.0 then -x else x
  }

  const PRECISION := 4_503_599_627_370_496.0

  /** Computed exactly, the rank is the least whole number that is at least this
      part of the samples, and the first for a part of none. */
  lemma ExactRank(p: real, n: nat)
    requires 0.0 <= p <= 100.0 && n > 0
    ensures var r := Rank(p, n, Exactly());
      && p * n as real <= r as real * 100.0
      && (r == 1 || (r - 1) as real * 100.0 < p * n as real)
  {
    var part := p / 100.0 * n as real;
    assert part * 100.0 == p * n as real;
    assert part <= n as real;
    hide Exactly;
    CeilIsLeast(part);
    ExactIsPart(p, n);
  }

  lemma CeilIsLeast(x: real)
    ensures x <= Ceil(x) as real && Ceil(x) as real - 1.0 < x
  {
  }

  lemma ExactIsPart(p: real, n: nat)
    ensures Exactly()(Scaled(Exactly()(p / 100.0), n)) == p / 100.0 * n as real
  {
  }

  /** Off by no more than one part in 2^52, or by that where the number is smaller
      than one, as double precision is. */
  ghost predicate IsDouble(round: Rounding) {
    forall x :: PRECISION * Abs(round(x) - x) <= 1.0 + Abs(x)
  }

  lemma CeilNear(x: real, y: real)
    requires Abs(x - y) < 1.0
    ensures -1 <= Ceil(x) - Ceil(y) <= 1
  {
  }

  lemma Times(a: real, b: real, n: real)
    requires a <= b && 0.0 <= n
    ensures a * n <= b * n
  {
  }

  lemma FirstError(exact: real, rounded: real, n: real)
    requires 0.0 <= exact <= 1.0 && 0.0 <= n <= 1024.0
    requires PRECISION * Abs(rounded - exact) <= 1.0 + Abs(exact)
    ensures 0.0 <= exact * n <= 1024.0
    ensures -0.2 <= rounded * n - exact * n <= 0.2
  {
    var e := rounded - exact;
    assert -0.0001 <= e <= 0.0001;
    Times(e, 0.0001, n);
    Times(n, 1024.0, 0.0001);
    assert 0.0001 * n <= 0.2;
    var low := -0.0001;
    Times(low, e, n);
    assert low * n + 0.0001 * n == (low + 0.0001) * n == 0.0;
    assert -0.2 <= e * n <= 0.2;
    Times(0.0, exact, n);
    Times(exact, 1.0, n);
    assert rounded * n == exact * n + e * n;
  }

  lemma SecondError(exact: real, y: real, product: real)
    requires 0.0 <= exact <= 1024.0 && -0.2 <= y - exact <= 0.2
    requires PRECISION * Abs(product - y) <= 1.0 + Abs(y)
    ensures Abs(product - exact) < 1.0
  {
  }

  lemma ErrorsAreSmall(exact: real, rounded: real, n: nat, product: real)
    requires 0.0 <= exact <= 1.0 && n <= 1024
    requires PRECISION * Abs(rounded - exact) <= 1.0 + Abs(exact)
    requires PRECISION * Abs(product - Scaled(rounded, n)) <= 1.0 + Abs(Scaled(rounded, n))
    ensures Abs(product - Scaled(exact, n)) < 1.0
  {
    FirstError(exact, rounded, n as real);
    SecondError(Scaled(exact, n), Scaled(rounded, n), product);
  }

  lemma ClampNear(p: real, n: nat, round: Rounding, other: Rounding)
    requires n > 0
    requires var x, y := round(Scaled(round(p / 100.0), n)), other(Scaled(other(p / 100.0), n));
      -1 <= Ceil(x) - Ceil(y) <= 1
    ensures Rank(p, n, other) - 1 <= Rank(p, n, round) <= Rank(p, n, other) + 1
  {
    hide Ceil, Scaled;
  }

  /** In double precision the rank of a window is the exact one or next to it. */
  lemma RoundingMovesOnePlace(p: real, n: nat, round: Rounding)
    requires 0.0 <= p <= 100.0 && 0 < n <= 1024
    ensures IsDouble(round) ==> Rank(p, n, Exactly()) - 1 <= Rank(p, n, round) <= Rank(p, n, Exactly()) + 1
  {
    hide Ceil, Rank, Abs, Scaled;
    if IsDouble(round) {
      var exact, rounded := p / 100.0, round(p / 100.0);
      var product := round(Scaled(rounded, n));
      assert PRECISION * Abs(rounded - exact) <= 1.0 + Abs(exact);
      assert PRECISION * Abs(product - Scaled(rounded, n)) <= 1.0 + Abs(Scaled(rounded, n));
      var other := Exactly();
      assert other(exact) == exact && other(Scaled(exact, n)) == Scaled(exact, n);
      hide IsDouble, Exactly;
      ErrorsAreSmall(exact, rounded, n, product);
      CeilNear(product, Scaled(exact, n));
      ClampNear(p, n, round, other);
    }
  }

  /** The percentile of a window: a sample of it, of which fewer than the rank lie
      below and at least as many as the rank do not lie above. */
  ghost predicate IsNearestRank(samples: seq<nat>, rank: nat, x: nat) {
    x in samples && Below(samples, x) < rank <= AtMost(samples, x)
  }

  lemma RankedIsNearest(samples: seq<nat>, rank: nat)
    requires 1 <= rank <= |samples|
    ensures |SortedCopy(samples)| == |samples| && IsNearestRank(samples, rank, SortedCopy(samples)[rank - 1])
  {
    SortedCopyFacts(samples, 0);
    var sorted := SortedCopy(samples);
    var x := sorted[rank - 1];
    SortedCopyFacts(samples, x);
    hide Sorted, SortedCopy;
    PlaceInOrder(sorted, rank - 1);
    hide AtMost, Below;
    assert x in sorted;
  }

  method PercentileOf(samples: seq<nat>, p: real, round: Rounding) returns (r: Option<nat>)
    ensures r.None? <==> samples == []
    ensures r.Some? ==> IsNearestRank(samples, Rank(p, |samples|, round), r.value)
  {
    hide Rank, IsNearestRank, SortedCopy;
    if samples == [] {
      return None;
    }
    var sorted := SortedCopy(samples);
    var rank := Rank(p, |samples|, round);
    RankedIsNearest(samples, rank);
    return Some(sorted[rank - 1]);
  }

  lemma {:induction false} BelowCoversAtMost(s: seq<nat>, x: nat, y: nat)
    requires x < y
    ensures AtMost(s, x) <= Below(s, y)
  {
    if s != [] {
      BelowCoversAtMost(s[1..], x, y);
    }
  }

  /** There is only one such sample, in whatever order the window holds them. */
  lemma NearestRankIsUnique(samples: seq<nat>, rank: nat, x: nat, y: nat)
    requires IsNearestRank(samples, rank, x) && IsNearestRank(samples, rank, y)
    ensures x == y
  {
    if x < y {
      BelowCoversAtMost(samples, x, y);
    } else if y < x {
      BelowCoversAtMost(samples, y, x);
    }
  }
}
