/** The price of oracle/fetcher.go: collecting what the sources send in time, and the median in 64-bit arithmetic. */
module Median {
  import opened Prelude

  const TWO64: nat := 0x1_0000_0000_0000_0000

  type Price = n: nat | n < TWO64

  // ---------- Collecting ----------

  /** The prices of the first n rounds of the select, up to the timeout, which is None. */
  function Received(select: nat -> Option<Price>, n: nat): seq<Price>
    decreases n
  {
    if n == 0 then []
    else
      var before := Received(select, n - 1);
      if |before| == n - 1 && select(n - 1).Some? then before + [select(n - 1).value] else before
  }

  /** The prices received are those of the rounds before the first timeout. */
  lemma {:induction false} ReceivedIsPrefix(select: nat -> Option<Price>, n: nat)
    ensures var r := Received(select, n);
            && |r| <= n
            && (forall i :: 0 <= i < |r| ==> select(i) == Some(r[i]))
            && (|r| < n ==> select(|r|) == None)
    decreases n
  {
    if n == 0 {
    } else {
      ReceivedIsPrefix(select, n - 1);
    }
  }

  // ---------- Sorting ----------

  predicate Ordered(s: seq<Price>) {
    forall i, j :: 0 <= i < j < |s| ==> s[i] <= s[j]
  }

  function Insert(x: Price, s: seq<Price>): (r: seq<Price>)
    requires Ordered(s)
    ensures Ordered(r) && multiset(r) == multiset(s) + multiset{x} && |r| == |s| + 1
    decreases |s|
  {
    if s == [] || x <= s[0] then [x] + s
    else
      assert s == [s[0]] + s[1..];
      var rest := Insert(x, s[1..]);
      assert forall i :: 0 <= i < |rest| ==> s[0] <= rest[i] by {
        InsertKeepsBound(x, s);
      }
      [s[0]] + rest
  }

  lemma InsertKeepsBound(x: Price, s: seq<Price>)
    requires Ordered(s) && s != [] && x > s[0]
    ensures forall i :: 0 <= i < |Insert(x, s[1..])| ==> s[0] <= Insert(x, s[1..])[i]
    decreases |s|, 0
  {
    var rest := Insert(x, s[1..]);
    forall i | 0 <= i < |rest|
      ensures s[0] <= rest[i]
    {
      assert rest[i] in multiset(rest);
      assert rest[i] in multiset(s[1..]) || rest[i] == x;
    }
  }

  /** The library sort: an ascending permutation, of which there is only one. */
  function Sort(s: seq<Price>): (r: seq<Price>)
    ensures Ordered(r) && multiset(r) == multiset(s) && |r| == |s|
    decreases |s|
  {
    if s == [] then []
    else
      assert s == s[..|s| - 1] + [s[|s| - 1]];
      Insert(s[|s| - 1], Sort(s[..|s| - 1]))
  }

  lemma TailMultiset(s: seq<Price>)
    requires s != []
    ensures multiset(s[1..]) == multiset(s) - multiset{s[0]}
  {
    assert s == [s[0]] + s[1..];
  }

  lemma FirstIsLeast(s: seq<Price>, x: Price)
    requires Ordered(s) && x in multiset(s)
    ensures s != [] && s[0] <= x
  {
    assert x in s;
  }

  lemma SameLength(a: seq<Price>, b: seq<Price>)
    requires multiset(a) == multiset(b)
    ensures |a| == |b|
  {
    assert |a| == |multiset(a)| && |b| == |multiset(b)|;
  }

  lemma SameFirst(a: seq<Price>, b: seq<Price>)
    requires Ordered(a) && Ordered(b) && multiset(a) == multiset(b) && a != []
    ensures b != [] && a[0] == b[0]
  {
    SameLength(a, b);
    assert a[0] in multiset(a) && b[0] in multiset(b);
    FirstIsLeast(a, b[0]);
    FirstIsLeast(b, a[0]);
  }

  lemma {:induction false} OrderedIsUnique(a: seq<Price>, b: seq<Price>)
    requires Ordered(a) && Ordered(b) && multiset(a) == multiset(b)
    ensures a == b
    decreases |a|
  {
    hide Ordered;
    SameLength(a, b);
    if a == [] {
    } else {
      SameFirst(a, b);
      TailsAgree(a, b);
      OrderedIsUnique(a[1..], b[1..]);
      assert a == [a[0]] + a[1..] && b == [b[0]] + b[1..];
    }
  }

  lemma TailsAgree(a: seq<Price>, b: seq<Price>)
    requires a != [] && b != [] && a[0] == b[0] && multiset(a) == multiset(b) && Ordered(a) && Ordered(b)
    ensures multiset(a[1..]) == multiset(b[1..]) && Ordered(a[1..]) && Ordered(b[1..])
  {
    hide Ordered;
    TailMultiset(a);
    TailMultiset(b);
    TailOrdered(a);
    TailOrdered(b);
  }

  lemma TailOrdered(s: seq<Price>)
    requires Ordered(s) && s != []
    ensures Ordered(s[1..])
  {
  }

  // ---------- The median ----------

  function MedianOf(prices: seq<Price>): Price
    requires |prices| >= 2
  {
    var s := Sort(prices);
    var n := |s|;
    if n % 2 == 1 then s[n / 2] else ((s[n / 2 - 1] + s[n / 2]) % TWO64) / 2
  }

  /** The order in which prices arrive does not matter. */
  lemma ArrivalOrderIrrelevant(a: seq<Price>, b: seq<Price>)
    requires multiset(a) == multiset(b) && |a| >= 2
    ensures |b| >= 2 && MedianOf(a) == MedianOf(b)
  {
    hide Sort;
    SameLength(a, b);
    OrderedIsUnique(Sort(a), Sort(b));
  }

  function CountIn(s: seq<Price>, lo: Price, hi: Price): nat
    decreases |s|
  {
    if s == [] then 0 else (if lo <= s[0] <= hi then 1 else 0) + CountIn(s[1..], lo, hi)
  }

  /** More than half of the prices lie between the bounds. */
  predicate Majority(s: seq<Price>, lo: Price, hi: Price) {
    2 * CountIn(s, lo, hi) > |s|
  }

  lemma {:induction false} CountInSplit(a: seq<Price>, b: seq<Price>, lo: Price, hi: Price)
    ensures CountIn(a + b, lo, hi) == CountIn(a, lo, hi) + CountIn(b, lo, hi)
    decreases |a|
  {
    if a == [] {
      assert a + b == b;
    } else {
      assert (a + b)[0] == a[0] && (a + b)[1..] == a[1..] + b;
      CountInSplit(a[1..], b, lo, hi);
    }
  }

  lemma {:induction false} CountInBounds(s: seq<Price>, lo: Price, hi: Price)
    ensures CountIn(s, lo, hi) <= |s|
    ensures (forall i :: 0 <= i < |s| ==> !(lo <= s[i] <= hi)) ==> CountIn(s, lo, hi) == 0
    ensures (forall i :: 0 <= i < |s| ==> lo <= s[i] <= hi) ==> CountIn(s, lo, hi) == |s|
    decreases |s|
  {
    if s == [] {
    } else {
      CountInBounds(s[1..], lo, hi);
    }
  }

  lemma {:induction false} InsertCounts(x: Price, s: seq<Price>, lo: Price, hi: Price)
    requires Ordered(s)
    ensures CountIn(Insert(x, s), lo, hi) == CountIn(s, lo, hi) + CountIn([x], lo, hi)
    decreases |s|
  {
    hide Ordered;
    if s == [] || x <= s[0] {
      CountInSplit([x], s, lo, hi);
    } else {
      TailOrdered(s);
      InsertCounts(x, s[1..], lo, hi);
      CountInSplit([s[0]], Insert(x, s[1..]), lo, hi);
      CountInSplit([s[0]], s[1..], lo, hi);
      assert [s[0]] + s[1..] == s;
    }
  }

  lemma {:induction false} SortCounts(s: seq<Price>, lo: Price, hi: Price)
    ensures CountIn(Sort(s), lo, hi) == CountIn(s, lo, hi)
    decreases |s|
  {
    hide Insert;
    if s == [] {
    } else {
      var n := |s| - 1;
      SortCounts(s[..n], lo, hi);
      InsertCounts(s[n], Sort(s[..n]), lo, hi);
      CountInSplit(s[..n], [s[n]], lo, hi);
      assert s[..n] + [s[n]] == s;
    }
  }

  lemma OutsideStart(s: seq<Price>, lo: Price, hi: Price, k: nat)
    requires k <= |s| && forall i :: 0 <= i < k ==> !(lo <= s[i] <= hi)
    ensures CountIn(s, lo, hi) <= |s| - k
  {
    hide CountIn;
    assert s == s[..k] + s[k..];
    CountInSplit(s[..k], s[k..], lo, hi);
    CountInBounds(s[..k], lo, hi);
    CountInBounds(s[k..], lo, hi);
  }

  lemma OutsideEnd(s: seq<Price>, lo: Price, hi: Price, k: nat)
    requires k <= |s| && forall i :: k <= i < |s| ==> !(lo <= s[i] <= hi)
    ensures CountIn(s, lo, hi) <= k
  {
    hide CountIn;
    assert s == s[..k] + s[k..];
    CountInSplit(s[..k], s[k..], lo, hi);
    CountInBounds(s[..k], lo, hi);
    CountInBounds(s[k..], lo, hi);
  }

  /** If a majority of an ordered sequence lies between the bounds, so do the elements next to its middle. */
  lemma MiddleIsInside(s: seq<Price>, lo: Price, hi: Price, k: nat)
    requires Ordered(s) && Majority(s, lo, hi)
    requires k < |s| && |s| <= 2 * k + 2 && 2 * k <= |s|
    ensures lo <= s[k] <= hi
  {
    hide CountIn;
    if s[k] < lo {
      OutsideStart(s, lo, hi, k + 1);
    }
    if s[k] > hi {
      OutsideEnd(s, lo, hi, k);
    }
  }

  /** x is the price at position k when the prices are put in order. */
  ghost predicate HasRank(prices: seq<Price>, x: Price, k: nat) {
    k < |prices| && CountIn(prices, 0, x) >= k + 1 && CountIn(prices, x, TWO64 - 1) >= |prices| - k
  }

  lemma SortedHasRank(prices: seq<Price>, k: nat)
    requires k < |prices|
    ensures HasRank(prices, Sort(prices)[k], k)
  {
    hide Sort, CountIn;
    var s := Sort(prices);
    SortCounts(prices, 0, s[k]);
    SortCounts(prices, s[k], TWO64 - 1);
    assert s == s[..k + 1] + s[k + 1..] && s == s[..k] + s[k..];
    CountInSplit(s[..k + 1], s[k + 1..], 0, s[k]);
    CountInSplit(s[..k], s[k..], s[k], TWO64 - 1);
    CountInBounds(s[..k + 1], 0, s[k]);
    CountInBounds(s[k..], s[k], TWO64 - 1);
  }

  lemma {:induction false} CountApart(s: seq<Price>, x: Price, y: Price)
    requires x < y
    ensures CountIn(s, 0, x) + CountIn(s, y, TWO64 - 1) <= |s|
    decreases |s|
  {
    if s == [] {
    } else {
      CountApart(s[1..], x, y);
    }
  }

  lemma RankIsUnique(prices: seq<Price>, x: Price, y: Price, k: nat)
    requires HasRank(prices, x, k) && HasRank(prices, y, k)
    ensures x == y
  {
    hide CountIn;
    if x < y {
      CountApart(prices, x, y);
    } else if y < x {
      CountApart(prices, y, x);
    }
  }

  /**
   The median by counting alone: the price of middle rank, or half the sum, cut to 64 bits and rounded down,
   of the two prices of middle rank.
   */
  lemma MedianByRank(prices: seq<Price>, lower: Price, upper: Price)
    requires |prices| >= 2
    requires HasRank(prices, lower, (|prices| - 1) / 2) && HasRank(prices, upper, |prices| / 2)
    ensures |prices| % 2 == 1 ==> MedianOf(prices) == lower == upper
    ensures |prices| % 2 == 0 && lower + upper < TWO64 ==> MedianOf(prices) == (lower + upper) / 2
    ensures |prices| % 2 == 0 && lower + upper >= TWO64 ==> MedianOf(prices) == (lower + upper - TWO64) / 2
  {
    hide Sort, HasRank;
    var s, n := Sort(prices), |prices|;
    SortedHasRank(prices, (n - 1) / 2);
    SortedHasRank(prices, n / 2);
    RankIsUnique(prices, lower, s[(n - 1) / 2], (n - 1) / 2);
    RankIsUnique(prices, upper, s[n / 2], n / 2);
  }

  /** The middle prices can be averaged without overflow. */
  predicate MiddleFits(prices: seq<Price>)
    requires |prices| >= 2
  {
    var s := Sort(prices);
    |s| % 2 == 1 || s[|s| / 2 - 1] + s[|s| / 2] < TWO64
  }

  lemma MajorityDecides(prices: seq<Price>, lo: Price, hi: Price)
    requires |prices| >= 2 && Majority(prices, lo, hi) && MiddleFits(prices)
    ensures lo <= MedianOf(prices) <= hi
  {
    hide Sort, CountIn;
    var s := Sort(prices);
    var n := |s|;
    SortCounts(prices, lo, hi);
    MiddleIsInside(s, lo, hi, n / 2);
    if n % 2 == 0 {
      MiddleIsInside(s, lo, hi, n / 2 - 1);
    }
  }

  /** When the sum of the middle prices overflows, the result falls below both. */
  lemma OverflowFallsBelow(a: Price, b: Price)
    requires a <= b && a + b >= TWO64
    ensures ((a + b) % TWO64) / 2 < a
  {
    assert (a + b) % TWO64 == a + b - TWO64;
  }

  /** A majority always decides the result if and only if the middle prices do not overflow. */
  lemma RobustIffMiddleFits(prices: seq<Price>)
    requires |prices| >= 2
    ensures (forall lo: Price, hi: Price :: Majority(prices, lo, hi) ==> lo <= MedianOf(prices) <= hi)
       <==> MiddleFits(prices)
  {
    hide Sort, CountIn;
    if MiddleFits(prices) {
      forall lo: Price, hi: Price | Majority(prices, lo, hi)
        ensures lo <= MedianOf(prices) <= hi
      {
        MajorityDecides(prices, lo, hi);
      }
    } else {
      var s := Sort(prices);
      var k := |s| / 2 - 1;
      var lo, hi := s[k], s[|s| - 1];
      OverflowFallsBelow(s[k], s[k + 1]);
      assert s == s[..k] + s[k..];
      CountInSplit(s[..k], s[k..], lo, hi);
      CountInBounds(s[k..], lo, hi);
      assert forall i :: 0 <= i < |s[k..]| ==> lo <= s[k..][i] <= hi;
      SortCounts(prices, lo, hi);
      assert Majority(prices, lo, hi) && MedianOf(prices) < lo;
    }
  }

  // ---------- The code ----------

  /** FetchPrice over the given number of sources; None is the error for fewer than two prices. */
  method FetchPrice(sources: nat, select: nat -> Option<Price>) returns (price: Option<Price>)
    ensures var received := Received(select, sources);
            price == if |received| < 2 then None else Some(MedianOf(received))
  {
    hide Sort;
    ReceivedIsPrefix(select, sources);
    var prices: seq<Price> := [];
    var i := 0;
    while i < sources
      invariant 0 <= i <= sources
      invariant |prices| == i && prices == Received(select, i)
    {
      if select(i) == None {
        ReceivedStops(select, i, sources);
        break;
      }
      prices := prices + [select(i).value];
      i := i + 1;
    }
    if |prices| < 2 {
      return None;
    }
    var sorted := Sort(prices);
    var n := |sorted|;
    if n % 2 == 1 {
      return Some(sorted[n / 2]);
    }
    return Some(((sorted[n / 2 - 1] + sorted[n / 2]) % TWO64) / 2);
  }

  lemma {:induction false} ReceivedStops(select: nat -> Option<Price>, i: nat, n: nat)
    requires i <= n && |Received(select, i)| == i && select(i) == None
    ensures Received(select, n) == Received(select, i)
    decreases n
  {
    if i < n {
      ReceivedStops(select, i, n - 1);
    }
  }
}
