/** `CalculatePrimeImplicants`: rounds of merging over the sorted implicants until a round
    forms no product. */
module Rounds {
  import opened Tokens
  import opened Minterms
  import opened Implicants
  import opened Sorting

  // ---------------------------------------------------------------------------------
  // One round

  /** The products `cur` forms with the elements from index `j` on, scanning until the
      first element whose one counter is more than one away (the inner loop). */
  function Partners(cur: Implicant, s: seq<Implicant>, j: nat, vars: seq<char>): seq<Implicant>
    requires |cur.bits| <= |vars| && Fits(s, vars) && j <= |s|
    decreases |s| - j, 1
  {
    if j == |s| || Abs(cur.ones - s[j].ones) > 1 then []
    else PartnersAt(cur, s, j, vars)
  }

  /** One round of the inner loop that does not stop: the product with `s[j]`, then the
      scan from `j + 1` on. */
  function PartnersAt(cur: Implicant, s: seq<Implicant>, j: nat, vars: seq<char>): seq<Implicant>
    requires |cur.bits| <= |vars| && Fits(s, vars) && j < |s|
    decreases |s| - j, 0
  {
    Product(cur, s[j], vars) + Partners(cur, s, j + 1, vars)
  }

  /** The product of two implicants as a sequence of at most one element. */
  function Product(a: Implicant, b: Implicant, vars: seq<char>): seq<Implicant>
    requires |a.bits| <= |vars| && |b.bits| <= |vars|
  {
    match Merge(a, Some(b), vars)
    case None => []
    case Some(m) => [m]
  }

  /** The outer loop from index `i` on: the products formed (`nextSet`) and the elements
      that formed none with a later element (`iterationPrimes`). */
  function RoundFrom(s: seq<Implicant>, i: nat, vars: seq<char>): (seq<Implicant>, seq<Implicant>)
    requires Fits(s, vars) && i <= |s|
    decreases |s| - i
  {
    if i == |s| then ([], [])
    else
      var ps := Partners(s[i], s, i + 1, vars);
      var rest := RoundFrom(s, i + 1, vars);
      (ps + rest.0, (if ps == [] then [s[i]] else []) + rest.1)
  }

  predicate Mergeable(a: Implicant, b: Implicant, vars: seq<char>)
    requires |a.bits| <= |vars| && |b.bits| <= |vars|
  {
    Merge(a, Some(b), vars).Some?
  }

  /** No two of the implicants merge. */
  predicate Unmergeable(p: seq<Implicant>, vars: seq<char>)
    requires Fits(p, vars)
  {
    forall i, j {:trigger Mergeable(p[i], p[j], vars)} :: 0 <= i < |p| && 0 <= j < |p| ==> !Mergeable(p[i], p[j], vars)
  }

  /** `x` comes no later than `y` by the counters `CompareTo` looks at first. */
  predicate Before(x: Implicant, y: Implicant) {
    x.dashes < y.dashes || (x.dashes == y.dashes && x.ones <= y.ones)
  }

  /** Ascending by dash counter, then one counter. */
  predicate Ranked(s: seq<Implicant>) {
    forall a, b :: 0 <= a < b < |s| ==> Before(s[a], s[b])
  }

  /** The minterm `m` is implied by one of the implicants. */
  ghost predicate InCover(s: seq<Implicant>, m: nat) {
    exists y :: y in s && m in y.minterms
  }

  /** The minterms the implicants imply. */
  function CoverOf(s: seq<Implicant>): set<nat> {
    set y, m | y in s && m in y.minterms :: m
  }

  lemma CoverOfIn(s: seq<Implicant>)
    ensures forall m :: m in CoverOf(s) <==> InCover(s, m)
  {
  }

  // ---------------------------------------------------------------------------------
  // Facts about single merges and the order

  /** A sound implicant's minterms are the rows its vector covers, two to the power of
      its vector's dashes of them. */
  lemma MintermsOf(x: Implicant, vars: seq<char>)
    requires Over(x, vars)
    ensures forall m :: m in x.minterms <==> Implies(x.bits, m)
    ensures |x.minterms| == Pow2(DashCount(x.bits)) && DashCount(x.bits) <= |vars|
  {
    ImpliedMintermsCorrect(x.bits);
    CountsBound(x.bits);
  }

  /** Implicants that merge have the same dash counter, one counters at most one apart
      (exactly one with exact counters) and vectors with as many dashes; their product
      has exact counters and one dash more. */
  lemma MergeFacts(a: Implicant, b: Implicant, vars: seq<char>)
    requires Over(a, vars) && Over(b, vars) && Mergeable(a, b, vars)
    ensures a.dashes == b.dashes && Abs(a.ones - b.ones) <= 1 && DashCount(a.bits) == DashCount(b.bits)
    ensures Exact(a) && Exact(b) ==> Abs(a.ones - b.ones) == 1
    ensures var m := Merge(a, Some(b), vars).value;
            Over(m, vars) && Exact(m) && DashCount(m.bits) == DashCount(a.bits) + 1 &&
            forall x :: x in m.minterms <==> x in a.minterms || x in b.minterms
  {
    MergeCounts(a, b, vars);
    MergeProduct(a, b, vars);
  }

  lemma MergeCounts(a: Implicant, b: Implicant, vars: seq<char>)
    requires Over(a, vars) && Over(b, vars) && Mergeable(a, b, vars)
    ensures a.dashes == b.dashes && Abs(a.ones - b.ones) <= 1 && DashCount(a.bits) == DashCount(b.bits)
    ensures Exact(a) && Exact(b) ==> Abs(a.ones - b.ones) == 1
  {
    MergeCorrect(a, b, vars);
    var p :| 0 <= p < |a.bits| && a.bits[p] != Dash && b.bits[p] != Dash && a.bits[p] != b.bits[p] &&
      forall j :: 0 <= j < |a.bits| && j != p ==> a.bits[j] == b.bits[j];
    AdjacentCounts(a.bits, b.bits, p);
  }

  lemma MergeProduct(a: Implicant, b: Implicant, vars: seq<char>)
    requires Over(a, vars) && Over(b, vars) && Mergeable(a, b, vars)
    ensures var m := Merge(a, Some(b), vars).value;
            Over(m, vars) && Exact(m) && DashCount(m.bits) == DashCount(a.bits) + 1 &&
            forall x :: x in m.minterms <==> x in a.minterms || x in b.minterms
  {
    MergeCorrect(a, b, vars);
    MintermsOf(a, vars);
    MintermsOf(b, vars);
  }

  /** `CompareTo` orders by dash counter first, then by one counter. */
  lemma OrderFacts(a: Implicant, b: Implicant, vars: seq<char>)
    requires |a.bits| <= |vars| && |b.bits| <= |vars| && LessEq(a, b, vars)
    ensures Before(a, b)
  {
  }

  lemma SortedRanked(s: seq<Implicant>, vars: seq<char>)
    requires Fits(s, vars) && Sorted(s, vars)
    ensures Ranked(s)
  {
    forall a, b | 0 <= a < b < |s|
      ensures Before(s[a], s[b])
    {
      OrderFacts(s[a], s[b], vars);
    }
  }

  /** An implicant never merges with itself: the texts are equal. */
  lemma NotWithItself(a: Implicant, vars: seq<char>)
    requires |a.bits| <= |vars|
    ensures !Mergeable(a, a, vars)
  {
  }

  // ---------------------------------------------------------------------------------
  // What a round contains

  lemma {:induction false} PartnersMembers(cur: Implicant, s: seq<Implicant>, j: nat, vars: seq<char>)
    requires |cur.bits| <= |vars| && Fits(s, vars) && j <= |s|
    ensures forall y :: y in Partners(cur, s, j, vars) ==>
              exists k :: j <= k < |s| && Merge(cur, Some(s[k]), vars) == Some(y)
    decreases |s| - j
  {
    if j < |s| && Abs(cur.ones - s[j].ones) <= 1 {
      PartnersMembers(cur, s, j + 1, vars);
    }
  }

  lemma {:induction false} RoundProducts(s: seq<Implicant>, i: nat, vars: seq<char>)
    requires Fits(s, vars) && i <= |s|
    ensures forall y :: y in RoundFrom(s, i, vars).0 ==>
              exists a, k :: i <= a < k < |s| && Merge(s[a], Some(s[k]), vars) == Some(y)
    decreases |s| - i
  {
    if i < |s| {
      var ps := Partners(s[i], s, i + 1, vars);
      var rest := RoundFrom(s, i + 1, vars);
      RoundProducts(s, i + 1, vars);
      PartnersMembers(s[i], s, i + 1, vars);
      assert RoundFrom(s, i, vars).0 == ps + rest.0;
      forall y | y in ps + rest.0
        ensures exists a, k :: i <= a < k < |s| && Merge(s[a], Some(s[k]), vars) == Some(y)
      {
        if y in ps {
          var k :| i + 1 <= k < |s| && Merge(s[i], Some(s[k]), vars) == Some(y);
          assert i <= i < k < |s|;
        } else {
          assert y in rest.0;
          var a, k :| i + 1 <= a < k < |s| && Merge(s[a], Some(s[k]), vars) == Some(y);
          assert i <= a < k < |s|;
        }
      }
    }
  }

  lemma {:induction false} RoundPrimes(s: seq<Implicant>, i: nat, vars: seq<char>)
    requires Fits(s, vars) && i <= |s|
    ensures forall y :: y in RoundFrom(s, i, vars).1 ==>
              exists a :: i <= a < |s| && s[a] == y && Partners(s[a], s, a + 1, vars) == []
    decreases |s| - i
  {
    if i < |s| {
      RoundPrimes(s, i + 1, vars);
    }
  }

  lemma {:induction false} RoundContains(s: seq<Implicant>, i: nat, a: nat, vars: seq<char>)
    requires Fits(s, vars) && i <= a < |s|
    ensures forall y :: y in Partners(s[a], s, a + 1, vars) ==> y in RoundFrom(s, i, vars).0
    ensures |Partners(s[a], s, a + 1, vars)| <= |RoundFrom(s, i, vars).0|
    ensures Partners(s[a], s, a + 1, vars) == [] ==> s[a] in RoundFrom(s, i, vars).1
    decreases a - i
  {
    if i < a {
      RoundContains(s, i + 1, a, vars);
    }
  }

  /** Where the scan from index `j` stops: the first element whose one counter is more
      than one away from `cur`'s, or the end. */
  function Stop(cur: Implicant, s: seq<Implicant>, j: nat): (r: nat)
    requires j <= |s|
    ensures j <= r <= |s|
    decreases |s| - j
  {
    if j == |s| || Abs(cur.ones - s[j].ones) > 1 then j else Stop(cur, s, j + 1)
  }

  /** The scan forms a product when it passes an element that `cur` merges with. */
  lemma {:induction false} PartnersHas(cur: Implicant, s: seq<Implicant>, j: nat, k: nat, vars: seq<char>)
    requires |cur.bits| <= |vars| && Fits(s, vars) && j <= k < |s| && k < Stop(cur, s, j)
    requires Product(cur, s[k], vars) != []
    ensures Partners(cur, s, j, vars) != []
    decreases k - j
  {
    if j < k {
      PartnersHas(cur, s, j + 1, k, vars);
    }
  }

  /** Between two elements of a ranked sequence with one dash counter and one counters
      at most one apart, every element has one counter at most one away from the first. */
  lemma WindowCounts(s: seq<Implicant>, i: nat, k: nat, j: nat)
    requires Ranked(s) && i < k <= j < |s|
    requires s[i].dashes == s[j].dashes && Abs(s[i].ones - s[j].ones) <= 1
    ensures Abs(s[i].ones - s[k].ones) <= 1
  {
    assert Before(s[i], s[j]) && Before(s[i], s[k]);
    if k < j {
      assert Before(s[k], s[j]);
    }
  }

  /** In a ranked sequence the scan from `s[i]` passes every later element of its dash
      counter whose one counter is at most one away: the elements in between have one
      counters at most one above it, so the scan does not stop early. */
  lemma {:induction false} Window(s: seq<Implicant>, i: nat, k: nat, j: nat)
    requires Ranked(s) && i < k <= j < |s|
    requires s[i].dashes == s[j].dashes && Abs(s[i].ones - s[j].ones) <= 1
    ensures j < Stop(s[i], s, k)
    decreases j - k
  {
    WindowCounts(s, i, k, j);
    if k < j {
      Window(s, i, k + 1, j);
    }
  }

  /** A pair that merges means the earlier element of the pair is not among the round's
      primes. */
  lemma PairCombines(s: seq<Implicant>, a: nat, k: nat, vars: seq<char>)
    requires Fits(s, vars) && Ranked(s) && a < |s| && k < |s|
    requires Over(s[a], vars) && Over(s[k], vars)
    ensures Mergeable(s[a], s[k], vars) ==>
              a != k &&
              (a < k ==> Partners(s[a], s, a + 1, vars) != []) &&
              (k < a ==> Partners(s[k], s, k + 1, vars) != [])
  {
    NotWithItself(s[a], vars);
    if Mergeable(s[a], s[k], vars) && a < k {
      MergeFacts(s[a], s[k], vars);
      Window(s, a, a + 1, k);
      assert Product(s[a], s[k], vars) != [];
      PartnersHas(s[a], s, a + 1, k, vars);
    }
    if Mergeable(s[a], s[k], vars) && k < a {
      MergeSymmetric(s[a], s[k], vars);
      MergeFacts(s[k], s[a], vars);
      Window(s, k, k + 1, a);
      assert Product(s[k], s[a], vars) != [];
      PartnersHas(s[k], s, k + 1, a, vars);
    }
  }

  // ---------------------------------------------------------------------------------
  // What a round establishes

  lemma InCoverMembers(a: seq<Implicant>, b: seq<Implicant>, m: nat)
    requires forall y :: y in a <==> y in b
    ensures InCover(a, m) <==> InCover(b, m)
  {
  }

  /** Implicants with the same members imply the same minterms. */
  lemma SameCover(a: seq<Implicant>, b: seq<Implicant>)
    requires forall y :: y in a <==> y in b
    ensures CoverOf(a) == CoverOf(b)
  {
    CoverOfIn(a);
    CoverOfIn(b);
    forall m
      ensures m in CoverOf(a) <==> m in CoverOf(b)
    {
      InCoverMembers(a, b, m);
    }
  }

  lemma InCoverAppend(a: seq<Implicant>, b: seq<Implicant>, m: nat)
    ensures InCover(a + b, m) <==> InCover(a, m) || InCover(b, m)
  {
    if InCover(a + b, m) {
      var y :| y in a + b && m in y.minterms;
    }
    if InCover(a, m) {
      var y :| y in a && m in y.minterms;
      assert y in a + b;
    }
    if InCover(b, m) {
      var y :| y in b && m in y.minterms;
      assert y in a + b;
    }
  }

  lemma AllOverMembers(p: seq<Implicant>, vars: seq<char>)
    requires forall y :: y in p ==> Over(y, vars)
    ensures AllOver(p, vars) && Fits(p, vars)
  {
    forall i | 0 <= i < |p|
      ensures Over(p[i], vars)
    {
      assert p[i] in p;
    }
    AllOverFits(p, vars);
  }

  lemma AllOverAppend(a: seq<Implicant>, b: seq<Implicant>, vars: seq<char>)
    ensures AllOver(a + b, vars) <==> AllOver(a, vars) && AllOver(b, vars)
  {
    if AllOver(a + b, vars) {
      assert forall i :: 0 <= i < |a| ==> a[i] == (a + b)[i];
      assert forall i :: 0 <= i < |b| ==> b[i] == (a + b)[|a| + i];
    }
  }

  /** Products of a round are sound and imply only minterms of the round's input;
      its primes are elements of the input. */
  lemma RoundOutputs(s: seq<Implicant>, vars: seq<char>)
    requires AllOver(s, vars) && Fits(s, vars)
    ensures var r := RoundFrom(s, 0, vars);
            (forall y :: y in r.0 ==> Over(y, vars) && forall m :: m in y.minterms ==> InCover(s, m)) &&
            (forall y :: y in r.1 ==> y in s)
  {
    var r := RoundFrom(s, 0, vars);
    RoundProducts(s, 0, vars);
    RoundPrimes(s, 0, vars);
    forall y | y in r.0
      ensures Over(y, vars) && forall m :: m in y.minterms ==> InCover(s, m)
    {
      var a, k :| 0 <= a < k < |s| && Merge(s[a], Some(s[k]), vars) == Some(y);
      MergeFacts(s[a], s[k], vars);
      assert s[a] in s && s[k] in s;
    }
  }

  /** Each minterm of an element of the round's input is implied by a product or a prime
      of the round. */
  lemma RoundReaches(s: seq<Implicant>, a: nat, m: nat, vars: seq<char>)
    requires AllOver(s, vars) && Fits(s, vars) && a < |s| && m in s[a].minterms
    ensures InCover(RoundFrom(s, 0, vars).0 + RoundFrom(s, 0, vars).1, m)
  {
    var r := RoundFrom(s, 0, vars);
    InCoverAppend(r.0, r.1, m);
    RoundContains(s, 0, a, vars);
    var ps := Partners(s[a], s, a + 1, vars);
    if ps != [] {
      PartnersMembers(s[a], s, a + 1, vars);
      assert ps[0] in ps;
      var k :| a + 1 <= k < |s| && Merge(s[a], Some(s[k]), vars) == Some(ps[0]);
      MergeFacts(s[a], s[k], vars);
      assert ps[0] in r.0;
    }
  }

  /** Products and primes of a round are sound and imply exactly the minterms of the
      round's input. */
  lemma RoundCover(s: seq<Implicant>, vars: seq<char>)
    requires AllOver(s, vars) && Fits(s, vars)
    ensures var r := RoundFrom(s, 0, vars);
            AllOver(r.0, vars) && AllOver(r.1, vars) && Fits(r.1, vars) &&
            CoverOf(r.0 + r.1) == CoverOf(s)
  {
    var r := RoundFrom(s, 0, vars);
    RoundOutputs(s, vars);
    AllOverMembers(r.0, vars);
    forall y | y in r.1
      ensures Over(y, vars)
    {
      var a :| 0 <= a < |s| && s[a] == y;
    }
    AllOverMembers(r.1, vars);
    forall m
      ensures InCover(r.0 + r.1, m) <==> InCover(s, m)
    {
      InCoverAppend(r.0, r.1, m);
      if InCover(s, m) {
        var y :| y in s && m in y.minterms;
        var a :| 0 <= a < |s| && s[a] == y;
        RoundReaches(s, a, m, vars);
      }
    }
    CoverOfIn(r.0 + r.1);
    CoverOfIn(s);
  }

  /** The primes of a round of a ranked sequence do not merge with one another. */
  lemma RoundPrimesUnmergeable(s: seq<Implicant>, vars: seq<char>)
    requires AllOver(s, vars) && Fits(s, vars) && Ranked(s)
    requires Fits(RoundFrom(s, 0, vars).1, vars)
    ensures Unmergeable(RoundFrom(s, 0, vars).1, vars)
  {
    var p := RoundFrom(s, 0, vars).1;
    RoundPrimes(s, 0, vars);
    forall i, j | 0 <= i < |p| && 0 <= j < |p|
      ensures !Mergeable(p[i], p[j], vars)
    {
      assert p[i] in p && p[j] in p;
      var a :| 0 <= a < |s| && s[a] == p[i] && Partners(s[a], s, a + 1, vars) == [];
      var k :| 0 <= k < |s| && s[k] == p[j] && Partners(s[k], s, k + 1, vars) == [];
      PairCombines(s, a, k, vars);
    }
  }

  /** A round that forms no product was given a sequence none of whose elements merge. */
  lemma NoProducts(s: seq<Implicant>, vars: seq<char>)
    requires AllOver(s, vars) && Fits(s, vars) && Ranked(s)
    requires RoundFrom(s, 0, vars).0 == []
    ensures Unmergeable(s, vars)
  {
    forall a, k | 0 <= a < |s| && 0 <= k < |s|
      ensures !Mergeable(s[a], s[k], vars)
    {
      RoundContains(s, 0, a, vars);
      RoundContains(s, 0, k, vars);
      PairCombines(s, a, k, vars);
    }
  }

  /** Two earlier primes do not merge. */
  lemma PrimesDontMerge(x: Implicant, z: Implicant, primes: seq<Implicant>, vars: seq<char>)
    requires |x.bits| <= |vars| && |z.bits| <= |vars|
    requires Fits(primes, vars) && Unmergeable(primes, vars)
    ensures x in primes && z in primes ==> !Mergeable(x, z, vars)
  {
    if x in primes && z in primes {
      var t :| 0 <= t < |primes| && primes[t] == x;
      var u :| 0 <= u < |primes| && primes[u] == z;
      assert !Mergeable(primes[t], primes[u], vars);
    }
  }

  /** A product with an operand whose vector has at least `level` dashes has more than
      `level`. */
  lemma ProductLevel(x: Implicant, z: Implicant, next: seq<Implicant>, primes: seq<Implicant>, vars: seq<char>, level: nat)
    requires x in next + primes && z in next + primes && Over(x, vars) && Over(z, vars) && Mergeable(x, z, vars)
    requires forall i :: 0 <= i < |next| ==> DashCount(next[i].bits) >= level
    requires Fits(primes, vars) && Unmergeable(primes, vars)
    ensures var y := Merge(x, Some(z), vars).value;
            level + 1 <= DashCount(y.bits) <= |vars|
  {
    MergeFacts(x, z, vars);
    MintermsOf(Merge(x, Some(z), vars).value, vars);
    PrimesDontMerge(x, z, primes, vars);
    if x in next {
      var t :| 0 <= t < |next| && next[t] == x;
    } else {
      var t :| 0 <= t < |next| && next[t] == z;
    }
  }

  /** Products of a round have more dashes than the level the round starts at: a merging
      pair cannot consist of two primes of the previous round, and whatever else it
      holds has a vector with at least `level` dashes. */
  lemma RoundLevels(next: seq<Implicant>, primes: seq<Implicant>, s: seq<Implicant>, vars: seq<char>, level: nat)
    requires forall y :: y in s ==> y in next + primes
    requires AllOver(s, vars) && Fits(s, vars) && Fits(primes, vars)
    requires forall i :: 0 <= i < |next| ==> DashCount(next[i].bits) >= level
    requires Unmergeable(primes, vars)
    ensures forall y :: y in RoundFrom(s, 0, vars).0 ==> level + 1 <= DashCount(y.bits) <= |vars|
  {
    RoundProducts(s, 0, vars);
    forall y | y in RoundFrom(s, 0, vars).0
      ensures level + 1 <= DashCount(y.bits) <= |vars|
    {
      var a, k :| 0 <= a < k < |s| && Merge(s[a], Some(s[k]), vars) == Some(y);
      assert s[a] in s && s[k] in s;
      ProductLevel(s[a], s[k], next, primes, vars, level);
    }
  }

  // ---------------------------------------------------------------------------------
  // The rounds until none forms a product

  /** What the do-while holds at the top of a round: sound implicants, the latest
      products with at least `level` dashes in their vectors, and earlier primes no two
      of which merge. */
  predicate RoundInput(next: seq<Implicant>, primes: seq<Implicant>, vars: seq<char>, level: nat) {
    AllOver(next + primes, vars) && Fits(next + primes, vars) && Fits(primes, vars) &&
    (forall i :: 0 <= i < |next| ==> DashCount(next[i].bits) >= level) &&
    Unmergeable(primes, vars)
  }

  /** What the last round holds: a sorted sequence none of whose elements merge, and
      primes taken from it. */
  predicate LastInput(s: seq<Implicant>, p: seq<Implicant>, vars: seq<char>) {
    AllOver(s, vars) && Fits(s, vars) && Unmergeable(s, vars) &&
    AllOver(s + p, vars) && Fits(s + p, vars) && (forall y :: y in p ==> y in s)
  }

  /** A round with products hands the next round a sound input one level up. */
  lemma NextInput(next: seq<Implicant>, primes: seq<Implicant>, s: seq<Implicant>,
                  r: (seq<Implicant>, seq<Implicant>), vars: seq<char>, level: nat)
    requires RoundInput(next, primes, vars, level)
    requires AllOver(s, vars) && Fits(s, vars) && Ranked(s) && forall y :: y in s ==> y in next + primes
    requires r == RoundFrom(s, 0, vars) && r.0 != []
    requires AllOver(r.0, vars) && AllOver(r.1, vars) && Fits(r.1, vars)
    ensures RoundInput(r.0, r.1, vars, level + 1) && level + 1 <= |vars|
  {
    RoundPrimesUnmergeable(s, vars);
    RoundLevels(next, primes, s, vars, level);
    assert r.0[0] in r.0;
    forall i | 0 <= i < |r.0|
      ensures DashCount(r.0[i].bits) >= level + 1
    {
      assert r.0[i] in r.0;
    }
    AllOverAppend(r.0, r.1, vars);
    AllOverFits(r.0 + r.1, vars);
  }

  /** A round without products is the last one. */
  lemma LastOf(s: seq<Implicant>, r: (seq<Implicant>, seq<Implicant>), vars: seq<char>)
    requires AllOver(s, vars) && Fits(s, vars) && Ranked(s)
    requires r == RoundFrom(s, 0, vars) && r.0 == []
    requires AllOver(r.1, vars) && forall y :: y in r.1 ==> y in s
    ensures LastInput(s, r.1, vars)
  {
    NoProducts(s, vars);
    AllOverAppend(s, r.1, vars);
    AllOverFits(s + r.1, vars);
  }

  /** What one round hands to the next. */
  lemma RoundStep(next: seq<Implicant>, primes: seq<Implicant>, s: seq<Implicant>,
                  r: (seq<Implicant>, seq<Implicant>), vars: seq<char>, level: nat)
    requires RoundInput(next, primes, vars, level)
    requires s == Sort(next + primes, vars) && Fits(s, vars) && r == RoundFrom(s, 0, vars)
    ensures r.0 != [] ==> RoundInput(r.0, r.1, vars, level + 1) && level + 1 <= |vars|
    ensures r.0 == [] ==> LastInput(s, r.1, vars)
    ensures forall y :: y in s <==> y in next + primes
    ensures CoverOf(r.0 + r.1) == CoverOf(s)
  {
    MembersOver(s, next + primes, vars);
    SortSorted(next + primes, vars);
    SortedRanked(s, vars);
    assert forall y :: y in s <==> y in multiset(next + primes);
    RoundCover(s, vars);
    RoundOutputs(s, vars);
    if r.0 != [] {
      NextInput(next, primes, s, r, vars, level);
    } else {
      LastOf(s, r, vars);
    }
  }

  /** What one round does to the minterms implied, and what it hands on. */
  lemma CoverStep(next: seq<Implicant>, primes: seq<Implicant>, s: seq<Implicant>,
                  r: (seq<Implicant>, seq<Implicant>), vars: seq<char>, level: nat)
    requires RoundInput(next, primes, vars, level)
    requires s == Sort(next + primes, vars) && Fits(s, vars) && r == RoundFrom(s, 0, vars)
    ensures r.0 != [] ==> RoundInput(r.0, r.1, vars, level + 1) && level + 1 <= |vars| &&
                          CoverOf(r.0 + r.1) == CoverOf(next + primes)
    ensures r.0 == [] ==> LastInput(s, r.1, vars) &&
                          CoverOf(SortedSet(s + r.1, vars)) == CoverOf(next + primes)
  {
    RoundStep(next, primes, s, r, vars, level);
    SameCover(s, next + primes);
    if r.0 == [] {
      LastRound(s, r.1, vars);
      SameCover(SortedSet(s + r.1, vars), s);
    }
  }

  /** No two members of `q` merge when every member of `q` is in `s` and no two members
      of `s` merge. */
  lemma UnmergeableWithin(q: seq<Implicant>, s: seq<Implicant>, vars: seq<char>)
    requires Fits(q, vars) && Fits(s, vars) && Unmergeable(s, vars)
    requires forall y :: y in q ==> y in s
    ensures Unmergeable(q, vars)
  {
    forall i, j | 0 <= i < |q| && 0 <= j < |q|
      ensures !Mergeable(q[i], q[j], vars)
    {
      assert q[i] in s && q[j] in s;
      var a :| 0 <= a < |s| && s[a] == q[i];
      var k :| 0 <= k < |s| && s[k] == q[j];
      assert !Mergeable(s[a], s[k], vars);
    }
  }

  /** The last round: its sorted input and primes as a sorted set. */
  lemma LastRound(s: seq<Implicant>, p: seq<Implicant>, vars: seq<char>)
    requires LastInput(s, p, vars)
    ensures var q := SortedSet(s + p, vars);
            AllOver(q, vars) && Fits(q, vars) && NoDup(q) && StrictlySorted(q, vars) &&
            Unmergeable(q, vars) && forall y :: y in q <==> y in s
  {
    var q := SortedSet(s + p, vars);
    SortedSetCorrect(s + p, vars);
    assert forall y :: y in q <==> y in s by {
      forall y
        ensures y in q <==> y in s
      {
        assert y in q <==> y in s + p;
      }
    }
    UnmergeableWithin(q, s, vars);
  }

  /** The rounds of the do-while from the state at its top: the products of the last
      round (`nextSet`) and its primes (`iterationPrimes`). Each round sorts both together
      and scans them; when no product is formed, the last sorted sequence and its primes
      go into a sorted set. `level` is a lower bound on the dashes of the products,
      rising every round, which is why the loop ends.

      The prime implicants imply exactly the minterms the implicants they start from
      imply; they are sound, each appears once, in strictly ascending order, and no two
      of them merge. */
  function PrimesFrom(next: seq<Implicant>, primes: seq<Implicant>, vars: seq<char>, ghost level: nat): (p: seq<Implicant>)
    requires RoundInput(next, primes, vars, level)
    ensures AllOver(p, vars) && Fits(p, vars) && NoDup(p) && StrictlySorted(p, vars)
    ensures Unmergeable(p, vars)
    ensures CoverOf(p) == CoverOf(next + primes)
    decreases |vars| + 1 - level
  {
    var s := Sort(next + primes, vars);
    var r := RoundFrom(s, 0, vars);
    CoverStep(next, primes, s, r, vars, level);
    if r.0 == [] then
      LastRound(s, r.1, vars);
      SortedSet(s + r.1, vars)
    else PrimesFrom(r.0, r.1, vars, level + 1)
  }

  // ---------------------------------------------------------------------------------
  // A round over two implicants, worked out once

  /** Over two implicants the round forms their product, if the scan reaches it, and
      keeps the first when there is none; the second, last, is always kept. */
  lemma RoundOfPair(s: seq<Implicant>, vars: seq<char>)
    requires |s| == 2 && Fits(s, vars)
    ensures var ps := if Abs(s[0].ones - s[1].ones) > 1 then [] else Product(s[0], s[1], vars);
            RoundFrom(s, 0, vars) == (ps, if ps == [] then s else [s[1]])
  {
    var none: seq<Implicant> := [];
    assert Partners(s[1], s, 2, vars) == none && Partners(s[0], s, 2, vars) == none;
    assert RoundFrom(s, 2, vars) == (none, none);
    assert RoundFrom(s, 1, vars) == (none, [s[1]]) by {
      assert none + none == none && [s[1]] + none == [s[1]];
    }
    var ps := Partners(s[0], s, 1, vars);
    assert PartnersAt(s[0], s, 1, vars) == Product(s[0], s[1], vars) + none;
    assert Product(s[0], s[1], vars) + none == Product(s[0], s[1], vars);
    assert ps == (if Abs(s[0].ones - s[1].ones) > 1 then [] else Product(s[0], s[1], vars) + none);
    assert ps + none == ps && s == [s[0]] + [s[1]] && none + [s[1]] == [s[1]];
    assert RoundFrom(s, 0, vars) == (ps + none, (if ps == [] then [s[0]] else []) + [s[1]]);
  }

  /** A round that forms no product and keeps every element ends the search: the primes
      are the sorted set of the round's elements. */
  lemma PrimesWhenNoneMerge(next: seq<Implicant>, primes: seq<Implicant>, vars: seq<char>, level: nat,
                            s: seq<Implicant>)
    requires RoundInput(next, primes, vars, level)
    requires Fits(s, vars) && Sort(next + primes, vars) == s && RoundFrom(s, 0, vars) == ([], s)
    ensures Fits(s + s, vars) && PrimesFrom(next, primes, vars, level) == SortedSet(s + s, vars)
  {
    CoverStep(next, primes, s, RoundFrom(s, 0, vars), vars, level);
    LastRound(s, s, vars);
  }
}
