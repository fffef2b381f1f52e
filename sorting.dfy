/** The orderings the reducer relies on: `List<Implicant>.Sort()` and
    `new SortedSet<Implicant>(list)`, both by `Implicant.CompareTo`. */
module Sorting {
  import opened Tokens
  import opened Minterms
  import opened Implicants
  import opened Strings

  /** Every implicant is short enough to be shown with `vars`. */
  predicate Fits(s: seq<Implicant>, vars: seq<char>) {
    forall i :: 0 <= i < |s| ==> |s[i].bits| <= |vars|
  }

  /** Every implicant is one the reducer can hold: sound over the sorted variables `vars`. */
  predicate AllOver(s: seq<Implicant>, vars: seq<char>) {
    forall i :: 0 <= i < |s| ==> Over(s[i], vars)
  }

  predicate LessEq(a: Implicant, b: Implicant, vars: seq<char>)
    requires |a.bits| <= |vars| && |b.bits| <= |vars|
  {
    CompareTo(a, Some(b), vars) <= 0
  }

  /** Ascending by `CompareTo`. */
  predicate Sorted(s: seq<Implicant>, vars: seq<char>)
    requires Fits(s, vars)
  {
    forall i, j :: 0 <= i < j < |s| ==> LessEq(s[i], s[j], vars)
  }

  /** Strictly ascending: what a sorted set enumerates. */
  predicate StrictlySorted(s: seq<Implicant>, vars: seq<char>)
    requires Fits(s, vars)
  {
    forall i, j :: 0 <= i < j < |s| ==> CompareTo(s[i], Some(s[j]), vars) < 0
  }

  lemma AllOverFits(s: seq<Implicant>, vars: seq<char>)
    requires AllOver(s, vars)
    ensures Fits(s, vars)
  {
    assert forall i :: 0 <= i < |s| ==> Over(s[i], vars) && Sound(s[i], |vars|);
  }

  /** `x` placed before the first element it does not follow. */
  function Insert(x: Implicant, s: seq<Implicant>, vars: seq<char>): (r: seq<Implicant>)
    requires |x.bits| <= |vars| && Fits(s, vars)
    ensures multiset(r) == multiset(s) + multiset{x} && Fits(r, vars)
    decreases |s|
  {
    if s == [] then [x]
    else if LessEq(x, s[0], vars) then [x] + s
    else
      assert s == [s[0]] + s[1..];
      [s[0]] + Insert(x, s[1..], vars)
  }

  /** A sorted permutation of `s`. `List.Sort` is not stable, but only identical implicants
      tie (`SortedUnique`), so every sorting algorithm gives this result. */
  function Sort(s: seq<Implicant>, vars: seq<char>): (r: seq<Implicant>)
    requires Fits(s, vars)
    ensures multiset(r) == multiset(s) && Fits(r, vars)
    decreases |s|
  {
    if s == [] then []
    else
      assert s == [s[0]] + s[1..];
      Insert(s[0], Sort(s[1..], vars), vars)
  }

  lemma {:induction false} InsertSorted(x: Implicant, s: seq<Implicant>, vars: seq<char>)
    requires |x.bits| <= |vars| && Fits(s, vars) && Sorted(s, vars)
    ensures Sorted(Insert(x, s, vars), vars)
    decreases |s|
  {
    if s != [] {
      if LessEq(x, s[0], vars) {
        forall k | 0 <= k < |s|
          ensures LessEq(x, s[k], vars)
        {
          if k > 0 {
            CompareToTrans(x, s[0], s[k], vars);
          }
        }
        SortedCons(x, s, vars);
      } else {
        InsertSorted(x, s[1..], vars);
        CompareToFlip(x, s[0], vars);
        InsertAbove(s[0], x, s[1..], vars);
        SortedCons(s[0], Insert(x, s[1..], vars), vars);
      }
    }
  }

  /** A sorted sequence stays sorted with an element in front that comes before all of it. */
  lemma SortedCons(y: Implicant, t: seq<Implicant>, vars: seq<char>)
    requires |y.bits| <= |vars| && Fits(t, vars) && Sorted(t, vars)
    requires forall k :: 0 <= k < |t| ==> LessEq(y, t[k], vars)
    ensures Fits([y] + t, vars) && Sorted([y] + t, vars)
  {
    var r := [y] + t;
    forall i, j | 0 <= i < j < |r|
      ensures LessEq(r[i], r[j], vars)
    {
      assert r[j] == t[j - 1];
      if i > 0 {
        assert r[i] == t[i - 1];
      }
    }
  }

  /** What comes before `x` and before every element of `t` comes before every element of
      `t` with `x` inserted. */
  lemma InsertAbove(y: Implicant, x: Implicant, t: seq<Implicant>, vars: seq<char>)
    requires |y.bits| <= |vars| && |x.bits| <= |vars| && Fits(t, vars)
    requires LessEq(y, x, vars) && forall k :: 0 <= k < |t| ==> LessEq(y, t[k], vars)
    ensures forall k :: 0 <= k < |Insert(x, t, vars)| ==> LessEq(y, Insert(x, t, vars)[k], vars)
  {
    var r := Insert(x, t, vars);
    forall k | 0 <= k < |r|
      ensures LessEq(y, r[k], vars)
    {
      assert r[k] in multiset(r);
      if r[k] != x {
        assert r[k] in multiset(t);
        var i :| 0 <= i < |t| && t[i] == r[k];
      }
    }
  }

  /** `Sort` sorts. */
  lemma {:induction false} SortSorted(s: seq<Implicant>, vars: seq<char>)
    requires Fits(s, vars)
    ensures Sorted(Sort(s, vars), vars)
    decreases |s|
  {
    if s != [] {
      SortSorted(s[1..], vars);
      InsertSorted(s[0], Sort(s[1..], vars), vars);
    }
  }

  lemma MembersOver(a: seq<Implicant>, b: seq<Implicant>, vars: seq<char>)
    requires AllOver(b, vars) && multiset(a) <= multiset(b)
    ensures AllOver(a, vars)
  {
    forall i | 0 <= i < |a|
      ensures Over(a[i], vars)
    {
      assert a[i] in multiset(b);
      var k :| 0 <= k < |b| && b[k] == a[i];
    }
  }

  lemma LessEqRefl(a: Implicant, vars: seq<char>)
    requires |a.bits| <= |vars|
    ensures LessEq(a, a, vars)
  {
    CompareOrdinalZero(Display(a, vars), Display(a, vars));
  }

  // Small sorts worked out once, for the concrete runs of the pipeline.

  lemma SortTwo(x: Implicant, y: Implicant, vars: seq<char>)
    requires |x.bits| <= |vars| && |y.bits| <= |vars| && LessEq(x, y, vars)
    ensures Sort([x, y], vars) == [x, y]
  {
    assert [x, y][1..] == [y] && [y][1..] == [];
  }

  lemma SortSwap(x: Implicant, y: Implicant, vars: seq<char>)
    requires |x.bits| <= |vars| && |y.bits| <= |vars| && !LessEq(x, y, vars)
    ensures Sort([x, y], vars) == [y, x]
  {
    assert [x, y][1..] == [y] && [y][1..] == [];
    assert Insert(x, [], vars) == [x];
  }

  /** A pair in strict order, given twice, has itself as its sorted set. */
  lemma PairSet(s: seq<Implicant>, vars: seq<char>)
    requires |s| == 2 && AllOver(s, vars) && Fits(s, vars) && CompareTo(s[0], Some(s[1]), vars) < 0
    ensures Fits(s + s, vars) && SortedSet(s + s, vars) == s
  {
    Twice(s, vars);
    SortedSetCorrect(s + s, vars);
    PairOfMembers(SortedSet(s + s, vars), s[0], s[1], vars);
  }

  lemma Twice(s: seq<Implicant>, vars: seq<char>)
    requires |s| == 2 && AllOver(s, vars) && Fits(s, vars)
    ensures AllOver(s + s, vars) && Fits(s + s, vars)
    ensures forall y :: y in s + s <==> y == s[0] || y == s[1]
  {
    assert s + s == [s[0], s[1], s[0], s[1]];
  }

  /** The only strictly ascending sequence of two distinct members is the pair in order. */
  lemma PairOfMembers(r: seq<Implicant>, x: Implicant, y: Implicant, vars: seq<char>)
    requires Fits(r, vars) && NoDup(r) && StrictlySorted(r, vars)
    requires |x.bits| <= |vars| && |y.bits| <= |vars| && CompareTo(x, Some(y), vars) < 0
    requires forall z :: z in r <==> z == x || z == y
    ensures r == [x, y]
  {
    CompareToFlip(x, y, vars);
    DistinctMembers(r);
    assert (set z | z in r) == {x, y};
    assert |r| == 2;
    assert r[0] in r && r[1] in r;
  }

  /** Without repeats, a sequence has as many members as elements. */
  lemma {:induction false} DistinctMembers(r: seq<Implicant>)
    requires NoDup(r)
    ensures |set z | z in r| == |r|
  {
    if r != [] {
      var init := r[..|r| - 1];
      assert r == init + [r[|r| - 1]];
      assert r[|r| - 1] !in init;
      DistinctMembers(init);
      assert (set z | z in r) == (set z | z in init) + {r[|r| - 1]};
    }
  }

  /** Only identical implicants tie. */
  lemma Antisymmetric(a: Implicant, b: Implicant, vars: seq<char>)
    requires Over(a, vars) && Over(b, vars) && LessEq(a, b, vars) && LessEq(b, a, vars)
    ensures a == b
  {
    CompareToFlip(a, b, vars);
    CompareToZero(a, b, vars);
  }

  lemma Tails(s: seq<Implicant>, vars: seq<char>)
    requires |s| > 0 && Fits(s, vars) && Sorted(s, vars)
    ensures Fits(s[1..], vars) && Sorted(s[1..], vars)
    ensures AllOver(s, vars) ==> AllOver(s[1..], vars)
  {
    assert forall i :: 0 <= i < |s| - 1 ==> s[1..][i] == s[i + 1];
  }

  /** The first element of a sorted sequence comes before every element. */
  lemma SortedHead(s: seq<Implicant>, y: Implicant, vars: seq<char>)
    requires Fits(s, vars) && Sorted(s, vars) && y in s
    ensures |s| > 0 && LessEq(s[0], y, vars)
  {
    var k :| 0 <= k < |s| && s[k] == y;
    if k == 0 {
      LessEqRefl(y, vars);
    }
  }

  lemma SameHeads(a: seq<Implicant>, b: seq<Implicant>)
    requires multiset(a) == multiset(b) && a != []
    ensures |b| == |a| && a[0] in b && b[0] in a
  {
    assert |a| == |multiset(a)| == |b|;
    assert a[0] in multiset(b) && b[0] in multiset(a);
  }

  lemma SameTails(a: seq<Implicant>, b: seq<Implicant>)
    requires multiset(a) == multiset(b) && a != [] && b != [] && a[0] == b[0]
    ensures multiset(a[1..]) == multiset(b[1..])
  {
    assert a == [a[0]] + a[1..] && b == [b[0]] + b[1..];
    assert multiset(a) == multiset{a[0]} + multiset(a[1..]);
    assert multiset(b) == multiset{b[0]} + multiset(b[1..]);
    forall y
      ensures multiset(a[1..])[y] == multiset(b[1..])[y]
    {
      assert multiset(a)[y] == multiset{a[0]}[y] + multiset(a[1..])[y];
      assert multiset(b)[y] == multiset{b[0]}[y] + multiset(b[1..])[y];
    }
  }

  /** Two sorted permutations of the same implicants are the same sequence. */
  lemma {:induction false} SortedUnique(a: seq<Implicant>, b: seq<Implicant>, vars: seq<char>)
    requires AllOver(a, vars) && AllOver(b, vars) && multiset(a) == multiset(b)
    requires Fits(a, vars) && Fits(b, vars) && Sorted(a, vars) && Sorted(b, vars)
    ensures a == b
    decreases |a|
  {
    if a == [] {
      assert |b| == |multiset(b)| == 0;
    } else {
      SameHeads(a, b);
      SortedHead(a, b[0], vars);
      SortedHead(b, a[0], vars);
      Antisymmetric(a[0], b[0], vars);
      SameTails(a, b);
      Tails(a, vars);
      Tails(b, vars);
      SortedUnique(a[1..], b[1..], vars);
      assert a == [a[0]] + a[1..] && b == [b[0]] + b[1..];
    }
  }

  /** Every sorted permutation of `s` is `Sort(s)`. */
  lemma SortIsUnique(s: seq<Implicant>, t: seq<Implicant>, vars: seq<char>)
    requires AllOver(s, vars) && Fits(s, vars)
    requires multiset(t) == multiset(s) && Fits(t, vars) && Sorted(t, vars)
    ensures t == Sort(s, vars)
  {
    SortSorted(s, vars);
    MembersOver(t, s, vars);
    MembersOver(Sort(s, vars), s, vars);
    SortedUnique(t, Sort(s, vars), vars);
  }

  /** The sorted sequence with every element that ties with its successor dropped. */
  function Dedup(s: seq<Implicant>, vars: seq<char>): (r: seq<Implicant>)
    requires Fits(s, vars)
    ensures multiset(r) <= multiset(s)
    decreases |s|
  {
    if |s| <= 1 then s
    else
      assert s == [s[0]] + s[1..];
      if CompareTo(s[0], Some(s[1]), vars) == 0 then Dedup(s[1..], vars)
      else [s[0]] + Dedup(s[1..], vars)
  }

  /** An element that does not tie with its successor is found nowhere after it. */
  lemma NotRepeated(s: seq<Implicant>, vars: seq<char>)
    requires |s| > 1 && AllOver(s, vars) && Fits(s, vars) && Sorted(s, vars)
    requires CompareTo(s[0], Some(s[1]), vars) != 0
    ensures s[0] !in s[1..]
  {
    if s[0] in s[1..] {
      Tails(s, vars);
      SortedHead(s[1..], s[0], vars);
      assert LessEq(s[0], s[1], vars);
      Antisymmetric(s[0], s[1], vars);
      CompareToZero(s[0], s[1], vars);
    }
  }

  /** Putting in front an element that comes before every element of a sorted sequence
      without duplicates, and is not in it, keeps it sorted and without duplicates. */
  lemma ConsSorted(x: Implicant, d: seq<Implicant>, vars: seq<char>)
    requires |x.bits| <= |vars| && Fits(d, vars) && Sorted(d, vars) && NoDup(d) && x !in d
    requires forall y :: y in d ==> LessEq(x, y, vars)
    ensures Fits([x] + d, vars) && Sorted([x] + d, vars) && NoDup([x] + d)
  {
    var r := [x] + d;
    assert forall i :: 0 < i < |r| ==> r[i] == d[i - 1] && r[i] in d;
  }

  /** `r` holds the elements of `s`, each once, ascending. */
  ghost predicate Deduplicated(s: seq<Implicant>, r: seq<Implicant>, vars: seq<char>) {
    (forall y :: y in r <==> y in s) && NoDup(r) && Fits(r, vars) && Sorted(r, vars)
  }

  lemma {:induction false} DedupCorrect(s: seq<Implicant>, vars: seq<char>)
    requires AllOver(s, vars) && Fits(s, vars) && Sorted(s, vars)
    ensures var r := Dedup(s, vars);
            (forall y :: y in r <==> y in s) && NoDup(r) && Fits(r, vars) && Sorted(r, vars)
    decreases |s|
  {
    if |s| > 1 {
      Tails(s, vars);
      DedupCorrect(s[1..], vars);
      if CompareTo(s[0], Some(s[1]), vars) == 0 {
        DedupTie(s, vars);
      } else {
        DedupKeep(s, vars);
      }
    }
  }

  /** A head that ties with its successor is the successor, and is dropped. */
  lemma DedupTie(s: seq<Implicant>, vars: seq<char>)
    requires |s| > 1 && AllOver(s, vars) && Fits(s, vars) && CompareTo(s[0], Some(s[1]), vars) == 0
    requires Deduplicated(s[1..], Dedup(s[1..], vars), vars)
    ensures Deduplicated(s, Dedup(s, vars), vars)
  {
    CompareToZero(s[0], s[1], vars);
    assert s == [s[0]] + s[1..];
    assert forall y :: y in s <==> y in s[1..];
  }

  /** A head that does not tie with its successor is kept in front. */
  lemma DedupKeep(s: seq<Implicant>, vars: seq<char>)
    requires |s| > 1 && AllOver(s, vars) && Fits(s, vars) && Sorted(s, vars)
    requires CompareTo(s[0], Some(s[1]), vars) != 0
    requires Deduplicated(s[1..], Dedup(s[1..], vars), vars)
    ensures Deduplicated(s, Dedup(s, vars), vars)
  {
    var d := Dedup(s[1..], vars);
    assert s == [s[0]] + s[1..];
    NotRepeated(s, vars);
    forall y | y in d
      ensures LessEq(s[0], y, vars)
    {
      SortedHead(s, y, vars);
    }
    ConsSorted(s[0], d, vars);
  }

  /** `new SortedSet<Implicant>(xs)` enumerated: each implicant once, ascending. */
  function SortedSet(xs: seq<Implicant>, vars: seq<char>): seq<Implicant>
    requires Fits(xs, vars)
  {
    Dedup(Sort(xs, vars), vars)
  }

  /** The sorted set holds exactly the given implicants, each once, strictly ascending. */
  lemma SortedSetCorrect(xs: seq<Implicant>, vars: seq<char>)
    requires AllOver(xs, vars) && Fits(xs, vars)
    ensures var r := SortedSet(xs, vars);
            (forall y :: y in r <==> y in xs) && AllOver(r, vars) && NoDup(r) &&
            Fits(r, vars) && StrictlySorted(r, vars)
  {
    AllOverFits(xs, vars);
    var s := Sort(xs, vars);
    SortSorted(xs, vars);
    MembersOver(s, xs, vars);
    DedupCorrect(s, vars);
    var r := SortedSet(xs, vars);
    MembersOver(r, s, vars);
    forall y
      ensures y in r <==> y in xs
    {
      assert y in s <==> y in multiset(xs);
    }
    forall i, j | 0 <= i < j < |r|
      ensures CompareTo(r[i], Some(r[j]), vars) < 0
    {
      assert LessEq(r[i], r[j], vars);
      CompareToZero(r[i], r[j], vars);
    }
  }
}
