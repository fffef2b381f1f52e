/** The `char[]` vectors of an implicant (`'1'`, `'0'`, `'-'` per variable, in sorted
    variable order) and the minterms a vector implies. */
module Minterms {

  /** One position of an implicant's vector: the variable is true, false, or free. */
  datatype Cell = Zero | One | Dash

  function Pow2(k: nat): (r: nat)
    ensures r >= 1
  {
    if k == 0 then 1 else 2 * Pow2(k - 1)
  }

  /** The number of free positions, counted from the front as the constructors do. */
  function DashCount(v: seq<Cell>): nat {
    if v == [] then 0 else DashCount(v[..|v| - 1]) + (if v[|v| - 1] == Dash then 1 else 0)
  }

  /** The number of `One` positions, counted the same way. */
  function OneCount(v: seq<Cell>): nat {
    if v == [] then 0 else OneCount(v[..|v| - 1]) + (if v[|v| - 1] == One then 1 else 0)
  }

  /** Together the counters count at most every position. */
  lemma {:induction false} CountsBound(v: seq<Cell>)
    ensures DashCount(v) + OneCount(v) <= |v|
  {
    if v != [] {
      CountsBound(v[..|v| - 1]);
    }
  }

  /** The counters are the multiplicities of `Dash` and `One` in the vector. */
  lemma {:induction false} CountsAreMultiplicities(v: seq<Cell>)
    ensures DashCount(v) == multiset(v)[Dash] && OneCount(v) == multiset(v)[One]
  {
    if v != [] {
      var init := v[..|v| - 1];
      CountsAreMultiplicities(init);
      assert v == init + [v[|v| - 1]];
      assert multiset(v) == multiset(init) + multiset{v[|v| - 1]};
    }
  }

  /** A vector without a free position: a single row of the truth table. */
  predicate IsMinterm(w: seq<Cell>) {
    Dash !in w
  }

  /** The number a dash-free vector stands for, first position most significant; any cell
      other than `One` counts as a zero bit. */
  function ValueOf(w: seq<Cell>): nat {
    if w == [] then 0
    else 2 * ValueOf(w[..|w| - 1]) + (if w[|w| - 1] == One then 1 else 0)
  }

  /** The `n`-position vector of the low `n` bits of `m`, most significant first. */
  function VectorOf(m: nat, n: nat): (w: seq<Cell>)
    ensures |w| == n && IsMinterm(w)
  {
    if n == 0 then [] else VectorOf(m / 2, n - 1) + [if m % 2 == 1 then One else Zero]
  }

  /** `v` agrees with the row `w` wherever `v` is not free. */
  predicate Covers(v: seq<Cell>, w: seq<Cell>) {
    |v| == |w| && IsMinterm(w) && forall i :: 0 <= i < |v| ==> v[i] == Dash || v[i] == w[i]
  }

  /** The minterm `m` is one of the rows the vector `v` stands for. */
  predicate Implies(v: seq<Cell>, m: nat) {
    m < Pow2(|v|) && Covers(v, VectorOf(m, |v|))
  }

  /** Two vectors of one length that some row could satisfy both of. */
  predicate Compatible(a: seq<Cell>, b: seq<Cell>) {
    |a| == |b| && forall i :: 0 <= i < |a| ==> a[i] == Dash || b[i] == Dash || a[i] == b[i]
  }

  predicate NoDup<T(==)>(s: seq<T>) {
    forall i, j :: 0 <= i < j < |s| ==> s[i] != s[j]
  }

  lemma {:induction false} ValueBound(w: seq<Cell>)
    ensures ValueOf(w) < Pow2(|w|)
    decreases |w|
  {
    if w != [] {
      ValueBound(w[..|w| - 1]);
    }
  }

  /** Reading a row back from its number gives the row. */
  lemma {:induction false} VectorOfValue(w: seq<Cell>)
    requires IsMinterm(w)
    ensures VectorOf(ValueOf(w), |w|) == w
    decreases |w|
  {
    if w != [] {
      var init := w[..|w| - 1];
      assert IsMinterm(init) by {
        assert forall i :: 0 <= i < |init| ==> init[i] == w[i];
      }
      VectorOfValue(init);
      var b := if w[|w| - 1] == One then 1 else 0;
      assert (2 * ValueOf(init) + b) / 2 == ValueOf(init);
      assert (2 * ValueOf(init) + b) % 2 == b;
      assert w[|w| - 1] != Dash;
      assert init + [w[|w| - 1]] == w;
    }
  }

  /** Numbering the row of a number below 2^n gives the number. */
  lemma {:induction false} ValueOfVector(m: nat, n: nat)
    requires m < Pow2(n)
    ensures ValueOf(VectorOf(m, n)) == m
    decreases n
  {
    if n > 0 {
      ValueOfVector(m / 2, n - 1);
      var w := VectorOf(m, n);
      assert w[..|w| - 1] == VectorOf(m / 2, n - 1);
    }
  }

  /** Only the row itself is covered by a dash-free vector. */
  lemma CoversMinterm(v: seq<Cell>, m: nat)
    requires IsMinterm(v)
    ensures Implies(v, m) <==> m == ValueOf(v)
  {
    var n := |v|;
    ValueBound(v);
    VectorOfValue(v);
    if Implies(v, m) {
      var w := VectorOf(m, n);
      assert forall i :: 0 <= i < n ==> v[i] == w[i];
      assert v == w;
      ValueOfVector(m, n);
    }
  }

  /** Freeing one fixed position: the rows of `v` are those of its two completions. */
  lemma CoversSplit(v: seq<Cell>, i: nat, w: seq<Cell>)
    requires i < |v| && v[i] == Dash
    ensures Covers(v, w) <==> Covers(v[i := One], w) || Covers(v[i := Zero], w)
  {
    if Covers(v, w) {
      if w[i] == One {
        assert Covers(v[i := One], w);
      } else {
        assert Covers(v[i := Zero], w);
      }
    }
  }

  /** A row covered by two vectors makes them compatible. */
  lemma CommonRow(a: seq<Cell>, b: seq<Cell>, w: seq<Cell>)
    requires Covers(a, w) && Covers(b, w)
    ensures Compatible(a, b)
  {
  }

  /** The index of the first free position, or the length when there is none. */
  function FirstDash(v: seq<Cell>): (i: nat)
    ensures i <= |v|
    ensures i < |v| ==> v[i] == Dash
    ensures forall j :: 0 <= j < i ==> v[j] != Dash
  {
    if v == [] then 0 else if v[0] == Dash then 0 else 1 + FirstDash(v[1..])
  }

  /** The number of queue entries a vector still gives rise to, itself included. */
  function Weight(q: seq<seq<Cell>>): nat {
    if q == [] then 0 else 2 * Pow2(DashCount(q[0])) - 1 + Weight(q[1..])
  }

  /** The number of rows the vectors of a queue stand for. */
  function Rows(q: seq<seq<Cell>>): nat {
    if q == [] then 0 else Pow2(DashCount(q[0])) + Rows(q[1..])
  }

  lemma {:induction false} WeightAppend(a: seq<seq<Cell>>, b: seq<seq<Cell>>)
    ensures Weight(a + b) == Weight(a) + Weight(b)
    ensures Rows(a + b) == Rows(a) + Rows(b)
    decreases |a|
  {
    if a != [] {
      assert (a + b)[1..] == a[1..] + b;
      WeightAppend(a[1..], b);
    } else {
      assert a + b == b;
    }
  }

  lemma DashCountStep(v: seq<Cell>, i: nat, c: Cell)
    requires i < |v| && v[i] == Dash && c != Dash
    ensures DashCount(v[i := c]) == DashCount(v) - 1
  {
    CountsAreMultiplicities(v);
    CountsAreMultiplicities(v[i := c]);
    assert multiset(v[i := c]) == multiset(v) - multiset{Dash} + multiset{c};
  }

  /** Replacing the first entry, which has a free position, by its two completions. */
  lemma QueueStep(q: seq<seq<Cell>>, i: nat)
    requires |q| > 0 && i < |q[0]| && q[0][i] == Dash
    ensures var v := q[0];
            Weight(q[1..] + [v[i := One], v[i := Zero]]) < Weight(q) &&
            Rows(q[1..] + [v[i := One], v[i := Zero]]) == Rows(q)
  {
    var v := q[0];
    var a, b := v[i := One], v[i := Zero];
    DashCountStep(v, i, One);
    DashCountStep(v, i, Zero);
    WeightAppend(q[1..], [a, b]);
    var d := DashCount(v);
    assert Pow2(d) == 2 * Pow2(d - 1);
    assert [a, b][1..] == [b] && [b][1..] == [];
    assert Weight([b]) == 2 * Pow2(d - 1) - 1 && Rows([b]) == Pow2(d - 1);
    assert Weight([a, b]) == 2 * Pow2(d - 1) - 1 + (2 * Pow2(d - 1) - 1);
    assert Rows([a, b]) == Pow2(d - 1) + Pow2(d - 1);
    assert Weight(q) == 2 * Pow2(d) - 1 + Weight(q[1..]);
    assert Rows(q) == Pow2(d) + Rows(q[1..]);
  }

  /** `CalculateImpliedMinterms`: take the first queued vector; at its first free position
      queue the copy with a one and then the copy with a zero; a vector without a free
      position is a minterm. */
  function Drain(q: seq<seq<Cell>>): seq<nat>
    decreases Weight(q)
  {
    if q == [] then []
    else
      var v := q[0];
      var i := FirstDash(v);
      if i < |v| then
        QueueStep(q, i);
        Drain(q[1..] + [v[i := One], v[i := Zero]])
      else [ValueOf(v)] + Drain(q[1..])
  }

  predicate SameLength(q: seq<seq<Cell>>, n: nat) {
    forall k :: 0 <= k < |q| ==> |q[k]| == n
  }

  /** No row is covered by two entries of the queue. */
  predicate Disjoint(q: seq<seq<Cell>>) {
    forall k1, k2 :: 0 <= k1 < k2 < |q| ==> !Compatible(q[k1], q[k2])
  }

  /** The queue yields exactly the rows its entries cover. */
  lemma {:induction false} DrainMembers(q: seq<seq<Cell>>, n: nat, m: nat)
    requires SameLength(q, n)
    ensures m in Drain(q) <==> m < Pow2(n) && InQueue(q, VectorOf(m, n))
    decreases Weight(q)
  {
    if q != [] {
      var v := q[0];
      var i := FirstDash(v);
      var w := VectorOf(m, n);
      if i < |v| {
        QueueStep(q, i);
        DrainMembers(q[1..] + [v[i := One], v[i := Zero]], n, m);
        InQueueSplit(q, i, w);
      } else {
        DrainMembers(q[1..], n, m);
        assert IsMinterm(v);
        CoversMinterm(v, m);
        ValueBound(v);
        InQueueTail(q, w);
      }
    }
  }

  /** Some entry of the queue covers the row `w`. */
  predicate InQueue(q: seq<seq<Cell>>, w: seq<Cell>) {
    exists k :: 0 <= k < |q| && Covers(q[k], w)
  }

  /** Replacing the head by its two halves at a free position keeps the covered rows. */
  lemma InQueueSplit(q: seq<seq<Cell>>, i: nat, w: seq<Cell>)
    requires |q| > 0 && i < |q[0]| && q[0][i] == Dash
    ensures InQueue(q, w) <==> InQueue(q[1..] + [q[0][i := One], q[0][i := Zero]], w)
  {
    var v := q[0];
    var q' := q[1..] + [v[i := One], v[i := Zero]];
    CoversSplit(v, i, w);
    if InQueue(q, w) {
      var k :| 0 <= k < |q| && Covers(q[k], w);
      if k == 0 {
        if Covers(v[i := One], w) {
          assert q'[|q'| - 2] == v[i := One];
        } else {
          assert q'[|q'| - 1] == v[i := Zero];
        }
      } else {
        assert q'[k - 1] == q[k];
      }
    }
    if InQueue(q', w) {
      var k :| 0 <= k < |q'| && Covers(q'[k], w);
      if k < |q| - 1 {
        assert q[k + 1] == q'[k];
      } else {
        assert Covers(q[0], w);
      }
    }
  }

  /** A queue covers a row when its head or its tail does. */
  lemma InQueueTail(q: seq<seq<Cell>>, w: seq<Cell>)
    requires |q| > 0
    ensures InQueue(q, w) <==> Covers(q[0], w) || InQueue(q[1..], w)
  {
    if InQueue(q, w) {
      var k :| 0 <= k < |q| && Covers(q[k], w);
      if k > 0 {
        assert q[1..][k - 1] == q[k];
      }
    }
    if InQueue(q[1..], w) {
      var k :| 0 <= k < |q| - 1 && Covers(q[1..][k], w);
      assert q[k + 1] == q[1..][k];
    }
  }


  /** Freeing a position keeps the completions apart from everything `v` was apart from. */
  lemma SplitStaysDisjoint(v: seq<Cell>, x: seq<Cell>, i: nat, c: Cell)
    requires i < |v| && v[i] == Dash && !Compatible(v, x) && |v| == |x|
    ensures !Compatible(v[i := c], x)
  {
    var j :| 0 <= j < |v| && v[j] != Dash && x[j] != Dash && v[j] != x[j];
    assert j != i;
  }

  /** Splitting the first entry of a disjoint queue keeps the queue disjoint. */
  lemma SplitKeepsDisjoint(q: seq<seq<Cell>>, n: nat, i: nat)
    requires SameLength(q, n) && Disjoint(q)
    requires |q| > 0 && i < |q[0]| && q[0][i] == Dash
    ensures var v := q[0]; Disjoint(q[1..] + [v[i := One], v[i := Zero]])
  {
    var v := q[0];
    var a, b := v[i := One], v[i := Zero];
    var q' := q[1..] + [a, b];
    forall k1, k2 | 0 <= k1 < k2 < |q'|
      ensures !Compatible(q'[k1], q'[k2])
    {
      if k2 < |q| - 1 {
        assert q'[k1] == q[k1 + 1] && q'[k2] == q[k2 + 1];
      } else if k1 < |q| - 1 {
        var c := if k2 == |q| - 1 then One else Zero;
        assert q'[k1] == q[k1 + 1];
        assert !Compatible(q[0], q[k1 + 1]);
        SplitStaysDisjoint(v, q'[k1], i, c);
        assert q'[k2] == v[i := c];
      } else {
        assert q'[k1] == a && q'[k2] == b;
        assert a[i] != Dash && b[i] != Dash && a[i] != b[i];
      }
    }
  }

  /** A minterm at the head of a disjoint queue does not come back later. */
  lemma HeadNotRepeated(q: seq<seq<Cell>>, n: nat)
    requires SameLength(q, n) && Disjoint(q)
    requires |q| > 0 && IsMinterm(q[0])
    ensures ValueOf(q[0]) !in Drain(q[1..])
  {
    var v := q[0];
    var rest := q[1..];
    var m := ValueOf(v);
    if m in Drain(rest) {
      DrainMembers(rest, n, m);
      var k :| 0 <= k < |rest| && Covers(rest[k], VectorOf(m, n));
      VectorOfValue(v);
      assert Covers(v, v);
      CommonRow(v, rest[k], v);
      assert false;
    }
  }

  lemma ConsNoDup(m: nat, d: seq<nat>)
    requires NoDup(d) && m !in d
    ensures NoDup([m] + d)
  {
    var e := [m] + d;
    forall i1, j1 | 0 <= i1 < j1 < |e|
      ensures e[i1] != e[j1]
    {
      assert e[j1] == d[j1 - 1];
      if i1 > 0 {
        assert e[i1] == d[i1 - 1];
      }
    }
  }

  /** A queue of pairwise disjoint entries yields no minterm twice. */
  lemma {:induction false} DrainNoDup(q: seq<seq<Cell>>, n: nat)
    requires SameLength(q, n) && Disjoint(q)
    ensures NoDup(Drain(q))
    decreases Weight(q)
  {
    if q != [] {
      var v := q[0];
      var i := FirstDash(v);
      if i < |v| {
        QueueStep(q, i);
        SplitKeepsDisjoint(q, n, i);
        DrainNoDup(q[1..] + [v[i := One], v[i := Zero]], n);
      } else {
        DrainNoDup(q[1..], n);
        HeadNotRepeated(q, n);
        ConsNoDup(ValueOf(v), Drain(q[1..]));
      }
    }
  }

  /** The queue yields one minterm per row its entries stand for. */
  lemma {:induction false} DrainLength(q: seq<seq<Cell>>)
    ensures |Drain(q)| == Rows(q)
    decreases Weight(q)
  {
    if q != [] {
      var v := q[0];
      var i := FirstDash(v);
      if i < |v| {
        QueueStep(q, i);
        DrainLength(q[1..] + [v[i := One], v[i := Zero]]);
      } else {
        DrainLength(q[1..]);
        CountsAreMultiplicities(v);
        assert DashCount(v) == 0;
      }
    }
  }

  /** The minterms of a single vector: exactly the rows it covers, each once, 2^d of them
      for `d` free positions. */
  lemma ImpliedMintermsCorrect(v: seq<Cell>)
    ensures forall m :: m in Drain([v]) <==> Implies(v, m)
    ensures NoDup(Drain([v]))
    ensures |Drain([v])| == Pow2(DashCount(v))
  {
    forall m
      ensures m in Drain([v]) <==> Implies(v, m)
    {
      DrainMembers([v], |v|, m);
      if Implies(v, m) {
        assert [v][0] == v;
      }
    }
    DrainNoDup([v], |v|);
    DrainLength([v]);
  }

  /** `CalculateImpliedMinterms` on the vector `bits`, collecting into a set kept in
      insertion order. */
  method ImpliedMinterms(bits: seq<Cell>) returns (minterms: seq<nat>)
    ensures minterms == Drain([bits])
  {
    ImpliedMintermsCorrect(bits);
    var candidates := [bits];
    minterms := [];
    while |candidates| > 0
      invariant minterms + Drain(candidates) == Drain([bits])
      decreases Weight(candidates)
    {
      var current := candidates[0];
      var rest := candidates[1..];
      var queued := false;
      var minterm := 0;
      var index := 0;
      while index < |current|
        invariant 0 <= index <= |current|
        invariant forall j :: 0 <= j < index ==> current[j] != Dash
        invariant minterm == ValueOf(current[..index])
      {
        if current[index] == Dash {
          queued := true;
          break;
        }
        assert current[..index + 1][..index] == current[..index];
        minterm := if current[index] == One then 2 * minterm + 1 else 2 * minterm;
        index := index + 1;
      }
      if queued {
        assert FirstDash(current) == index;
        QueueStep(candidates, index);
        candidates := rest + [current[index := One], current[index := Zero]];
      } else {
        assert current[..index] == current;
        assert FirstDash(current) == |current|;
        assert Drain(candidates) == [minterm] + Drain(rest);
        NoDupHead(minterms, Drain(candidates));
        if minterm !in minterms {
          minterms := minterms + [minterm];
        }
        candidates := rest;
      }
    }
  }

  lemma NoDupHead(a: seq<nat>, b: seq<nat>)
    requires NoDup(a + b) && |b| > 0
    ensures b[0] !in a
  {
    forall k | 0 <= k < |a|
      ensures a[k] != b[0]
    {
      assert (a + b)[k] == a[k] && (a + b)[|a|] == b[0];
    }
  }

  const ExampleRowsOf1dd1: seq<seq<Cell>> :=
    [[One, One, One, One], [One, One, Zero, One], [One, Zero, One, One], [One, Zero, Zero, One]]

  /** Expanding 1--1 queues its four rows, the ones-copy of each free position first. */
  lemma ExampleOneDashDashOneQueue()
    ensures Drain([[One, Dash, Dash, One]]) == Drain(ExampleRowsOf1dd1)
  {
    var v := [One, Dash, Dash, One];
    var a, b := [One, One, Dash, One], [One, Zero, Dash, One];
    var q := ExampleRowsOf1dd1;
    assert FirstDash(v) == 1;
    assert v[1 := One] == a && v[1 := Zero] == b;
    assert [v][1..] + [v[1 := One], v[1 := Zero]] == [a, b];
    assert Drain([v]) == Drain([a, b]);
    assert FirstDash(a) == 2;
    assert a[2 := One] == q[0] && a[2 := Zero] == q[1];
    assert [a, b][1..] + [a[2 := One], a[2 := Zero]] == [b, q[0], q[1]];
    assert Drain([a, b]) == Drain([b, q[0], q[1]]);
    assert FirstDash(b) == 2;
    assert b[2 := One] == q[2] && b[2 := Zero] == q[3];
    assert [b, q[0], q[1]][1..] + [b[2 := One], b[2 := Zero]] == q;
  }

  /** The vector 1--1 stands for 1111, 1101, 1011 and 1001, produced in that order. */
  lemma ExampleOneDashDashOne()
    ensures Drain([[One, Dash, Dash, One]]) == [15, 13, 11, 9]
  {
    ExampleOneDashDashOneQueue();
    var q := ExampleRowsOf1dd1;
    Value4(q[0]);
    Value4(q[1]);
    Value4(q[2]);
    Value4(q[3]);
    DrainRow(q[3..], 9);
    DrainRow(q[2..], 11);
    DrainRow(q[1..], 13);
    DrainRow(q, 15);
    assert q[1..][1..] == q[2..] && q[2..][1..] == q[3..] && q[3..][1..] == [];
  }

  /** A queue whose first vector has no dash emits that vector's value first. */
  lemma DrainRow(q: seq<seq<Cell>>, x: nat)
    requires q != [] && FirstDash(q[0]) == |q[0]| && ValueOf(q[0]) == x
    ensures Drain(q) == [x] + Drain(q[1..])
  {
  }

  function Bit(c: Cell): nat {
    if c == One then 1 else 0
  }

  lemma Value4(w: seq<Cell>)
    requires |w| == 4
    ensures ValueOf(w) == 8 * Bit(w[0]) + 4 * Bit(w[1]) + 2 * Bit(w[2]) + Bit(w[3])
  {
    assert w[..3][..2] == w[..2] && w[..2][..1] == w[..1] && w[..1][..0] == [];
    assert ValueOf(w[..1]) == Bit(w[0]);
    assert ValueOf(w[..2]) == 2 * Bit(w[0]) + Bit(w[1]);
    assert ValueOf(w[..3]) == 4 * Bit(w[0]) + 2 * Bit(w[1]) + Bit(w[2]);
  }
}
