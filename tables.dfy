/** The table from each minterm to the prime implicants that imply it, and the choice of
    the final implicants from it: first the essential ones, then a greedy cover. */
module Tables {
  import opened Tokens
  import opened Minterms
  import opened Implicants
  import opened Sorting
  import opened Rounds

  /** `Dictionary<uint, List<Implicant>>`: `keys` is the order in which minterms were first
      added, `entries` the list kept for each. */
  datatype Table = Table(keys: seq<nat>, entries: map<nat, seq<Implicant>>)

  function Elems(s: seq<nat>): set<nat> {
    set m | m in s
  }

  /** Each key is listed once and the listed keys are the keys of the map. */
  ghost predicate KeysOk(t: Table) {
    NoDup(t.keys) && forall m :: m in t.keys <==> m in t.entries
  }

  /** Each implicant's minterms are distinct, as in the `HashSet<uint>` that holds them. */
  predicate SetLike(ps: seq<Implicant>) {
    forall i :: 0 <= i < |ps| ==> NoDup(ps[i].minterms)
  }

  /** Each implicant's minterms are those its vector implies. */
  predicate Generated(ps: seq<Implicant>) {
    forall i :: 0 <= i < |ps| ==> ps[i].minterms == Drain([ps[i].bits])
  }

  /** No two of the implicants have the same vector, that is (over sorted variables) the
      same text. */
  predicate DistinctVectors(s: seq<Implicant>) {
    forall i, j :: 0 <= i < |s| && 0 <= j < |s| && s[i].bits == s[j].bits ==> i == j
  }

  /** The list kept for `m`, or nothing when `m` is not yet a key. */
  function ListFor(t: Table, m: nat): seq<Implicant> {
    if m in t.entries then t.entries[m] else []
  }

  /** The implicants that imply `m`, in their order: what the table should list for `m`. */
  function Containing(ps: seq<Implicant>, m: nat): (r: seq<Implicant>)
    ensures forall y :: y in r <==> y in ps && m in y.minterms
    ensures r == [] <==> m !in CoverOf(ps)
    decreases |ps|
  {
    if ps == [] then []
    else
      var init, last := ps[..|ps| - 1], ps[|ps| - 1];
      assert ps == init + [last];
      CoverSnoc(init, last);
      var r := Containing(init, m) + (if m in last.minterms then [last] else []);
      assert r != [] ==> r[0] in r;
      r
  }

  lemma CoverSnoc(ps: seq<Implicant>, x: Implicant)
    ensures CoverOf(ps + [x]) == CoverOf(ps) + Elems(x.minterms)
  {
    forall m | m in CoverOf(ps)
      ensures m in CoverOf(ps + [x])
    {
      var y :| y in ps && m in y.minterms;
      assert y in ps + [x];
    }
    assert x in ps + [x];
  }

  // ---------------------------------------------------------------------------------
  // BuildMintermToPrimeImplicantTable

  /** One `_primeImplicantTable[minterm].Add(i)`, creating the list when the key is new. */
  function AddEntry(t: Table, m: nat, x: Implicant): Table {
    if m in t.entries then Table(t.keys, t.entries[m := t.entries[m] + [x]])
    else Table(t.keys + [m], t.entries[m := [x]])
  }

  /** Adding an entry appends `x` to the list of `m` alone and keeps the keys in step. */
  lemma AddEntryFacts(t: Table, m: nat, x: Implicant)
    requires KeysOk(t)
    ensures var r := AddEntry(t, m, x);
            KeysOk(r) && (forall k :: k in r.entries <==> k in t.entries || k == m) &&
            forall k :: ListFor(r, k) == ListFor(t, k) + (if k == m then [x] else [])
  {
    var r := AddEntry(t, m, x);
    if m !in t.entries {
      assert m !in t.keys;
      assert forall i :: 0 <= i < |t.keys| ==> r.keys[i] == t.keys[i];
    }
  }

  lemma NoDupInit(ms: seq<nat>)
    requires NoDup(ms) && ms != []
    ensures NoDup(ms[..|ms| - 1]) && ms[|ms| - 1] !in ms[..|ms| - 1]
  {
  }

  /** The inner loop: `x` is appended to the list of each of its minterms, and each minterm
      not yet a key becomes one. */
  function AddMinterms(t: Table, x: Implicant, ms: seq<nat>): (r: Table)
    requires KeysOk(t) && NoDup(ms)
    ensures KeysOk(r)
    ensures forall m :: m in r.entries <==> m in t.entries || m in ms
    ensures forall m :: ListFor(r, m) == ListFor(t, m) + (if m in ms then [x] else [])
    decreases |ms|
  {
    if ms == [] then t
    else
      var init, last := ms[..|ms| - 1], ms[|ms| - 1];
      assert ms == init + [last];
      NoDupInit(ms);
      var u := AddMinterms(t, x, init);
      AddEntryFacts(u, last, x);
      AddEntry(u, last, x)
  }

  /** The table lists, for each minterm some implicant implies, exactly the implicants that
      imply it, in their order; nothing else is a key. */
  ghost predicate Describes(t: Table, ps: seq<Implicant>) {
    KeysOk(t) &&
    (forall m :: m in t.entries <==> m in CoverOf(ps)) &&
    (forall m :: ListFor(t, m) == Containing(ps, m))
  }

  /** The outer loop over the prime implicants. */
  function BuildTable(ps: seq<Implicant>): (t: Table)
    requires SetLike(ps)
    ensures Describes(t, ps) && Listed(t)
    decreases |ps|
  {
    if ps == [] then Table([], map[])
    else
      var init, last := ps[..|ps| - 1], ps[|ps| - 1];
      assert ps == init + [last];
      assert SetLike(init);
      var t := BuildTable(init);
      BuildStep(t, init, last);
      var r := AddMinterms(t, last, last.minterms);
      DescribesListed(r, ps);
      r
  }

  /** Adding the next implicant's minterms to a table of the earlier ones gives the table
      of all of them. */
  lemma BuildStep(t: Table, init: seq<Implicant>, last: Implicant)
    requires Describes(t, init) && NoDup(last.minterms)
    ensures Describes(AddMinterms(t, last, last.minterms), init + [last])
  {
    var ps := init + [last];
    assert ps[..|ps| - 1] == init;
    CoverSnoc(init, last);
    var r := AddMinterms(t, last, last.minterms);
    forall m
      ensures ListFor(r, m) == Containing(ps, m)
    {
      assert ListFor(t, m) == Containing(init, m);
    }
  }

  /** Every listed implicant implies the key it is listed under, no list is empty, and
      every minterm of a listed implicant is a key. */
  predicate Listed(t: Table) {
    forall k :: k in t.entries ==>
      t.entries[k] != [] &&
      forall y :: y in t.entries[k] ==> k in y.minterms && forall m :: m in y.minterms ==> m in t.entries
  }

  lemma DescribesListed(t: Table, ps: seq<Implicant>)
    requires Describes(t, ps)
    ensures Listed(t)
  {
    forall k | k in t.entries
      ensures t.entries[k] != [] &&
              forall y :: y in t.entries[k] ==>
                k in y.minterms && forall m :: m in y.minterms ==> m in t.entries
    {
      assert ListFor(t, k) == t.entries[k] == Containing(ps, k);
      forall y, m | y in t.entries[k] && m in y.minterms
        ensures m in t.entries
      {
        assert y in ps;
        assert m in CoverOf(ps);
      }
    }
  }

  /** Every listed implicant implies the minterms its vector implies and is listed under
      each of them. */
  ghost predicate Complete(t: Table) {
    forall k, y :: k in t.entries && y in t.entries[k] ==>
      y.minterms == Drain([y.bits]) && forall m :: m in y.minterms ==> m in t.entries && y in t.entries[m]
  }

  /** The table of implicants whose minterms their vectors generate is complete. */
  lemma DescribesComplete(t: Table, ps: seq<Implicant>)
    requires Describes(t, ps) && Generated(ps)
    ensures Complete(t)
  {
    forall k, y | k in t.entries && y in t.entries[k]
      ensures y.minterms == Drain([y.bits]) && forall m :: m in y.minterms ==> m in t.entries && y in t.entries[m]
    {
      assert ListFor(t, k) == t.entries[k] == Containing(ps, k);
      assert y in ps;
      var i :| 0 <= i < |ps| && ps[i] == y;
      forall m | m in y.minterms
        ensures m in t.entries && y in t.entries[m]
      {
        assert y in Containing(ps, m);
        assert ListFor(t, m) == Containing(ps, m);
      }
    }
  }

  /** The table has one key per minterm the implicants imply. */
  lemma TableCount(t: Table, ps: seq<Implicant>)
    requires Describes(t, ps)
    ensures Elems(t.keys) == CoverOf(ps) && |t.keys| == |CoverOf(ps)|
  {
    DistinctCount(t.keys);
  }

  lemma {:induction false} DistinctCount(s: seq<nat>)
    requires NoDup(s)
    ensures |Elems(s)| == |s|
    decreases |s|
  {
    if s != [] {
      var init := s[..|s| - 1];
      assert s == init + [s[|s| - 1]];
      assert s[|s| - 1] !in init;
      DistinctCount(init);
      assert Elems(s) == Elems(init) + {s[|s| - 1]};
    }
  }

  lemma SubsetCount(a: set<nat>, b: set<nat>)
    requires a <= b && |a| >= |b|
    ensures a == b
  {
    assert |b| == |a| + |b - a|;
  }

  // ---------------------------------------------------------------------------------
  // PickFinalImplicants

  /** The set already holds an implicant with the vector of `x`. */
  predicate HasTwin(finals: seq<Implicant>, x: Implicant) {
    exists i :: 0 <= i < |finals| && finals[i].bits == x.bits
  }

  /** `_finalImplicants.Add(x)` on a `HashSet<Implicant>`: `x` is appended unless the set
      already holds an implicant with the same vector. */
  function AddFinal(finals: seq<Implicant>, x: Implicant): seq<Implicant> {
    if HasTwin(finals, x) then finals else finals + [x]
  }

  /** The hash set compares implicants with `Equals` and hashes their text; over the
      sorted variables of the reducer the same text is the same vector, so `AddFinal` is
      the set's `Add`. */
  lemma AddFinalIsAdd(finals: seq<Implicant>, x: Implicant, vars: seq<char>)
    requires AllOver(finals, vars) && Fits(finals, vars) && Over(x, vars)
    ensures (exists i :: 0 <= i < |finals| && Implicants.Equals(finals[i], Some(x), vars))
            <==> HasTwin(finals, x)
  {
    forall i | 0 <= i < |finals|
      ensures Implicants.Equals(finals[i], Some(x), vars) <==> finals[i].bits == x.bits
    {
      EqualsIffSameBits(finals[i], x, vars);
    }
  }

  /** The first loop over the table: a minterm listed under exactly one implicant makes it
      essential; its minterms count as covered and it joins the final implicants. */
  function EssentialsFrom(t: Table, i: nat, covered: set<nat>, finals: seq<Implicant>)
    : (set<nat>, seq<Implicant>)
    requires i <= |t.keys| && KeysOk(t)
    decreases |t.keys| - i
  {
    if i == |t.keys| then (covered, finals)
    else
      assert t.keys[i] in t.entries;
      var list := t.entries[t.keys[i]];
      if |list| == 1 then
        EssentialsFrom(t, i + 1, covered + Elems(list[0].minterms), AddFinal(finals, list[0]))
      else EssentialsFrom(t, i + 1, covered, finals)
  }

  /** The inner loop of the greedy step: the first implicant of the list with more minterms
      than all before it, starting from a maximum of 0 and no implicant. */
  function BestOf(list: seq<Implicant>): (r: (nat, Option<Implicant>))
    ensures forall y :: y in list ==> |y.minterms| <= r.0
    ensures r.1.None? <==> r.0 == 0
    ensures r.1.Some? ==>
              exists j :: 0 <= j < |list| && list[j] == r.1.value && |list[j].minterms| == r.0 &&
                          (forall i :: 0 <= i < j ==> |list[i].minterms| < r.0)
    decreases |list|
  {
    if list == [] then (0, None)
    else
      var init, last := list[..|list| - 1], list[|list| - 1];
      assert list == init + [last];
      var b := BestOf(init);
      if |last.minterms| > b.0 then (|last.minterms|, Some(last)) else b
  }

  /** The second loop over the table, run while not every minterm is covered: an uncovered
      minterm adds its list's best implicant; the loop stops once `count` minterms are
      covered. */
  function GreedyFrom(t: Table, i: nat, covered: set<nat>, finals: seq<Implicant>, count: nat)
    : (set<nat>, seq<Implicant>)
    requires i <= |t.keys| && KeysOk(t) && Listed(t)
    decreases |t.keys| - i
  {
    if i == |t.keys| then (covered, finals)
    else
      var k := t.keys[i];
      assert k in t.entries;
      if k in covered then GreedyFrom(t, i + 1, covered, finals, count)
      else
        var best := BestFor(t, k);
        var c := covered + Elems(best.minterms);
        var f := AddFinal(finals, best);
        if |c| == count then (c, f) else GreedyFrom(t, i + 1, c, f, count)
  }

  /** `PickFinalImplicants`: the essentials, then, when they leave a minterm uncovered, the
      greedy cover. The result is the final implicants in the order they were added. */
  function Pick(t: Table): seq<Implicant>
    requires KeysOk(t) && Listed(t)
  {
    var e := EssentialsFrom(t, 0, {}, []);
    if |e.0| < |t.keys| then GreedyFrom(t, 0, e.0, e.1, |t.keys|).1 else e.1
  }

  // ---------------------------------------------------------------------------------
  // What the pick achieves

  /** The implicant is listed somewhere in the table. */
  ghost predicate InTable(t: Table, y: Implicant) {
    exists k :: k in t.entries && y in t.entries[k]
  }

  /** It is the only implicant listed for some minterm. */
  ghost predicate Essential(t: Table, y: Implicant) {
    exists k :: k in t.entries && t.entries[k] == [y]
  }

  /** What both loops keep: the covered minterms are those of the final implicants, all of
      which are listed, have distinct vectors, and imply only keys. */
  ghost predicate Picked(t: Table, covered: set<nat>, finals: seq<Implicant>) {
    covered == CoverOf(finals) && covered <= Elems(t.keys) && DistinctVectors(finals) &&
    (forall y :: y in finals ==> InTable(t, y))
  }

  /** Adding a listed implicant none of whose twins but itself is final keeps `Picked`. */
  lemma PickStep(t: Table, covered: set<nat>, finals: seq<Implicant>, k: nat, x: Implicant)
    requires KeysOk(t) && Listed(t) && Picked(t, covered, finals)
    requires k in t.entries && x in t.entries[k]
    requires forall y :: y in finals && y.bits == x.bits ==> y == x
    ensures var f := AddFinal(finals, x);
            Picked(t, covered + Elems(x.minterms), f) && x in f &&
            forall y :: y in finals ==> y in f
  {
    var f := AddFinal(finals, x);
    if !HasTwin(finals, x) {
      CoverSnoc(finals, x);
      assert forall y :: y in f ==> y in finals || y == x;
      assert forall i :: 0 <= i < |finals| ==> f[i] == finals[i];
    } else {
      var i :| 0 <= i < |finals| && finals[i].bits == x.bits;
      assert finals[i] in finals;
      assert Elems(x.minterms) <= CoverOf(finals);
    }
  }

  /** The only twin an essential implicant can have among the finals is itself: a twin
      implies the same minterms, so it is listed under the key the essential one alone
      is listed under. */
  lemma EssentialTwin(t: Table, covered: set<nat>, finals: seq<Implicant>, k: nat)
    requires KeysOk(t) && Listed(t) && Complete(t) && Picked(t, covered, finals)
    requires k in t.entries && |t.entries[k]| == 1
    ensures forall y :: y in finals && y.bits == t.entries[k][0].bits ==> y == t.entries[k][0]
  {
    var x := t.entries[k][0];
    assert x in t.entries[k];
    forall y | y in finals && y.bits == x.bits
      ensures y == x
    {
      var j :| j in t.entries && y in t.entries[j];
      assert y.minterms == x.minterms;
    }
  }

  /** The implicant the greedy step picks for an uncovered key has no twin among the
      finals: a twin would imply the same minterms and so cover the key. */
  lemma GreedyTwin(t: Table, covered: set<nat>, finals: seq<Implicant>, k: nat)
    requires KeysOk(t) && Listed(t) && Complete(t) && Picked(t, covered, finals)
    requires k in t.entries && k !in covered
    ensures !HasTwin(finals, BestFor(t, k))
  {
    var x := BestFor(t, k);
    forall i | 0 <= i < |finals|
      ensures finals[i].bits != x.bits
    {
      var y := finals[i];
      assert y in finals;
      var j :| j in t.entries && y in t.entries[j];
      assert y.minterms == Drain([y.bits]);
      assert k !in y.minterms;
    }
  }

  /** The first loop keeps `Picked`, keeps what was already final, and leaves every
      essential implicant among the finals. */
  lemma {:induction false} EssentialsPicked(t: Table, i: nat, covered: set<nat>,
                                            finals: seq<Implicant>)
    requires i <= |t.keys| && KeysOk(t) && Listed(t) && Complete(t)
    requires Picked(t, covered, finals)
    requires forall j :: 0 <= j < i && |t.entries[t.keys[j]]| == 1 ==>
               t.entries[t.keys[j]][0] in finals
    ensures var e := EssentialsFrom(t, i, covered, finals);
            Picked(t, e.0, e.1) &&
            (forall y :: y in finals ==> y in e.1) &&
            forall j :: 0 <= j < |t.keys| && |t.entries[t.keys[j]]| == 1 ==>
              t.entries[t.keys[j]][0] in e.1
    decreases |t.keys| - i
  {
    if i < |t.keys| {
      var k := t.keys[i];
      assert k in t.entries;
      var list := t.entries[k];
      if |list| == 1 {
        EssentialTwin(t, covered, finals, k);
        PickStep(t, covered, finals, k, list[0]);
        EssentialsPicked(t, i + 1, covered + Elems(list[0].minterms), AddFinal(finals, list[0]));
      } else {
        EssentialsPicked(t, i + 1, covered, finals);
      }
    }
  }

  /** The implicant the greedy step picks for key `k`. */
  function BestFor(t: Table, k: nat): (x: Implicant)
    requires Listed(t) && k in t.entries
    ensures x in t.entries[k] && k in x.minterms
  {
    var list := t.entries[k];
    assert k in list[0].minterms;
    BestOf(list).1.value
  }

  /** The second loop keeps `Picked` and keeps what was already final. */
  lemma {:induction false} GreedyKeeps(t: Table, i: nat, covered: set<nat>,
                                       finals: seq<Implicant>, count: nat)
    requires i <= |t.keys| && KeysOk(t) && Listed(t) && Complete(t) && Picked(t, covered, finals)
    ensures var g := GreedyFrom(t, i, covered, finals, count);
            Picked(t, g.0, g.1) && forall y :: y in finals ==> y in g.1
    decreases |t.keys| - i
  {
    if i < |t.keys| {
      var k := t.keys[i];
      assert k in t.entries;
      if k in covered {
        GreedyKeeps(t, i + 1, covered, finals, count);
      } else {
        var x := BestFor(t, k);
        var c, f := covered + Elems(x.minterms), AddFinal(finals, x);
        GreedyTwin(t, covered, finals, k);
        PickStep(t, covered, finals, k, x);
        if |c| != count {
          GreedyKeeps(t, i + 1, c, f, count);
          assert GreedyFrom(t, i, covered, finals, count) == GreedyFrom(t, i + 1, c, f, count);
        }
      }
    }
  }

  /** The second loop ends with every key covered, when it stops at the number of keys. */
  lemma {:induction false} GreedyCovers(t: Table, i: nat, covered: set<nat>,
                                        finals: seq<Implicant>)
    requires i <= |t.keys| && KeysOk(t) && Listed(t) && covered <= Elems(t.keys)
    requires forall j :: 0 <= j < i ==> t.keys[j] in covered
    ensures GreedyFrom(t, i, covered, finals, |t.keys|).0 == Elems(t.keys)
    decreases |t.keys| - i
  {
    if i == |t.keys| {
      assert Elems(t.keys) <= covered;
    } else {
      var k := t.keys[i];
      assert k in t.entries;
      if k in covered {
        GreedyCovers(t, i + 1, covered, finals);
      } else {
        var x := BestFor(t, k);
        var c := covered + Elems(x.minterms);
        assert k in x.minterms;
        assert c <= Elems(t.keys);
        if |c| == |t.keys| {
          DistinctCount(t.keys);
          SubsetCount(c, Elems(t.keys));
        } else {
          GreedyCovers(t, i + 1, c, AddFinal(finals, x));
        }
      }
    }
  }

  /** The pick covers every minterm in the table, holds only listed implicants, no two
      with the same vector, and holds every essential one. */
  lemma PickCovers(t: Table)
    requires KeysOk(t) && Listed(t) && Complete(t)
    ensures var f := Pick(t);
            CoverOf(f) == Elems(t.keys) && DistinctVectors(f) &&
            (forall y :: y in f ==> InTable(t, y)) &&
            forall y :: Essential(t, y) ==> y in f
  {
    EssentialsPicked(t, 0, {}, []);
    var e := EssentialsFrom(t, 0, {}, []);
    forall y | Essential(t, y)
      ensures y in e.1
    {
      var k :| k in t.entries && t.entries[k] == [y];
      var j :| 0 <= j < |t.keys| && t.keys[j] == k;
    }
    if |e.0| < |t.keys| {
      GreedyKeeps(t, 0, e.0, e.1, |t.keys|);
      GreedyCovers(t, 0, e.0, e.1);
    } else {
      DistinctCount(t.keys);
      SubsetCount(e.0, Elems(t.keys));
    }
  }

  /** A table of some implicants lists only those implicants. */
  lemma TableMembers(t: Table, ps: seq<Implicant>, y: Implicant)
    requires Describes(t, ps) && InTable(t, y)
    ensures y in ps
  {
    var k :| k in t.entries && y in t.entries[k];
    assert ListFor(t, k) == t.entries[k];
  }

  /** Built from the prime implicants, the table counts their minterms, and the pick is a
      cover of them drawn from them that holds every essential prime implicant. */
  lemma TablePick(ps: seq<Implicant>)
    requires SetLike(ps) && Generated(ps)
    ensures var t := BuildTable(ps);
            var f := Pick(t);
            |t.keys| == |CoverOf(ps)| &&
            CoverOf(f) == CoverOf(ps) && DistinctVectors(f) && NoDup(f) &&
            (forall y :: y in f ==> y in ps) &&
            forall y, m :: y in ps && Containing(ps, m) == [y] ==> y in f
  {
    var t := BuildTable(ps);
    TableCount(t, ps);
    DescribesComplete(t, ps);
    PickFromPrimes(t, ps);
    PickHoldsSole(t, ps);
  }

  lemma PickFromPrimes(t: Table, ps: seq<Implicant>)
    requires Describes(t, ps) && Listed(t) && Complete(t)
    ensures var f := Pick(t);
            CoverOf(f) == CoverOf(ps) && DistinctVectors(f) && NoDup(f) &&
            forall y :: y in f ==> y in ps
  {
    TableCount(t, ps);
    PickCovers(t);
    forall y | y in Pick(t)
      ensures y in ps
    {
      TableMembers(t, ps, y);
    }
  }

  lemma PickHoldsSole(t: Table, ps: seq<Implicant>)
    requires Describes(t, ps) && Listed(t) && Complete(t)
    ensures forall y, m :: y in ps && Containing(ps, m) == [y] ==> y in Pick(t)
  {
    PickCovers(t);
    forall y, m | y in ps && Containing(ps, m) == [y]
      ensures y in Pick(t)
    {
      SoleIsEssential(t, ps, y, m);
    }
  }

  /** A minterm that one prime implicant alone contains makes it essential in the table
      that describes them. */
  lemma SoleIsEssential(t: Table, ps: seq<Implicant>, y: Implicant, m: nat)
    requires Describes(t, ps) && Containing(ps, m) == [y]
    ensures Essential(t, y)
  {
    assert y in Containing(ps, m);
    assert ListFor(t, m) == t.entries[m];
  }
}
