/** `Implicant`: a product of literals over the sorted variables of an expression, kept as
    a vector of cells together with its one and dash counters and the minterms it implies. */
module Implicants {
  import opened Tokens
  import opened Minterms
  import opened Strings

  /** `bits` is `_BinArray`; `ones` and `dashes` are the counters `Ones` and `Dashes`,
      which the string constructor maintains by hand; `minterms` is the `HashSet<uint>` in
      insertion order. */
  datatype Implicant = Implicant(
    bits: seq<Cell>, ones: int, dashes: int, isContradiction: bool, minterms: seq<nat>)

  /** The counters agree with the vector. */
  predicate Exact(imp: Implicant) {
    imp.ones == OneCount(imp.bits) && imp.dashes == DashCount(imp.bits)
  }

  /** An implicant over `n` variables as the array constructor builds it. */
  predicate Valid(imp: Implicant, n: nat) {
    |imp.bits| == n && Exact(imp) && !imp.isContradiction && imp.minterms == Drain([imp.bits])
  }

  /** An implicant over `n` variables as either constructor builds it when it is not a
      contradiction: its minterms are those its vector implies, and its dash counter is
      at most the dashes of the vector (the string constructor decrements it once per
      factor, so a repeated literal leaves it too low). */
  predicate Sound(imp: Implicant, n: nat) {
    |imp.bits| == n && !imp.isContradiction && imp.minterms == Drain([imp.bits]) &&
    imp.dashes <= DashCount(imp.bits)
  }

  function AllDashes(n: nat): (v: seq<Cell>)
    ensures |v| == n
  {
    seq(n, _ => Dash)
  }

  lemma {:induction false} AllDashesCounts(n: nat)
    ensures DashCount(AllDashes(n)) == n && OneCount(AllDashes(n)) == 0
    decreases n
  {
    if n > 0 {
      AllDashesCounts(n - 1);
      assert AllDashes(n) == AllDashes(n - 1) + [Dash];
    }
  }

  // ---------------------------------------------------------------------------------
  // The array constructor

  /** `Implicant(parent, char[] binArray)`: copy the vector, count its ones and dashes and
      generate its minterms. */
  function FromBits(bits: seq<Cell>): Implicant {
    Implicant(bits, OneCount(bits), DashCount(bits), false, Drain([bits]))
  }

  /** The array constructor's result is valid and implies exactly the rows its vector
      covers, each once. */
  lemma FromBitsCorrect(bits: seq<Cell>)
    ensures Valid(FromBits(bits), |bits|)
    ensures forall m :: m in FromBits(bits).minterms <==> Implies(bits, m)
    ensures NoDup(FromBits(bits).minterms)
    ensures |FromBits(bits).minterms| == Pow2(FromBits(bits).dashes)
  {
    ImpliedMintermsCorrect(bits);
  }

  /** The array constructor, counting with a loop over the copied vector. */
  method NewFromBits(bits: seq<Cell>) returns (imp: Implicant)
    ensures imp == FromBits(bits)
  {
    var ones, dashes := 0, 0;
    for i := 0 to |bits|
      invariant ones == OneCount(bits[..i]) && dashes == DashCount(bits[..i])
    {
      assert bits[..i + 1] == bits[..i] + [bits[i]];
      match bits[i]
      case One => ones := ones + 1;
      case Dash => dashes := dashes + 1;
      case Zero =>
    }
    assert bits[..|bits|] == bits;
    var minterms := ImpliedMinterms(bits);
    imp := Implicant(bits, ones, dashes, false, minterms);
  }

  // ---------------------------------------------------------------------------------
  // The string constructor

  /** The state of the string constructor between two factors. */
  datatype Scan = Scan(bits: seq<Cell>, ones: int, dashes: int, contradiction: bool)

  /** A factor is a letter (the variable is true) or a letter and `'` (it is false). */
  function ReadFactor(f: string): Option<(char, Cell)> {
    if |f| == 1 && IsValid(f[0]) then Some((f[0], One))
    else if |f| == 2 && IsValid(f[0]) && f[1] == NOT then Some((f[0], Zero))
    else None
  }

  /** Every letter has a position among the `n` variables. */
  predicate AlphabetFits(alphabet: map<char, nat>, n: nat) {
    forall c :: c in alphabet ==> alphabet[c] < n
  }

  /** A factor that reads as a literal of a known variable. */
  predicate Known(f: string, alphabet: map<char, nat>) {
    ReadFactor(f).Some? && ReadFactor(f).value.0 in alphabet
  }

  /** The exception the string constructor throws for an unknown factor. */
  function FactorError(f: string, alphabet: map<char, nat>, input: string): Error {
    if ReadFactor(f).None? then MalformedImplicant(input) else UnknownVariable(ReadFactor(f).value.0)
  }

  /** The loop of the string constructor from factor `k` on. A factor that contradicts an
      earlier one resets the vector and ends the loop. On any other factor the source
      always decrements the dash counter and, for a true literal, increments the one
      counter (`asWritten`); the corrected reading changes them only when the position was
      still free. */
  function ScanFactors(alphabet: map<char, nat>, n: nat, input: string, factors: seq<string>,
                       k: nat, st: Scan, asWritten: bool): (r: Result<Scan>)
    requires AlphabetFits(alphabet, n) && |st.bits| == n && k <= |factors|
    ensures r.Ok? ==> |r.value.bits| == n
    decreases |factors| - k
  {
    if k == |factors| then Ok(st)
    else if !Known(factors[k], alphabet) then Err(FactorError(factors[k], alphabet, input))
    else
      var (c, value) := ReadFactor(factors[k]).value;
      var pos := alphabet[c];
      var previous := st.bits[pos];
      if previous != Dash && previous != value then Ok(Scan(AllDashes(n), 0, n, true))
      else if asWritten || previous == Dash then
        ScanFactors(alphabet, n, input, factors, k + 1,
                    Scan(st.bits[pos := value], st.ones + (if value == One then 1 else 0), st.dashes - 1, false),
                    asWritten)
      else ScanFactors(alphabet, n, input, factors, k + 1, st, asWritten)
  }

  function InitialScan(n: nat): Scan {
    Scan(AllDashes(n), 0, n, false)
  }

  /** `Implicant(parent, string input)` over the `n` variables whose positions `alphabet`
      gives: split at `*`, read every factor, then generate the minterms unless the term
      is a contradiction. */
  function TermImplicant(alphabet: map<char, nat>, n: nat, input: string, asWritten: bool): Result<Implicant>
    requires AlphabetFits(alphabet, n)
  {
    match ScanFactors(alphabet, n, input, Split(input, AND), 0, InitialScan(n), asWritten)
    case Err(e) => Err(e)
    case Ok(st) =>
      Ok(Implicant(st.bits, st.ones, st.dashes, st.contradiction,
                   if st.contradiction then [] else Drain([st.bits])))
  }

  /** The string constructor as the source writes it. */
  function FromTermAsWritten(alphabet: map<char, nat>, n: nat, input: string): Result<Implicant>
    requires AlphabetFits(alphabet, n)
  {
    TermImplicant(alphabet, n, input, true)
  }

  /** The string constructor with counters that follow the vector. */
  function FromTerm(alphabet: map<char, nat>, n: nat, input: string): Result<Implicant>
    requires AlphabetFits(alphabet, n)
  {
    TermImplicant(alphabet, n, input, false)
  }

  /** The string constructor's loop; a thrown exception is an `Err` result. */
  method NewFromTerm(alphabet: map<char, nat>, n: nat, input: string, asWritten: bool)
    returns (r: Result<Implicant>)
    requires AlphabetFits(alphabet, n)
    ensures r == TermImplicant(alphabet, n, input, asWritten)
  {
    var factors := Split(input, AND);
    var bits := AllDashes(n);
    var ones: int, dashes: int := 0, n;
    var contradiction := false;
    var k := 0;
    while k < |factors|
      invariant k <= |factors| && |bits| == n && !contradiction
      invariant ScanFactors(alphabet, n, input, factors, k, Scan(bits, ones, dashes, false), asWritten)
        == ScanFactors(alphabet, n, input, factors, 0, InitialScan(n), asWritten)
    {
      var f := factors[k];
      var literal, value;
      if |f| == 0 {
        return Err(MalformedImplicant(input));
      } else if |f| == 1 {
        literal, value := f[0], One;
        if !IsValid(literal) {
          return Err(MalformedImplicant(input));
        }
      } else if |f| == 2 {
        literal, value := f[0], Zero;
        if !IsValid(literal) || f[1] != NOT {
          return Err(MalformedImplicant(input));
        }
      } else {
        return Err(MalformedImplicant(input));
      }
      if literal !in alphabet {
        return Err(UnknownVariable(literal));
      }
      var position := alphabet[literal];
      var previous := bits[position];
      if previous != Dash && previous != value {
        bits := AllDashes(n);
        ones, dashes := 0, n;
        contradiction := true;
        break;
      } else if asWritten || previous == Dash {
        bits := bits[position := value];
        dashes := dashes - 1;
        if value == One {
          ones := ones + 1;
        }
        k := k + 1;
      } else {
        k := k + 1;
      }
    }
    assert ScanFactors(alphabet, n, input, factors, 0, InitialScan(n), asWritten)
        == Ok(Scan(bits, ones, dashes, contradiction));
    var minterms := [];
    if !contradiction {
      minterms := ImpliedMinterms(bits);
    }
    r := Ok(Implicant(bits, ones, dashes, contradiction, minterms));
  }

  /** The factor `f` is a literal of a known variable that the row `w` makes true. */
  predicate FactorHolds(f: string, alphabet: map<char, nat>, w: seq<Cell>) {
    Known(f, alphabet) &&
    var (c, value) := ReadFactor(f).value;
    alphabet[c] < |w| && w[alphabet[c]] == value
  }

  /** The first `k` factors hold in the row `w`. */
  predicate HoldsUpTo(factors: seq<string>, alphabet: map<char, nat>, w: seq<Cell>, k: nat) {
    forall j :: 0 <= j < k && j < |factors| ==> FactorHolds(factors[j], alphabet, w)
  }

  /** Every factor of the term holds in the row `w`: the product is true there. */
  predicate Holds(factors: seq<string>, alphabet: map<char, nat>, w: seq<Cell>) {
    HoldsUpTo(factors, alphabet, w, |factors|)
  }

  /** The vector so far covers exactly the rows where the factors read so far hold. */
  ghost predicate ScanMeans(alphabet: map<char, nat>, n: nat, factors: seq<string>, k: nat, st: Scan) {
    |st.bits| == n && !st.contradiction &&
    forall w :: |w| == n && IsMinterm(w) ==> (Covers(st.bits, w) <==> HoldsUpTo(factors, alphabet, w, k))
  }

  /** Fixing a free position, or one already fixed to the same value. */
  lemma PlaceLiteral(bits: seq<Cell>, pos: nat, value: Cell, w: seq<Cell>)
    requires pos < |bits| && value != Dash && (bits[pos] == Dash || bits[pos] == value)
    ensures Covers(bits[pos := value], w) <==> Covers(bits, w) && w[pos] == value
  {
    if Covers(bits, w) && w[pos] == value {
      assert forall i :: 0 <= i < |bits| ==> bits[pos := value][i] == Dash || bits[pos := value][i] == w[i];
    }
  }

  lemma {:induction false} ScanMeaning(alphabet: map<char, nat>, n: nat, input: string, factors: seq<string>,
                                       k: nat, st: Scan, asWritten: bool)
    requires AlphabetFits(alphabet, n) && k <= |factors| && ScanMeans(alphabet, n, factors, k, st)
    ensures var r := ScanFactors(alphabet, n, input, factors, k, st, asWritten);
            r.Ok? ==> ((r.value.contradiction ==> r.value.bits == AllDashes(n)) &&
              forall w :: |w| == n && IsMinterm(w) ==>
                if r.value.contradiction then !Holds(factors, alphabet, w)
                else (Covers(r.value.bits, w) <==> Holds(factors, alphabet, w)))
    decreases |factors| - k
  {
    if k < |factors| && Known(factors[k], alphabet) {
      var (c, value) := ReadFactor(factors[k]).value;
      var pos := alphabet[c];
      var previous := st.bits[pos];
      if previous != Dash && previous != value {
        forall w | |w| == n && IsMinterm(w)
          ensures !Holds(factors, alphabet, w)
        {
          if Holds(factors, alphabet, w) {
            assert false;
          }
        }
      } else {
        var bits' := st.bits[pos := value];
        forall w | |w| == n && IsMinterm(w)
          ensures Covers(bits', w) <==> HoldsUpTo(factors, alphabet, w, k + 1)
        {
          PlaceLiteral(st.bits, pos, value, w);
          assert HoldsUpTo(factors, alphabet, w, k + 1) <==>
                 HoldsUpTo(factors, alphabet, w, k) && FactorHolds(factors[k], alphabet, w);
        }
        if asWritten || previous == Dash {
          ScanMeaning(alphabet, n, input, factors, k + 1,
                      Scan(bits', st.ones + (if value == One then 1 else 0), st.dashes - 1, false), asWritten);
        } else {
          assert bits' == st.bits;
          ScanMeaning(alphabet, n, input, factors, k + 1, st, asWritten);
        }
      }
    }
  }

  /** The minterms of a term's implicant are exactly the rows where every factor holds;
      for a contradiction there are none. */
  lemma TermMeaning(alphabet: map<char, nat>, n: nat, input: string, asWritten: bool)
    requires AlphabetFits(alphabet, n)
    ensures var r := TermImplicant(alphabet, n, input, asWritten);
            r.Ok? ==> (|r.value.bits| == n &&
              (r.value.isContradiction ==> r.value.bits == AllDashes(n) && r.value.minterms == []) &&
              forall m: nat :: m in r.value.minterms <==> m < Pow2(n) && Holds(Split(input, AND), alphabet, VectorOf(m, n)))
  {
    var factors := Split(input, AND);
    var st0 := InitialScan(n);
    forall w | |w| == n && IsMinterm(w)
      ensures Covers(st0.bits, w) <==> HoldsUpTo(factors, alphabet, w, 0)
    {
    }
    ScanMeaning(alphabet, n, input, factors, 0, st0, asWritten);
    var r := ScanFactors(alphabet, n, input, factors, 0, st0, asWritten);
    if r.Ok? && !r.value.contradiction {
      ImpliedMintermsCorrect(r.value.bits);
    }
  }

  /** The first factor that is not a known literal decides the exception; a term whose
      factors are all known literals yields an implicant. */
  lemma {:induction false} ScanErrors(alphabet: map<char, nat>, n: nat, input: string, factors: seq<string>,
                                      k: nat, st: Scan, asWritten: bool)
    requires AlphabetFits(alphabet, n) && |st.bits| == n && k <= |factors|
    ensures var r := ScanFactors(alphabet, n, input, factors, k, st, asWritten);
            (r.Err? ==> exists j :: k <= j < |factors| && !Known(factors[j], alphabet) &&
                          r.error == FactorError(factors[j], alphabet, input) &&
                          forall i :: k <= i < j ==> Known(factors[i], alphabet)) &&
            ((forall j :: k <= j < |factors| ==> Known(factors[j], alphabet)) ==> r.Ok?)
    decreases |factors| - k
  {
    if k < |factors| && Known(factors[k], alphabet) {
      var (c, value) := ReadFactor(factors[k]).value;
      var pos := alphabet[c];
      var previous := st.bits[pos];
      if !(previous != Dash && previous != value) {
        if asWritten || previous == Dash {
          ScanErrors(alphabet, n, input, factors, k + 1,
                     Scan(st.bits[pos := value], st.ones + (if value == One then 1 else 0), st.dashes - 1, false), asWritten);
        } else {
          ScanErrors(alphabet, n, input, factors, k + 1, st, asWritten);
        }
      }
    }
  }

  /** The string constructor throws for the first factor that is not a literal
      (`Malformed implicant`) or names a variable without a position; it throws nothing
      when every factor is a literal of a known variable. */
  lemma TermErrors(alphabet: map<char, nat>, n: nat, input: string, asWritten: bool)
    requires AlphabetFits(alphabet, n)
    ensures TermImplicant(alphabet, n, input, asWritten).Err? ==>
              exists j :: 0 <= j < |Split(input, AND)| && !Known(Split(input, AND)[j], alphabet) &&
                TermImplicant(alphabet, n, input, asWritten).error == FactorError(Split(input, AND)[j], alphabet, input) &&
                forall i :: 0 <= i < j ==> Known(Split(input, AND)[i], alphabet)
    ensures (forall j :: 0 <= j < |Split(input, AND)| ==> Known(Split(input, AND)[j], alphabet)) ==>
              TermImplicant(alphabet, n, input, asWritten).Ok?
  {
    var factors := Split(input, AND);
    ScanErrors(alphabet, n, input, factors, 0, InitialScan(n), asWritten);
    var r := ScanFactors(alphabet, n, input, factors, 0, InitialScan(n), asWritten);
    if r.Err? {
      assert TermImplicant(alphabet, n, input, asWritten) == Err(r.error);
    }
  }

  lemma {:induction false} ScanExact(alphabet: map<char, nat>, n: nat, input: string, factors: seq<string>,
                                     k: nat, st: Scan)
    requires AlphabetFits(alphabet, n) && |st.bits| == n && k <= |factors|
    requires st.ones == OneCount(st.bits) && st.dashes == DashCount(st.bits)
    ensures var r := ScanFactors(alphabet, n, input, factors, k, st, false);
            r.Ok? ==> r.value.ones == OneCount(r.value.bits) && r.value.dashes == DashCount(r.value.bits)
    decreases |factors| - k
  {
    if k < |factors| && Known(factors[k], alphabet) {
      var (c, value) := ReadFactor(factors[k]).value;
      var pos := alphabet[c];
      var previous := st.bits[pos];
      if previous != Dash && previous != value {
        AllDashesCounts(n);
      } else if previous == Dash {
        var bits' := st.bits[pos := value];
        CountsAreMultiplicities(st.bits);
        CountsAreMultiplicities(bits');
        assert multiset(bits') == multiset(st.bits) - multiset{Dash} + multiset{value};
        ScanExact(alphabet, n, input, factors, k + 1,
                  Scan(bits', st.ones + (if value == One then 1 else 0), st.dashes - 1, false));
      } else {
        ScanExact(alphabet, n, input, factors, k + 1, st);
      }
    }
  }

  /** With the corrected counters every implicant the string constructor builds has
      counters that agree with its vector, and one that is not a contradiction is exactly
      what the array constructor would build from its vector. */
  lemma FromTermExact(alphabet: map<char, nat>, n: nat, input: string)
    requires AlphabetFits(alphabet, n)
    ensures var r := FromTerm(alphabet, n, input);
            r.Ok? ==> Exact(r.value) && (!r.value.isContradiction ==> r.value == FromBits(r.value.bits))
  {
    AllDashesCounts(n);
    ScanExact(alphabet, n, input, Split(input, AND), 0, InitialScan(n));
  }

  /** Setting a position drops the dash count by one when it held a dash and keeps it
      when it already held the value. */
  lemma SetDashCount(bits: seq<Cell>, pos: nat, value: Cell)
    requires pos < |bits| && value != Dash && (bits[pos] == Dash || bits[pos] == value)
    ensures DashCount(bits[pos := value]) == DashCount(bits) - (if bits[pos] == Dash then 1 else 0)
  {
    var bits' := bits[pos := value];
    CountsAreMultiplicities(bits);
    CountsAreMultiplicities(bits');
    if bits[pos] == Dash {
      assert multiset(bits') == multiset(bits) - multiset{Dash} + multiset{value};
    } else {
      assert bits' == bits;
    }
  }

  lemma {:induction false} ScanDrift(alphabet: map<char, nat>, n: nat, input: string, factors: seq<string>,
                                     k: nat, st: Scan, asWritten: bool)
    requires AlphabetFits(alphabet, n) && |st.bits| == n && k <= |factors|
    requires st.dashes <= DashCount(st.bits)
    ensures var r := ScanFactors(alphabet, n, input, factors, k, st, asWritten);
            r.Ok? ==> r.value.dashes <= DashCount(r.value.bits)
    decreases |factors| - k
  {
    if k < |factors| && Known(factors[k], alphabet) {
      var (c, value) := ReadFactor(factors[k]).value;
      var pos := alphabet[c];
      var previous := st.bits[pos];
      if previous != Dash && previous != value {
        AllDashesCounts(n);
      } else if asWritten || previous == Dash {
        var bits' := st.bits[pos := value];
        SetDashCount(st.bits, pos, value);
        ScanDrift(alphabet, n, input, factors, k + 1,
                  Scan(bits', st.ones + (if value == One then 1 else 0), st.dashes - 1, false), asWritten);
      } else {
        ScanDrift(alphabet, n, input, factors, k + 1, st, asWritten);
      }
    }
  }

  /** Either string constructor, when it builds no contradiction, builds a sound
      implicant; with the corrected counters it is also valid. */
  lemma TermSound(alphabet: map<char, nat>, n: nat, input: string, asWritten: bool)
    requires AlphabetFits(alphabet, n)
    ensures var r := TermImplicant(alphabet, n, input, asWritten);
            r.Ok? && !r.value.isContradiction ==> Sound(r.value, n) && (!asWritten ==> Valid(r.value, n))
  {
    AllDashesCounts(n);
    ScanDrift(alphabet, n, input, Split(input, AND), 0, InitialScan(n), asWritten);
    FromTermExact(alphabet, n, input);
  }

  lemma SplitTwo()
    ensures Split("A*A", AND) == ["A", "A"]
  {
    SplitAtSep("A", "A", AND);
    assert "A" + [AND] + "A" == "A*A";
    SplitNoSep("A", AND);
  }

  lemma SplitThree()
    ensures Split("A*A'*%", AND) == ["A", "A'", "%"]
  {
    SplitAtSep("A'", "%", AND);
    assert "A'" + [AND] + "%" == "A'*%";
    SplitAtSep("A", "A'*%", AND);
    assert "A" + [AND] + "A'*%" == "A*A'*%";
    SplitNoSep("A", AND);
    SplitNoSep("A'", AND);
    SplitNoSep("%", AND);
  }

  /** `A*A` over the one variable A: the source counts the repeated literal twice, leaving
      two ones and minus one dash for the vector `1`. */
  lemma RepeatedLiteralDrift()
    ensures FromTermAsWritten(map['A' := 0], 1, "A*A") == Ok(Implicant([One], 2, -1, false, [1]))
  {
    var factors := Split("A*A", AND);
    SplitTwo();
    var alphabet := map['A' := 0];
    assert ReadFactor("A") == Some(('A', One));
    var st1 := Scan([One], 1, 0, false);
    assert AllDashes(1) == [Dash];
    assert [Dash][0 := One] == [One];
    assert ScanFactors(alphabet, 1, "A*A", factors, 0, InitialScan(1), true)
        == ScanFactors(alphabet, 1, "A*A", factors, 1, st1, true);
    assert [One][0 := One] == [One];
    assert ScanFactors(alphabet, 1, "A*A", factors, 1, st1, true)
        == Ok(Scan([One], 2, -1, false));
    assert Drain([[One]]) == [1] by {
      assert FirstDash([One]) == 1;
      assert ValueOf([One]) == 1;
    }
  }

  /** The corrected counters give one one and no dash for the same term. */
  lemma RepeatedLiteralCorrected()
    ensures FromTerm(map['A' := 0], 1, "A*A") == Ok(Implicant([One], 1, 0, false, [1]))
  {
    var factors := Split("A*A", AND);
    SplitTwo();
    var alphabet := map['A' := 0];
    assert ReadFactor("A") == Some(('A', One));
    var st1 := Scan([One], 1, 0, false);
    assert AllDashes(1) == [Dash];
    assert [Dash][0 := One] == [One];
    assert ScanFactors(alphabet, 1, "A*A", factors, 0, InitialScan(1), false)
        == ScanFactors(alphabet, 1, "A*A", factors, 1, st1, false);
    assert ScanFactors(alphabet, 1, "A*A", factors, 1, st1, false)
        == ScanFactors(alphabet, 1, "A*A", factors, 2, st1, false);
    assert TermImplicant(alphabet, 1, "A*A", false) == Ok(Implicant([One], 1, 0, false, Drain([[One]])));
    assert Drain([[One]]) == [1] by {
      assert FirstDash([One]) == 1;
      assert ValueOf([One]) == 1;
    }
  }

  /** A contradiction ends the loop, so a malformed factor after it throws nothing. */
  lemma ContradictionStopsReading()
    ensures FromTerm(map['A' := 0], 1, "A*A'*%") == Ok(Implicant([Dash], 0, 1, true, []))
  {
    var factors := Split("A*A'*%", AND);
    SplitThree();
    var alphabet := map['A' := 0];
    assert ReadFactor("A") == Some(('A', One));
    assert ReadFactor("A'") == Some(('A', Zero));
    assert [Dash][0 := One] == [One];
    assert ScanFactors(alphabet, 1, "A*A'*%", factors, 0, InitialScan(1), false)
        == ScanFactors(alphabet, 1, "A*A'*%", factors, 1, Scan([One], 1, 0, false), false);
    assert AllDashes(1) == [Dash];
  }

  // ---------------------------------------------------------------------------------
  // ToString, CompareTo, Equals

  /** The sorted variables of the parent expression: distinct letters in increasing order. */
  predicate SortedLetters(vars: seq<char>) {
    (forall i :: 0 <= i < |vars| ==> IsValid(vars[i])) &&
    (forall i, j :: 0 <= i < j < |vars| ==> vars[i] < vars[j])
  }

  /** What one position contributes to the text: nothing when free, the variable when
      true, the variable and `'` when false. */
  function Piece(c: Cell, v: char): string {
    match c
    case Dash => []
    case One => [v]
    case Zero => [v, NOT]
  }

  /** The pieces of the positions in order, with nothing between them. */
  function Text(bits: seq<Cell>, vars: seq<char>): string
    requires |bits| <= |vars|
  {
    if bits == [] then [] else Text(bits[..|bits| - 1], vars) + Piece(bits[|bits| - 1], vars[|bits| - 1])
  }

  /** `ToString`: the empty string when the dash counter says every position is free,
      otherwise the text of the vector. */
  function Display(imp: Implicant, vars: seq<char>): string
    requires |imp.bits| <= |vars|
  {
    if imp.dashes == |imp.bits| then [] else Text(imp.bits, vars)
  }

  /** `ToString`, building the text with a loop over the vector. */
  method ToString(imp: Implicant, vars: seq<char>) returns (s: string)
    requires |imp.bits| <= |vars|
    ensures s == Display(imp, vars)
  {
    if imp.dashes == |imp.bits| {
      return [];
    }
    s := [];
    for i := 0 to |imp.bits|
      invariant s == Text(imp.bits[..i], vars)
    {
      assert imp.bits[..i + 1][..i] == imp.bits[..i];
      if imp.bits[i] != Dash {
        s := s + [vars[i]];
        if imp.bits[i] == Zero {
          s := s + [NOT];
        }
      }
    }
    assert imp.bits[..|imp.bits|] == imp.bits;
  }

  /** The text holds only `'` and variables of the positions it covers. */
  lemma {:induction false} TextLetters(bits: seq<Cell>, vars: seq<char>)
    requires |bits| <= |vars|
    ensures forall c :: c in Text(bits, vars) ==> c == NOT || c in vars[..|bits|]
    decreases |bits|
  {
    if bits != [] {
      var k := |bits| - 1;
      TextLetters(bits[..k], vars);
      assert vars[..k] <= vars[..k + 1];
      assert vars[k] in vars[..k + 1];
    }
  }

  lemma {:induction false} TextAllDashes(bits: seq<Cell>, vars: seq<char>)
    requires |bits| <= |vars| && DashCount(bits) == |bits|
    ensures Text(bits, vars) == []
    decreases |bits|
  {
    if bits != [] {
      var k := |bits| - 1;
      CountsBound(bits[..k]);
      TextAllDashes(bits[..k], vars);
    }
  }

  /** With a dash counter no larger than the vector's dashes the shortcut for an all-free
      vector changes nothing. */
  lemma DisplayIsText(imp: Implicant, vars: seq<char>)
    requires |imp.bits| <= |vars| && imp.dashes <= DashCount(imp.bits)
    ensures Display(imp, vars) == Text(imp.bits, vars)
  {
    if imp.dashes == |imp.bits| {
      CountsBound(imp.bits);
      TextAllDashes(imp.bits, vars);
    }
  }

  lemma StripSuffix(x: string, y: string, p: string)
    requires x + p == y + p
    ensures x == y
  {
    assert x == (x + p)[..|x|];
    assert y == (y + p)[..|y|];
  }

  /** What the text shows of the last position: its variable appears exactly when the
      position is fixed, and the final character tells true from false. */
  lemma LastPiece(a: seq<Cell>, vars: seq<char>)
    requires 0 < |a| <= |vars| && SortedLetters(vars)
    ensures var k, t := |a| - 1, Text(a, vars);
            (a[k] == Dash <==> vars[k] !in t) &&
            (a[k] != Dash ==> t[|t| - 1] == (if a[k] == One then vars[k] else NOT))
  {
    var k := |a| - 1;
    var v := vars[k];
    TextLetters(a[..k], vars);
    assert v != NOT by { assert IsValid(v); }
    assert v !in vars[..k] by {
      forall i | 0 <= i < k ensures vars[..k][i] != v { assert vars[i] < vars[k]; }
    }
    assert v !in Text(a[..k], vars);
  }

  lemma LastCellsAgree(a: seq<Cell>, b: seq<Cell>, vars: seq<char>)
    requires 0 < |a| == |b| <= |vars| && SortedLetters(vars)
    requires Text(a, vars) == Text(b, vars)
    ensures a[|a| - 1] == b[|b| - 1]
  {
    LastPiece(a, vars);
    LastPiece(b, vars);
  }

  /** Over sorted variables two vectors of one length have the same text only when they
      are the same vector. */
  lemma {:induction false} TextInjective(a: seq<Cell>, b: seq<Cell>, vars: seq<char>)
    requires |a| == |b| <= |vars| && SortedLetters(vars)
    requires Text(a, vars) == Text(b, vars)
    ensures a == b
    decreases |a|
  {
    if a != [] {
      var k := |a| - 1;
      LastCellsAgree(a, b, vars);
      var a', b' := a[..k], b[..k];
      StripSuffix(Text(a', vars), Text(b', vars), Piece(a[k], vars[k]));
      TextInjective(a', b', vars);
      assert a == a' + [a[k]] && b == b' + [b[k]];
    }
  }

  function CompareInts(a: int, b: int): int {
    if a < b then -1 else if a == b then 0 else 1
  }

  /** `CompareTo`: by dash counter, then one counter, then text; an absent implicant
      comes first. */
  function CompareTo(imp: Implicant, other: Option<Implicant>, vars: seq<char>): int
    requires |imp.bits| <= |vars| && (other.Some? ==> |other.value.bits| <= |vars|)
  {
    if other.None? then 1
    else
      var o := other.value;
      var byDashes := CompareInts(imp.dashes, o.dashes);
      if byDashes != 0 then byDashes
      else
        var byOnes := CompareInts(imp.ones, o.ones);
        if byOnes != 0 then byOnes
        else CompareOrdinal(Display(imp, vars), Display(o, vars))
  }

  /** `Equals`: the same text; never equal to an absent implicant. */
  predicate Equals(imp: Implicant, other: Option<Implicant>, vars: seq<char>)
    requires |imp.bits| <= |vars| && (other.Some? ==> |other.value.bits| <= |vars|)
  {
    other.Some? && Display(imp, vars) == Display(other.value, vars)
  }

  /** Implicants over the variables `vars` as the reducer keeps them. */
  predicate Over(imp: Implicant, vars: seq<char>) {
    Sound(imp, |vars|) && SortedLetters(vars)
  }

  /** Two implicants over sorted variables are `Equals` exactly when their vectors are
      the same; with the same vector they are the same value exactly when their counters
      agree. */
  lemma EqualsIffSameBits(a: Implicant, b: Implicant, vars: seq<char>)
    requires Over(a, vars) && Over(b, vars)
    ensures Equals(a, Some(b), vars) <==> a.bits == b.bits
    ensures a.bits == b.bits ==> (a == b <==> a.ones == b.ones && a.dashes == b.dashes)
  {
    DisplayIsText(a, vars);
    DisplayIsText(b, vars);
    if Equals(a, Some(b), vars) {
      TextInjective(a.bits, b.bits, vars);
    }
  }

  /** Swapping the operands of `CompareTo` flips the sign. */
  lemma CompareToFlip(a: Implicant, b: Implicant, vars: seq<char>)
    requires |a.bits| <= |vars| && |b.bits| <= |vars|
    ensures CompareTo(b, Some(a), vars) == -CompareTo(a, Some(b), vars)
  {
    CompareOrdinalFlip(Display(a, vars), Display(b, vars));
  }

  /** `CompareTo` orders transitively. */
  lemma CompareToTrans(a: Implicant, b: Implicant, c: Implicant, vars: seq<char>)
    requires |a.bits| <= |vars| && |b.bits| <= |vars| && |c.bits| <= |vars|
    requires CompareTo(a, Some(b), vars) <= 0 && CompareTo(b, Some(c), vars) <= 0
    ensures CompareTo(a, Some(c), vars) <= 0
  {
    if a.dashes == b.dashes == c.dashes && a.ones == b.ones == c.ones {
      CompareOrdinalTrans(Display(a, vars), Display(b, vars), Display(c, vars));
    }
  }

  /** Over sorted variables `CompareTo` says 0 only for the same implicant, so any order
      the sort chooses among equal elements gives the same list. */
  lemma CompareToZero(a: Implicant, b: Implicant, vars: seq<char>)
    requires Over(a, vars) && Over(b, vars)
    ensures CompareTo(a, Some(b), vars) == 0 <==> a == b
  {
    CompareOrdinalZero(Display(a, vars), Display(b, vars));
    EqualsIffSameBits(a, b, vars);
  }

  // ---------------------------------------------------------------------------------
  // Merge

  /** Two cells that differ, one of them free. */
  predicate Clash(x: Cell, y: Cell) {
    x != y && (x == Dash || y == Dash)
  }

  /** Some position where the vectors differ and one of them is free, read over
      prefixes as `Merge`'s loop reads it. */
  predicate DashClash(a: seq<Cell>, b: seq<Cell>)
    requires |a| == |b|
  {
    a != [] && (DashClash(a[..|a| - 1], b[..|b| - 1]) || Clash(a[|a| - 1], b[|b| - 1]))
  }

  lemma {:induction false} DashClashAt(a: seq<Cell>, b: seq<Cell>)
    requires |a| == |b|
    ensures DashClash(a, b) <==> exists i :: 0 <= i < |a| && Clash(a[i], b[i])
  {
    if a != [] {
      var a', b' := a[..|a| - 1], b[..|b| - 1];
      DashClashAt(a', b');
      if DashClash(a', b') {
        var i :| 0 <= i < |a'| && Clash(a'[i], b'[i]);
        assert a[i] == a'[i] && b[i] == b'[i];
      }
      if exists i :: 0 <= i < |a| && Clash(a[i], b[i]) {
        var i :| 0 <= i < |a| && Clash(a[i], b[i]);
        if i < |a'| {
          assert a'[i] == a[i] && b'[i] == b[i];
        }
      }
    }
  }

  /** Equal positions are kept, differing ones become free, read over prefixes. */
  function Combined(a: seq<Cell>, b: seq<Cell>): (c: seq<Cell>)
    requires |a| == |b|
    ensures |c| == |a|
  {
    if a == [] then []
    else Combined(a[..|a| - 1], b[..|b| - 1]) + [if a[|a| - 1] == b[|b| - 1] then a[|a| - 1] else Dash]
  }

  lemma {:induction false} CombinedAt(a: seq<Cell>, b: seq<Cell>)
    requires |a| == |b|
    ensures forall i :: 0 <= i < |a| ==> Combined(a, b)[i] == if a[i] == b[i] then a[i] else Dash
  {
    if a != [] {
      var a', b' := a[..|a| - 1], b[..|b| - 1];
      CombinedAt(a', b');
      assert forall i :: 0 <= i < |a'| ==> a'[i] == a[i] && b'[i] == b[i];
    }
  }

  /** The number of positions where the vectors differ. */
  function Differences(a: seq<Cell>, b: seq<Cell>): nat
    requires |a| == |b|
  {
    if a == [] then 0
    else Differences(a[..|a| - 1], b[..|b| - 1]) + (if a[|a| - 1] != b[|b| - 1] then 1 else 0)
  }

  function Abs(x: int): nat {
    if x < 0 then -x else x
  }

  /** The merged vector of two vectors of one length: `None` when a differing position is
      free in one of them or when they do not differ in exactly one position. */
  function MergeVectors(a: seq<Cell>, b: seq<Cell>): Option<seq<Cell>>
    requires |a| == |b|
  {
    if !DashClash(a, b) && Differences(a, b) == 1 then Some(Combined(a, b)) else None
  }

  /** `Merge`: with no other implicant, a copy; otherwise two implicants of one length
      with the same dash counter, one counters at most one apart and different texts merge
      when their vectors differ in exactly one position, neither free there. The result
      frees that position. */
  function Merge(imp: Implicant, other: Option<Implicant>, vars: seq<char>): Option<Implicant>
    requires |imp.bits| <= |vars| && (other.Some? ==> |other.value.bits| <= |vars|)
  {
    if other.None? then Some(FromBits(imp.bits))
    else
      var o := other.value;
      if |imp.bits| == |o.bits| && o.dashes == imp.dashes && Abs(imp.ones - o.ones) < 2 && !Equals(imp, other, vars) then
        match MergeVectors(imp.bits, o.bits)
        case None => None
        case Some(c) => Some(FromBits(c))
      else None
  }

  /** The loop of `Merge` over the two vectors, filling a fresh array position by
      position and giving up at the first differing position where one vector is free. */
  method CombineVectors(a: seq<Cell>, b: seq<Cell>) returns (r: Option<seq<Cell>>)
    requires |a| == |b|
    ensures r == MergeVectors(a, b)
  {
    var newBits := new Cell[|a|];
    var changes := 0;
    CombinedAt(a, b);
    for i := 0 to |a|
      invariant forall j :: 0 <= j < i ==> newBits[j] == Combined(a, b)[j]
      invariant !DashClash(a[..i], b[..i])
      invariant changes == Differences(a[..i], b[..i])
    {
      assert a[..i + 1][..i] == a[..i] && b[..i + 1][..i] == b[..i];
      if a[i] == b[i] {
        newBits[i] := a[i];
      } else if a[i] == Dash || b[i] == Dash {
        DashClashAt(a, b);
        assert Clash(a[i], b[i]);
        return None;
      } else {
        newBits[i] := Dash;
        changes := changes + 1;
      }
    }
    assert a[..|a|] == a && b[..|b|] == b;
    assert newBits[..] == Combined(a, b);
    if changes == 1 {
      r := Some(newBits[..]);
    } else {
      r := None;
    }
  }

  /** `Merge`, with the text comparison done through `ToString`. */
  method MergeWith(imp: Implicant, other: Option<Implicant>, vars: seq<char>) returns (merged: Option<Implicant>)
    requires |imp.bits| <= |vars| && (other.Some? ==> |other.value.bits| <= |vars|)
    ensures merged == Merge(imp, other, vars)
  {
    if other.None? {
      var copy := NewFromBits(imp.bits);
      return Some(copy);
    }
    var o := other.value;
    merged := None;
    if |imp.bits| == |o.bits| && o.dashes == imp.dashes && Abs(imp.ones - o.ones) < 2 {
      var mine := ToString(imp, vars);
      var theirs := ToString(o, vars);
      if mine != theirs {
        var newBits := CombineVectors(imp.bits, o.bits);
        if newBits.Some? {
          var m := NewFromBits(newBits.value);
          merged := Some(m);
        }
      }
    }
  }

  /** The vectors differ in exactly one position, where both are fixed. */
  predicate Adjacent(a: seq<Cell>, b: seq<Cell>) {
    |a| == |b| &&
    exists p :: 0 <= p < |a| && a[p] != Dash && b[p] != Dash && a[p] != b[p] &&
      forall j :: 0 <= j < |a| && j != p ==> a[j] == b[j]
  }

  lemma {:induction false} NoDifferences(a: seq<Cell>, b: seq<Cell>)
    requires |a| == |b| && Differences(a, b) == 0
    ensures a == b
    decreases |a|
  {
    if a != [] {
      var k := |a| - 1;
      NoDifferences(a[..k], b[..k]);
      assert a == a[..k] + [a[k]] && b == b[..k] + [b[k]];
    }
  }

  /** One difference is one differing position. */
  lemma {:induction false} OneDifference(a: seq<Cell>, b: seq<Cell>)
    requires |a| == |b| && Differences(a, b) == 1
    ensures exists p :: 0 <= p < |a| && a[p] != b[p] && forall j :: 0 <= j < |a| && j != p ==> a[j] == b[j]
    decreases |a|
  {
    var k := |a| - 1;
    if a[k] != b[k] {
      NoDifferences(a[..k], b[..k]);
      assert forall j :: 0 <= j < k ==> a[..k][j] == a[j] && b[..k][j] == b[j];
      assert forall j :: 0 <= j < |a| && j != k ==> a[j] == b[j];
    } else {
      OneDifference(a[..k], b[..k]);
      var p :| 0 <= p < k && a[..k][p] != b[..k][p] &&
               forall j :: 0 <= j < k && j != p ==> a[..k][j] == b[..k][j];
      assert forall j :: 0 <= j < |a| && j != p ==> a[j] == b[j] by {
        forall j | 0 <= j < |a| && j != p ensures a[j] == b[j] {
          if j < k {
            assert a[..k][j] == a[j] && b[..k][j] == b[j];
          }
        }
      }
    }
  }

  /** Exactly one differing position, `p`, counts as one difference. */
  lemma {:induction false} DifferencesAt(a: seq<Cell>, b: seq<Cell>, p: nat)
    requires |a| == |b| && p < |a| && a[p] != b[p]
    requires forall j :: 0 <= j < |a| && j != p ==> a[j] == b[j]
    ensures Differences(a, b) == 1
    decreases |a|
  {
    var k := |a| - 1;
    if p == k {
      assert a[..k] == b[..k];
      ZeroDifferences(a[..k]);
    } else {
      DifferencesAt(a[..k], b[..k], p);
    }
  }

  lemma {:induction false} ZeroDifferences(a: seq<Cell>)
    ensures Differences(a, a) == 0
    decreases |a|
  {
    if a != [] {
      ZeroDifferences(a[..|a| - 1]);
    }
  }

  lemma {:induction false} DifferencesFlip(a: seq<Cell>, b: seq<Cell>)
    requires |a| == |b|
    ensures Differences(b, a) == Differences(a, b)
    decreases |a|
  {
    if a != [] {
      DifferencesFlip(a[..|a| - 1], b[..|b| - 1]);
    }
  }

  /** Adjacent vectors have the same dashes and one counts one apart. */
  lemma AdjacentCounts(a: seq<Cell>, b: seq<Cell>, p: nat)
    requires |a| == |b| && p < |a| && a[p] != Dash && b[p] != Dash && a[p] != b[p]
    requires forall j :: 0 <= j < |a| && j != p ==> a[j] == b[j]
    ensures DashCount(a) == DashCount(b) && Abs(OneCount(a) - OneCount(b)) == 1
  {
    assert b == a[p := b[p]];
    CountsAreMultiplicities(a);
    CountsAreMultiplicities(b);
    assert multiset(b) == multiset(a) - multiset{a[p]} + multiset{b[p]};
  }

  /** The merged vector is the first vector with the differing position freed; fixing
      that position again gives back the two vectors. */
  lemma MergedVector(x: seq<Cell>, y: seq<Cell>) returns (p: nat)
    requires |x| == |y| && MergeVectors(x, y).Some?
    ensures p < |x| && x[p] != Dash && y[p] != Dash && x[p] != y[p]
    ensures forall j :: 0 <= j < |x| && j != p ==> x[j] == y[j]
    ensures MergeVectors(x, y).value == x[p := Dash]
  {
    OneDifference(x, y);
    p :| 0 <= p < |x| && x[p] != y[p] && forall j :: 0 <= j < |x| && j != p ==> x[j] == y[j];
    DashClashAt(x, y);
    assert !Clash(x[p], y[p]);
    CombinedAt(x, y);
  }

  lemma FreedCovers(x: seq<Cell>, y: seq<Cell>, p: nat, w: seq<Cell>)
    requires |x| == |y| && p < |x| && x[p] != Dash && y[p] != Dash && x[p] != y[p]
    requires forall j :: 0 <= j < |x| && j != p ==> x[j] == y[j]
    ensures Covers(x[p := Dash], w) <==> Covers(x, w) || Covers(y, w)
  {
    var c := x[p := Dash];
    CoversSplit(c, p, w);
    assert x == c[p := x[p]] && y == c[p := y[p]];
    assert {c[p := One], c[p := Zero]} == {x, y};
  }

  /** Merging two implicants frees the one position where they differ: the result is
      valid, has one dash more, and covers exactly the rows either of them covers. */
  lemma MergeCorrect(a: Implicant, b: Implicant, vars: seq<char>)
    requires |a.bits| <= |vars| && |b.bits| <= |vars|
    requires Merge(a, Some(b), vars).Some?
    ensures var m := Merge(a, Some(b), vars).value;
            Valid(m, |a.bits|) && Adjacent(a.bits, b.bits) &&
            DashCount(m.bits) == DashCount(a.bits) + 1 &&
            (forall w :: Covers(m.bits, w) <==> Covers(a.bits, w) || Covers(b.bits, w)) &&
            (forall x :: x in m.minterms <==> Implies(a.bits, x) || Implies(b.bits, x))
  {
    var m := Merge(a, Some(b), vars).value;
    var x, y := a.bits, b.bits;
    var p := MergedVector(x, y);
    assert m.bits == x[p := Dash];
    assert DashCount(m.bits) == DashCount(x) + 1 by {
      CountsAreMultiplicities(m.bits);
      CountsAreMultiplicities(x);
      assert multiset(m.bits) == multiset(x) - multiset{x[p]} + multiset{Dash};
    }
    forall w
      ensures Covers(m.bits, w) <==> Covers(x, w) || Covers(y, w)
    {
      FreedCovers(x, y, p, w);
    }
    FromBitsCorrect(m.bits);
  }

  /** Merging does not depend on the order of the operands. */
  lemma MergeSymmetric(a: Implicant, b: Implicant, vars: seq<char>)
    requires |a.bits| <= |vars| && |b.bits| <= |vars|
    ensures Merge(a, Some(b), vars) == Merge(b, Some(a), vars)
  {
    if |a.bits| == |b.bits| {
      DifferencesFlip(a.bits, b.bits);
      CombinedAt(a.bits, b.bits);
      CombinedAt(b.bits, a.bits);
      assert Combined(a.bits, b.bits) == Combined(b.bits, a.bits);
      DashClashAt(a.bits, b.bits);
      DashClashAt(b.bits, a.bits);
      assert DashClash(a.bits, b.bits) == DashClash(b.bits, a.bits);
    }
  }

  /** For implicants over sorted variables with exact counters, the counter and text
      tests reject nothing adjacent: two of them merge exactly when their vectors are
      adjacent. */
  lemma MergeIffAdjacent(a: Implicant, b: Implicant, vars: seq<char>)
    requires Over(a, vars) && Over(b, vars) && Exact(a) && Exact(b)
    ensures Merge(a, Some(b), vars).Some? <==> Adjacent(a.bits, b.bits)
  {
    if Merge(a, Some(b), vars).Some? {
      MergeCorrect(a, b, vars);
    }
    if Adjacent(a.bits, b.bits) {
      var x, y := a.bits, b.bits;
      var p :| 0 <= p < |x| && x[p] != Dash && y[p] != Dash && x[p] != y[p] &&
               forall j :: 0 <= j < |x| && j != p ==> x[j] == y[j];
      AdjacentMerges(a, b, vars, p);
    }
  }

  /** Two implicants whose vectors differ only at `p`, neither free there, merge. */
  lemma AdjacentMerges(a: Implicant, b: Implicant, vars: seq<char>, p: nat)
    requires Over(a, vars) && Over(b, vars) && Exact(a) && Exact(b)
    requires |a.bits| == |b.bits| && p < |a.bits|
    requires a.bits[p] != Dash && b.bits[p] != Dash && a.bits[p] != b.bits[p]
    requires forall j :: 0 <= j < |a.bits| && j != p ==> a.bits[j] == b.bits[j]
    ensures Merge(a, Some(b), vars).Some?
  {
    var x, y := a.bits, b.bits;
    AdjacentCounts(x, y, p);
    DifferencesAt(x, y, p);
    EqualsIffSameBits(a, b, vars);
    DashClashAt(x, y);
    assert forall i :: 0 <= i < |x| ==> !Clash(x[i], y[i]);
  }

  lemma SplitOne(s: string)
    requires AND !in s
    ensures Split(s, AND) == [s]
  {
    SplitNoSep(s, AND);
  }

  /** `A*A` and `A'` are adjacent, but with the source's counters (two ones and minus
      one dash against no ones and no dash) `Merge` refuses them. */
  lemma RepeatedLiteralBlocksMerge()
    ensures FromTermAsWritten(map['A' := 0], 1, "A'") == Ok(Implicant([Zero], 0, 0, false, [0]))
    ensures Adjacent([One], [Zero])
    ensures Merge(Implicant([One], 2, -1, false, [1]), Some(Implicant([Zero], 0, 0, false, [0])), "A") == None
  {
    AFalse(true);
    assert Adjacent([One], [Zero]) by {
      assert [One][0] != Dash && [Zero][0] != Dash && [One][0] != [Zero][0];
    }
  }

  lemma AFalse(asWritten: bool)
    ensures TermImplicant(map['A' := 0], 1, "A'", asWritten) == Ok(Implicant([Zero], 0, 0, false, [0]))
  {
    var alphabet := map['A' := 0];
    SplitOne("A'");
    var factors := ["A'"];
    assert ReadFactor("A'") == Some(('A', Zero));
    assert AllDashes(1) == [Dash];
    assert [Dash][0 := Zero] == [Zero];
    assert ScanFactors(alphabet, 1, "A'", factors, 0, InitialScan(1), asWritten)
        == ScanFactors(alphabet, 1, "A'", factors, 1, Scan([Zero], 0, 0, false), asWritten);
    assert Drain([[Zero]]) == [0] by {
      assert FirstDash([Zero]) == 1;
      assert ValueOf([Zero]) == 0;
    }
  }

  /** With the corrected counters the same two terms merge into the free vector `-`,
      which implies both minterms. */
  lemma RepeatedLiteralMergesCorrected()
    ensures FromTerm(map['A' := 0], 1, "A'") == Ok(Implicant([Zero], 0, 0, false, [0]))
    ensures Merge(Implicant([One], 1, 0, false, [1]), Some(Implicant([Zero], 0, 0, false, [0])), "A")
         == Some(Implicant([Dash], 0, 1, false, [1, 0]))
    ensures Merge(Implicant([Zero], 0, 0, false, [0]), Some(Implicant([One], 1, 0, false, [1])), "A")
         == Some(Implicant([Dash], 0, 1, false, [1, 0]))
  {
    AFalse(false);
    var a, b := Implicant([One], 1, 0, false, [1]), Implicant([Zero], 0, 0, false, [0]);
    assert Display(a, "A") == "A";
    assert Display(b, "A") == "A'";
    OneZeroMerge();
    ZeroOneMerge();
    FreedOne();
  }

  lemma FreedOne()
    ensures FromBits([Dash]) == Implicant([Dash], 0, 1, false, [1, 0])
  {
    assert Drain([[Dash]]) == [1, 0] by {
      assert FirstDash([Dash]) == 0;
      assert [Dash][0 := One] == [One] && [Dash][0 := Zero] == [Zero];
      assert [[Dash]][1..] + [[Dash][0 := One], [Dash][0 := Zero]] == [[One], [Zero]];
      assert FirstDash([One]) == 1 && ValueOf([One]) == 1;
      assert FirstDash([Zero]) == 1 && ValueOf([Zero]) == 0;
      assert Drain([[One], [Zero]]) == [1] + Drain([[Zero]]);
    }
    assert DashCount([Dash]) == 1 && OneCount([Dash]) == 0 by {
      assert [Dash][..0] == [];
    }
  }

  lemma OneZeroMerge()
    ensures MergeVectors([One], [Zero]) == Some([Dash])
  {
    assert [One][..0] == [] && [Zero][..0] == [];
    assert !DashClash([One], [Zero]);
    assert Differences([One], [Zero]) == 1;
    assert Combined([One], [Zero]) == [Dash];
  }

  lemma ZeroOneMerge()
    ensures MergeVectors([Zero], [One]) == Some([Dash])
  {
    assert [One][..0] == [] && [Zero][..0] == [];
    assert !DashClash([Zero], [One]);
    assert Differences([Zero], [One]) == 1;
    assert Combined([Zero], [One]) == [Dash];
  }
}
