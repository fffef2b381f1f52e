/** `ReducedBooleanExpression`: the implicants of an expanded expression, their prime
    implicants, the minterm table, the final pick and its rendering. */
module Reducer {
  import opened Tokens
  import opened Lexer
  import opened Parser
  import opened Nodes
  import opened Dnf
  import opened Strings
  import opened Minterms
  import opened Implicants
  import opened Sorting
  import opened Rounds
  import opened Tables
  import opened Expanded
  import opened Terms

  // ---------------------------------------------------------------------------------
  // The pipeline as values

  /** The fields of a constructed reducer, apart from the cached text. */
  datatype Reduction = Reduction(
    variables: seq<char>, alphabet: map<char, nat>, implicants: seq<Implicant>,
    primes: seq<Implicant>, table: Table, mintermCount: nat, finals: seq<Implicant>)

  /** The rounds start from the implicants and no earlier primes. */
  lemma StartInput(imps: seq<Implicant>, vars: seq<char>)
    requires AllOver(imps, vars)
    ensures RoundInput(imps, [], vars, 0)
  {
    assert imps + [] == imps;
    AllOverFits(imps, vars);
  }

  /** Sound implicants list each of their minterms once, the ones their vectors imply. */
  lemma SoundTable(ps: seq<Implicant>, vars: seq<char>)
    requires AllOver(ps, vars)
    ensures SetLike(ps) && Generated(ps)
  {
    forall i | 0 <= i < |ps|
      ensures NoDup(ps[i].minterms)
    {
      FromBitsCorrect(ps[i].bits);
    }
  }

  /** The constructor from the implicants of the terms on: the prime implicants, their
      table, its size and the final pick, whose texts fit the variables. */
  function Finish(vars: seq<char>, a: map<char, nat>, imps: seq<Implicant>): (r: Reduction)
    requires AllOver(imps, vars)
    ensures r.variables == vars && r.alphabet == a && r.implicants == imps
    ensures Fits(r.finals, r.variables)
  {
    StartInput(imps, vars);
    var primes := PrimesFrom(imps, [], vars, 0);
    SoundTable(primes, vars);
    var t := BuildTable(primes);
    var finals := Pick(t);
    TablePick(primes);
    AllOverMembers(finals, vars);
    Reduction(vars, a, imps, primes, t, |t.keys|, finals)
  }

  /** The steps of the constructor, one by one, give `Finish`. */
  lemma FinishIs(r: Reduction)
    requires AllOver(r.implicants, r.variables) && RoundInput(r.implicants, [], r.variables, 0)
    requires r.primes == PrimesFrom(r.implicants, [], r.variables, 0)
    requires SetLike(r.primes) && r.table == BuildTable(r.primes)
    requires r.mintermCount == |r.table.keys| && r.finals == Pick(r.table)
    ensures r == Finish(r.variables, r.alphabet, r.implicants)
  {
  }

  /** The implicants the constructor reads from an expansion's terms. */
  function Initial(e: Expanded, asWritten: bool): Result<seq<Implicant>> {
    var vars := AllVariables(e);
    ReducibleIff(e, asWritten);
    InitialFrom(AlphabetOf(vars), |vars|, Split(e.asString, OR), asWritten)
  }

  /** The constructor on an expansion whose terms read without an exception. */
  function Reduced(e: Expanded, asWritten: bool): (r: Reduction)
    requires Reducible(e, asWritten)
    ensures Fits(r.finals, r.variables)
  {
    var vars := AllVariables(e);
    Finish(vars, AlphabetOf(vars), Initial(e, asWritten).value)
  }

  /** `new ReducedBooleanExpression(bexpr)`: the exception of the first term whose string
      constructor throws, or the reducer built from all of them. */
  function Build(e: Expanded, asWritten: bool): (r: Result<Reduction>)
    ensures r.Err? <==> Initial(e, asWritten).Err?
    ensures r.Err? ==> r.error == Initial(e, asWritten).error
    ensures r.Ok? ==> Reducible(e, asWritten) && r.value == Reduced(e, asWritten)
  {
    ReducibleIff(e, asWritten);
    match Initial(e, asWritten)
    case Err(err) => Err(err)
    case Ok(_) => Ok(Reduced(e, asWritten))
  }

  /** `new ReducedBooleanExpression(new ExpandedBooleanExpression(expression))`, with
      the rewrite and the string constructor as the source writes them (`asWritten`) or
      corrected. */
  function Reduce(expr: string, asWritten: bool): Result<Reduction> {
    match Expand(expr, asWritten)
    case Err(err) => Err(err)
    case Ok(e) => Build(e, asWritten)
  }

  /** The texts of the final implicants, in the order they were added. */
  function Rendered(finals: seq<Implicant>, vars: seq<char>): (r: seq<string>)
    requires Fits(finals, vars)
    ensures |r| == |finals|
  {
    seq(|finals|, i requires 0 <= i < |finals| => Display(finals[i], vars))
  }

  /** The reduced expression: the texts of the final implicants joined with `+`. */
  function Shown(r: Reduction): string
    requires Fits(r.finals, r.variables)
  {
    Join(Rendered(r.finals, r.variables), OR)
  }

  /** `solveQuineMcCluskey`: the reduced text, or the exception construction throws. */
  function Output(expr: string, asWritten: bool): Result<string> {
    match Reduce(expr, asWritten)
    case Err(err) => Err(err)
    case Ok(r) => Ok(Shown(r))
  }

  // ---------------------------------------------------------------------------------
  // What the reducer computes

  /** Construction throws what lexing or parsing throws; past the parser, it can throw
      only the string constructor's exceptions, a malformed implicant or an unknown
      variable, for the first term that throws one. With the corrected rewrite, or
      whenever the rewritten tree has no `Not`, it throws nothing past the parser. */
  lemma ReduceErrors(expr: string, asWritten: bool)
    ensures ParsedTree(expr).Err? ==>
              Reduce(expr, asWritten) == Err(ParsedTree(expr).error) &&
              Output(expr, asWritten) == Err(ParsedTree(expr).error)
    ensures Output(expr, asWritten).Err? <==> Reduce(expr, asWritten).Err?
    ensures Output(expr, asWritten).Err? ==> Output(expr, asWritten).error == Reduce(expr, asWritten).error
    ensures ParsedTree(expr).Ok? && Reduce(expr, asWritten).Err? ==>
              var e := Expand(expr, asWritten).value;
              var vars := AllVariables(e);
              var terms := Split(e.asString, OR);
              AlphabetFits(AlphabetOf(vars), |vars|) &&
              (Reduce(expr, asWritten).error.MalformedImplicant? || Reduce(expr, asWritten).error.UnknownVariable?) &&
              exists j :: 0 <= j < |terms| &&
                TermImplicant(AlphabetOf(vars), |vars|, terms[j], asWritten) == Err(Reduce(expr, asWritten).error)
    ensures ParsedTree(expr).Ok? && IsNegationFree(Expand(expr, asWritten).value.root) ==> Reduce(expr, asWritten).Ok?
    ensures !asWritten ==> (Reduce(expr, false).Err? <==> ParsedTree(expr).Err?)
  {
    ExpandCorrect(expr, asWritten);
    if ParsedTree(expr).Ok? {
      var e := Expand(expr, asWritten).value;
      var vars := AllVariables(e);
      var a := AlphabetOf(vars);
      var terms := Split(e.asString, OR);
      ReducibleIff(e, asWritten);
      if IsNegationFree(e.root) {
        InitialOk(expr, asWritten);
      }
      var r := InitialFrom(a, |vars|, terms, asWritten);
      if r.Err? {
        var j :| 0 <= j < |terms| && TermImplicant(a, |vars|, terms[j], asWritten) == Err(r.error);
        TermErrors(a, |vars|, terms[j], asWritten);
      }
    }
  }

  /** Whatever the rewrite made of the tree, the final implicants of a successful
      construction imply exactly the rows, over the sorted variables of the parsed tree,
      where some term of `AsString`, read factor by factor, holds. */
  lemma ReduceReadsText(expr: string, asWritten: bool)
    requires Reduce(expr, asWritten).Ok?
    ensures var r := Reduce(expr, asWritten).value;
            var n := |r.variables|;
            r.variables == SortedVariables(Vars(ParsedTree(expr).value)) &&
            forall m: nat :: m in CoverOf(r.finals) <==>
              m < Pow2(n) && SomeTermHolds(Split(Expand(expr, asWritten).value.asString, OR), AlphabetOf(r.variables), n, m)
  {
    var e := Expand(expr, asWritten).value;
    ExpandCorrect(expr, asWritten);
    PrimesOfReduction(e, asWritten);
  }

  /** The final implicants imply exactly the rows, over the sorted variables of the parsed
      tree, where the parsed tree is true: always with the corrected passes, and with
      the passes as written whenever their tree is a negation-free sum of products. */
  lemma ReduceMeaning(expr: string, asWritten: bool)
    requires ParsedTree(expr).Ok? && (asWritten ==> Flattened(expr, true))
    ensures Reduce(expr, asWritten).Ok?
    ensures var r := Reduce(expr, asWritten).value;
            var n := |r.variables|;
            r.variables == SortedVariables(Vars(ParsedTree(expr).value)) &&
            forall m: nat :: m in CoverOf(r.finals) <==>
              m < Pow2(n) && Eval(ParsedTree(expr).value, Env(r.variables, VectorOf(m, n)))
  {
    ExpandCorrect(expr, asWritten);
    InitialMeaning(expr, asWritten);
    var e := Expand(expr, asWritten).value;
    PrimesOfReduction(e, asWritten);
  }

  /** The prime implicants are sound, distinct, strictly sorted, pairwise unmergeable and
      imply what the implicants imply; the table counts their minterms; the final pick
      implies the same minterms, holds no two with the same vector (the same text), only
      prime ones, and every prime implicant that is the only one for some minterm. */
  lemma PrimesOfReduction(e: Expanded, asWritten: bool)
    requires Reducible(e, asWritten)
    ensures var r := Reduced(e, asWritten);
            AllOver(r.primes, r.variables) && Fits(r.primes, r.variables) && NoDup(r.primes) &&
            StrictlySorted(r.primes, r.variables) && Unmergeable(r.primes, r.variables) &&
            CoverOf(r.primes) == CoverOf(r.implicants) &&
            r.mintermCount == |CoverOf(r.primes)| &&
            CoverOf(r.finals) == CoverOf(r.primes) && DistinctVectors(r.finals) && NoDup(r.finals) &&
            (forall y :: y in r.finals ==> y in r.primes) &&
            forall y, m :: y in r.primes && Containing(r.primes, m) == [y] ==> y in r.finals
  {
    var vars := AllVariables(e);
    var imps := Initial(e, asWritten).value;
    StartInput(imps, vars);
    var primes := PrimesFrom(imps, [], vars, 0);
    assert imps + [] == imps;
    SoundTable(primes, vars);
    TablePick(primes);
    var t := BuildTable(primes);
    assert Reduced(e, asWritten) == Reduction(vars, AlphabetOf(vars), imps, primes, t, |t.keys|, Pick(t));
  }

  /** The same facts for `new ReducedBooleanExpression(expression)`. */
  lemma ReducePrimes(expr: string, asWritten: bool)
    requires Reduce(expr, asWritten).Ok?
    ensures var r := Reduce(expr, asWritten).value;
            AllOver(r.primes, r.variables) && Fits(r.primes, r.variables) && NoDup(r.primes) &&
            StrictlySorted(r.primes, r.variables) && Unmergeable(r.primes, r.variables) &&
            r.mintermCount == |CoverOf(r.primes)| &&
            CoverOf(r.finals) == CoverOf(r.primes) && DistinctVectors(r.finals) && NoDup(r.finals) &&
            (forall y :: y in r.finals ==> y in r.primes) &&
            forall y, m :: y in r.primes && Containing(r.primes, m) == [y] ==> y in r.finals
  {
    var e := Expand(expr, asWritten).value;
    PrimesOfReduction(e, asWritten);
  }

  /** A text over valid letters holds no `+`. */
  lemma {:induction false} TextFree(bits: seq<Cell>, vars: seq<char>)
    requires |bits| <= |vars| && forall i :: 0 <= i < |vars| ==> IsValid(vars[i])
    ensures OR !in Text(bits, vars)
    decreases |bits|
  {
    if bits != [] {
      TextFree(bits[..|bits| - 1], vars);
    }
  }

  /** The reduced text is empty when nothing was picked; otherwise splitting it at `+`
      gives the final implicants' texts back, in order. */
  lemma OutputTerms(expr: string, asWritten: bool)
    requires Reduce(expr, asWritten).Ok?
    ensures var r := Reduce(expr, asWritten).value;
            Output(expr, asWritten) == Ok(Shown(r)) &&
            (r.finals == [] ==> Shown(r) == []) &&
            (r.finals != [] ==> Split(Shown(r), OR) == Rendered(r.finals, r.variables))
  {
    var e := Expand(expr, asWritten).value;
    var r := Reduced(e, asWritten);
    PrimesOfReduction(e, asWritten);
    if r.finals != [] {
      FinalsOver(r.finals, r.primes, r.variables);
      ShownSplit(r.finals, r.variables);
    }
  }

  lemma FinalsOver(finals: seq<Implicant>, primes: seq<Implicant>, vars: seq<char>)
    requires AllOver(primes, vars) && forall y :: y in finals ==> y in primes
    ensures AllOver(finals, vars) && Fits(finals, vars)
  {
    forall y | y in finals
      ensures Over(y, vars)
    {
      var k :| 0 <= k < |primes| && primes[k] == y;
    }
    AllOverMembers(finals, vars);
  }

  /** Texts over sorted variables, joined with `+`, split back into themselves. */
  lemma ShownSplit(finals: seq<Implicant>, vars: seq<char>)
    requires finals != [] && AllOver(finals, vars) && Fits(finals, vars)
    ensures Split(Join(Rendered(finals, vars), OR), OR) == Rendered(finals, vars)
  {
    var ps := Rendered(finals, vars);
    assert Over(finals[0], vars);
    forall i | 0 <= i < |ps|
      ensures OR !in ps[i]
    {
      TextFree(finals[i].bits, vars);
    }
    SplitJoin(ps, OR);
  }

  // ---------------------------------------------------------------------------------
  // The object

  class ReducedBooleanExpression {
    var alphabet: map<char, nat>
    var sortedVariables: seq<char>
    var implicants: seq<Implicant>
    var primeImplicants: seq<Implicant>
    var primeImplicantTable: Table
    var mintermCount: nat
    var finalImplicants: seq<Implicant>
    var reducedExpression: string

    /** The fields as a value. */
    function State(): Reduction
      reads this`sortedVariables, this`alphabet, this`implicants, this`primeImplicants
      reads this`primeImplicantTable, this`mintermCount, this`finalImplicants
    {
      Reduction(sortedVariables, alphabet, implicants, primeImplicants, primeImplicantTable,
                mintermCount, finalImplicants)
    }

    /** The cache is empty or holds the reduced expression. */
    predicate Valid()
      reads this
    {
      Fits(finalImplicants, sortedVariables) &&
      (reducedExpression == [] || reducedExpression == Shown(State()))
    }

    /** The body of `ReducedBooleanExpression(ExpandedBooleanExpression bexpr)` from the
        call of `CalculatePrimeImplicants` on: the fields hold what `Finish` computes, and
        no text is cached. */
    constructor (vars: seq<char>, alpha: map<char, nat>, imps: seq<Implicant>)
      requires AllOver(imps, vars)
      ensures State() == Finish(vars, alpha, imps)
      ensures reducedExpression == [] && Valid()
    {
      StartInput(imps, vars);
      var primes := CalculatePrimeImplicants(imps, vars);
      SoundTable(primes, vars);
      TablePick(primes);
      var t := BuildMintermToPrimeImplicantTable(primes);
      var count := |t.keys|;
      var finals := PickFinalImplicants(t, count);
      FinishIs(Reduction(vars, alpha, imps, primes, t, count, finals));
      sortedVariables := vars;
      alphabet := alpha;
      implicants := imps;
      primeImplicants := primes;
      primeImplicantTable := t;
      mintermCount := count;
      finalImplicants := finals;
      reducedExpression := [];
    }

    /** `new ReducedBooleanExpression(bexpr)`: the exception the string constructor throws
        for the first term that throws one, or a fresh object holding what construction
        computes, with no text cached. */
    static method Create(bexpr: Expanded) returns (r: Result<ReducedBooleanExpression>)
      ensures r.Err? <==> Build(bexpr, true).Err?
      ensures r.Err? ==> r.error == Build(bexpr, true).error
      ensures r.Ok? ==> fresh(r.value) && r.value.State() == Build(bexpr, true).value &&
                        r.value.reducedExpression == [] && r.value.Valid()
    {
      var vars, alpha, read := Prepare(bexpr);
      if read.Err? {
        return Err(read.error);
      }
      ReducibleIff(bexpr, true);
      var reduced := new ReducedBooleanExpression(vars, alpha, read.value);
      return Ok(reduced);
    }

    /** `CalculatePrimeImplicants`: rounds until one forms no product, then the last
        round's input and primes as a sorted set. */
    static method CalculatePrimeImplicants(implicants: seq<Implicant>, vars: seq<char>)
      returns (primeImplicants: seq<Implicant>)
      requires RoundInput(implicants, [], vars, 0)
      ensures primeImplicants == PrimesFrom(implicants, [], vars, 0)
    {
      var iterationPrimes: seq<Implicant> := [];
      var nextSet := implicants;
      ghost var level := 0;
      while true
        invariant RoundInput(nextSet, iterationPrimes, vars, level)
        invariant PrimesFrom(nextSet, iterationPrimes, vars, level) == PrimesFrom(implicants, [], vars, 0)
        decreases |vars| + 1 - level
      {
        AllOverFits(nextSet + iterationPrimes, vars);
        var startingSet := Sort(nextSet + iterationPrimes, vars);
        var products, primes := ScanRound(startingSet, vars);
        CoverStep(nextSet, iterationPrimes, startingSet, (products, primes), vars, level);
        if products == [] {
          return SortedSet(startingSet + primes, vars);
        }
        nextSet, iterationPrimes := products, primes;
        level := level + 1;
      }
    }

    /** `BuildMintermToPrimeImplicantTable`: every minterm of every prime implicant, in
        order, gets a list, and the implicant is appended to it. */
    static method BuildMintermToPrimeImplicantTable(primeImplicants: seq<Implicant>)
      returns (table: Table)
      requires SetLike(primeImplicants)
      ensures table == BuildTable(primeImplicants)
    {
      var ps := primeImplicants;
      table := Table([], map[]);
      var i := 0;
      while i < |ps|
        invariant i <= |ps|
        invariant SetLike(ps[..i]) && table == BuildTable(ps[..i])
      {
        BuildUnfold(ps, i);
        table := AddImplicant(table, ps[i]);
        i := i + 1;
      }
      assert ps[..|ps|] == ps;
    }

    /** The inner loop: each minterm of `imp` gets a list if it has none, and `imp` is
        appended to it. */
    static method AddImplicant(start: Table, imp: Implicant) returns (table: Table)
      requires KeysOk(start) && NoDup(imp.minterms)
      ensures table == AddMinterms(start, imp, imp.minterms)
    {
      table := start;
      var j := 0;
      while j < |imp.minterms|
        invariant j <= |imp.minterms| && NoDup(imp.minterms[..j])
        invariant table == AddMinterms(start, imp, imp.minterms[..j])
      {
        var m := imp.minterms[j];
        AddMintermsUnfold(start, imp, imp.minterms, j);
        ghost var before := table;
        if m !in table.entries {
          table := Table(table.keys + [m], table.entries[m := []]);
        }
        table := Table(table.keys, table.entries[m := table.entries[m] + [imp]]);
        NewListIsEntry(before, m, imp);
        j := j + 1;
      }
      assert imp.minterms[..|imp.minterms|] == imp.minterms;
    }

    /** `PickFinalImplicants`: the essential prime implicants, then, while one of the
        `mintermCount` minterms is uncovered, the greedy step. */
    static method PickFinalImplicants(t: Table, mintermCount: nat) returns (finalImplicants: seq<Implicant>)
      requires KeysOk(t) && Listed(t) && mintermCount == |t.keys|
      ensures finalImplicants == Pick(t)
    {
      finalImplicants := [];
      var covered: set<nat> := {};
      var i := 0;
      while i < |t.keys|
        invariant i <= |t.keys|
        invariant EssentialsFrom(t, i, covered, finalImplicants) == EssentialsFrom(t, 0, {}, [])
      {
        assert t.keys[i] in t.entries;
        var list := t.entries[t.keys[i]];
        if |list| == 1 {
          var x := list[0];
          covered := covered + Elems(x.minterms);
          finalImplicants := AddFinal(finalImplicants, x);
        }
        i := i + 1;
      }
      if |covered| < mintermCount {
        finalImplicants := GreedyLoop(t, mintermCount, covered, finalImplicants);
      }
    }

    /** The greedy loop of `PickFinalImplicants`, from the essentials' state. */
    static method GreedyLoop(t: Table, mintermCount: nat, covered: set<nat>, finals: seq<Implicant>)
      returns (finalImplicants: seq<Implicant>)
      requires KeysOk(t) && Listed(t) && mintermCount == |t.keys|
      ensures finalImplicants == GreedyFrom(t, 0, covered, finals, |t.keys|).1
    {
      ghost var goal := GreedyFrom(t, 0, covered, finals, |t.keys|);
      finalImplicants := finals;
      var c := covered;
      var i := 0;
      while i < |t.keys|
        invariant i <= |t.keys|
        invariant GreedyFrom(t, i, c, finalImplicants, |t.keys|) == goal
      {
        var k := t.keys[i];
        assert k in t.entries;
        if k in c {
          i := i + 1;
          continue;
        }
        var list := t.entries[k];
        var maxTermsCovered, toAdd := BestLoop(list);
        assert toAdd.value == BestFor(t, k);
        var best := toAdd.value;
        finalImplicants := AddFinal(finalImplicants, best);
        c := c + Elems(best.minterms);
        if |c| == mintermCount {
          return;
        }
        i := i + 1;
      }
    }

    /** `ToString`: the cached text, or the final implicants' texts joined with `+`,
        which are then cached. */
    method ToString() returns (s: string)
      requires Valid()
      modifies this`reducedExpression
      ensures s == Shown(State()) && Valid()
    {
      if reducedExpression != [] {
        return reducedExpression;
      }
      reducedExpression := Join(Rendered(finalImplicants, sortedVariables), OR);
      return reducedExpression;
    }

    /** `solveQuineMcCluskey`: expand, construct and render; an exception is an `Err`
        result. */
    static method SolveQuineMcCluskey(expr: string) returns (r: Result<string>)
      ensures r == Output(expr, true)
    {
      var e := NewExpanded(expr);
      if e.Err? {
        return Err(e.error);
      }
      var reduced := Create(e.value);
      if reduced.Err? {
        return Err(reduced.error);
      }
      var s := reduced.value.ToString();
      return Ok(s);
    }
  }

  /** The constructor up to the call of `CalculatePrimeImplicants`: the sorted variables,
      the alphabet, and the implicants of the terms or the first exception. */
  method Prepare(bexpr: Expanded) returns (vars: seq<char>, alpha: map<char, nat>, read: Result<seq<Implicant>>)
    ensures vars == AllVariables(bexpr) && alpha == AlphabetOf(vars) && AlphabetFits(alpha, |vars|)
    ensures read == InitialFrom(alpha, |vars|, Split(bexpr.asString, OR), true)
    ensures read.Ok? ==> AllOver(read.value, vars)
  {
    vars := AllVariables(bexpr);
    alpha := AlphabetLoop(vars);
    ReducibleIff(bexpr, true);
    read := TermsLoop(alpha, |vars|, Split(bexpr.asString, OR));
  }

  /** The alphabet loop of the constructor: each sorted variable mapped to its index. */
  method AlphabetLoop(vars: seq<char>) returns (alpha: map<char, nat>)
    ensures alpha == AlphabetOf(vars)
  {
    alpha := map[];
    var index := 0;
    while index < |vars|
      invariant index <= |vars|
      invariant alpha == AlphabetOf(vars[..index])
    {
      assert vars[..index + 1][..index] == vars[..index];
      alpha := alpha[vars[index] := index];
      index := index + 1;
    }
    assert vars[..|vars|] == vars;
  }

  /** The terms loop of the constructor: each term through the string constructor, a
      contradiction skipped, the first exception ending construction. */
  method TermsLoop(alpha: map<char, nat>, n: nat, terms: seq<string>) returns (r: Result<seq<Implicant>>)
    requires AlphabetFits(alpha, n)
    ensures r == InitialFrom(alpha, n, terms, true)
  {
    var imps: seq<Implicant> := [];
    var k := 0;
    while k < |terms|
      invariant k <= |terms|
      invariant InitialFrom(alpha, n, terms[..k], true) == Ok(imps)
    {
      assert terms[..k + 1][..k] == terms[..k];
      assert terms[..k + 1][k] == terms[k];
      var i := NewFromTerm(alpha, n, terms[k], true);
      if i.Err? {
        ErrorStays(alpha, n, terms, k + 1, i.error, true);
        return Err(i.error);
      }
      if !i.value.isContradiction {
        imps := imps + [i.value];
      }
      k := k + 1;
    }
    assert terms[..|terms|] == terms;
    return Ok(imps);
  }

  /** The inner loop of the greedy step: the first implicant with the most minterms. */
  method BestLoop(list: seq<Implicant>) returns (maxTermsCovered: nat, toAdd: Option<Implicant>)
    ensures (maxTermsCovered, toAdd) == BestOf(list)
  {
    maxTermsCovered, toAdd := 0, None;
    var j := 0;
    while j < |list|
      invariant j <= |list| && (maxTermsCovered, toAdd) == BestOf(list[..j])
    {
      assert list[..j + 1][..j] == list[..j];
      var y := list[j];
      if |y.minterms| > maxTermsCovered {
        toAdd := Some(y);
        maxTermsCovered := |y.minterms|;
      }
      j := j + 1;
    }
    assert list[..|list|] == list;
  }

  /** One more prime implicant in the table. */
  lemma BuildUnfold(ps: seq<Implicant>, i: nat)
    requires SetLike(ps) && i < |ps|
    ensures SetLike(ps[..i]) && SetLike(ps[..i + 1]) && NoDup(ps[i].minterms)
    ensures BuildTable(ps[..i + 1]) == AddMinterms(BuildTable(ps[..i]), ps[i], ps[i].minterms)
  {
    assert ps[..i + 1][..i] == ps[..i];
    assert ps[..i + 1][i] == ps[i];
  }

  /** One more minterm of an implicant in the table. */
  lemma AddMintermsUnfold(t: Table, x: Implicant, ms: seq<nat>, j: nat)
    requires KeysOk(t) && NoDup(ms) && j < |ms|
    ensures NoDup(ms[..j]) && NoDup(ms[..j + 1])
    ensures AddMinterms(t, x, ms[..j + 1]) == AddEntry(AddMinterms(t, x, ms[..j]), ms[j], x)
  {
    assert ms[..j + 1][..j] == ms[..j];
    assert ms[..j + 1][j] == ms[j];
  }

  /** Creating an empty list and then appending is `AddEntry`. */
  lemma NewListIsEntry(t: Table, m: nat, x: Implicant)
    ensures var u := if m in t.entries then t else Table(t.keys + [m], t.entries[m := []]);
            Table(u.keys, u.entries[m := u.entries[m] + [x]]) == AddEntry(t, m, x)
  {
    if m !in t.entries {
      assert [] + [x] == [x];
      assert t.entries[m := []][m := [] + [x]] == t.entries[m := [x]];
    }
  }

  /** The outer loop's step: element `i`'s products, then whether it is a prime. */
  lemma RoundUnfold(s: seq<Implicant>, i: nat, vars: seq<char>)
    requires Fits(s, vars) && i < |s|
    ensures var ps := Partners(s[i], s, i + 1, vars);
            RoundFrom(s, i, vars).0 == ps + RoundFrom(s, i + 1, vars).0 &&
            RoundFrom(s, i, vars).1 == (if ps == [] then [s[i]] else []) + RoundFrom(s, i + 1, vars).1
  {
  }

  /** The outer loop's step: what is still to come from element `i` on is its products
      and, when it has none, itself, then what comes from `i + 1` on. */
  lemma ScanRoundStep(s: seq<Implicant>, i: nat, vars: seq<char>, whole: (seq<Implicant>, seq<Implicant>),
                  done: seq<Implicant>, primes: seq<Implicant>)
    requires Fits(s, vars) && i < |s|
    requires whole.0 == done + RoundFrom(s, i, vars).0 && whole.1 == primes + RoundFrom(s, i, vars).1
    ensures var ps := Partners(s[i], s, i + 1, vars);
            whole.0 == (done + ps) + RoundFrom(s, i + 1, vars).0 &&
            (ps == [] ==> whole.1 == (primes + [s[i]]) + RoundFrom(s, i + 1, vars).1) &&
            (ps != [] ==> whole.1 == primes + RoundFrom(s, i + 1, vars).1)
  {
    var ps := Partners(s[i], s, i + 1, vars);
    RoundUnfold(s, i, vars);
    assert done + (ps + RoundFrom(s, i + 1, vars).0) == (done + ps) + RoundFrom(s, i + 1, vars).0;
    assert [] + RoundFrom(s, i + 1, vars).1 == RoundFrom(s, i + 1, vars).1;
  }

  /** The inner loop's step: the product with element `j`, if any, then the rest. */
  lemma PartnersUnfold(cur: Implicant, s: seq<Implicant>, j: nat, vars: seq<char>)
    requires |cur.bits| <= |vars| && Fits(s, vars) && j < |s| && Abs(cur.ones - s[j].ones) <= 1
    ensures var m := Merge(cur, Some(s[j]), vars);
            Partners(cur, s, j, vars) ==
              (if m.Some? then [m.value] else []) + Partners(cur, s, j + 1, vars)
  {
  }

  /** The inner loop's step on the products so far. */
  lemma PartnersStep(cur: Implicant, s: seq<Implicant>, j: nat, vars: seq<char>,
                     ps: seq<Implicant>, done: seq<Implicant>, m: Option<Implicant>)
    requires |cur.bits| <= |vars| && Fits(s, vars) && j < |s| && Abs(cur.ones - s[j].ones) <= 1
    requires ps == done + Partners(cur, s, j, vars) && m == Merge(cur, Some(s[j]), vars)
    ensures m.Some? ==> ps == (done + [m.value]) + Partners(cur, s, j + 1, vars)
    ensures m.None? ==> ps == done + Partners(cur, s, j + 1, vars)
  {
    PartnersUnfold(cur, s, j, vars);
    var rest := Partners(cur, s, j + 1, vars);
    if m.Some? {
      assert Partners(cur, s, j, vars) == [m.value] + rest;
      assert done + ([m.value] + rest) == (done + [m.value]) + rest;
    } else {
      assert [] + rest == rest;
    }
  }

  /** The inner `for` loop of a round: `current` merged with the elements from `from`
      on, until the one counters are more than one apart. */
  method ScanPartners(current: Implicant, s: seq<Implicant>, from: nat, vars: seq<char>)
    returns (products: seq<Implicant>, combined: bool)
    requires |current.bits| <= |vars| && Fits(s, vars) && from <= |s|
    ensures products == Partners(current, s, from, vars) && (combined <==> products != [])
  {
    ghost var ps := Partners(current, s, from, vars);
    products, combined := [], false;
    assert ps == [] + ps;
    var nextIndex := from;
    while nextIndex < |s|
      invariant from <= nextIndex <= |s|
      invariant ps == products + Partners(current, s, nextIndex, vars)
      invariant combined <==> products != []
    {
      var next := s[nextIndex];
      if Abs(current.ones - next.ones) > 1 {
        break;
      }
      products, combined := MergeNext(current, s, nextIndex, vars, ps, products, combined);
      nextIndex := nextIndex + 1;
    }
    PartnersStop(current, s, nextIndex, vars, ps, products);
  }

  /** Where the inner loop stops there are no partners left. */
  lemma PartnersStop(cur: Implicant, s: seq<Implicant>, j: nat, vars: seq<char>, ps: seq<Implicant>, products: seq<Implicant>)
    requires |cur.bits| <= |vars| && Fits(s, vars) && j <= |s|
    requires j == |s| || Abs(cur.ones - s[j].ones) > 1
    requires ps == products + Partners(cur, s, j, vars)
    ensures ps == products
  {
    assert products + [] == products;
  }

  /** One pass of the inner loop: merge with the next element and keep the product. */
  method MergeNext(current: Implicant, s: seq<Implicant>, j: nat, vars: seq<char>, ghost ps: seq<Implicant>, products: seq<Implicant>, combined: bool)
    returns (products': seq<Implicant>, combined': bool)
    requires |current.bits| <= |vars| && Fits(s, vars) && j < |s| && Abs(current.ones - s[j].ones) <= 1
    requires ps == products + Partners(current, s, j, vars) && (combined <==> products != [])
    ensures ps == products' + Partners(current, s, j + 1, vars) && (combined' <==> products' != [])
  {
    products', combined' := products, combined;
    var merged := MergeWith(current, Some(s[j]), vars);
    PartnersStep(current, s, j, vars, ps, products, merged);
    if merged.Some? {
      combined' := true;
      products' := products + [merged.value];
    }
  }

  /** The outer `for` loop of one round of `CalculatePrimeImplicants`: every element is
      merged with the following ones; an element that merged with none is a prime of the
      round. */
  method ScanRound(s: seq<Implicant>, vars: seq<char>) returns (nextSet: seq<Implicant>, iterationPrimes: seq<Implicant>)
    requires Fits(s, vars)
    ensures (nextSet, iterationPrimes) == RoundFrom(s, 0, vars)
  {
    nextSet, iterationPrimes := [], [];
    ghost var whole := RoundFrom(s, 0, vars);
    assert [] + whole.0 == whole.0 && [] + whole.1 == whole.1;
    var currIndex := 0;
    while currIndex < |s|
      invariant currIndex <= |s|
      invariant whole.0 == nextSet + RoundFrom(s, currIndex, vars).0
      invariant whole.1 == iterationPrimes + RoundFrom(s, currIndex, vars).1
    {
      nextSet, iterationPrimes := RoundNext(s, currIndex, vars, whole, nextSet, iterationPrimes);
      currIndex := currIndex + 1;
    }
    RoundStop(s, vars, whole, nextSet, iterationPrimes);
  }

  /** Past the last element a round adds nothing. */
  lemma RoundStop(s: seq<Implicant>, vars: seq<char>, whole: (seq<Implicant>, seq<Implicant>),
                  nextSet: seq<Implicant>, primes: seq<Implicant>)
    requires Fits(s, vars)
    requires whole.0 == nextSet + RoundFrom(s, |s|, vars).0
    requires whole.1 == primes + RoundFrom(s, |s|, vars).1
    ensures whole == (nextSet, primes)
  {
    assert nextSet + [] == nextSet && primes + [] == primes;
  }

  /** One pass of the outer loop: the element's products join the next set, and the
      element joins the primes when it merged with none. */
  method RoundNext(s: seq<Implicant>, i: nat, vars: seq<char>, ghost whole: (seq<Implicant>, seq<Implicant>),
                   nextSet: seq<Implicant>, iterationPrimes: seq<Implicant>)
    returns (nextSet': seq<Implicant>, iterationPrimes': seq<Implicant>)
    requires Fits(s, vars) && i < |s|
    requires whole.0 == nextSet + RoundFrom(s, i, vars).0
    requires whole.1 == iterationPrimes + RoundFrom(s, i, vars).1
    ensures whole.0 == nextSet' + RoundFrom(s, i + 1, vars).0
    ensures whole.1 == iterationPrimes' + RoundFrom(s, i + 1, vars).1
  {
    var current := s[i];
    var products, combined := ScanPartners(current, s, i + 1, vars);
    ScanRoundStep(s, i, vars, whole, nextSet, iterationPrimes);
    nextSet' := nextSet + products;
    iterationPrimes' := iterationPrimes;
    if !combined {
      iterationPrimes' := iterationPrimes + [current];
    }
  }
}
