/** How the reducer reads an expanded expression: the position of each variable, one
    implicant per term of `AsString`, and what those implicants mean. */
module Terms {
  import opened Tokens
  import opened Nodes
  import opened Dnf
  import opened Strings
  import opened Minterms
  import opened Implicants
  import opened Sorting
  import opened Rounds
  import opened Tables
  import opened Expanded

  /** `_alphabet`: each variable's position among the sorted variables; a letter listed
      twice keeps its last position. */
  function AlphabetOf(vars: seq<char>): (a: map<char, nat>)
    ensures forall c :: c in a <==> c in vars
    ensures forall c :: c in a ==> a[c] < |vars| && vars[a[c]] == c
    decreases |vars|
  {
    if vars == [] then map[]
    else AlphabetOf(vars[..|vars| - 1])[vars[|vars| - 1] := |vars| - 1]
  }

  /** Over sorted variables every variable sits at its own index. */
  lemma AlphabetPositions(vars: seq<char>)
    requires SortedLetters(vars)
    ensures var a := AlphabetOf(vars);
            AlphabetFits(a, |vars|) && forall i :: 0 <= i < |vars| ==> a[vars[i]] == i
  {
    var a := AlphabetOf(vars);
    forall i | 0 <= i < |vars|
      ensures a[vars[i]] == i
    {
      assert vars[i] in vars;
      var p := a[vars[i]];
      assert vars[p] == vars[i];
    }
  }

  /** Some term holds in the row of minterm `m`. */
  ghost predicate SomeTermHolds(terms: seq<string>, alphabet: map<char, nat>, n: nat, m: nat) {
    exists j :: 0 <= j < |terms| && Holds(Split(terms[j], AND), alphabet, VectorOf(m, n))
  }

  predicate AllValid(s: seq<Implicant>, n: nat) {
    forall i :: 0 <= i < |s| ==> Valid(s[i], n)
  }

  predicate AllSound(s: seq<Implicant>, n: nat) {
    forall i :: 0 <= i < |s| ==> Sound(s[i], n)
  }

  /** The implicants imply exactly the rows below 2^n where some term holds. */
  ghost predicate Means(s: seq<Implicant>, terms: seq<string>, alphabet: map<char, nat>, n: nat) {
    forall m: nat :: m in CoverOf(s) <==> m < Pow2(n) && SomeTermHolds(terms, alphabet, n, m)
  }

  /** The constructor's loop over the terms: each term becomes an implicant through the
      string constructor (as written, or with corrected counters), a contradiction is
      skipped, and the first exception ends construction. Construction fails exactly
      when some term's constructor throws, with the exception of the first such term; a
      successful one gives sound implicants (valid ones with the corrected counters)
      that together imply exactly the rows where some term holds. */
  function InitialFrom(alphabet: map<char, nat>, n: nat, terms: seq<string>, asWritten: bool)
    : (r: Result<seq<Implicant>>)
    requires AlphabetFits(alphabet, n)
    ensures r.Err? <==> exists j :: 0 <= j < |terms| && TermImplicant(alphabet, n, terms[j], asWritten).Err?
    ensures r.Err? ==> exists j :: 0 <= j < |terms| && TermImplicant(alphabet, n, terms[j], asWritten) == Err(r.error) &&
                                   forall i :: 0 <= i < j ==> TermImplicant(alphabet, n, terms[i], asWritten).Ok?
    ensures r.Ok? ==> AllSound(r.value, n) && Means(r.value, terms, alphabet, n)
    ensures r.Ok? && !asWritten ==> AllValid(r.value, n)
    decreases |terms|
  {
    if terms == [] then Ok([])
    else
      var init, last := terms[..|terms| - 1], terms[|terms| - 1];
      assert terms == init + [last];
      assert forall j :: 0 <= j < |init| ==> terms[j] == init[j];
      var prior := InitialFrom(alphabet, n, init, asWritten);
      if prior.Err? then Err(prior.error)
      else
        var r := TermImplicant(alphabet, n, last, asWritten);
        if r.Err? then
          assert terms[|init|] == last;
          Err(r.error)
        else
          var x := r.value;
          InitialStep(alphabet, n, init, last, prior.value, x, asWritten);
          if x.isContradiction then Ok(prior.value) else Ok(prior.value + [x])
  }

  /** Once a prefix of the terms throws, construction throws that exception. */
  lemma {:induction false} ErrorStays(alphabet: map<char, nat>, n: nat, terms: seq<string>, k: nat, e: Error,
                                      asWritten: bool)
    requires AlphabetFits(alphabet, n) && k <= |terms| && InitialFrom(alphabet, n, terms[..k], asWritten) == Err(e)
    ensures InitialFrom(alphabet, n, terms, asWritten) == Err(e)
    decreases |terms| - k
  {
    if k == |terms| {
      assert terms[..k] == terms;
    } else {
      assert terms[..k + 1][..k] == terms[..k];
      ErrorStays(alphabet, n, terms, k + 1, e, asWritten);
    }
  }

  /** A term's implicant implies the rows where the term holds; it is sound (valid, with
      the corrected counters) unless it is a contradiction, which implies nothing. */
  lemma ImplicantRows(alphabet: map<char, nat>, n: nat, input: string, x: Implicant, asWritten: bool)
    requires AlphabetFits(alphabet, n) && TermImplicant(alphabet, n, input, asWritten) == Ok(x)
    ensures forall m: nat :: m in x.minterms <==> m < Pow2(n) && Holds(Split(input, AND), alphabet, VectorOf(m, n))
    ensures x.isContradiction ==> x.minterms == []
    ensures !x.isContradiction ==> Sound(x, n) && (!asWritten ==> Valid(x, n))
  {
    TermMeaning(alphabet, n, input, asWritten);
    TermSound(alphabet, n, input, asWritten);
  }

  lemma TermsSnoc(init: seq<string>, last: string, alphabet: map<char, nat>, n: nat, m: nat)
    ensures SomeTermHolds(init + [last], alphabet, n, m) <==>
            SomeTermHolds(init, alphabet, n, m) || Holds(Split(last, AND), alphabet, VectorOf(m, n))
  {
    var terms := init + [last];
    if SomeTermHolds(terms, alphabet, n, m) {
      var j :| 0 <= j < |terms| && Holds(Split(terms[j], AND), alphabet, VectorOf(m, n));
      if j < |init| {
        assert terms[j] == init[j];
      }
    }
    if SomeTermHolds(init, alphabet, n, m) {
      var j :| 0 <= j < |init| && Holds(Split(init[j], AND), alphabet, VectorOf(m, n));
      assert terms[j] == init[j];
    }
    assert terms[|init|] == last;
  }

  /** Adding the last term's implicant, or skipping it when it is a contradiction, keeps
      soundness (and validity) and extends the cover by the rows where that term holds. */
  lemma InitialStep(alphabet: map<char, nat>, n: nat, init: seq<string>, last: string,
                    imps: seq<Implicant>, x: Implicant, asWritten: bool)
    requires AlphabetFits(alphabet, n) && TermImplicant(alphabet, n, last, asWritten) == Ok(x)
    requires AllSound(imps, n) && (!asWritten ==> AllValid(imps, n)) && Means(imps, init, alphabet, n)
    ensures var s := if x.isContradiction then imps else imps + [x];
            AllSound(s, n) && (!asWritten ==> AllValid(s, n)) && Means(s, init + [last], alphabet, n)
  {
    ImplicantRows(alphabet, n, last, x, asWritten);
    var s := if x.isContradiction then imps else imps + [x];
    if !x.isContradiction {
      CoverSnoc(imps, x);
    }
    forall m: nat
      ensures m in CoverOf(s) <==> m < Pow2(n) && SomeTermHolds(init + [last], alphabet, n, m)
    {
      TermsSnoc(init, last, alphabet, n, m);
    }
  }

  // ---------------------------------------------------------------------------------
  // What the terms of an expanded expression mean

  /** The variables that are true in the row `w` of the sorted variables. */
  ghost function Env(vars: seq<char>, w: seq<Cell>): set<char>
    requires |w| == |vars|
  {
    set p | 0 <= p < |vars| && w[p] == One :: vars[p]
  }

  /** A leaf's rendering holds as a factor in a row exactly when the leaf is true there. */
  lemma FactorMeaning(f: Node, vars: seq<char>, w: seq<Cell>)
    requires SortedLetters(vars) && |w| == |vars| && IsMinterm(w)
    requires IsTerminal(f) && IsValid(f.v) && f.v in vars
    ensures Known(Render(f), AlphabetOf(vars))
    ensures FactorHolds(Render(f), AlphabetOf(vars), w) <==> Eval(f, Env(vars, w))
  {
    var a := AlphabetOf(vars);
    AlphabetPositions(vars);
    ReadLeaf(f);
    EnvAt(vars, w, a[f.v]);
  }

  /** A leaf's rendering reads back as its letter, with the cell its polarity gives. */
  lemma ReadLeaf(f: Node)
    requires IsTerminal(f) && IsValid(f.v)
    ensures ReadFactor(Render(f)) == Some((f.v, if f.LiteralNode? then One else Zero))
  {
  }

  /** In a row over distinct variables, a variable is true exactly when its cell is one. */
  lemma EnvAt(vars: seq<char>, w: seq<Cell>, pos: nat)
    requires SortedLetters(vars) && |w| == |vars| && IsMinterm(w) && pos < |vars|
    ensures vars[pos] in Env(vars, w) <==> w[pos] == One
  {
    if vars[pos] in Env(vars, w) {
      var p :| 0 <= p < |vars| && w[p] == One && vars[p] == vars[pos];
      assert p == pos;
    }
  }

  /** A product's rendering, split at `*`, holds in a row exactly when the product is true
      there. */
  lemma ProductMeaning(fs: seq<Node>, vs: set<char>, vars: seq<char>, w: seq<Cell>)
    requires SortedLetters(vars) && |w| == |vars| && IsMinterm(w)
    requires (forall c :: c in vs ==> c in vars) && forall j :: 0 <= j < |fs| ==> LeafIn(fs[j], vs)
    ensures forall j :: 0 <= j < |fs| ==> Known(RenderAll(fs)[j], AlphabetOf(vars))
    ensures Holds(RenderAll(fs), AlphabetOf(vars), w) <==> EvalProduct(fs, Env(vars, w))
  {
    forall j | 0 <= j < |fs|
      ensures Known(RenderAll(fs)[j], AlphabetOf(vars))
      ensures FactorHolds(RenderAll(fs)[j], AlphabetOf(vars), w) <==> Eval(fs[j], Env(vars, w))
    {
      assert LeafIn(fs[j], vs);
      FactorMeaning(fs[j], vars, w);
    }
  }

  /** The pieces the reducer reads from an expanded expression. */
  ghost predicate Readable(e: Expanded, vars: seq<char>, ps: seq<seq<Node>>) {
    SortedLetters(vars) && (forall c :: c in e.variables ==> c in vars) &&
    Split(e.asString, OR) == ShowAll(ps) && AllLeavesIn(ps, e.variables) &&
    forall i :: 0 <= i < |ps| ==> Split(ShowAll(ps)[i], AND) == RenderAll(ps[i])
  }

  /** The sorted variables of any expansion are distinct letters in increasing order. */
  lemma VariablesSorted(e: Expanded)
    ensures SortedLetters(AllVariables(e))
    ensures AlphabetFits(AlphabetOf(AllVariables(e)), |AllVariables(e)|)
  {
    LettersFromMembers(e.variables, 0);
    LettersFromIncreasing(e.variables, 0);
    AlphabetPositions(AllVariables(e));
  }

  /** An expansion whose tree has no `Not` reads, over its sorted variables, as the
      products of that tree's reading. */
  lemma ExpandedReadable(expr: string, asWritten: bool)
    requires Expand(expr, asWritten).Ok? && IsNegationFree(Expand(expr, asWritten).value.root)
    ensures var e := Expand(expr, asWritten).value;
            Readable(e, AllVariables(e), Reading(e.root))
  {
    ExpandCorrect(expr, asWritten);
    TermsOfExpansion(expr, asWritten);
    var e := Expand(expr, asWritten).value;
    SortedVariablesCorrect(e.variables);
    var vars := AllVariables(e);
    assert forall i, j :: 0 <= i < j < |vars| ==> vars[i] < vars[j];
  }

  /** Term `i` of `AsString` holds in a row exactly when product `i` is true there, and
      its string constructor throws nothing. */
  lemma TermOfProduct(e: Expanded, vars: seq<char>, ps: seq<seq<Node>>, i: nat, m: nat, asWritten: bool)
    requires Readable(e, vars, ps) && i < |ps|
    ensures var terms := Split(e.asString, OR);
            var a := AlphabetOf(vars);
            AlphabetFits(a, |vars|) && TermImplicant(a, |vars|, terms[i], asWritten).Ok? &&
            (Holds(Split(terms[i], AND), a, VectorOf(m, |vars|)) <==>
             EvalProduct(ps[i], Env(vars, VectorOf(m, |vars|))))
  {
    var terms := Split(e.asString, OR);
    var a := AlphabetOf(vars);
    AlphabetPositions(vars);
    assert terms[i] == ShowAll(ps)[i];
    assert forall j :: 0 <= j < |ps[i]| ==> LeafIn(ps[i][j], e.variables);
    ProductMeaning(ps[i], e.variables, vars, VectorOf(m, |vars|));
    TermErrors(a, |vars|, terms[i], asWritten);
  }

  /** No term of a readable expansion makes its string constructor throw. */
  lemma TermsOk(e: Expanded, vars: seq<char>, ps: seq<seq<Node>>, asWritten: bool)
    requires Readable(e, vars, ps)
    ensures AlphabetFits(AlphabetOf(vars), |vars|)
    ensures InitialFrom(AlphabetOf(vars), |vars|, Split(e.asString, OR), asWritten).Ok?
  {
    var terms := Split(e.asString, OR);
    AlphabetPositions(vars);
    forall j | 0 <= j < |terms|
      ensures TermImplicant(AlphabetOf(vars), |vars|, terms[j], asWritten).Ok?
    {
      TermOfProduct(e, vars, ps, j, 0, asWritten);
    }
  }

  /** Some term holds in a row exactly when the reading of the tree is true there. */
  lemma TermsMean(e: Expanded, vars: seq<char>, ps: seq<seq<Node>>, m: nat)
    requires Readable(e, vars, ps)
    ensures SomeTermHolds(Split(e.asString, OR), AlphabetOf(vars), |vars|, m) <==>
            EvalSum(ps, Env(vars, VectorOf(m, |vars|)))
  {
    var terms := Split(e.asString, OR);
    var a := AlphabetOf(vars);
    var w := VectorOf(m, |vars|);
    forall j | 0 <= j < |ps|
      ensures Holds(Split(terms[j], AND), a, w) <==> EvalProduct(ps[j], Env(vars, w))
    {
      TermOfProduct(e, vars, ps, j, m, false);
    }
    assert |terms| == |ps|;
    if SomeTermHolds(terms, a, |vars|, m) {
      var j :| 0 <= j < |terms| && Holds(Split(terms[j], AND), a, w);
      assert EvalProduct(ps[j], Env(vars, w));
    }
    if EvalSum(ps, Env(vars, w)) {
      var j :| 0 <= j < |ps| && EvalProduct(ps[j], Env(vars, w));
      assert Holds(Split(terms[j], AND), a, w);
    }
  }

  /** The implicants are over the sorted variables. */
  lemma SoundOver(s: seq<Implicant>, vars: seq<char>)
    requires AllSound(s, |vars|) && SortedLetters(vars)
    ensures AllOver(s, vars)
  {
  }

  /** What the reducer's constructor needs of an expansion: the alphabet of its sorted
      variables fits, and its terms read, with no exception, as sound implicants over
      those variables. */
  ghost predicate Reducible(e: Expanded, asWritten: bool) {
    var vars := AllVariables(e);
    var a := AlphabetOf(vars);
    AlphabetFits(a, |vars|) &&
    var r := InitialFrom(a, |vars|, Split(e.asString, OR), asWritten);
    r.Ok? && AllOver(r.value, vars)
  }

  /** An expansion is reducible exactly when no term's constructor throws. */
  lemma ReducibleIff(e: Expanded, asWritten: bool)
    ensures var vars := AllVariables(e);
            AlphabetFits(AlphabetOf(vars), |vars|) &&
            (Reducible(e, asWritten) <==> InitialFrom(AlphabetOf(vars), |vars|, Split(e.asString, OR), asWritten).Ok?)
  {
    VariablesSorted(e);
  }

  /** When the rewritten tree has no `Not` (always, with the corrected rewrite) the
      constructor's loop throws nothing. */
  lemma InitialOk(expr: string, asWritten: bool)
    requires Expand(expr, asWritten).Ok? && IsNegationFree(Expand(expr, asWritten).value.root)
    ensures Reducible(Expand(expr, asWritten).value, asWritten)
  {
    ExpandedReadable(expr, asWritten);
    var e := Expand(expr, asWritten).value;
    var vars := AllVariables(e);
    TermsOk(e, vars, Reading(e.root), asWritten);
    ReducibleIff(e, asWritten);
  }

  /** When the rewritten tree is a negation-free sum of products (always, with the
      corrected rewrite) the constructor's loop throws nothing, and its implicants imply
      exactly the rows where the parsed expression is true. */
  lemma InitialMeaning(expr: string, asWritten: bool)
    requires Expand(expr, asWritten).Ok?
    requires IsNegationFree(Expand(expr, asWritten).value.root) && IsSumOfProducts(Expand(expr, asWritten).value.root)
    ensures Reducible(Expand(expr, asWritten).value, asWritten)
    ensures var e := Expand(expr, asWritten).value;
            var vars := AllVariables(e);
            var r := InitialFrom(AlphabetOf(vars), |vars|, Split(e.asString, OR), asWritten);
            forall m: nat :: m in CoverOf(r.value) <==>
              m < Pow2(|vars|) && Eval(ParsedTree(expr).value, Env(vars, VectorOf(m, |vars|)))
  {
    ExpandedReadable(expr, asWritten);
    var e := Expand(expr, asWritten).value;
    var vars := AllVariables(e);
    var ps := Reading(e.root);
    InitialOk(expr, asWritten);
    var r := InitialFrom(AlphabetOf(vars), |vars|, Split(e.asString, OR), asWritten);
    ExpandCorrect(expr, asWritten);
    forall m: nat
      ensures m in CoverOf(r.value) <==>
              m < Pow2(|vars|) && Eval(ParsedTree(expr).value, Env(vars, VectorOf(m, |vars|)))
    {
      TermsMean(e, vars, ps, m);
      ReadingOfSumOfProducts(e.root, Env(vars, VectorOf(m, |vars|)));
    }
  }
}
