/** Three texts reduced end to end, as the source writes the passes and corrected:
    `A(B+C)D`, `(A+B)'''` and `AA+A'`. Each shows where the program as written parts
    from the intended reduction. */
module Runs {
  import opened Tokens
  import opened Lexer
  import opened Parser
  import opened Nodes
  import opened Dnf
  import opened Strings
  import opened Minterms
  import opened Implicants
  import opened Sorting
  import opened Rounds
  import opened Tables
  import opened Expanded
  import opened Terms
  import opened Reducer

  // ---------------------------------------------------------------------------------
  // The texts, lexed

  const Distribution: string := "A(B+C)D"

  /** `A(B+C)D`: implicit ANDs after `A` before `(`, and after `)` before `D`. */
  lemma LexExampleDistribution()
    ensures Lex(Distribution) == Ok([Literal('A'), AndOp, LeftParen, Literal('B'), OrOp, Literal('C'), RightParen, AndOp, Literal('D')])
  {
    var s := Distribution;
    LexFoldCorrect(s, 0);
    assert s[..0] == [];
    LexExampleDistributionPart1();
    FoldStep(s, 4, Some(OrOp), [Literal('A'), AndOp, LeftParen, Literal('B'), OrOp], Literal('C'),
             [Literal('A'), AndOp, LeftParen, Literal('B'), OrOp, Literal('C')]);
    FoldStep(s, 5, Some(Literal('C')), [Literal('A'), AndOp, LeftParen, Literal('B'), OrOp, Literal('C')], RightParen,
             [Literal('A'), AndOp, LeftParen, Literal('B'), OrOp, Literal('C'), RightParen]);
    FoldStep(s, 6, Some(RightParen), [Literal('A'), AndOp, LeftParen, Literal('B'), OrOp, Literal('C'), RightParen], Literal('D'),
             [Literal('A'), AndOp, LeftParen, Literal('B'), OrOp, Literal('C'), RightParen, AndOp, Literal('D')]);
  }

  lemma LexExampleDistributionPart1()
    ensures LexFold(Distribution, 0, None, []) == LexFold(Distribution, 4, Some(OrOp), [Literal('A'), AndOp, LeftParen, Literal('B'), OrOp])
  {
    var s := Distribution;
    FoldStep(s, 0, None, [], Literal('A'), [Literal('A')]);
    FoldStep(s, 1, Some(Literal('A')), [Literal('A')], LeftParen, [Literal('A'), AndOp, LeftParen]);
    FoldStep(s, 2, Some(LeftParen), [Literal('A'), AndOp, LeftParen], Literal('B'), [Literal('A'), AndOp, LeftParen, Literal('B')]);
    FoldStep(s, 3, Some(Literal('B')), [Literal('A'), AndOp, LeftParen, Literal('B')], OrOp, [Literal('A'), AndOp, LeftParen, Literal('B'), OrOp]);
  }

  const RepeatedLiteral: string := "AA+A'"

  /** `AA+A'`: an implicit AND between the two letters of the first term. */
  lemma LexExampleRepeatedLiteral()
    ensures Lex(RepeatedLiteral) == Ok([Literal('A'), AndOp, Literal('A'), OrOp, Literal('A'), NotOp])
  {
    var s := RepeatedLiteral;
    LexFoldCorrect(s, 0);
    assert s[..0] == [];
    FoldStep(s, 0, None, [], Literal('A'), [Literal('A')]);
    FoldStep(s, 1, Some(Literal('A')), [Literal('A')], Literal('A'), [Literal('A'), AndOp, Literal('A')]);
    FoldStep(s, 2, Some(Literal('A')), [Literal('A'), AndOp, Literal('A')], OrOp, [Literal('A'), AndOp, Literal('A'), OrOp]);
    FoldStep(s, 3, Some(OrOp), [Literal('A'), AndOp, Literal('A'), OrOp], Literal('A'),
             [Literal('A'), AndOp, Literal('A'), OrOp, Literal('A')]);
    FoldStep(s, 4, Some(Literal('A')), [Literal('A'), AndOp, Literal('A'), OrOp, Literal('A')], NotOp,
             [Literal('A'), AndOp, Literal('A'), OrOp, Literal('A'), NotOp]);
  }

  const TripleNegation: string := "(A+B)'''"

  /** `(A+B)'''`: no implicit AND, since only `'` follows the `)`. */
  lemma LexExampleTripleNegation()
    ensures Lex(TripleNegation) == Ok([LeftParen, Literal('A'), OrOp, Literal('B'), RightParen, NotOp, NotOp, NotOp])
  {
    var s := TripleNegation;
    LexFoldCorrect(s, 0);
    assert s[..0] == [];
    LexExampleTripleNegationPart1();
    FoldStep(s, 4, Some(Literal('B')), [LeftParen, Literal('A'), OrOp, Literal('B')], RightParen,
             [LeftParen, Literal('A'), OrOp, Literal('B'), RightParen]);
    FoldStep(s, 5, Some(RightParen), [LeftParen, Literal('A'), OrOp, Literal('B'), RightParen], NotOp,
             [LeftParen, Literal('A'), OrOp, Literal('B'), RightParen, NotOp]);
    FoldStep(s, 6, Some(NotOp), [LeftParen, Literal('A'), OrOp, Literal('B'), RightParen, NotOp], NotOp,
             [LeftParen, Literal('A'), OrOp, Literal('B'), RightParen, NotOp, NotOp]);
    FoldStep(s, 7, Some(NotOp), [LeftParen, Literal('A'), OrOp, Literal('B'), RightParen, NotOp, NotOp], NotOp,
             [LeftParen, Literal('A'), OrOp, Literal('B'), RightParen, NotOp, NotOp, NotOp]);
  }

  lemma LexExampleTripleNegationPart1()
    ensures LexFold(TripleNegation, 0, None, []) == LexFold(TripleNegation, 4, Some(Literal('B')), [LeftParen, Literal('A'), OrOp, Literal('B')])
  {
    var s := TripleNegation;
    FoldStep(s, 0, None, [], LeftParen, [LeftParen]);
    FoldStep(s, 1, Some(LeftParen), [LeftParen], Literal('A'), [LeftParen, Literal('A')]);
    FoldStep(s, 2, Some(Literal('A')), [LeftParen, Literal('A')], OrOp, [LeftParen, Literal('A'), OrOp]);
    FoldStep(s, 3, Some(OrOp), [LeftParen, Literal('A'), OrOp], Literal('B'), [LeftParen, Literal('A'), OrOp, Literal('B')]);
  }

  // ---------------------------------------------------------------------------------
  // Small tables worked out once

  /** Two implicants of one minterm each, different ones: each minterm becomes a key,
      in order, listing its one implicant. */
  lemma TableOfTwo(x: Implicant, y: Implicant, a: nat, b: nat)
    requires x.minterms == [a] && y.minterms == [b] && a != b
    ensures SetLike([x, y])
    ensures BuildTable([x, y]) == Table([a, b], map[a := [x], b := [y]])
  {
    TableOfOne(x, a);
    SeparateSecond(Table([a], map[a := [x]]), x, y, a, b);
    BuildTwo(x, y, Table([a], map[a := [x]]), Table([a, b], map[a := [x], b := [y]]));
  }

  lemma SeparateSecond(t: Table, x: Implicant, y: Implicant, a: nat, b: nat)
    requires t == Table([a], map[a := [x]]) && a != b
    ensures KeysOk(t) && AddMinterms(t, y, [b]) == Table([a, b], map[a := [x], b := [y]])
  {
    AddOneMinterm(t, y, b);
    assert AddEntry(t, b, y) == Table([a, b], map[a := [x], b := [y]]);
  }

  lemma TableOfOne(x: Implicant, a: nat)
    requires x.minterms == [a]
    ensures SetLike([x]) && BuildTable([x]) == Table([a], map[a := [x]])
  {
    var ps := [x];
    assert ps[..0] == [];
    var t := Table([], map[]);
    AddOneMinterm(t, x, a);
    assert AddEntry(t, a, x) == Table([a], map[a := [x]]);
  }

  /** The outer loop's second step adds the second implicant's minterms. */
  lemma BuildSecond(x: Implicant, y: Implicant)
    requires SetLike([x, y])
    ensures SetLike([x]) && KeysOk(BuildTable([x]))
    ensures BuildTable([x, y]) == AddMinterms(BuildTable([x]), y, y.minterms)
  {
    assert [x, y][..1] == [x];
  }

  lemma AddOneMinterm(t: Table, x: Implicant, m: nat)
    requires KeysOk(t)
    ensures AddMinterms(t, x, [m]) == AddEntry(t, m, x)
  {
    assert [m][..0] == [];
  }

  lemma AddTwoMinterms(t: Table, x: Implicant, m: nat, k: nat)
    requires KeysOk(t) && m != k
    ensures KeysOk(AddEntry(t, m, x))
    ensures AddMinterms(t, x, [m, k]) == AddEntry(AddEntry(t, m, x), k, x)
  {
    assert [m, k][..1] == [m];
    AddOneMinterm(t, x, m);
    AddEntryFacts(t, m, x);
  }

  /** With both minterms listing one implicant, both are essential and the greedy step
      has nothing left to cover. */
  lemma PickOfTwo(x: Implicant, y: Implicant, a: nat, b: nat)
    requires x.minterms == [a] && y.minterms == [b] && a != b && x.bits != y.bits
    ensures var t := Table([a, b], map[a := [x], b := [y]]);
            KeysOk(t) && Listed(t) && Pick(t) == [x, y]
  {
    var t := Table([a, b], map[a := [x], b := [y]]);
    TwoKeys(t, [x], [y], a, b);
    SecondEssential(t, x, y, a, b);
    FirstEssential(t, x, y, a, b);
    PickOfEssentials(t, {a, b}, [x, y]);
  }

  /** When the essential implicants already cover every key, they are the pick. */
  lemma PickOfEssentials(t: Table, covered: set<nat>, finals: seq<Implicant>)
    requires KeysOk(t) && Listed(t) && EssentialsFrom(t, 0, {}, []) == (covered, finals)
    requires |covered| >= |t.keys|
    ensures Pick(t) == finals
  {
  }

  lemma TwoKeys(t: Table, la: seq<Implicant>, lb: seq<Implicant>, a: nat, b: nat)
    requires t == Table([a, b], map[a := la, b := lb]) && a != b
    requires la != [] && forall y :: y in la ==> y.minterms == [a] || y.minterms == [a, b]
    requires lb != [] && forall y :: y in lb ==> y.minterms == [b] || y.minterms == [a, b]
    ensures KeysOk(t) && Listed(t)
  {
  }

  lemma FirstEssential(t: Table, x: Implicant, y: Implicant, a: nat, b: nat)
    requires t == Table([a, b], map[a := [x], b := [y]]) && KeysOk(t)
    requires x.minterms == [a]
    requires EssentialsFrom(t, 1, {a}, [x]) == ({a, b}, [x, y])
    ensures EssentialsFrom(t, 0, {}, []) == ({a, b}, [x, y])
  {
    assert t.keys[0] == a && t.entries[a] == [x] && [x][0] == x;
    assert {} + Elems([a]) == {a};
    assert AddFinal([], x) == [x];
  }

  lemma SecondEssential(t: Table, x: Implicant, y: Implicant, a: nat, b: nat)
    requires t == Table([a, b], map[a := [x], b := [y]]) && KeysOk(t)
    requires y.minterms == [b] && x.bits != y.bits
    ensures EssentialsFrom(t, 1, {a}, [x]) == ({a, b}, [x, y])
  {
    assert t.keys[1] == b && t.entries[b] == [y] && [y][0] == y;
    assert {a} + Elems([b]) == {a, b};
    assert AddFinal([x], y) == [x, y];
    assert EssentialsFrom(t, 2, {a, b}, [x, y]) == ({a, b}, [x, y]);
  }

  /** An implicant of one minterm `a` and one of `a` and `b`: `a` lists both, `b` only
      the second. */
  lemma TableOfNested(x: Implicant, y: Implicant, a: nat, b: nat)
    requires x.minterms == [a] && y.minterms == [a, b] && a != b
    ensures SetLike([x, y])
    ensures BuildTable([x, y]) == Table([a, b], map[a := [x, y], b := [y]])
  {
    TableOfOne(x, a);
    NestedSecond(Table([a], map[a := [x]]), x, y, a, b);
    NestedSetLike(x, y, a, b);
    BuildTwo(x, y, Table([a], map[a := [x]]), Table([a, b], map[a := [x, y], b := [y]]));
  }

  lemma NestedSetLike(x: Implicant, y: Implicant, a: nat, b: nat)
    requires x.minterms == [a] && y.minterms == [a, b] && a != b
    ensures SetLike([x, y]) && NoDup(y.minterms)
  {
    assert [x, y][0] == x && [x, y][1] == y;
  }

  lemma NestedSecond(t: Table, x: Implicant, y: Implicant, a: nat, b: nat)
    requires t == Table([a], map[a := [x]]) && a != b
    ensures KeysOk(t) && AddMinterms(t, y, [a, b]) == Table([a, b], map[a := [x, y], b := [y]])
  {
    OneKey(t, [x], a);
    AddTwoMinterms(t, y, a, b);
    AppendToKey(t, x, y, a);
    NewKey(Table([a], map[a := [x, y]]), [x, y], y, a, b);
  }

  lemma OneKey(t: Table, l: seq<Implicant>, a: nat)
    requires t == Table([a], map[a := l])
    ensures KeysOk(t)
  {
  }

  lemma AppendToKey(t: Table, x: Implicant, y: Implicant, a: nat)
    requires t == Table([a], map[a := [x]])
    ensures AddEntry(t, a, y) == Table([a], map[a := [x, y]])
  {
    assert [x] + [y] == [x, y];
  }

  lemma NewKey(t: Table, l: seq<Implicant>, y: Implicant, a: nat, b: nat)
    requires t == Table([a], map[a := l]) && a != b
    ensures AddEntry(t, b, y) == Table([a, b], map[a := l, b := [y]])
  {
    assert [a] + [b] == [a, b];
  }

  lemma BuildTwo(x: Implicant, y: Implicant, t1: Table, t2: Table)
    requires SetLike([x, y]) && SetLike([x]) && BuildTable([x]) == t1
    requires NoDup(y.minterms) && KeysOk(t1) && AddMinterms(t1, y, y.minterms) == t2
    ensures BuildTable([x, y]) == t2
  {
    BuildSecond(x, y);
  }

  /** There the second implicant is essential for `b` and covers both keys: it is the
      whole pick. */
  lemma PickOfNested(x: Implicant, y: Implicant, a: nat, b: nat)
    requires x.minterms == [a] && y.minterms == [a, b] && a != b
    ensures var t := Table([a, b], map[a := [x, y], b := [y]]);
            KeysOk(t) && Listed(t) && Pick(t) == [y]
  {
    var t := Table([a, b], map[a := [x, y], b := [y]]);
    assert KeysOk(t);
    assert Elems([a, b]) == {a, b};
    assert AddFinal([], y) == [y];
    assert EssentialsFrom(t, 2, {a, b}, [y]) == ({a, b}, [y]);
    assert t.keys[1] == b && t.entries[b] == [y] && [y][0] == y && {} + Elems([a, b]) == {a, b};
    assert EssentialsFrom(t, 1, {}, []) == ({a, b}, [y]);
    assert t.keys[0] == a && |t.entries[a]| == 2;
    assert EssentialsFrom(t, 0, {}, []) == ({a, b}, [y]);
  }

  // ---------------------------------------------------------------------------------
  // `(A+B)'''` and `A(B+C)D` end to end

  /** `(A+B)'''`, as the source writes it: the rewrite leaves `(A+B)'`, whose first term
      `(A` is not a product of factors, so construction throws a malformed implicant. With
      the corrected passes construction succeeds. */
  lemma TripleNegationThrows()
    ensures Expand(TripleNegation, true) == Ok(TripleNegationExpanded)
    ensures Reduce(TripleNegation, true) == Err(MalformedImplicant("(A"))
    ensures Output(TripleNegation, true) == Err(MalformedImplicant("(A"))
    ensures Reduce(TripleNegation, false).Ok?
  {
    TripleNegationExpands();
    var e := TripleNegationExpanded;
    TripleNegationTerms();
    var vars := AllVariables(e);
    var alpha := AlphabetOf(vars);
    ReducibleIff(e, true);
    FirstTermThrows(alpha, Split(e.asString, OR));
    ReduceErrors(TripleNegation, false);
  }

  /** As written, the first term `(A` has no factor the string constructor reads. */
  lemma FirstTermThrows(alpha: map<char, nat>, terms: seq<string>)
    requires AlphabetFits(alpha, 2) && |terms| > 0 && terms[0] == "(A"
    ensures InitialFrom(alpha, 2, terms, true) == Err(MalformedImplicant("(A"))
  {
    SplitOne("(A");
    assert ReadFactor("(A").None?;
    assert TermImplicant(alpha, 2, "(A", true) == Err(MalformedImplicant("(A"));
    var r := InitialFrom(alpha, 2, terms, true);
    var j :| 0 <= j < |terms| && TermImplicant(alpha, 2, terms[j], true) == Err(r.error) &&
             forall i :: 0 <= i < j ==> TermImplicant(alpha, 2, terms[i], true).Ok?;
    assert j == 0;
  }

  /** What the source's `ExpandedBooleanExpression` holds for `(A+B)'''`. */
  const TripleNegationExpanded: Expanded :=
    Expanded(Not(Or(LiteralNode('A'), LiteralNode('B'))), "(A+B)'", {'A', 'B'})

  /** `(A+B)'''` parses to three NOTs over `A+B`, and the rewrite as written leaves one. */
  lemma TripleNegationExpands()
    ensures Expand(TripleNegation, true) == Ok(TripleNegationExpanded)
  {
    var a, b := LiteralNode('A'), LiteralNode('B');
    var n := Not(Not(Not(Or(a, b))));
    TripleNegationParses();
    TripleNegationSurvives();
    assert TransformIntoDnf(n, true) == Not(Or(a, b)) by {
      assert ApplyDistributiveProperty(Not(Or(a, b))) == Not(Or(a, b));
    }
    assert Vars(n) == {'A', 'B'};
  }

  lemma TripleNegationParses()
    ensures ParsedTree(TripleNegation) == Ok(Not(Not(Not(Or(LiteralNode('A'), LiteralNode('B'))))))
  {
    var n := Not(Not(Not(Or(LiteralNode('A'), LiteralNode('B')))));
    LexExampleTripleNegation();
    ParsePrintRoundTrip(n, []);
    assert PrintExpression(n) + [] == [LeftParen, Literal('A'), OrOp, Literal('B'), RightParen, NotOp, NotOp, NotOp];
  }

  /** Its variables are `A` and `B`, and its text splits into `(A` and `B)'`. */
  lemma TripleNegationTerms()
    ensures AllVariables(TripleNegationExpanded) == "AB"
    ensures Split(TripleNegationExpanded.asString, OR) == ["(A", "B)'"]
  {
    TwoVariables();
    TwoTerms();
  }

  lemma TwoTerms()
    ensures Split("(A+B)'", OR) == ["(A", "B)'"]
  {
    SplitAtSep("(A", "B)'", OR);
    assert "(A" + [OR] + "B)'" == "(A+B)'";
    SplitNoSep("(A", OR);
    SplitNoSep("B)'", OR);
  }

  /** `A(B+C)D`, as the source writes it: construction succeeds, but the text the rewrite
      leaves, `B*A+C*A*D`, reads back as AB+ACD, so the final implicants cover the row
      A=B=1, C=D=0 (minterm 12 over `ABCD`), where the expression is false. With the
      corrected passes they do not. */
  lemma DistributionReadsMore()
    ensures Expand(Distribution, true) == Ok(DistributionExpanded)
    ensures Reduce(Distribution, true).Ok? && Reduce(Distribution, false).Ok?
    ensures var r := Reduce(Distribution, true).value;
            r.variables == "ABCD" && 12 in CoverOf(r.finals) &&
            !Eval(ParsedTree(Distribution).value, Env(r.variables, VectorOf(12, 4)))
    ensures 12 !in CoverOf(Reduce(Distribution, false).value.finals)
  {
    DistributionReduces();
    ReduceReadsText(Distribution, true);
    ReduceMeaning(Distribution, false);
    DistributionRow("ABCD", DistributionExpanded.asString);
    DistributionMisread();
  }

  /** Construction succeeds both ways, over the variables `ABCD`. */
  lemma DistributionReduces()
    ensures Expand(Distribution, true) == Ok(DistributionExpanded)
    ensures ParsedTree(Distribution) == Ok(FixpointInput)
    ensures Reduce(Distribution, true).Ok? && Reduce(Distribution, false).Ok?
    ensures SortedVariables(Vars(FixpointInput)) == "ABCD"
  {
    DistributionExpands();
    DistributionNegationFree(DistributionExpanded);
    NegationFreeReduces(Distribution);
    FourVariables(Vars(FixpointInput));
  }

  lemma DistributionNegationFree(e: Expanded)
    requires e == DistributionExpanded
    ensures IsNegationFree(e.root)
  {
  }

  /** A text whose rewrite as written leaves no NOT reduces both ways. */
  lemma NegationFreeReduces(expr: string)
    requires Expand(expr, true).Ok? && IsNegationFree(Expand(expr, true).value.root)
    ensures Reduce(expr, true).Ok? && Reduce(expr, false).Ok?
  {
    ExpandCorrect(expr, true);
    ReduceErrors(expr, true);
    ReduceErrors(expr, false);
  }

  /** Minterm 12 over `ABCD` is the row A=B=1, C=D=0, where the term `B*A` holds. */
  lemma DistributionRow(vars: string, text: string)
    requires vars == "ABCD" && text == "B*A+C*A*D"
    ensures Pow2(4) == 16 && Env(vars, VectorOf(12, 4)) == {'A', 'B'}
    ensures SomeTermHolds(Split(text, OR), AlphabetOf(vars), 4, 12)
  {
    RowTwelve(vars);
    DistributionFirstTerm();
    FirstTermHolds(Split(text, OR), vars, VectorOf(12, 4));
  }

  lemma RowTwelve(vars: string)
    requires vars == "ABCD"
    ensures Pow2(4) == 16 && VectorOf(12, 4) == [One, One, Zero, Zero]
    ensures Env(vars, VectorOf(12, 4)) == {'A', 'B'}
  {
    var w := VectorOf(12, 4);
    assert w == [One, One, Zero, Zero];
    assert vars[0] == 'A' && vars[1] == 'B';
  }

  lemma FirstTermHolds(terms: seq<string>, vars: string, w: seq<Cell>)
    requires |terms| > 0 && Split(terms[0], AND) == ["B", "A"]
    requires vars == "ABCD" && w == [One, One, Zero, Zero] && VectorOf(12, 4) == w
    ensures SomeTermHolds(terms, AlphabetOf(vars), 4, 12)
  {
    PositionsAB(vars);
    var alpha := AlphabetOf(vars);
    assert FactorHolds("B", alpha, w) && FactorHolds("A", alpha, w);
    assert Holds(Split(terms[0], AND), alpha, w);
  }

  lemma PositionsAB(vars: string)
    requires vars == "ABCD"
    ensures 'A' in AlphabetOf(vars) && AlphabetOf(vars)['A'] == 0
    ensures 'B' in AlphabetOf(vars) && AlphabetOf(vars)['B'] == 1
  {
    AlphabetPositions(vars);
    assert vars[0] == 'A' && vars[1] == 'B';
  }

  /** What the source's `ExpandedBooleanExpression` holds for `A(B+C)D`. */
  const DistributionExpanded: Expanded :=
    Expanded(FixpointOutput, "B*A+C*A*D", {'A', 'B', 'C', 'D'})

  lemma DistributionExpands()
    ensures Expand(Distribution, true) == Ok(DistributionExpanded)
    ensures ParsedTree(Distribution) == Ok(FixpointInput)
  {
    DistributionParses();
    DistributionRewrites(FixpointInput);
    DistributionNotAtFixpoint();
  }

  /** The tree has no NOT to push, and its variables are `A` to `D`. */
  lemma DistributionRewrites(n: Node)
    requires n == FixpointInput
    ensures SearchForNot(n) == n && Vars(n) == {'A', 'B', 'C', 'D'}
  {
  }

  lemma DistributionParses()
    ensures ParsedTree(Distribution) == Ok(FixpointInput)
  {
    LexExampleDistribution();
    ParsePrintRoundTrip(FixpointInput, []);
    assert PrintExpression(FixpointInput) + [] ==
           [Literal('A'), AndOp, LeftParen, Literal('B'), OrOp, Literal('C'), RightParen, AndOp, Literal('D')];
  }

  /** The first term of `B*A+C*A*D` is `B*A`, whose factors are `B` and `A`. */
  lemma DistributionFirstTerm()
    ensures Split("B*A+C*A*D", OR)[0] == "B*A"
    ensures Split("B*A", AND) == ["B", "A"]
  {
    SplitAtSep("B*A", "C*A*D", OR);
    assert "B*A" + [OR] + "C*A*D" == "B*A+C*A*D";
    SplitNoSep("B*A", OR);
    SplitAtSep("B", "A", AND);
    assert "B" + [AND] + "A" == "B*A";
    SplitNoSep("B", AND);
    SplitNoSep("A", AND);
  }

  // ---------------------------------------------------------------------------------
  // `AA+A'` end to end

  /** The tree the rewrite leaves for `AA+A'`, either way: `A*A+A'`. */
  const RepeatedTree: Node := Or(And(LiteralNode('A'), LiteralNode('A')), ComplementNode('A'))

  /** What `ExpandedBooleanExpression` holds for `AA+A'`. */
  const RepeatedExpanded: Expanded := Expanded(RepeatedTree, "A*A+A'", {'A'})

  /** `AA+A'` parses to `A*A+(A)'`; both rewrites turn the NOT into a complement leaf. */
  lemma RepeatedExpands()
    ensures ParsedTree(RepeatedLiteral) == Ok(Or(And(LiteralNode('A'), LiteralNode('A')), Not(LiteralNode('A'))))
    ensures Expand(RepeatedLiteral, true) == Ok(RepeatedExpanded)
    ensures Expand(RepeatedLiteral, false) == Ok(RepeatedExpanded)
  {
    RepeatedParses();
    RepeatedRewrites(Or(And(LiteralNode('A'), LiteralNode('A')), Not(LiteralNode('A'))));
  }

  lemma RepeatedParses()
    ensures ParsedTree(RepeatedLiteral) == Ok(Or(And(LiteralNode('A'), LiteralNode('A')), Not(LiteralNode('A'))))
  {
    var a := LiteralNode('A');
    var n := Or(And(a, a), Not(a));
    LexExampleRepeatedLiteral();
    ParsePrintRoundTrip(n, []);
    assert PrintExpression(n) + [] == [Literal('A'), AndOp, Literal('A'), OrOp, Literal('A'), NotOp];
  }

  lemma RepeatedRewrites(n: Node)
    requires n == Or(And(LiteralNode('A'), LiteralNode('A')), Not(LiteralNode('A')))
    ensures TransformIntoDnf(n, true) == RepeatedTree && TransformIntoDnf(n, false) == RepeatedTree
    ensures Vars(n) == {'A'} && Render(RepeatedTree) == "A*A+A'"
  {
    assert SearchForNot(n) == RepeatedTree;
    assert ApplyDistributiveProperty(RepeatedTree) == RepeatedTree;
    assert PushNegations(n) == RepeatedTree;
    assert Distribute(RepeatedTree) == RepeatedTree;
  }

  /** Its one variable is `A`, at position 0, and its text splits into `A*A` and `A'`. */
  lemma RepeatedTerms()
    ensures AllVariables(RepeatedExpanded) == "A"
    ensures AlphabetOf("A") == map['A' := 0]
    ensures Split(RepeatedExpanded.asString, OR) == ["A*A", "A'"]
  {
    OneVariable(RepeatedExpanded.variables);
    OnePosition("A");
    RepeatedSplit(RepeatedExpanded.asString);
  }

  lemma OnePosition(vars: string)
    requires vars == "A"
    ensures AlphabetOf(vars) == map['A' := 0]
  {
    assert AlphabetOf(vars) == AlphabetOf(vars[..0])['A' := 0];
  }

  lemma RepeatedSplit(text: string)
    requires text == "A*A+A'"
    ensures Split(text, OR) == ["A*A", "A'"]
  {
    SplitAtSep("A*A", "A'", OR);
    assert "A*A" + [OR] + "A'" == text;
    SplitNoSep("A*A", OR);
    SplitNoSep("A'", OR);
  }

  /** `A*A` read as the source writes it: two ones and minus one dash. */
  const DriftedA: Implicant := Implicant([One], 2, -1, false, [1])
  /** `A*A` read with corrected counters. */
  const ExactA: Implicant := Implicant([One], 1, 0, false, [1])
  /** `A'`. */
  const NotA: Implicant := Implicant([Zero], 0, 0, false, [0])

  /** The terms give `A*A`'s implicant and `A'`'s, both ways. */
  lemma RepeatedImplicants(alpha: map<char, nat>, terms: seq<string>)
    requires alpha == map['A' := 0] && terms == ["A*A", "A'"]
    ensures AlphabetFits(alpha, 1)
    ensures InitialFrom(alpha, 1, terms, true) == Ok([DriftedA, NotA])
    ensures InitialFrom(alpha, 1, terms, false) == Ok([ExactA, NotA])
  {
    RepeatedLiteralDrift();
    RepeatedLiteralCorrected();
    AFalse(true);
    AFalse(false);
    var first: seq<string> := ["A*A"];
    assert terms[..1] == first && first[..0] == [];
    assert TermImplicant(alpha, 1, "A*A", true) == Ok(DriftedA);
    assert TermImplicant(alpha, 1, "A*A", false) == Ok(ExactA);
    assert InitialFrom(alpha, 1, [], true) == Ok([]) && InitialFrom(alpha, 1, [], false) == Ok([]);
    assert [] + [DriftedA] == [DriftedA] && [] + [ExactA] == [ExactA];
    assert InitialFrom(alpha, 1, first, true) == Ok([DriftedA]);
    assert InitialFrom(alpha, 1, first, false) == Ok([ExactA]);
    assert TermImplicant(alpha, 1, "A'", true) == Ok(NotA);
    assert TermImplicant(alpha, 1, "A'", false) == Ok(NotA);
    assert [DriftedA] + [NotA] == [DriftedA, NotA] && [ExactA] + [NotA] == [ExactA, NotA];
  }

  /** As written, neither implicant merges with the other: the one counters are two
      apart, so the scan stops at once, and both are primes. */
  lemma DriftedPrimes(imps: seq<Implicant>, vars: seq<char>)
    requires imps == [DriftedA, NotA] && vars == "A" && RoundInput(imps, [], vars, 0)
    ensures PrimesFrom(imps, [], vars, 0) == imps
  {
    assert imps + [] == imps;
    DriftedSorted(imps, vars);
    DriftedRound(imps, vars);
    DriftedBefore(vars);
    PairSet(imps, vars);
  }

  lemma DriftedSorted(imps: seq<Implicant>, vars: seq<char>)
    requires imps == [DriftedA, NotA] && vars == "A"
    ensures Sort(imps, vars) == imps
  {
    DriftedBefore(vars);
    SortTwo(DriftedA, NotA, vars);
  }

  /** The drifted counter puts `A*A` first: its dash count is below zero. */
  lemma DriftedBefore(vars: seq<char>)
    requires vars == "A"
    ensures CompareTo(DriftedA, Some(NotA), vars) < 0 && CompareTo(NotA, Some(DriftedA), vars) > 0
  {
  }


  lemma DriftedRound(imps: seq<Implicant>, vars: seq<char>)
    requires imps == [DriftedA, NotA] && vars == "A" && Fits(imps, vars)
    ensures RoundFrom(imps, 0, vars) == ([], imps)
  {
    RoundOfPair(imps, vars);
  }

  /** As written, `A*A` and `A'` are both kept and print as `A+A'`. */
  lemma DriftedFinals(vars: seq<char>, imps: seq<Implicant>)
    requires vars == "A" && imps == [DriftedA, NotA] && AllOver(imps, vars)
    ensures Finish(vars, map['A' := 0], imps).finals == imps
    ensures Shown(Finish(vars, map['A' := 0], imps)) == "A+A'"
  {
    StartInput(imps, vars);
    DriftedPrimes(imps, vars);
    TableOfTwo(DriftedA, NotA, 1, 0);
    PickOfTwo(DriftedA, NotA, 1, 0);
    DriftedText(vars, Finish(vars, map['A' := 0], imps).finals);
  }

  lemma DriftedText(vars: seq<char>, finals: seq<Implicant>)
    requires vars == "A" && finals == [DriftedA, NotA]
    ensures Join(Rendered(finals, vars), OR) == "A+A'"
  {
    assert Text([One][..0], vars) == [] && Text([Zero][..0], vars) == [];
    assert Display(DriftedA, vars) == "A";
    assert Display(NotA, vars) == "A'";
    var r := Rendered(finals, vars);
    assert r == ["A", "A'"];
    assert r[1..] == ["A'"];
  }

  /** The text `AA+A'`, as the source reduces it, prints `A+A'`: the repeated literal
      throws the counters off, so `A*A` and `A'` never merge into the tautology. */
  lemma RepeatedOutput()
    ensures Output(RepeatedLiteral, true) == Ok("A+A'")
  {
    RepeatedExpands();
    RepeatedTerms();
    RepeatedImplicants(map['A' := 0], ["A*A", "A'"]);
    ReducibleIff(RepeatedExpanded, true);
    assert Reducible(RepeatedExpanded, true);
    assert Initial(RepeatedExpanded, true) == Ok([DriftedA, NotA]);
    assert Reduced(RepeatedExpanded, true) == Finish("A", map['A' := 0], [DriftedA, NotA]);
    DriftedFinals("A", [DriftedA, NotA]);
  }

  /** `A*A` and `A'` with corrected counters merge into `-`. */
  const MergedA: Implicant := Implicant([Dash], 0, 1, false, [1, 0])

  /** Corrected, the first round merges `A'` with `A*A`; `A*A`, last in the round, has
      no later partner and is kept as well. */
  lemma ExactFirstRound(s: seq<Implicant>, vars: seq<char>)
    requires s == [NotA, ExactA] && vars == "A"
    ensures Fits(s, vars) && RoundFrom(s, 0, vars) == ([MergedA], [ExactA])
  {
    ExactProduct(s[0], s[1], vars);
    RoundOfPair(s, vars);
  }

  lemma ExactProduct(x: Implicant, y: Implicant, vars: seq<char>)
    requires x == NotA && y == ExactA && vars == "A"
    ensures Fits([x, y], vars) && Abs(x.ones - y.ones) <= 1 && Product(x, y, vars) == [MergedA]
  {
    RepeatedLiteralMergesCorrected();
    assert Merge(x, Some(y), vars) == Some(MergedA);
    assert [x, y][0] == x && [x, y][1] == y;
  }

  /** The second round merges nothing: `A*A` and `-` differ in their dash counts. */
  lemma ExactSecondRound(s: seq<Implicant>, vars: seq<char>)
    requires s == [ExactA, MergedA] && vars == "A"
    ensures Fits(s, vars) && RoundFrom(s, 0, vars) == ([], s)
  {
    assert Product(ExactA, MergedA, vars) == [];
    RoundOfPair(s, vars);
  }

  lemma ExactOrder(vars: seq<char>)
    requires vars == "A"
    ensures !LessEq(ExactA, NotA, vars)
    ensures LessEq(ExactA, MergedA, vars) && !LessEq(MergedA, ExactA, vars)
    ensures CompareTo(ExactA, Some(MergedA), vars) != 0
  {
  }

  /** Corrected, the primes are `A*A` and `-`, in that order. */
  lemma ExactPrimes(imps: seq<Implicant>, vars: seq<char>)
    requires imps == [ExactA, NotA] && vars == "A" && RoundInput(imps, [], vars, 0)
    ensures PrimesFrom(imps, [], vars, 0) == [ExactA, MergedA]
  {
    assert imps + [] == imps;
    ExactOrder(vars);
    SortSwap(ExactA, NotA, vars);
    var s := [NotA, ExactA];
    ExactFirstRound(s, vars);
    CoverStep(imps, [], s, ([MergedA], [ExactA]), vars, 0);
    ExactLastRound([MergedA], [ExactA], vars);
  }

  lemma ExactLastRound(next: seq<Implicant>, primes: seq<Implicant>, vars: seq<char>)
    requires next == [MergedA] && primes == [ExactA] && vars == "A" && RoundInput(next, primes, vars, 1)
    ensures PrimesFrom(next, primes, vars, 1) == [ExactA, MergedA]
  {
    var s := [ExactA, MergedA];
    ExactResorted(next, primes, vars);
    ExactSecondRound(s, vars);
    assert Over(MergedA, vars) && Over(ExactA, vars) by {
      assert (next + primes)[0] == MergedA && (next + primes)[1] == ExactA;
    }
    ExactSet(s, vars);
    PrimesWhenNoneMerge(next, primes, vars, 1, s);
  }

  lemma ExactResorted(next: seq<Implicant>, primes: seq<Implicant>, vars: seq<char>)
    requires next == [MergedA] && primes == [ExactA] && vars == "A"
    ensures Sort(next + primes, vars) == [ExactA, MergedA]
  {
    assert next + primes == [MergedA, ExactA];
    ExactOrder(vars);
    SortSwap(MergedA, ExactA, vars);
  }

  lemma ExactSet(s: seq<Implicant>, vars: seq<char>)
    requires s == [ExactA, MergedA] && vars == "A" && Over(ExactA, vars) && Over(MergedA, vars)
    ensures Fits(s + s, vars) && SortedSet(s + s, vars) == s
  {
    ExactOrder(vars);
    PairSet(s, vars);
  }

  /** Corrected, the one final implicant is `-`, which prints as the empty text. */
  lemma ExactFinals(vars: seq<char>, imps: seq<Implicant>)
    requires vars == "A" && imps == [ExactA, NotA] && AllOver(imps, vars)
    ensures Finish(vars, map['A' := 0], imps).finals == [MergedA]
    ensures Shown(Finish(vars, map['A' := 0], imps)) == ""
  {
    StartInput(imps, vars);
    ExactPrimes(imps, vars);
    TableOfNested(ExactA, MergedA, 1, 0);
    PickOfNested(ExactA, MergedA, 1, 0);
    ExactText(vars, Finish(vars, map['A' := 0], imps).finals);
  }

  lemma ExactText(vars: seq<char>, finals: seq<Implicant>)
    requires vars == "A" && finals == [MergedA]
    ensures Join(Rendered(finals, vars), OR) == ""
  {
    assert Display(MergedA, vars) == "";
    assert Rendered(finals, vars) == [""];
  }

  /** `AA+A'` corrected reduces to the tautology, printed as the empty text. */
  lemma RepeatedOutputCorrected()
    ensures Output(RepeatedLiteral, false) == Ok("")
  {
    RepeatedExpands();
    RepeatedTerms();
    RepeatedImplicants(map['A' := 0], ["A*A", "A'"]);
    ReducibleIff(RepeatedExpanded, false);
    assert Reducible(RepeatedExpanded, false);
    assert Initial(RepeatedExpanded, false) == Ok([ExactA, NotA]);
    assert Reduced(RepeatedExpanded, false) == Finish("A", map['A' := 0], [ExactA, NotA]);
    ExactFinals("A", [ExactA, NotA]);
  }
}
