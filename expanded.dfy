/** `ExpandedBooleanExpression`: an expression lexed, parsed, rewritten into a sum of
    products and rendered back as the text the reducer splits into terms and factors. */
module Expanded {
  import opened Tokens
  import opened Nodes
  import opened Lexer
  import opened Parser
  import opened Dnf
  import opened Strings

  // ---------------------------------------------------------------------------------
  // Well-formedness of what the lexer and the parser produce

  /** Every literal token of a lexed stream carries a letter A-Z. */
  lemma {:induction false} LexWellFormed(s: string)
    requires Lex(s).Ok?
    ensures AllWellFormed(Lex(s).value)
    decreases |s|
  {
    if s != [] {
      LexWellFormed(s[..|s| - 1]);
    }
  }

  lemma {:induction false} ExpressionWellFormed(ts: seq<Token>, p: nat)
    requires p <= |ts| && AllWellFormed(ts)
    ensures ParseExpression(ts, p).Ok? ==> WellFormedNode(ParseExpression(ts, p).value.0)
    decreases |ts| - p, 3
  {
    match ParseTerm(ts, p)
    case Err(_) =>
    case Ok((n, q)) =>
      TermWellFormed(ts, p);
      ExpressionTailWellFormed(ts, n, q);
  }

  lemma {:induction false} ExpressionTailWellFormed(ts: seq<Token>, acc: Node, p: nat)
    requires p <= |ts| && AllWellFormed(ts) && WellFormedNode(acc)
    ensures ExpressionTail(ts, acc, p).Ok? ==> WellFormedNode(ExpressionTail(ts, acc, p).value.0)
    decreases |ts| - p, 3
  {
    if IsOrAt(ts, p) {
      match ParseTerm(ts, p + 1)
      case Err(_) =>
      case Ok((n, q)) =>
        TermWellFormed(ts, p + 1);
        ExpressionTailWellFormed(ts, Or(acc, n), q);
    }
  }

  lemma {:induction false} TermWellFormed(ts: seq<Token>, p: nat)
    requires p <= |ts| && AllWellFormed(ts)
    ensures ParseTerm(ts, p).Ok? ==> WellFormedNode(ParseTerm(ts, p).value.0)
    decreases |ts| - p, 2
  {
    match ParseFactor(ts, p)
    case Err(_) =>
    case Ok((n, q)) =>
      FactorWellFormed(ts, p);
      TermTailWellFormed(ts, n, q);
  }

  lemma {:induction false} TermTailWellFormed(ts: seq<Token>, acc: Node, p: nat)
    requires p <= |ts| && AllWellFormed(ts) && WellFormedNode(acc)
    ensures TermTail(ts, acc, p).Ok? ==> WellFormedNode(TermTail(ts, acc, p).value.0)
    decreases |ts| - p, 2
  {
    if IsAndAt(ts, p) {
      match ParseFactor(ts, p + 1)
      case Err(_) =>
      case Ok((n, q)) =>
        FactorWellFormed(ts, p + 1);
        TermTailWellFormed(ts, And(acc, n), q);
    }
  }

  lemma {:induction false} FactorWellFormed(ts: seq<Token>, p: nat)
    requires p <= |ts| && AllWellFormed(ts)
    ensures ParseFactor(ts, p).Ok? ==> WellFormedNode(ParseFactor(ts, p).value.0)
    decreases |ts| - p, 1
  {
    match ParseAtom(ts, p)
    case Err(_) =>
    case Ok((n, q)) =>
      AtomWellFormed(ts, p);
      FactorTailWellFormed(ts, n, q);
  }

  lemma {:induction false} FactorTailWellFormed(ts: seq<Token>, acc: Node, p: nat)
    requires p <= |ts| && AllWellFormed(ts) && WellFormedNode(acc)
    ensures FactorTail(ts, acc, p).Ok? ==> WellFormedNode(FactorTail(ts, acc, p).value.0)
    decreases |ts| - p, 1
  {
    if IsNotAt(ts, p) {
      FactorTailWellFormed(ts, Not(acc), p + 1);
    }
  }

  lemma {:induction false} AtomWellFormed(ts: seq<Token>, p: nat)
    requires p <= |ts| && AllWellFormed(ts)
    ensures ParseAtom(ts, p).Ok? ==> WellFormedNode(ParseAtom(ts, p).value.0)
    decreases |ts| - p, 0
  {
    if p < |ts| && ts[p].LeftParen? {
      ExpressionWellFormed(ts, p + 1);
    }
  }

  // ---------------------------------------------------------------------------------
  // The variables in order

  /** The letter `k` places after `A`. */
  function Letter(k: nat): (c: char)
    requires k < 26
    ensures IsValid(c) && c as int == START_ALPHA as int + k
  {
    (START_ALPHA as int + k) as char
  }

  /** The letters of `s` from `'A' + k` up to `'Z'`, in increasing order. */
  function LettersFrom(s: set<char>, k: nat): seq<char>
    requires k <= 26
    decreases 26 - k
  {
    if k == 26 then []
    else (if Letter(k) in s then [Letter(k)] else []) + LettersFrom(s, k + 1)
  }

  /** Every letter listed is in `s`, is valid and comes at or after `'A' + k`. */
  lemma {:induction false} LettersFromMembers(s: set<char>, k: nat)
    requires k <= 26
    ensures forall c :: c in LettersFrom(s, k) ==> c in s && IsValid(c) && START_ALPHA as int + k <= c as int
    decreases 26 - k
  {
    if k < 26 {
      LettersFromMembers(s, k + 1);
    }
  }

  predicate Increasing(r: seq<char>) {
    forall i, j :: 0 <= i < j < |r| ==> r[i] < r[j]
  }

  /** The letters are listed in increasing order. */
  lemma {:induction false} LettersFromIncreasing(s: set<char>, k: nat)
    requires k <= 26
    ensures Increasing(LettersFrom(s, k))
    decreases 26 - k
  {
    if k < 26 {
      LettersFromIncreasing(s, k + 1);
      LettersFromMembers(s, k + 1);
      var rest := LettersFrom(s, k + 1);
      if Letter(k) in s {
        var r := [Letter(k)] + rest;
        forall i, j | 0 <= i < j < |r|
          ensures r[i] < r[j]
        {
          assert r[j] == rest[j - 1] && r[j] in rest;
          if i > 0 {
            assert r[i] == rest[i - 1];
          } else {
            assert r[i] as int < r[j] as int;
          }
        }
        assert LettersFrom(s, k) == r;
      } else {
        assert LettersFrom(s, k) == rest;
      }
    }
  }

  /** Every valid letter of `s` at or after `'A' + k` is listed. */
  lemma {:induction false} LettersFromComplete(s: set<char>, k: nat)
    requires k <= 26
    ensures forall c :: c in s && IsValid(c) && START_ALPHA as int + k <= c as int ==> c in LettersFrom(s, k)
    decreases 26 - k
  {
    if k < 26 {
      LettersFromComplete(s, k + 1);
      forall c | c in s && IsValid(c) && START_ALPHA as int + k <= c as int
        ensures c in LettersFrom(s, k)
      {
        if c as int == START_ALPHA as int + k {
          assert c == Letter(k);
        } else {
          assert c in LettersFrom(s, k + 1);
        }
      }
    }
  }

  /** `SortedSet<char>.ToArray()`: the set's letters in increasing order. */
  function SortedVariables(s: set<char>): seq<char> {
    LettersFrom(s, 0)
  }

  /** The sorted variables of `A` alone. */
  lemma OneVariable(s: set<char>)
    requires s == {'A'}
    ensures SortedVariables(s) == "A"
  {
    LettersFromNone(s, 1);
    assert Letter(0) == 'A';
  }

  /** The sorted variables of `A` and `B`. */
  lemma TwoVariables()
    ensures SortedVariables({'A', 'B'}) == "AB"
  {
    SortedVariablesCorrect({'A', 'B'});
    var vars := SortedVariables({'A', 'B'});
    assert |vars| == 2 by {
      assert |{'A', 'B'}| == 2;
    }
    assert vars[0] in {'A', 'B'} && vars[1] in {'A', 'B'} && vars[0] < vars[1];
  }

  /** The sorted variables of `A`-`D`. */
  lemma FourVariables(s: set<char>)
    requires s == {'A', 'B', 'C', 'D'}
    ensures SortedVariables(s) == "ABCD"
  {
    LettersFromNone(s, 4);
    assert Letter(3) == 'D';
    assert LettersFrom(s, 3) == "D";
    assert Letter(2) == 'C';
    assert LettersFrom(s, 2) == "CD";
    assert Letter(1) == 'B';
    assert LettersFrom(s, 1) == "BCD";
    assert Letter(0) == 'A';
  }

  /** No letter of `s` comes at or after `'A' + k`: nothing is listed from there on. */
  lemma {:induction false} LettersFromNone(s: set<char>, k: nat)
    requires k <= 26 && forall c :: c in s ==> c as int < START_ALPHA as int + k
    ensures LettersFrom(s, k) == []
    decreases 26 - k
  {
    if k < 26 {
      LettersFromNone(s, k + 1);
    }
  }

  /** A strictly increasing sequence has as many elements as its set of elements. */
  lemma {:induction false} IncreasingCard(r: seq<char>)
    requires Increasing(r)
    ensures |set c | c in r| == |r|
    decreases |r|
  {
    if r != [] {
      var rest := r[1..];
      IncreasingCard(rest);
      assert (set c | c in r) == {r[0]} + (set c | c in rest);
      assert r[0] !in rest;
    }
  }

  /** The sorted variables of a set of letters are its letters, each once, in increasing order. */
  lemma SortedVariablesCorrect(s: set<char>)
    requires forall c :: c in s ==> IsValid(c)
    ensures var r := SortedVariables(s);
            (forall i :: 0 <= i < |r| ==> IsValid(r[i])) &&
            Increasing(r) && (forall c :: c in r <==> c in s) && |r| == |s|
  {
    var r := SortedVariables(s);
    LettersFromMembers(s, 0);
    LettersFromIncreasing(s, 0);
    LettersFromComplete(s, 0);
    IncreasingCard(r);
    assert forall c :: c in r <==> c in s;
    assert (set c | c in r) == s;
  }

  // ---------------------------------------------------------------------------------
  // The expanded expression

  /** `_root`, `AsString` and `_variables` after construction. */
  datatype Expanded = Expanded(root: Node, asString: string, variables: set<char>)

  /** `GetAllVariables`. */
  function AllVariables(e: Expanded): seq<char> {
    SortedVariables(e.variables)
  }

  /** `Parse`: lex, then parse one expression from the first token. Tokens after the
      expression are not examined. */
  function ParsedTree(expr: string): Result<Node> {
    match Lex(expr)
    case Err(e) => Err(e)
    case Ok(ts) =>
      match ParseExpression(ts, 0)
      case Err(e) => Err(e)
      case Ok((n, _)) => Ok(n)
  }

  /** The constructor: parse, rewrite into a sum of products (as the source writes the
      rewrite, or corrected), render. */
  function Expand(expr: string, asWritten: bool): Result<Expanded> {
    match ParsedTree(expr)
    case Err(e) => Err(e)
    case Ok(n) =>
      var root := TransformIntoDnf(n, asWritten);
      Ok(Expanded(root, Render(root), Vars(n)))
  }

  /** The rewritten tree is a negation-free sum of products, as the reducer assumes. */
  ghost predicate Flattened(expr: string, asWritten: bool) {
    match Expand(expr, asWritten)
    case Err(_) => false
    case Ok(e) => IsNegationFree(e.root) && IsSumOfProducts(e.root)
  }

  /** The constructor as the source runs it: the lexer's loop, then the parser object. */
  method NewExpanded(expr: string) returns (r: Result<Expanded>)
    ensures r == Expand(expr, true)
  {
    var lexed := Tokenize(expr);
    if lexed.Err? {
      return Err(lexed.error);
    }
    var parser := new Parser(lexed.value);
    var parsed := parser.Expression();
    assert Outcome(parsed, parser.pos) == ParseExpression(lexed.value, 0);
    if parsed.Err? {
      return Err(parsed.error);
    }
    assert ParsedTree(expr) == Ok(parsed.value);
    assert parser.variables == Vars(parsed.value);
    var root := TransformIntoDnf(parsed.value, true);
    r := Ok(Expanded(root, Render(root), parser.variables));
  }

  /** Construction fails exactly when lexing or parsing fails, with that error. A
      successful one holds a tree over valid letters that means what the parsed
      expression means, its rendering, and the variables it mentions; with the corrected
      rewrite the tree is a negation-free sum of products. */
  lemma ExpandCorrect(expr: string, asWritten: bool)
    ensures Expand(expr, asWritten).Err? <==> ParsedTree(expr).Err?
    ensures Expand(expr, asWritten).Err? ==> Expand(expr, asWritten).error == ParsedTree(expr).error
    ensures Lex(expr).Err? ==> Expand(expr, asWritten) == Err(Lex(expr).error)
    ensures Expand(expr, asWritten).Ok? ==>
              var e := Expand(expr, asWritten).value;
              (!asWritten ==> IsSumOfProducts(e.root) && IsNegationFree(e.root)) &&
              WellFormedNode(e.root) &&
              e.asString == Render(e.root) && e.variables == Vars(e.root) &&
              (forall c :: c in e.variables ==> IsValid(c)) &&
              forall env :: Eval(e.root, env) == Eval(ParsedTree(expr).value, env)
    ensures !asWritten && ParsedTree(expr).Ok? ==> Flattened(expr, false)
  {
    if Expand(expr, asWritten).Ok? {
      var ts := Lex(expr).value;
      LexWellFormed(expr);
      ExpressionWellFormed(ts, 0);
      var n := ParsedTree(expr).value;
      WellFormedVars(n);
      WellFormedFromVars(TransformIntoDnf(n, asWritten));
      forall env
        ensures Eval(TransformIntoDnf(n, asWritten), env) == Eval(n, env)
      {
        TransformIntoDnfPreservesEval(n, asWritten, env);
      }
    }
  }

  /** A tree is well formed exactly when every variable it mentions is a letter A-Z. */
  lemma {:induction false} WellFormedVars(n: Node)
    requires WellFormedNode(n)
    ensures forall c :: c in Vars(n) ==> IsValid(c)
  {
    match n
    case LiteralNode(_) =>
    case ComplementNode(_) =>
    case And(l, r) => WellFormedVars(l); WellFormedVars(r);
    case Or(l, r) => WellFormedVars(l); WellFormedVars(r);
    case Not(x) => WellFormedVars(x);
  }

  lemma {:induction false} WellFormedFromVars(n: Node)
    requires forall c :: c in Vars(n) ==> IsValid(c)
    ensures WellFormedNode(n)
  {
    match n
    case LiteralNode(_) =>
    case ComplementNode(_) =>
    case And(l, r) => WellFormedFromVars(l); WellFormedFromVars(r);
    case Or(l, r) => WellFormedFromVars(l); WellFormedFromVars(r);
    case Not(x) => WellFormedFromVars(x);
  }

  // ---------------------------------------------------------------------------------
  // How the reducer reads `AsString`

  /** The renderings of some factors. */
  function RenderAll(fs: seq<Node>): (r: seq<string>)
    ensures |r| == |fs|
  {
    seq(|fs|, i requires 0 <= i < |fs| => Render(fs[i]))
  }

  /** A product of factors written with `*` between them. */
  function ShowProduct(fs: seq<Node>): string {
    Join(RenderAll(fs), AND)
  }

  /** A sum of products, one text per product. */
  function ShowAll(ps: seq<seq<Node>>): (r: seq<string>)
    ensures |r| == |ps|
  {
    seq(|ps|, i requires 0 <= i < |ps| => ShowProduct(ps[i]))
  }

  lemma RenderAllAppend(a: seq<Node>, b: seq<Node>)
    ensures RenderAll(a + b) == RenderAll(a) + RenderAll(b)
  {
    assert forall i :: 0 <= i < |a + b| ==> RenderAll(a + b)[i] == (RenderAll(a) + RenderAll(b))[i];
  }

  lemma ShowAllAppend(a: seq<seq<Node>>, b: seq<seq<Node>>)
    ensures ShowAll(a + b) == ShowAll(a) + ShowAll(b)
  {
    assert forall i :: 0 <= i < |a + b| ==> ShowAll(a + b)[i] == (ShowAll(a) + ShowAll(b))[i];
  }

  lemma ShowAllPrefix(a: seq<seq<Node>>, k: nat)
    requires k <= |a|
    ensures ShowAll(a[..k]) == ShowAll(a)[..k] && ShowAll(a[k..]) == ShowAll(a)[k..]
  {
  }

  /** A factor as the reducer meets it: a literal or a complemented literal of a letter in `vs`. */
  predicate LeafIn(f: Node, vs: set<char>) {
    IsTerminal(f) && IsValid(f.v) && f.v in vs
  }

  predicate AllLeavesIn(ps: seq<seq<Node>>, vs: set<char>) {
    forall i, j :: 0 <= i < |ps| && 0 <= j < |ps[i]| ==> LeafIn(ps[i][j], vs)
  }

  /** Without `Not` nodes every factor of the reading is a leaf of the tree. */
  lemma {:induction false} ReadingLeaves(n: Node)
    requires WellFormedNode(n) && !HasNot(n)
    ensures AllLeavesIn(Reading(n), Vars(n))
  {
    match n
    case LiteralNode(_) =>
    case ComplementNode(_) =>
    case Or(l, r) =>
      ReadingLeaves(l);
      ReadingLeaves(r);
      LeavesWiden(Reading(l), Vars(l), Vars(n));
      LeavesWiden(Reading(r), Vars(r), Vars(n));
      LeavesAppend(Reading(l), Reading(r), Vars(n));
    case And(l, r) =>
      ReadingLeaves(l);
      ReadingLeaves(r);
      LeavesWiden(Reading(l), Vars(l), Vars(n));
      LeavesWiden(Reading(r), Vars(r), Vars(n));
      LeavesGlued(Reading(l), Reading(r), Vars(n));
  }

  lemma LeavesWiden(ps: seq<seq<Node>>, vs: set<char>, ws: set<char>)
    requires AllLeavesIn(ps, vs) && vs <= ws
    ensures AllLeavesIn(ps, ws)
  {
    forall i, j | 0 <= i < |ps| && 0 <= j < |ps[i]|
      ensures LeafIn(ps[i][j], ws)
    {
      assert LeafIn(ps[i][j], vs);
    }
  }

  lemma LeavesAppend(a: seq<seq<Node>>, b: seq<seq<Node>>, vs: set<char>)
    requires AllLeavesIn(a, vs) && AllLeavesIn(b, vs)
    ensures AllLeavesIn(a + b, vs)
  {
    forall i, j | 0 <= i < |a + b| && 0 <= j < |(a + b)[i]|
      ensures LeafIn((a + b)[i][j], vs)
    {
      if i < |a| {
        assert LeafIn(a[i][j], vs);
      } else {
        assert LeafIn(b[i - |a|][j], vs);
      }
    }
  }

  /** The last product of `a` joined with the first of `b`, as a product's reading is. */
  lemma LeavesGlued(a: seq<seq<Node>>, b: seq<seq<Node>>, vs: set<char>)
    requires AllLeavesIn(a, vs) && AllLeavesIn(b, vs) && a != [] && b != []
    ensures AllLeavesIn(a[..|a| - 1] + [a[|a| - 1] + b[0]] + b[1..], vs)
  {
    var k := |a| - 1;
    var ps := a[..k] + [a[k] + b[0]] + b[1..];
    forall i, j | 0 <= i < |ps| && 0 <= j < |ps[i]|
      ensures LeafIn(ps[i][j], vs)
    {
      if i < k {
        assert ps[i] == a[i];
        assert LeafIn(a[i][j], vs);
      } else if i == k {
        assert ps[i] == a[k] + b[0];
        if j < |a[k]| {
          assert LeafIn(a[k][j], vs);
        } else {
          assert LeafIn(b[0][j - |a[k]|], vs);
        }
      } else {
        assert ps[i] == b[i - k];
        assert LeafIn(b[i - k][j], vs);
      }
    }
  }

  /** Splitting the rendering of a negation-free tree at `+` gives its reading's products,
      each written with `*` between its factors. */
  lemma {:induction false} RenderSplit(n: Node)
    requires WellFormedNode(n) && !HasNot(n)
    ensures Split(Render(n), OR) == ShowAll(Reading(n))
  {
    match n
    case LiteralNode(v) =>
      SplitNoSep(Render(n), OR);
      assert ShowAll(Reading(n)) == [Join([Render(n)], AND)];
    case ComplementNode(v) =>
      SplitNoSep(Render(n), OR);
      assert ShowAll(Reading(n)) == [Join([Render(n)], AND)];
    case Or(l, r) =>
      RenderSplit(l);
      RenderSplit(r);
      SplitAtSep(Render(l), Render(r), OR);
      ShowAllAppend(Reading(l), Reading(r));
    case And(l, r) =>
      RenderSplit(l);
      RenderSplit(r);
      RenderSplitAnd(l, r);
  }

  /** The `And` case of `RenderSplit`: the last term of the left operand and the first of
      the right one are joined by `*` into one term. */
  lemma RenderSplitAnd(l: Node, r: Node)
    requires WellFormedNode(And(l, r)) && !HasNot(And(l, r))
    requires Split(Render(l), OR) == ShowAll(Reading(l))
    requires Split(Render(r), OR) == ShowAll(Reading(r))
    ensures Split(Render(And(l, r)), OR) == ShowAll(Reading(And(l, r)))
  {
    SplitAtOther(Render(l), AND, Render(r), OR);
    JoinedTerms(Reading(l), Reading(r));
    assert Render(And(l, r)) == Render(l) + [AND] + Render(r);
  }

  /** Showing two sums whose last and first products are multiplied together. */
  lemma JoinedTerms(a: seq<seq<Node>>, b: seq<seq<Node>>)
    requires a != [] && b != [] && a[|a| - 1] != [] && b[0] != []
    ensures ShowAll(a[..|a| - 1] + [a[|a| - 1] + b[0]] + b[1..]) == Glue(ShowAll(a), AND, ShowAll(b))
  {
    var k := |a| - 1;
    var sa, sb := ShowAll(a), ShowAll(b);
    RenderAllAppend(a[k], b[0]);
    JoinAppend(RenderAll(a[k]), RenderAll(b[0]), AND);
    assert ShowProduct(a[k] + b[0]) == sa[k] + [AND] + sb[0];
    ShowAllAppend(a[..k] + [a[k] + b[0]], b[1..]);
    ShowAllAppend(a[..k], [a[k] + b[0]]);
    ShowAllPrefix(a, k);
    ShowAllPrefix(b, 1);
    assert ShowAll([a[k] + b[0]]) == [sa[k] + [AND] + sb[0]];
  }

  /** Splitting a product at `*` gives its factors' renderings. */
  lemma ProductSplit(fs: seq<Node>, vs: set<char>)
    requires |fs| > 0 && forall j :: 0 <= j < |fs| ==> LeafIn(fs[j], vs)
    ensures Split(ShowProduct(fs), AND) == RenderAll(fs)
  {
    forall j | 0 <= j < |fs|
      ensures AND !in RenderAll(fs)[j]
    {
      assert LeafIn(fs[j], vs);
    }
    SplitJoin(RenderAll(fs), AND);
  }

  /** When the rewritten tree has no `Not` (always, with the corrected rewrite), the terms
      of `AsString` are the products of its reading, and the factors of each term are the
      renderings of that product's leaves. */
  lemma TermsOfExpansion(expr: string, asWritten: bool)
    requires Expand(expr, asWritten).Ok? && IsNegationFree(Expand(expr, asWritten).value.root)
    ensures var e := Expand(expr, asWritten).value;
            var ps := Reading(e.root);
            Split(e.asString, OR) == ShowAll(ps) && AllLeavesIn(ps, e.variables) &&
            forall i :: 0 <= i < |ps| ==> Split(ShowAll(ps)[i], AND) == RenderAll(ps[i])
  {
    ExpandCorrect(expr, asWritten);
    var e := Expand(expr, asWritten).value;
    RenderSplit(e.root);
    ReadingLeaves(e.root);
    var ps := Reading(e.root);
    forall i | 0 <= i < |ps|
      ensures Split(ShowAll(ps)[i], AND) == RenderAll(ps[i])
    {
      ProductSplit(ps[i], e.variables);
    }
  }
}
