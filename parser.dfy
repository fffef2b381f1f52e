/** The recursive-descent parser of `ExpandedBooleanExpression`:
      expression = term { + term }
      term       = factor { * factor }
      factor     = atom { ' }
      atom       = letter | ( expression )
    The token stream is a sequence read through an index. As with a list enumerator, the
    current token is absent at the end and advancing there stays put. */
module Parser {
  import opened Tokens
  import opened Nodes

  function Current(ts: seq<Token>, p: nat): Option<Token> {
    if p < |ts| then Some(ts[p]) else None
  }

  /** `MoveNext`. */
  function Advance(ts: seq<Token>, p: nat): nat {
    if p < |ts| then p + 1 else p
  }

  predicate IsOrAt(ts: seq<Token>, p: nat) { p < |ts| && ts[p].OrOp? }
  predicate IsAndAt(ts: seq<Token>, p: nat) { p < |ts| && ts[p].AndOp? }
  predicate IsNotAt(ts: seq<Token>, p: nat) { p < |ts| && ts[p].NotOp? }
  predicate IsRightParenAt(ts: seq<Token>, p: nat) { p < |ts| && ts[p].RightParen? }

  /** Every literal token of the stream holds a valid letter, as every lexed stream does. */
  predicate AllWellFormed(ts: seq<Token>) {
    forall i :: 0 <= i < |ts| ==> WellFormed(ts[i])
  }

  /** A parsed tree together with the index of the first token not consumed. */
  type Parsed = Result<(Node, nat)>

  // The grammar as mutually recursive functions. Each one either fails or consumes at
  // least one token; the `...Tail` functions are the `while` loops, one round per call.

  function ParseExpression(ts: seq<Token>, p: nat): (r: Parsed)
    requires p <= |ts|
    ensures r.Ok? ==> p < r.value.1 <= |ts|
    decreases |ts| - p, 3
  {
    match ParseTerm(ts, p)
    case Err(e) => Err(e)
    case Ok((n, q)) => ExpressionTail(ts, n, q)
  }

  function ExpressionTail(ts: seq<Token>, acc: Node, p: nat): (r: Parsed)
    requires p <= |ts|
    ensures r.Ok? ==> p <= r.value.1 <= |ts|
    decreases |ts| - p, 3
  {
    if !IsOrAt(ts, p) then Ok((acc, p))
    else
      match ParseTerm(ts, p + 1)
      case Err(e) => Err(e)
      case Ok((n, q)) => ExpressionTail(ts, Or(acc, n), q)
  }

  function ParseTerm(ts: seq<Token>, p: nat): (r: Parsed)
    requires p <= |ts|
    ensures r.Ok? ==> p < r.value.1 <= |ts|
    decreases |ts| - p, 2
  {
    match ParseFactor(ts, p)
    case Err(e) => Err(e)
    case Ok((n, q)) => TermTail(ts, n, q)
  }

  function TermTail(ts: seq<Token>, acc: Node, p: nat): (r: Parsed)
    requires p <= |ts|
    ensures r.Ok? ==> p <= r.value.1 <= |ts|
    decreases |ts| - p, 2
  {
    if !IsAndAt(ts, p) then Ok((acc, p))
    else
      match ParseFactor(ts, p + 1)
      case Err(e) => Err(e)
      case Ok((n, q)) => TermTail(ts, And(acc, n), q)
  }

  function ParseFactor(ts: seq<Token>, p: nat): (r: Parsed)
    requires p <= |ts|
    ensures r.Ok? ==> p < r.value.1 <= |ts|
    decreases |ts| - p, 1
  {
    match ParseAtom(ts, p)
    case Err(e) => Err(e)
    case Ok((n, q)) => FactorTail(ts, n, q)
  }

  function FactorTail(ts: seq<Token>, acc: Node, p: nat): (r: Parsed)
    requires p <= |ts|
    ensures r.Ok? ==> p <= r.value.1 <= |ts|
    decreases |ts| - p, 1
  {
    if !IsNotAt(ts, p) then Ok((acc, p))
    else FactorTail(ts, Not(acc), p + 1)
  }

  /** `Literal()`: the token is taken and the stream advanced before the kind is examined,
      so the "parsing literal" error reports the token after the offending one. */
  function ParseAtom(ts: seq<Token>, p: nat): (r: Parsed)
    requires p <= |ts|
    ensures r.Ok? ==> p < r.value.1 <= |ts|
    decreases |ts| - p, 0
  {
    var t := Current(ts, p);
    var q := Advance(ts, p);
    if t.Some? && t.value.LeftParen? then
      match ParseExpression(ts, q)
      case Err(e) => Err(e)
      case Ok((n, q')) =>
        if IsRightParenAt(ts, q') then Ok((n, q' + 1))
        else Err(MalformedExpression(ExpectedRightParen, Current(ts, q')))
    else if t.Some? && t.value.Literal? then
      Ok((LiteralNode(t.value.letter), q))
    else
      Err(MalformedExpression(ParsingLiteral, Current(ts, q)))
  }

  /** A method's result and final index, in the shape of the functions above. */
  function Outcome(r: Result<Node>, p: nat): Parsed {
    match r
    case Ok(n) => Ok((n, p))
    case Err(e) => Err(e)
  }

  /** The parser state: the token stream, the enumerator position and the variables seen. */
  class Parser {
    const tokens: seq<Token>
    var pos: nat
    var variables: set<char>

    /** `Parse` before the first call: the enumerator is moved onto the first token and
        the variable set cleared. */
    constructor(ts: seq<Token>)
      ensures tokens == ts && pos == 0 && variables == {}
    {
      tokens := ts;
      pos := 0;
      variables := {};
    }

    method Expression() returns (r: Result<Node>)
      requires pos <= |tokens|
      modifies this
      decreases |tokens| - pos, 3
      ensures pos <= |tokens|
      ensures Outcome(r, pos) == ParseExpression(tokens, old(pos))
      ensures r.Ok? ==> variables == old(variables) + Vars(r.value)
    {
      var t := Term();
      if t.Err? {
        return Err(t.error);
      }
      var n := t.value;
      while pos < |tokens| && tokens[pos].OrOp?
        invariant pos <= |tokens|
        invariant ExpressionTail(tokens, n, pos) == ParseExpression(tokens, old(pos))
        invariant variables == old(variables) + Vars(n)
        decreases |tokens| - pos
      {
        pos := pos + 1;
        var right := Term();
        if right.Err? {
          return Err(right.error);
        }
        n := Or(n, right.value);
      }
      r := Ok(n);
    }

    method Term() returns (r: Result<Node>)
      requires pos <= |tokens|
      modifies this
      decreases |tokens| - pos, 2
      ensures pos <= |tokens|
      ensures Outcome(r, pos) == ParseTerm(tokens, old(pos))
      ensures r.Ok? ==> variables == old(variables) + Vars(r.value)
    {
      var f := Factor();
      if f.Err? {
        return Err(f.error);
      }
      var n := f.value;
      while pos < |tokens| && tokens[pos].AndOp?
        invariant pos <= |tokens|
        invariant TermTail(tokens, n, pos) == ParseTerm(tokens, old(pos))
        invariant variables == old(variables) + Vars(n)
        decreases |tokens| - pos
      {
        pos := pos + 1;
        var right := Factor();
        if right.Err? {
          return Err(right.error);
        }
        n := And(n, right.value);
      }
      r := Ok(n);
    }

    method Factor() returns (r: Result<Node>)
      requires pos <= |tokens|
      modifies this
      decreases |tokens| - pos, 1
      ensures pos <= |tokens|
      ensures Outcome(r, pos) == ParseFactor(tokens, old(pos))
      ensures r.Ok? ==> variables == old(variables) + Vars(r.value)
    {
      var a := Atom();
      if a.Err? {
        return Err(a.error);
      }
      var n := a.value;
      while pos < |tokens| && tokens[pos].NotOp?
        invariant pos <= |tokens|
        invariant FactorTail(tokens, n, pos) == ParseFactor(tokens, old(pos))
        invariant variables == old(variables) + Vars(n)
        decreases |tokens| - pos
      {
        n := Not(n);
        pos := pos + 1;
      }
      r := Ok(n);
    }

    /** `Literal()` in the source. */
    method Atom() returns (r: Result<Node>)
      requires pos <= |tokens|
      modifies this
      decreases |tokens| - pos, 0
      ensures pos <= |tokens|
      ensures Outcome(r, pos) == ParseAtom(tokens, old(pos))
      ensures r.Ok? ==> variables == old(variables) + Vars(r.value)
    {
      var t := Current(tokens, pos);
      pos := Advance(tokens, pos);
      if t.Some? && t.value.LeftParen? {
        var e := Expression();
        if e.Err? {
          return Err(e.error);
        }
        if pos < |tokens| && tokens[pos].RightParen? {
          pos := pos + 1;
          r := Ok(e.value);
        } else {
          r := Err(MalformedExpression(ExpectedRightParen, Current(tokens, pos)));
        }
      } else if t.Some? && t.value.Literal? {
        variables := variables + {t.value.letter};
        r := Ok(LiteralNode(t.value.letter));
      } else {
        r := Err(MalformedExpression(ParsingLiteral, Current(tokens, pos)));
      }
    }
  }

  // A printer for parser-shaped trees, fully parenthesised where the grammar needs it, and
  // the round trip that pins the parser down: parsing a printed tree gives the tree back.

  /** The trees the parser builds: it never makes a complement leaf. */
  predicate NoComplement(n: Node) {
    match n
    case LiteralNode(_) => true
    case ComplementNode(_) => false
    case And(l, r) => NoComplement(l) && NoComplement(r)
    case Or(l, r) => NoComplement(l) && NoComplement(r)
    case Not(x) => NoComplement(x)
  }

  function PrintExpression(n: Node): seq<Token>
    decreases n, 2
  {
    match n
    case Or(l, r) => PrintExpression(l) + [OrOp] + PrintTerm(r)
    case _ => PrintTerm(n)
  }

  function PrintTerm(n: Node): seq<Token>
    decreases n, 1
  {
    match n
    case And(l, r) => PrintTerm(l) + [AndOp] + PrintFactor(r)
    case _ => PrintFactor(n)
  }

  /** A sum or a product in factor position is enclosed in parentheses. */
  function PrintFactor(n: Node): seq<Token>
    decreases n, 0
  {
    match n
    case LiteralNode(v) => [Literal(v)]
    case ComplementNode(v) => [Literal(v), NotOp]
    case Not(x) => PrintFactor(x) + [NotOp]
    case Or(l, r) => [LeftParen] + PrintExpression(l) + [OrOp] + PrintTerm(r) + [RightParen]
    case And(l, r) => [LeftParen] + PrintTerm(l) + [AndOp] + PrintFactor(r) + [RightParen]
  }

  /** The tokens u occur in ts from index p on, read token by token. */
  predicate OccursAt(ts: seq<Token>, p: nat, u: seq<Token>)
    ensures OccursAt(ts, p, u) ==> p + |u| <= |ts|
    decreases |u|
  {
    if u == [] then p <= |ts| else p < |ts| && ts[p] == u[0] && OccursAt(ts, p + 1, u[1..])
  }

  /** A slice of ts is an occurrence. */
  lemma {:induction false} OccursSlice(ts: seq<Token>, p: nat, u: seq<Token>)
    requires p + |u| <= |ts| && ts[p..p + |u|] == u
    ensures OccursAt(ts, p, u)
    decreases |u|
  {
    if u != [] {
      assert ts[p] == u[0];
      assert ts[p + 1..p + 1 + |u[1..]|] == u[1..];
      OccursSlice(ts, p + 1, u[1..]);
    }
  }

  lemma {:induction false} OccursSplit(ts: seq<Token>, p: nat, a: seq<Token>, b: seq<Token>)
    requires OccursAt(ts, p, a + b)
    ensures OccursAt(ts, p, a) && OccursAt(ts, p + |a|, b)
    decreases |a|
  {
    if a == [] {
      assert a + b == b;
    } else {
      assert (a + b)[0] == a[0] && (a + b)[1..] == a[1..] + b;
      OccursSplit(ts, p + 1, a[1..], b);
    }
  }


  /** The layout of `a op b`, the shape of every binary rule. */
  lemma OccursBinary(ts: seq<Token>, p: nat, a: seq<Token>, op: Token, b: seq<Token>)
    requires OccursAt(ts, p, a + [op] + b)
    ensures OccursAt(ts, p, a) && p + |a| < |ts| && ts[p + |a|] == op
    ensures OccursAt(ts, p + |a| + 1, b)
  {
    OccursSplit(ts, p, a + [op], b);
    OccursSplit(ts, p, a, [op]);
  }

  /** The layout of a parenthesised `a op b`. */
  lemma OccursGroup(ts: seq<Token>, p: nat, a: seq<Token>, op: Token, b: seq<Token>)
    requires OccursAt(ts, p, [LeftParen] + a + [op] + b + [RightParen])
    ensures p < |ts| && ts[p] == LeftParen && OccursAt(ts, p + 1, a + [op] + b)
    ensures ts[p + 1 + |a + [op] + b|] == RightParen
  {
    assert [LeftParen] + a + [op] + b + [RightParen] == [LeftParen] + (a + [op] + b) + [RightParen];
    OccursSplit(ts, p, [LeftParen] + (a + [op] + b), [RightParen]);
    OccursSplit(ts, p, [LeftParen], a + [op] + b);
  }

  /** `( e )` is an atom once e has been parsed up to the closing parenthesis. */
  lemma AtomOfGroup(ts: seq<Token>, p: nat, n: Node, e: nat)
    requires p < |ts| && ts[p] == LeftParen && e < |ts| && ts[e] == RightParen
    requires ParseExpression(ts, p + 1) == Ok((n, e))
    ensures ParseAtom(ts, p) == Ok((n, e + 1))
  {
  }

  /** Once a term stops before a token that is no operator, so does the expression. */
  lemma ExpressionOfTerm(ts: seq<Token>, p: nat, n: Node, e: nat)
    requires p <= |ts| && e < |ts| && ts[e] == RightParen
    requires ParseTerm(ts, p) == Ok((n, e))
    ensures ParseExpression(ts, p) == Ok((n, e))
  {
  }

  /** One round of the product loop, ending before a closing parenthesis. */
  lemma TermTailLastStep(ts: seq<Token>, acc: Node, q: nat, f: Node, e: nat)
    requires q < |ts| && ts[q] == AndOp && e < |ts| && ts[e] == RightParen
    requires ParseFactor(ts, q + 1) == FactorTail(ts, f, e)
    ensures TermTail(ts, acc, q) == Ok((And(acc, f), e))
  {
    assert FactorTail(ts, f, e) == Ok((f, e));
    assert TermTail(ts, And(acc, f), e) == Ok((And(acc, f), e));
  }

  /** A parenthesised sum is one atom. */
  lemma {:induction false} GroupOrPrefix(l: Node, r: Node, ts: seq<Token>, p: nat)
    requires NoComplement(Or(l, r)) && OccursAt(ts, p, PrintFactor(Or(l, r)))
    ensures ParseAtom(ts, p) == Ok((Or(l, r), p + |PrintFactor(Or(l, r))|))
    decreases Or(l, r), 1
  {
    var a, b := PrintExpression(l), PrintTerm(r);
    OccursGroup(ts, p, a, OrOp, b);
    var e := p + 1 + |a| + 1 + |b|;
    SumInside(l, r, ts, p + 1, e);
    AtomOfGroup(ts, p, Or(l, r), e);
  }

  /** The sum between the parentheses of a group. */
  lemma {:induction false} SumInside(l: Node, r: Node, ts: seq<Token>, q: nat, e: nat)
    requires NoComplement(Or(l, r)) && OccursAt(ts, q, PrintExpression(l) + [OrOp] + PrintTerm(r))
    requires e == q + |PrintExpression(l)| + 1 + |PrintTerm(r)| && e < |ts| && ts[e] == RightParen
    ensures ParseExpression(ts, q) == Ok((Or(l, r), e))
    decreases Or(l, r), 0
  {
    var a, b := PrintExpression(l), PrintTerm(r);
    OccursBinary(ts, q, a, OrOp, b);
    var m := q + |a|;
    ExprPrefix(l, ts, q);
    TermPrefix(r, ts, m + 1);
    GroupedSum(ts, q, l, m, r, e);
  }

  /** Inside the parentheses: the left operand's sum, `+`, and the right term read up to
      the closing parenthesis form the whole expression. */
  lemma GroupedSum(ts: seq<Token>, q: nat, l: Node, m: nat, r: Node, e: nat)
    requires q <= m < |ts| && ts[m] == OrOp && e < |ts| && ts[e] == RightParen
    requires ParseExpression(ts, q) == ExpressionTail(ts, l, m)
    requires ParseTerm(ts, m + 1) == TermTail(ts, r, e)
    ensures ParseExpression(ts, q) == Ok((Or(l, r), e))
  {
    assert TermTail(ts, r, e) == Ok((r, e));
    assert ExpressionTail(ts, Or(l, r), e) == Ok((Or(l, r), e));
  }

  /** A parenthesised product is one atom. */
  lemma {:induction false} GroupAndPrefix(l: Node, r: Node, ts: seq<Token>, p: nat)
    requires NoComplement(And(l, r)) && OccursAt(ts, p, PrintFactor(And(l, r)))
    ensures ParseAtom(ts, p) == Ok((And(l, r), p + |PrintFactor(And(l, r))|))
    decreases And(l, r), 1
  {
    var a, b := PrintTerm(l), PrintFactor(r);
    OccursGroup(ts, p, a, AndOp, b);
    var e := p + 1 + |a| + 1 + |b|;
    ProductInside(l, r, ts, p + 1, e);
    AtomOfGroup(ts, p, And(l, r), e);
  }

  /** The product between the parentheses of a group. */
  lemma {:induction false} ProductInside(l: Node, r: Node, ts: seq<Token>, q: nat, e: nat)
    requires NoComplement(And(l, r)) && OccursAt(ts, q, PrintTerm(l) + [AndOp] + PrintFactor(r))
    requires e == q + |PrintTerm(l)| + 1 + |PrintFactor(r)| && e < |ts| && ts[e] == RightParen
    ensures ParseExpression(ts, q) == Ok((And(l, r), e))
    decreases And(l, r), 0
  {
    var a, b := PrintTerm(l), PrintFactor(r);
    OccursBinary(ts, q, a, AndOp, b);
    var m := q + |a|;
    TermPrefix(l, ts, q);
    FactorPrefix(r, ts, m + 1);
    GroupedProduct(ts, q, l, m, r, e);
  }

  /** Inside the parentheses: the left operand's term, `*`, and the right factor read up
      to the closing parenthesis form the whole expression. */
  lemma GroupedProduct(ts: seq<Token>, q: nat, l: Node, m: nat, r: Node, e: nat)
    requires q <= m < |ts| && ts[m] == AndOp && e < |ts| && ts[e] == RightParen
    requires ParseTerm(ts, q) == TermTail(ts, l, m)
    requires ParseFactor(ts, m + 1) == FactorTail(ts, r, e)
    ensures ParseExpression(ts, q) == Ok((And(l, r), e))
  {
    TermTailLastStep(ts, l, m, r, e);
    ExpressionOfTerm(ts, q, And(l, r), e);
  }

  lemma {:induction false} FactorPrefix(n: Node, ts: seq<Token>, p: nat)
    requires NoComplement(n) && OccursAt(ts, p, PrintFactor(n))
    ensures ParseFactor(ts, p) == FactorTail(ts, n, p + |PrintFactor(n)|)
    decreases n, 2
  {
    match n
    case LiteralNode(v) =>
      assert ts[p] == PrintFactor(n)[0];
    case ComplementNode(_) =>
      assert false;
    case Not(x) =>
      OccursSplit(ts, p, PrintFactor(x), [NotOp]);
      FactorPrefix(x, ts, p);
    case Or(l, r) =>
      GroupOrPrefix(l, r, ts, p);
    case And(l, r) =>
      GroupAndPrefix(l, r, ts, p);
  }

  /** One round of the product loop, with the factor followed by no `'`. */
  lemma TermTailStep(ts: seq<Token>, p: nat, l: Node, m: nat, r: Node, e: nat)
    requires p <= m < |ts| && ts[m] == AndOp && e <= |ts| && !IsNotAt(ts, e)
    requires ParseTerm(ts, p) == TermTail(ts, l, m)
    requires ParseFactor(ts, m + 1) == FactorTail(ts, r, e)
    ensures ParseTerm(ts, p) == TermTail(ts, And(l, r), e)
  {
    assert FactorTail(ts, r, e) == Ok((r, e));
  }

  /** One round of the sum loop, with the term followed by neither `*` nor `'`. */
  lemma ExpressionTailStep(ts: seq<Token>, p: nat, l: Node, m: nat, r: Node, e: nat)
    requires p <= m < |ts| && ts[m] == OrOp && e <= |ts| && !IsNotAt(ts, e) && !IsAndAt(ts, e)
    requires ParseExpression(ts, p) == ExpressionTail(ts, l, m)
    requires ParseTerm(ts, m + 1) == TermTail(ts, r, e)
    ensures ParseExpression(ts, p) == ExpressionTail(ts, Or(l, r), e)
  {
    assert TermTail(ts, r, e) == Ok((r, e));
  }

  /** A product read by the term loop, followed by no `'`. */
  lemma {:induction false} ProductPrefix(l: Node, r: Node, ts: seq<Token>, p: nat)
    requires NoComplement(And(l, r)) && OccursAt(ts, p, PrintTerm(l) + [AndOp] + PrintFactor(r))
    requires !IsNotAt(ts, p + |PrintTerm(l)| + 1 + |PrintFactor(r)|)
    ensures ParseTerm(ts, p) == TermTail(ts, And(l, r), p + |PrintTerm(l)| + 1 + |PrintFactor(r)|)
    decreases And(l, r), 2
  {
    var a, b := PrintTerm(l), PrintFactor(r);
    OccursBinary(ts, p, a, AndOp, b);
    var m := p + |a|;
    TermPrefix(l, ts, p);
    FactorPrefix(r, ts, m + 1);
    TermTailStep(ts, p, l, m, r, m + 1 + |b|);
  }

  /** A sum read by the expression loop, followed by neither `*` nor `'`. */
  lemma {:induction false} SumPrefix(l: Node, r: Node, ts: seq<Token>, p: nat)
    requires NoComplement(Or(l, r)) && OccursAt(ts, p, PrintExpression(l) + [OrOp] + PrintTerm(r))
    requires var e := p + |PrintExpression(l)| + 1 + |PrintTerm(r)|; !IsNotAt(ts, e) && !IsAndAt(ts, e)
    ensures ParseExpression(ts, p) == ExpressionTail(ts, Or(l, r), p + |PrintExpression(l)| + 1 + |PrintTerm(r)|)
    decreases Or(l, r), 3
  {
    var a, b := PrintExpression(l), PrintTerm(r);
    OccursBinary(ts, p, a, OrOp, b);
    var m := p + |a|;
    ExprPrefix(l, ts, p);
    TermPrefix(r, ts, m + 1);
    ExpressionTailStep(ts, p, l, m, r, m + 1 + |b|);
  }

  lemma {:induction false} TermPrefix(n: Node, ts: seq<Token>, p: nat)
    requires NoComplement(n) && OccursAt(ts, p, PrintTerm(n))
    requires !IsNotAt(ts, p + |PrintTerm(n)|)
    ensures ParseTerm(ts, p) == TermTail(ts, n, p + |PrintTerm(n)|)
    decreases n, 3
  {
    match n
    case And(l, r) =>
      ProductPrefix(l, r, ts, p);
    case LiteralNode(_) =>
      FactorPrefix(n, ts, p);
    case ComplementNode(_) =>
      assert false;
    case Not(_) =>
      FactorPrefix(n, ts, p);
    case Or(_, _) =>
      FactorPrefix(n, ts, p);
  }

  lemma {:induction false} ExprPrefix(n: Node, ts: seq<Token>, p: nat)
    requires NoComplement(n) && OccursAt(ts, p, PrintExpression(n))
    requires !IsNotAt(ts, p + |PrintExpression(n)|) && !IsAndAt(ts, p + |PrintExpression(n)|)
    ensures ParseExpression(ts, p) == ExpressionTail(ts, n, p + |PrintExpression(n)|)
    decreases n, 4
  {
    match n
    case Or(l, r) =>
      SumPrefix(l, r, ts, p);
    case LiteralNode(_) =>
      TermPrefix(n, ts, p);
    case ComplementNode(_) =>
      assert false;
    case Not(_) =>
      TermPrefix(n, ts, p);
    case And(_, _) =>
      TermPrefix(n, ts, p);
  }

  /** Parsing a printed tree gives the tree back and consumes exactly its tokens; whatever
      follows is left unread unless it could continue the expression. */
  lemma ParsePrintRoundTrip(n: Node, rest: seq<Token>)
    requires NoComplement(n)
    requires rest == [] || !(rest[0].OrOp? || rest[0].AndOp? || rest[0].NotOp?)
    ensures ParseExpression(PrintExpression(n) + rest, 0) == Ok((n, |PrintExpression(n)|))
  {
    var ts := PrintExpression(n) + rest;
    assert ts[0..|PrintExpression(n)|] == PrintExpression(n);
    OccursSlice(ts, 0, PrintExpression(n));
    ExprPrefix(n, ts, 0);
  }

  /** k nested `Not` nodes. */
  function Nots(n: Node, k: nat): Node {
    if k == 0 then n else Not(Nots(n, k - 1))
  }

  /** The negation loop wraps the atom once per `'` token and stops at the first other token. */
  lemma {:induction false} FactorTailNots(ts: seq<Token>, acc: Node, p: nat, k: nat)
    requires p + k <= |ts|
    requires forall i :: p <= i < p + k ==> ts[i] == NotOp
    requires !IsNotAt(ts, p + k)
    ensures FactorTail(ts, acc, p) == Ok((Nots(acc, k), p + k))
    decreases k
  {
    if k > 0 {
      FactorTailNots(ts, Not(acc), p + 1, k - 1);
      NotsOutside(acc, k - 1);
    }
  }

  lemma {:induction false} NotsOutside(n: Node, k: nat)
    ensures Nots(Not(n), k) == Not(Nots(n, k))
  {
    if k > 0 {
      NotsOutside(n, k - 1);
    }
  }

  /** A letter followed by k `'` tokens is one factor: the literal under k negations. */
  lemma LetterWithNots(ts: seq<Token>, p: nat, v: char, k: nat)
    requires p + 1 + k <= |ts| && ts[p] == Literal(v)
    requires forall i :: p + 1 <= i < p + 1 + k ==> ts[i] == NotOp
    requires !IsNotAt(ts, p + 1 + k)
    ensures ParseFactor(ts, p) == Ok((Nots(LiteralNode(v), k), p + 1 + k))
  {
    FactorTailNots(ts, LiteralNode(v), p + 1, k);
  }

  /** `N''` parses as a doubly negated literal. */
  lemma ExampleDoubleNegation()
    ensures ParseExpression([Literal('N'), NotOp, NotOp], 0) == Ok((Not(Not(LiteralNode('N'))), 3))
  {
    var ts := [Literal('N'), NotOp, NotOp];
    LetterWithNots(ts, 0, 'N', 2);
    assert Nots(LiteralNode('N'), 2) == Not(Not(LiteralNode('N')));
  }

  /** Sums nest to the left: `A+B+C` is `(A+B)+C`. */
  lemma ExampleLeftNestedSum()
    ensures ParseExpression([Literal('A'), OrOp, Literal('B'), OrOp, Literal('C')], 0)
         == Ok((Or(Or(LiteralNode('A'), LiteralNode('B')), LiteralNode('C')), 5))
  {
    var n := Or(Or(LiteralNode('A'), LiteralNode('B')), LiteralNode('C'));
    ParsePrintRoundTrip(n, []);
    assert PrintExpression(n) + [] == [Literal('A'), OrOp, Literal('B'), OrOp, Literal('C')];
  }

  /** Products nest to the left and bind tighter than sums: `A*B*C+D` is `((A*B)*C)+D`. */
  lemma ExampleLeftNestedProduct()
    ensures ParseExpression([Literal('A'), AndOp, Literal('B'), AndOp, Literal('C'), OrOp, Literal('D')], 0)
         == Ok((Or(And(And(LiteralNode('A'), LiteralNode('B')), LiteralNode('C')), LiteralNode('D')), 7))
  {
    var ab := And(LiteralNode('A'), LiteralNode('B'));
    var abc := And(ab, LiteralNode('C'));
    var n := Or(abc, LiteralNode('D'));
    assert PrintTerm(ab) == [Literal('A'), AndOp, Literal('B')];
    assert PrintTerm(abc) == [Literal('A'), AndOp, Literal('B'), AndOp, Literal('C')];
    assert PrintExpression(n) + [] == [Literal('A'), AndOp, Literal('B'), AndOp, Literal('C'), OrOp, Literal('D')];
    ParsePrintRoundTrip(n, []);
  }

  /** Tokens after a complete expression are never examined: `A)` parses as `A`. */
  lemma ExampleTrailingTokens()
    ensures ParseExpression([Literal('A'), RightParen], 0) == Ok((LiteralNode('A'), 1))
  {
    ParsePrintRoundTrip(LiteralNode('A'), [RightParen]);
    assert PrintExpression(LiteralNode('A')) + [RightParen] == [Literal('A'), RightParen];
  }

  /** `((A)`: the outer group is never closed. */
  lemma ExampleMissingRightParen()
    ensures ParseExpression([LeftParen, LeftParen, Literal('A'), RightParen], 0)
         == Err(MalformedExpression(ExpectedRightParen, None))
  {
    var ts := [LeftParen, LeftParen, Literal('A'), RightParen];
    assert ParseExpression(ts, 2) == Ok((LiteralNode('A'), 3));
    assert ParseAtom(ts, 1) == Ok((LiteralNode('A'), 4));
    assert ParseExpression(ts, 1) == Ok((LiteralNode('A'), 4));
  }

  /** `+A+B`: an operator where an atom is expected; the error names the token after it. */
  lemma ExampleLeadingOperator()
    ensures ParseExpression([OrOp, Literal('A'), OrOp, Literal('B')], 0)
         == Err(MalformedExpression(ParsingLiteral, Some(Literal('A'))))
  {
  }

  /** `'(AB)`: a leading `'` is not an atom either. */
  lemma ExampleLeadingNot()
    ensures ParseExpression([NotOp, LeftParen, Literal('A'), AndOp, Literal('B'), RightParen], 0)
         == Err(MalformedExpression(ParsingLiteral, Some(LeftParen)))
  {
  }

  /** `A+(BC)+`: the input ends where a term is expected. */
  lemma ExampleTrailingOperator()
    ensures ParseExpression([Literal('A'), OrOp, LeftParen, Literal('B'), AndOp, Literal('C'), RightParen, OrOp], 0)
         == Err(MalformedExpression(ParsingLiteral, None))
  {
    var ts := [Literal('A'), OrOp, LeftParen, Literal('B'), AndOp, Literal('C'), RightParen, OrOp];
    var bc := And(LiteralNode('B'), LiteralNode('C'));
    var n := Or(LiteralNode('A'), bc);
    assert ts[2..7] == PrintFactor(bc);
    OccursSlice(ts, 2, PrintFactor(bc));
    GroupAndPrefix(LiteralNode('B'), LiteralNode('C'), ts, 2);
    assert ParseTerm(ts, 2) == Ok((bc, 7));
    assert ParseTerm(ts, 0) == Ok((LiteralNode('A'), 1));
    assert ParseTerm(ts, 8) == Err(MalformedExpression(ParsingLiteral, None));
    assert ExpressionTail(ts, n, 7) == Err(MalformedExpression(ParsingLiteral, None));
    assert ExpressionTail(ts, LiteralNode('A'), 1) == ExpressionTail(ts, n, 7);
  }

  /** An atom position holding anything but `(` or a letter fails with "parsing literal",
      reporting the token after it; a letter there always succeeds. */
  lemma AtomErrors(ts: seq<Token>, p: nat)
    requires p <= |ts|
    ensures Current(ts, p).Some? && Current(ts, p).value.Literal? ==>
              ParseAtom(ts, p) == Ok((LiteralNode(ts[p].letter), p + 1))
    ensures !(Current(ts, p).Some? && (Current(ts, p).value.Literal? || Current(ts, p).value.LeftParen?)) ==>
              ParseAtom(ts, p) == Err(MalformedExpression(ParsingLiteral, Current(ts, Advance(ts, p))))
  {
  }
}
