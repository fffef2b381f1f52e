/** The lexer: scans an expression left to right into tokens, inserting the AND that
    juxtaposition leaves implicit. */
module Lexer {
  import opened Tokens

  /** The characters the lexer accepts: the five operator characters and the letters. */
  predicate LexicalChar(c: char) {
    c == AND || c == OR || c == NOT || c == LEFT_PAREN || c == RIGHT_PAREN || IsValid(c)
  }

  /** The token one character stands for: the branches of the scanning switch. */
  function Classify(c: char): (r: Result<Token>)
    ensures r.Ok? <==> LexicalChar(c)
    ensures r.Ok? ==> Value(r.value) == c && WellFormed(r.value)
    ensures r.Err? ==> r.error == InvalidCharacter(c)
  {
    if c == AND then Ok(AndOp)
    else if c == OR then Ok(OrOp)
    else if c == LEFT_PAREN then Ok(LeftParen)
    else if c == RIGHT_PAREN then Ok(RightParen)
    else if c == NOT then Ok(NotOp)
    else NewLiteral(c)
  }

  /** An AND is inserted before `(` or a literal when the previous token was `)`, a literal or `'`. */
  predicate InsertsAnd(prev: Option<Token>, t: Token) {
    && (t.LeftParen? || t.Literal?)
    && prev.Some?
    && (prev.value.RightParen? || prev.value.Literal? || prev.value.NotOp?)
  }

  /** What one scanned token appends to the token list. */
  function Emit(prev: Option<Token>, t: Token): seq<Token> {
    if InsertsAnd(prev, t) then [AndOp, t] else [t]
  }

  /** The token made from the last character scanned (`prev`), or none at the start. */
  function Prev(s: string): Option<Token> {
    if s == [] then None
    else match Classify(s[|s| - 1])
      case Ok(t) => Some(t)
      case Err(_) => None
  }

  /** The token list of an input, defined prefix by prefix as the scanning loop builds it. */
  function Lex(s: string): Result<seq<Token>>
    decreases |s|
  {
    if s == [] then Ok([])
    else
      match Lex(s[..|s| - 1])
      case Err(e) => Err(e)
      case Ok(ts) =>
        match Classify(s[|s| - 1])
        case Err(e) => Err(e)
        case Ok(t) => Ok(ts + Emit(Prev(s[..|s| - 1]), t))
  }

  // A reference description of the output in terms of characters alone.

  /** An implicit AND goes before position i: a `(` or a letter after a `)`, a letter or a `'`. */
  predicate ImplicitAndAt(s: string, i: nat)
    requires i < |s|
  {
    && 0 < i
    && (s[i] == LEFT_PAREN || IsValid(s[i]))
    && (s[i - 1] == RIGHT_PAREN || IsValid(s[i - 1]) || s[i - 1] == NOT)
  }

  /** The number of implicit ANDs inserted before positions 0 .. k-1. */
  function AndsBefore(s: string, k: nat): nat
    requires k <= |s|
  {
    if k == 0 then 0 else AndsBefore(s, k - 1) + (if ImplicitAndAt(s, k - 1) then 1 else 0)
  }

  /** The index in the output of the token made from character i. */
  function Pos(s: string, i: nat): nat
    requires i < |s|
  {
    i + AndsBefore(s, i + 1)
  }

  /** Output index k holds the token of character i, or the implicit AND just before it. */
  predicate Slot(s: string, i: nat, k: nat)
    requires i < |s|
  {
    k == Pos(s, i) || (ImplicitAndAt(s, i) && k == Pos(s, i) - 1)
  }

  predicate Covered(s: string, k: nat) {
    exists i :: 0 <= i < |s| && Slot(s, i, k)
  }

  lemma {:induction false} AndsBeforePrefix(s: string, n: nat, k: nat)
    requires k <= n <= |s|
    ensures AndsBefore(s[..n], k) == AndsBefore(s, k)
  {
    if k > 0 {
      AndsBeforePrefix(s, n, k - 1);
    }
  }

  lemma {:induction false} LexErrSticky(s: string, k: nat)
    requires k <= |s| && Lex(s[..k]).Err?
    ensures Lex(s) == Lex(s[..k])
    decreases |s| - k
  {
    if k < |s| {
      assert s[..k + 1][..k] == s[..k];
      LexErrSticky(s, k + 1);
    } else {
      assert s[..k] == s;
    }
  }

  /** Lexing succeeds exactly when every character is an operator character or a letter. */
  lemma {:induction false} LexOkIff(s: string)
    ensures Lex(s).Ok? <==> forall i :: 0 <= i < |s| ==> LexicalChar(s[i])
    decreases |s|
  {
    if s != [] {
      var p := s[..|s| - 1];
      LexOkIff(p);
      assert forall i :: 0 <= i < |p| ==> p[i] == s[i];
    }
  }

  /** The first character outside the accepted set aborts lexing with InvalidCharacter naming it. */
  lemma {:induction false} LexErrorNamesFirstBadChar(s: string, k: nat)
    requires k < |s| && !LexicalChar(s[k])
    requires forall j :: 0 <= j < k ==> LexicalChar(s[j])
    ensures Lex(s) == Err(InvalidCharacter(s[k]))
  {
    var p := s[..k];
    LexOkIff(p);
    assert s[..k + 1][..k] == p;
    assert s[..k + 1][k] == s[k];
    LexErrSticky(s, k + 1);
  }

  /** How the output for a nonempty input extends the output for the input without its
      last character. */
  lemma LexStep(s: string)
    requires s != [] && Lex(s).Ok?
    ensures var n, p := |s| - 1, s[..|s| - 1];
            && Lex(p).Ok? && Classify(s[n]).Ok?
            && Lex(s).value == Lex(p).value + Emit(Prev(p), Classify(s[n]).value)
            && (InsertsAnd(Prev(p), Classify(s[n]).value) <==> ImplicitAndAt(s, n))
            && (forall k :: 0 <= k <= n ==> AndsBefore(p, k) == AndsBefore(s, k))
            && (forall i :: 0 <= i < n ==> Pos(p, i) == Pos(s, i) && ImplicitAndAt(p, i) == ImplicitAndAt(s, i) && p[i] == s[i])
  {
    var n := |s| - 1;
    forall k | 0 <= k <= n
      ensures AndsBefore(s[..n], k) == AndsBefore(s, k)
    {
      AndsBeforePrefix(s, n, k);
    }
  }

  /** The output has one token per character plus one per implicit AND. */
  lemma {:induction false} LexLength(s: string)
    requires Lex(s).Ok?
    ensures |Lex(s).value| == |s| + AndsBefore(s, |s|)
    decreases |s|
  {
    if s != [] {
      LexStep(s);
      LexLength(s[..|s| - 1]);
    }
  }

  /** The token of character i sits at Pos(s, i), preceded by AndOp when an AND is implicit
      there. */
  lemma {:induction false} LexTokens(s: string)
    requires Lex(s).Ok?
    ensures forall i :: 0 <= i < |s| ==>
              && Pos(s, i) < |Lex(s).value|
              && Classify(s[i]).Ok?
              && Lex(s).value[Pos(s, i)] == Classify(s[i]).value
              && (ImplicitAndAt(s, i) ==> Lex(s).value[Pos(s, i) - 1] == AndOp)
    decreases |s|
  {
    if s != [] {
      var n := |s| - 1;
      var p := s[..n];
      LexStep(s);
      LexTokens(p);
      LexLength(p);
      LexLength(s);
      var ts, out := Lex(p).value, Lex(s).value;
      forall i | 0 <= i < |s|
        ensures && Pos(s, i) < |out|
                && Classify(s[i]).Ok?
                && out[Pos(s, i)] == Classify(s[i]).value
                && (ImplicitAndAt(s, i) ==> out[Pos(s, i) - 1] == AndOp)
      {
        if i < n {
          assert out[Pos(s, i)] == ts[Pos(p, i)];
          if ImplicitAndAt(s, i) {
            assert out[Pos(s, i) - 1] == ts[Pos(p, i) - 1];
          }
        }
      }
    }
  }

  /** Every output index holds a character's token or the implicit AND before one. */
  lemma {:induction false} LexCovered(s: string)
    requires Lex(s).Ok?
    ensures forall k :: 0 <= k < |Lex(s).value| ==> Covered(s, k)
    decreases |s|
  {
    if s != [] {
      var n := |s| - 1;
      var p := s[..n];
      LexStep(s);
      LexCovered(p);
      LexLength(p);
      LexLength(s);
      var ts := Lex(p).value;
      forall k | 0 <= k < |Lex(s).value|
        ensures Covered(s, k)
      {
        if k < |ts| {
          assert Covered(p, k);
          var i :| 0 <= i < |p| && Slot(p, i, k);
          assert Slot(s, i, k);
        } else {
          assert Slot(s, n, k);
        }
      }
    }
  }

  /** The layout of a successful output: its length is the input length plus the implicit ANDs;
      the token of character i sits at Pos(s, i), preceded by AndOp when an AND is implicit there;
      and every output index is one of those two. */
  lemma LexLayout(s: string)
    requires Lex(s).Ok?
    ensures |Lex(s).value| == |s| + AndsBefore(s, |s|)
    ensures forall i :: 0 <= i < |s| ==>
              && Pos(s, i) < |Lex(s).value|
              && Classify(s[i]).Ok?
              && Lex(s).value[Pos(s, i)] == Classify(s[i]).value
              && (ImplicitAndAt(s, i) ==> Lex(s).value[Pos(s, i) - 1] == AndOp)
    ensures forall k :: 0 <= k < |Lex(s).value| ==> Covered(s, k)
  {
    LexLength(s);
    LexTokens(s);
    LexCovered(s);
  }

  /** No implicit AND precedes the first character: the output starts with its token. */
  lemma FirstTokenIsFirstChar(s: string)
    requires Lex(s).Ok? && s != []
    ensures Lex(s).value != [] && Classify(s[0]).Ok? && Lex(s).value[0] == Classify(s[0]).value
  {
    LexLayout(s);
    assert AndsBefore(s, 1) == 0;
  }

  /** `Lexer.Tokenize`: the scanning loop, with `prev` updated on every character. */
  method Tokenize(expression: string) returns (r: Result<seq<Token>>)
    ensures r == Lex(expression)
  {
    var tokens: seq<Token> := [];
    var prev: Option<Token> := None;
    var i := 0;
    while i < |expression|
      invariant 0 <= i <= |expression|
      invariant Lex(expression[..i]) == Ok(tokens)
      invariant prev == Prev(expression[..i])
    {
      var c := expression[i];
      assert expression[..i + 1][..i] == expression[..i];
      assert expression[..i + 1][i] == c;
      ghost var old_tokens := tokens;
      var t: Token;
      if c == AND {
        t := AndOp;
        tokens := tokens + [t];
      } else if c == OR {
        t := OrOp;
        tokens := tokens + [t];
      } else if c == LEFT_PAREN {
        if prev.Some? && (prev.value.RightParen? || prev.value.Literal? || prev.value.NotOp?) {
          tokens := tokens + [AndOp];
        }
        t := LeftParen;
        tokens := tokens + [t];
      } else if c == RIGHT_PAREN {
        t := RightParen;
        tokens := tokens + [t];
      } else if c == NOT {
        t := NotOp;
        tokens := tokens + [t];
      } else {
        var lit := NewLiteral(c);
        if lit.Err? {
          LexErrSticky(expression, i + 1);
          return Err(lit.error);
        }
        t := lit.value;
        if prev.Some? && (prev.value.RightParen? || prev.value.Literal? || prev.value.NotOp?) {
          tokens := tokens + [AndOp];
        }
        tokens := tokens + [t];
      }
      assert Classify(c) == Ok(t);
      assert tokens == old_tokens + Emit(prev, t);
      prev := Some(t);
      i := i + 1;
    }
    assert expression[..i] == expression;
    r := Ok(tokens);
  }

  /** One step of the front-to-back fold: a character that is a token emits it, preceded by an AND when one is implied. */
  lemma FoldStep(s: string, i: nat, prev: Option<Token>, ts: seq<Token>, t: Token, ts': seq<Token>)
    requires i < |s| && Classify(s[i]) == Ok(t) && ts' == ts + Emit(prev, t)
    ensures LexFold(s, i, prev, ts) == LexFold(s, i + 1, Some(t), ts')
  {
  }

  /** `AB+A'B'` lexes with implicit ANDs between the letters of each product. */
  lemma LexExampleSumOfProducts()
    ensures Lex("AB+A'B'") == Ok([Literal('A'), AndOp, Literal('B'), OrOp, Literal('A'), NotOp, AndOp, Literal('B'), NotOp])
  {
    LexFoldCorrect("AB+A'B'", 0);
    assert "AB+A'B'"[..0] == [];
    LexExampleSumOfProductsPart1();
    LexExampleSumOfProductsPart2();
  }

  lemma LexExampleSumOfProductsPart1()
    ensures LexFold("AB+A'B'", 0, None, []) == LexFold("AB+A'B'", 4, Some(Literal('A')), [Literal('A'), AndOp, Literal('B'), OrOp, Literal('A')])
  {
    var s := "AB+A'B'";
    FoldStep(s, 0, None, [], Literal('A'), [Literal('A')]);
    FoldStep(s, 1, Some(Literal('A')), [Literal('A')], Literal('B'), [Literal('A'), AndOp, Literal('B')]);
    FoldStep(s, 2, Some(Literal('B')), [Literal('A'), AndOp, Literal('B')], OrOp, [Literal('A'), AndOp, Literal('B'), OrOp]);
    FoldStep(s, 3, Some(OrOp), [Literal('A'), AndOp, Literal('B'), OrOp], Literal('A'), [Literal('A'), AndOp, Literal('B'), OrOp, Literal('A')]);
  }

  lemma LexExampleSumOfProductsPart2()
    ensures LexFold("AB+A'B'", 4, Some(Literal('A')), [Literal('A'), AndOp, Literal('B'), OrOp, Literal('A')]) == LexFold("AB+A'B'", 7, Some(NotOp), [Literal('A'), AndOp, Literal('B'), OrOp, Literal('A'), NotOp, AndOp, Literal('B'), NotOp])
  {
    var s := "AB+A'B'";
    FoldStep(s, 4, Some(Literal('A')), [Literal('A'), AndOp, Literal('B'), OrOp, Literal('A')], NotOp, [Literal('A'), AndOp, Literal('B'), OrOp, Literal('A'), NotOp]);
    FoldStep(s, 5, Some(NotOp), [Literal('A'), AndOp, Literal('B'), OrOp, Literal('A'), NotOp], Literal('B'), [Literal('A'), AndOp, Literal('B'), OrOp, Literal('A'), NotOp, AndOp, Literal('B')]);
    FoldStep(s, 6, Some(Literal('B')), [Literal('A'), AndOp, Literal('B'), OrOp, Literal('A'), NotOp, AndOp, Literal('B')], NotOp, [Literal('A'), AndOp, Literal('B'), OrOp, Literal('A'), NotOp, AndOp, Literal('B'), NotOp]);
  }

  /** `B''` lexes as a literal followed by two NOT tokens. */
  lemma LexExampleDoubleNegation()
    ensures Lex("B''") == Ok([Literal('B'), NotOp, NotOp])
  {
    var s := "B''";
    LexFoldCorrect(s, 0);
    assert s[..0] == [];
    FoldStep(s, 0, None, [], Literal('B'), [Literal('B')]);
    FoldStep(s, 1, Some(Literal('B')), [Literal('B')], NotOp, [Literal('B'), NotOp]);
    FoldStep(s, 2, Some(NotOp), [Literal('B'), NotOp], NotOp, [Literal('B'), NotOp, NotOp]);
  }

  const ParenExample: string := "(A+B)C(D+E)(E'F')'"

  /** `(A+B)C(D+E)(E'F')'`: implicit ANDs after `)`, after a letter before `(`, between `)` and `(`, and after `'`. */
  lemma LexExampleParentheses()
    ensures Lex("(A+B)C(D+E)(E'F')'") == Ok([LeftParen, Literal('A'), OrOp, Literal('B'), RightParen, AndOp, Literal('C'), AndOp, LeftParen, Literal('D'), OrOp, Literal('E'), RightParen, AndOp, LeftParen, Literal('E'), NotOp, AndOp, Literal('F'), NotOp, RightParen, NotOp])
  {
    LexFoldCorrect(ParenExample, 0);
    assert ParenExample[..0] == [];
    LexExampleParenthesesPart1();
    LexExampleParenthesesPart2();
    LexExampleParenthesesPart3();
    LexExampleParenthesesPart4();
    LexExampleParenthesesPart5();
    LexExampleParenthesesPart6();
  }

  lemma LexExampleParenthesesPart1()
    ensures LexFold(ParenExample, 0, None, []) == LexFold(ParenExample, 3, Some(OrOp), [LeftParen, Literal('A'), OrOp])
  {
    var s := ParenExample;
    FoldStep(s, 0, None, [], LeftParen, [LeftParen]);
    FoldStep(s, 1, Some(LeftParen), [LeftParen], Literal('A'), [LeftParen, Literal('A')]);
    FoldStep(s, 2, Some(Literal('A')), [LeftParen, Literal('A')], OrOp, [LeftParen, Literal('A'), OrOp]);
  }

  lemma LexExampleParenthesesPart2()
    ensures LexFold(ParenExample, 3, Some(OrOp), [LeftParen, Literal('A'), OrOp]) == LexFold(ParenExample, 6, Some(Literal('C')), [LeftParen, Literal('A'), OrOp, Literal('B'), RightParen, AndOp, Literal('C')])
  {
    var s := ParenExample;
    FoldStep(s, 3, Some(OrOp), [LeftParen, Literal('A'), OrOp], Literal('B'), [LeftParen, Literal('A'), OrOp, Literal('B')]);
    FoldStep(s, 4, Some(Literal('B')), [LeftParen, Literal('A'), OrOp, Literal('B')], RightParen, [LeftParen, Literal('A'), OrOp, Literal('B'), RightParen]);
    FoldStep(s, 5, Some(RightParen), [LeftParen, Literal('A'), OrOp, Literal('B'), RightParen], Literal('C'), [LeftParen, Literal('A'), OrOp, Literal('B'), RightParen, AndOp, Literal('C')]);
  }

  lemma LexExampleParenthesesPart3()
    ensures LexFold(ParenExample, 6, Some(Literal('C')), [LeftParen, Literal('A'), OrOp, Literal('B'), RightParen, AndOp, Literal('C')]) == LexFold(ParenExample, 9, Some(OrOp), [LeftParen, Literal('A'), OrOp, Literal('B'), RightParen, AndOp, Literal('C'), AndOp, LeftParen, Literal('D'), OrOp])
  {
    var s := ParenExample;
    FoldStep(s, 6, Some(Literal('C')), [LeftParen, Literal('A'), OrOp, Literal('B'), RightParen, AndOp, Literal('C')], LeftParen, [LeftParen, Literal('A'), OrOp, Literal('B'), RightParen, AndOp, Literal('C'), AndOp, LeftParen]);
    FoldStep(s, 7, Some(LeftParen), [LeftParen, Literal('A'), OrOp, Literal('B'), RightParen, AndOp, Literal('C'), AndOp, LeftParen], Literal('D'), [LeftParen, Literal('A'), OrOp, Literal('B'), RightParen, AndOp, Literal('C'), AndOp, LeftParen, Literal('D')]);
    FoldStep(s, 8, Some(Literal('D')), [LeftParen, Literal('A'), OrOp, Literal('B'), RightParen, AndOp, Literal('C'), AndOp, LeftParen, Literal('D')], OrOp, [LeftParen, Literal('A'), OrOp, Literal('B'), RightParen, AndOp, Literal('C'), AndOp, LeftParen, Literal('D'), OrOp]);
  }

  lemma LexExampleParenthesesPart4()
    ensures LexFold(ParenExample, 9, Some(OrOp), [LeftParen, Literal('A'), OrOp, Literal('B'), RightParen, AndOp, Literal('C'), AndOp, LeftParen, Literal('D'), OrOp]) == LexFold(ParenExample, 12, Some(LeftParen), [LeftParen, Literal('A'), OrOp, Literal('B'), RightParen, AndOp, Literal('C'), AndOp, LeftParen, Literal('D'), OrOp, Literal('E'), RightParen, AndOp, LeftParen])
  {
    var s := ParenExample;
    FoldStep(s, 9, Some(OrOp), [LeftParen, Literal('A'), OrOp, Literal('B'), RightParen, AndOp, Literal('C'), AndOp, LeftParen, Literal('D'), OrOp], Literal('E'), [LeftParen, Literal('A'), OrOp, Literal('B'), RightParen, AndOp, Literal('C'), AndOp, LeftParen, Literal('D'), OrOp, Literal('E')]);
    FoldStep(s, 10, Some(Literal('E')), [LeftParen, Literal('A'), OrOp, Literal('B'), RightParen, AndOp, Literal('C'), AndOp, LeftParen, Literal('D'), OrOp, Literal('E')], RightParen, [LeftParen, Literal('A'), OrOp, Literal('B'), RightParen, AndOp, Literal('C'), AndOp, LeftParen, Literal('D'), OrOp, Literal('E'), RightParen]);
    FoldStep(s, 11, Some(RightParen), [LeftParen, Literal('A'), OrOp, Literal('B'), RightParen, AndOp, Literal('C'), AndOp, LeftParen, Literal('D'), OrOp, Literal('E'), RightParen], LeftParen, [LeftParen, Literal('A'), OrOp, Literal('B'), RightParen, AndOp, Literal('C'), AndOp, LeftParen, Literal('D'), OrOp, Literal('E'), RightParen, AndOp, LeftParen]);
  }

  lemma LexExampleParenthesesPart5()
    ensures LexFold(ParenExample, 12, Some(LeftParen), [LeftParen, Literal('A'), OrOp, Literal('B'), RightParen, AndOp, Literal('C'), AndOp, LeftParen, Literal('D'), OrOp, Literal('E'), RightParen, AndOp, LeftParen]) == LexFold(ParenExample, 15, Some(Literal('F')), [LeftParen, Literal('A'), OrOp, Literal('B'), RightParen, AndOp, Literal('C'), AndOp, LeftParen, Literal('D'), OrOp, Literal('E'), RightParen, AndOp, LeftParen, Literal('E'), NotOp, AndOp, Literal('F')])
  {
    var s := ParenExample;
    FoldStep(s, 12, Some(LeftParen), [LeftParen, Literal('A'), OrOp, Literal('B'), RightParen, AndOp, Literal('C'), AndOp, LeftParen, Literal('D'), OrOp, Literal('E'), RightParen, AndOp, LeftParen], Literal('E'), [LeftParen, Literal('A'), OrOp, Literal('B'), RightParen, AndOp, Literal('C'), AndOp, LeftParen, Literal('D'), OrOp, Literal('E'), RightParen, AndOp, LeftParen, Literal('E')]);
    FoldStep(s, 13, Some(Literal('E')), [LeftParen, Literal('A'), OrOp, Literal('B'), RightParen, AndOp, Literal('C'), AndOp, LeftParen, Literal('D'), OrOp, Literal('E'), RightParen, AndOp, LeftParen, Literal('E')], NotOp, [LeftParen, Literal('A'), OrOp, Literal('B'), RightParen, AndOp, Literal('C'), AndOp, LeftParen, Literal('D'), OrOp, Literal('E'), RightParen, AndOp, LeftParen, Literal('E'), NotOp]);
    FoldStep(s, 14, Some(NotOp), [LeftParen, Literal('A'), OrOp, Literal('B'), RightParen, AndOp, Literal('C'), AndOp, LeftParen, Literal('D'), OrOp, Literal('E'), RightParen, AndOp, LeftParen, Literal('E'), NotOp], Literal('F'), [LeftParen, Literal('A'), OrOp, Literal('B'), RightParen, AndOp, Literal('C'), AndOp, LeftParen, Literal('D'), OrOp, Literal('E'), RightParen, AndOp, LeftParen, Literal('E'), NotOp, AndOp, Literal('F')]);
  }

  lemma LexExampleParenthesesPart6()
    ensures LexFold(ParenExample, 15, Some(Literal('F')), [LeftParen, Literal('A'), OrOp, Literal('B'), RightParen, AndOp, Literal('C'), AndOp, LeftParen, Literal('D'), OrOp, Literal('E'), RightParen, AndOp, LeftParen, Literal('E'), NotOp, AndOp, Literal('F')]) == LexFold(ParenExample, 18, Some(NotOp), [LeftParen, Literal('A'), OrOp, Literal('B'), RightParen, AndOp, Literal('C'), AndOp, LeftParen, Literal('D'), OrOp, Literal('E'), RightParen, AndOp, LeftParen, Literal('E'), NotOp, AndOp, Literal('F'), NotOp, RightParen, NotOp])
  {
    var s := ParenExample;
    FoldStep(s, 15, Some(Literal('F')), [LeftParen, Literal('A'), OrOp, Literal('B'), RightParen, AndOp, Literal('C'), AndOp, LeftParen, Literal('D'), OrOp, Literal('E'), RightParen, AndOp, LeftParen, Literal('E'), NotOp, AndOp, Literal('F')], NotOp, [LeftParen, Literal('A'), OrOp, Literal('B'), RightParen, AndOp, Literal('C'), AndOp, LeftParen, Literal('D'), OrOp, Literal('E'), RightParen, AndOp, LeftParen, Literal('E'), NotOp, AndOp, Literal('F'), NotOp]);
    FoldStep(s, 16, Some(NotOp), [LeftParen, Literal('A'), OrOp, Literal('B'), RightParen, AndOp, Literal('C'), AndOp, LeftParen, Literal('D'), OrOp, Literal('E'), RightParen, AndOp, LeftParen, Literal('E'), NotOp, AndOp, Literal('F'), NotOp], RightParen, [LeftParen, Literal('A'), OrOp, Literal('B'), RightParen, AndOp, Literal('C'), AndOp, LeftParen, Literal('D'), OrOp, Literal('E'), RightParen, AndOp, LeftParen, Literal('E'), NotOp, AndOp, Literal('F'), NotOp, RightParen]);
    FoldStep(s, 17, Some(RightParen), [LeftParen, Literal('A'), OrOp, Literal('B'), RightParen, AndOp, Literal('C'), AndOp, LeftParen, Literal('D'), OrOp, Literal('E'), RightParen, AndOp, LeftParen, Literal('E'), NotOp, AndOp, Literal('F'), NotOp, RightParen], NotOp, [LeftParen, Literal('A'), OrOp, Literal('B'), RightParen, AndOp, Literal('C'), AndOp, LeftParen, Literal('D'), OrOp, Literal('E'), RightParen, AndOp, LeftParen, Literal('E'), NotOp, AndOp, Literal('F'), NotOp, RightParen, NotOp]);
  }

  /** A front-to-back evaluation of the same definition, carrying `prev` as the loop does. */
  function LexFold(s: string, i: nat, prev: Option<Token>, ts: seq<Token>): Result<seq<Token>>
    requires i <= |s|
    decreases |s| - i
  {
    if i == |s| then Ok(ts)
    else
      match Classify(s[i])
      case Err(e) => Err(e)
      case Ok(t) => LexFold(s, i + 1, Some(t), ts + Emit(prev, t))
  }

  lemma {:induction false} LexFoldCorrect(s: string, i: nat)
    requires i <= |s| && Lex(s[..i]).Ok?
    ensures LexFold(s, i, Prev(s[..i]), Lex(s[..i]).value) == Lex(s)
    decreases |s| - i
  {
    if i == |s| {
      assert s[..i] == s;
    } else {
      assert s[..i + 1][..i] == s[..i];
      assert s[..i + 1][i] == s[i];
      if Classify(s[i]).Err? {
        LexErrSticky(s, i + 1);
      } else {
        LexFoldCorrect(s, i + 1);
      }
    }
  }
}
