/** The expression tree built by the parser, its rendering back to text (`interpret`) and
    its meaning under an assignment of truth values to variables. */
module Nodes {
  import opened Tokens

  /** The five node kinds. A leaf carries the letter of the literal token it was made from. */
  datatype Node =
    | LiteralNode(v: char)
    | ComplementNode(v: char)
    | And(left: Node, right: Node)
    | Or(left: Node, right: Node)
    | Not(child: Node)

  /** `TerminalNode`: the two leaf kinds. */
  predicate IsTerminal(n: Node) {
    n.LiteralNode? || n.ComplementNode?
  }

  /** Every leaf carries a valid letter, as every tree the parser builds does. */
  predicate WellFormedNode(n: Node) {
    match n
    case LiteralNode(v) => IsValid(v)
    case ComplementNode(v) => IsValid(v)
    case And(l, r) => WellFormedNode(l) && WellFormedNode(r)
    case Or(l, r) => WellFormedNode(l) && WellFormedNode(r)
    case Not(x) => WellFormedNode(x)
  }

  /** `interpret()`: binary operators are written without parentheses; a negated
      non-leaf is parenthesised. */
  function Render(n: Node): string {
    match n
    case LiteralNode(v) => [v]
    case ComplementNode(v) => [v, NOT]
    case And(l, r) => Render(l) + [AND] + Render(r)
    case Or(l, r) => Render(l) + [OR] + Render(r)
    case Not(x) =>
      if IsTerminal(x) then Render(x) + [NOT]
      else [LEFT_PAREN] + Render(x) + [RIGHT_PAREN, NOT]
  }

  /** The truth value of a tree when exactly the variables in `env` are true. */
  predicate Eval(n: Node, env: set<char>) {
    match n
    case LiteralNode(v) => v in env
    case ComplementNode(v) => v !in env
    case And(l, r) => Eval(l, env) && Eval(r, env)
    case Or(l, r) => Eval(l, env) || Eval(r, env)
    case Not(x) => !Eval(x, env)
  }

  /** The variables a tree mentions. */
  function Vars(n: Node): set<char> {
    match n
    case LiteralNode(v) => {v}
    case ComplementNode(v) => {v}
    case And(l, r) => Vars(l) + Vars(r)
    case Or(l, r) => Vars(l) + Vars(r)
    case Not(x) => Vars(x)
  }

  predicate HasNot(n: Node) {
    match n
    case LiteralNode(_) => false
    case ComplementNode(_) => false
    case And(l, r) => HasNot(l) || HasNot(r)
    case Or(l, r) => HasNot(l) || HasNot(r)
    case Not(_) => true
  }

  function Leaves(n: Node): nat {
    match n
    case LiteralNode(_) => 1
    case ComplementNode(_) => 1
    case And(l, r) => Leaves(l) + Leaves(r)
    case Or(l, r) => Leaves(l) + Leaves(r)
    case Not(x) => Leaves(x)
  }

  /** The number of nodes, a measure for rewrites that rebuild a tree. */
  function Size(n: Node): nat {
    match n
    case LiteralNode(_) => 1
    case ComplementNode(_) => 1
    case And(l, r) => Size(l) + Size(r) + 1
    case Or(l, r) => Size(l) + Size(r) + 1
    case Not(x) => Size(x) + 1
  }

  /** The number of letters A-Z in a string. */
  function CountLetters(s: string): nat {
    if s == [] then 0 else CountLetters(s[..|s| - 1]) + (if IsValid(s[|s| - 1]) then 1 else 0)
  }

  lemma {:induction false} CountLettersAppend(a: string, b: string)
    ensures CountLetters(a + b) == CountLetters(a) + CountLetters(b)
    decreases |b|
  {
    if b == [] {
      assert a + b == a;
    } else {
      assert (a + b)[..|a + b| - 1] == a + b[..|b| - 1];
      CountLettersAppend(a, b[..|b| - 1]);
    }
  }

  /** Every rendering starts with a letter or `(`, never with an operator. */
  lemma {:induction false} RenderStart(n: Node)
    requires WellFormedNode(n)
    ensures |Render(n)| > 0
    ensures IsValid(Render(n)[0]) || Render(n)[0] == LEFT_PAREN
  {
    match n
    case LiteralNode(_) =>
    case ComplementNode(_) =>
    case And(l, r) => RenderStart(l);
    case Or(l, r) => RenderStart(l);
    case Not(x) =>
      if IsTerminal(x) { RenderStart(x); }
  }

  /** Without a `Not` node the rendering holds no parenthesis at all. */
  lemma {:induction false} NoNotNoParens(n: Node)
    requires WellFormedNode(n) && !HasNot(n)
    ensures LEFT_PAREN !in Render(n) && RIGHT_PAREN !in Render(n)
  {
    match n
    case LiteralNode(_) =>
    case ComplementNode(_) =>
    case And(l, r) =>
      NoNotNoParens(l);
      NoNotNoParens(r);
    case Or(l, r) =>
      NoNotNoParens(l);
      NoNotNoParens(r);
  }

  /** The rendering holds one letter per leaf: operators, `'` and parentheses are not letters. */
  lemma {:induction false} LettersAreLeaves(n: Node)
    requires WellFormedNode(n)
    ensures CountLetters(Render(n)) == Leaves(n)
  {
    match n
    case LiteralNode(v) =>
      assert [v][..0] == [];
    case ComplementNode(v) =>
      assert [v, NOT][..1] == [v];
      assert [v][..0] == [];
      assert CountLetters([v]) == 1;
    case And(l, r) =>
      LettersAreLeaves(l);
      LettersAreLeaves(r);
      CountLettersAppend(Render(l), [AND]);
      CountLettersAppend(Render(l) + [AND], Render(r));
      assert [AND][..0] == [];
    case Or(l, r) =>
      LettersAreLeaves(l);
      LettersAreLeaves(r);
      CountLettersAppend(Render(l), [OR]);
      CountLettersAppend(Render(l) + [OR], Render(r));
      assert [OR][..0] == [];
    case Not(x) =>
      LettersAreLeaves(x);
      assert [NOT][..0] == [];
      if IsTerminal(x) {
        CountLettersAppend(Render(x), [NOT]);
      } else {
        assert [LEFT_PAREN][..0] == [];
        assert [RIGHT_PAREN, NOT][..1] == [RIGHT_PAREN];
        assert [RIGHT_PAREN][..0] == [];
        CountLettersAppend([LEFT_PAREN], Render(x));
        CountLettersAppend([LEFT_PAREN] + Render(x), [RIGHT_PAREN, NOT]);
      }
  }

  /** Only the variables a tree mentions affect its value. */
  lemma {:induction false} EvalDependsOnVars(n: Node, e1: set<char>, e2: set<char>)
    requires e1 * Vars(n) == e2 * Vars(n)
    ensures Eval(n, e1) == Eval(n, e2)
  {
    match n
    case LiteralNode(v) =>
      assert v in e1 <==> v in e1 * Vars(n);
      assert v in e2 <==> v in e2 * Vars(n);
    case ComplementNode(v) =>
      assert v in e1 <==> v in e1 * Vars(n);
      assert v in e2 <==> v in e2 * Vars(n);
    case And(l, r) =>
      assert e1 * Vars(l) == e2 * Vars(l) by {
        assert e1 * Vars(l) == (e1 * Vars(n)) * Vars(l);
        assert e2 * Vars(l) == (e2 * Vars(n)) * Vars(l);
      }
      assert e1 * Vars(r) == e2 * Vars(r) by {
        assert e1 * Vars(r) == (e1 * Vars(n)) * Vars(r);
        assert e2 * Vars(r) == (e2 * Vars(n)) * Vars(r);
      }
      EvalDependsOnVars(l, e1, e2);
      EvalDependsOnVars(r, e1, e2);
    case Or(l, r) =>
      assert e1 * Vars(l) == e2 * Vars(l) by {
        assert e1 * Vars(l) == (e1 * Vars(n)) * Vars(l);
        assert e2 * Vars(l) == (e2 * Vars(n)) * Vars(l);
      }
      assert e1 * Vars(r) == e2 * Vars(r) by {
        assert e1 * Vars(r) == (e1 * Vars(n)) * Vars(r);
        assert e2 * Vars(r) == (e2 * Vars(n)) * Vars(r);
      }
      EvalDependsOnVars(l, e1, e2);
      EvalDependsOnVars(r, e1, e2);
    case Not(x) =>
      EvalDependsOnVars(x, e1, e2);
  }
}
