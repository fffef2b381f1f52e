/** The two rewrites that turn a parsed tree into a sum of products: pushing negations
    inwards by De Morgan's laws (`SearchForNot`, `ApplyDeMorgan`) and distributing AND over
    OR (`ApplyDistributiveProperty`). Both are given as the source writes them and in a
    corrected form; the corrected forms are the ones the rest of the pipeline uses. */
module Dnf {
  import opened Tokens
  import opened Nodes

  // ---------------------------------------------------------------------------------
  // Shapes

  /** A factor of a product: anything that is neither an AND nor an OR. */
  predicate IsFactor(n: Node) {
    !n.And? && !n.Or?
  }

  /** A tree of ANDs over factors. */
  predicate IsProduct(n: Node) {
    match n
    case And(l, r) => IsProduct(l) && IsProduct(r)
    case _ => IsFactor(n)
  }

  /** A tree of ORs over products: a sum of products. */
  predicate IsSumOfProducts(n: Node) {
    match n
    case Or(l, r) => IsSumOfProducts(l) && IsSumOfProducts(r)
    case _ => IsProduct(n)
  }

  /** Every leaf a literal or a complement and no `Not` anywhere: negation normal form. */
  predicate IsNegationFree(n: Node) {
    !HasNot(n)
  }

  // ---------------------------------------------------------------------------------
  // How the rendering reads back

  /** The sum of products that `Render(n)` spells out once the rendering is read back with
      `+` binding loosest and `*` next, as the reducer reads it: the products as lists of
      factors. The rendering writes no parentheses around binary nodes, so an OR below an
      AND merges into its neighbouring products. */
  function Reading(n: Node): (r: seq<seq<Node>>)
    ensures |r| > 0 && forall i :: 0 <= i < |r| ==> |r[i]| > 0
  {
    match n
    case Or(l, r) => Reading(l) + Reading(r)
    case And(l, r) =>
      var a, b := Reading(l), Reading(r);
      a[..|a| - 1] + [a[|a| - 1] + b[0]] + b[1..]
    case _ => [[n]]
  }

  predicate EvalProduct(fs: seq<Node>, env: set<char>) {
    forall i :: 0 <= i < |fs| ==> Eval(fs[i], env)
  }

  predicate EvalSum(ps: seq<seq<Node>>, env: set<char>) {
    exists i :: 0 <= i < |ps| && EvalProduct(ps[i], env)
  }

  /** The factors of a product, left to right. */
  function Factors(n: Node): seq<Node> {
    match n
    case And(l, r) => Factors(l) + Factors(r)
    case _ => [n]
  }

  lemma {:induction false} ReadingOfProduct(n: Node)
    requires IsProduct(n)
    ensures Reading(n) == [Factors(n)]
  {
    if n.And? {
      ReadingOfProduct(n.left);
      ReadingOfProduct(n.right);
    }
  }

  lemma {:induction false} EvalFactors(n: Node, env: set<char>)
    requires IsProduct(n)
    ensures EvalProduct(Factors(n), env) == Eval(n, env)
  {
    if n.And? {
      EvalFactors(n.left, env);
      EvalFactors(n.right, env);
      EvalProductAppend(Factors(n.left), Factors(n.right), env);
    } else {
      assert [n][0] == n;
    }
  }

  lemma EvalProductAppend(a: seq<Node>, b: seq<Node>, env: set<char>)
    ensures EvalProduct(a + b, env) == (EvalProduct(a, env) && EvalProduct(b, env))
  {
    if EvalProduct(a, env) && EvalProduct(b, env) {
      forall i | 0 <= i < |a + b|
        ensures Eval((a + b)[i], env)
      {
        if i >= |a| {
          assert (a + b)[i] == b[i - |a|];
        }
      }
    }
    if EvalProduct(a + b, env) {
      forall i | 0 <= i < |a|
        ensures Eval(a[i], env)
      {
        assert (a + b)[i] == a[i];
      }
      forall i | 0 <= i < |b|
        ensures Eval(b[i], env)
      {
        assert (a + b)[|a| + i] == b[i];
      }
    }
  }

  /** A sum of products reads back as itself: the rendering means what the tree means. */
  lemma {:induction false} ReadingOfSumOfProducts(n: Node, env: set<char>)
    requires IsSumOfProducts(n)
    ensures EvalSum(Reading(n), env) == Eval(n, env)
  {
    if n.Or? {
      ReadingOfSumOfProducts(n.left, env);
      ReadingOfSumOfProducts(n.right, env);
      var a, b := Reading(n.left), Reading(n.right);
      assert forall i :: 0 <= i < |a| ==> (a + b)[i] == a[i];
      assert forall i :: 0 <= i < |b| ==> (a + b)[|a| + i] == b[i];
      if EvalSum(a + b, env) {
        var i :| 0 <= i < |a + b| && EvalProduct((a + b)[i], env);
        if i >= |a| {
          assert EvalProduct(b[i - |a|], env);
        }
      }
    } else {
      ReadingOfProduct(n);
      EvalFactors(n, env);
      assert EvalSum([Factors(n)], env) <==> EvalProduct([Factors(n)][0], env);
    }
  }

  // ---------------------------------------------------------------------------------
  // Negations, as written

  /** `ApplyDeMorgan`: swaps the leaf kinds, swaps AND and OR over the negated children, and
      strips a `Not` without looking below it. */
  function ApplyDeMorgan(n: Node): Node {
    match n
    case LiteralNode(v) => ComplementNode(v)
    case ComplementNode(v) => LiteralNode(v)
    case And(l, r) => Or(ApplyDeMorgan(l), ApplyDeMorgan(r))
    case Or(l, r) => And(ApplyDeMorgan(l), ApplyDeMorgan(r))
    case Not(x) => x
  }

  /** `SearchForNot`: descends through AND and OR and hands each `Not` to ApplyDeMorgan. */
  function SearchForNot(n: Node): Node {
    match n
    case And(l, r) => And(SearchForNot(l), SearchForNot(r))
    case Or(l, r) => Or(SearchForNot(l), SearchForNot(r))
    case Not(x) => ApplyDeMorgan(x)
    case _ => n
  }

  /** ApplyDeMorgan(x) means the negation of x. */
  lemma {:induction false} ApplyDeMorganNegates(n: Node, env: set<char>)
    ensures Eval(ApplyDeMorgan(n), env) == !Eval(n, env)
  {
    match n
    case And(l, r) =>
      ApplyDeMorganNegates(l, env);
      ApplyDeMorganNegates(r, env);
    case Or(l, r) =>
      ApplyDeMorganNegates(l, env);
      ApplyDeMorganNegates(r, env);
    case _ =>
  }

  lemma {:induction false} SearchForNotPreservesEval(n: Node, env: set<char>)
    ensures Eval(SearchForNot(n), env) == Eval(n, env)
  {
    match n
    case And(l, r) =>
      SearchForNotPreservesEval(l, env);
      SearchForNotPreservesEval(r, env);
    case Or(l, r) =>
      SearchForNotPreservesEval(l, env);
      SearchForNotPreservesEval(r, env);
    case Not(x) =>
      ApplyDeMorganNegates(x, env);
    case _ =>
  }

  lemma {:induction false} SearchForNotPreservesVars(n: Node)
    ensures Vars(SearchForNot(n)) == Vars(n)
  {
    match n
    case And(l, r) =>
      SearchForNotPreservesVars(l);
      SearchForNotPreservesVars(r);
    case Or(l, r) =>
      SearchForNotPreservesVars(l);
      SearchForNotPreservesVars(r);
    case Not(x) =>
      ApplyDeMorganPreservesVars(x);
    case _ =>
  }

  lemma {:induction false} ApplyDeMorganPreservesVars(n: Node)
    ensures Vars(ApplyDeMorgan(n)) == Vars(n)
  {
    match n
    case And(l, r) =>
      ApplyDeMorganPreservesVars(l);
      ApplyDeMorganPreservesVars(r);
    case Or(l, r) =>
      ApplyDeMorganPreservesVars(l);
      ApplyDeMorganPreservesVars(r);
    case _ =>
  }

  /** A triple negation of a sum keeps one `Not` over the sum: the rendering `(A+B)'` then
      holds parentheses and an operator inside one "factor". */
  lemma TripleNegationSurvives()
    ensures var n := Not(Not(Not(Or(LiteralNode('A'), LiteralNode('B')))));
            && SearchForNot(n) == Not(Or(LiteralNode('A'), LiteralNode('B')))
            && HasNot(SearchForNot(n))
            && Render(SearchForNot(n)) == "(A+B)'"
  {
  }

  // ---------------------------------------------------------------------------------
  // Negations, corrected: a double negation is searched again

  /** SearchForNot with the child of a double negation rewritten too. */
  function PushNegations(n: Node): Node {
    match n
    case And(l, r) => And(PushNegations(l), PushNegations(r))
    case Or(l, r) => Or(PushNegations(l), PushNegations(r))
    case Not(x) => Negate(x)
    case _ => n
  }

  /** ApplyDeMorgan whose `Not` case continues into the child. */
  function Negate(n: Node): Node {
    match n
    case LiteralNode(v) => ComplementNode(v)
    case ComplementNode(v) => LiteralNode(v)
    case And(l, r) => Or(Negate(l), Negate(r))
    case Or(l, r) => And(Negate(l), Negate(r))
    case Not(x) => PushNegations(x)
  }

  /** The corrected pass leaves no `Not`, keeps the meaning and negates exactly where asked. */
  lemma {:induction false} PushNegationsCorrect(n: Node, env: set<char>)
    ensures IsNegationFree(PushNegations(n)) && IsNegationFree(Negate(n))
    ensures Eval(PushNegations(n), env) == Eval(n, env)
    ensures Eval(Negate(n), env) == !Eval(n, env)
    ensures Vars(PushNegations(n)) == Vars(n) && Vars(Negate(n)) == Vars(n)
  {
    match n
    case And(l, r) =>
      PushNegationsCorrect(l, env);
      PushNegationsCorrect(r, env);
    case Or(l, r) =>
      PushNegationsCorrect(l, env);
      PushNegationsCorrect(r, env);
    case Not(x) =>
      PushNegationsCorrect(x, env);
    case _ =>
  }

  /** The two passes agree wherever the one as written removes every `Not`. */
  lemma {:induction false} PushNegationsAgrees(n: Node)
    requires IsNegationFree(SearchForNot(n))
    ensures PushNegations(n) == SearchForNot(n)
  {
    match n
    case And(l, r) =>
      PushNegationsAgrees(l);
      PushNegationsAgrees(r);
    case Or(l, r) =>
      PushNegationsAgrees(l);
      PushNegationsAgrees(r);
    case Not(x) =>
      NegateAgrees(x);
    case _ =>
  }

  lemma {:induction false} NegateAgrees(n: Node)
    requires IsNegationFree(ApplyDeMorgan(n))
    ensures Negate(n) == ApplyDeMorgan(n)
  {
    match n
    case And(l, r) =>
      NegateAgrees(l);
      NegateAgrees(r);
    case Or(l, r) =>
      NegateAgrees(l);
      NegateAgrees(r);
    case Not(x) =>
      NoNotUnchanged(x);
    case _ =>
  }

  lemma {:induction false} NoNotUnchanged(n: Node)
    requires IsNegationFree(n)
    ensures PushNegations(n) == n
  {
    match n
    case And(l, r) =>
      NoNotUnchanged(l);
      NoNotUnchanged(r);
    case Or(l, r) =>
      NoNotUnchanged(l);
      NoNotUnchanged(r);
    case _ =>
  }

  /** The corrected pass on the triple negation of a sum: the product of the complements. */
  lemma TripleNegationCorrected()
    ensures var n := Not(Not(Not(Or(LiteralNode('A'), LiteralNode('B')))));
            && PushNegations(n) == And(ComplementNode('A'), ComplementNode('B'))
            && Render(PushNegations(n)) == "A'*B'"
  {
  }

  // ---------------------------------------------------------------------------------
  // Distribution, as written

  /** `ApplyDistributiveProperty`. An AND with an OR child (the left one checked first)
      becomes the OR of the two smaller ANDs, each rewritten again; an AND with no OR child
      only has its children rewritten, and is not looked at again afterwards. */
  function ApplyDistributiveProperty(n: Node): Node
    decreases Size(n)
  {
    match n
    case And(l, r) =>
      if l.Or? then
        assert Size(l) == Size(l.left) + Size(l.right) + 1;
        Or(ApplyDistributiveProperty(And(l.left, r)), ApplyDistributiveProperty(And(l.right, r)))
      else if r.Or? then
        assert Size(r) == Size(r.left) + Size(r.right) + 1;
        Or(ApplyDistributiveProperty(And(r.left, l)), ApplyDistributiveProperty(And(r.right, l)))
      else
        And(ApplyDistributiveProperty(l), ApplyDistributiveProperty(r))
    case Or(l, r) => Or(ApplyDistributiveProperty(l), ApplyDistributiveProperty(r))
    case Not(x) => Not(ApplyDistributiveProperty(x))
    case _ => n
  }

  lemma {:induction false} ApplyDistributivePropertyPreservesEval(n: Node, env: set<char>)
    ensures Eval(ApplyDistributiveProperty(n), env) == Eval(n, env)
    decreases Size(n)
  {
    match n
    case And(l, r) =>
      if l.Or? {
        assert Size(l) == Size(l.left) + Size(l.right) + 1;
        assert HasNot(l) == (HasNot(l.left) || HasNot(l.right));
        ApplyDistributivePropertyPreservesEval(And(l.left, r), env);
        ApplyDistributivePropertyPreservesEval(And(l.right, r), env);
      } else if r.Or? {
        assert Size(r) == Size(r.left) + Size(r.right) + 1;
        assert HasNot(r) == (HasNot(r.left) || HasNot(r.right));
        ApplyDistributivePropertyPreservesEval(And(r.left, l), env);
        ApplyDistributivePropertyPreservesEval(And(r.right, l), env);
      } else {
        ApplyDistributivePropertyPreservesEval(l, env);
        ApplyDistributivePropertyPreservesEval(r, env);
      }
    case Or(l, r) =>
      ApplyDistributivePropertyPreservesEval(l, env);
      ApplyDistributivePropertyPreservesEval(r, env);
    case Not(x) =>
      ApplyDistributivePropertyPreservesEval(x, env);
    case _ =>
  }

  lemma {:induction false} ApplyDistributivePropertyNegationFree(n: Node)
    requires IsNegationFree(n)
    ensures IsNegationFree(ApplyDistributiveProperty(n))
    decreases Size(n)
  {
    match n
    case And(l, r) =>
      if l.Or? {
        assert Size(l) == Size(l.left) + Size(l.right) + 1;
        assert HasNot(l) == (HasNot(l.left) || HasNot(l.right));
        ApplyDistributivePropertyNegationFree(And(l.left, r));
        ApplyDistributivePropertyNegationFree(And(l.right, r));
      } else if r.Or? {
        assert Size(r) == Size(r.left) + Size(r.right) + 1;
        assert HasNot(r) == (HasNot(r.left) || HasNot(r.right));
        ApplyDistributivePropertyNegationFree(And(r.left, l));
        ApplyDistributivePropertyNegationFree(And(r.right, l));
      } else {
        ApplyDistributivePropertyNegationFree(l);
        ApplyDistributivePropertyNegationFree(r);
      }
    case Or(l, r) =>
      ApplyDistributivePropertyNegationFree(l);
      ApplyDistributivePropertyNegationFree(r);
    case _ =>
  }

  /** `A(B+C)` becomes `B*A+C*A`: the OR's children come first in each new product. */
  lemma DistributionExample()
    ensures var n := And(LiteralNode('A'), Or(LiteralNode('B'), LiteralNode('C')));
            && ApplyDistributiveProperty(n)
               == Or(And(LiteralNode('B'), LiteralNode('A')), And(LiteralNode('C'), LiteralNode('A')))
            && Render(ApplyDistributiveProperty(n)) == "B*A+C*A"
  {
  }

  /** `A(B+C)D` as the parser builds it, and what the rewrite as written makes of it. */
  const FixpointInput: Node := And(And(LiteralNode('A'), Or(LiteralNode('B'), LiteralNode('C'))), LiteralNode('D'))
  const FixpointOutput: Node :=
    And(Or(And(LiteralNode('B'), LiteralNode('A')), And(LiteralNode('C'), LiteralNode('A'))), LiteralNode('D'))

  /** `A(B+C)D` keeps an OR below an AND, which renders as `B*A+C*A*D`. */
  lemma DistributionNotAtFixpoint()
    ensures ApplyDistributiveProperty(FixpointInput) == FixpointOutput
    ensures !IsSumOfProducts(FixpointOutput)
    ensures Render(FixpointOutput) == "B*A+C*A*D"
  {
    var ba, ca := And(LiteralNode('B'), LiteralNode('A')), And(LiteralNode('C'), LiteralNode('A'));
    assert ApplyDistributiveProperty(And(LiteralNode('A'), Or(LiteralNode('B'), LiteralNode('C')))) == Or(ba, ca);
    assert Render(Or(ba, ca)) == "B*A+C*A";
  }

  /** The rendering `B*A+C*A*D` reads back as AB+ACD, which holds when only A and B are
      true, although A(B+C)D, and the rewritten tree itself, do not. */
  lemma DistributionMisread()
    ensures !Eval(FixpointInput, {'A', 'B'}) && !Eval(FixpointOutput, {'A', 'B'})
    ensures Reading(FixpointOutput)[0] == [LiteralNode('B'), LiteralNode('A')]
    ensures EvalSum(Reading(FixpointOutput), {'A', 'B'})
  {
    var ba, ca := And(LiteralNode('B'), LiteralNode('A')), And(LiteralNode('C'), LiteralNode('A'));
    ReadingOfProduct(ba);
    ReadingOfProduct(ca);
    assert Factors(ba) == [LiteralNode('B')] + [LiteralNode('A')] == [LiteralNode('B'), LiteralNode('A')];
    var a := Reading(ba) + Reading(ca);
    assert Reading(Or(ba, ca)) == a;
    assert a[0] == [LiteralNode('B'), LiteralNode('A')];
    assert Reading(LiteralNode('D')) == [[LiteralNode('D')]];
    var rd := a[..|a| - 1] + [a[|a| - 1] + [LiteralNode('D')]] + [[LiteralNode('D')]][1..];
    assert Reading(FixpointOutput) == rd;
    assert rd[0] == a[0];
    assert EvalProduct(rd[0], {'A', 'B'});
  }

  // ---------------------------------------------------------------------------------
  // Distribution, corrected: an AND whose rewritten children turned into sums is
  // distributed once more

  /** The AND of two sums of products as a sum of products, with the same orientation as
      the rewrite: the disjuncts of the left sum first, each product led by its OR's child. */
  function DistAnd(a: Node, b: Node): Node
    decreases Size(a) + Size(b)
  {
    if a.Or? then Or(DistAnd(a.left, b), DistAnd(a.right, b))
    else if b.Or? then Or(DistAnd(b.left, a), DistAnd(b.right, a))
    else And(a, b)
  }

  /** ApplyDistributiveProperty with the AND of the rewritten children distributed again. */
  function Distribute(n: Node): Node
    decreases Size(n)
  {
    match n
    case And(l, r) =>
      if l.Or? then
        assert Size(l) == Size(l.left) + Size(l.right) + 1;
        Or(Distribute(And(l.left, r)), Distribute(And(l.right, r)))
      else if r.Or? then
        assert Size(r) == Size(r.left) + Size(r.right) + 1;
        Or(Distribute(And(r.left, l)), Distribute(And(r.right, l)))
      else
        DistAnd(Distribute(l), Distribute(r))
    case Or(l, r) => Or(Distribute(l), Distribute(r))
    case Not(x) => Not(Distribute(x))
    case _ => n
  }

  lemma {:induction false} DistAndCorrect(a: Node, b: Node, env: set<char>)
    requires IsSumOfProducts(a) && IsSumOfProducts(b)
    ensures IsSumOfProducts(DistAnd(a, b))
    ensures Eval(DistAnd(a, b), env) == (Eval(a, env) && Eval(b, env))
    ensures Vars(DistAnd(a, b)) == Vars(a) + Vars(b)
    decreases Size(a) + Size(b)
  {
    if a.Or? {
      DistAndCorrect(a.left, b, env);
      DistAndCorrect(a.right, b, env);
      DistAndSplit(a.left, a.right, b, env);
    } else if b.Or? {
      DistAndCorrect(b.left, a, env);
      DistAndCorrect(b.right, a, env);
      DistAndSplit(b.left, b.right, a, env);
    }
  }

  /** `DistAnd` of both sides of an OR with `b`, joined by OR, keeps the three facts. */
  lemma DistAndSplit(l: Node, r: Node, b: Node, env: set<char>)
    requires IsSumOfProducts(DistAnd(l, b)) && IsSumOfProducts(DistAnd(r, b))
    requires Eval(DistAnd(l, b), env) == (Eval(l, env) && Eval(b, env))
    requires Eval(DistAnd(r, b), env) == (Eval(r, env) && Eval(b, env))
    requires Vars(DistAnd(l, b)) == Vars(l) + Vars(b) && Vars(DistAnd(r, b)) == Vars(r) + Vars(b)
    ensures var o := Or(DistAnd(l, b), DistAnd(r, b));
            IsSumOfProducts(o) && Eval(o, env) == (Eval(Or(l, r), env) && Eval(b, env)) &&
            Vars(o) == Vars(Or(l, r)) + Vars(b)
  {
  }

  /** The corrected rewrite yields a sum of products with the input's meaning and variables,
      and leaves a negation-free input negation-free. */
  lemma {:induction false} DistributeCorrect(n: Node, env: set<char>)
    ensures IsSumOfProducts(Distribute(n))
    ensures Eval(Distribute(n), env) == Eval(n, env)
    ensures Vars(Distribute(n)) == Vars(n)
    ensures IsNegationFree(n) ==> IsNegationFree(Distribute(n))
    decreases Size(n)
  {
    match n
    case And(l, r) =>
      if l.Or? {
        assert Size(l) == Size(l.left) + Size(l.right) + 1;
        assert HasNot(l) == (HasNot(l.left) || HasNot(l.right));
        DistributeCorrect(And(l.left, r), env);
        DistributeCorrect(And(l.right, r), env);
      } else if r.Or? {
        assert Size(r) == Size(r.left) + Size(r.right) + 1;
        assert HasNot(r) == (HasNot(r.left) || HasNot(r.right));
        DistributeCorrect(And(r.left, l), env);
        DistributeCorrect(And(r.right, l), env);
      } else {
        DistributeCorrect(l, env);
        DistributeCorrect(r, env);
        DistAndCorrect(Distribute(l), Distribute(r), env);
        DistAndNegationFree(Distribute(l), Distribute(r));
      }
    case Or(l, r) =>
      DistributeCorrect(l, env);
      DistributeCorrect(r, env);
    case Not(x) =>
      DistributeCorrect(x, env);
    case _ =>
  }

  lemma {:induction false} DistAndNegationFree(a: Node, b: Node)
    ensures IsNegationFree(a) && IsNegationFree(b) ==> IsNegationFree(DistAnd(a, b))
    decreases Size(a) + Size(b)
  {
    if a.Or? {
      DistAndNegationFree(a.left, b);
      DistAndNegationFree(a.right, b);
    } else if b.Or? {
      DistAndNegationFree(b.left, a);
      DistAndNegationFree(b.right, a);
    }
  }

  /** On a negation-free tree the two rewrites agree wherever the one as written already
      yields a sum of products. */
  lemma {:induction false} DistributeAgrees(n: Node)
    requires IsNegationFree(n) && IsSumOfProducts(ApplyDistributiveProperty(n))
    ensures Distribute(n) == ApplyDistributiveProperty(n)
    decreases Size(n)
  {
    match n
    case And(l, r) =>
      if l.Or? {
        assert Size(l) == Size(l.left) + Size(l.right) + 1;
        assert HasNot(l) == (HasNot(l.left) || HasNot(l.right));
        DistributeAgrees(And(l.left, r));
        DistributeAgrees(And(l.right, r));
      } else if r.Or? {
        assert Size(r) == Size(r.left) + Size(r.right) + 1;
        assert HasNot(r) == (HasNot(r.left) || HasNot(r.right));
        DistributeAgrees(And(r.left, l));
        DistributeAgrees(And(r.right, l));
      } else {
        ProductIsSum(ApplyDistributiveProperty(l));
        ProductIsSum(ApplyDistributiveProperty(r));
        DistributeAgrees(l);
        DistributeAgrees(r);
      }
    case Or(l, r) =>
      DistributeAgrees(l);
      DistributeAgrees(r);
    case _ =>
  }

  lemma ProductIsSum(n: Node)
    requires IsProduct(n)
    ensures IsSumOfProducts(n) && !n.Or?
  {
  }

  /** The corrected rewrite of `A(B+C)D` is `B*A*D+C*A*D`. */
  lemma DistributionCorrected()
    ensures Render(Distribute(FixpointInput)) == "B*A*D+C*A*D"
    ensures IsSumOfProducts(Distribute(FixpointInput))
  {
    var a, b, c, d := LiteralNode('A'), LiteralNode('B'), LiteralNode('C'), LiteralNode('D');
    var ba, ca := And(b, a), And(c, a);
    assert Distribute(ba) == ba && Distribute(ca) == ca;
    assert Distribute(And(a, Or(b, c))) == Or(ba, ca);
    assert Distribute(FixpointInput) == DistAnd(Or(ba, ca), d);
    assert DistAnd(ba, d) == And(ba, d) && DistAnd(ca, d) == And(ca, d);
    assert Render(And(ba, d)) == "B*A*D" && Render(And(ca, d)) == "C*A*D";
  }

  /** `TransformIntoDNF` with both corrections: the result is a negation-free sum of products
      that means what the parsed tree means. */
  function ToDnf(n: Node): (r: Node)
    ensures IsSumOfProducts(r) && IsNegationFree(r) && Vars(r) == Vars(n)
  {
    PushNegationsCorrect(n, {});
    DistributeCorrect(PushNegations(n), {});
    Distribute(PushNegations(n))
  }

  lemma ToDnfPreservesEval(n: Node, env: set<char>)
    ensures Eval(ToDnf(n), env) == Eval(n, env)
  {
    PushNegationsCorrect(n, env);
    DistributeCorrect(PushNegations(n), env);
  }

  /** `TransformIntoDNF` as written. */
  function TransformIntoDnfAsWritten(n: Node): Node {
    ApplyDistributiveProperty(SearchForNot(n))
  }

  lemma TransformIntoDnfAsWrittenPreservesEval(n: Node, env: set<char>)
    ensures Eval(TransformIntoDnfAsWritten(n), env) == Eval(n, env)
  {
    SearchForNotPreservesEval(n, env);
    ApplyDistributivePropertyPreservesEval(SearchForNot(n), env);
  }

  lemma {:induction false} ApplyDistributivePropertyPreservesVars(n: Node)
    ensures Vars(ApplyDistributiveProperty(n)) == Vars(n)
    decreases Size(n)
  {
    match n
    case And(l, r) =>
      if l.Or? {
        assert Size(l) == Size(l.left) + Size(l.right) + 1;
        ApplyDistributivePropertyPreservesVars(And(l.left, r));
        ApplyDistributivePropertyPreservesVars(And(l.right, r));
      } else if r.Or? {
        assert Size(r) == Size(r.left) + Size(r.right) + 1;
        ApplyDistributivePropertyPreservesVars(And(r.left, l));
        ApplyDistributivePropertyPreservesVars(And(r.right, l));
      } else {
        ApplyDistributivePropertyPreservesVars(l);
        ApplyDistributivePropertyPreservesVars(r);
      }
    case Or(l, r) =>
      ApplyDistributivePropertyPreservesVars(l);
      ApplyDistributivePropertyPreservesVars(r);
    case Not(x) =>
      ApplyDistributivePropertyPreservesVars(x);
    case _ =>
  }

  /** `TransformIntoDNF` as written (`asWritten`) or with both corrections: either keeps
      the variables, and the corrected one gives a negation-free sum of products. */
  function TransformIntoDnf(n: Node, asWritten: bool): (r: Node)
    ensures Vars(r) == Vars(n)
    ensures !asWritten ==> IsSumOfProducts(r) && IsNegationFree(r)
  {
    if asWritten then
      SearchForNotPreservesVars(n);
      ApplyDistributivePropertyPreservesVars(SearchForNot(n));
      TransformIntoDnfAsWritten(n)
    else ToDnf(n)
  }

  /** Either rewrite means what the tree means. */
  lemma TransformIntoDnfPreservesEval(n: Node, asWritten: bool, env: set<char>)
    ensures Eval(TransformIntoDnf(n, asWritten), env) == Eval(n, env)
  {
    if asWritten {
      TransformIntoDnfAsWrittenPreservesEval(n, env);
    } else {
      ToDnfPreservesEval(n, env);
    }
  }
}
