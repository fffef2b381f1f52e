# Quine–McCluskey boolean minimiser, modelled in Dafny

This project models the core of a C# boolean-expression minimiser. The input is text such as `AAB(C+D')+A(B+D)`:

- single-letter variables `A`–`Z`;
- `'` for complement;
- `*` for AND, also implied between adjacent operands;
- `+` for OR;
- parentheses.

The pipeline has these stages:

1. The **lexer** turns the text into tokens and inserts the implicit ANDs.
2. A **recursive-descent parser** builds an expression tree of literal, complement, AND, OR and NOT nodes.
3. Two rewriting passes turn the tree into a sum of products:
   - De Morgan's laws push the negations inwards;
   - AND is distributed over OR.

   The tree is then rendered back to text.
4. The **reducer** splits that text at `+`. It makes one **implicant** per term and drops the contradictory ones. An implicant is a vector over `0`, `1` and `-` (don't care), plus the minterms it implies.
5. The reducer repeatedly sorts and merges implicants that differ in a single position, until a round produces no merge. The round survivors are the **prime implicants**.
6. It maps every minterm to the primes that cover it.
7. It picks the essential primes, then greedily picks more primes for the minterms still uncovered.
8. The result is the chosen primes joined with `+`.

The model follows the source's own shape:

- Values are datatypes: tokens, nodes, implicants, the minterm table, the reduction.
- The source's loops are Dafny methods with loop invariants. Each is proved equal to a function that specifies it:
  - the scanning loop;
  - the minterm worklist;
  - the implicant and merge loops;
  - the prime-implicant rounds;
  - table building;
  - the pick.
- The reducer object is a class whose constructor computes its fields. `ToString` caches its text in a field.
- The parser is a class holding the token stream position that the methods advance.

What is proved about these specifications:

- **Lexer:** it succeeds exactly when every character is legal. Its first bad character names the error. The exact layout of its output, implicit ANDs included, is proved.
- **Parser:** printing a tree and parsing it back gives the tree. The error cases are proved too.
- **Rewriting passes:** as written and corrected, they preserve the meaning of the expression and its variables. Only the corrected passes always reach a negation-free sum of products.
- **Implicants:**
  - an implicant implies exactly the minterms its vector covers, each once, and 2^dashes of them;
  - a term's implicant holds exactly on the assignments that satisfy every factor;
  - two implicants merge exactly when they are adjacent, and the merged implicant implies the union of the two.
- **Rounds:** they terminate, keep the set of covered minterms, and end with pairwise unmergeable primes.
- **Table and pick:** the table lists every covered minterm. The pick covers every minterm of the table, repeats nothing, and contains every essential prime.
- **End to end, as written:** `NewExpanded`, `Create` and `SolveQuineMcCluskey` run the source's own passes. The final implicants imply exactly the rows where some term of the rendered text holds. They imply exactly the rows where the parsed expression is true whenever the rewrite leaves a negation-free sum of products. Past the parser, construction can only throw a malformed-implicant or unknown-variable error, and only when a NOT survives the rewrite.
- **Where the source parts from that:** three texts are reduced end to end, as written and corrected (module `Runs`):
  - `(A+B)'''` throws `Malformed implicant` for the term `(A`;
  - `A(B+C)D` covers minterm 12 (A=B=1, C=D=0), where the expression is false;
  - `AA+A'` prints `A+A'` instead of the tautology, which prints as the empty text.
- **End to end, corrected:** the same pipeline with the corrected passes (`asWritten` false) fails exactly when lexing or parsing fails. Its final implicants imply exactly the rows where the parsed expression is true.

Each pipeline function takes a flag `asWritten`. When it is true the function follows the source's code; when it is false it uses the corrections listed under Findings. The methods that model the source's methods always pass `true`.

Nothing was executed; every statement here is a verified proof about the model.

## Model

| member | source | states |
|---|---|---|
| Tokens.Value | 01/QuineMcCluskey/Parser/Token.cs:49-100 | a literal carries its letter; for a well-formed token the character is a letter exactly when the token is a literal |
| Tokens.NewLiteral | 01/QuineMcCluskey/Parser/Token.cs:92-104 | succeeds exactly for `A`–`Z`, giving a literal with that character; otherwise the error is InvalidCharacter naming the character |
| Tokens.ToString | 01/QuineMcCluskey/Parser/Token.cs:26-29 | the text is the one character the token carries |
| Tokens.MatchCharacterisation | 01/QuineMcCluskey/Parser/Token.cs:22-108 | a literal matches every letter and only letters; every other token matches exactly its own character |
| Tokens.EqualsIsIdentity | 01/QuineMcCluskey/Parser/Token.cs:36-39 | comparing tokens by character is the same as comparing them, and no token equals null |
| Lexer.Classify | 01/QuineMcCluskey/Parser/Lexer.cs:31-63 | a character gives a token exactly when it is an operator character or a letter; the token carries that character; any other character gives InvalidCharacter naming it |
| Lexer.Tokenize | 01/QuineMcCluskey/Parser/Lexer.cs:23-66 | the scanning loop, with `prev` updated per character, returns exactly `Lex` of the input |
| Lexer.LexOkIff | 01/QuineMcCluskey/Parser/Lexer.cs:28-63 | lexing succeeds if and only if every character is an operator character or a letter |
| Lexer.LexErrorNamesFirstBadChar | 01/QuineMcCluskey/Parser/Lexer.cs:56-57 | the error is InvalidCharacter of the first illegal character |
| Lexer.LexLength | 01/QuineMcCluskey/Parser/Lexer.cs:41-62 | the output has one token per character plus one per implicit AND |
| Lexer.LexTokens | 01/QuineMcCluskey/Parser/Lexer.cs:41-62 | the token of character i sits at its position, preceded by an AND when `(` or a letter follows `)`, a letter or `'` |
| Lexer.LexCovered | 01/QuineMcCluskey/Parser/Lexer.cs:41-62 | every output token is a character's token or an inserted AND, so nothing else is inserted |
| Lexer.LexLayout | 01/QuineMcCluskey/Parser/Lexer.cs:41-62 | the full layout of the output: its length, where each character's token sits, and that nothing else occurs |
| Lexer.FirstTokenIsFirstChar | 01/QuineMcCluskey/Parser/Lexer.cs:26-44 | with no previous token, there is no AND before the first character's token |
| Lexer.LexExampleSumOfProducts | 01/QuineMcCluskeyTest/LexerTest.cs:14-30 | `AB+A'B'` lexes to the nine tokens the test expects |
| Lexer.LexExampleParentheses | 01/QuineMcCluskeyTest/LexerTest.cs:36-64 | `(A+B)C(D+E)(E'F')'` lexes to the 22 tokens the test expects |
| Lexer.LexExampleDoubleNegation | 01/QuineMcCluskeyTest/LexerTest.cs:68-75 | `B''` lexes to a literal and two NOTs |
| Nodes.RenderStart | 01/QuineMcCluskey/Parser/Node.cs:24-77 | `interpret` of a tree is never empty and starts with a letter or `(` |
| Nodes.NoNotNoParens | 01/QuineMcCluskey/Parser/Node.cs:68-77 | parentheses appear in the rendering only through a NOT node |
| Nodes.LettersAreLeaves | 01/QuineMcCluskey/Parser/Node.cs:24-77 | the rendering holds one letter per leaf |
| Nodes.EvalDependsOnVars | 01/QuineMcCluskey/Parser/Node.cs:36-78 | a tree's value depends only on the variables it mentions |
| Parser.Parser.constructor | 01/QuineMcCluskey/Parser/ExpandedBooleanExpression.cs:66-72 | the parser starts at the first token with no variables seen |
| Parser.Parser.Expression | 01/QuineMcCluskey/Parser/ExpandedBooleanExpression.cs:74-87 | the loop over `+` gives the left-nested OR of terms that `ParseExpression` defines, advances the stream to its end, and adds the tree's variables to the set |
| Parser.Parser.Term | 01/QuineMcCluskey/Parser/ExpandedBooleanExpression.cs:89-102 | the same for the loop over `*` and `ParseTerm` |
| Parser.Parser.Factor | 01/QuineMcCluskey/Parser/ExpandedBooleanExpression.cs:104-115 | the same for the postfix-NOT loop and `ParseFactor` |
| Parser.Parser.Atom | 01/QuineMcCluskey/Parser/ExpandedBooleanExpression.cs:117-146 | the same for `Literal()` and `ParseAtom`, including both error messages |
| Parser.ParsePrintRoundTrip | 01/QuineMcCluskey/Parser/ExpandedBooleanExpression.cs:27-35 | every tree without complement leaves, printed as tokens with the grammar's parentheses, parses back to itself and consumes exactly its tokens, when nothing or a token other than `+`, `*` and `'` follows |
| Parser.AtomErrors | 01/QuineMcCluskey/Parser/ExpandedBooleanExpression.cs:117-146 | a literal gives a leaf and one step; any token other than `(` or a literal fails with "parsing literal", reporting the token after it |
| Parser.LetterWithNots | 01/QuineMcCluskey/Parser/ExpandedBooleanExpression.cs:104-115 | a letter followed by k NOTs is k nested NOT nodes over the leaf |
| Parser.FactorTailNots | 01/QuineMcCluskey/Parser/ExpandedBooleanExpression.cs:107-113 | a run of k NOT tokens wraps the operand k times and advances k tokens |
| Parser.ExampleDoubleNegation | 01/QuineMcCluskeyTest/ExpandedBooleanExpressionTest.cs:23 | `N''` parses to two NOTs over `N` |
| Parser.ExampleLeftNestedSum | 01/QuineMcCluskey/Parser/ExpandedBooleanExpression.cs:74-87 | `A+B+C` groups to the left |
| Parser.ExampleLeftNestedProduct | 01/QuineMcCluskey/Parser/ExpandedBooleanExpression.cs:89-102 | AND binds tighter than OR and groups to the left |
| Parser.ExampleTrailingTokens | 01/QuineMcCluskey/Parser/ExpandedBooleanExpression.cs:66-72 | tokens after a complete expression are not examined: `A)` parses as `A` |
| Parser.ExampleMissingRightParen | 01/QuineMcCluskeyTest/ExpandedBooleanExpressionTest.cs:27 | `((A)` fails with "expected ')'" |
| Parser.ExampleLeadingOperator | 01/QuineMcCluskeyTest/ExpandedBooleanExpressionTest.cs:28 | `+A+B` fails with "parsing literal" |
| Parser.ExampleLeadingNot | 01/QuineMcCluskeyTest/ExpandedBooleanExpressionTest.cs:29 | `'(AB)` fails with "parsing literal" |
| Parser.ExampleTrailingOperator | 01/QuineMcCluskeyTest/ExpandedBooleanExpressionTest.cs:30 | `A+(BC)+` fails with "parsing literal" and no token found |
| Dnf.ApplyDeMorganNegates | 01/QuineMcCluskey/Parser/ExpandedBooleanExpression.cs:176-205 | `ApplyDeMorgan(n)` means the negation of n |
| Dnf.ApplyDeMorganPreservesVars | 01/QuineMcCluskey/Parser/ExpandedBooleanExpression.cs:176-205 | it mentions the same variables |
| Dnf.SearchForNotPreservesEval | 01/QuineMcCluskey/Parser/ExpandedBooleanExpression.cs:157-174 | the as-written negation pass keeps the meaning |
| Dnf.SearchForNotPreservesVars | 01/QuineMcCluskey/Parser/ExpandedBooleanExpression.cs:157-174 | and the variables |
| Dnf.TripleNegationSurvives | 01/QuineMcCluskey/Parser/ExpandedBooleanExpression.cs:200-204 | on `(A+B)'''` the as-written pass leaves a NOT, rendered `(A+B)'` |
| Dnf.PushNegationsCorrect | 01/QuineMcCluskey/Parser/ExpandedBooleanExpression.cs:150-151 | the corrected pass leaves no NOT, keeps meaning and variables, and its negating half means the negation |
| Dnf.PushNegationsAgrees | 01/QuineMcCluskey/Parser/ExpandedBooleanExpression.cs:157-174 | wherever the as-written pass leaves no NOT, the corrected pass gives the same tree |
| Dnf.NegateAgrees | 01/QuineMcCluskey/Parser/ExpandedBooleanExpression.cs:176-205 | the same for the negating halves |
| Dnf.NoNotUnchanged | 01/QuineMcCluskey/Parser/ExpandedBooleanExpression.cs:157-174 | a negation-free tree is left unchanged |
| Dnf.TripleNegationCorrected | 01/QuineMcCluskey/Parser/ExpandedBooleanExpression.cs:150-151 | the corrected pass turns `(A+B)'''` into `A'*B'` |
| Dnf.ApplyDistributivePropertyPreservesEval | 01/QuineMcCluskey/Parser/ExpandedBooleanExpression.cs:207-258 | the as-written distribution keeps the meaning |
| Dnf.ApplyDistributivePropertyNegationFree | 01/QuineMcCluskey/Parser/ExpandedBooleanExpression.cs:207-258 | it introduces no NOT |
| Dnf.DistributionExample | 01/QuineMcCluskeyTest/ExpandedBooleanExpressionTest.cs:21 | `A(B+C)` becomes `B*A+C*A`, the order the test expects |
| Dnf.DistributionNotAtFixpoint | 01/QuineMcCluskey/Parser/ExpandedBooleanExpression.cs:231-237 | on `A(B+C)D` the as-written pass stops with an OR under an AND, rendered `B*A+C*A*D` |
| Dnf.DistributionMisread | 01/QuineMcCluskey/Parser/ExpandedBooleanExpression.cs:231-237 | that text, read as terms, holds under A=B=1, D=0, where the expression does not |
| Dnf.ReadingOfSumOfProducts | 01/QuineMcCluskey/ReducedBooleanExpression.cs:35-41 | for a sum of products, reading its text back as `+`-separated products of factors means the same as the tree |
| Dnf.DistAndCorrect | 01/QuineMcCluskey/Parser/ExpandedBooleanExpression.cs:238-256 | the AND of two sums of products, distributed, is a sum of products that means the conjunction over the union of their variables |
| Dnf.DistributeCorrect | 01/QuineMcCluskey/Parser/ExpandedBooleanExpression.cs:152-154 | the corrected distribution always gives a sum of products with the same meaning and variables, and keeps a tree negation-free |
| Dnf.DistributeAgrees | 01/QuineMcCluskey/Parser/ExpandedBooleanExpression.cs:207-258 | on a negation-free tree where the as-written pass already reaches a sum of products, the corrected one gives the same tree |
| Dnf.DistributionCorrected | 01/QuineMcCluskey/Parser/ExpandedBooleanExpression.cs:231-237 | the corrected distribution turns `A(B+C)D` into `B*A*D+C*A*D` |
| Dnf.ToDnf | 01/QuineMcCluskey/Parser/ExpandedBooleanExpression.cs:148-155 | the corrected `TransformIntoDNF` gives a negation-free sum of products with the same variables |
| Dnf.ToDnfPreservesEval | 01/QuineMcCluskey/Parser/ExpandedBooleanExpression.cs:148-155 | and the same meaning |
| Dnf.TransformIntoDnfAsWrittenPreservesEval | 01/QuineMcCluskey/Parser/ExpandedBooleanExpression.cs:148-155 | the as-written pipeline keeps the meaning of the tree, but not necessarily its shape |
| Dnf.ApplyDistributivePropertyPreservesVars | 01/QuineMcCluskey/Parser/ExpandedBooleanExpression.cs:207-258 | the as-written distribution keeps the variables |
| Dnf.TransformIntoDnf | 01/QuineMcCluskey/Parser/ExpandedBooleanExpression.cs:148-155 | `TransformIntoDNF`, as written or corrected, keeps the variables; the corrected one gives a negation-free sum of products |
| Dnf.TransformIntoDnfPreservesEval | 01/QuineMcCluskey/Parser/ExpandedBooleanExpression.cs:148-155 | either rewrite keeps the meaning |
| Expanded.SortedVariablesCorrect | 01/QuineMcCluskey/Parser/ExpandedBooleanExpression.cs:57-64 | the variables, as the sorted set gives them, are the distinct letters in strictly ascending order, and there are as many as the set holds |
| Expanded.LexWellFormed | 01/QuineMcCluskey/Parser/Lexer.cs:56-62 | every literal the lexer emits holds a letter |
| Expanded.ExpressionWellFormed | 01/QuineMcCluskey/Parser/ExpandedBooleanExpression.cs:136-140 | every leaf the parser builds holds a letter |
| Expanded.WellFormedVars | 01/QuineMcCluskey/Parser/ExpandedBooleanExpression.cs:136-140 | so every variable recorded is a letter |
| Expanded.NewExpanded | 01/QuineMcCluskey/Parser/ExpandedBooleanExpression.cs:44-50 | the constructor, run as lexer loop, parser object and the rewrite as the source writes it, gives exactly `Expand` of the text as written |
| Expanded.ExpandCorrect | 01/QuineMcCluskey/Parser/ExpandedBooleanExpression.cs:44-72 | as written or corrected, construction fails exactly when lexing or parsing fails, with that error; a result is a tree over letters that means what the parsed tree means and holds its rendering and its variables; with the corrected rewrite it is a negation-free sum of products |
| Expanded.ReadingLeaves | 01/QuineMcCluskey/Parser/ExpandedBooleanExpression.cs:49 | every factor of the rendered sum of products is a leaf over the tree's variables |
| Expanded.RenderSplit | 01/QuineMcCluskey/ReducedBooleanExpression.cs:35 | splitting the rendering at `+` gives the rendered products, one per term |
| Expanded.ProductSplit | 01/QuineMcCluskey/Implicant.cs:76 | splitting a rendered product at `*` gives its rendered factors |
| Expanded.TermsOfExpansion | 01/QuineMcCluskey/ReducedBooleanExpression.cs:35-41 | whenever the rewritten tree has no NOT (always when corrected, and as written for such a tree), the terms the reducer reads back from `AsString` are exactly the products of the tree's reading, factor by factor |
| Strings.JoinSplit | 01/QuineMcCluskey/ReducedBooleanExpression.cs:35 | splitting and joining with the same separator restores the text |
| Strings.SplitJoin | 01/QuineMcCluskey/ReducedBooleanExpression.cs:53 | joining separator-free pieces and splitting again restores the pieces |
| Strings.SplitPiecesFree | 01/QuineMcCluskey/ReducedBooleanExpression.cs:35 | no piece of a split contains the separator |
| Strings.SplitNoSep | 01/QuineMcCluskey/Implicant.cs:76 | a text without the separator splits into itself alone |
| Strings.SplitAtSep | 01/QuineMcCluskey/ReducedBooleanExpression.cs:35 | a separator between two texts splits them apart |
| Strings.SplitAtOther | 01/QuineMcCluskey/Implicant.cs:76 | any other character glues the last piece of one side to the first piece of the other |
| Strings.CompareOrdinalZero | 01/QuineMcCluskey/Implicant.cs:219 | the string comparison is zero exactly for equal strings |
| Strings.CompareOrdinalFlip | 01/QuineMcCluskey/Implicant.cs:219 | it is antisymmetric |
| Strings.CompareOrdinalTrans | 01/QuineMcCluskey/Implicant.cs:219 | it is transitive |
| Minterms.CountsAreMultiplicities | 01/QuineMcCluskey/Implicant.cs:52-63 | the one and dash counters are the multiplicities of `1` and `-` in the vector |
| Minterms.ValueBound | 01/QuineMcCluskey/Implicant.cs:169-177 | a minterm of n bits read most-significant first is below 2^n |
| Minterms.VectorOfValue | 01/QuineMcCluskey/Implicant.cs:169-177 | the value determines the vector |
| Minterms.ValueOfVector | 01/QuineMcCluskey/Implicant.cs:169-177 | every number below 2^n is the value of its vector |
| Minterms.CoversSplit | 01/QuineMcCluskey/Implicant.cs:154-165 | replacing a dash by `1` and by `0` splits what the vector covers into two parts |
| Minterms.DrainMembers | 01/QuineMcCluskey/Implicant.cs:145-185 | the worklist yields exactly the minterms covered by some queued vector |
| Minterms.DrainNoDup | 01/QuineMcCluskey/Implicant.cs:145-185 | with pairwise disjoint queued vectors, no minterm is yielded twice |
| Minterms.DrainLength | 01/QuineMcCluskey/Implicant.cs:145-185 | it yields 2^dashes minterms per queued vector |
| Minterms.ImpliedMintermsCorrect | 01/QuineMcCluskey/Implicant.cs:138-144 | from one vector: exactly the minterms it implies, each once, 2^dashes of them |
| Minterms.ImpliedMinterms | 01/QuineMcCluskey/Implicant.cs:134-186 | `CalculateImpliedMinterms`, with its queue, its inner loop and its break, yields exactly that worklist's output |
| Minterms.ExampleOneDashDashOne | 01/QuineMcCluskey/Implicant.cs:145-185 | `1--1` yields 15, 13, 11, 9 in that order |
| Implicants.AllDashesCounts | 01/QuineMcCluskey/Implicant.cs:72-75 | the all-dash start vector has n dashes and no ones |
| Implicants.FromBitsCorrect | 01/QuineMcCluskey/Implicant.cs:47-66 | an implicant from a vector has exact counters and implies exactly the minterms the vector covers, each once, 2^dashes in all |
| Implicants.NewFromBits | 01/QuineMcCluskey/Implicant.cs:47-66 | the private constructor with its counting loop gives exactly `FromBits` |
| Implicants.NewFromTerm | 01/QuineMcCluskey/Implicant.cs:68-132 | the term constructor with its factor loop and break gives exactly the specification, as written or corrected |
| Implicants.TermMeaning | 01/QuineMcCluskey/Implicant.cs:68-132 | a term's implicant implies exactly the assignments satisfying every factor; a contradiction is all dashes with no minterms |
| Implicants.TermErrors | 01/QuineMcCluskey/Implicant.cs:82-109 | construction fails exactly when a factor is empty, malformed or not a variable; the error names the first such factor |
| Implicants.ScanMeaning | 01/QuineMcCluskey/Implicant.cs:109-128 | the factor loop keeps its meaning invariant: the vector covers exactly the assignments satisfying the factors read so far, until a contradiction |
| Implicants.ScanExact | 01/QuineMcCluskey/Implicant.cs:122-128 | the corrected loop keeps the counters equal to the counts of the vector |
| Implicants.ScanDrift | 01/QuineMcCluskey/Implicant.cs:109-128 | the factor loop, as written or corrected, never raises the dash counter above the vector's number of dashes |
| Implicants.TermSound | 01/QuineMcCluskey/Implicant.cs:68-132 | either string constructor, when it builds no contradiction, builds a sound implicant; the corrected one builds a valid one |
| Implicants.FromTermExact | 01/QuineMcCluskey/Implicant.cs:113-128 | a term's corrected implicant has exact counters and, unless contradictory, is the implicant of its vector |
| Implicants.ContradictionStopsReading | 01/QuineMcCluskey/Implicant.cs:113-121 | after `A*A'` the loop stops: a following bad factor `%` raises nothing |
| Implicants.RepeatedLiteralDrift | 01/QuineMcCluskey/Implicant.cs:122-128 | as written, `A*A` counts two ones and minus one dash |
| Implicants.RepeatedLiteralCorrected | 01/QuineMcCluskey/Implicant.cs:122-128 | corrected, `A*A` is the implicant of `1` |
| Implicants.RepeatedLiteralBlocksMerge | 01/QuineMcCluskey/Implicant.cs:253-256 | the drifted `A*A` does not merge with `A'`, though the two vectors are adjacent |
| Implicants.RepeatedLiteralMergesCorrected | 01/QuineMcCluskey/Implicant.cs:246-284 | corrected, they merge into `-` covering minterms 1 and 0 |
| Implicants.ToString | 01/QuineMcCluskey/Implicant.cs:189-207 | the rendering loop gives exactly `Display` |
| Implicants.DisplayIsText | 01/QuineMcCluskey/Implicant.cs:189-207 | for exact counters, the all-dash shortcut agrees with the general rendering |
| Implicants.TextAllDashes | 01/QuineMcCluskey/Implicant.cs:191-192 | an all-dash vector renders as the empty text |
| Implicants.TextLetters | 01/QuineMcCluskey/Implicant.cs:196-204 | the rendering holds only the vector's variables and `'` |
| Implicants.TextInjective | 01/QuineMcCluskey/Implicant.cs:196-204 | over sorted distinct letters, different vectors render differently |
| Implicants.EqualsIffSameBits | 01/QuineMcCluskey/Implicant.cs:228-234 | `Equals` by text holds exactly when the vectors agree, and then the implicants are the same |
| Implicants.CompareToFlip | 01/QuineMcCluskey/Implicant.cs:211-221 | `CompareTo` is antisymmetric |
| Implicants.CompareToTrans | 01/QuineMcCluskey/Implicant.cs:211-221 | it is transitive |
| Implicants.CompareToZero | 01/QuineMcCluskey/Implicant.cs:211-221 | it is zero exactly for equal implicants |
| Implicants.DashClashAt | 01/QuineMcCluskey/Implicant.cs:267-272 | the loop's break fires exactly when some mismatch involves a dash |
| Implicants.CombinedAt | 01/QuineMcCluskey/Implicant.cs:262-277 | the merged vector keeps agreeing positions and puts a dash where they differ |
| Implicants.CombineVectors | 01/QuineMcCluskey/Implicant.cs:258-281 | the comparison loop with its counter and break gives exactly `MergeVectors` |
| Implicants.MergeWith | 01/QuineMcCluskey/Implicant.cs:246-284 | `Merge` gives exactly its specification, including the copy for a null argument |
| Implicants.AdjacentCounts | 01/QuineMcCluskey/Implicant.cs:253-255 | adjacent vectors pass the guard: equal dash counts, one counts differing by one |
| Implicants.MergeIffAdjacent | 01/QuineMcCluskey/Implicant.cs:253-282 | two implicants merge if and only if their vectors differ in exactly one position, where neither has a dash |
| Implicants.MergeCorrect | 01/QuineMcCluskey/Implicant.cs:246-284 | a merge has one more dash and covers, and implies, exactly the union of what the two cover |
| Implicants.MergeSymmetric | 01/QuineMcCluskey/Implicant.cs:246-284 | merging is symmetric |
| Sorting.Sort | 01/QuineMcCluskey/ReducedBooleanExpression.cs:66 | sorting permutes its input |
| Sorting.SortSorted | 01/QuineMcCluskey/ReducedBooleanExpression.cs:66 | the result is ordered by `CompareTo` |
| Sorting.SortIsUnique | 01/QuineMcCluskey/ReducedBooleanExpression.cs:66 | any ordered permutation is that result, so the sort's stability does not matter |
| Sorting.DedupCorrect | 01/QuineMcCluskey/ReducedBooleanExpression.cs:92 | dropping equal neighbours of a sorted list keeps its members, keeps the order and leaves no duplicate |
| Sorting.SortedSetCorrect | 01/QuineMcCluskey/ReducedBooleanExpression.cs:92 | `new SortedSet` holds the same members once each, strictly ascending |
| Sorting.PairSet | 01/QuineMcCluskey/ReducedBooleanExpression.cs:92 | two implicants in strictly ascending order, listed twice, give themselves as the sorted set |
| Rounds.MintermsOf | 01/QuineMcCluskey/Implicant.cs:134-186 | a valid implicant lists exactly the minterms its vector implies, 2^dashes of them, and has no more dashes than variables |
| Rounds.MergeFacts | 01/QuineMcCluskey/Implicant.cs:246-284 | a merge of valid implicants is valid, has one more dash, and implies the union of their minterms |
| Rounds.SortedRanked | 01/QuineMcCluskey/Implicant.cs:208-221 | a sorted round is ordered by dashes, then by ones |
| Rounds.PartnersMembers | 01/QuineMcCluskey/ReducedBooleanExpression.cs:73-84 | each product of the inner scan is the merge of the current implicant with a later one |
| Rounds.Window | 01/QuineMcCluskey/ReducedBooleanExpression.cs:76-77 | in a ranked round, the break never skips a later implicant that could merge with the current one |
| Rounds.PartnersHas | 01/QuineMcCluskey/ReducedBooleanExpression.cs:73-84 | if a later implicant before the break merges, the scan reports `combined` |
| Rounds.PairCombines | 01/QuineMcCluskey/ReducedBooleanExpression.cs:69-88 | of two mergeable implicants in a round, the earlier one is never a round prime |
| Rounds.RoundProducts | 01/QuineMcCluskey/ReducedBooleanExpression.cs:69-88 | every product comes from a pair in the round |
| Rounds.RoundPrimes | 01/QuineMcCluskey/ReducedBooleanExpression.cs:69-88 | every round prime is an implicant of the round that combined with no later one |
| Rounds.RoundContains | 01/QuineMcCluskey/ReducedBooleanExpression.cs:69-88 | every product of one implicant's scan is among the round's products, and an implicant whose scan finds none is a round prime |
| Rounds.RoundCover | 01/QuineMcCluskey/ReducedBooleanExpression.cs:69-88 | products and round primes together cover exactly the minterms of the round |
| Rounds.RoundPrimesUnmergeable | 01/QuineMcCluskey/ReducedBooleanExpression.cs:69-88 | no two round primes merge |
| Rounds.NoProducts | 01/QuineMcCluskey/ReducedBooleanExpression.cs:89 | a round that forms no product has no two mergeable implicants |
| Rounds.ProductLevel | 01/QuineMcCluskey/ReducedBooleanExpression.cs:62-89 | every product of round r has at least r+1 and at most n dashes, so the rounds stop |
| Rounds.RoundLevels | 01/QuineMcCluskey/ReducedBooleanExpression.cs:62-89 | the same for a whole round |
| Rounds.CoverStep | 01/QuineMcCluskey/ReducedBooleanExpression.cs:62-92 | one pass of the do-while keeps the invariant and the covered minterms; the last pass leaves a sorted set with the same cover |
| Rounds.RoundStep | 01/QuineMcCluskey/ReducedBooleanExpression.cs:62-89 | one pass of the do-while sorts the same members, keeps the cover, and either sets up the next round one dash level higher or is the last one |
| Rounds.LastRound | 01/QuineMcCluskey/ReducedBooleanExpression.cs:91-92 | the final sorted set is strictly ascending and duplicate-free, no two of its members merge, and it has the members of the last round's input |
| Rounds.RoundOfPair | 01/QuineMcCluskey/ReducedBooleanExpression.cs:69-88 | over two implicants the round forms their product when the scan reaches it, keeps the first when there is none, and always keeps the second |
| Rounds.PrimesWhenNoneMerge | 01/QuineMcCluskey/ReducedBooleanExpression.cs:62-92 | a round that forms no product and keeps every element ends the search with the sorted set of its elements |
| Rounds.PrimesFrom | 01/QuineMcCluskey/ReducedBooleanExpression.cs:57-93 | the primes are strictly sorted, distinct, pairwise unmergeable, and cover exactly the minterms of the implicants |
| Tables.AddEntryFacts | 01/QuineMcCluskey/ReducedBooleanExpression.cs:101-105 | adding one minterm: a new key is appended, and only that key's list grows, by the implicant |
| Tables.AddMinterms | 01/QuineMcCluskey/ReducedBooleanExpression.cs:99-106 | every minterm of an implicant has the implicant appended to its list, and nothing else changes |
| Tables.BuildTable | 01/QuineMcCluskey/ReducedBooleanExpression.cs:95-108 | the table lists, for each minterm covered, in first-seen key order, the primes containing it, in prime order |
| Tables.BuildStep | 01/QuineMcCluskey/ReducedBooleanExpression.cs:97-106 | one prime more extends that description |
| Tables.TableCount | 01/QuineMcCluskey/ReducedBooleanExpression.cs:45 | `_mintermCount` is the number of minterms covered by the primes |
| Tables.AddFinalIsAdd | 01/QuineMcCluskey/ReducedBooleanExpression.cs:119 | the set's `Add` by text skips an implicant exactly when it is already present |
| Tables.BestOf | 01/QuineMcCluskey/ReducedBooleanExpression.cs:136-145 | the greedy choice covers the most minterms in the list, the first such wins, and nothing is chosen only when every list entry covers none |
| Tables.BestFor | 01/QuineMcCluskey/ReducedBooleanExpression.cs:136-146 | for a table key the choice exists, is in the key's list and covers the key |
| Tables.EssentialTwin | 01/QuineMcCluskey/ReducedBooleanExpression.cs:112-121 | an essential implicant's only twin among the finals is itself |
| Tables.GreedyTwin | 01/QuineMcCluskey/ReducedBooleanExpression.cs:132-146 | the greedy choice for an uncovered key has no twin among the finals |
| Tables.EssentialsPicked | 01/QuineMcCluskey/ReducedBooleanExpression.cs:112-121 | the first pass adds the sole implicant of every single-entry list, and only table members |
| Tables.GreedyKeeps | 01/QuineMcCluskey/ReducedBooleanExpression.cs:132-150 | the greedy pass only adds table members and keeps what was chosen |
| Tables.GreedyCovers | 01/QuineMcCluskey/ReducedBooleanExpression.cs:132-150 | after the greedy pass, every key of the table is covered, early break or not |
| Tables.PickCovers | 01/QuineMcCluskey/ReducedBooleanExpression.cs:110-152 | the pick covers exactly the table's minterms, repeats nothing, holds only table members and every essential one |
| Tables.TablePick | 01/QuineMcCluskey/ReducedBooleanExpression.cs:95-152 | over the primes: the count is theirs, the pick covers what they cover, and every prime that is the sole coverer of a minterm is picked |
| Terms.AlphabetOf | 01/QuineMcCluskey/ReducedBooleanExpression.cs:28-33 | the alphabet maps exactly the variables, each to a position holding it |
| Terms.AlphabetPositions | 01/QuineMcCluskey/ReducedBooleanExpression.cs:28-33 | over distinct sorted variables, each maps to its own index |
| Terms.InitialFrom | 01/QuineMcCluskey/ReducedBooleanExpression.cs:34-41 | fails exactly when some term is malformed; otherwise it keeps the non-contradictory terms' implicants, which imply exactly the minterms where some term holds |
| Terms.ErrorStays | 01/QuineMcCluskey/ReducedBooleanExpression.cs:34-41 | the first failing term's error is the loop's error |
| Terms.InitialStep | 01/QuineMcCluskey/ReducedBooleanExpression.cs:36-40 | one more term keeps the invariant: the list, with the term's implicant added unless it is a contradiction, covers exactly where some term read so far holds |
| Terms.VariablesSorted | 01/QuineMcCluskey/Parser/ExpandedBooleanExpression.cs:57-64 | the sorted variables of any expansion are distinct letters in increasing order, and their alphabet fits |
| Terms.ExpandedReadable | 01/QuineMcCluskey/Parser/ExpandedBooleanExpression.cs:44-50 | whenever the rewritten tree has no NOT, as written or corrected, the text splits into the rendered products of the tree's reading, over letters that are all among its sorted variables |
| Terms.ImplicantRows | 01/QuineMcCluskey/Implicant.cs:68-132 | a term's implicant implies the assignments satisfying the term; a contradiction implies none |
| Terms.FactorMeaning | 01/QuineMcCluskey/Implicant.cs:82-128 | the rendering of a leaf is a factor the implicant reads, and it holds where the leaf is true |
| Terms.ProductMeaning | 01/QuineMcCluskey/Implicant.cs:76-129 | a rendered product holds where the product is true |
| Terms.TermOfProduct | 01/QuineMcCluskey/ReducedBooleanExpression.cs:35-41 | each term of the expansion builds an implicant that holds where its product is true |
| Terms.TermsOk | 01/QuineMcCluskey/ReducedBooleanExpression.cs:34-41 | no term of such a readable text makes either string constructor throw |
| Terms.TermsMean | 01/QuineMcCluskey/ReducedBooleanExpression.cs:34-41 | some term holds exactly where the sum of products is true |
| Terms.ReducibleIff | 01/QuineMcCluskey/ReducedBooleanExpression.cs:27-41 | the alphabet of an expansion's sorted variables always fits; the constructor can proceed exactly when its term loop throws nothing |
| Terms.InitialOk | 01/QuineMcCluskey/ReducedBooleanExpression.cs:21-41 | whenever the rewritten tree has no NOT (always when corrected), the term loop throws nothing, as written or corrected |
| Terms.InitialMeaning | 01/QuineMcCluskey/ReducedBooleanExpression.cs:21-41 | whenever the rewritten tree is a negation-free sum of products (always when corrected), the initial implicants cover exactly the assignments under which the parsed expression is true, as written or corrected |
| Reducer.FinishIs | 01/QuineMcCluskey/ReducedBooleanExpression.cs:43-46 | the constructor's steps after the term loop, taken one by one, give `Finish` |
| Reducer.Build | 01/QuineMcCluskey/ReducedBooleanExpression.cs:25-47 | construction from an expansion throws exactly when its term loop throws, with that error; otherwise it is the reduction of the implicants read |
| Reducer.ReduceErrors | 01/QuineMcCluskey/ReducedBooleanExpression.cs:21-23 | as written or corrected: a lexing or parsing error is construction's error and the solver's; past the parser, construction throws only a malformed-implicant or unknown-variable error that some term's constructor throws; a rewrite that leaves no NOT throws nothing; corrected, construction fails exactly when parsing fails |
| Reducer.ReduceReadsText | 01/QuineMcCluskey/ReducedBooleanExpression.cs:21-47 | as written or corrected, the variables are the parsed tree's letters in ascending order, and the final implicants imply exactly the rows where some term of `AsString`, read factor by factor, holds |
| Reducer.ReduceMeaning | 01/QuineMcCluskey/ReducedBooleanExpression.cs:21-47 | for a parsable expression, corrected always and as written whenever the rewrite leaves a negation-free sum of products: construction succeeds, the variables are its letters in ascending order, and the final implicants cover exactly the assignments under which it is true |
| Reducer.PrimesOfReduction | 01/QuineMcCluskey/ReducedBooleanExpression.cs:43-46 | the prime set is strictly sorted, distinct and pairwise unmergeable, and covers the implicants' minterms; `_mintermCount` counts them; the finals cover the same minterms, are distinct, are primes, and include every essential prime |
| Reducer.ReducePrimes | 01/QuineMcCluskey/ReducedBooleanExpression.cs:21-47 | the same facts for every successful reduction of a text, as written or corrected |
| Reducer.TextFree | 01/QuineMcCluskey/Implicant.cs:196-204 | an implicant's text never holds `+` |
| Reducer.OutputTerms | 01/QuineMcCluskey/ReducedBooleanExpression.cs:49-55 | the output is the finals' texts joined with `+`; splitting it at `+` gives back those texts, and no finals give the empty text |
| Reducer.ReducedBooleanExpression.constructor | 01/QuineMcCluskey/ReducedBooleanExpression.cs:43-47 | from the call of `CalculatePrimeImplicants` on, the fields hold what `Finish` computes from the implicants read, and no text is cached |
| Reducer.ReducedBooleanExpression.Create | 01/QuineMcCluskey/ReducedBooleanExpression.cs:25-47 | `new ReducedBooleanExpression(bexpr)` as the source runs it: the first term's exception, or a fresh object holding `Build` of the expansion, with no text cached |
| Reducer.ReducedBooleanExpression.CalculatePrimeImplicants | 01/QuineMcCluskey/ReducedBooleanExpression.cs:57-93 | the do-while with its sort, scan and final sorted set gives exactly `PrimesFrom`, and stops because each round adds a dash |
| Reducer.ReducedBooleanExpression.BuildMintermToPrimeImplicantTable | 01/QuineMcCluskey/ReducedBooleanExpression.cs:95-108 | the nested loops give exactly `BuildTable` |
| Reducer.ReducedBooleanExpression.AddImplicant | 01/QuineMcCluskey/ReducedBooleanExpression.cs:99-106 | the inner loop gives exactly `AddMinterms` |
| Reducer.ReducedBooleanExpression.PickFinalImplicants | 01/QuineMcCluskey/ReducedBooleanExpression.cs:110-152 | both passes give exactly `Pick` |
| Reducer.ReducedBooleanExpression.GreedyLoop | 01/QuineMcCluskey/ReducedBooleanExpression.cs:132-150 | the greedy loop with its `continue` and early `break` gives exactly `GreedyFrom` |
| Reducer.ReducedBooleanExpression.ToString | 01/QuineMcCluskey/ReducedBooleanExpression.cs:49-55 | the cached or freshly joined text is `Shown` of the state, and the cache stays consistent |
| Reducer.ReducedBooleanExpression.SolveQuineMcCluskey | 01/QuineMcCluskey/ReducedBooleanExpression.cs:155-158 | expand, construct and render as the source does: exactly `Output` of the text as written, an exception becoming an `Err` |
| Reducer.Prepare | 01/QuineMcCluskey/ReducedBooleanExpression.cs:27-41 | for any expansion, the constructor's first loops give the sorted variables, an alphabet that fits, and the implicants the source's term loop reads, or that loop's exception |
| Reducer.AlphabetLoop | 01/QuineMcCluskey/ReducedBooleanExpression.cs:28-33 | the indexing loop gives exactly `AlphabetOf` |
| Reducer.TermsLoop | 01/QuineMcCluskey/ReducedBooleanExpression.cs:34-41 | the term loop, skipping contradictions, gives exactly `InitialFrom` |
| Reducer.BestLoop | 01/QuineMcCluskey/ReducedBooleanExpression.cs:136-145 | the maximum loop gives exactly `BestOf` |
| Reducer.ScanPartners | 01/QuineMcCluskey/ReducedBooleanExpression.cs:73-84 | the inner loop with its break gives the products `Partners` defines, and `combined` says whether there were any |
| Reducer.ScanRound | 01/QuineMcCluskey/ReducedBooleanExpression.cs:69-88 | the outer loop gives exactly `RoundFrom`: the products and the round primes |
| Runs.LexExampleDistribution | 01/QuineMcCluskey/Parser/Lexer.cs:41-62 | `A(B+C)D` lexes with an AND after `A` and one after `)` |
| Runs.LexExampleRepeatedLiteral | 01/QuineMcCluskey/Parser/Lexer.cs:41-62 | `AA+A'` lexes with an AND between the two letters |
| Runs.LexExampleTripleNegation | 01/QuineMcCluskey/Parser/Lexer.cs:41-62 | `(A+B)'''` lexes to the group and three NOTs, with no AND inserted |
| Runs.TripleNegationExpands | 01/QuineMcCluskey/Parser/ExpandedBooleanExpression.cs:148-155 | as written, `(A+B)'''` expands to the tree `(A+B)'` with text `(A+B)'` |
| Runs.TripleNegationThrows | 01/QuineMcCluskey/Parser/ExpandedBooleanExpression.cs:200-204 | as written, construction and the solver throw a malformed implicant for the term `(A`; corrected, construction succeeds |
| Runs.DistributionReduces | 01/QuineMcCluskey/Parser/ExpandedBooleanExpression.cs:231-237 | `A(B+C)D` expands as written to the text `B*A+C*A*D`, over the variables `ABCD`, and construction succeeds as written and corrected |
| Runs.DistributionReadsMore | 01/QuineMcCluskey/Parser/ExpandedBooleanExpression.cs:231-237 | as written, the final implicants of `A(B+C)D` cover minterm 12, where the expression is false; corrected, they do not |
| Runs.RepeatedExpands | 01/QuineMcCluskey/Parser/ExpandedBooleanExpression.cs:148-155 | `AA+A'` parses to `A*A+(A)'` and either rewrite gives `A*A+A'` |
| Runs.RepeatedTerms | 01/QuineMcCluskey/ReducedBooleanExpression.cs:27-35 | its one variable `A` sits at position 0, and its text splits into `A*A` and `A'` |
| Runs.RepeatedImplicants | 01/QuineMcCluskey/Implicant.cs:122-128 | as written the terms give `A*A` with two ones and minus one dash, and `A'`; corrected, `A*A` is the implicant of `1` |
| Runs.DriftedPrimes | 01/QuineMcCluskey/ReducedBooleanExpression.cs:62-92 | as written, the drifted `A*A` and `A'` never merge and are both prime |
| Runs.DriftedFinals | 01/QuineMcCluskey/ReducedBooleanExpression.cs:110-152 | as written, both are essential and picked, printing `A+A'` |
| Runs.RepeatedOutput | 01/QuineMcCluskey/Implicant.cs:122-128 | as written, the solver prints `A+A'` for `AA+A'` |
| Runs.ExactPrimes | 01/QuineMcCluskey/ReducedBooleanExpression.cs:62-92 | corrected, the primes are `A*A` (kept because it merged only with an earlier member) and the tautology `-` |
| Runs.ExactFinals | 01/QuineMcCluskey/ReducedBooleanExpression.cs:110-152 | corrected, `-` alone is essential and covers both minterms, so it is the whole pick and prints as the empty text |
| Runs.RepeatedOutputCorrected | 01/QuineMcCluskey/Implicant.cs:122-128 | corrected, the solver prints the empty text, the tautology, for `AA+A'` |
| Runs.TableOfTwo | 01/QuineMcCluskey/ReducedBooleanExpression.cs:95-108 | two implicants of one different minterm each give a table of two keys, each listing its implicant |
| Runs.PickOfTwo | 01/QuineMcCluskey/ReducedBooleanExpression.cs:110-152 | there both are essential and make up the pick |
| Runs.TableOfNested | 01/QuineMcCluskey/ReducedBooleanExpression.cs:95-108 | an implicant of minterm `a` and one of `a` and `b` give `a` listing both and `b` listing the second |
| Runs.PickOfNested | 01/QuineMcCluskey/ReducedBooleanExpression.cs:110-152 | there the second is essential for `b`, covers both keys and is the whole pick |

## Left out

- **Console entry point.** QuineMcCluskeySolver.cs reads from and writes to the console and is not part of this model. `SolveQuineMcCluskey` is its pure core.
- **Mutable objects.** The source's private constructor helpers update the object's fields. Here they are static methods that return values, and the constructor assigns the fields once.
- **List aliasing.** In the source, the first round's `startingSet` is the `_implicants` list itself, so `_implicants` ends up sorted and extended. The model keeps `implicants` as the initial list. Nothing reads the field after construction.
- **Caches.** The implicant text cache (`_asString`) is not modelled; the text is recomputed. The reducer's `ToString` cache is modelled.
- **String comparison.** The model assumes that `string.CompareTo` (Implicant.cs:219) orders implicant texts by the ordinal order of their characters. In .NET that call uses the current culture, so the assumption holds only under a culture that orders the letters and `'` that way. `Implicants.CompareTo` and everything that sorts by it depend on it: the order of the prime set (`Sorting.SortedSet`), the resulting order of the table's keys, which implicant wins a tie in the greedy step, and the order of the output.
- **Hash containers.** `Dictionary` and `HashSet` are modelled as sequences in insertion order. The minterm table keeps its keys in the order they were first added. The final implicants are joined in the order they were added. .NET does not document this order, but it holds for additions without removals.
- **Integer widths.** Minterms (`uint`), counters (`int`) and alphabet positions (`ushort`) are unbounded integers. At most 26 distinct letters are possible, so no value the model computes overflows the source's types.
- **Sort stability.** `List.Sort` is not stable. `Sorting.SortIsUnique` proves the sorted result is unique among permutations, so one insertion sort stands for it.
- **Null paths.** Null tokens and nodes are modelled as `Option` or by the shape of the datatype. So is `Merge(null)`, which copies the implicant. `CompareTo(null)` returns 1, through `Option`. The null `toAdd` after an all-empty list cannot occur for a table key (`Tables.BestFor`).
- **Exceptions.** Every exception becomes an `Err` result; `Tokens.Message` gives its text. An unknown variable in a term would make the dictionary lookup throw. The model has an `UnknownVariable` error for it, which `Terms.TermsOk` proves never occurs for an expansion whose rewritten tree has no NOT.
- **Greedy cover.** The greedy cover is not minimal, and the model states no minimality. `Tables.PickCovers` states coverage, essentials and no repetition.
- Rounds.PrimesFrom: states that the primes are pairwise unmergeable and keep the cover, not that each one is prime in the textbook sense. The source's `combined` flag records only merges with later members of a round, so an implicant that merged only with an earlier one is kept among the primes. It then never merges again, because later rounds hold only implicants with more dashes. The output is unaffected: such an implicant is never the sole coverer of a minterm, and it never wins the greedy choice.
- **Helper methods.** The loops of the constructor are split into helper methods: `Prepare`, `AlphabetLoop`, `TermsLoop`, `BestLoop`, `ScanPartners` and `ScanRound`. The single steps of two of them are the `MergeNext` and `RoundNext` methods. `Create` is the constructor's exception path: it runs `Prepare` and then the class constructor, which takes the implicants read. The statements are those of the source.
- **Corrected passes beside the source's.** The pipeline functions (`Expanded.Expand`, `Reducer.Build`, `Reducer.Reduce`, `Reducer.Output`) take a flag `asWritten`. The methods that model the source (`Expanded.NewExpanded`, `Reducer.ReducedBooleanExpression.Create`, `Reducer.ReducedBooleanExpression.SolveQuineMcCluskey`) use the passes as written. The corrected passes `Dnf.ToDnf` and `Implicants.FromTerm` are the other setting; see Findings.
- Dnf.ApplyDistributiveProperty: does not model node aliasing. The source puts the same `otherChild` node under both new ANDs and rewrites nodes in place, so rewriting one copy can change the other. The model rewrites trees as values. The results differ on `(X+Y)(A(B+C)D)`: the source renders `X*B*A+C*A*D+Y*B*A*D+C*A*D`, the model `X*B*A+C*A*D+Y*B*A+C*A*D`. The proofs of meaning and variables (`Dnf.ApplyDistributivePropertyPreservesEval`, `Dnf.ApplyDistributivePropertyPreservesVars`) hold for the model's trees, not for the source's shared ones.
- Reducer.ReduceMeaning: as written, it holds only when the rewrite leaves a negation-free sum of products (the requires `Flattened`). Otherwise only `Reducer.ReduceReadsText` holds, as `Runs.DistributionReadsMore` shows.
- Terms.InitialMeaning: as written, it holds only when the rewritten tree is a negation-free sum of products. The requires says so.
- Terms.InitialOk, Terms.ExpandedReadable, Expanded.TermsOfExpansion: as written, they hold only when no NOT survives the rewrite. `Runs.TripleNegationThrows` shows a text where one does.
- Expanded.ExpandCorrect: as written, it does not promise a negation-free sum of products, since the source's rewrite does not always reach one.
- **Tokens.Message:** the message of the unknown-variable error is the .NET dictionary message. The message does not name the letter.
- **Reducer tests.** The end-to-end expected outputs of ReducedBooleanExpressionTest.cs, such as `AB+CD` to `AB+CD`, are not proved as concrete examples. Evaluating the whole pipeline symbolically on such inputs is beyond what the verifier does in reasonable time. `Reducer.ReduceMeaning` states the property those outputs have: they cover exactly the minterms of the input.

## Where the specification and the code disagree

The model follows the code in these places:

- **Trailing tokens.** The parser does not require the token stream to end after the expression (`Parser.ExampleTrailingTokens`).
- **Negation pass.** The De Morgan pass does not search again below a double negation, so a NOT can survive.
- **Distribution pass.** The distributive pass does not revisit an AND whose children become sums.
- **Counters.** A repeated literal in a term shifts the implicant's counters.

The last three are listed below.

## Findings

| source | as written | input that shows it | evidently intended | confidence | as-written member | corrected member |
|---|---|---|---|---|---|---|
| 01/QuineMcCluskey/Parser/ExpandedBooleanExpression.cs:231-237 | an AND with no OR child only has its children rewritten; if they become sums, the AND is not distributed again | `A(B+C)D` gives `B*A+C*A*D`, read back as `BA+CAD`, true at A=B=1, D=0 | distribute until a sum of products is reached: `B*A*D+C*A*D` | not executed | Dnf.DistributionNotAtFixpoint, Dnf.DistributionMisread, Runs.DistributionReadsMore | Dnf.DistributeCorrect, Dnf.DistributionCorrected, Reducer.ReduceMeaning |
| 01/QuineMcCluskey/Parser/ExpandedBooleanExpression.cs:200-204 | `ApplyDeMorgan` of a NOT returns its child without searching it | `(A+B)'''` leaves `(A+B)'`, whose terms `(A` and `B)'` are malformed implicants | negations pushed to the leaves: `A'*B'` | not executed | Dnf.TripleNegationSurvives, Runs.TripleNegationThrows | Dnf.PushNegationsCorrect, Dnf.TripleNegationCorrected, Reducer.ReduceErrors |
| 01/QuineMcCluskey/Implicant.cs:122-128 | a factor repeating an earlier assignment decrements the dash count and increments the one count again | `AA+A'`: `A*A` gets 2 ones and -1 dashes, so the merge guard rejects `A'` and the output is `A+A'` | counters change only when a dash is replaced; `A*A` merges with `A'` to the tautology | not executed | Implicants.RepeatedLiteralDrift, Implicants.RepeatedLiteralBlocksMerge, Runs.RepeatedOutput | Implicants.FromTermExact, Implicants.RepeatedLiteralMergesCorrected, Runs.RepeatedOutputCorrected |
