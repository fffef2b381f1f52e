/** Tokens of the boolean-expression language, the errors the pipeline raises, and the
    small Option/Result wrappers used to carry them. */
module Tokens {

  datatype Option<+T> = None | Some(value: T)

  /** One token. Operators and parentheses carry a fixed character; a literal carries its letter. */
  datatype Token = AndOp | OrOp | NotOp | LeftParen | RightParen | Literal(letter: char)

  const AND: char := '*'
  const OR: char := '+'
  const NOT: char := '\''
  const LEFT_PAREN: char := '('
  const RIGHT_PAREN: char := ')'
  const START_ALPHA: char := 'A'
  const END_ALPHA: char := 'Z'

  /** What the parser was doing when it met an unexpected token. */
  datatype ParseFailure = ExpectedRightParen | ParsingLiteral

  /** The exceptions the pipeline throws, one constructor per kind. */
  datatype Error =
    | InvalidCharacter(c: char)
    | MalformedExpression(failure: ParseFailure, found: Option<Token>)
    | MalformedImplicant(term: string)
    | UnknownVariable(v: char)

  datatype Result<+T> = Ok(value: T) | Err(error: Error)

  /** `Literal.IsValid`: the reserved variable range. */
  predicate IsValid(c: char) {
    START_ALPHA <= c <= END_ALPHA
  }

  /** A token whose literal (if any) holds a valid letter: the only tokens `new Literal(c)` admits. */
  predicate WellFormed(t: Token) {
    t.Literal? ==> IsValid(t.letter)
  }

  /** The character a token carries (`Token.value`). */
  function Value(t: Token): (c: char)
    ensures t.Literal? ==> c == t.letter
    ensures WellFormed(t) ==> (IsValid(c) <==> t.Literal?)
  {
    match t
    case AndOp => AND
    case OrOp => OR
    case NotOp => NOT
    case LeftParen => LEFT_PAREN
    case RightParen => RIGHT_PAREN
    case Literal(c) => c
  }

  /** `new Literal(c)`: fails with InvalidCharacter outside A-Z. */
  function NewLiteral(c: char): (r: Result<Token>)
    ensures r.Ok? <==> IsValid(c)
    ensures r.Ok? ==> r.value.Literal? && Value(r.value) == c && WellFormed(r.value)
    ensures r.Err? ==> r.error == InvalidCharacter(c)
  {
    if IsValid(c) then Ok(Literal(c)) else Err(InvalidCharacter(c))
  }

  /** `Token.Match`, overridden by `Literal.Match`. */
  function Match(t: Token, c: char): bool {
    if t.Literal? then IsValid(c) else Value(t) == c
  }

  /** `Token.Equals(Token)`: a null argument is never equal; otherwise only the characters are compared. */
  function Equals(t: Token, other: Option<Token>): bool {
    other.Some? && Value(t) == Value(other.value)
  }

  /** `Token.ToString`. */
  function ToString(t: Token): (s: string)
    ensures |s| == 1 && s[0] == Value(t)
  {
    [Value(t)]
  }

  /** A well-formed token matches its own character; a literal matches every letter and only letters;
      every other token matches exactly its own character. */
  lemma MatchCharacterisation(t: Token, c: char)
    requires WellFormed(t)
    ensures Match(t, Value(t))
    ensures t.Literal? ==> (Match(t, c) <==> IsValid(c))
    ensures !t.Literal? ==> (Match(t, c) <==> c == Value(t))
  {
  }

  /** Comparing characters is the same as comparing tokens, because no operator character is a letter. */
  lemma EqualsIsIdentity(a: Token, b: Token)
    requires WellFormed(a) && WellFormed(b)
    ensures Equals(a, Some(b)) <==> a == b
    ensures !Equals(a, None)
  {
  }

  /** The message text of each exception, as the source formats it; a missing token prints as nothing. */
  function Message(e: Error): string {
    match e
    case InvalidCharacter(c) => "Invalid character (" + [c] + ")"
    case MalformedExpression(ExpectedRightParen, found) =>
      "Malformed expression: expected ')' found " + FoundText(found)
    case MalformedExpression(ParsingLiteral, found) =>
      "Malformed expression: parsing literal found " + FoundText(found)
    case MalformedImplicant(term) => "Malformed implicant (" + term + ")"
    case UnknownVariable(v) => "The given key was not present in the dictionary."
  }

  function FoundText(t: Option<Token>): string {
    if t.Some? then ToString(t.value) else ""
  }
}
