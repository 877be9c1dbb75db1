/**
 * The recursive-descent parser of parsing/predicates.go (predicateParser).
 * The functions ParseExprSpec, ParseSubSpec, ParseBinarySpec,
 * ParseSubAndSpec and ParseFlagSpec say what each parser routine returns
 * when it starts with the cursor at c; the class Parser holds the token
 * list and the cursor and its methods are the routines of the source,
 * proved to return what the functions say and to leave the cursor where
 * they say.
 */
module PredicateParser {
  import opened Wrappers
  import opened Predicate
  import opened PredicateTokens

  datatype ParseError =
    | UnknownFlag(flag: string)                  // parseFlag's default case
    | ExpectedBinaryOperator(found: TokenKind)   // neither -and nor -or after an operand
    | UnexpectedEnd                              // a sub-expression was expected
    | MissingCloseParen
    | UnexpectedToken(found: TokenKind)          // not a flag, -not or '(' where a sub-expression was expected

  /** What a parser routine leaves behind: the predicate it built (on an
      error, whatever the source returns alongside the error), the cursor,
      and the error. */
  datatype Parsed = Parsed(pred: Pred, cursor: nat, err: Option<ParseError>)

  /** allTokensConsumed, for a cursor c. */
  predicate AtEnd(tokens: seq<Token>, c: nat)
  {
    c == |tokens|
  }

  /** stoppingPoint: the end of the tokens, or a ')'. */
  predicate Stops(tokens: seq<Token>, c: nat)
    requires c <= |tokens|
  {
    AtEnd(tokens, c) || tokens[c].kind == CloseParen
  }

  /** Having consumed every token is a stopping point; and parseExpression
      consumes nothing and returns the identity exactly at a stopping
      point: anywhere else it consumes a token or fails. */
  lemma StoppingPoints(tokens: seq<Token>, c: nat)
    requires c <= |tokens|
    ensures AtEnd(tokens, c) ==> Stops(tokens, c)
    ensures Stops(tokens, c) <==> ParseExprSpec(tokens, c) == Parsed(Id, c, None)
  {
    if !Stops(tokens, c) {
      var left := ParseSubSpec(tokens, c);
      assert left.err.None? ==> c < left.cursor;
    }
  }

  /** parseFlag: the flag token at c becomes a leaf. */
  function ParseFlagSpec(tokens: seq<Token>, c: nat): (r: Parsed)
    requires c < |tokens|
    ensures r.err.None? <==> r.cursor == c + 1
    ensures r.err.Some? ==> r.cursor == c
  {
    var token := tokens[c];
    if token.flag == CustomFlag then Parsed(Custom(token.text), c + 1, None)
    else if token.flag == IsDirtyFlag then Parsed(IsDirty, c + 1, None)
    else Parsed(Id, c, Some(UnknownFlag(token.flag)))
  }

  const CustomFlag := "-custom"
  const IsDirtyFlag := "-isdirty"

  /**
   * parseSubExpression: a flag, `-not` and a sub-expression, `()`, or a
   * parenthesised expression.  On success it has consumed at least one
   * token.
   */
  function ParseSubSpec(tokens: seq<Token>, c: nat): (r: Parsed)
    requires c <= |tokens|
    ensures c <= r.cursor <= |tokens|
    ensures r.err.None? ==> c < r.cursor
    decreases |tokens| - c, 0
  {
    if AtEnd(tokens, c) then Parsed(Id, c, Some(UnexpectedEnd))
    else
      match tokens[c].kind
      case FlagKind => ParseFlagSpec(tokens, c)
      case NotOp =>
        var r := ParseSubSpec(tokens, c + 1);
        Parsed(Not(r.pred), r.cursor, r.err)
      case OpenParen =>
        if !AtEnd(tokens, c + 1) && tokens[c + 1].kind == CloseParen then Parsed(Id, c + 2, None)
        else
          var r := ParseExprSpec(tokens, c + 1);
          if r.err.Some? then r
          else if AtEnd(tokens, r.cursor) then Parsed(r.pred, r.cursor, Some(MissingCloseParen))
          else Parsed(r.pred, r.cursor + 1, None)
      case _ => Parsed(Id, c, Some(UnexpectedToken(tokens[c].kind)))
  }

  /**
   * parseExpression: nothing at a stopping point (the identity), else a
   * sub-expression followed by the operators and operands after it.  On
   * success the cursor is at a stopping point.
   */
  function ParseExprSpec(tokens: seq<Token>, c: nat): (r: Parsed)
    requires c <= |tokens|
    ensures c <= r.cursor <= |tokens|
    ensures r.err.None? ==> Stops(tokens, r.cursor)
    decreases |tokens| - c, 1
  {
    if Stops(tokens, c) then Parsed(Id, c, None)
    else
      var left := ParseSubSpec(tokens, c);
      if left.err.Some? || Stops(tokens, left.cursor) then left
      else ParseBinarySpec(tokens, left.cursor, left.pred)
  }

  /**
   * parseBinaryExpression: after the operand left, an `-and` (folded to
   * the left by ParseSubAndSpec) or an `-or` (which takes the whole
   * expression after it as its right operand).
   */
  function ParseBinarySpec(tokens: seq<Token>, c: nat, left: Pred): (r: Parsed)
    requires c <= |tokens|
    ensures c <= r.cursor <= |tokens|
    ensures r.err.None? ==> Stops(tokens, r.cursor)
    decreases |tokens| - c, 1
  {
    if Stops(tokens, c) then Parsed(left, c, None)
    else
      var kind := tokens[c].kind;
      match kind
      case AndOp => ParseSubAndSpec(tokens, c + 1, left)
      case OrOp =>
        var right := ParseExprSpec(tokens, c + 1);
        Parsed(Or(left, right.pred), right.cursor, right.err)
      case found => Parsed(Id, c, Some(ExpectedBinaryOperator(found)))
  }

  /** parseSubExpressionAnd: the right operand of an `-and`, then the rest
      with And(left, right) as the new left operand. */
  function ParseSubAndSpec(tokens: seq<Token>, c: nat, left: Pred): (r: Parsed)
    requires c <= |tokens|
    ensures c <= r.cursor <= |tokens|
    ensures r.err.None? ==> Stops(tokens, r.cursor)
    decreases |tokens| - c, 1
  {
    var right := ParseSubSpec(tokens, c);
    if right.err.Some? then Parsed(left, right.cursor, right.err)
    else ParseBinarySpec(tokens, right.cursor, And(left, right.pred))
  }

  /** predicateParser: the tokens, which no method changes, and the cursor. */
  class Parser {
    const tokens: seq<Token>
    var currentToken: nat

    constructor (tokens: seq<Token>)
      ensures this.tokens == tokens && currentToken == 0
    {
      this.tokens := tokens;
      currentToken := 0;
    }

    predicate AllTokensConsumed()
      reads this
    {
      AtEnd(tokens, currentToken)
    }

    predicate StoppingPoint()
      reads this
      requires currentToken <= |tokens|
    {
      Stops(tokens, currentToken)
    }

    method ParseFlag() returns (pred: Pred, err: Option<ParseError>)
      requires currentToken < |tokens|
      modifies this`currentToken
      ensures Parsed(pred, currentToken, err) == ParseFlagSpec(tokens, old(currentToken))
    {
      var token := tokens[currentToken];
      if token.flag == CustomFlag {
        currentToken := currentToken + 1;
        return Custom(token.text), None;
      } else if token.flag == IsDirtyFlag {
        currentToken := currentToken + 1;
        return IsDirty, None;
      } else {
        return Id, Some(UnknownFlag(token.flag));
      }
    }

    method ParseSubExpressionAnd(left: Pred) returns (pred: Pred, err: Option<ParseError>)
      requires currentToken <= |tokens|
      modifies this`currentToken
      ensures Parsed(pred, currentToken, err) == ParseSubAndSpec(tokens, old(currentToken), left)
      decreases |tokens| - currentToken, 1
    {
      var right;
      right, err := ParseSubExpression();
      if err.Some? {
        return left, err;
      }
      pred, err := ParseBinaryExpression(And(left, right));
    }

    method ParseBinaryExpression(left: Pred) returns (pred: Pred, err: Option<ParseError>)
      requires currentToken <= |tokens|
      modifies this`currentToken
      ensures Parsed(pred, currentToken, err) == ParseBinarySpec(tokens, old(currentToken), left)
      decreases |tokens| - currentToken, 1
    {
      if StoppingPoint() {
        return left, None;
      }
      var kind := tokens[currentToken].kind;
      match kind
      case AndOp =>
        currentToken := currentToken + 1;
        pred, err := ParseSubExpressionAnd(left);
      case OrOp =>
        currentToken := currentToken + 1;
        var right;
        right, err := ParseExpression();
        pred := Or(left, right);
      case found =>
        pred, err := Id, Some(ExpectedBinaryOperator(found));
    }

    method ParseExpression() returns (pred: Pred, err: Option<ParseError>)
      requires currentToken <= |tokens|
      modifies this`currentToken
      ensures Parsed(pred, currentToken, err) == ParseExprSpec(tokens, old(currentToken))
      decreases |tokens| - currentToken, 1
    {
      if StoppingPoint() {
        return Id, None;
      }
      var left;
      left, err := ParseSubExpression();
      if err.Some? || StoppingPoint() {
        return left, err;
      }
      pred, err := ParseBinaryExpression(left);
    }

    method ParseSubExpression() returns (pred: Pred, err: Option<ParseError>)
      requires currentToken <= |tokens|
      modifies this`currentToken
      ensures Parsed(pred, currentToken, err) == ParseSubSpec(tokens, old(currentToken))
      decreases |tokens| - currentToken, 0
    {
      if AllTokensConsumed() {
        return Id, Some(UnexpectedEnd);
      }
      match tokens[currentToken].kind
      case FlagKind =>
        pred, err := ParseFlag();
      case NotOp =>
        currentToken := currentToken + 1;
        var operand;
        operand, err := ParseSubExpression();
        pred := Not(operand);
      case OpenParen =>
        currentToken := currentToken + 1;
        if !AllTokensConsumed() && tokens[currentToken].kind == CloseParen {
          currentToken := currentToken + 1;
          // `()`, which a shell expansion can leave behind, is the identity
          return Id, None;
        }
        pred, err := ParseExpression();
        if err.Some? {
          return pred, err;
        }
        if AllTokensConsumed() {
          return pred, Some(MissingCloseParen);
        }
        currentToken := currentToken + 1;
      case _ =>
        pred, err := Id, Some(UnexpectedToken(tokens[currentToken].kind));
    }
  }
}
