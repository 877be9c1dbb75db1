/**
 * What the parser of parsing/predicates.go accepts and what it builds:
 * every predicate, written out fully parenthesised by Render, parses back
 * to itself; the operators bind as the source's routines make them bind;
 * and the malformed inputs the source rejects are rejected with the
 * source's error.
 *
 * The proofs go through RendersAt, which says where the tokens of a
 * predicate stand in a token list by their positions alone; the lemmas
 * about concatenated token lists (the Layout lemmas) and the lemmas about
 * the parser (the Parse lemmas) meet only there.
 */
module PredicateGrammar {
  import opened Wrappers
  import opened Predicate
  import opened PredicateTokens
  import opened PredicateParser

  /** The tokens the tokenizer makes of the words -and, -or, -not,
      -isDirty and of `-custom text`. */
  const AndTok := Token(AndOp, "-and", "")
  const OrTok := Token(OrOp, "-or", "")
  const NotTok := Token(NotOp, "-not", "")
  const IsDirtyTok := Token(FlagKind, IsDirtyFlag, "")

  function CustomTok(text: string): Token
  {
    Token(FlagKind, CustomFlag, text)
  }

  /** The number of tokens in Render(p). */
  function Size(p: Pred): (n: nat)
    ensures n >= 1
  {
    match p
    case Id => 2
    case IsDirty => 1
    case Custom(_) => 1
    case Not(q) => 1 + Size(q)
    case And(l, r) => 3 + Size(l) + Size(r)
    case Or(l, r) => 3 + Size(l) + Size(r)
  }

  /**
   * A predicate written as tokens, every binary operator in its own
   * parentheses and the identity as `()`.
   */
  function Render(p: Pred): (ts: seq<Token>)
    ensures |ts| == Size(p)
  {
    match p
    case Id => [OpenTok, CloseTok]
    case IsDirty => [IsDirtyTok]
    case Custom(text) => [CustomTok(text)]
    case Not(q) => [NotTok] + Render(q)
    case And(l, r) => [OpenTok] + Render(l) + [AndTok] + Render(r) + [CloseTok]
    case Or(l, r) => [OpenTok] + Render(l) + [OrTok] + Render(r) + [CloseTok]
  }

  /** The tokens of Render(p) stand in tokens from position c on. */
  predicate RendersAt(tokens: seq<Token>, c: nat, p: Pred)
    decreases p
  {
    c + Size(p) <= |tokens| &&
    match p
    case Id => tokens[c] == OpenTok && tokens[c + 1] == CloseTok
    case IsDirty => tokens[c] == IsDirtyTok
    case Custom(text) => tokens[c] == CustomTok(text)
    case Not(q) => tokens[c] == NotTok && RendersAt(tokens, c + 1, q)
    case And(l, r) =>
      && tokens[c] == OpenTok && RendersAt(tokens, c + 1, l)
      && tokens[c + 1 + Size(l)] == AndTok && RendersAt(tokens, c + 2 + Size(l), r)
      && tokens[c + 2 + Size(l) + Size(r)] == CloseTok
    case Or(l, r) =>
      && tokens[c] == OpenTok && RendersAt(tokens, c + 1, l)
      && tokens[c + 1 + Size(l)] == OrTok && RendersAt(tokens, c + 2 + Size(l), r)
      && tokens[c + 2 + Size(l) + Size(r)] == CloseTok
  }

  // ---- Layout: Render and concatenation ----

  /** Render(p), wherever it stands in a token list, is where RendersAt
      says. */
  lemma {:induction false} LayoutRender(tokens: seq<Token>, pre: seq<Token>, p: Pred, post: seq<Token>, c: nat)
    requires tokens == pre + Render(p) + post && c == |pre|
    ensures RendersAt(tokens, c, p)
    decreases p, 2
  {
    assert tokens[c] == Render(p)[0];
    match p
    case Id =>
      assert tokens[c + 1] == Render(p)[1];
    case IsDirty =>
    case Custom(_) =>
    case Not(q) =>
      assert tokens == (pre + [NotTok]) + Render(q) + post;
      LayoutRender(tokens, pre + [NotTok], q, post, c + 1);
    case And(l, r) =>
      LayoutRenderBinary(tokens, pre, p, AndTok, Render(l), Render(r), post, c);
    case Or(l, r) =>
      LayoutRenderBinary(tokens, pre, p, OrTok, Render(l), Render(r), post, c);
  }

  lemma {:induction false} LayoutRenderBinary(tokens: seq<Token>, pre: seq<Token>, p: Pred, op: Token,
                                             Rl: seq<Token>, Rr: seq<Token>, post: seq<Token>, c: nat)
    requires p.And? || p.Or?
    requires op == (if p.And? then AndTok else OrTok)
    requires Rl == Render(p.left) && Rr == Render(p.right)
    requires tokens == pre + ([OpenTok] + Rl + [op] + Rr + [CloseTok]) + post && c == |pre|
    ensures RendersAt(tokens, c, p)
    decreases p, 1
  {
    LayoutLeft(tokens, pre, p, op, Rl, Rr, post, c);
    LayoutRight(tokens, pre, p, op, Rl, Rr, post, c);
    LayoutBinary(tokens, pre, Rl, op, Rr, post);
    BinaryRendersAt(tokens, c, p);
  }

  lemma {:induction false} LayoutLeft(tokens: seq<Token>, pre: seq<Token>, p: Pred, op: Token,
                                     Rl: seq<Token>, Rr: seq<Token>, post: seq<Token>, c: nat)
    requires p.And? || p.Or?
    requires Rl == Render(p.left)
    requires tokens == pre + ([OpenTok] + Rl + [op] + Rr + [CloseTok]) + post && c == |pre|
    ensures RendersAt(tokens, c + 1, p.left)
    decreases p, 0
  {
    LeftPart(tokens, pre, Rl, op, Rr, post, c);
    LayoutRender(tokens, pre + [OpenTok], p.left, [op] + Rr + [CloseTok] + post, c + 1);
  }

  lemma {:induction false} LayoutRight(tokens: seq<Token>, pre: seq<Token>, p: Pred, op: Token,
                                      Rl: seq<Token>, Rr: seq<Token>, post: seq<Token>, c: nat)
    requires p.And? || p.Or?
    requires Rl == Render(p.left) && Rr == Render(p.right)
    requires tokens == pre + ([OpenTok] + Rl + [op] + Rr + [CloseTok]) + post && c == |pre|
    ensures RendersAt(tokens, c + 1 + Size(p.left) + 1, p.right)
    decreases p, 0
  {
    RightPart(tokens, pre, Rl, op, Rr, post, c, Size(p.left));
    LayoutRender(tokens, pre + [OpenTok] + Rl + [op], p.right, [CloseTok] + post, c + 1 + Size(p.left) + 1);
  }

  lemma LeftPart(tokens: seq<Token>, pre: seq<Token>, A: seq<Token>, x: Token, B: seq<Token>, post: seq<Token>, c: nat)
    requires tokens == pre + ([OpenTok] + A + [x] + B + [CloseTok]) + post && c == |pre|
    ensures tokens == (pre + [OpenTok]) + A + ([x] + B + [CloseTok] + post) && c + 1 == |pre + [OpenTok]|
  {
  }

  lemma RightPart(tokens: seq<Token>, pre: seq<Token>, A: seq<Token>, x: Token, B: seq<Token>, post: seq<Token>, c: nat, n: nat)
    requires tokens == pre + ([OpenTok] + A + [x] + B + [CloseTok]) + post && c == |pre| && n == |A|
    ensures tokens == (pre + [OpenTok] + A + [x]) + B + ([CloseTok] + post) && c + 1 + n + 1 == |pre + [OpenTok] + A + [x]|
  {
  }

  /** Where the pieces of `( L op R )` stand in the token list. */
  lemma LayoutBinary(tokens: seq<Token>, pre: seq<Token>, Rl: seq<Token>, op: Token, Rr: seq<Token>, post: seq<Token>)
    requires tokens == pre + ([OpenTok] + Rl + [op] + Rr + [CloseTok]) + post
    ensures tokens == (pre + [OpenTok]) + Rl + ([op] + Rr + [CloseTok] + post)
    ensures tokens == (pre + [OpenTok] + Rl + [op]) + Rr + ([CloseTok] + post)
    ensures |pre + [OpenTok]| == |pre| + 1 && |pre + [OpenTok] + Rl + [op]| == |pre| + 1 + |Rl| + 1
    ensures |tokens| == |pre| + 3 + |Rl| + |Rr| + |post|
    ensures tokens[|pre|] == OpenTok && tokens[|pre| + 1 + |Rl|] == op
    ensures tokens[|pre| + 1 + |Rl| + 1 + |Rr|] == CloseTok
  {
  }

  /** RendersAt for `( L op R )` from its parts. */
  lemma BinaryRendersAt(tokens: seq<Token>, c: nat, p: Pred)
    requires p.And? || p.Or?
    requires c + 3 + Size(p.left) + Size(p.right) <= |tokens|
    requires tokens[c] == OpenTok && RendersAt(tokens, c + 1, p.left)
    requires tokens[c + 1 + Size(p.left)] == (if p.And? then AndTok else OrTok)
    requires RendersAt(tokens, c + 1 + Size(p.left) + 1, p.right)
    requires tokens[c + 1 + Size(p.left) + 1 + Size(p.right)] == CloseTok
    ensures RendersAt(tokens, c, p)
  {
  }


  // ---- Parse: the parser over a token list laid out by RendersAt ----

  /** Render(p) never starts with a ')' or an operator. */
  lemma RendersAtStart(tokens: seq<Token>, c: nat, p: Pred)
    requires RendersAt(tokens, c, p)
    ensures c < |tokens| && tokens[c].kind in {FlagKind, NotOp, OpenParen}
  {
  }

  /** A rendered predicate, wherever it stands, is one sub-expression and
      parses back to itself. */
  lemma {:induction false} ParseSubAt(tokens: seq<Token>, c: nat, p: Pred)
    requires RendersAt(tokens, c, p)
    ensures ParseSubSpec(tokens, c) == Parsed(p, c + Size(p), None)
    decreases p, 1
  {
    match p
    case Id =>
      assert tokens[c + 1].kind == CloseParen;
    case IsDirty =>
    case Custom(_) =>
    case Not(q) =>
      ParseSubAt(tokens, c + 1, q);
    case And(_, _) =>
      RendersAtBinary(tokens, c, p);
      ParseSubAtBinary(tokens, c, p);
    case Or(_, _) =>
      RendersAtBinary(tokens, c, p);
      ParseSubAtBinary(tokens, c, p);
  }

  /** RendersAt for `( L op R )`, spelled out. */
  lemma RendersAtBinary(tokens: seq<Token>, c: nat, p: Pred)
    requires p.And? || p.Or?
    requires RendersAt(tokens, c, p)
    ensures c + Size(p) == c + 1 + Size(p.left) + 1 + Size(p.right) + 1 && c + Size(p) <= |tokens|
    ensures tokens[c] == OpenTok && RendersAt(tokens, c + 1, p.left)
    ensures tokens[c + 1 + Size(p.left)] == (if p.And? then AndTok else OrTok)
    ensures RendersAt(tokens, c + 1 + Size(p.left) + 1, p.right)
    ensures tokens[c + 1 + Size(p.left) + 1 + Size(p.right)] == CloseTok
  {
  }

  lemma {:induction false} ParseSubAtBinary(tokens: seq<Token>, c: nat, p: Pred)
    requires p.And? || p.Or?
    requires c + Size(p) == c + 1 + Size(p.left) + 1 + Size(p.right) + 1 && c + Size(p) <= |tokens|
    requires tokens[c] == OpenTok && RendersAt(tokens, c + 1, p.left)
    requires tokens[c + 1 + Size(p.left)] == (if p.And? then AndTok else OrTok)
    requires RendersAt(tokens, c + 1 + Size(p.left) + 1, p.right)
    requires tokens[c + 1 + Size(p.left) + 1 + Size(p.right)] == CloseTok
    ensures ParseSubSpec(tokens, c) == Parsed(p, c + Size(p), None)
    decreases p, 0
  {
    RendersAtStart(tokens, c + 1, p.left);
    ParseSubAt(tokens, c + 1 + Size(p.left) + 1, p.right);
    ParseSubAt(tokens, c + 1, p.left);
    ParseBinaryStep(tokens, c, p, c + 1 + Size(p.left), c + 1 + Size(p.left) + 1 + Size(p.right), c + Size(p));
  }

  /** The parser on `( L op R )` once L and R are known to parse. */
  lemma ParseBinaryStep(tokens: seq<Token>, c: nat, p: Pred, c1: nat, c2: nat, e: nat)
    requires p.And? || p.Or?
    requires c + 1 <= c1 < c2 && c2 + 1 == e && e <= |tokens|
    requires tokens[c] == OpenTok && tokens[c + 1].kind in {FlagKind, NotOp, OpenParen}
    requires tokens[c1] == (if p.And? then AndTok else OrTok) && tokens[c2] == CloseTok
    requires ParseSubSpec(tokens, c + 1) == Parsed(p.left, c1, None)
    requires ParseSubSpec(tokens, c1 + 1) == Parsed(p.right, c2, None)
    ensures ParseSubSpec(tokens, c) == Parsed(p, e, None)
  {
    if p.And? {
      InnerAnd(tokens, c + 1, p.left, p.right, c1, c2);
    } else {
      InnerOr(tokens, c + 1, p.left, p.right, c1, c2);
    }
    SubParenStep(tokens, c, Parsed(p, c2, None));
  }

  /** Inside the parentheses of `( L -and R )`. */
  lemma InnerAnd(tokens: seq<Token>, c: nat, l: Pred, r: Pred, c1: nat, c2: nat)
    requires c < c1 < c2 < |tokens| && tokens[c].kind in {FlagKind, NotOp, OpenParen}
    requires tokens[c1] == AndTok && tokens[c2] == CloseTok
    requires ParseSubSpec(tokens, c) == Parsed(l, c1, None)
    requires ParseSubSpec(tokens, c1 + 1) == Parsed(r, c2, None)
    ensures ParseExprSpec(tokens, c) == Parsed(And(l, r), c2, None)
  {
    var done := Parsed(And(l, r), c2, None);
    BinaryStops(tokens, c2, And(l, r));
    SubAndStep(tokens, c1 + 1, l, Parsed(r, c2, None), done);
    BinaryAndStep(tokens, c1, l, done);
    ExprBinaryStep(tokens, c, Parsed(l, c1, None), done);
  }

  /** Inside the parentheses of `( L -or R )`. */
  lemma InnerOr(tokens: seq<Token>, c: nat, l: Pred, r: Pred, c1: nat, c2: nat)
    requires c < c1 < c2 < |tokens| && tokens[c].kind in {FlagKind, NotOp, OpenParen}
    requires tokens[c1] == OrTok && tokens[c2] == CloseTok && tokens[c1 + 1].kind in {FlagKind, NotOp, OpenParen}
    requires ParseSubSpec(tokens, c) == Parsed(l, c1, None)
    requires ParseSubSpec(tokens, c1 + 1) == Parsed(r, c2, None)
    ensures ParseExprSpec(tokens, c) == Parsed(Or(l, r), c2, None)
  {
    ExprOfSub(tokens, c1 + 1, Parsed(r, c2, None));
    BinaryOrStep(tokens, c1, l, Parsed(r, c2, None));
    ExprBinaryStep(tokens, c, Parsed(l, c1, None), Parsed(Or(l, r), c2, None));
  }

  // ---- One step of each parser routine ----

  /** parseSubExpression on a '(' not followed by ')'. */
  lemma SubParenStep(tokens: seq<Token>, c: nat, r: Parsed)
    requires c + 1 < |tokens| && tokens[c] == OpenTok && tokens[c + 1].kind != CloseParen
    requires ParseExprSpec(tokens, c + 1) == r && r.err.None?
    requires r.cursor < |tokens| && tokens[r.cursor] == CloseTok
    ensures ParseSubSpec(tokens, c) == Parsed(r.pred, r.cursor + 1, None)
  {
  }

  /** parseExpression on an operand followed by more than a stopping point. */
  lemma ExprBinaryStep(tokens: seq<Token>, c: nat, sub: Parsed, r: Parsed)
    requires c < |tokens| && tokens[c].kind in {FlagKind, NotOp, OpenParen}
    requires sub.cursor <= |tokens| && sub.err.None? && !Stops(tokens, sub.cursor)
    requires ParseSubSpec(tokens, c) == sub
    requires ParseBinarySpec(tokens, sub.cursor, sub.pred) == r
    ensures ParseExprSpec(tokens, c) == r
  {
  }

  /** parseBinaryExpression at a stopping point. */
  lemma BinaryStops(tokens: seq<Token>, c: nat, left: Pred)
    requires c <= |tokens| && Stops(tokens, c)
    ensures ParseBinarySpec(tokens, c, left) == Parsed(left, c, None)
  {
  }

  /** parseBinaryExpression on an `-and`. */
  lemma BinaryAndStep(tokens: seq<Token>, c: nat, left: Pred, r: Parsed)
    requires c < |tokens| && tokens[c].kind == AndOp
    requires ParseSubAndSpec(tokens, c + 1, left) == r
    ensures ParseBinarySpec(tokens, c, left) == r
  {
  }

  /** parseBinaryExpression on an `-or`. */
  lemma BinaryOrStep(tokens: seq<Token>, c: nat, left: Pred, r: Parsed)
    requires c < |tokens| && tokens[c].kind == OrOp
    requires ParseExprSpec(tokens, c + 1) == r
    ensures ParseBinarySpec(tokens, c, left) == Parsed(Or(left, r.pred), r.cursor, r.err)
  {
  }

  /** parseSubExpressionAnd once its operand has parsed. */
  lemma SubAndStep(tokens: seq<Token>, c: nat, left: Pred, sub: Parsed, r: Parsed)
    requires c <= |tokens| && sub.cursor <= |tokens| && sub.err.None?
    requires ParseSubSpec(tokens, c) == sub
    requires ParseBinarySpec(tokens, sub.cursor, And(left, sub.pred)) == r
    ensures ParseSubAndSpec(tokens, c, left) == r
  {
  }

  /** A rendered predicate followed by the end or a ')' is a whole
      expression and parses back to itself. */
  lemma ParseExprAt(tokens: seq<Token>, c: nat, p: Pred)
    requires RendersAt(tokens, c, p) && Stops(tokens, c + Size(p))
    ensures ParseExprSpec(tokens, c) == Parsed(p, c + Size(p), None)
  {
    RendersAtStart(tokens, c, p);
    ParseSubAt(tokens, c, p);
    ExprOfSub(tokens, c, Parsed(p, c + Size(p), None));
  }

  /** parseExpression on an operand with nothing after it but the end or a
      ')' returns that operand. */
  lemma ExprOfSub(tokens: seq<Token>, c: nat, r: Parsed)
    requires c < |tokens| && tokens[c].kind in {FlagKind, NotOp, OpenParen}
    requires r.cursor <= |tokens| && r.err.None? && Stops(tokens, r.cursor)
    requires ParseSubSpec(tokens, c) == r
    ensures ParseExprSpec(tokens, c) == r
  {
  }

  /** The round trip: every predicate, rendered, parses back to itself and
      every token is consumed. */
  lemma ParseRender(p: Pred)
    ensures ParseExprSpec(Render(p), 0) == Parsed(p, |Render(p)|, None)
  {
    var tokens := Render(p);
    assert tokens == [] + Render(p) + [];
    LayoutRender(tokens, [], p, [], 0);
    ParseExprAt(tokens, 0, p);
  }

  /** A rendered operand begins a sub-expression and parses to itself. */
  lemma OperandAt(tokens: seq<Token>, c: nat, p: Pred)
    requires RendersAt(tokens, c, p)
    ensures c + Size(p) <= |tokens| && tokens[c].kind in {FlagKind, NotOp, OpenParen}
    ensures ParseSubSpec(tokens, c) == Parsed(p, c + Size(p), None)
  {
    RendersAtStart(tokens, c, p);
    ParseSubAt(tokens, c, p);
  }

  // ---- Operators between operands ----
  //
  // Each lemma below is about any token list in which the operands stand
  // where the requires say; OperandAt supplies that for rendered operands.

  /** Two operands a and b with an operator of kind k at position i between
      them, each operand parsed where it stands. */
  predicate Operands2(tokens: seq<Token>, a: Pred, k: TokenKind, b: Pred, i: nat)
  {
    && i + 1 < |tokens| && tokens[i].kind == k
    && tokens[0].kind in {FlagKind, NotOp, OpenParen}
    && ParseSubSpec(tokens, 0) == Parsed(a, i, None)
    && ParseSubSpec(tokens, i + 1) == Parsed(b, |tokens|, None)
  }

  /** Three operands a, b, c with operators of kinds k1 and k2 at positions
      i1 and i2 between them, each operand parsed where it stands. */
  predicate Operands3(tokens: seq<Token>, a: Pred, k1: TokenKind, b: Pred, k2: TokenKind, c: Pred, i1: nat, i2: nat)
  {
    && i1 < i2 && i2 + 1 < |tokens| && tokens[i1].kind == k1 && tokens[i2].kind == k2
    && tokens[0].kind in {FlagKind, NotOp, OpenParen}
    && tokens[i1 + 1].kind in {FlagKind, NotOp, OpenParen}
    && ParseSubSpec(tokens, 0) == Parsed(a, i1, None)
    && ParseSubSpec(tokens, i1 + 1) == Parsed(b, i2, None)
    && ParseSubSpec(tokens, i2 + 1) == Parsed(c, |tokens|, None)
  }

  /** `a -and b` is And(a, b). */
  lemma AndOfTwo(tokens: seq<Token>, a: Pred, b: Pred, i: nat)
    requires Operands2(tokens, a, AndOp, b, i)
    ensures ParseExprSpec(tokens, 0) == Parsed(And(a, b), |tokens|, None)
  {
    var n := |tokens|;
    var all := Parsed(And(a, b), n, None);
    BinaryStops(tokens, n, And(a, b));
    SubAndStep(tokens, i + 1, a, Parsed(b, n, None), all);
    BinaryAndStep(tokens, i, a, all);
    ExprBinaryStep(tokens, 0, Parsed(a, i, None), all);
  }

  /** `a -or b` is Or(a, b). */
  lemma OrOfTwo(tokens: seq<Token>, a: Pred, b: Pred, i: nat)
    requires Operands2(tokens, a, OrOp, b, i)
    requires tokens[i + 1].kind in {FlagKind, NotOp, OpenParen}
    ensures ParseExprSpec(tokens, 0) == Parsed(Or(a, b), |tokens|, None)
  {
    var n := |tokens|;
    ExprOfSub(tokens, i + 1, Parsed(b, n, None));
    BinaryOrStep(tokens, i, a, Parsed(b, n, None));
    ExprBinaryStep(tokens, 0, Parsed(a, i, None), Parsed(Or(a, b), n, None));
  }

  /** `a -or b -and c` is a -or (b -and c): -and binds tighter. */
  lemma OrThenAnd(tokens: seq<Token>, a: Pred, b: Pred, c: Pred, i1: nat, i2: nat)
    requires Operands3(tokens, a, OrOp, b, AndOp, c, i1, i2)
    ensures ParseExprSpec(tokens, 0) == Parsed(Or(a, And(b, c)), |tokens|, None)
  {
    var n := |tokens|;
    var bc := Parsed(And(b, c), n, None);
    BinaryStops(tokens, n, And(b, c));
    SubAndStep(tokens, i2 + 1, b, Parsed(c, n, None), bc);
    BinaryAndStep(tokens, i2, b, bc);
    ExprBinaryStep(tokens, i1 + 1, Parsed(b, i2, None), bc);
    BinaryOrStep(tokens, i1, a, bc);
    ExprBinaryStep(tokens, 0, Parsed(a, i1, None), Parsed(Or(a, And(b, c)), n, None));
  }

  /** `a -and b -or c` is (a -and b) -or c. */
  lemma AndThenOr(tokens: seq<Token>, a: Pred, b: Pred, c: Pred, i1: nat, i2: nat)
    requires Operands3(tokens, a, AndOp, b, OrOp, c, i1, i2)
    requires tokens[i2 + 1].kind in {FlagKind, NotOp, OpenParen}
    ensures ParseExprSpec(tokens, 0) == Parsed(Or(And(a, b), c), |tokens|, None)
  {
    var n := |tokens|;
    var all := Parsed(Or(And(a, b), c), n, None);
    ExprOfSub(tokens, i2 + 1, Parsed(c, n, None));
    BinaryOrStep(tokens, i2, And(a, b), Parsed(c, n, None));
    SubAndStep(tokens, i1 + 1, a, Parsed(b, i2, None), all);
    BinaryAndStep(tokens, i1, a, all);
    ExprBinaryStep(tokens, 0, Parsed(a, i1, None), all);
  }

  /** `a -and b -and c` is (a -and b) -and c: -and groups to the left. */
  lemma AndThenAnd(tokens: seq<Token>, a: Pred, b: Pred, c: Pred, i1: nat, i2: nat)
    requires Operands3(tokens, a, AndOp, b, AndOp, c, i1, i2)
    ensures ParseExprSpec(tokens, 0) == Parsed(And(And(a, b), c), |tokens|, None)
  {
    var n := |tokens|;
    var all := Parsed(And(And(a, b), c), n, None);
    BinaryStops(tokens, n, And(And(a, b), c));
    SubAndStep(tokens, i2 + 1, And(a, b), Parsed(c, n, None), all);
    BinaryAndStep(tokens, i2, And(a, b), all);
    SubAndStep(tokens, i1 + 1, a, Parsed(b, i2, None), all);
    BinaryAndStep(tokens, i1, a, all);
    ExprBinaryStep(tokens, 0, Parsed(a, i1, None), all);
  }

  /** `a -or b -or c` is a -or (b -or c): -or groups to the right. */
  lemma OrThenOr(tokens: seq<Token>, a: Pred, b: Pred, c: Pred, i1: nat, i2: nat)
    requires Operands3(tokens, a, OrOp, b, OrOp, c, i1, i2)
    requires tokens[i2 + 1].kind in {FlagKind, NotOp, OpenParen}
    ensures ParseExprSpec(tokens, 0) == Parsed(Or(a, Or(b, c)), |tokens|, None)
  {
    var n := |tokens|;
    var bc := Parsed(Or(b, c), n, None);
    ExprOfSub(tokens, i2 + 1, Parsed(c, n, None));
    BinaryOrStep(tokens, i2, b, Parsed(c, n, None));
    ExprBinaryStep(tokens, i1 + 1, Parsed(b, i2, None), bc);
    BinaryOrStep(tokens, i1, a, bc);
    ExprBinaryStep(tokens, 0, Parsed(a, i1, None), Parsed(Or(a, Or(b, c)), n, None));
  }

  /** `-not a -and b` is (-not a) -and b: -not takes one sub-expression. */
  lemma NotThenAnd(tokens: seq<Token>, a: Pred, b: Pred, i: nat)
    requires 1 < i + 1 < |tokens| && tokens[0].kind == NotOp && tokens[i].kind == AndOp
    requires ParseSubSpec(tokens, 1) == Parsed(a, i, None)
    requires ParseSubSpec(tokens, i + 1) == Parsed(b, |tokens|, None)
    ensures ParseExprSpec(tokens, 0) == Parsed(And(Not(a), b), |tokens|, None)
  {
    assert ParseSubSpec(tokens, 0) == Parsed(Not(a), i, None);
    AndOfTwo(tokens, Not(a), b, i);
  }

  // ---- Malformed input ----

  /** A rendered operand at the front of the tokens. */
  lemma LeadingOperand(tokens: seq<Token>, a: Pred, rest: seq<Token>)
    requires tokens == Render(a) + rest
    ensures |tokens| == Size(a) + |rest| && tokens[0].kind in {FlagKind, NotOp, OpenParen}
    ensures ParseSubSpec(tokens, 0) == Parsed(a, Size(a), None)
  {
    assert tokens == [] + Render(a) + rest;
    LayoutRender(tokens, [], a, rest, 0);
    OperandAt(tokens, 0, a);
  }

  /** An opening parenthesis that is never closed. */
  lemma UnclosedParen(p: Pred)
    ensures var tokens := [OpenTok] + Render(p);
      ParseExprSpec(tokens, 0) == Parsed(p, |tokens|, Some(MissingCloseParen))
  {
    var tokens := [OpenTok] + Render(p);
    assert tokens == [OpenTok] + Render(p) + [];
    LayoutRender(tokens, [OpenTok], p, [], 1);
    UnclosedParenSteps(tokens, p);
  }

  lemma UnclosedParenSteps(tokens: seq<Token>, p: Pred)
    requires |tokens| == 1 + Size(p) && tokens[0] == OpenTok && RendersAt(tokens, 1, p)
    ensures ParseExprSpec(tokens, 0) == Parsed(p, |tokens|, Some(MissingCloseParen))
  {
    RendersAtStart(tokens, 1, p);
    ParseExprAt(tokens, 1, p);
    assert ParseSubSpec(tokens, 0) == Parsed(p, |tokens|, Some(MissingCloseParen));
  }

  /** An `-and` with nothing after it. */
  lemma TrailingAnd(a: Pred)
    ensures var tokens := Render(a) + [AndTok];
      ParseExprSpec(tokens, 0) == Parsed(a, |tokens|, Some(UnexpectedEnd))
  {
    var tokens := Render(a) + [AndTok];
    LeadingOperand(tokens, a, [AndTok]);
    TrailingAndSteps(tokens, a, Size(a));
  }

  lemma TrailingAndSteps(tokens: seq<Token>, a: Pred, i: nat)
    requires i + 1 == |tokens| && tokens[i] == AndTok && tokens[0].kind in {FlagKind, NotOp, OpenParen}
    requires ParseSubSpec(tokens, 0) == Parsed(a, i, None)
    ensures ParseExprSpec(tokens, 0) == Parsed(a, |tokens|, Some(UnexpectedEnd))
  {
    var r := Parsed(a, |tokens|, Some(UnexpectedEnd));
    assert ParseSubAndSpec(tokens, i + 1, a) == r;
    BinaryAndStep(tokens, i, a, r);
    ExprBinaryStep(tokens, 0, Parsed(a, i, None), r);
  }

  /** A `-not` with nothing after it, alone, as the right operand of an
      `-and`, or as the right operand of an `-or`: each fails at the end of
      input. */
  lemma TrailingNot(a: Pred)
    ensures ParseExprSpec([NotTok], 0) == Parsed(Not(Id), 1, Some(UnexpectedEnd))
    ensures var tokens := Render(a) + [AndTok, NotTok];
      ParseExprSpec(tokens, 0) == Parsed(a, |tokens|, Some(UnexpectedEnd))
    ensures var tokens := Render(a) + [OrTok, NotTok];
      ParseExprSpec(tokens, 0) == Parsed(Or(a, Not(Id)), |tokens|, Some(UnexpectedEnd))
  {
    assert ParseSubSpec([NotTok], 1) == Parsed(Id, 1, Some(UnexpectedEnd));
    var andTokens := Render(a) + [AndTok, NotTok];
    LeadingOperand(andTokens, a, [AndTok, NotTok]);
    TrailingNotAndSteps(andTokens, a, Size(a));
    var orTokens := Render(a) + [OrTok, NotTok];
    LeadingOperand(orTokens, a, [OrTok, NotTok]);
    TrailingNotOrSteps(orTokens, a, Size(a));
  }

  /** The `-not` at i + 1 fails at the end, whatever precedes it. */
  lemma TrailingNotSub(tokens: seq<Token>, i: nat)
    requires i + 2 == |tokens| && tokens[i + 1] == NotTok
    ensures ParseSubSpec(tokens, i + 1) == Parsed(Not(Id), |tokens|, Some(UnexpectedEnd))
  {
    assert ParseSubSpec(tokens, i + 2) == Parsed(Id, i + 2, Some(UnexpectedEnd));
  }

  lemma TrailingNotAndSteps(tokens: seq<Token>, a: Pred, i: nat)
    requires i + 2 == |tokens| && tokens[i] == AndTok && tokens[i + 1] == NotTok
    requires tokens[0].kind in {FlagKind, NotOp, OpenParen}
    requires ParseSubSpec(tokens, 0) == Parsed(a, i, None)
    ensures ParseExprSpec(tokens, 0) == Parsed(a, |tokens|, Some(UnexpectedEnd))
  {
    TrailingNotSub(tokens, i);
    var r := Parsed(a, |tokens|, Some(UnexpectedEnd));
    assert ParseSubAndSpec(tokens, i + 1, a) == r;
    BinaryAndStep(tokens, i, a, r);
    ExprBinaryStep(tokens, 0, Parsed(a, i, None), r);
  }

  lemma TrailingNotOrSteps(tokens: seq<Token>, a: Pred, i: nat)
    requires i + 2 == |tokens| && tokens[i] == OrTok && tokens[i + 1] == NotTok
    requires tokens[0].kind in {FlagKind, NotOp, OpenParen}
    requires ParseSubSpec(tokens, 0) == Parsed(a, i, None)
    ensures ParseExprSpec(tokens, 0) == Parsed(Or(a, Not(Id)), |tokens|, Some(UnexpectedEnd))
  {
    TrailingNotSub(tokens, i);
    var right := Parsed(Not(Id), |tokens|, Some(UnexpectedEnd));
    assert ParseExprSpec(tokens, i + 1) == right;
    BinaryOrStep(tokens, i, a, right);
    ExprBinaryStep(tokens, 0, Parsed(a, i, None), Parsed(Or(a, Not(Id)), |tokens|, Some(UnexpectedEnd)));
  }

  /** An `-or` with nothing after it is accepted: the empty right operand is
      the identity. */
  lemma TrailingOr(a: Pred)
    ensures var tokens := Render(a) + [OrTok];
      ParseExprSpec(tokens, 0) == Parsed(Or(a, Id), |tokens|, None)
  {
    var tokens := Render(a) + [OrTok];
    LeadingOperand(tokens, a, [OrTok]);
    TrailingOrSteps(tokens, a, Size(a));
  }

  lemma TrailingOrSteps(tokens: seq<Token>, a: Pred, i: nat)
    requires i + 1 == |tokens| && tokens[i] == OrTok && tokens[0].kind in {FlagKind, NotOp, OpenParen}
    requires ParseSubSpec(tokens, 0) == Parsed(a, i, None)
    ensures ParseExprSpec(tokens, 0) == Parsed(Or(a, Id), |tokens|, None)
  {
    var n := |tokens|;
    assert ParseExprSpec(tokens, n) == Parsed(Id, n, None);
    BinaryOrStep(tokens, i, a, Parsed(Id, n, None));
    ExprBinaryStep(tokens, 0, Parsed(a, i, None), Parsed(Or(a, Id), n, None));
  }

  /** After `-and`, a token that cannot begin a sub-expression (an operator,
      a ')' or an unknown word) is rejected with its own kind. */
  lemma OperatorAfterAnd(a: Pred, t: Token, rest: seq<Token>)
    requires t.kind !in {FlagKind, NotOp, OpenParen}
    ensures var tokens := Render(a) + [AndTok, t] + rest;
      ParseExprSpec(tokens, 0) == Parsed(a, Size(a) + 1, Some(UnexpectedToken(t.kind)))
  {
    var tokens := Render(a) + [AndTok, t] + rest;
    assert tokens == Render(a) + ([AndTok, t] + rest);
    LeadingOperand(tokens, a, [AndTok, t] + rest);
    OperatorAfterAndSteps(tokens, a, t, Size(a));
  }

  lemma OperatorAfterAndSteps(tokens: seq<Token>, a: Pred, t: Token, i: nat)
    requires t.kind !in {FlagKind, NotOp, OpenParen}
    requires i + 1 < |tokens| && tokens[i] == AndTok && tokens[i + 1] == t
    requires tokens[0].kind in {FlagKind, NotOp, OpenParen}
    requires ParseSubSpec(tokens, 0) == Parsed(a, i, None)
    ensures ParseExprSpec(tokens, 0) == Parsed(a, i + 1, Some(UnexpectedToken(t.kind)))
  {
    var r := Parsed(a, i + 1, Some(UnexpectedToken(t.kind)));
    assert ParseSubSpec(tokens, i + 1) == Parsed(Id, i + 1, Some(UnexpectedToken(t.kind)));
    assert ParseSubAndSpec(tokens, i + 1, a) == r;
    BinaryAndStep(tokens, i, a, r);
    ExprBinaryStep(tokens, 0, Parsed(a, i, None), r);
  }

  /** An expression cannot begin with `-and` or `-or`. */
  lemma LeadingOperator(t: Token, rest: seq<Token>)
    requires t.kind == AndOp || t.kind == OrOp
    ensures ParseExprSpec([t] + rest, 0) == Parsed(Id, 0, Some(UnexpectedToken(t.kind)))
  {
    assert ([t] + rest)[0] == t;
  }

  /** Two operands with no operator between them. */
  lemma AdjacentOperands(a: Pred, b: Pred)
    ensures var tokens := Render(a) + Render(b);
      ParseExprSpec(tokens, 0) == Parsed(Id, Size(a), Some(ExpectedBinaryOperator(Render(b)[0].kind)))
    ensures Render(b)[0].kind in {FlagKind, NotOp, OpenParen}
  {
    var tokens := Render(a) + Render(b);
    LeadingOperand(tokens, a, Render(b));
    assert tokens == Render(a) + Render(b) + [];
    LayoutRender(tokens, Render(a), b, [], Size(a));
    RendersAtStart(tokens, Size(a), b);
    assert tokens[Size(a)] == Render(b)[0];
    AdjacentOperandsSteps(tokens, a, Size(a));
  }

  lemma AdjacentOperandsSteps(tokens: seq<Token>, a: Pred, i: nat)
    requires i < |tokens| && tokens[0].kind in {FlagKind, NotOp, OpenParen}
    requires tokens[i].kind in {FlagKind, NotOp, OpenParen}
    requires ParseSubSpec(tokens, 0) == Parsed(a, i, None)
    ensures ParseExprSpec(tokens, 0) == Parsed(Id, i, Some(ExpectedBinaryOperator(tokens[i].kind)))
  {
    var r := Parsed(Id, i, Some(ExpectedBinaryOperator(tokens[i].kind)));
    assert ParseBinarySpec(tokens, i, a) == r;
    ExprBinaryStep(tokens, 0, Parsed(a, i, None), r);
  }

  /** A flag the parser does not know. */
  lemma UnknownFlagRejected(flag: string, text: string, rest: seq<Token>)
    requires flag != CustomFlag && flag != IsDirtyFlag
    ensures ParseExprSpec([Token(FlagKind, flag, text)] + rest, 0) == Parsed(Id, 0, Some(UnknownFlag(flag)))
  {
    assert ([Token(FlagKind, flag, text)] + rest)[0] == Token(FlagKind, flag, text);
  }
}
