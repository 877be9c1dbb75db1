/**
 * parsePredicates (parsing/predicates.go:293-316): tokenize the arguments
 * from a start index, then parse the tokens and demand that every one of
 * them is consumed.  ParsePredicatesSpec says what it returns; the method
 * ParsePredicates runs Tokenize and a fresh Parser, as the source does.
 */
module PredicateParsing {
  import opened Wrappers
  import opened Text
  import opened Predicate
  import opened PredicateTokens
  import opened PredicateParser
  import opened PredicateGrammar
  import opened PredicateArgs

  /** The three ways parsePredicates fails, without their message text. */
  datatype PredicatesError =
    | Tokenizing(tokenizeErr: TokenizeError)
    | Parsing(parseErr: ParseError)
    | NotAllConsumed(consumed: nat, total: nat)   // "did not consume all tokens (%d/%d)"

  /** The predicate, the index of the first argument after the predicates,
      and the error. */
  datatype ParsedPredicates = ParsedPredicates(pred: Pred, argIndex: nat, err: Option<PredicatesError>)

  function ParsePredicatesSpec(args: seq<string>, start: nat): (r: ParsedPredicates)
    requires start <= |args|
    ensures start <= r.argIndex <= |args|
    ensures r.argIndex == TokenizeSpec(args, start).argIndex
    ensures r.err.Some? && r.err.value.NotAllConsumed? ==> r.err.value.consumed < r.err.value.total
  {
    var t := TokenizeSpec(args, start);
    if t.err.Some? then ParsedPredicates(Id, t.argIndex, Some(Tokenizing(t.err.value)))
    else if t.tokens == [] then ParsedPredicates(Id, t.argIndex, None)
    else
      var r := ParseExprSpec(t.tokens, 0);
      if r.err.Some? then ParsedPredicates(r.pred, t.argIndex, Some(Parsing(r.err.value)))
      else if !AtEnd(t.tokens, r.cursor) then ParsedPredicates(r.pred, t.argIndex, Some(NotAllConsumed(r.cursor, |t.tokens|)))
      else ParsedPredicates(r.pred, t.argIndex, None)
  }

  /** parsePredicates. */
  method ParsePredicates(args: seq<string>, start: nat) returns (pred: Pred, argIndex: nat, err: Option<PredicatesError>)
    requires start <= |args|
    ensures ParsedPredicates(pred, argIndex, err) == ParsePredicatesSpec(args, start)
  {
    var tokens, terr;
    tokens, argIndex, terr := Tokenize(args, start);
    if terr.Some? {
      return Id, argIndex, Some(Tokenizing(terr.value));
    }
    if |tokens| != 0 {
      var p := new Parser(tokens);
      var perr;
      pred, perr := p.ParseExpression();
      err := if perr.Some? then Some(Parsing(perr.value)) else None;
      if perr.None? && !p.AllTokensConsumed() {
        err := Some(NotAllConsumed(p.currentToken, |p.tokens|));
      }
      return pred, argIndex, err;
    }
    return Id, argIndex, None;
  }

  /** The guard on an empty token list changes nothing: the parser, run on
      no tokens, also returns the identity without error. */
  lemma EmptyTokensParse()
    ensures ParseExprSpec([], 0) == Parsed(Id, 0, None)
  {
  }

  /** No arguments left: the identity, and the index stays where it was. */
  lemma NoPredicates(args: seq<string>)
    ensures ParsePredicatesSpec(args, |args|) == ParsedPredicates(Id, |args|, None)
  {
  }

  /** An immediate `--`: the identity, and the index is just past it. */
  lemma DividerFirst(args: seq<string>, start: nat)
    requires start < |args| && Normalize(args[start]) == Divider
    ensures ParsePredicatesSpec(args, start) == ParsedPredicates(Id, start + 1, None)
  {
    DividerStops(args, start, []);
  }

  /**
   * The round trip through the command line: a predicate written out as
   * arguments and followed by `--` is parsed back to itself, and the
   * actions start just past the `--`, whatever follows.
   */
  lemma ParseWritten(p: Pred, rest: seq<string>)
    requires Writable(p)
    ensures ParsePredicatesSpec(Args(p) + [Divider] + rest, 0) == ParsedPredicates(p, Width(p) + 1, None)
  {
    var args := Args(p) + [Divider] + rest;
    TokenizeWritten(p, rest);
    ParseRender(p);
    ParsedWhole(args, 0, TokenizeSpec(args, 0), Parsed(p, Size(p), None));
  }

  /** The same without the `--`: every argument is taken. */
  lemma ParseWrittenAlone(p: Pred)
    requires Writable(p)
    ensures ParsePredicatesSpec(Args(p), 0) == ParsedPredicates(p, Width(p), None)
  {
    TokenizeWrittenAlone(p);
    ParseRender(p);
    ParsedWhole(Args(p), 0, TokenizeSpec(Args(p), 0), Parsed(p, Size(p), None));
  }

  /** Tokens that the parser takes without error. */
  lemma ParsedWhole(args: seq<string>, start: nat, t: Tokenized, r: Parsed)
    requires start <= |args| && TokenizeSpec(args, start) == t && t.err.None? && t.tokens != []
    requires ParseExprSpec(t.tokens, 0) == r && r.err.None?
    ensures ParsePredicatesSpec(args, start) ==
      ParsedPredicates(r.pred, t.argIndex, if AtEnd(t.tokens, r.cursor) then None else Some(NotAllConsumed(r.cursor, |t.tokens|)))
  {
  }

  /** A stray `)` after a whole predicate: the predicate is parsed, but not
      every token is consumed. */
  lemma StrayCloseParen(p: Pred)
    requires Writable(p)
    ensures ParsePredicatesSpec(Args(p) + [")"], 0) == ParsedPredicates(p, Width(p) + 1, Some(NotAllConsumed(Size(p), Size(p) + 1)))
  {
    StrayCloseSteps(p, Args(p) + [")"], Width(p), Size(p));
  }

  lemma StrayCloseSteps(p: Pred, args: seq<string>, w: nat, n: nat)
    requires Writable(p) && args == Args(p) + [")"] && w == Width(p) && n == Size(p)
    ensures ParsePredicatesSpec(args, 0) == ParsedPredicates(p, w + 1, Some(NotAllConsumed(n, n + 1)))
  {
    var tokens := Render(p) + [CloseTok];
    TokenizeStrayClose(p, args, w);
    StrayCloseTokens(p, tokens);
    ParsedWhole(args, 0, Tokenized(tokens, w + 1, None), Parsed(p, n, None));
  }

  lemma TokenizeStrayClose(p: Pred, args: seq<string>, w: nat)
    requires Writable(p) && args == Args(p) + [")"] && w == Width(p)
    ensures TokenizeSpec(args, 0) == Tokenized(Render(p) + [CloseTok], |args|, None)
  {
    LayoutWritten(p, [")"], args);
    TokenizeAt(args, 0, p, w);
    TokenizeCloseWord(args, w);
    EndStops(args, [CloseTok]);
    PrependTwice(Render(p), [CloseTok], TokenizeSpec(args, |args|));
  }

  lemma StrayCloseTokens(p: Pred, tokens: seq<Token>)
    requires tokens == Render(p) + [CloseTok]
    ensures ParseExprSpec(tokens, 0) == Parsed(p, Size(p), None)
  {
    assert tokens == [] + Render(p) + [CloseTok];
    LayoutRender(tokens, [], p, [CloseTok], 0);
    ParseExprAt(tokens, 0, p);
  }

  /** An unknown word among the predicates is reported by the tokenizer,
      with the index of its argument. */
  lemma UnknownWordFails(args: seq<string>, start: nat, lead: nat, word: string, trail: nat)
    requires start < |args| && Normalize(args[start]) != Divider
    requires SplitParens(Normalize(args[start])) == Pieces(lead, word, trail)
    requires word != [] && word !in {"-and", "-or", "-not", "-isdirty", "-custom"}
    ensures ParsePredicatesSpec(args, start) == ParsedPredicates(Id, start, Some(Tokenizing(UnknownPredicate(word))))
  {
    UnknownWordRejected(args, start, lead, word, trail);
  }

  /** On success the actions start at the end of the arguments or just past
      a `--`. */
  lemma ParsedEnds(args: seq<string>, start: nat)
    requires start <= |args|
    ensures var r := ParsePredicatesSpec(args, start);
      r.err.None? ==> r.argIndex == |args| || (start < r.argIndex && Normalize(args[r.argIndex - 1]) == Divider)
  {
    TokenizeEnds(args, start);
  }
}
