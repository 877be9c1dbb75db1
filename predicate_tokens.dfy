/**
 * The predicate tokenizer of parsing/predicates.go (tokenizePredicates and
 * the word table PredicateInfo).  TokenizeSpec states, argument by
 * argument, what the tokenizer produces; the method Tokenize is the loop of
 * the source, proved to produce exactly that.
 */
module PredicateTokens {
  import opened Wrappers
  import opened Text

  /** predicateType; NoKind is the zero value pNone. */
  datatype TokenKind = NoKind | FlagKind | OpenParen | CloseParen | AndOp | OrOp | NotOp

  /** predicateToken: a kind, the lower-cased flag name, and for -custom
      the command text. */
  datatype Token = Token(kind: TokenKind, flag: string, text: string)

  const OpenTok := Token(OpenParen, "", "")
  const CloseTok := Token(CloseParen, "", "")

  datatype PredicateInfo = PredicateInfo(name: string, kind: TokenKind)

  /** One row of the word table PredicateInfo, keyed by the lower-case word. */
  datatype TableRow = TableRow(word: string, info: PredicateInfo)

  const PredicateTable := [
    TableRow("-and", PredicateInfo("-and", AndOp)),
    TableRow("-or", PredicateInfo("-or", OrOp)),
    TableRow("-not", PredicateInfo("-not", NotOp)),
    TableRow("-isdirty", PredicateInfo("-isDirty", FlagKind)),
    TableRow("-custom", PredicateInfo("-custom", FlagKind))
  ]

  /** The lookup tokenMap[word]; a miss is None. */
  function Find(rows: seq<TableRow>, word: string): (r: Option<PredicateInfo>)
  {
    if rows == [] then None
    else if rows[0].word == word then Some(rows[0].info)
    else Find(rows[1..], word)
  }

  function LookupPredicate(word: string): (r: Option<PredicateInfo>)
  {
    Find(PredicateTable, word)
  }

  /** The separator between predicates and actions. */
  const Divider := "--"

  /** thisArg == predicateDivider. */
  predicate IsDivider(w: string)
  {
    w == Divider
  }

  datatype TokenizeError =
    | GluedCloseParen           // `-custom)`: a ')' glued to -custom itself
    | MissingCustomArgument     // -custom is the last argument (the source indexes past the end)
    | EmptyCustomCommand        // the argument after -custom is nothing but ')'s
    | UnknownPredicate(word: string)

  /** tokenizePredicates' three results; on an error the token list is empty. */
  datatype Tokenized = Tokenized(tokens: seq<Token>, argIndex: nat, err: Option<TokenizeError>)

  function Chars(c: char, n: nat): (s: string)
    ensures |s| == n && forall k :: 0 <= k < n ==> s[k] == c
  {
    if n == 0 then [] else [c] + Chars(c, n - 1)
  }

  function Opens(n: nat): (ts: seq<Token>)
    ensures |ts| == n && forall k :: 0 <= k < n ==> ts[k] == OpenTok
  {
    if n == 0 then [] else [OpenTok] + Opens(n - 1)
  }

  function Closes(n: nat): (ts: seq<Token>)
    ensures |ts| == n && forall k :: 0 <= k < n ==> ts[k] == CloseTok
  {
    if n == 0 then [] else [CloseTok] + Closes(n - 1)
  }

  /** How many copies of c begin s. */
  function LeadingCount(s: string, c: char): (n: nat)
    ensures n <= |s|
  {
    if s != [] && s[0] == c then 1 + LeadingCount(s[1..], c) else 0
  }

  /** How many copies of c end s. */
  function TrailingCount(s: string, c: char): (n: nat)
    ensures n <= |s|
  {
    if s != [] && s[|s| - 1] == c then 1 + TrailingCount(s[..|s| - 1], c) else 0
  }

  /** LeadingCount counts all the leading copies and no more. */
  lemma {:induction false} LeadingSplit(s: string, c: char)
    ensures var n := LeadingCount(s, c);
      s == Chars(c, n) + s[n..] && (n < |s| ==> s[n] != c)
  {
    if s != [] && s[0] == c {
      LeadingSplit(s[1..], c);
      assert s == [c] + s[1..];
    }
  }

  lemma {:induction false} TrailingChars(s: string, c: char)
    ensures forall k :: |s| - TrailingCount(s, c) <= k < |s| ==> s[k] == c
    ensures TrailingCount(s, c) < |s| ==> s[|s| - 1 - TrailingCount(s, c)] != c
  {
    if s != [] && s[|s| - 1] == c {
      TrailingChars(s[..|s| - 1], c);
    }
  }

  /** TrailingCount counts all the trailing copies and no more. */
  lemma TrailingSplit(s: string, c: char)
    ensures var n := TrailingCount(s, c);
      s == s[..|s| - n] + Chars(c, n) && (n < |s| ==> s[|s| - 1 - n] != c)
  {
    TrailingChars(s, c);
    var n := TrailingCount(s, c);
    assert forall k :: 0 <= k < |s| ==> (s[..|s| - n] + Chars(c, n))[k] == s[k];
  }

  /** An argument taken apart: leading '('s, the word, trailing ')'s. */
  datatype Pieces = Pieces(lead: nat, word: string, trail: nat)

  function SplitParens(w: string): Pieces
  {
    var lead := LeadingCount(w, '(');
    var body := w[lead..];
    var trail := TrailingCount(body, ')');
    Pieces(lead, body[..|body| - trail], trail)
  }

  /** Taking an argument apart loses nothing, and leaves no parenthesis
      at either end of the word. */
  lemma SplitParensJoin(w: string)
    ensures var p := SplitParens(w);
      w == Chars('(', p.lead) + p.word + Chars(')', p.trail)
      && (p.word != [] ==> p.word[0] != '(' && p.word[|p.word| - 1] != ')')
  {
    var lead := LeadingCount(w, '(');
    var body := w[lead..];
    var trail := TrailingCount(body, ')');
    var word := body[..|body| - trail];
    assert SplitParens(w) == Pieces(lead, word, trail);
    LeadingSplit(w, '(');
    TrailingSplit(body, ')');
    Associate(Chars('(', lead), word, Chars(')', trail));
    if word != [] {
      assert word[0] == w[lead];
      assert word[|word| - 1] == body[|body| - 1 - trail];
    }
  }

  lemma Associate<T>(a: seq<T>, b: seq<T>, c: seq<T>)
    ensures a + (b + c) == a + b + c
  {
  }

  /** The text of a -custom command: the raw argument minus its trailing ')'s. */
  function CustomText(cmd: string): string
  {
    cmd[..|cmd| - TrailingCount(cmd, ')')]
  }

  /**
   * What the tokenizer makes of a word stripped of its parentheses, with
   * trail ')'s counted after it, found at argument i: the flag token (none
   * for an empty word), the ')'s to emit, and the last argument consumed
   * (i + 1 when -custom took the next one as its command).
   */
  datatype WordScan =
    | WordOk(tok: Option<Token>, closes: nat, last: nat)
    | WordErr(err: TokenizeError, at: nat)

  function ScanWord(args: seq<string>, i: nat, word: string, trail: nat): (r: WordScan)
    requires i < |args|
    ensures r.WordOk? ==> i <= r.last <= i + 1 && r.last < |args|
    ensures r.WordOk? && r.last == i ==> r.closes == trail
    ensures r.WordErr? ==> i <= r.at <= i + 1 && r.at <= |args|
    ensures word == [] ==> r == WordOk(None, trail, i)
  {
    if word == [] then WordOk(None, trail, i)
    else if LookupPredicate(word).None? then WordErr(UnknownPredicate(word), i)
    else
      var info := LookupPredicate(word).value;
      if info.kind == FlagKind && Lower(info.name) == "-custom" then
        if trail != 0 then WordErr(GluedCloseParen, i)
        else if i + 1 == |args| then WordErr(MissingCustomArgument, i + 1)
        else
          var cmd := args[i + 1];
          var text := CustomText(cmd);
          if text == [] then WordErr(EmptyCustomCommand, i + 1)
          else WordOk(Some(Token(FlagKind, Lower(info.name), text)), TrailingCount(cmd, ')'), i + 1)
      else WordOk(Some(Token(info.kind, Lower(info.name), "")), trail, i)
  }

  function OptionalToken(t: Option<Token>): (ts: seq<Token>)
    ensures |ts| <= 1
  {
    if t.Some? then [t.value] else []
  }

  /** What the tokenizer does with the argument at i. */
  datatype Scan =
    | AtDivider
    | Emit(tokens: seq<Token>, width: nat)      // the argument (and, for -custom, the next one) gave these
    | Reject(err: TokenizeError, at: nat)

  function ScanArg(args: seq<string>, i: nat): (s: Scan)
    requires i < |args|
    ensures s.Emit? ==> 1 <= s.width <= 2 && i + s.width <= |args|
    ensures s.Reject? ==> i <= s.at <= |args|
  {
    var w := Normalize(args[i]);
    if IsDivider(w) then AtDivider
    else
      var p := SplitParens(w);
      var r := ScanWord(args, i, p.word, p.trail);
      if r.WordErr? then Reject(r.err, r.at)
      else Emit(Opens(p.lead) + OptionalToken(r.tok) + Closes(r.closes), r.last + 1 - i)
  }

  /** Tokens already collected, put in front of the outcome of the rest. */
  function Prepend(pre: seq<Token>, r: Tokenized): (p: Tokenized)
    ensures p.argIndex == r.argIndex && p.err == r.err
    ensures r.err.Some? ==> p == r
  {
    if r.err.None? then Tokenized(pre + r.tokens, r.argIndex, None) else r
  }

  /**
   * The tokenizer's result from argument i on.  On success the index is one
   * past the `--` that stopped it, or the number of arguments; an error
   * comes with no tokens.
   */
  function TokenizeSpec(args: seq<string>, i: nat): (r: Tokenized)
    requires i <= |args|
    ensures i <= r.argIndex <= |args|
    ensures r.err.Some? ==> r.tokens == []
    decreases |args| - i, 1, 0
  {
    if i == |args| then Tokenized([], i, None) else TokenizeTurn(args, i)
  }

  /** Not a step of its own: TokenizeFrom under another name.  The extra
      link in the recursion keeps the verifier from unfolding TokenizeSpec
      into ScanArg wherever TokenizeSpec appears; a proof that needs the
      turn says `TokenizeSpec(args, i) == TokenizeFrom(args, i)`. */
  function TokenizeTurn(args: seq<string>, i: nat): (r: Tokenized)
    requires i < |args|
    ensures i <= r.argIndex <= |args|
    ensures r.err.Some? ==> r.tokens == []
    decreases |args| - i, 0, 1
  {
    TokenizeFrom(args, i)
  }

  /** One turn of the tokenizer on the argument at i, and the turns after it. */
  function TokenizeFrom(args: seq<string>, i: nat): (r: Tokenized)
    requires i < |args|
    ensures i <= r.argIndex <= |args|
    ensures r.err.Some? ==> r.tokens == []
    decreases |args| - i, 0, 0
  {
    var s := ScanArg(args, i);
    if s.AtDivider? then Tokenized([], i + 1, None)
    else if s.Reject? then Tokenized([], s.at, Some(s.err))
    else Prepend(s.tokens, TokenizeSpec(args, i + s.width))
  }

  lemma PrependTwice(a: seq<Token>, b: seq<Token>, r: Tokenized)
    ensures Prepend(a, Prepend(b, r)) == Prepend(a + b, r)
  {
    if r.err.None? {
      assert a + (b + r.tokens) == a + b + r.tokens;
    }
  }

  /** The loop that turns the leading '('s of an argument into tokens. */
  method TakeOpenParens(arg: string, tokens: seq<Token>) returns (rest: string, out: seq<Token>)
    ensures LeadingCount(arg, '(') <= |arg| && rest == arg[LeadingCount(arg, '(')..]
    ensures out == tokens + Opens(LeadingCount(arg, '('))
  {
    rest, out := arg, tokens;
    var n := 0;
    while |rest| != 0 && rest[0] == '('
      invariant n <= |arg| && rest == arg[n..]
      invariant n + LeadingCount(rest, '(') == LeadingCount(arg, '(')
      invariant out == tokens + Opens(n)
    {
      out := out + [OpenTok];
      rest := rest[1..];
      n := n + 1;
    }
  }

  /** The loop that strips and counts the trailing ')'s of an argument. */
  method TakeCloseParens(arg: string) returns (rest: string, n: nat)
    ensures n == TrailingCount(arg, ')') && rest == arg[..|arg| - n]
  {
    rest, n := arg, 0;
    while |rest| != 0 && rest[|rest| - 1] == ')'
      invariant n <= |arg| && rest == arg[..|arg| - n]
      invariant n + TrailingCount(rest, ')') == TrailingCount(arg, ')')
    {
      n := n + 1;
      rest := rest[..|rest| - 1];
    }
  }

  /** The loop that emits the counted ')'s after the word. */
  method AddCloseParens(tokens: seq<Token>, n: nat) returns (out: seq<Token>)
    ensures out == tokens + Closes(n)
  {
    out := tokens;
    var k := 0;
    while k < n
      invariant k <= n && out == tokens + Closes(k)
    {
      out := out + [CloseTok];
      k := k + 1;
    }
  }

  /**
   * The body of the tokenizer loop for a word without its parentheses:
   * the word-table lookup and the -custom case (parsing/predicates.go:132-165).
   */
  method TokenizeWord(args: seq<string>, argIndex: nat, thisArg: string, numEndParens: nat)
    returns (tok: Option<Token>, closes: nat, last: nat, err: Option<TokenizeError>, at: nat)
    requires argIndex < |args|
    ensures err.None? ==> ScanWord(args, argIndex, thisArg, numEndParens) == WordOk(tok, closes, last)
    ensures err.Some? ==> ScanWord(args, argIndex, thisArg, numEndParens) == WordErr(err.value, at)
  {
    tok, closes, last, err, at := None, numEndParens, argIndex, None, argIndex;
    if |thisArg| != 0 {
      var found := LookupPredicate(thisArg);
      if found.Some? {
        var info := found.value;
        if info.kind == FlagKind && Lower(info.name) == "-custom" {
          if numEndParens != 0 {
            return None, 0, 0, Some(GluedCloseParen), argIndex;
          }
          // the next argument, as given, is the command
          last := argIndex + 1;
          if last == |args| {
            return None, 0, 0, Some(MissingCustomArgument), last;
          }
          var customCmd;
          customCmd, closes := TakeCloseParens(args[last]);
          if |customCmd| == 0 {
            return None, 0, 0, Some(EmptyCustomCommand), last;
          }
          tok := Some(Token(FlagKind, Lower(info.name), customCmd));
        } else {
          tok := Some(Token(info.kind, Lower(info.name), ""));
        }
      } else {
        return None, 0, 0, Some(UnknownPredicate(thisArg)), argIndex;
      }
    }
  }

  lemma Assemble(before: seq<Token>, opens: seq<Token>, tok: Option<Token>, closes: seq<Token>,
                  withOpens: seq<Token>, tokens: seq<Token>)
    requires withOpens == before + opens
    requires tokens == (if tok.Some? then withOpens + [tok.value] else withOpens) + closes
    ensures tokens == before + (opens + OptionalToken(tok) + closes)
  {
    if tok.None? {
      assert withOpens + [] == withOpens;
    }
  }

  /** The tokens collected so far, put in front of a turn's own tokens. */
  lemma EmitStep(tokens: seq<Token>, out: seq<Token>, r: Tokenized)
    requires |tokens| <= |out| && out[..|tokens|] == tokens
    ensures Prepend(tokens, Prepend(out[|tokens|..], r)) == Prepend(out, r)
  {
    PrependTwice(tokens, out[|tokens|..], r);
    assert tokens + out[|tokens|..] == out;
  }

  /** An argument that is not `--` and whose word is found, from its parts. */
  lemma ScanArgEmit(args: seq<string>, i: nat, w: string, lead: nat, word: string, trail: nat, r: WordScan)
    requires i < |args| && Normalize(args[i]) == w && !IsDivider(w)
    requires SplitParens(w) == Pieces(lead, word, trail)
    requires ScanWord(args, i, word, trail) == r && r.WordOk?
    ensures ScanArg(args, i) == Emit(Opens(lead) + OptionalToken(r.tok) + Closes(r.closes), r.last + 1 - i)
  {
  }

  /** An argument whose word the tokenizer refuses, from its parts. */
  lemma ScanArgReject(args: seq<string>, i: nat, w: string, lead: nat, word: string, trail: nat, r: WordScan)
    requires i < |args| && Normalize(args[i]) == w && !IsDivider(w)
    requires SplitParens(w) == Pieces(lead, word, trail)
    requires ScanWord(args, i, word, trail) == r && r.WordErr?
    ensures ScanArg(args, i) == Reject(r.err, r.at)
  {
  }

  /** The tokenizer's step over an argument that gives tokens ts. */
  lemma EmitUnfold(args: seq<string>, i: nat, ts: seq<Token>, width: nat)
    requires i < |args| && ScanArg(args, i) == Emit(ts, width)
    ensures TokenizeSpec(args, i) == Prepend(ts, TokenizeSpec(args, i + width))
  {
    assert TokenizeSpec(args, i) == TokenizeFrom(args, i);
  }

  /** An argument that reads `--` ends the tokenizer just past it. */
  lemma DividerTurn(args: seq<string>, i: nat)
    requires i < |args| && IsDivider(Normalize(args[i]))
    ensures TokenizeSpec(args, i) == Tokenized([], i + 1, None)
  {
    assert TokenizeSpec(args, i) == TokenizeFrom(args, i);
  }

  /** A refused argument ends the tokenizer with the error and no tokens. */
  lemma RejectTurn(args: seq<string>, i: nat, err: TokenizeError, at: nat)
    requires i < |args| && ScanArg(args, i) == Reject(err, at)
    ensures TokenizeSpec(args, i) == Tokenized([], at, Some(err))
  {
    assert TokenizeSpec(args, i) == TokenizeFrom(args, i);
  }

  /**
   * One turn of the tokenizer loop (parsing/predicates.go:113-176): the
   * argument at argIndex, and for -custom the one after it, appended to
   * tokens.  atDivider reports the `--` that ends the loop; an error ends
   * it too; otherwise the tokenizer goes on at next.
   */
  method TokenizeArgument(args: seq<string>, argIndex: nat, tokens: seq<Token>)
    returns (atDivider: bool, out: seq<Token>, next: nat, err: Option<TokenizeError>)
    requires argIndex < |args|
    ensures atDivider ==> err.None? && TokenizeSpec(args, argIndex) == Tokenized([], argIndex + 1, None)
    ensures err.Some? ==> TokenizeSpec(args, argIndex) == Tokenized([], next, err)
    ensures !atDivider && err.None? ==>
      |tokens| <= |out| && out[..|tokens|] == tokens && argIndex < next <= |args|
      && TokenizeSpec(args, argIndex) == Prepend(out[|tokens|..], TokenizeSpec(args, next))
  {
    out, next, err := tokens, argIndex, None;
    var thisArg := Normalize(args[argIndex]);
    if IsDivider(thisArg) {
      DividerTurn(args, argIndex);
      return true, tokens, argIndex + 1, None;
    }
    atDivider := false;
    ghost var w := thisArg;
    ghost var lead := LeadingCount(thisArg, '(');
    thisArg, out := TakeOpenParens(thisArg, out);
    ghost var withOpens := out;
    var numEndParens;
    thisArg, numEndParens := TakeCloseParens(thisArg);
    assert SplitParens(w) == Pieces(lead, thisArg, numEndParens);

    var tok, closes, last, werr, at := TokenizeWord(args, argIndex, thisArg, numEndParens);
    if werr.Some? {
      ScanArgReject(args, argIndex, w, lead, thisArg, numEndParens, WordErr(werr.value, at));
      RejectTurn(args, argIndex, werr.value, at);
      return false, [], at, werr;
    }
    if tok.Some? {
      out := out + [tok.value];
    }
    out := AddCloseParens(out, closes);
    next := last + 1;
    Assemble(tokens, Opens(lead), tok, Closes(closes), withOpens, out);
    ScanArgEmit(args, argIndex, w, lead, thisArg, numEndParens, WordOk(tok, closes, last));
    EmitUnfold(args, argIndex, Opens(lead) + OptionalToken(tok) + Closes(closes), next - argIndex);
  }

  /** tokenizePredicates (parsing/predicates.go:106-178). */
  method Tokenize(args: seq<string>, start: nat) returns (tokens: seq<Token>, argIndex: nat, err: Option<TokenizeError>)
    requires start <= |args|
    ensures Tokenized(tokens, argIndex, err) == TokenizeSpec(args, start)
  {
    tokens, argIndex, err := [], start, None;
    while argIndex != |args|
      invariant start <= argIndex <= |args|
      invariant TokenizeSpec(args, start) == Prepend(tokens, TokenizeSpec(args, argIndex))
      decreases |args| - argIndex
    {
      var atDivider, out, next, e := TokenizeArgument(args, argIndex, tokens);
      if atDivider {
        assert tokens + [] == tokens;
        argIndex := argIndex + 1;
        break;
      }
      if e.Some? {
        return [], next, e;
      }
      EmitStep(tokens, out, TokenizeSpec(args, next));
      tokens, argIndex := out, next;
    }
  }
}
