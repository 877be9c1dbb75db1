/**
 * What the predicate tokenizer of parsing/predicates.go makes of whole
 * command lines: the words it knows, one argument at a time; the
 * parentheses around them; the -custom argument and its failures; where it
 * stops; and a predicate written out as arguments by Args, which tokenizes
 * to the tokens Render gives it.
 */
module PredicateArgs {
  import opened Wrappers
  import opened Text
  import opened Predicate
  import opened PredicateTokens
  import opened PredicateParser
  import opened PredicateGrammar

  // ---- the word table ----

  /** A lookup finds a word exactly when some row is keyed by it. */
  lemma {:induction false} FindSome(rows: seq<TableRow>, w: string)
    ensures Find(rows, w).Some? <==> exists k :: 0 <= k < |rows| && rows[k].word == w
  {
    if rows != [] {
      FindSome(rows[1..], w);
      if rows[0].word != w && Find(rows, w).Some? {
        var k :| 0 <= k < |rows[1..]| && rows[1..][k].word == w;
        assert rows[k + 1].word == w;
      }
      if rows[0].word != w && Find(rows, w).None? {
        forall k | 0 < k < |rows|
          ensures rows[k].word != w
        {
          assert rows[k] == rows[1..][k - 1];
        }
      }
    }
  }

  /** The table knows exactly five words. */
  lemma TableWords(w: string)
    ensures LookupPredicate(w).Some? <==>
      w == "-and" || w == "-or" || w == "-not" || w == "-isdirty" || w == "-custom"
  {
    FindSome(PredicateTable, w);
    if LookupPredicate(w).Some? {
      var k :| 0 <= k < 5 && PredicateTable[k].word == w;
      assert k == 0 || k == 1 || k == 2 || k == 3 || k == 4;
    } else {
      assert PredicateTable[0].word == "-and" && PredicateTable[1].word == "-or";
      assert PredicateTable[2].word == "-not" && PredicateTable[3].word == "-isdirty";
      assert PredicateTable[4].word == "-custom";
    }
  }

  lemma LookupWords()
    ensures LookupPredicate("-and") == Some(PredicateInfo("-and", AndOp))
    ensures LookupPredicate("-or") == Some(PredicateInfo("-or", OrOp))
    ensures LookupPredicate("-not") == Some(PredicateInfo("-not", NotOp))
    ensures LookupPredicate("-isdirty") == Some(PredicateInfo("-isDirty", FlagKind))
    ensures LookupPredicate("-custom") == Some(PredicateInfo("-custom", FlagKind))
  {
  }

  lemma LowerFixed(w: string)
    requires NoUpper(w)
    ensures Lower(w) == w
  {
    LowerAt(w);
    assert forall k :: 0 <= k < |w| ==> Lower(w)[k] == w[k];
  }

  /** A word without capitals or surrounding blanks is looked up as it is. */
  lemma NormalizeFixed(w: string)
    requires NoUpper(w) && w != [] && !IsBlank(w[0]) && !IsBlank(w[|w| - 1])
    ensures Normalize(w) == w
  {
    LowerFixed(w);
    NormalizePadded([], w, []);
    assert [] + w + [] == w;
  }

  /** The names in the table, lowered, are the words they are found by. */
  lemma LowerNames()
    ensures Lower("-and") == "-and" && Lower("-or") == "-or" && Lower("-not") == "-not"
    ensures Lower("-isDirty") == "-isdirty" && Lower("-custom") == "-custom"
  {
    LowerIsDirty();
    LowerOperators();
    LowerCustom();
  }

  lemma LowerOperators()
    ensures Lower("-and") == "-and" && Lower("-or") == "-or" && Lower("-not") == "-not"
  {
    LowerOf("-and", "-and");
    LowerOf("-or", "-or");
    LowerOf("-not", "-not");
  }

  lemma LowerCustom()
    ensures Lower("-custom") == "-custom"
  {
    LowerOf("-custom", "-custom");
  }

  lemma LowerIsDirty()
    ensures Lower("-isDirty") == "-isdirty"
  {
    LowerOf("-isDirty", "-isdirty");
  }

  // ---- one argument ----

  /** A word of the table other than -custom, with trail ')'s after it. */
  lemma ScanTableWord(args: seq<string>, i: nat, w: string, trail: nat)
    requires i < |args| && w in {"-and", "-or", "-not", "-isdirty"}
    ensures ScanWord(args, i, w, trail) ==
      WordOk(Some(Token(LookupPredicate(w).value.kind, w, "")), trail, i)
  {
    LookupWords();
    LowerNames();
  }

  /** The four plain words of the table are looked up as they are. */
  lemma PlainWordShape(w: string)
    requires w in {"-and", "-or", "-not", "-isdirty"}
    ensures Normalize(w) == w && !IsDivider(w) && SplitParens(w) == Pieces(0, w, 0)
  {
    assert NoUpper(w) && w[0] == '-' && w[|w| - 1] in {'d', 'r', 't', 'y'};
    LowerFixed(w);
    NormalizeUnpadded(w);
    SplitPlain(w);
  }

  lemma SplitPlain(w: string)
    requires w != [] && w[0] != '(' && w[|w| - 1] != ')'
    ensures SplitParens(w) == Pieces(0, w, 0)
  {
    assert w[0..] == w;
    assert w[..|w| - 0] == w;
  }

  lemma NoParens()
    ensures Opens(0) == [] && Closes(0) == [] && Opens(1) == [OpenTok] && Closes(1) == [CloseTok]
  {
  }

  /** A plain word of the table, once looked up, gives its one token. */
  lemma ScanPlainWord(args: seq<string>, i: nat, w: string)
    requires i < |args| && Normalize(args[i]) == w && w in {"-and", "-or", "-not", "-isdirty"}
    ensures ScanArg(args, i) == Emit([Token(LookupPredicate(w).value.kind, w, "")], 1)
  {
    var tok := Token(LookupPredicate(w).value.kind, w, "");
    PlainWordShape(w);
    ScanTableWord(args, i, w, 0);
    NoParens();
    assert Opens(0) + OptionalToken(Some(tok)) + Closes(0) == [tok];
    ScanArgEmit(args, i, w, 0, w, 0, WordOk(Some(tok), 0, i));
  }

  lemma TokenizePlainWord(args: seq<string>, i: nat, w: string)
    requires i < |args| && Normalize(args[i]) == w && w in {"-and", "-or", "-not", "-isdirty"}
    ensures TokenizeSpec(args, i) == Prepend([Token(LookupPredicate(w).value.kind, w, "")], TokenizeSpec(args, i + 1))
  {
    ScanPlainWord(args, i, w);
    EmitUnfold(args, i, [Token(LookupPredicate(w).value.kind, w, "")], 1);
  }

  lemma TokenizeAndWord(args: seq<string>, i: nat)
    requires i < |args| && args[i] == "-and"
    ensures TokenizeSpec(args, i) == Prepend([AndTok], TokenizeSpec(args, i + 1))
  {
    PlainWordShape("-and");
    LookupWords();
    TokenizePlainWord(args, i, "-and");
  }

  lemma TokenizeOrWord(args: seq<string>, i: nat)
    requires i < |args| && args[i] == "-or"
    ensures TokenizeSpec(args, i) == Prepend([OrTok], TokenizeSpec(args, i + 1))
  {
    PlainWordShape("-or");
    LookupWords();
    TokenizePlainWord(args, i, "-or");
  }

  lemma TokenizeNotWord(args: seq<string>, i: nat)
    requires i < |args| && args[i] == "-not"
    ensures TokenizeSpec(args, i) == Prepend([NotTok], TokenizeSpec(args, i + 1))
  {
    PlainWordShape("-not");
    LookupWords();
    TokenizePlainWord(args, i, "-not");
  }

  lemma NormalizeIsDirty()
    ensures Normalize("-isDirty") == "-isdirty"
  {
    LowerIsDirty();
    NormalizePadded([], "-isDirty", []);
    assert [] + "-isDirty" + [] == "-isDirty";
  }

  /** `-isDirty`, written as in the table, is found by its lower-case form. */
  lemma TokenizeIsDirtyWord(args: seq<string>, i: nat)
    requires i < |args| && args[i] == "-isDirty"
    ensures TokenizeSpec(args, i) == Prepend([IsDirtyTok], TokenizeSpec(args, i + 1))
  {
    NormalizeIsDirty();
    LookupWords();
    TokenizePlainWord(args, i, "-isdirty");
  }

  /** Case and surrounding blanks do not matter: an argument replaced by one
      with the same looked-up form is read the same way. */
  lemma SameScan(args: seq<string>, i: nat, a: string)
    requires i < |args| && Normalize(a) == Normalize(args[i])
    ensures ScanArg(args[i := a], i) == ScanArg(args, i)
  {
    var args' := args[i := a];
    var p := SplitParens(Normalize(a));
    assert ScanWord(args', i, p.word, p.trail) == ScanWord(args, i, p.word, p.trail);
  }

  /** A word that is not in the table, whatever parentheses surround it,
      stops the tokenizer at its argument with no tokens. */
  lemma UnknownWordRejected(args: seq<string>, i: nat, lead: nat, word: string, trail: nat)
    requires i < |args| && Normalize(args[i]) != Divider
    requires SplitParens(Normalize(args[i])) == Pieces(lead, word, trail)
    requires word != [] && word !in {"-and", "-or", "-not", "-isdirty", "-custom"}
    ensures TokenizeSpec(args, i) == Tokenized([], i, Some(UnknownPredicate(word)))
  {
    TableWords(word);
    ScanArgReject(args, i, Normalize(args[i]), lead, word, trail, ScanWord(args, i, word, trail));
    assert TokenizeSpec(args, i) == TokenizeFrom(args, i);
  }

  /** On success the tokenizer has taken every argument, or it stopped just
      past an argument that reads `--`. */
  lemma {:induction false} TokenizeEnds(args: seq<string>, i: nat)
    requires i <= |args|
    ensures var r := TokenizeSpec(args, i);
      r.err.None? ==> r.argIndex == |args| || (i < r.argIndex && Normalize(args[r.argIndex - 1]) == Divider)
    decreases |args| - i
  {
    if i < |args| {
      assert TokenizeSpec(args, i) == TokenizeFrom(args, i);
      var s := ScanArg(args, i);
      if s.Emit? {
        TokenizeEnds(args, i + s.width);
      }
    }
  }

  /** With no `--` among the arguments it reads, a tokenizer that succeeds
      has taken them all. */
  lemma NoDividerConsumesAll(args: seq<string>, i: nat)
    requires i <= |args|
    requires forall k :: i <= k < |args| ==> Normalize(args[k]) != Divider
    ensures TokenizeSpec(args, i).err.None? ==> TokenizeSpec(args, i).argIndex == |args|
  {
    TokenizeEnds(args, i);
  }

  // ---- -custom ----

  lemma DividerPieces()
    ensures SplitParens(Divider) == Pieces(0, Divider, 0)
  {
    SplitPlain(Divider);
  }

  /**
   * The argument after -custom: with its trailing ')'s counted off it is
   * the command, kept as given; -custom glued to a ')', -custom as the last
   * argument and a command of nothing but ')'s are refused.
   */
  lemma CustomArgument(args: seq<string>, i: nat, lead: nat, trail: nat)
    requires i < |args| && SplitParens(Normalize(args[i])) == Pieces(lead, CustomFlag, trail)
    ensures trail > 0 ==> ScanArg(args, i) == Reject(GluedCloseParen, i)
    ensures trail == 0 && i + 1 == |args| ==> ScanArg(args, i) == Reject(MissingCustomArgument, |args|)
    ensures trail == 0 && i + 1 < |args| && CustomText(args[i + 1]) == [] ==>
      ScanArg(args, i) == Reject(EmptyCustomCommand, i + 1)
    ensures trail == 0 && i + 1 < |args| && CustomText(args[i + 1]) != [] ==>
      ScanArg(args, i) == Emit(Opens(lead) + [CustomTok(CustomText(args[i + 1]))] + Closes(TrailingCount(args[i + 1], ')')), 2)
  {
    var w := Normalize(args[i]);
    DividerPieces();
    LookupWords();
    LowerCustom();
    var r := ScanWord(args, i, CustomFlag, trail);
    if r.WordErr? {
      ScanArgReject(args, i, w, lead, CustomFlag, trail, r);
    } else {
      ScanArgEmit(args, i, w, lead, CustomFlag, trail, r);
    }
  }

  /** The command is the argument with its trailing ')'s taken off, and it
      is empty exactly when the argument is nothing but ')'s. */
  lemma CustomTextSplit(cmd: string)
    ensures cmd == CustomText(cmd) + Chars(')', TrailingCount(cmd, ')'))
    ensures CustomText(cmd) != [] ==> CustomText(cmd)[|CustomText(cmd)| - 1] != ')'
    ensures CustomText(cmd) == [] <==> forall k :: 0 <= k < |cmd| ==> cmd[k] == ')'
  {
    TrailingSplit(cmd, ')');
    TrailingChars(cmd, ')');
    var n := TrailingCount(cmd, ')');
    if CustomText(cmd) != [] {
      assert CustomText(cmd)[|CustomText(cmd)| - 1] == cmd[|cmd| - 1 - n];
    }
  }

  /** A command with no ')' at its end is handed over whole. */
  lemma PlainCustomText(cmd: string)
    requires PlainCommand(cmd)
    ensures CustomText(cmd) == cmd && TrailingCount(cmd, ')') == 0
  {
    assert cmd[..|cmd|] == cmd;
  }

  lemma CustomShape()
    ensures Normalize(CustomFlag) == CustomFlag && SplitParens(CustomFlag) == Pieces(0, CustomFlag, 0)
  {
    NormalizeFixed(CustomFlag);
    SplitPlain(CustomFlag);
  }

  /** `-custom` followed by a plain command. */
  lemma ScanCustomWord(args: seq<string>, i: nat)
    requires i + 1 < |args| && args[i] == "-custom" && PlainCommand(args[i + 1])
    ensures ScanArg(args, i) == Emit([CustomTok(args[i + 1])], 2)
  {
    var t := args[i + 1];
    CustomShape();
    PlainCustomText(t);
    CustomArgument(args, i, 0, 0);
    NoParens();
    assert Opens(0) + [CustomTok(t)] + Closes(0) == [CustomTok(t)];
  }

  lemma TokenizeCustomWord(args: seq<string>, i: nat)
    requires i + 1 < |args| && args[i] == "-custom" && PlainCommand(args[i + 1])
    ensures TokenizeSpec(args, i) == Prepend([CustomTok(args[i + 1])], TokenizeSpec(args, i + 2))
  {
    ScanCustomWord(args, i);
    EmitUnfold(args, i, [CustomTok(args[i + 1])], 2);
  }

  // ---- parentheses ----

  /** Leading copies of c, then something that does not start with c. */
  lemma {:induction false} LeadingOf(c: char, a: nat, rest: string)
    requires rest == [] || rest[0] != c
    ensures LeadingCount(Chars(c, a) + rest, c) == a && (Chars(c, a) + rest)[a..] == rest
  {
    if a > 0 {
      LeadingOf(c, a - 1, rest);
      assert (Chars(c, a) + rest)[1..] == Chars(c, a - 1) + rest;
    }
  }

  lemma CharsSnoc(c: char, n: nat)
    ensures Chars(c, n + 1) == Chars(c, n) + [c]
  {
  }

  /** Something that does not end with c, then trailing copies of c. */
  lemma {:induction false} TrailingOf(c: char, w: string, b: nat)
    requires w == [] || w[|w| - 1] != c
    ensures TrailingCount(w + Chars(c, b), c) == b && (w + Chars(c, b))[..|w|] == w
  {
    var s := w + Chars(c, b);
    if b > 0 {
      TrailingOf(c, w, b - 1);
      CharsSnoc(c, b - 1);
      Associate(w, Chars(c, b - 1), [c]);
      assert s[..|s| - 1] == w + Chars(c, b - 1);
    } else {
      assert s == w;
    }
  }

  /** An argument made of a '('s, a word w and b ')'s is taken apart into
      exactly those pieces. */
  lemma SplitWrapped(a: nat, w: string, b: nat)
    requires w == [] || (w[0] != '(' && w[|w| - 1] != ')')
    ensures SplitParens(Chars('(', a) + w + Chars(')', b)) == Pieces(a, w, b)
  {
    var arg := Chars('(', a) + w + Chars(')', b);
    Associate(Chars('(', a), w, Chars(')', b));
    if w == [] {
      assert w + Chars(')', b) == Chars(')', b);
      LeadingOf('(', a, Chars(')', b));
    } else {
      LeadingOf('(', a, w + Chars(')', b));
    }
    TrailingOf(')', w, b);
  }

  /** Parentheses, a word without capitals or blanks at its ends, and
      parentheses: the looked-up form is the argument itself. */
  lemma NormalizeWrapped(a: nat, w: string, b: nat)
    requires NoUpper(w) && (w != [] ==> !IsBlank(w[0]) && !IsBlank(w[|w| - 1]))
    ensures Normalize(Chars('(', a) + w + Chars(')', b)) == Chars('(', a) + w + Chars(')', b)
  {
    var arg := Chars('(', a) + w + Chars(')', b);
    if arg == [] {
      assert Normalize(arg) == Trim(Lower([])) == [];
    } else {
      assert NoUpper(arg) by {
        forall k | 0 <= k < |arg|
          ensures !IsUpper(arg[k])
        {
          if k >= a && k < a + |w| {
            assert arg[k] == w[k - a];
          }
        }
      }
      assert !IsBlank(arg[0]) by {
        if a == 0 && w != [] {
          assert arg[0] == w[0];
        }
      }
      assert !IsBlank(arg[|arg| - 1]) by {
        if b == 0 && w != [] {
          assert arg[|arg| - 1] == w[|w| - 1];
        }
      }
      NormalizeFixed(arg);
    }
  }

  /**
   * An argument of nothing but parentheses gives one '(' token per leading
   * '(' and one ')' token per trailing ')', and nothing else.
   */
  lemma ParensOnly(args: seq<string>, i: nat, a: nat, b: nat)
    requires i < |args| && args[i] == Chars('(', a) + Chars(')', b)
    ensures ScanArg(args, i) == Emit(Opens(a) + Closes(b), 1)
  {
    var w := args[i];
    ParensShape(a, b);
    ScanArgEmit(args, i, w, a, [], b, WordOk(None, b, i));
    assert Opens(a) + OptionalToken(None) + Closes(b) == Opens(a) + Closes(b);
  }

  lemma ParensShape(a: nat, b: nat)
    ensures var w := Chars('(', a) + Chars(')', b);
      Normalize(w) == w && !IsDivider(w) && SplitParens(w) == Pieces(a, [], b)
  {
    var w := Chars('(', a) + Chars(')', b);
    assert w == Chars('(', a) + [] + Chars(')', b);
    NormalizeWrapped(a, [], b);
    SplitWrapped(a, [], b);
    if |w| == 2 {
      assert w[0] == '(' || w[0] == ')';
    }
  }

  /**
   * A plain word of the table inside a '('s and b ')'s, all in one
   * argument: a '(' token for each leading '(', the word's token, and a ')'
   * token for each trailing ')'.
   */
  lemma WrappedWord(args: seq<string>, i: nat, a: nat, w: string, b: nat)
    requires i < |args| && w in {"-and", "-or", "-not", "-isdirty"}
    requires args[i] == Chars('(', a) + w + Chars(')', b)
    ensures ScanArg(args, i) == Emit(Opens(a) + [Token(LookupPredicate(w).value.kind, w, "")] + Closes(b), 1)
  {
    PlainWordShape(w);
    ScanTableWord(args, i, w, b);
    WrappedTableWord(args, i, a, w, b, Token(LookupPredicate(w).value.kind, w, ""));
  }

  lemma WrappedTableWord(args: seq<string>, i: nat, a: nat, w: string, b: nat, tok: Token)
    requires i < |args| && args[i] == Chars('(', a) + w + Chars(')', b)
    requires Normalize(w) == w && !IsDivider(w) && SplitParens(w) == Pieces(0, w, 0)
    requires ScanWord(args, i, w, b) == WordOk(Some(tok), b, i)
    ensures ScanArg(args, i) == Emit(Opens(a) + [tok] + Closes(b), 1)
  {
    NormalizeShape(w);
    SplitParensJoin(w);
    WrappedShape(a, w, b);
    assert Opens(a) + OptionalToken(Some(tok)) + Closes(b) == Opens(a) + [tok] + Closes(b);
    ScanArgEmit(args, i, args[i], a, w, b, WordOk(Some(tok), b, i));
  }

  lemma WrappedShape(a: nat, w: string, b: nat)
    requires w != [] && w != Divider && NoUpper(w) && !IsBlank(w[0]) && !IsBlank(w[|w| - 1])
    requires w[0] != '(' && w[|w| - 1] != ')'
    ensures var arg := Chars('(', a) + w + Chars(')', b);
      Normalize(arg) == arg && !IsDivider(arg) && SplitParens(arg) == Pieces(a, w, b)
  {
    var arg := Chars('(', a) + w + Chars(')', b);
    NormalizeWrapped(a, w, b);
    SplitWrapped(a, w, b);
    if a > 0 {
      assert arg[0] == '(';
    } else if b > 0 {
      assert arg[|arg| - 1] == ')';
    } else {
      assert arg == w;
    }
  }

  /** A -custom command the tokenizer hands over unchanged: not empty and
      not ending in ')', which it would take for a closing parenthesis. */
  predicate PlainCommand(text: string)
  {
    text != [] && text[|text| - 1] != ')'
  }

  lemma TokenizeParenWord(args: seq<string>, i: nat, a: nat, b: nat)
    requires i < |args| && a + b >= 1 && args[i] == Chars('(', a) + Chars(')', b)
    ensures TokenizeSpec(args, i) == Prepend(Opens(a) + Closes(b), TokenizeSpec(args, i + 1))
  {
    ParensOnly(args, i, a, b);
    EmitUnfold(args, i, Opens(a) + Closes(b), 1);
  }

  // ---- predicates written as arguments ----

  /** Every -custom command inside p is a PlainCommand. */
  predicate Writable(p: Pred)
  {
    match p
    case Id => true
    case IsDirty => true
    case Custom(text) => PlainCommand(text)
    case Not(q) => Writable(q)
    case And(l, r) => Writable(l) && Writable(r)
    case Or(l, r) => Writable(l) && Writable(r)
  }

  /** How many arguments Args writes for p. */
  function Width(p: Pred): (n: nat)
    ensures n >= 1
  {
    match p
    case Id => 1
    case IsDirty => 1
    case Custom(_) => 2
    case Not(q) => 1 + Width(q)
    case And(l, r) => 3 + Width(l) + Width(r)
    case Or(l, r) => 3 + Width(l) + Width(r)
  }

  /**
   * A predicate written as command-line arguments, as a user would type
   * it: every binary operator in parentheses of its own, the identity as
   * `()`, and a -custom command as the argument after `-custom`.
   */
  function Args(p: Pred): (args: seq<string>)
    ensures |args| == Width(p)
  {
    match p
    case Id => ["()"]
    case IsDirty => ["-isDirty"]
    case Custom(text) => ["-custom", text]
    case Not(q) => ["-not"] + Args(q)
    case And(l, r) => ["("] + Args(l) + ["-and"] + Args(r) + [")"]
    case Or(l, r) => ["("] + Args(l) + ["-or"] + Args(r) + [")"]
  }

  /** The arguments of p stand at index c of args, every -custom command
      among them a PlainCommand. */
  predicate ArgsAt(args: seq<string>, c: nat, p: Pred)
    decreases p, 1
  {
    c + Width(p) <= |args| && WordsAt(args, c, p)
  }

  /** The words of p, from index c on, given that they fit in args. */
  predicate WordsAt(args: seq<string>, c: nat, p: Pred)
    requires c + Width(p) <= |args|
    decreases p, 0
  {
    match p
    case Id => args[c] == "()"
    case IsDirty => args[c] == "-isDirty"
    case Custom(text) => args[c] == "-custom" && args[c + 1] == text && PlainCommand(text)
    case Not(q) => args[c] == "-not" && ArgsAt(args, c + 1, q)
    case And(l, r) =>
      && args[c] == "("
      && ArgsAt(args, c + 1, l)
      && args[c + 1 + Width(l)] == "-and"
      && ArgsAt(args, c + 2 + Width(l), r)
      && args[c + 2 + Width(l) + Width(r)] == ")"
    case Or(l, r) =>
      && args[c] == "("
      && ArgsAt(args, c + 1, l)
      && args[c + 1 + Width(l)] == "-or"
      && ArgsAt(args, c + 2 + Width(l), r)
      && args[c + 2 + Width(l) + Width(r)] == ")"
  }

  // where the arguments of a predicate stand

  lemma {:induction false} LayoutArgs(args: seq<string>, pre: seq<string>, p: Pred, post: seq<string>, c: nat)
    requires Writable(p) && args == pre + Args(p) + post && c == |pre|
    ensures ArgsAt(args, c, p)
    decreases p, 2
  {
    assert args[c] == Args(p)[0];
    match p
    case Id =>
    case IsDirty =>
    case Custom(_) =>
      assert args[c + 1] == Args(p)[1];
    case Not(q) =>
      assert args == (pre + ["-not"]) + Args(q) + post;
      LayoutArgs(args, pre + ["-not"], q, post, c + 1);
    case And(l, r) =>
      LayoutArgsBinary(args, pre, p, "-and", Args(l), Args(r), post, c);
    case Or(l, r) =>
      LayoutArgsBinary(args, pre, p, "-or", Args(l), Args(r), post, c);
  }

  lemma {:induction false} LayoutArgsBinary(args: seq<string>, pre: seq<string>, p: Pred, op: string,
                                            Al: seq<string>, Ar: seq<string>, post: seq<string>, c: nat)
    requires p.And? || p.Or?
    requires Writable(p.left) && Writable(p.right)
    requires op == (if p.And? then "-and" else "-or")
    requires Al == Args(p.left) && Ar == Args(p.right)
    requires args == pre + (["("] + Al + [op] + Ar + [")"]) + post && c == |pre|
    ensures ArgsAt(args, c, p)
    decreases p, 1
  {
    var c1 := c + 1 + |Al|;
    var c2 := c1 + 1 + |Ar|;
    LayoutLeftArgs(args, pre, p.left, op, Ar, post, c);
    LayoutRightArgs(args, pre, Al, op, p.right, post, c, c1);
    ArgsPositions(args, pre, Al, op, Ar, post, c, c1, c2);
    BinaryArgsAt(args, c, p, c1, c2);
  }

  lemma {:induction false} LayoutLeftArgs(args: seq<string>, pre: seq<string>, l: Pred, op: string,
                                          Ar: seq<string>, post: seq<string>, c: nat)
    requires Writable(l) && args == pre + (["("] + Args(l) + [op] + Ar + [")"]) + post && c == |pre|
    ensures ArgsAt(args, c + 1, l)
    decreases l, 3
  {
    ArgsLeftPart(args, pre, Args(l), op, Ar, post, c);
    LayoutArgs(args, pre + ["("], l, [op] + Ar + [")"] + post, c + 1);
  }

  lemma {:induction false} LayoutRightArgs(args: seq<string>, pre: seq<string>, Al: seq<string>, op: string,
                                           r: Pred, post: seq<string>, c: nat, c1: nat)
    requires Writable(r) && args == pre + (["("] + Al + [op] + Args(r) + [")"]) + post
    requires c == |pre| && c1 == c + 1 + |Al|
    ensures ArgsAt(args, c1 + 1, r)
    decreases r, 3
  {
    ArgsRightPart(args, pre, Al, op, Args(r), post, c, c1);
    LayoutArgs(args, pre + ["("] + Al + [op], r, [")"] + post, c1 + 1);
  }

  lemma ArgsLeftPart(args: seq<string>, pre: seq<string>, A: seq<string>, x: string, B: seq<string>, post: seq<string>, c: nat)
    requires args == pre + (["("] + A + [x] + B + [")"]) + post && c == |pre|
    ensures args == (pre + ["("]) + A + ([x] + B + [")"] + post) && c + 1 == |pre + ["("]|
  {
  }

  lemma ArgsRightPart(args: seq<string>, pre: seq<string>, A: seq<string>, x: string, B: seq<string>, post: seq<string>, c: nat, c1: nat)
    requires args == pre + (["("] + A + [x] + B + [")"]) + post && c == |pre| && c1 == c + 1 + |A|
    ensures args == (pre + ["("] + A + [x]) + B + ([")"] + post) && c1 + 1 == |pre + ["("] + A + [x]|
  {
  }

  lemma ArgsPositions(args: seq<string>, pre: seq<string>, A: seq<string>, x: string, B: seq<string>, post: seq<string>,
                      c: nat, c1: nat, c2: nat)
    requires args == pre + (["("] + A + [x] + B + [")"]) + post
    requires c == |pre| && c1 == c + 1 + |A| && c2 == c1 + 1 + |B|
    ensures c2 < |args| && args[c] == "(" && args[c1] == x && args[c2] == ")"
  {
  }

  lemma BinaryArgsAt(args: seq<string>, c: nat, p: Pred, c1: nat, c2: nat)
    requires p.And? || p.Or?
    requires c1 == c + 1 + Width(p.left) && c2 == c1 + 1 + Width(p.right) && c2 < |args|
    requires args[c] == "(" && args[c1] == (if p.And? then "-and" else "-or") && args[c2] == ")"
    requires ArgsAt(args, c + 1, p.left) && ArgsAt(args, c1 + 1, p.right)
    ensures ArgsAt(args, c, p)
  {
  }

  // ---- tokenizing the arguments of a predicate ----

  lemma ParenWords()
    ensures Chars('(', 1) + Chars(')', 0) == "(" && Chars('(', 0) + Chars(')', 1) == ")"
    ensures Chars('(', 1) + Chars(')', 1) == "()"
  {
  }

  lemma TokenizeOpenWord(args: seq<string>, i: nat)
    requires i < |args| && args[i] == "("
    ensures TokenizeSpec(args, i) == Prepend([OpenTok], TokenizeSpec(args, i + 1))
  {
    ParenWords();
    NoParens();
    TokenizeParenWord(args, i, 1, 0);
  }

  lemma TokenizeCloseWord(args: seq<string>, i: nat)
    requires i < |args| && args[i] == ")"
    ensures TokenizeSpec(args, i) == Prepend([CloseTok], TokenizeSpec(args, i + 1))
  {
    ParenWords();
    NoParens();
    TokenizeParenWord(args, i, 0, 1);
  }

  lemma TokenizeUnitWord(args: seq<string>, i: nat)
    requires i < |args| && args[i] == "()"
    ensures TokenizeSpec(args, i) == Prepend([OpenTok, CloseTok], TokenizeSpec(args, i + 1))
  {
    ParenWords();
    NoParens();
    TokenizeParenWord(args, i, 1, 1);
  }

  /**
   * The arguments of a predicate, wherever they stand, give exactly its
   * rendered tokens, and the tokenizer goes on at e, just after them.
   */
  lemma {:induction false} TokenizeAt(args: seq<string>, c: nat, p: Pred, e: nat)
    requires ArgsAt(args, c, p) && e == c + Width(p)
    ensures e <= |args|
    ensures TokenizeSpec(args, c) == Prepend(Render(p), TokenizeSpec(args, e))
    decreases p, 1
  {
    match p
    case Id =>
      TokenizeLeafAt(args, c, p, e);
    case IsDirty =>
      TokenizeLeafAt(args, c, p, e);
    case Custom(_) =>
      TokenizeLeafAt(args, c, p, e);
    case Not(q) =>
      NotWordAt(args, c, p);
      TokenizeAtNot(args, c, p, e);
    case And(l, r) =>
      var c1 := c + 1 + Width(l);
      var c2 := c1 + 1 + Width(r);
      BinaryArgsWords(args, c, p, c1, c2);
      TokenizeBinaryWords(args, c, c1, c2, e, p.And?);
      TokenizeAtBinary(args, c, p, c1, c2, e);
    case Or(l, r) =>
      var c1 := c + 1 + Width(l);
      var c2 := c1 + 1 + Width(r);
      BinaryArgsWords(args, c, p, c1, c2);
      TokenizeBinaryWords(args, c, c1, c2, e, p.And?);
      TokenizeAtBinary(args, c, p, c1, c2, e);
  }

  lemma TokenizeLeafAt(args: seq<string>, c: nat, p: Pred, e: nat)
    requires p.Id? || p.IsDirty? || p.Custom?
    requires ArgsAt(args, c, p) && e == c + Width(p)
    ensures e <= |args|
    ensures TokenizeSpec(args, c) == Prepend(Render(p), TokenizeSpec(args, e))
  {
    assert WordsAt(args, c, p);
    match p
    case Id =>
      TokenizeUnitWord(args, c);
    case IsDirty =>
      TokenizeIsDirtyWord(args, c);
    case Custom(_) =>
      TokenizeCustomWord(args, c);
  }

  /** The `-not` of `-not Q`, and where Q stands. */
  lemma NotWordAt(args: seq<string>, c: nat, p: Pred)
    requires p.Not? && ArgsAt(args, c, p)
    ensures TokenizeSpec(args, c) == Prepend([NotTok], TokenizeSpec(args, c + 1))
    ensures ArgsAt(args, c + 1, p.operand)
  {
    assert WordsAt(args, c, p);
    TokenizeNotWord(args, c);
  }

  lemma {:induction false} TokenizeAtNot(args: seq<string>, c: nat, p: Pred, e: nat)
    requires p.Not? && ArgsAt(args, c + 1, p.operand) && e == c + Width(p)
    requires TokenizeSpec(args, c) == Prepend([NotTok], TokenizeSpec(args, c + 1))
    ensures e <= |args|
    ensures TokenizeSpec(args, c) == Prepend(Render(p), TokenizeSpec(args, e))
    decreases p, 0
  {
    var q := p.operand;
    TokenizeAt(args, c + 1, q, e);
    PrependTwice([NotTok], Render(q), TokenizeSpec(args, e));
  }

  /** Where the `(`, the operator and the `)` of `( L op R )` stand, and
      where L and R stand. */
  lemma BinaryArgsWords(args: seq<string>, c: nat, p: Pred, c1: nat, c2: nat)
    requires p.And? || p.Or?
    requires ArgsAt(args, c, p)
    requires c1 == c + 1 + Width(p.left) && c2 == c1 + 1 + Width(p.right)
    ensures c2 < |args| && c2 + 1 == c + Width(p)
    ensures args[c] == "(" && args[c1] == (if p.And? then "-and" else "-or") && args[c2] == ")"
    ensures ArgsAt(args, c + 1, p.left) && ArgsAt(args, c1 + 1, p.right)
  {
    assert WordsAt(args, c, p);
  }

  /** The tokens of the `(`, the operator and the `)`. */
  lemma TokenizeBinaryWords(args: seq<string>, c: nat, c1: nat, c2: nat, e: nat, isAnd: bool)
    requires c < c1 < c2 < |args| && e == c2 + 1
    requires args[c] == "(" && args[c1] == (if isAnd then "-and" else "-or") && args[c2] == ")"
    ensures TokenizeSpec(args, c) == Prepend([OpenTok], TokenizeSpec(args, c + 1))
    ensures TokenizeSpec(args, c1) == Prepend([if isAnd then AndTok else OrTok], TokenizeSpec(args, c1 + 1))
    ensures TokenizeSpec(args, c2) == Prepend([CloseTok], TokenizeSpec(args, e))
  {
    TokenizeOpenWord(args, c);
    TokenizeCloseWord(args, c2);
    if isAnd {
      TokenizeAndWord(args, c1);
    } else {
      TokenizeOrWord(args, c1);
    }
  }

  lemma {:induction false} TokenizeAtBinary(args: seq<string>, c: nat, p: Pred, c1: nat, c2: nat, e: nat)
    requires p.And? || p.Or?
    requires c1 == c + 1 + Width(p.left) && c2 == c1 + 1 + Width(p.right) && e == c2 + 1 && e == c + Width(p)
    requires e <= |args|
    requires ArgsAt(args, c + 1, p.left) && ArgsAt(args, c1 + 1, p.right)
    requires TokenizeSpec(args, c) == Prepend([OpenTok], TokenizeSpec(args, c + 1))
    requires TokenizeSpec(args, c1) == Prepend([if p.And? then AndTok else OrTok], TokenizeSpec(args, c1 + 1))
    requires TokenizeSpec(args, c2) == Prepend([CloseTok], TokenizeSpec(args, e))
    ensures TokenizeSpec(args, c) == Prepend(Render(p), TokenizeSpec(args, e))
    decreases p, 0
  {
    TokenizeAt(args, c1 + 1, p.right, c2);
    TokenizeAt(args, c + 1, p.left, c1);
    PrependChain(TokenizeSpec(args, c), TokenizeSpec(args, c + 1), TokenizeSpec(args, c1),
                 TokenizeSpec(args, c1 + 1), TokenizeSpec(args, c2), TokenizeSpec(args, e),
                 Render(p.left), if p.And? then AndTok else OrTok, Render(p.right));
  }

  lemma PrependChain(r0: Tokenized, r1: Tokenized, r2: Tokenized, r3: Tokenized, r4: Tokenized, r5: Tokenized,
                     Rl: seq<Token>, op: Token, Rr: seq<Token>)
    requires r0 == Prepend([OpenTok], r1) && r1 == Prepend(Rl, r2) && r2 == Prepend([op], r3)
    requires r3 == Prepend(Rr, r4) && r4 == Prepend([CloseTok], r5)
    ensures r0 == Prepend([OpenTok] + Rl + [op] + Rr + [CloseTok], r5)
  {
    PrependTwice(Rr, [CloseTok], r5);
    PrependTwice([op], Rr + [CloseTok], r5);
    PrependTwice(Rl, [op] + (Rr + [CloseTok]), r5);
    PrependTwice([OpenTok], Rl + ([op] + (Rr + [CloseTok])), r5);
    assert [OpenTok] + (Rl + ([op] + (Rr + [CloseTok]))) == [OpenTok] + Rl + [op] + Rr + [CloseTok];
  }

  /**
   * A predicate written out as arguments and followed by `--` tokenizes to
   * its rendered tokens, and the tokenizer stops just past the `--`,
   * whatever comes after it.
   */
  lemma TokenizeWritten(p: Pred, rest: seq<string>)
    requires Writable(p)
    ensures TokenizeSpec(Args(p) + [Divider] + rest, 0) == Tokenized(Render(p), Width(p) + 1, None)
  {
    var args := Args(p) + [Divider] + rest;
    var w := Width(p);
    LayoutWritten(p, [Divider] + rest, args);
    TokenizeAt(args, 0, p, w);
    assert args[w] == Divider;
    DividerStops(args, w, Render(p));
  }

  lemma LayoutWritten(p: Pred, post: seq<string>, args: seq<string>)
    requires Writable(p) && args == Args(p) + post
    ensures ArgsAt(args, 0, p) && |args| == Width(p) + |post|
  {
    assert args == [] + Args(p) + post;
    LayoutArgs(args, [], p, post, 0);
  }

  /** Without a `--`, the tokenizer takes every argument. */
  lemma TokenizeWrittenAlone(p: Pred)
    requires Writable(p)
    ensures TokenizeSpec(Args(p), 0) == Tokenized(Render(p), Width(p), None)
  {
    var args := Args(p);
    LayoutWritten(p, [], args);
    TokenizeAt(args, 0, p, |args|);
    EndStops(args, Render(p));
  }

  lemma EndStops(args: seq<string>, tokens: seq<Token>)
    ensures Prepend(tokens, TokenizeSpec(args, |args|)) == Tokenized(tokens, |args|, None)
  {
    assert tokens + [] == tokens;
  }

  /** The tokenizer stops just past an argument that reads `--` once trimmed
      and lowered. */
  lemma DividerStops(args: seq<string>, i: nat, tokens: seq<Token>)
    requires i < |args| && Normalize(args[i]) == Divider
    ensures Prepend(tokens, TokenizeSpec(args, i)) == Tokenized(tokens, i + 1, None)
  {
    assert TokenizeSpec(args, i) == TokenizeFrom(args, i);
    assert tokens + [] == tokens;
  }
}
