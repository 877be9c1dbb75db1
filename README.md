# foreach-git-dir: the predicate language and the action words, in Dafny

`foreach-git-dir` walks a directory tree and, in every git repository it
finds, evaluates a `find`-style predicate given on the command line. It then
runs the actions named after a `--`. This project models the part of the
program that reads the command line:

- **Predicates** (`predicate/predicate.go`). A predicate is a tree of `Id`,
  `IsDirty`, `Custom(command)`, `And`, `Or` and `Not`. `Eval` runs it with the
  same short-circuit and error rules as the Go closures. The outcome of the
  `IsDirty` leaf (a `git status --porcelain` subprocess in the source) is a
  parameter. `Eval` also returns the leaves that ran, in order, so "the right
  operand is not evaluated" can be stated.
- **The predicate tokenizer** (`tokenizePredicates`).
  - `TokenizeSpec` states what the tokenizer returns, one argument at a time:
    trimmed and lower-cased words; `(`s and `)`s peeled off an argument;
    the word table; `-custom` taking the next raw argument as its command;
    the `--` that ends the predicates.
  - The method `Tokenize` is the source's loop. Its four inner loops are
    methods: `TakeOpenParens`, `TakeCloseParens` (which also strips the
    `)`s off a `-custom` command, the source's fourth loop) and
    `AddCloseParens`. `Tokenize` is proved to return exactly what
    `TokenizeSpec` says.
- **The parser** (`predicateParser`).
  - The functions `ParseExprSpec`, `ParseSubSpec`, `ParseBinarySpec`,
    `ParseSubAndSpec` and `ParseFlagSpec` say what each routine returns and
    where it leaves the cursor.
  - The class `Parser` holds the token list, which never changes, and the
    cursor `currentToken`. Its methods are the source's routines, each proved
    equal to its function.
- **The grammar.** `Render` writes a predicate as tokens and `Args` writes it
  as command-line arguments. The lemmas prove:
  - predicates round-trip through tokens and through the whole command line;
  - `-and` binds tighter than `-or`, `-and` groups to the left and `-or` to
    the right;
  - the malformed inputs the source rejects are rejected, and with which
    error.
- **`parsePredicates`**: the tokenizer, then the parser, then the check
  that every token was consumed.
- **The action tokenizer** (`parsing/actions.go`): `-status`,
  `-shortStatus` and `-stashes`, in any case, become git commands in
  argument order. `parseActions` checks the result.

## Model

| member | source | states |
|---|---|---|
| `Predicate.Eval` | predicate/predicate.go:9-47 | only leaves of the predicate run, at least one of them runs, and an error can only be the one the IsDirty leaf reported, after it ran |
| `Predicate.EvalMatchesHolds` | predicate/predicate.go:9-47 | when the IsDirty leaf does not fail, evaluation never fails and agrees with the plain boolean truth table `Holds` |
| `Predicate.IdRule` | predicate/predicate.go:9-11 | `Id` yields true with no error and runs only itself |
| `Predicate.CustomRule` | predicate/predicate.go:36-41 | `Custom(cmd)` yields true with no error whatever the command, and runs only itself |
| `Predicate.AndRule` | predicate/predicate.go:13-21 | a false or failing left operand is the result and the right operand does not run; otherwise the result is the right operand's boolean and error |
| `Predicate.OrRule` | predicate/predicate.go:23-34 | a failing left operand is the result; a true one gives true with no error without running the right; a false one gives the right operand's boolean with the error dropped |
| `Predicate.NotRule` | predicate/predicate.go:43-48 | the boolean is negated; the error and the leaves that ran are kept |
| `Predicate.AndAssociative` | predicate/predicate.go:13-21 | regrouping an `-and` chain changes neither the result nor which leaves run |
| `Predicate.OrAssociativeWithoutErrors` | predicate/predicate.go:23-34 | regrouping an `-or` chain changes nothing while IsDirty does not fail |
| `Predicate.OrRegroupingWithFailingLeaf` | predicate/predicate.go:29-32 | once IsDirty can fail, the two groupings of `a -or b -or c` give different answers, because `Or` drops the right operand's error |
| `Predicate.AndIdentity` | predicate/predicate.go:9-21 | `()` is neutral on either side of an `-and` |
| `Predicate.OperandOrderIrrelevant` | predicate/predicate.go:13-34 | without failures, swapping the operands of `-and` or `-or` keeps the answer |
| `Predicate.NotOverOrDiffers` | predicate/predicate.go:23-48 | `-not (x -or y)` and `(-not x) -or y` are different predicates |
| `Text.LowerAt` | parsing/predicates.go:113 | lowering works character by character and keeps the length: each capital letter becomes its small letter, every other character stays |
| `Text.TrimEnds` | parsing/predicates.go:113 | what trimming keeps neither starts nor ends with a space or a tab |
| `Text.TrimPadded` | parsing/predicates.go:113 | trimming removes exactly the spaces and tabs around a word that neither starts nor ends with one |
| `Text.NormalizePadded` | parsing/predicates.go:113 | the looked-up form of an argument ignores the spaces and tabs around it and the case of its letters |
| `Text.NormalizeShape` | parsing/predicates.go:113 | the looked-up form has no capital letter and no blank at either end |
| `Text.TrimIsInfix` | parsing/predicates.go:113 | trimming keeps one contiguous piece of the argument |
| `PredicateTokens.SplitParensJoin` | parsing/predicates.go:119-130 | an argument is exactly its leading `(`s, its word and its trailing `)`s, and the word neither starts with `(` nor ends with `)` |
| `PredicateTokens.LeadingSplit` | parsing/predicates.go:120-123 | the leading-`(` count covers every leading `(` and no more |
| `PredicateTokens.TrailingSplit` | parsing/predicates.go:127-130 | the trailing-`)` count covers every trailing `)` and no more |
| `PredicateTokens.ScanWord` | parsing/predicates.go:132-168 | a word consumes its own argument, or the next one too for `-custom`; an empty word gives no token and keeps its `)`s; errors point at the argument concerned |
| `PredicateTokens.ScanArg` | parsing/predicates.go:113-175 | one turn consumes one or two arguments, or stops with an error at an index within the arguments |
| `PredicateTokens.TokenizeSpec` | parsing/predicates.go:106-178 | the index ends between the start and the number of arguments, and an error comes with no tokens |
| `PredicateTokens.TakeOpenParens` | parsing/predicates.go:119-123 | the loop emits one `(` token per leading `(` and leaves the rest of the argument |
| `PredicateTokens.TakeCloseParens` | parsing/predicates.go:125-130 | the loop strips exactly the trailing `)`s and counts them |
| `PredicateTokens.AddCloseParens` | parsing/predicates.go:170-173 | the loop appends one `)` token per counted `)` |
| `PredicateTokens.TokenizeWord` | parsing/predicates.go:132-168 | the table lookup and the `-custom` handling give what `ScanWord` says, error or token |
| `PredicateTokens.TokenizeArgument` | parsing/predicates.go:113-175 | one turn of the loop: a `--` ends the tokenizer just past it, an error ends it with no tokens, otherwise the new tokens are appended and the rest follows as `TokenizeSpec` says |
| `PredicateTokens.Tokenize` | parsing/predicates.go:106-178 | the loop returns exactly `TokenizeSpec` from the start index: tokens, index and error |
| `PredicateParser.StoppingPoints` | parsing/predicates.go:186-192 | having consumed every token is a stopping point, and `parseExpression` returns the identity without consuming anything exactly at a stopping point |
| `PredicateParser.ParseFlagSpec` | parsing/predicates.go:199-211 | a known flag is consumed (cursor + 1) and an unknown one leaves the cursor and fails |
| `PredicateParser.ParseSubSpec` | parsing/predicates.go:261-291 | the cursor never moves back nor past the end, and a success consumes at least one token |
| `PredicateParser.ParseExprSpec` | parsing/predicates.go:245-257 | the cursor stays within the tokens, and on success it is at the end or on a `)` |
| `PredicateParser.ParseBinarySpec` | parsing/predicates.go:224-243 | the cursor stays within the tokens, and on success it is at a stopping point |
| `PredicateParser.ParseSubAndSpec` | parsing/predicates.go:213-221 | the cursor stays within the tokens, and on success it is at a stopping point |
| `PredicateParser.Parser.constructor` | parsing/predicates.go:180-184 | a parser starts at the first token of the list it is given |
| `PredicateParser.Parser.ParseFlag` | parsing/predicates.go:199-211 | returns the predicate, cursor and error `ParseFlagSpec` gives; changes only the cursor |
| `PredicateParser.Parser.ParseSubExpressionAnd` | parsing/predicates.go:213-221 | returns what `ParseSubAndSpec` gives, cursor included |
| `PredicateParser.Parser.ParseBinaryExpression` | parsing/predicates.go:224-243 | returns what `ParseBinarySpec` gives, cursor included |
| `PredicateParser.Parser.ParseExpression` | parsing/predicates.go:245-257 | returns what `ParseExprSpec` gives, cursor included |
| `PredicateParser.Parser.ParseSubExpression` | parsing/predicates.go:261-291 | returns what `ParseSubSpec` gives, cursor included |
| `PredicateGrammar.Render` | parsing/predicates.go:261-291 | a predicate written as the tokens the parser reads, with `Size(p)` tokens |
| `PredicateGrammar.ParseRender` | parsing/predicates.go:245-291 | every predicate, rendered as tokens, parses back to itself and consumes every token |
| `PredicateGrammar.ParseSubAt` | parsing/predicates.go:261-291 | a rendered predicate, wherever it stands, is one sub-expression that parses to itself |
| `PredicateGrammar.ParseExprAt` | parsing/predicates.go:245-257 | a rendered predicate followed by the end or a `)` is a whole expression |
| `PredicateGrammar.OperandAt` | parsing/predicates.go:261-291 | a rendered operand begins with a flag, `-not` or `(`, and parses to itself |
| `PredicateGrammar.AndOfTwo` | parsing/predicates.go:213-235 | `a -and b` is `And(a, b)` and consumes everything |
| `PredicateGrammar.OrOfTwo` | parsing/predicates.go:236-239 | `a -or b` is `Or(a, b)` |
| `PredicateGrammar.OrThenAnd` | parsing/predicates.go:213-243 | `a -or b -and c` is `Or(a, And(b, c))` |
| `PredicateGrammar.AndThenOr` | parsing/predicates.go:213-243 | `a -and b -or c` is `Or(And(a, b), c)` |
| `PredicateGrammar.AndThenAnd` | parsing/predicates.go:213-235 | `a -and b -and c` is `And(And(a, b), c)` |
| `PredicateGrammar.OrThenOr` | parsing/predicates.go:236-257 | `a -or b -or c` is `Or(a, Or(b, c))` |
| `PredicateGrammar.NotThenAnd` | parsing/predicates.go:269-272 | `-not` takes one sub-expression: `-not a -and b` is `And(Not(a), b)` |
| `PredicateGrammar.UnclosedParen` | parsing/predicates.go:280-286 | a `(` that is never closed fails with the missing-close-paren error |
| `PredicateGrammar.TrailingAnd` | parsing/predicates.go:262-263 | an `-and` with nothing after it fails at the end of input |
| `PredicateGrammar.TrailingNot` | parsing/predicates.go:262-272 | a `-not` with nothing after it fails at the end of input: alone it gives `Not(Id)`; as the right operand of `-and` after any operand `a`, the parser returns `a`; after `-or`, it returns `Or(a, Not(Id))`, all with every token read |
| `PredicateGrammar.TrailingOr` | parsing/predicates.go:236-248 | an `-or` with nothing after it is accepted, with `()` as its right operand |
| `PredicateGrammar.OperatorAfterAnd` | parsing/predicates.go:290 | after `-and`, an operator or `)` is rejected as an unexpected token of its own kind |
| `PredicateGrammar.LeadingOperator` | parsing/predicates.go:290 | an expression cannot begin with `-and` or `-or` |
| `PredicateGrammar.AdjacentOperands` | parsing/predicates.go:240-241 | two operands with no operator between them fail, naming the second operand's first token |
| `PredicateGrammar.UnknownFlagRejected` | parsing/predicates.go:199-210 | a flag token other than `-custom` and `-isdirty` is an unknown flag |
| `PredicateArgs.FindSome` | parsing/predicates.go:134 | the word lookup succeeds exactly when some row of the table is keyed by the word |
| `PredicateArgs.TableWords` | parsing/predicates.go:60-88 | the table knows exactly `-and`, `-or`, `-not`, `-isdirty` and `-custom` |
| `PredicateArgs.LookupWords` | parsing/predicates.go:60-88 | each word maps to its name and token kind |
| `PredicateArgs.LowerNames` | parsing/predicates.go:156-162 | the token's flag, the lowered table name, is the word it was found by |
| `PredicateArgs.SameScan` | parsing/predicates.go:113 | two arguments with the same trimmed, lowered form are tokenized the same way |
| `PredicateArgs.TokenizeIsDirtyWord` | parsing/predicates.go:134-164 | `-isDirty`, written as the table names it, gives the `-isdirty` flag token |
| `PredicateArgs.UnknownWordRejected` | parsing/predicates.go:165-166 | a word outside the table, inside any parentheses, fails at its own argument with no tokens |
| `PredicateArgs.TokenizeEnds` | parsing/predicates.go:112-117 | on success the tokenizer has read every argument, or it stopped just past an argument that reads `--` |
| `PredicateArgs.NoDividerConsumesAll` | parsing/predicates.go:112-177 | with no `--` among the arguments, a successful tokenizer returns the number of arguments |
| `PredicateArgs.DividerStops` | parsing/predicates.go:113-117 | an argument that reads `--` stops the tokenizer just past it, keeping the tokens collected before |
| `PredicateArgs.CustomArgument` | parsing/predicates.go:135-158 | `-custom` glued to a `)` fails; `-custom` as the last argument fails; an all-`)` command fails; otherwise the next argument, minus its trailing `)`s, is the command and those `)`s become tokens |
| `PredicateArgs.CustomTextSplit` | parsing/predicates.go:146-152 | the command is the raw argument minus its trailing `)`s, and it is empty exactly when the argument is all `)`s |
| `PredicateArgs.TokenizeCustomWord` | parsing/predicates.go:141-158 | `-custom` followed by a command with no trailing `)` gives one token carrying the command as given, case kept |
| `PredicateArgs.ParensOnly` | parsing/predicates.go:119-132 | an argument of only parentheses gives only parenthesis tokens, `(`s first |
| `PredicateArgs.WrappedWord` | parsing/predicates.go:119-173 | a word with `(`s and `)`s glued to it gives the `(` tokens, the word's token and the `)` tokens, in that order |
| `PredicateArgs.SplitWrapped` | parsing/predicates.go:119-130 | `(`s, a word and `)`s glued together are taken apart into exactly those pieces |
| `PredicateArgs.TokenizeAt` | parsing/predicates.go:106-178 | the arguments of a predicate, wherever they stand, give exactly its rendered tokens, and the tokenizer goes on just after them |
| `PredicateArgs.TokenizeWritten` | parsing/predicates.go:106-178 | a predicate written as arguments and followed by `--` tokenizes to its rendered tokens and stops just past the `--`, whatever follows |
| `PredicateArgs.TokenizeWrittenAlone` | parsing/predicates.go:112-177 | without a `--`, the tokenizer takes every argument |
| `PredicateParsing.ParsePredicatesSpec` | parsing/predicates.go:293-316 | the returned index is the tokenizer's, and the not-all-consumed error reports fewer consumed tokens than there are |
| `PredicateParsing.ParsePredicates` | parsing/predicates.go:293-316 | the tokenizer, a fresh parser and the consumed-all check return exactly `ParsePredicatesSpec` |
| `PredicateParsing.NoPredicates` | parsing/predicates.go:299-315 | no arguments left gives `Id` with no error at the same index |
| `PredicateParsing.DividerFirst` | parsing/predicates.go:114-117 | an immediate `--` gives `Id` with no error, just past it |
| `PredicateParsing.ParseWritten` | parsing/predicates.go:293-316 | the command-line round trip: a predicate written as arguments and followed by `--` is parsed back to itself, with the actions starting just past the `--` |
| `PredicateParsing.ParseWrittenAlone` | parsing/predicates.go:293-316 | the same round trip with no `--`: every argument is taken |
| `PredicateParsing.StrayCloseParen` | parsing/predicates.go:309-310 | a stray `)` after a whole predicate is reported as not consuming every token, with the counts |
| `PredicateParsing.UnknownWordFails` | parsing/predicates.go:295-297 | an unknown word is a tokenizing error at its argument, with `Id` as the predicate |
| `PredicateParsing.ParsedEnds` | parsing/predicates.go:293-316 | on success the actions start at the end of the arguments or just past a `--` |
| `Actions.FindActionSome` | parsing/actions.go:48-51 | the lookup finds a word exactly when some row of the table is keyed by it, and then gives that row's entry |
| `Actions.ActionWords` | parsing/actions.go:24-39 | exactly `-status`, `-shortstatus` and `-stashes` name actions, giving `git status`, `git status -sb` and `git stash list` |
| `Actions.ActionForWords` | parsing/actions.go:47-49 | an argument names an action exactly when its trimmed, lower-cased form is one of the three words, and then it gives that word's command |
| `Actions.ActionIgnoresCaseAndBlanks` | parsing/actions.go:47 | the spaces and tabs around a word do not change the action it names |
| `Actions.ShortStatusAnyCase` | parsing/actions.go:30-33 | `-ShortStatus`, spelt as the table names it, is accepted |
| `Actions.TokenizeActionsSpec` | parsing/actions.go:41-57 | one command per argument read; on success the index is the number of arguments; on an error the index is that of an argument still unread, and the error carries that argument as given |
| `Actions.TokenizeActionsMeaning` | parsing/actions.go:46-53 | each command is the one its argument names, in argument order; tokenizing fails exactly when some argument names no action, and then at the first such argument |
| `Actions.NoActions` | parsing/actions.go:46-56 | no arguments left gives no commands and no error |
| `Actions.TokenizeActions` | parsing/actions.go:41-57 | the loop returns exactly `TokenizeActionsSpec`, including the commands collected before an error |
| `Actions.ParseActionsSpec` | parsing/actions.go:59-70 | the commands are the tokenizer's, and the only error is the tokenizer's: the all-parsed check never fires |
| `Actions.ParseActions` | parsing/actions.go:59-70 | returns exactly `ParseActionsSpec` |
| `Actions.StatusThenStashes` | parsing/actions.go:41-70 | `-status -stashes`, in any case, gives `git status` then `git stash list` |

## Left out

- The rest of the program is not part of this model: the worker pool,
  channels and job stack (main.go, jobStack.go), directory walking and
  process plumbing (filesystem.go, git.go, action/action.go), and the
  command-line front end (parsing/parsing.go). These are concurrency, I/O
  and foreign calls.
- The `IsDirty` leaf runs `git status --porcelain`. Its outcome is a
  parameter of `Eval`, which may also carry an error. The source's
  `IsDirty` ignores the subprocess error and never fails.
- `Custom` never runs its command: the source's `Custom` returns true (a
  TODO), and so does the model.
- Error messages and their `fmt`/`%w` wrapping are tags in datatypes. The
  argument an error names is kept in the tag.
- `predProvider` is the datatype's constructors. `ToString` and `String`
  are not modelled.
- Text.Lower: `strings.ToLower` is modelled on ASCII letters only. Other
  letters are left as they are, so non-ASCII case folding is not captured.
  Strings are sequences of characters, not Go's bytes.
- The `-custom` command is read at parsing/predicates.go:143 without a
  bounds check. When `-custom` is the last argument, the Go program
  panics. The model returns the error `MissingCustomArgument` instead, at
  the index one past the end.
- The `case pCloseParen` branch of `parseBinaryExpression`
  (parsing/predicates.go:230-231) cannot be reached, because
  `stoppingPoint` has already returned on a `)`. `ParseBinarySpec` leaves it
  out.
- Without a `--` the tokenizer takes every argument and reports no error.
- On a parse error `parsePredicates` returns the predicate the parser had
  built along with the error.
- `PredicateGrammar.AndOfTwo`, `OrOfTwo`, `OrThenAnd`, `AndThenOr`,
  `AndThenAnd`, `OrThenOr` and `NotThenAnd` state precedence over any token
  list in which the operands parse where they stand. `OperandAt` supplies
  that for rendered operands. The lemmas are not stated over command-line
  arguments.
- PredicateArgs.TokenizeWritten: the round trip is stated for predicates
  whose `-custom` commands are not empty and do not end in `)`. The
  tokenizer would split such a `)` off as a close-paren token, so no
  argument can carry such a command.
