/**
 * The action tokenizer of parsing/actions.go: every argument after the
 * predicates must name one of the default actions, which become the git
 * commands to run, in order.  TokenizeActionsSpec states the result of
 * tokenizeActions from an index on; the method TokenizeActions is its loop,
 * and ParseActions the check parseActions makes on the result.
 */
module Actions {
  import opened Wrappers
  import opened Text

  /** actionInfo: the name as the user would write it, and the command. */
  datatype ActionInfo = ActionInfo(name: string, action: string)

  /** One entry of defaultActionInfo, keyed by the lower-case word. */
  datatype ActionRow = ActionRow(word: string, info: ActionInfo)

  const ActionTable := [
    ActionRow("-status", ActionInfo("-status", "git status")),
    ActionRow("-shortstatus", ActionInfo("-shortStatus", "git status -sb")),
    ActionRow("-stashes", ActionInfo("-stashes", "git stash list"))
  ]

  /** The lookup actionOptions[word]; a miss is None. */
  function FindAction(rows: seq<ActionRow>, word: string): (r: Option<ActionInfo>)
  {
    if rows == [] then None
    else if rows[0].word == word then Some(rows[0].info)
    else FindAction(rows[1..], word)
  }

  /** A lookup finds a word exactly when some row is keyed by it, and then
      gives that row's entry. */
  lemma {:induction false} FindActionSome(rows: seq<ActionRow>, w: string)
    ensures FindAction(rows, w).Some? <==> exists k :: 0 <= k < |rows| && rows[k].word == w
    ensures FindAction(rows, w).Some? ==> exists k :: 0 <= k < |rows| && rows[k] == ActionRow(w, FindAction(rows, w).value)
  {
    if rows != [] && rows[0].word != w {
      FindActionSome(rows[1..], w);
      if FindAction(rows, w).Some? {
        var k :| 0 <= k < |rows[1..]| && rows[1..][k] == ActionRow(w, FindAction(rows, w).value);
        assert rows[k + 1] == rows[1..][k];
      } else {
        forall k | 0 < k < |rows|
          ensures rows[k].word != w
        {
          assert rows[k] == rows[1..][k - 1];
        }
      }
    } else if rows != [] {
      assert rows[0] == ActionRow(w, FindAction(rows, w).value);
    }
  }

  /** The command an argument stands for, once trimmed and lowered. */
  function ActionFor(arg: string): Option<string>
  {
    var found := FindAction(ActionTable, Normalize(arg));
    if found.Some? then Some(found.value.action) else None
  }

  /** The three words, and nothing else, name an action, and each names
      its own command. */
  lemma ActionWords(w: string)
    ensures FindAction(ActionTable, w).Some? <==> w == "-status" || w == "-shortstatus" || w == "-stashes"
    ensures w == "-status" ==> FindAction(ActionTable, w).value.action == "git status"
    ensures w == "-shortstatus" ==> FindAction(ActionTable, w).value.action == "git status -sb"
    ensures w == "-stashes" ==> FindAction(ActionTable, w).value.action == "git stash list"
  {
    FindActionSome(ActionTable, w);
    if FindAction(ActionTable, w).Some? {
      var k :| 0 <= k < 3 && ActionTable[k] == ActionRow(w, FindAction(ActionTable, w).value);
      assert k == 0 || k == 1 || k == 2;
    } else {
      assert ActionTable[0].word == "-status" && ActionTable[1].word == "-shortstatus";
      assert ActionTable[2].word == "-stashes";
    }
  }

  /** An argument names an action exactly when its trimmed, lower-cased
      form is one of the three words, and then it names that word's
      command. */
  lemma ActionForWords(arg: string)
    ensures ActionFor(arg).Some? <==> Normalize(arg) in {"-status", "-shortstatus", "-stashes"}
    ensures Normalize(arg) == "-status" ==> ActionFor(arg) == Some("git status")
    ensures Normalize(arg) == "-shortstatus" ==> ActionFor(arg) == Some("git status -sb")
    ensures Normalize(arg) == "-stashes" ==> ActionFor(arg) == Some("git stash list")
  {
    ActionWords(Normalize(arg));
  }

  /** Matching ignores case and the spaces and tabs around a word. */
  lemma ActionIgnoresCaseAndBlanks(b1: string, w: string, b2: string)
    requires AllBlank(b1) && AllBlank(b2)
    requires w != [] ==> !IsBlank(w[0]) && !IsBlank(w[|w| - 1])
    ensures ActionFor(b1 + w + b2) == ActionFor(w)
  {
    NormalizePadded(b1, w, b2);
    NormalizeUnpadded(w);
  }

  /** `-ShortStatus`, as the table names it, is accepted. */
  lemma ShortStatusAnyCase()
    ensures ActionFor("-ShortStatus") == Some("git status -sb")
  {
    NormalizeShortStatus();
    ActionWords("-shortstatus");
  }

  lemma NormalizeShortStatus()
    ensures Normalize("-ShortStatus") == "-shortstatus"
  {
    var w := "-ShortStatus";
    assert w[0] == '-' && w[|w| - 1] == 's';
    NormalizeUnpadded(w);
    LowerShortStatus();
  }

  lemma LowerShortStatus()
    ensures Lower("-ShortStatus") == "-shortstatus"
  {
    LowerOf("-ShortStatus", "-shortstatus");
  }

  /** The error names the argument as it was given. */
  datatype ActionsError = UnknownAction(arg: string)

  /** tokenizeActions' three results: the commands collected (also on an
      error, up to the offending argument), the index, and the error. */
  datatype TokenizedActions = TokenizedActions(actions: seq<string>, argIndex: nat, err: Option<ActionsError>)

  /**
   * tokenizeActions from index i on.  On success every argument has been
   * read and gave one command; on an error the index is that of the first
   * argument that names no action, with one command per argument before it.
   */
  function TokenizeActionsSpec(args: seq<string>, i: nat): (r: TokenizedActions)
    requires i <= |args|
    ensures i <= r.argIndex <= |args| && |r.actions| == r.argIndex - i
    ensures r.err.None? ==> r.argIndex == |args|
    ensures r.err.Some? ==> r.argIndex < |args| && r.err.value == UnknownAction(args[r.argIndex])
    decreases |args| - i
  {
    if i == |args| then TokenizedActions([], i, None)
    else
      match ActionFor(args[i])
      case None => TokenizedActions([], i, Some(UnknownAction(args[i])))
      case Some(action) => Prepend([action], TokenizeActionsSpec(args, i + 1))
  }

  /** Commands already collected, put in front of the outcome of the rest. */
  function Prepend(pre: seq<string>, r: TokenizedActions): (p: TokenizedActions)
    ensures p.argIndex == r.argIndex && p.err == r.err && |p.actions| == |pre| + |r.actions|
  {
    TokenizedActions(pre + r.actions, r.argIndex, r.err)
  }

  /** Every argument that named an action gave its command, in order; the
      tokenizer fails exactly when some argument names no action, and then
      at the first such argument. */
  lemma {:induction false} TokenizeActionsMeaning(args: seq<string>, i: nat)
    requires i <= |args|
    ensures var r := TokenizeActionsSpec(args, i);
      && (forall k :: 0 <= k < |r.actions| ==> ActionFor(args[i + k]) == Some(r.actions[k]))
      && (r.err.Some? ==> ActionFor(args[r.argIndex]).None?)
      && (r.err.None? <==> forall k :: i <= k < |args| ==> ActionFor(args[k]).Some?)
    decreases |args| - i
  {
    if i < |args| && ActionFor(args[i]).Some? {
      TokenizeActionsMeaning(args, i + 1);
      var r := TokenizeActionsSpec(args, i);
      var rest := TokenizeActionsSpec(args, i + 1);
      assert r.actions == [ActionFor(args[i]).value] + rest.actions;
      forall k | 0 < k < |r.actions|
        ensures ActionFor(args[i + k]) == Some(r.actions[k])
      {
        assert r.actions[k] == rest.actions[k - 1];
        assert args[i + k] == args[(i + 1) + (k - 1)];
      }
    }
  }

  lemma PrependTwice(a: seq<string>, b: seq<string>, r: TokenizedActions)
    ensures Prepend(a, Prepend(b, r)) == Prepend(a + b, r)
  {
    assert a + (b + r.actions) == a + b + r.actions;
  }

  /** No arguments left: no commands, no error. */
  lemma NoActions(args: seq<string>)
    ensures TokenizeActionsSpec(args, |args|) == TokenizedActions([], |args|, None)
  {
  }

  /** tokenizeActions (parsing/actions.go:41-57). */
  method TokenizeActions(args: seq<string>, start: nat) returns (actions: seq<string>, argIndex: nat, err: Option<ActionsError>)
    requires start <= |args|
    ensures TokenizedActions(actions, argIndex, err) == TokenizeActionsSpec(args, start)
  {
    actions, argIndex, err := [], start, None;
    while argIndex != |args|
      invariant start <= argIndex <= |args|
      invariant TokenizeActionsSpec(args, start) == Prepend(actions, TokenizeActionsSpec(args, argIndex))
      decreases |args| - argIndex
    {
      var thisArg := Normalize(args[argIndex]);
      var entry := FindAction(ActionTable, thisArg);
      ActionStep(args, argIndex, entry);
      if entry.Some? {
        PrependTwice(actions, [entry.value.action], TokenizeActionsSpec(args, argIndex + 1));
        actions := actions + [entry.value.action];
      } else {
        assert actions + [] == actions;
        return actions, argIndex, Some(UnknownAction(args[argIndex]));
      }
      argIndex := argIndex + 1;
    }
    assert actions + [] == actions;
  }

  /** One turn of the tokenizer loop, from the table entry it found. */
  lemma ActionStep(args: seq<string>, i: nat, entry: Option<ActionInfo>)
    requires i < |args| && entry == FindAction(ActionTable, Normalize(args[i]))
    ensures entry.Some? ==> TokenizeActionsSpec(args, i) == Prepend([entry.value.action], TokenizeActionsSpec(args, i + 1))
    ensures entry.None? ==> TokenizeActionsSpec(args, i) == TokenizedActions([], i, Some(UnknownAction(args[i])))
  {
  }

  /** The two ways parseActions fails. */
  datatype ParseActionsError =
    | TokenizingActions(cause: ActionsError)
    | NotAllParsed(parsed: int, total: int)   // "Failed to parse all the actions (%d/%d)"

  /** parseActions: the commands, and the error.  The check that every
      argument was read never fails after the tokenizer succeeded. */
  function ParseActionsSpec(args: seq<string>, start: nat): (r: (seq<string>, Option<ParseActionsError>))
    requires start <= |args|
    ensures r.1.Some? ==> r.1.value.TokenizingActions?
    ensures r.0 == TokenizeActionsSpec(args, start).actions
  {
    var t := TokenizeActionsSpec(args, start);
    if t.err.Some? then (t.actions, Some(TokenizingActions(t.err.value)))
    else if |args| != t.argIndex then (t.actions, Some(NotAllParsed(t.argIndex, |args|)))
    else (t.actions, None)
  }

  /** parseActions (parsing/actions.go:59-70). */
  method ParseActions(args: seq<string>, start: nat) returns (actions: seq<string>, err: Option<ParseActionsError>)
    requires start <= |args|
    ensures (actions, err) == ParseActionsSpec(args, start)
  {
    var argIndex, terr;
    actions, argIndex, terr := TokenizeActions(args, start);
    if terr.Some? {
      return actions, Some(TokenizingActions(terr.value));
    }
    if |args| != argIndex {
      return actions, Some(NotAllParsed(argIndex, |args|));
    }
    return actions, None;
  }

  /** The actions a user would type, each in any case, give their commands
      in order. */
  lemma StatusThenStashes(args: seq<string>)
    requires |args| == 2 && Normalize(args[0]) == "-status" && Normalize(args[1]) == "-stashes"
    ensures ParseActionsSpec(args, 0) == (["git status", "git stash list"], None)
  {
    ActionWords("-status");
    ActionWords("-stashes");
    assert ActionFor(args[0]) == Some("git status") && ActionFor(args[1]) == Some("git stash list");
    assert TokenizeActionsSpec(args, 1) == TokenizedActions(["git stash list"], 2, None);
    assert TokenizeActionsSpec(args, 0) == TokenizedActions(["git status", "git stash list"], 2, None);
  }
}
