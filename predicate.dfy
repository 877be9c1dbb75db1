/**
 * The predicates of predicate/predicate.go.  The source builds Go closures
 * `func(root string) (bool, error)`; here a predicate is a tree of the same
 * five constructors and `Eval` runs it against one repository.  The only
 * leaf that touches the repository, IsDirty, is a subprocess in the source:
 * its outcome at the repository being evaluated is a parameter (`dirty`).
 */
module Predicate {
  import opened Wrappers

  datatype Pred =
    | Id                         // always true
    | IsDirty                    // `git status --porcelain` printed something
    | Custom(command: string)    // a user command; not yet run by the source
    | And(left: Pred, right: Pred)
    | Or(left: Pred, right: Pred)
    | Not(operand: Pred)

  /** What one predicate call returns: a boolean and an error (None is nil). */
  datatype Outcome = Outcome(value: bool, err: Option<string>)

  /** The outcome of running a predicate, with the leaves that ran, in order. */
  datatype Run = Run(value: bool, err: Option<string>, calls: seq<Pred>)

  predicate IsLeaf(p: Pred) { p.Id? || p.IsDirty? || p.Custom? }

  function Leaves(p: Pred): (s: set<Pred>)
    ensures forall q :: q in s ==> IsLeaf(q)
  {
    match p
    case Id | IsDirty | Custom(_) => {p}
    case And(a, b) => Leaves(a) + Leaves(b)
    case Or(a, b) => Leaves(a) + Leaves(b)
    case Not(a) => Leaves(a)
  }

  /**
   * Running a predicate (predicate/predicate.go:9-47).  Only leaves of p
   * ever run, at least one of them does, and an error can only be the one
   * the IsDirty leaf reported, after it ran.
   */
  function Eval(p: Pred, dirty: Outcome): (r: Run)
    ensures r.calls != [] && forall q :: q in r.calls ==> q in Leaves(p)
    ensures r.err.Some? ==> r.err == dirty.err && IsDirty in r.calls
  {
    match p
    case Id => Run(true, None, [Id])
    case IsDirty => Run(dirty.value, dirty.err, [IsDirty])
    case Custom(_) => Run(true, None, [p])
    case And(a, b) =>
      var ra := Eval(a, dirty);
      if ra.value && ra.err.None? then
        var rb := Eval(b, dirty);
        Run(rb.value, rb.err, ra.calls + rb.calls)
      else ra
    case Or(a, b) =>
      var ra := Eval(a, dirty);
      if ra.err.Some? then ra
      else if ra.value then ra
      else
        var rb := Eval(b, dirty);
        Run(rb.value, None, ra.calls + rb.calls)
    case Not(a) =>
      var ra := Eval(a, dirty);
      Run(!ra.value, ra.err, ra.calls)
  }

  /** Plain boolean reading of a predicate: the reference truth table. */
  function Holds(p: Pred, dirty: bool): bool
  {
    match p
    case Id => true
    case IsDirty => dirty
    case Custom(_) => true
    case And(a, b) => Holds(a, dirty) && Holds(b, dirty)
    case Or(a, b) => Holds(a, dirty) || Holds(b, dirty)
    case Not(a) => !Holds(a, dirty)
  }

  /** When the repository inspection does not fail (the source's IsDirty
      never reports an error), running a predicate never fails and yields
      its truth-table value. */
  lemma {:induction false} EvalMatchesHolds(p: Pred, dirty: Outcome)
    requires dirty.err.None?
    ensures Eval(p, dirty).err.None?
    ensures Eval(p, dirty).value == Holds(p, dirty.value)
  {
    match p
    case Id =>
    case IsDirty =>
    case Custom(_) =>
    case And(a, b) => EvalMatchesHolds(a, dirty); EvalMatchesHolds(b, dirty);
    case Or(a, b) => EvalMatchesHolds(a, dirty); EvalMatchesHolds(b, dirty);
    case Not(a) => EvalMatchesHolds(a, dirty);
  }

  /** Id is true without error. */
  lemma IdRule(dirty: Outcome)
    ensures Eval(Id, dirty) == Run(true, None, [Id])
  {
  }

  /** Custom is true without error, whatever the command. */
  lemma CustomRule(command: string, dirty: Outcome)
    ensures Eval(Custom(command), dirty) == Run(true, None, [Custom(command)])
  {
  }

  /** And: a false or failing left operand is the answer and the right
      operand does not run; otherwise the right operand's outcome is the
      answer. */
  lemma AndRule(a: Pred, b: Pred, dirty: Outcome)
    ensures var ra, r := Eval(a, dirty), Eval(And(a, b), dirty);
      (!ra.value || ra.err.Some?) ==> r == ra
    ensures var ra, rb, r := Eval(a, dirty), Eval(b, dirty), Eval(And(a, b), dirty);
      (ra.value && ra.err.None?) ==> r.value == rb.value && r.err == rb.err && r.calls == ra.calls + rb.calls
  {
  }

  /** Or: a failing left operand is the answer (its boolean and its error);
      a true one gives true without error; a false one gives the right
      operand's boolean with NO error, whatever the right operand reported. */
  lemma OrRule(a: Pred, b: Pred, dirty: Outcome)
    ensures var ra, r := Eval(a, dirty), Eval(Or(a, b), dirty);
      ra.err.Some? ==> r == ra
    ensures var ra, r := Eval(a, dirty), Eval(Or(a, b), dirty);
      (ra.err.None? && ra.value) ==> r == Run(true, None, ra.calls)
    ensures var ra, rb, r := Eval(a, dirty), Eval(b, dirty), Eval(Or(a, b), dirty);
      (ra.err.None? && !ra.value) ==> r == Run(rb.value, None, ra.calls + rb.calls)
  {
  }

  /** Not negates the boolean and keeps the error: a failed predicate,
      negated, is still a failure. */
  lemma NotRule(a: Pred, dirty: Outcome)
    ensures var ra, r := Eval(a, dirty), Eval(Not(a), dirty);
      r.value == !ra.value && r.err == ra.err && r.calls == ra.calls
  {
  }

  /** Regrouping an -and chain changes nothing: not the answer, not the
      error, not which leaves run. */
  lemma AndAssociative(a: Pred, b: Pred, c: Pred, dirty: Outcome)
    ensures Eval(And(And(a, b), c), dirty) == Eval(And(a, And(b, c)), dirty)
  {
    var ra, rb := Eval(a, dirty), Eval(b, dirty);
    if ra.value && ra.err.None? && rb.value && rb.err.None? {
      var rc := Eval(c, dirty);
      assert ra.calls + rb.calls + rc.calls == ra.calls + (rb.calls + rc.calls);
    }
  }

  /** Regrouping an -or chain changes nothing while no leaf fails. */
  lemma OrAssociativeWithoutErrors(a: Pred, b: Pred, c: Pred, dirty: Outcome)
    requires dirty.err.None?
    ensures Eval(Or(Or(a, b), c), dirty) == Eval(Or(a, Or(b, c)), dirty)
  {
    EvalMatchesHolds(a, dirty);
    EvalMatchesHolds(b, dirty);
    EvalMatchesHolds(c, dirty);
    var ra, rb, rc := Eval(a, dirty), Eval(b, dirty), Eval(c, dirty);
    if !ra.value && !rb.value {
      assert ra.calls + rb.calls + rc.calls == ra.calls + (rb.calls + rc.calls);
    }
  }

  /** Once IsDirty can fail, -or chains are no longer insensitive to
      regrouping: Or drops the error of its right operand, so a failing
      middle operand ends `a -or (b -or c)` as false but lets
      `(a -or b) -or c` go on to c. */
  lemma OrRegroupingWithFailingLeaf()
    ensures var dirty, a, b, c := Outcome(true, Some("inspection failed")), Not(Id), Not(IsDirty), Id;
      Eval(Or(Or(a, b), c), dirty).value != Eval(Or(a, Or(b, c)), dirty).value
  {
  }

  /** `()` (Id) is neutral on either side of an -and. */
  lemma AndIdentity(p: Pred, dirty: Outcome)
    ensures var r, l, q := Eval(p, dirty), Eval(And(Id, p), dirty), Eval(And(p, Id), dirty);
      l.value == r.value && l.err == r.err && q.value == r.value && q.err == r.err
  {
  }

  /** Without failures, the truth value of an -and or -or does not depend
      on the order of its operands (which leaves run may). */
  lemma {:induction false} OperandOrderIrrelevant(a: Pred, b: Pred, dirty: Outcome)
    requires dirty.err.None?
    ensures Eval(And(a, b), dirty).value == Eval(And(b, a), dirty).value
    ensures Eval(Or(a, b), dirty).value == Eval(Or(b, a), dirty).value
  {
    EvalMatchesHolds(And(a, b), dirty);
    EvalMatchesHolds(And(b, a), dirty);
    EvalMatchesHolds(Or(a, b), dirty);
    EvalMatchesHolds(Or(b, a), dirty);
  }

  /** `-not (x -or y)` and `(-not x) -or y` differ for some assignment. */
  lemma NotOverOrDiffers()
    ensures var dirty := Outcome(false, None);
      Eval(Not(Or(IsDirty, Id)), dirty).value != Eval(Or(Not(IsDirty), Id), dirty).value
  {
  }
}
