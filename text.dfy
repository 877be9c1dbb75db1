/**
 * The two string operations of Go's `strings` package that the argument
 * tokenizers apply to every word: `strings.ToLower` and
 * `strings.Trim(s, " \t")`.  Lowering is modelled on ASCII letters only.
 * The functions carry only their length bounds; what they do character by
 * character is stated by the lemmas below them.
 */
module Text {

  predicate IsUpper(c: char) { 'A' <= c <= 'Z' }

  predicate NoUpper(s: string) { forall k :: 0 <= k < |s| ==> !IsUpper(s[k]) }

  /** The cut set " \t" handed to `strings.Trim`. */
  predicate IsBlank(c: char) { c == ' ' || c == '\t' }

  predicate AllBlank(s: string) { forall k :: 0 <= k < |s| ==> IsBlank(s[k]) }

  function LowerChar(c: char): (r: char)
    ensures !IsUpper(r)
    ensures !IsUpper(c) ==> r == c
    ensures IsUpper(c) ==> 'a' <= r <= 'z' && r as int - c as int == 'a' as int - 'A' as int
  {
    if IsUpper(c) then (c as int - 'A' as int + 'a' as int) as char else c
  }

  /** strings.ToLower. */
  function Lower(s: string): (r: string)
    ensures |r| == |s|
  {
    if s == [] then [] else [LowerChar(s[0])] + Lower(s[1..])
  }

  /** strings.Trim(s, " \t"). */
  function Trim(s: string): (r: string)
    ensures |r| <= |s|
  {
    if s != [] && IsBlank(s[0]) then Trim(s[1..])
    else if s != [] && IsBlank(s[|s| - 1]) then Trim(s[..|s| - 1])
    else s
  }

  /** The form in which an argument is looked up in a word table:
      strings.Trim(strings.ToLower(arg), " \t"). */
  function Normalize(arg: string): (w: string)
    ensures |w| <= |arg|
  {
    Trim(Lower(arg))
  }

  /** Lowering works character by character, in place. */
  lemma {:induction false} LowerAt(s: string)
    ensures forall k :: 0 <= k < |s| ==> Lower(s)[k] == LowerChar(s[k])
  {
    if s != [] {
      LowerAt(s[1..]);
    }
  }

  /** Lowering s gives t when it does, character by character. */
  lemma LowerOf(s: string, t: string)
    requires |s| == |t| && forall k :: 0 <= k < |s| ==> LowerChar(s[k]) == t[k]
    ensures Lower(s) == t
  {
    LowerAt(s);
  }

  lemma LowerAppend(a: string, b: string)
    ensures Lower(a + b) == Lower(a) + Lower(b)
  {
    LowerAt(a);
    LowerAt(b);
    LowerAt(a + b);
    assert forall k :: 0 <= k < |a + b| ==> Lower(a + b)[k] == (Lower(a) + Lower(b))[k];
  }

  lemma LowerBlanks(b: string)
    requires AllBlank(b)
    ensures Lower(b) == b
  {
    LowerAt(b);
    assert forall k :: 0 <= k < |b| ==> Lower(b)[k] == b[k];
  }

  /** Where the part that Trim keeps begins. */
  function TrimStart(s: string): (i: nat)
    ensures i <= |s|
  {
    if s != [] && IsBlank(s[0]) then 1 + TrimStart(s[1..])
    else if s != [] && IsBlank(s[|s| - 1]) then TrimStart(s[..|s| - 1])
    else 0
  }

  /** Trimming keeps a contiguous piece of its input. */
  lemma {:induction false} TrimIsInfix(s: string)
    ensures TrimStart(s) + |Trim(s)| <= |s| && Trim(s) == s[TrimStart(s)..TrimStart(s) + |Trim(s)|]
    decreases |s|
  {
    if s != [] && IsBlank(s[0]) {
      var t := s[1..];
      TrimIsInfix(t);
      DropSlice(s, TrimStart(t), TrimStart(t) + |Trim(t)|);
    } else if s != [] && IsBlank(s[|s| - 1]) {
      var t := s[..|s| - 1];
      TrimIsInfix(t);
      TakeSlice(s, |s| - 1, TrimStart(t), TrimStart(t) + |Trim(t)|);
    }
  }

  /** What trimming keeps neither starts nor ends with a blank. */
  lemma {:induction false} TrimEnds(s: string)
    ensures Trim(s) != [] ==> !IsBlank(Trim(s)[0]) && !IsBlank(Trim(s)[|Trim(s)| - 1])
    decreases |s|
  {
    if s != [] && IsBlank(s[0]) {
      TrimEnds(s[1..]);
    } else if s != [] && IsBlank(s[|s| - 1]) {
      TrimEnds(s[..|s| - 1]);
    }
  }

  lemma DropSlice(s: string, a: nat, b: nat)
    requires 1 <= |s| && a <= b <= |s| - 1
    ensures s[1..][a..b] == s[a + 1..b + 1]
  {
  }

  lemma TakeSlice(s: string, n: nat, a: nat, b: nat)
    requires a <= b <= n <= |s|
    ensures s[..n][a..b] == s[a..b]
  {
  }

  /** The looked-up form of an argument has no upper-case letter and no
      blank at either end. */
  lemma NormalizeShape(arg: string)
    ensures NoUpper(Normalize(arg))
    ensures Normalize(arg) != [] ==>
      !IsBlank(Normalize(arg)[0]) && !IsBlank(Normalize(arg)[|Normalize(arg)| - 1])
  {
    var l := Lower(arg);
    LowerAt(arg);
    TrimIsInfix(l);
    TrimEnds(l);
    var i := TrimStart(l);
    assert forall k :: 0 <= k < |Trim(l)| ==> Trim(l)[k] == l[i + k];
  }

  /** Trimming removes exactly the surrounding spaces and tabs. */
  lemma {:induction false} TrimPadded(b1: string, w: string, b2: string)
    requires AllBlank(b1) && AllBlank(b2)
    requires w != [] ==> !IsBlank(w[0]) && !IsBlank(w[|w| - 1])
    ensures Trim(b1 + w + b2) == w
    decreases |b1| + |b2|
  {
    var s := b1 + w + b2;
    if b1 != [] {
      assert s[0] == b1[0];
      assert s[1..] == b1[1..] + w + b2;
      TrimPadded(b1[1..], w, b2);
    } else if w == [] && b2 != [] {
      assert s == b2 && s[0] == b2[0];
      assert s[1..] == [] + [] + b2[1..];
      TrimPadded([], [], b2[1..]);
    } else if b2 != [] {
      assert s == w + b2;
      assert s[0] == w[0] && s[|s| - 1] == b2[|b2| - 1];
      assert s[..|s| - 1] == [] + w + b2[..|b2| - 1];
      TrimPadded([], w, b2[..|b2| - 1]);
    } else {
      assert s == w;
    }
  }

  /** Lowering neither makes nor removes a blank at either end. */
  lemma LowerEnds(w: string)
    requires w != [] ==> !IsBlank(w[0]) && !IsBlank(w[|w| - 1])
    ensures Lower(w) != [] ==> !IsBlank(Lower(w)[0]) && !IsBlank(Lower(w)[|w| - 1])
  {
    LowerAt(w);
  }

  /** Looking a word up ignores the case of its letters and the spaces and
      tabs around it. */
  lemma NormalizePadded(b1: string, w: string, b2: string)
    requires AllBlank(b1) && AllBlank(b2)
    requires w != [] ==> !IsBlank(w[0]) && !IsBlank(w[|w| - 1])
    ensures Normalize(b1 + w + b2) == Lower(w)
  {
    calc {
      Lower(b1 + w + b2);
      { LowerAppend(b1 + w, b2); }
      Lower(b1 + w) + Lower(b2);
      { LowerAppend(b1, w); }
      Lower(b1) + Lower(w) + Lower(b2);
      { LowerBlanks(b1); LowerBlanks(b2); }
      b1 + Lower(w) + b2;
    }
    LowerEnds(w);
    TrimPadded(b1, Lower(w), b2);
  }

  /** A word with no blank at either end is looked up by its lower-case form. */
  lemma NormalizeUnpadded(w: string)
    requires w != [] ==> !IsBlank(w[0]) && !IsBlank(w[|w| - 1])
    ensures Normalize(w) == Lower(w)
  {
    LowerEnds(w);
  }
}
