// Pass 2 of sphinx/fixrefs.py (lines 61-88) exactly as written, including
// what Python's str.find does when it finds nothing: it returns -1, and the
// script goes on with b = -1, so the ID becomes s[a+1:-1] and the brace scan
// starts at offset 0. On a link with no '}' after it the pass then never
// ends. The rest of the model (module Passes) faults there instead.

module AsWritten {
  import opened Text
  import opened Braces
  import opened Passes

  /** Python's `s.find(w, from)`, -1 included. */
  function PyFind(s: string, w: string, from: nat): int
  {
    match FindFrom(s, w, from)
    case None => -1
    case Some(k) => k
  }

  /** A Python slice bound, negative ones counted from the end, clamped to
      the string. */
  function Bound(n: nat, x: int): nat
  {
    if x < 0 then (if n + x < 0 then 0 else n + x) else if x > n then n else x
  }

  /** Python's `s[lo:hi]` for any integer bounds. */
  function PySlice(s: string, lo: int, hi: int): string
  {
    if Bound(|s|, lo) < Bound(|s|, hi) then s[Bound(|s|, lo)..Bound(|s|, hi)] else []
  }

  /** Lines 69-88 for the link at `i`, with b == -1 left in: the rewritten
      buffer, or Fault for an IndexError. */
  function LinkStepAsWritten(s: string, i: nat): Result<string>
    requires i <= |s|
  {
    var a := PyFind(s, "{", i);
    var b := PyFind(s, "}", i);
    match Close(s, b + 1)
    case None => Fault
    case Some(j) => Ok(s[..i] + Ref(PySlice(s, a + 1, b)) + s[j + 1..])
  }

  /** Where the pass stands after a bounded number of steps: finished with a
      buffer, crashed with an IndexError, or still looping. */
  datatype Progress = Finished(text: string) | Crashed | Looping

  /** Lines 63-88, allowed `fuel` more steps, searching from `from`. */
  function LinkPassAsWritten(s: string, from: nat, fuel: nat): Progress
    decreases fuel, 1
  {
    if fuel == 0 then Looping
    else
      match FindFrom(s, Hyperlink, from)
      case None => Finished(s)
      case Some(i) => ResumeAsWritten(LinkStepAsWritten(s, i), i, fuel)
  }

  /** What the loop does after the step at the link at `i` produced `r`. */
  function ResumeAsWritten(r: Result<string>, i: nat, fuel: nat): Progress
    requires fuel > 0
    decreases fuel, 0
  {
    match r
    case Fault => Crashed
    case Ok(t) => LinkPassAsWritten(t, i + 1, fuel - 1)
  }

  /** Wherever a '}' follows the link, the code as written and the model
      agree; they differ only where there is none. */
  lemma AgreesWhenIdClosed(s: string, i: nat)
    requires i <= |s|
    ensures FindFrom(s, "}", i).Some? ==> LinkStep(s, i).Ok? == LinkStepAsWritten(s, i).Ok?
    ensures FindFrom(s, "}", i).Some? && LinkStep(s, i).Ok? ==>
              LinkStep(s, i).value == Rewrite(LinkStepAsWritten(s, i).value)
    ensures FindFrom(s, "}", i).None? ==> LinkStep(s, i) == Fault
  {
    var b := FindFrom(s, "}", i);
    if b.Some? {
      HasAtChars(s, b.value, "}");
      var a := FindFrom(s, "{", i);
      if a.Some? {
        HasAtChars(s, a.value, "{");
      }
    }
  }

  /** The shape every buffer of the endless run has: "{}" in front,
      \hyperlink at the end, and no other 'k' anywhere. */
  predicate Endless(s: string)
  {
    |s| >= 12 && s[0] == '{' && s[1] == '}' && HasAt(s, |s| - 10, Hyperlink) && KFree(s, |s| - 1)
  }

  /** No 'k' among the first `n` characters of `s`. */
  predicate KFree(s: string, n: nat)
    decreases n
  {
    n <= |s| && (n == 0 || (s[n - 1] != 'k' && KFree(s, n - 1)))
  }

  lemma {:induction false} KFreeChars(s: string, n: nat)
    ensures KFree(s, n) <==> n <= |s| && forall q :: 0 <= q < n ==> s[q] != 'k'
    decreases n
  {
    if n > 0 {
      KFreeChars(s, n - 1);
    }
  }

  /** In such a buffer the only link is the one at the end. */
  lemma OnlyTrailingLink(s: string, from: nat)
    requires Endless(s) && from <= |s| - 10
    ensures FindFrom(s, Hyperlink, from) == Some(|s| - 10)
  {
    FindFromFinds(s, Hyperlink, from);
    KFreeChars(s, |s| - 1);
    forall q | from <= q < |s| - 10 ensures !HasAt(s, q, Hyperlink) {
      HasAtChars(s, q, Hyperlink);
      assert Hyperlink[9] == 'k';
    }
  }

  /** What the step at the trailing link makes of such a buffer. */
  function Grown(s: string): string
    requires |s| >= 12
  {
    s[..|s| - 10] + Ref(s[..|s| - 1]) + s[2..]
  }

  /** The step at the trailing link finds neither brace after it, copies
      nearly the whole buffer into the reference, and keeps the trailing
      link. */
  lemma TrailingStep(s: string)
    requires Endless(s)
    ensures LinkStepAsWritten(s, |s| - 10) == Ok(Grown(s))
  {
    var i := |s| - 10;
    FindFromFinds(s, "{", i);
    FindFromFinds(s, "}", i);
    HasAtChars(s, i, Hyperlink);
    forall q | i <= q ensures !HasAt(s, q, "{") && !HasAt(s, q, "}") {
      HasAtChars(s, q, "{");
      HasAtChars(s, q, "}");
    }
    assert CloseScan(s, 1, 1) == Some(1);
  }

  /** The grown buffer has the same shape, and is longer. */
  lemma GrownEndless(s: string)
    requires Endless(s)
    ensures Endless(Grown(s)) && |Grown(s)| > |s|
  {
    var i := |s| - 10;
    var t := Grown(s);
    HasAtChars(s, i, Hyperlink);
    KFreeChars(s, |s| - 1);
    KFreeChars(t, |t| - 1);
    assert |t| == |s| - 10 + 6 + |s| - 1 + |s| - 2;
    forall q | 0 <= q < |t| - 1 ensures t[q] != 'k' {
      if q < i {
        assert t[q] == s[q];
      } else if q < i + 6 + |s| - 1 {
        assert t[q] == Ref(s[..|s| - 1])[q - i];
      } else {
        assert t[q] == s[q - i - 6 - |s| + 1 + 2];
      }
    }
    HasAtChars(t, |t| - 10, Hyperlink);
    forall q | |t| - 10 <= q < |t| ensures t[q] == Hyperlink[q - (|t| - 10)] {
      assert t[q] == s[q - |t| + |s|];
    }
  }

  /** The step at the trailing link of such a buffer rewrites it into a
      longer buffer of the same shape. */
  lemma EndlessStep(s: string)
    requires Endless(s)
    ensures LinkStepAsWritten(s, |s| - 10).Ok?
    ensures Endless(LinkStepAsWritten(s, |s| - 10).value)
    ensures |LinkStepAsWritten(s, |s| - 10).value| > |s|
  {
    TrailingStep(s);
    GrownEndless(s);
  }

  /** One turn of the loop at line 64: the search finds the link at `i`, the
      step there rewrites the buffer, and the search resumes after `i`. */
  lemma LoopStep(s: string, from: nat, fuel: nat, i: nat)
    requires fuel > 0 && FindFrom(s, Hyperlink, from) == Some(i)
    ensures LinkPassAsWritten(s, from, fuel) == ResumeAsWritten(LinkStepAsWritten(s, i), i, fuel)
    ensures LinkStepAsWritten(s, i).Ok? ==>
              LinkPassAsWritten(s, from, fuel) ==
              LinkPassAsWritten(LinkStepAsWritten(s, i).value, i + 1, fuel - 1)
  {
  }

  lemma {:induction false} EndlessRun(s: string, from: nat, fuel: nat)
    requires Endless(s) && from <= |s| - 10
    ensures LinkPassAsWritten(s, from, fuel) == Looping
    decreases fuel
  {
    if fuel > 0 {
      OnlyTrailingLink(s, from);
      EndlessStep(s);
      LoopStep(s, from, fuel, |s| - 10);
      EndlessRun(LinkStepAsWritten(s, |s| - 10).value, |s| - 9, fuel - 1);
    }
  }

  /** As written, pass 2 never finishes on "{}\hyperlink": whatever number of
      steps it is allowed, it is still looping, its buffer growing. */
  lemma LinkPassNeverEnds(fuel: nat)
    ensures LinkPassAsWritten("{}\\hyperlink", 0, fuel) == Looping
  {
    var s := "{}\\hyperlink";
    assert s[2..] == Hyperlink;
    HasAtChars(s, 2, Hyperlink);
    KFreeChars(s, 11);
    EndlessRun(s, 0, fuel);
  }

  /** The model of pass 2 rejects the same document: the link's ID is never
      closed. */
  lemma LinkPassFaultsOnUnclosedId()
    ensures Run(Links, "{}\\hyperlink") == Fault
  {
    var s := "{}\\hyperlink";
    assert s[2..] == Hyperlink;
    HasAtChars(s, 2, Hyperlink);
    FindFromFinds(s, Hyperlink, 0);
    forall q | 0 <= q < 2 ensures !HasAt(s, q, Hyperlink) {
      HasAtChars(s, q, Hyperlink);
    }
    FindFromFinds(s, "}", 2);
    forall q | 2 <= q ensures !HasAt(s, q, "}") {
      HasAtChars(s, q, "}");
    }
    PassAtStep(Links, s, 2);
  }
}
