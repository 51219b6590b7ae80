// The balanced-brace scan the script repeats five times
// (sphinx/fixrefs.py lines 23-35, 45-56, 74-86, 103-115, 130-142): start at
// an offset with a zero counter, add one on '{', subtract one on '}', and stop
// at the first '}' that brings the counter back to zero.

module Braces {
  import opened Text

  function Delta(c: char): int
  {
    if c == '{' then 1 else if c == '}' then -1 else 0
  }

  /** Number of '{' minus number of '}' in `t`. */
  function Depth(t: string): int
    decreases |t|
  {
    if t == [] then 0 else Depth(t[..|t| - 1]) + Delta(t[|t| - 1])
  }

  /** The scan started at `p` stops at `q`: s[q] is a '}' and the braces of
      s[p..q] inclusive balance. */
  predicate Closes(s: string, p: nat, q: nat)
  {
    p <= q < |s| && s[q] == '}' && Depth(s[p..q + 1]) == 0
  }

  lemma DepthExtend(s: string, p: nat, j: nat)
    requires p <= j < |s|
    ensures Depth(s[p..j + 1]) == Depth(s[p..j]) + Delta(s[j])
  {
    assert s[p..j + 1][..j - p] == s[p..j];
  }

  /** The scan, already at `j` with counter `depth`. */
  function CloseScan(s: string, j: nat, depth: int): (r: Option<nat>)
    requires j <= |s|
    ensures r.Some? ==> j <= r.value < |s| && s[r.value] == '}'
    decreases |s| - j
  {
    if j == |s| then None
    else if s[j] == '}' && depth - 1 == 0 then Some(j)
    else CloseScan(s, j + 1, depth + Delta(s[j]))
  }

  /** The offset of the brace that closes the scan from `p`, or None where
      the script indexes past the end of the buffer. What it finds is
      stated by CloseFinds. */
  function Close(s: string, p: nat): (r: Option<nat>)
    requires p <= |s|
    ensures r.Some? ==> p <= r.value < |s| && s[r.value] == '}'
  {
    CloseScan(s, p, 0)
  }

  lemma {:induction false} CloseScanFinds(s: string, p: nat, j: nat, depth: int)
    requires p <= j <= |s|
    requires depth == Depth(s[p..j])
    requires forall q :: p <= q < j ==> !Closes(s, p, q)
    ensures CloseScan(s, j, depth).Some? ==>
              Closes(s, p, CloseScan(s, j, depth).value) &&
              forall q :: p <= q < CloseScan(s, j, depth).value ==> !Closes(s, p, q)
    ensures CloseScan(s, j, depth).None? ==> forall q :: p <= q < |s| ==> !Closes(s, p, q)
    decreases |s| - j
  {
    if j < |s| {
      DepthExtend(s, p, j);
      if !(s[j] == '}' && depth - 1 == 0) {
        CloseScanFinds(s, p, j + 1, depth + Delta(s[j]));
      }
    }
  }

  /** Close stops at the first '}' that balances the braces scanned from
      `p`, and returns None exactly when there is no such brace. */
  lemma CloseFinds(s: string, p: nat)
    requires p <= |s|
    ensures Close(s, p).Some? ==> Closes(s, p, Close(s, p).value)
    ensures Close(s, p).Some? ==> forall q :: p <= q < Close(s, p).value ==> !Closes(s, p, q)
    ensures Close(s, p).None? ==> forall q :: p <= q < |s| ==> !Closes(s, p, q)
  {
    CloseScanFinds(s, p, p, 0);
  }

  /** The scan itself, as the script runs it. */
  method MatchBrace(s: string, p: nat) returns (r: Option<nat>)
    requires p <= |s|
    ensures r == Close(s, p)
  {
    var j := p;
    var cnt := 0;
    while j < |s|
      invariant p <= j <= |s|
      invariant cnt == Depth(s[p..j])
      invariant forall q :: p <= q < j ==> !Closes(s, p, q)
    {
      DepthExtend(s, p, j);
      if s[j] == '}' {
        cnt := cnt - 1;
        if cnt == 0 {
          assert Closes(s, p, j);
          CloseFinds(s, p);
          return Some(j);
        }
      } else if s[j] == '{' {
        cnt := cnt + 1;
      }
      j := j + 1;
    }
    CloseFinds(s, p);
    return None;
  }

  lemma {:induction false} PositiveDepthHasOpen(t: string)
    requires Depth(t) > 0
    ensures exists x :: 0 <= x < |t| && t[x] == '{'
    decreases |t|
  {
    if t[|t| - 1] != '{' {
      PositiveDepthHasOpen(t[..|t| - 1]);
      var x :| 0 <= x < |t| - 1 && t[..|t| - 1][x] == '{';
      assert t[x] == '{';
    }
  }

  /** A scan can only stop after it has seen a '{': the closing brace lies
      at least one character beyond an opening one. */
  lemma OpenBeforeClose(s: string, p: nat, q: nat)
    requires Closes(s, p, q)
    ensures exists x :: p <= x < q && s[x] == '{'
  {
    DepthExtend(s, p, q);
    PositiveDepthHasOpen(s[p..q]);
    var x :| 0 <= x < q - p && s[p..q][x] == '{';
    assert s[p + x] == '{';
  }
}
