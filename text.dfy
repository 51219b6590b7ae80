// Text primitives the rewriter is built from: Python's str.find, its slice
// operator with out-of-order bounds, and the two splices the script performs
// on its buffer.

module Text {

  datatype Option<T> = None | Some(value: T)

  /** The outcome of running the script: the rewritten buffer, or the
      IndexError the script dies with when a scan runs past the end. */
  datatype Result<T> = Ok(value: T) | Fault

  /** `w` occurs in `s` starting at offset `p` (Python: s[p:p+len(w)] == w),
      compared one character at a time. */
  predicate HasAt(s: string, p: nat, w: string)
  {
    p + |w| <= |s| && AgreesFrom(s, p, w, 0)
  }

  /** s[p + x..p + |w|] agrees with w[x..]. */
  predicate AgreesFrom(s: string, p: nat, w: string, x: nat)
    requires p + |w| <= |s|
    decreases |w| - x
  {
    x >= |w| || (s[p + x] == w[x] && AgreesFrom(s, p, w, x + 1))
  }

  lemma {:induction false} AgreesChars(s: string, p: nat, w: string, x: nat)
    requires p + |w| <= |s|
    ensures AgreesFrom(s, p, w, x) <==> forall q :: p + x <= q < p + |w| ==> s[q] == w[q - p]
    decreases |w| - x
  {
    if x < |w| {
      AgreesChars(s, p, w, x + 1);
    }
  }

  lemma HasAtChars(s: string, p: nat, w: string)
    ensures HasAt(s, p, w) <==> p + |w| <= |s| && forall q :: p <= q < p + |w| ==> s[q] == w[q - p]
  {
    if p + |w| <= |s| {
      AgreesChars(s, p, w, 0);
    }
  }

  /** The character-wise comparison is Python's slice comparison. */
  lemma HasAtSlice(s: string, p: nat, w: string)
    ensures HasAt(s, p, w) <==> p + |w| <= |s| && s[p..p + |w|] == w
  {
    HasAtChars(s, p, w);
    if p + |w| <= |s| && s[p..p + |w|] == w {
      forall q | p <= q < p + |w| ensures s[q] == w[q - p] {
        assert s[p..p + |w|][q - p] == s[q];
      }
    }
  }

  lemma NoRoom(s: string, w: string, from: nat)
    requires from + |w| > |s|
    ensures forall q :: from <= q ==> !HasAt(s, q, w)
  {
    forall q | from <= q ensures !HasAt(s, q, w) {
      HasAtChars(s, q, w);
    }
  }

  /** Python's `s.find(w, from)` for a non-negative start: the least offset
      at or after `from` where `w` occurs, or None where Python returns -1.
      What it finds is stated by FindFromFinds. */
  function FindFrom(s: string, w: string, from: nat): (r: Option<nat>)
    ensures r.Some? ==> from <= r.value && HasAt(s, r.value, w)
    decreases |s| - from
  {
    if from + |w| > |s| then None
    else if HasAt(s, from, w) then Some(from)
    else FindFrom(s, w, from + 1)
  }

  /** FindFrom returns the first occurrence at or after `from`, and None
      exactly when there is none. */
  lemma {:induction false} FindFromFinds(s: string, w: string, from: nat)
    ensures FindFrom(s, w, from).Some? ==>
              from <= FindFrom(s, w, from).value && HasAt(s, FindFrom(s, w, from).value, w)
    ensures FindFrom(s, w, from).Some? ==>
              forall q :: from <= q < FindFrom(s, w, from).value ==> !HasAt(s, q, w)
    ensures FindFrom(s, w, from).None? ==> forall q :: from <= q ==> !HasAt(s, q, w)
    decreases |s| - from
  {
    if from + |w| > |s| {
      NoRoom(s, w, from);
    } else if !HasAt(s, from, w) {
      FindFromFinds(s, w, from + 1);
    }
  }

  /** Python's `s[lo:hi]` for bounds inside the string: empty when lo >= hi. */
  function Slice(s: string, lo: nat, hi: nat): string
    requires lo <= |s| && hi <= |s|
  {
    if lo < hi then s[lo..hi] else []
  }

  /** `s[:k] + w + s[k:]` */
  function Insert(s: string, k: nat, w: string): string
    requires k <= |s|
  {
    s[..k] + w + s[k..]
  }

  /** `s[:lo] + s[hi:]` */
  function Remove(s: string, lo: nat, hi: nat): string
    requires lo <= hi <= |s|
  {
    s[..lo] + s[hi..]
  }

  /** `a` and `b` both have at least `n` characters, and the first `n`
      agree. */
  predicate SamePrefix(a: string, b: string, n: nat)
    decreases n
  {
    n <= |a| && n <= |b| && (n == 0 || (a[n - 1] == b[n - 1] && SamePrefix(a, b, n - 1)))
  }

  lemma {:induction false} SamePrefixChars(a: string, b: string, n: nat)
    ensures SamePrefix(a, b, n) <==> n <= |a| && n <= |b| && forall q :: 0 <= q < n ==> a[q] == b[q]
    decreases n
  {
    if n > 0 {
      SamePrefixChars(a, b, n - 1);
    }
  }

  /** Agreeing on a prefix is agreeing on Python's slices `a[:n]` and `b[:n]`. */
  lemma SamePrefixSlices(a: string, b: string, n: nat)
    ensures SamePrefix(a, b, n) <==> n <= |a| && n <= |b| && a[..n] == b[..n]
  {
    SamePrefixChars(a, b, n);
    if n <= |a| && n <= |b| && a[..n] == b[..n] {
      forall q | 0 <= q < n ensures a[q] == b[q] {
        assert a[..n][q] == b[..n][q];
      }
    }
  }

  /** Agreement on a prefix carries over from `b` through to `c`, on the
      shorter of the two prefixes or any prefix shorter still. */
  lemma SamePrefixTrans(a: string, b: string, c: string, k: nat, m: nat, n: nat)
    requires k <= m && k <= n && SamePrefix(a, b, m) && SamePrefix(b, c, n)
    ensures SamePrefix(a, c, k)
  {
    SamePrefixChars(a, b, m);
    SamePrefixChars(b, c, n);
    SamePrefixChars(a, c, k);
  }

  /** No character of `w` is a brace. */
  predicate BraceFree(w: string)
  {
    forall x :: 0 <= x < |w| ==> w[x] != '{' && w[x] != '}'
  }
}
