/**
 * The array operations of JavaScript that the application relies on
 * (`findIndex`, `find`, `filter`, `filter(..).length`, index assignment
 * after `findIndex`, and `map` that replaces matching elements), written
 * once over generic sequences.
 */
module Seqs {
  import opened Wrappers

  /** `s.findIndex(p)`: the index of the first element satisfying `p`, or -1. */
  function FirstIndex<T>(s: seq<T>, p: T -> bool): (r: int)
    ensures -1 <= r < |s|
    ensures r >= 0 ==> p(s[r]) && forall j :: 0 <= j < r ==> !p(s[j])
    ensures r == -1 <==> forall j :: 0 <= j < |s| ==> !p(s[j])
  {
    FirstIndexFrom(s, p, 0)
  }

  /** The search of `findIndex` from index `i` on. */
  function FirstIndexFrom<T>(s: seq<T>, p: T -> bool, i: nat): (r: int)
    requires i <= |s|
    ensures r == -1 || i <= r < |s|
    ensures r >= 0 ==> p(s[r]) && forall j :: i <= j < r ==> !p(s[j])
    ensures r == -1 <==> forall j :: i <= j < |s| ==> !p(s[j])
    decreases |s| - i
  {
    if i == |s| then -1
    else if p(s[i]) then i
    else FirstIndexFrom(s, p, i + 1)
  }

  /** `s.find(p)`: the first element satisfying `p`, if any. */
  function Find<T>(s: seq<T>, p: T -> bool): (r: Option<T>)
    ensures r.None? <==> forall j :: 0 <= j < |s| ==> !p(s[j])
    ensures r.Some? ==> r.value == s[FirstIndex(s, p)]
  {
    var k := FirstIndex(s, p);
    if k == -1 then None else Some(s[k])
  }

  /** `s.filter(p)`: the elements satisfying `p`, in their original order. */
  function Filter<T>(s: seq<T>, p: T -> bool): (r: seq<T>)
    ensures |r| <= |s|
    ensures forall x :: x in r ==> x in s && p(x)
    ensures forall i :: 0 <= i < |r| ==> p(r[i])
    ensures forall i :: 0 <= i < |s| && p(s[i]) ==> s[i] in r
  {
    FilterToSpec(s, p, |s|);
    FilterTo(s, p, |s|)
  }

  /** The elements of the first `n` of `s` that satisfy `p`, in order. */
  function FilterTo<T>(s: seq<T>, p: T -> bool, n: nat): (r: seq<T>)
    requires n <= |s|
    ensures |r| <= n
  {
    if n == 0 then []
    else
      var front := FilterTo(s, p, n - 1);
      if p(s[n - 1]) then front + [s[n - 1]] else front
  }

  /** What filtering the first `n` keeps: elements of `s` satisfying `p`, and every such one among the first `n`. */
  lemma {:induction false} FilterToSpec<T>(s: seq<T>, p: T -> bool, n: nat)
    requires n <= |s|
    ensures var r := FilterTo(s, p, n);
      && (forall x :: x in r ==> x in s && p(x))
      && (forall i :: 0 <= i < |r| ==> p(r[i]))
      && (forall i :: 0 <= i < n && p(s[i]) ==> s[i] in r)
  {
    if n > 0 {
      FilterToSpec(s, p, n - 1);
    }
  }

  /** `s.filter(p).length`. */
  function CountWhere<T>(s: seq<T>, p: T -> bool): (c: nat)
    ensures c <= |s|
    ensures c == 0 <==> forall i :: 0 <= i < |s| ==> !p(s[i])
    ensures c == |s| <==> forall i :: 0 <= i < |s| ==> p(s[i])
  {
    CountTo(s, p, |s|)
  }

  /** How many of the first `n` of `s` satisfy `p`. */
  function CountTo<T>(s: seq<T>, p: T -> bool, n: nat): (c: nat)
    requires n <= |s|
    ensures c <= n
    ensures c == 0 <==> forall i :: 0 <= i < n ==> !p(s[i])
    ensures c == n <==> forall i :: 0 <= i < n ==> p(s[i])
  {
    if n == 0 then 0 else CountTo(s, p, n - 1) + if p(s[n - 1]) then 1 else 0
  }

  /** Filtering distributes over concatenation: order is kept block by block. */
  lemma FilterAppend<T>(a: seq<T>, b: seq<T>, p: T -> bool)
    ensures Filter(a + b, p) == Filter(a, p) + Filter(b, p)
  {
    FilterToShift(a, b, p, |b|);
  }

  /** Filtering a prefix of `a + b` that lies within `a`. */
  lemma {:induction false} FilterToPrefix<T>(a: seq<T>, b: seq<T>, p: T -> bool, n: nat)
    requires n <= |a|
    ensures FilterTo(a + b, p, n) == FilterTo(a, p, n)
  {
    if n > 0 {
      FilterToPrefix(a, b, p, n - 1);
      assert (a + b)[n - 1] == a[n - 1];
    }
  }

  /** Filtering `a + b` up to `m` elements into `b`. */
  lemma {:induction false} FilterToShift<T>(a: seq<T>, b: seq<T>, p: T -> bool, m: nat)
    requires m <= |b|
    ensures FilterTo(a + b, p, |a| + m) == FilterTo(a, p, |a|) + FilterTo(b, p, m)
  {
    if m == 0 {
      FilterToPrefix(a, b, p, |a|);
    } else {
      FilterToShift(a, b, p, m - 1);
      FilterToShiftStep(a, b, p, m);
    }
  }

  /** One more element of `b`: the step of `FilterToShift`. */
  lemma FilterToShiftStep<T>(a: seq<T>, b: seq<T>, p: T -> bool, m: nat)
    requires 0 < m <= |b|
    requires FilterTo(a + b, p, |a| + m - 1) == FilterTo(a, p, |a|) + FilterTo(b, p, m - 1)
    ensures FilterTo(a + b, p, |a| + m) == FilterTo(a, p, |a|) + FilterTo(b, p, m)
  {
    var x := b[m - 1];
    var step := if p(x) then [x] else [];
    var fa, fb := FilterTo(a, p, |a|), FilterTo(b, p, m - 1);
    assert (a + b)[|a| + m - 1] == x;
    assert (fa + fb) + step == fa + (fb + step);
  }

  /** Every element satisfies `p` exactly when filtering keeps the whole sequence. */
  lemma FilterAll<T>(s: seq<T>, p: T -> bool)
    requires forall i :: 0 <= i < |s| ==> p(s[i])
    ensures Filter(s, p) == s
  {
    FilterToAll(s, p, |s|);
    assert s[..|s|] == s;
  }

  /** With every element satisfying `p`, filtering the first `n` keeps them all. */
  lemma {:induction false} FilterToAll<T>(s: seq<T>, p: T -> bool, n: nat)
    requires n <= |s|
    requires forall i :: 0 <= i < |s| ==> p(s[i])
    ensures FilterTo(s, p, n) == s[..n]
  {
    if n > 0 {
      FilterToAll(s, p, n - 1);
      assert s[..n] == s[..n - 1] + [s[n - 1]];
    }
  }

  /**
   * `i = s.findIndex(p); if (i !== -1) s[i] = x`: the first element
   * satisfying `p` is replaced by `x`; nothing else changes.
   */
  function ReplaceFirst<T>(s: seq<T>, p: T -> bool, x: T): (r: seq<T>)
    ensures |r| == |s|
  {
    var k := FirstIndex(s, p);
    if k == -1 then s else s[k := x]
  }

  /** `s.map(e => p(e) ? x : e)`: every element satisfying `p` is replaced by `x`. */
  function ReplaceEvery<T>(s: seq<T>, p: T -> bool, x: T): (r: seq<T>)
    ensures |r| == |s|
  {
    seq(|s|, i requires 0 <= i < |s| => if p(s[i]) then x else s[i])
  }

  /** Replacing the first match changes exactly that position, and only if there is one. */
  lemma ReplaceFirstSpec<T>(s: seq<T>, p: T -> bool, x: T)
    ensures var r := ReplaceFirst(s, p, x);
      && (forall j :: 0 <= j < |s| ==> !p(s[j])) ==> r == s
    ensures forall i :: 0 <= i < |s| && p(s[i]) ==>
      var r := ReplaceFirst(s, p, x);
      var k := FirstIndex(s, p);
      0 <= k <= i && r[k] == x && forall j :: 0 <= j < |s| && j != k ==> r[j] == s[j]
  {
  }

  /** Replacing the first match with an element that itself matches is idempotent. */
  lemma ReplaceFirstIdempotent<T>(s: seq<T>, p: T -> bool, x: T)
    requires p(x)
    ensures ReplaceFirst(ReplaceFirst(s, p, x), p, x) == ReplaceFirst(s, p, x)
  {
    var k := FirstIndex(s, p);
    if k != -1 {
      var r := s[k := x];
      assert forall j :: 0 <= j < k ==> r[j] == s[j] && !p(r[j]);
      assert p(r[k]);
      assert FirstIndex(r, p) == k;
    }
  }

  /** Replacing every match with an element that itself matches is idempotent. */
  lemma ReplaceEveryIdempotent<T>(s: seq<T>, p: T -> bool, x: T)
    requires p(x)
    ensures ReplaceEvery(ReplaceEvery(s, p, x), p, x) == ReplaceEvery(s, p, x)
  {
  }

  /** Reading back after replacing every match: the replacement, if anything matched. */
  lemma FindAfterReplaceEvery<T>(s: seq<T>, p: T -> bool, x: T)
    requires p(x)
    ensures Find(ReplaceEvery(s, p, x), p) == if Find(s, p).Some? then Some(x) else None
  {
    var r := ReplaceEvery(s, p, x);
    if Find(s, p).Some? {
      var k := FirstIndex(s, p);
      assert r[k] == x;
      assert forall j :: 0 <= j < k ==> r[j] == s[j];
      assert FirstIndex(r, p) == k;
    }
  }

  /** A match found in a prefix is the first match of the whole sequence. */
  lemma FirstIndexPrefix<T>(s: seq<T>, p: T -> bool, n: nat)
    requires n <= |s| && FirstIndex(s[..n], p) >= 0
    ensures FirstIndex(s, p) == FirstIndex(s[..n], p)
  {
    var k := FirstIndex(s[..n], p);
    assert s[..n][k] == s[k];
    assert forall j :: 0 <= j < k ==> s[..n][j] == s[j];
  }

  /** Filtering keeps exactly as many elements as satisfy the predicate. */
  lemma FilterCount<T>(s: seq<T>, p: T -> bool)
    ensures |Filter(s, p)| == CountWhere(s, p)
  {
    FilterCountTo(s, p, |s|);
  }

  lemma {:induction false} FilterCountTo<T>(s: seq<T>, p: T -> bool, n: nat)
    requires n <= |s|
    ensures |FilterTo(s, p, n)| == CountTo(s, p, n)
  {
    if n > 0 {
      FilterCountTo(s, p, n - 1);
    }
  }
}
