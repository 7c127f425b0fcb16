/** Python's extended slice `s[start:end:step]`, restricted to the cases the
    word search uses: a non-negative start and a positive step. The end may lie
    beyond the sequence; Python clamps it to `len(s)`. */
module PySlice {
  import opened Arith

  function Min(a: int, b: int): int
  {
    if a <= b then a else b
  }

  /** The elements at start, start + step, start + 2*step, ... that lie before
      both `end` and the end of `s`. */
  function Slice<T>(s: seq<T>, start: nat, end: int, step: nat): seq<T>
    requires step >= 1
    decreases |s| - start
  {
    if start >= end || start >= |s| then []
    else [s[start]] + Slice(s, start + step, end, step)
  }

  /** When exactly `n` steps stay before the bound, the slice has `n` elements
      and element `k` is `s[start + k*step]`. */
  lemma {:induction false} SliceExact<T>(s: seq<T>, start: nat, end: int, step: nat, n: nat)
    requires step >= 1
    requires n == 0 || start + (n - 1) * step < Min(end, |s|)
    requires start + n * step >= Min(end, |s|)
    ensures |Slice(s, start, end, step)| == n
    ensures forall k :: 0 <= k < n ==> start + k * step < |s| && Slice(s, start, end, step)[k] == s[start + k * step]
    decreases n
  {
    if n > 0 {
      var next := start + step;
      StepShift(n - 1, step);
      if n > 1 {
        StepShift(n - 2, step);
      }
      SliceExact(s, next, end, step, n - 1);
      var r := Slice(s, start, end, step);
      assert r == [s[start]] + Slice(s, next, end, step);
      forall k | 0 <= k < n
        ensures start + k * step < |s| && r[k] == s[start + k * step]
      {
        ConsElement(s, start, step, n, Slice(s, next, end, step), k);
      }
    }
  }

  /** Element k of `[s[start]] + rest`, where rest lists every step-th
      element from `start + step` on. */
  lemma ConsElement<T>(s: seq<T>, start: nat, step: nat, n: nat, rest: seq<T>, k: nat)
    requires step >= 1 && start < |s| && 0 <= k < n && |rest| == n - 1
    requires forall t :: 0 <= t < n - 1 ==> start + step + t * step < |s| && rest[t] == s[start + step + t * step]
    ensures start + k * step < |s| && ([s[start]] + rest)[k] == s[start + k * step]
  {
    if k > 0 {
      StepShift(k - 1, step);
      assert start + step + (k - 1) * step < |s| && rest[k - 1] == s[start + step + (k - 1) * step];
    }
  }

  /** Starting `m` steps later drops the first `m` elements of the slice. */
  lemma {:induction false} SliceDrop<T>(s: seq<T>, start: nat, end: int, step: nat, m: nat)
    requires step >= 1 && m <= |Slice(s, start, end, step)|
    ensures Slice(s, start + m * step, end, step) == Slice(s, start, end, step)[m..]
    decreases m
  {
    if m > 0 {
      StepShift(m - 1, step);
      SliceDrop(s, start + step, end, step, m - 1);
    }
  }

  /** With step 1 the slice is the ordinary subsequence, clamped at the end. */
  lemma UnitSlice<T>(s: seq<T>, start: nat, end: int)
    requires start <= Min(end, |s|)
    ensures Slice(s, start, end, 1) == s[start..Min(end, |s|)]
  {
    var n := Min(end, |s|) - start;
    SliceExact(s, start, end, 1, n);
  }
}
