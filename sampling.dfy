/**
 * The sampling engine: `shuffleThenSlice` (a full Fisher-Yates shuffle of a
 * copy of the pool) and `sampleUnique` (a partial Fisher-Yates that
 * shuffles out only the first k places). `Math.random()` is replaced by an
 * oracle: the sequence of indices the random draws would have produced,
 * each within the range the source's expression can yield.
 */
module Sampling {

  /** `x | 0` for an integer `x`: ECMAScript ToInt32, wrapping modulo 2^32
      into the signed 32-bit range. */
  function ToInt32(x: int): (r: int)
    ensures -0x8000_0000 <= r < 0x8000_0000
    ensures (x - r) % 0x1_0000_0000 == 0
    ensures -0x8000_0000 <= x < 0x8000_0000 ==> r == x
  {
    (x + 0x8000_0000) % 0x1_0000_0000 - 0x8000_0000
  }

  /** The index where `a.slice(0, k)` stops on an array of length `len`:
      a negative `k` counts from the end, a large one stops at the end. */
  function SliceEnd(len: nat, k: int): (e: nat)
    ensures e <= len
    ensures 0 <= k <= len ==> e == k
    ensures k > len ==> e == len
    ensures k < 0 ==> e == if len + k < 0 then 0 else len + k
  {
    if k < 0 then (if len + k < 0 then 0 else len + k)
    else if k > len then len
    else k
  }

  /** The picks of a full shuffle of `n` elements: the step for index `i`
      (from n-1 down to 1) swaps with `picks[i]`, which
      `(Math.random() * (i + 1)) | 0` keeps in [0, i]. */
  predicate ShufflePicks(n: nat, picks: seq<int>) {
    |picks| >= n && forall i :: 0 < i < n ==> 0 <= picks[i] <= i
  }

  /** The picks of a partial shuffle of `k` of `n` elements: step `i` swaps
      with `i + picks[i]`, and `(Math.random() * (n - i)) | 0` keeps
      `picks[i]` in [0, n - i). */
  predicate PartialPicks(n: nat, k: nat, picks: seq<int>) {
    |picks| >= k && forall i :: 0 <= i < k ==> 0 <= picks[i] < n - i
  }

  /** `r` is made of elements of `arr` taken from the pairwise distinct
      positions `pos`. */
  ghost predicate DrawnFrom<T>(r: seq<T>, arr: seq<T>, pos: seq<int>) {
    && |pos| == |r|
    && (forall t :: 0 <= t < |r| ==> 0 <= pos[t] < |arr| && r[t] == arr[pos[t]])
    && (forall s, t :: 0 <= s < t < |pos| ==> pos[s] != pos[t])
  }

  /** `s` with the elements at `i` and `j` exchanged. */
  function Exchange<T>(s: seq<T>, i: int, j: int): (r: seq<T>)
    requires 0 <= i < |s| && 0 <= j < |s|
    ensures |r| == |s| && r[i] == s[j] && r[j] == s[i]
    ensures forall k :: 0 <= k < |s| && k != i && k != j ==> r[k] == s[k]
    ensures multiset(r) == multiset(s)
  {
    s[i := s[j]][j := s[i]]
  }

  /** The pool after the steps of the full shuffle for the indices from
      `|s| - 1` down to `i` (there is no step for index 0): step `m`
      exchanges places `m` and `picks[m]`. */
  function ShuffleDown<T>(s: seq<T>, picks: seq<int>, i: nat): (r: seq<T>)
    requires ShufflePicks(|s|, picks) && i <= |s|
    ensures |r| == |s| && multiset(r) == multiset(s)
    decreases |s| - i
  {
    if i == |s| then s
    else
      var prev := ShuffleDown(s, picks, i + 1);
      if i == 0 then prev else Exchange(prev, i, picks[i])
  }

  /** The pool after the first `i` of the `k` steps of the partial
      shuffle: step `m` exchanges places `m` and `m + picks[m]`. */
  function ShuffleUp<T>(s: seq<T>, picks: seq<int>, k: nat, i: nat): (r: seq<T>)
    requires PartialPicks(|s|, k, picks) && i <= k <= |s|
    ensures |r| == |s| && multiset(r) == multiset(s)
    decreases i
  {
    if i == 0 then s
    else
      var prev := ShuffleUp(s, picks, k, i - 1);
      Exchange(prev, i - 1, i - 1 + picks[i - 1])
  }

  /** One more step of the full shuffle, for index `i`. */
  lemma ShuffleDownStep<T>(s: seq<T>, picks: seq<int>, i: nat, cur: seq<T>)
    requires ShufflePicks(|s|, picks) && 0 < i < |s|
    requires cur == ShuffleDown(s, picks, i + 1)
    ensures Exchange(cur, i, picks[i]) == ShuffleDown(s, picks, i)
  {
  }

  /** One more step of the partial shuffle, for index `i`. */
  lemma ShuffleUpStep<T>(s: seq<T>, picks: seq<int>, k: nat, i: nat, cur: seq<T>, j: int)
    requires PartialPicks(|s|, k, picks) && i < k <= |s|
    requires cur == ShuffleUp(s, picks, k, i) && j == i + picks[i]
    ensures 0 <= j < |s|
    ensures Exchange(cur, i, j) == ShuffleUp(s, picks, k, i + 1)
  {
  }

  /** Exchanges `a[i]` and `a[j]` (`[a[i], a[j]] = [a[j], a[i]]`), keeping
      track of the position of `arr` each element came from. */
  method Swap<T>(a: array<T>, i: int, j: int, ghost arr: seq<T>, ghost perm: seq<int>)
    returns (ghost perm': seq<int>)
    requires 0 <= i < a.Length && 0 <= j < a.Length
    requires DrawnFrom(a[..], arr, perm)
    modifies a
    ensures a[..] == Exchange(old(a[..]), i, j)
    ensures perm' == Exchange(perm, i, j)
    ensures DrawnFrom(a[..], arr, perm')
  {
    a[i], a[j] := a[j], a[i];
    perm' := perm[i := perm[j]][j := perm[i]];
  }

  /** `arr.slice()`: a fresh array holding the elements of `arr`. */
  method Copy<T>(arr: seq<T>) returns (a: array<T>)
    ensures fresh(a) && a[..] == arr
  {
    a := new T[|arr|](t requires 0 <= t < |arr| => arr[t]);
  }

  /** Before any swap, every element sits at its own position. */
  lemma IdentityDrawn<T>(arr: seq<T>)
    ensures DrawnFrom(arr, arr, seq(|arr|, t => t))
  {
  }

  /** The first `e` elements of a rearrangement of `arr` come from distinct
      places of it and form a sub-multiset of it. */
  lemma PrefixDrawn<T>(cur: seq<T>, arr: seq<T>, perm: seq<int>, e: nat)
    requires DrawnFrom(cur, arr, perm) && multiset(cur) == multiset(arr)
    requires e <= |cur|
    ensures DrawnFrom(cur[..e], arr, perm[..e])
    ensures multiset(cur[..e]) <= multiset(arr)
    ensures e == |cur| ==> cur[..e] == cur
  {
    assert cur == cur[..e] + cur[e..];
  }

  /** `arr.slice()` followed by a full Fisher-Yates shuffle and
      `slice(0, k)`. The pool itself is a value and is never changed. */
  method ShuffleThenSlice<T>(arr: seq<T>, k: int, picks: seq<int>)
    returns (r: seq<T>, ghost pos: seq<int>)
    requires ShufflePicks(|arr|, picks)
    ensures r == ShuffleDown(arr, picks, 0)[..SliceEnd(|arr|, k)]
    ensures |r| == SliceEnd(|arr|, k)
    ensures DrawnFrom(r, arr, pos)
    ensures multiset(r) <= multiset(arr)
    ensures |r| == |arr| ==> multiset(r) == multiset(arr)
  {
    var a := Copy(arr);
    ghost var perm := seq(|arr|, t => t);
    IdentityDrawn(arr);
    if a.Length > 0 {
      // i runs from a.Length - 1 down to 1
      for i := a.Length downto 1
        invariant a[..] == ShuffleDown(arr, picks, i)
        invariant DrawnFrom(a[..], arr, perm)
      {
        ShuffleDownStep(arr, picks, i, a[..]);
        perm := Swap(a, i, picks[i], arr, perm);
      }
    }
    assert a[..] == ShuffleDown(arr, picks, 0);
    var e := SliceEnd(a.Length, k);
    PrefixDrawn(a[..], arr, perm, e);
    r, pos := a[..e], perm[..e];
  }

  /** The number of elements `sampleUnique(arr, n)` returns:
      `Math.max(0, Math.min(n | 0, len))`. */
  function SampleCount(len: nat, n: int): (k: nat)
    ensures k <= len
    ensures 0 <= n <= len && n < 0x8000_0000 ==> k == n
    ensures len <= n < 0x8000_0000 ==> k == len
    ensures -0x8000_0000 <= n <= 0 ==> k == 0
  {
    var m := ToInt32(n);
    if m < 0 then 0 else if m < len then m else len
  }

  /** `sampleUnique(arr, n)`: nothing when the count is 0, the full shuffle
      when it is the whole pool, else a partial Fisher-Yates whose step `i`
      swaps place `i` with a place in [i, len). */
  method SampleUnique<T>(arr: seq<T>, n: int, picks: seq<int>)
    returns (r: seq<T>, ghost pos: seq<int>)
    requires SampleCount(|arr|, n) == |arr| ==> ShufflePicks(|arr|, picks)
    requires SampleCount(|arr|, n) < |arr| ==> PartialPicks(|arr|, SampleCount(|arr|, n), picks)
    ensures SampleCount(|arr|, n) == 0 ==> r == []
    ensures SampleCount(|arr|, n) == |arr| ==> r == ShuffleDown(arr, picks, 0)
    ensures 0 < SampleCount(|arr|, n) < |arr| ==>
      r == ShuffleUp(arr, picks, SampleCount(|arr|, n), SampleCount(|arr|, n))[..SampleCount(|arr|, n)]
    ensures |r| == SampleCount(|arr|, n)
    ensures DrawnFrom(r, arr, pos)
    ensures multiset(r) <= multiset(arr)
    ensures |r| == |arr| ==> multiset(r) == multiset(arr)
  {
    var len := |arr|;
    var k := SampleCount(len, n);
    if k == 0 {
      return [], [];
    }
    if k == len {
      r, pos := ShuffleThenSlice(arr, len, picks);
      return;
    }
    r, pos := PartialShuffle(arr, k, picks);
  }

  /** The partial Fisher-Yates of `sampleUnique` for a count `k` strictly
      between 0 and the pool size: `k` steps, then `slice(0, k)`. */
  method PartialShuffle<T>(arr: seq<T>, k: nat, picks: seq<int>)
    returns (r: seq<T>, ghost pos: seq<int>)
    requires k <= |arr| && PartialPicks(|arr|, k, picks)
    ensures r == ShuffleUp(arr, picks, k, k)[..k]
    ensures DrawnFrom(r, arr, pos)
    ensures multiset(r) <= multiset(arr)
  {
    var a := Copy(arr);
    ghost var perm := seq(|arr|, t => t);
    IdentityDrawn(arr);
    for i := 0 to k
      invariant a.Length == |arr|
      invariant a[..] == ShuffleUp(arr, picks, k, i)
      invariant DrawnFrom(a[..], arr, perm)
    {
      perm := PartialStep(a, k, i, arr, picks, perm);
    }
    PrefixDrawn(a[..], arr, perm, k);
    r, pos := a[..k], perm[..k];
  }

  /** Step `i` of the partial shuffle on the array. */
  method PartialStep<T>(a: array<T>, k: nat, i: nat, ghost arr: seq<T>, picks: seq<int>, ghost perm: seq<int>)
    returns (ghost perm': seq<int>)
    requires a.Length == |arr| && i < k <= |arr| && PartialPicks(|arr|, k, picks)
    requires a[..] == ShuffleUp(arr, picks, k, i) && DrawnFrom(a[..], arr, perm)
    modifies a
    ensures a[..] == ShuffleUp(arr, picks, k, i + 1) && DrawnFrom(a[..], arr, perm')
  {
    var j := i + picks[i];
    ShuffleUpStep(arr, picks, k, i, a[..], j);
    perm' := Swap(a, i, j, arr, perm);
  }
}
