/** The interval of a leaf (hydra-toolkit/src/shurbstree.rs): the leaves are cut into complete
    subtrees, largest first, and a path is searched inside the one that holds the leaf. */
module ShrubsInterval {
  import opened Binary
  import opened Wrappers
  import opened ShrubsTree
  import opened ShrubsOwner

  function FirstIndex(arr: seq<Scalar>, target: Scalar): (i: nat)
    requires target in arr
    ensures i < |arr| && arr[i] == target
  {
    if arr[0] == target then 0 else 1 + FirstIndex(arr[1..], target)
  }

  lemma {:induction false} FirstIndexIsFirst(arr: seq<Scalar>, target: Scalar, j: nat)
    requires j < |arr| && arr[j] == target
    ensures FirstIndex(arr, target) <= j
  {
    if arr[0] != target {
      FirstIndexIsFirst(arr[1..], target, j - 1);
    }
  }

  /** The power of two that leaf `i` falls under when `n` is split into its binary digits, highest
      first. */
  function IntervalLevel(i: nat, n: nat): nat
    requires i < n
    decreases n
  {
    if n % 2 == 1 && i == n - 1 then 0 else 1 + IntervalLevel(i / 2, n / 2)
  }

  /** The interval's level is a set bit of the count, and its block is the last complete one. */
  lemma {:induction false} IntervalIsLastBlock(i: nat, n: nat)
    requires i < n
    ensures Bit(n, IntervalLevel(i, n))
    ensures Half(i, IntervalLevel(i, n)) + 1 == Half(n, IntervalLevel(i, n))
    ensures IntervalLevel(i, n) < Levels(n)
    decreases n
  {
    if !(n % 2 == 1 && i == n - 1) {
      var k := IntervalLevel(i / 2, n / 2);
      IntervalIsLastBlock(i / 2, n / 2);
      HalfOfHalf(i, k);
      HalfOfHalf(n, k);
    }
  }

  lemma {:induction false} IntervalUnique(i: nat, n: nat, m: nat)
    requires i < n && Bit(n, m) && Half(i, m) + 1 == Half(n, m)
    ensures m == IntervalLevel(i, n)
    decreases n
  {
    if m > 0 {
      CompleteBelow(i, n, 1, m);
      HalfOfHalf(i, m - 1);
      HalfOfHalf(n, m - 1);
      assert Half(i, 1) == i / 2 && Half(n, 1) == n / 2;
      IntervalUnique(i / 2, n / 2, m - 1);
    }
  }

  /** First leaf of the interval of leaf `i`. */
  function IntervalStart(i: nat, n: nat): nat
    requires i < n
  {
    Start(IntervalLevel(i, n), Half(i, IntervalLevel(i, n)))
  }

  lemma IntervalHolds(i: nat, n: nat)
    requires i < n
    ensures IntervalStart(i, n) <= i < IntervalStart(i, n) + Pow2(IntervalLevel(i, n)) <= n
  {
    var d := IntervalLevel(i, n);
    IntervalIsLastBlock(i, n);
    BlockFits(n, d, Half(i, d));
    InBlock(i, d, Half(i, d));
  }

  /** The leaves of the interval that holds the first occurrence of `target`, and the index of the
      target in it; nothing when it is absent or alone in its interval. */
  function OwningInterval(arr: seq<Scalar>, target: Scalar): Option<(seq<Scalar>, nat)> {
    if target !in arr then None
    else
      var i := FirstIndex(arr, target);
      var d := IntervalLevel(i, |arr|);
      IntervalHolds(i, |arr|);
      var start := IntervalStart(i, |arr|);
      if d == 0 then None else Some((arr[start..start + Pow2(d)], i - start))
  }

  method LargestPowerTwoLeq(n: nat) returns (p: nat)
    requires n > 0
    ensures p == Pow2(Levels(n) - 1) && p <= n < 2 * p
  {
    p := 1;
    ghost var k := 0;
    BlockArithmetic(n, 0);
    while p <= n / 2
      invariant p == Pow2(k) <= n
      decreases n - p
    {
      p := p * 2;
      k := k + 1;
    }
    BlockArithmetic(n, k);
  }

  /** Between two set bits the digits are zero, so the start of the remainder stays put. */
  lemma {:induction false} SkipZeroDigits(n: nat, q: nat, m: nat)
    requires m <= q && n < Start(q, Half(n, q)) + Pow2(m)
    ensures Start(m, Half(n, m)) == Start(q, Half(n, q))
    decreases q
  {
    if m < q {
      StartNext(q - 1, 2 * Half(n, q));
      HalfInBlock(n, q - 1);
      Pow2Monotone(m, q - 1);
      assert Half(n, q - 1) == 2 * Half(n, q);
      SkipZeroDigits(n, q - 1, m);
    }
  }

  /** The block cut off next is the last complete block of the digit `m`. */
  lemma NextInterval(n: nat, q: nat, start: nat, remaining: nat) returns (m: nat)
    requires start == Start(q, Half(n, q)) && start + remaining == n
    requires 0 < remaining < Pow2(q)
    ensures m + 1 == Levels(remaining) && Pow2(m) <= remaining < 2 * Pow2(m)
    ensures Bit(n, m)
    ensures start == Start(m, Half(n, m) - 1)
    ensures start + Pow2(m) == Start(m, Half(n, m))
  {
    m := Levels(remaining) - 1;
    LevelsIsLog(remaining);
    if q <= m {
      Pow2Monotone(q, m);
    }
    SkipZeroDigits(n, q, m + 1);
    var a := Half(n, m + 1);
    StartNext(m, 2 * a);
    HalfInBlock(n, m);
    assert Half(n, m) == 2 * a || Half(n, m) == 2 * a + 1;
  }

  lemma FoundInterval(arr: seq<Scalar>, target: Scalar, m: nat, start: nat)
    requires target in arr && Bit(|arr|, m) && start == Start(m, Half(|arr|, m) - 1)
    requires start <= FirstIndex(arr, target) < start + Pow2(m) <= |arr|
    ensures OwningInterval(arr, target)
         == if Pow2(m) == 1 then None
            else Some((arr[start..start + Pow2(m)], FirstIndex(arr, target) - start))
  {
    var i := FirstIndex(arr, target);
    InBlock(i, m, Half(|arr|, m) - 1);
    IntervalUnique(i, |arr|, m);
    assert Pow2(m) == 1 <==> m == 0;
  }

  /** Linear search for the target, then cut off the largest powers of two until its interval is
      found. (The source's comment calls it a binary search in a sorted list; it is neither.) */
  method FindIntervalIndex(arr: seq<Scalar>, target: Scalar) returns (r: Option<(seq<Scalar>, nat)>)
    ensures r == OwningInterval(arr, target)
  {
    if arr == [] || target !in arr {
      return None;
    }
    var targetIndex := FirstIndex(arr, target);
    var start, remaining := 0, |arr|;
    ghost var q := Levels(|arr|);
    WholeInterval(|arr|);
    while remaining > 0
      invariant start + remaining == |arr|
      invariant start == Start(q, Half(|arr|, q)) <= targetIndex
      invariant remaining < Pow2(q)
    {
      var intervalLen := LargestPowerTwoLeq(remaining);
      var end := start + intervalLen;
      ghost var m := NextInterval(|arr|, q, start, remaining);
      assert intervalLen == Pow2(m);
      if start <= targetIndex < end {
        FoundInterval(arr, target, m, start);
        if intervalLen == 1 {
          return None;
        }
        return Some((arr[start..end], targetIndex - start));
      }
      start := end;
      remaining := remaining - intervalLen;
      q := m;
    }
    assert false;
  }

  lemma WholeInterval(n: nat)
    requires n > 0
    ensures Start(Levels(n), Half(n, Levels(n))) == 0
    ensures n < Pow2(Levels(n))
  {
    LevelsIsLog(n);
    HalfPositive(n, Levels(n));
    StartZero(Levels(n));
  }
}
