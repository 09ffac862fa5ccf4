/** Repeated halving, powers of two and binary digits: the index arithmetic under the
    shrubs accumulator. `Half(n, k)` is floor(n / 2^k), written as a recursion so that the
    proofs about tree levels stay linear; `HalfIsDivision` ties it to the division the
    source performs with `block_size`. */
module Binary {

  function Pow2(k: nat): (p: nat)
    ensures p >= 1
  {
    if k == 0 then 1 else 2 * Pow2(k - 1)
  }

  /** The number of complete nodes on level `k` above `n` leaves. */
  function Half(n: nat, k: nat): nat {
    if k == 0 then n else Half(n, k - 1) / 2
  }

  /** The number of levels that hold at least one complete node: floor(log2 n) + 1. */
  function Levels(n: nat): nat {
    if n == 0 then 0 else 1 + Levels(n / 2)
  }

  /** The last even position of a level with `n` nodes. */
  function LastEven(n: nat): (p: nat)
    requires n > 0
    ensures p < n && p % 2 == 0 && n <= p + 2
  {
    if n % 2 == 0 then n - 2 else n - 1
  }

  predicate Bit(n: nat, k: nat) {
    Half(n, k) % 2 == 1
  }

  lemma {:induction false} HalfOfHalf(n: nat, k: nat)
    ensures Half(n / 2, k) == Half(n, k + 1)
  {
    if k > 0 {
      HalfOfHalf(n, k - 1);
    }
  }

  lemma {:induction false} HalfMonotone(m: nat, n: nat, k: nat)
    requires m <= n
    ensures Half(m, k) <= Half(n, k)
  {
    if k > 0 {
      HalfMonotone(m, n, k - 1);
    }
  }

  lemma {:induction false} HalfPositive(n: nat, k: nat)
    ensures Half(n, k) > 0 <==> k < Levels(n)
    decreases k
  {
    if k > 0 {
      HalfOfHalf(n, k - 1);
      HalfPositive(n / 2, k - 1);
      if n == 0 {
        assert Levels(n / 2) == 0;
      }
    }
  }

  lemma {:induction false} LevelsMonotone(m: nat, n: nat)
    requires m <= n
    ensures Levels(m) <= Levels(n)
  {
    if m > 0 {
      LevelsMonotone(m / 2, n / 2);
    }
  }

  /** Two counts that agree on level `k` have the same levels from `k` on. */
  lemma {:induction false} LevelsAgree(m: nat, n: nat, k: nat)
    requires 0 < Half(m, k) == Half(n, k)
    ensures Levels(m) == Levels(n)
    decreases k
  {
    if k > 0 {
      HalfOfHalf(m, k - 1);
      HalfOfHalf(n, k - 1);
      HalfPositive(m, k);
      HalfPositive(n, k);
      LevelsAgree(m / 2, n / 2, k - 1);
    }
  }

  lemma {:induction false} HalfAgree(m: nat, n: nat, k: nat, j: nat)
    requires Half(m, k) == Half(n, k) && k <= j
    ensures Half(m, j) == Half(n, j)
    decreases j
  {
    if k < j {
      HalfAgree(m, n, k, j - 1);
    }
  }

  // ----- blocks of 2^level consecutive numbers

  /** The first number of block `pos` of width 2^level: pos * 2^level, without a product. */
  function Start(level: nat, pos: nat): nat {
    if level == 0 then pos else Start(level - 1, 2 * pos)
  }

  lemma {:induction false} StartNext(level: nat, pos: nat)
    ensures Start(level, pos + 1) == Start(level, pos) + Pow2(level)
  {
    if level > 0 {
      StartNext(level - 1, 2 * pos);
      StartNext(level - 1, 2 * pos + 1);
    }
  }

  lemma {:induction false} StartMonotone(level: nat, a: nat, b: nat)
    requires a < b
    ensures Start(level, a) + Pow2(level) <= Start(level, b)
    decreases b
  {
    StartNext(level, b - 1);
    if a < b - 1 {
      StartMonotone(level, a, b - 1);
    }
  }

  lemma {:induction false} StartIsProduct(level: nat, pos: nat)
    ensures Start(level, pos) == pos * Pow2(level)
    decreases level
  {
    if level > 0 {
      StartIsProduct(level - 1, 2 * pos);
      assert pos * (2 * Pow2(level - 1)) == 2 * pos * Pow2(level - 1);
    }
  }

  lemma {:induction false} StartZero(level: nat)
    ensures Start(level, 0) == 0
  {
    if level > 0 {
      StartZero(level - 1);
    }
  }

  lemma {:induction false} HalfInBlock(n: nat, k: nat)
    ensures Start(k, Half(n, k)) <= n < Start(k, Half(n, k)) + Pow2(k)
  {
    if k > 0 {
      HalfInBlock(n, k - 1);
      StartNext(k - 1, 2 * Half(n, k));
    }
  }

  /** A number lies in block `pos` exactly when halving it `k` times gives `pos`. */
  lemma InBlock(n: nat, k: nat, pos: nat)
    ensures Start(k, pos) <= n < Start(k, pos) + Pow2(k) <==> Half(n, k) == pos
  {
    HalfInBlock(n, k);
    if Half(n, k) < pos {
      StartMonotone(k, Half(n, k), pos);
    } else if pos < Half(n, k) {
      StartMonotone(k, pos, Half(n, k));
    }
  }

  /** Complete blocks end within the count. */
  lemma BlockFits(n: nat, level: nat, pos: nat)
    requires pos < Half(n, level)
    ensures Start(level, pos) + Pow2(level) <= n
  {
    HalfInBlock(n, level);
    StartMonotone(level, pos, Half(n, level));
  }

  lemma HalfIsDivision(n: nat, k: nat)
    ensures Half(n, k) == n / Pow2(k)
  {
    HalfInBlock(n, k);
    StartNext(k, Half(n, k));
    StartIsProduct(k, Half(n, k));
    StartIsProduct(k, Half(n, k) + 1);
    DivisionUnique(n, Pow2(k), Half(n, k));
  }

  lemma DivisionUnique(n: nat, d: nat, q: nat)
    requires d > 0 && q * d <= n < (q + 1) * d
    ensures q == n / d
  {
    var t := n / d - q;
    assert t * d == (n / d) * d - q * d;
    assert (q + 1) * d == q * d + d;
    MultipleIsFar(t, d);
  }

  lemma {:induction false} MultipleIsFar(t: int, d: int)
    requires d > 0
    ensures t > 0 ==> t * d >= d
    ensures t < 0 ==> t * d <= -d
    decreases if t < 0 then -t else t
  {
    if t > 1 {
      MultipleIsFar(t - 1, d);
      assert t * d == (t - 1) * d + d;
    } else if t < -1 {
      MultipleIsFar(t + 1, d);
      assert t * d == (t + 1) * d - d;
    }
  }

  /** `Levels(n)` is floor(log2 n) + 1. */
  lemma {:induction false} LevelsIsLog(n: nat)
    requires n > 0
    ensures Pow2(Levels(n) - 1) <= n < Pow2(Levels(n))
  {
    if n > 1 {
      LevelsIsLog(n / 2);
    }
  }

  lemma {:induction false} Pow2Monotone(j: nat, k: nat)
    requires j <= k
    ensures Pow2(j) <= Pow2(k)
    decreases k
  {
    if j < k {
      Pow2Monotone(j, k - 1);
    }
  }

  // ----- the machine-word operations of exponents_of_two

  /** Bitwise and. */
  function And(x: nat, y: nat): nat {
    if x == 0 || y == 0 then 0
    else (if x % 2 == 1 && y % 2 == 1 then 1 else 0) + 2 * And(x / 2, y / 2)
  }

  function TrailingZeros(x: nat): nat
    requires x > 0
  {
    if x % 2 == 1 then 0 else 1 + TrailingZeros(x / 2)
  }

  lemma {:induction false} AndIdempotent(x: nat)
    ensures And(x, x) == x
  {
    if x > 0 {
      AndIdempotent(x / 2);
    }
  }

  /** `x & (x - 1)` clears exactly the lowest set bit. */
  lemma {:induction false} ClearLowestBit(x: nat)
    requires x > 0
    ensures And(x, x - 1) + Pow2(TrailingZeros(x)) == x
  {
    if x % 2 == 1 {
      AndIdempotent(x / 2);
    } else {
      ClearLowestBit(x / 2);
      assert (x - 1) / 2 == x / 2 - 1;
    }
  }

  lemma {:induction false} ClearLowestBitBits(x: nat, k: nat)
    requires x > 0
    ensures Bit(And(x, x - 1), k) <==> Bit(x, k) && k != TrailingZeros(x)
    ensures Bit(x, k) ==> TrailingZeros(x) <= k
    decreases x
  {
    ClearLowestBit(x);
    if k == 0 {
      assert And(x, x - 1) % 2 == 0;
    } else {
      HalfOfHalf(x, k - 1);
      HalfOfHalf(And(x, x - 1), k - 1);
      if x % 2 == 1 {
        assert And(x, x - 1) == x - 1;
        assert (x - 1) / 2 == x / 2;
      } else {
        assert (x - 1) / 2 == x / 2 - 1;
        assert And(x, x - 1) == 2 * And(x / 2, x / 2 - 1);
        ClearLowestBitBits(x / 2, k - 1);
      }
    }
  }

  lemma {:induction false} LowestBitIsSet(x: nat)
    requires x > 0
    ensures Bit(x, TrailingZeros(x))
  {
    if x % 2 == 0 {
      LowestBitIsSet(x / 2);
      HalfOfHalf(x, TrailingZeros(x / 2));
    }
  }

  function SumOfPowers(exps: seq<nat>): nat {
    if exps == [] then 0 else SumOfPowers(exps[..|exps| - 1]) + Pow2(exps[|exps| - 1])
  }

  /** `exps` lists the set bits of `n`, each once, in ascending order. */
  ghost predicate AreExponentsOf(exps: seq<nat>, n: nat) {
    && (forall i, j :: 0 <= i < j < |exps| ==> exps[i] < exps[j])
    && (forall e: nat :: e in exps <==> Bit(n, e))
  }

  /** The first `ll` exponents are at most `level`, the others are above it. */
  predicate ConsumedUpTo(exps: seq<nat>, ll: nat, level: nat) {
    && ll <= |exps|
    && (forall i :: 0 <= i < ll ==> exps[i] <= level)
    && (forall i :: ll <= i < |exps| ==> exps[i] > level)
  }

  /** The set bits of `n`, lowest first, cleared one after the other. */
  function Exponents(n: nat): (exps: seq<nat>)
  {
    if n == 0 then []
    else
      ClearLowestBit(n);
      [TrailingZeros(n)] + Exponents(And(n, n - 1))
  }

  lemma {:induction false} ExponentsMembers(n: nat, e: nat)
    ensures e in Exponents(n) <==> Bit(n, e)
  {
    if n == 0 {
      HalfPositive(0, e);
    } else {
      ClearLowestBit(n);
      ClearLowestBitBits(n, e);
      LowestBitIsSet(n);
      ExponentsMembers(And(n, n - 1), e);
    }
  }

  lemma {:induction false} ExponentsAscend(n: nat)
    ensures forall i, j :: 0 <= i < j < |Exponents(n)| ==> Exponents(n)[i] < Exponents(n)[j]
  {
    if n > 0 {
      var rest := And(n, n - 1);
      ClearLowestBit(n);
      ExponentsAscend(rest);
      forall j | 0 <= j < |Exponents(rest)| ensures TrailingZeros(n) < Exponents(rest)[j] {
        ExponentsMembers(rest, Exponents(rest)[j]);
        ClearLowestBitBits(n, Exponents(rest)[j]);
      }
    }
  }

  lemma {:induction false} ExponentsSum(n: nat)
    ensures SumOfPowers(Exponents(n)) == n
  {
    if n > 0 {
      ClearLowestBit(n);
      ExponentsSum(And(n, n - 1));
      SumOfCons(TrailingZeros(n), Exponents(And(n, n - 1)));
    }
  }

  lemma ExponentsAreBits(n: nat)
    ensures AreExponentsOf(Exponents(n), n)
  {
    ExponentsAscend(n);
    forall e: nat ensures e in Exponents(n) <==> Bit(n, e) {
      ExponentsMembers(n, e);
    }
  }

  lemma {:induction false} SumOfCons(e: nat, exps: seq<nat>)
    ensures SumOfPowers([e] + exps) == Pow2(e) + SumOfPowers(exps)
  {
    if exps != [] {
      SumOfCons(e, exps[..|exps| - 1]);
      assert ([e] + exps)[..|exps|] == [e] + exps[..|exps| - 1];
    }
  }

  /** The source's loop: push the number of trailing zeros, clear that bit. */
  method ExponentsOfTwo(n: nat) returns (exps: seq<nat>)
    ensures exps == Exponents(n)
    ensures AreExponentsOf(exps, n)
    ensures SumOfPowers(exps) == n
  {
    exps := [];
    var x := n;
    while x != 0
      invariant exps + Exponents(x) == Exponents(n)
      decreases x
    {
      ClearLowestBit(x);
      exps := exps + [TrailingZeros(x)];
      x := And(x, x - 1);
    }
    ExponentsAreBits(n);
    ExponentsSum(n);
  }

  /** The test `ll < exps.len() && k + 2 == exps[ll]` of the insertion reads the next bit. */
  lemma NextExponent(exps: seq<nat>, n: nat, ll: nat, level: nat)
    requires AreExponentsOf(exps, n) && ConsumedUpTo(exps, ll, level)
    ensures (ll < |exps| && exps[ll] == level + 1) <==> Bit(n, level + 1)
    ensures ConsumedUpTo(exps, if Bit(n, level + 1) then ll + 1 else ll, level + 1)
  {
    if Bit(n, level + 1) {
      var i :| 0 <= i < |exps| && exps[i] == level + 1;
      assert exps[ll] <= exps[i];
    } else if ll < |exps| {
      assert exps[ll] in exps;
    }
  }
}
