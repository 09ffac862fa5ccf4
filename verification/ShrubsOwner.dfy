/** Which root owns a leaf, and which old leaves change owner when a batch is inserted
    (hydra-toolkit/src/shurbstree.rs). Indices are 1-based in the methods, as in the source,
    and 0-based in the specification. */
module ShrubsOwner {
  import opened Binary
  import opened ShrubsTree

  /** A root and the 1-based span of leaves below it. */
  datatype RootSpan = RootSpan(level: nat, left: nat, right: nat)

  /** Leaf `i` lies below the root kept on level `k`. */
  predicate Covers(n: nat, k: nat, i: nat) {
    k < Levels(n) && Half(i, k) == RootPos(n, k)
  }

  /** The least level whose root covers leaf `i`. */
  function OwnerLevel(i: nat, n: nat): nat
    requires i < n
    decreases n
  {
    if i == LastEven(n) then 0 else 1 + OwnerLevel(i / 2, n / 2)
  }

  function OwnerSpan(i: nat, n: nat): (r: RootSpan)
    requires i < n
  {
    OwnerIsLeast(i, n);
    var k := OwnerLevel(i, n);
    RootSpan(k, Start(k, RootPos(n, k)) + 1, Start(k, RootPos(n, k)) + Pow2(k))
  }

  /** Every leaf has an owner, and no lower root covers it. */
  lemma {:induction false} OwnerIsLeast(i: nat, n: nat)
    requires i < n
    ensures Covers(n, OwnerLevel(i, n), i)
    ensures forall k :: 0 <= k < OwnerLevel(i, n) ==> !Covers(n, k, i)
    decreases n
  {
    if i != LastEven(n) {
      OwnerIsLeast(i / 2, n / 2);
      forall k: nat
        ensures Covers(n, k + 1, i) <==> Covers(n / 2, k, i / 2)
      {
        CoversHalf(i, n, k);
      }
      assert !Covers(n, 0, i);
      forall k | 0 <= k < OwnerLevel(i, n)
        ensures !Covers(n, k, i)
      {
        if k > 0 {
          assert Covers(n, k - 1 + 1, i) <==> Covers(n / 2, k - 1, i / 2);
        }
      }
    }
  }

  lemma CoversHalf(i: nat, n: nat, k: nat)
    requires n > 0
    ensures Covers(n, k + 1, i) <==> Covers(n / 2, k, i / 2)
  {
    HalfOfHalf(i, k);
    HalfOfHalf(n, k);
  }

  /** The block arithmetic of the search loop: `layer_count = total / block_size`, and twice the
      block size is within the total unless `block_size > total / 2`. */
  lemma BlockArithmetic(total: nat, level: nat)
    ensures total / Pow2(level) == Half(total, level)
    ensures Pow2(level) <= total <==> level < Levels(total)
    ensures Pow2(level) > total / 2 <==> level + 1 >= Levels(total)
  {
    HalfIsDivision(total, level);
    PowerFits(total, level);
    PowerFits(total, level + 1);
  }

  lemma PowerFits(total: nat, level: nat)
    ensures Pow2(level) <= total <==> level < Levels(total)
  {
    if total > 0 {
      LevelsIsLog(total);
      if level < Levels(total) {
        Pow2Monotone(level, Levels(total) - 1);
      } else {
        Pow2Monotone(Levels(total), level);
      }
    }
  }

  /** The block tested on one level is the span of that level's root. */
  lemma TestedBlock(i: nat, total: nat, level: nat, blockSize: nat, rootBlock: nat)
    requires level < Levels(total) && blockSize == Pow2(level)
    requires rootBlock == (if (total / blockSize) % 2 == 1 then total / blockSize else total / blockSize - 1)
    ensures rootBlock == RootPos(total, level) + 1
    ensures (rootBlock - 1) * blockSize == Start(level, RootPos(total, level))
    ensures rootBlock * blockSize == Start(level, RootPos(total, level)) + blockSize <= total
    ensures (rootBlock - 1) * blockSize + 1 <= i + 1 <= rootBlock * blockSize <==> Covers(total, level, i)
  {
    BlockArithmetic(total, level);
    HalfPositive(total, level);
    var pos := RootPos(total, level);
    BlockFits(total, level, pos);
    InBlock(i, level, pos);
    StartNext(level, pos);
    StartIsProduct(level, pos);
    StartIsProduct(level, pos + 1);
    assert rootBlock == pos + 1;
  }

  /** The search of the source. It always returns from inside the loop: the `unreachable!` after
      it is dead, and `block_size` never exceeds `total`, so it cannot overflow a machine word. */
  method FindOwnerRoot(index: nat, total: nat) returns (r: RootSpan)
    requires 1 <= index <= total
    ensures r == OwnerSpan(index - 1, total)
    ensures r.left <= index <= r.right <= total
  {
    ghost var i := index - 1;
    OwnerIsLeast(i, total);
    BlockArithmetic(total, 0);
    var level, blockSize := 0, 1;
    while blockSize <= total
      invariant blockSize == Pow2(level) <= total
      invariant level <= OwnerLevel(i, total)
      decreases Levels(total) - level
    {
      BlockArithmetic(total, level);
      var layerCount := total / blockSize;
      if layerCount == 0 {
        break;
      }
      var rootBlock := if layerCount % 2 == 1 then layerCount else layerCount - 1;
      TestedBlock(i, total, level, blockSize, rootBlock);
      var left := (rootBlock - 1) * blockSize + 1;
      var right := rootBlock * blockSize;
      if left <= index <= right {
        assert level == OwnerLevel(i, total);
        return RootSpan(level, left, right);
      }
      if blockSize > total / 2 {
        break;
      }
      blockSize := blockSize * 2;
      level := level + 1;
    }
    assert false;
  }

  /** The owner's root is the Merkle hash of exactly the leaves of its span, and the span holds the leaf. */
  lemma {:induction false} OwnerSpanIsHashed(h: Hash, leaves: seq<Scalar>, i: nat)
    requires i < |leaves|
    ensures var s := OwnerSpan(i, |leaves|);
            && s.level < |Roots(h, leaves)| && 1 <= s.left <= i + 1 <= s.right <= |leaves|
            && s.right == s.left - 1 + Pow2(s.level)
            && Roots(h, leaves)[s.level] == MerkleHash(h, s.level, leaves[s.left - 1..s.right])
  {
    var s := OwnerSpan(i, |leaves|);
    OwnerIsLeast(i, |leaves|);
    InBlock(i, s.level, RootPos(|leaves|, s.level));
    RootsShape(h, leaves, s.level, s.left - 1);
  }

  // ----- which owners change

  /** Leaf `i` of `n` changes owner when the count grows to `n'`. */
  predicate OwnerChanges(i: nat, n: nat, n': nat)
    requires i < n <= n'
  {
    OwnerSpan(i, n) != OwnerSpan(i, n')
  }

  /** A root moves only to the right. */
  lemma RootPosMonotone(n: nat, n': nat, k: nat)
    requires n <= n' && k < Levels(n)
    ensures k < Levels(n') && RootPos(n, k) <= RootPos(n', k)
  {
    LevelsMonotone(n, n');
    HalfMonotone(n, n', k);
  }

  /** A leaf whose node is complete on a level has complete nodes on all levels below. */
  lemma {:induction false} CompleteBelow(i: nat, n: nat, m: nat, k: nat)
    requires m <= k && Half(i, k) < Half(n, k)
    ensures Half(i, m) < Half(n, m)
    decreases k
  {
    if m < k {
      CompleteBelow(i, n, m, k - 1);
    }
  }

  /** Below a root that covers a leaf, the roots have passed the leaf for good. */
  lemma PassedForGood(i: nat, n: nat, n': nat, m: nat, k: nat)
    requires i < n <= n' && m < k && Covers(n, k, i) && !Covers(n, m, i)
    ensures !Covers(n', m, i)
  {
    CompleteBelow(i, n, m, k);
    HalfPositive(n, m);
    RootPosMonotone(n, n', m);
  }

  /** The owner changes exactly when the node kept on the old owner's level has moved on, that is
      when the old owner node is no longer in the root list. */
  lemma OwnerChangesIff(i: nat, n: nat, n': nat)
    requires i < n <= n'
    ensures OwnerChanges(i, n, n') <==> !Covers(n', OwnerLevel(i, n), i)
    ensures OwnerChanges(i, n, n') <==> OwnerLevel(i, n) != OwnerLevel(i, n')
  {
    var k, k' := OwnerLevel(i, n), OwnerLevel(i, n');
    OwnerIsLeast(i, n);
    OwnerIsLeast(i, n');
    if Covers(n', k, i) {
      if k' < k {
        PassedForGood(i, n, n', k', k);
      }
      assert k == k';
    }
  }

  /** An owner that is the same at two counts was the same in between. */
  lemma OwnerNeverReturns(i: nat, a: nat, m: nat, n: nat)
    requires i < a <= m <= n && !OwnerChanges(i, a, n)
    ensures !OwnerChanges(i, a, m) && !OwnerChanges(i, m, n)
  {
    OwnerIsLeast(i, a);
    OwnerChangesIff(i, a, n);
    OwnerChangesIff(i, a, m);
    RootPosMonotone(a, m, OwnerLevel(i, a));
    RootPosMonotone(m, n, OwnerLevel(i, a));
  }

  /** The 1-based indices up to `upTo` whose owner changes, in ascending order. */
  function Affected(n: nat, n': nat, upTo: nat): seq<nat>
    requires upTo <= n <= n'
  {
    if upTo == 0 then []
    else if OwnerChanges(upTo - 1, n, n') then Affected(n, n', upTo - 1) + [upTo]
    else Affected(n, n', upTo - 1)
  }

  lemma {:induction false} AffectedMembers(n: nat, n': nat, upTo: nat)
    requires upTo <= n <= n'
    ensures forall x :: x in Affected(n, n', upTo) <==> 1 <= x <= upTo && OwnerChanges(x - 1, n, n')
    ensures forall a, b :: 0 <= a < b < |Affected(n, n', upTo)| ==>
                             Affected(n, n', upTo)[a] < Affected(n, n', upTo)[b]
  {
    if upTo > 0 {
      AffectedMembers(n, n', upTo - 1);
      var rest := Affected(n, n', upTo - 1);
      forall a | 0 <= a < |rest| ensures rest[a] < upTo {
        assert rest[a] in rest;
      }
      assert forall x :: x in rest + [upTo] <==> x in rest || x == upTo;
    }
  }

  /** The scan of the source: compare the owners of every old index before and after. */
  method AffectedIndices(oldTotal: nat, inserted: nat) returns (affected: seq<nat>)
    requires oldTotal > 0
    ensures affected == Affected(oldTotal, oldTotal + inserted, oldTotal)
  {
    if inserted == 0 {
      NothingAffected(oldTotal, oldTotal);
      return [];
    }
    var newTotal := oldTotal + inserted;
    affected := [];
    for index := 1 to oldTotal + 1
      invariant affected == Affected(oldTotal, newTotal, index - 1)
    {
      var oldRoot := FindOwnerRoot(index, oldTotal);
      var newRoot := FindOwnerRoot(index, newTotal);
      if oldRoot != newRoot {
        affected := affected + [index];
      }
    }
  }

  lemma {:induction false} NothingAffected(n: nat, upTo: nat)
    requires upTo <= n
    ensures Affected(n, n, upTo) == []
  {
    if upTo > 0 {
      NothingAffected(n, upTo - 1);
    }
  }
}
