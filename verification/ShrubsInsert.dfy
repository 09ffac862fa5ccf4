/** Growing the accumulator (hydra-toolkit/src/shurbstree.rs and lib.rs). `InsertLevels` and
    `InsertBatch` compute the incremental update from the root list and the old leaf count alone,
    panics included; `RootList` is the vector the source updates in place. Both are proved equal to
    building the list from scratch. */
module ShrubsInsert {
  import opened Wrappers
  import opened Binary
  import opened ShrubsTree

  // ----- the incremental update

  /** The source's recursion from level `level` upward, `ll` exponents of the old count passed.
      Nothing where the source panics: on an empty `vect`, and on a root that is not there. */
  function InsertLevels(h: Hash, items: seq<Scalar>, vect: seq<Scalar>, level: nat, exps: seq<nat>, ll: nat)
    : (r: Option<seq<Scalar>>)
    ensures r.Some? ==> r.value != []
    decreases if ll < |exps| then |exps| - ll else 0, |vect|
  {
    var takesRoot := ll < |exps| && exps[ll] == level + 1;
    if vect == [] || (takesRoot && level + 1 >= |items|) then None
    else
      var temp := (if takesRoot then [items[level + 1]] else []) + Pairs(h, vect);
      var root := vect[LastEven(|vect|)];
      var items' := if |items| > level then items[level := root] else items + [root];
      if temp == [] then Some(items')
      else InsertLevels(h, items', temp, level + 1, exps, if takesRoot then ll + 1 else ll)
  }

  /** Inserting a batch into the list of `n` old leaves; the old leaves themselves are not needed. */
  function InsertBatch(h: Hash, items: seq<Scalar>, n: nat, batch: seq<Scalar>): Option<seq<Scalar>> {
    var exps := Exponents(n);
    if exps == [] then None
    else if exps[0] > 0 then InsertLevels(h, items, batch, 0, exps, 0)
    else if items == [] then None
    else InsertLevels(h, items, [items[0]] + batch, 0, exps, 1)
  }

  // ----- frontiers

  /** Where the batch starts to matter on a level whose old part has `n` leaves below it. */
  function Skip(n: nat, level: nat): (s: nat)
    ensures s <= Half(n, level) && s % 2 == 0
  {
    Half(n, level) / 2 * 2
  }

  /** The nodes of a level that are new, or the left neighbour of a new one. */
  function Frontier(h: Hash, prior: seq<Scalar>, batch: seq<Scalar>, level: nat): (r: seq<Scalar>)
    ensures |r| == Half(|prior + batch|, level) - Skip(|prior|, level)
  {
    HalfMonotone(|prior|, |prior + batch|, level);
    Layer(h, prior + batch, level)[Skip(|prior|, level)..]
  }

  /** Hashing the pairs of a frontier, behind the old root when the old count has that bit,
      gives the next frontier. */
  lemma {:induction false} FrontierStep(h: Hash, prior: seq<Scalar>, batch: seq<Scalar>, level: nat)
    ensures Bit(|prior|, level + 1) ==> level + 1 < Levels(|prior|)
    ensures Frontier(h, prior, batch, level + 1)
         == (if Bit(|prior|, level + 1) then [Roots(h, prior)[level + 1]] else [])
            + Pairs(h, Frontier(h, prior, batch, level))
  {
    PairsOfFrontier(h, prior, batch, level);
    var m, skip := Half(|prior|, level + 1), Skip(|prior|, level + 1);
    var layer := Layer(h, prior + batch, level + 1);
    SplitSuffix(layer, skip, m);
    if Bit(|prior|, level + 1) {
      OldRootAtFrontier(h, prior, batch, level + 1);
    } else {
      assert skip == m;
      assert layer[skip..m] == [];
    }
  }

  lemma SplitSuffix<T>(s: seq<T>, a: nat, m: nat)
    requires a <= m <= |s|
    ensures s[a..] == s[a..m] + s[m..]
  {
  }

  lemma OldRootAtFrontier(h: Hash, prior: seq<Scalar>, batch: seq<Scalar>, level: nat)
    requires Bit(|prior|, level)
    ensures level < Levels(|prior|)
    ensures Half(|prior|, level) <= Half(|prior + batch|, level)
    ensures Layer(h, prior + batch, level)[Skip(|prior|, level)..Half(|prior|, level)]
         == [Roots(h, prior)[level]]
  {
    HalfPositive(|prior|, level);
    NodeOfPrefix(h, prior, batch, level, RootPos(|prior|, level));
    LayerAt(h, prior + batch, level, RootPos(|prior|, level));
    RootAt(h, prior, level);
  }

  lemma PairsOfFrontier(h: Hash, prior: seq<Scalar>, batch: seq<Scalar>, level: nat)
    ensures Half(|prior|, level + 1) <= Half(|prior + batch|, level + 1)
    ensures Pairs(h, Frontier(h, prior, batch, level))
         == Layer(h, prior + batch, level + 1)[Half(|prior|, level + 1)..]
  {
    HalfMonotone(|prior|, |prior + batch|, level + 1);
    PairsOfSuffix(h, Layer(h, prior + batch, level), Half(|prior|, level + 1));
  }

  lemma {:induction false} PairsOfSuffix(h: Hash, layer: seq<Scalar>, m: nat)
    requires 2 * m <= |layer|
    ensures Pairs(h, layer[2 * m..]) == Pairs(h, layer)[m..]
    decreases m
  {
    if m > 0 {
      PairsOfSuffix(h, layer[2..], m - 1);
      assert layer[2..][2 * (m - 1)..] == layer[2 * m..];
    }
  }

  /** The last even element of the frontier is the new root of its level. */
  lemma FrontierRoot(h: Hash, prior: seq<Scalar>, batch: seq<Scalar>, level: nat)
    requires Frontier(h, prior, batch, level) != []
    ensures level < Levels(|prior + batch|)
    ensures Frontier(h, prior, batch, level)[LastEven(|Frontier(h, prior, batch, level)|)]
         == Roots(h, prior + batch)[level]
  {
    var n := |prior + batch|;
    HalfPositive(n, level);
    SuffixLastEven(Layer(h, prior + batch, level), Skip(|prior|, level));
    LayerAt(h, prior + batch, level, RootPos(n, level));
    RootAt(h, prior + batch, level);
  }

  lemma SuffixLastEven(s: seq<Scalar>, skip: nat)
    requires skip < |s| && skip % 2 == 0
    ensures s[skip..][LastEven(|s[skip..]|)] == s[LastEven(|s|)]
  {
    assert skip + LastEven(|s| - skip) == LastEven(|s|);
  }

  /** Once no frontier is left, the remaining old roots are also the new ones. */
  lemma RootsAboveFrontier(h: Hash, prior: seq<Scalar>, batch: seq<Scalar>, level: nat)
    requires Frontier(h, prior, batch, level) == []
    ensures level < Levels(|prior|) ==> Levels(|prior + batch|) == Levels(|prior|)
    ensures level >= Levels(|prior|) ==> Levels(|prior + batch|) <= level
    ensures forall j :: level <= j < Levels(|prior + batch|) ==>
              j < Levels(|prior|) && Roots(h, prior)[j] == Roots(h, prior + batch)[j]
  {
    var n, n' := |prior|, |prior + batch|;
    HalfMonotone(n, n', level);
    assert Half(n, level) == Half(n', level);
    HalfPositive(n, level);
    HalfPositive(n', level);
    if level < Levels(n) {
      LevelsAgree(n, n', level);
    }
    forall j | level <= j < Levels(n')
      ensures j < Levels(n) && Roots(h, prior)[j] == Roots(h, prior + batch)[j]
    {
      HalfAgree(n, n', level, j);
      HalfPositive(n, j);
      HalfPositive(n', j);
      NodeOfPrefix(h, prior, batch, j, RootPos(n, j));
      RootAt(h, prior, j);
      RootAt(h, prior + batch, j);
    }
  }

  /** The list while a level is being inserted: new below `level`, old from there on. */
  ghost predicate Mixed(h: Hash, items: seq<Scalar>, prior: seq<Scalar>, batch: seq<Scalar>, level: nat)
    requires level <= Levels(|prior + batch|)
  {
    && |items| == (if level <= Levels(|prior|) then Levels(|prior|) else level)
    && (forall j :: 0 <= j < level ==> items[j] == Roots(h, prior + batch)[j])
    && (forall j :: level <= j < |items| ==> items[j] == Roots(h, prior)[j])
  }

  /** What `temp` holds after a level: the old root at the next set bit, then the hashed pairs. */
  lemma NextVect(h: Hash, items: seq<Scalar>, prior: seq<Scalar>, batch: seq<Scalar>, level: nat)
    requires level <= Levels(|prior + batch|) && Mixed(h, items, prior, batch, level)
    ensures Bit(|prior|, level + 1) ==> level + 1 < |items|
    ensures (if Bit(|prior|, level + 1) then [items[level + 1]] else [])
            + Pairs(h, Frontier(h, prior, batch, level))
         == Frontier(h, prior, batch, level + 1)
  {
    FrontierStep(h, prior, batch, level);
  }

  /** Overwriting or appending the entry of `level` finishes that level. */
  lemma WriteKeepsMixed(h: Hash, items: seq<Scalar>, prior: seq<Scalar>, batch: seq<Scalar>, level: nat, root: Scalar)
    requires level < Levels(|prior + batch|) && Mixed(h, items, prior, batch, level)
    requires root == Roots(h, prior + batch)[level]
    ensures level <= |items|
    ensures Mixed(h, if |items| > level then items[level := root] else items + [root], prior, batch, level + 1)
  {
  }

  lemma MixedDone(h: Hash, items: seq<Scalar>, prior: seq<Scalar>, batch: seq<Scalar>, level: nat)
    requires level <= Levels(|prior + batch|) && Mixed(h, items, prior, batch, level)
    requires Frontier(h, prior, batch, level) == []
    ensures items == Roots(h, prior + batch)
  {
    RootsAboveFrontier(h, prior, batch, level);
  }

  /** The batch, behind the last old leaf when the old count is odd. */
  lemma FirstFrontier(h: Hash, prior: seq<Scalar>, batch: seq<Scalar>)
    requires prior != []
    ensures Frontier(h, prior, batch, 0)
         == (if |prior| % 2 == 1 then [Roots(h, prior)[0]] else []) + batch
    ensures Mixed(h, Roots(h, prior), prior, batch, 0)
  {
    RootAt(h, prior, 0);
  }

  /** The state of the insertion on entering a level: its frontier is at hand, the list is new
      below the level, and the exponents up to the level have been passed. */
  ghost predicate Inserting(h: Hash, items: seq<Scalar>, vect: seq<Scalar>, level: nat, exps: seq<nat>, ll: nat,
                            prior: seq<Scalar>, batch: seq<Scalar>)
  {
    && vect != [] && vect == Frontier(h, prior, batch, level)
    && AreExponentsOf(exps, |prior|) && ConsumedUpTo(exps, ll, level)
    && level <= Levels(|prior + batch|) && Mixed(h, items, prior, batch, level)
  }

  /** The entries an insertion step reads exist. */
  lemma InsertInRange(h: Hash, items: seq<Scalar>, vect: seq<Scalar>, level: nat, exps: seq<nat>, ll: nat,
                      prior: seq<Scalar>, batch: seq<Scalar>)
    requires Inserting(h, items, vect, level, exps, ll, prior, batch)
    ensures ll < |exps| && exps[ll] == level + 1 ==> level + 1 < |items|
  {
    NextExponent(exps, |prior|, ll, level);
    NextVect(h, items, prior, batch, level);
  }

  /** One level of the insertion keeps that state, or ends with the rebuilt list. */
  lemma {:induction false} InsertStep(h: Hash, items: seq<Scalar>, vect: seq<Scalar>, level: nat, exps: seq<nat>,
                                      ll: nat, prior: seq<Scalar>, batch: seq<Scalar>, temp: seq<Scalar>,
                                      items': seq<Scalar>)
    requires Inserting(h, items, vect, level, exps, ll, prior, batch)
    requires ll < |exps| && exps[ll] == level + 1 ==> level + 1 < |items|
    requires temp == (if ll < |exps| && exps[ll] == level + 1 then [items[level + 1]] else []) + Pairs(h, vect)
    requires items' == (if |items| > level then items[level := vect[LastEven(|vect|)]]
                        else items + [vect[LastEven(|vect|)]])
    ensures temp == [] ==> items' == Roots(h, prior + batch)
    ensures temp != [] ==>
              Inserting(h, items', temp, level + 1, exps,
                        if ll < |exps| && exps[ll] == level + 1 then ll + 1 else ll, prior, batch)
  {
    NextExponent(exps, |prior|, ll, level);
    NextVect(h, items, prior, batch, level);
    FrontierRoot(h, prior, batch, level);
    WriteKeepsMixed(h, items, prior, batch, level, vect[LastEven(|vect|)]);
    if temp == [] {
      MixedDone(h, items', prior, batch, level + 1);
    }
  }

  lemma LowestExponent(exps: seq<nat>, n: nat)
    requires n > 0 && AreExponentsOf(exps, n)
    ensures exps != []
    ensures exps[0] == 0 <==> n % 2 == 1
    ensures ConsumedUpTo(exps, if n % 2 == 1 then 1 else 0, 0)
  {
    LowestBitIsSet(n);
    assert TrailingZeros(n) in exps;
    assert Bit(n, 0) <==> n % 2 == 1;
    if n % 2 == 1 {
      assert 0 in exps;
    } else {
      assert 0 !in exps;
    }
  }

  lemma {:induction false} InsertLevelsRebuilds(h: Hash, items: seq<Scalar>, vect: seq<Scalar>, level: nat,
                                                exps: seq<nat>, ll: nat, prior: seq<Scalar>, batch: seq<Scalar>)
    requires Inserting(h, items, vect, level, exps, ll, prior, batch)
    ensures InsertLevels(h, items, vect, level, exps, ll) == Some(Roots(h, prior + batch))
    decreases if ll < |exps| then |exps| - ll else 0, |vect|
  {
    InsertInRange(h, items, vect, level, exps, ll, prior, batch);
    var takesRoot := ll < |exps| && exps[ll] == level + 1;
    var temp := (if takesRoot then [items[level + 1]] else []) + Pairs(h, vect);
    var root := vect[LastEven(|vect|)];
    var items' := if |items| > level then items[level := root] else items + [root];
    InsertStep(h, items, vect, level, exps, ll, prior, batch, temp, items');
    if temp != [] {
      InsertLevelsRebuilds(h, items', temp, level + 1, exps, if takesRoot then ll + 1 else ll, prior, batch);
    }
  }

  /** Incremental insertion equals rebuild, and panics exactly without old leaves, and on an empty
      batch behind an even count. */
  lemma {:induction false} InsertBatchRebuilds(h: Hash, prior: seq<Scalar>, batch: seq<Scalar>)
    ensures InsertBatch(h, Roots(h, prior), |prior|, batch)
         == if prior == [] || (batch == [] && |prior| % 2 == 0) then None else Some(Roots(h, prior + batch))
  {
    if prior != [] {
      var exps := Exponents(|prior|);
      ExponentsAreBits(|prior|);
      LowestExponent(exps, |prior|);
      LevelsMonotone(|prior|, |prior + batch|);
      FirstFrontier(h, prior, batch);
      if |prior| % 2 == 1 {
        InsertLevelsRebuilds(h, Roots(h, prior), [Roots(h, prior)[0]] + batch, 0, exps, 1, prior, batch);
      } else if batch != [] {
        InsertLevelsRebuilds(h, Roots(h, prior), batch, 0, exps, 0, prior, batch);
      }
    }
  }

  /** Any number of batches, one after the other. */
  function InsertBatches(h: Hash, items: seq<Scalar>, n: nat, batches: seq<seq<Scalar>>): Option<seq<Scalar>>
    decreases |batches|
  {
    if batches == [] then Some(items)
    else
      match InsertBatch(h, items, n, batches[0])
      case None => None
      case Some(items') => InsertBatches(h, items', n + |batches[0]|, batches[1..])
  }

  function Flatten(batches: seq<seq<Scalar>>): seq<Scalar> {
    if batches == [] then [] else batches[0] + Flatten(batches[1..])
  }

  predicate NoneEmpty(batches: seq<seq<Scalar>>) {
    batches != [] ==> batches[0] != [] && NoneEmpty(batches[1..])
  }

  lemma OneThenRest(h: Hash, items: seq<Scalar>, n: nat, batches: seq<seq<Scalar>>, items': seq<Scalar>)
    requires batches != [] && InsertBatch(h, items, n, batches[0]) == Some(items')
    ensures InsertBatches(h, items, n, batches) == InsertBatches(h, items', n + |batches[0]|, batches[1..])
  {
  }

  lemma NextBatch(h: Hash, first: seq<Scalar>, batch: seq<Scalar>)
    requires first != [] && batch != []
    ensures InsertBatch(h, Roots(h, first), |first|, batch) == Some(Roots(h, first + batch))
    ensures |first + batch| == |first| + |batch| > 0
  {
    InsertBatchRebuilds(h, first, batch);
  }

  /** However the leaves are cut into batches, inserting them one batch after the other ends with the
      list built from scratch. */
  lemma {:induction false} BatchesRebuild(h: Hash, first: seq<Scalar>, batches: seq<seq<Scalar>>)
    requires first != [] && NoneEmpty(batches)
    ensures InsertBatches(h, Roots(h, first), |first|, batches) == Some(Roots(h, first + Flatten(batches)))
    decreases |batches|
  {
    if batches == [] {
      assert first + [] == first;
    } else {
      var batch, later := batches[0], batches[1..];
      assert InsertBatches(h, Roots(h, first), |first|, batches)
          == InsertBatches(h, Roots(h, first + batch), |first + batch|, later) by {
        NextBatch(h, first, batch);
        OneThenRest(h, Roots(h, first), |first|, batches, Roots(h, first + batch));
      }
      BatchesRebuild(h, first + batch, later);
      assert first + batch + Flatten(later) == first + Flatten(batches) by {
        Associate(first, batch, Flatten(later));
      }
    }
  }

  /** The `Vec<BlsScalar>` of roots that the source passes around as `&mut`. */
  class RootList {
    var items: seq<Scalar>

    constructor ()
      ensures items == []
    {
      items := [];
    }

    /** Build from scratch: push the last even element, recurse on the hashed pairs. */
    method CreateBatchDevices(h: Hash, leaves: seq<Scalar>)
      modifies this
      ensures items == old(items) + Roots(h, leaves)
      decreases |leaves|
    {
      var len := |leaves|;
      if len == 0 {
        return;
      }
      var temp := Pairs(h, leaves);
      var last := if len % 2 == 0 then len - 2 else len - 1;
      RootsUnfold(h, leaves);
      items := items + [leaves[last]];
      if temp != [] {
        CreateBatchDevices(h, temp);
      }
    }

    /** Insert what reaches one level, and recurse. `k` is the level below the current one, `ll` the
        number of exponents already passed. */
    method InsertShrubsTree(h: Hash, vect: seq<Scalar>, k: int, exps: seq<nat>, ll: nat)
      requires k >= -1
      requires InsertLevels(h, items, vect, k + 1, exps, ll).Some?
      modifies this
      ensures Some(items) == InsertLevels(h, old(items), vect, k + 1, exps, ll)
      decreases if ll < |exps| then |exps| - ll else 0, |vect|
    {
      var shouldInsertRoot := ll < |exps| && k + 2 == exps[ll];
      var ll', temp := ll, [];
      if shouldInsertRoot {
        ll', temp := ll + 1, [items[k + 2]];
      }
      temp := temp + Pairs(h, vect);
      var last := |vect| - (if |vect| % 2 == 0 then 2 else 1);
      var k' := k + 1;
      if |items| > k' {
        items := items[k' := vect[last]];
      } else {
        items := items + [vect[last]];
      }
      if temp != [] {
        InsertShrubsTree(h, temp, k', exps, ll');
      }
    }

    /** Insert a batch into the list built from the old leaves. The source reads the lowest
        exponent of the old count, so the old tree is not empty; an empty batch is survived
        only when the old count is odd. */
    method InsertBatchDevices(h: Hash, oldLeaves: seq<Scalar>, newLeaves: seq<Scalar>)
      requires items == Roots(h, oldLeaves)
      requires oldLeaves != []
      requires newLeaves != [] || |oldLeaves| % 2 == 1
      modifies this
      ensures items == Roots(h, oldLeaves + newLeaves)
      ensures Some(items) == InsertBatch(h, old(items), |oldLeaves|, newLeaves)
    {
      InsertBatchRebuilds(h, oldLeaves, newLeaves);
      var exps := ExponentsOfTwo(|oldLeaves|);
      if exps[0] == 0 {
        InsertShrubsTree(h, [items[0]] + newLeaves, -1, exps, 1);
      } else {
        InsertShrubsTree(h, newLeaves, -1, exps, 0);
      }
    }
  }
}
