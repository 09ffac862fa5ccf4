/** The attestation circuit (attester/src/lib.rs): the boolean meaning of its constraints, and the
    public inputs it allocates. A Groth16 proof exists exactly when the constraints hold. */
module Circuit {
  import opened Wrappers
  import opened ShrubsTree

  datatype AttestationCircuit = AttestationCircuit(
    pk: Scalar, sk: Scalar, ar: Scalar, time: Scalar, period: Scalar, output: Scalar,
    root: seq<Scalar>, path: Option<seq<Scalar>>, tag: Option<seq<bool>>)

  /** What synthesis yields: the source panics on `root[0]` of an empty list, reports an
      unsatisfiable shape, or leaves constraints that do or do not hold. */
  datatype Synthesis =
    | Panics
    | Unsatisfiable
    | Synthesized(holds: bool, publicInputs: seq<Scalar>)

  /** The shrubs leaf of a device: H(H(ar, sk), pk). */
  function DeviceLeaf(h: Hash, ar: Scalar, sk: Scalar, pk: Scalar): Scalar {
    h(h(ar, sk), pk)
  }

  /** The authorization commitment H(H(H(pk, ar), time), period). */
  function AuthorizedInfor(h: Hash, pk: Scalar, ar: Scalar, time: Scalar, period: Scalar): Scalar {
    h(h(h(pk, ar), time), period)
  }

  /** One step up a Merkle path: the tag says that the sibling is on the right. */
  function Combine(h: Hash, node: Scalar, sibling: Scalar, right: bool): Scalar {
    if right then h(node, sibling) else h(sibling, node)
  }

  /** The node a path leads to. */
  function Fold(h: Hash, leaf: Scalar, path: seq<Scalar>, tag: seq<bool>): Scalar
    requires |path| == |tag|
    decreases |path|
  {
    if path == [] then leaf
    else Fold(h, Combine(h, leaf, path[0], tag[0]), path[1..], tag[1..])
  }

  lemma {:induction false} FoldSnoc(h: Hash, leaf: Scalar, path: seq<Scalar>, tag: seq<bool>, sibling: Scalar,
                                    right: bool)
    requires |path| == |tag|
    ensures Fold(h, leaf, path + [sibling], tag + [right])
         == Combine(h, Fold(h, leaf, path, tag), sibling, right)
    decreases |path|
  {
    if path == [] {
      assert [sibling][1..] == [] && [right][1..] == [];
    } else {
      FoldSnoc(h, Combine(h, leaf, path[0], tag[0]), path[1..], tag[1..], sibling, right);
      assert (path + [sibling])[1..] == path[1..] + [sibling];
      assert (tag + [right])[1..] == tag[1..] + [right];
    }
  }

  /** The membership clause: a path must fold to some root; without a path the leaf must be the
      first root. */
  predicate Accepts(h: Hash, root: seq<Scalar>, leaf: Scalar, path: Option<seq<Scalar>>, tag: Option<seq<bool>>) {
    match (path, tag)
    case (Some(p), Some(t)) => |p| == |t| && Fold(h, leaf, p, t) in root
    case (None, None) => root != [] && leaf == root[0]
    case _ => false
  }

  /** Every constraint of the circuit. */
  predicate Satisfied(h: Hash, c: AttestationCircuit) {
    && Accepts(h, c.root, DeviceLeaf(h, c.ar, c.sk, c.pk), c.path, c.tag)
    && c.output == AuthorizedInfor(h, c.pk, c.ar, c.time, c.period)
  }

  /** The relying party's input vector: `[pk, root[0..N], authorized_infor, timestamp, period]`. */
  function GenPublicInputs(pk: Scalar, root: seq<Scalar>, authorizedInfor: Scalar, timestamp: Scalar, period: Scalar)
    : seq<Scalar>
  {
    [pk] + root + [authorizedInfor, timestamp, period]
  }

  function PublicInputsOf(c: AttestationCircuit): seq<Scalar> {
    GenPublicInputs(c.pk, c.root, c.output, c.time, c.period)
  }

  /** Foreign code: a Groth16 proof for some public inputs can be made exactly when some circuit with
      these inputs is satisfied. */
  ghost predicate Provable(h: Hash, inputs: seq<Scalar>) {
    exists c :: Satisfied(h, c) && PublicInputsOf(c) == inputs
  }

  /** Where each input stands: key, roots in order, commitment, timestamp, period. */
  lemma InputPlaces(pk: Scalar, root: seq<Scalar>, authorizedInfor: Scalar, timestamp: Scalar, period: Scalar, k: nat)
    ensures var inputs, n := GenPublicInputs(pk, root, authorizedInfor, timestamp, period), |root|;
            && |inputs| == n + 4 && inputs[0] == pk
            && (k < n ==> inputs[1 + k] == root[k])
            && inputs[n + 1] == authorizedInfor && inputs[n + 2] == timestamp && inputs[n + 3] == period
  {
  }

  /** The input vector determines what it was built from, whatever the number of roots. */
  lemma InputsBind(a: AttestationCircuit, b: AttestationCircuit)
    ensures PublicInputsOf(a) == PublicInputsOf(b) <==>
            a.pk == b.pk && a.root == b.root && a.output == b.output && a.time == b.time && a.period == b.period
  {
    var x, y := PublicInputsOf(a), PublicInputsOf(b);
    if x == y {
      InputPlaces(a.pk, a.root, a.output, a.time, a.period, 0);
      InputPlaces(b.pk, b.root, b.output, b.time, b.period, 0);
      forall k | 0 <= k < |a.root| ensures a.root[k] == b.root[k] {
        assert x[1 + k] == y[1 + k];
      }
    }
  }

  /** Synthesis: allocate inputs in order, climb the path, compare with every root, and enforce
      the commitment. */
  method GenerateConstraints(h: Hash, c: AttestationCircuit) returns (r: Synthesis)
    ensures r.Synthesized? ==> r.holds == Satisfied(h, c)
    ensures r.Synthesized? ==> r.publicInputs == PublicInputsOf(c)
    ensures Satisfied(h, c) ==> r.Synthesized?
    ensures r.Panics? <==> c.path.None? && c.tag.None? && c.root == []
    ensures r.Unsatisfiable? <==>
              c.path.Some? != c.tag.Some? || (c.path.Some? && |c.path.value| != |c.tag.value|)
  {
    var inputs := [c.pk];
    inputs := inputs + c.root;
    inputs := inputs + [c.output];
    inputs := inputs + [c.time];
    inputs := inputs + [c.period];
    var m := h(c.ar, c.sk);
    var leaf := h(m, c.pk);
    var holds := true;
    match (c.path, c.tag) {
      case (Some(path), Some(tag)) =>
        if |path| != |tag| {
          return Unsatisfiable;
        }
        for i := 0 to |tag|
          invariant Fold(h, leaf, path[i..], tag[i..]) == Fold(h, DeviceLeaf(h, c.ar, c.sk, c.pk), path, tag)
        {
          if tag[i] {
            leaf := h(leaf, path[i]);
          } else {
            leaf := h(path[i], leaf);
          }
        }
        var res := false;
        for i := 0 to |c.root|
          invariant res <==> leaf in c.root[..i]
        {
          res := res || leaf == c.root[i];
        }
        assert c.root[..|c.root|] == c.root;
        holds := res;
      case (None, None) =>
        if c.root == [] {
          return Panics;
        }
        holds := leaf == c.root[0];
      case _ =>
        return Unsatisfiable;
    }
    var result1 := h(c.pk, c.ar);
    var result2 := h(result1, c.time);
    var result := h(result2, c.period);
    r := Synthesized(holds && c.output == result, inputs);
  }
}
