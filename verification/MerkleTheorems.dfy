/** What the Merkle tree and its inclusion proofs guarantee. */
module MerkleTheorems {
  import opened Prelude
  import opened Encoding
  import opened Crypto
  import opened Merkle

  // --------------------------------- top-down and bottom-up trees agree

  /** One level of the bottom-up pass: adjacent nodes are paired, an odd last one promoted. */
  function PairUp(h: Hash, nodes: seq<Digest>): (up: seq<Digest>)
    ensures |up| == (|nodes| + 1) / 2
  {
    if |nodes| <= 1 then nodes
    else [h([1] + nodes[0] + nodes[1])] + PairUp(h, nodes[2..])
  }

  function BottomUp(h: Hash, nodes: seq<Digest>): Digest
    requires nodes != []
    decreases |nodes|
  {
    if |nodes| == 1 then nodes[0] else BottomUp(h, PairUp(h, nodes))
  }

  lemma {:induction false} PairUpConcat(h: Hash, a: seq<Digest>, b: seq<Digest>)
    requires |a| % 2 == 0
    ensures PairUp(h, a + b) == PairUp(h, a) + PairUp(h, b)
  {
    if a == [] {
      assert a + b == b;
    } else {
      assert (a + b)[2..] == a[2..] + b;
      PairUpConcat(h, a[2..], b);
    }
  }

  /** Pairing one level up does not change the split tree's root. */
  lemma {:induction false} RootOfPairUp(h: Hash, nodes: seq<Digest>)
    requires nodes != []
    ensures SubtreeRoot(h, PairUp(h, nodes)) == SubtreeRoot(h, nodes)
    decreases |nodes|
  {
    var n := |nodes|;
    if n == 2 {
      assert PairUp(h, nodes) == [NodeHash(h, nodes[0], nodes[1])];
    } else if n > 2 {
      var k := Split(n);
      var half := Split((n + 1) / 2);
      assert k == 2 * half;
      var a, b := nodes[..k], nodes[k..];
      assert nodes == a + b;
      PairUpConcat(h, a, b);
      RootOfPairUp(h, a);
      RootOfPairUp(h, b);
      assert |PairUp(h, nodes)| == (n + 1) / 2 >= 2;
      assert PairUp(h, nodes)[..half] == PairUp(h, a);
      assert PairUp(h, nodes)[half..] == PairUp(h, b);
    }
  }

  /** The split tree over any nodes has the root of the bottom-up pass. */
  lemma {:induction false} TopDownIsBottomUp(h: Hash, nodes: seq<Digest>)
    requires nodes != []
    ensures SubtreeRoot(h, nodes) == BottomUp(h, nodes)
    decreases |nodes|
  {
    if |nodes| > 1 {
      RootOfPairUp(h, nodes);
      TopDownIsBottomUp(h, PairUp(h, nodes));
    }
  }

  /** The documented root, from bytes: each record's bytes hashed behind 0x00, nodes paired behind
      0x01 level by level, an odd last one promoted; no records hash the empty string. */
  function DocumentedRoot(h: Hash, datas: seq<Bytes>): Digest {
    if datas == [] then h([]) else BottomUp(h, seq(|datas|, i requires 0 <= i < |datas| => h([0] + datas[i])))
  }

  lemma RootIsDocumented(h: Hash, datas: seq<Bytes>)
    ensures Root(h, datas) == DocumentedRoot(h, datas)
  {
    if datas != [] {
      TopDownIsBottomUp(h, Leaves(h, datas));
      assert Leaves(h, datas) == seq(|datas|, i requires 0 <= i < |datas| => h([0] + datas[i]));
    }
  }

  /** `merkle_root` prints the documented root of the bytes that the hashes spell, and raises exactly
      when one of them spells none. */
  lemma MerkleRootIsDocumented(h: Hash, hashes: seq<string>, datas: seq<Bytes>)
    requires |datas| == |hashes| && forall i :: 0 <= i < |hashes| ==> FromHex(hashes[i]) == Some(datas[i])
    ensures MerkleRoot(h, hashes) == Some(ToHex(DocumentedRoot(h, datas)))
  {
    assert DecodeAll(hashes).value == datas;
    RootIsDocumented(h, datas);
  }

  lemma NoRootIffNotHex(h: Hash, hashes: seq<string>)
    ensures MerkleRoot(h, hashes).None? <==> exists i :: 0 <= i < |hashes| && FromHex(hashes[i]).None?
  {
  }

  /** The first three cases, spelled out. */
  lemma SmallRoots(h: Hash, x: string, y: string, d: Bytes, e: Bytes)
    requires FromHex(x) == Some(d) && FromHex(y) == Some(e)
    ensures MerkleRoot(h, []) == Some(ToHex(h([])))
    ensures MerkleRoot(h, [x]) == Some(ToHex(h([0] + d)))
    ensures MerkleRoot(h, [x, y]) == Some(ToHex(h([1] + h([0] + d) + h([0] + e))))
  {
    MerkleRootIsDocumented(h, [], []);
    MerkleRootIsDocumented(h, [x], [d]);
    MerkleRootIsDocumented(h, [x, y], [d, e]);
    SmallDocumentedRoots(h, d, e);
  }

  lemma SmallDocumentedRoots(h: Hash, d: Bytes, e: Bytes)
    ensures DocumentedRoot(h, [d]) == h([0] + d)
    ensures DocumentedRoot(h, [d, e]) == h([1] + h([0] + d) + h([0] + e))
  {
    var l: Digest, r: Digest := h([0] + d), h([0] + e);
    assert seq(1, i requires 0 <= i < 1 => h([0] + [d][i])) == [l];
    assert seq(2, i requires 0 <= i < 2 => h([0] + [d, e][i])) == [l, r];
    var top: Digest := h([1] + l + r);
    assert PairUp(h, [l, r][2..]) == [];
    assert PairUp(h, [l, r]) == [top];
    assert BottomUp(h, [l, r]) == BottomUp(h, [top]) == top;
  }

  // ------------------------------------- which paths a position accepts

  function SideAt(index: nat, size: nat): Side {
    if index < Split(size) then Right else Left
  }

  function IndexBelow(index: nat, size: nat): nat {
    if index < Split(size) then index else index - Split(size)
  }

  function SizeBelow(index: nat, size: nat): (n: nat)
    requires index < size && size > 1
    ensures n < size && IndexBelow(index, size) < n
  {
    if index < Split(size) then Split(size) else size - Split(size)
  }

  /** Exactly the steps `_fold` demands at a position: their number, their sides, and hex. */
  predicate Fits(path: seq<ProofStep>, index: nat, size: nat)
    requires index < size
    decreases size
  {
    if size == 1 then path == []
    else
      && path != []
      && path[|path| - 1].side == SideAt(index, size)
      && FromHex(path[|path| - 1].hash).Some?
      && Fits(path[..|path| - 1], IndexBelow(index, size), SizeBelow(index, size))
  }

  function Sibling(step: ProofStep): Bytes {
    match FromHex(step.hash)
    case None => []
    case Some(bs) => bs
  }

  /** What is hashed for one step of a climb. */
  function StepInput(d: Bytes, step: ProofStep): Bytes {
    if step.side == Right then [NODE_PREFIX] + d + Sibling(step) else [NODE_PREFIX] + Sibling(step) + d
  }

  /** The hash a path leads to; the position plays no part in it. */
  function Climb(h: Hash, leaf: Digest, path: seq<ProofStep>): Digest {
    if path == [] then leaf
    else h(StepInput(Climb(h, leaf, path[..|path| - 1]), path[|path| - 1]))
  }

  /** How many steps a position demands. */
  function Depth(index: nat, size: nat): nat
    requires index < size
    decreases size
  {
    if size == 1 then 0 else 1 + Depth(IndexBelow(index, size), SizeBelow(index, size))
  }

  lemma {:induction false} FitsHasDepth(path: seq<ProofStep>, index: nat, size: nat)
    requires index < size && Fits(path, index, size)
    ensures |path| == Depth(index, size)
    decreases size
  {
    if size > 1 {
      FitsHasDepth(path[..|path| - 1], IndexBelow(index, size), SizeBelow(index, size));
    }
  }

  /** `_fold` unfolded once, in terms of the position below. */
  lemma FoldOnce(h: Hash, index: nat, size: nat, leaf: Digest, steps: seq<ProofStep>)
    requires index < size && size > 1 && steps != []
    ensures var last := steps[|steps| - 1];
            var below := Fold(h, IndexBelow(index, size), SizeBelow(index, size), leaf, steps[..|steps| - 1]);
            && (Fold(h, index, size, leaf, steps).Ok? <==>
                  below.Ok? && last.side == SideAt(index, size) && FromHex(last.hash).Some?)
            && (Fold(h, index, size, leaf, steps).Ok? ==>
                  Fold(h, index, size, leaf, steps).value == (h(StepInput(below.value.0, last)), below.value.1))
  {
  }

  /** A step more on a fitting path, on the side demanded one level up. */
  lemma LongerPath(h: Hash, leaf: Digest, below: seq<ProofStep>, last: ProofStep, index: nat, size: nat)
    requires index < size && size > 1 && Fits(below, IndexBelow(index, size), SizeBelow(index, size))
    requires last.side == SideAt(index, size) && FromHex(last.hash).Some?
    ensures Fits(below + [last], index, size)
    ensures Climb(h, leaf, below + [last]) == h(StepInput(Climb(h, leaf, below), last))
  {
    assert (below + [last])[..|below|] == below;
  }

  lemma FoldPopsLast(h: Hash, index: nat, size: nat, leaf: Digest, steps: seq<ProofStep>)
    returns (init: seq<ProofStep>, last: ProofStep, d: Digest, rest: seq<ProofStep>)
    requires index < size && size > 1 && Fold(h, index, size, leaf, steps).Ok?
    ensures steps == init + [last] && last.side == SideAt(index, size) && FromHex(last.hash).Some?
    ensures Fold(h, IndexBelow(index, size), SizeBelow(index, size), leaf, init) == Ok((d, rest))
    ensures Fold(h, index, size, leaf, steps).value == (h(StepInput(d, last)), rest)
  {
    FoldOnce(h, index, size, leaf, steps);
    init, last := steps[..|steps| - 1], steps[|steps| - 1];
    var below := Fold(h, IndexBelow(index, size), SizeBelow(index, size), leaf, init).value;
    d, rest := below.0, below.1;
  }

  /** What `_fold` pops fits the position, and its result is the climb along it. */
  lemma {:induction false} FoldPopsFittingPath(h: Hash, index: nat, size: nat, leaf: Digest, steps: seq<ProofStep>)
    returns (path: seq<ProofStep>)
    requires index < size && Fold(h, index, size, leaf, steps).Ok?
    ensures steps == Fold(h, index, size, leaf, steps).value.1 + path
    ensures Fits(path, index, size) && Fold(h, index, size, leaf, steps).value.0 == Climb(h, leaf, path)
    decreases size
  {
    if size == 1 {
      path := [];
    } else {
      var init, last, d, rest := FoldPopsLast(h, index, size, leaf, steps);
      var below := FoldPopsFittingPath(h, IndexBelow(index, size), SizeBelow(index, size), leaf, init);
      path := below + [last];
      LongerPath(h, leaf, below, last, index, size);
      assert init == rest + below;
      assert rest + below + [last] == rest + path;
    }
  }

  /** `_fold` accepts every fitting path and leaves what lies under it. */
  lemma {:induction false} FittingPathFolds(h: Hash, index: nat, size: nat, leaf: Digest, rest: seq<ProofStep>, path: seq<ProofStep>)
    requires index < size && Fits(path, index, size)
    ensures Fold(h, index, size, leaf, rest + path) == Ok((Climb(h, leaf, path), rest))
    decreases size
  {
    if size == 1 {
      assert rest + path == rest;
    } else {
      var steps, init := rest + path, path[..|path| - 1];
      FoldOnce(h, index, size, leaf, steps);
      FittingPathFolds(h, IndexBelow(index, size), SizeBelow(index, size), leaf, rest, init);
      assert steps[..|steps| - 1] == rest + init;
    }
  }

  /** A proof folds exactly when its leaf is hex and its whole path fits its position. */
  lemma FoldProofMeansClimb(h: Hash, p: InclusionProof)
    ensures FoldProof(h, p).Ok? <==>
            && 0 <= p.index < p.size
            && FromHex(p.leaf).Some?
            && Fits(p.path, p.index, p.size)
    ensures FoldProof(h, p).Ok? ==>
              FoldProof(h, p) == Ok(Climb(h, LeafHash(h, FromHex(p.leaf).value), p.path))
  {
    if 0 <= p.index < p.size && FromHex(p.leaf).Some? {
      var leaf := LeafHash(h, FromHex(p.leaf).value);
      if FoldProof(h, p).Ok? {
        var path := FoldPopsFittingPath(h, p.index, p.size, leaf, p.path);
        assert path == p.path;
      }
      if Fits(p.path, p.index, p.size) {
        FittingPathFolds(h, p.index, p.size, leaf, [], p.path);
        assert [] + p.path == p.path;
      }
    }
  }

  /** What the checks outside the recursion refuse: a size below one, a position outside it, and steps
      that are left over although the rest of the path fits. */
  lemma FoldProofErrors(h: Hash, p: InclusionProof)
    ensures FoldProof(h, p) == Err(BadSize) <==> p.size < 1
    ensures FoldProof(h, p) == Err(OutOfRange) <==> p.size >= 1 && !(0 <= p.index < p.size)
    ensures FoldProof(h, p) == Err(ExtraHashes) <==>
            && 0 <= p.index < p.size && FromHex(p.leaf).Some?
            && exists k :: 0 < k <= |p.path| && Fits(p.path[k..], p.index, p.size)
  {
    if 0 <= p.index < p.size && FromHex(p.leaf).Some? {
      var leaf := LeafHash(h, FromHex(p.leaf).value);
      FoldFailsInside(h, p.index, p.size, leaf, p.path);
      if Fold(h, p.index, p.size, leaf, p.path).Ok? {
        var path := FoldPopsFittingPath(h, p.index, p.size, leaf, p.path);
        var k := |Fold(h, p.index, p.size, leaf, p.path).value.1|;
        assert p.path[k..] == path;
      }
      if k :| 0 < k <= |p.path| && Fits(p.path[k..], p.index, p.size) {
        FittingPathFolds(h, p.index, p.size, leaf, p.path[..k], p.path[k..]);
        assert p.path[..k] + p.path[k..] == p.path;
      }
    }
  }

  lemma {:induction false} FoldFailsInside(h: Hash, index: nat, size: nat, leaf: Digest, steps: seq<ProofStep>)
    requires index < size
    ensures Fold(h, index, size, leaf, steps).Err? ==>
              Fold(h, index, size, leaf, steps).error in {MissingHash, UnknownSide, NotHex, WrongSide}
    decreases size
  {
    if size > 1 && steps != [] {
      FoldFailsInside(h, IndexBelow(index, size), SizeBelow(index, size), leaf, steps[..|steps| - 1]);
    }
  }

  // ------------------------------------------------------- completeness

  /** Adding the sibling subtree's root to a fitting path makes it fit one level up. */
  lemma ClimbOneMore(h: Hash, leaf: Digest, path: seq<ProofStep>, index: nat, size: nat, sibling: Digest)
    requires index < size && size > 1
    requires Fits(path, IndexBelow(index, size), SizeBelow(index, size))
    ensures var longer := path + [ProofStep(SideAt(index, size), ToHex(sibling))];
            var d := Climb(h, leaf, path);
            && Fits(longer, index, size)
            && Climb(h, leaf, longer)
               == if SideAt(index, size) == Right then NodeHash(h, d, sibling) else NodeHash(h, sibling, d)
  {
    var longer := path + [ProofStep(SideAt(index, size), ToHex(sibling))];
    HexRoundTrip(sibling);
    assert longer[..|longer| - 1] == path;
  }

  /** `Path` and the root unfolded once: the half that holds the leaf, and the other's root. */
  lemma PathOnce(h: Hash, leaves: seq<Digest>, index: nat)
    returns (below: seq<Digest>, sibling: Digest)
    requires index < |leaves| && |leaves| > 1
    ensures var i, n, side := IndexBelow(index, |leaves|), SizeBelow(index, |leaves|), SideAt(index, |leaves|);
            && |below| == n && below[i] == leaves[index]
            && Path(h, leaves, index) == Path(h, below, i) + [ProofStep(side, ToHex(sibling))]
            && SubtreeRoot(h, leaves)
               == if side == Right then NodeHash(h, SubtreeRoot(h, below), sibling)
                  else NodeHash(h, sibling, SubtreeRoot(h, below))
  {
    var k := Split(|leaves|);
    if index < k {
      below, sibling := leaves[..k], SubtreeRoot(h, leaves[k..]);
    } else {
      below, sibling := leaves[k..], SubtreeRoot(h, leaves[..k]);
    }
  }

  lemma {:induction false} PathFits(h: Hash, leaves: seq<Digest>, index: nat)
    requires index < |leaves|
    ensures Fits(Path(h, leaves, index), index, |leaves|)
    ensures Climb(h, leaves[index], Path(h, leaves, index)) == SubtreeRoot(h, leaves)
    decreases |leaves|
  {
    if |leaves| > 1 {
      var below, sibling := PathOnce(h, leaves, index);
      var i := IndexBelow(index, |leaves|);
      PathFits(h, below, i);
      ClimbOneMore(h, leaves[index], Path(h, below, i), index, |leaves|, sibling);
    }
  }

  lemma HonestProofFolds(h: Hash, datas: seq<Bytes>, p: InclusionProof)
    requires 0 <= p.index < p.size == |datas| && FromHex(p.leaf) == Some(datas[p.index])
    requires p.path == Path(h, Leaves(h, datas), p.index)
    ensures FoldProof(h, p) == Ok(Root(h, datas))
    ensures |p.path| <= BitLength(|datas| - 1)
  {
    PathFits(h, Leaves(h, datas), p.index);
    FoldProofMeansClimb(h, p);
    FitsHasDepth(p.path, p.index, p.size);
    DepthIsLogarithmic(p.index, p.size);
  }

  /** Every record of every hex log has a proof, and it verifies against the log's root. */
  lemma ProofsAreComplete(h: Hash, hashes: seq<string>, index: nat)
    requires index < |hashes|
    requires forall i :: 0 <= i < |hashes| ==> FromHex(hashes[i]).Some?
    ensures MerkleProof(h, hashes, index).Ok? && MerkleRoot(h, hashes).Some?
    ensures var p := MerkleProof(h, hashes, index).value;
            && VerifyProof(h, p, MerkleRoot(h, hashes)) && VerifyProof(h, p, None)
            && p.index == index && p.size == |hashes| && p.leaf == hashes[index]
            && Some(p.root) == MerkleRoot(h, hashes)
            && |p.path| <= BitLength(|hashes| - 1)
  {
    var datas := DecodeAll(hashes).value;
    HonestProofFolds(h, datas, MerkleProof(h, hashes, index).value);
    HexRoundTrip(Root(h, datas));
    LowerHexIsLower(ToHex(Root(h, datas)));
  }

  /** Exactly what a proof is checked for: its path fits, and the root it is held to spells, in digits
      of either case and nothing else, the digest the path climbs to. */
  lemma VerifiesExactlyItsRoot(h: Hash, p: InclusionProof, root: Option<string>)
    ensures var expected := if root.None? then p.root else root.value;
            VerifyProof(h, p, root) <==>
            && 0 <= p.index < p.size && FromHex(p.leaf).Some? && Fits(p.path, p.index, p.size)
            && |expected| == 64 && FromHex(expected) == Some(Climb(h, h([0] + FromHex(p.leaf).value), p.path))
  {
    FoldProofMeansClimb(h, p);
    if FoldProof(h, p).Ok? {
      LowerIsHexIff(if root.None? then p.root else root.value, FoldProof(h, p).value);
    }
  }

  // --------------------------------------------------- logarithmic paths

  /** Python's `int.bit_length`. */
  function BitLength(n: nat): nat {
    if n == 0 then 0 else 1 + BitLength(n / 2)
  }

  lemma {:induction false} BelowExp2BitLength(n: nat)
    ensures n < Exp2(BitLength(n))
  {
    if n > 0 {
      BelowExp2BitLength(n / 2);
    }
  }

  lemma {:induction false} DepthWithin(index: nat, size: nat, bits: nat)
    requires index < size <= Exp2(bits)
    ensures Depth(index, size) <= bits
    decreases size
  {
    if size > 1 {
      var e := SplitIsPowerOfTwo(size);
      if bits < e {
        Exp2Monotone(bits, e);
      }
      if e < bits - 1 {
        Exp2Monotone(e, bits - 1);
      }
      DepthWithin(IndexBelow(index, size), SizeBelow(index, size), bits - 1);
    }
  }

  lemma DepthIsLogarithmic(index: nat, size: nat)
    requires index < size
    ensures Depth(index, size) <= BitLength(size - 1)
  {
    BelowExp2BitLength(size - 1);
    DepthWithin(index, size, BitLength(size - 1));
  }

  /** No accepted proof, honest or not, is longer than the bit length of its size. */
  lemma AcceptedProofsAreShort(h: Hash, p: InclusionProof)
    requires FoldProof(h, p).Ok?
    ensures |p.path| <= BitLength(p.size - 1)
  {
    FoldProofMeansClimb(h, p);
    FitsHasDepth(p.path, p.index, p.size);
    DepthIsLogarithmic(p.index, p.size);
  }

  // ------------------------------------------------------------ soundness

  /** Everything hashed while computing the root of a log. */
  function RootInputs(h: Hash, datas: seq<Bytes>): set<Bytes>
    decreases |datas|
  {
    if datas == [] then {[]}
    else if |datas| == 1 then {[LEAF_PREFIX] + datas[0]}
    else
      var k := Split(|datas|);
      {[NODE_PREFIX] + Root(h, datas[..k]) + Root(h, datas[k..])}
      + RootInputs(h, datas[..k]) + RootInputs(h, datas[k..])
  }

  /** Everything hashed while climbing a path from a leaf's data. */
  function ClimbInputs(h: Hash, data: Bytes, path: seq<ProofStep>): set<Bytes> {
    if path == [] then {[LEAF_PREFIX] + data}
    else
      var below := path[..|path| - 1];
      {StepInput(Climb(h, LeafHash(h, data), below), path[|path| - 1])} + ClimbInputs(h, data, below)
  }

  lemma RootUnfolds(h: Hash, datas: seq<Bytes>)
    requires |datas| > 1
    ensures var k := Split(|datas|);
            Root(h, datas) == NodeHash(h, Root(h, datas[..k]), Root(h, datas[k..]))
  {
    LeavesSlice(h, datas, Split(|datas|));
  }

  /** Some input of each root hashes to it, and carries its prefix. */
  lemma TopInput(h: Hash, datas: seq<Bytes>) returns (x: Bytes)
    ensures x in RootInputs(h, datas) && h(x) == Root(h, datas)
    ensures |datas| == 0 ==> x == []
    ensures |datas| == 1 ==> x == [LEAF_PREFIX] + datas[0]
    ensures |datas| > 1 ==>
              var k := Split(|datas|);
              x == [NODE_PREFIX] + Root(h, datas[..k]) + Root(h, datas[k..])
  {
    if datas == [] {
      x := [];
    } else if |datas| == 1 {
      x := [LEAF_PREFIX] + datas[0];
    } else {
      var k := Split(|datas|);
      RootUnfolds(h, datas);
      x := [NODE_PREFIX] + Root(h, datas[..k]) + Root(h, datas[k..]);
    }
  }

  lemma TopClimbInput(h: Hash, data: Bytes, path: seq<ProofStep>) returns (x: Bytes)
    ensures x in ClimbInputs(h, data, path) && h(x) == Climb(h, LeafHash(h, data), path)
    ensures x == if path == [] then [LEAF_PREFIX] + data
                 else StepInput(Climb(h, LeafHash(h, data), path[..|path| - 1]), path[|path| - 1])
  {
    x := if path == [] then [LEAF_PREFIX] + data
         else StepInput(Climb(h, LeafHash(h, data), path[..|path| - 1]), path[|path| - 1]);
  }

  /** In two equal node inputs, a 32-byte part is the half on its side. */
  lemma SameHalf(d: Bytes, sibling: Bytes, left: Bytes, right: Bytes, onLeft: bool)
    requires |d| == |left| == |right|
    requires (if onLeft then [NODE_PREFIX] + d + sibling else [NODE_PREFIX] + sibling + d)
             == [NODE_PREFIX] + left + right
    ensures d == if onLeft then left else right
  {
    var x, y := if onLeft then [NODE_PREFIX] + d + sibling else [NODE_PREFIX] + sibling + d,
                [NODE_PREFIX] + left + right;
    var n := |left| + 1;
    if onLeft {
      assert x[1..n] == d && y[1..n] == left;
    } else {
      assert x[n..] == d && y[n..] == right;
    }
  }

  lemma SameLeaf(data: Bytes, data': Bytes)
    requires [LEAF_PREFIX] + data == [LEAF_PREFIX] + data'
    ensures data == data'
  {
    assert ([LEAF_PREFIX] + data)[1..] == data && ([LEAF_PREFIX] + data')[1..] == data';
  }

  /** The inputs of a subtree are inputs of the tree. */
  lemma SubtreeInputs(h: Hash, datas: seq<Bytes>)
    requires |datas| > 1
    ensures RootInputs(h, datas[..Split(|datas|)]) <= RootInputs(h, datas)
    ensures RootInputs(h, datas[Split(|datas|)..]) <= RootInputs(h, datas)
  {
  }

  /** An empty path reaches only a one-record root, from that record. */
  lemma EmptyClimb(h: Hash, data: Bytes, datas: seq<Bytes>)
    requires LeafHash(h, data) == Root(h, datas)
    ensures datas == [data] || Collision(h, ClimbInputs(h, data, []), RootInputs(h, datas))
  {
    var x := TopClimbInput(h, data, []);
    var y := TopInput(h, datas);
    if x == y {
      assert x[0] == LEAF_PREFIX && |datas| == 1;
      SameLeaf(data, datas[0]);
    }
  }

  function HalfOn(side: Side, datas: seq<Bytes>): seq<Bytes>
    requires |datas| > 1
  {
    if side == Right then datas[..Split(|datas|)] else datas[Split(|datas|)..]
  }

  lemma RecordInHalf(datas: seq<Bytes>, index: nat)
    requires index < |datas| && |datas| > 1
    ensures var half := HalfOn(SideAt(index, |datas|), datas);
            |half| == SizeBelow(index, |datas|) && half[IndexBelow(index, |datas|)] == datas[index]
  {
  }

  /** The last step of a climb to a root comes from the root of the half across from it. */
  lemma LastStep(h: Hash, data: Bytes, path: seq<ProofStep>, datas: seq<Bytes>)
    requires path != [] && Climb(h, LeafHash(h, data), path) == Root(h, datas)
    ensures var below, side := path[..|path| - 1], path[|path| - 1].side;
            || Collision(h, ClimbInputs(h, data, path), RootInputs(h, datas))
            || (|datas| > 1 && Climb(h, LeafHash(h, data), below) == Root(h, HalfOn(side, datas)))
  {
    var x := TopClimbInput(h, data, path);
    var y := TopInput(h, datas);
    if x == y {
      assert x[0] == NODE_PREFIX && |datas| > 1;
      var k, step, below := Split(|datas|), path[|path| - 1], path[..|path| - 1];
      SameHalf(Climb(h, LeafHash(h, data), below), Sibling(step),
               Root(h, datas[..k]), Root(h, datas[k..]), step.side == Right);
    }
  }

  lemma CollisionAbove(h: Hash, data: Bytes, path: seq<ProofStep>, datas: seq<Bytes>)
    requires path != [] && |datas| > 1
    requires Collision(h, ClimbInputs(h, data, path[..|path| - 1]),
                       RootInputs(h, HalfOn(path[|path| - 1].side, datas)))
    ensures Collision(h, ClimbInputs(h, data, path), RootInputs(h, datas))
  {
    SubtreeInputs(h, datas);
    CollisionWithin(h, ClimbInputs(h, data, path[..|path| - 1]),
                    RootInputs(h, HalfOn(path[|path| - 1].side, datas)),
                    ClimbInputs(h, data, path), RootInputs(h, datas));
  }

  /** A path climbing to a log's root starts at one of the log's leaves: neither the path's
      length nor its sides matter. */
  lemma {:induction false} ClimbEndsInLog(h: Hash, data: Bytes, path: seq<ProofStep>, datas: seq<Bytes>)
    requires Climb(h, LeafHash(h, data), path) == Root(h, datas)
    ensures data in datas || Collision(h, ClimbInputs(h, data, path), RootInputs(h, datas))
    decreases |path|
  {
    if path == [] {
      EmptyClimb(h, data, datas);
    } else {
      LastStep(h, data, path, datas);
      if !Collision(h, ClimbInputs(h, data, path), RootInputs(h, datas)) {
        ClimbEndsInLog(h, data, path[..|path| - 1], HalfOn(path[|path| - 1].side, datas));
        if data !in datas {
          CollisionAbove(h, data, path, datas);
        }
      }
    }
  }

  /** Membership under any label: whatever position and size an accepted proof claims, its
      leaf is a record of the log with that root, or two hashed inputs collide. */
  lemma ProofsAreSound(h: Hash, p: InclusionProof, datas: seq<Bytes>)
    requires FoldProof(h, p) == Ok(Root(h, datas))
    ensures FromHex(p.leaf).Some?
    ensures var data := FromHex(p.leaf).value;
            data in datas || Collision(h, ClimbInputs(h, data, p.path), RootInputs(h, datas))
  {
    FoldProofMeansClimb(h, p);
    ClimbEndsInLog(h, FromHex(p.leaf).value, p.path, datas);
  }

  lemma {:induction false} ClimbEndsAtPosition(h: Hash, data: Bytes, path: seq<ProofStep>, datas: seq<Bytes>, index: nat)
    requires index < |datas| && Fits(path, index, |datas|)
    requires Climb(h, LeafHash(h, data), path) == Root(h, datas)
    ensures data == datas[index] || Collision(h, ClimbInputs(h, data, path), RootInputs(h, datas))
    decreases |datas|
  {
    if |datas| == 1 {
      EmptyClimb(h, data, datas);
    } else {
      LastStep(h, data, path, datas);
      RecordInHalf(datas, index);
      if !Collision(h, ClimbInputs(h, data, path), RootInputs(h, datas)) {
        ClimbEndsAtPosition(h, data, path[..|path| - 1], HalfOn(path[|path| - 1].side, datas),
                            IndexBelow(index, |datas|));
        if data != datas[index] {
          CollisionAbove(h, data, path, datas);
        }
      }
    }
  }

  /** Position: once the size is the log's own, the leaf is the record at the claimed index. */
  lemma {:induction false} ProofsPinPositionAtTrueSize(h: Hash, p: InclusionProof, datas: seq<Bytes>)
    requires p.size == |datas| && FoldProof(h, p) == Ok(Root(h, datas))
    ensures 0 <= p.index < |datas| && FromHex(p.leaf).Some?
    ensures var data := FromHex(p.leaf).value;
            data == datas[p.index] || Collision(h, ClimbInputs(h, data, p.path), RootInputs(h, datas))
  {
    FoldProofMeansClimb(h, p);
    ClimbEndsAtPosition(h, FromHex(p.leaf).value, p.path, datas, p.index);
  }

  lemma RootIsInjectiveAtNode(h: Hash, a: seq<Bytes>, b: seq<Bytes>)
    requires |a| > 1 && |b| > 1
    requires [NODE_PREFIX] + Root(h, a[..Split(|a|)]) + Root(h, a[Split(|a|)..])
             == [NODE_PREFIX] + Root(h, b[..Split(|b|)]) + Root(h, b[Split(|b|)..])
    ensures Root(h, a[..Split(|a|)]) == Root(h, b[..Split(|b|)])
    ensures Root(h, a[Split(|a|)..]) == Root(h, b[Split(|b|)..])
  {
    var la: Bytes, ra: Bytes := Root(h, a[..Split(|a|)]), Root(h, a[Split(|a|)..]);
    var lb: Bytes, rb: Bytes := Root(h, b[..Split(|b|)]), Root(h, b[Split(|b|)..]);
    SameHalf(la, ra, lb, rb, true);
    SameHalf(ra, la, lb, rb, false);
  }

  /** Two logs, of any lengths, with one root are one log, or two hashed inputs collide. */
  lemma {:induction false} RootIsInjective(h: Hash, a: seq<Bytes>, b: seq<Bytes>)
    requires Root(h, a) == Root(h, b)
    ensures a == b || Collision(h, RootInputs(h, a), RootInputs(h, b))
    decreases |a|
  {
    var x := TopInput(h, a);
    var y := TopInput(h, b);
    if x == y && a != [] {
      if |a| == 1 {
        assert x[0] == LEAF_PREFIX && |b| == 1;
        SameLeaf(a[0], b[0]);
      } else {
        assert x[0] == NODE_PREFIX && |b| > 1;
        RootIsInjectiveAtNode(h, a, b);
        var j, k := Split(|a|), Split(|b|);
        RootIsInjective(h, a[..j], b[..k]);
        RootIsInjective(h, a[j..], b[k..]);
        SubtreeInputs(h, a);
        SubtreeInputs(h, b);
        if a[..j] != b[..k] {
          CollisionWithin(h, RootInputs(h, a[..j]), RootInputs(h, b[..k]), RootInputs(h, a), RootInputs(h, b));
        } else if a[j..] != b[k..] {
          CollisionWithin(h, RootInputs(h, a[j..]), RootInputs(h, b[k..]), RootInputs(h, a), RootInputs(h, b));
        } else {
          assert a == a[..j] + a[j..] && b == b[..k] + b[k..];
        }
      }
    }
  }

  // ------------------------------------------- what a proof's label pins

  /** The sides a position demands, from the root down. */
  function Sides(index: nat, size: nat): seq<Side>
    requires index < size
    decreases size
  {
    if size == 1 then []
    else [SideAt(index, size)] + Sides(IndexBelow(index, size), SizeBelow(index, size))
  }

  predicate IsPrefix<T(==)>(a: seq<T>, b: seq<T>) {
    |a| <= |b| && a == b[..|a|]
  }

  /** Within one tree the demanded sides form a prefix code. */
  lemma {:induction false} SidesArePrefixFree(i: nat, j: nat, size: nat)
    requires i < size && j < size
    requires IsPrefix(Sides(i, size), Sides(j, size))
    ensures i == j
    decreases size
  {
    if size > 1 {
      var a, b := Sides(i, size), Sides(j, size);
      assert a[0] == b[0];
      assert a[1..] == Sides(IndexBelow(i, size), SizeBelow(i, size));
      assert b[1..] == Sides(IndexBelow(j, size), SizeBelow(j, size));
      assert a[1..] == b[1..][..|a| - 1];
      SidesArePrefixFree(IndexBelow(i, size), IndexBelow(j, size), SizeBelow(i, size));
    }
  }

  /** A path fitting one position fits another exactly when the demanded sides agree. */
  lemma {:induction false} FitsElsewhereIff(path: seq<ProofStep>, i: nat, m: nat, j: nat, n: nat)
    requires i < m && j < n && Fits(path, i, m)
    ensures Fits(path, j, n) <==> Sides(i, m) == Sides(j, n)
    decreases m
  {
    if m > 1 && n > 1 {
      FitsElsewhereIff(path[..|path| - 1], IndexBelow(i, m), SizeBelow(i, m), IndexBelow(j, n), SizeBelow(j, n));
      assert Sides(i, m)[1..] == Sides(IndexBelow(i, m), SizeBelow(i, m));
      assert Sides(j, n)[1..] == Sides(IndexBelow(j, n), SizeBelow(j, n));
    }
  }

  /** One path serves one position of a tree. */
  lemma OnePathOnePosition(h: Hash, p: InclusionProof, q: InclusionProof)
    requires p.size == q.size && p.path == q.path
    requires FoldProof(h, p).Ok? && FoldProof(h, q).Ok?
    ensures p.index == q.index
  {
    FoldProofMeansClimb(h, p);
    FoldProofMeansClimb(h, q);
    FitsElsewhereIff(p.path, p.index, p.size, q.index, q.size);
    SidesArePrefixFree(p.index, q.index, p.size);
  }

  /**
   The label is not committed to: an accepted proof keeps its root under another label
   exactly when both labels demand the same sides.
   */
  lemma RelabelledProofFoldsIff(h: Hash, p: InclusionProof, index: nat, size: nat)
    requires FoldProof(h, p).Ok? && index < size
    ensures FoldProof(h, p.(index := index, size := size)) == FoldProof(h, p)
            <==> Sides(index, size) == Sides(p.index, p.size)
  {
    FoldProofMeansClimb(h, p);
    FoldProofMeansClimb(h, p.(index := index, size := size));
    FitsElsewhereIff(p.path, p.index, p.size, index, size);
  }

  /**
   The documented commitment to (seq, size) fails: the proof of record 2 of 3 also passes as
   record 4 of 5, and the proof of record 0 of 4 as record 0 of 3.
   */
  lemma ReplayAtAnotherSize(h: Hash, three: seq<string>, four: seq<string>)
    requires |three| == 3 && forall i :: 0 <= i < 3 ==> FromHex(three[i]).Some?
    requires |four| == 4 && forall i :: 0 <= i < 4 ==> FromHex(four[i]).Some?
    ensures MerkleProof(h, three, 2).Ok? && MerkleProof(h, four, 0).Ok?
    ensures VerifyProof(h, MerkleProof(h, three, 2).value.(index := 4, size := 5), MerkleRoot(h, three))
    ensures VerifyProof(h, MerkleProof(h, four, 0).value.(size := 3), MerkleRoot(h, four))
  {
    assert Split(2) == 1 && Split(3) == 2 && Split(4) == 2 && Split(5) == 4;
    assert Sides(2, 3) == Sides(4, 5) == [Left];
    assert Sides(0, 4) == Sides(0, 3) == [Right, Right] by {
      assert Sides(0, 2) == [Right];
    }
    ProofsAreComplete(h, three, 2);
    ProofsAreComplete(h, four, 0);
    RelabelledProofFoldsIff(h, MerkleProof(h, three, 2).value, 4, 5);
    RelabelledProofFoldsIff(h, MerkleProof(h, four, 0).value, 0, 3);
  }
}
