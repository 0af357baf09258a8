/**
 The RFC 6962 Merkle tree over record hashes: roots (section 2.1), audit paths
 (section 2.1.1) and the check of a path.
 */
module Merkle {
  import opened Prelude
  import opened Encoding
  import opened Crypto

  const LEAF_PREFIX: byte := 0
  const NODE_PREFIX: byte := 1

  // ------------------------------------------------------------- the tree

  function Exp2(e: nat): (k: nat)
    ensures k >= 1
  {
    if e == 0 then 1 else 2 * Exp2(e - 1)
  }

  /** The RFC 6962 split point of a tree with `size` leaves. */
  function Split(size: int): (k: nat)
    ensures k >= 1
    ensures size >= 2 ==> k < size <= 2 * k
  {
    if size <= 2 then 1 else 2 * Split((size + 1) / 2)
  }

  lemma {:induction false} Exp2Monotone(a: nat, b: nat)
    requires a < b
    ensures 2 * Exp2(a) <= Exp2(b)
  {
    if a < b - 1 {
      Exp2Monotone(a, b - 1);
    }
  }

  lemma {:induction false} SplitIsPowerOfTwo(size: int) returns (e: nat)
    ensures Split(size) == Exp2(e)
  {
    if size <= 2 {
      e := 0;
    } else {
      var e' := SplitIsPowerOfTwo((size + 1) / 2);
      e := e' + 1;
    }
  }

  /** The split point is the largest power of two strictly below the size. */
  lemma SplitIsLargest(size: int, e: nat)
    requires Exp2(e) < size
    ensures Exp2(e) <= Split(size)
  {
    var s := SplitIsPowerOfTwo(size);
    if s < e {
      Exp2Monotone(s, e);
    } else if e < s {
      Exp2Monotone(e, s);
    }
  }

  /** `_split`: doubling until the next power would reach the size. */
  method SplitLoop(size: int) returns (k: nat)
    ensures k == Split(size)
  {
    k := 1;
    ghost var e := 0;
    while k * 2 < size
      invariant k == Exp2(e) && (k < size || k == 1)
      decreases size - k
    {
      k := k * 2;
      e := e + 1;
    }
    var s := SplitIsPowerOfTwo(size);
    if size >= 2 {
      if e < s {
        Exp2Monotone(e, s);
      } else if s < e {
        Exp2Monotone(s, e);
      }
    }
  }

  function LeafHash(h: Hash, data: Bytes): Digest {
    h([LEAF_PREFIX] + data)
  }

  function NodeHash(h: Hash, left: Bytes, right: Bytes): Digest {
    h([NODE_PREFIX] + left + right)
  }

  /** `_subtree_root`: split top-down at the largest smaller power of two. */
  function SubtreeRoot(h: Hash, leaves: seq<Digest>): Digest
    requires leaves != []
    decreases |leaves|
  {
    if |leaves| == 1 then leaves[0]
    else
      var k := Split(|leaves|);
      NodeHash(h, SubtreeRoot(h, leaves[..k]), SubtreeRoot(h, leaves[k..]))
  }

  function Leaves(h: Hash, datas: seq<Bytes>): (leaves: seq<Digest>)
    ensures |leaves| == |datas|
    ensures forall i :: 0 <= i < |datas| ==> leaves[i] == LeafHash(h, datas[i])
  {
    seq(|datas|, i requires 0 <= i < |datas| => LeafHash(h, datas[i]))
  }

  lemma LeavesSlice(h: Hash, datas: seq<Bytes>, k: nat)
    requires k <= |datas|
    ensures Leaves(h, datas)[..k] == Leaves(h, datas[..k])
    ensures Leaves(h, datas)[k..] == Leaves(h, datas[k..])
  {
  }

  /** The root of the decoded record hashes; the empty batch hashes the empty string. */
  function Root(h: Hash, datas: seq<Bytes>): Digest {
    if datas == [] then h([]) else SubtreeRoot(h, Leaves(h, datas))
  }

  /** `bytes.fromhex` on every record hash; None when one of them is not hex. */
  function DecodeAll(hashes: seq<string>): (datas: Option<seq<Bytes>>)
    ensures datas.Some? ==> |datas.value| == |hashes|
    ensures datas.Some? ==> forall i :: 0 <= i < |hashes| ==> FromHex(hashes[i]) == Some(datas.value[i])
    ensures datas.None? ==> exists i :: 0 <= i < |hashes| && FromHex(hashes[i]).None?
  {
    if forall i :: 0 <= i < |hashes| ==> FromHex(hashes[i]).Some? then
      Some(seq(|hashes|, i requires 0 <= i < |hashes| => FromHex(hashes[i]).value))
    else None
  }

  /** `merkle_root`; None is the ValueError of a hash that is not hex. */
  function MerkleRoot(h: Hash, hashes: seq<string>): Option<string> {
    match DecodeAll(hashes)
    case None => None
    case Some(datas) => Some(ToHex(Root(h, datas)))
  }

  // ----------------------------------------------------------------- paths

  /** Where a sibling sits: the strings "left" and "right", or any other string. */
  datatype Side = Left | Right | Other(name: string)

  datatype ProofStep = ProofStep(side: Side, hash: string)

  datatype InclusionProof = InclusionProof(
    index: int, size: int, leaf: string, root: string, path: seq<ProofStep>)

  datatype ProofError =
    | BadSize | OutOfRange
    | MissingHash | UnknownSide | NotHex | WrongSide | ExtraHashes

  /** PATH(m, D[n]) of RFC 6962 section 2.1.1, leaf first, with the side of each sibling. */
  function Path(h: Hash, leaves: seq<Digest>, index: nat): seq<ProofStep>
    requires index < |leaves|
    decreases |leaves|
  {
    if |leaves| == 1 then []
    else
      var k := Split(|leaves|);
      if index < k then
        Path(h, leaves[..k], index) + [ProofStep(Right, ToHex(SubtreeRoot(h, leaves[k..])))]
      else
        Path(h, leaves[k..], index - k) + [ProofStep(Left, ToHex(SubtreeRoot(h, leaves[..k])))]
  }

  /** `merkle_proof`. */
  function MerkleProof(h: Hash, hashes: seq<string>, index: int): Result<InclusionProof, ProofError> {
    if !(0 <= index < |hashes|) then Err(OutOfRange)
    else match DecodeAll(hashes)
      case None => Err(NotHex)
      case Some(datas) =>
        var leaves := Leaves(h, datas);
        Ok(InclusionProof(index, |hashes|, hashes[index], ToHex(SubtreeRoot(h, leaves)),
                          Path(h, leaves, index)))
  }

  /** `_fold`: the root a path leads to, and the steps nothing has popped. */
  function Fold(h: Hash, index: nat, size: nat, leaf: Digest, steps: seq<ProofStep>)
    : Result<(Digest, seq<ProofStep>), ProofError>
    requires index < size
    decreases size
  {
    if size == 1 then Ok((leaf, steps))
    else if steps == [] then Err(MissingHash)
    else
      var step, below := steps[|steps| - 1], steps[..|steps| - 1];
      if step.side.Other? then Err(UnknownSide)
      else match FromHex(step.hash)
        case None => Err(NotHex)
        case Some(sibling) =>
          var k := Split(size);
          if index < k then
            if step.side != Right then Err(WrongSide)
            else match Fold(h, index, k, leaf, below)
              case Err(e) => Err(e)
              case Ok((d, rest)) => Ok((NodeHash(h, d, sibling), rest))
          else
            if step.side != Left then Err(WrongSide)
            else match Fold(h, index - k, size - k, leaf, below)
              case Err(e) => Err(e)
              case Ok((d, rest)) => Ok((NodeHash(h, sibling, d), rest))
  }

  /** `InclusionProof.fold`, before the result is printed in hex. */
  function FoldProof(h: Hash, p: InclusionProof): Result<Digest, ProofError> {
    if p.size < 1 then Err(BadSize)
    else if !(0 <= p.index < p.size) then Err(OutOfRange)
    else match FromHex(p.leaf)
      case None => Err(NotHex)
      case Some(data) =>
        match Fold(h, p.index, p.size, LeafHash(h, data), p.path)
        case Err(e) => Err(e)
        case Ok((d, rest)) => if rest != [] then Err(ExtraHashes) else Ok(d)
  }

  /** `InclusionProof.verify`; without a root the proof is held to its own. */
  predicate VerifyProof(h: Hash, p: InclusionProof, root: Option<string>) {
    var expected := if root.None? then p.root else root.value;
    match FoldProof(h, p)
    case Err(_) => false
    case Ok(d) => ToHex(d) == Lower(expected)
  }

  // ------------------------------------------- the lists changed in place

  function Reversed<T>(xs: seq<T>): (ys: seq<T>)
    ensures |ys| == |xs|
    ensures forall i :: 0 <= i < |xs| ==> ys[i] == xs[|xs| - 1 - i]
  {
    seq(|xs|, i requires 0 <= i < |xs| => xs[|xs| - 1 - i])
  }

  /** The Python list that `_collect` appends to and `_fold` pops from. */
  class StepList {
    var items: seq<ProofStep>

    constructor (items: seq<ProofStep>)
      ensures this.items == items
    {
      this.items := items;
    }

    method Append(step: ProofStep)
      modifies this
      ensures items == old(items) + [step]
    {
      items := items + [step];
    }

    method Pop() returns (step: ProofStep)
      requires items != []
      modifies this
      ensures old(items) == items + [step]
    {
      step := items[|items| - 1];
      items := items[..|items| - 1];
    }

    method Reverse()
      modifies this
      ensures items == Reversed(old(items))
    {
      items := Reversed(items);
    }
  }

  /** The siblings as `_collect` meets them, from the root down. */
  function PathDown(h: Hash, leaves: seq<Digest>, index: nat): seq<ProofStep>
    requires index < |leaves|
    decreases |leaves|
  {
    if |leaves| == 1 then []
    else
      var k := Split(|leaves|);
      if index < k then
        [ProofStep(Right, ToHex(SubtreeRoot(h, leaves[k..])))] + PathDown(h, leaves[..k], index)
      else
        [ProofStep(Left, ToHex(SubtreeRoot(h, leaves[..k])))] + PathDown(h, leaves[k..], index - k)
  }

  lemma ReversedCons<T>(x: T, xs: seq<T>)
    ensures Reversed([x] + xs) == Reversed(xs) + [x]
  {
  }

  /** Read backwards, the siblings from the root down are the audit path. */
  lemma {:induction false} PathDownReversed(h: Hash, leaves: seq<Digest>, index: nat)
    requires index < |leaves|
    ensures Reversed(PathDown(h, leaves, index)) == Path(h, leaves, index)
    decreases |leaves|
  {
    if |leaves| > 1 {
      var k := Split(|leaves|);
      if index < k {
        PathDownReversed(h, leaves[..k], index);
        ReversedCons(ProofStep(Right, ToHex(SubtreeRoot(h, leaves[k..]))), PathDown(h, leaves[..k], index));
      } else {
        PathDownReversed(h, leaves[k..], index - k);
        ReversedCons(ProofStep(Left, ToHex(SubtreeRoot(h, leaves[..k]))), PathDown(h, leaves[k..], index - k));
      }
    }
  }

  lemma AppendOneThenRest<T>(before: seq<T>, x: T, rest: seq<T>, all: seq<T>)
    requires all == [x] + rest
    ensures before + [x] + rest == before + all
  {
  }

  /** `_collect`: appends the siblings from the top of the tree down. */
  method Collect(h: Hash, leaves: seq<Digest>, index: nat, path: StepList)
    requires index < |leaves|
    modifies path
    ensures path.items == old(path.items) + PathDown(h, leaves, index)
    decreases |leaves|
  {
    if |leaves| == 1 {
      return;
    }
    ghost var before, all := path.items, PathDown(h, leaves, index);
    var k := SplitLoop(|leaves|);
    if index < k {
      var step := ProofStep(Right, ToHex(SubtreeRoot(h, leaves[k..])));
      AppendOneThenRest(before, step, PathDown(h, leaves[..k], index), all);
      path.Append(step);
      Collect(h, leaves[..k], index, path);
    } else {
      var step := ProofStep(Left, ToHex(SubtreeRoot(h, leaves[..k])));
      AppendOneThenRest(before, step, PathDown(h, leaves[k..], index - k), all);
      path.Append(step);
      Collect(h, leaves[k..], index - k, path);
    }
  }

  /** `merkle_proof` with its list built top-down and then reversed. */
  method BuildProof(h: Hash, hashes: seq<string>, index: int)
    returns (r: Result<InclusionProof, ProofError>)
    ensures r == MerkleProof(h, hashes, index)
  {
    if !(0 <= index < |hashes|) {
      return Err(OutOfRange);
    }
    var datas := DecodeAll(hashes);
    if datas.None? {
      return Err(NotHex);
    }
    var leaves := Leaves(h, datas.value);
    var path := new StepList([]);
    Collect(h, leaves, index, path);
    assert path.items == PathDown(h, leaves, index);
    path.Reverse();
    PathDownReversed(h, leaves, index);
    return Ok(InclusionProof(index, |hashes|, hashes[index], ToHex(SubtreeRoot(h, leaves)),
                             path.items));
  }

  /** `_fold` as seen after the outermost step has been popped. */
  lemma FoldAfterPop(h: Hash, index: nat, size: nat, leaf: Digest, below: seq<ProofStep>, step: ProofStep)
    requires index < size && size > 1
    ensures var k, r := Split(size), Fold(h, index, size, leaf, below + [step]);
            if step.side.Other? then r == Err(UnknownSide)
            else if FromHex(step.hash).None? then r == Err(NotHex)
            else if index < k then
              if step.side != Right then r == Err(WrongSide)
              else match Fold(h, index, k, leaf, below)
                case Err(e) => r == Err(e)
                case Ok(v) => r == Ok((NodeHash(h, v.0, FromHex(step.hash).value), v.1))
            else
              if step.side != Left then r == Err(WrongSide)
              else match Fold(h, index - k, size - k, leaf, below)
                case Err(e) => r == Err(e)
                case Ok(v) => r == Ok((NodeHash(h, FromHex(step.hash).value, v.0), v.1))
  {
    assert (below + [step])[..|below|] == below;
  }

  /** `_fold` on the list itself: the popped steps are gone afterwards. */
  method FoldInPlace(h: Hash, index: nat, size: nat, leaf: Digest, steps: StepList)
    returns (r: Result<Digest, ProofError>)
    requires index < size
    modifies steps
    ensures r.Err? ==> Fold(h, index, size, leaf, old(steps.items)) == Err(r.error)
    ensures r.Ok? ==> Fold(h, index, size, leaf, old(steps.items)) == Ok((r.value, steps.items))
    decreases size
  {
    if size == 1 {
      return Ok(leaf);
    }
    if steps.items == [] {
      return Err(MissingHash);
    }
    var step := steps.Pop();
    FoldAfterPop(h, index, size, leaf, steps.items, step);
    if step.side.Other? {
      return Err(UnknownSide);
    }
    var sibling := FromHex(step.hash);
    if sibling.None? {
      return Err(NotHex);
    }
    var k := SplitLoop(size);
    if index < k {
      if step.side != Right {
        return Err(WrongSide);
      }
      var below := FoldInPlace(h, index, k, leaf, steps);
      return if below.Ok? then Ok(NodeHash(h, below.value, sibling.value)) else below;
    } else {
      if step.side != Left {
        return Err(WrongSide);
      }
      var below := FoldInPlace(h, index - k, size - k, leaf, steps);
      return if below.Ok? then Ok(NodeHash(h, sibling.value, below.value)) else below;
    }
  }

  /** `InclusionProof.fold`: fold a copy of the path and refuse what is left over. */
  method CheckFold(h: Hash, p: InclusionProof) returns (r: Result<Digest, ProofError>)
    ensures r == FoldProof(h, p)
  {
    if p.size < 1 {
      return Err(BadSize);
    }
    if !(0 <= p.index < p.size) {
      return Err(OutOfRange);
    }
    var data := FromHex(p.leaf);
    if data.None? {
      return Err(NotHex);
    }
    var steps := new StepList(p.path);
    r := FoldInPlace(h, p.index, p.size, LeafHash(h, data.value), steps);
    if r.Ok? && steps.items != [] {
      return Err(ExtraHashes);
    }
  }
}
