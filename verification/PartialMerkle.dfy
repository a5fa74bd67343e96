/**
 The BIP 37 partial Merkle tree verifier: a traversal that consumes a stream of
 flag bits and a stream of hashes along the shape of the tree.
 */
module PartialMerkle {
  import opened Bytes
  import opened MerkleTree

  // ----- Flag bits -----

  function BitAt(b: nat, i: nat): bool {
    ShiftRight(b, i) % 2 == 1
  }

  function LowBits(b: byte, count: nat): (bits: seq<bool>)
    ensures |bits| == count
  {
    seq(count, i requires 0 <= i < count => BitAt(b, i))
  }

  /** The bits of every byte, least significant first. */
  function Expanded(flagBytes: bytes): (flags: seq<bool>)
    ensures |flags| == 8 * |flagBytes|
  {
    if flagBytes == [] then [] else LowBits(flagBytes[0], 8) + Expanded(flagBytes[1..])
  }

  method ExpandFlags(flagBytes: bytes) returns (flags: seq<bool>)
    ensures flags == Expanded(flagBytes)
  {
    flags := [];
    for i := 0 to |flagBytes|
      invariant flags + Expanded(flagBytes[i..]) == Expanded(flagBytes)
    {
      ghost var before := flags;
      for bit := 0 to 8
        invariant flags == before + LowBits(flagBytes[i], bit)
      {
        flags := flags + [BitAt(flagBytes[i], bit)];
      }
      assert flagBytes[i..][1..] == flagBytes[i + 1..];
    }
  }

  // ----- The traversal -----

  /** The two streams and the tree they are read along. */
  datatype Input = Input(D: DoubleHash, hashes: seq<Hash>, flags: seq<bool>, totalTxs: uint32)

  /** What the traversal has consumed and found so far.  A missing hash is None. */
  datatype Progress = Progress(flagIdx: nat, hashIdx: nat, matched: seq<Option<Hash>>, dupFound: bool)

  const START := Progress(0, 0, [], false)

  function NextFlag(t: Input, s: Progress): (Progress, bool) {
    (s.(flagIdx := s.flagIdx + 1), s.flagIdx < |t.flags| && t.flags[s.flagIdx])
  }

  function NextHash(t: Input, s: Progress): (Progress, Option<Hash>) {
    (s.(hashIdx := s.hashIdx + 1), if s.hashIdx < |t.hashes| then Some(t.hashes[s.hashIdx]) else None)
  }

  function CombineHashes(D: DoubleHash, left: Option<Hash>, right: Option<Hash>): Option<Hash> {
    if left.None? || right.None? then None else Some(D(left.value, right.value))
  }

  /** The conversion `uint32(x)`. */
  function Low32(x: nat): (low: uint32)
    ensures x < TWO_TO_THE_32 ==> low == x
  {
    x % 0x1_0000_0000
  }

  predicate HasRightChild(t: Input, height: nat, pos: nat)
    requires height > 0
  {
    Low32(pos * 2 + 1) < TreeWidth(height - 1, t.totalTxs)
  }

  /** What a visit of node (`height`, `pos`) consumes, records and returns. */
  function Walk(t: Input, height: nat, pos: nat, s: Progress): (Progress, Option<Hash>)
    decreases height
  {
    var (s0, flag) := NextFlag(t, s);
    if height == 0 then
      var (s1, hash) := NextHash(t, s0);
      (if flag && Low32(pos) < t.totalTxs then s1.(matched := s1.matched + [hash]) else s1, hash)
    else if !flag then
      NextHash(t, s0)
    else
      var (s1, left) := Walk(t, height - 1, pos * 2, s0);
      if HasRightChild(t, height, pos) then
        var (s2, right) := Walk(t, height - 1, pos * 2 + 1, s1);
        (if left.Some? && left == right then s2.(dupFound := true) else s2, CombineHashes(t.D, left, right))
      else
        (s1, CombineHashes(t.D, left, left))
  }

  class TreeTraversal {
    const input: Input
    var hashIdx: nat
    var flagIdx: nat
    var matched: seq<Option<Hash>>
    var dupFound: bool

    constructor (input: Input)
      ensures this.input == input && State() == START
    {
      this.input := input;
      hashIdx, flagIdx, matched, dupFound := 0, 0, [], false;
    }

    function State(): Progress
      reads this
    {
      Progress(flagIdx, hashIdx, matched, dupFound)
    }

    method TakeFlag() returns (flag: bool)
      modifies this
      ensures (State(), flag) == NextFlag(input, old(State()))
    {
      flag := false;
      if flagIdx < |input.flags| {
        flag := input.flags[flagIdx];
      }
      flagIdx := flagIdx + 1;
    }

    method TakeHash() returns (hash: Option<Hash>)
      modifies this
      ensures (State(), hash) == NextHash(input, old(State()))
    {
      hash := None;
      if hashIdx < |input.hashes| {
        hash := Some(input.hashes[hashIdx]);
      }
      hashIdx := hashIdx + 1;
    }

    /** Visits one node.  Every node visited lies inside its level, so the guard
        on leaf positions never refuses a flagged leaf. */
    method Traverse(height: nat, pos: nat) returns (root: Option<Hash>)
      requires pos < LevelWidth(input.totalTxs, height)
      modifies this
      ensures (State(), root) == Walk(input, height, pos, old(State()))
      decreases height
    {
      var flag := TakeFlag();
      if height == 0 {
        root := TakeHash();
        assert Low32(pos) < input.totalTxs;
        if flag && Low32(pos) < input.totalTxs {
          matched := matched + [root];
        }
        return;
      }
      if !flag {
        root := TakeHash();
        return;
      }
      ChildrenInLevel(input, height, pos);
      var left := Traverse(height - 1, pos * 2);
      var rightPos := pos * 2 + 1;
      if Low32(rightPos) < TreeWidth(height - 1, input.totalTxs) {
        var right := Traverse(height - 1, rightPos);
        if left.Some? && right.Some? && left == right {
          dupFound := true;
        }
        root := CombineHashes(input.D, left, right);
        return;
      }
      root := CombineHashes(input.D, left, left);
    }
  }

  lemma {:induction false} LevelFitsWord(n: uint32, h: nat)
    ensures LevelWidth(n, h) <= n
  {
    if h > 0 { LevelFitsWord(n, h - 1); }
  }

  /** Visits stay inside the tree: a left child is always in the level below, a
      right child whenever the code finds one, and no position ever wraps. */
  lemma ChildrenInLevel(t: Input, height: nat, pos: nat)
    requires height > 0 && pos < LevelWidth(t.totalTxs, height)
    ensures pos * 2 < LevelWidth(t.totalTxs, height - 1)
    ensures pos * 2 + 1 < TWO_TO_THE_32
    ensures HasRightChild(t, height, pos) ==> pos * 2 + 1 < LevelWidth(t.totalTxs, height - 1)
  {
    LevelFitsWord(t.totalTxs, height - 1);
    if t.totalTxs == 0 { LevelFitsWord(0, height); }
    WidthNeverOver(height - 1, t.totalTxs);
  }

  // ----- The verifier -----

  datatype MerkleResult = MerkleResult(valid: bool, computedRoot: Option<Hash>, matchedTxIDs: seq<Option<Hash>>)

  const INVALID := MerkleResult(false, None, [])

  function Verified(D: DoubleHash, hashes: seq<Hash>, flagBytes: bytes, totalTxs: uint32, expectedRoot: Option<Hash>)
    : MerkleResult
  {
    if totalTxs == 0 then INVALID
    else
      var (s, root) := Walk(Input(D, hashes, Expanded(flagBytes), totalTxs), CalcTreeHeight(totalTxs), 0, START);
      if s.hashIdx != |hashes| || (s.flagIdx + 7) / 8 != |flagBytes| || s.dupFound then INVALID
      else MerkleResult(root.Some? && root == expectedRoot, root, s.matched)
  }

  method VerifyPartialMerkleTree(D: DoubleHash, hashes: seq<Hash>, flagBytes: bytes, totalTxs: uint32,
                                 expectedRoot: Option<Hash>)
    returns (result: MerkleResult)
    ensures result == Verified(D, hashes, flagBytes, totalTxs, expectedRoot)
  {
    if totalTxs == 0 {
      return INVALID;
    }
    var flags := ExpandFlags(flagBytes);
    var t := new TreeTraversal(Input(D, hashes, flags, totalTxs));
    HeightIsLeast(totalTxs);
    var height := CalcTreeHeight(totalTxs);
    var root := t.Traverse(height, 0);
    if t.hashIdx != |hashes| {
      return INVALID;
    }
    if (t.flagIdx + 7) / 8 != |flagBytes| {
      return INVALID;
    }
    if t.dupFound {
      return INVALID;
    }
    var valid := root.Some? && expectedRoot.Some? && root == expectedRoot;
    return MerkleResult(valid, root, t.matched);
  }
}
