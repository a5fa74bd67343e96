/**
 Exactly which proofs the verifier accepts, and what it then returns: those that spell
 out a partial tree of the block's shape, flag by flag and hash by hash, with fewer
 than eight flags left over.
 */
module MerkleAcceptance {
  import opened Bytes
  import opened MerkleTree
  import opened PartialMerkle
  import MerkleCompleteness
  import MerkleSoundness

  // ----- Partial trees -----

  /** A block's tree cut back: leaves that are wanted or not, nodes of which only the hash
      is known, and nodes with two children or with one that is paired with itself. */
  datatype Partial =
    | Leaf(hash: Hash, wanted: bool)
    | Cut(hash: Hash)
    | Fork(left: Partial, right: Partial)
    | Lone(child: Partial)

  /** `p` stands at node (`height`, `pos`) of a block of `n` transactions. */
  predicate Shaped(p: Partial, n: uint32, height: nat, pos: nat)
    decreases p
  {
    match p
    case Leaf(_, _) => height == 0
    case Cut(_) => height > 0
    case Fork(left, right) =>
      && height > 0 && 2 * pos + 1 < TreeWidth(height - 1, n)
      && Shaped(left, n, height - 1, 2 * pos) && Shaped(right, n, height - 1, 2 * pos + 1)
    case Lone(child) =>
      height > 0 && 2 * pos + 1 >= TreeWidth(height - 1, n) && Shaped(child, n, height - 1, 2 * pos)
  }

  /** One flag a node, from the top down and from left to right. */
  function Flags(p: Partial): seq<bool> {
    match p
    case Leaf(_, wanted) => [wanted]
    case Cut(_) => [false]
    case Fork(left, right) => [true] + (Flags(left) + Flags(right))
    case Lone(child) => [true] + Flags(child)
  }

  /** One hash a leaf or cut node, from left to right. */
  function Hashes(p: Partial): seq<Hash> {
    match p
    case Leaf(hash, _) => [hash]
    case Cut(hash) => [hash]
    case Fork(left, right) => Hashes(left) + Hashes(right)
    case Lone(child) => Hashes(child)
  }

  function RootHash(D: DoubleHash, p: Partial): Hash {
    match p
    case Leaf(hash, _) => hash
    case Cut(hash) => hash
    case Fork(left, right) => D(RootHash(D, left), RootHash(D, right))
    case Lone(child) => D(RootHash(D, child), RootHash(D, child))
  }

  /** Two children have the same hash somewhere. */
  predicate HasTwins(D: DoubleHash, p: Partial) {
    match p
    case Fork(left, right) => RootHash(D, left) == RootHash(D, right) || HasTwins(D, left) || HasTwins(D, right)
    case Lone(child) => HasTwins(D, child)
    case _ => false
  }

  function WantedIds(p: Partial): seq<Option<Hash>> {
    match p
    case Leaf(hash, wanted) => if wanted then [Some(hash)] else []
    case Cut(_) => []
    case Fork(left, right) => WantedIds(left) + WantedIds(right)
    case Lone(child) => WantedIds(child)
  }

  // ----- The traversal reads a partial tree -----

  /** What is read of the streams from `s` on is `p`. */
  ghost predicate Reads(t: Input, s: Progress, p: Partial) {
    && MerkleCompleteness.At(t.flags, s.flagIdx, Flags(p))
    && MerkleCompleteness.At(t.hashes, s.hashIdx, Hashes(p))
  }

  function Taken(D: DoubleHash, s: Progress, p: Partial): Progress {
    Progress(s.flagIdx + |Flags(p)|, s.hashIdx + |Hashes(p)|, s.matched + WantedIds(p), s.dupFound || HasTwins(D, p))
  }

  /** Visiting a node of which the streams hold `p` consumes `p` and computes its hash. */
  lemma {:induction false} WalkTakes(t: Input, height: nat, pos: nat, s: Progress, p: Partial)
    requires Shaped(p, t.totalTxs, height, pos) && pos < LevelWidth(t.totalTxs, height) && Reads(t, s, p)
    ensures Walk(t, height, pos, s) == (Taken(t.D, s, p), Some(RootHash(t.D, p)))
    decreases p
  {
    hide *;
    match p
    case Leaf(_, _) => WalkLeaf(t, height, pos, s, p);
    case Cut(_) => WalkCut(t, height, pos, s, p);
    case Fork(left, right) =>
      var s0, s1 := ForkReads(t, height, pos, s, p);
      WalkTakes(t, height - 1, 2 * pos, s0, left);
      WalkTakes(t, height - 1, 2 * pos + 1, s1, right);
      WalkFork(t, height, pos, s, p, s0, s1);
    case Lone(child) =>
      var s0 := LoneReads(t, height, pos, s, p);
      WalkTakes(t, height - 1, 2 * pos, s0, child);
      WalkLone(t, height, pos, s, p, s0);
  }

  lemma WalkLeaf(t: Input, height: nat, pos: nat, s: Progress, p: Partial)
    requires p.Leaf? && Shaped(p, t.totalTxs, height, pos) && pos < LevelWidth(t.totalTxs, height) && Reads(t, s, p)
    ensures Walk(t, height, pos, s) == (Taken(t.D, s, p), Some(RootHash(t.D, p)))
  {
    assert t.flags[s.flagIdx] == p.wanted && t.hashes[s.hashIdx] == p.hash;
    assert Low32(pos) == pos && s.matched + [] == s.matched;
  }

  lemma WalkCut(t: Input, height: nat, pos: nat, s: Progress, p: Partial)
    requires p.Cut? && Shaped(p, t.totalTxs, height, pos) && Reads(t, s, p)
    ensures Walk(t, height, pos, s) == (Taken(t.D, s, p), Some(RootHash(t.D, p)))
  {
    assert t.flags[s.flagIdx] == false && t.hashes[s.hashIdx] == p.hash;
    assert s.matched + [] == s.matched;
  }

  /** The word the code computes for a right child's position is that position. */
  lemma RightChild(t: Input, height: nat, pos: nat)
    requires height > 0 && pos < LevelWidth(t.totalTxs, height)
    ensures HasRightChild(t, height, pos) <==> 2 * pos + 1 < TreeWidth(height - 1, t.totalTxs)
    ensures 2 * pos < LevelWidth(t.totalTxs, height - 1)
    ensures HasRightChild(t, height, pos) ==> 2 * pos + 1 < LevelWidth(t.totalTxs, height - 1)
  {
    hide TreeWidth, LevelWidth;
    ChildrenInLevel(t, height, pos);
  }

  lemma ForkReads(t: Input, height: nat, pos: nat, s: Progress, p: Partial) returns (s0: Progress, s1: Progress)
    requires p.Fork? && Shaped(p, t.totalTxs, height, pos) && pos < LevelWidth(t.totalTxs, height) && Reads(t, s, p)
    ensures height > 0 && NextFlag(t, s) == (s0, true) && s1 == Taken(t.D, s0, p.left)
    ensures Shaped(p.left, t.totalTxs, height - 1, 2 * pos) && 2 * pos < LevelWidth(t.totalTxs, height - 1)
    ensures Shaped(p.right, t.totalTxs, height - 1, 2 * pos + 1) && 2 * pos + 1 < LevelWidth(t.totalTxs, height - 1)
    ensures HasRightChild(t, height, pos) && Reads(t, s0, p.left) && Reads(t, s1, p.right)
  {
    hide MerkleCompleteness.At, TreeWidth, LevelWidth, HasRightChild, HasTwins, WantedIds;
    RightChild(t, height, pos);
    s0 := NextFlag(t, s).0;
    s1 := Taken(t.D, s0, p.left);
    FlagThen(t.flags, s.flagIdx, true, Flags(p.left) + Flags(p.right));
    MerkleCompleteness.AtSplit(t.flags, s.flagIdx + 1, Flags(p.left), Flags(p.right));
    MerkleCompleteness.AtSplit(t.hashes, s.hashIdx, Hashes(p.left), Hashes(p.right));
  }

  lemma LoneReads(t: Input, height: nat, pos: nat, s: Progress, p: Partial) returns (s0: Progress)
    requires p.Lone? && Shaped(p, t.totalTxs, height, pos) && pos < LevelWidth(t.totalTxs, height) && Reads(t, s, p)
    ensures height > 0 && NextFlag(t, s) == (s0, true)
    ensures Shaped(p.child, t.totalTxs, height - 1, 2 * pos) && 2 * pos < LevelWidth(t.totalTxs, height - 1)
    ensures !HasRightChild(t, height, pos) && Reads(t, s0, p.child)
  {
    hide MerkleCompleteness.At, TreeWidth, LevelWidth, HasRightChild;
    RightChild(t, height, pos);
    s0 := NextFlag(t, s).0;
    FlagThen(t.flags, s.flagIdx, true, Flags(p.child));
  }

  lemma FlagThen(flags: seq<bool>, i: nat, first: bool, more: seq<bool>)
    requires MerkleCompleteness.At(flags, i, [first] + more)
    ensures i < |flags| && flags[i] == first && MerkleCompleteness.At(flags, i + 1, more)
  {
    MerkleCompleteness.AtSplit(flags, i, [first], more);
    assert flags[i] == [first][0];
  }

  lemma WalkFork(t: Input, height: nat, pos: nat, s: Progress, p: Partial, s0: Progress, s1: Progress)
    requires p.Fork? && height > 0 && NextFlag(t, s) == (s0, true) && HasRightChild(t, height, pos)
    requires s1 == Taken(t.D, s0, p.left)
    requires Walk(t, height - 1, 2 * pos, s0) == (s1, Some(RootHash(t.D, p.left)))
    requires Walk(t, height - 1, 2 * pos + 1, s1) == (Taken(t.D, s1, p.right), Some(RootHash(t.D, p.right)))
    ensures Walk(t, height, pos, s) == (Taken(t.D, s, p), Some(RootHash(t.D, p)))
  {
    hide HasRightChild;
    assert Walk(t, height - 1, pos * 2, s0) == Walk(t, height - 1, 2 * pos, s0);
    assert s.matched + WantedIds(p.left) + WantedIds(p.right) == s.matched + WantedIds(p);
  }

  lemma WalkLone(t: Input, height: nat, pos: nat, s: Progress, p: Partial, s0: Progress)
    requires p.Lone? && height > 0 && NextFlag(t, s) == (s0, true) && !HasRightChild(t, height, pos)
    requires Walk(t, height - 1, 2 * pos, s0) == (Taken(t.D, s0, p.child), Some(RootHash(t.D, p.child)))
    ensures Walk(t, height, pos, s) == (Taken(t.D, s, p), Some(RootHash(t.D, p)))
  {
    hide HasRightChild;
    assert Walk(t, height - 1, pos * 2, s0) == Walk(t, height - 1, 2 * pos, s0);
  }

  /** A visit that stays inside both streams reads a partial tree. */
  lemma {:induction false} TreeRead(t: Input, height: nat, pos: nat, s: Progress) returns (p: Partial)
    requires pos < LevelWidth(t.totalTxs, height)
    requires Walk(t, height, pos, s).0.flagIdx <= |t.flags| && Walk(t, height, pos, s).0.hashIdx <= |t.hashes|
    ensures Shaped(p, t.totalTxs, height, pos) && Reads(t, s, p)
  {
    hide *;
    MerkleSoundness.VisitBound(t, height, pos, s);
    var (s0, flag) := NextFlag(t, s);
    if height == 0 || !flag {
      p := EndRead(t, height, pos, s);
    } else {
      MerkleSoundness.InnerWalk(t, height, pos, s);
      RightChild(t, height, pos);
      var s1 := Walk(t, height - 1, pos * 2, s0).0;
      if HasRightChild(t, height, pos) {
        MerkleSoundness.VisitBound(t, height - 1, pos * 2 + 1, s1);
        var left := TreeRead(t, height - 1, pos * 2, s0);
        var right := TreeRead(t, height - 1, pos * 2 + 1, s1);
        WalkTakes(t, height - 1, pos * 2, s0, left);
        p := Fork(left, right);
        ForkRead(t, height, pos, s, p);
      } else {
        var child := TreeRead(t, height - 1, pos * 2, s0);
        p := Lone(child);
        LoneRead(t, height, pos, s, p);
      }
    }
  }

  lemma EndRead(t: Input, height: nat, pos: nat, s: Progress) returns (p: Partial)
    requires height == 0 || !NextFlag(t, s).1
    requires Walk(t, height, pos, s).0.flagIdx <= |t.flags| && Walk(t, height, pos, s).0.hashIdx <= |t.hashes|
    ensures Shaped(p, t.totalTxs, height, pos) && Reads(t, s, p)
  {
    var hash := t.hashes[s.hashIdx];
    p := if height == 0 then Leaf(hash, t.flags[s.flagIdx]) else Cut(hash);
  }

  lemma ForkRead(t: Input, height: nat, pos: nat, s: Progress, p: Partial)
    requires p.Fork? && height > 0 && NextFlag(t, s).1
    requires 2 * pos + 1 < TreeWidth(height - 1, t.totalTxs)
    requires Shaped(p.left, t.totalTxs, height - 1, pos * 2) && Shaped(p.right, t.totalTxs, height - 1, pos * 2 + 1)
    requires Reads(t, NextFlag(t, s).0, p.left) && Reads(t, Taken(t.D, NextFlag(t, s).0, p.left), p.right)
    ensures Shaped(p, t.totalTxs, height, pos) && Reads(t, s, p)
  {
    hide TreeWidth, HasTwins, WantedIds;
    AtJoin(t.flags, s.flagIdx + 1, Flags(p.left), Flags(p.right));
    AtJoin(t.flags, s.flagIdx, [true], Flags(p.left) + Flags(p.right));
    AtJoin(t.hashes, s.hashIdx, Hashes(p.left), Hashes(p.right));
  }

  lemma LoneRead(t: Input, height: nat, pos: nat, s: Progress, p: Partial)
    requires p.Lone? && height > 0 && NextFlag(t, s).1
    requires 2 * pos + 1 >= TreeWidth(height - 1, t.totalTxs)
    requires Shaped(p.child, t.totalTxs, height - 1, pos * 2) && Reads(t, NextFlag(t, s).0, p.child)
    ensures Shaped(p, t.totalTxs, height, pos) && Reads(t, s, p)
  {
    hide TreeWidth;
    AtJoin(t.flags, s.flagIdx, [true], Flags(p.child));
  }

  lemma AtJoin<T>(stream: seq<T>, i: nat, a: seq<T>, b: seq<T>)
    requires MerkleCompleteness.At(stream, i, a) && MerkleCompleteness.At(stream, i + |a|, b)
    ensures MerkleCompleteness.At(stream, i, a + b)
  {
  }

  // ----- Acceptance -----

  /** The proof spells out `p`: every hash of it, every flag of it, fewer than eight flags
      after those, and no twins. */
  ghost predicate SpellsOut(D: DoubleHash, hashes: seq<Hash>, flagBytes: bytes, totalTxs: uint32, p: Partial) {
    && totalTxs > 0 && Shaped(p, totalTxs, CalcTreeHeight(totalTxs), 0) && !HasTwins(D, p)
    && hashes == Hashes(p)
    && Flags(p) <= Expanded(flagBytes) && 8 * |flagBytes| - |Flags(p)| < 8
  }

  /** A proof that spells out a partial tree is judged by that tree's hash and yields its
      wanted leaves; every other proof, and every proof for no transactions, is refused. */
  lemma Judged(D: DoubleHash, hashes: seq<Hash>, flagBytes: bytes, totalTxs: uint32, expectedRoot: Option<Hash>)
    ensures var r := Verified(D, hashes, flagBytes, totalTxs, expectedRoot);
            && (forall p :: SpellsOut(D, hashes, flagBytes, totalTxs, p) ==>
                  r == MerkleResult(expectedRoot == Some(RootHash(D, p)), Some(RootHash(D, p)), WantedIds(p)))
            && ((forall p :: !SpellsOut(D, hashes, flagBytes, totalTxs, p)) ==> r == MerkleResult(false, None, []))
  {
    hide *;
    forall p | SpellsOut(D, hashes, flagBytes, totalTxs, p)
      ensures Verified(D, hashes, flagBytes, totalTxs, expectedRoot) ==
              MerkleResult(expectedRoot == Some(RootHash(D, p)), Some(RootHash(D, p)), WantedIds(p))
    {
      SpelledIsJudged(D, hashes, flagBytes, totalTxs, expectedRoot, p);
    }
    if Verified(D, hashes, flagBytes, totalTxs, expectedRoot) != MerkleResult(false, None, []) {
      var p := JudgedIsSpelled(D, hashes, flagBytes, totalTxs, expectedRoot);
    }
  }

  /** Acceptance, for every input. */
  lemma AcceptedExactly(D: DoubleHash, hashes: seq<Hash>, flagBytes: bytes, totalTxs: uint32,
                        expectedRoot: Option<Hash>)
    ensures Verified(D, hashes, flagBytes, totalTxs, expectedRoot).valid <==>
            exists p :: SpellsOut(D, hashes, flagBytes, totalTxs, p) && expectedRoot == Some(RootHash(D, p))
  {
    hide *;
    Judged(D, hashes, flagBytes, totalTxs, expectedRoot);
  }

  lemma SpelledIsJudged(D: DoubleHash, hashes: seq<Hash>, flagBytes: bytes, totalTxs: uint32,
                        expectedRoot: Option<Hash>, p: Partial)
    requires SpellsOut(D, hashes, flagBytes, totalTxs, p)
    ensures Verified(D, hashes, flagBytes, totalTxs, expectedRoot) ==
            MerkleResult(expectedRoot == Some(RootHash(D, p)), Some(RootHash(D, p)), WantedIds(p))
  {
    hide CalcTreeHeight, Walk, Shaped, Flags, Hashes, RootHash, WantedIds, HasTwins, Expanded;
    var t := Input(D, hashes, Expanded(flagBytes), totalTxs);
    HeightIsLeast(totalTxs);
    assert Reads(t, START, p);
    WalkTakes(t, CalcTreeHeight(totalTxs), 0, START, p);
  }

  lemma JudgedIsSpelled(D: DoubleHash, hashes: seq<Hash>, flagBytes: bytes, totalTxs: uint32,
                        expectedRoot: Option<Hash>) returns (p: Partial)
    requires Verified(D, hashes, flagBytes, totalTxs, expectedRoot) != MerkleResult(false, None, [])
    ensures SpellsOut(D, hashes, flagBytes, totalTxs, p)
  {
    hide CalcTreeHeight, Walk, Shaped, Flags, Hashes, RootHash, WantedIds, HasTwins, Expanded;
    var t := Input(D, hashes, Expanded(flagBytes), totalTxs);
    HeightIsLeast(totalTxs);
    p := TreeRead(t, CalcTreeHeight(totalTxs), 0, START);
    WalkTakes(t, CalcTreeHeight(totalTxs), 0, START, p);
    assert t.flags[..|Flags(p)|] == Flags(p);
  }

  /** Nothing can be added to an accepted proof: with any further hash or flag byte it is
      refused, whatever root is expected. */
  lemma NothingMayFollow(D: DoubleHash, hashes: seq<Hash>, flagBytes: bytes, totalTxs: uint32,
                         expectedRoot: Option<Hash>, moreHashes: seq<Hash>, moreBytes: bytes, anyRoot: Option<Hash>)
    requires Verified(D, hashes, flagBytes, totalTxs, expectedRoot).valid
    requires moreHashes != [] || moreBytes != []
    ensures Verified(D, hashes + moreHashes, flagBytes + moreBytes, totalTxs, anyRoot) == MerkleResult(false, None, [])
  {
    hide CalcTreeHeight, Walk, Expanded;
    ExpandedConcat(flagBytes, moreBytes);
    MerkleSoundness.AcceptedReadsOnlyPresent(D, hashes, flagBytes, totalTxs, expectedRoot, moreHashes,
                                             Expanded(moreBytes));
  }

  lemma {:induction false} ExpandedConcat(a: bytes, b: bytes)
    ensures Expanded(a + b) == Expanded(a) + Expanded(b)
  {
    if a == [] {
      assert a + b == b;
    } else {
      assert (a + b)[1..] == a[1..] + b;
      ExpandedConcat(a[1..], b);
    }
  }

  // ----- The order of the flags -----

  /** Flag `i` of byte `k` is the bit of that byte worth 2^i. */
  lemma {:induction false} FlagAt(flagBytes: bytes, k: nat, i: nat)
    requires k < |flagBytes| && i < 8
    ensures Expanded(flagBytes)[8 * k + i] <==> flagBytes[k] as int / Pow2(i) % 2 == 1
  {
    hide Pow2, BitAt;
    if k == 0 {
      BitIsWorth(flagBytes[0], i);
    } else {
      FlagAt(flagBytes[1..], k - 1, i);
    }
  }

  lemma {:induction false} BitIsWorth(b: nat, i: nat)
    ensures BitAt(b, i) <==> b / Pow2(i) % 2 == 1
  {
    hide ShiftRight;
    ShiftDivides(b, i);
  }

  lemma {:induction false} ShiftDivides(x: nat, h: nat)
    ensures ShiftRight(x, h) == x / Pow2(h)
  {
    if h > 0 {
      ShiftDivides(x / 2, h - 1);
      hide *;
      Pow2Step(h);
      DivideTwice(x, 2, Pow2(h - 1));
    }
  }

  lemma Pow2Step(h: nat)
    requires h > 0
    ensures Pow2(h) == 2 * Pow2(h - 1) && Pow2(h - 1) >= 1
  {
  }
}
