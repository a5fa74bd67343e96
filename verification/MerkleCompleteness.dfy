/**
 The other direction: what the reference BIP 37 builder emits for a block and a
 set of wanted transactions is accepted and yields exactly the wanted ids,
 unless it descends a node whose two children are equal.
 */
module MerkleCompleteness {
  import opened Bytes
  import opened MerkleTree
  import opened PartialMerkle
  import opened MerkleSoundness

  // ----- The reference builder (BIP 37, "constructing a partial merkle tree") -----

  /** Some wanted transaction is a leaf under the node. */
  predicate HasMatch(wanted: seq<bool>, height: nat, pos: nat) {
    exists p :: FirstLeaf(height, pos) <= p < FirstLeaf(height, pos + 1) && p < |wanted| && wanted[p]
  }

  predicate RightExists(n: nat, height: nat, pos: nat)
    requires height > 0
  {
    2 * pos + 1 < LevelWidth(n, height - 1)
  }

  function BuildFlags(wanted: seq<bool>, height: nat, pos: nat): seq<bool>
    decreases height
  {
    if height == 0 || !HasMatch(wanted, height, pos) then [HasMatch(wanted, height, pos)]
    else
      var left := BuildFlags(wanted, height - 1, 2 * pos);
      var right := if RightExists(|wanted|, height, pos) then BuildFlags(wanted, height - 1, 2 * pos + 1) else [];
      [true] + (left + right)
  }

  function BuildHashes(D: DoubleHash, ids: seq<Hash>, wanted: seq<bool>, height: nat, pos: nat): seq<Hash>
    requires |ids| == |wanted| && pos < LevelWidth(|ids|, height)
    decreases height
  {
    if height == 0 || !HasMatch(wanted, height, pos) then [NodeHash(D, ids, height, pos)]
    else
      var left := BuildHashes(D, ids, wanted, height - 1, 2 * pos);
      var right := if RightExists(|ids|, height, pos) then BuildHashes(D, ids, wanted, height - 1, 2 * pos + 1) else [];
      left + right
  }

  /** The wanted ids among positions `lo` to `hi`, in block order. */
  function Selected(ids: seq<Hash>, wanted: seq<bool>, lo: nat, hi: nat): seq<Option<Hash>>
    requires |ids| == |wanted|
    decreases |ids| - lo
  {
    if lo >= hi || lo >= |ids| then []
    else (if wanted[lo] then [Some(ids[lo])] else []) + Selected(ids, wanted, lo + 1, hi)
  }

  /** A node the builder descends has two children with the same hash. */
  predicate DescendsTwins(D: DoubleHash, ids: seq<Hash>, wanted: seq<bool>, height: nat, pos: nat)
    requires |ids| == |wanted| && pos < LevelWidth(|ids|, height)
    decreases height
  {
    && height > 0
    && HasMatch(wanted, height, pos)
    && (|| DescendsTwins(D, ids, wanted, height - 1, 2 * pos)
        || (&& RightExists(|ids|, height, pos)
            && (|| NodeHash(D, ids, height - 1, 2 * pos) == NodeHash(D, ids, height - 1, 2 * pos + 1)
                || DescendsTwins(D, ids, wanted, height - 1, 2 * pos + 1))))
  }

  /** A byte whose bits, least significant first, are the given ones. */
  function PackByte(bits: seq<bool>): (b: nat)
    ensures b < Pow2(|bits|)
  {
    if bits == [] then 0 else (if bits[0] then 1 else 0) + 2 * PackByte(bits[1..])
  }

  function Pack(bits: seq<bool>): (packed: bytes)
    ensures |packed| == (|bits| + 7) / 8
    decreases |bits|
  {
    if bits == [] then []
    else
      var first := if |bits| < 8 then bits else bits[..8];
      assert PackByte(first) < 256 by { Pow2Monotone(|first|, 8); assert Pow2(8) == 256; }
      [PackByte(first)] + Pack(bits[|first|..])
  }

  // ----- Streams -----

  /** `part` is what `stream` holds from index `i`. */
  ghost predicate At<T>(stream: seq<T>, i: nat, part: seq<T>) {
    && i + |part| <= |stream|
    && forall k :: i <= k < i + |part| ==> stream[k] == part[k - i]
  }

  lemma AtSplit<T>(stream: seq<T>, i: nat, a: seq<T>, b: seq<T>)
    requires At(stream, i, a + b)
    ensures At(stream, i, a) && At(stream, i + |a|, b)
  {
    forall k | i <= k < i + |a| ensures stream[k] == a[k - i] {
      assert (a + b)[k - i] == a[k - i];
    }
    forall k | i + |a| <= k < i + |a| + |b| ensures stream[k] == b[k - i - |a|] {
      assert (a + b)[k - i] == b[k - i - |a|];
    }
  }

  lemma {:induction false} PackedBit(bits: seq<bool>, i: nat)
    ensures BitAt(PackByte(bits), i) == (i < |bits| && bits[i])
  {
    if bits == [] {
      ShiftOut(0, i);
    } else if i > 0 {
      PackedBit(bits[1..], i - 1);
    }
  }

  lemma {:induction false} ExpandedPack(bits: seq<bool>)
    ensures At(Expanded(Pack(bits)), 0, bits)
    ensures |bits| <= |Expanded(Pack(bits))| < |bits| + 8
    ensures forall k :: |bits| <= k < |Expanded(Pack(bits))| ==> !Expanded(Pack(bits))[k]
    decreases |bits|
  {
    if bits != [] {
      var first := if |bits| < 8 then bits else bits[..8];
      var rest := bits[|first|..];
      ExpandedPack(rest);
      var packed := Pack(bits);
      assert packed[1..] == Pack(rest);
      var flags := Expanded(packed);
      forall k | 0 <= k < |bits| ensures flags[k] == bits[k] {
        if k < |first| {
          PackedBit(first, k);
        } else {
          assert flags[k] == Expanded(Pack(rest))[k - 8];
        }
      }
      forall k | |bits| <= k < |flags| ensures !flags[k] {
        if k < 8 {
          PackedBit(first, k);
        } else {
          assert flags[k] == Expanded(Pack(rest))[k - 8];
        }
      }
    }
  }

  // ----- Selecting -----

  lemma {:induction false} SelectedSplit(ids: seq<Hash>, wanted: seq<bool>, lo: nat, mid: nat, hi: nat)
    requires |ids| == |wanted| && lo <= mid <= hi
    ensures Selected(ids, wanted, lo, hi) == Selected(ids, wanted, lo, mid) + Selected(ids, wanted, mid, hi)
    decreases mid - lo
  {
    if lo < mid && lo < |ids| { SelectedSplit(ids, wanted, lo + 1, mid, hi); }
  }

  lemma {:induction false} SelectedNone(ids: seq<Hash>, wanted: seq<bool>, lo: nat, hi: nat)
    requires |ids| == |wanted| && forall p :: lo <= p < hi && p < |wanted| ==> !wanted[p]
    ensures Selected(ids, wanted, lo, hi) == []
    decreases |ids| - lo
  {
    if lo < hi && lo < |ids| { SelectedNone(ids, wanted, lo + 1, hi); }
  }

  // ----- The traversal follows the builder -----

  lemma RightChildAgrees(t: Input, height: nat, pos: nat)
    requires 1 <= t.totalTxs <= 0x8000_0000 && 0 < height <= CalcTreeHeight(t.totalTxs)
    requires pos < LevelWidth(t.totalTxs, height)
    ensures HasRightChild(t, height, pos) == RightExists(t.totalTxs, height, pos)
    ensures 2 * pos < LevelWidth(t.totalTxs, height - 1)
  {
    ChildrenInLevel(t, height, pos);
    WidthExact(height - 1, t.totalTxs);
  }

  /** What the visit of a node emitted by the builder must do. */
  ghost predicate Rebuilds(t: Input, ids: seq<Hash>, wanted: seq<bool>, height: nat, pos: nat, s: Progress)
    requires |ids| == |wanted| && pos < LevelWidth(|ids|, height)
  {
    var (s', root) := Walk(t, height, pos, s);
    && root == Some(NodeHash(t.D, ids, height, pos))
    && s'.flagIdx == s.flagIdx + |BuildFlags(wanted, height, pos)|
    && s'.hashIdx == s.hashIdx + |BuildHashes(t.D, ids, wanted, height, pos)|
    && s'.matched == s.matched + Selected(ids, wanted, FirstLeaf(height, pos), FirstLeaf(height, pos + 1))
    && s'.dupFound == (s.dupFound || DescendsTwins(t.D, ids, wanted, height, pos))
  }

  ghost predicate Feeds(t: Input, ids: seq<Hash>, wanted: seq<bool>, height: nat, pos: nat, s: Progress)
    requires |ids| == |wanted| && pos < LevelWidth(|ids|, height)
  {
    && At(t.flags, s.flagIdx, BuildFlags(wanted, height, pos))
    && At(t.hashes, s.hashIdx, BuildHashes(t.D, ids, wanted, height, pos))
  }

  lemma {:induction false} WalkRebuilds(t: Input, ids: seq<Hash>, wanted: seq<bool>, height: nat, pos: nat, s: Progress)
    requires |ids| == |wanted| == t.totalTxs && 1 <= |ids| <= 0x8000_0000
    requires height <= CalcTreeHeight(|ids|) && pos < LevelWidth(|ids|, height)
    requires Feeds(t, ids, wanted, height, pos, s)
    ensures Rebuilds(t, ids, wanted, height, pos, s)
  {
    hide *;
    if height == 0 {
      LeafRebuilds(t, ids, wanted, pos, s);
    } else if !HasMatch(wanted, height, pos) {
      PrunedRebuilds(t, ids, wanted, height, pos, s);
    } else {
      var s0, s1 := Descend(t, ids, wanted, height, pos, s);
      WalkRebuilds(t, ids, wanted, height - 1, 2 * pos, s0);
      if RightExists(|ids|, height, pos) {
        FeedsRight(t, ids, wanted, height, pos, s);
        WalkRebuilds(t, ids, wanted, height - 1, 2 * pos + 1, s1);
        TwoRebuild(t, ids, wanted, height, pos, s);
      } else {
        OneRebuilds(t, ids, wanted, height, pos, s);
      }
    }
  }

  lemma LeafRebuilds(t: Input, ids: seq<Hash>, wanted: seq<bool>, pos: nat, s: Progress)
    requires |ids| == |wanted| == t.totalTxs && pos < LevelWidth(|ids|, 0) && Feeds(t, ids, wanted, 0, pos, s)
    ensures Rebuilds(t, ids, wanted, 0, pos, s)
  {
    assert HasMatch(wanted, 0, pos) == wanted[pos];
    assert t.flags[s.flagIdx] == wanted[pos] && t.hashes[s.hashIdx] == ids[pos];
    assert Selected(ids, wanted, pos + 1, pos + 1) == [];
  }

  lemma PrunedRebuilds(t: Input, ids: seq<Hash>, wanted: seq<bool>, height: nat, pos: nat, s: Progress)
    requires |ids| == |wanted| == t.totalTxs && height > 0 && pos < LevelWidth(|ids|, height)
    requires Feeds(t, ids, wanted, height, pos, s) && !HasMatch(wanted, height, pos)
    ensures Rebuilds(t, ids, wanted, height, pos, s)
  {
    SelectedNone(ids, wanted, FirstLeaf(height, pos), FirstLeaf(height, pos + 1));
    assert !t.flags[s.flagIdx];
  }

  /** Descending: the left child is fed right after the node's own flag. */
  lemma Descend(t: Input, ids: seq<Hash>, wanted: seq<bool>, height: nat, pos: nat, s: Progress)
    returns (s0: Progress, s1: Progress)
    requires |ids| == |wanted| == t.totalTxs && 1 <= |ids| <= 0x8000_0000
    requires 0 < height <= CalcTreeHeight(|ids|) && pos < LevelWidth(|ids|, height)
    requires Feeds(t, ids, wanted, height, pos, s) && HasMatch(wanted, height, pos)
    ensures NextFlag(t, s) == (s0, true) && s1 == Walk(t, height - 1, 2 * pos, s0).0
    ensures 2 * pos < LevelWidth(|ids|, height - 1) && Feeds(t, ids, wanted, height - 1, 2 * pos, s0)
    ensures HasRightChild(t, height, pos) == RightExists(|ids|, height, pos)
    ensures RightExists(|ids|, height, pos) ==> 2 * pos + 1 < LevelWidth(|ids|, height - 1)
  {
    hide BuildFlags, BuildHashes, HasMatch, At, LevelWidth, Walk;
    RightChildAgrees(t, height, pos);
    FlagBit(t.flags, s.flagIdx, wanted, height, pos);
    FlagsSplit(t.flags, s.flagIdx, wanted, height, pos);
    HashesSplit(t.D, t.hashes, s.hashIdx, ids, wanted, height, pos);
    s0 := NextFlag(t, s).0;
    s1 := Walk(t, height - 1, 2 * pos, s0).0;
  }

  lemma FeedsRight(t: Input, ids: seq<Hash>, wanted: seq<bool>, height: nat, pos: nat, s: Progress)
    requires |ids| == |wanted| == t.totalTxs && height > 0 && pos < LevelWidth(|ids|, height)
    requires Feeds(t, ids, wanted, height, pos, s) && HasMatch(wanted, height, pos)
    requires RightExists(|ids|, height, pos) && 2 * pos < LevelWidth(|ids|, height - 1)
    requires Rebuilds(t, ids, wanted, height - 1, 2 * pos, NextFlag(t, s).0)
    ensures Feeds(t, ids, wanted, height - 1, 2 * pos + 1, Walk(t, height - 1, 2 * pos, NextFlag(t, s).0).0)
  {
    hide Walk, LevelWidth, BuildFlags, BuildHashes;
    FlagsSplit(t.flags, s.flagIdx, wanted, height, pos);
    HashesSplit(t.D, t.hashes, s.hashIdx, ids, wanted, height, pos);
  }

  lemma FlagBit(flags: seq<bool>, i: nat, wanted: seq<bool>, height: nat, pos: nat)
    requires At(flags, i, BuildFlags(wanted, height, pos))
    ensures i < |flags| && flags[i] == HasMatch(wanted, height, pos)
  {
    assert flags[i] == BuildFlags(wanted, height, pos)[0];
  }

  lemma FlagsSplit(flags: seq<bool>, i: nat, wanted: seq<bool>, height: nat, pos: nat)
    requires height > 0 && HasMatch(wanted, height, pos) && At(flags, i, BuildFlags(wanted, height, pos))
    ensures At(flags, i + 1, BuildFlags(wanted, height - 1, 2 * pos))
    ensures RightExists(|wanted|, height, pos) ==>
              At(flags, i + 1 + |BuildFlags(wanted, height - 1, 2 * pos)|, BuildFlags(wanted, height - 1, 2 * pos + 1))
  {
    hide LevelWidth, FirstLeaf, HasMatch, At;
    var left := BuildFlags(wanted, height - 1, 2 * pos);
    var right := if RightExists(|wanted|, height, pos) then BuildFlags(wanted, height - 1, 2 * pos + 1) else [];
    assert BuildFlags(wanted, height, pos) == [true] + (left + right);
    AfterHead(flags, i, true, left, right);
  }

  lemma AfterHead<T>(stream: seq<T>, i: nat, x: T, a: seq<T>, b: seq<T>)
    requires At(stream, i, [x] + (a + b))
    ensures At(stream, i + 1, a) && At(stream, i + 1 + |a|, b)
  {
    AtSplit(stream, i, [x], a + b);
    AtSplit(stream, i + 1, a, b);
  }

  lemma HashesSplit(D: DoubleHash, hashes: seq<Hash>, i: nat, ids: seq<Hash>, wanted: seq<bool>, height: nat, pos: nat)
    requires |ids| == |wanted| && height > 0 && HasMatch(wanted, height, pos)
    requires pos < LevelWidth(|ids|, height) && 2 * pos < LevelWidth(|ids|, height - 1)
    requires At(hashes, i, BuildHashes(D, ids, wanted, height, pos))
    ensures At(hashes, i, BuildHashes(D, ids, wanted, height - 1, 2 * pos))
    ensures RightExists(|ids|, height, pos) ==>
              At(hashes, i + |BuildHashes(D, ids, wanted, height - 1, 2 * pos)|,
                 BuildHashes(D, ids, wanted, height - 1, 2 * pos + 1))
  {
    var left := BuildHashes(D, ids, wanted, height - 1, 2 * pos);
    var right := if RightExists(|ids|, height, pos) then BuildHashes(D, ids, wanted, height - 1, 2 * pos + 1) else [];
    AtSplit(hashes, i, left, right);
  }

  lemma TwoRebuild(t: Input, ids: seq<Hash>, wanted: seq<bool>, height: nat, pos: nat, s: Progress)
    requires |ids| == |wanted| == t.totalTxs && height > 0 && pos < LevelWidth(|ids|, height)
    requires HasMatch(wanted, height, pos) && NextFlag(t, s).1
    requires HasRightChild(t, height, pos) && RightExists(|ids|, height, pos) && 2 * pos < LevelWidth(|ids|, height - 1)
    requires Rebuilds(t, ids, wanted, height - 1, 2 * pos, NextFlag(t, s).0)
    requires Rebuilds(t, ids, wanted, height - 1, 2 * pos + 1, Walk(t, height - 1, 2 * pos, NextFlag(t, s).0).0)
    ensures Rebuilds(t, ids, wanted, height, pos, s)
  {
    hide LevelWidth, HasMatch, HasRightChild, Selected;
    var lo, mid, hi := FirstLeaf(height, pos), FirstLeaf(height - 1, 2 * pos + 1), FirstLeaf(height, pos + 1);
    LeavesAreOrdered(height - 1, 2 * pos);
    LeavesAreOrdered(height - 1, 2 * pos + 1);
    SelectedSplit(ids, wanted, lo, mid, hi);
    assert (s.matched + Selected(ids, wanted, lo, mid)) + Selected(ids, wanted, mid, hi)
           == s.matched + (Selected(ids, wanted, lo, mid) + Selected(ids, wanted, mid, hi));
  }

  lemma OneRebuilds(t: Input, ids: seq<Hash>, wanted: seq<bool>, height: nat, pos: nat, s: Progress)
    requires |ids| == |wanted| == t.totalTxs && height > 0 && pos < LevelWidth(|ids|, height)
    requires HasMatch(wanted, height, pos) && NextFlag(t, s).1
    requires !HasRightChild(t, height, pos) && !RightExists(|ids|, height, pos)
             && 2 * pos < LevelWidth(|ids|, height - 1)
    requires Rebuilds(t, ids, wanted, height - 1, 2 * pos, NextFlag(t, s).0)
    ensures Rebuilds(t, ids, wanted, height, pos, s)
  {
    var lo, mid, hi := FirstLeaf(height, pos), FirstLeaf(height - 1, 2 * pos + 1), FirstLeaf(height, pos + 1);
    LeavesAreOrdered(height - 1, 2 * pos);
    LeavesAreOrdered(height - 1, 2 * pos + 1);
    SelectedSplit(ids, wanted, lo, mid, hi);
    PastTheEnd(ids, wanted, height - 1, 2 * pos + 1);
    SelectedNone(ids, wanted, mid, hi);
  }

  /** A node outside its level has no leaves in the block. */
  lemma {:induction false} PastTheEnd(ids: seq<Hash>, wanted: seq<bool>, height: nat, pos: nat)
    requires pos >= LevelWidth(|ids|, height)
    ensures FirstLeaf(height, pos) >= |ids|
  {
    if height > 0 { PastTheEnd(ids, wanted, height - 1, 2 * pos); }
  }

  /** BIP 37 completeness, exactly: a built proof is accepted if and only if it
      descends no node with equal children, and then yields the wanted ids. */
  lemma Completeness(D: DoubleHash, ids: seq<Hash>, wanted: seq<bool>)
    requires |ids| == |wanted| && 1 <= |ids| <= 0x8000_0000
    ensures LevelWidth(|ids|, CalcTreeHeight(|ids|)) == 1
    ensures var top := CalcTreeHeight(|ids|);
            var r := Verified(D, BuildHashes(D, ids, wanted, top, 0), Pack(BuildFlags(wanted, top, 0)), |ids|,
                              Some(MerkleRoot(D, ids)));
            && (r.valid <==> !DescendsTwins(D, ids, wanted, top, 0))
            && (r.valid ==> r.matchedTxIDs == Selected(ids, wanted, 0, |ids|))
  {
    var top := CalcTreeHeight(|ids|);
    RootIsTopNode(D, ids);
    var hashes, bits := BuildHashes(D, ids, wanted, top, 0), BuildFlags(wanted, top, 0);
    var t := Input(D, hashes, Expanded(Pack(bits)), |ids|);
    ExpandedPack(bits);
    assert Feeds(t, ids, wanted, top, 0, START);
    WalkRebuilds(t, ids, wanted, top, 0, START);
    WholeBlock(ids, wanted, top);
  }

  /** A block of two equal transactions: the proof the builder makes is refused, whatever
      it selects, unless it selects nothing. */
  lemma TwinsAreRefused(D: DoubleHash, h: Hash, wanted: seq<bool>)
    requires |wanted| == 2 && (wanted[0] || wanted[1])
    ensures CalcTreeHeight(2) == 1
    ensures !Verified(D, BuildHashes(D, [h, h], wanted, 1, 0), Pack(BuildFlags(wanted, 1, 0)), 2,
                      Some(MerkleRoot(D, [h, h]))).valid
  {
    hide *;
    var ids := [h, h];
    assert |ids| == 2;
    HeightOfTwo();
    TwoTwins(D, ids, wanted);
    Completeness(D, ids, wanted);
  }

  lemma HeightOfTwo()
    ensures CalcTreeHeight(2) == 1 && LevelWidth(2, 0) == 2 && LevelWidth(2, 1) == 1
  {
    assert CalcTreeHeight(1) == 0;
  }

  lemma TwoTwins(D: DoubleHash, ids: seq<Hash>, wanted: seq<bool>)
    requires |ids| == |wanted| == 2 && ids[0] == ids[1] && (wanted[0] || wanted[1])
    ensures LevelWidth(2, 1) == 1 && DescendsTwins(D, ids, wanted, 1, 0)
  {
    HeightOfTwo();
    assert FirstLeaf(1, 0) == 0 && FirstLeaf(1, 1) == 2;
    assert HasMatch(wanted, 1, 0);
  }

  lemma WholeBlock(ids: seq<Hash>, wanted: seq<bool>, top: nat)
    requires |ids| == |wanted| && LevelWidth(|ids|, top) == 1
    ensures Selected(ids, wanted, FirstLeaf(top, 0), FirstLeaf(top, 1)) == Selected(ids, wanted, 0, |ids|)
  {
    FirstLeafShifts(top, 0);
    PastTheEnd(ids, wanted, top, 1);
    SelectedSplit(ids, wanted, 0, |ids|, FirstLeaf(top, 1));
    SelectedNone(ids, wanted, |ids|, FirstLeaf(top, 1));
  }
}
