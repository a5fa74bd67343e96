/**
 What acceptance means: the matched hashes are ids of the block at increasing
 positions, unless the run exhibits two different pairs of hashes that combine
 to the same hash.  Also what every run costs and that an accepted run never read
 past the end of a stream.
 */
module MerkleSoundness {
  import opened Bytes
  import opened MerkleTree
  import opened PartialMerkle

  // ----- What a run consumes -----

  function Min(a: nat, b: nat): nat {
    if a < b then a else b
  }

  /** Every visit takes one flag, and only a flag that is really there can open
      two more visits. */
  lemma {:induction false} VisitBound(t: Input, height: nat, pos: nat, s: Progress)
    ensures var (s', _) := Walk(t, height, pos, s);
            && s.flagIdx < s'.flagIdx && s.hashIdx <= s'.hashIdx
            && s'.flagIdx - s.flagIdx <= 1 + 2 * (Min(s'.flagIdx, |t.flags|) - Min(s.flagIdx, |t.flags|))
            && s'.hashIdx - s.hashIdx <= s'.flagIdx - s.flagIdx
  {
    var (s0, flag) := NextFlag(t, s);
    if height > 0 && flag {
      var (s1, _) := Walk(t, height - 1, pos * 2, s0);
      VisitBound(t, height - 1, pos * 2, s0);
      if HasRightChild(t, height, pos) {
        VisitBound(t, height - 1, pos * 2 + 1, s1);
      }
    }
  }

  /** Any input, truncated or not, costs at most twice its flags plus one visits. */
  lemma VisitsAreLinear(t: Input, height: nat, pos: nat)
    ensures Walk(t, height, pos, START).0.flagIdx <= 2 * |t.flags| + 1
  {
    VisitBound(t, height, pos, START);
  }

  function Extended(t: Input, hashes: seq<Hash>, flags: seq<bool>): Input {
    t.(hashes := t.hashes + hashes, flags := t.flags + flags)
  }

  /** A run that ends inside both streams does not depend on what follows them. */
  lemma {:induction false} WalkReadsOnlyPresent(t: Input, height: nat, pos: nat, s: Progress,
                                                hashes: seq<Hash>, flags: seq<bool>)
    requires Walk(t, height, pos, s).0.flagIdx <= |t.flags| && Walk(t, height, pos, s).0.hashIdx <= |t.hashes|
    ensures Walk(Extended(t, hashes, flags), height, pos, s) == Walk(t, height, pos, s)
  {
    hide *;
    VisitBound(t, height, pos, s);
    FlagExtended(t, s, hashes, flags);
    var s0 := NextFlag(t, s).0;
    if height > 0 && NextFlag(t, s).1 {
      InnerWalk(t, height, pos, s);
      var s1 := Walk(t, height - 1, pos * 2, s0).0;
      VisitBound(t, height - 1, pos * 2, s0);
      if HasRightChild(t, height, pos) {
        VisitBound(t, height - 1, pos * 2 + 1, s1);
        WalkReadsOnlyPresent(t, height - 1, pos * 2 + 1, s1, hashes, flags);
      }
      WalkReadsOnlyPresent(t, height - 1, pos * 2, s0, hashes, flags);
      InnerExtended(t, height, pos, s, hashes, flags);
    } else {
      LeafExtended(t, height, pos, s, hashes, flags);
    }
  }

  lemma FlagExtended(t: Input, s: Progress, hashes: seq<Hash>, flags: seq<bool>)
    requires s.flagIdx < |t.flags|
    ensures NextFlag(Extended(t, hashes, flags), s) == NextFlag(t, s)
  {
  }

  lemma LeafExtended(t: Input, height: nat, pos: nat, s: Progress, hashes: seq<Hash>, flags: seq<bool>)
    requires (height == 0 || !NextFlag(t, s).1) && NextFlag(Extended(t, hashes, flags), s) == NextFlag(t, s)
    requires Walk(t, height, pos, s).0.hashIdx <= |t.hashes|
    ensures Walk(Extended(t, hashes, flags), height, pos, s) == Walk(t, height, pos, s)
  {
    hide HasRightChild, CombineHashes, NextFlag, Low32;
  }

  /** A descended node joins what its children give. */
  function Joined(t: Input, height: nat, pos: nat, s1: Progress, left: Option<Hash>, s2: Progress, right: Option<Hash>)
    : (Progress, Option<Hash>)
    requires height > 0
  {
    if HasRightChild(t, height, pos)
    then (if left.Some? && left == right then s2.(dupFound := true) else s2, CombineHashes(t.D, left, right))
    else (s1, CombineHashes(t.D, left, left))
  }

  lemma InnerWalk(t: Input, height: nat, pos: nat, s: Progress)
    requires height > 0 && NextFlag(t, s).1
    ensures var (s1, left) := Walk(t, height - 1, pos * 2, NextFlag(t, s).0);
            var (s2, right) := Walk(t, height - 1, pos * 2 + 1, s1);
            && Walk(t, height, pos, s) == Joined(t, height, pos, s1, left, s2, right)
            && Walk(t, height, pos, s).0.flagIdx == (if HasRightChild(t, height, pos) then s2 else s1).flagIdx
            && Walk(t, height, pos, s).0.hashIdx == (if HasRightChild(t, height, pos) then s2 else s1).hashIdx
  {
    hide HasRightChild, CombineHashes, NextFlag, NextHash, Low32;
  }

  lemma InnerExtended(t: Input, height: nat, pos: nat, s: Progress, hashes: seq<Hash>, flags: seq<bool>)
    requires height > 0 && NextFlag(t, s).1 && NextFlag(Extended(t, hashes, flags), s) == NextFlag(t, s)
    requires var x, s0 := Extended(t, hashes, flags), NextFlag(t, s).0;
             var s1 := Walk(t, height - 1, pos * 2, s0).0;
             && Walk(x, height - 1, pos * 2, s0) == Walk(t, height - 1, pos * 2, s0)
             && (HasRightChild(t, height, pos) ==>
                   Walk(x, height - 1, pos * 2 + 1, s1) == Walk(t, height - 1, pos * 2 + 1, s1))
    ensures Walk(Extended(t, hashes, flags), height, pos, s) == Walk(t, height, pos, s)
  {
    hide Walk, NextFlag, TreeWidth, CombineHashes;
    InnerWalk(t, height, pos, s);
    InnerWalk(Extended(t, hashes, flags), height, pos, s);
  }

  /** On acceptance no missing flag and no missing hash was read. */
  lemma AcceptedReadsOnlyPresent(D: DoubleHash, hashes: seq<Hash>, flagBytes: bytes, totalTxs: uint32,
                                 expectedRoot: Option<Hash>, moreHashes: seq<Hash>, moreFlags: seq<bool>)
    requires Verified(D, hashes, flagBytes, totalTxs, expectedRoot).valid
    ensures var t := Input(D, hashes, Expanded(flagBytes), totalTxs);
            var run := Walk(t, CalcTreeHeight(totalTxs), 0, START);
            && run.0.flagIdx <= |t.flags| && run.0.hashIdx == |hashes|
            && Walk(Extended(t, moreHashes, moreFlags), CalcTreeHeight(totalTxs), 0, START) == run
  {
    var t := Input(D, hashes, Expanded(flagBytes), totalTxs);
    WalkReadsOnlyPresent(t, CalcTreeHeight(totalTxs), 0, START, moreHashes, moreFlags);
  }

  // ----- Soundness -----

  /** The first leaf under node (`height`, `pos`); the leaves under it end where
      those of its right neighbour start. */
  function FirstLeaf(height: nat, pos: nat): nat {
    if height == 0 then pos else FirstLeaf(height - 1, pos * 2)
  }

  lemma {:induction false} FirstLeafShifts(height: nat, pos: nat)
    ensures FirstLeaf(height, pos) == pos * Pow2(height)
  {
    if height > 0 { FirstLeafShifts(height - 1, pos * 2); }
  }

  lemma {:induction false} LeavesAreOrdered(height: nat, pos: nat)
    ensures FirstLeaf(height, pos) < FirstLeaf(height, pos + 1)
  {
    if height > 0 {
      LeavesAreOrdered(height - 1, pos * 2);
      LeavesAreOrdered(height - 1, pos * 2 + 1);
    }
  }

  /** The leaf positions a visit records as matched. */
  function Picks(t: Input, height: nat, pos: nat, s: Progress): seq<nat>
    decreases height
  {
    var (s0, flag) := NextFlag(t, s);
    if !flag then []
    else if height == 0 then (if Low32(pos) < t.totalTxs then [pos] else [])
    else
      var (s1, _) := Walk(t, height - 1, pos * 2, s0);
      Picks(t, height - 1, pos * 2, s0)
      + if HasRightChild(t, height, pos) then Picks(t, height - 1, pos * 2 + 1, s1) else []
  }

  ghost predicate IncreasingWithin(ps: seq<nat>, lo: nat, hi: nat) {
    && (forall i :: 0 <= i < |ps| ==> lo <= ps[i] < hi)
    && (forall i, j :: 0 <= i < j < |ps| ==> ps[i] < ps[j])
  }

  /** `after` is `before` followed by the ids of the block at positions `ps`. */
  ghost predicate AppendsIds(ids: seq<Hash>, before: seq<Option<Hash>>, ps: seq<nat>, after: seq<Option<Hash>>) {
    && |after| == |before| + |ps|
    && (forall i :: 0 <= i < |before| ==> after[i] == before[i])
    && (forall i :: 0 <= i < |ps| ==> ps[i] < |ids| && after[|before| + i] == Some(ids[ps[i]]))
  }

  /** The two hashes the block's own tree combines at a node. */
  function ChildHashes(t: Input, ids: seq<Hash>, height: nat, pos: nat): (Hash, Hash)
    requires |ids| == t.totalTxs && height > 0 && pos < LevelWidth(t.totalTxs, height)
  {
    ChildrenInLevel(t, height, pos);
    (NodeHash(t.D, ids, height - 1, 2 * pos),
     NodeHash(t.D, ids, height - 1, Partner(LevelWidth(|ids|, height - 1), pos)))
  }

  /** The first node, in visiting order, where the hashes combined by the run are
      not the ones the block's own tree combines there. */
  function Clash(t: Input, ids: seq<Hash>, height: nat, pos: nat, s: Progress): Option<((Hash, Hash), (Hash, Hash))>
    requires |ids| == t.totalTxs && pos < LevelWidth(t.totalTxs, height)
    decreases height
  {
    var (s0, flag) := NextFlag(t, s);
    if height == 0 || !flag then None
    else
      ChildrenInLevel(t, height, pos);
      var (s1, left) := Walk(t, height - 1, pos * 2, s0);
      var (_, right) := if HasRightChild(t, height, pos) then Walk(t, height - 1, pos * 2 + 1, s1) else (s1, left);
      if left.None? || right.None? then None
      else
        var mine := (left.value, right.value);
        var theirs := ChildHashes(t, ids, height, pos);
        if mine != theirs then Some((mine, theirs))
        else
          var inLeft := Clash(t, ids, height - 1, pos * 2, s0);
          if inLeft.Some? || !HasRightChild(t, height, pos) then inLeft
          else Clash(t, ids, height - 1, pos * 2 + 1, s1)
  }

  ghost predicate IsCollision(D: DoubleHash, a: (Hash, Hash), b: (Hash, Hash)) {
    a != b && D(a.0, a.1) == D(b.0, b.1)
  }

  /** When the run arrives at the tree's own hash of a node, a clash under that
      node is a collision. */
  lemma {:induction false} ClashIsCollision(t: Input, ids: seq<Hash>, height: nat, pos: nat, s: Progress)
    requires |ids| == t.totalTxs && pos < LevelWidth(t.totalTxs, height)
    requires Walk(t, height, pos, s).1 == Some(NodeHash(t.D, ids, height, pos))
    ensures var c := Clash(t, ids, height, pos, s);
            c.Some? ==> IsCollision(t.D, c.value.0, c.value.1)
  {
    hide *;
    if height == 0 || !NextFlag(t, s).1 {
      NoClash(t, ids, height, pos, s);
    } else {
      var s0 := NextFlag(t, s).0;
      var left, right, s1 := SameChildrenOrClash(t, ids, height, pos, s);
      if (left, right) == ChildHashes(t, ids, height, pos) {
        ClashIsCollision(t, ids, height - 1, pos * 2, s0);
        if HasRightChild(t, height, pos) {
          ClashIsCollision(t, ids, height - 1, pos * 2 + 1, s1);
        }
      }
    }
  }

  lemma NoClash(t: Input, ids: seq<Hash>, height: nat, pos: nat, s: Progress)
    requires |ids| == t.totalTxs && pos < LevelWidth(t.totalTxs, height)
    requires height == 0 || !NextFlag(t, s).1
    ensures Clash(t, ids, height, pos, s).None?
  {
    hide LevelWidth, NextFlag;
  }

  /** At a descended node whose hash is right, either both children are the
      tree's own or the two pairs combined there collide. */
  lemma SameChildrenOrClash(t: Input, ids: seq<Hash>, height: nat, pos: nat, s: Progress)
    returns (left: Hash, right: Hash, s1: Progress)
    requires |ids| == t.totalTxs && height > 0 && pos < LevelWidth(t.totalTxs, height)
    requires NextFlag(t, s).1
    requires Walk(t, height, pos, s).1 == Some(NodeHash(t.D, ids, height, pos))
    ensures var s0 := NextFlag(t, s).0;
            && Walk(t, height - 1, pos * 2, s0) == (s1, Some(left))
            && (if HasRightChild(t, height, pos) then Walk(t, height - 1, pos * 2 + 1, s1).1 == Some(right)
                else right == left)
    ensures pos * 2 < LevelWidth(t.totalTxs, height - 1)
    ensures HasRightChild(t, height, pos) ==> pos * 2 + 1 < LevelWidth(t.totalTxs, height - 1)
    ensures (left, right) == ChildHashes(t, ids, height, pos) ==>
              && left == NodeHash(t.D, ids, height - 1, pos * 2)
              && (HasRightChild(t, height, pos) ==> right == NodeHash(t.D, ids, height - 1, pos * 2 + 1))
    ensures var inLeft := Clash(t, ids, height - 1, pos * 2, NextFlag(t, s).0);
            Clash(t, ids, height, pos, s) ==
            if (left, right) != ChildHashes(t, ids, height, pos)
            then Some(((left, right), ChildHashes(t, ids, height, pos)))
            else if inLeft.Some? || !HasRightChild(t, height, pos) then inLeft
            else Clash(t, ids, height - 1, pos * 2 + 1, s1)
    ensures var own := ChildHashes(t, ids, height, pos);
            (left, right) == own || IsCollision(t.D, (left, right), own)
  {
    ChildrenInLevel(t, height, pos);
    var (s2, l0) := Walk(t, height - 1, pos * 2, NextFlag(t, s).0);
    var r0 := if HasRightChild(t, height, pos) then Walk(t, height - 1, pos * 2 + 1, s2).1 else l0;
    left, right, s1 := l0.value, r0.value, s2;
  }

  lemma AppendsCompose(ids: seq<Hash>, a: seq<Option<Hash>>, ps: seq<nat>, b: seq<Option<Hash>>,
                       qs: seq<nat>, c: seq<Option<Hash>>)
    requires AppendsIds(ids, a, ps, b) && AppendsIds(ids, b, qs, c)
    ensures AppendsIds(ids, a, ps + qs, c)
  {
    forall i | 0 <= i < |ps + qs| ensures (ps + qs)[i] < |ids| && c[|a| + i] == Some(ids[(ps + qs)[i]]) {
      if i < |ps| {
        assert b[|a| + i] == Some(ids[ps[i]]);
      } else {
        assert c[|b| + (i - |ps|)] == Some(ids[qs[i - |ps|]]);
      }
    }
  }

  lemma IncreasingConcat(ps: seq<nat>, qs: seq<nat>, lo: nat, mid: nat, hi: nat)
    requires lo <= mid <= hi && IncreasingWithin(ps, lo, mid) && IncreasingWithin(qs, mid, hi)
    ensures IncreasingWithin(ps + qs, lo, hi)
  {
  }

  /** Matched positions are leaves under the visited node, in increasing order. */
  lemma {:induction false} PicksIncrease(t: Input, height: nat, pos: nat, s: Progress)
    ensures IncreasingWithin(Picks(t, height, pos, s), FirstLeaf(height, pos), FirstLeaf(height, pos + 1))
  {
    hide HasRightChild;
    var (s0, flag) := NextFlag(t, s);
    LeavesAreOrdered(height, pos);
    if height > 0 && flag {
      hide IncreasingWithin;
      var ps := Picks(t, height - 1, pos * 2, s0);
      var s1 := Walk(t, height - 1, pos * 2, s0).0;
      var qs := if HasRightChild(t, height, pos) then Picks(t, height - 1, pos * 2 + 1, s1) else [];
      LeavesAreOrdered(height - 1, pos * 2);
      LeavesAreOrdered(height - 1, pos * 2 + 1);
      PicksIncrease(t, height - 1, pos * 2, s0);
      PicksIncrease(t, height - 1, pos * 2 + 1, s1);
      IncreasingConcat(ps, qs, FirstLeaf(height, pos), FirstLeaf(height - 1, pos * 2 + 1), FirstLeaf(height, pos + 1));
    }
  }

  /** Without a clash, a run that arrives at the tree's own hash of a node matched
      exactly the ids of the block at the picked positions. */
  lemma {:induction false} MatchesAreIds(t: Input, ids: seq<Hash>, height: nat, pos: nat, s: Progress)
    requires |ids| == t.totalTxs && pos < LevelWidth(t.totalTxs, height)
    requires Walk(t, height, pos, s).1 == Some(NodeHash(t.D, ids, height, pos))
    requires Clash(t, ids, height, pos, s).None?
    ensures AppendsIds(ids, s.matched, Picks(t, height, pos, s), Walk(t, height, pos, s).0.matched)
  {
    hide *;
    if height == 0 || !NextFlag(t, s).1 {
      UndescendedMatch(t, ids, height, pos, s);
    } else {
      var s0 := NextFlag(t, s).0;
      var left, right, s1 := SameChildrenOrClash(t, ids, height, pos, s);
      MatchedStep(t, height, pos, s);
      MatchesAreIds(t, ids, height - 1, pos * 2, s0);
      if HasRightChild(t, height, pos) {
        MatchesAreIds(t, ids, height - 1, pos * 2 + 1, s1);
        AppendsCompose(ids, s.matched, Picks(t, height - 1, pos * 2, s0), s1.matched,
                       Picks(t, height - 1, pos * 2 + 1, s1), Walk(t, height - 1, pos * 2 + 1, s1).0.matched);
      }
    }
  }

  /** A descended node records and picks what its children do. */
  lemma MatchedStep(t: Input, height: nat, pos: nat, s: Progress)
    requires height > 0 && NextFlag(t, s).1
    ensures var s0 := NextFlag(t, s).0;
            var s1 := Walk(t, height - 1, pos * 2, s0).0;
            && s0.matched == s.matched
            && if HasRightChild(t, height, pos) then
                 && Walk(t, height, pos, s).0.matched == Walk(t, height - 1, pos * 2 + 1, s1).0.matched
                 && Picks(t, height, pos, s)
                    == Picks(t, height - 1, pos * 2, s0) + Picks(t, height - 1, pos * 2 + 1, s1)
               else
                 && Walk(t, height, pos, s).0.matched == s1.matched
                 && Picks(t, height, pos, s) == Picks(t, height - 1, pos * 2, s0)
  {
  }

  lemma UndescendedMatch(t: Input, ids: seq<Hash>, height: nat, pos: nat, s: Progress)
    requires |ids| == t.totalTxs && pos < LevelWidth(t.totalTxs, height)
    requires height == 0 || !NextFlag(t, s).1
    requires Walk(t, height, pos, s).1 == Some(NodeHash(t.D, ids, height, pos))
    ensures AppendsIds(ids, s.matched, Picks(t, height, pos, s), Walk(t, height, pos, s).0.matched)
  {
  }

  /** BIP 37 soundness, for every block of at most 2^32 - 1 transactions: either
      the matched hashes are the ids at increasing positions of the block, or the
      first clash is a collision. */
  lemma Soundness(D: DoubleHash, hashes: seq<Hash>, flagBytes: bytes, ids: seq<Hash>)
    returns (ps: seq<nat>, clash: Option<((Hash, Hash), (Hash, Hash))>)
    requires 1 <= |ids| < TWO_TO_THE_32
    requires Verified(D, hashes, flagBytes, |ids|, Some(MerkleRoot(D, ids))).valid
    ensures LevelWidth(|ids|, CalcTreeHeight(|ids|)) == 1
    ensures clash == Clash(Input(D, hashes, Expanded(flagBytes), |ids|), ids, CalcTreeHeight(|ids|), 0, START)
    ensures clash.Some? ==> IsCollision(D, clash.value.0, clash.value.1)
    ensures clash.None? ==>
              && IncreasingWithin(ps, 0, |ids|)
              && AppendsIds(ids, [], ps, Verified(D, hashes, flagBytes, |ids|, Some(MerkleRoot(D, ids))).matchedTxIDs)
  {
    hide LevelWidth, NodeHash, CalcTreeHeight, Walk, Clash, Picks;
    var t := Input(D, hashes, Expanded(flagBytes), |ids|);
    var top := CalcTreeHeight(|ids|);
    RootIsTopNode(D, ids);
    ClashIsCollision(t, ids, top, 0, START);
    ps, clash := Picks(t, top, 0, START), Clash(t, ids, top, 0, START);
    if clash.None? {
      PicksIncrease(t, top, 0, START);
      MatchesAreIds(t, ids, top, 0, START);
      InsideBlock(ids, ps, Walk(t, top, 0, START).0.matched, FirstLeaf(top, 0), FirstLeaf(top, 1));
    }
  }

  lemma InsideBlock(ids: seq<Hash>, ps: seq<nat>, found: seq<Option<Hash>>, lo: nat, hi: nat)
    requires IncreasingWithin(ps, lo, hi) && AppendsIds(ids, [], ps, found)
    ensures IncreasingWithin(ps, 0, |ids|)
  {
  }
}
