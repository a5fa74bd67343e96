/**
 The Bitcoin Merkle tree: its shape (level widths, height) and its hashes, as
 the level-by-level definition gives them.  A 32-byte hash is the number its
 bytes spell, and the double SHA-256 of two hashes side by side is a
 function-valued parameter, so nothing below depends on its values.
 */
module MerkleTree {
  type Hash = nat
  type DoubleHash = (Hash, Hash) -> Hash

  const TWO_TO_THE_32 := 0x1_0000_0000

  type uint32 = n: int | 0 <= n < TWO_TO_THE_32

  function Pow2(h: nat): (p: nat)
    ensures p >= 1
  {
    if h == 0 then 1 else 2 * Pow2(h - 1)
  }

  /** How many nodes level `h` has: each level pairs up the one below. */
  function LevelWidth(n: nat, h: nat): nat
  {
    if h == 0 then n else (LevelWidth(n, h - 1) + 1) / 2
  }

  /** `x >> h`. */
  function ShiftRight(x: nat, h: nat): nat
  {
    if h == 0 then x else ShiftRight(x / 2, h - 1)
  }

  /** `1 << h` in 32 bits: zero from 32 on. */
  function One32(h: nat): uint32
  {
    Pow2(h) % 0x1_0000_0000
  }

  /** The width as the code computes it, in wrapping 32-bit arithmetic. */
  function TreeWidth(h: nat, n: uint32): uint32
  {
    var sum := (n + One32(h) - 1) % 0x1_0000_0000;
    ShiftShrinks(sum, h);
    ShiftRight(sum, h)
  }

  /** The least height whose level has a single node. */
  function CalcTreeHeight(n: nat): (h: nat)
    ensures Pow2(h) >= n
    ensures h > 0 ==> Pow2(h - 1) < n
  {
    if n <= 1 then 0 else 1 + CalcTreeHeight((n + 1) / 2)
  }

  // ----- Arithmetic of the shape -----

  lemma {:induction false} ShiftShrinks(x: nat, h: nat)
    ensures ShiftRight(x, h) <= x
  {
    if h > 0 { ShiftShrinks(x / 2, h - 1); }
  }

  lemma {:induction false} ShiftMonotone(x: nat, y: nat, h: nat)
    requires x <= y
    ensures ShiftRight(x, h) <= ShiftRight(y, h)
  {
    if h > 0 { ShiftMonotone(x / 2, y / 2, h - 1); }
  }

  lemma {:induction false} ShiftOut(x: nat, h: nat)
    requires x < Pow2(h)
    ensures ShiftRight(x, h) == 0
  {
    if h > 0 { ShiftOut(x / 2, h - 1); }
  }

  lemma {:induction false} WidthFromBelow(n: nat, h: nat)
    ensures LevelWidth((n + 1) / 2, h) == LevelWidth(n, h + 1)
  {
    if h > 0 { WidthFromBelow(n, h - 1); }
  }

  /** Without wrapping, adding 2^h - 1 and shifting rounds up level by level. */
  lemma {:induction false} ShiftIsWidth(n: nat, h: nat)
    requires n >= 1
    ensures ShiftRight(n + Pow2(h) - 1, h) == LevelWidth(n, h)
  {
    if h > 0 {
      ShiftIsWidth((n + 1) / 2, h - 1);
      WidthFromBelow(n, h - 1);
      assert (n + Pow2(h) - 1) / 2 == (n + 1) / 2 + Pow2(h - 1) - 1;
    }
  }

  lemma {:induction false} Pow2Monotone(a: nat, b: nat)
    requires a <= b
    ensures Pow2(a) <= Pow2(b)
    decreases b
  {
    if a < b { Pow2Monotone(a, b - 1); }
  }

  lemma Pow2At32()
    ensures Pow2(31) == 0x8000_0000 && Pow2(32) == TWO_TO_THE_32
  {
    assert Pow2(8) == 256;
    assert Pow2(16) == 65536;
    assert Pow2(24) == 0x100_0000;
  }

  /** The width is n / 2^h rounded up. */
  lemma {:induction false} WidthIsCeiling(n: nat, h: nat)
    requires n >= 1
    ensures Pow2(h) * (LevelWidth(n, h) - 1) < n <= Pow2(h) * LevelWidth(n, h)
  {
    if h > 0 {
      var p, w := Pow2(h - 1), LevelWidth(n, h);
      WidthFromBelow(n, h - 1);
      WidthIsCeiling((n + 1) / 2, h - 1);
      assert Pow2(h) == 2 * p;
      hide *;
      CeilingStep(n, p, w);
    }
  }

  lemma CeilingStep(n: nat, p: nat, w: int)
    requires p * (w - 1) < (n + 1) / 2 <= p * w
    ensures (2 * p) * (w - 1) < n <= (2 * p) * w
  {
    Doubled(p, w);
    Doubled(p, w - 1);
  }

  lemma Doubled(p: int, w: int)
    ensures (2 * p) * w == 2 * (p * w)
  {
  }

  /** The wrapping width never exceeds the true one, whatever the count. */
  lemma WidthNeverOver(h: nat, n: uint32)
    requires n >= 1
    ensures TreeWidth(h, n) <= LevelWidth(n, h)
  {
    hide ShiftRight, Pow2, LevelWidth;
    var sum := (n + One32(h) - 1) % 0x1_0000_0000;
    WrappedSum(n, Pow2(h));
    ShiftIsWidth(n, h);
    ShiftMonotone(sum, n + Pow2(h) - 1, h);
  }

  lemma WrappedSum(n: nat, p: nat)
    requires n >= 1
    ensures (n + p % 0x1_0000_0000 - 1) % 0x1_0000_0000 <= n + p - 1
  {
  }

  /** Up to 2^31 transactions no level of the tree overflows the 32-bit sum. */
  lemma WidthExact(h: nat, n: uint32)
    requires 1 <= n <= 0x8000_0000 && h <= CalcTreeHeight(n)
    ensures TreeWidth(h, n) == LevelWidth(n, h)
  {
    hide ShiftRight, Pow2, LevelWidth, CalcTreeHeight;
    HeightAtMost31(n);
    Pow2AtMost31(h);
    NoWrap(n, Pow2(h));
    ShiftIsWidth(n, h);
  }

  lemma NoWrap(n: nat, p: nat)
    requires 1 <= n && 1 <= p && n + p <= TWO_TO_THE_32
    ensures (n + p % 0x1_0000_0000 - 1) % 0x1_0000_0000 == n + p - 1
  {
  }

  lemma Pow2AtMost31(h: nat)
    requires h <= 31
    ensures Pow2(h) <= 0x8000_0000
  {
    Pow2At32();
    Pow2Monotone(h, 31);
  }

  lemma HeightAtMost31(n: nat)
    requires n <= 0x8000_0000
    ensures CalcTreeHeight(n) <= 31
  {
    Pow2At32();
    var top := CalcTreeHeight(n);
    if top > 31 { Pow2Monotone(31, top - 1); }
  }

  /** Beyond 2^31 it does: level 31 has two nodes and the code counts none. */
  lemma WidthWraps(n: uint32)
    requires n > 0x8000_0000
    ensures CalcTreeHeight(n) == 32
    ensures TreeWidth(31, n) == 0 && LevelWidth(n, 31) == 2
  {
    Pow2At32();
    var h := CalcTreeHeight(n);
    if h < 32 { Pow2Monotone(h, 31); }
    if h > 32 { Pow2Monotone(32, h - 1); }
    HeightIsLeast(n);
    assert LevelWidth(n, 32) == 1;
    ShiftOut(n - 0x8000_0000 - 1, 31);
    assert (n + One32(31) - 1) % 0x1_0000_0000 == n - 0x8000_0000 - 1;
  }

  /** The bound is exact: every level is counted right if and only if the list
      has at most 2^31 transactions. */
  lemma WidthBound(n: uint32)
    requires n >= 1
    ensures (forall h: nat :: h <= CalcTreeHeight(n) ==> TreeWidth(h, n) == LevelWidth(n, h))
            <==> n <= 0x8000_0000
  {
    if n <= 0x8000_0000 {
      forall h: nat | h <= CalcTreeHeight(n) ensures TreeWidth(h, n) == LevelWidth(n, h) {
        WidthExact(h, n);
      }
    } else {
      WidthWraps(n);
      assert TreeWidth(31, n) != LevelWidth(n, 31);
    }
  }

  /** The height is the least one whose level has exactly one node. */
  lemma {:induction false} HeightIsLeast(n: nat)
    requires n >= 1
    ensures LevelWidth(n, CalcTreeHeight(n)) == 1
    ensures forall h: nat :: h < CalcTreeHeight(n) ==> LevelWidth(n, h) > 1
  {
    if n > 1 {
      var top := CalcTreeHeight(n);
      HeightIsLeast((n + 1) / 2);
      WidthFromBelow(n, top - 1);
      forall h: nat | h < top ensures LevelWidth(n, h) > 1 {
        if h > 0 { WidthFromBelow(n, h - 1); }
      }
    }
  }

  // ----- Hashes, level by level -----

  /** The right partner of node `2 * i`: itself when the level ends there. */
  function Partner(width: nat, i: nat): nat {
    if 2 * i + 1 < width then 2 * i + 1 else 2 * i
  }

  function NextLevel(D: DoubleHash, level: seq<Hash>): (up: seq<Hash>)
    ensures |up| == (|level| + 1) / 2
  {
    seq<Hash>((|level| + 1) / 2, i requires 0 <= i < (|level| + 1) / 2 =>
      D(level[2 * i], level[Partner(|level|, i)]))
  }

  function Level(D: DoubleHash, ids: seq<Hash>, h: nat): (level: seq<Hash>)
    ensures |level| == LevelWidth(|ids|, h)
  {
    if h == 0 then ids else NextLevel(D, Level(D, ids, h - 1))
  }

  /** The Merkle root of a block: pair up levels until one hash is left. */
  function MerkleRoot(D: DoubleHash, ids: seq<Hash>): Hash
    requires |ids| >= 1
    decreases |ids|
  {
    if |ids| == 1 then ids[0] else MerkleRoot(D, NextLevel(D, ids))
  }

  lemma {:induction false} LevelFromBelow(D: DoubleHash, ids: seq<Hash>, h: nat)
    ensures Level(D, NextLevel(D, ids), h) == Level(D, ids, h + 1)
  {
    if h > 0 { LevelFromBelow(D, ids, h - 1); }
  }

  lemma {:induction false} TopLevel(D: DoubleHash, ids: seq<Hash>, h: nat)
    requires |ids| >= 1 && h == CalcTreeHeight(|ids|)
    ensures Level(D, ids, h) == [MerkleRoot(D, ids)]
    decreases h
  {
    if |ids| == 1 {
      assert h == 0 && ids == [ids[0]];
    } else {
      var up := NextLevel(D, ids);
      HeightStep(|ids|);
      LevelFromBelow(D, ids, h - 1);
      TopLevel(D, up, h - 1);
    }
  }

  lemma HeightStep(n: nat)
    requires n > 1
    ensures CalcTreeHeight(n) == CalcTreeHeight((n + 1) / 2) + 1
  {
  }

  /** The hash of one node of the tree. */
  function NodeHash(D: DoubleHash, ids: seq<Hash>, h: nat, pos: nat): Hash
    requires pos < LevelWidth(|ids|, h)
  {
    if h == 0 then ids[pos]
    else D(NodeHash(D, ids, h - 1, 2 * pos), NodeHash(D, ids, h - 1, Partner(LevelWidth(|ids|, h - 1), pos)))
  }

  lemma {:induction false} NodeIsInLevel(D: DoubleHash, ids: seq<Hash>, h: nat, pos: nat)
    requires pos < LevelWidth(|ids|, h)
    ensures Level(D, ids, h)[pos] == NodeHash(D, ids, h, pos)
  {
    if h > 0 {
      NodeIsInLevel(D, ids, h - 1, 2 * pos);
      NodeIsInLevel(D, ids, h - 1, Partner(LevelWidth(|ids|, h - 1), pos));
    }
  }

  /** The root is the only node of the top level. */
  lemma RootIsTopNode(D: DoubleHash, ids: seq<Hash>)
    requires |ids| >= 1
    ensures LevelWidth(|ids|, CalcTreeHeight(|ids|)) == 1
    ensures NodeHash(D, ids, CalcTreeHeight(|ids|), 0) == MerkleRoot(D, ids)
  {
    var top := CalcTreeHeight(|ids|);
    HeightIsLeast(|ids|);
    TopLevel(D, ids, top);
    NodeIsInLevel(D, ids, top, 0);
  }
}
