/** Where a one-time index stands in each layer (`layer_position`, src/xmss_core.rs:262-269). */
module Positions {
  import opened Bits
  import opened Parameters

  /** The index of the tree that holds `idx` at `layer`. */
  function TreeIdx(p: Params, idx: nat, layer: nat): nat {
    Shr(idx, p.treeHeight * (layer + 1))
  }

  /** The leaf of that tree. */
  function LeafIdx(p: Params, idx: nat, layer: nat): nat {
    Low(Shr(idx, p.treeHeight * layer), p.treeHeight)
  }

  lemma NextShift(p: Params, layer: nat)
    ensures p.treeHeight * (layer + 1) == p.treeHeight * layer + p.treeHeight
  {
  }

  /** A tree index followed by a leaf is the concatenated position within the layer. */
  lemma Position(p: Params, idx: nat, layer: nat)
    ensures Shr(idx, p.treeHeight * layer) == TreeIdx(p, idx, layer) * Pow2(p.treeHeight) + LeafIdx(p, idx, layer)
    ensures LeafIdx(p, idx, layer) < Pow2(p.treeHeight)
  {
    hide Shr, Low, Pow2;
    NextShift(p, layer);
    ShrAdd(idx, p.treeHeight * layer, p.treeHeight);
    Split(Shr(idx, p.treeHeight * layer), p.treeHeight);
  }

  /** Positions in terms of division by powers of two. */
  lemma PositionIsDivision(p: Params, idx: nat, layer: nat)
    ensures TreeIdx(p, idx, layer) == idx / Pow2(p.treeHeight * (layer + 1))
    ensures LeafIdx(p, idx, layer) == idx / Pow2(p.treeHeight * layer) % Pow2(p.treeHeight)
  {
    hide Shr, Low, Pow2;
    ShrIsDiv(idx, p.treeHeight * (layer + 1));
    ShrIsDiv(idx, p.treeHeight * layer);
    ShrIsDiv(Shr(idx, p.treeHeight * layer), p.treeHeight);
  }

  /** The tree of a layer is the one whose root the leaf above it signs. */
  lemma TreeBelow(p: Params, idx: nat, layer: nat)
    requires layer >= 1
    ensures TreeIdx(p, idx, layer - 1) == TreeIdx(p, idx, layer) * Pow2(p.treeHeight) + LeafIdx(p, idx, layer)
  {
    Position(p, idx, layer);
  }

  /** The top layer has a single tree. */
  lemma SingleTopTree(p: Params, idx: nat)
    requires p.d >= 1 && idx <= p.MaxIdx()
    ensures TreeIdx(p, idx, p.d - 1) == 0
  {
    assert p.treeHeight * p.d == p.FullHeight();
    ShrSmall(idx, p.FullHeight());
  }

  /** Index 0 stands at leaf 0 of tree 0 in every layer. */
  lemma OriginPosition(p: Params, layer: nat)
    ensures TreeIdx(p, 0, layer) == 0 && LeafIdx(p, 0, layer) == 0
  {
    ShrShrinks(0, p.treeHeight * layer);
    ShrShrinks(0, p.treeHeight * (layer + 1));
    ShrSmall(0, p.treeHeight);
  }

  /** Bounds that keep positions inside their machine types. */
  lemma PositionBounds(p: Params, idx: nat, layer: nat)
    requires p.treeHeight < 32
    ensures LeafIdx(p, idx, layer) < Pow2(p.treeHeight) <= 0x8000_0000
    ensures TreeIdx(p, idx, layer) <= idx
  {
    Position(p, idx, layer);
    ShrShrinks(idx, p.treeHeight * (layer + 1));
    PowMono(p.treeHeight, 31);
    Pow31();
  }

  // ---- the positions are the digits of the index ----

  /** The number whose base-2^treeHeight digits, from `layer` upwards, are the leaves of `idx`. */
  function FromLeaves(p: Params, idx: nat, layer: nat): nat
    decreases p.d - layer
  {
    if layer >= p.d then 0 else LeafIdx(p, idx, layer) + Pow2(p.treeHeight) * FromLeaves(p, idx, layer + 1)
  }

  lemma {:induction false} LeavesRebuild(p: Params, idx: nat, layer: nat)
    requires layer <= p.d && idx <= p.MaxIdx()
    ensures FromLeaves(p, idx, layer) == Shr(idx, p.treeHeight * layer)
    decreases p.d - layer
  {
    hide Shr, Low, Pow2;
    if layer == p.d {
      assert p.treeHeight * p.d == p.FullHeight();
      ShrSmall(idx, p.FullHeight());
    } else {
      LeavesRebuild(p, idx, layer + 1);
      Position(p, idx, layer);
    }
  }

  /** The leaf indices of the layers are the base-2^treeHeight digits of the index. */
  lemma LeavesAreDigits(p: Params, idx: nat)
    requires idx <= p.MaxIdx()
    ensures FromLeaves(p, idx, 0) == idx
  {
    LeavesRebuild(p, idx, 0);
    assert p.treeHeight * 0 == 0;
  }

  // ---- the odometer ----

  lemma {:induction false} MultipleIffOnes(x: nat, k: nat)
    ensures (x + 1) % Pow2(k) == 0 <==> k <= TrailingOnes(x)
  {
    ShrIsDiv(x + 1, k);
    LowIffOnes(x, k);
  }

  lemma {:induction false} LowIffOnes(x: nat, k: nat)
    ensures Low(x + 1, k) == 0 <==> k <= TrailingOnes(x)
  {
    if k > 0 {
      if x % 2 == 1 {
        assert (x + 1) / 2 == x / 2 + 1;
        LowIffOnes(x / 2, k - 1);
      }
    }
  }

  /**
   From one index to the next, a layer stays, moves to the next leaf of its tree, or rolls over to
   leaf 0 of the next tree; it rolls over exactly at the multiples of 2^(treeHeight * (layer + 1)).
  */
  lemma Odometer(p: Params, idx: nat, layer: nat)
    ensures var (t, l) := (TreeIdx(p, idx, layer), LeafIdx(p, idx, layer));
            var (t', l') := (TreeIdx(p, idx + 1, layer), LeafIdx(p, idx + 1, layer));
            if (idx + 1) % Pow2(p.treeHeight * layer) != 0 then t' == t && l' == l
            else if (idx + 1) % Pow2(p.treeHeight * (layer + 1)) != 0 then t' == t && l' == l + 1
            else t' == t + 1 && l' == 0 && l + 1 == Pow2(p.treeHeight)
  {
    hide Shr, Low, Pow2, TrailingOnes;
    var k := p.treeHeight * layer;
    MultipleIffOnes(idx, k);
    MultipleIffOnes(idx, k + p.treeHeight);
    ShrSucc(idx, k);
    ShrSucc(idx, k + p.treeHeight);
    NextShift(p, layer);
    Position(p, idx, layer);
    Position(p, idx + 1, layer);
    SumBoundary(TreeIdx(p, idx, layer), Pow2(p.treeHeight));
  }

  lemma SumBoundary(t: nat, m: nat)
    ensures (t + 1) * m == t * m + m
  {
  }
}
