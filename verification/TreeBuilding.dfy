/**
 The tree-building loops: `gen_leaf_wots` (src/xmss_commons.rs:120-134), `treehash` and
 `treehash_root` (src/xmss_core.rs:335-470).
*/
module TreeBuilding {
  import opened Results
  import opened Bits
  import opened Bytes
  import opened Parameters
  import opened Address
  import opened Hashing
  import opened Wots
  import opened LTree
  import opened Merkle

  method GenLeafWots(p: Params, skSeed: Node, pubSeed: Node, ltreeAddr: array<Word>, otsAddr: array<Word>)
    returns (r: Result<Node>)
    requires p.WotsValid() && ltreeAddr.Length == 8 && otsAddr.Length == 8 && ltreeAddr != otsAddr
    modifies ltreeAddr, otsAddr
    ensures ltreeAddr[..5] == old(ltreeAddr[..5]) && otsAddr[..5] == old(otsAddr[..5])
    ensures r.Success? ==>
      r.value == Compress(p, pubSeed, ltreeAddr[..5], PkNodes(p, skSeed, pubSeed, otsAddr[..5]))
    ensures r.Failure? ==> p.digest.faults && r.error == Error.Hash
  {
    hide Compress, PkNodes;
    var pk := new Node[p.WotsLen()];
    var _ :- WotsPkgen(p, pk, skSeed, pubSeed, otsAddr);
    r := CompressInPlace(p, pk, pubSeed, ltreeAddr);
  }

  // ---- which siblings are complete ----

  /** After `count` leaves, the slots of all complete siblings are filled. */
  ghost predicate PathDone(p: Params, t: Subtree, leaf: nat, path: seq<Node>, count: nat)
    requires p.WotsValid()
  {
    forall h :: 0 <= h < |path| && Flip(Shr(leaf, h)) < Shr(count, h) ==> path[h] == PathNode(p, t, leaf, h)
  }

  /** The sibling at height `h` is among the first `idx` leaves, or ends with leaf `idx` no higher than `top`. */
  ghost predicate Reached(leaf: nat, h: nat, idx: nat, top: nat) {
    Flip(Shr(leaf, h)) < Shr(idx, h) || (h <= top && Flip(Shr(leaf, h)) == Shr(idx, h))
  }

  /** As `PathDone` for `idx` leaves, and for the nodes up to height `top` that leaf `idx` completes. */
  ghost predicate PathUpTo(p: Params, t: Subtree, leaf: nat, path: seq<Node>, idx: nat, top: nat)
    requires p.WotsValid()
  {
    forall h :: 0 <= h < |path| && Reached(leaf, h, idx, top) ==> path[h] == PathNode(p, t, leaf, h)
  }

  /** A shift moves from `idx` to `idx + 1` only up to the height of the node that ends with `idx`. */
  lemma ShiftsMove(idx: nat, top: nat, h: nat)
    requires idx + 1 == (Shr(idx, top) + 1) * Pow2(top)
    ensures h <= top ==> Shr(idx + 1, h) == Shr(idx, h) + 1
    ensures h > top && Shr(idx, top) % 2 == 0 ==> Shr(idx + 1, h) == Shr(idx, h)
  {
    hide Shr, Pow2;
    ShrCarry(idx, Shr(idx, top), top, if h <= top then h else top);
    if h > top && Shr(idx, top) % 2 == 0 {
      SameAbove(idx, top, h);
    }
  }

  lemma PathSettle(p: Params, t: Subtree, leaf: nat, path: seq<Node>, idx: nat, top: nat)
    requires p.WotsValid() && PathUpTo(p, t, leaf, path, idx, top)
    requires idx + 1 == (Shr(idx, top) + 1) * Pow2(top) && (top < |path| ==> Shr(idx, top) % 2 == 0)
    ensures PathDone(p, t, leaf, path, idx + 1)
  {
    hide PathNode, Shr, Pow2, Flip;
    forall h | 0 <= h < |path| && Flip(Shr(leaf, h)) < Shr(idx + 1, h)
      ensures path[h] == PathNode(p, t, leaf, h)
    {
      ShiftsMove(idx, top, h);
      assert Reached(leaf, h, idx, top);
    }
  }

  lemma SameAbove(idx: nat, top: nat, h: nat)
    requires top < h && Shr(idx, top) % 2 == 0 && Shr(idx + 1, top) == Shr(idx, top) + 1
    ensures Shr(idx + 1, h) == Shr(idx, h)
  {
    hide Shr;
    ShrHalf(idx, top);
    ShrHalf(idx + 1, top);
    ShrAdd(idx, top + 1, h - top - 1);
    ShrAdd(idx + 1, top + 1, h - top - 1);
  }

  /** Once all leaves are in, every sibling is complete. */
  lemma PathComplete(p: Params, t: Subtree, leaf: nat, path: seq<Node>)
    requires p.WotsValid() && |path| == p.treeHeight && leaf < Pow2(p.treeHeight)
    requires PathDone(p, t, leaf, path, Pow2(p.treeHeight))
    ensures path == AuthPath(p, t, leaf)
  {
    hide PathNode, Shr, Pow2, Flip;
    forall h | 0 <= h < |path|
      ensures path[h] == PathNode(p, t, leaf, h)
    {
      SiblingInside(leaf, h, p.treeHeight);
    }
  }

  lemma SiblingInside(leaf: nat, h: nat, height: nat)
    requires h < height && leaf < Pow2(height)
    ensures Flip(Shr(leaf, h)) < Pow2(height - h) == Shr(Pow2(height), h)
  {
    hide Shr, Pow2;
    ShrBound(leaf, h, height);
    FlipBound(Shr(leaf, h), height - h);
    PowAdd(height - h, h);
    SplitUnique(Pow2(height - h), 0, h);
  }

  /** The root itself is never mistaken for a sibling. */
  lemma RootIsNoSibling(leaf: nat, idx: nat, height: nat)
    requires leaf < Pow2(height) && idx < Pow2(height)
    ensures Flip(Shr(leaf, height)) != Shr(idx, height)
  {
    ShrSmall(leaf, height);
    ShrSmall(idx, height);
  }

  lemma PathNone(p: Params, t: Subtree, leaf: nat, path: seq<Node>)
    requires p.WotsValid()
    ensures PathDone(p, t, leaf, path, 0)
  {
    forall h: nat ensures Shr(0, h) == 0 {
      ShrShrinks(0, h);
    }
  }

  /** `path` with slot `h` set to `node` when the sibling there is node `i`. */
  function Recorded(leaf: nat, path: seq<Node>, h: nat, i: nat, node: Node): seq<Node> {
    if Flip(Shr(leaf, h)) == i && h < |path| then path[h := node] else path
  }

  lemma PathLeaf(p: Params, t: Subtree, leaf: nat, path: seq<Node>, idx: nat)
    requires p.WotsValid() && PathDone(p, t, leaf, path, idx)
    ensures PathUpTo(p, t, leaf, Recorded(leaf, path, 0, idx, NodeAt(p, t, 0, idx)), idx, 0)
  {
    hide NodeAt, Flip;
  }

  lemma PathRaise(p: Params, t: Subtree, leaf: nat, path: seq<Node>, idx: nat, top: nat)
    requires p.WotsValid() && PathUpTo(p, t, leaf, path, idx, top)
    ensures var i := Shr(idx, top + 1);
            PathUpTo(p, t, leaf, Recorded(leaf, path, top + 1, i, NodeAt(p, t, top + 1, i)), idx, top + 1)
  {
    hide NodeAt, Flip, Shr;
  }

  lemma LeafIsNode(p: Params, t: Subtree, i: Word)
    requires p.WotsValid()
    ensures NodeAt(p, t, 0, i)
         == Compress(p, t.pubSeed, t.base + [TYPE_LTREE] + [i],
                     PkNodes(p, t.skSeed, t.pubSeed, t.base + [TYPE_OTS] + [i]))
  {
    hide Compress, PkNodes;
    assert t.base + [TYPE_LTREE] + [i] == t.base + [TYPE_LTREE, i];
    assert t.base + [TYPE_OTS] + [i] == t.base + [TYPE_OTS, i];
  }

  lemma ParentIsNode(p: Params, t: Subtree, h: Word, i: Word)
    requires p.WotsValid()
    ensures TreeHash(p, t.pubSeed, t.base + [TYPE_HASHTREE, 0] + [h] + [i],
                     NodeAt(p, t, h, 2 * i), NodeAt(p, t, h, 2 * i + 1))
         == NodeAt(p, t, h + 1, i)
  {
    hide TreeHash, NodeAt, NodeWords;
    WordsAsSet(t, h, i);
    NodeStep(p, t, h, i);
  }

  lemma EmptyStack(p: Params, t: Subtree, target: nat, start: nat)
    requires p.WotsValid()
    ensures Stacked(p, t, target, [], [], start, start)
  {
  }

  /** What `Pending` says about its top entry. */
  lemma TopEntry(p: Params, t: Subtree, target: nat, vals: seq<Node>, hs: seq<nat>, start: nat, end: nat)
    requires p.WotsValid() && |vals| == |hs| && Pending(p, t, target, vals, hs, start, end)
    ensures |hs| > 0 && hs[|hs| - 1] <= target && end > 0
    ensures end == (Shr(end - 1, hs[|hs| - 1]) + 1) * Pow2(hs[|hs| - 1])
  {
    hide NodeAt, Pow2, Shr;
  }

  lemma TopIsEven(p: Params, t: Subtree, target: nat, vals: seq<Node>, hs: seq<nat>, start: nat, end: nat)
    requires p.WotsValid() && |vals| == |hs| > 0 && Stacked(p, t, target, vals, hs, start, end) && end > 0
    ensures hs[|hs| - 1] < target ==> Shr(end - 1, hs[|hs| - 1]) % 2 == 0
  {
    hide NodeAt, Pow2, Shr;
  }

  lemma ZeroShift(x: nat)
    ensures Shr(x, 0) == x
  {
  }

  // ---- the loops ----

  /** A zeroed address with the layer and tree of `subtreeAddr` and the given type. */
  method SubtreeAddr(subtreeAddr: array<Word>, kind: Word) returns (addr: array<Word>)
    requires subtreeAddr.Length == 8
    ensures fresh(addr) && addr.Length == 8
    ensures addr[..4] == subtreeAddr[..3] + [kind] && addr[..5] == subtreeAddr[..3] + [kind, 0]
  {
    addr := new Word[] [0, 0, 0, 0, 0, 0, 0, 0];
    CopySubtreeAddr(addr, subtreeAddr);
    SetType(addr, kind);
  }

  /** The one-time-key, L-tree and tree-node addresses of a subtree. */
  method SubtreeAddrs(subtreeAddr: array<Word>)
    returns (otsAddr: array<Word>, ltreeAddr: array<Word>, nodeAddr: array<Word>)
    requires subtreeAddr.Length == 8
    ensures fresh(otsAddr) && fresh(ltreeAddr) && fresh(nodeAddr)
    ensures otsAddr.Length == ltreeAddr.Length == nodeAddr.Length == 8
    ensures otsAddr != ltreeAddr && otsAddr != nodeAddr && ltreeAddr != nodeAddr
    ensures otsAddr[..4] == subtreeAddr[..3] + [TYPE_OTS] && ltreeAddr[..4] == subtreeAddr[..3] + [TYPE_LTREE]
    ensures nodeAddr[..5] == subtreeAddr[..3] + [TYPE_HASHTREE, 0]
  {
    otsAddr := SubtreeAddr(subtreeAddr, TYPE_OTS);
    ltreeAddr := SubtreeAddr(subtreeAddr, TYPE_LTREE);
    nodeAddr := SubtreeAddr(subtreeAddr, TYPE_HASHTREE);
  }

  /** Puts leaf `idx` on the stack; there is room, since the range is not complete. */
  method PushLeaf(p: Params, stack: array<Node>, heights: array<nat>, offset: nat, idx: Word, skSeed: Node,
      pubSeed: Node, ltreeAddr: array<Word>, otsAddr: array<Word>, ghost t: Subtree, ghost target: nat,
      ghost start: nat)
    returns (r: Result<()>)
    requires p.WotsValid() && offset <= stack.Length == heights.Length == target + 1
    requires start <= idx < start + Pow2(target)
    requires Stacked(p, t, target, stack[..offset], heights[..offset], start, idx)
    requires ltreeAddr.Length == 8 && otsAddr.Length == 8 && ltreeAddr != otsAddr
    requires t.skSeed == skSeed && t.pubSeed == pubSeed
    requires ltreeAddr[..4] == t.base + [TYPE_LTREE] && otsAddr[..4] == t.base + [TYPE_OTS]
    modifies stack, heights, ltreeAddr, otsAddr
    ensures ltreeAddr[..4] == old(ltreeAddr[..4]) && otsAddr[..4] == old(otsAddr[..4])
    ensures offset <= target
    ensures r.Success? ==>
      && stack[offset] == NodeAt(p, t, 0, idx) && heights[offset] == 0
      && Pending(p, t, target, stack[..offset + 1], heights[..offset + 1], start, idx + 1)
    ensures r.Failure? ==> p.digest.faults && r.error == Error.Hash
  {
    hide Compress, PkNodes, NodeAt, Stacked, Pending, Pow2;
    ghost var vals, hs := stack[..offset], heights[..offset];
    Room(p, t, target, vals, hs, start, idx);
    Push(p, t, target, vals, hs, start, idx);
    SetLtreeAddr(ltreeAddr, idx);
    SetOtsAddr(otsAddr, idx);
    LeafIsNode(p, t, idx);
    var leaf := GenLeafWots(p, skSeed, pubSeed, ltreeAddr, otsAddr);
    assert ltreeAddr[..4] == ltreeAddr[..5][..4] && otsAddr[..4] == otsAddr[..5][..4];
    stack[offset] :- leaf;
    heights[offset] := 0;
    assert stack[..offset + 1] == vals + [NodeAt(p, t, 0, idx)] && heights[..offset + 1] == hs + [0];
    r := Success(());
  }

  /** Records leaf `idx` on the path when it is the sibling of leaf `leafIdx`. */
  method RecordLeaf(p: Params, authPath: array<Node>, leaf: Node, idx: nat, leafIdx: nat, ghost t: Subtree)
    requires p.WotsValid() && 1 <= authPath.Length && leaf == NodeAt(p, t, 0, idx)
    requires PathDone(p, t, leafIdx, authPath[..], idx)
    modifies authPath
    ensures PathUpTo(p, t, leafIdx, authPath[..], idx, 0)
  {
    hide NodeAt, PathDone, PathUpTo, Flip, Shr;
    ghost var path := authPath[..];
    ZeroShift(leafIdx);
    PathLeaf(p, t, leafIdx, path, idx);
    if Flip(leafIdx) == idx {
      authPath[0] := leaf;
    }
    assert authPath[..] == Recorded(leafIdx, path, 0, idx, leaf);
  }

  /** Replaces two siblings on top of the stack by their parent. */
  method MergeTop(p: Params, stack: array<Node>, heights: array<nat>, offset: nat, idx: nat, pubSeed: Node,
      nodeAddr: array<Word>, ghost t: Subtree, ghost target: nat, ghost start: nat)
    returns (r: Result<()>)
    requires p.WotsValid() && 2 <= offset <= stack.Length == heights.Length && nodeAddr.Length == 8
    requires Pending(p, t, target, stack[..offset], heights[..offset], start, idx + 1)
    requires heights[offset - 1] == heights[offset - 2] && target < 32
    requires idx < start + Pow2(target) && idx < 0x1_0000_0000
    requires t.pubSeed == pubSeed && nodeAddr[..5] == t.base + [TYPE_HASHTREE, 0]
    modifies stack, heights, nodeAddr
    ensures nodeAddr[..5] == old(nodeAddr[..5])
    ensures old(heights[offset - 1]) < target
    ensures r.Success? ==>
      var top := old(heights[offset - 1]);
      && stack[offset - 2] == NodeAt(p, t, top + 1, Shr(idx, top + 1))
      && heights[offset - 2] == top + 1
      && Pending(p, t, target, stack[..offset - 1], heights[..offset - 1], start, idx + 1)
    ensures r.Failure? ==> p.digest.faults && r.error == Error.Hash
  {
    hide TreeHash, PairHashed, NodeAt, Pending, Pow2, Shr;
    ghost var vals, hs := stack[..offset], heights[..offset];
    Merge(p, t, target, vals, hs, start, idx + 1);
    var top := heights[offset - 1];
    var treeIdx := Shr(idx, top + 1);
    ShrShrinks(idx, top + 1);
    SetTreeHeight(nodeAddr, top);
    SetTreeIndex(nodeAddr, treeIdx);
    ParentIsNode(p, t, top, treeIdx);
    var node := ThashH(p, stack[offset - 2], stack[offset - 1], pubSeed, nodeAddr);
    stack[offset - 2] :- node;
    heights[offset - 2] := top + 1;
    assert stack[..offset - 1] == vals[..offset - 2] + [NodeAt(p, t, top + 1, treeIdx)];
    assert heights[..offset - 1] == hs[..offset - 2] + [top + 1];
    r := Success(());
  }

  /** What a merge leaves behind is either still pending or settled. */
  lemma Settled(p: Params, t: Subtree, target: nat, vals: seq<Node>, hs: seq<nat>, start: nat, first: nat, end: nat)
    requires p.WotsValid() && |vals| == |hs| && start == first * Pow2(target)
    requires Pending(p, t, target, vals, hs, start, end)
    requires |hs| >= 2 ==> hs[|hs| - 1] != hs[|hs| - 2]
    ensures Stacked(p, t, target, vals, hs, start, end)
    ensures |hs| > 0 && end > 0 && hs[|hs| - 1] <= target
    ensures end == (Shr(end - 1, hs[|hs| - 1]) + 1) * Pow2(hs[|hs| - 1])
    ensures hs[|hs| - 1] < target ==> Shr(end - 1, hs[|hs| - 1]) % 2 == 0
  {
    hide NodeAt, Pow2, Shr;
    TopEntry(p, t, target, vals, hs, start, end);
    Settle(p, t, target, vals, hs, start, first, end);
    TopIsEven(p, t, target, vals, hs, start, end);
  }

  /** Merges while the two top heights agree. */
  method MergeAll(p: Params, stack: array<Node>, heights: array<nat>, depth: nat, idx: nat, pubSeed: Node,
      nodeAddr: array<Word>, ghost t: Subtree, ghost target: nat, ghost first: nat)
    returns (r: Result<nat>)
    requires p.WotsValid() && 1 <= depth <= stack.Length == heights.Length && nodeAddr.Length == 8 && target < 32
    requires Pending(p, t, target, stack[..depth], heights[..depth], first * Pow2(target), idx + 1)
    requires idx < first * Pow2(target) + Pow2(target) && idx < 0x1_0000_0000
    requires t.pubSeed == pubSeed && nodeAddr[..5] == t.base + [TYPE_HASHTREE, 0]
    modifies stack, heights, nodeAddr
    ensures nodeAddr[..5] == old(nodeAddr[..5])
    ensures r.Success? ==>
      && 1 <= r.value <= depth
      && Stacked(p, t, target, stack[..r.value], heights[..r.value], first * Pow2(target), idx + 1)
    ensures r.Failure? ==> p.digest.faults && r.error == Error.Hash
  {
    hide NodeAt, Stacked, Pending, Pow2, Shr;
    ghost var start := first * Pow2(target);
    var offset := depth;
    while offset >= 2 && heights[offset - 1] == heights[offset - 2]
      invariant 1 <= offset <= depth
      invariant Pending(p, t, target, stack[..offset], heights[..offset], start, idx + 1)
      invariant nodeAddr[..5] == t.base + [TYPE_HASHTREE, 0]
      decreases offset
    {
      var _ :- MergeTop(p, stack, heights, offset, idx, pubSeed, nodeAddr, t, target, start);
      offset := offset - 1;
    }
    Settled(p, t, target, stack[..offset], heights[..offset], start, first, idx + 1);
    r := Success(offset);
  }

  /** As `MergeAll` over a whole tree, recording the siblings on the path of `leafIdx`, the new leaf included. */
  method MergeAndRecord(p: Params, stack: array<Node>, heights: array<nat>, depth: nat, idx: nat, pubSeed: Node,
      nodeAddr: array<Word>, authPath: array<Node>, leafIdx: nat, ghost t: Subtree)
    returns (r: Result<nat>)
    requires p.WotsValid() && 1 <= p.treeHeight < 32 && idx < Pow2(p.treeHeight) && leafIdx < Pow2(p.treeHeight)
    requires 1 <= depth <= stack.Length == heights.Length && authPath.Length == p.treeHeight
    requires stack != authPath && nodeAddr.Length == 8
    requires Pending(p, t, p.treeHeight, stack[..depth], heights[..depth], 0, idx + 1)
    requires stack[depth - 1] == NodeAt(p, t, 0, idx) && heights[depth - 1] == 0
    requires PathDone(p, t, leafIdx, authPath[..], idx)
    requires t.pubSeed == pubSeed && nodeAddr[..5] == t.base + [TYPE_HASHTREE, 0]
    modifies stack, heights, nodeAddr, authPath
    ensures nodeAddr[..5] == old(nodeAddr[..5])
    ensures r.Success? ==>
      && 1 <= r.value <= depth
      && Stacked(p, t, p.treeHeight, stack[..r.value], heights[..r.value], 0, idx + 1)
      && PathDone(p, t, leafIdx, authPath[..], idx + 1)
    ensures r.Failure? ==> p.digest.faults && r.error == Error.Hash
  {
    hide NodeAt, Stacked, Pending, PathDone, PathUpTo, Pow2, Shr, Flip;
    PowMono(p.treeHeight, 31);
    Pow31();
    var offset := depth;
    RecordLeaf(p, authPath, stack[offset - 1], idx, leafIdx, t);
    while offset >= 2 && heights[offset - 1] == heights[offset - 2]
      invariant 1 <= offset <= depth
      invariant Pending(p, t, p.treeHeight, stack[..offset], heights[..offset], 0, idx + 1)
      invariant PathUpTo(p, t, leafIdx, authPath[..], idx, heights[offset - 1])
      invariant nodeAddr[..5] == t.base + [TYPE_HASHTREE, 0]
      decreases offset
    {
      ghost var path := authPath[..];
      var treeIdx := Shr(idx, heights[offset - 1] + 1);
      PathRaise(p, t, leafIdx, path, idx, heights[offset - 1]);
      var _ :- MergeTop(p, stack, heights, offset, idx, pubSeed, nodeAddr, t, p.treeHeight, 0);
      offset := offset - 1;
      var h := heights[offset - 1];
      RootIsNoSibling(leafIdx, idx, p.treeHeight);
      if Flip(Shr(leafIdx, h)) == treeIdx {
        authPath[h] := stack[offset - 1];
      }
      assert authPath[..] == Recorded(leafIdx, path, h, treeIdx, NodeAt(p, t, h, treeIdx));
    }
    Settled(p, t, p.treeHeight, stack[..offset], heights[..offset], 0, 0, idx + 1);
    PathSettle(p, t, leafIdx, authPath[..], idx, heights[offset - 1]);
    r := Success(offset);
  }

  /** Computes the root of a subtree and the authentication path of one of its leaves. */
  method Treehash(p: Params, authPath: array<Node>, skSeed: Node, pubSeed: Node, leafIdx: nat,
      subtreeAddr: array<Word>)
    returns (root: Result<Node>)
    requires p.WotsValid() && 1 <= p.treeHeight < 32 && leafIdx < Pow2(p.treeHeight)
    requires authPath.Length == p.treeHeight && subtreeAddr.Length == 8
    modifies authPath
    ensures root.Success? ==>
      var t := Subtree(skSeed, pubSeed, subtreeAddr[..3]);
      root.value == RootOf(p, t) && authPath[..] == AuthPath(p, t, leafIdx)
    ensures root.Failure? ==> p.digest.faults && root.error == Error.Hash
  {
    hide Compress, PkNodes, TreeHash, NodeAt, NodeWords, Stacked, Pending, PathDone, PathUpTo, PathNode,
      AuthPath, Pow2, Shr, Flip;
    var stack := new Node[p.treeHeight + 1];
    var heights := new nat[p.treeHeight + 1];
    var offset := 0;
    var otsAddr, ltreeAddr, nodeAddr := SubtreeAddrs(subtreeAddr);
    ghost var t := Subtree(skSeed, pubSeed, subtreeAddr[..3]);
    var numLeaves := Pow2(p.treeHeight);
    PowMono(p.treeHeight, 31);
    Pow31();
    EmptyStack(p, t, p.treeHeight, 0);
    PathNone(p, t, leafIdx, authPath[..]);
    for idx := 0 to numLeaves
      invariant 0 <= offset <= p.treeHeight + 1
      invariant Stacked(p, t, p.treeHeight, stack[..offset], heights[..offset], 0, idx)
      invariant PathDone(p, t, leafIdx, authPath[..], idx)
      invariant otsAddr[..4] == t.base + [TYPE_OTS] && ltreeAddr[..4] == t.base + [TYPE_LTREE]
      invariant nodeAddr[..5] == t.base + [TYPE_HASHTREE, 0]
      modifies stack, heights, authPath, otsAddr, ltreeAddr, nodeAddr
    {
      var _ :- PushLeaf(p, stack, heights, offset, idx, skSeed, pubSeed, ltreeAddr, otsAddr, t, p.treeHeight, 0);
      offset :- MergeAndRecord(p, stack, heights, offset + 1, idx, pubSeed, nodeAddr, authPath, leafIdx, t);
    }
    Full(p, t, p.treeHeight, stack[..offset], heights[..offset], 0, 0);
    PathComplete(p, t, leafIdx, authPath[..]);
    root := Success(stack[0]);
  }

  /** Computes the root of the aligned subtree of `2^targetHeight` leaves that starts at `startIdx`. */
  method TreehashRoot(p: Params, skSeed: Node, pubSeed: Node, startIdx: nat, targetHeight: nat,
      subtreeAddr: array<Word>)
    returns (root: Result<Node>, ghost leaves: nat)
    requires p.WotsValid() && targetHeight < 32 && Low(startIdx, targetHeight) == 0
    requires startIdx + Pow2(targetHeight) <= 0x8000_0000
    requires subtreeAddr.Length == 8
    ensures root.Success? ==>
      && root.value
         == NodeAt(p, Subtree(skSeed, pubSeed, subtreeAddr[..3]), targetHeight, Shr(startIdx, targetHeight))
      && leaves == Pow2(targetHeight)
    ensures root.Failure? ==> p.digest.faults && root.error == Error.Hash
  {
    hide NodeAt, Stacked, Pending, Pow2, Shr, Low;
    leaves := 0;
    var stack := new Node[targetHeight + 1];
    var heights := new nat[targetHeight + 1];
    var offset := 0;
    var otsAddr, ltreeAddr, nodeAddr := SubtreeAddrs(subtreeAddr);

    ghost var t := Subtree(skSeed, pubSeed, subtreeAddr[..3]);
    ghost var first := Shr(startIdx, targetHeight);
    Split(startIdx, targetHeight);
    var endIdx := startIdx + Pow2(targetHeight);
    EmptyStack(p, t, targetHeight, startIdx);
    for idx := startIdx to endIdx
      invariant 0 <= offset <= targetHeight + 1 && leaves == idx - startIdx
      invariant Stacked(p, t, targetHeight, stack[..offset], heights[..offset], startIdx, idx)
      invariant otsAddr[..4] == t.base + [TYPE_OTS] && ltreeAddr[..4] == t.base + [TYPE_LTREE]
      invariant nodeAddr[..5] == t.base + [TYPE_HASHTREE, 0]
      modifies stack, heights, otsAddr, ltreeAddr, nodeAddr
    {
      var _ :- PushLeaf(p, stack, heights, offset, idx, skSeed, pubSeed, ltreeAddr, otsAddr, t, targetHeight,
          startIdx);
      leaves := leaves + 1;
      offset :- MergeAll(p, stack, heights, offset + 1, idx, pubSeed, nodeAddr, t, targetHeight, first);
    }
    Full(p, t, targetHeight, stack[..offset], heights[..offset], startIdx, first);
    root := Success(stack[0]);
  }
}
