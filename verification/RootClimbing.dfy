/** Recomputing a root from a leaf and its authentication path (src/xmss_commons.rs:65-118). */
module RootClimbing {
  import opened Results
  import opened Bits
  import opened Bytes
  import opened Parameters
  import opened Address
  import opened Hashing
  import opened Merkle

  /** The node reached at height `h` on the way up from `leaf`; `pos` is five words of a tree address. */
  function Climb(p: Params, pubSeed: Node, pos: seq<Word>, leaf: Node, leafIdx: nat, path: seq<Node>,
      h: nat): (r: Node)
    requires h <= |path|
    ensures |leaf| == p.n ==> |r| == p.n
  {
    if h == 0 then leaf
    else
      var below := Climb(p, pubSeed, pos, leaf, leafIdx, path, h - 1);
      var words := pos + [Low32(h - 1)] + [Low32(Shr(leafIdx, h))];
      if Shr(leafIdx, h - 1) % 2 == 1 then TreeHash(p, pubSeed, words, path[h - 1], below)
      else TreeHash(p, pubSeed, words, below, path[h - 1])
  }

  /** Climbing an authentic path meets, at every height, the tree's own node above the leaf. */
  lemma {:induction false} ClimbMeets(p: Params, t: Subtree, leafIdx: nat, h: nat)
    requires p.WotsValid() && h <= p.treeHeight
    ensures Climb(p, t.pubSeed, t.base + [TYPE_HASHTREE, 0], NodeAt(p, t, 0, leafIdx), leafIdx,
                  AuthPath(p, t, leafIdx), h)
         == NodeAt(p, t, h, Shr(leafIdx, h))
  {
    hide TreeHash, NodeAt;
    if h > 0 {
      ClimbMeets(p, t, leafIdx, h - 1);
      ShrHalf(leafIdx, h - 1);
      WordsOfStep(t, h - 1, Shr(leafIdx, h));
      NodeStep(p, t, h - 1, Shr(leafIdx, h));
    }
  }

  /** `compute_root` inverts path extraction: leaf and path of any leaf give the root of its tree. */
  lemma ClimbToRoot(p: Params, t: Subtree, leafIdx: nat)
    requires p.WotsValid() && leafIdx < Pow2(p.treeHeight)
    ensures Climb(p, t.pubSeed, t.base + [TYPE_HASHTREE, 0], NodeAt(p, t, 0, leafIdx), leafIdx,
                  AuthPath(p, t, leafIdx), p.treeHeight)
         == RootOf(p, t)
  {
    hide Climb, NodeAt, AuthPath;
    ClimbMeets(p, t, leafIdx, p.treeHeight);
    ShrSmall(leafIdx, p.treeHeight);
  }

  lemma ClimbStep(p: Params, pubSeed: Node, pos: seq<Word>, leaf: Node, leafIdx: Word, path: seq<Node>, h: nat)
    requires h < |path| && h < 32
    ensures Climb(p, pubSeed, pos, leaf, leafIdx, path, h + 1) ==
      var below := Climb(p, pubSeed, pos, leaf, leafIdx, path, h);
      var odd := Shr(leafIdx, h) % 2 == 1;
      TreeHash(p, pubSeed, pos + [Low32(h)] + [Low32(Shr(leafIdx, h + 1))],
        if odd then path[h] else below, if odd then below else path[h])
    ensures Shr(leafIdx, h + 1) == Shr(leafIdx, h) / 2
    ensures Low32(h) == h && Low32(Shr(leafIdx, h + 1)) == Shr(leafIdx, h + 1)
  {
    hide TreeHash, Shr, Low32;
    ShrShrinks(leafIdx, h + 1);
    ShrHalf(leafIdx, h);
    Low32Id(h);
    Low32Id(Shr(leafIdx, h + 1));
  }

  /**
   In terms of the digest functions: every step up hashes the node below with the path node, on the side
   that the leaf's bit tells, under the node's height and index.
  */
  lemma ClimbIsHashed(p: Params, pubSeed: Node, pos: seq<Word>, leaf: Node, leafIdx: Word, path: seq<Node>, h: nat,
      ancestor: nat, parent: Word)
    requires h < |path| && h < 32 && ancestor == leafIdx / Pow2(h) && parent == leafIdx / Pow2(h + 1)
    ensures var below := Climb(p, pubSeed, pos, leaf, leafIdx, path, h);
            PairHashed(p, pubSeed, pos + [h] + [parent],
              if ancestor % 2 == 1 then path[h] else below, if ancestor % 2 == 1 then below else path[h],
              Climb(p, pubSeed, pos, leaf, leafIdx, path, h + 1))
  {
    hide TreeHash, Climb, Shr, Pow2, Low32, PairHashed;
    ClimbStep(p, pubSeed, pos, leaf, leafIdx, path, h);
    ShrIsDiv(leafIdx, h);
    ShrIsDiv(leafIdx, h + 1);
    var below := Climb(p, pubSeed, pos, leaf, leafIdx, path, h);
    TreeHashIs(p, pubSeed, pos + [h] + [parent],
      if ancestor % 2 == 1 then path[h] else below, if ancestor % 2 == 1 then below else path[h]);
  }

  /** Recomputes the root from `leaf` and the path at the front of `authPath`. */
  method ComputeRoot(p: Params, leaf: Node, leafIdx: Word, authPath: seq<Byte>, pubSeed: Node, addr: array<Word>)
    returns (root: Result<Node>)
    requires p.WotsValid() && 1 <= p.treeHeight < 32 && addr.Length == 8
    requires p.treeHeight * p.n <= |authPath|
    modifies addr
    ensures addr[..5] == old(addr[..5])
    ensures root.Success? ==>
      root.value == Climb(p, pubSeed, addr[..5], leaf, leafIdx, Chunks(authPath, p.n, p.treeHeight), p.treeHeight)
    ensures root.Failure? ==> p.digest.faults && root.error == Error.Hash
  {
    hide TreeHash, PairHashed, Climb, Shr, Chunk, Chunks;
    ghost var pos, path := addr[..5], Chunks(authPath, p.n, p.treeHeight);
    ClimbFirst(p, pubSeed, pos, leaf, leafIdx, path);
    ChunkAt(authPath, p.n, p.treeHeight, 0);
    var leafidx := leafIdx;
    var buffer := new Node[2];
    if leafidx % 2 != 0 {
      buffer[0], buffer[1] := Chunk(authPath, p.n, 0), leaf;
    } else {
      buffer[0], buffer[1] := leaf, Chunk(authPath, p.n, 0);
    }
    for i := 0 to p.treeHeight - 1
      invariant addr[..5] == pos && leafidx == Shr(leafIdx, i)
      invariant buffer[1 - leafidx % 2] == path[i]
      invariant buffer[leafidx % 2] == Climb(p, pubSeed, pos, leaf, leafIdx, path, i)
    {
      ClimbStep(p, pubSeed, pos, leaf, leafIdx, path, i);
      ChunkAt(authPath, p.n, p.treeHeight, i + 1);
      SetTreeHeight(addr, i);
      leafidx := leafidx / 2;
      SetTreeIndex(addr, leafidx);
      var node := ThashH(p, buffer[0], buffer[1], pubSeed, addr);
      if leafidx % 2 != 0 {
        buffer[1] :- node;
        buffer[0] := Chunk(authPath, p.n, i + 1);
      } else {
        buffer[0] :- node;
        buffer[1] := Chunk(authPath, p.n, i + 1);
      }
    }
    ClimbStep(p, pubSeed, pos, leaf, leafIdx, path, p.treeHeight - 1);
    SetTreeHeight(addr, p.treeHeight - 1);
    leafidx := leafidx / 2;
    SetTreeIndex(addr, leafidx);
    root := ThashH(p, buffer[0], buffer[1], pubSeed, addr);
  }

  lemma ClimbFirst(p: Params, pubSeed: Node, pos: seq<Word>, leaf: Node, leafIdx: nat, path: seq<Node>)
    ensures Climb(p, pubSeed, pos, leaf, leafIdx, path, 0) == leaf && Shr(leafIdx, 0) == leafIdx
  {
  }
}
