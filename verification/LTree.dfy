/**
 The L-tree that compresses a WOTS+ public key to a leaf (src/xmss_commons.rs:12-63). The
 specification names the nodes of an unbalanced binary tree from above; the loop compacts the
 key in place, level by level.
*/
module LTree {
  import opened Results
  import opened Bits
  import opened Bytes
  import opened Parameters
  import opened Address
  import opened Hashing

  /** Nodes at height `h` above `len` leaves: `len / 2^h`, rounded up. */
  function Width(len: nat, h: nat): (w: nat)
    ensures w <= len
  {
    if h == 0 then len else (Width(len, h - 1) + 1) / 2
  }

  /** Levels above the leaves. */
  function Rounds(len: nat): (r: nat)
    ensures r <= len
  {
    if len <= 1 then 0 else 1 + Rounds((len + 1) / 2)
  }

  /**
   Node `i` at height `h`: the hash of its two children, or its only child, unhashed, when the
   level below ends with an odd node. `pos` is the first five words of an L-tree address.
  */
  function Inner(p: Params, pubSeed: Node, pos: seq<Word>, nodes: seq<Node>, h: Word, i: Word): (r: Node)
    requires |nodes| < 0x1_0000_0000 && i < Width(|nodes|, h)
    ensures AllLen(nodes, p.n) ==> |r| == p.n
    decreases h
  {
    if h == 0 then nodes[i]
    else if 2 * i + 1 < Width(|nodes|, h - 1) then
      TreeHash(p, pubSeed, pos + [h - 1, i],
        Inner(p, pubSeed, pos, nodes, h - 1, 2 * i),
        Inner(p, pubSeed, pos, nodes, h - 1, 2 * i + 1))
    else Inner(p, pubSeed, pos, nodes, h - 1, 2 * i)
  }

  /** The single node left after all rounds. */
  function Compress(p: Params, pubSeed: Node, pos: seq<Word>, nodes: seq<Node>): (r: Node)
    requires 1 <= |nodes| < 0x1_0000_0000
    ensures AllLen(nodes, p.n) ==> |r| == p.n
  {
    WidthRounds(|nodes|);
    Inner(p, pubSeed, pos, nodes, Rounds(|nodes|), 0)
  }

  // ---- the shape of the tree ----

  lemma {:induction false} WidthStep(len: nat, h: nat)
    ensures Width((len + 1) / 2, h) == Width(len, h + 1)
  {
    if h > 0 {
      WidthStep(len, h - 1);
    }
  }

  /** After all rounds exactly one node is left. */
  lemma {:induction false} WidthRounds(len: nat)
    requires len >= 1
    ensures Width(len, Rounds(len)) == 1
  {
    if len > 1 {
      WidthRounds((len + 1) / 2);
      WidthStep(len, Rounds((len + 1) / 2));
    }
  }

  /** The number of rounds is the logarithm of the number of nodes, rounded up. */
  lemma {:induction false} RoundsIsLog(len: nat)
    requires len >= 1
    ensures len <= Pow2(Rounds(len))
    ensures len > 1 ==> Pow2(Rounds(len) - 1) < len
  {
    if len > 1 {
      var half := (len + 1) / 2;
      RoundsIsLog(half);
      assert Pow2(Rounds(len)) == 2 * Pow2(Rounds(half));
      if half == 1 {
        assert Rounds(1) == 0 && Pow2(0) == 1;
      } else {
        assert Pow2(Rounds(half)) == 2 * Pow2(Rounds(half) - 1);
      }
    }
  }

  /** The leaves below a node are a run of at most `2^h` of the original nodes; no others matter. */
  lemma {:induction false} InnerSpan(p: Params, pubSeed: Node, pos: seq<Word>, a: seq<Node>, b: seq<Node>,
      h: Word, i: Word)
    requires |a| == |b| < 0x1_0000_0000 && i < Width(|a|, h)
    requires forall k :: i * Pow2(h) <= k < (i + 1) * Pow2(h) && k < |a| ==> a[k] == b[k]
    ensures Inner(p, pubSeed, pos, a, h, i) == Inner(p, pubSeed, pos, b, h, i)
    decreases h
  {
    hide TreeHash;
    var m := Pow2(h);
    if h == 0 {
      assert i * m == i && (i + 1) * m == i + 1;
    } else {
      var half := Pow2(h - 1);
      HalvesOf(i, half);
      InnerSpan(p, pubSeed, pos, a, b, h - 1, 2 * i);
      if 2 * i + 1 < Width(|a|, h - 1) {
        InnerSpan(p, pubSeed, pos, a, b, h - 1, 2 * i + 1);
      }
    }
  }

  lemma HalvesOf(i: nat, half: nat)
    ensures i * (2 * half) == (2 * i) * half <= (2 * i + 1) * half
    ensures (2 * i + 1) * half <= (2 * i + 1 + 1) * half == (i + 1) * (2 * half)
  {
  }

  /** `Width` is the number of nodes left: `len / 2^h`, rounded up. */
  lemma {:induction false} WidthIsCeiling(len: nat, h: nat)
    requires len > 0
    ensures Width(len, h) > 0
    ensures (Width(len, h) - 1) * Pow2(h) < len <= Width(len, h) * Pow2(h)
  {
    if h > 0 {
      WidthIsCeiling(len, h - 1);
      HalfCeiling(len, Width(len, h - 1), Pow2(h - 1));
    }
  }

  lemma HalfCeiling(len: nat, below: nat, m: nat)
    requires below > 0 && (below - 1) * m < len <= below * m
    ensures ((below + 1) / 2 - 1) * (2 * m) < len <= (below + 1) / 2 * (2 * m)
  {
    var w := (below + 1) / 2;
    TimesMono(below, 2 * w, m);
    TimesMono(2 * (w - 1), below - 1, m);
    DoubleFactor(w, m);
    DoubleFactor(w - 1, m);
  }

  lemma DoubleFactor(a: nat, m: nat)
    ensures a * (2 * m) == (2 * a) * m
  {
  }

  /**
   In terms of the digest functions: a node is the leaf itself, its only child, or the hash of its two
   children under the address words `h - 1` and `i`.
  */
  lemma InnerIsHashed(p: Params, pubSeed: Node, pos: seq<Word>, nodes: seq<Node>, h: Word, i: Word)
    requires |nodes| < 0x1_0000_0000 && i < Width(|nodes|, h)
    ensures h == 0 ==> Inner(p, pubSeed, pos, nodes, h, i) == nodes[i]
    ensures h > 0 && 2 * i + 1 == Width(|nodes|, h - 1) ==>
      Inner(p, pubSeed, pos, nodes, h, i) == Inner(p, pubSeed, pos, nodes, h - 1, 2 * i)
    ensures h > 0 && 2 * i + 1 < Width(|nodes|, h - 1) ==>
      PairHashed(p, pubSeed, pos + [h - 1, i],
        Inner(p, pubSeed, pos, nodes, h - 1, 2 * i), Inner(p, pubSeed, pos, nodes, h - 1, 2 * i + 1),
        Inner(p, pubSeed, pos, nodes, h, i))
  {
    hide TreeHash, PairHashed;
    if h > 0 && 2 * i + 1 < Width(|nodes|, h - 1) {
      TreeHashIs(p, pubSeed, pos + [h - 1, i],
        Inner(p, pubSeed, pos, nodes, h - 1, 2 * i), Inner(p, pubSeed, pos, nodes, h - 1, 2 * i + 1));
    }
  }

  lemma BottomLevel(p: Params, pubSeed: Node, pos: seq<Word>, nodes: seq<Node>)
    requires |nodes| < 0x1_0000_0000
    ensures Width(|nodes|, 0) == |nodes| && Rounds(1) == 0
    ensures forall k :: 0 <= k < |nodes| ==> Inner(p, pubSeed, pos, nodes, 0, k) == nodes[k]
  {
  }

  lemma NextLevel(len: nat, h: nat, l: nat)
    requires l == Width(len, h) && l > 1
    ensures Width(len, h + 1) == l - l / 2
    ensures Rounds(l) == 1 + Rounds(l - l / 2)
  {
    assert (l + 1) / 2 == l - l / 2;
  }

  lemma InnerPair(p: Params, pubSeed: Node, pos: seq<Word>, nodes: seq<Node>, h: Word, i: Word)
    requires |nodes| < 0x1_0000_0000 && h + 1 < 0x1_0000_0000 && 2 * i + 1 < Width(|nodes|, h)
    ensures i < Width(|nodes|, h + 1)
    ensures Inner(p, pubSeed, pos, nodes, h + 1, i) == TreeHash(p, pubSeed, pos + [h, i],
              Inner(p, pubSeed, pos, nodes, h, 2 * i), Inner(p, pubSeed, pos, nodes, h, 2 * i + 1))
  {
    hide TreeHash;
  }

  lemma InnerOdd(p: Params, pubSeed: Node, pos: seq<Word>, nodes: seq<Node>, h: Word, i: Word)
    requires |nodes| < 0x1_0000_0000 && h + 1 < 0x1_0000_0000 && 2 * i + 1 == Width(|nodes|, h)
    ensures i < Width(|nodes|, h + 1)
    ensures Inner(p, pubSeed, pos, nodes, h + 1, i) == Inner(p, pubSeed, pos, nodes, h, 2 * i)
  {
    hide TreeHash;
  }

  // ---- the loop ----

  /** Overwrites slot `i` with the parent of the nodes in slots `2 * i` and `2 * i + 1`. */
  method HashPair(p: Params, wotsPk: array<Node>, i: Word, height: Word, pubSeed: Node, addr: array<Word>,
      ghost pos: seq<Word>)
    returns (r: Result<()>)
    requires 2 * i + 1 < wotsPk.Length
    requires addr.Length == 8 && addr[..5] == pos && addr[..6] == pos + [height]
    modifies wotsPk, addr
    ensures addr[..5] == old(addr[..5]) && addr[..6] == old(addr[..6])
    ensures forall k :: 0 <= k < wotsPk.Length && k != i ==> wotsPk[k] == old(wotsPk[k])
    ensures r.Success? ==>
      wotsPk[i] == TreeHash(p, pubSeed, pos + [height, i], old(wotsPk[2 * i]), old(wotsPk[2 * i + 1]))
    ensures r.Failure? ==> p.digest.faults && r.error == Error.Hash
  {
    hide TreeHash, PairHashed;
    SetTreeIndex(addr, i);
    assert addr[..7] == pos + [height, i];
    wotsPk[i] :- ThashH(p, wotsPk[2 * i], wotsPk[2 * i + 1], pubSeed, addr);
    r := Success(());
  }

  /** Compresses the `l` nodes of one level, in place, to those of the level above. */
  method CompressLevel(p: Params, wotsPk: array<Node>, l: nat, height: nat, pubSeed: Node, addr: array<Word>,
      ghost nodes: seq<Node>)
    returns (r: Result<()>)
    requires |nodes| == wotsPk.Length < 0x1_0000_0000 && addr.Length == 8
    requires 1 < l == Width(|nodes|, height) && height < 0xFFFF_FFFF && addr[..6] == addr[..5] + [height]
    requires forall k :: 0 <= k < l ==> wotsPk[k] == Inner(p, pubSeed, addr[..5], nodes, height, k)
    modifies wotsPk, addr
    ensures addr[..5] == old(addr[..5]) && Width(|nodes|, height + 1) == l - l / 2
    ensures r.Success? ==>
      forall k :: 0 <= k < l - l / 2 ==> wotsPk[k] == Inner(p, pubSeed, addr[..5], nodes, height + 1, k)
    ensures r.Failure? ==> p.digest.faults && r.error == Error.Hash
  {
    hide TreeHash, PairHashed, Inner, Width;
    ghost var pos := addr[..5];
    NextLevel(|nodes|, height, l);
    var parentNodes := l / 2;
    for i := 0 to parentNodes
      invariant addr[..5] == pos && addr[..6] == pos + [height]
      invariant forall k :: 0 <= k < i ==> wotsPk[k] == Inner(p, pubSeed, pos, nodes, height + 1, k)
      invariant forall k :: 2 * i <= k < l ==> wotsPk[k] == Inner(p, pubSeed, pos, nodes, height, k)
    {
      InnerPair(p, pubSeed, pos, nodes, height, i);
      var _ :- HashPair(p, wotsPk, i, height, pubSeed, addr, pos);
    }
    if l % 2 != 0 {
      InnerOdd(p, pubSeed, pos, nodes, height, l / 2);
      wotsPk[l / 2] := wotsPk[l - 1];
    }
    r := Success(());
  }

  /** Compresses `wotsPk` to one node, overwriting it on the way. */
  method CompressInPlace(p: Params, wotsPk: array<Node>, pubSeed: Node, addr: array<Word>) returns (r: Result<Node>)
    requires 1 <= wotsPk.Length < 0x1_0000_0000 && addr.Length == 8
    modifies wotsPk, addr
    ensures addr[..5] == old(addr[..5])
    ensures r.Success? ==> r.value == Compress(p, pubSeed, addr[..5], old(wotsPk[..]))
    ensures r.Failure? ==> p.digest.faults && r.error == Error.Hash
  {
    hide TreeHash, Inner, Width, Rounds;
    ghost var pos, nodes := addr[..5], wotsPk[..];
    BottomLevel(p, pubSeed, pos, nodes);
    var l := wotsPk.Length;
    var height := 0;
    SetTreeHeight(addr, height);
    while l > 1
      invariant 1 <= l && height + Rounds(l) == Rounds(|nodes|) && l == Width(|nodes|, height)
      invariant addr[..5] == pos && addr[..6] == pos + [height]
      invariant forall k :: 0 <= k < l ==> wotsPk[k] == Inner(p, pubSeed, pos, nodes, height, k)
    {
      NextLevel(|nodes|, height, l);
      var _ :- CompressLevel(p, wotsPk, l, height, pubSeed, addr, nodes);
      l := if l % 2 != 0 then l / 2 + 1 else l / 2;
      height := height + 1;
      SetTreeHeight(addr, height);
    }
    WidthRounds(|nodes|);
    r := Success(wotsPk[0]);
  }
}
