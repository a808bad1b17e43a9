/**
 The Merkle tree of one layer, as a recursive specification, and the stack discipline under which
 the traversal loops compute it (section 4.1.6 of RFC 8391).
*/
module Merkle {
  import opened Bits
  import opened Bytes
  import opened Parameters
  import opened Address
  import opened Hashing
  import opened Wots
  import opened LTree

  /** One subtree of the key: its seeds and the three address words that name it. */
  datatype Subtree = Subtree(skSeed: Node, pubSeed: Node, base: seq<Word>)

  function LeafAt(p: Params, t: Subtree, i: Word): (r: Node)
    requires p.WotsValid()
    ensures |r| == p.n
  {
    Compress(p, t.pubSeed, t.base + [TYPE_LTREE, i], PkNodes(p, t.skSeed, t.pubSeed, t.base + [TYPE_OTS, i]))
  }

  /** The address words of the hash that makes node `i` of height `h + 1`. */
  function NodeWords(t: Subtree, h: nat, i: nat): seq<Word> {
    t.base + [TYPE_HASHTREE, 0, Low32(h), Low32(i)]
  }

  /** Node `i` at height `h`: the root of the leaves `i * 2^h` up to `(i + 1) * 2^h`. */
  function NodeAt(p: Params, t: Subtree, h: nat, i: nat): (r: Node)
    requires p.WotsValid()
    ensures |r| == p.n
    decreases h
  {
    if h == 0 then LeafAt(p, t, Low32(i))
    else TreeHash(p, t.pubSeed, NodeWords(t, h - 1, i), NodeAt(p, t, h - 1, 2 * i), NodeAt(p, t, h - 1, 2 * i + 1))
  }

  function RootOf(p: Params, t: Subtree): (r: Node)
    requires p.WotsValid()
    ensures |r| == p.n
  {
    NodeAt(p, t, p.treeHeight, 0)
  }

  /** The sibling met at height `h` on the way from a leaf to the root. */
  function PathNode(p: Params, t: Subtree, leaf: nat, h: nat): (r: Node)
    requires p.WotsValid()
    ensures |r| == p.n
  {
    NodeAt(p, t, h, Flip(Shr(leaf, h)))
  }

  function AuthPath(p: Params, t: Subtree, leaf: nat): (path: seq<Node>)
    requires p.WotsValid()
    ensures |path| == p.treeHeight && AllLen(path, p.n)
  {
    seq(p.treeHeight, h requires 0 <= h < p.treeHeight => PathNode(p, t, leaf, h))
  }

  /** The address words as the loops assemble them. */
  lemma WordsOfStep(t: Subtree, h: nat, i: nat)
    ensures NodeWords(t, h, i) == t.base + [TYPE_HASHTREE, 0] + [Low32(h)] + [Low32(i)]
  {
    hide Low32;
    var a, b := NodeWords(t, h, i), t.base + [TYPE_HASHTREE, 0] + [Low32(h)] + [Low32(i)];
    var n := |t.base|;
    assert a[..n] == t.base == b[..n];
    assert a[n..] == [TYPE_HASHTREE, 0, Low32(h), Low32(i)] == b[n..];
    assert a == a[..n] + a[n..] && b == b[..n] + b[n..];
  }

  lemma WordsAsSet(t: Subtree, h: Word, i: Word)
    ensures NodeWords(t, h, i) == t.base + [TYPE_HASHTREE, 0] + [h] + [i]
  {
    hide Low32, NodeWords;
    Low32Id(h);
    Low32Id(i);
    WordsOfStep(t, h, i);
  }

  lemma NodeStep(p: Params, t: Subtree, h: nat, i: nat)
    requires p.WotsValid()
    ensures NodeAt(p, t, h + 1, i)
         == TreeHash(p, t.pubSeed, NodeWords(t, h, i), NodeAt(p, t, h, 2 * i), NodeAt(p, t, h, 2 * i + 1))
  {
    hide TreeHash;
  }

  /**
   In terms of the digest functions: a node above the leaves is the hash of its two children under the
   tree address (type 2) with its children's height and its own index.
  */
  lemma NodeIsHashed(p: Params, t: Subtree, h: Word, i: Word)
    requires p.WotsValid()
    ensures PairHashed(p, t.pubSeed, t.base + [2, 0] + [h] + [i],
              NodeAt(p, t, h, 2 * i), NodeAt(p, t, h, 2 * i + 1), NodeAt(p, t, h + 1, i))
  {
    hide TreeHash, NodeAt, NodeWords, PairHashed;
    WordsAsSet(t, h, i);
    NodeStep(p, t, h, i);
    TreeHashIs(p, t.pubSeed, NodeWords(t, h, i), NodeAt(p, t, h, 2 * i), NodeAt(p, t, h, 2 * i + 1));
  }

  /** A leaf is the WOTS+ public key (type 0) compressed by its L-tree (type 1), both addressed by the leaf. */
  lemma LeafIsCompressed(p: Params, t: Subtree, i: Word)
    requires p.WotsValid()
    ensures NodeAt(p, t, 0, i)
         == Compress(p, t.pubSeed, t.base + [1, i], PkNodes(p, t.skSeed, t.pubSeed, t.base + [0, i]))
  {
    hide Compress, PkNodes;
  }

  /** The path of a leaf holds, at every height, the node beside the leaf's ancestor. */
  lemma PathIsSiblings(p: Params, t: Subtree, leaf: nat, h: nat)
    requires p.WotsValid() && h < p.treeHeight
    ensures var ancestor := leaf / Pow2(h);
            AuthPath(p, t, leaf)[h] == NodeAt(p, t, h, if ancestor % 2 == 0 then ancestor + 1 else ancestor - 1)
  {
    hide NodeAt;
    ShrIsDiv(leaf, h);
  }

  // ---- the stack of complete subtrees ----

  /** The top entry is the node of height `h` whose last leaf is the last one before `end`. */
  ghost predicate Covers(p: Params, t: Subtree, val: Node, h: nat, start: nat, end: nat)
    requires p.WotsValid()
  {
    && start < end
    && end == (Shr(end - 1, h) + 1) * Pow2(h)
    && start <= Shr(end - 1, h) * Pow2(h)
    && val == NodeAt(p, t, h, Shr(end - 1, h))
  }

  /** The first leaf under the node of height `h` that ends before `end`. */
  ghost function First(h: nat, end: nat): nat
    requires end > 0
  {
    Shr(end - 1, h) * Pow2(h)
  }

  /**
   The stack holds the maximal complete subtrees of the leaves from `start` to `end`, left to
   right, with strictly decreasing heights.
  */
  ghost predicate Stacked(p: Params, t: Subtree, target: nat, vals: seq<Node>, hs: seq<nat>, start: nat, end: nat)
    requires p.WotsValid() && |vals| == |hs|
    decreases |hs|
  {
    if |hs| == 0 then start == end
    else
      var k := |hs| - 1;
      && Covers(p, t, vals[k], hs[k], start, end)
      && hs[k] <= target && (hs[k] < target ==> Shr(end - 1, hs[k]) % 2 == 0)
      && (k > 0 ==> hs[k - 1] > hs[k])
      && Stacked(p, t, target, vals[..k], hs[..k], start, First(hs[k], end))
  }

  /** As `Stacked`, except that the top entry may still have to be merged with the one below it. */
  ghost predicate Pending(p: Params, t: Subtree, target: nat, vals: seq<Node>, hs: seq<nat>, start: nat, end: nat)
    requires p.WotsValid() && |vals| == |hs|
  {
    |hs| > 0 &&
    var k := |hs| - 1;
    && Covers(p, t, vals[k], hs[k], start, end)
    && hs[k] <= target
    && (k > 0 ==> hs[k - 1] >= hs[k])
    && Stacked(p, t, target, vals[..k], hs[..k], start, First(hs[k], end))
  }

  lemma Push(p: Params, t: Subtree, target: nat, vals: seq<Node>, hs: seq<nat>, start: nat, idx: nat)
    requires p.WotsValid() && |vals| == |hs| && start <= idx
    requires Stacked(p, t, target, vals, hs, start, idx)
    ensures Pending(p, t, target, vals + [NodeAt(p, t, 0, idx)], hs + [0], start, idx + 1)
  {
    hide NodeAt;
    var k := |hs|;
    assert (vals + [NodeAt(p, t, 0, idx)])[..k] == vals && (hs + [0])[..k] == hs;
    assert Pow2(0) == 1 && Shr(idx, 0) == idx && First(0, idx + 1) == idx;
  }

  /** Two equal heights on top belong to sibling nodes, and their parent covers both. */
  lemma Merge(p: Params, t: Subtree, target: nat, vals: seq<Node>, hs: seq<nat>, start: nat, end: nat)
    requires p.WotsValid() && |vals| == |hs| >= 2
    requires Pending(p, t, target, vals, hs, start, end)
    requires hs[|hs| - 1] == hs[|hs| - 2] && end <= start + Pow2(target)
    ensures var h, k := hs[|hs| - 1], |hs| - 2;
            var i := Shr(end - 1, h + 1);
            && h < target
            && vals[k] == NodeAt(p, t, h, 2 * i) && vals[k + 1] == NodeAt(p, t, h, 2 * i + 1)
            && Pending(p, t, target, vals[..k] + [NodeAt(p, t, h + 1, i)], hs[..k] + [h + 1], start, end)
  {
    hide NodeAt, Pow2, Shr;
    var h, k := hs[|hs| - 1], |hs| - 2;
    var q := Shr(end - 1, h);
    var mid := First(h, end);
    assert vals[..k + 1][..k] == vals[..k] && hs[..k + 1][..k] == hs[..k];
    var q' := Shr(mid - 1, h);
    Siblings(h, end, mid, q, q');
    PairFits(start, end, q', h, target);
    var i := Shr(end - 1, h + 1);
    var vs, gs := vals[..k] + [NodeAt(p, t, h + 1, i)], hs[..k] + [h + 1];
    assert vs[..k] == vals[..k] && gs[..k] == hs[..k];
    assert First(h + 1, end) == First(h, mid);
  }

  lemma SumBound(q: nat, m: nat)
    ensures (q + 2) * m == q * m + 2 * m && (q + 1) * m == q * m + m
  {
  }

  /** Two nodes of height `h` inside a range of `2^target` leaves lie below its root. */
  lemma PairFits(start: nat, end: nat, q: nat, h: nat, target: nat)
    requires end == (q + 2) * Pow2(h) && start <= q * Pow2(h) && end <= start + Pow2(target)
    ensures h < target
  {
    hide Pow2;
    SumBound(q, Pow2(h));
    HeightBelow(h, target);
  }

  lemma HeightBelow(h: nat, target: nat)
    requires 2 * Pow2(h) <= Pow2(target)
    ensures h < target
  {
    if h >= target {
      PowMono(target, h);
    }
  }

  /** A node of height `h` that ends at an odd position is the right half of the next height. */
  lemma Siblings(h: nat, end: nat, mid: nat, q: nat, q': nat)
    requires end > 0 && q == Shr(end - 1, h) && end == (q + 1) * Pow2(h) && mid == q * Pow2(h)
    requires mid > 0 && q' == Shr(mid - 1, h) && mid == (q' + 1) * Pow2(h) && q' % 2 == 0
    ensures q == q' + 1
    ensures Shr(end - 1, h + 1) == q' / 2 && 2 * (q' / 2) == q'
    ensures end == (q' / 2 + 1) * Pow2(h + 1) && q' * Pow2(h) == (q' / 2) * Pow2(h + 1)
  {
    hide Pow2, Shr;
    var m := Pow2(h);
    Cancel(q, q' + 1, m);
    ShrHalf(end - 1, h);
    assert Pow2(h + 1) == 2 * m by {
      PowAdd(h, 1);
      OneBit();
    }
    Doubling(q' / 2, m);
  }

  lemma Doubling(a: nat, m: nat)
    ensures a * (2 * m) == (2 * a) * m && (a + 1) * (2 * m) == (2 * a + 2) * m
  {
  }

  /** When the top entry differs from the one below it, nothing is left to merge. */
  lemma Settle(p: Params, t: Subtree, target: nat, vals: seq<Node>, hs: seq<nat>, start: nat, first: nat, end: nat)
    requires p.WotsValid() && |vals| == |hs| && start == first * Pow2(target)
    requires Pending(p, t, target, vals, hs, start, end)
    requires |hs| >= 2 ==> hs[|hs| - 1] != hs[|hs| - 2]
    ensures Stacked(p, t, target, vals, hs, start, end)
  {
    hide NodeAt, Pow2, Shr;
    var k := |hs| - 1;
    var h, q := hs[k], Shr(end - 1, hs[k]);
    if h < target {
      if k == 0 {
        EvenMultiple(first, target, q, h);
      } else {
        var g, mid := hs[k - 1], First(h, end);
        assert hs[..k][k - 1] == g;
        EvenMultiple(Shr(mid - 1, g) + 1, g, q, h);
      }
    }
  }

  /** An unfinished range leaves a free slot: at most `target` entries are stacked. */
  lemma {:induction false} Room(p: Params, t: Subtree, target: nat, vals: seq<Node>, hs: seq<nat>, start: nat,
      end: nat)
    requires p.WotsValid() && |vals| == |hs|
    requires Stacked(p, t, target, vals, hs, start, end) && end < start + Pow2(target)
    ensures |hs| <= target
    ensures |hs| > 0 ==> |hs| + hs[|hs| - 1] <= target
    decreases |hs|
  {
    hide NodeAt, Pow2, Shr;
    if |hs| > 0 {
      var k := |hs| - 1;
      var h := hs[k];
      SumBound(Shr(end - 1, h), Pow2(h));
      PowOrder(h, target);
      Room(p, t, target, vals[..k], hs[..k], start, First(h, end));
      if k > 0 {
        assert hs[..k][k - 1] == hs[k - 1];
      }
    }
  }

  /** Entries below the target height never fill the range. */
  lemma {:induction false} NotFull(p: Params, t: Subtree, target: nat, vals: seq<Node>, hs: seq<nat>,
      start: nat, end: nat)
    requires p.WotsValid() && |vals| == |hs| > 0
    requires Stacked(p, t, target, vals, hs, start, end) && end <= start + Pow2(target)
    requires hs[|hs| - 1] < target
    ensures end + Pow2(hs[|hs| - 1]) <= start + Pow2(target)
    decreases |hs|
  {
    hide NodeAt, Pow2, Shr;
    var k := |hs| - 1;
    var h := hs[k];
    SumBound(Shr(end - 1, h), Pow2(h));
    PowMono(h, target);
    if k > 0 {
      var g, mid := hs[k - 1], First(h, end);
      assert hs[..k][k - 1] == g;
      PowMono(h, g);
      SumBound(Shr(mid - 1, g), Pow2(g));
      if g < target {
        NotFull(p, t, target, vals[..k], hs[..k], start, mid);
      }
    }
  }

  /** A finished range leaves exactly its root. */
  lemma Full(p: Params, t: Subtree, target: nat, vals: seq<Node>, hs: seq<nat>, start: nat, first: nat)
    requires p.WotsValid() && |vals| == |hs| && start == first * Pow2(target)
    requires Stacked(p, t, target, vals, hs, start, start + Pow2(target))
    ensures |hs| == 1 && vals[0] == NodeAt(p, t, target, first)
  {
    hide NodeAt, Pow2, Shr;
    var end := start + Pow2(target);
    SumBound(first, Pow2(target));
    assert |hs| > 0;
    var k := |hs| - 1;
    if hs[k] < target {
      NotFull(p, t, target, vals, hs, start, end);
    }
    assert hs[k] == target;
    SumBound(Shr(end - 1, target), Pow2(target));
    Cancel(Shr(end - 1, target), first, Pow2(target));
  }

  /** The depth of a stack over the first `end` leaves is the number of one bits of `end`. */
  lemma {:induction false} Depth(p: Params, t: Subtree, target: nat, vals: seq<Node>, hs: seq<nat>, end: nat)
    requires p.WotsValid() && |vals| == |hs|
    requires Stacked(p, t, target, vals, hs, 0, end) && end < Pow2(target)
    ensures |hs| == PopCount(end)
    decreases |hs|
  {
    hide NodeAt, Pow2, Shr;
    if |hs| > 0 {
      var k := |hs| - 1;
      var h := hs[k];
      SumBound(Shr(end - 1, h), Pow2(h));
      PowOrder(h, target);
      PopCountAdd(Shr(end - 1, h), h);
      Depth(p, t, target, vals[..k], hs[..k], First(h, end));
    }
  }
}
