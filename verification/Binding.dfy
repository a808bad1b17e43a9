/**
 What an accepted signature binds: its top layer is, byte for byte, the one the key makes of the same
 message, or it exhibits two different inputs of one keyed hash with the same value, at a named place.
*/
module Binding {
  import opened Bits
  import opened Bytes
  import opened Parameters
  import opened Address
  import opened Hashing
  import opened ChainLengths
  import opened Wots
  import opened LTree
  import opened Merkle
  import opened RootClimbing
  import opened Positions
  import opened CacheSpec
  import opened SignatureSpec

  // ---- chains ----

  /** After `k` steps the walks from `x` and `y` differ, and step `k` brings them together. */
  ghost predicate ChainCollision(p: Params, pubSeed: Node, words: seq<Word>, x: Node, y: Node, start: nat, k: nat) {
    start + k < 0x1_0000_0000 &&
    var a, b := Chain(p, pubSeed, words, x, start, k), Chain(p, pubSeed, words, y, start, k);
    a != b && ChainHash(p, pubSeed, words + [start + k], a) == ChainHash(p, pubSeed, words + [start + k], b)
  }

  /** Walks that end alike started alike, unless they collide at a step in between. */
  lemma {:induction false} ChainBinds(p: Params, pubSeed: Node, words: seq<Word>, x: Node, y: Node, start: nat,
      steps: nat)
    requires start + steps <= 0x1_0000_0000
    requires Chain(p, pubSeed, words, x, start, steps) == Chain(p, pubSeed, words, y, start, steps)
    requires forall k: nat :: k < steps ==> !ChainCollision(p, pubSeed, words, x, y, start, k)
    ensures x == y
  {
    hide ChainHash;
    if steps > 0 {
      assert !ChainCollision(p, pubSeed, words, x, y, start, steps - 1);
      ChainBinds(p, pubSeed, words, x, y, start, steps - 1);
    }
  }

  /** Chain `c` of `sig` collides with the key's own chain, `k` steps after position `lens[c]`. */
  ghost predicate WotsCollision(p: Params, seeds: Seeds, pos: seq<Word>, sig: seq<Node>, lens: seq<nat>, c: nat, k: nat)
    requires p.WotsValid() && AreLengths(p, lens) && |sig| == p.WotsLen()
  {
    c < p.WotsLen() && k < p.W() - 1 - lens[c] &&
    ChainCollision(p, seeds.pub, pos + [c], sig[c], SigNodes(p, seeds.sk, seeds.pub, pos, lens)[c], lens[c], k)
  }

  ghost predicate WotsCollides(p: Params, seeds: Seeds, pos: seq<Word>, sig: seq<Node>, lens: seq<nat>)
    requires p.WotsValid() && AreLengths(p, lens) && |sig| == p.WotsLen()
  {
    exists c: nat, k: nat :: WotsCollision(p, seeds, pos, sig, lens, c, k)
  }

  /** A signature that leads to the public key is the key's own, unless a chain of it collides. */
  lemma WotsBinds(p: Params, seeds: Seeds, pos: seq<Word>, sig: seq<Node>, lens: seq<nat>)
    requires p.WotsValid() && AreLengths(p, lens) && |sig| == p.WotsLen()
    requires EndNodes(p, seeds.pub, pos, sig, lens) == PkNodes(p, seeds.sk, seeds.pub, pos)
    requires !WotsCollides(p, seeds, pos, sig, lens)
    ensures sig == SigNodes(p, seeds.sk, seeds.pub, pos, lens)
  {
    hide Chain, ChainCollision, KeygenOf;
    var own := SigNodes(p, seeds.sk, seeds.pub, pos, lens);
    Recovery(p, seeds.sk, seeds.pub, pos, lens);
    forall c | 0 <= c < p.WotsLen() ensures sig[c] == own[c] {
      assert EndNodes(p, seeds.pub, pos, sig, lens)[c] == EndNodes(p, seeds.pub, pos, own, lens)[c];
      forall k: nat | k < p.W() - 1 - lens[c]
        ensures !ChainCollision(p, seeds.pub, pos + [c], sig[c], own[c], lens[c], k)
      {
        assert !WotsCollision(p, seeds, pos, sig, lens, c, k);
      }
      ChainBinds(p, seeds.pub, pos + [c], sig[c], own[c], lens[c], p.W() - 1 - lens[c]);
    }
  }

  // ---- L-trees ----

  /** At node `i` of height `h + 1` the trees over `a` and `b` hash different pairs to the same value. */
  ghost predicate LTreeCollision(p: Params, pubSeed: Node, pos: seq<Word>, a: seq<Node>, b: seq<Node>, h: nat, i: nat)
    requires |a| == |b| < 0x1_0000_0000
  {
    h < 0xFFFF_FFFF && 2 * i + 1 < Width(|a|, h) &&
    var left, right := Inner(p, pubSeed, pos, a, h, 2 * i), Inner(p, pubSeed, pos, a, h, 2 * i + 1);
    var left', right' := Inner(p, pubSeed, pos, b, h, 2 * i), Inner(p, pubSeed, pos, b, h, 2 * i + 1);
    && (left, right) != (left', right')
    && TreeHash(p, pubSeed, pos + [h, i], left, right) == TreeHash(p, pubSeed, pos + [h, i], left', right')
  }

  ghost predicate LTreesCollide(p: Params, pubSeed: Node, pos: seq<Word>, a: seq<Node>, b: seq<Node>)
    requires |a| == |b| < 0x1_0000_0000
  {
    exists h: nat, i: nat :: LTreeCollision(p, pubSeed, pos, a, b, h, i)
  }

  /** Nodes that agree cover leaves that agree, unless their trees collide. */
  lemma {:induction false} InnerBinds(p: Params, pubSeed: Node, pos: seq<Word>, a: seq<Node>, b: seq<Node>,
      h: Word, i: Word, k: nat)
    requires |a| == |b| < 0x1_0000_0000 && i < Width(|a|, h)
    requires Inner(p, pubSeed, pos, a, h, i) == Inner(p, pubSeed, pos, b, h, i)
    requires !LTreesCollide(p, pubSeed, pos, a, b)
    requires k < |a| && i * Pow2(h) <= k < (i + 1) * Pow2(h)
    ensures a[k] == b[k]
    decreases h
  {
    hide TreeHash;
    if h == 0 {
      assert i * Pow2(0) == i && (i + 1) * Pow2(0) == i + 1;
    } else {
      HalvesOf(i, Pow2(h - 1));
      if 2 * i + 1 < Width(|a|, h - 1) {
        assert !LTreeCollision(p, pubSeed, pos, a, b, h - 1, i);
        InnerBinds(p, pubSeed, pos, a, b, h - 1, if k < (2 * i + 1) * Pow2(h - 1) then 2 * i else 2 * i + 1, k);
      } else {
        WidthIsCeiling(|a|, h - 1);
        TimesMono(Width(|a|, h - 1), 2 * i + 1, Pow2(h - 1));
        InnerBinds(p, pubSeed, pos, a, b, h - 1, 2 * i, k);
      }
    }
  }

  /** Public keys that compress to the same leaf are the same, unless their L-trees collide. */
  lemma LTreeBinds(p: Params, pubSeed: Node, pos: seq<Word>, a: seq<Node>, b: seq<Node>)
    requires 1 <= |a| == |b| < 0x1_0000_0000
    requires Compress(p, pubSeed, pos, a) == Compress(p, pubSeed, pos, b)
    requires !LTreesCollide(p, pubSeed, pos, a, b)
    ensures a == b
  {
    hide Inner, Rounds, Width, Pow2, LTreesCollide;
    WidthRounds(|a|);
    RoundsIsLog(|a|);
    forall k | 0 <= k < |a| ensures a[k] == b[k] {
      InnerBinds(p, pubSeed, pos, a, b, Rounds(|a|), 0, k);
    }
  }

  // ---- authentication paths ----

  /**
   On the way up from `leaf` along `path`, the pair hashed at height `k` differs from the tree's own pair
   there and has the same hash.
  */
  ghost predicate PathCollision(p: Params, t: Subtree, leafIdx: nat, leaf: Node, path: seq<Node>, k: nat)
    requires p.WotsValid()
  {
    k < |path| &&
    var i, right := Shr(leafIdx, k + 1), Shr(leafIdx, k) % 2 == 1;
    var below := Climb(p, t.pubSeed, t.base + [TYPE_HASHTREE, 0], leaf, leafIdx, path, k);
    var a, b := if right then path[k] else below, if right then below else path[k];
    var a', b' := NodeAt(p, t, k, 2 * i), NodeAt(p, t, k, 2 * i + 1);
    && (a, b) != (a', b')
    && TreeHash(p, t.pubSeed, NodeWords(t, k, i), a, b) == TreeHash(p, t.pubSeed, NodeWords(t, k, i), a', b')
  }

  ghost predicate PathCollides(p: Params, t: Subtree, leafIdx: nat, leaf: Node, path: seq<Node>)
    requires p.WotsValid()
  {
    exists k: nat :: PathCollision(p, t, leafIdx, leaf, path, k)
  }

  /** One step down: nodes that agree at height `h + 1` agree at height `h`, and so do their siblings. */
  lemma StepDown(p: Params, t: Subtree, leafIdx: nat, leaf: Node, path: seq<Node>, h: nat)
    requires p.WotsValid() && h < |path| && !PathCollision(p, t, leafIdx, leaf, path, h)
    requires Climb(p, t.pubSeed, t.base + [TYPE_HASHTREE, 0], leaf, leafIdx, path, h + 1)
          == NodeAt(p, t, h + 1, Shr(leafIdx, h + 1))
    ensures Climb(p, t.pubSeed, t.base + [TYPE_HASHTREE, 0], leaf, leafIdx, path, h) == NodeAt(p, t, h, Shr(leafIdx, h))
    ensures path[h] == PathNode(p, t, leafIdx, h)
  {
    hide TreeHash, NodeAt, NodeWords;
    ShrHalf(leafIdx, h);
    WordsOfStep(t, h, Shr(leafIdx, h + 1));
    NodeStep(p, t, h, Shr(leafIdx, h + 1));
  }

  /** A climb that meets the tree at height `h` started from its leaf, along its siblings, unless it collides. */
  lemma {:induction false} ClimbBinds(p: Params, t: Subtree, leafIdx: nat, leaf: Node, path: seq<Node>, h: nat)
    requires p.WotsValid() && h <= |path|
    requires Climb(p, t.pubSeed, t.base + [TYPE_HASHTREE, 0], leaf, leafIdx, path, h)
          == NodeAt(p, t, h, Shr(leafIdx, h))
    requires forall k: nat :: k < h ==> !PathCollision(p, t, leafIdx, leaf, path, k)
    ensures leaf == NodeAt(p, t, 0, leafIdx) && forall k :: 0 <= k < h ==> path[k] == PathNode(p, t, leafIdx, k)
  {
    hide PathCollision, NodeAt, PathNode, Climb, Shr;
    if h > 0 {
      StepDown(p, t, leafIdx, leaf, path, h - 1);
      ClimbBinds(p, t, leafIdx, leaf, path, h - 1);
    } else {
      ClimbFirst(p, t.pubSeed, t.base + [TYPE_HASHTREE, 0], leaf, leafIdx, path);
    }
  }

  lemma PathBinds(p: Params, t: Subtree, leafIdx: nat, leaf: Node, path: seq<Node>)
    requires p.WotsValid() && |path| == p.treeHeight && leafIdx < Pow2(p.treeHeight)
    requires Climb(p, t.pubSeed, t.base + [TYPE_HASHTREE, 0], leaf, leafIdx, path, p.treeHeight) == RootOf(p, t)
    requires !PathCollides(p, t, leafIdx, leaf, path)
    ensures leaf == NodeAt(p, t, 0, leafIdx) && path == AuthPath(p, t, leafIdx)
  {
    hide PathCollision, NodeAt, PathNode, Climb, Pow2, Shr;
    ShrSmall(leafIdx, p.treeHeight);
    ClimbBinds(p, t, leafIdx, leaf, path, p.treeHeight);
  }

  // ---- a layer ----

  /**
   A layer part `rest` that signs `msg` collides with the key's own tree: on the authentication path, in
   the L-tree of its leaf, or on a chain of its WOTS+ signature.
  */
  ghost predicate LayerCollides(p: Params, seeds: Seeds, idx: nat, i: nat, rest: seq<Byte>, msg: Node)
    requires p.WotsValid() && |msg| == p.n && p.LayerBytes() <= |rest|
  {
    PartFits(p, |rest|);
    var pos, lens := OtsWords(p, idx, i), Lengths(p, msg);
    var sig, path := Chunks(rest, p.n, p.WotsLen()), Chunks(rest[p.WotsSigBytes()..], p.n, p.treeHeight);
    || PathCollides(p, TreeAt(p, seeds, idx, i), LeafIdx(p, idx, i), RecoveredLeaf(p, seeds.pub, idx, i, rest, msg),
         path)
    || LTreesCollide(p, seeds.pub, LeafWords(p, idx, i), EndNodes(p, seeds.pub, pos, sig, lens),
         PkNodes(p, seeds.sk, seeds.pub, pos))
    || WotsCollides(p, seeds, pos, sig, lens)
  }

  /** A layer that leads to the root of its tree is the key's own for the message it signs, unless it collides. */
  lemma LayerBinds(p: Params, seeds: Seeds, idx: nat, i: nat, rest: seq<Byte>, msg: Node)
    requires p.WotsValid() && |msg| == p.n && p.LayerBytes() <= |rest|
    requires RecoveredRoot(p, seeds.pub, idx, i, rest, msg) == RootOf(p, TreeAt(p, seeds, idx, i))
    requires !LayerCollides(p, seeds, idx, i, rest, msg)
    ensures rest[..p.LayerBytes()] == WotsBytes(p, seeds, idx, i, msg) + PathBytes(p, seeds, idx, i)
  {
    hide PathCollides, LTreesCollide, WotsCollides, RootOf, Climb, EndNodes, SigNodes, PkNodes, Compress, AuthPath,
      Lengths, Flatten, Chunks, TreeIdx, LeafIdx, OtsWords, LeafWords, NodeAt;
    PartFits(p, |rest|);
    var pos, lens := OtsWords(p, idx, i), Lengths(p, msg);
    var tail := rest[p.WotsSigBytes()..];
    var sig, path := Chunks(rest, p.n, p.WotsLen()), Chunks(tail, p.n, p.treeHeight);
    Position(p, idx, i);
    PathBinds(p, TreeAt(p, seeds, idx, i), LeafIdx(p, idx, i), RecoveredLeaf(p, seeds.pub, idx, i, rest, msg), path);
    RecoveredLeafIs(p, seeds, idx, i);
    LTreeBinds(p, seeds.pub, LeafWords(p, idx, i), EndNodes(p, seeds.pub, pos, sig, lens),
      PkNodes(p, seeds.sk, seeds.pub, pos));
    WotsBinds(p, seeds, pos, sig, lens);
    FlattenChunks(rest, p.n, p.WotsLen());
    FlattenChunks(tail, p.n, p.treeHeight);
    assert rest[..p.LayerBytes()] == rest[..p.WotsSigBytes()] + tail[..p.treeHeight * p.n];
  }

  // ---- an accepted signature ----

  /** What layer `i` is found to sign: the digest, or the root that the layers below lead to. */
  function Signed(p: Params, pubSeed: Node, idx: nat, layers: seq<Byte>, digest: Node, i: nat): (msg: Node)
    requires p.WotsValid() && |digest| == p.n && i <= p.d && |layers| == p.d * p.LayerBytes()
    ensures |msg| == p.n
  {
    if i == 0 then digest
    else
      PartStart(p, i - 1);
      RecoveredRoot(p, pubSeed, idx, i - 1, layers[(i - 1) * p.LayerBytes()..],
        Signed(p, pubSeed, idx, layers, digest, i - 1))
  }

  lemma PartStart(p: Params, i: nat)
    requires i < p.d
    ensures i * p.LayerBytes() + p.LayerBytes() == (i + 1) * p.LayerBytes() <= p.d * p.LayerBytes()
  {
    TimesMono(i + 1, p.d, p.LayerBytes());
  }

  lemma {:induction false} RecoversSigned(p: Params, pubSeed: Node, idx: nat, layers: seq<Byte>, digest: Node, i: nat)
    requires p.WotsValid() && |digest| == p.n && i <= p.d && |layers| == p.d * p.LayerBytes()
    ensures i * p.LayerBytes() <= |layers| && |layers[i * p.LayerBytes()..]| == Remaining(p, i)
    ensures RecoverFrom(p, pubSeed, idx, i, layers[i * p.LayerBytes()..], Signed(p, pubSeed, idx, layers, digest, i))
         == Signed(p, pubSeed, idx, layers, digest, p.d)
    decreases p.d - i
  {
    hide RecoveredRoot, Params.WotsSigBytes;
    RemainingIsProduct(p, i);
    TimesMono(i, p.d, p.LayerBytes());
    PartsLeft(p.d, i, p.LayerBytes());
    if i < p.d {
      PartStart(p, i);
      RecoversSigned(p, pubSeed, idx, layers, digest, i + 1);
      assert layers[i * p.LayerBytes()..][p.LayerBytes()..] == layers[(i + 1) * p.LayerBytes()..];
    }
  }

  lemma PartsLeft(d: nat, i: nat, len: nat)
    requires i <= d
    ensures d * len - i * len == (d - i) * len
  {
  }

  /** The bytes after the index and R are the layers. */
  lemma LayersLength(p: Params)
    ensures p.SigBytes() == p.indexBytes + p.n + p.d * p.LayerBytes()
  {
    SigBytesByLayer(p);
  }

  /**
   Verification in terms of the digest functions: `digest` is cut from the message digest of R, the public
   root, the index and the message itself, and the layers lead from it to the public root.
  */
  ghost predicate Verified(p: Params, pk: seq<Byte>, sig: seq<Byte>, m: seq<Byte>, digest: Node)
    requires p.WotsValid()
  {
    LayersLength(p);
    && |pk| >= 2 * p.n && |sig| == p.SigBytes() && |digest| == p.n
    && var idx := FromBytes(sig[..p.indexBytes]);
    && Cut(p.n, p.digest.message(sig[p.indexBytes..p.indexBytes + p.n], pk[..p.n], idx, m), digest)
    && Signed(p, pk[p.n..2 * p.n], idx, LayersOf(p, sig), digest, p.d) == pk[..p.n]
  }

  lemma AcceptedIsVerified(p: Params, pk: seq<Byte>, sig: seq<Byte>, m: seq<Byte>) returns (digest: Node)
    requires p.WotsValid() && p.indexBytes <= 8 && Accepts(p, pk, sig, m)
    ensures Verified(p, pk, sig, m, digest)
  {
    hide RecoverFrom, Signed, FromBytes, Remaining, Params.LayerBytes;
    SigBytesAre(p);
    LayersLength(p);
    var idx := FromBytes(sig[..p.indexBytes]);
    var layers := sig[p.indexBytes + p.n..];
    digest := MessageHash(p, sig[p.indexBytes..p.indexBytes + p.n], pk[..p.n], idx, m);
    RecoversSigned(p, pk[p.n..2 * p.n], idx, layers, digest, 0);
    assert 0 * p.LayerBytes() == 0 && layers[0..] == layers;
    SignedFirst(p, pk[p.n..2 * p.n], idx, layers, digest);
  }

  lemma SignedFirst(p: Params, pubSeed: Node, idx: nat, layers: seq<Byte>, digest: Node)
    requires p.WotsValid() && |digest| == p.n && |layers| == p.d * p.LayerBytes()
    ensures Signed(p, pubSeed, idx, layers, digest, 0) == digest
  {
  }

  /** Layer `i` is the key's own for the message it signs, or it collides. */
  ghost predicate Bound(p: Params, seeds: Seeds, idx: nat, layers: seq<Byte>, digest: Node, i: nat)
    requires p.WotsValid() && |digest| == p.n && i < p.d && |layers| == p.d * p.LayerBytes()
  {
    PartStart(p, i);
    var rest, msg := layers[i * p.LayerBytes()..], Signed(p, seeds.pub, idx, layers, digest, i);
    || LayerCollides(p, seeds, idx, i, rest, msg)
    || rest[..p.LayerBytes()] == WotsBytes(p, seeds, idx, i, msg) + PathBytes(p, seeds, idx, i)
  }

  lemma SignedStep(p: Params, pubSeed: Node, idx: nat, layers: seq<Byte>, digest: Node, i: nat)
    requires p.WotsValid() && |digest| == p.n && i < p.d && |layers| == p.d * p.LayerBytes()
    ensures i * p.LayerBytes() + p.LayerBytes() <= |layers|
    ensures Signed(p, pubSeed, idx, layers, digest, i + 1)
         == RecoveredRoot(p, pubSeed, idx, i, layers[i * p.LayerBytes()..],
              Signed(p, pubSeed, idx, layers, digest, i))
  {
    hide RecoveredRoot, Params.WotsSigBytes;
    PartStart(p, i);
  }

  /** Whatever leads to the root of the key's own tree is bound; the layers below need not. */
  lemma RootBinds(p: Params, seeds: Seeds, idx: nat, layers: seq<Byte>, digest: Node, i: nat)
    requires p.WotsValid() && |digest| == p.n && i < p.d && |layers| == p.d * p.LayerBytes()
    requires Signed(p, seeds.pub, idx, layers, digest, i + 1) == RootOf(p, TreeAt(p, seeds, idx, i))
    ensures Bound(p, seeds, idx, layers, digest, i)
  {
    hide Signed, RecoveredRoot, LayerCollides, RootOf, WotsBytes, PathBytes, Params.LayerBytes;
    PartStart(p, i);
    SignedStep(p, seeds.pub, idx, layers, digest, i);
    var rest, msg := layers[i * p.LayerBytes()..], Signed(p, seeds.pub, idx, layers, digest, i);
    if !LayerCollides(p, seeds, idx, i, rest, msg) {
      LayerBinds(p, seeds, idx, i, rest, msg);
    }
  }

  /** The layers of a signature, behind the index and R. */
  function LayersOf(p: Params, sig: seq<Byte>): (layers: seq<Byte>)
    requires |sig| == p.SigBytes()
    ensures |layers| == p.d * p.LayerBytes()
  {
    LayersLength(p);
    sig[p.indexBytes + p.n..]
  }

  /** The top layer of every accepted signature is bound, for every number of layers. */
  lemma VerifiedBinds(p: Params, seeds: Seeds, pk: seq<Byte>, sig: seq<Byte>, m: seq<Byte>, digest: Node)
    requires p.Valid() && |pk| >= 2 * p.n && p.indexBytes <= |sig| == p.SigBytes() && |digest| == p.n
    requires OwnIndex(p, seeds, pk, sig) && Verified(p, pk, sig, m, digest)
    ensures Bound(p, seeds, FromBytes(sig[..p.indexBytes]), LayersOf(p, sig), digest, p.d - 1)
  {
    hide Signed, RootOf, TreeIdx, Bound, FromBytes, Cut, PublicKey, Params.LayerBytes, Params.SigBytes, Pow2;
    LayersLength(p);
    SingleTopTree(p, FromBytes(sig[..p.indexBytes]));
    PkParts(p, seeds, pk);
    RootBinds(p, seeds, FromBytes(sig[..p.indexBytes]), LayersOf(p, sig), digest, p.d - 1);
  }

  lemma PkParts(p: Params, seeds: Seeds, pk: seq<Byte>)
    requires p.Valid() && |pk| >= 2 * p.n && |seeds.pub| == p.n && pk[..2 * p.n] == PublicKey(p, seeds)
    ensures pk[..p.n] == RootOf(p, SubtreeOf(seeds, p.d - 1, 0)) && pk[p.n..2 * p.n] == seeds.pub
  {
    hide RootOf;
    assert pk[..p.n] == pk[..2 * p.n][..p.n] && pk[p.n..2 * p.n] == pk[..2 * p.n][p.n..];
  }

  /** `pk` is the public key of `seeds`, and `sig` carries one of its indices. */
  ghost predicate OwnIndex(p: Params, seeds: Seeds, pk: seq<Byte>, sig: seq<Byte>)
    requires p.Valid() && |pk| >= 2 * p.n && p.indexBytes <= |sig|
  {
    |seeds.pub| == p.n && pk[..2 * p.n] == PublicKey(p, seeds) && FromBytes(sig[..p.indexBytes]) <= p.MaxIdx()
  }

  /** The top layer is bound for every key that `pk` is the public key of. */
  ghost predicate BindsTop(p: Params, pk: seq<Byte>, sig: seq<Byte>, digest: Node)
    requires p.Valid() && |pk| >= 2 * p.n && |digest| == p.n && p.indexBytes <= |sig| == p.SigBytes()
  {
    forall seeds: Seeds :: OwnIndex(p, seeds, pk, sig) ==>
        Bound(p, seeds, FromBytes(sig[..p.indexBytes]), LayersOf(p, sig), digest, p.d - 1)
  }

  /** What acceptance means: the message digest leads to the public root, and the top layer is bound. */
  ghost predicate Authentic(p: Params, pk: seq<Byte>, sig: seq<Byte>, m: seq<Byte>)
    requires p.Valid()
  {
    && |pk| >= 2 * p.n && p.indexBytes <= |sig| == p.SigBytes()
    && exists digest: Node :: |digest| == p.n && Verified(p, pk, sig, m, digest) && BindsTop(p, pk, sig, digest)
  }

  lemma AcceptedIsAuthentic(p: Params, pk: seq<Byte>, sig: seq<Byte>, m: seq<Byte>)
    requires p.Valid() && Accepts(p, pk, sig, m)
    ensures Authentic(p, pk, sig, m)
  {
    hide Accepts, Bound, FromBytes, PublicKey, Pow2, Params.SigBytes, Params.LayerBytes, Cut, Signed;
    LayersLength(p);
    var digest := AcceptedIsVerified(p, pk, sig, m);
    forall seeds: Seeds | OwnIndex(p, seeds, pk, sig)
      ensures Bound(p, seeds, FromBytes(sig[..p.indexBytes]), LayersOf(p, sig), digest, p.d - 1)
    {
      VerifiedBinds(p, seeds, pk, sig, m, digest);
    }
    assert BindsTop(p, pk, sig, digest);
  }

  // ---- what a forger would have to find ----

  /**
   A bound layer that signs another message than the key did holds, for some chain, a node strictly
   before the one the key has published, from which walking on leads to it.
  */
  lemma ForgeryInverts(p: Params, seeds: Seeds, pos: seq<Word>, msg: Node, own: Node) returns (c: nat)
    requires p.WotsValid() && p.logW != 8 && |msg| == |own| == p.n && msg != own
    ensures c < p.WotsLen() && Lengths(p, msg)[c] < Lengths(p, own)[c]
    ensures var forged := SigNodes(p, seeds.sk, seeds.pub, pos, Lengths(p, msg))[c];
            var steps := Lengths(p, own)[c] - Lengths(p, msg)[c];
            Chain(p, seeds.pub, pos + [c], forged, Lengths(p, msg)[c], steps)
              == SigNodes(p, seeds.sk, seeds.pub, pos, Lengths(p, own))[c]
  {
    hide Chain, Lengths, KeygenOf;
    Antichain(p, msg, own);
    c :| 0 <= c < p.WotsLen() && Lengths(p, msg)[c] < Lengths(p, own)[c];
    ChainCompose(p, seeds.pub, pos + [c], Secret(p, seeds.sk, seeds.pub, pos, c), 0, Lengths(p, msg)[c],
      Lengths(p, own)[c] - Lengths(p, msg)[c]);
  }
}
