/**
 The byte layout of keys and signatures, what a signature contains, and what verification
 recomputes from it (sections 4.2.4 and 4.2.5 of RFC 8391).
*/
module SignatureSpec {
  import opened Bits
  import opened Bytes
  import opened Parameters
  import opened Address
  import opened Hashing
  import opened ChainLengths
  import opened Wots
  import opened LTree
  import opened Merkle
  import opened RootClimbing
  import opened Positions
  import opened CacheSpec

  // ---- secret key: index, SK_SEED, SK_PRF, root, PUB_SEED ----

  /** The secret fields of a key and its public root. */
  datatype Key = Key(seeds: Seeds, prf: Node, root: Node)

  ghost predicate IsSk(p: Params, sk: seq<Byte>) {
    |sk| == p.SkBytes()
  }

  function SkIndex(p: Params, sk: seq<Byte>): nat
    requires IsSk(p, sk)
  {
    FromBytes(sk[..p.indexBytes])
  }

  /** The fields after the index: SK_SEED, SK_PRF, root and PUB_SEED, `n` bytes each. */
  function KeyFields(n: nat, fields: seq<Byte>): (k: Key)
    requires |fields| == 4 * n
    ensures |k.seeds.sk| == n && |k.seeds.pub| == n && |k.prf| == n && |k.root| == n
  {
    Key(Seeds(fields[..n], fields[3 * n..4 * n]), fields[n..2 * n], fields[2 * n..3 * n])
  }

  function KeyOf(p: Params, sk: seq<Byte>): (k: Key)
    requires IsSk(p, sk)
    ensures |k.seeds.sk| == p.n && |k.seeds.pub| == p.n && |k.prf| == p.n && |k.root| == p.n
  {
    KeyFields(p.n, sk[p.indexBytes..])
  }

  /** The index bytes written when `idx` is spent: its successor, or the all-ones marker. */
  function NextIndexBytes(p: Params, idx: nat): (bs: seq<Byte>)
    ensures |bs| == p.indexBytes
  {
    if idx == p.MaxIdx() then Fill(p.indexBytes, 0xFF) else ToBytes(p.indexBytes, idx + 1)
  }

  /** The key with its index spent. */
  function Bumped(p: Params, sk: seq<Byte>): (sk': seq<Byte>)
    requires IsSk(p, sk)
    ensures IsSk(p, sk')
  {
    NextIndexBytes(p, SkIndex(p, sk)) + sk[p.indexBytes..]
  }

  /** The key after a signature: the last one also erases everything but the index. */
  function AfterSigning(p: Params, sk: seq<Byte>): (sk': seq<Byte>)
    requires IsSk(p, sk)
    ensures IsSk(p, sk')
  {
    if SkIndex(p, sk) == p.MaxIdx() then NextIndexBytes(p, p.MaxIdx()) + Fill(4 * p.n, 0) else Bumped(p, sk)
  }

  /** Spending an index leaves the secret fields alone. */
  lemma BumpedKey(p: Params, sk: seq<Byte>)
    requires IsSk(p, sk)
    ensures KeyOf(p, Bumped(p, sk)) == KeyOf(p, sk)
  {
    assert Bumped(p, sk)[p.indexBytes..] == sk[p.indexBytes..];
  }

  /** The index a spent key holds. */
  lemma BumpedIndex(p: Params, sk: seq<Byte>)
    requires p.Valid() && IsSk(p, sk) && SkIndex(p, sk) <= p.MaxIdx()
    ensures SkIndex(p, sk) < p.MaxIdx() ==> SkIndex(p, Bumped(p, sk)) == SkIndex(p, sk) + 1
    ensures SkIndex(p, sk) == p.MaxIdx() ==> SkIndex(p, Bumped(p, sk)) == Pow256(p.indexBytes) - 1
  {
    hide FromBytes, ToBytes;
    MaxIdxFits(p);
    var idx := SkIndex(p, sk);
    assert Bumped(p, sk)[..p.indexBytes] == NextIndexBytes(p, idx);
    if idx < p.MaxIdx() {
      DecodeEncode(p.indexBytes, idx + 1);
    } else {
      DecodeOnes(NextIndexBytes(p, idx));
    }
  }

  // ---- contents of a signature ----

  function Randomizer(p: Params, key: Key, idx: nat): (r: Node)
    ensures |r| == p.n
  {
    PrfOf(p, key.prf, ToBytes(32, idx))
  }

  function DigestOf(p: Params, key: Key, idx: nat, m: seq<Byte>): (digest: Node)
    ensures |digest| == p.n
  {
    MessageHash(p, Randomizer(p, key, idx), key.root, idx, m)
  }

  /** What layer `i` signs: the message digest, or the root of the tree below. */
  function LayerMessage(p: Params, seeds: Seeds, idx: nat, digest: Node, i: nat): (msg: Node)
    requires p.WotsValid() && |digest| == p.n
    ensures |msg| == p.n
  {
    if i == 0 then digest else RootBelow(p, seeds, idx, i)
  }

  /** The authentication path of `idx` at layer `i`, as bytes. */
  function PathBytes(p: Params, seeds: Seeds, idx: nat, i: nat): (bs: seq<Byte>)
    requires p.WotsValid()
    ensures |bs| == p.treeHeight * p.n
  {
    var path := AuthPath(p, TreeAt(p, seeds, idx, i), LeafIdx(p, idx, i));
    FlattenLength(path, p.n);
    Flatten(path)
  }

  /** Layer `i` of a signature: a WOTS+ signature and an authentication path. */
  function LayerPart(p: Params, seeds: Seeds, idx: nat, digest: Node, i: nat): (part: seq<Byte>)
    requires p.WotsValid() && |digest| == p.n
    ensures |part| == p.LayerBytes()
  {
    WotsBytes(p, seeds, idx, i, LayerMessage(p, seeds, idx, digest, i)) + PathBytes(p, seeds, idx, i)
  }

  /** Bytes of the layers from `i` upwards. */
  function Remaining(p: Params, i: nat): nat
    requires i <= p.d
    decreases p.d - i
  {
    if i == p.d then 0 else p.LayerBytes() + Remaining(p, i + 1)
  }

  lemma {:induction false} RemainingIsProduct(p: Params, i: nat)
    requires i <= p.d
    ensures Remaining(p, i) == (p.d - i) * p.LayerBytes()
    decreases p.d - i
  {
    if i < p.d {
      RemainingIsProduct(p, i + 1);
      assert (p.d - i) * p.LayerBytes() == (p.d - i - 1) * p.LayerBytes() + p.LayerBytes();
    }
  }

  /** The layers end exactly at the length of a signature. */
  lemma SigBytesAre(p: Params)
    ensures p.SigBytes() == p.indexBytes + p.n + Remaining(p, 0)
  {
    RemainingIsProduct(p, 0);
    SigBytesByLayer(p);
  }

  function LayersFrom(p: Params, seeds: Seeds, idx: nat, digest: Node, i: nat): (bs: seq<Byte>)
    requires p.WotsValid() && |digest| == p.n && i <= p.d
    ensures |bs| == Remaining(p, i)
    decreases p.d - i
  {
    if i == p.d then []
    else LayerPart(p, seeds, idx, digest, i) + LayersFrom(p, seeds, idx, digest, i + 1)
  }

  lemma {:induction false} LayersTail(p: Params, seeds: Seeds, idx: nat, digest: Node, i: nat,
      at: nat)
    requires p.WotsValid() && |digest| == p.n && i <= p.d && at == i * p.LayerBytes()
    ensures at <= Remaining(p, 0) && LayersFrom(p, seeds, idx, digest, 0)[at..] == LayersFrom(p, seeds, idx, digest, i)
  {
    hide LayerPart, Params.WotsSigBytes;
    RemainingIsProduct(p, 0);
    TimesMono(i, p.d, p.LayerBytes());
    var all := LayersFrom(p, seeds, idx, digest, 0);
    if i == 0 {
      assert at == 0 && all[0..] == all;
    } else {
      assert i * p.LayerBytes() == (i - 1) * p.LayerBytes() + p.LayerBytes();
      LayersTail(p, seeds, idx, digest, i - 1, at - p.LayerBytes());
      assert all[at..] == all[at - p.LayerBytes()..][p.LayerBytes()..];
    }
  }

  /** Where layer `i` stands in a signature: its WOTS+ signature, then its path, after the layers below. */
  lemma LayerStandsAt(p: Params, key: Key, idx: nat, m: seq<Byte>, i: nat, at: nat)
    requires p.WotsValid() && i < p.d && at == p.indexBytes + p.n + i * p.LayerBytes()
    ensures at + p.WotsSigBytes() + p.treeHeight * p.n <= p.SigBytes()
    ensures var sig, msg := SignatureOf(p, key, idx, m), LayerMessage(p, key.seeds, idx, DigestOf(p, key, idx, m), i);
            && sig[at..at + p.WotsSigBytes()] == WotsBytes(p, key.seeds, idx, i, msg)
            && sig[at + p.WotsSigBytes()..at + p.WotsSigBytes() + p.treeHeight * p.n] == PathBytes(p, key.seeds, idx, i)
  {
    hide WotsBytes, PathBytes, Randomizer, DigestOf, ToBytes, Params.WotsSigBytes, LayerMessage;
    SigBytesAre(p);
    RemainingIsProduct(p, 0);
    TimesMono(i + 1, p.d, p.LayerBytes());
    assert (i + 1) * p.LayerBytes() == i * p.LayerBytes() + p.LayerBytes();
    var digest := DigestOf(p, key, idx, m);
    LayersTail(p, key.seeds, idx, digest, i, i * p.LayerBytes());
    var sig, layers := SignatureOf(p, key, idx, m), LayersFrom(p, key.seeds, idx, digest, 0);
    assert sig[p.indexBytes + p.n..] == layers;
    assert sig[at..] == layers[i * p.LayerBytes()..] == LayersFrom(p, key.seeds, idx, digest, i);
  }

  /** The detached signature of `m` under index `idx`. */
  function SignatureOf(p: Params, key: Key, idx: nat, m: seq<Byte>): (sig: seq<Byte>)
    requires p.WotsValid()
    ensures |sig| == p.SigBytes()
  {
    SigBytesAre(p);
    ToBytes(p.indexBytes, idx) + Randomizer(p, key, idx) + LayersFrom(p, key.seeds, idx, DigestOf(p, key, idx, m), 0)
  }

  // ---- verification ----

  /** The five address words of a leaf or tree node of `idx` at layer `i`. */
  function LeafWords(p: Params, idx: nat, i: nat): seq<Word> {
    SubtreeWords(i, TreeIdx(p, idx, i)) + [TYPE_LTREE, Low32(LeafIdx(p, idx, i))]
  }

  function TreeWords(p: Params, idx: nat, i: nat): seq<Word> {
    SubtreeWords(i, TreeIdx(p, idx, i)) + [TYPE_HASHTREE, 0]
  }

  lemma PartFits(p: Params, len: nat)
    requires p.LayerBytes() <= len
    ensures p.WotsLen() * p.n <= len && p.WotsSigBytes() <= len && p.treeHeight * p.n <= len - p.WotsSigBytes()
  {
  }

  /** The leaf a layer's WOTS+ signature leads to. */
  function RecoveredLeaf(p: Params, pubSeed: Node, idx: nat, i: nat, rest: seq<Byte>, msg: Node): (leaf: Node)
    requires p.WotsValid() && |msg| == p.n && p.LayerBytes() <= |rest|
    ensures |leaf| == p.n
  {
    PartFits(p, |rest|);
    Compress(p, pubSeed, LeafWords(p, idx, i),
      EndNodes(p, pubSeed, OtsWords(p, idx, i), Chunks(rest, p.n, p.WotsLen()), Lengths(p, msg)))
  }

  /** The root layer `i` leads to, from the bytes `rest` that start with its part. */
  function RecoveredRoot(p: Params, pubSeed: Node, idx: nat, i: nat, rest: seq<Byte>, msg: Node): (root: Node)
    requires p.WotsValid() && |msg| == p.n && p.LayerBytes() <= |rest|
    ensures |root| == p.n
  {
    PartFits(p, |rest|);
    Climb(p, pubSeed, TreeWords(p, idx, i), RecoveredLeaf(p, pubSeed, idx, i, rest, msg), LeafIdx(p, idx, i),
      Chunks(rest[p.WotsSigBytes()..], p.n, p.treeHeight), p.treeHeight)
  }

  /** The root all layers from `i` upwards lead to. */
  function RecoverFrom(p: Params, pubSeed: Node, idx: nat, i: nat, rest: seq<Byte>, msg: Node): (root: Node)
    requires p.WotsValid() && |msg| == p.n && i <= p.d && |rest| == Remaining(p, i)
    ensures |root| == p.n
    decreases p.d - i
  {
    if i == p.d then msg
    else RecoverFrom(p, pubSeed, idx, i + 1, rest[p.LayerBytes()..], RecoveredRoot(p, pubSeed, idx, i, rest, msg))
  }

  /** Verification: the signature leads to the public root. */
  function Accepts(p: Params, pk: seq<Byte>, sig: seq<Byte>, m: seq<Byte>): bool
    requires p.WotsValid() && p.indexBytes <= 8
  {
    |pk| >= 2 * p.n && |sig| == p.SigBytes() &&
    (SigBytesAre(p);
     var idx := FromBytes(sig[..p.indexBytes]);
     var r := sig[p.indexBytes..p.indexBytes + p.n];
     var digest := MessageHash(p, r, pk[..p.n], idx, m);
     RecoverFrom(p, pk[p.n..2 * p.n], idx, 0, sig[p.indexBytes + p.n..], digest) == pk[..p.n])
  }

  // ---- everything that is signed verifies ----

  /** A layer's part leads to the root of its tree, whatever follows it and whatever it signed. */
  lemma LayerRecovers(p: Params, seeds: Seeds, idx: nat, digest: Node, i: nat, rest: seq<Byte>)
    requires p.WotsValid() && |digest| == p.n
    ensures RecoveredRoot(p, seeds.pub, idx, i, LayerPart(p, seeds, idx, digest, i) + rest,
                          LayerMessage(p, seeds, idx, digest, i))
         == RootOf(p, TreeAt(p, seeds, idx, i))
  {
    hide LayerMessage, TreeIdx, LeafIdx, RootOf, Climb, EndNodes, SigNodes, PkNodes, Compress, AuthPath,
      Lengths, Flatten, Chunks, Low32, SubtreeWords, NodeAt;
    var msg := LayerMessage(p, seeds, idx, digest, i);
    var t, leaf := TreeAt(p, seeds, idx, i), LeafIdx(p, idx, i);
    var sig, path := SigNodes(p, seeds.sk, seeds.pub, OtsWords(p, idx, i), Lengths(p, msg)), AuthPath(p, t, leaf);
    var part := LayerPart(p, seeds, idx, digest, i) + rest;
    assert part == Flatten(sig) + (Flatten(path) + rest);
    ChunksFlatten(sig, p.n, Flatten(path) + rest);
    assert part[p.WotsSigBytes()..] == Flatten(path) + rest;
    ChunksFlatten(path, p.n, rest);
    Recovery(p, seeds.sk, seeds.pub, OtsWords(p, idx, i), Lengths(p, msg));
    RecoveredLeafIs(p, seeds, idx, i);
    Position(p, idx, i);
    ClimbToRoot(p, t, leaf);
  }

  lemma RecoveredLeafIs(p: Params, seeds: Seeds, idx: nat, i: nat)
    requires p.WotsValid()
    ensures Compress(p, seeds.pub, LeafWords(p, idx, i), PkNodes(p, seeds.sk, seeds.pub, OtsWords(p, idx, i)))
         == NodeAt(p, TreeAt(p, seeds, idx, i), 0, LeafIdx(p, idx, i))
  {
    hide TreeIdx, LeafIdx, PkNodes, Compress, Low32, SubtreeWords;
  }

  lemma {:induction false} LayersRecover(p: Params, seeds: Seeds, idx: nat, digest: Node, i: nat)
    requires p.WotsValid() && |digest| == p.n && i <= p.d && p.d >= 1
    ensures RecoverFrom(p, seeds.pub, idx, i, LayersFrom(p, seeds, idx, digest, i),
                        LayerMessage(p, seeds, idx, digest, i))
         == RootOf(p, TreeAt(p, seeds, idx, p.d - 1))
    decreases p.d - i
  {
    hide LayerPart, RecoveredRoot, RootOf, TreeIdx;
    if i < p.d {
      var part, above := LayerPart(p, seeds, idx, digest, i), LayersFrom(p, seeds, idx, digest, i + 1);
      LayerRecovers(p, seeds, idx, digest, i, above);
      assert (part + above)[p.LayerBytes()..] == above;
      LayersRecover(p, seeds, idx, digest, i + 1);
    }
  }

  /** The public key of the key material: top root and public seed. */
  function PublicKey(p: Params, seeds: Seeds): (pk: seq<Byte>)
    requires p.WotsValid() && p.d >= 1
  {
    RootOf(p, SubtreeOf(seeds, p.d - 1, 0)) + seeds.pub
  }

  /** Every signature a key makes is accepted under its public key, for every index and message. */
  lemma SignedIsAccepted(p: Params, key: Key, idx: nat, m: seq<Byte>)
    requires p.Valid() && idx <= p.MaxIdx() && |key.seeds.pub| == p.n
    requires key.root == RootOf(p, SubtreeOf(key.seeds, p.d - 1, 0))
    ensures Accepts(p, PublicKey(p, key.seeds), SignatureOf(p, key, idx, m), m)
  {
    hide RootOf, TreeIdx, LayersFrom, RecoverFrom, FromBytes, ToBytes, MessageHash, PrfOf, Remaining;
    var sig, pk := SignatureOf(p, key, idx, m), PublicKey(p, key.seeds);
    var digest := DigestOf(p, key, idx, m);
    SigBytesAre(p);
    MaxIdxFits(p);
    DecodeEncode(p.indexBytes, idx);
    assert sig[..p.indexBytes] == ToBytes(p.indexBytes, idx);
    assert sig[p.indexBytes..p.indexBytes + p.n] == Randomizer(p, key, idx);
    assert sig[p.indexBytes + p.n..] == LayersFrom(p, key.seeds, idx, digest, 0);
    assert pk[..p.n] == key.root && pk[p.n..2 * p.n] == key.seeds.pub;
    LayersRecover(p, key.seeds, idx, digest, 0);
    SingleTopTree(p, idx);
  }
}
