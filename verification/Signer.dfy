/** Key generation, reloading and signing (src/xmss_core.rs:34-52, 477-718). */
module Signer {
  import opened Results
  import opened Bits
  import opened Bytes
  import opened Parameters
  import opened Address
  import opened Hashing
  import opened Merkle
  import opened TreeBuilding
  import opened Positions
  import opened CacheSpec
  import opened Traversal
  import opened SignatureSpec
  import opened CachedSignature
  import opened LayerWriting

  /** The cache agrees with the key bytes it accompanies. */
  ghost predicate Synced(p: Params, sk: seq<Byte>, cache: CacheView)
    requires p.WotsValid() && IsSk(p, sk)
  {
    Agrees(p, KeyOf(p, sk).seeds, SkIndex(p, sk), cache)
  }

  /** What a reload of the compact key puts in the cache. */
  function Reloaded(p: Params, sk: seq<Byte>): CacheView
    requires p.WotsValid() && IsSk(p, sk)
  {
    if SkIndex(p, sk) > p.MaxIdx() then EMPTY_CACHE else Rebuilt(p, KeyOf(p, sk).seeds, SkIndex(p, sk))
  }

  /** Every one-time key in `calls` is one that index `idx` has for `m`, signing what that index specifies. */
  ghost predicate KeyCalls(p: Params, key: Key, idx: nat, m: seq<Byte>, calls: set<WotsCall>)
    requires p.WotsValid()
  {
    forall c :: c in calls ==> IsCall(p, key.seeds, idx, DigestOf(p, key, idx, m), c)
  }

  /**
   The one-time keys a signing call has used, whether or not it succeeded: those of its index, and
   none before the key has left that index behind. Layer 0 is always among those of a success.
  */
  ghost predicate SignCalls(p: Params, sk: seq<Byte>, m: seq<Byte>, sk': seq<Byte>, r: Result<seq<Byte>>,
      calls: set<WotsCall>)
    requires p.WotsValid() && IsSk(p, sk)
  {
    var idx, key := SkIndex(p, sk), KeyOf(p, sk);
    && (calls != {} ==>
          && idx <= p.MaxIdx() && (r.Failure? ==> sk' == Bumped(p, sk))
          && KeyCalls(p, key, idx, m, calls))
    && (r.Success? ==> CallOf(p, key.seeds, idx, DigestOf(p, key, idx, m), 0) in calls)
  }

  /**
   What a signature carries, in terms of the key bytes and the digest functions alone: the stored index; R,
   from SK_PRF and the index; and a layer-0 part in which the key of that index, made of SK_SEED and
   PUB_SEED, signs the digest of R, the root, the index and the message.
  */
  ghost predicate Carries(p: Params, sk: seq<Byte>, m: seq<Byte>, sig: seq<Byte>, calls: set<WotsCall>)
    requires p.WotsValid() && IsSk(p, sk)
  {
    var n, ib, idx := p.n, p.indexBytes, FromBytes(sk[..p.indexBytes]);
    && |sig| == p.SigBytes() && ib + n + p.WotsSigBytes() <= |sig|
    && sig[..ib] == sk[..ib]
    && Cut(n, p.digest.prf(sk[ib + n..ib + 2 * n], ToBytes(32, idx)), sig[ib..ib + n])
    && exists c :: c in calls
         && c.seeds == Seeds(sk[ib..ib + n], sk[ib + 3 * n..ib + 4 * n]) && c.pos == OtsWords(p, idx, 0)
         && Cut(n, p.digest.message(sig[ib..ib + n], sk[ib + 2 * n..ib + 3 * n], idx, m), c.msg)
         && sig[ib + n..ib + n + p.WotsSigBytes()] == WotsBytes(p, c.seeds, idx, 0, c.msg)
  }

  lemma KeyBytes(p: Params, sk: seq<Byte>)
    requires IsSk(p, sk)
    ensures var n, ib := p.n, p.indexBytes;
            KeyOf(p, sk) == Key(Seeds(sk[ib..ib + n], sk[ib + 3 * n..ib + 4 * n]), sk[ib + n..ib + 2 * n],
                                sk[ib + 2 * n..ib + 3 * n])
  {
    var n, ib := p.n, p.indexBytes;
    SliceOfRest(sk, ib, 0, n);
    SliceOfRest(sk, ib, n, 2 * n);
    SliceOfRest(sk, ib, 2 * n, 3 * n);
    SliceOfRest(sk, ib, 3 * n, 4 * n);
  }

  lemma RandomizerIs(p: Params, key: Key, idx: nat)
    ensures Cut(p.n, p.digest.prf(key.prf, ToBytes(32, idx)), Randomizer(p, key, idx))
  {
  }

  lemma DigestIs(p: Params, key: Key, idx: nat, m: seq<Byte>)
    ensures Cut(p.n, p.digest.message(Randomizer(p, key, idx), key.root, idx, m), DigestOf(p, key, idx, m))
  {
    hide Randomizer;
  }

  /** The specified signature carries all this. */
  lemma SignatureCarries(p: Params, sk: seq<Byte>, m: seq<Byte>, calls: set<WotsCall>)
    requires p.Valid() && IsSk(p, sk)
    requires var idx, key := SkIndex(p, sk), KeyOf(p, sk);
             CallOf(p, key.seeds, idx, DigestOf(p, key, idx, m), 0) in calls
    ensures Carries(p, sk, m, SignatureOf(p, KeyOf(p, sk), SkIndex(p, sk), m), calls)
  {
    hide KeyOf, FromBytes, ToBytes, Randomizer, DigestOf, Cut, WotsBytes, PathBytes, OtsWords, LayersFrom;
    hide Params.WotsSigBytes;
    var idx, key := SkIndex(p, sk), KeyOf(p, sk);
    var digest := DigestOf(p, key, idx, m);
    var sig := SignatureOf(p, key, idx, m);
    KeyBytes(p, sk);
    IndexBytesAre(p, sk);
    RandomizerIs(p, key, idx);
    DigestIs(p, key, idx, m);
    SigBytesAre(p);
    FirstPart(p, key.seeds, idx, digest);
    var layers := LayersFrom(p, key.seeds, idx, digest, 0);
    assert sig[..p.indexBytes] == ToBytes(p.indexBytes, idx);
    assert sig[p.indexBytes..p.indexBytes + p.n] == Randomizer(p, key, idx);
    assert sig[p.indexBytes + p.n..] == layers;
    assert sig[p.indexBytes + p.n..p.indexBytes + p.n + p.WotsSigBytes()] == layers[..p.WotsSigBytes()];
    assert CallOf(p, key.seeds, idx, digest, 0) == WotsCall(key.seeds, OtsWords(p, idx, 0), digest);
  }

  /** Layer 0 comes first, and its WOTS+ signature before its path. */
  lemma FirstPart(p: Params, seeds: Seeds, idx: nat, digest: Node)
    requires p.Valid() && |digest| == p.n
    ensures p.WotsSigBytes() <= Remaining(p, 0)
    ensures LayersFrom(p, seeds, idx, digest, 0)[..p.WotsSigBytes()] == WotsBytes(p, seeds, idx, 0, digest)
  {
    hide WotsBytes, PathBytes, Params.WotsSigBytes;
  }

  /** How one signing call may change the key and the cache, and what it may answer. */
  ghost predicate SignStep(p: Params, sk: seq<Byte>, m: seq<Byte>, sk': seq<Byte>, cache': CacheView,
      r: Result<seq<Byte>>)
    requires p.WotsValid() && IsSk(p, sk)
  {
    var idx, key := SkIndex(p, sk), KeyOf(p, sk);
    IsSk(p, sk') &&
    if idx > p.MaxIdx() then
      r == Failure(KeyExhausted) && sk' == sk && cache' == EMPTY_CACHE
    else if r.Success? then
      && r.value == SignatureOf(p, key, idx, m)
      && sk' == AfterSigning(p, sk)
      && (if idx == p.MaxIdx() then cache' == EMPTY_CACHE else Ready(p, key.seeds, idx + 1, cache'))
    else
      // a refused hash call: before the index moved, or after it
      && p.digest.faults && r.error == Error.Hash
      && (sk' == sk || sk' == Bumped(p, sk))
      && Synced(p, sk', cache')
  }

  /** `bytes_to_ull` of the index bytes. */
  method ReadIndex(p: Params, sk: seq<Byte>) returns (idx: nat)
    requires p.Valid() && IsSk(p, sk)
    ensures idx == SkIndex(p, sk)
  {
    idx := BytesToUll(sk[..p.indexBytes]);
  }

  /** Rebuilds the traversal cache from the compact key. */
  method FromCompactKey(p: Params, sk: seq<Byte>) returns (r: Result<TraversalState>)
    requires p.Valid() && IsSk(p, sk)
    ensures r.Success? ==> fresh(r.value) && r.value.Valid() && r.value.View() == Reloaded(p, sk)
    ensures r.Success? ==>
      forall k :: 0 <= k < |r.value.layers| && r.value.layers[k] != null ==> fresh(r.value.layers[k])
    ensures r.Failure? ==> p.digest.faults && r.error == Error.Hash
  {
    hide Rebuilt, KeyFields;
    var idx := ReadIndex(p, sk);
    var state := new TraversalState();
    if idx > p.MaxIdx() {
      return Success(state);
    }
    var _ :- state.Ensure(p, idx, KeyOf(p, sk).seeds);
    r := Success(state);
  }

  /** The top tree alone is coherent for index 0. */
  lemma TopTreeIsCoherent(p: Params, seeds: Seeds, lv: LayerView)
    requires p.Valid()
    requires lv == LayerView(0, 0, RootOf(p, SubtreeOf(seeds, p.d - 1, 0)),
                             AuthPath(p, SubtreeOf(seeds, p.d - 1, 0), 0), None)
    ensures LayerCoherent(p, seeds, 0, p.d - 1, lv)
  {
    hide RootOf, AuthPath, TreeIdx, LeafIdx;
    OriginPosition(p, p.d - 1);
  }

  lemma TopTreeAgrees(p: Params, seeds: Seeds, cache: CacheView, lv: LayerView)
    requires p.Valid() && |cache.layers| == p.d && cache.layers[p.d - 1] == Some(lv)
    requires forall k :: 0 <= k < p.d - 1 ==> cache.layers[k] == None
    requires lv == LayerView(0, 0, RootOf(p, SubtreeOf(seeds, p.d - 1, 0)),
                             AuthPath(p, SubtreeOf(seeds, p.d - 1, 0), 0), None)
    ensures Agrees(p, seeds, 0, cache)
  {
    hide RootOf, AuthPath, LayerCoherent;
    TopTreeIsCoherent(p, seeds, lv);
  }

  /** The cache of a fresh key: the top tree that was just built, completed for index 0. */
  method StartTraversal(p: Params, seeds: Seeds, root: Node, authPath: seq<Node>) returns (r: Result<TraversalState>)
    requires p.Valid()
    requires root == RootOf(p, SubtreeOf(seeds, p.d - 1, 0))
    requires authPath == AuthPath(p, SubtreeOf(seeds, p.d - 1, 0), 0)
    ensures r.Success? ==> fresh(r.value) && r.value.Valid() && Ready(p, seeds, 0, r.value.View())
    ensures r.Success? ==>
      forall k :: 0 <= k < |r.value.layers| && r.value.layers[k] != null ==> fresh(r.value.layers[k])
    ensures r.Failure? ==> p.digest.faults && r.error == Error.Hash
  {
    hide Params.SigBytes, Params.WotsSigBytes, Params.FullHeight;
    hide RootOf, AuthPath, LayerCoherent, Agrees, Ready, Rebuilt;
    var traversal := new TraversalState.FromTopTree(p, root, authPath);
    TopTreeAgrees(p, seeds, traversal.View(), traversal.layers[p.d - 1].View());
    var _ :- traversal.Ensure(p, 0, seeds);
    r := Success(traversal);
  }

  /** Builds the top tree for leaf 0. */
  method TopTree(p: Params, authPath: array<Node>, seeds: Seeds) returns (root: Result<Node>)
    requires p.Valid() && authPath.Length == p.treeHeight
    modifies authPath
    ensures root.Success? ==>
      && root.value == RootOf(p, SubtreeOf(seeds, p.d - 1, 0))
      && authPath[..] == AuthPath(p, SubtreeOf(seeds, p.d - 1, 0), 0)
    ensures root.Failure? ==> p.digest.faults && root.error == Error.Hash
  {
    hide RootOf, AuthPath;
    var topTreeAddr := new Word[] [0, 0, 0, 0, 0, 0, 0, 0];
    LayersFit(p);
    SetLayerAddr(topTreeAddr, p.d - 1);
    assert topTreeAddr[..3] == [p.d - 1, 0, 0];
    TopTreeBase(p, seeds, topTreeAddr[..3]);
    root := Treehash(p, authPath, seeds.sk, seeds.pub, 0, topTreeAddr);
  }

  /** A fresh key: index 0, the seed's fields, and the root they lead to. */
  function FreshSk(p: Params, seed: seq<Byte>): (sk: seq<Byte>)
    requires p.WotsValid() && p.d >= 1 && |seed| == 3 * p.n
    ensures IsSk(p, sk)
  {
    var seeds := Seeds(seed[..p.n], seed[2 * p.n..]);
    ToBytes(p.indexBytes, 0) + (seed[..2 * p.n] + RootOf(p, SubtreeOf(seeds, p.d - 1, 0)) + seed[2 * p.n..])
  }

  /** Everything of a fresh key but its root. */
  ghost predicate Filled(p: Params, sk: seq<Byte>, seed: seq<Byte>)
    requires IsSk(p, sk) && |seed| == 3 * p.n
  {
    && sk[0..p.indexBytes] == ToBytes(p.indexBytes, 0)
    && sk[p.indexBytes..p.indexBytes + 2 * p.n] == seed[..2 * p.n]
    && sk[p.indexBytes + 3 * p.n..p.indexBytes + 4 * p.n] == seed[2 * p.n..]
  }

  /** Writes index 0 and the seed into the key, and the public seed into the public key. */
  method CopySeed(p: Params, pk: array<Byte>, sk: array<Byte>, seed: seq<Byte>)
    requires pk.Length == 2 * p.n && sk.Length == p.SkBytes() && |seed| == 3 * p.n && pk != sk
    modifies pk, sk
    ensures Filled(p, sk[..], seed) && pk[..][p.n..2 * p.n] == seed[2 * p.n..]
  {
    hide ToBytes, Overwrite;
    var n, ib := p.n, p.indexBytes;
    UllToBytes(sk, 0, ib, 0);
    CopyFromSlice(sk, ib, seed[..2 * n]);
    CopyFromSlice(sk, ib + 3 * n, seed[2 * n..]);
    var filled := sk[..];
    FreshFields(p, old(sk[..]), filled, seed);
    CopyFromSlice(pk, n, filled[ib + 3 * n..ib + 4 * n]);
    PublicBytes(old(pk[..]), n, seed[2 * n..]);
  }

  /** Writes the root into both keys. */
  method StoreRoot(p: Params, pk: array<Byte>, sk: array<Byte>, ghost seed: seq<Byte>, root: Node)
    requires p.Valid() && pk.Length == 2 * p.n && sk.Length == p.SkBytes() && |seed| == 3 * p.n && pk != sk
    requires Filled(p, sk[..], seed) && pk[..][p.n..2 * p.n] == seed[2 * p.n..]
    requires |root| == p.n && root == RootOf(p, SubtreeOf(Seeds(seed[..p.n], seed[2 * p.n..]), p.d - 1, 0))
    modifies pk, sk
    ensures sk[..] == FreshSk(p, seed) && pk[..] == root + seed[2 * p.n..]
  {
    hide RootOf, Overwrite, FreshSk, Filled;
    CopyFromSlice(pk, 0, root);
    PublicWhole(old(pk[..]), p.n, seed[2 * p.n..], root);
    CopyFromSlice(sk, p.indexBytes + 2 * p.n, pk[..][..p.n]);
    FreshWhole(p, old(sk[..]), sk[..], seed, root);
  }

  /**
   The bytes of a key pair generated from `seed`: index 0, SK_SEED and SK_PRF from the seed, the root of
   the top tree, and PUB_SEED from the seed; the public key is that root and PUB_SEED.
  */
  ghost predicate Generated(p: Params, seed: seq<Byte>, pk: seq<Byte>, sk: seq<Byte>)
    requires p.Valid() && |seed| == 3 * p.n
  {
    var n, ib := p.n, p.indexBytes;
    var root := NodeAt(p, Subtree(seed[..n], seed[2 * n..], [p.d - 1, 0, 0]), p.treeHeight, 0);
    sk == Fill(ib, 0) + (seed[..2 * n] + root + seed[2 * n..]) && pk == root + seed[2 * n..]
  }

  lemma {:induction false} ZeroBytes(len: nat)
    ensures forall k :: 0 <= k < len ==> ToBytes(len, 0)[k] == 0
  {
    if len > 0 {
      ZeroBytes(len - 1);
    }
  }

  lemma FreshIsGenerated(p: Params, seed: seq<Byte>)
    requires p.Valid() && |seed| == 3 * p.n
    ensures Generated(p, seed, PublicKey(p, KeyOf(p, FreshSk(p, seed)).seeds), FreshSk(p, seed))
  {
    hide NodeAt, ToBytes, FromBytes, SubtreeWords, KeyOf;
    FreshKey(p, seed);
    ZeroBytes(p.indexBytes);
    TopTreeWords(p);
    assert ToBytes(p.indexBytes, 0) == Fill(p.indexBytes, 0);
  }

  lemma SliceOfRest(s: seq<Byte>, a: nat, lo: nat, hi: nat)
    requires lo <= hi && a + hi <= |s|
    ensures s[a..][lo..hi] == s[a + lo..a + hi]
  {
  }

  /** Derives a key pair from a seed of `3 * n` bytes. */
  method SeedKeypair(p: Params, pk: array<Byte>, sk: array<Byte>, seed: seq<Byte>) returns (r: Result<TraversalState>)
    requires p.Valid() && pk.Length == 2 * p.n && sk.Length == p.SkBytes() && |seed| == 3 * p.n && pk != sk
    modifies pk, sk
    ensures r.Success? ==>
      && sk[..] == FreshSk(p, seed)
      && pk[..] == PublicKey(p, KeyOf(p, sk[..]).seeds)
      && fresh(r.value) && r.value.Valid() && Ready(p, KeyOf(p, sk[..]).seeds, 0, r.value.View())
    ensures r.Success? ==> Generated(p, seed, pk[..], sk[..])
    ensures r.Success? ==>
      forall k :: 0 <= k < |r.value.layers| && r.value.layers[k] != null ==> fresh(r.value.layers[k])
    ensures r.Failure? ==> p.digest.faults && r.error == Error.Hash
  {
    hide Params.SigBytes, Params.WotsSigBytes, Params.FullHeight;
    hide RootOf, AuthPath, Ready, FreshSk, Filled, SubtreeOf, KeyOf, FromBytes, Generated;
    CopySeed(p, pk, sk, seed);
    var authPath := new Node[p.treeHeight](_ => []);
    var filled, pubSeedCopy := sk[..], pk[..][p.n..2 * p.n];
    FilledSeeds(p, filled, seed);
    var root :- TopTree(p, authPath, Seeds(filled[p.indexBytes..p.indexBytes + p.n], pubSeedCopy));
    StoreRoot(p, pk, sk, seed, root);
    FreshKey(p, seed);
    FreshIsGenerated(p, seed);
    r := StartTraversal(p, KeyOf(p, sk[..]).seeds, root, authPath[..]);
  }

  lemma FilledSeeds(p: Params, sk: seq<Byte>, seed: seq<Byte>)
    requires IsSk(p, sk) && |seed| == 3 * p.n && Filled(p, sk, seed)
    ensures sk[p.indexBytes..p.indexBytes + p.n] == seed[..p.n]
  {
    hide ToBytes;
    var ib, n := p.indexBytes, p.n;
    assert sk[ib..ib + n] == sk[ib..ib + 2 * n][..n];
  }

  lemma PublicBytes(before: seq<Byte>, n: nat, pub: Node)
    requires |before| == 2 * n && |pub| == n
    ensures Overwrite(before, n, pub)[n..2 * n] == pub
  {
    OverwriteAt(before, n, pub);
  }

  lemma PublicWhole(before: seq<Byte>, n: nat, pub: Node, root: Node)
    requires |before| == 2 * n && |root| == n && before[n..2 * n] == pub
    ensures Overwrite(before, 0, root) == root + pub
    ensures Overwrite(before, 0, root)[..n] == root
  {
  }

  lemma TopTreeBase(p: Params, seeds: Seeds, base: seq<Word>)
    requires p.Valid() && |base| == 3 && base == [p.d - 1, 0, 0]
    ensures Subtree(seeds.sk, seeds.pub, base) == SubtreeOf(seeds, p.d - 1, 0)
  {
    TopTreeWords(p);
  }

  lemma TopTreeWords(p: Params)
    requires p.Valid()
    ensures p.d - 1 < 0x1_0000_0000 && [p.d - 1, 0, 0] == SubtreeWords(p.d - 1, 0)
  {
    LayersFit(p);
  }

  /** After the seed was copied, everything but the root is in place. */
  lemma FreshFields(p: Params, before: seq<Byte>, sk: seq<Byte>, seed: seq<Byte>)
    requires IsSk(p, before) && |seed| == 3 * p.n
    requires sk == Overwrite(Overwrite(Overwrite(before, 0, ToBytes(p.indexBytes, 0)), p.indexBytes, seed[..2 * p.n]),
                             p.indexBytes + 3 * p.n, seed[2 * p.n..])
    ensures Filled(p, sk, seed)
  {
    hide Overwrite, ToBytes;
    var ib, n := p.indexBytes, p.n;
    var a := Overwrite(before, 0, ToBytes(ib, 0));
    var b := Overwrite(a, ib, seed[..2 * n]);
    OverwriteAt(before, 0, ToBytes(ib, 0));
    OverwriteKeeps(a, ib, seed[..2 * n], 0, ib);
    OverwriteKeeps(b, ib + 3 * n, seed[2 * n..], 0, ib);
    OverwriteAt(a, ib, seed[..2 * n]);
    OverwriteKeeps(b, ib + 3 * n, seed[2 * n..], ib, ib + 2 * n);
    OverwriteAt(b, ib + 3 * n, seed[2 * n..]);
  }

  /** With the root written, the key is the fresh key. */
  lemma FreshWhole(p: Params, half: seq<Byte>, sk: seq<Byte>, seed: seq<Byte>, root: Node)
    requires p.Valid() && IsSk(p, half) && |seed| == 3 * p.n && |root| == p.n && Filled(p, half, seed)
    requires root == RootOf(p, SubtreeOf(Seeds(seed[..p.n], seed[2 * p.n..]), p.d - 1, 0))
    requires sk == Overwrite(half, p.indexBytes + 2 * p.n, root)
    ensures sk == FreshSk(p, seed)
  {
    hide RootOf, ToBytes, Overwrite, SubtreeOf;
    var ib, n := p.indexBytes, p.n;
    OverwriteKeeps(half, ib + 2 * n, root, 0, ib);
    OverwriteKeeps(half, ib + 2 * n, root, ib, ib + 2 * n);
    OverwriteAt(half, ib + 2 * n, root);
    OverwriteKeeps(half, ib + 2 * n, root, ib + 3 * n, ib + 4 * n);
    Assemble(sk, ib, n, ToBytes(ib, 0), seed[..2 * n], root, seed[2 * n..]);
  }

  lemma Assemble(s: seq<Byte>, ib: nat, n: nat, a: seq<Byte>, b: seq<Byte>, c: seq<Byte>, d: seq<Byte>)
    requires |s| == ib + 4 * n && s[0..ib] == a
    requires s[ib..ib + 2 * n] == b && s[ib + 2 * n..ib + 3 * n] == c && s[ib + 3 * n..ib + 4 * n] == d
    ensures s == a + (b + c + d)
  {
  }

  lemma FreshKey(p: Params, seed: seq<Byte>)
    requires p.Valid() && |seed| == 3 * p.n
    ensures var seeds := Seeds(seed[..p.n], seed[2 * p.n..]);
            KeyOf(p, FreshSk(p, seed)) == Key(seeds, seed[p.n..2 * p.n], RootOf(p, SubtreeOf(seeds, p.d - 1, 0)))
    ensures SkIndex(p, FreshSk(p, seed)) == 0
  {
    hide RootOf, ToBytes, FromBytes;
    var sk := FreshSk(p, seed);
    var root := RootOf(p, SubtreeOf(Seeds(seed[..p.n], seed[2 * p.n..]), p.d - 1, 0));
    var fields := seed[..2 * p.n] + root + seed[2 * p.n..];
    assert sk[p.indexBytes..] == fields;
    assert fields[..p.n] == seed[..p.n] && fields[p.n..2 * p.n] == seed[p.n..2 * p.n];
    assert sk[..p.indexBytes] == ToBytes(p.indexBytes, 0);
    DecodeEncode(p.indexBytes, 0);
  }

  // ---- signing ----

  /** Writes the successor of `idx`, or the exhaustion marker, into the index bytes. */
  method SpendIndex(p: Params, sk: array<Byte>, idx: nat)
    requires p.Valid() && sk.Length == p.SkBytes() && idx == SkIndex(p, sk[..]) && idx <= p.MaxIdx()
    modifies sk
    ensures sk[..] == Bumped(p, old(sk[..]))
  {
    hide ToBytes, FromBytes, Pow2;
    ghost var before := sk[..];
    var ib := p.indexBytes;
    if idx == p.MaxIdx() {
      for k := 0 to ib
        invariant forall j :: 0 <= j < k ==> sk[j] == 0xFF
        invariant sk[ib..] == before[ib..]
      {
        sk[k] := 0xFF;
      }
      assert sk[..ib] == NextIndexBytes(p, idx);
    } else {
      UllToBytes(sk, 0, ib, idx + 1);
    }
    assert sk[..] == NextIndexBytes(p, idx) + before[ib..];
  }

  /** Clears the secret fields of an exhausted key. */
  method EraseSecrets(p: Params, sk: array<Byte>)
    requires sk.Length == p.SkBytes()
    modifies sk
    ensures sk[..] == old(sk[..p.indexBytes]) + Fill(4 * p.n, 0)
  {
    var ib := p.indexBytes;
    for k := ib to p.SkBytes()
      invariant sk[..ib] == old(sk[..ib])
      invariant forall j :: ib <= j < k ==> sk[j] == 0
    {
      sk[k] := 0;
    }
    assert sk[ib..] == Fill(4 * p.n, 0);
    assert sk[..] == sk[..ib] + sk[ib..];
  }

  /** A cache coherent with the old index still agrees with the key once the index is spent. */
  lemma StillSynced(p: Params, sk: seq<Byte>, cache: CacheView)
    requires p.Valid() && IsSk(p, sk) && SkIndex(p, sk) <= p.MaxIdx()
    requires cache.nextIdx == Some(SkIndex(p, sk))
    requires SkIndex(p, sk) == p.MaxIdx() ==> Coherent(p, KeyOf(p, sk).seeds, SkIndex(p, sk), cache.layers)
    ensures Synced(p, Bumped(p, sk), cache)
  {
    hide Coherent, KeyOf, SkIndex, Pow256, Bumped, AfterSigning;
    BumpedKey(p, sk);
    BumpedIndex(p, sk);
    MaxIdxFits(p);
  }

  /** The random value of a signature: PRF of the index, as 32 bytes. */
  method DrawRandomizer(p: Params, key: Key, idx: nat) returns (r: Result<Node>)
    ensures r.Success? ==> r.value == Randomizer(p, key, idx)
    ensures r.Failure? ==> p.digest.faults && r.error == Error.Hash
  {
    hide PrfOf, ToBytes;
    var idxBytes32 := new Byte[32];
    UllToBytes(idxBytes32, 0, 32, idx);
    assert idxBytes32[..] == ToBytes(32, idx);
    r := Prf(p, idxBytes32[..], key.prf);
  }

  /** Writes the index and R to the front of the signature and hashes the message. */
  method StartSignature(p: Params, sm: array<Byte>, idx: nat, idxBytes: seq<Byte>, key: Key, m: seq<Byte>)
    returns (digest: Result<Node>)
    requires |idxBytes| == p.indexBytes && p.indexBytes + p.n <= sm.Length
    modifies sm
    ensures digest.Success? ==>
      sm[..p.indexBytes + p.n] == idxBytes + Randomizer(p, key, idx) && digest.value == DigestOf(p, key, idx, m)
    ensures digest.Failure? ==> p.digest.faults && digest.error == Error.Hash
  {
    hide Randomizer, MessageHash, Overwrite;
    ghost var before := sm[..];
    CopyFromSlice(sm, 0, idxBytes);
    var r :- DrawRandomizer(p, key, idx);
    CopyFromSlice(sm, p.indexBytes, r);
    AppendTwo(before, 0, idxBytes, r);
    digest := HashMessage(p, r, key.root, idx, m);
  }

  /** The hashing part of a signing call: from the index bytes to the last layer. */
  method FillSignature(p: Params, traversal: TraversalState, idx: nat, idxBytes: seq<Byte>, key: Key, m: seq<Byte>)
    returns (r: Result<seq<Byte>>, ghost calls: set<WotsCall>)
    requires p.Valid() && idxBytes == ToBytes(p.indexBytes, idx)
    requires traversal.Valid() && Coherent(p, key.seeds, idx, traversal.LayerViews())
    modifies traversal.layers
    ensures Coherent(p, key.seeds, idx, traversal.LayerViews())
    ensures r.Success? ==> r.value == SignatureOf(p, key, idx, m)
    ensures r.Failure? && r.error == Error.TraversalState ==> !Complete(old(traversal.LayerViews()))
    ensures r.Failure? && r.error != Error.TraversalState ==> p.digest.faults && r.error == Error.Hash
    ensures KeyCalls(p, key, idx, m, calls)
    ensures r.Success? ==> CallOf(p, key.seeds, idx, DigestOf(p, key, idx, m), 0) in calls
  {
    hide Params.SigBytes, Params.WotsSigBytes, Params.FullHeight;
    hide Coherent, AllFit, IsCall, IsCachedCall, Touched, OtsWords;
    hide LayersFrom, CachedFrom, Randomizer, DigestOf, ToBytes, Remaining;
    SigBytesAre(p);
    calls := {};
    var sm := new Byte[p.SigBytes()](_ => 0);
    var digest := StartSignature(p, sm, idx, idxBytes, key, m);
    if digest.Failure? {
      r := Failure(digest.error);
      return;
    }
    ghost var head, vs := sm[..], traversal.LayerViews();
    assert head[..p.indexBytes + p.n] == sm[..p.indexBytes + p.n];
    CoherentFits(p, key.seeds, idx, vs);
    var layers;
    layers, calls := WriteLayers(p, sm, traversal, idx, digest.value, key.seeds);
    TouchedIsCoherent(p, key.seeds, idx, digest.value, vs, traversal.LayerViews());
    forall c | c in calls ensures IsCall(p, key.seeds, idx, digest.value, c) {
      CachedCallIsCall(p, key.seeds, idx, digest.value, vs, c);
    }
    if layers.Failure? {
      r := Failure(layers.error);
      return;
    }
    CacheRefines(p, key.seeds, idx, digest.value, 0, vs);
    r := Success(sm[..]);
  }

  lemma RefusedStep(p: Params, sk: seq<Byte>, m: seq<Byte>)
    requires p.WotsValid() && IsSk(p, sk) && SkIndex(p, sk) > p.MaxIdx()
    ensures SignStep(p, sk, m, sk, EMPTY_CACHE, Failure(KeyExhausted))
  {
    hide SkIndex, KeyOf;
  }

  lemma EarlyFaultStep(p: Params, sk: seq<Byte>, m: seq<Byte>, cache': CacheView)
    requires p.Valid() && IsSk(p, sk) && SkIndex(p, sk) <= p.MaxIdx() && p.digest.faults && Synced(p, sk, cache')
    ensures SignStep(p, sk, m, sk, cache', Failure(Error.Hash))
  {
    hide SkIndex, KeyOf, Coherent, Bumped, SignatureOf, AfterSigning;
  }

  lemma LateFaultStep(p: Params, sk: seq<Byte>, m: seq<Byte>, cache': CacheView)
    requires p.Valid() && IsSk(p, sk) && SkIndex(p, sk) <= p.MaxIdx() && p.digest.faults
    requires cache'.nextIdx == Some(SkIndex(p, sk))
    requires SkIndex(p, sk) == p.MaxIdx() ==> Coherent(p, KeyOf(p, sk).seeds, SkIndex(p, sk), cache'.layers)
    ensures SignStep(p, sk, m, Bumped(p, sk), cache', Failure(Error.Hash))
  {
    hide SkIndex, KeyOf, Coherent, Bumped, SignatureOf, AfterSigning;
    StillSynced(p, sk, cache');
  }

  /** Erasing the fields of a key whose last index is spent. */
  lemma ErasedKey(p: Params, sk: seq<Byte>)
    requires IsSk(p, sk)
    ensures AfterSigning(p, sk) ==
      if SkIndex(p, sk) == p.MaxIdx() then Bumped(p, sk)[..p.indexBytes] + Fill(4 * p.n, 0) else Bumped(p, sk)
  {
    hide SkIndex, NextIndexBytes, Fill;
  }

  lemma IssuedStep(p: Params, sk: seq<Byte>, m: seq<Byte>, sk': seq<Byte>, cache': CacheView)
    requires p.Valid() && IsSk(p, sk) && SkIndex(p, sk) <= p.MaxIdx() && sk' == AfterSigning(p, sk)
    requires if SkIndex(p, sk) == p.MaxIdx() then cache' == EMPTY_CACHE
             else Ready(p, KeyOf(p, sk).seeds, SkIndex(p, sk) + 1, cache')
    ensures SignStep(p, sk, m, sk', cache', Success(SignatureOf(p, KeyOf(p, sk), SkIndex(p, sk), m)))
  {
    hide SkIndex, KeyOf, Ready, AfterSigning, SignatureOf;
  }

  /** After the last index: empty cache and erased key. Otherwise: the cache moves on. */
  method MoveOn(p: Params, sk: array<Byte>, traversal: TraversalState, idx: nat, seeds: Seeds) returns (r: Result<()>)
    requires p.Valid() && idx <= p.MaxIdx() && sk.Length == p.SkBytes()
    requires traversal.Valid() && Ready(p, seeds, idx, traversal.View())
    modifies sk, traversal, traversal.layers
    ensures traversal.Valid() && traversal.Owned()
    ensures idx == p.MaxIdx() ==> r.Success? && traversal.View() == EMPTY_CACHE
    ensures idx == p.MaxIdx() ==> sk[..] == old(sk[..p.indexBytes]) + Fill(4 * p.n, 0)
    ensures idx < p.MaxIdx() ==> sk[..] == old(sk[..])
    ensures idx < p.MaxIdx() && r.Success? ==> Ready(p, seeds, idx + 1, traversal.View())
    ensures r.Failure? ==> p.digest.faults && r.error == Error.Hash && traversal.nextIdx == Some(idx)
  {
    hide Params.SigBytes, Params.WotsSigBytes, Params.FullHeight;
    hide LayerCoherent, Pow2;
    if idx == p.MaxIdx() {
      traversal.Clear();
      EraseSecrets(p, sk);
      return Success(());
    }
    assert forall k :: 0 <= k < p.d ==> traversal.layers[k] != null;
    r := traversal.Advance(p, idx, seeds);
  }

  /** A ready cache is coherent and has a state for every layer. */
  lemma ReadyMeans(p: Params, seeds: Seeds, idx: nat, cache: CacheView)
    requires p.WotsValid()
    ensures Ready(p, seeds, idx, cache) <==>
      && cache.nextIdx == Some(idx) && Coherent(p, seeds, idx, cache.layers)
      && |cache.layers| == p.d && forall k :: 0 <= k < p.d ==> cache.layers[k] != None
  {
    hide LayerCoherent;
  }

  /** The part of a signing call that follows the spending of the index. */
  method SignSpent(p: Params, sk: array<Byte>, traversal: TraversalState, idx: nat, idxBytes: seq<Byte>, key: Key,
      m: seq<Byte>, ghost before: seq<Byte>)
    returns (r: Result<seq<Byte>>, ghost calls: set<WotsCall>)
    requires p.Valid() && sk.Length == p.SkBytes() && IsSk(p, before) && sk[..] == Bumped(p, before)
    requires idx == SkIndex(p, before) <= p.MaxIdx() && key == KeyOf(p, before)
    requires idxBytes == ToBytes(p.indexBytes, idx)
    requires traversal.Valid() && Ready(p, key.seeds, idx, traversal.View())
    modifies sk, traversal, traversal.layers
    ensures traversal.Valid() && traversal.Owned()
    ensures SignStep(p, before, m, sk[..], traversal.View(), r)
    ensures SignCalls(p, before, m, sk[..], r, calls)
  {
    hide Params.SigBytes, Params.WotsSigBytes, Params.FullHeight;
    hide SignStep, Coherent, Ready, SignatureOf, AfterSigning, KeyOf, SkIndex, Bumped, Fill, ToBytes, Pow2;
    hide KeyCalls, CallOf, DigestOf;
    ReadyMeans(p, key.seeds, idx, traversal.View());
    r, calls := FillSignature(p, traversal, idx, idxBytes, key, m);
    if r.Failure? {
      LateFaultStep(p, before, m, traversal.View());
      return;
    }
    ReadyMeans(p, key.seeds, idx, traversal.View());
    var moved := MoveOn(p, sk, traversal, idx, key.seeds);
    if moved.Failure? {
      LateFaultStep(p, before, m, traversal.View());
      r := Failure(moved.error);
      return;
    }
    ErasedKey(p, before);
    IssuedStep(p, before, m, sk[..], traversal.View());
  }

  /**
   Signs `m`: makes the cache ready, spends the index, fills the signature, and moves the cache on.
   The last index erases the secret fields instead.
  */
  method Sign(p: Params, sk: array<Byte>, traversal: TraversalState, m: seq<Byte>)
    returns (r: Result<seq<Byte>>, ghost calls: set<WotsCall>)
    requires p.Valid() && sk.Length == p.SkBytes()
    requires traversal.Valid() && Synced(p, sk[..], traversal.View())
    modifies sk, traversal, traversal.layers
    ensures traversal.Valid() && traversal.Owned()
    ensures SignStep(p, old(sk[..]), m, sk[..], traversal.View(), r)
    ensures SignCalls(p, old(sk[..]), m, sk[..], r, calls)
    ensures r.Success? ==> Carries(p, old(sk[..]), m, r.value, calls)
  {
    hide Params.SigBytes, Params.WotsSigBytes, Params.FullHeight;
    hide Carries, SignStep, Coherent, Ready, Rebuilt, KeyOf, SkIndex, Bumped, ToBytes, Pow2;
    ghost var before := sk[..];
    calls := {};
    var idx := ReadIndex(p, sk[..]);
    if idx > p.MaxIdx() {
      traversal.Clear();
      RefusedStep(p, before, m);
      r := Failure(Error.KeyExhausted);
      return;
    }
    var key, idxBytes := KeyOf(p, sk[..]), sk[..p.indexBytes];
    IndexBytesAre(p, before);
    var ready := traversal.Ensure(p, idx, key.seeds);
    if ready.Failure? {
      EarlyFaultStep(p, before, m, traversal.View());
      r := Failure(ready.error);
      return;
    }
    SpendIndex(p, sk, idx);
    r, calls := SignSpent(p, sk, traversal, idx, idxBytes, key, m, before);
    if r.Success? {
      StepCarries(p, before, m, sk[..], traversal.View(), r, calls);
    }
  }

  lemma StepCarries(p: Params, sk: seq<Byte>, m: seq<Byte>, sk': seq<Byte>, cache': CacheView, r: Result<seq<Byte>>,
      calls: set<WotsCall>)
    requires p.Valid() && IsSk(p, sk) && r.Success?
    requires SignStep(p, sk, m, sk', cache', r) && SignCalls(p, sk, m, sk', r, calls)
    ensures Carries(p, sk, m, r.value, calls)
  {
    hide KeyOf, SkIndex, SignatureOf, AfterSigning, Ready, Carries, DigestOf, CallOf;
    SignatureCarries(p, sk, m, calls);
  }

  /** The stored index bytes are the encoding of the index. */
  lemma IndexBytesAre(p: Params, sk: seq<Byte>)
    requires IsSk(p, sk)
    ensures sk[..p.indexBytes] == ToBytes(p.indexBytes, SkIndex(p, sk))
  {
    EncodeDecode(sk[..p.indexBytes]);
  }

  /** The outcome of a call without the message appended to it. */
  function Detached(r: Result<seq<Byte>>, m: seq<Byte>): Result<seq<Byte>> {
    if r.Success? && |m| <= |r.value| then Success(r.value[..|r.value| - |m|]) else r
  }

  /** Signs `m` and appends it to the signature. */
  method SignAttached(p: Params, sk: array<Byte>, traversal: TraversalState, m: seq<Byte>)
    returns (r: Result<seq<Byte>>)
    requires p.Valid() && sk.Length == p.SkBytes()
    requires traversal.Valid() && Synced(p, sk[..], traversal.View())
    modifies sk, traversal, traversal.layers
    ensures traversal.Valid() && traversal.Owned()
    ensures r.Success? ==> |m| <= |r.value| && r.value[|r.value| - |m|..] == m
    ensures SignStep(p, old(sk[..]), m, sk[..], traversal.View(), Detached(r, m))
  {
    hide SignStep;
    var signed, _ := Sign(p, sk, traversal, m);
    if signed.Failure? {
      return signed;
    }
    r := Success(signed.value + m);
    assert (signed.value + m)[..|signed.value|] == signed.value;
  }
}
