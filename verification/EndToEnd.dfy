/**
 The life of a key, from generation past its last index: the boundary-crossing scenario of
 src/xmss_core.rs:727-769, for every parameter set.
*/
module EndToEnd {
  import opened Results
  import opened Bits
  import opened Bytes
  import opened Parameters
  import opened Merkle
  import opened CacheSpec
  import opened Traversal
  import opened SignatureSpec
  import opened Signer
  import opened Binding
  import opened Verifier

  /** The bytes of a key after its last signature: the marker, and zeros for every field. */
  function SpentSk(p: Params): (sk: seq<Byte>)
    ensures IsSk(p, sk)
  {
    Fill(p.indexBytes, 0xFF) + Fill(4 * p.n, 0)
  }

  /** The key holds index `i` and the original fields. */
  ghost predicate Alive(p: Params, seed: seq<Byte>, sk: seq<Byte>, i: nat)
    requires p.Valid() && |seed| == 3 * p.n
  {
    IsSk(p, sk) && SkIndex(p, sk) == i && KeyOf(p, sk) == KeyOf(p, FreshSk(p, seed))
  }

  /** One signing call of a live key, from the description of its outcome. */
  lemma LiveStep(p: Params, seed: seq<Byte>, i: nat, sk: seq<Byte>, m: seq<Byte>, sk': seq<Byte>, cache': CacheView,
                 r: Result<seq<Byte>>)
    requires p.Valid() && |seed| == 3 * p.n && !p.digest.faults
    requires i <= p.MaxIdx() && Alive(p, seed, sk, i) && SignStep(p, sk, m, sk', cache', r)
    ensures r.Success? && |r.value| == p.SigBytes() >= p.indexBytes
    ensures r.value[..p.indexBytes] == ToBytes(p.indexBytes, i)
    ensures Accepts(p, PublicKey(p, KeyOf(p, FreshSk(p, seed)).seeds), r.value, m)
    ensures IsSk(p, sk') && Synced(p, sk', cache')
    ensures i < p.MaxIdx() ==> Alive(p, seed, sk', i + 1)
    ensures i == p.MaxIdx() ==> sk' == SpentSk(p) && cache' == EMPTY_CACHE
  {
    hide KeyOf, FreshSk, SkIndex, Bumped, SignatureOf, Accepts, Coherent, Pow256, RootOf, PublicKey;
    FreshKey(p, seed);
    var key := KeyOf(p, FreshSk(p, seed));
    SignedIsAccepted(p, key, i, m);
    SignatureStart(p, key, i, m);
    AfterLast(p, sk);
    BumpedKey(p, sk);
    BumpedIndex(p, sk);
    MaxIdxFits(p);
  }

  lemma SignatureStart(p: Params, key: Key, idx: nat, m: seq<Byte>)
    requires p.WotsValid()
    ensures |SignatureOf(p, key, idx, m)| == p.SigBytes() >= p.indexBytes
    ensures SignatureOf(p, key, idx, m)[..p.indexBytes] == ToBytes(p.indexBytes, idx)
  {
    hide Randomizer, LayersFrom, ToBytes, DigestOf;
    SigBytesAre(p);
  }

  lemma AfterLast(p: Params, sk: seq<Byte>)
    requires p.Valid() && IsSk(p, sk)
    ensures SkIndex(p, sk) < p.MaxIdx() ==> AfterSigning(p, sk) == Bumped(p, sk)
    ensures SkIndex(p, sk) == p.MaxIdx() ==>
      AfterSigning(p, sk) == SpentSk(p)
  {
    hide FromBytes, Fill;
  }

  /** The state before a signing call: index `i`, or after the last one, erased and emptied. */
  ghost predicate At(p: Params, seed: seq<Byte>, sk: seq<Byte>, cache: CacheView, i: nat)
    requires p.Valid() && |seed| == 3 * p.n
  {
    IsSk(p, sk) && Synced(p, sk, cache) &&
    if i <= p.MaxIdx() then Alive(p, seed, sk, i) else sk == SpentSk(p) && cache == EMPTY_CACHE
  }

  /** The round trip of one message: what was signed carries index `i`, is accepted, and opens to the message. */
  ghost predicate RoundTrip(p: Params, pk: seq<Byte>, i: nat, m: seq<Byte>, signed: seq<Byte>,
      recovered: Result<seq<Byte>>)
    requires p.Valid()
  {
    && |signed| == p.SigBytes() + |m| && p.indexBytes <= p.SigBytes()
    && signed[..p.indexBytes] == ToBytes(p.indexBytes, i)
    && signed[p.SigBytes()..] == m
    && Accepts(p, pk, signed[..p.SigBytes()], m)
    && recovered == Success(m)
  }

  /** Signs with index `i` and opens the result. */
  method SignAndOpen(p: Params, sk: array<Byte>, traversal: TraversalState, pk: seq<Byte>, m: seq<Byte>,
      ghost seed: seq<Byte>, ghost i: nat)
    returns (signed: seq<Byte>, recovered: Result<seq<Byte>>)
    requires p.Valid() && |seed| == 3 * p.n && !p.digest.faults
    requires sk.Length == p.SkBytes() && traversal.Valid() && i <= p.MaxIdx()
    requires At(p, seed, sk[..], traversal.View(), i)
    requires pk == PublicKey(p, KeyOf(p, FreshSk(p, seed)).seeds)
    modifies sk, traversal, traversal.layers
    ensures traversal.Valid() && traversal.Owned()
    ensures At(p, seed, sk[..], traversal.View(), i + 1)
    ensures RoundTrip(p, pk, i, m, signed, recovered)
  {
    hide Params.SigBytes, Params.WotsSigBytes, Params.FullHeight;
    hide KeyOf, FreshSk, SkIndex, FromBytes, Accepts, Authentic, SignStep, Synced, PublicKey, Pow2, Fill;
    ghost var before := sk[..];
    var answer := SignAttached(p, sk, traversal, m);
    ghost var r := Detached(answer, m);
    LiveStep(p, seed, i, before, m, sk[..], traversal.View(), r);
    AppendSplits(r.value, m);
    signed := answer.value;
    assert signed == r.value + m;
    var message, result := SignOpen(p, [], signed, pk);
    recovered := result.With(message);
  }

  /** Signs and opens `messages[i]` under every index `i` of a fresh key. */
  method SignAll(p: Params, sk: array<Byte>, traversal: TraversalState, pk: seq<Byte>, messages: seq<seq<Byte>>,
      ghost seed: seq<Byte>)
    returns (signed: seq<seq<Byte>>, recovered: seq<Result<seq<Byte>>>)
    requires p.Valid() && |seed| == 3 * p.n && !p.digest.faults
    requires sk.Length == p.SkBytes() && traversal.Valid() && |messages| > p.MaxIdx()
    requires At(p, seed, sk[..], traversal.View(), 0)
    requires pk == PublicKey(p, KeyOf(p, FreshSk(p, seed)).seeds)
    modifies sk, traversal, traversal.layers
    ensures traversal.Valid() && traversal.Owned()
    ensures At(p, seed, sk[..], traversal.View(), p.MaxIdx() + 1)
    ensures |signed| == |recovered| == p.MaxIdx() + 1
    ensures forall i :: 0 <= i <= p.MaxIdx() ==> RoundTrip(p, pk, i, messages[i], signed[i], recovered[i])
  {
    hide Params.SigBytes, Params.WotsSigBytes, Params.FullHeight;
    hide KeyOf, FreshSk, PublicKey, Pow2, At, RoundTrip;
    signed, recovered := [], [];
    for i := 0 to p.MaxIdx() + 1
      invariant traversal.Valid() && traversal.Owned()
      invariant At(p, seed, sk[..], traversal.View(), i)
      invariant |signed| == |recovered| == i
      invariant forall k :: 0 <= k < i ==> RoundTrip(p, pk, k, messages[k], signed[k], recovered[k])
    {
      var sm, m := SignAndOpen(p, sk, traversal, pk, messages[i], seed, i);
      signed, recovered := signed + [sm], recovered + [m];
    }
  }

  /**
   The answer to a call after the last signature: with room for the marker the key is exhausted, without
   it the last index is signed with again, by a key of zeros.
  */
  function AnswerBeyond(p: Params, m: seq<Byte>): Result<seq<Byte>>
    requires p.WotsValid()
  {
    if p.MarkerBeyondRange() then Failure(KeyExhausted)
    else Success(SignatureOf(p, KeyFields(p.n, Fill(4 * p.n, 0)), p.MaxIdx(), m) + m)
  }

  /** Calls the key after its last signature. */
  method SignBeyond(p: Params, sk: array<Byte>, traversal: TraversalState, m: seq<Byte>, ghost seed: seq<Byte>)
    returns (r: Result<seq<Byte>>)
    requires p.Valid() && |seed| == 3 * p.n && !p.digest.faults && sk.Length == p.SkBytes() && traversal.Valid()
    requires At(p, seed, sk[..], traversal.View(), p.MaxIdx() + 1)
    modifies sk, traversal, traversal.layers
    ensures r == AnswerBeyond(p, m) && sk[..] == SpentSk(p) && traversal.View() == EMPTY_CACHE
  {
    hide Params.SigBytes, Params.WotsSigBytes, Params.FullHeight;
    hide KeyOf, SkIndex, SignStep, Synced, Pow2, At, SpentSk, AnswerBeyond;
    ghost var before := sk[..];
    EndsSpent(p, seed, before, traversal.View());
    r := SignAttached(p, sk, traversal, m);
    OutcomeBeyond(p, m, sk[..], traversal.View(), r);
  }

  /**
   Generates a key from `seed`, signs and opens `messages[i]` under every index `i`, and calls the
   key once more. That call is refused if and only if the marker lies beyond the last index.
  */
  method WholeLife(p: Params, seed: seq<Byte>, messages: seq<seq<Byte>>)
    returns (pk: seq<Byte>, signed: seq<seq<Byte>>, recovered: seq<Result<seq<Byte>>>, last: Result<seq<Byte>>,
      sk: seq<Byte>, ghost cache: CacheView)
    requires p.Valid() && |seed| == 3 * p.n && !p.digest.faults && |messages| == p.MaxIdx() + 2
    ensures pk == PublicKey(p, KeyOf(p, FreshSk(p, seed)).seeds)
    ensures |signed| == |recovered| == p.MaxIdx() + 1
    ensures forall i :: 0 <= i <= p.MaxIdx() ==> RoundTrip(p, pk, i, messages[i], signed[i], recovered[i])
    ensures last == AnswerBeyond(p, messages[p.MaxIdx() + 1])
    ensures last == Failure(KeyExhausted) <==> p.MarkerBeyondRange()
    ensures sk == SpentSk(p) && cache == EMPTY_CACHE
  {
    hide Params.SigBytes, Params.WotsSigBytes, Params.FullHeight;
    hide KeyOf, FreshSk, SkIndex, SignStep, Synced, Ready, PublicKey, Pow2, At, SpentSk, RoundTrip, SignatureOf;
    var pkBytes, skBytes := new Byte[2 * p.n](_ => 0), new Byte[p.SkBytes()](_ => 0);
    var keypair := SeedKeypair(p, pkBytes, skBytes, seed);
    var traversal := keypair.Extract();
    StartsAtZero(p, seed, skBytes[..], traversal.View());
    pk := pkBytes[..];
    signed, recovered := SignAll(p, skBytes, traversal, pk, messages, seed);
    last := SignBeyond(p, skBytes, traversal, messages[p.MaxIdx() + 1], seed);
    sk, cache := skBytes[..], traversal.View();
  }

  lemma StartsAtZero(p: Params, seed: seq<Byte>, sk: seq<Byte>, cache: CacheView)
    requires p.Valid() && |seed| == 3 * p.n && sk == FreshSk(p, seed) && Ready(p, KeyOf(p, sk).seeds, 0, cache)
    ensures At(p, seed, sk, cache, 0)
  {
    hide KeyOf, FreshSk, SkIndex, Coherent;
    FreshKey(p, seed);
  }

  lemma EndsSpent(p: Params, seed: seq<Byte>, sk: seq<Byte>, cache: CacheView)
    requires p.Valid() && |seed| == 3 * p.n && At(p, seed, sk, cache, p.MaxIdx() + 1)
    ensures IsSk(p, sk) && Synced(p, sk, cache) && sk == SpentSk(p)
  {
    hide KeyOf, SkIndex, Coherent, SpentSk;
  }

  lemma SpentSkIs(p: Params)
    requires p.Valid()
    ensures SkIndex(p, SpentSk(p)) == Pow256(p.indexBytes) - 1
    ensures KeyOf(p, SpentSk(p)) == KeyFields(p.n, Fill(4 * p.n, 0))
    ensures SkIndex(p, SpentSk(p)) > p.MaxIdx() <==> p.MarkerBeyondRange()
    ensures SkIndex(p, SpentSk(p)) >= p.MaxIdx()
  {
    hide FromBytes, Fill, Pow256, KeyFields;
    assert SpentSk(p)[..p.indexBytes] == Fill(p.indexBytes, 0xFF);
    assert SpentSk(p)[p.indexBytes..] == Fill(4 * p.n, 0);
    DecodeOnes(Fill(p.indexBytes, 0xFF));
    MaxIdxFits(p);
  }

  lemma OutcomeBeyond(p: Params, m: seq<Byte>, sk': seq<Byte>, cache': CacheView, r: Result<seq<Byte>>)
    requires p.Valid() && !p.digest.faults && SignStep(p, SpentSk(p), m, sk', cache', Detached(r, m))
    requires r.Success? ==> |m| <= |r.value| && r.value[|r.value| - |m|..] == m
    ensures r == AnswerBeyond(p, m) && cache' == EMPTY_CACHE && sk' == SpentSk(p)
  {
    hide SkIndex, KeyOf, SignatureOf, AfterSigning, SpentSk, KeyFields, Fill, Pow256;
    SpentSkIs(p);
    AfterLast(p, SpentSk(p));
    if r.Success? {
      assert r.value == Detached(r, m).value + m;
    }
  }

  lemma AppendSplits(a: seq<Byte>, b: seq<Byte>)
    ensures (a + b)[..|a|] == a && (a + b)[|a|..] == b
  {
  }
}
