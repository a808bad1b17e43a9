/**
 What a signature contains when its layers are taken from the traversal cache as it stands
 (src/xmss_core.rs:658-698), and why a cache that agrees with the key makes no difference.
*/
module CachedSignature {
  import opened Results
  import opened Bytes
  import opened Parameters
  import opened Merkle
  import opened Positions
  import opened CacheSpec
  import opened SignatureSpec

  /** The buffers of every present layer have the lengths a signature reserves for them. */
  ghost predicate AllFit(p: Params, layers: seq<Option<LayerView>>) {
    |layers| == p.d && forall k :: 0 <= k < |layers| && layers[k].Some? ==> Fits(p, layers[k].value)
  }

  ghost predicate Fits(p: Params, lv: LayerView) {
    && |lv.root| == p.n && |lv.authPath| == p.treeHeight && AllLen(lv.authPath, p.n)
    && (lv.cachedWots.Some? ==> |lv.cachedWots.value| == p.WotsSigBytes())
  }

  /** The WOTS+ signature of layer `i`: the stored one if there is one, except at layer 0. */
  function CachedWots(p: Params, seeds: Seeds, idx: nat, i: nat, msg: Node, lv: LayerView): (sig: seq<Byte>)
    requires p.WotsValid() && |msg| == p.n && Fits(p, lv)
    ensures |sig| == p.WotsSigBytes()
  {
    if i > 0 && lv.cachedWots.Some? then lv.cachedWots.value else WotsBytes(p, seeds, idx, i, msg)
  }

  function CachedPart(p: Params, seeds: Seeds, idx: nat, i: nat, msg: Node, lv: LayerView): (part: seq<Byte>)
    requires p.WotsValid() && |msg| == p.n && Fits(p, lv)
    ensures |part| == p.LayerBytes()
  {
    FlattenLength(lv.authPath, p.n);
    CachedWots(p, seeds, idx, i, msg, lv) + Flatten(lv.authPath)
  }

  /** The layers from `i` upwards, each signing the cached root of the one below. */
  function CachedFrom(p: Params, seeds: Seeds, idx: nat, i: nat, msg: Node, layers: seq<Option<LayerView>>)
    : (bs: seq<Byte>)
    requires p.WotsValid() && |msg| == p.n && i <= p.d && AllFit(p, layers) && Complete(layers)
    ensures |bs| == Remaining(p, i)
    decreases p.d - i
  {
    if i == p.d then []
    else
      CachedPart(p, seeds, idx, i, msg, layers[i].value)
        + CachedFrom(p, seeds, idx, i + 1, layers[i].value.root, layers)
  }

  /** A layer after it was written: an upper layer stores the signature that was used. */
  function Stored(p: Params, seeds: Seeds, idx: nat, i: nat, msg: Node, lv: LayerView): LayerView
    requires p.WotsValid() && |msg| == p.n && Fits(p, lv)
  {
    if i > 0 then lv.(cachedWots := Some(CachedWots(p, seeds, idx, i, msg, lv))) else lv
  }

  /** What layer `i` signs: the digest, or the cached root of the layer below. */
  function CachedMessage(p: Params, layers: seq<Option<LayerView>>, digest: Node, i: nat): (msg: Node)
    requires |digest| == p.n && AllFit(p, layers) && i <= p.d && (i > 0 ==> layers[i - 1].Some?)
    ensures |msg| == p.n
  {
    if i == 0 then digest else layers[i - 1].value.root
  }

  /** Layer `i` is as it was, or stores the signature that was used. */
  ghost predicate Touched(p: Params, seeds: Seeds, idx: nat, digest: Node, i: nat, before: seq<Option<LayerView>>,
      lv: Option<LayerView>)
    requires p.WotsValid() && |digest| == p.n && i < p.d && AllFit(p, before)
  {
    || lv == before[i]
    || (before[i].Some? && (i > 0 ==> before[i - 1].Some?) &&
        lv == Some(Stored(p, seeds, idx, i, CachedMessage(p, before, digest, i), before[i].value)))
  }

  /** One use of a one-time key: the seeds and the five address words that name it, and what it signs. */
  datatype WotsCall = WotsCall(seeds: Seeds, pos: seq<Word>, msg: Node)

  /** The use of a one-time key that index `idx` makes at layer `i`. */
  function CallOf(p: Params, seeds: Seeds, idx: nat, digest: Node, i: nat): WotsCall
    requires p.WotsValid() && |digest| == p.n
  {
    WotsCall(seeds, OtsWords(p, idx, i), LayerMessage(p, seeds, idx, digest, i))
  }

  ghost predicate IsCall(p: Params, seeds: Seeds, idx: nat, digest: Node, c: WotsCall)
    requires p.WotsValid() && |digest| == p.n
  {
    exists i: nat :: i < p.d && c == CallOf(p, seeds, idx, digest, i)
  }

  /** The same with the message a cache supplies. */
  ghost predicate IsCachedCall(p: Params, seeds: Seeds, idx: nat, digest: Node, layers: seq<Option<LayerView>>,
      c: WotsCall)
    requires |digest| == p.n && AllFit(p, layers)
  {
    exists i: nat ::
      && i < p.d && (i > 0 ==> layers[i - 1].Some?)
      && c == WotsCall(seeds, OtsWords(p, idx, i), CachedMessage(p, layers, digest, i))
  }

  // ---- a coherent cache supplies what the key specifies ----

  lemma CoherentFits(p: Params, seeds: Seeds, idx: nat, layers: seq<Option<LayerView>>)
    requires p.WotsValid() && Coherent(p, seeds, idx, layers)
    ensures AllFit(p, layers)
  {
    hide RootOf, AuthPath, WotsBytes, TreeAt;
    forall k | 0 <= k < |layers| && layers[k].Some? ensures Fits(p, layers[k].value) {
      assert LayerCoherent(p, seeds, idx, k, layers[k].value);
    }
  }

  lemma CoherentMessage(p: Params, seeds: Seeds, idx: nat, layers: seq<Option<LayerView>>, digest: Node, i: nat)
    requires p.WotsValid() && |digest| == p.n && Coherent(p, seeds, idx, layers) && AllFit(p, layers)
    requires i <= p.d && (i > 0 ==> layers[i - 1].Some?)
    ensures CachedMessage(p, layers, digest, i) == LayerMessage(p, seeds, idx, digest, i)
  {
    hide RootOf, AuthPath, WotsBytes, TreeAt;
    if i > 0 {
      assert LayerCoherent(p, seeds, idx, i - 1, layers[i - 1].value);
    }
  }

  lemma CoherentPart(p: Params, seeds: Seeds, idx: nat, digest: Node, i: nat, lv: LayerView)
    requires p.WotsValid() && |digest| == p.n && Fits(p, lv) && LayerCoherent(p, seeds, idx, i, lv)
    ensures CachedPart(p, seeds, idx, i, LayerMessage(p, seeds, idx, digest, i), lv)
         == LayerPart(p, seeds, idx, digest, i)
    ensures lv.root == LayerMessage(p, seeds, idx, digest, i + 1)
  {
    hide RootOf, AuthPath, WotsBytes, TreeAt, LeafIdx, Flatten;
  }

  /** The bytes taken from a complete coherent cache are those the key specifies. */
  lemma {:induction false} CacheRefines(p: Params, seeds: Seeds, idx: nat, digest: Node, i: nat,
      layers: seq<Option<LayerView>>)
    requires p.WotsValid() && |digest| == p.n && i <= p.d
    requires Coherent(p, seeds, idx, layers) && AllFit(p, layers) && Complete(layers)
    ensures CachedFrom(p, seeds, idx, i, LayerMessage(p, seeds, idx, digest, i), layers)
         == LayersFrom(p, seeds, idx, digest, i)
    decreases p.d - i
  {
    hide LayerCoherent, Fits, CachedPart, LayerPart, LayerMessage;
    if i < p.d {
      CoherentPart(p, seeds, idx, digest, i, layers[i].value);
      CacheRefines(p, seeds, idx, digest, i + 1, layers);
    }
  }

  /** Signing from a warm cache and from a rebuilt one yields the same layers. */
  lemma WarmBytesAreRebuilt(p: Params, seeds: Seeds, idx: nat, digest: Node, warm: CacheView)
    requires p.WotsValid() && |digest| == p.n && Ready(p, seeds, idx, warm)
    ensures AllFit(p, warm.layers) && AllFit(p, Rebuilt(p, seeds, idx).layers)
    ensures CachedFrom(p, seeds, idx, 0, digest, warm.layers)
         == CachedFrom(p, seeds, idx, 0, digest, Rebuilt(p, seeds, idx).layers)
  {
    hide LayerCoherent, Fits, CachedFrom, LayersFrom, Rebuilt;
    var rebuilt := Rebuilt(p, seeds, idx).layers;
    RebuiltIsReady(p, seeds, idx);
    CoherentFits(p, seeds, idx, warm.layers);
    CoherentFits(p, seeds, idx, rebuilt);
    CacheRefines(p, seeds, idx, digest, 0, warm.layers);
    CacheRefines(p, seeds, idx, digest, 0, rebuilt);
  }

  /** Storing the signatures that were used keeps a cache coherent. */
  lemma TouchedIsCoherent(p: Params, seeds: Seeds, idx: nat, digest: Node, before: seq<Option<LayerView>>,
      after: seq<Option<LayerView>>)
    requires p.WotsValid() && |digest| == p.n && Coherent(p, seeds, idx, before) && AllFit(p, before)
    requires |after| == p.d && forall k :: 0 <= k < p.d ==> Touched(p, seeds, idx, digest, k, before, after[k])
    ensures Coherent(p, seeds, idx, after)
  {
    hide RootOf, AuthPath, WotsBytes, BuiltLayer;
    forall k | 0 <= k < p.d && after[k].Some? ensures LayerCoherent(p, seeds, idx, k, after[k].value) {
      assert Touched(p, seeds, idx, digest, k, before, after[k]);
      assert LayerCoherent(p, seeds, idx, k, before[k].value);
      if k > 0 && before[k - 1].Some? {
        CoherentMessage(p, seeds, idx, before, digest, k);
      }
    }
  }

  /** With a coherent cache, every one-time key signs what the key specifies. */
  lemma CachedCallIsCall(p: Params, seeds: Seeds, idx: nat, digest: Node, layers: seq<Option<LayerView>>, c: WotsCall)
    requires p.WotsValid() && |digest| == p.n && Coherent(p, seeds, idx, layers) && AllFit(p, layers)
    requires IsCachedCall(p, seeds, idx, digest, layers, c)
    ensures IsCall(p, seeds, idx, digest, c)
  {
    hide OtsWords, LayerMessage, CachedMessage;
    var i: nat :| && i < p.d && (i > 0 ==> layers[i - 1].Some?)
                  && c == WotsCall(seeds, OtsWords(p, idx, i), CachedMessage(p, layers, digest, i));
    CoherentMessage(p, seeds, idx, layers, digest, i);
    assert c == CallOf(p, seeds, idx, digest, i);
  }
}
