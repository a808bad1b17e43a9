/**
 What the traversal cache has to hold: for every layer, the position of the current index, the root
 and authentication path of its tree, and possibly the reusable WOTS+ signature of the layer.
*/
module CacheSpec {
  import opened Results
  import opened Bytes
  import opened Parameters
  import opened Address
  import opened ChainLengths
  import opened Wots
  import opened Merkle
  import opened Positions

  /** The seeds every tree is derived from. */
  datatype Seeds = Seeds(sk: Node, pub: Node)

  /** The value of one cached layer. */
  datatype LayerView = LayerView(treeIdx: nat, leafIdx: nat, root: Node, authPath: seq<Node>,
      cachedWots: Option<seq<Byte>>)

  /** The value of the whole cache. */
  datatype CacheView = CacheView(nextIdx: Option<nat>, layers: seq<Option<LayerView>>)

  const EMPTY_CACHE := CacheView(None, [])

  function SubtreeOf(seeds: Seeds, layer: nat, tree: nat): Subtree {
    Subtree(seeds.sk, seeds.pub, SubtreeWords(layer, tree))
  }

  /** The subtree in which `idx` stands at `layer`. */
  function TreeAt(p: Params, seeds: Seeds, idx: nat, layer: nat): Subtree {
    SubtreeOf(seeds, layer, TreeIdx(p, idx, layer))
  }

  /** The five address words of the one-time key of `idx` at `layer`. */
  function OtsWords(p: Params, idx: nat, layer: nat): (pos: seq<Word>)
    ensures |pos| == 5
  {
    SubtreeWords(layer, TreeIdx(p, idx, layer)) + [TYPE_OTS, Low32(LeafIdx(p, idx, layer))]
  }

  /** The signature the one-time key of `idx` at `layer` makes of `msg`. */
  function WotsBytes(p: Params, seeds: Seeds, idx: nat, layer: nat, msg: Node): (bytes: seq<Byte>)
    requires p.WotsValid() && |msg| == p.n
    ensures |bytes| == p.WotsSigBytes()
  {
    var sig := SigNodes(p, seeds.sk, seeds.pub, OtsWords(p, idx, layer), Lengths(p, msg));
    FlattenLength(sig, p.n);
    Flatten(sig)
  }

  /** The root an upper layer signs: that of the tree below its leaf. */
  function RootBelow(p: Params, seeds: Seeds, idx: nat, layer: nat): (r: Node)
    requires p.WotsValid() && layer >= 1
    ensures |r| == p.n
  {
    RootOf(p, TreeAt(p, seeds, idx, layer - 1))
  }

  /** A layer as `build_layer_state` makes it from the seeds alone. */
  function BuiltLayer(p: Params, seeds: Seeds, idx: nat, layer: nat): LayerView
    requires p.WotsValid()
  {
    LayerView(TreeIdx(p, idx, layer), LeafIdx(p, idx, layer), RootOf(p, TreeAt(p, seeds, idx, layer)),
              AuthPath(p, TreeAt(p, seeds, idx, layer), LeafIdx(p, idx, layer)), None)
  }

  /** The cached layer is the rebuilt one, and a stored signature is the one that would be made. */
  ghost predicate LayerCoherent(p: Params, seeds: Seeds, idx: nat, layer: nat, lv: LayerView)
    requires p.WotsValid()
  {
    && lv.(cachedWots := None) == BuiltLayer(p, seeds, idx, layer)
    && (lv.cachedWots.Some? ==>
          layer >= 1 && lv.cachedWots.value == WotsBytes(p, seeds, idx, layer, RootBelow(p, seeds, idx, layer)))
  }

  /** Every layer that is present is coherent. */
  ghost predicate Coherent(p: Params, seeds: Seeds, idx: nat, layers: seq<Option<LayerView>>)
    requires p.WotsValid()
  {
    |layers| == p.d &&
    forall i :: 0 <= i < |layers| && layers[i].Some? ==> LayerCoherent(p, seeds, idx, i, layers[i].value)
  }

  ghost predicate Complete(layers: seq<Option<LayerView>>) {
    forall i :: 0 <= i < |layers| ==> layers[i].Some?
  }

  /** The cache invariant: a cache marked for the key's own index is coherent with the key. */
  ghost predicate Agrees(p: Params, seeds: Seeds, idx: nat, cache: CacheView)
    requires p.WotsValid()
  {
    cache.nextIdx == Some(idx) ==> Coherent(p, seeds, idx, cache.layers)
  }

  /** The cache is complete and coherent for `idx`. */
  ghost predicate Ready(p: Params, seeds: Seeds, idx: nat, cache: CacheView)
    requires p.WotsValid()
  {
    cache.nextIdx == Some(idx) && Coherent(p, seeds, idx, cache.layers) && Complete(cache.layers)
  }

  /** The cache as rebuilt from the key alone, with no stored signatures. */
  function Rebuilt(p: Params, seeds: Seeds, idx: nat): CacheView
    requires p.WotsValid()
  {
    CacheView(Some(idx), seq(p.d, i requires 0 <= i < p.d => Some(BuiltLayer(p, seeds, idx, i))))
  }

  function Forget(layers: seq<Option<LayerView>>): (ls: seq<Option<LayerView>>)
    ensures |ls| == |layers|
  {
    seq(|layers|, i requires 0 <= i < |layers| =>
      if layers[i].Some? then Some(layers[i].value.(cachedWots := None)) else None)
  }

  /** A ready cache is the rebuilt one up to stored signatures. */
  lemma ReadyIsRebuilt(p: Params, seeds: Seeds, idx: nat, cache: CacheView)
    requires p.WotsValid() && Ready(p, seeds, idx, cache)
    ensures CacheView(cache.nextIdx, Forget(cache.layers)) == Rebuilt(p, seeds, idx)
  {
    hide BuiltLayer, WotsBytes;
    var a, b := Forget(cache.layers), Rebuilt(p, seeds, idx).layers;
    forall i | 0 <= i < p.d ensures a[i] == b[i] {
      assert LayerCoherent(p, seeds, idx, i, cache.layers[i].value);
    }
  }

  lemma RebuiltIsReady(p: Params, seeds: Seeds, idx: nat)
    requires p.WotsValid()
    ensures Ready(p, seeds, idx, Rebuilt(p, seeds, idx))
  {
    hide WotsBytes;
  }

  /** A layer whose position does not move needs no change. */
  lemma LayerStays(p: Params, seeds: Seeds, idx: nat, idx': nat, layer: nat, lv: LayerView)
    requires p.WotsValid() && LayerCoherent(p, seeds, idx, layer, lv)
    requires TreeIdx(p, idx, layer) == TreeIdx(p, idx', layer) && LeafIdx(p, idx, layer) == LeafIdx(p, idx', layer)
    ensures LayerCoherent(p, seeds, idx', layer, lv)
  {
    hide TreeIdx, LeafIdx, RootOf, AuthPath, SigNodes, Lengths;
    if lv.cachedWots.Some? {
      TreeBelow(p, idx, layer);
      TreeBelow(p, idx', layer);
    }
  }
}
