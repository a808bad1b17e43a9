/** The in-memory traversal cache (`TraversalState`, src/xmss_core.rs:14-136, 271-333). */
module Traversal {
  import opened Results
  import opened Bits
  import opened Bytes
  import opened Parameters
  import opened Address
  import opened Merkle
  import opened TreeBuilding
  import opened Positions
  import opened CacheSpec

  class LayerState {
    var treeIdx: nat
    var leafIdx: nat
    var root: Node
    var authPath: seq<Node>
    var cachedWots: Option<seq<Byte>>

    constructor (treeIdx: nat, leafIdx: nat, root: Node, authPath: seq<Node>)
      ensures View() == LayerView(treeIdx, leafIdx, root, authPath, None)
    {
      this.treeIdx, this.leafIdx, this.root, this.authPath := treeIdx, leafIdx, root, authPath;
      cachedWots := None;
    }

    ghost function View(): LayerView
      reads this
    {
      LayerView(treeIdx, leafIdx, root, authPath, cachedWots)
    }
  }

  /** Builds a layer from the seeds alone. */
  method BuildLayerState(p: Params, layer: nat, treeIdx: nat, leafIdx: nat, seeds: Seeds)
    returns (r: Result<LayerState>)
    requires p.Valid() && layer < 0x1_0000_0000 && leafIdx < Pow2(p.treeHeight)
    ensures r.Success? ==>
      fresh(r.value) &&
      r.value.View() == LayerView(treeIdx, leafIdx, RootOf(p, SubtreeOf(seeds, layer, treeIdx)),
                                  AuthPath(p, SubtreeOf(seeds, layer, treeIdx), leafIdx), None)
    ensures r.Failure? ==> p.digest.faults && r.error == Error.Hash
  {
    hide Params.SigBytes, Params.FullHeight;
    hide RootOf, AuthPath, Low32;
    var authPath := new Node[p.treeHeight](_ => []);
    var subtreeAddr := new Word[] [0, 0, 0, 0, 0, 0, 0, 0];
    SetLayerAddr(subtreeAddr, layer);
    SetTreeAddr(subtreeAddr, treeIdx);
    Low32Id(layer);
    assert subtreeAddr[..3] == SubtreeWords(layer, treeIdx);
    var root :- Treehash(p, authPath, seeds.sk, seeds.pub, leafIdx, subtreeAddr);
    var state := new LayerState(treeIdx, leafIdx, root, authPath[..]);
    r := Success(state);
  }

  /** Leaf computations in one step from `leaf` to `leaf + 1`. */
  function StepWork(leaf: nat): nat {
    Pow2(TrailingOnes(leaf) + 1) - 1
  }

  /** Moves a layer to the next leaf of its tree by recomputing the siblings that change. */
  method AdvanceAuthPath(p: Params, state: LayerState, layer: nat, seeds: Seeds)
    returns (r: Result<()>, ghost work: nat)
    requires p.Valid() && layer < 0x1_0000_0000 && state.leafIdx + 1 < Pow2(p.treeHeight)
    requires state.authPath == AuthPath(p, SubtreeOf(seeds, layer, state.treeIdx), state.leafIdx)
    modifies state
    ensures state.treeIdx == old(state.treeIdx) && state.root == old(state.root)
    ensures r.Success? ==>
      && state.leafIdx == old(state.leafIdx) + 1
      && state.authPath == AuthPath(p, SubtreeOf(seeds, layer, state.treeIdx), state.leafIdx)
      && state.cachedWots == None
      && work == StepWork(old(state.leafIdx))
    ensures r.Failure? ==> p.digest.faults && r.error == Error.Hash && state.leafIdx == old(state.leafIdx)
  {
    hide Params.SigBytes, Params.FullHeight;
    hide NodeAt, Low32, Pow2, Shr, Flip, TrailingOnes, Low;
    work := 0;
    ghost var leaf, t := state.leafIdx, SubtreeOf(seeds, layer, state.treeIdx);
    var nextLeaf := state.leafIdx + 1;
    var changedLevels := TrailingOnes(state.leafIdx) + 1;
    TrailingOnesBound(leaf, p.treeHeight);
    var subtreeAddr := new Word[] [0, 0, 0, 0, 0, 0, 0, 0];
    SetLayerAddr(subtreeAddr, layer);
    SetTreeAddr(subtreeAddr, state.treeIdx);
    Low32Id(layer);
    assert subtreeAddr[..3] == t.base;
    NoWork();

    for height := 0 to changedLevels
      invariant state.treeIdx == old(state.treeIdx) && state.root == old(state.root) && state.leafIdx == leaf
      invariant |state.authPath| == p.treeHeight && work == Pow2(height) - 1 && subtreeAddr[..3] == t.base
      invariant forall h :: 0 <= h < height ==> state.authPath[h] == PathNode(p, t, nextLeaf, h)
      invariant forall h :: height <= h < p.treeHeight ==> state.authPath[h] == PathNode(p, t, leaf, h)
      modifies state
    {
      var siblingStart := Flip(Shr(nextLeaf, height)) * Pow2(height);
      SiblingRange(nextLeaf, height, p.treeHeight);
      var node, leaves := TreehashRoot(p, seeds.sk, seeds.pub, siblingStart, height, subtreeAddr);
      if node.Failure? {
        r := Failure(node.error);
        return;
      }
      assert node.value == PathNode(p, t, nextLeaf, height);
      state.authPath := state.authPath[height := node.value];
      work := work + leaves;
      NextWork(height);
    }
    state.leafIdx := nextLeaf;
    state.cachedWots := None;
    forall h | changedLevels <= h < p.treeHeight
      ensures PathNode(p, t, leaf, h) == PathNode(p, t, nextLeaf, h)
    {
      ShrSucc(leaf, h);
    }
    assert state.authPath == AuthPath(p, t, nextLeaf);
    r := Success(());
  }

  lemma NoWork()
    ensures Pow2(0) == 1
  {
  }

  lemma NextWork(height: nat)
    ensures Pow2(height + 1) == 2 * Pow2(height)
  {
  }

  /** The leaves under a sibling are an aligned range inside the tree. */
  lemma SiblingRange(leaf: nat, height: nat, treeHeight: nat)
    requires height < treeHeight < 32 && leaf < Pow2(treeHeight)
    ensures var start := Flip(Shr(leaf, height)) * Pow2(height);
            && Low(start, height) == 0 && Shr(start, height) == Flip(Shr(leaf, height))
            && start + Pow2(height) <= Pow2(treeHeight) <= 0x8000_0000
  {
    hide Shr, Low, Pow2, Flip;
    var s := Flip(Shr(leaf, height));
    SplitUnique(s, 0, height);
    SiblingInside(leaf, height, treeHeight);
    PowAdd(treeHeight - height, height);
    TimesMono(s + 1, Pow2(treeHeight - height), Pow2(height));
    SumBoundary(s, Pow2(height));
    PowMono(treeHeight, 31);
    Pow31();
  }

  /** A sibling moves from one leaf to the next exactly when its level is recomputed. */
  lemma OnlyChangedLevels(leaf: nat, h: nat)
    ensures Flip(Shr(leaf + 1, h)) != Flip(Shr(leaf, h)) <==> h < TrailingOnes(leaf) + 1
  {
    hide Shr, TrailingOnes;
    ShrSucc(leaf, h);
  }

  /** The layer stands at the same leaf of the same tree for `idx` and `idx + 1`. */
  ghost predicate Stays(p: Params, idx: nat, layer: nat) {
    TreeIdx(p, idx + 1, layer) == TreeIdx(p, idx, layer) && LeafIdx(p, idx + 1, layer) == LeafIdx(p, idx, layer)
  }

  /** Moves one layer from `idx` to `idx + 1`: it stays, steps to the next leaf, or is built anew. */
  method AdvanceLayer(p: Params, state: LayerState, layer: nat, idx: nat, seeds: Seeds)
    returns (r: Result<LayerState>)
    requires p.Valid() && layer < 0x1_0000_0000 && LayerCoherent(p, seeds, idx, layer, state.View())
    modifies state
    ensures r.Success? ==>
      (r.value == state || fresh(r.value)) && LayerCoherent(p, seeds, idx + 1, layer, r.value.View())
    ensures Stays(p, idx, layer) ==> r == Success(state) && state.View() == old(state.View())
    ensures r.Failure? ==> p.digest.faults && r.error == Error.Hash
  {
    hide Params.SigBytes, Params.FullHeight;
    hide LayerCoherent, RootOf, AuthPath, TreeIdx, LeafIdx, Pow2, StepWork;
    var treeIdx, leafIdx := TreeIdx(p, idx + 1, layer), LeafIdx(p, idx + 1, layer);
    PositionBounds(p, idx + 1, layer);
    CoherentFields(p, seeds, idx, layer, state.View());
    ghost var was := state.View();
    if state.treeIdx == treeIdx && state.leafIdx == leafIdx {
      LayerStays(p, seeds, idx, idx + 1, layer, was);
      return Success(state);
    }
    if state.treeIdx == treeIdx && state.leafIdx + 1 == leafIdx {
      var moved, _ := AdvanceAuthPath(p, state, layer, seeds);
      if moved.Failure? {
        return Failure(moved.error);
      }
      MovedIsCoherent(p, seeds, idx, layer, was, state.View());
      return Success(state);
    }
    var built := BuildLayerState(p, layer, treeIdx, leafIdx, seeds);
    if built.Failure? {
      return Failure(built.error);
    }
    BuiltIsCoherent(p, seeds, idx + 1, layer, built.value.View());
    r := built;
  }

  /** The fields `AdvanceAuthPath` leaves behind are those of the next index. */
  lemma MovedIsCoherent(p: Params, seeds: Seeds, idx: nat, layer: nat, before: LayerView, after: LayerView)
    requires p.WotsValid() && LayerCoherent(p, seeds, idx, layer, before)
    requires TreeIdx(p, idx, layer) == TreeIdx(p, idx + 1, layer)
    requires after == LayerView(before.treeIdx, LeafIdx(p, idx + 1, layer), before.root,
                                AuthPath(p, SubtreeOf(seeds, layer, before.treeIdx), LeafIdx(p, idx + 1, layer)), None)
    ensures LayerCoherent(p, seeds, idx + 1, layer, after)
  {
    hide RootOf, AuthPath, TreeIdx, LeafIdx;
  }

  /** What coherence says about the fields of a layer. */
  lemma CoherentFields(p: Params, seeds: Seeds, idx: nat, layer: nat, lv: LayerView)
    requires p.WotsValid() && LayerCoherent(p, seeds, idx, layer, lv)
    ensures lv.treeIdx == TreeIdx(p, idx, layer) && lv.leafIdx == LeafIdx(p, idx, layer)
    ensures lv.authPath == AuthPath(p, SubtreeOf(seeds, layer, lv.treeIdx), lv.leafIdx)
    ensures lv.root == RootOf(p, TreeAt(p, seeds, idx, layer))
  {
    hide RootOf, AuthPath, TreeIdx, LeafIdx;
  }

  /** The state a layer needs for `idx`: the cached one if it stands there, otherwise a new one. */
  method EnsureLayer(p: Params, cached: LayerState?, layer: nat, idx: nat, seeds: Seeds)
    returns (r: Result<LayerState>)
    requires p.Valid() && layer < 0x1_0000_0000
    requires cached != null ==> LayerCoherent(p, seeds, idx, layer, cached.View())
    ensures r.Success? ==> (r.value == cached || fresh(r.value)) && LayerCoherent(p, seeds, idx, layer, r.value.View())
    ensures if cached != null then r == Success(cached)
            else r.Success? ==> r.value.View() == BuiltLayer(p, seeds, idx, layer)
    ensures r.Failure? ==> p.digest.faults && r.error == Error.Hash
  {
    hide Params.SigBytes, Params.FullHeight;
    hide BuiltLayer, LayerCoherent, RootOf, AuthPath, TreeIdx, LeafIdx, Pow2;
    var treeIdx, leafIdx := TreeIdx(p, idx, layer), LeafIdx(p, idx, layer);
    PositionBounds(p, idx, layer);
    if cached != null {
      CoherentFields(p, seeds, idx, layer, cached.View());
    }
    if cached != null && cached.treeIdx == treeIdx && cached.leafIdx == leafIdx {
      return Success(cached);
    }
    r := BuildLayerState(p, layer, treeIdx, leafIdx, seeds);
    if r.Success? {
      BuiltIsCoherent(p, seeds, idx, layer, r.value.View());
    }
  }

  lemma AllBuilt(p: Params, seeds: Seeds, idx: nat, cache: CacheView)
    requires p.WotsValid() && cache.nextIdx == Some(idx) && |cache.layers| == p.d
    requires forall k :: 0 <= k < p.d ==> cache.layers[k] == Some(BuiltLayer(p, seeds, idx, k))
    ensures cache == Rebuilt(p, seeds, idx)
  {
    hide BuiltLayer;
  }

  class TraversalState {
    var nextIdx: Option<nat>
    var layers: seq<LayerState?>

    /** No two layers share a state. */
    ghost predicate Valid()
      reads this
    {
      forall i, j :: 0 <= i < j < |layers| && layers[i] != null ==> layers[i] != layers[j]
    }

    ghost function LayerViews(): (vs: seq<Option<LayerView>>)
      reads this, layers
      ensures |vs| == |layers|
      ensures forall i :: 0 <= i < |layers| ==> vs[i] == if layers[i] == null then None else Some(layers[i].View())
    {
      seq(|layers|, i requires 0 <= i < |layers| reads this, layers =>
        if layers[i] == null then None else Some(layers[i].View()))
    }

    ghost function View(): CacheView
      reads this, layers
    {
      CacheView(nextIdx, LayerViews())
    }

    constructor ()
      ensures Valid() && View() == EMPTY_CACHE && layers == []
    {
      nextIdx, layers := None, [];
    }

    /** The state right after the top tree was built for key generation. */
    constructor FromTopTree(p: Params, root: Node, authPath: seq<Node>)
      requires p.d >= 1
      ensures Valid() && nextIdx == Some(0) && |layers| == p.d
      ensures forall i :: 0 <= i < p.d - 1 ==> layers[i] == null
      ensures layers[p.d - 1] != null && forall l :: l in layers && l != null ==> fresh(l)
      ensures layers[p.d - 1].View() == LayerView(0, 0, root, authPath, None)
    {
      var top := new LayerState(0, 0, root, authPath);
      nextIdx := Some(0);
      layers := seq(p.d - 1, _ => null) + [top];
    }

    method Clear()
      modifies this
      ensures Valid() && View() == EMPTY_CACHE && layers == []
    {
      layers := [];
      nextIdx := None;
    }

    /** Every state in `layers` was there before or is new. */
    twostate predicate Owned()
      reads this
    {
      forall k :: 0 <= k < |layers| && layers[k] != null ==> layers[k] in old(layers) || fresh(layers[k])
    }

    /** Makes the cache ready for `idx`, rebuilding whatever does not match it. */
    method Ensure(p: Params, idx: nat, seeds: Seeds) returns (r: Result<()>)
      requires p.Valid() && idx <= p.MaxIdx()
      requires Valid() && Agrees(p, seeds, idx, View())
      modifies this
      ensures Valid() && Owned()
      ensures r.Success? ==> Ready(p, seeds, idx, View())
      ensures r.Success? && old(nextIdx) != Some(idx) ==> View() == Rebuilt(p, seeds, idx)
      ensures old(Ready(p, seeds, idx, View())) ==> r.Success? && layers == old(layers)
      ensures r.Failure? ==>
        p.digest.faults && r.error == Error.Hash && Agrees(p, seeds, idx, View())
            && (nextIdx == None || nextIdx == Some(idx))
    {
      hide Params.SigBytes, Params.FullHeight;
      hide BuiltLayer, LayerCoherent, Pow2, Rebuilt;
      ghost var rebuild, was := nextIdx != Some(idx), layers;
      if nextIdx != Some(idx) || |layers| != p.d {
        Clear();
        layers := seq(p.d, _ => null);
      }
      LayersFit(p);
      for layer := 0 to p.d
        invariant |layers| == p.d && Valid() && Owned()
        invariant nextIdx == if rebuild then None else Some(idx)
        invariant forall k :: 0 <= k < layer ==> layers[k] != null
        invariant forall k :: 0 <= k < p.d && layers[k] != null ==> LayerCoherent(p, seeds, idx, k, layers[k].View())
        invariant rebuild ==> forall k :: 0 <= k < layer ==> layers[k].View() == BuiltLayer(p, seeds, idx, k)
        invariant rebuild ==> forall k :: layer <= k < p.d ==> layers[k] == null
        invariant !rebuild ==> |was| == p.d && forall k :: 0 <= k < p.d && was[k] != null ==> layers[k] == was[k]
        modifies this
      {
        var state := EnsureLayer(p, layers[layer], layer, idx, seeds);
        if state.Failure? {
          return Failure(state.error);
        }
        layers := layers[layer := state.value];
      }
      nextIdx := Some(idx);
      if rebuild {
        AllBuilt(p, seeds, idx, View());
      }
      r := Success(());
    }

    /** Moves layer `layer` from `idx` to `idx + 1`. */
    method AdvanceAt(p: Params, layer: nat, idx: nat, seeds: Seeds) returns (r: Result<()>)
      requires p.Valid() && Valid() && layer < |layers| == p.d
      requires layers[layer] != null ==> LayerCoherent(p, seeds, idx, layer, layers[layer].View())
      modifies this, layers
      ensures Valid() && Owned() && |layers| == p.d && nextIdx == old(nextIdx)
      ensures r.Success? ==>
        && layers[layer] != null && LayerCoherent(p, seeds, idx + 1, layer, layers[layer].View())
        && LayerViews() == old(LayerViews())[layer := Some(layers[layer].View())]
        && (Stays(p, idx, layer) ==> LayerViews() == old(LayerViews()))
      ensures r.Failure? && r.error == Error.TraversalState ==> old(layers[layer]) == null
      ensures r.Failure? && r.error != Error.TraversalState ==> p.digest.faults && r.error == Error.Hash
    {
      hide Params.SigBytes, Params.FullHeight;
      hide LayerCoherent, Pow2, Stays;
      LayersFit(p);
      ghost var views := LayerViews();
      var state := layers[layer];
      if state == null {
        return Failure(Error.TraversalState);
      }
      var moved := AdvanceLayer(p, state, layer, idx, seeds);
      if moved.Failure? {
        return Failure(moved.error);
      }
      layers := layers[layer := moved.value];
      assert LayerViews() == views[layer := Some(layers[layer].View())];
      r := Success(());
    }

    /** Moves every layer from `idx` to `idx + 1`; `nextIdx` moves last. */
    method Advance(p: Params, idx: nat, seeds: Seeds) returns (r: Result<()>)
      requires p.Valid() && idx < p.MaxIdx()
      requires Valid() && nextIdx == Some(idx) && Coherent(p, seeds, idx, LayerViews())
      modifies this, layers
      ensures Valid() && Owned()
      ensures r.Success? ==> Ready(p, seeds, idx + 1, View())
      ensures r.Success? ==>
        forall k :: 0 <= k < p.d && Stays(p, idx, k) ==> LayerViews()[k] == old(LayerViews())[k]
      ensures r.Failure? ==> nextIdx == Some(idx)
      ensures r.Failure? && r.error == Error.TraversalState ==> old(exists k :: 0 <= k < p.d && layers[k] == null)
      ensures r.Failure? && r.error != Error.TraversalState ==> p.digest.faults && r.error == Error.Hash
    {
      hide Params.SigBytes, Params.FullHeight;
      hide LayerCoherent, Pow2, Stays;
      var next := idx + 1;
      ghost var views := LayerViews();
      for layer := 0 to p.d
        invariant |layers| == p.d && Valid() && Owned() && nextIdx == Some(idx)
        invariant forall k :: layer <= k < p.d ==> LayerViews()[k] == views[k]
        invariant forall k :: 0 <= k < layer ==>
          && LayerViews()[k].Some? && LayerCoherent(p, seeds, next, k, LayerViews()[k].value)
          && (Stays(p, idx, k) ==> LayerViews()[k] == views[k])
      {
        assert LayerViews()[layer] == views[layer];
        var moved := AdvanceAt(p, layer, idx, seeds);
        if moved.Failure? {
          return moved;
        }
      }
      nextIdx := Some(next);
      r := Success(());
    }
  }

  lemma BuiltIsCoherent(p: Params, seeds: Seeds, idx: nat, layer: nat, lv: LayerView)
    requires p.WotsValid()
    requires lv == LayerView(TreeIdx(p, idx, layer), LeafIdx(p, idx, layer), RootOf(p, TreeAt(p, seeds, idx, layer)),
                             AuthPath(p, TreeAt(p, seeds, idx, layer), LeafIdx(p, idx, layer)), None)
    ensures lv == BuiltLayer(p, seeds, idx, layer) && LayerCoherent(p, seeds, idx, layer, lv)
  {
    hide RootOf, AuthPath, TreeIdx, LeafIdx;
  }
}
