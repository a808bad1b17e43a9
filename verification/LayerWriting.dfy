/** Writing the layers of a signature from the traversal cache (src/xmss_core.rs:656-698). */
module LayerWriting {
  import opened Results
  import opened Bits
  import opened Bytes
  import opened Parameters
  import opened Address
  import opened ChainLengths
  import opened Wots
  import opened Positions
  import opened CacheSpec
  import opened Traversal
  import opened SignatureSpec
  import opened CachedSignature

  /** The WOTS+ signature of one layer: fresh for layer 0, otherwise reused or made and stored. */
  method LayerWots(p: Params, state: LayerState, i: nat, idx: nat, msg: Node, seeds: Seeds, otsAddr: array<Word>)
    returns (r: Result<seq<Byte>>, ghost calls: set<WotsCall>)
    requires p.Valid() && |msg| == p.n && otsAddr.Length == 8 && otsAddr[..5] == OtsWords(p, idx, i)
    requires Fits(p, state.View())
    modifies otsAddr, state
    ensures otsAddr[..5] == old(otsAddr[..5])
    ensures calls == if i > 0 && old(state.View()).cachedWots.Some? then {}
                     else {WotsCall(seeds, OtsWords(p, idx, i), msg)}
    ensures r.Success? ==>
      && r.value == CachedWots(p, seeds, idx, i, msg, old(state.View()))
      && state.View() == Stored(p, seeds, idx, i, msg, old(state.View()))
    ensures i > 0 && old(state.cachedWots).Some? ==> r == Success(old(state.cachedWots).value)
    ensures r.Success? ==> state.cachedWots == if i > 0 then Some(r.value) else old(state.cachedWots)
    ensures r.Failure? ==> p.digest.faults && r.error == Error.Hash && state.View() == old(state.View())
  {
    hide SigNodes, Lengths, Flatten, OtsWords;
    calls := {};
    if i > 0 && state.cachedWots.Some? {
      r := Success(state.cachedWots.value);
      return;
    }
    calls := {WotsCall(seeds, OtsWords(p, idx, i), msg)};
    var sig := new Node[p.WotsLen()](_ => []);
    var signed := WotsSign(p, sig, msg, seeds.sk, seeds.pub, otsAddr);
    if signed.Failure? {
      r := Failure(signed.error);
      return;
    }
    var signature := Flatten(sig[..]);
    if i > 0 {
      state.cachedWots := Some(signature);
    }
    r := Success(signature);
  }

  /** The address words set for a layer. */
  lemma OtsWordsAsSet(p: Params, idx: nat, i: Word, addr: seq<Word>)
    requires p.treeHeight < 32 && |addr| == 8 && addr[3] == TYPE_OTS
    requires addr[0] == i
    requires addr[1] == Low32(TreeIdx(p, idx, i) / 0x1_0000_0000) && addr[2] == Low32(TreeIdx(p, idx, i))
    requires addr[4] == LeafIdx(p, idx, i)
    ensures addr[..5] == OtsWords(p, idx, i)
  {
    hide TreeIdx, LeafIdx;
  }

  /** Sets the words that name the one-time key of `idx` at layer `i`. */
  method SetOtsPosition(p: Params, otsAddr: array<Word>, i: nat, idx: nat)
    requires p.Valid() && i < p.d && otsAddr.Length == 8 && otsAddr[3] == TYPE_OTS
    modifies otsAddr
    ensures otsAddr[..5] == OtsWords(p, idx, i)
  {
    hide Params.SigBytes, Params.WotsSigBytes, Params.FullHeight;
    hide TreeIdx, LeafIdx, Low32, OtsWords, Pow2;
    LayersFit(p);
    var treeIdx, idxLeaf := TreeIdx(p, idx, i), LeafIdx(p, idx, i);
    PositionBounds(p, idx, i);
    SetLayerAddr(otsAddr, i);
    SetTreeAddr(otsAddr, treeIdx);
    SetOtsAddr(otsAddr, idxLeaf);
    OtsWordsAsSet(p, idx, i, otsAddr[..]);
  }

  /** Writes one layer, a WOTS+ signature and an authentication path, at `smOffset`. */
  method WriteLayer(p: Params, sm: array<Byte>, smOffset: nat, state: LayerState, i: nat, idx: nat, msg: Node,
      seeds: Seeds, otsAddr: array<Word>)
    returns (r: Result<()>, ghost calls: set<WotsCall>)
    requires p.Valid() && i < p.d && |msg| == p.n && smOffset + p.LayerBytes() <= sm.Length
    requires otsAddr.Length == 8 && otsAddr[3] == TYPE_OTS && Fits(p, state.View())
    modifies sm, otsAddr, state
    ensures otsAddr[3] == TYPE_OTS
    ensures calls <= {WotsCall(seeds, OtsWords(p, idx, i), msg)} && (i == 0 ==> calls != {})
    ensures r.Success? ==>
      && sm[..][..smOffset + p.LayerBytes()]
         == old(sm[..])[..smOffset] + CachedPart(p, seeds, idx, i, msg, old(state.View()))
      && state.View() == Stored(p, seeds, idx, i, msg, old(state.View()))
    ensures r.Failure? ==> p.digest.faults && r.error == Error.Hash && state.View() == old(state.View())
  {
    hide Params.SigBytes, Params.WotsSigBytes, Params.FullHeight;
    hide Overwrite, OtsWords, CachedWots, Flatten;
    SetOtsPosition(p, otsAddr, i, idx);
    ghost var was, lv := sm[..], state.View();
    var wots;
    wots, calls := LayerWots(p, state, i, idx, msg, seeds, otsAddr);
    assert otsAddr[3] == otsAddr[..5][3];
    TypeWord(p, idx, i);
    if wots.Failure? {
      r := Failure(wots.error);
      return;
    }
    FlattenLength(lv.authPath, p.n);
    CopyFromSlice(sm, smOffset, wots.value);
    CopyFromSlice(sm, smOffset + p.WotsSigBytes(), Flatten(state.authPath));
    AppendTwo(was, smOffset, wots.value, Flatten(state.authPath));
    r := Success(());
  }

  lemma TypeWord(p: Params, idx: nat, i: nat)
    ensures OtsWords(p, idx, i)[3] == TYPE_OTS
  {
  }

  /** Writes layer `i` from the cache and returns the root the layer above signs. */
  method WriteCached(p: Params, sm: array<Byte>, smOffset: nat, traversal: TraversalState, i: nat, idx: nat,
      msg: Node, seeds: Seeds, otsAddr: array<Word>)
    returns (r: Result<Node>, ghost calls: set<WotsCall>)
    requires p.Valid() && i < p.d && |msg| == p.n && smOffset + p.LayerBytes() <= sm.Length
    requires traversal.Valid() && |traversal.layers| == p.d
    requires traversal.layers[i] != null ==> Fits(p, traversal.layers[i].View())
    requires otsAddr.Length == 8 && otsAddr[3] == TYPE_OTS
    modifies sm, otsAddr, traversal.layers
    ensures otsAddr[3] == TYPE_OTS
    ensures calls <= {WotsCall(seeds, OtsWords(p, idx, i), msg)} && (r.Success? && i == 0 ==> calls != {})
    ensures r.Success? ==>
      && traversal.layers[i] != null && r.value == old(traversal.layers[i].root)
      && traversal.LayerViews() == old(traversal.LayerViews())
           [i := Some(Stored(p, seeds, idx, i, msg, old(traversal.layers[i].View())))]
      && sm[..][..smOffset + p.LayerBytes()]
         == old(sm[..])[..smOffset] + CachedPart(p, seeds, idx, i, msg, old(traversal.layers[i].View()))
    ensures r.Failure? ==> traversal.LayerViews() == old(traversal.LayerViews())
    ensures r.Failure? ==>
      if r.error == Error.TraversalState then traversal.layers[i] == null
      else p.digest.faults && r.error == Error.Hash
  {
    hide Params.SigBytes, Params.LayerBytes, Params.FullHeight, Fits, CachedPart, OtsWords;
    calls := {};
    var layerState := traversal.layers[i];
    if layerState == null {
      r := Failure(Error.TraversalState);
      return;
    }
    ghost var views := traversal.LayerViews();
    var written;
    written, calls := WriteLayer(p, sm, smOffset, layerState, i, idx, msg, seeds, otsAddr);
    assert traversal.LayerViews() == views[i := Some(layerState.View())];
    r := if written.Failure? then Failure(written.error) else Success(layerState.root);
  }

  /** The whole signature a cache leads to behind `head`, if no layer is missing. */
  ghost function Whole(p: Params, seeds: Seeds, idx: nat, digest: Node, layers: seq<Option<LayerView>>,
      head: seq<Byte>): seq<Byte>
    requires p.WotsValid() && |digest| == p.n && AllFit(p, layers)
  {
    if Complete(layers) then head + CachedFrom(p, seeds, idx, 0, digest, layers) else []
  }

  /** The bytes `done` so far, followed by the layers still to come, are the whole signature. */
  ghost predicate Leads(p: Params, seeds: Seeds, idx: nat, i: nat, root: Node, layers: seq<Option<LayerView>>,
      done: seq<Byte>, whole: seq<Byte>)
    requires p.WotsValid() && |root| == p.n && AllFit(p, layers) && i <= p.d
  {
    Complete(layers) ==> done + CachedFrom(p, seeds, idx, i, root, layers) == whole
  }

  /** The state of the loop over the layers, `before` being the cache it started with and `now` the current one. */
  ghost predicate Progress(p: Params, seeds: Seeds, idx: nat, digest: Node, i: nat, before: seq<Option<LayerView>>,
      now: seq<Option<LayerView>>, root: Node, done: seq<Byte>, whole: seq<Byte>, calls: set<WotsCall>)
    requires p.WotsValid() && |digest| == p.n && AllFit(p, before) && i <= p.d
  {
    && |now| == p.d
    && (forall k :: 0 <= k < i ==> before[k].Some? && Touched(p, seeds, idx, digest, k, before, now[k]))
    && (forall k :: i <= k < p.d ==> now[k] == before[k])
    && root == CachedMessage(p, before, digest, i)
    && Leads(p, seeds, idx, i, root, before, done, whole)
    && (forall c :: c in calls ==> IsCachedCall(p, seeds, idx, digest, before, c))
    && (i > 0 ==> WotsCall(seeds, OtsWords(p, idx, 0), digest) in calls)
  }

  lemma ProgressFirst(p: Params, seeds: Seeds, idx: nat, digest: Node, layers: seq<Option<LayerView>>, head: seq<Byte>)
    requires p.WotsValid() && |digest| == p.n && AllFit(p, layers)
    ensures Progress(p, seeds, idx, digest, 0, layers, layers, digest, head,
                     Whole(p, seeds, idx, digest, layers, head), {})
  {
    hide Fits, CachedFrom;
  }

  /** Layer `i` is still as it was when its turn comes. */
  lemma ProgressHere(p: Params, seeds: Seeds, idx: nat, digest: Node, i: nat, before: seq<Option<LayerView>>,
      now: seq<Option<LayerView>>, root: Node, done: seq<Byte>, whole: seq<Byte>, calls: set<WotsCall>)
    requires p.WotsValid() && |digest| == p.n && AllFit(p, before) && i < p.d
    requires Progress(p, seeds, idx, digest, i, before, now, root, done, whole, calls)
    ensures |now| == p.d && now[i] == before[i] && |root| == p.n && (now[i].Some? ==> Fits(p, now[i].value))
    ensures IsCachedCall(p, seeds, idx, digest, before, WotsCall(seeds, OtsWords(p, idx, i), root))
  {
    hide Fits, CachedFrom, OtsWords;
  }

  lemma ProgressOn(p: Params, seeds: Seeds, idx: nat, digest: Node, i: nat, before: seq<Option<LayerView>>,
      now: seq<Option<LayerView>>, root: Node, done: seq<Byte>, whole: seq<Byte>, calls: set<WotsCall>,
      made: set<WotsCall>)
    requires p.WotsValid() && |digest| == p.n && |root| == p.n && AllFit(p, before) && i < p.d && before[i].Some?
    requires Progress(p, seeds, idx, digest, i, before, now, root, done, whole, calls)
    requires made <= {WotsCall(seeds, OtsWords(p, idx, i), root)} && (i == 0 ==> made != {})
    ensures Progress(p, seeds, idx, digest, i + 1, before,
                     now[i := Some(Stored(p, seeds, idx, i, root, before[i].value))], before[i].value.root,
                     done + CachedPart(p, seeds, idx, i, root, before[i].value), whole, calls + made)
  {
    hide Fits, CachedFrom, CachedPart, OtsWords, Stored, IsCachedCall;
    ProgressHere(p, seeds, idx, digest, i, before, now, root, done, whole, calls);
    if Complete(before) {
      NextLayer(p, seeds, idx, i, root, before);
      Assoc(done, CachedPart(p, seeds, idx, i, root, before[i].value),
        CachedFrom(p, seeds, idx, i + 1, before[i].value.root, before));
    }
  }

  lemma NextLayer(p: Params, seeds: Seeds, idx: nat, i: nat, msg: Node, layers: seq<Option<LayerView>>)
    requires p.WotsValid() && |msg| == p.n && i < p.d && AllFit(p, layers) && Complete(layers)
    ensures Fits(p, layers[i].value) && |layers[i].value.root| == p.n
    ensures CachedFrom(p, seeds, idx, i, msg, layers)
         == CachedPart(p, seeds, idx, i, msg, layers[i].value)
            + CachedFrom(p, seeds, idx, i + 1, layers[i].value.root, layers)
  {
    hide CachedPart;
  }

  lemma Assoc(a: seq<Byte>, b: seq<Byte>, c: seq<Byte>)
    ensures a + (b + c) == a + b + c
  {
  }

  /** What holds whenever the loop stops, and when it has reached the end. */
  lemma ProgressMeans(p: Params, seeds: Seeds, idx: nat, digest: Node, i: nat, before: seq<Option<LayerView>>,
      now: seq<Option<LayerView>>, root: Node, done: seq<Byte>, whole: seq<Byte>, calls: set<WotsCall>)
    requires p.WotsValid() && |digest| == p.n && AllFit(p, before) && i <= p.d && p.d >= 1
    requires Progress(p, seeds, idx, digest, i, before, now, root, done, whole, calls)
    ensures |now| == p.d && forall k :: 0 <= k < p.d ==> Touched(p, seeds, idx, digest, k, before, now[k])
    ensures forall c :: c in calls ==> IsCachedCall(p, seeds, idx, digest, before, c)
    ensures i == p.d ==>
      Complete(before) && done == whole && WotsCall(seeds, OtsWords(p, idx, 0), digest) in calls
  {
    hide Fits, OtsWords, Stored, IsCachedCall;
    assert done + [] == done;
  }

  lemma NextRemaining(p: Params, i: nat)
    requires i <= p.d
    ensures if i < p.d then Remaining(p, i) == p.LayerBytes() + Remaining(p, i + 1) else Remaining(p, i) == 0
  {
  }

  /** Writes every layer of the signature behind the index and R, from the cache as it stands. */
  method WriteLayers(p: Params, sm: array<Byte>, traversal: TraversalState, idx: nat, digest: Node, seeds: Seeds)
    returns (r: Result<()>, ghost calls: set<WotsCall>)
    requires p.Valid() && |digest| == p.n && p.indexBytes + p.n <= sm.Length == p.SigBytes()
    requires traversal.Valid() && AllFit(p, traversal.LayerViews())
    modifies sm, traversal.layers
    ensures |traversal.LayerViews()| == p.d
    ensures forall k :: 0 <= k < p.d ==>
        Touched(p, seeds, idx, digest, k, old(traversal.LayerViews()), traversal.LayerViews()[k])
    ensures forall c :: c in calls ==> IsCachedCall(p, seeds, idx, digest, old(traversal.LayerViews()), c)
    ensures r.Success? ==>
      && Complete(old(traversal.LayerViews())) && WotsCall(seeds, OtsWords(p, idx, 0), digest) in calls
      && sm[..] == old(sm[..])[..p.indexBytes + p.n]
                   + CachedFrom(p, seeds, idx, 0, digest, old(traversal.LayerViews()))
    ensures r.Failure? && r.error == Error.TraversalState ==> !Complete(old(traversal.LayerViews()))
    ensures r.Failure? && r.error != Error.TraversalState ==> p.digest.faults && r.error == Error.Hash
  {
    hide Fits, CachedFrom, CachedPart, Stored, Touched, Remaining, Progress, OtsWords, IsCachedCall, CachedMessage;
    hide Params.SigBytes, Params.LayerBytes, Params.FullHeight;
    SigBytesAre(p);
    ghost var layers, vs := traversal.layers, traversal.LayerViews();
    calls := {};
    var otsAddr := new Word[] [0, 0, 0, 0, 0, 0, 0, 0];
    SetType(otsAddr, TYPE_OTS);
    var root := digest;
    var smOffset: nat := p.indexBytes + p.n;
    ghost var whole := Whole(p, seeds, idx, digest, vs, sm[..][..smOffset]);
    ProgressFirst(p, seeds, idx, digest, vs, sm[..][..smOffset]);
    for i := 0 to p.d
      invariant traversal.layers == layers && otsAddr[3] == TYPE_OTS
      invariant smOffset + Remaining(p, i) == sm.Length
      invariant Progress(p, seeds, idx, digest, i, vs, traversal.LayerViews(), root, sm[..][..smOffset], whole, calls)
      modifies sm, otsAddr, layers
    {
      ghost var now, done := traversal.LayerViews(), sm[..][..smOffset];
      NextRemaining(p, i);
      ProgressHere(p, seeds, idx, digest, i, vs, now, root, done, whole, calls);
      var written, made := WriteCached(p, sm, smOffset, traversal, i, idx, root, seeds, otsAddr);
      if written.Failure? {
        ProgressMeans(p, seeds, idx, digest, i, vs, now, root, done, whole, calls);
        calls := calls + made;
        r := Failure(written.error);
        return;
      }
      ProgressOn(p, seeds, idx, digest, i, vs, now, root, done, whole, calls, made);
      calls := calls + made;
      root := written.value;
      smOffset := smOffset + p.LayerBytes();
    }
    NextRemaining(p, p.d);
    assert sm[..] == sm[..][..smOffset];
    ProgressMeans(p, seeds, idx, digest, p.d, vs, traversal.LayerViews(), root, sm[..], whole, calls);
    r := Success(());
  }
}
