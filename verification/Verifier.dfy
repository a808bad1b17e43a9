/** Verification (src/xmss_commons.rs:136-241). */
module Verifier {
  import opened Results
  import opened Bits
  import opened Bytes
  import opened Parameters
  import opened Address
  import opened Hashing
  import opened Wots
  import opened LTree
  import opened RootClimbing
  import opened Positions
  import opened CacheSpec
  import opened SignatureSpec
  import opened Binding

  /** The words that name the subtree, as the three setters write them. */
  lemma WordsSet(p: Params, idx: nat, i: Word, ots: seq<Word>, ltree: seq<Word>, node: seq<Word>)
    requires p.treeHeight < 32 && |ots| == |ltree| == |node| == 8
    requires ots[3] == TYPE_OTS && ltree[3] == TYPE_LTREE && node[3] == TYPE_HASHTREE
    requires ots[..3] == ltree[..3] == node[..3] == SubtreeWords(i, TreeIdx(p, idx, i))
    requires ots[4] == ltree[4] == LeafIdx(p, idx, i) && node[4] == 0
    ensures ots[..5] == OtsWords(p, idx, i) && ltree[..5] == LeafWords(p, idx, i) && node[..5] == TreeWords(p, idx, i)
  {
    hide TreeIdx, LeafIdx, SubtreeWords;
    Low32Id(LeafIdx(p, idx, i));
    assert ots[..5] == ots[..3] + [ots[3], ots[4]];
    assert ltree[..5] == ltree[..3] + [ltree[3], ltree[4]];
    assert node[..5] == node[..3] + [node[3], node[4]];
  }

  /** Sets the layer and tree words of an address. */
  method SetSubtree(p: Params, addr: array<Word>, i: Word, treeIdx: nat)
    requires addr.Length == 8
    modifies addr
    ensures addr[..3] == SubtreeWords(i, treeIdx) && addr[3..5] == old(addr[3..5])
    ensures addr[3] == old(addr[3]) && addr[4] == old(addr[4])
  {
    Low32Id(i);
    SetLayerAddr(addr, i);
    SetTreeAddr(addr, treeIdx);
  }

  /** Recomputes the root of layer `i` from its part of the signature. */
  method VerifyLayer(p: Params, i: Word, idx: nat, rest: seq<Byte>, msg: Node, pubSeed: Node,
                     otsAddr: array<Word>, ltreeAddr: array<Word>, nodeAddr: array<Word>, wotsPk: array<Node>)
    returns (root: Result<Node>)
    requires p.Valid() && |msg| == p.n && p.LayerBytes() <= |rest| && wotsPk.Length == p.WotsLen()
    requires otsAddr.Length == 8 && ltreeAddr.Length == 8 && nodeAddr.Length == 8
    requires otsAddr != ltreeAddr && otsAddr != nodeAddr && ltreeAddr != nodeAddr
    requires otsAddr[3] == TYPE_OTS && ltreeAddr[3] == TYPE_LTREE && nodeAddr[3] == TYPE_HASHTREE && nodeAddr[4] == 0
    modifies otsAddr, ltreeAddr, nodeAddr, wotsPk
    ensures otsAddr[3] == TYPE_OTS && ltreeAddr[3] == TYPE_LTREE && nodeAddr[3] == TYPE_HASHTREE && nodeAddr[4] == 0
    ensures root.Success? ==> root.value == RecoveredRoot(p, pubSeed, idx, i, rest, msg)
    ensures root.Failure? ==> p.digest.faults && root.error == Error.Hash
  {
    hide Params.SigBytes, Params.WotsSigBytes, Params.FullHeight;
    hide TreeIdx, LeafIdx, SubtreeWords, OtsWords, LeafWords, TreeWords, EndNodes, Compress, Climb, Chunks, Pow2;
    PartFits(p, |rest|);
    var idxLeaf, treeIdx := LeafIdx(p, idx, i), TreeIdx(p, idx, i);
    PositionBounds(p, idx, i);
    SetSubtree(p, otsAddr, i, treeIdx);
    SetSubtree(p, ltreeAddr, i, treeIdx);
    SetSubtree(p, nodeAddr, i, treeIdx);
    SetOtsAddr(otsAddr, idxLeaf);
    SetLtreeAddr(ltreeAddr, idxLeaf);
    WordsSet(p, idx, i, otsAddr[..], ltreeAddr[..], nodeAddr[..]);
    var _ :- WotsPkFromSig(p, wotsPk, rest, msg, pubSeed, otsAddr);
    var leaf :- CompressInPlace(p, wotsPk, pubSeed, ltreeAddr);
    root := ComputeRoot(p, leaf, idxLeaf, rest[p.WotsSigBytes()..], pubSeed, nodeAddr);
  }

  lemma NextRoot(p: Params, pubSeed: Node, idx: nat, i: nat, rest: seq<Byte>, msg: Node)
    requires p.WotsValid() && |msg| == p.n && i < p.d && |rest| == Remaining(p, i)
    ensures p.LayerBytes() + Remaining(p, i + 1) == |rest|
    ensures RecoverFrom(p, pubSeed, idx, i, rest, msg)
         == RecoverFrom(p, pubSeed, idx, i + 1, rest[p.LayerBytes()..], RecoveredRoot(p, pubSeed, idx, i, rest, msg))
  {
    hide RecoveredRoot;
  }

  lemma LastRoot(p: Params, pubSeed: Node, idx: nat, msg: Node)
    requires p.WotsValid() && |msg| == p.n
    ensures Remaining(p, p.d) == 0 && RecoverFrom(p, pubSeed, idx, p.d, [], msg) == msg
  {
  }

  /** Recomputes the public root through all layers. */
  method VerifyLayers(p: Params, signature: seq<Byte>, idx: nat, digest: Node, pubSeed: Node)
    returns (r: Result<Node>)
    requires p.Valid() && |digest| == p.n
    requires p.indexBytes + p.n <= |signature| && |signature| == p.SigBytes()
    requires |signature[p.indexBytes + p.n..]| == Remaining(p, 0)
    ensures r.Success? ==> r.value == RecoverFrom(p, pubSeed, idx, 0, signature[p.indexBytes + p.n..], digest)
    ensures r.Failure? ==> p.digest.faults && r.error == Error.Hash
  {
    hide Params.SigBytes, Params.WotsSigBytes, Params.FullHeight;
    hide RecoverFrom, RecoveredRoot, Remaining;
    LayersFit(p);
    var wotsPk := new Node[p.WotsLen()](_ => []);
    var otsAddr := new Word[] [0, 0, 0, 0, 0, 0, 0, 0];
    var ltreeAddr := new Word[] [0, 0, 0, 0, 0, 0, 0, 0];
    var nodeAddr := new Word[] [0, 0, 0, 0, 0, 0, 0, 0];
    SetType(otsAddr, TYPE_OTS);
    SetType(ltreeAddr, TYPE_LTREE);
    SetType(nodeAddr, TYPE_HASHTREE);
    var root := digest;
    var smOffset: nat := p.indexBytes + p.n;
    ghost var all := RecoverFrom(p, pubSeed, idx, 0, signature[smOffset..], digest);
    for i := 0 to p.d
      invariant otsAddr[3] == TYPE_OTS && ltreeAddr[3] == TYPE_LTREE && nodeAddr[3] == TYPE_HASHTREE
          && nodeAddr[4] == 0
      invariant |root| == p.n && smOffset + Remaining(p, i) == |signature|
      invariant RecoverFrom(p, pubSeed, idx, i, signature[smOffset..], root) == all
    {
      NextRoot(p, pubSeed, idx, i, signature[smOffset..], root);
      root :- VerifyLayer(p, i, idx, signature[smOffset..], root, pubSeed, otsAddr, ltreeAddr, nodeAddr, wotsPk);
      assert signature[smOffset..][p.LayerBytes()..] == signature[smOffset + p.LayerBytes()..];
      smOffset := smOffset + p.LayerBytes();
    }
    LastRoot(p, pubSeed, idx, root);
    assert signature[smOffset..] == [];
    r := Success(root);
  }

  /** Verifies a detached signature. */
  method VerifyDetached(p: Params, signature: seq<Byte>, message: seq<Byte>, pk: seq<Byte>) returns (r: Result<()>)
    requires p.Valid()
    ensures r.Success? ==> Accepts(p, pk, signature, message) && Authentic(p, pk, signature, message)
    ensures r.Failure? ==>
      if r.error == Error.VerificationFailed then !Accepts(p, pk, signature, message)
      else p.digest.faults && r.error == Error.Hash
  {
    hide RecoverFrom, FromBytes, MessageHash, Remaining, Authentic;
    SigBytesAre(p);
    if |pk| < 2 * p.n || |signature| != p.SigBytes() {
      return Failure(Error.VerificationFailed);
    }
    var pubRoot, pubSeed := pk[..p.n], pk[p.n..2 * p.n];
    var idxBytes := signature[..p.indexBytes];
    var idx := BytesToUll(idxBytes);
    var digest :- HashMessage(p, signature[p.indexBytes..p.indexBytes + p.n], pubRoot, idx, message);
    var root :- VerifyLayers(p, signature, idx, digest, pubSeed);
    if root != pubRoot {
      return Failure(Error.VerificationFailed);
    }
    AcceptedIsAuthentic(p, pk, signature, message);
    r := Success(());
  }

  /** Verifies a signature with its message appended, and returns the message through `m`. */
  method SignOpen(p: Params, m: seq<Byte>, sm: seq<Byte>, pk: seq<Byte>) returns (m': seq<Byte>, r: Result<()>)
    requires p.Valid()
    ensures |sm| < p.SigBytes() ==> r == Failure(VerificationFailed) && m' == m
    ensures |sm| >= p.SigBytes() ==>
      && (r.Success? ==>
            && m' == sm[p.SigBytes()..]
            && Accepts(p, pk, sm[..p.SigBytes()], m') && Authentic(p, pk, sm[..p.SigBytes()], m'))
      && (r.Failure? && r.error == Error.VerificationFailed ==>
            m' == [] && !Accepts(p, pk, sm[..p.SigBytes()], sm[p.SigBytes()..]))
      && (r.Failure? && r.error != Error.VerificationFailed ==> m' == [] && p.digest.faults && r.error == Error.Hash)
  {
    hide Accepts, Authentic;
    m' := m;
    if |sm| < p.SigBytes() {
      return m', Failure(Error.VerificationFailed);
    }
    var signature, message := sm[..p.SigBytes()], sm[p.SigBytes()..];
    m' := [];
    r := VerifyDetached(p, signature, message, pk);
    if r.Success? {
      m' := message;
    }
  }
}
