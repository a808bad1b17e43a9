/**
 WOTS+ (src/wots.rs). A position `pos` is the first five words of an OTS address: layer, tree,
 type and leaf. Words 5 to 7 are rewritten before every use, so they never appear in a result.
*/
module Wots {
  import opened Results
  import opened Bytes
  import opened Parameters
  import opened Address
  import opened Hashing
  import opened ChainLengths

  // ---- specification ----

  /** The value `steps` after `x`, which stands at `start` of the chain named by `words` (words 0 to 5). */
  function Chain(p: Params, pubSeed: Node, words: seq<Word>, x: Node, start: nat, steps: nat): (r: Node)
    requires start + steps <= 0x1_0000_0000
    ensures |x| == p.n ==> |r| == p.n
  {
    if steps == 0 then x
    else ChainHash(p, pubSeed, words + [start + steps - 1], Chain(p, pubSeed, words, x, start, steps - 1))
  }

  /** How many steps the loop takes: it also stops at the end of the chain. */
  function StepsTaken(w: nat, start: nat, steps: nat): nat {
    if start >= w then 0 else if steps <= w - start then steps else w - start
  }

  /** The secret start of chain `i`. */
  function Secret(p: Params, skSeed: Node, pubSeed: Node, pos: seq<Word>, i: Word): (r: Node)
    ensures |r| == p.n
  {
    KeygenOf(p, skSeed, pubSeed, pos + [i, 0, 0])
  }

  /** A chain walked from its secret start to position `len`. */
  function SigNode(p: Params, skSeed: Node, pubSeed: Node, pos: seq<Word>, i: Word, len: nat): (r: Node)
    requires len <= 0x1_0000_0000
    ensures |r| == p.n
  {
    Chain(p, pubSeed, pos + [i], Secret(p, skSeed, pubSeed, pos, i), 0, len)
  }

  /** A chain walked from position `len`, where `x` stands, to its end. */
  function EndNode(p: Params, pubSeed: Node, pos: seq<Word>, i: Word, x: Node, len: nat): (r: Node)
    requires len < p.W()
    ensures |x| == p.n ==> |r| == p.n
  {
    Chain(p, pubSeed, pos + [i], x, len, p.W() - 1 - len)
  }

  function PkNodes(p: Params, skSeed: Node, pubSeed: Node, pos: seq<Word>): (pk: seq<Node>)
    requires p.WotsValid()
    ensures |pk| == p.WotsLen() && AllLen(pk, p.n)
  {
    seq(p.WotsLen(), i requires 0 <= i < p.WotsLen() => SigNode(p, skSeed, pubSeed, pos, i, p.W() - 1))
  }

  /** Chain lengths: one below w for every chain. */
  ghost predicate AreLengths(p: Params, lens: seq<nat>) {
    |lens| == p.WotsLen() && forall i :: 0 <= i < |lens| ==> lens[i] < p.W()
  }

  function SigNodes(p: Params, skSeed: Node, pubSeed: Node, pos: seq<Word>, lens: seq<nat>): (sig: seq<Node>)
    requires p.WotsValid() && AreLengths(p, lens)
    ensures |sig| == p.WotsLen() && AllLen(sig, p.n)
  {
    seq(p.WotsLen(), i requires 0 <= i < p.WotsLen() => SigNode(p, skSeed, pubSeed, pos, i, lens[i]))
  }

  /** The chain ends reached from the nodes of `sig`. */
  function EndNodes(p: Params, pubSeed: Node, pos: seq<Word>, sig: seq<Node>, lens: seq<nat>): (pk: seq<Node>)
    requires p.WotsValid() && AreLengths(p, lens) && |sig| == p.WotsLen()
    ensures |pk| == p.WotsLen()
    ensures AllLen(sig, p.n) ==> AllLen(pk, p.n)
  {
    seq(p.WotsLen(), i requires 0 <= i < p.WotsLen() => EndNode(p, pubSeed, pos, i, sig[i], lens[i]))
  }

  // ---- chains in terms of the digest functions alone ----

  /** Each of `nodes` is the chain digest of the one before it; the first stands at position `start`. */
  ghost predicate Walk(p: Params, pubSeed: Node, words: seq<Word>, start: nat, nodes: seq<Node>) {
    start + |nodes| <= 0x1_0000_0001 &&
    forall k :: 0 <= k < |nodes| - 1 ==> StepHashed(p, pubSeed, words + [start + k], nodes[k], nodes[k + 1])
  }

  lemma {:induction false} ChainIsWalked(p: Params, pubSeed: Node, words: seq<Word>, x: Node, start: nat, steps: nat)
    returns (nodes: seq<Node>)
    requires start + steps <= 0x1_0000_0000
    ensures |nodes| == steps + 1 && nodes[0] == x && nodes[steps] == Chain(p, pubSeed, words, x, start, steps)
    ensures Walk(p, pubSeed, words, start, nodes)
  {
    hide ChainHash, StepHashed;
    if steps == 0 {
      nodes := [x];
    } else {
      nodes := ChainIsWalked(p, pubSeed, words, x, start, steps - 1);
      ChainHashIs(p, pubSeed, words + [start + steps - 1], nodes[steps - 1]);
      nodes := nodes + [Chain(p, pubSeed, words, x, start, steps)];
    }
  }

  /** Node `i` of a signature is walked `lens[i]` steps from the keyed secret of chain `i`. */
  lemma SigIsWalked(p: Params, skSeed: Node, pubSeed: Node, pos: seq<Word>, lens: seq<nat>, i: nat)
    returns (nodes: seq<Node>)
    requires p.WotsValid() && AreLengths(p, lens) && i < p.WotsLen()
    ensures |nodes| == lens[i] + 1 && nodes[lens[i]] == SigNodes(p, skSeed, pubSeed, pos, lens)[i]
    ensures Cut(p.n, p.digest.keygen(skSeed, pubSeed, AddrBytes(pos + [i, 0, 0])), nodes[0])
    ensures Walk(p, pubSeed, pos + [i], 0, nodes)
  {
    hide Chain, Walk, AddrBytes;
    nodes := ChainIsWalked(p, pubSeed, pos + [i], Secret(p, skSeed, pubSeed, pos, i), 0, lens[i]);
  }

  /** Node `i` of a public key is walked to the end of the chain, from the same secret. */
  lemma PkIsWalked(p: Params, skSeed: Node, pubSeed: Node, pos: seq<Word>, i: nat) returns (nodes: seq<Node>)
    requires p.WotsValid() && i < p.WotsLen()
    ensures |nodes| == p.W() && nodes[p.W() - 1] == PkNodes(p, skSeed, pubSeed, pos)[i]
    ensures Cut(p.n, p.digest.keygen(skSeed, pubSeed, AddrBytes(pos + [i, 0, 0])), nodes[0])
    ensures Walk(p, pubSeed, pos + [i], 0, nodes)
  {
    hide Chain, Walk, AddrBytes;
    nodes := ChainIsWalked(p, pubSeed, pos + [i], Secret(p, skSeed, pubSeed, pos, i), 0, p.W() - 1);
  }

  /** End `i` is walked from node `i` of the signature, which stands at position `lens[i]`, to position w - 1. */
  lemma EndIsWalked(p: Params, pubSeed: Node, pos: seq<Word>, sig: seq<Node>, lens: seq<nat>, i: nat)
    returns (nodes: seq<Node>)
    requires p.WotsValid() && AreLengths(p, lens) && |sig| == p.WotsLen() && i < p.WotsLen()
    ensures |nodes| == p.W() - lens[i] && nodes[0] == sig[i]
    ensures nodes[|nodes| - 1] == EndNodes(p, pubSeed, pos, sig, lens)[i]
    ensures Walk(p, pubSeed, pos + [i], lens[i], nodes)
  {
    hide Chain, Walk;
    nodes := ChainIsWalked(p, pubSeed, pos + [i], sig[i], lens[i], p.W() - 1 - lens[i]);
  }

  // ---- public-key recovery ----

  /** Walking `a` steps and then `b` more is walking `a + b` steps. */
  lemma {:induction false} ChainCompose(p: Params, pubSeed: Node, words: seq<Word>, x: Node, start: nat,
      a: nat, b: nat)
    requires start + a + b <= 0x1_0000_0000
    ensures Chain(p, pubSeed, words, Chain(p, pubSeed, words, x, start, a), start + a, b)
         == Chain(p, pubSeed, words, x, start, a + b)
  {
    hide ChainHash;
    if b > 0 {
      ChainCompose(p, pubSeed, words, x, start, a, b - 1);
      assert start + a + b - 1 == start + (a + b) - 1;
    }
  }

  /** Completing every chain of a signature yields the public key, whatever lengths were signed. */
  lemma Recovery(p: Params, skSeed: Node, pubSeed: Node, pos: seq<Word>, lens: seq<nat>)
    requires p.WotsValid() && AreLengths(p, lens)
    ensures EndNodes(p, pubSeed, pos, SigNodes(p, skSeed, pubSeed, pos, lens), lens)
        == PkNodes(p, skSeed, pubSeed, pos)
  {
    hide Chain, KeygenOf;
    forall i | 0 <= i < p.WotsLen()
      ensures EndNode(p, pubSeed, pos, i, SigNode(p, skSeed, pubSeed, pos, i, lens[i]), lens[i])
           == SigNode(p, skSeed, pubSeed, pos, i, p.W() - 1)
    {
      ChainCompose(p, pubSeed, pos + [i], Secret(p, skSeed, pubSeed, pos, i), 0, lens[i], p.W() - 1 - lens[i]);
    }
  }

  // ---- the loops ----

  /** Fills `out` with the secret chain starts. */
  method ExpandSeed(p: Params, out: array<Node>, inseed: Node, pubSeed: Node, addr: array<Word>)
    returns (r: Result<()>)
    requires p.WotsValid() && out.Length == p.WotsLen() && addr.Length == 8
    modifies out, addr
    ensures addr[..5] == old(addr[..5])
    ensures r.Success? ==> forall i :: 0 <= i < out.Length ==>
        && out[i] == Secret(p, inseed, pubSeed, addr[..5], i)
        && Cut(p.n, p.digest.keygen(inseed, pubSeed, AddrBytes(addr[..5] + [i, 0, 0])), out[i])
    ensures r.Failure? ==> p.digest.faults && r.error == Error.Hash
  {
    hide KeygenOf, AddrBytes, Cut;
    ghost var pos := addr[..5];
    SetHashAddr(addr, 0);
    SetKeyAndMask(addr, 0);
    for i := 0 to p.WotsLen()
      invariant addr[..5] == pos && addr[6] == 0 && addr[7] == 0
      invariant forall k :: 0 <= k < i ==>
          && out[k] == Secret(p, inseed, pubSeed, pos, k)
          && Cut(p.n, p.digest.keygen(inseed, pubSeed, AddrBytes(pos + [k, 0, 0])), out[k])
    {
      SetChainAddr(addr, i);
      assert addr[..] == pos + [i, 0, 0];
      out[i] :- PrfKeygen(p, pubSeed, addr, inseed);
    }
    r := Success(());
  }

  /** Walks the chain from `input`, at position `start`, leaving the result in slot `at` of `out`. */
  method GenChain(p: Params, out: array<Node>, at: nat, input: Node, start: Word, steps: Word, pubSeed: Node,
      addr: array<Word>)
    returns (r: Result<()>, ghost nodes: seq<Node>)
    requires p.WotsValid() && at < out.Length && addr.Length == 8
    modifies out, addr
    ensures addr[..6] == old(addr[..6])
    ensures forall k :: 0 <= k < out.Length && k != at ==> out[k] == old(out[k])
    ensures r.Success? ==>
      out[at] == Chain(p, pubSeed, old(addr[..6]), input, start, StepsTaken(p.W(), start, steps))
    ensures r.Success? ==>
      && |nodes| > 0 && nodes[0] == input && nodes[|nodes| - 1] == out[at]
      && Walk(p, pubSeed, old(addr[..6]), start, nodes)
      && (start + steps <= p.W() ==> |nodes| == steps + 1)
      && (start + steps > p.W() > start ==> |nodes| == p.W() - start + 1)
      && (start >= p.W() ==> |nodes| == 1)
    ensures r.Failure? ==> p.digest.faults && r.error == Error.Hash
  {
    hide ChainHash, StepHashed;
    ghost var words := addr[..6];
    out[at] := input;
    nodes := [input];
    var i := start;
    while i < start + steps && i < p.W()
      invariant start <= i <= start + StepsTaken(p.W(), start, steps)
      invariant addr[..6] == words
      invariant forall k :: 0 <= k < out.Length && k != at ==> out[k] == old(out[k])
      invariant out[at] == Chain(p, pubSeed, words, input, start, i - start)
      invariant |nodes| == i - start + 1 && nodes[0] == input && nodes[i - start] == out[at]
      invariant Walk(p, pubSeed, words, start, nodes)
    {
      SetHashAddr(addr, i);
      var tmp := out[at];
      out[at] :- ThashF(p, tmp, pubSeed, addr);
      nodes := nodes + [out[at]];
      i := i + 1;
    }
    r := Success(());
  }

  /** Computes the public key into `pk`. */
  method WotsPkgen(p: Params, pk: array<Node>, seed: Node, pubSeed: Node, addr: array<Word>) returns (r: Result<()>)
    requires p.WotsValid() && pk.Length == p.WotsLen() && addr.Length == 8
    modifies pk, addr
    ensures addr[..5] == old(addr[..5])
    ensures r.Success? ==> pk[..] == PkNodes(p, seed, pubSeed, addr[..5])
    ensures r.Failure? ==> p.digest.faults && r.error == Error.Hash
  {
    hide Chain, KeygenOf, Walk, Cut, AddrBytes;
    ghost var pos := addr[..5];
    var _ :- ExpandSeed(p, pk, seed, pubSeed, addr);
    for i := 0 to p.WotsLen()
      invariant addr[..5] == pos
      invariant forall k :: 0 <= k < i ==> pk[k] == SigNode(p, seed, pubSeed, pos, k, p.W() - 1)
      invariant forall k :: i <= k < pk.Length ==> pk[k] == Secret(p, seed, pubSeed, pos, k)
    {
      SetChainAddr(addr, i);
      var tmp := pk[i];
      var _, _ :- GenChain(p, pk, i, tmp, 0, p.W() - 1, pubSeed, addr);
      assert addr[..5] == addr[..6][..5];
    }
    r := Success(());
  }

  /** Signs the `n`-byte `msg` into `sig`. */
  method WotsSign(p: Params, sig: array<Node>, msg: Node, seed: Node, pubSeed: Node, addr: array<Word>)
    returns (r: Result<()>)
    requires p.WotsValid() && |msg| == p.n && sig.Length == p.WotsLen() && addr.Length == 8
    modifies sig, addr
    ensures addr[..5] == old(addr[..5])
    ensures r.Success? ==> sig[..] == SigNodes(p, seed, pubSeed, addr[..5], Lengths(p, msg))
    ensures r.Failure? ==>
      if p.WotsLen() > MAX_WOTS_LEN then r.error == Error.InvalidParams else p.digest.faults && r.error == Error.Hash
  {
    hide Lengths, Chain, Chunk, Chunks, KeygenOf, Walk, Cut, AddrBytes, StartsWithDigits, EndsWithChecksum;
    if p.WotsLen() > MAX_WOTS_LEN {
      return Failure(Error.InvalidParams);
    }
    ghost var pos := addr[..5];
    ghost var lens := Lengths(p, msg);
    var lengths := new nat[p.WotsLen()];
    DeriveLengths(p, lengths, msg);
    var _ :- ExpandSeed(p, sig, seed, pubSeed, addr);
    for i := 0 to p.WotsLen()
      invariant addr[..5] == pos && lengths[..] == lens
      invariant forall k :: 0 <= k < i ==> sig[k] == SigNode(p, seed, pubSeed, pos, k, lens[k])
      invariant forall k :: i <= k < sig.Length ==> sig[k] == Secret(p, seed, pubSeed, pos, k)
    {
      SetChainAddr(addr, i);
      var tmp := sig[i];
      assert lengths[i] == lengths[..][i];
      var _, _ :- GenChain(p, sig, i, tmp, 0, lengths[i], pubSeed, addr);
      assert addr[..5] == addr[..6][..5];
    }
    r := Success(());
  }

  /** Recomputes a public key from the signature at the front of `sig`. */
  method WotsPkFromSig(p: Params, pk: array<Node>, sig: seq<Byte>, msg: Node, pubSeed: Node, addr: array<Word>)
    returns (r: Result<()>)
    requires p.WotsValid() && |msg| == p.n && pk.Length == p.WotsLen() && addr.Length == 8
    requires p.WotsSigBytes() <= |sig|
    modifies pk, addr
    ensures addr[..5] == old(addr[..5])
    ensures r.Success? ==>
      pk[..] == EndNodes(p, pubSeed, addr[..5], Chunks(sig, p.n, p.WotsLen()), Lengths(p, msg))
    ensures r.Failure? ==>
      if p.WotsLen() > MAX_WOTS_LEN then r.error == Error.InvalidParams else p.digest.faults && r.error == Error.Hash
  {
    hide Lengths, Chain, Chunk, Chunks, KeygenOf, Walk, Cut, AddrBytes, StartsWithDigits, EndsWithChecksum;
    if p.WotsLen() > MAX_WOTS_LEN {
      return Failure(Error.InvalidParams);
    }
    ghost var pos := addr[..5];
    ghost var lens, nodes := Lengths(p, msg), Chunks(sig, p.n, p.WotsLen());
    var lengths := new nat[p.WotsLen()];
    DeriveLengths(p, lengths, msg);
    for i := 0 to p.WotsLen()
      invariant addr[..5] == pos && lengths[..] == lens
      invariant forall k :: 0 <= k < i ==> pk[k] == EndNode(p, pubSeed, pos, k, nodes[k], lens[k])
    {
      SetChainAddr(addr, i);
      assert lengths[i] == lengths[..][i];
      ChunkAt(sig, p.n, p.WotsLen(), i);
      var _, _ :- GenChain(p, pk, i, Chunk(sig, p.n, i), lengths[i], p.W() - 1 - lengths[i], pubSeed, addr);
      assert addr[..5] == addr[..6][..5];
    }
    r := Success(());
  }
}
