/**
 The keyed hashes of src/hash.rs: how they rewrite the address and what they feed the digest.
 Word 7 of the address is overwritten before every use, so no result depends on its old value.
*/
module Hashing {
  import opened Results
  import opened Bytes
  import opened Parameters
  import opened Address

  /** A digest cut to `n` bytes; a shorter one is extended with zeros. */
  function Fit(n: nat, digest: seq<Byte>): (r: Node)
    ensures |r| == n
  {
    if n <= |digest| then digest[..n] else digest + seq(n - |digest|, _ => 0)
  }

  function PrfOf(p: Params, key: Node, input: seq<Byte>): (r: Node)
    ensures |r| == p.n
  {
    Fit(p.n, p.digest.prf(key, input))
  }

  function KeygenOf(p: Params, key: Node, pubSeed: Node, addr: seq<Word>): (r: Node)
    ensures |r| == p.n
  {
    Fit(p.n, p.digest.keygen(key, pubSeed, AddrBytes(addr)))
  }

  /** F, keyed and masked by the address in `words` (words 0 to 6). */
  function ChainHash(p: Params, pubSeed: Node, words: seq<Word>, x: Node): (r: Node)
    ensures |r| == p.n
  {
    Fit(p.n, p.digest.chain(
      PrfOf(p, pubSeed, AddrBytes(words + [0])),
      PrfOf(p, pubSeed, AddrBytes(words + [1])),
      x))
  }

  /** H, keyed and masked by the address in `words` (words 0 to 6). */
  function TreeHash(p: Params, pubSeed: Node, words: seq<Word>, left: Node, right: Node): (r: Node)
    ensures |r| == p.n
  {
    Fit(p.n, p.digest.tree(
      PrfOf(p, pubSeed, AddrBytes(words + [0])),
      PrfOf(p, pubSeed, AddrBytes(words + [1])),
      PrfOf(p, pubSeed, AddrBytes(words + [2])),
      left, right))
  }

  function MessageHash(p: Params, r: Node, root: Node, idx: nat, m: seq<Byte>): (digest: Node)
    ensures |digest| == p.n
  {
    Fit(p.n, p.digest.message(r, root, idx, m))
  }

  // ---- what a hash value is, in terms of the digest functions alone ----

  /** `r` is the first `n` bytes of `digest`, if it has that many. */
  ghost predicate Cut(n: nat, digest: seq<Byte>, r: Node) {
    |r| == n && (n <= |digest| ==> r == digest[..n])
  }

  /**
   `r` is cut from the chain digest of `x`, under the key and mask that `words` (words 0 to 6), followed
   by 0 and 1, yield.
  */
  ghost predicate StepHashed(p: Params, pubSeed: Node, words: seq<Word>, x: Node, r: Node) {
    var key, mask := p.digest.prf(pubSeed, AddrBytes(words + [0])), p.digest.prf(pubSeed, AddrBytes(words + [1]));
    p.n <= |key| && p.n <= |mask| ==> Cut(p.n, p.digest.chain(key[..p.n], mask[..p.n], x), r)
  }

  /** `r` is cut from the tree digest of `left` and `right`, under a key and two masks that `words` yield. */
  ghost predicate PairHashed(p: Params, pubSeed: Node, words: seq<Word>, left: Node, right: Node, r: Node) {
    var key := p.digest.prf(pubSeed, AddrBytes(words + [0]));
    var maskL, maskR := p.digest.prf(pubSeed, AddrBytes(words + [1])), p.digest.prf(pubSeed, AddrBytes(words + [2]));
    p.n <= |key| && p.n <= |maskL| && p.n <= |maskR| ==>
      Cut(p.n, p.digest.tree(key[..p.n], maskL[..p.n], maskR[..p.n], left, right), r)
  }

  lemma ChainHashIs(p: Params, pubSeed: Node, words: seq<Word>, x: Node)
    ensures StepHashed(p, pubSeed, words, x, ChainHash(p, pubSeed, words, x))
  {
    hide AddrBytes;
  }

  lemma TreeHashIs(p: Params, pubSeed: Node, words: seq<Word>, left: Node, right: Node)
    ensures PairHashed(p, pubSeed, words, left, right, TreeHash(p, pubSeed, words, left, right))
  {
    hide AddrBytes;
  }

  // ---- calls to the back end ----

  /** One call to the digest back end, which may refuse it. */
  method Invoke(p: Params) returns (r: Result<()>)
    ensures r.Failure? ==> p.digest.faults && r.error == Error.Hash
  {
    var fault: bool := *;
    if p.digest.faults && fault {
      return Failure(Error.Hash);
    }
    r := Success(());
  }

  method Prf(p: Params, input: seq<Byte>, key: Node) returns (r: Result<Node>)
    ensures r.Success? ==> r.value == PrfOf(p, key, input) && Cut(p.n, p.digest.prf(key, input), r.value)
    ensures r.Failure? ==> p.digest.faults && r.error == Error.Hash
  {
    var _ :- Invoke(p);
    r := Success(PrfOf(p, key, input));
  }

  method PrfKeygen(p: Params, pubSeed: Node, addr: array<Word>, key: Node) returns (r: Result<Node>)
    requires addr.Length == 8
    ensures r.Success? ==> r.value == KeygenOf(p, key, pubSeed, addr[..])
    ensures r.Success? ==> Cut(p.n, p.digest.keygen(key, pubSeed, AddrBytes(addr[..])), r.value)
    ensures r.Failure? ==> p.digest.faults && r.error == Error.Hash
  {
    var buf := new Byte[32];
    AddrToBytes(buf, addr);
    var _ :- Invoke(p);
    r := Success(Fit(p.n, p.digest.keygen(key, pubSeed, buf[..])));
  }

  method HashMessage(p: Params, r: Node, root: Node, idx: nat, m: seq<Byte>) returns (digest: Result<Node>)
    ensures digest.Success? ==> digest.value == MessageHash(p, r, root, idx, m)
    ensures digest.Success? ==> Cut(p.n, p.digest.message(r, root, idx, m), digest.value)
    ensures digest.Failure? ==> p.digest.faults && digest.error == Error.Hash
  {
    var _ :- Invoke(p);
    digest := Success(MessageHash(p, r, root, idx, m));
  }

  /** The key or mask the address yields with word 7 set to `keyAndMask`. */
  method AddressedPrf(p: Params, pubSeed: Node, addr: array<Word>, keyAndMask: Word) returns (r: Result<Node>)
    requires addr.Length == 8
    modifies addr
    ensures addr[..7] == old(addr[..7]) && addr[..6] == old(addr[..6]) && addr[..5] == old(addr[..5])
    ensures r.Success? ==>
      && r.value == PrfOf(p, pubSeed, AddrBytes(old(addr[..7]) + [keyAndMask]))
      && Cut(p.n, p.digest.prf(pubSeed, AddrBytes(old(addr[..7]) + [keyAndMask])), r.value)
    ensures r.Failure? ==> p.digest.faults && r.error == Error.Hash
  {
    SetKeyAndMask(addr, keyAndMask);
    var bytes := new Byte[32];
    AddrToBytes(bytes, addr);
    assert addr[..] == old(addr[..7]) + [keyAndMask];
    assert addr[..6] == addr[..7][..6] && addr[..5] == addr[..7][..5];
    r := Prf(p, bytes[..], pubSeed);
  }

  method ThashH(p: Params, left: Node, right: Node, pubSeed: Node, addr: array<Word>) returns (r: Result<Node>)
    requires addr.Length == 8
    modifies addr
    ensures addr[..7] == old(addr[..7]) && addr[..6] == old(addr[..6]) && addr[..5] == old(addr[..5])
    ensures r.Success? ==>
      && r.value == TreeHash(p, pubSeed, old(addr[..7]), left, right)
      && PairHashed(p, pubSeed, old(addr[..7]), left, right, r.value)
    ensures r.Failure? ==> p.digest.faults && r.error == Error.Hash
  {
    var key :- AddressedPrf(p, pubSeed, addr, 0);
    var leftMask :- AddressedPrf(p, pubSeed, addr, 1);
    var rightMask :- AddressedPrf(p, pubSeed, addr, 2);
    var _ :- Invoke(p);
    r := Success(Fit(p.n, p.digest.tree(key, leftMask, rightMask, left, right)));
  }

  method ThashF(p: Params, input: Node, pubSeed: Node, addr: array<Word>) returns (r: Result<Node>)
    requires addr.Length == 8
    modifies addr
    ensures addr[..7] == old(addr[..7]) && addr[..6] == old(addr[..6]) && addr[..5] == old(addr[..5])
    ensures r.Success? ==>
      && r.value == ChainHash(p, pubSeed, old(addr[..7]), input)
      && StepHashed(p, pubSeed, old(addr[..7]), input, r.value)
    ensures r.Failure? ==> p.digest.faults && r.error == Error.Hash
  {
    var key :- AddressedPrf(p, pubSeed, addr, 0);
    var mask :- AddressedPrf(p, pubSeed, addr, 1);
    var _ :- Invoke(p);
    r := Success(Fit(p.n, p.digest.chain(key, mask, input)));
  }
}
