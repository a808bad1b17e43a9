/**
 The addresses under which the hash calls of a key are made (section 2.5 of RFC 8391), written out word by
 word, and that no two calls of the keyed hashes share one.
*/
module AddressUse {
  import opened Bits
  import opened Bytes
  import opened Parameters
  import opened Address
  import opened Positions
  import opened CacheSpec
  import opened SignatureSpec

  /** The place of one PRF call: a chain step, an L-tree node or a tree node; `mask` is 0 for the key. */
  datatype Use =
    | ChainUse(layer: Word, tree: nat, leaf: Word, chain: Word, step: Word, mask: Word)
    | LTreeUse(layer: Word, tree: nat, leaf: Word, height: Word, node: Word, mask: Word)
    | TreeUse(layer: Word, tree: nat, height: Word, node: Word, mask: Word)

  /** The eight address words: types 0, 1 and 2 tell the three kinds apart. */
  function Words(u: Use): (words: seq<Word>)
    requires u.tree < 0x1_0000_0000_0000_0000
  {
    var hi: Word, lo: Word := u.tree / 0x1_0000_0000, u.tree % 0x1_0000_0000;
    match u
    case ChainUse(layer, _, leaf, chain, step, mask) => [layer, hi, lo, 0, leaf, chain, step, mask]
    case LTreeUse(layer, _, leaf, height, node, mask) => [layer, hi, lo, 1, leaf, height, node, mask]
    case TreeUse(layer, _, height, node, mask) => [layer, hi, lo, 2, 0, height, node, mask]
  }

  /** Different places mean different address bytes. */
  lemma UsesApart(u: Use, v: Use)
    requires u.tree < 0x1_0000_0000_0000_0000 && v.tree < 0x1_0000_0000_0000_0000
    requires AddrBytes(Words(u)) == AddrBytes(Words(v))
    ensures u == v
  {
    hide AddrBytes;
    var a, b := Words(u), Words(v);
    AddrBytesInjective(a, b);
    assert a[0] == b[0] && a[1] == b[1] && a[2] == b[2] && a[3] == b[3];
    assert a[4] == b[4] && a[5] == b[5] && a[6] == b[6] && a[7] == b[7];
  }

  /** The five words that name a one-time key: layer, the two halves of the tree index, type 0 and leaf. */
  lemma OtsWordsAre(p: Params, idx: nat, i: Word, words: seq<Word>)
    requires p.Valid() && idx <= p.MaxIdx() && i < p.d && words == OtsWords(p, idx, i)
    ensures |words| == 5 && words[0] == i && words[3] == 0 && words[4] == LeafIdx(p, idx, i)
    ensures (words[1] as int) * 0x1_0000_0000 + (words[2] as int) == TreeIdx(p, idx, i)
  {
    hide TreeIdx, LeafIdx, Pow2;
    TreeFits(p, idx, i);
    PositionBounds(p, idx, i);
    Low32Id(i);
    Low32Id(LeafIdx(p, idx, i));
  }

  lemma TreeFits(p: Params, idx: nat, i: nat)
    requires p.Valid() && idx <= p.MaxIdx()
    ensures TreeIdx(p, idx, i) < 0x1_0000_0000_0000_0000
  {
    hide Pow2, TreeIdx;
    PositionBounds(p, idx, i);
    MaxIdxFits(p);
    Pow64();
  }

  /** The addresses hashed for chain steps, L-tree nodes and tree nodes of an index are those of their places. */
  lemma AddressesAreUses(p: Params, idx: nat, i: Word, a: Word, b: Word, mask: Word)
    requires p.Valid() && idx <= p.MaxIdx() && i < p.d
    ensures TreeIdx(p, idx, i) < 0x1_0000_0000_0000_0000 && LeafIdx(p, idx, i) < 0x1_0000_0000
    ensures OtsWords(p, idx, i) + [a] + [b] + [mask]
         == Words(ChainUse(i, TreeIdx(p, idx, i), LeafIdx(p, idx, i), a, b, mask))
    ensures LeafWords(p, idx, i) + [a, b] + [mask]
         == Words(LTreeUse(i, TreeIdx(p, idx, i), LeafIdx(p, idx, i), a, b, mask))
    ensures TreeWords(p, idx, i) + [a] + [b] + [mask] == Words(TreeUse(i, TreeIdx(p, idx, i), a, b, mask))
  {
    hide TreeIdx, LeafIdx, Pow2;
    TreeFits(p, idx, i);
    PositionBounds(p, idx, i);
    Low32Id(i);
    Low32Id(LeafIdx(p, idx, i));
    Low32Id(TreeIdx(p, idx, i) / 0x1_0000_0000);
  }
}
