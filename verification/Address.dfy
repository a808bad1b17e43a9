/** The eight-word hash address (src/hash_address.rs) and its byte form (src/hash.rs:71-75). */
module Address {
  import opened Bytes

  const TYPE_OTS: Word := 0
  const TYPE_LTREE: Word := 1
  const TYPE_HASHTREE: Word := 2

  // ---- logical positions ----

  /** The words that name a subtree: its layer and the two halves of its index within the layer. */
  function SubtreeWords(layer: nat, tree: nat): (base: seq<Word>)
    ensures |base| == 3
  {
    [Low32(layer), Low32(tree / 0x1_0000_0000), Low32(tree)]
  }

  /** A full address: subtree, type, leaf slot, and the three words hashing overwrites. */
  function FullAddress(layer: Word, tree: nat, kind: Word, leaf: Word, w5: Word, w6: Word, w7: Word): (a: seq<Word>) {
    SubtreeWords(layer, tree) + [kind, leaf, w5, w6, w7]
  }

  function AddrBytes(words: seq<Word>): (bs: seq<Byte>)
    ensures |bs| == 4 * |words|
  {
    if |words| == 0 then [] else AddrBytes(words[..|words| - 1]) + ToBytes(4, words[|words| - 1])
  }

  lemma AddrBytesSplit(words: seq<Word>)
    requires |words| > 0
    ensures var k := |words| - 1;
            AddrBytes(words)[..4 * k] == AddrBytes(words[..k]) && AddrBytes(words)[4 * k..] == ToBytes(4, words[k])
  {
    hide ToBytes;
  }

  /** Word `i` fills bytes `4 * i` to `4 * i + 3`. */
  lemma {:induction false} AddrBytesAt(words: seq<Word>, i: nat)
    requires i < |words|
    ensures AddrBytes(words)[4 * i..4 * i + 4] == ToBytes(4, words[i])
  {
    hide ToBytes;
    var k := |words| - 1;
    AddrBytesSplit(words);
    if i < k {
      AddrBytesAt(words[..k], i);
      assert AddrBytes(words)[4 * i..4 * i + 4] == AddrBytes(words)[..4 * k][4 * i..4 * i + 4];
    } else {
      assert AddrBytes(words)[4 * i..4 * i + 4] == AddrBytes(words)[4 * k..];
    }
  }

  lemma {:induction false} AddrBytesInjective(a: seq<Word>, b: seq<Word>)
    requires |a| == |b| && AddrBytes(a) == AddrBytes(b)
    ensures a == b
  {
    hide AddrBytes, ToBytes, FromBytes;
    if |a| > 0 {
      var k := |a| - 1;
      AddrBytesSplit(a);
      AddrBytesSplit(b);
      assert Pow256(4) == 0x1_0000_0000;
      DecodeEncode(4, a[k]);
      DecodeEncode(4, b[k]);
      AddrBytesInjective(a[..k], b[..k]);
      assert a == a[..k] + [a[k]] && b == b[..k] + [b[k]];
    }
  }

  /** Distinct logical positions are hashed under distinct address bytes. */
  lemma DistinctPositions(
      layer: Word, tree: nat, kind: Word, leaf: Word, w5: Word, w6: Word, w7: Word,
      layer': Word, tree': nat, kind': Word, leaf': Word, w5': Word, w6': Word, w7': Word)
    requires tree < 0x1_0000_0000_0000_0000 && tree' < 0x1_0000_0000_0000_0000
    requires AddrBytes(FullAddress(layer, tree, kind, leaf, w5, w6, w7))
          == AddrBytes(FullAddress(layer', tree', kind', leaf', w5', w6', w7'))
    ensures (layer, tree, kind, leaf, w5, w6, w7) == (layer', tree', kind', leaf', w5', w6', w7')
  {
    var a := FullAddress(layer, tree, kind, leaf, w5, w6, w7);
    var b := FullAddress(layer', tree', kind', leaf', w5', w6', w7');
    AddrBytesInjective(a, b);
    assert a[0] == b[0] && a[1] == b[1] && a[2] == b[2] && a[3] == b[3];
    assert a[4] == b[4] && a[5] == b[5] && a[6] == b[6] && a[7] == b[7];
  }

  // ---- setters ----

  method SetLayerAddr(addr: array<Word>, layer: Word)
    requires addr.Length == 8
    modifies addr
    ensures addr[..] == old(addr[..])[0 := layer]
  {
    addr[0] := layer;
  }

  method SetTreeAddr(addr: array<Word>, tree: nat)
    requires addr.Length == 8
    modifies addr
    ensures addr[..] == old(addr[..])[1 := Low32(tree / 0x1_0000_0000)][2 := Low32(tree)]
    ensures tree < 0x1_0000_0000_0000_0000 ==>
      tree == (addr[1] as int) * 0x1_0000_0000 + (addr[2] as int)
  {
    addr[1] := Low32(tree / 0x1_0000_0000);
    addr[2] := Low32(tree);
  }

  method SetType(addr: array<Word>, kind: Word)
    requires addr.Length == 8
    modifies addr
    ensures addr[..] == old(addr[..])[3 := kind]
  {
    addr[3] := kind;
  }

  method SetKeyAndMask(addr: array<Word>, keyAndMask: Word)
    requires addr.Length == 8
    modifies addr
    ensures addr[..] == old(addr[..])[7 := keyAndMask]
    ensures addr[..7] == old(addr[..7])
  {
    addr[7] := keyAndMask;
  }

  /** Copies the layer and tree words; the other five words keep their values. */
  method CopySubtreeAddr(out: array<Word>, input: array<Word>)
    requires out.Length == 8 && input.Length == 8
    modifies out
    ensures out[..] == old(input[..3]) + old(out[3..])
  {
    out[0] := input[0];
    out[1] := input[1];
    out[2] := input[2];
  }

  method SetOtsAddr(addr: array<Word>, ots: Word)
    requires addr.Length == 8
    modifies addr
    ensures addr[..] == old(addr[..])[4 := ots]
    ensures addr[..4] == old(addr[..4]) && addr[..5] == old(addr[..4]) + [ots]
  {
    addr[4] := ots;
  }

  method SetChainAddr(addr: array<Word>, chain: Word)
    requires addr.Length == 8
    modifies addr
    ensures addr[..] == old(addr[..])[5 := chain]
    ensures addr[..5] == old(addr[..5]) && addr[..6] == old(addr[..5]) + [chain]
  {
    addr[5] := chain;
  }

  method SetHashAddr(addr: array<Word>, hash: Word)
    requires addr.Length == 8
    modifies addr
    ensures addr[..] == old(addr[..])[6 := hash]
    ensures addr[..5] == old(addr[..5]) && addr[..6] == old(addr[..6]) && addr[..7] == old(addr[..6]) + [hash]
  {
    addr[6] := hash;
  }

  method SetLtreeAddr(addr: array<Word>, ltree: Word)
    requires addr.Length == 8
    modifies addr
    ensures addr[..] == old(addr[..])[4 := ltree]
    ensures addr[..4] == old(addr[..4]) && addr[..5] == old(addr[..4]) + [ltree]
  {
    addr[4] := ltree;
  }

  method SetTreeHeight(addr: array<Word>, treeHeight: Word)
    requires addr.Length == 8
    modifies addr
    ensures addr[..] == old(addr[..])[5 := treeHeight]
    ensures addr[..5] == old(addr[..5]) && addr[..6] == old(addr[..5]) + [treeHeight]
  {
    addr[5] := treeHeight;
  }

  method SetTreeIndex(addr: array<Word>, treeIndex: Word)
    requires addr.Length == 8
    modifies addr
    ensures addr[..] == old(addr[..])[6 := treeIndex]
    ensures addr[..5] == old(addr[..5]) && addr[..6] == old(addr[..6]) && addr[..7] == old(addr[..6]) + [treeIndex]
  {
    addr[6] := treeIndex;
  }

  /** Serialises the address, four bytes a word. */
  method AddrToBytes(bytes: array<Byte>, addr: array<Word>)
    requires bytes.Length == 32 && addr.Length == 8
    modifies bytes
    ensures bytes[..] == AddrBytes(addr[..])
    ensures forall i :: 0 <= i < 8 ==> bytes[4 * i..4 * i + 4] == ToBytes(4, addr[i])
  {
    for i := 0 to 8
      invariant bytes[..4 * i] == AddrBytes(addr[..i])
    {
      ghost var done := bytes[..4 * i];
      UllToBytes(bytes, 4 * i, 4, addr[i]);
      assert addr[..i + 1][..i] == addr[..i];
      assert bytes[..4 * i + 4] == done + ToBytes(4, addr[i]);
    }
    assert bytes[..32] == bytes[..] && addr[..8] == addr[..];
    forall i | 0 <= i < 8 ensures bytes[4 * i..4 * i + 4] == ToBytes(4, addr[i]) {
      AddrBytesAt(addr[..], i);
      assert bytes[4 * i..4 * i + 4] == bytes[..][4 * i..4 * i + 4];
    }
  }
}
