/** Big-endian integer codec (src/utils.rs) and the byte-string plumbing built on it. */
module Bytes {
  import opened Bits

  type Byte = b: int | 0 <= b < 0x100
  type Word = w: int | 0 <= w < 0x1_0000_0000

  /** An `n`-byte digest, key or tree node. */
  type Node = seq<Byte>

  /** `x as u32` */
  function Low32(x: nat): Word {
    x % 0x1_0000_0000
  }

  lemma Low32Id(x: nat)
    requires x < 0x1_0000_0000
    ensures Low32(x) == x
  {
  }

  // ---- specification of the codec ----

  function Pow256(k: nat): (r: nat)
    ensures r > 0
  {
    if k == 0 then 1 else 256 * Pow256(k - 1)
  }

  function ToBytes(len: nat, v: nat): (bs: seq<Byte>)
    ensures |bs| == len
  {
    if len == 0 then [] else ToBytes(len - 1, v / 256) + [v % 256]
  }

  function FromBytes(bs: seq<Byte>): nat {
    if |bs| == 0 then 0 else 256 * FromBytes(bs[..|bs| - 1]) + bs[|bs| - 1]
  }

  lemma {:induction false} FromBytesBound(bs: seq<Byte>)
    ensures FromBytes(bs) < Pow256(|bs|)
  {
    if |bs| > 0 {
      FromBytesBound(bs[..|bs| - 1]);
    }
  }

  lemma DivTwice(v: nat, m: nat)
    requires m > 0
    ensures v / 256 / m == v / (256 * m)
  {
    var q, r := v / 256 / m, v / 256 % m;
    assert v / 256 == m * q + r;
    assert v == 256 * (m * q + r) + v % 256 == q * (256 * m) + (256 * r + v % 256);
    DivModUnique(v, q, 256 * r + v % 256, 256 * m);
  }

  /** The encoding is big-endian: byte `k` weighs `256^(len - 1 - k)`. */
  lemma {:induction false} ToBytesAt(len: nat, v: nat, k: nat)
    requires k < len
    ensures ToBytes(len, v)[k] == v / Pow256(len - 1 - k) % 256
  {
    if k < len - 1 {
      ToBytesAt(len - 1, v / 256, k);
      DivTwice(v, Pow256(len - 2 - k));
    } else {
      assert Pow256(0) == 1;
    }
  }

  /** Decoding what was encoded returns the value, whenever it fits. */
  lemma {:induction false} DecodeEncode(len: nat, v: nat)
    requires v < Pow256(len)
    ensures FromBytes(ToBytes(len, v)) == v
  {
    if len > 0 {
      DecodeEncode(len - 1, v / 256);
      var bs := ToBytes(len, v);
      assert bs[..len - 1] == ToBytes(len - 1, v / 256);
    }
  }

  /** Encoding what was decoded returns the bytes. */
  lemma {:induction false} EncodeDecode(bs: seq<Byte>)
    ensures ToBytes(|bs|, FromBytes(bs)) == bs
  {
    if |bs| > 0 {
      EncodeDecode(bs[..|bs| - 1]);
      assert bs == bs[..|bs| - 1] + [bs[|bs| - 1]];
    }
  }

  /** The all-ones marker decodes to the largest value of its width. */
  lemma {:induction false} DecodeOnes(bs: seq<Byte>)
    requires forall k :: 0 <= k < |bs| ==> bs[k] == 0xFF
    ensures FromBytes(bs) == Pow256(|bs|) - 1
  {
    if |bs| > 0 {
      DecodeOnes(bs[..|bs| - 1]);
    }
  }

  lemma {:induction false} Pow256IsPow2(k: nat)
    ensures Pow256(k) == Pow2(8 * k)
  {
    if k > 0 {
      Pow256IsPow2(k - 1);
      PowAdd(8, 8 * (k - 1));
      assert Pow2(8) == 256;
    }
  }

  // ---- writing into a buffer ----

  /** `len` copies of `b`. */
  function Fill(len: nat, b: Byte): (bs: seq<Byte>)
    ensures |bs| == len && forall k :: 0 <= k < len ==> bs[k] == b
  {
    seq(len, _ => b)
  }

  /** `dst` with the bytes from `at` replaced by `src`. */
  function Overwrite(dst: seq<Byte>, at: nat, src: seq<Byte>): (r: seq<Byte>)
    requires at + |src| <= |dst|
    ensures |r| == |dst|
  {
    dst[..at] + src + dst[at + |src|..]
  }

  lemma OverwriteAt(dst: seq<Byte>, at: nat, src: seq<Byte>)
    requires at + |src| <= |dst|
    ensures Overwrite(dst, at, src)[at..at + |src|] == src
  {
  }

  /** Bytes before or after the written ones keep their values. */
  lemma OverwriteKeeps(dst: seq<Byte>, at: nat, src: seq<Byte>, lo: nat, hi: nat)
    requires at + |src| <= |dst| && lo <= hi <= |dst| && (hi <= at || at + |src| <= lo)
    ensures Overwrite(dst, at, src)[lo..hi] == dst[lo..hi]
  {
    var r := Overwrite(dst, at, src);
    forall k | lo <= k < hi ensures r[k] == dst[k] {
    }
  }

  /** Two adjacent writes extend the bytes before them. */
  lemma AppendTwo(dst: seq<Byte>, at: nat, a: seq<Byte>, b: seq<Byte>)
    requires at + |a| + |b| <= |dst|
    ensures Overwrite(Overwrite(dst, at, a), at + |a|, b)[..at + |a| + |b|] == dst[..at] + (a + b)
  {
  }

  // ---- the loops ----

  /** Writes `val` big-endian into the `len` bytes of `out` that start at `at`. */
  method UllToBytes(out: array<Byte>, at: nat, len: nat, val: nat)
    requires at + len <= out.Length
    modifies out
    ensures out[..] == Overwrite(old(out[..]), at, ToBytes(len, val))
  {
    var v := val;
    var i := len;
    while i > 0
      invariant 0 <= i <= len
      invariant ToBytes(len, val) == ToBytes(i, v) + out[at + i..at + len]
      invariant out[..at] == old(out[..at]) && out[at + len..] == old(out[at + len..])
    {
      i := i - 1;
      ghost var tail := out[at + i + 1..at + len];
      out[at + i] := v % 256;
      assert out[at + i..at + len] == [v % 256] + tail;
      v := v / 256;
    }
    assert out[..] == out[..at] + out[at..at + len] + out[at + len..];
  }

  /** Reads at most the first eight bytes of `input` as a big-endian integer. */
  method BytesToUll(input: seq<Byte>) returns (retval: nat)
    ensures retval == FromBytes(if |input| <= 8 then input else input[..8])
    ensures retval < Pow2(64)
  {
    retval := 0;
    var taken := if |input| <= 8 then |input| else 8;
    for i := 0 to taken
      invariant retval == FromBytes(input[..i])
    {
      assert input[..i + 1][..i] == input[..i];
      retval := 256 * retval + input[i];
    }
    assert input[..taken] == if |input| <= 8 then input else input[..8];
    FromBytesBound(input[..taken]);
    Pow256IsPow2(taken);
    PowMono(8 * taken, 64);
  }

  /** `dst[at..at + src.len()].copy_from_slice(src)` */
  method CopyFromSlice(dst: array<Byte>, at: nat, src: seq<Byte>)
    requires at + |src| <= dst.Length
    modifies dst
    ensures dst[..] == Overwrite(old(dst[..]), at, src)
  {
    for i := 0 to |src|
      invariant dst[..at] == old(dst[..at])
      invariant dst[at..at + i] == src[..i]
      invariant dst[at + |src|..] == old(dst[at + |src|..])
    {
      dst[at + i] := src[i];
    }
    assert dst[..] == dst[..at] + dst[at..at + |src|] + dst[at + |src|..];
    assert src[..|src|] == src;
  }

  // ---- runs of n-byte nodes ----

  ghost predicate AllLen(nodes: seq<Node>, n: nat) {
    forall k :: 0 <= k < |nodes| ==> |nodes[k]| == n
  }

  function Flatten(nodes: seq<Node>): seq<Byte> {
    if |nodes| == 0 then [] else Flatten(nodes[..|nodes| - 1]) + nodes[|nodes| - 1]
  }

  lemma {:induction false} FlattenLength(nodes: seq<Node>, n: nat)
    requires AllLen(nodes, n)
    ensures |Flatten(nodes)| == |nodes| * n
  {
    if |nodes| > 0 {
      FlattenLength(nodes[..|nodes| - 1], n);
      assert |nodes| * n == (|nodes| - 1) * n + n;
    }
  }

  /** Byte `j` of node `k` stands at `k * n + j`. */
  lemma {:induction false} FlattenAt(nodes: seq<Node>, n: nat, k: nat, j: nat)
    requires AllLen(nodes, n) && k < |nodes| && j < n
    ensures k * n + j < |Flatten(nodes)| && Flatten(nodes)[k * n + j] == nodes[k][j]
  {
    var last := |nodes| - 1;
    FlattenLength(nodes[..last], n);
    FlattenLength(nodes, n);
    if k < last {
      FlattenAt(nodes[..last], n, k, j);
    }
  }

  /** Node `i` of a buffer. */
  function Chunk(bytes: seq<Byte>, n: nat, i: nat): (node: Node)
    requires (i + 1) * n <= |bytes|
    ensures |node| == n
  {
    assert (i + 1) * n == i * n + n;
    bytes[i * n..(i + 1) * n]
  }

  /** The first `count` nodes of a buffer. */
  function Chunks(bytes: seq<Byte>, n: nat, count: nat): (nodes: seq<Node>)
    requires count * n <= |bytes|
    ensures |nodes| == count && AllLen(nodes, n)
  {
    if count == 0 then []
    else
      TimesMono(count - 1, count, n);
      Chunks(bytes, n, count - 1) + [Chunk(bytes, n, count - 1)]
  }

  lemma {:induction false} ChunkAt(bytes: seq<Byte>, n: nat, count: nat, i: nat)
    requires count * n <= |bytes| && i < count
    ensures (i + 1) * n <= |bytes|
    ensures Chunks(bytes, n, count)[i] == Chunk(bytes, n, i)
  {
    TimesMono(count - 1, count, n);
    if i < count - 1 {
      ChunkAt(bytes, n, count - 1, i);
    }
  }

  /** Cutting depends only on the bytes that are cut. */
  lemma {:induction false} ChunksPrefix(bytes: seq<Byte>, rest: seq<Byte>, n: nat, count: nat)
    requires count * n <= |bytes|
    ensures count * n <= |bytes + rest|
    ensures Chunks(bytes + rest, n, count) == Chunks(bytes, n, count)
  {
    if count > 0 {
      assert count * n == (count - 1) * n + n;
      ChunksPrefix(bytes, rest, n, count - 1);
      assert Chunk(bytes + rest, n, count - 1) == Chunk(bytes, n, count - 1);
    }
  }

  /** Cutting a flattened buffer, followed by anything, returns its nodes. */
  lemma {:induction false} ChunksFlatten(nodes: seq<Node>, n: nat, rest: seq<Byte>)
    requires AllLen(nodes, n)
    ensures |nodes| * n <= |Flatten(nodes) + rest|
    ensures Chunks(Flatten(nodes) + rest, n, |nodes|) == nodes
  {
    FlattenLength(nodes, n);
    if |nodes| > 0 {
      var k := |nodes| - 1;
      assert |nodes| * n == k * n + n;
      FlattenLength(nodes[..k], n);
      ChunksFlatten(nodes[..k], n, nodes[k] + rest);
      assert Flatten(nodes) + rest == Flatten(nodes[..k]) + (nodes[k] + rest);
      assert nodes == nodes[..k] + [nodes[k]];
    }
  }

  /** Cutting a buffer and flattening the nodes returns the bytes that were cut. */
  lemma {:induction false} FlattenChunks(bytes: seq<Byte>, n: nat, count: nat)
    requires count * n <= |bytes|
    ensures Flatten(Chunks(bytes, n, count)) == bytes[..count * n]
  {
    if count > 0 {
      TimesMono(count - 1, count, n);
      assert count * n == (count - 1) * n + n;
      FlattenChunks(bytes, n, count - 1);
      var nodes := Chunks(bytes, n, count);
      assert nodes[..count - 1] == Chunks(bytes, n, count - 1);
      assert bytes[..count * n] == bytes[..(count - 1) * n] + bytes[(count - 1) * n..count * n];
    }
  }
}
