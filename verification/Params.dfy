/**
 Parameter sets (src/params.rs). Only the independent quantities are stored; the derived sizes are
 functions of them, computed as `XmssOid::initialize` does.
*/
module Parameters {
  import opened Results
  import opened Bits
  import opened Bytes

  /**
   The hash functions, as uninterpreted functions of the inputs the library feeds them.
   Output lengths are not constrained: the library cuts every digest to `n` bytes.
   `faults` says whether the back end may refuse a call.
  */
  datatype Digest = Digest(
    faults: bool,
    prf: (Node, seq<Byte>) -> seq<Byte>,                  // key, 32-byte input
    keygen: (Node, Node, seq<Byte>) -> seq<Byte>,         // key, PUB_SEED, address
    chain: (Node, Node, Node) -> seq<Byte>,               // key, mask, input
    tree: (Node, Node, Node, Node, Node) -> seq<Byte>,    // key, left mask, right mask, left, right
    message: (Node, Node, nat, seq<Byte>) -> seq<Byte>)   // R, root, index, message

  /** Digest functions that refuse every call. */
  function InvalidHash(): Digest {
    Digest(true, (_, _) => [], (_, _, _) => [], (_, _, _) => [], (_, _, _, _, _) => [], (_, _, _, _) => [])
  }

  const MAX_N := 64
  const MAX_WOTS_LEN := 131

  /** The Winternitz parameter with the given logarithm. */
  function Radix(logW: nat): nat {
    match logW
    case 2 => 4
    case 4 => 16
    case _ => 256
  }

  datatype Params = Params(
    n: nat,
    logW: nat,
    treeHeight: nat,
    d: nat,
    indexBytes: nat,
    digest: Digest)
  {
    function W(): nat {
      Radix(logW)
    }

    /** `8 * n / log_w` */
    function Len1(): nat {
      match logW
      case 2 => 4 * n
      case 4 => 2 * n
      case _ => n
    }

    function Len2(): nat {
      match logW
      case 2 => 5
      case 4 => 3
      case _ => 2
    }

    /** `len2 * log_w` */
    function ChecksumBits(): nat {
      match logW
      case 2 => 10
      case 4 => 12
      case _ => 16
    }

    function WotsLen(): nat {
      Len1() + Len2()
    }

    function WotsSigBytes(): nat {
      WotsLen() * n
    }

    function FullHeight(): nat {
      d * treeHeight
    }

    /** Bytes one layer contributes to a signature: a WOTS+ signature and an authentication path. */
    function LayerBytes(): nat {
      WotsSigBytes() + treeHeight * n
    }

    function SigBytes(): nat {
      indexBytes + n + d * WotsSigBytes() + FullHeight() * n
    }

    function SkBytes(): nat {
      indexBytes + 4 * n
    }

    /** The last one-time index. */
    function MaxIdx(): nat {
      Pow2(FullHeight()) - 1
    }

    /** What the table of WOTS+ parameters establishes (src/params.rs:1608-1625). */
    ghost predicate WotsValid() {
      && 1 <= n <= MAX_N
      && logW in {2, 4, 8}
    }

    /** What every registered parameter set satisfies. */
    ghost predicate Valid() {
      && WotsValid()
      && WotsLen() <= MAX_WOTS_LEN
      && 1 <= treeHeight < 32
      && 1 <= d
      && FullHeight() < 64
      && 1 <= indexBytes <= 8
      && FullHeight() <= 8 * indexBytes
    }

    /** The all-ones index that marks an exhausted key lies beyond the last one-time index. */
    predicate MarkerBeyondRange() {
      FullHeight() < 8 * indexBytes
    }
  }

  /** The tabulated lengths are the expressions the library computes. */
  lemma DerivedLengths(p: Params)
    requires p.WotsValid()
    ensures p.Len1() == 8 * p.n / p.logW
    ensures p.ChecksumBits() == p.Len2() * p.logW
    ensures p.W() == Pow2(p.logW)
  {
    assert Pow2(4) == 16 && Pow2(8) == 16 * Pow2(4);
  }

  lemma WotsBytesAre(p: Params)
    ensures p.WotsSigBytes() == p.WotsLen() * p.n
  {
  }

  lemma SameWotsLen(p: Params, q: Params)
    requires p.n == q.n && p.logW == q.logW
    ensures p.WotsLen() == q.WotsLen()
  {
  }

  /** No size depends on the digest functions. */
  lemma SameSizes(p: Params, q: Params)
    requires q == p.(digest := q.digest)
    ensures p.WotsLen() == q.WotsLen() && p.WotsSigBytes() == q.WotsSigBytes()
    ensures p.FullHeight() == q.FullHeight() && p.SigBytes() == q.SigBytes()
  {
  }

  lemma HexLengths(p: Params)
    requires p.WotsValid() && p.W() == 16
    ensures p.WotsLen() == 2 * p.n + 3 <= MAX_WOTS_LEN
  {
  }

  /** When the layers divide the full height, they add up to it, and the sizes follow from it. */
  lemma LayersAddUp(p: Params, fullHeight: nat)
    requires p.d >= 1 && p.treeHeight == fullHeight / p.d && fullHeight % p.d == 0
    ensures p.FullHeight() == fullHeight
    ensures p.SigBytes() == p.indexBytes + p.n + p.d * p.WotsSigBytes() + fullHeight * p.n
  {
    hide Params.WotsSigBytes;
    assert fullHeight == p.d * (fullHeight / p.d) + fullHeight % p.d;
  }

  /** The sizes of `v`, which differs from `before` in its index width only. */
  lemma SizesAre(before: Params, v: Params, fullHeight: nat)
    requires v == before.(indexBytes := v.indexBytes) && v.d >= 1 && v.treeHeight == fullHeight / v.d
    requires v.indexBytes == if v.d == 1 then 4 else (fullHeight + 7) / 8
    ensures v.indexBytes == StandardIndexBytes(v.d, fullHeight)
    ensures if v.d == 1 then v.indexBytes == 4 else fullHeight <= 8 * v.indexBytes < fullHeight + 8
    ensures v.WotsLen() == before.WotsLen() && v.WotsSigBytes() == v.WotsLen() * v.n
    ensures v.SkBytes() == v.indexBytes + 4 * v.n
    ensures fullHeight % v.d == 0 ==>
      v.FullHeight() == fullHeight && v.SigBytes() == v.indexBytes + v.n + v.d * v.WotsSigBytes() + fullHeight * v.n
  {
    hide Params.SigBytes, Params.WotsSigBytes, Params.FullHeight, Params.WotsLen, StandardIndexBytes;
    StandardBytesAre(v.d, fullHeight);
    SameWotsLen(before, v);
    WotsBytesAre(v);
    if fullHeight % v.d == 0 {
      LayersAddUp(v, fullHeight);
    }
  }

  /** The parameter record, as the library fills it in. */
  class XmssParams {
    var n: nat
    var fullHeight: nat
    var d: nat
    var treeHeight: nat
    var wotsW: nat
    var wotsLogW: nat
    var wotsLen1: nat
    var wotsLen2: nat
    var wotsLen: nat
    var wotsSigBytes: nat
    var indexBytes: nat
    var sigBytes: nat
    var pkBytes: nat
    var skBytes: nat
    var hash: Digest

    /** The independent quantities of the record. */
    function Value(): Params
      reads this
    {
      Params(n, wotsLogW, treeHeight, d, indexBytes, hash)
    }

    /** An empty record, whose digest functions refuse every call. */
    constructor ()
      ensures hash == InvalidHash() && n == fullHeight == d == wotsW == 0
    {
      n, fullHeight, d, treeHeight, wotsW, wotsLogW := 0, 0, 0, 0, 0, 0;
      wotsLen1, wotsLen2, wotsLen, wotsSigBytes, indexBytes, sigBytes, pkBytes, skBytes := 0, 0, 0, 0, 0, 0, 0, 0;
      hash := InvalidHash();
    }

    /** The record of a single-tree set, with the sizes written out for w = 16. */
    constructor GenericXmss(n: nat, height: nat, hash: Digest)
      requires 1 <= n <= MAX_N && 1 <= height < 32
      ensures Value() == Params(n, 4, height, 1, 4, hash) && Value().Valid() && Value().MarkerBeyondRange()
      ensures wotsW == Value().W() && fullHeight == Value().FullHeight()
      ensures wotsLen1 == Value().Len1() && wotsLen2 == Value().Len2() && wotsLen == Value().WotsLen()
      ensures wotsSigBytes == Value().WotsSigBytes() && sigBytes == Value().SigBytes()
      ensures pkBytes == 2 * n && skBytes == Value().SkBytes()
    {
      this.n, this.hash, fullHeight, treeHeight, d := n, hash, height, height, 1;
      wotsW, wotsLogW, wotsLen1, wotsLen2, wotsLen := 16, 4, 2 * n, 3, 2 * n + 3;
      wotsSigBytes, indexBytes := (2 * n + 3) * n, 4;
      sigBytes := 4 + n + (2 * n + 3) * n + height * n;
      pkBytes, skBytes := 2 * n, 4 + 4 * n;
    }

    /** Fills in the WOTS+ lengths from `wotsW`; a value other than 4, 16 or 256 is refused. */
    method DeriveWots() returns (r: Result<()>)
      requires 1 <= n <= MAX_N
      modifies `wotsLogW, `wotsLen1, `wotsLen2, `wotsLen
      ensures r.Failure? <==> wotsW !in {4, 16, 256}
      ensures r.Failure? ==> r.error == Error.InvalidParams
      ensures r.Success? ==> Value().WotsValid() && Value().W() == wotsW == Pow2(wotsLogW)
      ensures r.Success? ==> wotsLen1 == Value().Len1() == 8 * n / wotsLogW && wotsLen2 == Value().Len2()
      ensures r.Success? ==> wotsLen2 == if wotsW == 4 then 5 else if wotsW == 16 then 3 else 2
      ensures r.Success? ==> wotsLen == Value().WotsLen()
    {
      hide Pow2;
      match wotsW {
        case 4 =>
          wotsLogW := 2;
          wotsLen1 := 8 * n / wotsLogW;
          wotsLen2 := 5;
        case 16 =>
          wotsLogW := 4;
          wotsLen1 := 8 * n / wotsLogW;
          wotsLen2 := 3;
        case 256 =>
          wotsLogW := 8;
          wotsLen1 := 8 * n / wotsLogW;
          wotsLen2 := 2;
        case _ =>
          return Failure(Error.InvalidParams);
      }
      wotsLen := wotsLen1 + wotsLen2;
      DerivedLengths(Value());
      r := Success(());
    }

    /** Fills in the sizes, once the WOTS+ lengths and the tree height are set. */
    method DeriveSizes()
      requires d >= 1 && treeHeight == fullHeight / d && wotsLen == Value().WotsLen()
      modifies `wotsSigBytes, `indexBytes, `sigBytes, `pkBytes, `skBytes
      ensures wotsSigBytes == Value().WotsSigBytes() && indexBytes == StandardIndexBytes(d, fullHeight)
      ensures pkBytes == 2 * n && skBytes == Value().SkBytes() && wotsLen == Value().WotsLen()
      ensures wotsSigBytes == wotsLen * n && skBytes == indexBytes + 4 * n
      ensures sigBytes == indexBytes + n + d * wotsSigBytes + fullHeight * n
      ensures if d == 1 then indexBytes == 4 else fullHeight <= 8 * indexBytes < fullHeight + 8
      ensures fullHeight % d == 0 ==> sigBytes == Value().SigBytes() && Value().FullHeight() == fullHeight
    {
      hide Params.SigBytes, Params.WotsSigBytes, Params.FullHeight, Params.WotsLen, Params.SkBytes, StandardIndexBytes;
      ghost var before := Value();
      wotsSigBytes := wotsLen * n;
      indexBytes := if d == 1 then 4 else (fullHeight + 7) / 8;
      sigBytes := indexBytes + n + d * wotsSigBytes + fullHeight * n;
      pkBytes := 2 * n;
      skBytes := indexBytes + 4 * n;
      SizesAre(before, Value(), fullHeight);
    }

    /**
     Sets the Winternitz parameter and fills in all derived fields. `selected` is the outcome of the
     choice of digest functions, which comes last; it is the only step that can fail.
    */
    method Derive(selected: Result<Digest>) returns (r: Result<()>)
      requires 1 <= n <= MAX_N && d >= 1
      modifies this
      ensures n == old(n) && fullHeight == old(fullHeight) && d == old(d) && wotsW == 16
      ensures r.Success? <==> selected.Success?
      ensures r.Failure? ==> r.error == selected.error
      ensures r.Success? ==> hash == selected.value && Value().WotsValid()
      ensures r.Success? ==> Value().W() == 16 && wotsLen == Value().WotsLen() == 2 * n + 3
      ensures r.Success? ==> treeHeight == fullHeight / d && indexBytes == StandardIndexBytes(d, fullHeight)
      ensures r.Success? ==> if d == 1 then indexBytes == 4 else fullHeight <= 8 * indexBytes < fullHeight + 8
      ensures r.Success? ==> wotsSigBytes == Value().WotsSigBytes() == wotsLen * n && skBytes == indexBytes + 4 * n
      ensures r.Success? ==> sigBytes == indexBytes + n + d * wotsSigBytes + fullHeight * n
      ensures r.Success? ==> pkBytes == 2 * n && skBytes == Value().SkBytes()
      ensures r.Success? && fullHeight % d == 0 ==>
        sigBytes == Value().SigBytes() && Value().FullHeight() == fullHeight
      ensures r.Success? && fullHeight % d == 0 && 1 <= treeHeight < 32 && fullHeight < 64 ==>
        Value().Valid()
    {
      hide Params.SigBytes, Params.WotsSigBytes, Params.FullHeight, Params.WotsLen, Pow2;
      wotsW := 16;
      treeHeight := fullHeight / d;
      var lengths := DeriveWots();
      if lengths.Failure? {
        return lengths;
      }
      DeriveSizes();
      ghost var before := Value();
      hash :- selected;
      SameSizes(before, Value());
      HexLengths(Value());
      if fullHeight % d == 0 && 1 <= treeHeight < 32 && fullHeight < 64 {
        StandardIndexRoom(Value());
      }
      r := Success(());
    }
  }

  /** `index_bytes` as assigned by `XmssOid::initialize`. */
  function StandardIndexBytes(d: nat, fullHeight: nat): nat {
    if d == 1 then 4 else (fullHeight + 7) / 8
  }

  lemma StandardBytesAre(d: nat, fullHeight: nat)
    ensures StandardIndexBytes(d, fullHeight) == if d == 1 then 4 else (fullHeight + 7) / 8
    ensures var width := StandardIndexBytes(d, fullHeight);
            if d == 1 then width == 4 else fullHeight <= 8 * width < fullHeight + 8
  {
  }

  /**
   The assigned width always holds every index, and leaves room for the exhaustion marker except
   for multi-tree sets whose height is a whole number of bytes (the height-40 sets).
  */
  lemma StandardIndexRoom(p: Params)
    requires 1 <= p.d && 1 <= p.treeHeight < 32 && p.FullHeight() < 64
    requires p.indexBytes == StandardIndexBytes(p.d, p.FullHeight())
    ensures 1 <= p.indexBytes <= 8 && p.FullHeight() <= 8 * p.indexBytes
    ensures p.MarkerBeyondRange() <==> p.d == 1 || p.FullHeight() % 8 != 0
  {
    TimesMono(1, p.d, p.treeHeight);
  }

  /** The sets of height 40 over two layers leave no room for the marker. */
  lemma HeightFortyHasNoRoom(digest: Digest)
    ensures var p := Params(32, 4, 20, 2, StandardIndexBytes(2, 40), digest);
            p.Valid() && p.FullHeight() == 40 && !p.MarkerBeyondRange()
  {
  }

  /** The signature is the index, R and `d` equal layers. */
  lemma SigBytesByLayer(p: Params)
    ensures p.SigBytes() == p.indexBytes + p.n + p.d * p.LayerBytes()
  {
    assert p.FullHeight() * p.n == p.d * (p.treeHeight * p.n);
    assert p.d * p.LayerBytes() == p.d * p.WotsSigBytes() + p.d * (p.treeHeight * p.n);
  }

  lemma LayersFit(p: Params)
    requires p.Valid()
    ensures p.d < 64
  {
    hide Params.WotsLen;
    TimesMono(1, p.treeHeight, p.d);
  }

  /** Every index of the key is below `256^index_bytes` and below `2^64`. */
  lemma MaxIdxFits(p: Params)
    requires p.Valid()
    ensures p.MaxIdx() < Pow256(p.indexBytes) <= Pow2(64)
    ensures p.MaxIdx() < Pow2(63)
    ensures p.MarkerBeyondRange() <==> p.MaxIdx() < Pow256(p.indexBytes) - 1
  {
    Pow256IsPow2(p.indexBytes);
    PowMono(p.FullHeight(), 8 * p.indexBytes);
    PowMono(8 * p.indexBytes, 64);
    PowMono(p.FullHeight(), 63);
  }
}
