/**
 Message digits and checksum of WOTS+ (src/wots.rs:81-130). `base_w` cuts a byte string into
 base-w digits; the checksum is appended as `len2` further digits.
*/
module ChainLengths {
  import opened Bits
  import opened Bytes
  import opened Parameters

  // ---- specification ----

  /** Digits in a byte. */
  function DigitCount(logW: nat): nat {
    match logW
    case 2 => 4
    case 4 => 2
    case _ => 1
  }

  /** One byte as base-w digits, most significant first. */
  function ByteDigits(logW: nat, b: Byte): (ds: seq<nat>)
    requires logW in {2, 4, 8}
    ensures |ds| == DigitCount(logW)
    ensures forall j :: 0 <= j < |ds| ==> ds[j] < Radix(logW)
  {
    if logW == 2 then [b / 64, b / 16 % 4, b / 4 % 4, b % 4]
    else if logW == 4 then [b / 16, b % 16]
    else [b]
  }

  /** A byte string as base-w digits. */
  function Stream(logW: nat, input: seq<Byte>): (ds: seq<nat>)
    requires logW in {2, 4, 8}
    ensures logW == 2 ==> |ds| == 4 * |input|
    ensures logW == 4 ==> |ds| == 2 * |input|
    ensures logW == 8 ==> |ds| == |input|
    ensures forall j :: 0 <= j < |ds| ==> ds[j] < Radix(logW)
  {
    if |input| == 0 then [] else Stream(logW, input[..|input| - 1]) + ByteDigits(logW, input[|input| - 1])
  }

  /** The number whose base-w digits, most significant first, are `ds`. */
  function Value(w: nat, ds: seq<nat>): nat {
    if |ds| == 0 then 0 else w * Value(w, ds[..|ds| - 1]) + ds[|ds| - 1]
  }

  /** The sum of `w - 1 - d` over the digits. */
  function Checksum(w: nat, ds: seq<nat>): nat
    requires forall j :: 0 <= j < |ds| ==> ds[j] < w
  {
    if |ds| == 0 then 0 else Checksum(w, ds[..|ds| - 1]) + (w - 1 - ds[|ds| - 1])
  }

  /** The checksum moved to the top of its bytes. */
  function Shifted(p: Params, csum: nat): nat {
    match p.logW
    case 2 => 64 * csum
    case 4 => 16 * csum
    case _ => 256 * csum
  }

  lemma ShiftedIsShl(p: Params, csum: nat)
    requires p.WotsValid()
    ensures Shifted(p, csum) == csum * Pow2(8 - p.ChecksumBits() % 8)
  {
    Powers();
  }

  /** The digits under which a checksum is signed. */
  function ChecksumDigits(p: Params, csum: nat): (ds: seq<nat>)
    requires p.WotsValid()
    ensures |ds| == p.Len2()
    ensures forall j :: 0 <= j < |ds| ==> ds[j] < p.W()
  {
    Stream(p.logW, ToBytes(2, Shifted(p, csum)))[..p.Len2()]
  }

  function MessageDigits(p: Params, msg: seq<Byte>): (ds: seq<nat>)
    requires p.WotsValid() && |msg| == p.n
    ensures |ds| == p.Len1()
    ensures forall j :: 0 <= j < |ds| ==> ds[j] < p.W()
  {
    Stream(p.logW, msg)
  }

  function MessageChecksum(p: Params, msg: seq<Byte>): nat
    requires p.WotsValid() && |msg| == p.n
  {
    Checksum(p.W(), MessageDigits(p, msg))
  }

  /** How far along each chain a message is signed. */
  function Lengths(p: Params, msg: seq<Byte>): (ls: seq<nat>)
    requires p.WotsValid() && |msg| == p.n
    ensures |ls| == p.WotsLen()
    ensures forall i :: 0 <= i < |ls| ==> ls[i] < p.W()
  {
    MessageDigits(p, msg) + ChecksumDigits(p, MessageChecksum(p, msg))
  }

  // ---- digits ----

  lemma Powers()
    ensures Pow2(0) == 1 && Pow2(1) == 2 && Pow2(2) == 4 && Pow2(3) == 8 && Pow2(4) == 16
    ensures Pow2(6) == 64 && Pow2(8) == 256 && Pow2(10) == 1024 && Pow2(12) == 4096
  {
  }

  lemma ByteShifts(b: Byte)
    ensures Shr(b, 0) == b && Shr(b, 2) == b / 4 && Shr(b, 4) == b / 16 && Shr(b, 6) == b / 64
  {
    Powers();
    ShrIsDiv(b, 2);
    ShrIsDiv(b, 4);
    ShrIsDiv(b, 6);
  }

  lemma DigitMask(x: nat, logW: nat)
    requires logW in {2, 4, 8}
    ensures Low(x, logW) == x % Radix(logW)
  {
    Powers();
    ShrIsDiv(x, logW);
  }

  lemma QuarterAt(b: Byte, held: nat)
    requires held < 4
    ensures Shr(b, 2 * held) % 4 == ByteDigits(2, b)[3 - held]
  {
    ByteShifts(b);
    assert 2 * held in {0, 2, 4, 6};
  }

  lemma HalfAt(b: Byte, held: nat)
    requires held < 2
    ensures Shr(b, 4 * held) % 16 == ByteDigits(4, b)[1 - held]
  {
    ByteShifts(b);
    assert 4 * held in {0, 4};
  }

  lemma WholeAt(b: Byte)
    ensures Shr(b, 0) % 256 == ByteDigits(8, b)[0]
  {
    ByteShifts(b);
  }

  /** Shifting by the width of the `held` lower digits and masking picks out the next digit. */
  lemma ShiftAndMask(logW: nat, b: Byte, bits: nat, held: nat)
    requires logW in {2, 4, 8} && held < DigitCount(logW)
    requires logW == 2 ==> bits == 2 * held
    requires logW == 4 ==> bits == 4 * held
    requires logW == 8 ==> bits == 8 * held
    ensures Low(Shr(b, bits), logW) == ByteDigits(logW, b)[DigitCount(logW) - 1 - held]
  {
    hide Shr, Low, ByteDigits;
    DigitMask(Shr(b, bits), logW);
    if logW == 2 {
      QuarterAt(b, held);
    } else if logW == 4 {
      HalfAt(b, held);
    } else {
      WholeAt(b);
    }
  }

  /** Digit `slot` of byte `k` in the stream. */
  lemma {:induction false} StreamAt(logW: nat, input: seq<Byte>, k: nat, slot: nat)
    requires logW in {2, 4, 8} && k < |input| && slot < DigitCount(logW)
    ensures logW == 2 ==> Stream(logW, input)[4 * k + slot] == ByteDigits(logW, input[k])[slot]
    ensures logW == 4 ==> Stream(logW, input)[2 * k + slot] == ByteDigits(logW, input[k])[slot]
    ensures logW == 8 ==> Stream(logW, input)[k + slot] == ByteDigits(logW, input[k])[slot]
  {
    if k < |input| - 1 {
      StreamAt(logW, input[..|input| - 1], k, slot);
    }
  }

  lemma ValueSnoc(w: nat, ds: seq<nat>, d: nat)
    ensures Value(w, ds + [d]) == w * Value(w, ds) + d
  {
    assert (ds + [d])[..|ds|] == ds;
  }

  /** The base-w digits of a byte string form the same number as the bytes themselves. */
  lemma {:induction false} DigitsRebuild(logW: nat, input: seq<Byte>)
    requires logW in {2, 4, 8}
    ensures Value(Radix(logW), Stream(logW, input)) == FromBytes(input)
  {
    if |input| > 0 {
      var init, b := input[..|input| - 1], input[|input| - 1];
      DigitsRebuild(logW, init);
      AppendByte(logW, Stream(logW, init), b);
    }
  }

  lemma HexSum(v: nat)
    ensures v == 256 * (v / 256) + 16 * (v / 16 % 16) + v % 16
  {
    assert v / 256 == v / 16 / 16;
  }

  lemma QuarterSum(v: nat)
    ensures v == 64 * (v / 64) + 16 * (v / 16 % 4) + 4 * (v / 4 % 4) + v % 4
  {
    assert v / 16 == v / 4 / 4 && v / 64 == v / 16 / 4;
  }

  lemma AppendByte(logW: nat, ds: seq<nat>, b: Byte)
    requires logW in {2, 4, 8}
    ensures Value(Radix(logW), ds + ByteDigits(logW, b)) == 256 * Value(Radix(logW), ds) + b
  {
    if logW == 8 {
      ValueSnoc(256, ds, b);
    } else if logW == 4 {
      ValueSnoc2(16, ds, b / 16, b % 16);
    } else {
      QuarterSum(b);
      ValueSnoc2(4, ds, b / 64, b / 16 % 4);
      ValueSnoc2(4, ds + [b / 64, b / 16 % 4], b / 4 % 4, b % 4);
      assert ds + ByteDigits(2, b) == ds + [b / 64, b / 16 % 4] + [b / 4 % 4, b % 4];
    }
  }

  lemma ValueSnoc2(w: nat, ds: seq<nat>, d: nat, e: nat)
    ensures Value(w, ds + [d, e]) == w * (w * Value(w, ds) + d) + e
  {
    ValueSnoc(w, ds, d);
    ValueSnoc(w, ds + [d], e);
    assert ds + [d, e] == ds + [d] + [e];
  }

  /** `base_w` loses nothing: the digits of a message determine its bytes. */
  lemma DigitsInjective(p: Params, a: seq<Byte>, b: seq<Byte>)
    requires p.WotsValid() && |a| == |b| == p.n
    requires MessageDigits(p, a) == MessageDigits(p, b)
    ensures a == b
  {
    DigitsRebuild(p.logW, a);
    DigitsRebuild(p.logW, b);
    EncodeDecode(a);
    EncodeDecode(b);
  }

  // ---- the checksum ----

  lemma {:induction false} ChecksumBounds(w: nat, ds: seq<nat>)
    requires w > 0 && forall j :: 0 <= j < |ds| ==> ds[j] < w
    ensures Checksum(w, ds) <= |ds| * (w - 1)
  {
    if |ds| > 0 {
      ChecksumBounds(w, ds[..|ds| - 1]);
      assert |ds| * (w - 1) == (|ds| - 1) * (w - 1) + (w - 1);
    }
  }

  /** The sum fits the checksum digits and the 32-bit accumulator, for every digest up to 64 bytes. */
  lemma ChecksumFits(p: Params, msg: seq<Byte>)
    requires p.WotsValid() && |msg| == p.n
    ensures MessageChecksum(p, msg) < Pow2(p.ChecksumBits())
    ensures Shifted(p, MessageChecksum(p, msg)) < 0x1_0000_0000
  {
    Powers();
    ChecksumBounds(p.W(), MessageDigits(p, msg));
    assert Pow2(16) == 16 * Pow2(12);
  }

  lemma TwoBytes(v: nat)
    ensures ToBytes(2, v) == [v / 256 % 256, v % 256]
  {
    assert ToBytes(0, v / 256 / 256) == [];
    assert ToBytes(1, v / 256) == [v / 256 % 256];
  }

  lemma TwoByteStream(logW: nat, a: Byte, b: Byte)
    requires logW in {2, 4, 8}
    ensures Stream(logW, [a, b]) == ByteDigits(logW, a) + ByteDigits(logW, b)
  {
    assert [a, b][..1] == [a] && [a][..0] == [];
    assert Stream(logW, []) == [];
    assert Stream(logW, [a]) == ByteDigits(logW, a);
  }

  lemma HalfByte(a: nat, b: nat)
    requires a < 16 && b < 16
    ensures ByteDigits(4, 16 * a + b) == [a, b]
  {
  }

  /** The two bytes of `256 * hi + lo`. */
  lemma SplitBytes(hi: Byte, lo: Byte)
    ensures ToBytes(2, 256 * hi + lo) == [hi, lo]
  {
    TwoBytes(256 * hi + lo);
  }

  /** With 16-way chains the three checksum digits are exactly the base-16 digits of the sum. */
  lemma ChecksumDigits16(p: Params, a: nat, b: nat, c: nat)
    requires p.WotsValid() && p.logW == 4 && a < 16 && b < 16 && c < 16
    ensures ChecksumDigits(p, 256 * a + 16 * b + c) == [a, b, c]
  {
    assert Shifted(p, 256 * a + 16 * b + c) == 256 * (16 * a + b) + 16 * c;
    SplitBytes(16 * a + b, 16 * c);
    TwoByteStream(4, 16 * a + b, 16 * c);
    HalfByte(a, b);
    HalfByte(c, 0);
  }

  lemma QuarterByte(a: nat, b: nat, c: nat, d: nat)
    requires a < 4 && b < 4 && c < 4 && d < 4
    ensures ByteDigits(2, 64 * a + 16 * b + 4 * c + d) == [a, b, c, d]
  {
    var x := 64 * a + 16 * b + 4 * c + d;
    assert x / 4 == 16 * a + 4 * b + c;
    assert x / 16 == 4 * a + b;
  }

  /** With 4-way chains the five checksum digits are exactly the base-4 digits of the sum. */
  lemma ChecksumDigits4(p: Params, a: nat, b: nat, c: nat, d: nat, e: nat)
    requires p.WotsValid() && p.logW == 2 && a < 4 && b < 4 && c < 4 && d < 4 && e < 4
    ensures ChecksumDigits(p, 256 * a + 64 * b + 16 * c + 4 * d + e) == [a, b, c, d, e]
  {
    hide Stream, ToBytes, ByteDigits;
    var hi := 64 * a + 16 * b + 4 * c + d;
    assert Shifted(p, 256 * a + 64 * b + 16 * c + 4 * d + e) == 256 * hi + 64 * e;
    SplitBytes(hi, 64 * e);
    TwoByteStream(2, hi, 64 * e);
    QuarterByte(a, b, c, d);
    QuarterByte(e, 0, 0, 0);
    assert [a, b, c, d] + [e, 0, 0, 0] == [a, b, c, d, e, 0, 0, 0];
  }

  /** Read back in base w, the checksum digits are the checksum. */
  lemma ChecksumDigitsExact(p: Params, csum: nat)
    requires p.WotsValid() && p.logW != 8 && csum < Pow2(p.ChecksumBits())
    ensures Value(p.W(), ChecksumDigits(p, csum)) == csum
  {
    Powers();
    if p.logW == 4 {
      HexSum(csum);
      Exact16(p, csum / 256, csum / 16 % 16, csum % 16);
    } else {
      assert csum < 1024;
      var hi := csum / 4;
      QuarterSum(hi);
      Exact4(p, hi / 64, hi / 16 % 4, hi / 4 % 4, hi % 4, csum % 4);
    }
  }

  lemma Exact16(p: Params, a: nat, b: nat, c: nat)
    requires p.WotsValid() && p.logW == 4 && a < 16 && b < 16 && c < 16
    ensures Value(16, ChecksumDigits(p, 256 * a + 16 * b + c)) == 256 * a + 16 * b + c
  {
    ChecksumDigits16(p, a, b, c);
    Value3(16, a, b, c);
  }

  lemma Exact4(p: Params, a: nat, b: nat, c: nat, d: nat, e: nat)
    requires p.WotsValid() && p.logW == 2 && a < 4 && b < 4 && c < 4 && d < 4 && e < 4
    ensures Value(4, ChecksumDigits(p, 256 * a + 64 * b + 16 * c + 4 * d + e))
         == 256 * a + 64 * b + 16 * c + 4 * d + e
  {
    ChecksumDigits4(p, a, b, c, d, e);
    Value3(4, a, b, c);
    ValueSnoc2(4, [a, b, c], d, e);
    assert [a, b, c, d, e] == [a, b, c] + [d, e];
  }

  lemma Value3(w: nat, a: nat, b: nat, c: nat)
    ensures Value(w, [a, b, c]) == w * (w * a + b) + c
  {
    ValueSnoc(w, [], a);
    ValueSnoc2(w, [a], b, c);
    assert [] + [a] == [a] && [a, b, c] == [a] + [b, c];
  }

  /** With 256-way chains the shift is a whole byte and the high byte of the sum is lost. */
  lemma ChecksumDigitsWide(p: Params, csum: nat)
    requires p.WotsValid() && p.logW == 8
    ensures ChecksumDigits(p, csum) == [csum % 256, 0]
  {
    hide Stream, ToBytes;
    assert 256 * csum / 256 == csum && 256 * csum % 256 == 0;
    TwoBytes(256 * csum);
    TwoByteStream(8, csum % 256, 0);
    assert ByteDigits(8, csum % 256) + ByteDigits(8, 0) == [csum % 256, 0];
  }

  lemma WidePair(c: nat)
    ensures Value(256, [c, 0]) == 256 * c
  {
    ValueSnoc2(256, [], c, 0);
    assert [] + [c, 0] == [c, 0];
  }

  /** The signed checksum digits form the checksum of the message. */
  ghost predicate ChecksumExact(p: Params, msg: seq<Byte>)
    requires p.WotsValid() && |msg| == p.n
  {
    Value(p.W(), ChecksumDigits(p, MessageChecksum(p, msg))) == MessageChecksum(p, msg)
  }

  /**
   The checksum is carried exactly for every message if and only if its digits do not fill whole
   bytes, that is for w = 4 and w = 16 but not for w = 256.
  */
  lemma ChecksumExactIff(p: Params)
    requires p.WotsValid()
    ensures (forall msg: seq<Byte> | |msg| == p.n :: ChecksumExact(p, msg)) <==> p.ChecksumBits() % 8 != 0
  {
    hide Stream, ChecksumDigits, Checksum, MessageDigits, Value, Pow2;
    if p.logW == 8 {
      var zeros: seq<Byte> := seq(p.n, _ => 0);
      WideChecksum(p, zeros);
      ZeroSum(zeros);
      var c := 255 * p.n;
      ChecksumDigitsWide(p, c);
      WidePair(c % 256);
      assert !ChecksumExact(p, zeros);
    } else {
      forall msg: seq<Byte> | |msg| == p.n
        ensures ChecksumExact(p, msg)
      {
        ChecksumFits(p, msg);
        ChecksumDigitsExact(p, MessageChecksum(p, msg));
      }
    }
  }

  // ---- which chain gets which digit ----

  /** The sum of the numbers in `ds`. */
  function Total(ds: seq<nat>): nat {
    if |ds| == 0 then 0 else Total(ds[..|ds| - 1]) + ds[|ds| - 1]
  }

  /** The lengths at the place of byte `k` are the digits of `b`, high digit first. */
  ghost predicate Spells(p: Params, ls: seq<nat>, k: nat, b: Byte)
    requires p.WotsValid() && |ls| == p.WotsLen() && k < p.n
  {
    match p.logW
    case 2 => ls[4 * k] == b / 64 && ls[4 * k + 1] == b / 16 % 4 && ls[4 * k + 2] == b / 4 % 4 && ls[4 * k + 3] == b % 4
    case 4 => ls[2 * k] == b / 16 && ls[2 * k + 1] == b % 16
    case _ => ls[k] == b
  }

  /** The first lengths are the digits of the message bytes, in their order. */
  ghost predicate StartsWithDigits(p: Params, msg: seq<Byte>, ls: seq<nat>)
    requires p.WotsValid() && |msg| == p.n && |ls| == p.WotsLen()
  {
    forall k :: 0 <= k < p.n ==> Spells(p, ls, k, msg[k])
  }

  /**
   The last lengths spell, high digit first, what the message digits lack to their maximum. With w = 256
   that number is cut to one byte and followed by a zero.
  */
  ghost predicate EndsWithChecksum(p: Params, ls: seq<nat>)
    requires p.WotsValid() && |ls| == p.WotsLen()
  {
    var digits, c := Total(ls[..p.Len1()]), ls[p.Len1()..];
    match p.logW
    case 2 => 256 * c[0] + 64 * c[1] + 16 * c[2] + 4 * c[3] + c[4] + digits == 4 * p.n * 3
    case 4 => 256 * c[0] + 16 * c[1] + c[2] + digits == 2 * p.n * 15
    case _ => digits <= p.n * 255 && c[0] == (p.n * 255 - digits) % 256 && c[1] == 0
  }

  lemma {:induction false} ChecksumComplements(w: nat, ds: seq<nat>)
    requires w > 0 && forall j :: 0 <= j < |ds| ==> ds[j] < w
    ensures Checksum(w, ds) + Total(ds) == |ds| * (w - 1)
  {
    if |ds| > 0 {
      ChecksumComplements(w, ds[..|ds| - 1]);
      assert |ds| * (w - 1) == (|ds| - 1) * (w - 1) + (w - 1);
    }
  }

  lemma Value5(w: nat, c: seq<nat>)
    requires |c| == 5
    ensures Value(w, c) == w * (w * (w * (w * c[0] + c[1]) + c[2]) + c[3]) + c[4]
  {
    hide Value;
    Value3(w, c[0], c[1], c[2]);
    ValueSnoc2(w, [c[0], c[1], c[2]], c[3], c[4]);
    assert c == [c[0], c[1], c[2]] + [c[3], c[4]];
  }

  lemma ChecksumSpelled(p: Params, msg: seq<Byte>)
    requires p.WotsValid() && |msg| == p.n
    ensures EndsWithChecksum(p, Lengths(p, msg))
  {
    hide ChecksumDigits, MessageDigits, Checksum, Total, Value;
    var ds, csum := MessageDigits(p, msg), MessageChecksum(p, msg);
    var c, ls := ChecksumDigits(p, csum), Lengths(p, msg);
    assert ls[..p.Len1()] == ds && ls[p.Len1()..] == c;
    ChecksumComplements(p.W(), ds);
    if p.logW == 8 {
      ChecksumDigitsWide(p, csum);
    } else {
      ChecksumFits(p, msg);
      ChecksumDigitsExact(p, csum);
      if p.logW == 4 {
        Value3(16, c[0], c[1], c[2]);
        assert c == [c[0], c[1], c[2]];
      } else {
        Value5(4, c);
      }
    }
  }

  lemma DigitsSpelled(p: Params, msg: seq<Byte>)
    requires p.WotsValid() && |msg| == p.n
    ensures StartsWithDigits(p, msg, Lengths(p, msg))
  {
    hide Spells, Stream, ChecksumDigits, Checksum;
    forall k | 0 <= k < p.n ensures Spells(p, Lengths(p, msg), k, msg[k]) {
      ByteSpelled(p, msg, k);
    }
  }

  lemma ByteSpelled(p: Params, msg: seq<Byte>, k: nat)
    requires p.WotsValid() && |msg| == p.n && k < p.n
    ensures Spells(p, Lengths(p, msg), k, msg[k])
  {
    hide Stream, ChecksumDigits, Checksum;
    StreamAt(p.logW, msg, k, 0);
    if p.logW != 8 {
      StreamAt(p.logW, msg, k, 1);
    }
    if p.logW == 2 {
      StreamAt(p.logW, msg, k, 2);
      StreamAt(p.logW, msg, k, 3);
    }
  }

  // ---- no chain-length vector lies below another ----

  ghost predicate Below(a: seq<nat>, b: seq<nat>) {
    |a| == |b| && forall i :: 0 <= i < |a| ==> a[i] <= b[i]
  }

  /** Every chain of `b` stops no later than that of `a`. */
  ghost predicate Dominates(p: Params, a: seq<Byte>, b: seq<Byte>)
    requires p.WotsValid() && |a| == |b| == p.n
  {
    Below(Lengths(p, b), Lengths(p, a))
  }

  lemma {:induction false} ValueMono(w: nat, a: seq<nat>, b: seq<nat>)
    requires Below(a, b)
    ensures Value(w, a) <= Value(w, b)
  {
    if |a| > 0 {
      ValueMono(w, a[..|a| - 1], b[..|b| - 1]);
      TimesMono(Value(w, a[..|a| - 1]), Value(w, b[..|b| - 1]), w);
    }
  }

  /** Raising digits lowers the checksum, strictly when some digit is raised. */
  lemma {:induction false} ChecksumAntitone(w: nat, a: seq<nat>, b: seq<nat>)
    requires Below(a, b)
    requires forall j :: 0 <= j < |b| ==> b[j] < w
    ensures Checksum(w, a) >= Checksum(w, b)
    ensures a != b ==> Checksum(w, a) > Checksum(w, b)
  {
    if |a| > 0 {
      var k := |a| - 1;
      ChecksumAntitone(w, a[..k], b[..k]);
      assert a == a[..k] + [a[k]] && b == b[..k] + [b[k]];
    }
  }

  /** For w = 4 and w = 16, distinct messages have incomparable chain lengths. */
  lemma Antichain(p: Params, a: seq<Byte>, b: seq<Byte>)
    requires p.WotsValid() && p.logW != 8 && |a| == |b| == p.n && a != b
    ensures exists i :: 0 <= i < p.WotsLen() && Lengths(p, a)[i] < Lengths(p, b)[i]
  {
    if Below(Lengths(p, b), Lengths(p, a)) {
      var da, db := MessageDigits(p, a), MessageDigits(p, b);
      var ca, cb := MessageChecksum(p, a), MessageChecksum(p, b);
      BelowParts(db, ChecksumDigits(p, cb), da, ChecksumDigits(p, ca));
      ChecksumAntitone(p.W(), db, da);
      ValueMono(p.W(), ChecksumDigits(p, cb), ChecksumDigits(p, ca));
      ChecksumFits(p, a);
      ChecksumFits(p, b);
      ChecksumDigitsExact(p, ca);
      ChecksumDigitsExact(p, cb);
      if da == db {
        DigitsInjective(p, a, b);
      }
      assert false;
    }
  }

  lemma BelowParts(a: seq<nat>, c: seq<nat>, b: seq<nat>, d: seq<nat>)
    requires |a| == |b| && |c| == |d| && Below(a + c, b + d)
    ensures Below(a, b) && Below(c, d)
  {
    forall i | 0 <= i < |a| ensures a[i] <= b[i] {
      assert (a + c)[i] <= (b + d)[i];
    }
    forall i | 0 <= i < |c| ensures c[i] <= d[i] {
      assert (a + c)[|a| + i] <= (b + d)[|a| + i];
    }
  }

  /** With w = 256 the digits of a message are its bytes. */
  lemma WideDigits(input: seq<Byte>)
    ensures Stream(8, input) == input
  {
    hide Stream;
    forall k | 0 <= k < |input| ensures Stream(8, input)[k] == input[k] {
      WideDigit(input, k);
    }
  }

  lemma {:induction false} WideDigit(input: seq<Byte>, k: nat)
    requires k < |input|
    ensures Stream(8, input)[k] == input[k]
  {
    var last := |input| - 1;
    if k < last {
      WideDigit(input[..last], k);
      assert input[..last][k] == input[k];
    }
  }

  lemma WideChecksum(p: Params, msg: seq<Byte>)
    requires p.WotsValid() && p.logW == 8 && |msg| == p.n
    ensures MessageDigits(p, msg) == msg && p.W() == 256
  {
    WideDigits(msg);
    Powers();
  }

  lemma {:induction false} ZeroSum(zeros: seq<Byte>)
    requires forall j :: 0 <= j < |zeros| ==> zeros[j] == 0
    ensures Checksum(256, zeros) == 255 * |zeros|
  {
    if |zeros| > 0 {
      ZeroSum(zeros[..|zeros| - 1]);
    }
  }

  /** A single byte and its complement, which fits one byte, are incomparable even with w = 256. */
  lemma OneByteNeverDominates(p: Params, a: seq<Byte>, b: seq<Byte>)
    requires p.WotsValid() && p.logW == 8 && |a| == |b| == p.n == 1 && a != b
    ensures !Dominates(p, a, b)
  {
    hide Stream, ChecksumDigits, MessageDigits;
    OneByteLengths(p, a);
    OneByteLengths(p, b);
    assert a == [a[0]] && b == [b[0]];
    var la, lb := Lengths(p, a), Lengths(p, b);
    assert la[0] == a[0] && lb[0] == b[0] && la[1] == 255 - a[0] && lb[1] == 255 - b[0];
  }

  lemma OneByteLengths(p: Params, msg: seq<Byte>)
    requires p.WotsValid() && p.logW == 8 && |msg| == p.n == 1
    ensures Lengths(p, msg) == [msg[0], 255 - msg[0], 0]
  {
    hide Stream, ChecksumDigits, MessageDigits;
    WideChecksum(p, msg);
    assert Checksum(256, msg) == Checksum(256, msg[..0]) + (256 - 1 - msg[0]);
    assert MessageChecksum(p, msg) == 255 - msg[0];
    ChecksumDigitsWide(p, 255 - msg[0]);
  }

  /**
   Incomparability holds for all pairs of distinct messages if and only if the checksum digits do
   not fill whole bytes, as for w = 4 and w = 16, or the message is a single byte.
  */
  lemma AntichainIff(p: Params)
    requires p.WotsValid()
    ensures (forall a: seq<Byte>, b: seq<Byte> | |a| == |b| == p.n && a != b :: !Dominates(p, a, b))
       <==> p.ChecksumBits() % 8 != 0 || p.n == 1
  {
    if p.logW == 8 && p.n == 1 {
      forall a: seq<Byte>, b: seq<Byte> | |a| == |b| == p.n && a != b
        ensures !Dominates(p, a, b)
      {
        OneByteNeverDominates(p, a, b);
      }
    } else if p.logW == 8 {
      var zeros: seq<Byte> := seq(p.n, _ => 0);
      var raised: seq<Byte> := zeros[0 := 1][1 := 255];
      WideCounterexample(p, zeros, raised);
    } else {
      forall a: seq<Byte>, b: seq<Byte> | |a| == |b| == p.n && a != b
        ensures !Dominates(p, a, b)
      {
        NeverDominates(p, a, b);
      }
    }
  }

  lemma NeverDominates(p: Params, a: seq<Byte>, b: seq<Byte>)
    requires p.WotsValid() && p.logW != 8 && |a| == |b| == p.n && a != b
    ensures !Dominates(p, a, b)
  {
    Antichain(p, a, b);
  }

  lemma WideCounterexample(p: Params, zeros: seq<Byte>, raised: seq<Byte>)
    requires p.WotsValid() && p.logW == 8 && p.n >= 2 && |zeros| == p.n
    requires forall j :: 0 <= j < p.n ==> zeros[j] == 0
    requires raised == zeros[0 := 1][1 := 255]
    ensures zeros != raised && Dominates(p, raised, zeros)
  {
    hide Stream, ChecksumDigits, Checksum, MessageDigits;
    WideChecksum(p, zeros);
    WideChecksum(p, raised);
    ZeroSum(zeros);
    RaisedSum(zeros, raised);
    ChecksumDigitsWide(p, 255 * p.n);
    ChecksumDigitsWide(p, 255 * p.n - 256);
    assert raised[0] == 1 && zeros[0] == 0;
  }

  lemma {:induction false} RaisedSum(zeros: seq<Byte>, raised: seq<Byte>)
    requires |zeros| >= 2 && forall j :: 0 <= j < |zeros| ==> zeros[j] == 0
    requires raised == zeros[0 := 1][1 := 255]
    ensures Checksum(256, raised) == 255 * |zeros| - 256
  {
    if |zeros| == 2 {
      assert raised[..1] == [1] && raised[..1][..0] == [];
      assert Checksum(256, raised[..1]) == 254;
    } else {
      var k := |zeros| - 1;
      assert raised[..k] == zeros[..k][0 := 1][1 := 255];
      RaisedSum(zeros[..k], raised[..k]);
    }
  }

  // ---- the loops ----

  /** Fills `count` slots of `output` from `at` with the base-w digits of `input`. */
  method BaseW(p: Params, output: array<nat>, at: nat, count: nat, input: seq<Byte>)
    requires p.WotsValid() && at + count <= output.Length && count <= |Stream(p.logW, input)|
    modifies output
    ensures output[..] == old(output[..at]) + Stream(p.logW, input)[..count] + old(output[at + count..])
  {
    hide Stream, Shr, Low;
    ghost var ds := Stream(p.logW, input);
    var inIdx, total, bits := 0, 0, 0;
    for j := 0 to count
      invariant Cursor(p, input, j, inIdx, bits)
      invariant bits > 0 ==> total == input[inIdx - 1]
      invariant output[..at] == old(output[..at])
      invariant forall i :: 0 <= i < j ==> output[at + i] == ds[i]
      invariant output[at + count..] == old(output[at + count..])
    {
      if bits == 0 {
        total := input[inIdx];
        inIdx := inIdx + 1;
        bits := bits + 8;
      }
      bits := bits - p.logW;
      BaseWStep(p, input, inIdx - 1, bits, j);
      output[at + j] := Low(Shr(total, bits), p.logW);
    }
    assert output[at..at + count] == ds[..count];
    assert output[..] == output[..at] + output[at..at + count] + output[at + count..];
  }

  /** `inIdx` bytes are consumed and `j` digits written; `bits` bits are left of the last byte. */
  ghost predicate Cursor(p: Params, input: seq<Byte>, j: nat, inIdx: int, bits: int) {
    && 0 <= bits < 8 && 0 <= inIdx <= |input| && (bits > 0 ==> inIdx > 0)
    && (p.logW == 2 ==> bits in {0, 2, 4, 6} && 2 * j + bits == 8 * inIdx)
    && (p.logW == 4 ==> bits in {0, 4} && 4 * j + bits == 8 * inIdx)
    && (p.logW == 8 ==> bits == 0 && j == inIdx)
  }

  lemma BaseWStep(p: Params, input: seq<Byte>, k: nat, bits: nat, j: nat)
    requires p.WotsValid() && k < |input| && Cursor(p, input, j + 1, k + 1, bits)
    ensures j < |Stream(p.logW, input)| && Stream(p.logW, input)[j] == Low(Shr(input[k], bits), p.logW)
  {
    hide Stream, ByteDigits, Shr, Low;
    var held := if p.logW == 2 then bits / 2 else if p.logW == 4 then bits / 4 else 0;
    ShiftAndMask(p.logW, input[k], bits, held);
    StreamAt(p.logW, input, k, DigitCount(p.logW) - 1 - held);
  }

  /** Fills the checksum slots from the message digits before them. */
  method WotsChecksum(p: Params, lengths: array<nat>)
    requires p.WotsValid() && lengths.Length == p.WotsLen()
    requires forall j :: 0 <= j < p.Len1() ==> lengths[..p.Len1()][j] < p.W()
    modifies lengths
    ensures lengths[..] == old(lengths[..p.Len1()]) + ChecksumDigits(p, Checksum(p.W(), old(lengths[..p.Len1()])))
  {
    hide Stream, Pow2, ToBytes;
    ghost var ds := lengths[..p.Len1()];
    var csum := 0;
    for j := 0 to p.Len1()
      invariant csum == Checksum(p.W(), ds[..j])
    {
      assert ds[..j + 1][..j] == ds[..j];
      assert ds[j] == lengths[j];
      csum := csum + (p.W() - 1 - lengths[j]);
    }
    assert ds[..p.Len1()] == ds;
    ShiftedIsShl(p, csum);
    csum := csum * Pow2(8 - p.ChecksumBits() % 8);
    var csumBytes := new Byte[(p.ChecksumBits() + 7) / 8];
    UllToBytes(csumBytes, 0, csumBytes.Length, csum);
    assert csumBytes[..] == ToBytes(2, csum);
    BaseW(p, lengths, p.Len1(), p.Len2(), csumBytes[..]);
  }

  /** Derives the chain lengths of a message. */
  method DeriveLengths(p: Params, lengths: array<nat>, msg: seq<Byte>)
    requires p.WotsValid() && lengths.Length == p.WotsLen() && |msg| == p.n
    modifies lengths
    ensures lengths[..] == Lengths(p, msg)
    ensures StartsWithDigits(p, msg, lengths[..]) && EndsWithChecksum(p, lengths[..])
  {
    hide Stream, ChecksumDigits, Checksum, StartsWithDigits, EndsWithChecksum;
    DigitsSpelled(p, msg);
    ChecksumSpelled(p, msg);
    BaseW(p, lengths, 0, p.Len1(), msg);
    assert lengths[..p.Len1()] == MessageDigits(p, msg);
    WotsChecksum(p, lengths);
  }
}
