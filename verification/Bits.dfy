/**
 Shifts, masks and the other bit operations of the library, on unbounded naturals.
 Every shift amount in the code stays below the machine width, so no bits are lost.
*/
module Bits {

  function Pow2(k: nat): (r: nat)
    ensures r > 0
  {
    if k == 0 then 1 else 2 * Pow2(k - 1)
  }

  /** `x >> k` */
  function Shr(x: nat, k: nat): nat {
    if k == 0 then x else Shr(x / 2, k - 1)
  }

  /** `x & ((1 << k) - 1)` */
  function Low(x: nat, k: nat): nat {
    if k == 0 then 0 else x % 2 + 2 * Low(x / 2, k - 1)
  }

  /** `x ^ 1` */
  function Flip(x: nat): nat {
    if x % 2 == 0 then x + 1 else x - 1
  }

  /** `x.trailing_ones()` */
  function TrailingOnes(x: nat): nat {
    if x % 2 == 1 then 1 + TrailingOnes(x / 2) else 0
  }

  /** `x.count_ones()` */
  function PopCount(x: nat): nat {
    if x == 0 then 0 else x % 2 + PopCount(x / 2)
  }

  // ---- powers of two ----

  lemma {:induction false} PowAdd(a: nat, b: nat)
    ensures Pow2(a + b) == Pow2(a) * Pow2(b)
  {
    if a == 0 {
    } else {
      PowAdd(a - 1, b);
      assert Pow2(a + b) == 2 * (Pow2(a - 1) * Pow2(b)) == (2 * Pow2(a - 1)) * Pow2(b);
    }
  }

  lemma {:induction false} PowMono(a: nat, b: nat)
    requires a <= b
    ensures Pow2(a) <= Pow2(b)
    ensures a < b ==> 2 * Pow2(a) <= Pow2(b)
    decreases b
  {
    if a < b {
      PowMono(a, b - 1);
    }
  }

  lemma Pow31()
    ensures Pow2(31) == 0x8000_0000
  {
    assert Pow2(8) == 256;
    PowAdd(8, 8);
    PowAdd(16, 8);
    assert Pow2(7) == 128;
    PowAdd(24, 7);
  }

  lemma OneBit()
    ensures Pow2(1) == 2
  {
  }

  lemma Pow64()
    ensures Pow2(64) == 0x1_0000_0000_0000_0000
  {
    hide Pow2;
    Pow31();
    OneBit();
    PowAdd(31, 1);
    PowAdd(32, 32);
  }

  lemma PowOrder(a: nat, b: nat)
    requires Pow2(a) < Pow2(b)
    ensures a < b
  {
    if b <= a {
      PowMono(b, a);
    }
  }

  lemma TimesMono(a: nat, b: nat, m: nat)
    requires a <= b
    ensures a * m <= b * m
  {
  }

  lemma Twice(a: nat, m: nat)
    ensures a * (2 * m) == 2 * (a * m)
  {
  }

  lemma Cancel(a: nat, b: nat, m: nat)
    requires m > 0 && a * m == b * m
    ensures a == b
  {
  }

  lemma {:induction false} EvenMultiple(a: nat, g: nat, b: nat, h: nat)
    requires g > h && a * Pow2(g) == b * Pow2(h)
    ensures b % 2 == 0
  {
    Twice(a, Pow2(g - 1));
    if h > 0 {
      Twice(b, Pow2(h - 1));
      EvenMultiple(a, g - 1, b, h - 1);
    }
  }

  // ---- shift and mask split a number ----

  lemma {:induction false} Split(x: nat, k: nat)
    ensures x == Shr(x, k) * Pow2(k) + Low(x, k)
    ensures Low(x, k) < Pow2(k)
  {
    if k > 0 {
      Split(x / 2, k - 1);
      Twice(Shr(x / 2, k - 1), Pow2(k - 1));
    }
  }

  lemma {:induction false} SplitUnique(q: nat, r: nat, k: nat)
    requires r < Pow2(k)
    ensures Shr(q * Pow2(k) + r, k) == q
    ensures Low(q * Pow2(k) + r, k) == r
  {
    if k > 0 {
      var x := q * Pow2(k) + r;
      Twice(q, Pow2(k - 1));
      assert x / 2 == q * Pow2(k - 1) + r / 2 && x % 2 == r % 2;
      SplitUnique(q, r / 2, k - 1);
    } else {
      assert r == 0;
    }
  }

  lemma {:induction false} QuotientUnique(a: nat, b: nat, q: nat, r: nat, m: nat)
    requires b < m && r < m && a * m + b == q * m + r
    ensures a == q && b == r
  {
    assert a > 0 ==> a * m == (a - 1) * m + m;
    assert q > 0 ==> q * m == (q - 1) * m + m;
    if a > 0 && q > 0 {
      QuotientUnique(a - 1, b, q - 1, r, m);
    }
  }

  /** The recursive shift and mask are division and remainder by a power of two. */
  lemma ShrIsDiv(x: nat, k: nat)
    ensures Shr(x, k) == x / Pow2(k)
    ensures Low(x, k) == x % Pow2(k)
  {
    Split(x, k);
    DivModUnique(x, Shr(x, k), Low(x, k), Pow2(k));
  }

  lemma DivModUnique(x: nat, q: nat, r: nat, m: nat)
    requires r < m && x == q * m + r
    ensures x / m == q && x % m == r
  {
    var a, b := x / m, x % m;
    assert x == m * a + b;
    QuotientUnique(a, b, q, r, m);
  }

  lemma {:induction false} ShrAdd(x: nat, a: nat, b: nat)
    ensures Shr(Shr(x, a), b) == Shr(x, a + b)
  {
    if a > 0 {
      ShrAdd(x / 2, a - 1, b);
    }
  }

  lemma ShrHalf(x: nat, k: nat)
    ensures Shr(x, k + 1) == Shr(x, k) / 2
  {
    ShrAdd(x, k, 1);
    assert Shr(Shr(x, k), 1) == Shr(Shr(x, k) / 2, 0);
  }

  lemma ShrSmall(x: nat, k: nat)
    requires x < Pow2(k)
    ensures Shr(x, k) == 0 && Low(x, k) == x
  {
    SplitUnique(0, x, k);
  }

  lemma {:induction false} ShrShrinks(x: nat, k: nat)
    ensures Shr(x, k) <= x
  {
    if k > 0 {
      ShrShrinks(x / 2, k - 1);
    }
  }

  lemma {:induction false} ShrBound(x: nat, h: nat, k: nat)
    requires h <= k && x < Pow2(k)
    ensures Shr(x, h) < Pow2(k - h)
  {
    if h > 0 {
      ShrBound(x / 2, h - 1, k - 1);
    }
  }

  // ---- counting up by one ----

  /** While `x + 1` is a multiple of `2^k`, every shift by at most `k` moves with it. */
  lemma {:induction false} ShrCarry(x: nat, q: nat, k: nat, j: nat)
    requires x + 1 == (q + 1) * Pow2(k) && j <= k
    ensures Shr(x + 1, j) == Shr(x, j) + 1
    ensures Shr(x, k) == q
  {
    if k > 0 {
      Twice(q + 1, Pow2(k - 1));
      assert (x + 1) / 2 == x / 2 + 1;
      ShrCarry(x / 2, q, k - 1, if j > 0 then j - 1 else 0);
    }
  }

  /** A shift moves from `x` to `x + 1` exactly when it is at most the number of trailing ones. */
  lemma {:induction false} ShrSucc(x: nat, h: nat)
    ensures Shr(x + 1, h) == if h <= TrailingOnes(x) then Shr(x, h) + 1 else Shr(x, h)
  {
    if h > 0 {
      if x % 2 == 1 {
        assert (x + 1) / 2 == x / 2 + 1;
        ShrSucc(x / 2, h - 1);
      } else {
        assert (x + 1) / 2 == x / 2;
      }
    }
  }

  lemma {:induction false} TrailingOnesBound(x: nat, k: nat)
    requires x + 1 < Pow2(k)
    ensures TrailingOnes(x) < k
  {
    if x % 2 == 1 {
      TrailingOnesBound(x / 2, k - 1);
    }
  }

  lemma {:induction false} PopCountShift(x: nat, h: nat)
    ensures PopCount(x * Pow2(h)) == PopCount(x)
  {
    if h > 0 {
      Twice(x, Pow2(h - 1));
      PopCountShift(x, h - 1);
    }
  }

  lemma PopCountAdd(q: nat, h: nat)
    requires q % 2 == 0
    ensures PopCount((q + 1) * Pow2(h)) == PopCount(q * Pow2(h)) + 1
  {
    PopCountShift(q + 1, h);
    PopCountShift(q, h);
    assert (q + 1) / 2 == q / 2;
  }

  lemma FlipBound(x: nat, k: nat)
    requires x < Pow2(k) && k > 0
    ensures Flip(x) < Pow2(k)
  {
    assert Pow2(k) == 2 * Pow2(k - 1);
  }
}
