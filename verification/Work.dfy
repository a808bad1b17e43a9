/**
 The cost of walking one layer through a whole tree, in leaf computations
 (src/xmss_core.rs:303-333; README.md:94-107).
*/
module Work {
  import opened Bits
  import opened Traversal

  /** Leaf computations of the first `steps` moves along the leaves. */
  function WalkWork(steps: nat): nat {
    if steps == 0 then 0 else WalkWork(steps - 1) + StepWork(steps - 1)
  }

  lemma {:induction false} OnesBelow(x: nat, k: nat)
    requires x + 1 < Pow2(k)
    ensures TrailingOnes(x + Pow2(k)) == TrailingOnes(x)
  {
    if k > 0 && x % 2 == 1 {
      assert (x + Pow2(k)) / 2 == x / 2 + Pow2(k - 1);
      OnesBelow(x / 2, k - 1);
    }
  }

  lemma {:induction false} OnesOfMask(k: nat)
    ensures TrailingOnes(Pow2(k) - 1) == k
  {
    if k > 0 {
      assert (Pow2(k) - 1) / 2 == Pow2(k - 1) - 1;
      OnesOfMask(k - 1);
    }
  }

  /** The right half of a tree costs what the left half does. */
  lemma {:induction false} ShiftedWork(k: nat, steps: nat)
    requires steps < Pow2(k)
    ensures WalkWork(Pow2(k) + steps) == WalkWork(Pow2(k)) + WalkWork(steps)
  {
    hide Pow2, TrailingOnes;
    if steps > 0 {
      ShiftedWork(k, steps - 1);
      OnesBelow(steps - 1, k);
    }
  }

  lemma MiddleStep(k: nat)
    ensures StepWork(Pow2(k) - 1) == 2 * Pow2(k) - 1
  {
    hide TrailingOnes;
    OnesOfMask(k);
  }

  lemma FirstTree()
    ensures WalkWork(Pow2(1) - 1) == 1 && (1 - 1) * Pow2(1) + 1 == 1
  {
    assert TrailingOnes(0) == 0 && Pow2(1) == 2;
    assert WalkWork(1) == WalkWork(0) + StepWork(0);
  }

  /** A tree is two half trees and the step between them. */
  lemma TwoHalves(h: nat)
    requires h >= 1
    ensures WalkWork(Pow2(h + 1) - 1) == 2 * WalkWork(Pow2(h) - 1) + 2 * Pow2(h) - 1
  {
    hide StepWork;
    var half := Pow2(h);
    assert Pow2(h + 1) == 2 * half;
    MiddleStep(h);
    ShiftedWork(h, half - 1);
    assert WalkWork(half) == WalkWork(half - 1) + StepWork(half - 1);
  }

  /** Walking through all `2^h` leaves takes exactly `(h - 1) * 2^h + 1` leaf computations. */
  lemma {:induction false} TreeWork(h: nat)
    requires h >= 1
    ensures WalkWork(Pow2(h) - 1) == (h - 1) * Pow2(h) + 1
  {
    hide WalkWork, StepWork;
    if h == 1 {
      FirstTree();
    } else {
      TreeWork(h - 1);
      TwoHalves(h - 1);
      WorkArithmetic(h, Pow2(h - 1));
    }
  }

  lemma WorkArithmetic(h: nat, half: nat)
    requires h >= 2
    ensures 2 * ((h - 2) * half + 1) + 2 * half - 1 == (h - 1) * (2 * half) + 1
  {
  }

  /** Per signature that is less than `h`, although the costliest single step takes `2^h - 1`. */
  lemma AmortizedWork(h: nat)
    requires h >= 2
    ensures WalkWork(Pow2(h) - 1) < h * Pow2(h)
    ensures forall leaf: nat :: leaf + 1 < Pow2(h) ==> StepWork(leaf) <= Pow2(h) - 1
    ensures Pow2(h - 1) - 1 + 1 < Pow2(h) && StepWork(Pow2(h - 1) - 1) == Pow2(h) - 1
  {
    TreeWork(h);
    assert h * Pow2(h) == (h - 1) * Pow2(h) + Pow2(h);
    PowMono(2, h);
    assert Pow2(2) == 4;
    MiddleStep(h - 1);
    forall leaf: nat | leaf + 1 < Pow2(h)
      ensures StepWork(leaf) <= Pow2(h) - 1
    {
      TrailingOnesBound(leaf, h);
      PowMono(TrailingOnes(leaf) + 1, h);
    }
  }
}
