/** The bitwise operators of the source on unsigned words, bit by bit, and what
    they come to on the operands the source gives them. */
module Bits {
  import opened Dyadic
  import opened Words

  function Xor(a: nat, b: nat): nat
    decreases a + b
  {
    if a == 0 && b == 0 then 0
    else (a % 2 + b % 2) % 2 + 2 * Xor(a / 2, b / 2)
  }

  function Or(a: nat, b: nat): nat
    decreases a + b
  {
    if a == 0 && b == 0 then 0
    else (if a % 2 + b % 2 > 0 then 1 else 0) + 2 * Or(a / 2, b / 2)
  }

  function And(a: nat, b: nat): nat
    decreases a + b
  {
    if a == 0 || b == 0 then 0
    else (if a % 2 + b % 2 == 2 then 1 else 0) + 2 * And(a / 2, b / 2)
  }

  lemma {:induction false} XorZero(a: nat)
    ensures Xor(a, 0) == a
  {
    if a > 0 {
      XorZero(a / 2);
    }
  }

  lemma {:induction false} ShlDouble(q: nat, k: nat)
    ensures Shl(2 * q, k) == 2 * Shl(q, k)
    decreases k
  {
    if k > 0 {
      ShlDouble(2 * q, k - 1);
    }
  }

  /** Exclusive or with 2^k toggles the lowest bit above k zeros. */
  lemma {:induction false} XorFlips(q: nat, k: nat)
    ensures Xor(Shl(q, k), Pow2(k)) == Shl(Flip(q), k)
  {
    if k == 0 {
      XorZero(q / 2);
    } else {
      ShlDouble(q, k - 1);
      ShlDouble(Flip(q), k - 1);
      XorFlips(q, k - 1);
    }
  }

  lemma {:induction false} OrZero(a: nat)
    ensures Or(a, 0) == a
  {
    if a > 0 {
      OrZero(a / 2);
    }
  }

  /** a | (2^k - 1) is the last address of the 2^k-byte span that holds a. */
  lemma {:induction false} OrMask(a: nat, k: nat)
    ensures Or(a, Pow2(k) - 1) == Shl(Shr(a, k), k) + Pow2(k) - 1
  {
    if k == 0 {
      OrZero(a);
    } else {
      OrMask(a / 2, k - 1);
      ShrLowFirst(a, k);
      ShlDouble(Shr(a, k), k - 1);
      assert (Pow2(k) - 1) / 2 == Pow2(k - 1) - 1;
    }
  }

  /** a & (2^k - 1) is what the shift right by k loses. */
  lemma {:induction false} AndMask(a: nat, k: nat)
    ensures And(a, Pow2(k) - 1) < Pow2(k)
    ensures a == Shl(Shr(a, k), k) + And(a, Pow2(k) - 1)
  {
    if k > 0 {
      AndMask(a / 2, k - 1);
      ShrLowFirst(a, k);
      ShlDouble(Shr(a, k), k - 1);
      assert (Pow2(k) - 1) / 2 == Pow2(k - 1) - 1;
      if a == 0 {
        ShlIsTimes(Shr(a, k), k);
      }
    }
  }

  /** Shifting right by k divides by 2^k; masking with 2^k - 1 takes the rest. */
  lemma ShrIsDiv(a: nat, k: nat)
    ensures Shr(a, k) == a / Pow2(k) && And(a, Pow2(k) - 1) == a % Pow2(k)
  {
    AndMask(a, k);
    ShlIsTimes(Shr(a, k), k);
    DivUnique(a, Pow2(k), Shr(a, k), And(a, Pow2(k) - 1));
  }

  lemma AndStep(a: nat, b: nat, low: nat)
    requires low < 2
    ensures And(2 * a + low, 2 * b) == 2 * And(a, b)
  {
  }

  /** Bits below those of the mask do not matter. */
  lemma {:induction false} AndHigh(q: nat, m: nat, low: nat, k: nat)
    requires low < Pow2(k)
    ensures And(Shl(q, k) + low, Shl(m, k)) == Shl(And(q, m), k)
    decreases k
  {
    if k > 0 {
      AndHigh(q, m, low / 2, k - 1);
      ShlDouble(q, k - 1);
      ShlDouble(m, k - 1);
      ShlDouble(And(q, m), k - 1);
      AndStep(Shl(q, k - 1) + low / 2, Shl(m, k - 1), low % 2);
    }
  }
}
