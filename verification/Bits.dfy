/** The bitwise operators of `u64` on non-negative integers, defined bit by bit, and the laws that
    turn the masks of the descriptor code into arithmetic on fields. */
module Bits {

  const U64: nat := 0x1_0000_0000_0000_0000

  /** `x & y` */
  function And(x: nat, y: nat): nat
  {
    if x == 0 || y == 0 then 0
    else (if x % 2 == 1 && y % 2 == 1 then 1 else 0) + 2 * And(x / 2, y / 2)
  }

  /** `x | y` */
  function Or(x: nat, y: nat): nat
  {
    if x == 0 then y
    else if y == 0 then x
    else (if x % 2 == 1 || y % 2 == 1 then 1 else 0) + 2 * Or(x / 2, y / 2)
  }

  /** `!x` for a 64-bit word */
  function Not(x: nat): nat
    requires x < U64
  {
    U64 - 1 - x
  }

  function Pow2(n: nat): (p: nat)
    ensures p >= 1
  {
    if n == 0 then 1 else 2 * Pow2(n - 1)
  }

  lemma {:induction false} AndStep(x: nat, y: nat)
    ensures And(x, y) == (if x % 2 == 1 && y % 2 == 1 then 1 else 0) + 2 * And(x / 2, y / 2)
  {
  }

  lemma {:induction false} OrIsSumMinusAnd(x: nat, y: nat)
    ensures Or(x, y) == x + y - And(x, y)
  {
    if x != 0 && y != 0 {
      OrIsSumMinusAnd(x / 2, y / 2);
    }
  }

  lemma Double(a: nat, k: nat)
    requires k > 0
    ensures a * Pow2(k) == 2 * (a * Pow2(k - 1))
  {
    var p := Pow2(k - 1);
    assert a * (2 * p) == 2 * (a * p);
  }

  lemma HalfOfSplit(x: nat, h: nat, l: nat, k: nat)
    requires k > 0 && l < Pow2(k) && x == h * Pow2(k) + l
    ensures x / 2 == h * Pow2(k - 1) + l / 2
    ensures x % 2 == l % 2
    ensures l / 2 < Pow2(k - 1)
  {
    Double(h, k);
  }

  /** `&` works on the two halves of a split at bit `k` independently. */
  lemma {:induction false} AndSplit(x: nat, y: nat, h: nat, l: nat, mh: nat, ml: nat, k: nat)
    requires l < Pow2(k) && ml < Pow2(k)
    requires x == h * Pow2(k) + l && y == mh * Pow2(k) + ml
    ensures And(x, y) == And(h, mh) * Pow2(k) + And(l, ml)
    decreases k
  {
    if k == 0 {
      assert x == h && y == mh;
    } else {
      HalfOfSplit(x, h, l, k);
      HalfOfSplit(y, mh, ml, k);
      AndSplit(x / 2, y / 2, h, l / 2, mh, ml / 2, k - 1);
      AndStep(l, ml);
      AndStep(x, y);
      Double(And(h, mh), k);
    }
  }

  /** Masking with `n` ones keeps the `n` low bits, and nothing is lost below `2^n`. */
  lemma {:induction false} AndOnes(x: nat, n: nat)
    requires x < Pow2(n)
    ensures And(x, Pow2(n) - 1) == x
    decreases n
  {
    if n > 0 {
      AndOnes(x / 2, n - 1);
      AndStep(x, Pow2(n) - 1);
    }
  }

  lemma PowersOfTwo()
    ensures Pow2(2) == 4 && Pow2(9) == 512 && Pow2(12) == 4096 && Pow2(16) == 0x1_0000 && Pow2(21) == 0x20_0000
    ensures Pow2(27) == 0x800_0000 && Pow2(36) == 0x10_0000_0000 && Pow2(52) == 0x10_0000_0000_0000
  {
    assert Pow2(4) == 16;
    assert Pow2(8) == 256;
    assert Pow2(12) == 4096;
    assert Pow2(16) == 0x1_0000;
    assert Pow2(20) == 0x10_0000;
    assert Pow2(24) == 0x100_0000;
    assert Pow2(28) == 0x1000_0000;
    assert Pow2(32) == 0x1_0000_0000;
    assert Pow2(36) == 0x10_0000_0000;
    assert Pow2(40) == 0x100_0000_0000;
    assert Pow2(44) == 0x1000_0000_0000;
    assert Pow2(48) == 0x1_0000_0000_0000;
  }
}
