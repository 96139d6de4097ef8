/** The operations of math/big that the prefix pool uses on addresses, bit by bit. */
module BigInt {
  import opened Powers

  /** `Int.Or` on non-negative integers. */
  function Or(a: nat, b: nat): nat
    decreases a + b
  {
    if a == 0 && b == 0 then 0
    else 2 * Or(a / 2, b / 2) + (if a % 2 == 1 || b % 2 == 1 then 1 else 0)
  }

  /** `Int.SetBit(x, k, 0)` on non-negative integers. */
  function ClearBit(x: nat, k: nat): nat
    decreases k
  {
    if k == 0 then x - x % 2 else 2 * ClearBit(x / 2, k - 1) + x % 2
  }

  function Bit(x: nat, k: nat): nat {
    (x / Pow2(k)) % 2
  }

  lemma {:induction false} OrZero(a: nat)
    ensures Or(a, 0) == a
  {
    if a > 0 {
      OrZero(a / 2);
    }
  }

  lemma BitOfHalf(x: nat, k: nat)
    requires k > 0
    ensures Bit(x, k) == Bit(x / 2, k - 1)
  {
    HalfDivMod(x, Pow2(k - 1));
  }

  /** OR with one bit adds its weight, unless the bit is already there. */
  lemma {:induction false} OrWithBit(a: nat, k: nat)
    ensures Or(a, Pow2(k)) == if Bit(a, k) == 1 then a else a + Pow2(k)
    decreases k
  {
    if k == 0 {
      OrZero(a / 2);
      assert Pow2(0) == 1;
    } else {
      OrWithBit(a / 2, k - 1);
      BitOfHalf(a, k);
      var m := Pow2(k - 1);
      assert Pow2(k) == 2 * m;
      assert Or(a, 2 * m) == 2 * Or(a / 2, m) + a % 2;
    }
  }

  /** Clearing one bit takes its weight away, if it was there. */
  lemma {:induction false} ClearBitTakesWeight(x: nat, k: nat)
    ensures ClearBit(x, k) == if Bit(x, k) == 1 then x - Pow2(k) else x
    decreases k
  {
    if k == 0 {
      assert Pow2(0) == 1;
    } else {
      ClearBitTakesWeight(x / 2, k - 1);
      BitOfHalf(x, k);
    }
  }
}
