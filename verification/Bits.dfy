/** Bitwise operations on natural numbers, and bytes. */
module Bits {
  type Byte = b: int | 0 <= b < 256

  predicate Bit(n: nat, i: nat) {
    if i == 0 then n % 2 == 1 else Bit(n / 2, i - 1)
  }

  function BitOf(b: bool): nat {
    if b then 1 else 0
  }

  /** Combines two numbers bit by bit; op must give false on two false bits. */
  function Bitwise(op: (bool, bool) -> bool, a: nat, b: nat): nat {
    if a == 0 && b == 0 then 0
    else BitOf(op(a % 2 == 1, b % 2 == 1)) + 2 * Bitwise(op, a / 2, b / 2)
  }

  function And(): (bool, bool) -> bool { (x, y) => x && y }
  function Or(): (bool, bool) -> bool { (x, y) => x || y }
  function Xor(): (bool, bool) -> bool { (x, y) => x != y }
  /** x land (lnot y) */
  function AndNot(): (bool, bool) -> bool { (x, y) => x && !y }

  function Shl(a: nat, k: nat): nat {
    if k == 0 then a else 2 * Shl(a, k - 1)
  }

  function Shr(a: nat, k: nat): nat {
    if k == 0 then a else Shr(a / 2, k - 1)
  }

  /** last_char_mask */
  function Mask(k: nat): nat {
    if k == 0 then 0 else 1 + 2 * Mask(k - 1)
  }

  lemma {:induction false} ZeroBit(i: nat)
    ensures !Bit(0, i)
  {
    if i > 0 {
      ZeroBit(i - 1);
    }
  }

  lemma {:induction false} BitwiseBit(op: (bool, bool) -> bool, a: nat, b: nat, i: nat)
    requires !op(false, false)
    ensures Bit(Bitwise(op, a, b), i) == op(Bit(a, i), Bit(b, i))
  {
    if a == 0 && b == 0 {
      ZeroBit(i);
    } else {
      var r := Bitwise(op, a, b);
      var h := Bitwise(op, a / 2, b / 2);
      assert r / 2 == h && r % 2 == BitOf(op(a % 2 == 1, b % 2 == 1));
      if i > 0 {
        BitwiseBit(op, a / 2, b / 2, i - 1);
      }
    }
  }

  lemma {:induction false} ShlBit(a: nat, k: nat, i: nat)
    ensures Bit(Shl(a, k), i) == (i >= k && Bit(a, i - k))
  {
    if k > 0 {
      var h := Shl(a, k - 1);
      assert (2 * h) / 2 == h && (2 * h) % 2 == 0;
      if i > 0 {
        ShlBit(a, k - 1, i - 1);
      }
    }
  }

  lemma {:induction false} ShrBit(a: nat, k: nat, i: nat)
    ensures Bit(Shr(a, k), i) == Bit(a, i + k)
  {
    if k > 0 {
      ShrBit(a / 2, k - 1, i);
    }
  }

  lemma {:induction false} MaskBit(k: nat, i: nat)
    ensures Bit(Mask(k), i) == (i < k)
  {
    if k == 0 {
      ZeroBit(i);
    } else {
      var h := Mask(k - 1);
      assert (1 + 2 * h) / 2 == h && (1 + 2 * h) % 2 == 1;
      if i > 0 {
        MaskBit(k - 1, i - 1);
      }
    }
  }

  // ---------------------------------------------------------------- sizes

  function Pow2(k: nat): nat {
    if k == 0 then 1 else 2 * Pow2(k - 1)
  }

  /** A number is below 2^k iff it has no bit from k on. */
  lemma {:induction false} BelowPow2(n: nat, k: nat)
    ensures n < Pow2(k) ==> forall i: nat :: i >= k ==> !Bit(n, i)
    decreases k
  {
    if n < Pow2(k) {
      forall i: nat | i >= k
        ensures !Bit(n, i)
      {
        if k == 0 {
          ZeroBit(i);
        } else {
          BelowPow2(n / 2, k - 1);
        }
      }
    }
  }

  lemma {:induction false} NoHighBits(n: nat, k: nat)
    requires forall i: nat :: i >= k ==> !Bit(n, i)
    ensures n < Pow2(k)
    decreases n, k
  {
    if k == 0 {
      forall i: nat
        ensures Bit(n, i) == Bit(0, i)
      {
        ZeroBit(i);
      }
      SameBits(n, 0);
    } else {
      forall i: nat | i >= k - 1
        ensures !Bit(n / 2, i)
      {
        assert !Bit(n, i + 1);
      }
      if n == 0 {
        Pow2Positive(k);
      } else {
        NoHighBits(n / 2, k - 1);
      }
    }
  }

  lemma {:induction false} Pow2Positive(k: nat)
    ensures Pow2(k) > 0
  {
    if k > 0 {
      Pow2Positive(k - 1);
    }
  }

  /** Two numbers with the same bits are equal. */
  lemma {:induction false} SameBits(a: nat, b: nat)
    requires forall i: nat :: Bit(a, i) == Bit(b, i)
    ensures a == b
    decreases a + b
  {
    assert Bit(a, 0) == Bit(b, 0);
    if a > 0 || b > 0 {
      forall i: nat
        ensures Bit(a / 2, i) == Bit(b / 2, i)
      {
        assert Bit(a, i + 1) == Bit(b, i + 1);
      }
      SameBits(a / 2, b / 2);
    }
  }

  // ---------------------------------------------------------------- bytes

  lemma ByteHighBits(b: Byte)
    ensures forall i: nat :: i >= 8 ==> !Bit(b, i)
  {
    assert Pow2(8) == 256;
    BelowPow2(b, 8);
  }

  lemma IsByte(n: nat)
    requires forall i: nat :: i >= 8 ==> !Bit(n, i)
    ensures n < 256
  {
    assert Pow2(8) == 256;
    NoHighBits(n, 8);
  }

  lemma SameByte(a: Byte, b: Byte)
    requires forall i: nat :: i < 8 ==> Bit(a, i) == Bit(b, i)
    ensures a == b
  {
    ByteHighBits(a);
    ByteHighBits(b);
    SameBits(a, b);
  }

  /** n land 0xff, as a byte. */
  function LowByte(n: nat): (b: Byte)
    ensures forall i: nat :: Bit(b, i) == (i < 8 && Bit(n, i))
  {
    var b := Bitwise(And(), n, Mask(8));
    assert forall i: nat :: Bit(b, i) == (i < 8 && Bit(n, i)) by {
      forall i: nat
        ensures Bit(b, i) == (i < 8 && Bit(n, i))
      {
        BitwiseBit(And(), n, Mask(8), i);
        MaskBit(8, i);
      }
    }
    IsByte(b);
    b
  }
}
