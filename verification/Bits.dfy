/**
 The bit operations the link's window performs on a `u64`, on the number
 itself: `>>` and `<<` one place at a time, `|` bit by bit.
 */
module Bits {
  import opened Arith
  import opened Bytes

  predicate Bit(b: nat, i: nat) {
    if i == 0 then b % 2 == 1 else Bit(b / 2, i - 1)
  }

  function ShiftRight(b: u64, n: nat): u64
    decreases n
  {
    if n == 0 then b else ShiftRight(b / 2, n - 1)
  }

  /** Bits pushed past bit 63 are lost. */
  function ShiftLeft(b: u64, n: nat): u64
    decreases n
  {
    if n == 0 then b else ShiftLeft(b, n - 1) * 2 % TWO_64
  }

  function Or(a: nat, b: nat): nat
    decreases a + b
  {
    if a == 0 && b == 0 then 0
    else 2 * Or(a / 2, b / 2) + if a % 2 == 1 || b % 2 == 1 then 1 else 0
  }

  /** Exclusive or, bit by bit. */
  function Xor(a: nat, b: nat): nat
    decreases a + b
  {
    if a == 0 && b == 0 then 0
    else 2 * Xor(a / 2, b / 2) + if a % 2 != b % 2 then 1 else 0
  }

  lemma {:induction false} XorStaysBelow(a: nat, b: nat, n: nat)
    requires a < Pow2(n) && b < Pow2(n)
    ensures Xor(a, b) < Pow2(n)
    decreases n
  {
    if n > 0 {
      XorStaysBelow(a / 2, b / 2, n - 1);
    }
  }

  lemma XorHalf(a: nat, b: nat)
    ensures Xor(a, b) / 2 == Xor(a / 2, b / 2)
    ensures Xor(a, b) % 2 == 1 <==> a % 2 != b % 2
  {
  }

  /** A bit of the result is set exactly when the two bits differ. */
  lemma {:induction false} XorBit(a: nat, b: nat, i: nat)
    ensures Bit(Xor(a, b), i) <==> Bit(a, i) != Bit(b, i)
    decreases i
  {
    XorHalf(a, b);
    if i > 0 {
      XorBit(a / 2, b / 2, i - 1);
    }
  }

  /** Numbers of `n` bits with the same bits are the same number. */
  lemma {:induction false} SameBits(a: nat, b: nat, n: nat)
    requires a < Pow2(n) && b < Pow2(n)
    requires forall i: nat | i < n :: Bit(a, i) == Bit(b, i)
    ensures a == b
    decreases n
  {
    if n > 0 {
      forall i: nat | i < n - 1 ensures Bit(a / 2, i) == Bit(b / 2, i) {
        assert Bit(a, i + 1) == Bit(b, i + 1);
      }
      SameBits(a / 2, b / 2, n - 1);
      assert Bit(a, 0) == Bit(b, 0);
    }
  }

  lemma {:induction false} OrStaysBelow(a: nat, b: nat, n: nat)
    requires a < Pow2(n) && b < Pow2(n)
    ensures Or(a, b) < Pow2(n)
    decreases n
  {
    if n > 0 {
      OrStaysBelow(a / 2, b / 2, n - 1);
    }
  }

  function Pow2(n: nat): (p: nat)
    ensures p > 0
  {
    if n == 0 then 1 else 2 * Pow2(n - 1)
  }

  lemma {:induction false} BitByShift(b: u64, i: nat)
    ensures ShiftRight(b, i) % 2 == if Bit(b, i) then 1 else 0
    decreases i
  {
    if i > 0 {
      BitByShift(b / 2, i - 1);
    }
  }

  lemma OrHalf(a: nat, b: nat)
    ensures Or(a, b) / 2 == Or(a / 2, b / 2)
    ensures Or(a, b) % 2 == 1 <==> a % 2 == 1 || b % 2 == 1
  {
  }

  lemma {:induction false} OrBit(a: nat, b: nat, i: nat)
    ensures Bit(Or(a, b), i) <==> Bit(a, i) || Bit(b, i)
    decreases i
  {
    if a == 0 && b == 0 {
      ZeroBit(i);
    } else if i == 0 {
      OrHalf(a, b);
    } else {
      OrBit(a / 2, b / 2, i - 1);
      OrHalf(a, b);
    }
  }

  lemma {:induction false} ZeroBit(i: nat)
    ensures !Bit(0, i)
  {
    if i > 0 {
      ZeroBit(i - 1);
    }
  }

  lemma HalfOfRemainder(y: nat, q: nat)
    requires q > 0
    ensures (y % (2 * q)) % 2 == y % 2 && (y % (2 * q)) / 2 == (y / 2) % q
  {
    var d, r := y / (2 * q), y % (2 * q);
    var m := q * d;
    assert y == 2 * m + r by {
      assert y == 2 * q * d + r;
    }
    DivModIs(y / 2, q, d, r / 2);
  }

  /** Keeping the low `m` bits keeps each of them. */
  lemma {:induction false} LowBits(y: nat, m: nat, i: nat)
    requires i < m
    ensures Bit(y % Pow2(m), i) <==> Bit(y, i)
    decreases m
  {
    HalfOfRemainder(y, Pow2(m - 1));
    if i > 0 {
      LowBits(y / 2, m - 1, i - 1);
    }
  }

  lemma {:induction false} Pow2Sum(a: nat, b: nat)
    ensures Pow2(a + b) == Pow2(a) * Pow2(b)
    decreases a
  {
    if a > 0 {
      Pow2Sum(a - 1, b);
      assert Pow2(a + b) == 2 * Pow2(a - 1 + b);
    }
  }

  lemma {:induction false} Pow2Mono(a: nat, b: nat)
    requires a <= b
    ensures Pow2(a) <= Pow2(b)
    decreases b
  {
    if a < b {
      Pow2Mono(a, b - 1);
    }
  }

  lemma Pow2Of64()
    ensures Pow2(64) == TWO_64
  {
    assert Pow2(4) == 16;
    Pow2Sum(4, 4);
    Pow2Sum(8, 8);
    Pow2Sum(16, 16);
    Pow2Sum(32, 32);
  }

  /** A left shift by `s` moves bit `i - s` to bit `i` and clears the bits below `s`. */
  lemma {:induction false} ShiftLeftBit(b: u64, s: nat, i: nat)
    requires i < 64
    ensures Bit(ShiftLeft(b, s), i) <==> i >= s && Bit(b, i - s)
    decreases s
  {
    if s > 0 {
      var y := ShiftLeft(b, s - 1) * 2;
      Pow2Of64();
      LowBits(y, 64, i);
      if i > 0 {
        ShiftLeftBit(b, s - 1, i - 1);
        assert y / 2 == ShiftLeft(b, s - 1);
      }
    }
  }
}

