/** Integer square roots: the digit-by-digit 64-bit root of the detector, and the reference. */
module IntSqrt {
  import opened Arith
  import opened Bits
  import opened Bytes

  ghost predicate IsRoot(r: nat, v: nat) {
    r * r <= v < (r + 1) * (r + 1)
  }

  lemma RootIsUnique(r: nat, s: nat, v: nat)
    requires IsRoot(r, v) && IsRoot(s, v)
    ensures r == s
  {
    if r < s {
      SquareMono(r + 1, s);
    } else if s < r {
      SquareMono(s + 1, r);
    }
  }

  lemma SquareMono(a: nat, b: nat)
    requires a <= b
    ensures a * a <= b * b
  {
    MulMono(a, b, a);
    MulMono(a, b, b);
  }

  /** The floor of the square root, two bits of the argument at a time. */
  function FloorSqrt(v: nat): (r: nat)
    ensures IsRoot(r, v)
  {
    if v == 0 then 0
    else
      var r := 2 * FloorSqrt(v / 4);
      NextDigit(v, FloorSqrt(v / 4));
      if (r + 1) * (r + 1) <= v then r + 1 else r
  }

  lemma NextDigit(v: nat, h: nat)
    requires IsRoot(h, v / 4)
    ensures (2 * h) * (2 * h) <= v < (2 * h + 2) * (2 * h + 2)
  {
    assert (2 * h) * (2 * h) == 4 * (h * h);
    assert (2 * h + 2) * (2 * h + 2) == 4 * ((h + 1) * (h + 1));
  }

  // ---------------------------------------------------------------------
  // The digit loop
  // ---------------------------------------------------------------------

  /** `bit` at digit `k`: 4^k, and 0 once the digits have run out. */
  ghost function BitAt(k: int): nat
    requires k >= -1
  {
    if k == -1 then 0 else Pow2(k) * Pow2(k)
  }

  lemma BitShift(k: nat)
    ensures BitAt(k) / 4 == BitAt(k - 1) && BitAt(k) > 0
  {
    if k > 0 {
      var h := Pow2(k - 1);
      assert (2 * h) * (2 * h) == 4 * (h * h);
    }
    MulMono(1, Pow2(k), Pow2(k));
  }

  /**
   Where the digit loop stands with digits `k` and below to find: `r` is the
   root so far, `rem` what is left of `v`, and `root` is `r` scaled.
   */
  ghost predicate Standing(v: nat, k: int, r: nat, rem: int, root: int) {
    && k >= -1
    && r * r <= v < (r + Pow2(k + 1)) * (r + Pow2(k + 1))
    && r + Pow2(k + 1) <= TWO_32
    && rem == v - r * r
    && root == r * Pow2(k + 1)
  }

  /** One digit: the test on the scaled values is the test on the root itself. */
  lemma OneDigit(v: nat, k: nat, r: nat, rem: int, root: int)
    requires Standing(v, k, r, rem, root)
    ensures rem >= root + BitAt(k) ==> Standing(v, k - 1, r + Pow2(k), rem - (root + BitAt(k)), root / 2 + BitAt(k))
    ensures rem < root + BitAt(k) ==> Standing(v, k - 1, r, rem, root / 2)
    ensures 0 <= root + BitAt(k) < TWO_64
  {
    var h := Pow2(k);
    assert Pow2(k + 1) == 2 * h;
    var rh, hh := r * h, h * h;
    assert root == 2 * rh by {
      assert r * (2 * h) == 2 * (r * h);
    }
    assert (r + h) * (r + h) == r * r + 2 * rh + hh;
    assert (r + h) * h == rh + hh;
    SquareMono(r + h, TWO_32 - 1);
  }

  /** No digit above `k` can be set. */
  ghost predicate Leading(v: nat, k: int) {
    -1 <= k <= 31 && v < Pow2(k + 1) * Pow2(k + 1)
  }

  lemma LowerLeading(v: nat, k: nat)
    requires Leading(v, k) && BitAt(k) > v
    ensures Leading(v, k - 1)
  {
  }

  lemma StartDigits(v: nat, k: int)
    requires Leading(v, k)
    ensures Standing(v, k, 0, v, 0)
  {
    Pow2Mono(k + 1, 32);
    Pow2Of32();
  }

  lemma EndDigits(v: nat, r: nat, rem: int, root: int)
    requires Standing(v, -1, r, rem, root)
    ensures root == r && IsRoot(r, v)
  {
    assert Pow2(0) == 1;
  }

  lemma Pow2Of32()
    ensures Pow2(32) == TWO_32
  {
    assert Pow2(4) == 16;
    Pow2Sum(4, 4);
    Pow2Sum(8, 8);
    Pow2Sum(16, 16);
  }

  /** `isqrt64`: the floor of the square root of every `u64`, nothing overflowing on the way. */
  method Isqrt64(v: u64) returns (root: u64)
    ensures IsRoot(root, v)
  {
    var rem: u64 := v;
    root := 0;
    var bit, k := SkipLeadingZeros(v);
    ghost var r: nat := 0;
    while bit != 0
      invariant Standing(v, k, r, rem, root) && bit == BitAt(k)
      decreases k
    {
      rem, root, r := FindDigit(v, k, r, rem, root, bit);
      BitShift(k);
      bit := bit / 4;
      k := k - 1;
    }
    NoDigitsLeft(k);
    EndDigits(v, r, rem, root);
  }

  /** The highest place a digit can stand in, found before the digits are. */
  method SkipLeadingZeros(v: u64) returns (bit: u64, ghost k: int)
    ensures k >= -1 && bit == BitAt(k) && Standing(v, k, 0, v, 0)
  {
    bit := 0x4000_0000_0000_0000;
    k := FirstDigit(v);
    while bit > v
      invariant Leading(v, k) && bit == BitAt(k)
      decreases k
    {
      BitShift(k);
      LowerLeading(v, k);
      bit := bit / 4;
      k := k - 1;
    }
    StartDigits(v, k);
  }

  /** The body of the digit loop, with every intermediate value in 64 bits. */
  method FindDigit(ghost v: nat, ghost k: int, ghost r: nat, rem: u64, root: u64, bit: u64)
    returns (rem2: u64, root2: u64, ghost r2: nat)
    requires Standing(v, k, r, rem, root) && bit == BitAt(k) && bit != 0
    ensures Standing(v, k - 1, r2, rem2, root2)
  {
    OneDigit(v, k, r, rem, root);
    var trial: u64 := root + bit;
    if rem >= trial {
      rem2, root2, r2 := rem - trial, root / 2 + bit, r + Pow2(k);
    } else {
      rem2, root2, r2 := rem, root / 2, r;
    }
  }

  lemma NoDigitsLeft(k: int)
    requires k >= -1 && BitAt(k) == 0
    ensures k == -1
  {
    if k >= 0 {
      BitShift(k);
    }
  }

  lemma FirstDigit(v: u64) returns (k: nat)
    ensures BitAt(k) == 0x4000_0000_0000_0000 && Leading(v, k)
  {
    Pow2Of32();
    k := 31;
    assert Pow2(k + 1) == 2 * Pow2(k);
  }
}
