/** The handful of facts about products, quotients and remainders the proofs lean on. */
module Arith {

  lemma MulMono(a: int, b: int, c: int)
    requires a <= b && 0 <= c
    ensures a * c <= b * c
  {
  }

  /** Quotient and remainder are the only way to write `x` as `q * d + r` with `r` below `q`. */
  lemma DivModIs(x: int, q: int, d: int, r: int)
    requires q > 0 && x == q * d + r && 0 <= r < q
    ensures x / q == d && x % q == r
  {
    var e := x / q;
    assert q * (e - d) == r - x % q by {
      assert q * (e - d) == q * e - q * d;
    }
    if e - d >= 1 {
      MulMono(1, e - d, q);
    } else if e - d <= -1 {
      MulMono(e - d, -1, q);
    }
  }

  /** The quotient of two naturals, as a natural. */
  function Quotient(a: nat, b: nat): nat
    requires b > 0
  {
    QuotientIsNat(a, b);
    a / b
  }

  lemma QuotientIsNat(a: nat, b: nat)
    requires b > 0
    ensures a / b >= 0
  {
    var q := a / b;
    assert a == b * q + a % b;
    if q <= -1 {
      MulMono(q, -1, b);
    }
  }

  /** A quotient, by the multiples it lies between. */
  lemma QuotientBetween(x: nat, n: nat)
    requires n > 0
    ensures var q := Quotient(x, n); q * n <= x < (q + 1) * n
  {
    assert x == n * (x / n) + x % n;
  }

  function Total(r: seq<nat>): nat {
    if r == [] then 0 else r[0] + Total(r[1..])
  }

  lemma {:induction false} TotalOfOneMore(r: seq<nat>, x: nat)
    ensures Total(r + [x]) == Total(r) + x
  {
    if r == [] {
      assert r + [x] == [x] && [x][1..] == [];
    } else {
      assert (r + [x])[1..] == r[1..] + [x];
      TotalOfOneMore(r[1..], x);
    }
  }

  /** `x % n`, for a ring index less than once around. */
  function Wrap(n: nat, x: nat): (i: nat)
    requires 0 < n && x < 2 * n
    ensures i == (if x < n then x else x - n) && i == x % n
  {
    if x < n then DivModIs(x, n, 0, x); x else DivModIs(x, n, 1, x - n); x - n
  }
}
