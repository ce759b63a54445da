/**
 The statistics of one subcarrier over the detector's window, and the wander
 of a whole window as a function of its frames.
 */
module WanderStats {
  import opened Arith
  import opened Bytes
  import opened IntSqrt

  /** Largest amplitude a `u16` holds. */
  const TOP: int := 65535

  function Square(x: u16): u32 {
    MulMono(x, TOP, x);
    MulMono(x, TOP, TOP);
    x * x
  }

  function Sum(a: seq<u16>): (s: nat) {
    if a == [] then 0 else a[0] + Sum(a[1..])
  }

  function SumSq(a: seq<u16>): (s: nat) {
    if a == [] then 0 else Square(a[0]) + SumSq(a[1..])
  }

  lemma {:induction false} SumOfConcat(a: seq<u16>, b: seq<u16>)
    ensures Sum(a + b) == Sum(a) + Sum(b) && SumSq(a + b) == SumSq(a) + SumSq(b)
  {
    if a == [] {
      assert a + b == b;
    } else {
      assert (a + b)[1..] == a[1..] + b;
      SumOfConcat(a[1..], b);
    }
  }

  /** One entry replaced: both totals change by that entry alone. */
  lemma SumOfUpdate(a: seq<u16>, i: nat, x: u16)
    requires i < |a|
    ensures Sum(a[i := x]) == Sum(a) - a[i] + x
    ensures SumSq(a[i := x]) == SumSq(a) - Square(a[i]) + Square(x)
  {
    assert a == a[..i] + ([a[i]] + a[i + 1..]);
    assert a[i := x] == a[..i] + ([x] + a[i + 1..]);
    SumOfConcat(a[..i], [a[i]] + a[i + 1..]);
    SumOfConcat(a[..i], [x] + a[i + 1..]);
  }

  /** A rotation has the same totals. */
  lemma SumOfRotation(a: seq<u16>, k: nat)
    requires k <= |a|
    ensures Sum(a[k..] + a[..k]) == Sum(a) && SumSq(a[k..] + a[..k]) == SumSq(a)
  {
    assert a == a[..k] + a[k..];
    SumOfConcat(a[..k], a[k..]);
    SumOfConcat(a[k..], a[..k]);
  }

  lemma {:induction false} SumBounds(a: seq<u16>)
    ensures Sum(a) <= |a| * TOP
    ensures SumSq(a) <= TOP * Sum(a)
  {
    if a != [] {
      SumBounds(a[1..]);
      MulMono(a[0], TOP, a[0]);
    }
  }

  lemma {:induction false} EntryBelowSum(a: seq<u16>, i: nat)
    requires i < |a|
    ensures a[i] <= Sum(a) && Square(a[i]) <= SumSq(a)
  {
    if i > 0 {
      EntryBelowSum(a[1..], i - 1);
    }
  }

  lemma SquareIsNat(x: int)
    ensures x * x >= 0
  {
  }

  // ---------------------------------------------------------------------
  // The variance
  // ---------------------------------------------------------------------

  /** `W * SUM(a^2) - SUM(a)^2`: the population variance times the window length squared. */
  function Spread(a: seq<u16>): int {
    |a| * SumSq(a) - Sum(a) * Sum(a)
  }

  /** Squared distances from `x`, added up. */
  function Deviation(a: seq<u16>, x: int): (d: int)
    ensures d >= 0
  {
    if a == [] then 0 else SquareIsNat(a[0] - x); (a[0] - x) * (a[0] - x) + Deviation(a[1..], x)
  }

  lemma {:induction false} DeviationByTotals(a: seq<u16>, x: int)
    ensures Deviation(a, x) == SumSq(a) - 2 * x * Sum(a) + |a| * (x * x)
  {
    if a != [] {
      DeviationByTotals(a[1..], x);
      DeviationStep(a[0], x, SumSq(a[1..]), Sum(a[1..]), |a| - 1);
    }
  }

  lemma DeviationStep(y: int, x: int, q: int, s: int, n: int)
    ensures (y - x) * (y - x) + (q - 2 * x * s + n * (x * x)) == (y * y + q) - 2 * x * (y + s) + (n + 1) * (x * x)
  {
  }

  lemma SpreadStep(y: int, q: int, s: int, n: int)
    ensures (n + 1) * (y * y + q) - (y + s) * (y + s) == (n * q - s * s) + (q - 2 * y * s + n * (y * y))
  {
  }

  /** The totals of one amplitude; with `SumOfConcat`, that is all of both sums. */
  lemma SumOfOne(x: u16, c: int)
    ensures Sum([x]) == x && SumSq([x]) == x * x && Sum([]) == SumSq([]) == 0
    ensures Deviation([x], c) == (x - c) * (x - c) && Deviation([], c) == 0
  {
    assert [x][1..] == [];
  }

  lemma {:induction false} DeviationOfConcat(a: seq<u16>, b: seq<u16>, x: int)
    ensures Deviation(a + b, x) == Deviation(a, x) + Deviation(b, x)
  {
    if a == [] {
      assert a + b == b;
    } else {
      assert (a + b)[1..] == a[1..] + b;
      DeviationOfConcat(a[1..], b, x);
    }
  }

  /**
   What the spread measures, about any centre: the squared distances from it,
   times the window length, less the square of how far off the centre is in
   all. About the mean that second part is nothing.
   */
  lemma SpreadAbout(a: seq<u16>, x: int, off: int)
    requires off == Sum(a) - |a| * x
    ensures |a| * Deviation(a, x) == Spread(a) + off * off
    ensures off == 0 ==> Spread(a) == |a| * Deviation(a, x)
  {
    DeviationByTotals(a, x);
    AboutCentre(|a|, SumSq(a), Sum(a), x, Deviation(a, x), off);
  }

  lemma AboutCentre(n: int, q: int, s: int, x: int, d: int, off: int)
    requires d == q - 2 * x * s + n * (x * x) && off == s - n * x
    ensures n * d == (n * q - s * s) + off * off
  {
    var nx := n * x;
    assert n * (2 * x * s) == 2 * nx * s;
    assert n * (n * (x * x)) == nx * nx;
    assert n * d == n * q - n * (2 * x * s) + n * (n * (x * x));
    assert off * off == s * s - 2 * nx * s + nx * nx;
  }

  /** Cauchy-Schwarz: the subtraction `compute_wander` saturates never needs to. */
  lemma {:induction false} SpreadIsNat(a: seq<u16>)
    ensures Spread(a) >= 0
  {
    if a != [] {
      SpreadIsNat(a[1..]);
      DeviationByTotals(a[1..], a[0]);
      SpreadStep(a[0], SumSq(a[1..]), Sum(a[1..]), |a| - 1);
    }
  }

  /** The variance of values in `0..=65535` is at most a quarter of the range squared. */
  lemma SpreadBound(a: seq<u16>)
    ensures 4 * Spread(a) <= (|a| * TOP) * (|a| * TOP)
  {
    SumBounds(a);
    BoundByTotals(|a|, SumSq(a), Sum(a));
  }

  lemma BoundByTotals(w: nat, q: nat, s: nat)
    requires q <= TOP * s
    ensures 4 * (w * q - s * s) <= (w * TOP) * (w * TOP)
  {
    MulMono(q, TOP * s, w);
    QuarterBound(w * TOP, s);
    assert w * (TOP * s) == (w * TOP) * s;
  }

  lemma QuarterBound(m: int, s: int)
    ensures 4 * (m * s - s * s) <= m * m
  {
    SquareIsNat(m - 2 * s);
    assert (m - 2 * s) * (m - 2 * s) == m * m - 4 * (m * s) + 4 * (s * s);
  }

  /** What the 64-bit product `256 * var_w2` holds. */
  function Scaled(a: seq<u16>): (v: u64) {
    SpreadIsNat(a);
    Times256(Spread(a))
  }

  /** The product as 64 bits hold it: past them it wraps. */
  function Times256(varW2: nat): u64 {
    256 * varW2 % TWO_64
  }

  /** Up to 8192 frames the scaled variance never leaves 64 bits ... */
  lemma ScaledIsExact(a: seq<u16>)
    requires |a| <= 8192
    ensures Scaled(a) == 256 * Spread(a)
  {
    SpreadIsNat(a);
    SpreadBound(a);
    SquareMono(|a| * TOP, 8192 * TOP);
  }

  function Half(k: nat, n: nat): seq<u16>
  {
    seq(k, _ => 65535) + seq(n, _ => 0)
  }

  lemma {:induction false} SumOfConstant(k: nat, x: u16)
    ensures Sum(seq(k, _ => x)) == k * x && SumSq(seq(k, _ => x)) == k * Square(x)
  {
    if k > 0 {
      assert seq(k, _ => x)[1..] == seq(k - 1, _ => x);
      SumOfConstant(k - 1, x);
    }
  }

  lemma SpreadOfHalf(k: nat, n: nat)
    ensures |Half(k, n)| == k + n && Spread(Half(k, n)) == k * n * (TOP * TOP)
  {
    SumOfConcat(seq(k, _ => 65535), seq(n, _ => 0));
    SumOfConstant(k, 65535);
    SumOfConstant(n, 0);
    var t := TOP * TOP;
    assert (k * TOP) * (k * TOP) == k * k * t;
    assert (k + n) * (k * t) == k * k * t + k * n * t;
  }

  /** ... and that is the exact limit: every longer window has frames that overflow it. */
  lemma ScaledOverflows(w: nat)
    requires w > 8192
    ensures |Half(w / 2, w - w / 2)| == w && 256 * Spread(Half(w / 2, w - w / 2)) >= TWO_64
  {
    SpreadOfHalf(w / 2, w - w / 2);
    var k, n := w / 2, w - w / 2;
    assert k * n >= 4096 * 4097 by {
      MulMono(4096, k, n);
      MulMono(4097, n, 4096);
    }
    MulMono(4096 * 4097, k * n, TOP * TOP);
  }

  lemma ScaledExactIff(w: nat)
    ensures w <= 8192 <==> forall a: seq<u16> | |a| == w :: 256 * Spread(a) < TWO_64
  {
    if w <= 8192 {
      forall a: seq<u16> | |a| == w ensures 256 * Spread(a) < TWO_64 {
        ScaledIsExact(a);
      }
    } else {
      ScaledOverflows(w);
    }
  }

  // ---------------------------------------------------------------------
  // The standard deviation and one subcarrier's term
  // ---------------------------------------------------------------------

  function StdFrom(scaled: nat, w: nat): nat
    requires w > 0
  {
    Quotient(FloorSqrt(scaled), w)
  }

  /** The standard deviation with four fractional bits. */
  function Std16(a: seq<u16>): nat
    requires |a| > 0
  {
    StdFrom(Scaled(a), |a|)
  }

  /** The floor of the quotient of a floored root is the floor of the exact quotient. */
  lemma NestedFloor(r: nat, v: nat, w: nat)
    requires w > 0 && IsRoot(r, v)
    ensures var s := r / w; (s * w) * (s * w) <= v < ((s + 1) * w) * ((s + 1) * w)
  {
    QuotientBrackets(r, w);
    RootBrackets(r, v, r / w * w, (r / w + 1) * w);
  }

  lemma RootBrackets(r: nat, v: nat, low: nat, high: nat)
    requires IsRoot(r, v) && low <= r < high
    ensures low * low <= v < high * high
  {
    SquareMono(low, r);
    SquareMono(r + 1, high);
  }

  lemma QuotientBrackets(r: nat, w: nat)
    requires w > 0
    ensures r / w * w <= r && r + 1 <= (r / w + 1) * w
  {
    assert r == w * (r / w) + r % w;
  }

  /** Both floors at once: `Std16` is exactly the floor of sixteen standard deviations. */
  lemma Std16IsExact(a: seq<u16>)
    requires 0 < |a| <= 8192
    ensures var s := Std16(a);
      (s * |a|) * (s * |a|) <= 256 * Spread(a) < ((s + 1) * |a|) * ((s + 1) * |a|)
  {
    ScaledIsExact(a);
    NestedFloor(FloorSqrt(Scaled(a)), Scaled(a), |a|);
  }

  /**
   Sixteen standard deviations fit 16 bits exactly when the product under the
   root stays below 2^32 times the window length squared; unwrapped, when the
   scaled variance stays below 2^24 times it.
   */
  lemma Std16FitsIff(a: seq<u16>)
    requires |a| > 0
    ensures Std16(a) <= TOP <==> Scaled(a) < TWO_32 * (|a| * |a|)
    ensures |a| <= 8192 ==> (Std16(a) <= TOP <==> Spread(a) < 0x100_0000 * (|a| * |a|))
  {
    NestedFloor(FloorSqrt(Scaled(a)), Scaled(a), |a|);
    FitsIff(Std16(a), Scaled(a), |a|);
    if |a| <= 8192 {
      ScaledIsExact(a);
    }
  }

  lemma FitsIff(s: nat, v: nat, w: nat)
    requires w > 0 && (s * w) * (s * w) <= v < ((s + 1) * w) * ((s + 1) * w)
    ensures s <= TOP <==> v < TWO_32 * (w * w)
  {
    assert ((TOP + 1) * w) * ((TOP + 1) * w) == TWO_32 * (w * w);
    if s <= TOP {
      MulMono(s + 1, TOP + 1, w);
      SquareMono((s + 1) * w, (TOP + 1) * w);
    } else {
      MulMono(TOP + 1, s, w);
      SquareMono((TOP + 1) * w, s * w);
    }
  }

  /** For one: any even window half dark and half at the top. */
  lemma Std16CanPassSixteenBits(k: nat)
    requires 1 <= k <= 4096
    ensures |Half(k, k)| == 2 * k && Std16(Half(k, k)) > TOP
  {
    SpreadOfHalf(k, k);
    Std16IsExact(Half(k, k));
    TooSmall(Std16(Half(k, k)), k);
  }

  lemma TooSmall(s: nat, k: nat)
    requires k >= 1 && 256 * (k * k * (TOP * TOP)) < ((s + 1) * (2 * k)) * ((s + 1) * (2 * k))
    ensures s > TOP
  {
    if s <= TOP {
      MulMono(s + 1, TOP + 1, 2 * k);
      SquareMono((s + 1) * (2 * k), (TOP + 1) * (2 * k));
      HalvesSquared(k);
    }
  }

  lemma HalvesSquared(k: nat)
    requires k >= 1
    ensures ((TOP + 1) * (2 * k)) * ((TOP + 1) * (2 * k)) <= 256 * (k * k * (TOP * TOP))
  {
    var t := TOP + 1;
    var kk := k * k;
    assert (t * (2 * k)) * (t * (2 * k)) == kk * (4 * t * t);
    MulMono(4 * t * t, 256 * (TOP * TOP), kk);
    assert 256 * (kk * (TOP * TOP)) == (256 * (TOP * TOP)) * kk;
  }

  /** Against the mean the deviation is small: at most 5793 for each unit of it, wrapped or not. */
  lemma Std16ByMean(a: seq<u16>, m: nat)
    requires |a| > 0 && m >= 1 && Sum(a) < (m + 1) * |a|
    ensures Std16(a) <= 5793 * m
  {
    var scaled := Scaled(a);
    ScaledByMean(a, m);
    NestedFloor(FloorSqrt(scaled), scaled, |a|);
    StdByMean(StdFrom(scaled, |a|), scaled, |a|, m);
  }

  lemma ScaledByMean(a: seq<u16>, m: nat)
    requires m >= 1 && Sum(a) < (m + 1) * |a|
    ensures Scaled(a) <= 512 * TOP * (m * (|a| * |a|))
  {
    SumBounds(a);
    ScaledIsAtMost(a);
    SpreadByMean(|a|, SumSq(a), Sum(a), m);
  }

  /** Wrapping only lowers the product. */
  lemma ScaledIsAtMost(a: seq<u16>)
    ensures Scaled(a) <= 256 * Spread(a)
  {
    SpreadIsNat(a);
    RemainderIsAtMost(256 * Spread(a));
  }

  lemma RemainderIsAtMost(x: nat)
    ensures x % TWO_64 <= x
  {
  }

  lemma SpreadByMean(w: nat, q: nat, s: nat, m: nat)
    requires m >= 1 && q <= TOP * s && s < (m + 1) * w
    ensures w * q - s * s <= 2 * TOP * (m * (w * w))
  {
    var mw := m * w;
    assert s <= 2 * mw by {
      assert (m + 1) * w == mw + w;
      MulMono(1, m, w);
    }
    SquareIsNat(s);
    MulMono(q, TOP * (2 * mw), w);
    assert TOP * (2 * mw) * w == 2 * TOP * (m * (w * w)) by {
      assert mw * w == m * (w * w);
    }
  }

  lemma StdByMean(s: nat, v: nat, w: nat, m: nat)
    requires w > 0 && m >= 1
    requires (s * w) * (s * w) <= v <= 512 * TOP * (m * (w * w))
    ensures s <= 5793 * m
  {
    if s > 5793 * m {
      var mw, mww := m * w, m * (w * w);
      MulMono(5793 * m, s, w);
      SquareMono(5793 * mw, s * w);
      assert (5793 * mw) * (5793 * mw) == 5793 * 5793 * (mw * mw);
      assert mw * mw == m * mww;
      assert mww > 0 by {
        MulMono(1, w, w);
        MulMono(1, m, w * w);
      }
      MulMono(1, m, mww);
    }
  }

  /** What `std16 as u32` has to hold, whatever the window's length. */
  lemma Std16Bound(a: seq<u16>)
    requires |a| > 0
    ensures Std16(a) <= 524287
  {
    if |a| <= 8192 {
      ScaledIsExact(a);
      SpreadBound(a);
      StdBound(Scaled(a), |a|);
    } else {
      RootBound(FloorSqrt(Scaled(a)), Scaled(a), TWO_32 - 1);
      QuotientBound(FloorSqrt(Scaled(a)), |a|, 524287);
    }
  }

  lemma StdBound(v: nat, w: nat)
    requires w > 0 && v <= 64 * ((w * TOP) * (w * TOP))
    ensures StdFrom(v, w) <= 524287
  {
    var m := w * TOP;
    EightTimes(m);
    assert (8 * m + 1) * (8 * m + 1) == (8 * m) * (8 * m) + 16 * m + 1;
    RootBound(FloorSqrt(v), v, 8 * m);
    QuotientBound(FloorSqrt(v), w, 8 * TOP);
  }

  lemma EightTimes(m: int)
    ensures (8 * m) * (8 * m) == 64 * (m * m)
  {
  }

  lemma RootBound(r: nat, v: nat, m: nat)
    requires IsRoot(r, v) && v < (m + 1) * (m + 1)
    ensures r <= m
  {
    if r > m {
      SquareMono(m + 1, r);
    }
  }

  lemma QuotientBound(r: nat, w: nat, m: nat)
    requires w > 0 && r <= m * w
    ensures r / w <= m
  {
    QuotientBrackets(r, w);
    if r / w >= m + 1 {
      MulMono(m + 1, r / w, w);
    }
  }

  lemma QuotientBelow(r: nat, w: nat, m: nat)
    requires w > 0 && r < m * w
    ensures r / w < m
  {
    QuotientBrackets(r, w);
    if r / w >= m {
      MulMono(m, r / w, w);
    }
  }
}
