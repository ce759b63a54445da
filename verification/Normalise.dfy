/** One CSI frame divided by its own mean amplitude. */
module Normalise {
  import opened Arith
  import opened Bytes
  import opened WanderStats

  const MAX_SUBCARRIERS: int := 64

  datatype Features = Features(amplitude: seq<u16>, count: u8, mean: u16, variance: u32)

  /** How many amplitudes count. */
  function ValidCount(f: Features): nat {
    Min(f.count, MAX_SUBCARRIERS)
  }

  function Amplitudes(f: Features): (a: seq<u16>)
    requires |f.amplitude| == MAX_SUBCARRIERS
    ensures |a| == ValidCount(f)
  {
    f.amplitude[..ValidCount(f)]
  }

  /** `a * k / total`, the ratio to the frame's mean when `k` is 1024 per subcarrier. */
  function Ratios(a: seq<u16>, k: nat, total: nat): (r: seq<nat>)
    requires total > 0
    ensures |r| == |a|
  {
    if a == [] then [] else [Quotient(a[0] * k, total)] + Ratios(a[1..], k, total)
  }

  function Clip(r: seq<nat>): (c: seq<u16>)
    ensures |c| == |r|
  {
    if r == [] then [] else [Min(r[0], TOP)] + Clip(r[1..])
  }

  function Normal(a: seq<u16>): (c: seq<u16>)
    requires Sum(a) > 0
    ensures |c| == |a|
  {
    Clip(Ratios(a, 1024 * |a|, Sum(a)))
  }

  function NormalisedSpec(f: Features): Features
    requires |f.amplitude| == MAX_SUBCARRIERS
  {
    var a := Amplitudes(f);
    if |a| == 0 || Sum(a) == 0 then f
    else
      var c := Normal(a);
      var mean := Min(Quotient(Sum(c), |a|), TOP);
      Features(c + seq(64 - |a|, _ => 0), f.count, mean, Min(Quotient(Deviation(c, mean), |a|), TWO_32 - 1))
  }

  // ---------------------------------------------------------------------
  // What a normalised frame holds
  // ---------------------------------------------------------------------

  /** Each amplitude becomes its ratio to the mean, in 1024ths, rounded down; 65535 stands for anything larger. */
  lemma AmplitudeBetween(f: Features, i: nat)
    requires |f.amplitude| == MAX_SUBCARRIERS && i < ValidCount(f) && Sum(Amplitudes(f)) > 0
    ensures var a, out := Amplitudes(f), NormalisedSpec(f);
      && |out.amplitude| == MAX_SUBCARRIERS && out.count == f.count
      && out.amplitude[i] * Sum(a) <= f.amplitude[i] * (1024 * |a|)
      && (f.amplitude[i] * (1024 * |a|) < (out.amplitude[i] + 1) * Sum(a) || out.amplitude[i] == 65535)
  {
    var a, out := Amplitudes(f), NormalisedSpec(f);
    var x := a[i] * (1024 * |a|);
    NormalAt(a, 1024 * |a|, Sum(a), i);
    QuotientBetween(x, Sum(a));
    assert out.amplitude[i] == Ratio(a[i], 1024 * |a|, Sum(a));
    MulMono(Ratio(a[i], 1024 * |a|, Sum(a)), Quotient(x, Sum(a)), Sum(a));
  }

  /** The rest of the frame is zero; a frame without amplitudes comes back as it was. */
  lemma RestIsZero(f: Features)
    requires |f.amplitude| == MAX_SUBCARRIERS
    ensures (ValidCount(f) == 0 || Sum(Amplitudes(f)) == 0) ==> NormalisedSpec(f) == f
    ensures ValidCount(f) > 0 && Sum(Amplitudes(f)) > 0 ==>
      forall i | ValidCount(f) <= i < 64 :: NormalisedSpec(f).amplitude[i] == 0
  {
  }

  /** Mean and variance are those of the normalised amplitudes, rounded down: neither ceiling is reached. */
  lemma MomentsBetween(f: Features)
    requires |f.amplitude| == MAX_SUBCARRIERS && ValidCount(f) > 0 && Sum(Amplitudes(f)) > 0
    ensures var out, n := NormalisedSpec(f), ValidCount(f);
      && |out.amplitude| == MAX_SUBCARRIERS
      && var c := out.amplitude[..n];
      && out.mean * n <= Sum(c) < (out.mean + 1) * n
      && out.variance * n <= Deviation(c, out.mean) < (out.variance + 1) * n
  {
    var a := Amplitudes(f);
    var c, n := Normal(a), |a|;
    var mean := Quotient(Sum(c), n);
    assert NormalisedSpec(f).amplitude[..n] == c;
    QuotientBetween(Sum(c), n);
    SumBounds(c);
    QuotientBound(Sum(c), n, TOP);
    DeviationBound(c, mean);
    QuotientBetween(Deviation(c, mean), n);
    QuotientBound(Deviation(c, mean), n, TOP * TOP);
  }

  // ---------------------------------------------------------------------
  // A common gain cancels exactly
  // ---------------------------------------------------------------------

  function Gain(a: seq<u16>, g: nat): (s: seq<u16>)
    requires forall i | 0 <= i < |a| :: a[i] * g <= TOP
    ensures |s| == |a| && forall i | 0 <= i < |a| :: s[i] == a[i] * g
  {
    seq(|a|, i requires 0 <= i < |a| => a[i] * g)
  }

  lemma {:induction false} SumOfGain(a: seq<u16>, g: nat)
    requires forall i | 0 <= i < |a| :: a[i] * g <= TOP
    ensures Sum(Gain(a, g)) == Sum(a) * g
  {
    if a != [] {
      assert Gain(a, g)[1..] == Gain(a[1..], g);
      SumOfGain(a[1..], g);
      assert (a[0] + Sum(a[1..])) * g == a[0] * g + Sum(a[1..]) * g;
    }
  }

  lemma CommonFactor(x: nat, k: nat, total: nat, g: nat)
    requires total > 0 && g > 0
    ensures total * g > 0 && Quotient((x * g) * k, total * g) == Quotient(x * k, total)
  {
    MulMono(1, g, total);
    var q, r := (x * k) / total, (x * k) % total;
    assert x * k == total * q + r;
    assert (x * g) * k == (x * k) * g;
    assert (total * q + r) * g == (total * g) * q + r * g;
    MulMono(r + 1, total, g);
    DivModIs((x * g) * k, total * g, q, r * g);
  }

  lemma {:induction false} RatiosOfGain(a: seq<u16>, k: nat, total: nat, g: nat)
    requires total > 0 && g > 0 && forall i | 0 <= i < |a| :: a[i] * g <= TOP
    ensures total * g > 0 && Ratios(Gain(a, g), k, total * g) == Ratios(a, k, total)
  {
    MulMono(1, g, total);
    if a != [] {
      CommonFactor(a[0], k, total, g);
      assert Gain(a, g)[1..] == Gain(a[1..], g);
      RatiosOfGain(a[1..], k, total, g);
    }
  }

  /**
   Every amplitude multiplied by one factor: the normalised frame is the same
   to the bit. (A frame of zeros is its own multiple and comes back unchanged.)
   */
  lemma GainCancels(f: Features, h: Features, g: nat)
    requires |f.amplitude| == |h.amplitude| == MAX_SUBCARRIERS && f.count == h.count && g > 0
    requires forall i | 0 <= i < ValidCount(f) :: Amplitudes(f)[i] * g <= TOP
    requires Amplitudes(h) == Gain(Amplitudes(f), g)
    ensures Sum(Amplitudes(f)) > 0 ==> NormalisedSpec(h) == NormalisedSpec(f)
    ensures Sum(Amplitudes(f)) == 0 ==> NormalisedSpec(h) == h && NormalisedSpec(f) == f
  {
    var a := Amplitudes(f);
    SumOfGain(a, g);
    if Sum(a) > 0 {
      RatiosOfGain(a, 1024 * |a|, Sum(a), g);
      MulMono(1, g, Sum(a));
    }
  }

  // ---------------------------------------------------------------------
  // The mean lands on 1023 or 1024
  // ---------------------------------------------------------------------

  /** The floors lose less than one each. */
  lemma {:induction false} SumOfFloors(a: seq<u16>, k: nat, total: nat)
    requires total > 0
    ensures var t := Total(Ratios(a, k, total));
      t * total <= Sum(a) * k <= t * total + |a| * (total - 1)
  {
    if a != [] {
      SumOfFloors(a[1..], k, total);
      FloorLoss(a[0] * k, total);
      AddFloors(Quotient(a[0] * k, total), Total(Ratios(a[1..], k, total)), a[0], Sum(a[1..]), |a| - 1, k, total);
    }
  }

  lemma AddFloors(q: nat, t: nat, x: nat, s: nat, n: nat, k: nat, total: nat)
    requires total > 0
    requires q * total <= x * k <= q * total + (total - 1)
    requires t * total <= s * k <= t * total + n * (total - 1)
    ensures (q + t) * total <= (x + s) * k <= (q + t) * total + (n + 1) * (total - 1)
  {
    assert (q + t) * total == q * total + t * total;
    assert (x + s) * k == x * k + s * k;
    assert (n + 1) * (total - 1) == n * (total - 1) + (total - 1);
  }

  lemma FloorLoss(x: nat, total: nat)
    requires total > 0
    ensures Quotient(x, total) * total <= x <= Quotient(x, total) * total + (total - 1)
  {
    assert x == total * (x / total) + x % total;
  }

  /** When the ratios add up to at most 65536, clipping takes away at most one. */
  lemma {:induction false} ClipLoss(r: seq<nat>)
    requires Total(r) <= TOP + 1
    ensures Total(r) - 1 <= Sum(Clip(r)) <= Total(r)
    ensures Total(r) <= TOP ==> Sum(Clip(r)) == Total(r)
  {
    if r != [] {
      ClipLoss(r[1..]);
    }
  }

  lemma TotalsOfNormal(n: nat, t: nat, total: nat)
    requires total > 0 && n > 0
    requires t * total <= total * (1024 * n) <= t * total + n * (total - 1)
    ensures 1023 * n < t <= 1024 * n
  {
    if t > 1024 * n {
      MulMono(1024 * n + 1, t, total);
    }
    if t <= 1023 * n {
      MulMono(t, 1023 * n, total);
    }
  }

  /** Any frame of 1 to 64 subcarriers with a nonzero amplitude, the clipped case included. */
  lemma MeanLands(f: Features)
    requires |f.amplitude| == MAX_SUBCARRIERS && ValidCount(f) > 0 && Sum(Amplitudes(f)) > 0
    ensures NormalisedSpec(f).mean in {1023, 1024}
    ensures 1023 * ValidCount(f) <= Sum(Normal(Amplitudes(f))) <= 1024 * ValidCount(f)
  {
    var a := Amplitudes(f);
    var r := Ratios(a, 1024 * |a|, Sum(a));
    SumOfFloors(a, 1024 * |a|, Sum(a));
    TotalsOfNormal(|a|, Total(r), Sum(a));
    ClipLoss(r);
    MeanOf(Sum(Normal(a)), |a|);
  }

  lemma MeanOf(s: nat, n: nat)
    requires n > 0 && 1023 * n <= s <= 1024 * n
    ensures Quotient(s, n) in {1023, 1024}
  {
    if s == 1024 * n {
      DivModIs(s, n, 1024, 0);
    } else {
      DivModIs(s, n, 1023, s - 1023 * n);
    }
  }

  // ---------------------------------------------------------------------
  // The loops
  // ---------------------------------------------------------------------

  function Ratio(x: nat, k: nat, total: nat): u16
    requires total > 0
  {
    Min(Quotient(x * k, total), TOP)
  }

  lemma {:induction false} NormalAt(a: seq<u16>, k: nat, total: nat, i: nat)
    requires total > 0 && i < |a|
    ensures Clip(Ratios(a, k, total))[i] == Ratio(a[i], k, total)
  {
    if i > 0 {
      NormalAt(a[1..], k, total, i - 1);
    }
  }

  lemma SumOfOneMore(a: seq<u16>, i: nat)
    requires i < |a|
    ensures Sum(a[..i + 1]) == Sum(a[..i]) + a[i]
  {
    assert a[..i + 1] == a[..i] + [a[i]];
    SumOfConcat(a[..i], [a[i]]);
  }

  lemma DeviationOfOneMore(a: seq<u16>, i: nat, x: int)
    requires i < |a|
    ensures Deviation(a[..i + 1], x) == Deviation(a[..i], x) + (a[i] - x) * (a[i] - x)
  {
    assert a[..i + 1] == a[..i] + [a[i]];
    DeviationOfConcat(a[..i], [a[i]], x);
  }

  lemma DeviationBound(a: seq<u16>, x: u16)
    ensures Deviation(a, x) <= |a| * (TOP * TOP)
  {
    if a != [] {
      DeviationBound(a[1..], x);
      var d := if a[0] >= x then a[0] - x else x - a[0];
      MulMono(d, TOP, d);
      MulMono(d, TOP, TOP);
      assert (a[0] - x) * (a[0] - x) == d * d;
    }
  }

  method Total32(a: seq<u16>) returns (total: u32)
    requires |a| <= MAX_SUBCARRIERS
    ensures total == Sum(a)
  {
    total := 0;
    for i := 0 to |a|
      invariant total == Sum(a[..i]) <= i * TOP
    {
      SumOfOneMore(a, i);
      total := total + a[i];
    }
    assert a[..|a|] == a;
  }

  /** The ratio loop: no product leaves 32 bits, 65535 * 1024 * 64 included. */
  method Divide(a: seq<u16>, total: u32, ghost c: seq<u16>, out: array<u16>) returns (sum: u32)
    requires |c| == |a| <= MAX_SUBCARRIERS == out.Length && total > 0
    requires forall i | 0 <= i < |a| :: c[i] == Ratio(a[i], 1024 * |a|, total)
    modifies out
    ensures sum == Sum(c)
    ensures forall j | 0 <= j < 64 :: out[j] == if j < |a| then c[j] else old(out[j])
  {
    sum := 0;
    for i := 0 to |a|
      invariant sum == Sum(c[..i]) <= i * TOP
      invariant forall j | 0 <= j < 64 :: out[j] == if j < i then c[j] else old(out[j])
    {
      var v := RatioOf(a[i], |a|, total);
      SumOfOneMore(c, i);
      out[i] := v;
      sum := sum + v;
    }
    assert c[..|a|] == c;
  }

  lemma NormalElements(a: seq<u16>)
    requires Sum(a) > 0
    ensures forall i | 0 <= i < |a| :: Normal(a)[i] == Ratio(a[i], 1024 * |a|, Sum(a))
  {
    RatioElements(a, 1024 * |a|, Sum(a));
  }

  lemma RatioElements(a: seq<u16>, k: nat, total: nat)
    requires total > 0
    ensures forall i | 0 <= i < |a| :: Clip(Ratios(a, k, total))[i] == Ratio(a[i], k, total)
  {
    forall i | 0 <= i < |a| ensures Clip(Ratios(a, k, total))[i] == Ratio(a[i], k, total) {
      NormalAt(a, k, total, i);
    }
  }

  method RatioOf(x: u16, n: nat, total: u32) returns (v: u16)
    requires n <= MAX_SUBCARRIERS && total > 0
    ensures v == Ratio(x, 1024 * n, total)
  {
    ProductFits(x, n);
    var product: u32 := x * 1024 * n;
    v := Min(Quotient(product, total), TOP);
  }

  lemma ProductFits(x: u16, n: nat)
    requires n <= MAX_SUBCARRIERS
    ensures 0 <= x * 1024 * n < TWO_32 && x * 1024 * n == x * (1024 * n)
  {
    MulMono(n, 64, x * 1024);
  }

  method SquaredDistances(c: seq<u16>, mean: u16) returns (ss: u64)
    requires |c| <= MAX_SUBCARRIERS
    ensures ss == Deviation(c, mean)
  {
    ss := 0;
    for i := 0 to |c|
      invariant ss == Deviation(c[..i], mean)
    {
      DeviationOfOneMore(c, i, mean);
      DeviationBound(c[..i + 1], mean);
      MulMono(|c[..i + 1]|, 64, TOP * TOP);
      var d: int := c[i] - mean;
      ss := ss + d * d;
    }
    assert c[..|c|] == c;
  }

  method Normalised(f: Features) returns (out: Features)
    requires |f.amplitude| == MAX_SUBCARRIERS
    ensures out == NormalisedSpec(f)
  {
    var n := Min(f.count, MAX_SUBCARRIERS);
    var a := f.amplitude[..n];
    var total := Total32(a);
    if n == 0 || total == 0 {
      return f;
    }
    var buf := new u16[64](_ => 0);
    NormalElements(a);
    var sum := Divide(a, total, Normal(a), buf);
    var mean := Min(Quotient(sum, n), TOP);
    var ss := SquaredDistances(buf[..n], mean);
    var variance := Min(Quotient(ss, n), TWO_32 - 1);
    assert buf[..n] == Normal(a);
    assert buf[..] == Normal(a) + seq(64 - n, _ => 0);
    out := Features(buf[..], f.count, mean, variance);
  }
}
