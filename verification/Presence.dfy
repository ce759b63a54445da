/**
 The CSI presence detector: totals carried over a ring of frames, against the
 same detector on the sequence of frames it remembers.
 */
module Presence {
  import opened Arith
  import opened Bytes
  import opened IntSqrt
  import opened WanderStats

  const MAX_SUBCARRIERS: int := 64

  /** The amplitudes of one frame, one per valid subcarrier. */
  type Frame = seq<u16>

  datatype Config = Config(onPermille: u16, offPermille: u16, hold: u64)
  datatype Verdict = Warming | Absent | Present(motion: u8)

  // ---------------------------------------------------------------------
  // The specification, on the frames remembered
  // ---------------------------------------------------------------------

  function Amplitude(f: Frame, sc: nat): u16 {
    if sc < |f| then f[sc] else 0
  }

  /** Subcarrier `sc` over time. */
  function Column(frames: seq<Frame>, sc: nat): (c: seq<u16>)
    ensures |c| == |frames|
    ensures forall t | 0 <= t < |c| :: c[t] == Amplitude(frames[t], sc)
  {
    seq(|frames|, t requires 0 <= t < |frames| => Amplitude(frames[t], sc))
  }

  function PerMille(std16: nat, mean: nat): nat {
    if mean == 0 then 0 else Quotient(std16 * 1000, mean * 16)
  }

  /** One subcarrier's part of the wander: 1000 times the standard deviation over the mean. */
  function Term(a: seq<u16>): nat
    requires |a| > 0
  {
    PerMille(Std16(a), Quotient(Sum(a), |a|))
  }

  function TermSum(frames: seq<Frame>, n: nat): nat
    requires |frames| > 0
  {
    if n == 0 then 0 else TermSum(frames, n - 1) + Term(Column(frames, n - 1))
  }

  /** The wander of a full window of `n`-subcarrier frames. */
  function Wander(frames: seq<Frame>, n: nat): u16
    requires n > 0 && |frames| > 0
  {
    Mean(TermSum(frames, n), n)
  }

  function Mean(total: nat, n: nat): u16
    requires n > 0
  {
    Min(Quotient(total, n), TOP)
  }

  /** One term, from the window's own numbers: `m` is its mean rounded down. */
  lemma TermBetween(a: seq<u16>, m: nat)
    requires |a| > 0 && m * |a| <= Sum(a) < (m + 1) * |a|
    ensures m == 0 ==> Term(a) == 0
    ensures m >= 1 ==> Term(a) * (16 * m) <= 1000 * Std16(a) < (Term(a) + 1) * (16 * m)
  {
    MeanIs(Sum(a), |a|, m);
    PerMilleBetween(Std16(a), m);
  }

  lemma PerMilleBetween(std16: nat, m: nat)
    ensures m == 0 ==> PerMille(std16, m) == 0
    ensures m >= 1 ==> PerMille(std16, m) * (16 * m) <= 1000 * std16 < (PerMille(std16, m) + 1) * (16 * m)
  {
    if m >= 1 {
      QuotientBetween(std16 * 1000, m * 16);
    }
  }

  lemma MeanIs(sum: nat, n: nat, m: nat)
    requires n > 0 && m * n <= sum < (m + 1) * n
    ensures Quotient(sum, n) == m
  {
    DivModIs(sum, n, m, sum - m * n);
  }

  /** The wander is the mean of the terms of subcarriers 0 to n - 1, rounded down; 65535 stands for anything larger. */
  lemma WanderBetween(frames: seq<Frame>, n: nat, terms: seq<nat>)
    requires |frames| > 0 && 0 < n == |terms|
    requires forall sc | 0 <= sc < n :: terms[sc] == Term(Column(frames, sc))
    ensures var w := Wander(frames, n);
      w * n <= Total(terms) && (Total(terms) < (w + 1) * n || w == 65535)
  {
    TermsAddUp(frames, n, terms);
    QuotientBetween(Total(terms), n);
    MulMono(Mean(Total(terms), n), Quotient(Total(terms), n), n);
  }

  lemma {:induction false} TermsAddUp(frames: seq<Frame>, n: nat, terms: seq<nat>)
    requires |frames| > 0 && n == |terms|
    requires forall sc | 0 <= sc < n :: terms[sc] == Term(Column(frames, sc))
    ensures TermSum(frames, n) == Total(terms)
  {
    if n > 0 {
      TermsAddUp(frames, n - 1, terms[..n - 1]);
      TotalOfOneMore(terms[..n - 1], terms[n - 1]);
      assert terms == terms[..n - 1] + [terms[n - 1]];
    }
  }

  datatype Model = Model(window: seq<Frame>, wander: u16, present: bool, lastMotion: u64, frames: u32)

  function VerdictNow(w: nat, m: Model): Verdict {
    if |m.window| < w then Warming
    else if m.present then Present(Min(m.wander, 255))
    else Absent
  }

  function ResetSpec(m: Model): Model {
    m.(window := [], wander := 0, present := false)
  }

  /** The newest `w` of the frames, once `f` has arrived. */
  function Remember(w: nat, window: seq<Frame>, f: Frame): (after: seq<Frame>)
    requires 0 < w
  {
    if |window| < w then window + [f] else window[|window| - w + 1..] + [f]
  }

  /** Hysteresis: on at one threshold; off at another, and only after the hold time. */
  function Judge(cfg: Config, m: Model, wander: u16, now: u64): Model {
    if wander >= cfg.onPermille then m.(wander := wander, present := true, lastMotion := now)
    else if m.present && wander <= cfg.offPermille && SaturatingSub(now, m.lastMotion) >= cfg.hold then
      m.(wander := wander, present := false)
    else m.(wander := wander)
  }

  /** A frame of another width starts the window over. */
  function Admit(m: Model, f: Frame): Model {
    if m.window != [] && |m.window[0]| != |f| then ResetSpec(m) else m
  }

  function Append(w: nat, m: Model, f: Frame): Model
    requires w > 0
  {
    m.(window := Remember(w, m.window, f), frames := Wrapping(m.frames + 1))
  }

  function PushSpec(cfg: Config, w: nat, m: Model, f: Frame, now: u64): (Model, Verdict)
    requires w > 0
  {
    if f == [] then (m, VerdictNow(w, m))
    else
      var m2 := Append(w, Admit(m, f), f);
      if |m2.window| < w then (m2, Warming)
      else
        var m3 := Judge(cfg, m2, Wander(m2.window, |f|), now);
        (m3, VerdictNow(w, m3))
  }

  // ---------------------------------------------------------------------
  // Runs: the window is the last frames and nothing before them
  // ---------------------------------------------------------------------

  datatype Op = Push(frame: Frame, now: u64) | Reset

  function Step(cfg: Config, w: nat, m: Model, op: Op): Model
    requires w > 0
  {
    match op
    case Reset => ResetSpec(m)
    case Push(f, now) => PushSpec(cfg, w, m, f, now).0
  }

  function Run(cfg: Config, w: nat, m: Model, ops: seq<Op>): Model
    requires w > 0
    decreases |ops|
  {
    if ops == [] then m else Run(cfg, w, Step(cfg, w, m, ops[0]), ops[1..])
  }

  /** Pushes of `frames` at `times`. */
  function Pushes(frames: seq<Frame>, times: seq<u64>): (ops: seq<Op>)
    requires |frames| == |times|
    ensures |ops| == |frames|
  {
    if frames == [] then [] else [Push(frames[0], times[0])] + Pushes(frames[1..], times[1..])
  }

  lemma FirstPush(cfg: Config, w: nat, m: Model, frames: seq<Frame>, times: seq<u64>)
    requires 0 < w && |frames| == |times| > 0
    ensures Run(cfg, w, m, Pushes(frames, times))
         == Run(cfg, w, PushSpec(cfg, w, m, frames[0], times[0]).0, Pushes(frames[1..], times[1..]))
  {
    assert Pushes(frames, times)[1..] == Pushes(frames[1..], times[1..]);
  }

  ghost predicate EndsWith(window: seq<Frame>, tail: seq<Frame>) {
    |tail| <= |window| && window[|window| - |tail|..] == tail
  }

  ghost predicate Width(frames: seq<Frame>, n: nat) {
    forall t | 0 <= t < |frames| :: |frames[t]| == n
  }

  /** What a detector in the middle of a stretch of equal-width frames has seen of it. */
  ghost predicate Seen(w: nat, m: Model, tail: seq<Frame>, n: nat)
    requires 0 < w && 0 < n
  {
    && |m.window| <= w && EndsWith(m.window, tail) && Width(m.window, n)
    && (|m.window| == w ==> m.wander == Wander(m.window, n))
  }

  lemma RememberTail(w: nat, window: seq<Frame>, tail: seq<Frame>, f: Frame, n: nat)
    requires 0 < w && |window| <= w && EndsWith(window, tail) && |tail| < w
    requires Width(window, n) && |f| == n
    ensures var after := Remember(w, window, f);
      |after| <= w && EndsWith(after, tail + [f]) && Width(after, n)
  {
    var after := Remember(w, window, f);
    if |window| == w {
      assert after[|after| - |tail| - 1..] == window[|window| - |tail|..] + [f];
    }
  }

  lemma PushSeen(cfg: Config, w: nat, m: Model, tail: seq<Frame>, f: Frame, now: u64, n: nat)
    requires 0 < w && n > 0 && |f| == n && |m.window| <= w && EndsWith(m.window, tail) && |tail| < w
    requires tail != [] ==> Width(m.window, n)
    requires tail == [] ==> Width(m.window, if m.window == [] then 0 else |m.window[0]|)
    ensures Seen(w, PushSpec(cfg, w, m, f, now).0, tail + [f], n)
  {
    AdmitTail(m, tail, f, n);
    PushWindow(cfg, w, m, f, now);
    SeenAfter(w, Admit(m, f), PushSpec(cfg, w, m, f, now).0, tail, f, n);
  }

  lemma PushWindow(cfg: Config, w: nat, m: Model, f: Frame, now: u64)
    requires 0 < w && f != []
    ensures var after := PushSpec(cfg, w, m, f, now).0;
      && after.window == Remember(w, Admit(m, f).window, f)
      && (|after.window| == w ==> after.wander == Wander(after.window, |f|))
  {
  }

  lemma SeenAfter(w: nat, m1: Model, after: Model, tail: seq<Frame>, f: Frame, n: nat)
    requires 0 < w && |m1.window| <= w && EndsWith(m1.window, tail) && |tail| < w
    requires Width(m1.window, n) && |f| == n > 0
    requires after.window == Remember(w, m1.window, f)
    requires |after.window| == w ==> after.wander == Wander(after.window, n)
    ensures Seen(w, after, tail + [f], n)
  {
    RememberTail(w, m1.window, tail, f, n);
  }

  lemma AdmitTail(m: Model, tail: seq<Frame>, f: Frame, n: nat)
    requires |f| == n > 0 && EndsWith(m.window, tail)
    requires tail != [] ==> Width(m.window, n)
    requires tail == [] ==> Width(m.window, if m.window == [] then 0 else |m.window[0]|)
    ensures var m1 := Admit(m, f);
      EndsWith(m1.window, tail) && Width(m1.window, n) && |m1.window| <= |m.window|
  {
  }

  lemma {:induction false} PushesSeen(cfg: Config, w: nat, m: Model, tail: seq<Frame>, frames: seq<Frame>,
                                      times: seq<u64>, n: nat)
    requires 0 < w && n > 0 && |frames| == |times| && |tail| + |frames| <= w && Width(frames, n)
    requires Seen(w, m, tail, n) && tail != []
    ensures Seen(w, Run(cfg, w, m, Pushes(frames, times)), tail + frames, n)
    decreases |frames|
  {
    if frames == [] {
      assert tail + frames == tail;
    } else {
      PushSeen(cfg, w, m, tail, frames[0], times[0], n);
      var m1 := PushSpec(cfg, w, m, frames[0], times[0]).0;
      PushesSeen(cfg, w, m1, tail + [frames[0]], frames[1..], times[1..], n);
      assert tail + frames == (tail + [frames[0]]) + frames[1..];
      assert Pushes(frames, times)[1..] == Pushes(frames[1..], times[1..]);
    }
  }

  /** Every frame in the window is as wide as its first, and there are at most `w`. */
  ghost predicate Sound(w: nat, m: Model) {
    |m.window| <= w && Width(m.window, if m.window == [] then 0 else |m.window[0]|)
  }

  /**
   Whatever came before: once the last `w` frames pushed are equally wide,
   they are the window, and the wander is a function of them alone.
   */
  lemma WindowForgetsThePast(cfg: Config, w: nat, m: Model, frames: seq<Frame>, times: seq<u64>, n: nat)
    requires 0 < w && n > 0 && |frames| == |times| == w && Width(frames, n) && Sound(w, m)
    ensures var after := Run(cfg, w, m, Pushes(frames, times));
      after.window == frames && after.wander == Wander(frames, n)
  {
    var m1, one := PushSpec(cfg, w, m, frames[0], times[0]).0, [frames[0]];
    PushSeen(cfg, w, m, [], frames[0], times[0], n);
    assert [] + [frames[0]] == one;
    FirstPush(cfg, w, m, frames, times);
    PushesSeen(cfg, w, m1, one, frames[1..], times[1..], n);
    assert one + frames[1..] == frames;
    WholeTail(Run(cfg, w, m, Pushes(frames, times)).window, frames);
  }

  lemma WholeTail(window: seq<Frame>, tail: seq<Frame>)
    requires EndsWith(window, tail) && |window| <= |tail|
    ensures window == tail
  {
  }

  /** Two detectors of one length shown the same last `w` frames agree, whatever else each has seen. */
  lemma TwoHistoriesAgree(cfg: Config, w: nat, before1: seq<Op>, before2: seq<Op>, frames: seq<Frame>,
                          times1: seq<u64>, times2: seq<u64>, n: nat)
    requires 0 < w && n > 0 && |frames| == |times1| == |times2| == w && Width(frames, n)
    ensures var start := Model([], 0, false, 0, 0);
      var a := Run(cfg, w, Run(cfg, w, start, before1), Pushes(frames, times1));
      var b := Run(cfg, w, Run(cfg, w, start, before2), Pushes(frames, times2));
      a.window == b.window == frames && a.wander == b.wander == Wander(frames, n)
  {
    var start := Model([], 0, false, 0, 0);
    RunSound(cfg, w, start, before1);
    RunSound(cfg, w, start, before2);
    WindowForgetsThePast(cfg, w, Run(cfg, w, start, before1), frames, times1, n);
    WindowForgetsThePast(cfg, w, Run(cfg, w, start, before2), frames, times2, n);
  }

  /** The verdict of a detector of `w` frames. */
  lemma VerdictIs(w: nat, m: Model)
    ensures VerdictNow(w, m) == Warming <==> |m.window| < w
    ensures VerdictNow(w, m) == Absent <==> |m.window| >= w && !m.present
    ensures |m.window| >= w && m.present ==>
      VerdictNow(w, m) == Present(if m.wander > 255 then 255 else m.wander)
  {
  }

  /** What a frame does to the window: it joins it, pushes the oldest out of a full one, or starts it over. */
  lemma PushMovesWindow(cfg: Config, w: nat, m: Model, f: Frame, now: u64)
    requires 0 < w && f != [] && |m.window| <= w
    ensures var after := PushSpec(cfg, w, m, f, now).0;
      && (m.window != [] && |m.window[0]| != |f| ==> after.window == [f])
      && (m.window == [] || |m.window[0]| == |f| ==>
            after.window == (if |m.window| == w then m.window[1..] else m.window) + [f])
      && after.frames == (m.frames as int + 1) % 0x1_0000_0000
  {
    PushWindow(cfg, w, m, f, now);
    RememberIs(w, Admit(m, f).window, f);
    FrameCounted(cfg, w, m, f, now);
  }

  lemma RememberIs(w: nat, window: seq<Frame>, f: Frame)
    requires 0 < w && |window| <= w
    ensures Remember(w, window, f) == (if |window| == w then window[1..] else window) + [f]
  {
  }

  lemma FrameCounted(cfg: Config, w: nat, m: Model, f: Frame, now: u64)
    requires 0 < w && f != []
    ensures PushSpec(cfg, w, m, f, now).0.frames == (m.frames as int + 1) % 0x1_0000_0000
  {
  }

  /** Before the window is full: `Warming`, and presence is kept, or lost with the window. */
  lemma WarmingPush(cfg: Config, w: nat, m: Model, f: Frame, now: u64)
    requires 0 < w && f != [] && |m.window| <= w
    requires |PushSpec(cfg, w, m, f, now).0.window| < w
    ensures var (after, v) := PushSpec(cfg, w, m, f, now);
      && v == Warming && after.lastMotion == m.lastMotion
      && (after.present <==> m.present && (m.window == [] || |m.window[0]| == |f|))
  {
  }

  /**
   On a full window, exactly: at the upper threshold presence is on and the
   clock restarts; below it presence stays as it was, unless a width change
   forgot it, or the wander is at the lower threshold and the hold time over.
   */
  lemma WarmPush(cfg: Config, w: nat, m: Model, f: Frame, now: u64)
    requires 0 < w && f != [] && |m.window| <= w
    requires |PushSpec(cfg, w, m, f, now).0.window| == w
    ensures var (after, v) := PushSpec(cfg, w, m, f, now);
      && after.wander == Wander(after.window, |f|)
      && (after.wander >= cfg.onPermille ==> after.present && after.lastMotion == now)
      && (after.wander < cfg.onPermille ==>
            && after.lastMotion == m.lastMotion
            && (after.present <==>
                  && m.present && (m.window == [] || |m.window[0]| == |f|)
                  && !(after.wander <= cfg.offPermille && (now >= m.lastMotion + cfg.hold || cfg.hold == 0))))
      && v == if after.present then Present(if after.wander > 255 then 255 else after.wander) else Absent
  {
  }

  /** A frame with no subcarriers changes nothing; a reset forgets all but the clock and the count. */
  lemma NothingPushed(cfg: Config, w: nat, m: Model, now: u64)
    requires 0 < w
    ensures PushSpec(cfg, w, m, [], now).0 == m
    ensures ResetSpec(m) == Model([], 0, false, m.lastMotion, m.frames)
  {
  }

  lemma {:induction false} RunConcat(cfg: Config, w: nat, m: Model, a: seq<Op>, b: seq<Op>)
    requires w > 0
    ensures Run(cfg, w, m, a + b) == Run(cfg, w, Run(cfg, w, m, a), b)
    decreases |a|
  {
    if a == [] {
      assert a + b == b;
    } else {
      assert (a + b)[1..] == a[1..] + b;
      RunConcat(cfg, w, Step(cfg, w, m, a[0]), a[1..], b);
    }
  }

  lemma {:induction false} LastPush(frames: seq<Frame>, times: seq<u64>, k: nat)
    requires |frames| == |times| == k + 1
    ensures Pushes(frames, times) == Pushes(frames[..k], times[..k]) + [Push(frames[k], times[k])]
    decreases k
  {
    if k > 0 {
      LastPush(frames[1..], times[1..], k - 1);
      assert frames[1..][..k - 1] == frames[..k][1..] && times[1..][..k - 1] == times[..k][1..];
    }
  }

  /** Whatever came before: a window of equally wide frames that wanders enough ends in presence, from its last frame on. */
  lemma MotionIsSeen(cfg: Config, w: nat, m: Model, frames: seq<Frame>, times: seq<u64>, n: nat)
    requires 0 < w && n > 0 && |frames| == |times| == w && Width(frames, n) && Sound(w, m)
    requires Wander(frames, n) >= cfg.onPermille
    ensures var after := Run(cfg, w, m, Pushes(frames, times));
      && after.present && after.lastMotion == times[w - 1]
      && VerdictNow(w, after) == Present(if Wander(frames, n) > 255 then 255 else Wander(frames, n))
  {
    var k := w - 1;
    var before := Run(cfg, w, m, Pushes(frames[..k], times[..k]));
    LastPush(frames, times, k);
    RunConcat(cfg, w, m, Pushes(frames[..k], times[..k]), [Push(frames[k], times[k])]);
    OnePush(cfg, w, before, frames[k], times[k]);
    WindowForgetsThePast(cfg, w, m, frames, times, n);
    RunSound(cfg, w, m, Pushes(frames[..k], times[..k]));
    WarmPush(cfg, w, before, frames[k], times[k]);
  }

  lemma OnePush(cfg: Config, w: nat, m: Model, f: Frame, now: u64)
    requires 0 < w
    ensures Run(cfg, w, m, [Push(f, now)]) == PushSpec(cfg, w, m, f, now).0
  {
    var ops := [Push(f, now)];
    assert ops[1..] == [];
  }

  lemma WarmingStep(cfg: Config, w: nat, m: Model, f: Frame, now: u64, n: nat)
    requires 0 < w && n > 0 && |m.window| < w && Width(m.window, n) && |f| == n
    ensures var after := PushSpec(cfg, w, m, f, now).0;
      after.window == m.window + [f] && Width(after.window, n)
  {
    PushWindow(cfg, w, m, f, now);
    RememberIs(w, m.window, f);
  }

  /** While it warms up the window is exactly what was pushed. */
  lemma {:induction false} WarmsUp(cfg: Config, w: nat, m: Model, frames: seq<Frame>, times: seq<u64>, n: nat)
    requires 0 < w && n > 0 && |frames| == |times| && |m.window| + |frames| <= w
    requires Width(m.window, n) && Width(frames, n)
    ensures Run(cfg, w, m, Pushes(frames, times)).window == m.window + frames
    decreases |frames|
  {
    if frames == [] {
      assert m.window + frames == m.window;
    } else {
      var m1 := PushSpec(cfg, w, m, frames[0], times[0]).0;
      FirstPush(cfg, w, m, frames, times);
      WarmingStep(cfg, w, m, frames[0], times[0], n);
      OneByOne(m.window, frames);
      WarmsUp(cfg, w, m1, frames[1..], times[1..], n);
    }
  }

  lemma OneByOne(window: seq<Frame>, frames: seq<Frame>)
    requires frames != []
    ensures (window + [frames[0]]) + frames[1..] == window + frames
  {
  }

  /** The verdict turns on at the upper threshold only, and off only at the lower one, after the hold time. */
  lemma Hysteresis(cfg: Config, w: nat, m: Model, f: Frame, now: u64)
    requires 0 < w && f != [] && |m.window| <= w
    ensures var after := PushSpec(cfg, w, m, f, now).0;
      && (after.present && !m.present ==> after.wander >= cfg.onPermille && after.lastMotion == now)
      && (!after.present && m.present ==>
            || (m.window != [] && |m.window[0]| != |f|)
            || (after.wander <= cfg.offPermille && after.wander < cfg.onPermille
                && SaturatingSub(now, m.lastMotion) >= cfg.hold))
  {
  }

  lemma PushHolds(cfg: Config, w: nat, m: Model, f: Frame, now: u64, since: u64)
    requires 0 < w && f != [] && m.window != [] && |m.window[0]| == |f|
    requires m.present && since <= m.lastMotion && since <= now && now - since < cfg.hold
    ensures var after := PushSpec(cfg, w, m, f, now).0; after.present && since <= after.lastMotion
  {
  }

  /** Someone present stays present through the hold time, whatever the frames say. */
  lemma {:induction false} PresenceHolds(cfg: Config, w: nat, m: Model, frames: seq<Frame>, times: seq<u64>, since: u64, n: nat)
    requires 0 < w && n > 0 && |frames| == |times| && Width(frames, n) && |m.window| <= w
    requires m.window != [] && Width(m.window, n) && m.present && since <= m.lastMotion
    requires forall i | 0 <= i < |times| :: since <= times[i] && times[i] - since < cfg.hold
    ensures Run(cfg, w, m, Pushes(frames, times)).present
    decreases |frames|
  {
    if frames != [] {
      PushHolds(cfg, w, m, frames[0], times[0], since);
      PushWindow(cfg, w, m, frames[0], times[0]);
      assert EndsWith(m.window, []);
      RememberTail(w, m.window, [], frames[0], n);
      var m1 := PushSpec(cfg, w, m, frames[0], times[0]).0;
      PresenceHolds(cfg, w, m1, frames[1..], times[1..], since, n);
      assert Pushes(frames, times)[1..] == Pushes(frames[1..], times[1..]);
    }
  }

  lemma StepSound(cfg: Config, w: nat, m: Model, op: Op)
    requires 0 < w && Sound(w, m)
    ensures Sound(w, Step(cfg, w, m, op))
  {
    if op.Push? && op.frame != [] {
      PushSeen(cfg, w, m, [], op.frame, op.now, |op.frame|);
    }
  }

  lemma {:induction false} RunSound(cfg: Config, w: nat, m: Model, ops: seq<Op>)
    requires 0 < w && Sound(w, m)
    ensures Sound(w, Run(cfg, w, m, ops))
    decreases |ops|
  {
    if ops != [] {
      StepSound(cfg, w, m, ops[0]);
      RunSound(cfg, w, Step(cfg, w, m, ops[0]), ops[1..]);
    }
  }

  // ---------------------------------------------------------------------
  // The carried totals
  // ---------------------------------------------------------------------

  ghost predicate Rows(rows: seq<Frame>) {
    forall f | 0 <= f < |rows| :: |rows[f]| == MAX_SUBCARRIERS
  }

  /** Every one of the 64 totals is its column's total, over every slot of the ring. */
  ghost predicate Carried(rows: seq<Frame>, sum: seq<u32>, sumsq: seq<u64>) {
    && |sum| == |sumsq| == MAX_SUBCARRIERS
    && forall sc | 0 <= sc < MAX_SUBCARRIERS ::
         sum[sc] == Sum(Column(rows, sc)) && sumsq[sc] == SumSq(Column(rows, sc))
  }

  function Stored(rows: seq<Frame>, slot: nat, sc: nat, x: u16): seq<Frame>
    requires slot < |rows| && sc < |rows[slot]|
  {
    var row: Frame := rows[slot];
    rows[slot := row[sc := x]]
  }

  /** Slot `next` with the first `n` entries of `f` stored over what it held. */
  ghost function Partly(rows: seq<Frame>, next: nat, f: Frame, n: nat): seq<Frame>
    requires next < |rows| && n <= |f| <= |rows[next]|
  {
    var row: Frame := rows[next];
    rows[next := f[..n] + row[n..]]
  }

  lemma PartlyNone(rows: seq<Frame>, next: nat, f: Frame)
    requires next < |rows| && |f| <= |rows[next]|
    ensures Partly(rows, next, f, 0) == rows
  {
    var row: Frame := rows[next];
    assert f[..0] + row[0..] == row;
  }

  lemma PartlyStep(rows: seq<Frame>, next: nat, f: Frame, n: nat)
    requires next < |rows| && n < |f| <= |rows[next]|
    ensures Stored(Partly(rows, next, f, n), next, n, f[n]) == Partly(rows, next, f, n + 1)
  {
    var row: Frame := rows[next];
    var before: Frame := f[..n] + row[n..];
    assert before[n := f[n]] == f[..n + 1] + row[n + 1..];
  }

  /** One entry of one slot: its own column changes there, every other column is as it was. */
  lemma ColumnAfterStore(rows: seq<Frame>, slot: nat, sc: nat, x: u16, other: nat)
    requires Rows(rows) && slot < |rows| && sc < MAX_SUBCARRIERS && other < MAX_SUBCARRIERS
    ensures var after := Stored(rows, slot, sc, x);
      && Rows(after)
      && Column(after, other) == if other == sc then Column(rows, sc)[slot := x] else Column(rows, other)
  {
    var after := Stored(rows, slot, sc, x);
    assert Column(after, other) == if other == sc then Column(rows, sc)[slot := x] else Column(rows, other);
  }

  /** Subtract what the slot held, add what replaces it: the totals stay the columns' totals. */
  lemma StoreKeepsCarried(rows: seq<Frame>, sum: seq<u32>, sumsq: seq<u64>, slot: nat, sc: nat, x: u16)
    requires Rows(rows) && Carried(rows, sum, sumsq)
    requires slot < |rows| <= 65536 && sc < MAX_SUBCARRIERS
    ensures var o := rows[slot][sc];
      && 0 <= sum[sc] - o && sum[sc] - o + x < TWO_32
      && 0 <= sumsq[sc] - Square(o) && sumsq[sc] - Square(o) + Square(x) < TWO_64
      && var after := Stored(rows, slot, sc, x);
      && Rows(after)
      && Carried(after, sum[sc := sum[sc] - o + x], sumsq[sc := sumsq[sc] - Square(o) + Square(x)])
  {
    var c := Column(rows, sc);
    var after := Stored(rows, slot, sc, x);
    TotalsAfterStore(c, slot, x);
    forall other | 0 <= other < MAX_SUBCARRIERS
      ensures Column(after, other) == if other == sc then c[slot := x] else Column(rows, other)
    {
      ColumnAfterStore(rows, slot, sc, x, other);
    }
  }

  lemma TotalsAfterStore(c: seq<u16>, slot: nat, x: u16)
    requires slot < |c| <= 65536
    ensures 0 <= Sum(c) - c[slot] && Sum(c) - c[slot] + x < TWO_32
    ensures 0 <= SumSq(c) - Square(c[slot]) && SumSq(c) - Square(c[slot]) + Square(x) < TWO_64
    ensures Sum(c[slot := x]) == Sum(c) - c[slot] + x
    ensures SumSq(c[slot := x]) == SumSq(c) - Square(c[slot]) + Square(x)
  {
    EntryBelowSum(c, slot);
    SumOfUpdate(c, slot, x);
    SumBounds(c[slot := x]);
    MulMono(|c|, 65536, TOP);
  }

  // ---------------------------------------------------------------------
  // Where the window sits in the ring
  // ---------------------------------------------------------------------

  /** The ring slot of the window's `t`-th frame, when the next frame goes to `next`. */
  function Slot(w: nat, next: nat, filled: nat, t: nat): int {
    if next - filled + t < 0 then next - filled + t + w else next - filled + t
  }

  ghost predicate Placed(rows: seq<Frame>, window: seq<Frame>, next: nat) {
    && next < |rows| && |window| <= |rows|
    && forall t | 0 <= t < |window| ::
         var s := Slot(|rows|, next, |window|, t);
         |window[t]| <= |rows[s]| && rows[s][..|window[t]|] == window[t]
  }

  /** The new frame takes slot `next`; every frame still remembered keeps its slot. */
  lemma PlaceNext(rows: seq<Frame>, after: seq<Frame>, window: seq<Frame>, next: nat, f: Frame)
    requires Placed(rows, window, next) && |f| <= MAX_SUBCARRIERS && Rows(rows)
    requires after == Partly(rows, next, f, |f|)
    ensures Placed(after, Remember(|rows|, window, f), if next + 1 == |rows| then 0 else next + 1)
  {
    var w := |rows|;
    var window2 := Remember(w, window, f);
    var next2 := if next + 1 == w then 0 else next + 1;
    forall t | 0 <= t < |window2|
      ensures var s := Slot(w, next2, |window2|, t);
        |window2[t]| <= |after[s]| && after[s][..|window2[t]|] == window2[t]
    {
      var s := Slot(w, next2, |window2|, t);
      if t == |window2| - 1 {
        assert s == next && window2[t] == f;
      } else {
        var place := if |window| < w then t else t + 1;
        assert window2[t] == window[place];
        assert s == Slot(w, next, |window|, place) && s != next;
      }
    }
  }

  /** A full window's columns are the ring's columns, turned; so their totals are the carried ones. */
  lemma FullColumn(rows: seq<Frame>, window: seq<Frame>, next: nat, sc: nat, n: nat)
    requires Rows(rows) && Placed(rows, window, next) && |window| == |rows|
    requires Width(window, n) && sc < n
    ensures Sum(Column(rows, sc)) == Sum(Column(window, sc))
    ensures SumSq(Column(rows, sc)) == SumSq(Column(window, sc))
  {
    var w, c := |rows|, Column(window, sc);
    var turned := c[w - next..] + c[..w - next];
    forall s | 0 <= s < w ensures Column(rows, sc)[s] == turned[s] {
      var t := if s < next then s + w - next else s - next;
      assert Slot(w, next, w, t) == s;
      assert rows[s][..|window[t]|][sc] == window[t][sc];
    }
    assert Column(rows, sc) == turned;
    SumOfRotation(c, w - next);
  }

  // ---------------------------------------------------------------------
  // The detector
  // ---------------------------------------------------------------------

  class PresenceDetector {
    var config: Config
    const ring: array<Frame>
    const sum: array<u32>
    const sumsq: array<u64>
    var count: nat
    var filled: nat
    var next: nat
    var wander: u16
    var present: bool
    var lastMotion: u64
    var frames: u32
    /** The frames pushed since the last reset, the newest `W` of them. */
    ghost var window: seq<Frame>

    ghost predicate Valid()
      reads this, ring, sum, sumsq
    {
      && 1 <= ring.Length <= 65536 && sum as object != sumsq
      && Rows(ring[..]) && Carried(ring[..], sum[..], sumsq[..])
      && filled == |window| && Placed(ring[..], window, next)
      && Width(window, count) && count <= MAX_SUBCARRIERS
      && (filled > 0 ==> count > 0)
    }

    ghost function Abstract(): Model
      reads this
    {
      Model(window, wander, present, lastMotion, frames)
    }

    constructor (w: nat, config: Config)
      requires 1 <= w <= 65536
      ensures Valid() && ring.Length == w && this.config == config
      ensures Abstract() == Model([], 0, false, 0, 0)
      ensures fresh(ring) && fresh(sum) && fresh(sumsq)
    {
      this.config := config;
      ring := new Frame[w](_ => seq(64, _ => 0));
      sum := new u32[64](_ => 0);
      sumsq := new u64[64](_ => 0);
      count, filled, next := 0, 0, 0;
      wander, present, lastMotion, frames := 0, false, 0, 0;
      window := [];
      new;
      forall sc | 0 <= sc < MAX_SUBCARRIERS
        ensures Sum(Column(ring[..], sc)) == 0 && SumSq(Column(ring[..], sc)) == 0
      {
        assert Column(ring[..], sc) == seq(w, _ => 0);
        SumOfConstant(w, 0);
      }
    }

    method Reset()
      requires Valid()
      modifies this
      ensures Valid() && config == old(config)
      ensures Abstract() == ResetSpec(old(Abstract()))
    {
      filled, next, count := 0, 0, 0;
      wander, present := 0, false;
      window := [];
    }

    /** The loop of `push`: slot `next` takes the frame, and both totals follow entry by entry. */
    method Store(f: Frame)
      requires Valid() && |f| <= MAX_SUBCARRIERS
      modifies ring, sum, sumsq
      ensures Rows(ring[..]) && Carried(ring[..], sum[..], sumsq[..])
      ensures ring[..] == Partly(old(ring[..]), next, f, |f|)
    {
      ghost var rows := ring[..];
      PartlyNone(rows, next, f);
      for sc := 0 to |f|
        invariant Rows(ring[..]) && Carried(ring[..], sum[..], sumsq[..])
        invariant ring[..] == Partly(rows, next, f, sc)
      {
        StoreEntry(sc, f[sc]);
        PartlyStep(rows, next, f, sc);
      }
    }

    method StoreEntry(sc: nat, x: u16)
      requires next < ring.Length <= 65536 && sc < MAX_SUBCARRIERS && sum as object != sumsq
      requires Rows(ring[..]) && Carried(ring[..], sum[..], sumsq[..])
      modifies ring, sum, sumsq
      ensures Rows(ring[..]) && Carried(ring[..], sum[..], sumsq[..])
      ensures ring[..] == Stored(old(ring[..]), next, sc, x)
    {
      StoreKeepsCarried(ring[..], sum[..], sumsq[..], next, sc, x);
      var row: Frame := ring[next];
      sum[sc] := sum[sc] as int - row[sc] + x;
      sumsq[sc] := sumsq[sc] as int - Square(row[sc]) + Square(x);
      ring[next] := row[sc := x];
    }

    /** One subcarrier's part of the wander, in the widths the code uses. */
    method TermOf(ghost c: seq<u16>, w: u64, sum: u64, sumsq: u64) returns (t: u32)
      requires 1 <= w == |c| <= 65536 && sum == Sum(c) && sumsq == SumSq(c)
      ensures t == Term(c) && t <= MAX_TERM
    {
      TermFits(c);
      var mean := Quotient(sum, w);
      if mean == 0 {
        return 0;
      }
      var scaled := ScaledOf(c, w, sum, sumsq);
      var root := RootOf(scaled);
      t := Ratio(Quotient(root, w), mean);
    }

    /** `256 * var_w2`, the square and the product exact in 64 bits. */
    method ScaledOf(ghost c: seq<u16>, w: u64, sum: u64, sumsq: u64) returns (scaled: u64)
      requires 1 <= w == |c| <= 65536 && sum == Sum(c) && sumsq == SumSq(c)
      ensures scaled == Scaled(c)
    {
      TotalsFit(c);
      var square: u64 := sum * sum;
      var product: u64 := w * sumsq;
      SpreadIsNat(c);
      scaled := Times256(SaturatingSub(product, square));
    }

    /** The 32-bit root when it fits, the 64-bit one when it does not: the same root. */
    method RootOf(scaled: u64) returns (root: u64)
      ensures root == FloorSqrt(scaled)
    {
      if scaled < TWO_32 {
        root := FloorSqrt(scaled);
      } else {
        root := Isqrt64(scaled);
        RootIsUnique(root, FloorSqrt(scaled), scaled);
      }
    }

    method Ratio(std16: u32, mean: u32) returns (t: u32)
      requires std16 <= 524287 && 0 < mean <= TOP
      ensures t == PerMille(std16, mean)
    {
      PerMilleFits(std16, mean);
      var thousand: u32, sixteen: u32 := std16 * 1000, mean * 16;
      t := Quotient(thousand, sixteen);
    }

    method ComputeWander() returns (r: u16)
      requires Valid() && filled == ring.Length && count > 0
      ensures r == Wander(window, count)
    {
      var total: u32 := 0;
      for sc := 0 to count
        invariant total == TermSum(window, sc) && total <= sc * MAX_TERM
      {
        FullColumn(ring[..], window, next, sc, count);
        var t := TermOf(Column(window, sc), ring.Length, sum[sc], sumsq[sc]);
        total := total + t;
      }
      r := Min(Quotient(total, count), TOP);
    }

    /** `push`: one frame in, the totals carried, the verdict out. */
    method Push(f: Frame, now: u64) returns (v: Verdict)
      requires Valid() && |f| <= MAX_SUBCARRIERS
      modifies this, ring, sum, sumsq
      ensures Valid() && config == old(config)
      ensures Abstract() == PushSpec(config, ring.Length, old(Abstract()), f, now).0
      ensures v == PushSpec(config, ring.Length, old(Abstract()), f, now).1
    {
      if f == [] {
        return VerdictOf();
      }
      if filled > 0 && |f| != count {
        Reset();
      }
      Slide(f);
      if filled < ring.Length {
        return Warming;
      }
      wander := ComputeWander();
      if wander >= config.onPermille {
        present := true;
        lastMotion := now;
      } else if present && wander <= config.offPermille && SaturatingSub(now, lastMotion) >= config.hold {
        present := false;
      }
      v := VerdictOf();
    }

    function VerdictOf(): Verdict
      reads this, ring, sum, sumsq
      requires Valid()
      ensures VerdictOf() == VerdictNow(ring.Length, Abstract())
    {
      if filled < ring.Length then Warming
      else if present then Present(if wander > 255 then 255 else wander)
      else Absent
    }

    /** The frame takes the next slot, and the window moves over it. */
    method Slide(f: Frame)
      requires Valid() && 0 < |f| <= MAX_SUBCARRIERS && (filled > 0 ==> |f| == count)
      modifies this, ring, sum, sumsq
      ensures Valid() && config == old(config) && count == |f|
      ensures Abstract() == Append(ring.Length, old(Abstract()), f)
    {
      PlaceNext(ring[..], Partly(ring[..], next, f, |f|), window, next, f);
      RememberWidth(ring.Length, window, f);
      Store(f);
      Advance(|f|, Remember(ring.Length, window, f));
    }

    /** The bookkeeping of `push` once the frame is stored: `after` is remembered now. */
    method Advance(n: nat, ghost after: seq<Frame>)
      requires next < ring.Length <= 65536 && sum as object != sumsq
      requires Rows(ring[..]) && Carried(ring[..], sum[..], sumsq[..])
      requires filled <= ring.Length && 0 < n <= MAX_SUBCARRIERS
      requires |after| == if filled < ring.Length then filled + 1 else filled
      requires Placed(ring[..], after, Wrap(ring.Length, next + 1)) && Width(after, n)
      modifies this
      ensures Valid() && config == old(config) && count == n
      ensures Abstract() == old(Abstract()).(window := after, frames := Wrapping(old(frames) + 1))
    {
      count := n;
      window := after;
      next := Wrap(ring.Length, next + 1);
      if filled < ring.Length {
        filled := filled + 1;
      }
      frames := Wrapping(frames + 1);
    }
  }

  lemma RememberWidth(w: nat, window: seq<Frame>, f: Frame)
    requires 0 < w && |window| <= w && Width(window, |f|)
    ensures Width(Remember(w, window, f), |f|)
  {
  }

  /** No term of the wander is larger, whatever the window. */
  const MAX_TERM: int := 362062

  lemma TotalsFit(c: seq<u16>)
    requires 1 <= |c| <= 65536
    ensures Sum(c) * Sum(c) < TWO_64 && |c| * SumSq(c) < TWO_64
  {
    SumBounds(c);
    MulMono(|c|, 65536, TOP);
    SquareMono(Sum(c), 65536 * TOP);
    MulMono(SumSq(c), TOP * (65536 * TOP), |c|);
    MulMono(|c|, 65536, TOP * (65536 * TOP));
  }

  lemma TermFits(c: seq<u16>)
    requires 1 <= |c| <= 65536
    ensures Quotient(Sum(c), |c|) <= TOP
    ensures Std16(c) <= 524287
    ensures Term(c) <= MAX_TERM
  {
    SumBounds(c);
    QuotientBound(Sum(c), |c|, TOP);
    Std16Bound(c);
    TermBound(c);
  }

  /** A window of any length: the deviation of amplitudes that cannot be negative is bounded by their mean. */
  lemma TermBound(c: seq<u16>)
    requires |c| > 0
    ensures Term(c) <= MAX_TERM
  {
    var m := Quotient(Sum(c), |c|);
    if m >= 1 {
      QuotientBrackets(Sum(c), |c|);
      Std16ByMean(c, m);
      QuotientBelow(Std16(c) * 1000, m * 16, MAX_TERM + 1);
    }
  }

  /** The documented bounds, 4095937 a term and 262139968 over 64 of them, hold with room. */
  lemma {:induction false} TotalFits(frames: seq<Frame>, n: nat)
    requires |frames| > 0 && n <= MAX_SUBCARRIERS
    ensures TermSum(frames, n) <= n * MAX_TERM <= 262_139_968
    ensures n > 0 ==> Term(Column(frames, n - 1)) <= MAX_TERM < 4_095_937
  {
    if n > 0 {
      TermBound(Column(frames, n - 1));
      TotalFits(frames, n - 1);
    }
  }

  lemma PerMilleFits(std16: nat, mean: nat)
    requires std16 <= 524287
    ensures PerMille(std16, mean) < TWO_32
  {
    if mean > 0 {
      MulMono(16, mean * 16, TWO_32);
      QuotientBelow(std16 * 1000, mean * 16, TWO_32);
    }
  }
}
