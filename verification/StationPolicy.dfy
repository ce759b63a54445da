/** The Wi-Fi station's reconnect and fallback policy. */
module StationPolicy {
  import opened Arith
  import opened Bits
  import opened Bytes

  const MAX_MICROS: int := TWO_64 - 1

  datatype Phase = Unprovisioned | Connecting | Connected | Backoff | Fallback
  datatype Event = Provisioned | Joined | Disconnected | Tick
  datatype Action = Connect | Wait(micros: nat) | StartProvisioning | Nothing

  datatype Config = Config(minBackoff: u64, maxBackoff: u64, maxFailures: u8)
  datatype Policy = Policy(cfg: Config, phase: Phase, failures: u8, reconnects: u32, waitUntil: nat)

  /** `backoff_for`: a shift, a saturating product, a ceiling. */
  function BackoffFor(cfg: Config, failures: u8): u64 {
    var shift := if failures == 0 then 0 else failures - 1;
    var raw := if shift >= 64 then MAX_MICROS else Min(cfg.minBackoff * Pow2(shift), MAX_MICROS);
    if raw > cfg.maxBackoff then cfg.maxBackoff else raw
  }

  function On(p: Policy, event: Event, now: nat): (Policy, Action) {
    match event
    case Provisioned => (p.(failures := 0, phase := Connecting), Connect)
    case Joined => (p.(failures := 0, phase := Connected), Nothing)
    case Disconnected =>
      if !p.phase.Connecting? && !p.phase.Connected? then (p, Nothing)
      else
        var failures := Min(p.failures + 1, 255);
        if failures >= p.cfg.maxFailures then (p.(failures := failures, phase := Fallback), StartProvisioning)
        else
          var wait := BackoffFor(p.cfg, failures);
          (p.(failures := failures, waitUntil := now + wait, phase := Backoff), Wait(wait))
    case Tick =>
      if !p.phase.Backoff? then (p, Nothing)
      else
        var remaining := if p.waitUntil >= now then p.waitUntil - now else 0;
        if remaining == 0 then (p.(reconnects := Min(p.reconnects + 1, TWO_32 - 1), phase := Connecting), Connect)
        else (p, Wait(remaining))
  }

  /** New credentials and a join, from any phase: both forget the failures. */
  lemma CredentialsAndJoins(p: Policy, now: nat)
    ensures var (q, action) := On(p, Provisioned, now);
      q == p.(phase := Connecting, failures := 0) && action == Connect
    ensures var (q, action) := On(p, Joined, now);
      q == p.(phase := Connected, failures := 0) && action == Nothing
  {
  }

  /** Everything else that is not a failure of a join or a tick of a wait changes nothing and asks nothing. */
  lemma OthersAreQuiet(p: Policy, now: nat)
    ensures On(p, Disconnected, now) == (p, Nothing) <==> !p.phase.Connecting? && !p.phase.Connected?
    ensures On(p, Tick, now) == (p, Nothing) <==> !p.phase.Backoff?
  {
  }

  // ---------------------------------------------------------------------
  // The delays
  // ---------------------------------------------------------------------

  /** The delay the documentation promises: doubling from the least, capped. */
  function Doubling(cfg: Config, k: nat): nat
    requires k >= 1
  {
    Min(cfg.minBackoff * Pow2(k - 1), cfg.maxBackoff)
  }

  /** It starts at the least delay and doubles, under the ceiling. */
  lemma DoublingDoubles(cfg: Config, k: nat)
    requires k >= 1
    ensures Doubling(cfg, 1) == if cfg.minBackoff <= cfg.maxBackoff then cfg.minBackoff else cfg.maxBackoff
    ensures var twice := 2 * Doubling(cfg, k);
      Doubling(cfg, k + 1) == if twice <= cfg.maxBackoff then twice else cfg.maxBackoff
  {
    assert Pow2(0) == 1 && Pow2(k) == 2 * Pow2(k - 1);
    assert cfg.minBackoff * Pow2(k) == 2 * (cfg.minBackoff * Pow2(k - 1));
  }

  lemma ShiftedOut(m: u64, k: nat)
    requires m > 0 && k >= 64
    ensures m * Pow2(k) > MAX_MICROS
  {
    Pow2Of64();
    Pow2Mono(64, k);
    MulMono(1, m, Pow2(k));
  }

  /**
   The code's delay is the promised one exactly unless the least delay is
   zero, the shift runs out and the ceiling is not zero: the saturated shift
   then stands in for a product that is really zero.
   */
  lemma BackoffIsDoublingIff(cfg: Config, k: u8)
    requires k >= 1
    ensures BackoffFor(cfg, k) == Doubling(cfg, k) <==> cfg.minBackoff > 0 || k <= 64 || cfg.maxBackoff == 0
  {
    if k > 64 {
      if cfg.minBackoff > 0 {
        ShiftedOut(cfg.minBackoff, k - 1);
      } else {
        assert 0 * Pow2(k - 1) == 0;
      }
    }
  }

  /** The family that misses it, at its first member. */
  lemma ZeroBackoffJumps()
    ensures BackoffFor(Config(0, 60_000_000, 255), 64) == 0
    ensures BackoffFor(Config(0, 60_000_000, 255), 65) == 60_000_000 != Doubling(Config(0, 60_000_000, 255), 65)
  {
    assert 0 * Pow2(63) == 0 && 0 * Pow2(64) == 0;
  }

  /** The delays never shrink, the saturation included. */
  lemma BackoffGrows(cfg: Config, j: u8, k: u8)
    requires j <= k
    ensures BackoffFor(cfg, j) <= BackoffFor(cfg, k) <= cfg.maxBackoff
    ensures BackoffFor(cfg, 0) == BackoffFor(cfg, 1)
  {
    var a, b := if j == 0 then 0 else j - 1, if k == 0 then 0 else k - 1;
    Pow2Mono(a, b);
    MulMono(Pow2(a), Pow2(b), cfg.minBackoff);
  }

  // ---------------------------------------------------------------------
  // Every run
  // ---------------------------------------------------------------------

  datatype Input = Input(event: Event, now: nat)

  function Run(p: Policy, inputs: seq<Input>): Policy
    decreases |inputs|
  {
    if inputs == [] then p else Run(On(p, inputs[0].event, inputs[0].now).0, inputs[1..])
  }

  /** Failures it takes to fall back: a limit of zero still takes one. */
  function Limit(cfg: Config): nat {
    if cfg.maxFailures == 0 then 1 else cfg.maxFailures
  }

  ghost predicate Sound(p: Policy) {
    && (p.phase.Backoff? ==> 1 <= p.failures < p.cfg.maxFailures)
    && (p.phase.Fallback? ==> p.failures == Limit(p.cfg))
    && (p.phase.Connecting? || p.phase.Unprovisioned? ==> p.failures < Limit(p.cfg))
    && (p.phase.Connected? ==> p.failures == 0)
  }

  lemma {:induction false} RunIsSound(p: Policy, inputs: seq<Input>)
    requires Sound(p)
    ensures Sound(Run(p, inputs)) && Run(p, inputs).cfg == p.cfg
    decreases |inputs|
  {
    if inputs != [] {
      RunIsSound(On(p, inputs[0].event, inputs[0].now).0, inputs[1..]);
    }
  }

  /** A disconnect that counts as a failure: of a join under way, or of a connection. */
  predicate Fails(p: Policy, event: Event) {
    event.Disconnected? && (p.phase.Connecting? || p.phase.Connected?)
  }

  /** The failures since the last join or new credentials, `n` of them before the run. */
  function Since(p: Policy, inputs: seq<Input>, n: nat): nat
    decreases |inputs|
  {
    if inputs == [] then n
    else
      var q := On(p, inputs[0].event, inputs[0].now).0;
      Since(q, inputs[1..],
            if inputs[0].event in {Provisioned, Joined} then 0 else if Fails(p, inputs[0].event) then n + 1 else n)
  }

  /** Over any run, joins included: those and no others are counted, and at the limit, and only there, is fallback. */
  lemma {:induction false} FallbackIffFailures(p: Policy, inputs: seq<Input>)
    requires Sound(p)
    ensures var q, n := Run(p, inputs), Since(p, inputs, p.failures);
      && q.failures == n <= Limit(p.cfg)
      && (q.phase.Fallback? <==> n == Limit(p.cfg))
    decreases |inputs|
  {
    if inputs != [] {
      var q := On(p, inputs[0].event, inputs[0].now).0;
      CountsFailure(p, inputs[0].event, inputs[0].now);
      FallbackIffFailures(q, inputs[1..]);
    }
  }

  lemma CountsFailure(p: Policy, event: Event, now: nat)
    requires Sound(p)
    ensures var q := On(p, event, now).0;
      && Sound(q) && q.cfg == p.cfg
      && q.failures == if event in {Provisioned, Joined} then 0 else if Fails(p, event) then p.failures + 1 else p.failures
  {
  }

  /** How many ticks of a run were answered with a join. */
  function Rejoins(p: Policy, inputs: seq<Input>): nat
    decreases |inputs|
  {
    if inputs == [] then 0
    else
      var (q, action) := On(p, inputs[0].event, inputs[0].now);
      (if inputs[0].event.Tick? && action == Connect then 1 else 0) + Rejoins(q, inputs[1..])
  }

  /** That is what `reconnects` counts, over any run, up to the largest `u32`. */
  lemma {:induction false} ReconnectsCount(p: Policy, inputs: seq<Input>)
    ensures var n := p.reconnects + Rejoins(p, inputs);
      Run(p, inputs).reconnects == if n < 0x1_0000_0000 then n else 0xffff_ffff
    decreases |inputs|
  {
    if inputs != [] {
      ReconnectsCount(On(p, inputs[0].event, inputs[0].now).0, inputs[1..]);
    }
  }

  /** Nothing but new credentials or a join leaves fallback. */
  lemma {:induction false} FallbackHolds(p: Policy, inputs: seq<Input>)
    requires p.phase.Fallback?
    requires forall i | 0 <= i < |inputs| :: inputs[i].event in {Disconnected, Tick}
    ensures Run(p, inputs) == p
    decreases |inputs|
  {
    if inputs != [] {
      assert On(p, inputs[0].event, inputs[0].now).0 == p;
      FallbackHolds(p, inputs[1..]);
    }
  }

  /** Before the wait is over, no tick and no disconnect gets a join started or changes anything. */
  lemma {:induction false} BackoffHolds(p: Policy, inputs: seq<Input>)
    requires p.phase.Backoff?
    requires forall i | 0 <= i < |inputs| ::
      inputs[i].event == Disconnected || (inputs[i].event == Tick && inputs[i].now < p.waitUntil)
    ensures Run(p, inputs) == p
    decreases |inputs|
  {
    if inputs != [] {
      assert On(p, inputs[0].event, inputs[0].now).0 == p;
      BackoffHolds(p, inputs[1..]);
    }
  }

  /** A failure's wait runs its full length from the failure: the join starts exactly then or later. */
  lemma WaitIsServed(p: Policy, failedAt: nat, quiet: seq<Input>, now: nat)
    requires p.phase.Connecting? || p.phase.Connected?
    requires On(p, Disconnected, failedAt).1.Wait?
    requires var wait := On(p, Disconnected, failedAt).1.micros;
      forall i | 0 <= i < |quiet| ::
        quiet[i].event == Disconnected || (quiet[i].event == Tick && quiet[i].now < failedAt + wait)
    ensures var (q, action) := On(p, Disconnected, failedAt);
      var waiting := Run(q, quiet);
      && q.phase.Backoff? && waiting == q
      && (On(waiting, Tick, now).1 == Connect <==> now >= failedAt + action.micros)
      && (now < failedAt + action.micros ==> On(waiting, Tick, now) == (q, Wait(failedAt + action.micros - now)))
  {
    BackoffHolds(On(p, Disconnected, failedAt).0, quiet);
  }

  // ---------------------------------------------------------------------
  // When every join fails
  // ---------------------------------------------------------------------

  /** The answers to the failures that count: a disconnect while connecting or connected. */
  function FailureAnswers(p: Policy, inputs: seq<Input>): seq<Action>
    decreases |inputs|
  {
    if inputs == [] then []
    else
      var (q, action) := On(p, inputs[0].event, inputs[0].now);
      var rest := FailureAnswers(q, inputs[1..]);
      if inputs[0].event.Disconnected? && (p.phase.Connecting? || p.phase.Connected?) then [action] + rest else rest
  }

  /** What the `k`-th failure in a row is answered with. */
  function Answer(cfg: Config, k: u8): Action {
    if k < Limit(cfg) then Wait(BackoffFor(cfg, k)) else StartProvisioning
  }

  /**
   From the first join on, with nothing but failures and ticks: the `k`-th
   failure is answered with the `k`-th wait, the last allowed one with
   fallback, and fallback is reached after exactly that many, never before.
   */
  lemma {:induction false} FailuresInOrder(p: Policy, inputs: seq<Input>)
    requires Sound(p) && !p.phase.Unprovisioned?
    requires forall i | 0 <= i < |inputs| :: inputs[i].event in {Disconnected, Tick}
    ensures var answers := FailureAnswers(p, inputs);
      && p.failures + |answers| <= Limit(p.cfg)
      && (forall i | 0 <= i < |answers| :: answers[i] == Answer(p.cfg, p.failures + i + 1))
      && (Run(p, inputs).phase.Fallback? <==> p.failures + |answers| == Limit(p.cfg))
    decreases |inputs|
  {
    if inputs != [] {
      var (q, action) := On(p, inputs[0].event, inputs[0].now);
      RunIsSound(p, [inputs[0]]);
      assert Run(p, [inputs[0]]) == q;
      FailuresInOrder(q, inputs[1..]);
    }
  }

  /** So, from new credentials: exactly `max(1, max_failures)` failed joins, and waits that double up to the cap. */
  lemma EveryJoinFails(p: Policy, provisionedAt: nat, inputs: seq<Input>)
    requires p.cfg.minBackoff > 0
    requires forall i | 0 <= i < |inputs| :: inputs[i].event in {Disconnected, Tick}
    ensures var q := On(p, Provisioned, provisionedAt).0;
      var answers := FailureAnswers(q, inputs);
      && |answers| <= Limit(p.cfg)
      && (Run(q, inputs).phase.Fallback? <==> |answers| == Limit(p.cfg))
      && (forall i | 0 <= i < |answers| ::
            answers[i] == if i + 1 < Limit(p.cfg) then Wait(Doubling(p.cfg, i + 1)) else StartProvisioning)
  {
    var q := On(p, Provisioned, provisionedAt).0;
    FailuresInOrder(q, inputs);
    var answers := FailureAnswers(q, inputs);
    forall i | 0 <= i < |answers|
      ensures answers[i] == if i + 1 < Limit(p.cfg) then Wait(Doubling(p.cfg, i + 1)) else StartProvisioning
    {
      assert answers[i] == Answer(p.cfg, i + 1);
      BackoffIsDoublingIff(p.cfg, i + 1);
    }
  }

  // ---------------------------------------------------------------------
  // The policy object
  // ---------------------------------------------------------------------

  class StationPolicy {
    const cfg: Config
    var phase: Phase
    var failures: u8
    var reconnects: u32
    var waitUntil: nat

    ghost function Abstract(): Policy
      reads this
    {
      Policy(cfg, phase, failures, reconnects, waitUntil)
    }

    constructor (cfg: Config)
      ensures Abstract() == Policy(cfg, Unprovisioned, 0, 0, 0) && Sound(Abstract())
    {
      this.cfg := cfg;
      phase, failures, reconnects, waitUntil := Unprovisioned, 0, 0, 0;
    }

    method OnEvent(event: Event, now: nat) returns (action: Action)
      modifies this
      ensures (Abstract(), action) == On(old(Abstract()), event, now)
    {
      match event {
        case Provisioned =>
          failures, phase := 0, Connecting;
          action := Connect;
        case Joined =>
          failures, phase := 0, Connected;
          action := Nothing;
        case Disconnected =>
          if phase != Connecting && phase != Connected {
            return Nothing;
          }
          failures := if failures == 255 then 255 else failures + 1;
          if failures >= cfg.maxFailures {
            phase := Fallback;
            action := StartProvisioning;
          } else {
            var wait := BackoffFor(cfg, failures);
            waitUntil, phase := now + wait, Backoff;
            action := Wait(wait);
          }
        case Tick =>
          if phase != Backoff {
            return Nothing;
          }
          var remaining := if waitUntil >= now then waitUntil - now else 0;
          if remaining == 0 {
            reconnects := if reconnects == TWO_32 - 1 then reconnects else reconnects + 1;
            phase := Connecting;
            action := Connect;
          } else {
            action := Wait(remaining);
          }
      }
    }
  }
}
