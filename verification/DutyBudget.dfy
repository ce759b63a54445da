/**
 The LoRa duty-cycle budget: a 32-slot ring that merges what it has no room
 for, against the airtime actually sent.
 */
module DutyBudget {
  import opened Arith
  import opened Bytes
  import opened Wrappers

  const WINDOW: int := 3_600_000_000
  const RING: int := 32
  const MAX: int := TWO_64 - 1

  datatype Region = Eu868 | Us915 | Au915 | As923 | In865
  datatype Error = Unsupported | Busy
  datatype Outcome = Sent | Refused(error: Error)

  /** One remembered transmission, or several merged: when the last started, how long all were. */
  datatype Slot = Slot(at: u64, airtime: u64)

  function DutyCyclePermille(r: Region): Option<u16> {
    if r.Eu868? || r.As923? then Some(10) else None
  }

  function DwellMax(r: Region): Option<u64> {
    if r.Us915? || r.Au915? then Some(400_000) else None
  }

  function BudgetMicros(r: Region): Option<u64> {
    match DutyCyclePermille(r)
    case Some(permille) => Some(WINDOW / 1000 * permille)
    case None => None
  }

  lemma BudgetIs36Seconds(r: Region)
    requires BudgetMicros(r).Some?
    ensures BudgetMicros(r).value == 36_000_000 && DwellMax(r).None?
  {
  }

  // ---------------------------------------------------------------------
  // Airtime
  // ---------------------------------------------------------------------

  /** `now.since(at) < DUTY_WINDOW_MICROS`, `since` saturating at zero. */
  predicate Counts(now: u64, s: Slot) {
    SaturatingSub(now, s.at) < WINDOW
  }

  /** Everything that counts at `now`. */
  function Airtime(q: seq<Slot>, now: u64): nat {
    if q == [] then 0 else (if Counts(now, q[0]) then q[0].airtime else 0) + Airtime(q[1..], now)
  }

  /** What `used_micros` reports: the same, stopping at the largest `u64`. */
  function Used(q: seq<Slot>, now: u64): u64 {
    Min(Airtime(q, now), MAX)
  }

  function Total(q: seq<Slot>): nat {
    if q == [] then 0 else q[0].airtime + Total(q[1..])
  }

  /** The airtime of the transmissions that started in the hour ending at `t`. */
  function HourEnding(h: seq<Slot>, t: u64): nat {
    if h == [] then 0
    else (if h[0].at <= t && t - h[0].at < WINDOW then h[0].airtime else 0) + HourEnding(h[1..], t)
  }

  ghost predicate Ordered(q: seq<Slot>, clock: u64) {
    && (forall i, j | 0 <= i < j < |q| :: q[i].at <= q[j].at)
    && (forall i | 0 <= i < |q| :: q[i].at <= clock)
  }

  lemma {:induction false} AirtimeOfConcat(a: seq<Slot>, b: seq<Slot>, now: u64)
    ensures Airtime(a + b, now) == Airtime(a, now) + Airtime(b, now)
    ensures HourEnding(a + b, now) == HourEnding(a, now) + HourEnding(b, now)
    ensures Total(a + b) == Total(a) + Total(b)
  {
    if a == [] {
      assert a + b == b;
    } else {
      assert (a + b)[1..] == a[1..] + b;
      AirtimeOfConcat(a[1..], b, now);
    }
  }

  /** Once the clock has passed every start, the hour ending then is what counts then. */
  lemma {:induction false} HourIsAirtime(h: seq<Slot>, t: u64)
    requires forall i | 0 <= i < |h| :: h[i].at <= t
    ensures HourEnding(h, t) == Airtime(h, t)
  {
    if h != [] {
      HourIsAirtime(h[1..], t);
    }
  }

  /** What counts later counted already. */
  lemma {:induction false} AirtimeFalls(h: seq<Slot>, t: u64, u: u64)
    requires t <= u
    ensures Airtime(h, u) <= Airtime(h, t) <= Total(h)
  {
    if h != [] {
      AirtimeFalls(h[1..], t, u);
    }
  }

  // ---------------------------------------------------------------------
  // The specification, on the ring's contents oldest first
  // ---------------------------------------------------------------------

  function Expire(q: seq<Slot>, now: u64): (r: seq<Slot>)
    ensures |r| <= |q|
  {
    if q != [] && !Counts(now, q[0]) then Expire(q[1..], now) else q
  }

  /** The oldest entry evicted into its neighbour, which stays until it itself leaves. */
  function Merge(q: seq<Slot>): (r: seq<Slot>)
    requires |q| >= 2
    ensures |r| == |q| - 1
  {
    [Slot(q[1].at, SaturatingAdd(q[1].airtime, q[0].airtime))] + q[2..]
  }

  function Record(q: seq<Slot>, s: Slot): (r: seq<Slot>)
    requires |q| <= RING
    ensures 0 < |r| <= RING
  {
    (if |q| == RING then Merge(q) else q) + [s]
  }

  function TrySendSpec(region: Region, q: seq<Slot>, now: u64, airtime: u64): (seq<Slot>, Outcome)
    requires |q| <= RING
  {
    if DwellMax(region).Some? && airtime > DwellMax(region).value then (q, Refused(Unsupported))
    else
      var q1 := Expire(q, now);
      if BudgetMicros(region).Some? && SaturatingAdd(Used(q1, now), airtime) > BudgetMicros(region).value then
        (q1, Refused(Busy))
      else (Record(q1, Slot(now, airtime)), Sent)
  }

  // ---------------------------------------------------------------------
  // One send at a time
  // ---------------------------------------------------------------------

  /** One transmission in a reading, and in an hour; with `AirtimeOfConcat`, that is all of both sums. */
  lemma AirtimeOfOne(s: Slot, t: u64)
    ensures Airtime([s], t) == if t < s.at + 3_600_000_000 then s.airtime else 0
    ensures HourEnding([s], t) == if s.at <= t < s.at + 3_600_000_000 then s.airtime else 0
    ensures Total([s]) == s.airtime && Airtime([], t) == HourEnding([], t) == Total([]) == 0
  {
    assert [s][1..] == [];
  }

  /**
   Each answer, exactly: 400 ms at most where dwell is limited; 36 s in the
   hour, this transmission included, where there is a duty cycle; and
   otherwise the transmission is allowed.
   */
  lemma SendsIff(region: Region, q: seq<Slot>, now: u64, airtime: u64)
    requires |q| <= RING
    ensures var r := TrySendSpec(region, q, now, airtime).1;
      && (r == Refused(Unsupported) <==> region in {Us915, Au915} && airtime > 400_000)
      && (r == Refused(Busy) <==> region in {Eu868, As923} && Airtime(q, now) + airtime > 36_000_000)
      && (r == Sent <==>
            && (region in {Us915, Au915} ==> airtime <= 400_000)
            && (region in {Eu868, As923} ==> Airtime(q, now) + airtime <= 36_000_000))
  {
    ExpireKeepsReadings(q, now, now);
  }

  /** What a transmission leaves in the ring: itself last, and one entry more, up to 32. */
  lemma RecordIs(q: seq<Slot>, s: Slot)
    requires |q| <= 32
    ensures var r := Record(q, s);
      && r[|r| - 1] == s
      && (|q| < 32 ==> r == q + [s])
      && (|q| == 32 ==> |r| == 32 && r[1..31] == q[2..])
  {
    if |q| == 32 {
      assert Record(q, s)[1..31] == q[2..];
    }
  }

  /**
   How much a merge over-counts, exactly, at every instant: the oldest
   entry's airtime, from when it should have left until its neighbour does.
   */
  lemma MergeOverCounts(q: seq<Slot>, clock: u64, t: u64)
    requires |q| >= 2 && Ordered(q, clock) && q[0].airtime + q[1].airtime <= MAX
    ensures Airtime(Merge(q), t) == Airtime(q, t)
         + if q[0].at + 3_600_000_000 <= t < q[1].at + 3_600_000_000 then q[0].airtime else 0
  {
    var m := Merge(q);
    assert m[1..] == q[2..];
    assert q[1..][1..] == q[2..];
  }

  /** Expiring changes no reading at or after that instant. */
  lemma {:induction false} ExpireKeepsReadings(q: seq<Slot>, now: u64, t: u64)
    requires now <= t
    ensures Airtime(Expire(q, now), t) == Airtime(q, t) && Total(Expire(q, now)) <= Total(q)
  {
    if q != [] && !Counts(now, q[0]) {
      ExpireKeepsReadings(q[1..], now, t);
    }
  }

  /** What expiry leaves in an ordered ring all counts. */
  lemma {:induction false} ExpiredRingCounts(q: seq<Slot>, now: u64)
    requires Ordered(q, now)
    ensures Airtime(Expire(q, now), now) == Total(Expire(q, now))
    ensures forall i | 0 <= i < |Expire(q, now)| :: Counts(now, Expire(q, now)[i])
  {
    if q != [] {
      if Counts(now, q[0]) {
        AllCount(q, now);
      } else {
        ExpiredRingCounts(q[1..], now);
      }
    }
  }

  lemma {:induction false} AllCount(q: seq<Slot>, now: u64)
    requires forall i | 0 <= i < |q| :: Counts(now, q[i])
    ensures Airtime(q, now) == Total(q)
  {
    if q != [] {
      AllCount(q[1..], now);
    }
  }

  /** Merging can only raise a reading, short of saturation. */
  lemma MergeNeverUnderCounts(q: seq<Slot>, clock: u64, t: u64)
    requires |q| >= 2 && Ordered(q, clock)
    ensures Ordered(Merge(q), clock)
    ensures Airtime(Merge(q), t) >= Min(Airtime(q, t), MAX)
    ensures Total(q) <= MAX ==> Total(Merge(q)) == Total(q)
  {
    var m := Merge(q);
    assert m[1..] == q[2..];
    assert q[1..][1..] == q[2..];
    assert Counts(t, q[0]) ==> Counts(t, q[1]);
  }

  /**
   The ring against the transmissions actually sent: from `clock` on, it never
   reports less than was sent, up to the largest number it can report.
   */
  ghost predicate Covers(h: seq<Slot>, q: seq<Slot>, clock: u64) {
    && |q| <= RING && Ordered(q, clock) && Ordered(h, clock)
    && forall t: u64 | clock <= t :: Min(Airtime(h, t), MAX) <= Airtime(q, t)
  }

  lemma {:induction false} ExpireOrdered(q: seq<Slot>, clock: u64, now: u64)
    requires Ordered(q, clock)
    ensures Ordered(Expire(q, now), clock)
  {
    if q != [] && !Counts(now, q[0]) {
      ExpireOrdered(q[1..], clock, now);
    }
  }

  lemma ExpireCovers(h: seq<Slot>, q: seq<Slot>, clock: u64, now: u64)
    requires Covers(h, q, clock) && clock <= now
    ensures Covers(h, Expire(q, now), now)
  {
    ExpireOrdered(q, clock, now);
    forall t: u64 | now <= t ensures Min(Airtime(h, t), MAX) <= Airtime(Expire(q, now), t) {
      ExpireKeepsReadings(q, now, t);
    }
  }

  lemma MergeCovers(h: seq<Slot>, q: seq<Slot>, clock: u64)
    requires Covers(h, q, clock) && |q| >= 2
    ensures Covers(h, Merge(q), clock)
  {
    MergeNeverUnderCounts(q, clock, clock);
    forall t: u64 | clock <= t ensures Min(Airtime(h, t), MAX) <= Airtime(Merge(q), t) {
      MergeNeverUnderCounts(q, clock, t);
    }
  }

  lemma AppendCovers(h: seq<Slot>, q: seq<Slot>, s: Slot)
    requires Covers(h, q, s.at) && |q| < RING
    ensures Covers(h + [s], q + [s], s.at)
  {
    forall t: u64 | s.at <= t ensures Min(Airtime(h + [s], t), MAX) <= Airtime(q + [s], t) {
      AirtimeOfConcat(h, [s], t);
      AirtimeOfConcat(q, [s], t);
    }
  }

  lemma RecordCovers(h: seq<Slot>, q: seq<Slot>, s: Slot)
    requires Covers(h, q, s.at)
    ensures Covers(h + [s], Record(q, s), s.at)
    ensures Total(q) <= MAX ==> Total(Record(q, s)) == Total(q) + s.airtime
  {
    if |q| == RING {
      MergeNeverUnderCounts(q, s.at, s.at);
      MergeCovers(h, q, s.at);
      AppendCovers(h, Merge(q), s);
      AirtimeOfConcat(Merge(q), [s], s.at);
    } else {
      AppendCovers(h, q, s);
      AirtimeOfConcat(q, [s], s.at);
    }
  }

  // ---------------------------------------------------------------------
  // Whole runs
  // ---------------------------------------------------------------------

  datatype Request = Request(now: u64, airtime: u64)
  datatype State = State(ring: seq<Slot>, sent: seq<Slot>)

  function Step(region: Region, s: State, r: Request): (after: State)
    requires |s.ring| <= RING
    ensures |after.ring| <= RING
  {
    var (ring, outcome) := TrySendSpec(region, s.ring, r.now, r.airtime);
    State(ring, if outcome.Sent? then s.sent + [Slot(r.now, r.airtime)] else s.sent)
  }

  function Run(region: Region, s: State, rs: seq<Request>): (after: State)
    requires |s.ring| <= RING
    ensures |after.ring| <= RING
    decreases |rs|
  {
    if rs == [] then s else Run(region, Step(region, s, rs[0]), rs[1..])
  }

  /** A clock that never runs backwards, starting at `clock` or later. */
  ghost predicate Forward(clock: u64, rs: seq<Request>) {
    && (forall i | 0 <= i < |rs| :: clock <= rs[i].now)
    && (forall i, j | 0 <= i < j < |rs| :: rs[i].now <= rs[j].now)
  }

  /** Where the clock stands after a run. */
  function ClockAfter(clock: u64, rs: seq<Request>): u64 {
    if rs == [] then clock else rs[|rs| - 1].now
  }

  lemma StepCovers(region: Region, s: State, clock: u64, r: Request)
    requires Covers(s.sent, s.ring, clock) && clock <= r.now
    ensures Covers(Step(region, s, r).sent, Step(region, s, r).ring, r.now)
  {
    var q1 := Expire(s.ring, r.now);
    ExpireCovers(s.sent, s.ring, clock, r.now);
    RecordCovers(s.sent, q1, Slot(r.now, r.airtime));
  }

  /** In every region and every run, the ring never under-reports. */
  lemma {:induction false} RunCovers(region: Region, s: State, clock: u64, rs: seq<Request>)
    requires Covers(s.sent, s.ring, clock) && Forward(clock, rs)
    ensures var after := Run(region, s, rs);
      && Covers(after.sent, after.ring, ClockAfter(clock, rs))
      && forall t: u64 | ClockAfter(clock, rs) <= t :: Used(after.ring, t) >= Min(Airtime(after.sent, t), MAX)
    decreases |rs|
  {
    if rs != [] {
      StepCovers(region, s, clock, rs[0]);
      RunCovers(region, Step(region, s, rs[0]), rs[0].now, rs[1..]);
    }
  }

  /** The law: no hour ever holds more airtime than the budget, and the ring itself never does. */
  ghost predicate Legal(budget: nat, s: State) {
    && Total(s.ring) <= budget
    && forall t: u64 :: HourEnding(s.sent, t) <= budget
  }

  lemma SendIsLegal(budget: nat, h: seq<Slot>, q: seq<Slot>, s: Slot)
    requires Covers(h, q, s.at) && budget < MAX
    requires forall t: u64 :: HourEnding(h, t) <= budget
    requires SaturatingAdd(Used(q, s.at), s.airtime) <= budget
    ensures forall t: u64 :: HourEnding(h + [s], t) <= budget
  {
    forall t: u64 ensures HourEnding(h + [s], t) <= budget {
      AirtimeOfConcat(h, [s], t);
      if s.at <= t && t - s.at < WINDOW {
        HourIsAirtime(h, t);
        AirtimeFalls(h, s.at, t);
        assert Min(Airtime(h, s.at), MAX) <= Airtime(q, s.at);
      }
    }
  }

  lemma StepIsLegal(region: Region, s: State, clock: u64, r: Request)
    requires Covers(s.sent, s.ring, clock) && clock <= r.now
    requires BudgetMicros(region).Some? && Legal(BudgetMicros(region).value, s)
    ensures Legal(BudgetMicros(region).value, Step(region, s, r))
  {
    BudgetIs36Seconds(region);
    ExpireCovers(s.sent, s.ring, clock, r.now);
    ExpireKeepsReadings(s.ring, r.now, r.now);
    if TrySendSpec(region, s.ring, r.now, r.airtime).1.Sent? {
      ExpiredRingCounts(s.ring, r.now);
      AcceptIsLegal(BudgetMicros(region).value, s.sent, Expire(s.ring, r.now), Slot(r.now, r.airtime));
    }
  }

  lemma AcceptIsLegal(budget: nat, h: seq<Slot>, q: seq<Slot>, s: Slot)
    requires Covers(h, q, s.at) && budget < MAX && Airtime(q, s.at) == Total(q) <= budget
    requires forall t: u64 :: HourEnding(h, t) <= budget
    requires SaturatingAdd(Used(q, s.at), s.airtime) <= budget
    ensures Legal(budget, State(Record(q, s), h + [s]))
  {
    SendIsLegal(budget, h, q, s);
    RecordCovers(h, q, s);
  }

  /**
   For every run of sends with a clock that does not run backwards, in a
   region with a duty cycle: the airtime of the accepted transmissions that
   start in any hour at all stays within the 36 s budget, however many
   evictions merged slots, and the ring's total never leaves the budget.
   */
  lemma {:induction false} RunIsLegal(region: Region, s: State, clock: u64, rs: seq<Request>)
    requires Covers(s.sent, s.ring, clock) && Forward(clock, rs)
    requires BudgetMicros(region).Some? && Legal(BudgetMicros(region).value, s)
    ensures Legal(36_000_000, Run(region, s, rs))
    decreases |rs|
  {
    BudgetIs36Seconds(region);
    if rs != [] {
      StepCovers(region, s, clock, rs[0]);
      StepIsLegal(region, s, clock, rs[0]);
      RunIsLegal(region, Step(region, s, rs[0]), rs[0].now, rs[1..]);
    }
  }

  /** Where dwell is limited, no run ever sends longer than 400 ms at a time. */
  lemma {:induction false} DwellHolds(region: Region, s: State, rs: seq<Request>)
    requires |s.ring| <= RING && region in {Us915, Au915}
    requires forall x | x in s.sent :: x.airtime <= 400_000
    ensures forall x | x in Run(region, s, rs).sent :: x.airtime <= 400_000
    decreases |rs|
  {
    if rs != [] {
      SendsIff(region, s.ring, rs[0].now, rs[0].airtime);
      DwellHolds(region, Step(region, s, rs[0]), rs[1..]);
    }
  }

  /** Where nothing is limited, every request of every run is sent, in order. */
  lemma {:induction false} UnlimitedSendsAll(s: State, rs: seq<Request>)
    requires |s.ring| <= RING
    ensures |Run(In865, s, rs).sent| == |s.sent| + |rs|
    ensures forall i | 0 <= i < |rs| :: Run(In865, s, rs).sent[|s.sent| + i] == Slot(rs[i].now, rs[i].airtime)
    ensures s.sent <= Run(In865, s, rs).sent
    decreases |rs|
  {
    if rs != [] {
      SendsIff(In865, s.ring, rs[0].now, rs[0].airtime);
      var s1 := Step(In865, s, rs[0]);
      UnlimitedSendsAll(s1, rs[1..]);
      assert forall i | 1 <= i < |rs| :: rs[i] == rs[1..][i - 1];
    }
  }

  lemma EmptyBudget(region: Region, clock: u64)
    ensures Covers([], [], clock) && Legal(36_000_000, State([], []))
  {
  }

  /** A refused send leaves every later reading as it was. */
  lemma RefusalLeavesReadings(region: Region, q: seq<Slot>, now: u64, airtime: u64, t: u64)
    requires |q| <= RING && now <= t && TrySendSpec(region, q, now, airtime).1.Refused?
    ensures Used(TrySendSpec(region, q, now, airtime).0, t) == Used(q, t)
  {
    ExpireKeepsReadings(q, now, t);
  }

  lemma {:induction false} SilentRing(q: seq<Slot>, clock: u64, t: u64)
    requires Ordered(q, clock) && clock + WINDOW <= t
    ensures Airtime(q, t) == 0
  {
    if q != [] {
      SilentRing(q[1..], clock, t);
    }
  }

  /** The ring's newest entry is the newest transmission. */
  ghost predicate SameNewest(s: State) {
    s.ring != [] ==> s.sent != [] && s.ring[|s.ring| - 1].at == s.sent[|s.sent| - 1].at
  }

  lemma {:induction false} ExpireKeepsNewest(q: seq<Slot>, now: u64)
    ensures var r := Expire(q, now); r != [] ==> q != [] && r[|r| - 1] == q[|q| - 1]
  {
    if q != [] && !Counts(now, q[0]) {
      ExpireKeepsNewest(q[1..], now);
    }
  }

  lemma {:induction false} RunKeepsNewest(region: Region, s: State, rs: seq<Request>)
    requires |s.ring| <= RING && SameNewest(s)
    ensures SameNewest(Run(region, s, rs))
    decreases |rs|
  {
    if rs != [] {
      ExpireKeepsNewest(s.ring, rs[0].now);
      RunKeepsNewest(region, Step(region, s, rs[0]), rs[1..]);
    }
  }

  /** An hour after the last accepted send the reading is zero, whatever was merged. */
  lemma HourOfSilence(region: Region, s: State, clock: u64, rs: seq<Request>, t: u64)
    requires Covers(s.sent, s.ring, clock) && SameNewest(s) && Forward(clock, rs)
    requires var sent := Run(region, s, rs).sent; sent == [] || sent[|sent| - 1].at + WINDOW <= t
    ensures Used(Run(region, s, rs).ring, t) == 0
  {
    RunCovers(region, s, clock, rs);
    RunKeepsNewest(region, s, rs);
    SilentState(Run(region, s, rs), ClockAfter(clock, rs), t);
  }

  lemma SilentState(s: State, clock: u64, t: u64)
    requires Ordered(s.ring, clock) && SameNewest(s)
    requires s.sent == [] || s.sent[|s.sent| - 1].at + WINDOW <= t
    ensures Airtime(s.ring, t) == 0
  {
    if s.ring != [] {
      SilentRing(s.ring, s.ring[|s.ring| - 1].at, t);
    }
  }

  // ---------------------------------------------------------------------
  // Without eviction the reading is exact
  // ---------------------------------------------------------------------

  function CountAt(h: seq<Slot>, now: u64): nat {
    if h == [] then 0 else (if Counts(now, h[0]) then 1 else 0) + CountAt(h[1..], now)
  }

  /** Everything sent is what has left the window, `gone`, and then what the ring holds. */
  ghost predicate Whole(h: seq<Slot>, gone: seq<Slot>, q: seq<Slot>, clock: u64) {
    && h == gone + q && Ordered(h, clock)
    && forall i | 0 <= i < |gone| :: !Counts(clock, gone[i])
  }

  lemma {:induction false} NoneCount(h: seq<Slot>, t: u64)
    requires forall i | 0 <= i < |h| :: !Counts(t, h[i])
    ensures Airtime(h, t) == 0 && CountAt(h, t) == 0
  {
    if h != [] {
      NoneCount(h[1..], t);
    }
  }

  lemma {:induction false} CountOfConcat(a: seq<Slot>, b: seq<Slot>, now: u64)
    ensures CountAt(a + b, now) == CountAt(a, now) + CountAt(b, now)
  {
    if a == [] {
      assert a + b == b;
    } else {
      assert (a + b)[1..] == a[1..] + b;
      CountOfConcat(a[1..], b, now);
    }
  }

  lemma WholeIsExact(h: seq<Slot>, gone: seq<Slot>, q: seq<Slot>, clock: u64, t: u64)
    requires Whole(h, gone, q, clock) && clock <= t
    ensures Airtime(q, t) == Airtime(h, t) && CountAt(q, t) == CountAt(h, t)
  {
    NoneCount(gone, t);
    AirtimeOfConcat(gone, q, t);
    CountOfConcat(gone, q, t);
  }

  lemma {:induction false} CountOfAll(q: seq<Slot>, now: u64)
    requires forall i | 0 <= i < |q| :: Counts(now, q[i])
    ensures CountAt(q, now) == |q|
  {
    if q != [] {
      CountOfAll(q[1..], now);
    }
  }

  /** Expiry only moves entries from the ring's front to what has gone. */
  lemma {:induction false} ExpireWhole(h: seq<Slot>, gone: seq<Slot>, q: seq<Slot>, now: u64) returns (gone2: seq<Slot>)
    requires Whole(h, gone, q, now)
    ensures Whole(h, gone2, Expire(q, now), now)
    decreases |q|
  {
    gone2 := gone;
    if q != [] && !Counts(now, q[0]) {
      assert gone + q == (gone + [q[0]]) + q[1..];
      gone2 := ExpireWhole(h, gone + [q[0]], q[1..], now);
    }
  }

  /** No accepted send finds 32 others in its hour: a caller's own count of what it sent. */
  ghost predicate Sparse(region: Region, s: State, rs: seq<Request>)
    requires |s.ring| <= RING
    decreases |rs|
  {
    rs == [] ||
    (&& (Step(region, s, rs[0]).sent != s.sent ==> CountAt(s.sent, rs[0].now) < 32)
     && Sparse(region, Step(region, s, rs[0]), rs[1..]))
  }

  lemma StepWhole(region: Region, s: State, gone: seq<Slot>, clock: u64, r: Request) returns (gone2: seq<Slot>)
    requires |s.ring| <= RING && Whole(s.sent, gone, s.ring, clock) && clock <= r.now
    requires Step(region, s, r).sent != s.sent ==> CountAt(s.sent, r.now) < RING
    ensures Whole(Step(region, s, r).sent, gone2, Step(region, s, r).ring, r.now)
  {
    var (ring, outcome) := TrySendSpec(region, s.ring, r.now, r.airtime);
    gone2 := gone;
    if ring != s.ring || outcome.Sent? {
      gone2 := ExpireWhole(s.sent, gone, s.ring, r.now);
    }
    if outcome.Sent? {
      assert |Step(region, s, r).sent| == |s.sent| + 1;
      OrderedTail(gone, s.ring, r.now);
      ExpiredRingCounts(s.ring, r.now);
      AcceptWhole(s.sent, gone2, Expire(s.ring, r.now), Slot(r.now, r.airtime));
    }
  }

  lemma OrderedTail(gone: seq<Slot>, q: seq<Slot>, clock: u64)
    requires Ordered(gone + q, clock)
    ensures Ordered(q, clock)
  {
    var h := gone + q;
    assert forall i | 0 <= i < |q| :: q[i] == h[|gone| + i];
  }

  lemma AcceptWhole(h: seq<Slot>, gone: seq<Slot>, q: seq<Slot>, s: Slot)
    requires |q| <= RING && Whole(h, gone, q, s.at) && CountAt(h, s.at) < RING
    requires forall i | 0 <= i < |q| :: Counts(s.at, q[i])
    ensures Whole(h + [s], gone, Record(q, s), s.at)
  {
    CountOfAll(q, s.at);
    WholeIsExact(h, gone, q, s.at, s.at);
    assert h + [s] == gone + (q + [s]);
  }

  /** Then every reading is exactly the airtime started in the last hour. */
  lemma {:induction false} SparseRunIsExact(region: Region, s: State, gone: seq<Slot>, clock: u64, rs: seq<Request>, t: u64)
    requires |s.ring| <= RING && Whole(s.sent, gone, s.ring, clock) && Forward(clock, rs) && Sparse(region, s, rs)
    requires ClockAfter(clock, rs) <= t
    ensures var after := Run(region, s, rs);
      Airtime(after.ring, t) == Airtime(after.sent, t) == HourEnding(after.sent, t)
    decreases |rs|
  {
    if rs == [] {
      WholeIsExact(s.sent, gone, s.ring, clock, t);
      HourIsAirtime(s.sent, t);
    } else {
      var gone2 := StepWhole(region, s, gone, clock, rs[0]);
      assert ClockAfter(clock, rs) == ClockAfter(rs[0].now, rs[1..]);
      SparseRunIsExact(region, Step(region, s, rs[0]), gone2, rs[0].now, rs[1..], t);
    }
  }

  // ---------------------------------------------------------------------
  // The ring itself
  // ---------------------------------------------------------------------

  class DutyCycle {
    const region: Region
    const slots: array<Slot>
    var head: nat
    var len: nat

    ghost predicate Valid()
      reads this
    {
      slots.Length == RING && head < RING && len <= RING
    }

    function SlotAt(i: nat): Slot
      requires slots.Length == RING && head < RING && i <= RING
      reads this, slots
    {
      slots[Wrap(RING, head + i)]
    }

    /** The remembered transmissions, oldest first. */
    ghost function Contents(): (q: seq<Slot>)
      requires Valid()
      reads this, slots
      ensures |q| == len && forall i | 0 <= i < len :: q[i] == SlotAt(i)
    {
      seq(len, i requires 0 <= i < len && Valid() reads this, slots => SlotAt(i))
    }

    constructor (region: Region)
      ensures Valid() && Contents() == [] && this.region == region && fresh(slots)
    {
      this.region := region;
      slots := new Slot[RING](_ => Slot(0, 0));
      head, len := 0, 0;
    }

    /** `used_micros`. */
    method UsedMicros(now: u64) returns (sum: u64)
      requires Valid()
      ensures sum == Used(Contents(), now)
    {
      sum := 0;
      var i := 0;
      ghost var q := Contents();
      while i < len
        invariant 0 <= i <= len && sum == Used(q[..i], now)
      {
        assert q[..i + 1] == q[..i] + [q[i]];
        AirtimeOfConcat(q[..i], [q[i]], now);
        var slot := SlotAt(i);
        if Counts(now, slot) {
          sum := SaturatingAdd(sum, slot.airtime);
        }
        i := i + 1;
      }
      assert q[..len] == q;
    }

    /** `expire`. */
    method DropExpired(now: u64)
      requires Valid()
      modifies this
      ensures Valid() && Contents() == Expire(old(Contents()), now)
    {
      while len > 0
        invariant Valid() && Expire(Contents(), now) == Expire(old(Contents()), now)
        decreases len
      {
        if Counts(now, slots[head]) {
          assert SlotAt(0) == slots[head];
          return;
        }
        DropOldest();
      }
    }

    method DropOldest()
      requires Valid() && len > 0
      modifies this
      ensures Valid() && Contents() == old(Contents())[1..] && len == old(len) - 1
      ensures old(Contents())[0] == old(slots[head])
    {
      ghost var q := Contents();
      head := Wrap(RING, head + 1);
      len := len - 1;
      forall i | 0 <= i < len ensures Contents()[i] == q[1..][i] {
        assert SlotAt(i) == slots[Wrap(RING, old(head) + (i + 1))];
      }
    }

    /** The eviction of `push`: the head's airtime into its neighbour. */
    method MergeOldest()
      requires Valid() && len == RING
      modifies this, slots
      ensures Valid() && Contents() == Merge(old(Contents()))
    {
      ghost var q := Contents();
      var next := Wrap(RING, head + 1);
      var carry := slots[head].airtime;
      slots[next] := Slot(slots[next].at, SaturatingAdd(slots[next].airtime, carry));
      head := next;
      len := len - 1;
      forall i | 0 <= i < len ensures Contents()[i] == Merge(q)[i] {
        assert SlotAt(i) == slots[Wrap(RING, old(head) + (i + 1))];
      }
    }

    method Push(at: u64, airtime: u64)
      requires Valid()
      modifies this, slots
      ensures Valid() && Contents() == Record(old(Contents()), Slot(at, airtime))
    {
      if len == RING {
        MergeOldest();
      }
      ghost var q := Contents();
      var tail := Wrap(RING, head + len);
      slots[tail] := Slot(at, airtime);
      len := len + 1;
      assert Contents() == q + [Slot(at, airtime)];
    }

    method TrySend(now: u64, airtime: u64) returns (r: Outcome)
      requires Valid()
      modifies this, slots
      ensures Valid()
      ensures (Contents(), r) == TrySendSpec(region, old(Contents()), now, airtime)
    {
      var dwell := DwellMax(region);
      if dwell.Some? && airtime > dwell.value {
        return Refused(Unsupported);
      }
      DropExpired(now);
      var budget := BudgetMicros(region);
      if budget.Some? {
        var used := UsedMicros(now);
        if SaturatingAdd(used, airtime) > budget.value {
          return Refused(Busy);
        }
      }
      Push(now, airtime);
      r := Sent;
    }
  }
}
