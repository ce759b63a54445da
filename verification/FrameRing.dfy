/**
 The CSI frame ring between the radio's callback and the sketch: when the
 sketch is late the oldest frame goes, and is counted.
 */
module FrameRing {
  import opened Arith
  import opened Bytes
  import opened Wrappers

  // ---------------------------------------------------------------------
  // The specification
  // ---------------------------------------------------------------------

  datatype State<+T> = State(queue: seq<T>, dropped: u32)

  /** The ring after a push into `n` slots, and whether a frame was lost to it. */
  function PushSpec<T>(n: nat, s: State<T>, x: T): (r: (State<T>, bool))
    requires |s.queue| <= n
    ensures |r.0.queue| <= n
  {
    if n == 0 then (s.(dropped := Wrapping(s.dropped + 1)), true)
    else if |s.queue| == n then (State(s.queue[1..] + [x], Wrapping(s.dropped + 1)), true)
    else (s.(queue := s.queue + [x]), false)
  }

  function PopSpec<T>(s: State<T>): (State<T>, Option<T>) {
    if s.queue == [] then (s, None) else (s.(queue := s.queue[1..]), Some(s.queue[0]))
  }

  /** A frame comes out exactly when one waits, and it is the oldest. */
  lemma PopGives<T>(s: State<T>)
    ensures var (after, frame) := PopSpec(s);
      && (frame.Some? <==> s.queue != [])
      && (frame.Some? ==> s.queue == [frame.value] + after.queue)
      && (frame.None? ==> after == s) && after.dropped == s.dropped
  {
  }

  /** A frame is lost, counted and said to be, exactly when the ring was full; the new one is then last. */
  lemma PushGives<T>(n: nat, s: State<T>, x: T)
    requires |s.queue| <= n
    ensures var (after, lost) := PushSpec(n, s, x);
      && (lost <==> |s.queue| == n)
      && after.dropped == (s.dropped as int + if lost then 1 else 0) % 0x1_0000_0000
      && (n > 0 ==> after.queue != [] && after.queue[|after.queue| - 1] == x)
      && |after.queue| == (if lost then n else |s.queue| + 1)
  {
  }

  // ---------------------------------------------------------------------
  // Whole runs: keep the latest
  // ---------------------------------------------------------------------

  datatype Op<+T> = Push(frame: T) | Pop

  /** A run since the last clear: everything pushed, which of it was popped (by position) and what pop returned. */
  datatype Run<+T> = Run(ring: State<T>, pushed: seq<T>, popped: seq<nat>, out: seq<T>, lost: nat)

  /** The position of the oldest frame waiting. */
  function Oldest<T>(r: Run<T>): int {
    |r.pushed| - |r.ring.queue|
  }

  function Step<T>(n: nat, r: Run<T>, op: Op<T>): (after: Run<T>)
    requires |r.ring.queue| <= n && Oldest(r) >= 0
    ensures |after.ring.queue| <= n && Oldest(after) >= 0
  {
    match op
    case Push(x) =>
      var (ring, lost) := PushSpec(n, r.ring, x);
      Run(ring, r.pushed + [x], r.popped, r.out, if lost then r.lost + 1 else r.lost)
    case Pop =>
      var (ring, frame) := PopSpec(r.ring);
      if frame.None? then r else Run(ring, r.pushed, r.popped + [Oldest(r)], r.out + [frame.value], r.lost)
  }

  function RunAll<T>(n: nat, r: Run<T>, ops: seq<Op<T>>): (after: Run<T>)
    requires |r.ring.queue| <= n && Oldest(r) >= 0
    ensures |after.ring.queue| <= n && Oldest(after) >= 0
    decreases |ops|
  {
    if ops == [] then r else RunAll(n, Step(n, r, ops[0]), ops[1..])
  }

  /** What waits is the end of what was pushed. */
  ghost predicate Waiting<T>(r: Run<T>) {
    Oldest(r) >= 0 && r.ring.queue == r.pushed[Oldest(r)..]
  }

  /** Pops came in arrival order, each with its own frame, all before what waits. */
  ghost predicate InOrder<T>(r: Run<T>) {
    && |r.out| == |r.popped|
    && (forall i, j | 0 <= i < j < |r.popped| :: r.popped[i] < r.popped[j])
    && (forall i | 0 <= i < |r.popped| ::
          r.popped[i] < Oldest(r) && r.popped[i] < |r.pushed| && r.out[i] == r.pushed[r.popped[i]])
  }

  /** Every frame no longer waiting was popped, or is not among the newest `n`. */
  ghost predicate Latest<T>(n: nat, r: Run<T>) {
    forall i: nat | i < Oldest(r) :: i in r.popped || i < |r.pushed| - n
  }

  /** Pushes are pops returned, frames waiting and frames lost, and the counter is the last, modulo 2^32. */
  ghost predicate Balanced<T>(r: Run<T>) {
    && |r.pushed| == |r.popped| + |r.ring.queue| + r.lost
    && r.ring.dropped == Wrapping(r.lost)
  }

  ghost predicate Keeps<T>(n: nat, r: Run<T>) {
    Waiting(r) && InOrder(r) && Latest(n, r) && Balanced(r)
  }

  lemma PushKeeps<T>(n: nat, r: Run<T>, x: T)
    requires |r.ring.queue| <= n && Oldest(r) >= 0 && Keeps(n, r)
    ensures Keeps(n, Step(n, r, Push(x)))
  {
    var after := Step(n, r, Push(x));
    WrappingAdd(r.lost, 1);
    var k := Oldest(r);
    if n > 0 && |r.ring.queue| == n {
      assert (r.pushed + [x])[k + 1..] == r.pushed[k..][1..] + [x];
    } else if n > 0 {
      assert (r.pushed + [x])[k..] == r.pushed[k..] + [x];
    }
  }

  lemma PopKeeps<T>(n: nat, r: Run<T>)
    requires |r.ring.queue| <= n && Oldest(r) >= 0 && Keeps(n, r)
    ensures Keeps(n, Step(n, r, Pop))
  {
    var after := Step(n, r, Pop);
    if r.ring.queue != [] {
      var k := Oldest(r);
      assert r.pushed[k..][1..] == r.pushed[k + 1..];
      forall i: nat | i < Oldest(after) ensures i in after.popped || i < |after.pushed| - n {
        if i == k {
          assert after.popped[|r.popped|] == k;
        } else if i in r.popped {
          var j :| 0 <= j < |r.popped| && r.popped[j] == i;
          assert after.popped[j] == i;
        }
      }
    }
  }

  /** For any pushes and pops, capacity zero included. */
  lemma {:induction false} RunKeeps<T>(n: nat, r: Run<T>, ops: seq<Op<T>>)
    requires |r.ring.queue| <= n && Oldest(r) >= 0 && Keeps(n, r)
    ensures Keeps(n, RunAll(n, r, ops))
    decreases |ops|
  {
    if ops != [] {
      match ops[0] {
        case Push(x) => PushKeeps(n, r, x);
        case Pop => PopKeeps(n, r);
      }
      RunKeeps(n, Step(n, r, ops[0]), ops[1..]);
    }
  }

  /** So a frame waits exactly when it is among the newest `n` pushed and was not popped. */
  lemma WaitsIffLatest<T>(n: nat, r: Run<T>, i: nat)
    requires |r.ring.queue| <= n && Oldest(r) >= 0 && Keeps(n, r) && i < |r.pushed|
    ensures i >= Oldest(r) <==> i >= |r.pushed| - n && i !in r.popped
  {
  }

  // ---------------------------------------------------------------------
  // The ring
  // ---------------------------------------------------------------------

  function View<T>(slots: seq<Option<T>>, head: nat, len: nat): (q: seq<Option<T>>)
    requires len <= |slots| && (|slots| > 0 ==> head < |slots|)
    ensures |q| == len && forall i | 0 <= i < len :: q[i] == slots[Wrap(|slots|, head + i)]
  {
    seq(len, i requires 0 <= i < len => slots[Wrap(|slots|, head + i)])
  }

  /** Frames as the slots that hold them. */
  function Parked<T>(queue: seq<T>): (slots: seq<Option<T>>)
    ensures |slots| == |queue| && forall i | 0 <= i < |queue| :: slots[i] == Some(queue[i])
  {
    seq(|queue|, i requires 0 <= i < |queue| => Some(queue[i]))
  }

  lemma ParkedOneMore<T>(queue: seq<T>, x: T)
    ensures Parked(queue + [x]) == Parked(queue) + [Some(x)]
  {
  }

  lemma ParkedOneLess<T>(queue: seq<T>)
    requires queue != []
    ensures Parked(queue[1..]) == Parked(queue)[1..] && Parked(queue)[0] == Some(queue[0])
  {
  }

  class Ring<T> {
    const frames: array<Option<T>>
    var head: nat
    var len: nat
    var dropped: u32
    /** The frames waiting, oldest first. */
    ghost var queue: seq<T>

    ghost predicate Valid()
      reads this, frames
    {
      && len <= frames.Length && (frames.Length > 0 ==> head < frames.Length)
      && View(frames[..], head, len) == Parked(queue)
    }

    ghost function Abstract(): State<T>
      reads this
    {
      State(queue, dropped)
    }

    constructor (n: nat)
      ensures Valid() && Abstract() == State([], 0) && frames.Length == n && fresh(frames)
    {
      frames := new Option<T>[n](_ => None);
      head, len, dropped := 0, 0, 0;
      queue := [];
    }

    method Push(frame: T) returns (overwrote: bool)
      requires Valid()
      modifies this, frames
      ensures Valid()
      ensures (Abstract(), overwrote) == PushSpec(frames.Length, old(Abstract()), frame)
    {
      var n := frames.Length;
      if n == 0 {
        dropped := Wrapping(dropped + 1);
        return true;
      }
      overwrote := len == n;
      if overwrote {
        Overwrite(frame);
      } else {
        Append(frame);
      }
    }

    method Overwrite(frame: T)
      requires Valid() && 0 < len == frames.Length
      modifies this, frames
      ensures Valid() && Abstract() == State(old(queue)[1..] + [frame], Wrapping(old(dropped) + 1))
    {
      var tail := Wrap(frames.Length, head + len);
      Overwritten(frames[..], frames[..][tail := Some(frame)], head, Some(frame));
      ParkedOneLess(queue);
      ParkedOneMore(queue[1..], frame);
      frames[tail] := Some(frame);
      head := Wrap(frames.Length, head + 1);
      dropped := Wrapping(dropped + 1);
      queue := queue[1..] + [frame];
    }

    method Append(frame: T)
      requires Valid() && len < frames.Length
      modifies this, frames
      ensures Valid() && Abstract() == State(old(queue) + [frame], old(dropped))
    {
      var tail := Wrap(frames.Length, head + len);
      Extended(frames[..], frames[..][tail := Some(frame)], head, len, Some(frame));
      ParkedOneMore(queue, frame);
      frames[tail] := Some(frame);
      len := len + 1;
      queue := queue + [frame];
    }

    method Pop() returns (frame: Option<T>)
      requires Valid()
      modifies this, frames
      ensures Valid()
      ensures (Abstract(), frame) == PopSpec(old(Abstract()))
    {
      if len == 0 {
        return None;
      }
      ghost var was, first := frames[..], head;
      frame := frames[head];
      ParkedOneLess(queue);
      assert View(was, first, len)[0] == frame;
      frames[head] := None;
      head := Wrap(frames.Length, head + 1);
      len := len - 1;
      queue := queue[1..];
      Taken(was, frames[..], first, len + 1);
    }

    method Clear()
      requires Valid()
      modifies this, frames
      ensures Valid() && Abstract() == State([], 0)
    {
      forall i | 0 <= i < frames.Length {
        frames[i] := None;
      }
      head, len, dropped := 0, 0, 0;
      queue := [];
    }
  }

  lemma Extended<T>(was: seq<Option<T>>, now: seq<Option<T>>, head: nat, len: nat, x: Option<T>)
    requires len < |was| && head < |was| && now == was[Wrap(|was|, head + len) := x]
    ensures View(now, head, len + 1) == View(was, head, len) + [x]
  {
  }

  lemma Overwritten<T>(was: seq<Option<T>>, now: seq<Option<T>>, head: nat, x: Option<T>)
    requires head < |was| && now == was[head := x]
    ensures View(now, Wrap(|was|, head + 1), |was|) == View(was, head, |was|)[1..] + [x]
  {
    var n := |was|;
    var v := View(was, head, n);
    forall i | 0 <= i < n ensures View(now, Wrap(n, head + 1), n)[i] == (v[1..] + [x])[i] {
      if i < n - 1 {
        assert v[i + 1] == was[Wrap(n, head + (i + 1))];
      }
    }
  }

  lemma Taken<T>(was: seq<Option<T>>, now: seq<Option<T>>, head: nat, len: nat)
    requires 0 < len <= |was| && head < |was| && now == was[head := None]
    ensures View(now, Wrap(|was|, head + 1), len - 1) == View(was, head, len)[1..]
  {
    var n := |was|;
    var v := View(was, head, len);
    forall i | 0 <= i < len - 1 ensures View(now, Wrap(n, head + 1), len - 1)[i] == v[1..][i] {
      assert v[i + 1] == was[Wrap(n, head + (i + 1))];
    }
  }
}
