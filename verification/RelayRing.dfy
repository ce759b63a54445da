/**
 The relay's receive ring: two copies where a byte at a time was the loop
 before, and that loop as the oracle it must equal.
 */
module RelayRing {
  import opened Arith
  import opened Bytes

  const RING: int := 4096

  // ---------------------------------------------------------------------
  // The specification: a bounded FIFO of bytes and a count of what it lost
  // ---------------------------------------------------------------------

  datatype State = State(queue: seq<u8>, lost: u32)

  function Room(s: State, data: seq<u8>): (take: nat)
    requires |s.queue| <= RING
    ensures take <= |data|
  {
    Min(|data|, RING - |s.queue|)
  }

  function PushSpec(s: State, data: seq<u8>): (r: State)
    requires |s.queue| <= RING
    ensures |r.queue| <= RING
  {
    var take := Room(s, data);
    State(s.queue + data[..take], Wrapping(s.lost + (|data| - take)))
  }

  function PopSpec(s: State, room: nat): (seq<u8>, State) {
    var n := Min(|s.queue|, room);
    (s.queue[..n], s.(queue := s.queue[n..]))
  }

  /** A push takes every byte there is room for, after those waiting, and counts exactly the others. */
  lemma PushTakes(s: State, data: seq<u8>)
    requires |s.queue| <= 4096
    ensures var r := PushSpec(s, data);
      && (|s.queue| + |data| <= 4096 ==> r == State(s.queue + data, s.lost))
      && (|s.queue| + |data| > 4096 ==>
            && |r.queue| == 4096 && r.queue <= s.queue + data
            && r.lost == (s.lost + (|s.queue| + |data| - 4096)) % 0x1_0000_0000)
  {
    if |s.queue| + |data| <= 4096 {
      assert data[..|data|] == data;
    }
  }

  /** A pop gives every byte there is room for, from the front, and keeps the rest. */
  lemma PopGives(s: State, room: nat)
    ensures var (out, r) := PopSpec(s, room);
      && |out| == (if |s.queue| <= room then |s.queue| else room)
      && s.queue == out + r.queue && r.lost == s.lost
  {
  }

  /** One byte, as the loop before did it. */
  function PushByte(s: State, b: u8): (r: State)
    requires |s.queue| <= RING
    ensures |r.queue| <= RING
  {
    if |s.queue| == RING then s.(lost := Wrapping(s.lost + 1))
    else s.(queue := s.queue + [b])
  }

  function PushBytes(s: State, data: seq<u8>): (r: State)
    requires |s.queue| <= RING
    ensures |r.queue| <= RING
    decreases |data|
  {
    if data == [] then s else PushBytes(PushByte(s, data[0]), data[1..])
  }

  /** The first byte on its own, then the rest at once. */
  lemma FirstByte(s: State, data: seq<u8>)
    requires |s.queue| <= RING && data != []
    ensures PushSpec(s, data) == PushSpec(PushByte(s, data[0]), data[1..])
  {
    if |s.queue| == RING {
      WrappingAdd(s.lost + 1, |data| - 1);
      assert data[..0] == [] && data[1..][..0] == [];
    } else {
      var take := Room(s, data);
      assert data[..take] == [data[0]] + data[1..][..take - 1];
      assert s.queue + data[..take] == (s.queue + [data[0]]) + data[1..][..take - 1];
    }
  }

  /** Two copies at once are the bytes one by one, the lost ones included. */
  lemma {:induction false} PushIsByteByByte(s: State, data: seq<u8>)
    requires |s.queue| <= RING
    ensures PushSpec(s, data) == PushBytes(s, data)
    decreases |data|
  {
    if data != [] {
      FirstByte(s, data);
      PushIsByteByByte(PushByte(s, data[0]), data[1..]);
    }
  }

  // ---------------------------------------------------------------------
  // Whole runs
  // ---------------------------------------------------------------------

  datatype Op = Push(data: seq<u8>) | Pop(room: nat)

  /** A run: the ring, every byte it took, every byte it refused, every byte that came out. */
  datatype Run = Run(ring: State, taken: seq<u8>, refused: seq<u8>, out: seq<u8>)

  function Step(r: Run, op: Op): (after: Run)
    requires |r.ring.queue| <= RING
    ensures |after.ring.queue| <= RING
  {
    match op
    case Push(data) =>
      var take := Room(r.ring, data);
      Run(PushSpec(r.ring, data), r.taken + data[..take], r.refused + data[take..], r.out)
    case Pop(room) =>
      var (bytes, ring) := PopSpec(r.ring, room);
      Run(ring, r.taken, r.refused, r.out + bytes)
  }

  function RunAll(r: Run, ops: seq<Op>): (after: Run)
    requires |r.ring.queue| <= RING
    ensures |after.ring.queue| <= RING
    decreases |ops|
  {
    if ops == [] then r else RunAll(Step(r, ops[0]), ops[1..])
  }

  /** First in, first out: what came out, then what waits, is what was taken; the rest is counted. */
  ghost predicate Fifo(r: Run) {
    r.out + r.ring.queue == r.taken && r.ring.lost == Wrapping(|r.refused|)
  }

  lemma StepIsFifo(r: Run, op: Op)
    requires |r.ring.queue| <= RING && Fifo(r)
    ensures Fifo(Step(r, op))
  {
    match op
    case Push(data) =>
      var take := Room(r.ring, data);
      WrappingAdd(|r.refused|, |data| - take);
      assert r.out + (r.ring.queue + data[..take]) == r.taken + data[..take];
    case Pop(room) =>
      var n := Min(|r.ring.queue|, room);
      assert r.ring.queue == r.ring.queue[..n] + r.ring.queue[n..];
  }

  /** For any interleaving of pushes and pops. */
  lemma {:induction false} RunIsFifo(r: Run, ops: seq<Op>)
    requires |r.ring.queue| <= RING && Fifo(r)
    ensures Fifo(RunAll(r, ops))
    decreases |ops|
  {
    if ops != [] {
      StepIsFifo(r, ops[0]);
      RunIsFifo(Step(r, ops[0]), ops[1..]);
    }
  }

  // ---------------------------------------------------------------------
  // The bytes in their array
  // ---------------------------------------------------------------------

  /** `len` bytes from `head`, around the end. */
  function View(bytes: seq<u8>, head: nat, len: nat): (q: seq<u8>)
    requires |bytes| == RING && head < RING && len <= RING
    ensures |q| == len && forall i | 0 <= i < len :: q[i] == bytes[Wrap(RING, head + i)]
  {
    seq(len, i requires 0 <= i < len => bytes[Wrap(RING, head + i)])
  }

  lemma ViewPrefix(bytes: seq<u8>, head: nat, len: nat, n: nat)
    requires |bytes| == RING && head < RING && n <= len <= RING
    ensures View(bytes, head, n) == View(bytes, head, len)[..n]
  {
  }

  lemma ViewSuffix(bytes: seq<u8>, head: nat, len: nat, n: nat)
    requires |bytes| == RING && head < RING && n <= len <= RING
    ensures View(bytes, Wrap(RING, head + n), len - n) == View(bytes, head, len)[n..]
  {
    forall i | 0 <= i < len - n
      ensures View(bytes, Wrap(RING, head + n), len - n)[i] == View(bytes, head, len)[n..][i]
    {
      WrapTwice(head, n, i);
    }
  }

  lemma WrapTwice(head: nat, n: nat, i: nat)
    requires head < RING && n + i < RING
    ensures Wrap(RING, Wrap(RING, head + n) + i) == Wrap(RING, head + (n + i))
  {
  }

  /** The two stretches `pop` copies are the view. */
  lemma TwoStretches(bytes: seq<u8>, head: nat, n: nat)
    requires |bytes| == RING && head < RING && n <= RING
    ensures var first := Min(n, RING - head);
      bytes[head..head + first] + bytes[..n - first] == View(bytes, head, n)
  {
  }

  lemma ViewConcat(bytes: seq<u8>, head: nat, len: nat, n: nat)
    requires |bytes| == RING && head < RING && len < RING && len + n <= RING
    ensures View(bytes, head, len + n) == View(bytes, head, len) + View(bytes, Wrap(RING, head + len), n)
  {
    ViewPrefix(bytes, head, len + n, len);
    ViewSuffix(bytes, head, len + n, len);
  }

  lemma TwoSplices(was: seq<u8>, between: seq<u8>, now: seq<u8>, tail: nat, data: seq<u8>)
    requires |was| == |between| == |now| == RING && tail < RING && |data| <= RING
    requires var first := Min(|data|, RING - tail);
      && (forall j | 0 <= j < RING :: between[j] == if tail <= j < tail + first then data[..first][j - tail] else was[j])
      && (forall j | 0 <= j < RING :: now[j] == if j < |data| - first then data[first..][j] else between[j])
    ensures View(now, tail, |data|) == data
    ensures var first := Min(|data|, RING - tail);
      forall j | 0 <= j < RING && !(tail <= j < tail + first) && !(j < |data| - first) :: now[j] == was[j]
  {
    var first := Min(|data|, RING - tail);
    forall i | 0 <= i < |data| ensures View(now, tail, |data|)[i] == data[i] {
      if i < first {
        assert now[tail + i] == between[tail + i] == data[..first][i];
      } else {
        assert now[i - first] == data[first..][i - first];
      }
    }
  }

  /** What is stored in the `n` places after the last byte leaves the bytes before it alone. */
  lemma StoredPastTheEnd(was: seq<u8>, now: seq<u8>, head: nat, len: nat, n: nat)
    requires |was| == |now| == RING && head < RING && len + n <= RING
    requires var tail := Wrap(RING, head + len);
      var first := Min(n, RING - tail);
      forall j | 0 <= j < RING && !(tail <= j < tail + first) && !(j < n - first) :: now[j] == was[j]
    ensures View(now, head, len) == View(was, head, len)
  {
  }

  class Ring {
    const bytes: array<u8>
    var head: nat
    var len: nat
    var lost: u32

    ghost predicate Valid()
      reads this
    {
      bytes.Length == RING && head < RING && len <= RING
    }

    ghost function Abstract(): State
      requires Valid()
      reads this, bytes
    {
      State(View(bytes[..], head, len), lost)
    }

    constructor ()
      ensures Valid() && Abstract() == State([], 0) && fresh(bytes)
    {
      bytes := new u8[RING](_ => 0);
      head, len, lost := 0, 0, 0;
    }

    method Push(data: seq<u8>)
      requires Valid()
      modifies this, bytes
      ensures Valid() && Abstract() == PushSpec(old(Abstract()), data)
    {
      var take := Min(|data|, RING - len);
      lost := Wrapping(lost + (|data| - take));
      CopyIn(data[..take]);
      len := len + take;
    }

    /** The two copies. */
    method CopyIn(data: seq<u8>)
      requires Valid() && len + |data| <= RING
      modifies bytes
      ensures View(bytes[..], head, len + |data|) == View(old(bytes[..]), head, len) + data
    {
      ghost var was := bytes[..];
      TwoCopies(Wrap(RING, head + len), data);
      StoredPastTheEnd(was, bytes[..], head, len, |data|);
      if len < RING {
        ViewConcat(bytes[..], head, len, |data|);
      }
    }

    method TwoCopies(tail: nat, data: seq<u8>)
      requires Valid() && tail < RING && |data| <= RING
      modifies bytes
      ensures View(bytes[..], tail, |data|) == data
      ensures var first := Min(|data|, RING - tail);
        forall j | 0 <= j < RING && !(tail <= j < tail + first) && !(j < |data| - first) ::
          bytes[..][j] == old(bytes[..])[j]
    {
      var first := Min(|data|, RING - tail);
      ghost var was := bytes[..];
      CopyInto(bytes, tail, data[..first]);
      ghost var between := bytes[..];
      CopyInto(bytes, 0, data[first..]);
      TwoSplices(was, between, bytes[..], tail, data);
    }

    method Drop(n: nat)
      requires Valid() && n <= len
      modifies this
      ensures Valid() && old(View(bytes[..], head, n)) == old(Abstract()).queue[..n]
      ensures Abstract() == State(old(Abstract()).queue[n..], old(lost))
    {
      ViewPrefix(bytes[..], head, len, n);
      ViewSuffix(bytes[..], head, len, n);
      head := Wrap(RING, head + n);
      len := len - n;
    }

    method Pop(out: array<u8>) returns (n: nat)
      requires Valid() && out != bytes
      modifies this, out
      ensures Valid() && n <= out.Length
      ensures (out[..n], Abstract()) == PopSpec(old(Abstract()), out.Length)
      ensures out[n..] == old(out[n..])
    {
      n := Min(len, out.Length);
      var first := Min(n, RING - head);
      CopyInto(out, 0, bytes[head..head + first]);
      CopyInto(out, first, bytes[..n - first]);
      TwoStretches(bytes[..], head, n);
      assert out[..n] == bytes[head..head + first] + bytes[..n - first];
      Drop(n);
    }
  }

  // ---------------------------------------------------------------------
  // The loops before, a byte at a time, on a ring with the same fields
  // ---------------------------------------------------------------------

  method OraclePush(ring: Ring, data: seq<u8>)
    requires ring.Valid()
    modifies ring, ring.bytes
    ensures ring.Valid() && ring.Abstract() == PushSpec(old(ring.Abstract()), data)
  {
    ghost var start := ring.Abstract();
    var i := 0;
    while i < |data|
      invariant 0 <= i <= |data| && ring.Valid()
      invariant PushBytes(ring.Abstract(), data[i..]) == PushBytes(start, data)
    {
      assert data[i..][0] == data[i] && data[i..][1..] == data[i + 1..];
      OraclePushOne(ring, data[i]);
      i := i + 1;
    }
    PushIsByteByByte(start, data);
  }

  method OraclePushOne(ring: Ring, b: u8)
    requires ring.Valid()
    modifies ring, ring.bytes
    ensures ring.Valid() && ring.Abstract() == PushByte(old(ring.Abstract()), b)
  {
    if ring.len == RING {
      ring.lost := Wrapping(ring.lost + 1);
    } else {
      ghost var was := ring.bytes[..];
      ring.bytes[Wrap(RING, ring.head + ring.len)] := b;
      StoredPastTheEnd(was, ring.bytes[..], ring.head, ring.len, 1);
      ViewConcat(ring.bytes[..], ring.head, ring.len, 1);
      ring.len := ring.len + 1;
    }
  }

  method OraclePop(ring: Ring, out: array<u8>) returns (n: nat)
    requires ring.Valid() && out != ring.bytes
    modifies ring, out
    ensures ring.Valid() && n <= out.Length
    ensures (out[..n], ring.Abstract()) == PopSpec(old(ring.Abstract()), out.Length)
    ensures out[n..] == old(out[n..])
  {
    n := Min(ring.len, out.Length);
    ghost var from := ring.head;
    for i := 0 to n
      invariant ring.head == Wrap(RING, from + i) && ring.Valid()
      invariant ring.len == old(ring.len) && ring.lost == old(ring.lost)
      invariant forall j | 0 <= j < out.Length ::
                  out[j] == if j < i then View(ring.bytes[..], from, ring.len)[j] else old(out[j])
    {
      out[i] := ring.bytes[ring.head];
      ring.head := Wrap(RING, ring.head + 1);
    }
    ViewPrefix(ring.bytes[..], from, ring.len, n);
    ViewSuffix(ring.bytes[..], from, ring.len, n);
    ring.len := ring.len - n;
    assert out[..n] == View(ring.bytes[..], from, n);
  }
}
