/**
 The link's data frames and an established session: `Envelope`, `Session`,
 and two sessions talking over a network that loses, repeats and reorders.
 */
module LinkSession {
  import opened Bytes
  import opened LinkHmac
  import opened Replay
  import opened Wrappers

  const VERSION: u8 := 1
  const TAG_LEN: int := 16
  const HEADER_LEN: int := 7
  const MAX_FRAME: int := 250
  const MAX_PAYLOAD: int := MAX_FRAME - HEADER_LEN - TAG_LEN
  const KEY_LEN: int := 32

  datatype Error = InvalidFormat | Unsupported | BufferTooSmall(needed: nat) | Denied | Crypto
  type Result<+T> = Wrappers.Result<T, Error>

  type Key = k: seq<u8> | |k| == KEY_LEN witness Zeros(32)

  // ---------------------------------------------------------------------
  // Frames
  // ---------------------------------------------------------------------

  datatype Envelope = Envelope(session: u16, seqNo: u32, payload: seq<u8>, tag: seq<u8>)

  function Parse(bytes: seq<u8>): (r: Result<Envelope>)
    ensures r.Ok? <==> |bytes| >= HEADER_LEN + TAG_LEN && bytes[0] == VERSION
  {
    if |bytes| < HEADER_LEN + TAG_LEN then Err(InvalidFormat)
    else if bytes[0] != VERSION then Err(InvalidFormat)
    else
      var tagAt := |bytes| - TAG_LEN;
      Ok(Envelope(FromBe16(bytes[1..3]), FromBe32(bytes[3..7]), bytes[HEADER_LEN..tagAt], bytes[tagAt..]))
  }

  function Header(id: u16, seqNo: u32): (h: seq<u8>)
    ensures |h| == HEADER_LEN
  {
    [VERSION] + Be16(id) + Be32(seqNo)
  }

  function Tag(f: Compression, key: seq<u8>, signed: seq<u8>): (t: seq<u8>)
    ensures |t| == TAG_LEN
  {
    Hmac(f, key, signed)[..TAG_LEN]
  }

  /** The one frame that carries `payload` as number `seqNo` under `key`. */
  function Frame(f: Compression, key: seq<u8>, id: u16, seqNo: u32, payload: seq<u8>): (bytes: seq<u8>)
    ensures |bytes| == HEADER_LEN + |payload| + TAG_LEN
  {
    var signed := Header(id, seqNo) + payload;
    signed + Tag(f, key, signed)
  }

  lemma HeaderFields(id: u16, seqNo: u32)
    ensures var h := Header(id, seqNo);
      h[0] == VERSION && h[1..3] == Be16(id) && h[3..7] == Be32(seqNo)
  {
  }

  /** Parsing a frame gives back what was framed. */
  lemma ParseFrame(f: Compression, key: seq<u8>, id: u16, seqNo: u32, payload: seq<u8>)
    ensures var bytes := Frame(f, key, id, seqNo, payload);
      && Parse(bytes) == Ok(Envelope(id, seqNo, payload, Tag(f, key, Header(id, seqNo) + payload)))
      && bytes[..|bytes| - TAG_LEN] == Header(id, seqNo) + payload
  {
    var h := Header(id, seqNo);
    var signed := h + payload;
    var bytes := Frame(f, key, id, seqNo, payload);
    HeaderFields(id, seqNo);
    assert bytes[1..3] == h[1..3] && bytes[3..7] == h[3..7];
    Be16RoundTrip(id);
    Be32RoundTrip(seqNo);
    assert bytes[HEADER_LEN..|bytes| - TAG_LEN] == payload;
    assert bytes[|bytes| - TAG_LEN..] == Tag(f, key, signed);
  }

  /** Frames of one session differ whenever their numbers or payloads do. */
  lemma FrameInjective(f: Compression, key: seq<u8>, id: u16, s1: u32, p1: seq<u8>, s2: u32, p2: seq<u8>)
    requires Frame(f, key, id, s1, p1) == Frame(f, key, id, s2, p2)
    ensures s1 == s2 && p1 == p2
  {
    ParseFrame(f, key, id, s1, p1);
    ParseFrame(f, key, id, s2, p2);
  }

  /** The frame byte by byte: version, id, number, payload, and 16 bytes of HMAC over all before them. */
  lemma FrameLayout(f: Compression, key: seq<u8>, id: u16, seqNo: u32, payload: seq<u8>)
    ensures var b := Frame(f, key, id, seqNo, payload);
      && |b| == 23 + |payload|
      && b[0] == 1
      && BigEndian(b[1..3]) == id && BigEndian(b[3..7]) == seqNo
      && b[7..7 + |payload|] == payload
      && b[7 + |payload|..] == Hmac(f, key, b[..7 + |payload|])[..16]
  {
    var h, b := Header(id, seqNo), Frame(f, key, id, seqNo, payload);
    HeaderFields(id, seqNo);
    assert b[1..3] == h[1..3] && b[3..7] == h[3..7] && b[..7 + |payload|] == h + payload;
    Be16Spells(id, Be16(id));
    Be32Spells(seqNo);
  }

  /** What parsing reads, of any bytes at all. */
  lemma ParseReads(bytes: seq<u8>)
    ensures Parse(bytes).Ok? <==> |bytes| >= 23 && bytes[0] == 1
    ensures Parse(bytes).Err? ==> Parse(bytes) == Err(InvalidFormat)
    ensures Parse(bytes).Ok? ==>
      var e := Parse(bytes).value;
      && BigEndian(bytes[1..3]) == e.session && BigEndian(bytes[3..7]) == e.seqNo
      && bytes[7..] == e.payload + e.tag && |e.tag| == 16
  {
    if Parse(bytes).Ok? {
      Be16Spells(0, bytes[1..3]);
      BigEndianOfFour(bytes[3..7]);
    }
  }

  // ---------------------------------------------------------------------
  // The specification of one session
  // ---------------------------------------------------------------------

  datatype Counters = Counters(sent: u32, received: u32, badTag: u32, replayed: u32, foreign: u32)

  /** A session as its peers see it; `accepted` is every number its window ever let through. */
  datatype State = State(id: u16, peer: seq<u8>, sendKey: Key, recvKey: Key,
                         sendSeq: u32, exhausted: bool, accepted: set<u32>,
                         established: u64, lifetime: u64, counters: Counters)

  function NewState(id: u16, peer: seq<u8>, sendKey: Key, recvKey: Key, now: u64, lifetime: u64): State {
    State(id, peer, sendKey, recvKey, 0, false, {}, now, lifetime, Counters(0, 0, 0, 0, 0))
  }

  /** Seal `payload` with `room` bytes to write into: what comes out, and the session after. */
  function Seal(f: Compression, s: State, payload: seq<u8>, room: nat): (State, Result<seq<u8>>) {
    var needed := HEADER_LEN + |payload| + TAG_LEN;
    if |payload| > MAX_PAYLOAD then (s, Err(Unsupported))
    else if room < needed then (s, Err(BufferTooSmall(needed)))
    else if s.exhausted then (s, Err(Denied))
    else
      var counted := s.counters.(sent := Wrapping(s.counters.sent + 1));
      var moved := if s.sendSeq + 1 < TWO_32 then s.(sendSeq := s.sendSeq + 1) else s.(exhausted := true);
      (moved.(counters := counted), Ok(Frame(f, s.sendKey, s.id, s.sendSeq, payload)))
  }

  ghost predicate TagHolds(f: Compression, key: seq<u8>, frame: seq<u8>)
    requires |frame| >= TAG_LEN
  {
    frame[|frame| - TAG_LEN..] == Tag(f, key, frame[..|frame| - TAG_LEN])
  }

  ghost function Open(f: Compression, s: State, frame: seq<u8>): (State, Result<seq<u8>>) {
    var parsed := Parse(frame);
    var c := s.counters;
    if parsed.Err? then (s.(counters := c.(foreign := Wrapping(c.foreign + 1))), Err(parsed.error))
    else if parsed.value.session != s.id then (s.(counters := c.(foreign := Wrapping(c.foreign + 1))), Err(Denied))
    else if !TagHolds(f, s.recvKey, frame) then (s.(counters := c.(badTag := Wrapping(c.badTag + 1))), Err(Crypto))
    else if !Fresh(s.accepted, parsed.value.seqNo) then
      (s.(counters := c.(replayed := Wrapping(c.replayed + 1))), Err(Denied))
    else (s.(accepted := s.accepted + {parsed.value.seqNo}, counters := c.(received := Wrapping(c.received + 1))),
          Ok(parsed.value.payload))
  }

  /** The number the next seal would use; 2^32 once the space is used up. */
  function NextNumber(s: State): nat {
    if s.exhausted then TWO_32 else s.sendSeq
  }

  ghost predicate ValidState(s: State) {
    s.exhausted ==> s.sendSeq == TWO_32 - 1
  }

  /** Which refusal: at most 227 bytes, then 23 more than the payload in the buffer, then a number left. */
  lemma SealRefusals(f: Compression, s: State, payload: seq<u8>, room: nat)
    ensures var r := Seal(f, s, payload, room).1;
      && (r == Err(Unsupported) <==> |payload| > 227)
      && (r == Err(BufferTooSmall(|payload| + 23)) <==> |payload| <= 227 && room < |payload| + 23)
      && (r == Err(Denied) <==> |payload| <= 227 && room >= |payload| + 23 && s.exhausted)
      && (r.Err? ==> r.error in {Unsupported, BufferTooSmall(|payload| + 23), Denied})
  {
  }

  /**
   A seal is refused exactly for a payload too long, a buffer too short or a
   number space used up, and then the session is untouched. Otherwise it
   frames the payload under the next number and moves on by one.
   */
  lemma SealStep(f: Compression, s: State, payload: seq<u8>, room: nat)
    requires ValidState(s)
    ensures var (after, r) := Seal(f, s, payload, room);
      && ValidState(after)
      && (r.Err? <==> |payload| > MAX_PAYLOAD || room < HEADER_LEN + |payload| + TAG_LEN || NextNumber(s) == TWO_32)
      && (r.Err? ==> after == s)
      && (r.Ok? ==>
            && NextNumber(s) < TWO_32
            && r == Ok(Frame(f, s.sendKey, s.id, NextNumber(s), payload))
            && |r.value| <= MAX_FRAME
            && NextNumber(after) == NextNumber(s) + 1
            && after.counters == s.counters.(sent := Wrapping(s.counters.sent + 1))
            && after.(sendSeq := s.sendSeq, exhausted := s.exhausted, counters := s.counters) == s)
  {
  }

  /** Structure and session id are right: what is checked before the tag. */
  predicate Addressed(s: State, frame: seq<u8>) {
    Parse(frame).Ok? && Parse(frame).value.session == s.id
  }

  /** Everything a session has been handed, modulo 2^32: the four receive counters together. */
  function Handled(c: Counters): u32 {
    Wrapping(Sum(c))
  }

  function Sum(c: Counters): nat {
    c.received + c.badTag + c.replayed + c.foreign
  }

  /** Each open moves exactly one of the four receive counters, by one, and what was checked first says which. */
  lemma OpenMovesOneCounter(f: Compression, s: State, frame: seq<u8>)
    ensures var (after, r) := Open(f, s, frame);
      && var c, d := s.counters, after.counters;
      && (d.foreign != c.foreign <==> !Addressed(s, frame))
      && (d.badTag != c.badTag <==> Addressed(s, frame) && !TagHolds(f, s.recvKey, frame))
      && (d.replayed != c.replayed <==>
            && Addressed(s, frame) && TagHolds(f, s.recvKey, frame)
            && !Fresh(s.accepted, Parse(frame).value.seqNo))
      && (d.received != c.received <==> r.Ok?)
      && d in {c.(foreign := Wrapping(c.foreign + 1)), c.(badTag := Wrapping(c.badTag + 1)),
               c.(replayed := Wrapping(c.replayed + 1)), c.(received := Wrapping(c.received + 1))}
      && (r == Err(Crypto) <==> d.badTag != c.badTag)
      && (r == Err(InvalidFormat) <==> Parse(frame).Err?)
      && (r.Ok? || r.error in {InvalidFormat, Denied, Crypto})
  {
  }

  lemma OpenCountsOne(f: Compression, s: State, frame: seq<u8>)
    ensures Handled(Open(f, s, frame).0.counters) == Wrapping(Handled(s.counters) + 1)
  {
    var c, d := s.counters, Open(f, s, frame).0.counters;
    var before, after := Sum(c), Sum(d);
    OpenMovesOneCounter(f, s, frame);
    var moved := if d.foreign != c.foreign then c.foreign
                 else if d.badTag != c.badTag then c.badTag
                 else if d.replayed != c.replayed then c.replayed
                 else c.received;
    assert after == before - moved + Wrapping(moved + 1);
    OneMoreHandled(before, moved, after);
  }

  /** One of several counters moves on: so does their sum, modulo 2^32. */
  lemma OneMoreHandled(before: nat, moved: u32, after: nat)
    requires moved <= before && after == before - moved + Wrapping(moved + 1)
    ensures Wrapping(after) == Wrapping(Wrapping(before) + 1)
  {
    WrappingAdd(before, 1);
    if moved == TWO_32 - 1 {
      assert after + TWO_32 == before + 1;
    } else {
      assert after == before + 1;
    }
  }

  /**
   The documentation has the tag verified before any other check. A frame
   with a bad tag is counted as one exactly when it is addressed here.
   */
  lemma BadTagIsCountedIff(f: Compression, s: State, frame: seq<u8>)
    requires |frame| >= TAG_LEN && !TagHolds(f, s.recvKey, frame)
    ensures var (after, r) := Open(f, s, frame);
      && (after.counters == s.counters.(badTag := Wrapping(s.counters.badTag + 1)) <==> Addressed(s, frame))
      && (after.counters == s.counters.(foreign := Wrapping(s.counters.foreign + 1)) <==> !Addressed(s, frame))
      && (r == Err(Crypto) <==> Addressed(s, frame))
  {
    OpenMovesOneCounter(f, s, frame);
  }

  /** A frame whose last tag byte was altered on the way. */
  function Altered(f: Compression, key: seq<u8>, id: u16, seqNo: u32, payload: seq<u8>): (bytes: seq<u8>)
    ensures |bytes| == HEADER_LEN + |payload| + TAG_LEN
  {
    var bytes := Frame(f, key, id, seqNo, payload);
    bytes[|bytes| - 1 := (bytes[|bytes| - 1] as int + 1) % 0x100]
  }

  /** The input on which code and documentation part: a bad tag under another session's id is foreign. */
  lemma ForeignBeforeTag(f: Compression, s: State, id: u16, seqNo: u32, payload: seq<u8>)
    requires id != s.id
    ensures var frame := Altered(f, s.recvKey, id, seqNo, payload);
      && !TagHolds(f, s.recvKey, frame)
      && Open(f, s, frame) == (s.(counters := s.counters.(foreign := Wrapping(s.counters.foreign + 1))), Err(Denied))
  {
    var was, frame := Frame(f, s.recvKey, id, seqNo, payload), Altered(f, s.recvKey, id, seqNo, payload);
    var signed := |frame| - TAG_LEN;
    ParseFrame(f, s.recvKey, id, seqNo, payload);
    assert frame[..signed] == was[..signed] && frame[1..3] == was[1..3];
    assert frame[signed..][TAG_LEN - 1] != was[signed..][TAG_LEN - 1];
  }

  /** Only an addressed frame whose tag holds can move the window; nothing else can. */
  lemma OnlyTaggedFramesMoveTheWindow(f: Compression, s: State, frame: seq<u8>)
    ensures var (after, r) := Open(f, s, frame);
      && (r.Ok? <==> Addressed(s, frame) && TagHolds(f, s.recvKey, frame) && Fresh(s.accepted, Parse(frame).value.seqNo))
      && after.accepted == (if r.Ok? then s.accepted + {Parse(frame).value.seqNo} else s.accepted)
      && after.(accepted := s.accepted, counters := s.counters) == s
  {
  }

  /** A frame the peer sealed opens exactly when its number is fresh, and to exactly its payload. */
  lemma GenuineFrame(f: Compression, s: State, seqNo: u32, payload: seq<u8>)
    ensures var frame := Frame(f, s.recvKey, s.id, seqNo, payload);
      && Addressed(s, frame) && TagHolds(f, s.recvKey, frame)
      && Parse(frame).value.seqNo == seqNo && Parse(frame).value.payload == payload
      && (Open(f, s, frame).1 == if Fresh(s.accepted, seqNo) then Ok(payload) else Err(Denied))
  {
    ParseFrame(f, s.recvKey, s.id, seqNo, payload);
  }

  /**
   The other way round: whatever opens is, byte for byte, the frame of a
   fresh number and of the payload it opened to, under this session's id and key.
   */
  lemma OnlyFramesOpen(f: Compression, s: State, frame: seq<u8>)
    requires Open(f, s, frame).1.Ok?
    ensures var seqNo := Parse(frame).value.seqNo;
      && Fresh(s.accepted, seqNo)
      && frame == Frame(f, s.recvKey, s.id, seqNo, Open(f, s, frame).1.value)
      && frame[|frame| - 16..] == Hmac(f, s.recvKey, frame[..|frame| - 16])[..16]
  {
    var e := Parse(frame).value;
    var signed := frame[..|frame| - TAG_LEN];
    HeaderFromBytes(frame);
    assert signed == Header(e.session, e.seqNo) + e.payload;
    assert frame == signed + frame[|frame| - TAG_LEN..];
  }

  lemma HeaderFromBytes(bytes: seq<u8>)
    requires |bytes| >= HEADER_LEN && bytes[0] == VERSION
    ensures Header(FromBe16(bytes[1..3]), FromBe32(bytes[3..7])) == bytes[..HEADER_LEN]
  {
    Be16OfBytes(bytes[1..3]);
    Be32OfBytes(bytes[3..7]);
    assert bytes[..HEADER_LEN] == [bytes[0]] + bytes[1..3] + bytes[3..7];
  }

  /** What one end seals, its mirror opens, whenever the number is still fresh there. */
  lemma SealedFrameOpens(f: Compression, a: State, b: State, payload: seq<u8>, room: nat)
    requires Mirrored(a, b) && ValidState(a)
    requires |payload| <= MAX_PAYLOAD && room >= HEADER_LEN + |payload| + TAG_LEN && NextNumber(a) < TWO_32
    requires Fresh(b.accepted, NextNumber(a))
    ensures Seal(f, a, payload, room).1.Ok?
    ensures Open(f, b, Seal(f, a, payload, room).1.value).1 == Ok(payload)
  {
    SealStep(f, a, payload, room);
    GenuineFrame(f, b, NextNumber(a), payload);
  }

  // ---------------------------------------------------------------------
  // Two sessions and the network between them
  // ---------------------------------------------------------------------

  datatype Sent = Sent(payload: seq<u8>, frame: seq<u8>)
  datatype Delivery = Delivery(seqNo: u32, payload: seq<u8>)

  /** One end: its session, what it sealed and what it delivered, in order. */
  datatype End = End(state: State, sent: seq<Sent>, got: seq<Delivery>)
  datatype World = World(left: End, right: End)
  datatype Side = Left | Right

  /** `Send` asks one side to seal; `Deliver` hands one side any bytes at all. */
  datatype Event = Send(side: Side, payload: seq<u8>, room: nat) | Deliver(side: Side, frame: seq<u8>)

  function At(w: World, side: Side): End {
    if side.Left? then w.left else w.right
  }

  function Other(side: Side): Side {
    if side.Left? then Right else Left
  }

  function With(w: World, side: Side, e: End): World {
    if side.Left? then w.(left := e) else w.(right := e)
  }

  ghost function EndStep(f: Compression, me: End, e: Event): End {
    match e
    case Send(_, payload, room) =>
      var (after, r) := Seal(f, me.state, payload, room);
      End(after, if r.Ok? then me.sent + [Sent(payload, r.value)] else me.sent, me.got)
    case Deliver(_, frame) =>
      var (after, r) := Open(f, me.state, frame);
      End(after, me.sent,
          if r.Ok? then me.got + [Delivery(Parse(frame).value.seqNo, r.value)] else me.got)
  }

  ghost function Run(f: Compression, w: World, events: seq<Event>): World
    decreases |events|
  {
    if events == [] then w
    else Run(f, With(w, events[0].side, EndStep(f, At(w, events[0].side), events[0])), events[1..])
  }

  /**
   What the network may deliver: any frame the other end ever sent, however
   late and however often; or any bytes without a valid tag for this session.
   (Forging a tag is what HMAC is assumed to prevent.)
   */
  ghost predicate Unforged(f: Compression, me: End, peer: End, e: Event) {
    e.Deliver? ==>
      || (exists i | 0 <= i < |peer.sent| :: peer.sent[i].frame == e.frame)
      || !Addressed(me.state, e.frame)
      || !TagHolds(f, me.state.recvKey, e.frame)
  }

  ghost predicate UnforgedRun(f: Compression, w: World, events: seq<Event>)
    decreases |events|
  {
    events == [] ||
    (var side := events[0].side;
     && Unforged(f, At(w, side), At(w, Other(side)), events[0])
     && UnforgedRun(f, With(w, side, EndStep(f, At(w, side), events[0])), events[1..]))
  }

  /** One end's sealing record: number `i` was used once, for the `i`-th payload. */
  ghost predicate SealedInOrder(f: Compression, me: End) {
    && ValidState(me.state)
    && NextNumber(me.state) == |me.sent|
    && me.state.counters.sent == Wrapping(|me.sent|)
    && Numbered(f, me.state.sendKey, me.state.id, me.sent)
  }

  ghost predicate Numbered(f: Compression, key: seq<u8>, id: u16, sent: seq<Sent>) {
    forall i | 0 <= i < |sent| :: i < TWO_32 && sent[i].frame == Frame(f, key, id, i, sent[i].payload)
  }

  /** One end's receiving record: what was sealed under that number, and no number twice. */
  ghost predicate DeliveredFaithfully(me: End, peer: End) {
    && (forall d | d in me.got :: d.seqNo < |peer.sent| && d.payload == peer.sent[d.seqNo].payload)
    && NoRepeats(me.got)
    && me.state.accepted == Numbers(me.got)
    && me.state.counters.received == Wrapping(|me.got|)
  }

  ghost predicate NoRepeats(got: seq<Delivery>) {
    forall i, j | 0 <= i < j < |got| :: got[i].seqNo != got[j].seqNo
  }

  ghost function Numbers(got: seq<Delivery>): set<u32> {
    set d | d in got :: d.seqNo
  }

  ghost predicate Mirrored(a: State, b: State) {
    a.id == b.id && a.sendKey == b.recvKey && a.recvKey == b.sendKey
  }

  ghost predicate Safe(f: Compression, w: World) {
    && Mirrored(w.left.state, w.right.state)
    && SealedInOrder(f, w.left) && SealedInOrder(f, w.right)
    && DeliveredFaithfully(w.left, w.right) && DeliveredFaithfully(w.right, w.left)
  }

  lemma SendKeepsSealedInOrder(f: Compression, me: End, e: Event)
    requires SealedInOrder(f, me) && e.Send?
    ensures var after := EndStep(f, me, e);
      && SealedInOrder(f, after) && me.sent <= after.sent
      && after.got == me.got
      && after.state.(sendSeq := me.state.sendSeq, exhausted := me.state.exhausted, counters := me.state.counters) == me.state
      && after.state.counters.received == me.state.counters.received
  {
    var (after, r) := Seal(f, me.state, e.payload, e.room);
    SealStep(f, me.state, e.payload, e.room);
    if r.Ok? {
      SentOneMore(f, me, End(after, me.sent + [Sent(e.payload, r.value)], me.got), e.payload);
    }
  }

  lemma SentOneMore(f: Compression, me: End, after: End, payload: seq<u8>)
    requires SealedInOrder(f, me) && NextNumber(me.state) < TWO_32
    requires after.state.sendKey == me.state.sendKey && after.state.id == me.state.id
    requires ValidState(after.state) && NextNumber(after.state) == NextNumber(me.state) + 1
    requires after.state.counters.sent == Wrapping(me.state.counters.sent + 1)
    requires after.sent == me.sent + [Sent(payload, Frame(f, me.state.sendKey, me.state.id, NextNumber(me.state), payload))]
    ensures SealedInOrder(f, after)
  {
    WrappingAdd(|me.sent|, 1);
    NumberedOneMore(f, me.state.sendKey, me.state.id, me.sent, after.sent[|me.sent|]);
  }

  lemma NumberedOneMore(f: Compression, key: seq<u8>, id: u16, sent: seq<Sent>, s: Sent)
    requires Numbered(f, key, id, sent) && |sent| < TWO_32
    requires s.frame == Frame(f, key, id, |sent|, s.payload)
    ensures Numbered(f, key, id, sent + [s])
  {
    var more := sent + [s];
    forall i | 0 <= i < |more| ensures i < TWO_32 && more[i].frame == Frame(f, key, id, i, more[i].payload) {
      if i < |sent| {
        assert more[i] == sent[i];
      } else {
        assert more[i] == s;
      }
    }
  }

  lemma DeliverKeepsFaith(f: Compression, me: End, peer: End, e: Event)
    requires Mirrored(me.state, peer.state) && SealedInOrder(f, peer) && DeliveredFaithfully(me, peer)
    requires e.Deliver? && Unforged(f, me, peer, e)
    ensures DeliveredFaithfully(EndStep(f, me, e), peer)
  {
    OnlyTaggedFramesMoveTheWindow(f, me.state, e.frame);
    OpenMovesOneCounter(f, me.state, e.frame);
    if Open(f, me.state, e.frame).1.Ok? {
      var i :| 0 <= i < |peer.sent| && peer.sent[i].frame == e.frame;
      GenuineFrame(f, me.state, i, peer.sent[i].payload);
      GotOneMore(me, peer, EndStep(f, me, e), Delivery(i, peer.sent[i].payload));
    }
  }

  lemma GotOneMore(me: End, peer: End, after: End, d: Delivery)
    requires DeliveredFaithfully(me, peer)
    requires d.seqNo < |peer.sent| && d.payload == peer.sent[d.seqNo].payload && d.seqNo !in me.state.accepted
    requires after.got == me.got + [d] && after.state.accepted == me.state.accepted + {d.seqNo}
    requires after.state.counters.received == Wrapping(me.state.counters.received + 1)
    ensures DeliveredFaithfully(after, peer)
  {
    WrappingAdd(|me.got|, 1);
    NumbersOneMore(me.got, d);
  }

  /**
   In any safe world a sent frame, whichever and however late, opens to its
   payload exactly when its number was not delivered yet and no delivered
   number is 64 or more above it; otherwise it is refused.
   */
  lemma SentFrameOpensIff(f: Compression, me: End, peer: End, i: nat)
    requires Mirrored(me.state, peer.state) && SealedInOrder(f, peer) && DeliveredFaithfully(me, peer)
    requires i < |peer.sent|
    ensures var r := Open(f, me.state, peer.sent[i].frame).1;
      && (r == Ok(peer.sent[i].payload) <==> forall d | d in me.got :: d.seqNo != i && d.seqNo - i < WINDOW)
      && (r == Ok(peer.sent[i].payload) || r == Err(Denied))
  {
    GenuineFrame(f, me.state, i, peer.sent[i].payload);
    DeliveredNumbers(me.got, i);
  }

  lemma DeliveredNumbers(got: seq<Delivery>, i: u32)
    ensures Fresh(Numbers(got), i) <==> forall d | d in got :: d.seqNo != i && d.seqNo - i < WINDOW
  {
    if Fresh(Numbers(got), i) {
      assert forall d | d in got :: d.seqNo in Numbers(got);
    }
  }

  lemma NumbersOneMore(got: seq<Delivery>, d: Delivery)
    requires NoRepeats(got) && d.seqNo !in Numbers(got)
    ensures NoRepeats(got + [d]) && Numbers(got + [d]) == Numbers(got) + {d.seqNo}
  {
    var more := got + [d];
    forall i, j | 0 <= i < j < |more| ensures more[i].seqNo != more[j].seqNo {
      assert got[i] in got;
    }
    assert forall g | g in more :: g in got || g == d;
    assert forall g | g in got :: g in more;
    assert d in more;
  }

  lemma PeerSentMore(me: End, peer: End, peerAfter: End)
    requires DeliveredFaithfully(me, peer) && peer.sent <= peerAfter.sent
    ensures DeliveredFaithfully(me, peerAfter)
  {
  }

  lemma DeliverKeepsSealing(f: Compression, me: End, e: Event)
    requires SealedInOrder(f, me) && e.Deliver?
    ensures var after := EndStep(f, me, e);
      && SealedInOrder(f, after) && after.sent == me.sent
      && after.state.(accepted := me.state.accepted, counters := me.state.counters) == me.state
  {
    OnlyTaggedFramesMoveTheWindow(f, me.state, e.frame);
    OpenMovesOneCounter(f, me.state, e.frame);
  }

  lemma StepIsSafe(f: Compression, me: End, peer: End, e: Event)
    requires Mirrored(me.state, peer.state)
    requires SealedInOrder(f, me) && SealedInOrder(f, peer)
    requires DeliveredFaithfully(me, peer) && DeliveredFaithfully(peer, me)
    requires Unforged(f, me, peer, e)
    ensures var after := EndStep(f, me, e);
      && Mirrored(after.state, peer.state) && SealedInOrder(f, after)
      && DeliveredFaithfully(after, peer) && DeliveredFaithfully(peer, after)
      && me.sent <= after.sent
  {
    var after := EndStep(f, me, e);
    match e
    case Send(_, _, _) =>
      SendKeepsSealedInOrder(f, me, e);
      PeerSentMore(peer, me, after);
    case Deliver(_, _) =>
      DeliverKeepsFaith(f, me, peer, e);
      DeliverKeepsSealing(f, me, e);
      PeerSentMore(peer, me, after);
  }

  /**
   Whatever an unforging network loses, repeats, reorders, cuts short or
   corrupts: every delivered payload is the one sealed under its number, no
   number is delivered twice, and numbers are used 0, 1, 2, ... once each.
   */
  lemma {:induction false} RunIsSafe(f: Compression, w: World, events: seq<Event>)
    requires Safe(f, w) && UnforgedRun(f, w, events)
    ensures Safe(f, Run(f, w, events))
    decreases |events|
  {
    if events != [] {
      var side := events[0].side;
      StepIsSafe(f, At(w, side), At(w, Other(side)), events[0]);
      RunIsSafe(f, With(w, side, EndStep(f, At(w, side), events[0])), events[1..]);
    }
  }

  function Deliveries(events: seq<Event>, side: Side): nat {
    if events == [] then 0
    else (if events[0].Deliver? && events[0].side == side then 1 else 0) + Deliveries(events[1..], side)
  }

  /** Over any run at all, forged frames included, the receive counters together count every delivery once. */
  lemma {:induction false} RunCountsDeliveries(f: Compression, w: World, events: seq<Event>, side: Side)
    ensures Handled(At(Run(f, w, events), side).state.counters)
         == Wrapping(Handled(At(w, side).state.counters) + Deliveries(events, side))
    decreases |events|
  {
    if events != [] {
      var e := events[0];
      var after := With(w, e.side, EndStep(f, At(w, e.side), e));
      StepCounts(f, At(w, e.side), e);
      RunCountsDeliveries(f, after, events[1..], side);
      WrappingAdd(Handled(At(w, side).state.counters) + 1, Deliveries(events[1..], side));
    }
  }

  lemma StepCounts(f: Compression, me: End, e: Event)
    ensures var n := Handled(me.state.counters);
      Handled(EndStep(f, me, e).state.counters) == if e.Deliver? then Wrapping(n + 1) else n
  {
    if e.Deliver? {
      OpenCountsOne(f, me.state, e.frame);
    }
  }

  /** Two new sessions with mirrored keys start out safe. */
  lemma NewSessionsAreSafe(f: Compression, a: State, b: State)
    requires Mirrored(a, b)
    requires a == NewState(a.id, a.peer, a.sendKey, a.recvKey, a.established, a.lifetime)
    requires b == NewState(b.id, b.peer, b.sendKey, b.recvKey, b.established, b.lifetime)
    ensures Safe(f, World(End(a, [], []), End(b, [], [])))
  {
  }

  /** The part of a frame its tag covers, written into the front of `out`. */
  method WriteSigned(header: seq<u8>, payload: seq<u8>, out: array<u8>)
    requires |header| + |payload| <= out.Length
    modifies out
    ensures out[..] == header + payload + old(out[|header| + |payload|..])
  {
    ghost var was := out[..];
    CopyInto(out, 0, header);
    CopyInto(out, |header|, payload);
    AppendedAfter(header, payload, was);
  }

  // ---------------------------------------------------------------------
  // The session object
  // ---------------------------------------------------------------------

  class Session {
    const id: u16
    const peer: seq<u8>
    const sendKey: Key
    const recvKey: Key
    const macSend: Keyed
    const macRecv: Keyed
    const window: ReplayWindow
    const established: u64
    const lifetime: u64
    var sendSeq: u32
    var exhausted: bool
    var counters: Counters

    ghost predicate Valid(f: Compression)
      reads this, window
    {
      window.Valid() && macSend == KeyedOf(f, sendKey) && macRecv == KeyedOf(f, recvKey)
    }

    ghost function Abstract(): State
      reads this, window
    {
      State(id, peer, sendKey, recvKey, sendSeq, exhausted, window.accepted, established, lifetime, counters)
    }

    constructor (f: Compression, id: u16, peer: seq<u8>, sendKey: Key, recvKey: Key, now: u64, lifetime: u64)
      ensures Valid(f) && fresh(window)
      ensures Abstract() == NewState(id, peer, sendKey, recvKey, now, lifetime)
      ensures sendSeq == 0 && !exhausted && window.accepted == {} && counters == Counters(0, 0, 0, 0, 0)
    {
      this.id, this.peer, this.sendKey, this.recvKey := id, peer, sendKey, recvKey;
      this.established, this.lifetime := now, lifetime;
      var send := MakeKeyed(f, sendKey);
      var recv := MakeKeyed(f, recvKey);
      macSend, macRecv := send, recv;
      var empty := new ReplayWindow();
      window := empty;
      sendSeq, exhausted, counters := 0, false, Counters(0, 0, 0, 0, 0);
    }

    /** `seal_with`: the frame is written into the front of `out`. */
    method SealWith(ghost f: Compression, e: Engine, payload: seq<u8>, out: array<u8>) returns (r: Result<nat>)
      requires Valid(f) && Meets(e, f)
      modifies this, out
      ensures Valid(f)
      ensures Abstract() == Seal(f, old(Abstract()), payload, out.Length).0
      ensures var spec := Seal(f, old(Abstract()), payload, out.Length).1;
        match spec
        case Ok(frame) => r == Ok(|frame|) && |frame| <= out.Length && out[..] == frame + old(out[|frame|..])
        case Err(error) => r == Err(error) && out[..] == old(out[..])
    {
      if |payload| > MAX_PAYLOAD {
        return Err(Unsupported);
      }
      var needed := HEADER_LEN + |payload| + TAG_LEN;
      if out.Length < needed {
        return Err(BufferTooSmall(needed));
      }
      if exhausted {
        return Err(Denied);
      }
      var seqNo := sendSeq;
      WriteFrame(f, e, seqNo, payload, out);
      if sendSeq + 1 < TWO_32 {
        sendSeq := sendSeq + 1;
      } else {
        exhausted := true;
      }
      counters := counters.(sent := Wrapping(counters.sent + 1));
      r := Ok(needed);
    }

    method WriteFrame(ghost f: Compression, e: Engine, seqNo: u32, payload: seq<u8>, out: array<u8>)
      requires Valid(f) && Meets(e, f)
      requires HEADER_LEN + |payload| + TAG_LEN <= out.Length
      modifies out
      ensures var frame := Frame(f, sendKey, id, seqNo, payload); out[..] == frame + old(out[|frame|..])
    {
      WriteSigned(Header(id, seqNo), payload, out);
      var signed := HEADER_LEN + |payload|;
      var full := HmacWith(f, e, sendKey, macSend, out[..signed]);
      CopyInto(out, signed, full[..TAG_LEN]);
    }

    method CheckTag(ghost f: Compression, e: Engine, frame: seq<u8>, tag: seq<u8>) returns (genuine: bool)
      requires Valid(f) && Meets(e, f) && |frame| >= TAG_LEN && tag == frame[|frame| - TAG_LEN..]
      ensures genuine <==> TagHolds(f, recvKey, frame)
    {
      var full := HmacWith(f, e, recvKey, macRecv, frame[..|frame| - TAG_LEN]);
      genuine := full[..TAG_LEN] == tag;
    }

    /** `open_with`: structure, session id, tag, then the window. */
    method OpenWith(ghost f: Compression, e: Engine, frame: seq<u8>) returns (r: Result<seq<u8>>)
      requires Valid(f) && Meets(e, f)
      modifies this, window
      ensures Valid(f)
      ensures Abstract() == Open(f, old(Abstract()), frame).0
      ensures r == Open(f, old(Abstract()), frame).1
    {
      var parsed := Parse(frame);
      if parsed.Err? {
        counters := counters.(foreign := Wrapping(counters.foreign + 1));
        return Err(parsed.error);
      }
      var env := parsed.value;
      if env.session != id {
        counters := counters.(foreign := Wrapping(counters.foreign + 1));
        return Err(Denied);
      }
      var genuine := CheckTag(f, e, frame, env.tag);
      if !genuine {
        counters := counters.(badTag := Wrapping(counters.badTag + 1));
        return Err(Crypto);
      }
      r := Receive(env);
    }

    /** The last step: the window decides. */
    method Receive(env: Envelope) returns (r: Result<seq<u8>>)
      requires window.Valid()
      modifies this, window
      ensures window.Valid() && sendSeq == old(sendSeq) && exhausted == old(exhausted)
      ensures var c := old(counters);
        if Fresh(old(window.accepted), env.seqNo) then
          && r == Ok(env.payload) && counters == c.(received := Wrapping(c.received + 1))
          && window.accepted == old(window.accepted) + {env.seqNo}
        else
          && r == Err(Denied) && counters == c.(replayed := Wrapping(c.replayed + 1))
          && window.accepted == old(window.accepted)
    {
      var ok := window.Accept(env.seqNo);
      if !ok {
        counters := counters.(replayed := Wrapping(counters.replayed + 1));
        return Err(Denied);
      }
      counters := counters.(received := Wrapping(counters.received + 1));
      r := Ok(env.payload);
    }
  }
}
