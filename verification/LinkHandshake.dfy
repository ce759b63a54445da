/**
 The three-message handshake that establishes a link session.

 The curve and the key derivation are parameters; what is asked of them is in
 `Lawful`. Entropy is a parameter too: each side's ephemeral key and nonce.
 */
module LinkHandshake {
  import opened Bytes
  import opened LinkHmac
  import opened LinkSession
  import opened Wrappers

  const NONCE_LEN: int := 16
  const PUBKEY_LEN: int := 33
  const HELLO_LEN: int := 2 + PUBKEY_LEN + PUBKEY_LEN + NONCE_LEN
  const ACCEPT_LEN: int := HELLO_LEN + TAG_LEN
  const CONFIRM_LEN: int := 2 + TAG_LEN
  const OKM_LEN: int := 3 * KEY_LEN + 2
  const KIND_HELLO: u8 := 1
  const KIND_ACCEPT: u8 := 2
  const KIND_CONFIRM: u8 := 3
  const ACCEPT_LABEL: seq<u8> := [0x61, 0x63, 0x63, 0x65, 0x70, 0x74]
  const CONFIRM_LABEL: seq<u8> := [0x63, 0x6f, 0x6e, 0x66, 0x69, 0x72, 0x6d]

  datatype Scalar = Scalar(value: nat)
  datatype Point = Point(x: nat, y: nat)

  type Nonce = n: seq<u8> | |n| == NONCE_LEN witness Zeros(16)
  type Pubkey = p: seq<u8> | |p| == PUBKEY_LEN witness Zeros(33)
  type Okm = o: seq<u8> | |o| == OKM_LEN witness Zeros(98)

  /** The primitives: P-256 with SEC1 compression, ECDH, HKDF-SHA256 (its context string fixed). */
  datatype Suite = Suite(compression: Compression,
                         public: Scalar -> Point,
                         compress: Point -> Pubkey,
                         decompress: Pubkey -> Option<Point>,
                         dh: (Scalar, Point) -> Key,
                         hkdf: (seq<u8>, seq<u8>) -> Okm)

  /** A public key survives its encoding, and both ends of a Diffie-Hellman get one secret. */
  ghost predicate Lawful(c: Suite) {
    && (forall s: Scalar :: c.decompress(c.compress(c.public(s))) == Some(c.public(s)))
    && (forall a: Scalar, b: Scalar :: c.dh(a, c.public(b)) == c.dh(b, c.public(a)))
  }

  /** A device's DID is its compressed public key. */
  function Did(c: Suite, device: Scalar): Pubkey {
    c.compress(c.public(device))
  }

  // ---------------------------------------------------------------------
  // Key schedule
  // ---------------------------------------------------------------------

  datatype Keys = Keys(i2r: Key, r2i: Key, confirm: Key, id: u16)

  function Split(okm: Okm): Keys {
    Keys(okm[..32], okm[32..64], okm[64..96], FromBe16(okm[96..]))
  }

  /** `derive` and `expand_keys`: both shared secrets, salted with both nonces. */
  function Derive(c: Suite, me: Scalar, theirDid: Point, myEph: Scalar, theirEph: Point,
                  nonceI: seq<u8>, nonceR: seq<u8>): Keys
  {
    Split(c.hkdf(nonceI + nonceR, c.dh(me, theirDid) + c.dh(myEph, theirEph)))
  }

  /** Both sides derive the same keys from each other's public halves. */
  lemma DeriveAgrees(c: Suite, i: Scalar, r: Scalar, ephI: Scalar, ephR: Scalar, nonceI: seq<u8>, nonceR: seq<u8>)
    requires Lawful(c)
    ensures Derive(c, i, c.public(r), ephI, c.public(ephR), nonceI, nonceR)
         == Derive(c, r, c.public(i), ephR, c.public(ephI), nonceI, nonceR)
  {
  }

  /**
   What enters the derivation, and where each key comes out. The salt is the
   initiator's nonce and then the responder's; the key material is the secret
   of the two device keys and then that of the two ephemeral keys.
   */
  lemma KeySchedule(c: Suite, me: Scalar, theirDid: Point, myEph: Scalar, theirEph: Point,
                    nonceI: Nonce, nonceR: Nonce, salt: seq<u8>, ikm: seq<u8>)
    requires |salt| == 32 && salt[..16] == nonceI && salt[16..] == nonceR
    requires |ikm| == 64 && ikm[..32] == c.dh(me, theirDid) && ikm[32..] == c.dh(myEph, theirEph)
    ensures var keys, okm := Derive(c, me, theirDid, myEph, theirEph, nonceI, nonceR), c.hkdf(salt, ikm);
      && keys.i2r == okm[..32] && keys.r2i == okm[32..64] && keys.confirm == okm[64..96]
      && keys.id == BigEndian(okm[96..])
  {
    assert salt == salt[..16] + salt[16..] && ikm == ikm[..32] + ikm[32..];
    Be16Spells(0, c.hkdf(salt, ikm)[96..]);
  }

  lemma SplitTranscript(a: seq<u8>, b: seq<u8>, a2: seq<u8>, b2: seq<u8>)
    requires |a| == |a2| && a + b == a2 + b2
    ensures a == a2 && b == b2
  {
    assert a == (a + b)[..|a|] && b == (a + b)[|a|..];
    assert a2 == (a2 + b2)[..|a|] && b2 == (a2 + b2)[|a|..];
  }

  /**
   So equal keys mean equal secrets, both of them, and equal nonces, unless
   the derivation collides on the two inputs at hand.
   */
  lemma KeysTellSecretsApart(c: Suite, me1: Scalar, did1: Point, eph1: Scalar, their1: Point, i1: Nonce, r1: Nonce,
                             me2: Scalar, did2: Point, eph2: Scalar, their2: Point, i2: Nonce, r2: Nonce)
    requires Derive(c, me1, did1, eph1, their1, i1, r1) == Derive(c, me2, did2, eph2, their2, i2, r2)
    requires var (s1, k1) := (i1 + r1, c.dh(me1, did1) + c.dh(eph1, their1));
      var (s2, k2) := (i2 + r2, c.dh(me2, did2) + c.dh(eph2, their2));
      c.hkdf(s1, k1) == c.hkdf(s2, k2) ==> s1 == s2 && k1 == k2
    ensures c.dh(me1, did1) == c.dh(me2, did2) && c.dh(eph1, their1) == c.dh(eph2, their2)
    ensures i1 == i2 && r1 == r2
  {
    var (s1, k1) := (i1 + r1, c.dh(me1, did1) + c.dh(eph1, their1));
    var (s2, k2) := (i2 + r2, c.dh(me2, did2) + c.dh(eph2, their2));
    SplitIsInjective(c.hkdf(s1, k1), c.hkdf(s2, k2));
    SplitTranscript(i1, r1, i2, r2);
    SplitTranscript(c.dh(me1, did1), c.dh(eph1, their1), c.dh(me2, did2), c.dh(eph2, their2));
  }

  lemma SplitIsInjective(a: Okm, b: Okm)
    requires Split(a) == Split(b)
    ensures a == b
  {
    Be16OfBytes(a[96..]);
    Be16OfBytes(b[96..]);
    assert a == a[..32] + a[32..64] + a[64..96] + a[96..];
    assert b == b[..32] + b[32..64] + b[64..96] + b[96..];
  }

  // ---------------------------------------------------------------------
  // Messages
  // ---------------------------------------------------------------------

  /** The 84 bytes `Hello` and the unauthenticated part of `Accept` share. */
  function Opening(kind: u8, did: Pubkey, eph: Pubkey, nonce: Nonce): (m: seq<u8>)
    ensures |m| == HELLO_LEN
  {
    [VERSION, kind] + did + eph + nonce
  }

  function DidOf(m: seq<u8>): Pubkey
    requires |m| >= HELLO_LEN
  {
    m[2..35]
  }

  function EphOf(m: seq<u8>): Pubkey
    requires |m| >= HELLO_LEN
  {
    m[35..68]
  }

  function NonceOf(m: seq<u8>): Nonce
    requires |m| >= HELLO_LEN
  {
    m[68..84]
  }

  lemma OpeningParts(kind: u8, did: Pubkey, eph: Pubkey, nonce: Nonce)
    ensures var m := Opening(kind, did, eph, nonce);
      m[0] == VERSION && m[1] == kind && DidOf(m) == did && EphOf(m) == eph && NonceOf(m) == nonce
  {
  }

  lemma PartsOfPrefix(m: seq<u8>)
    requires |m| >= HELLO_LEN
    ensures var p := m[..HELLO_LEN];
      p[0] == m[0] && p[1] == m[1] && DidOf(p) == DidOf(m) && EphOf(p) == EphOf(m) && NonceOf(p) == NonceOf(m)
  {
  }

  // ---------------------------------------------------------------------
  // The four steps
  // ---------------------------------------------------------------------

  /** The initiator between `Hello` and `Accept`. */
  datatype Handshake = Handshake(eph: Scalar, hello: seq<u8>)

  /** The responder between `Accept` and `Confirm`. */
  datatype Pending = Pending(session: State, confirmKey: Key, transcript: seq<u8>)

  function Hello(c: Suite, me: Scalar, eph: Scalar, nonce: Nonce): (hello: seq<u8>)
    ensures |hello| == HELLO_LEN
  {
    Opening(KIND_HELLO, Did(c, me), c.compress(c.public(eph)), nonce)
  }

  /** `initiate`, for whatever the entropy source delivers. */
  function InitiateSpec(c: Suite, me: Scalar, eph: LinkSession.Result<Scalar>, nonce: LinkSession.Result<Nonce>)
    : LinkSession.Result<(Handshake, seq<u8>)>
  {
    if eph.Err? then Err(eph.error)
    else if nonce.Err? then Err(nonce.error)
    else
      var hello := Hello(c, me, eph.value, nonce.value);
      Ok((Handshake(eph.value, hello), hello))
  }

  function AcceptHead(c: Suite, me: Scalar, eph: Scalar, nonce: Nonce): (head: seq<u8>)
    ensures |head| == HELLO_LEN
  {
    Opening(KIND_ACCEPT, Did(c, me), c.compress(c.public(eph)), nonce)
  }

  function RespondSpec(c: Suite, me: Scalar, eph: LinkSession.Result<Scalar>, nonce: LinkSession.Result<Nonce>,
                   hello: seq<u8>, allow: Pubkey -> bool, now: u64, lifetime: u64): LinkSession.Result<(Pending, seq<u8>)>
  {
    if |hello| != HELLO_LEN || hello[0] != VERSION || hello[1] != KIND_HELLO then Err(InvalidFormat)
    else if c.decompress(DidOf(hello)).None? then Err(Crypto)
    else if !allow(DidOf(hello)) then Err(Denied)
    else if c.decompress(EphOf(hello)).None? then Err(Crypto)
    else if eph.Err? then Err(eph.error)
    else if nonce.Err? then Err(nonce.error)
    else
      var head := AcceptHead(c, me, eph.value, nonce.value);
      var keys := Derive(c, me, c.decompress(DidOf(hello)).value, eph.value, c.decompress(EphOf(hello)).value,
                         NonceOf(hello), nonce.value);
      var transcript := hello + head;
      var session := NewState(keys.id, DidOf(hello), keys.r2i, keys.i2r, now, lifetime);
      Ok((Pending(session, keys.confirm, transcript),
          head + Tag(c.compression, keys.confirm, ACCEPT_LABEL + transcript)))
  }

  function FinishSpec(c: Suite, hs: Handshake, me: Scalar, accept: seq<u8>, allow: Pubkey -> bool,
                  now: u64, lifetime: u64): LinkSession.Result<(State, seq<u8>)>
    requires |hs.hello| == HELLO_LEN
  {
    if |accept| != ACCEPT_LEN || accept[0] != VERSION || accept[1] != KIND_ACCEPT then Err(InvalidFormat)
    else if c.decompress(DidOf(accept)).None? then Err(Crypto)
    else if !allow(DidOf(accept)) then Err(Denied)
    else if c.decompress(EphOf(accept)).None? then Err(Crypto)
    else
      var keys := Derive(c, me, c.decompress(DidOf(accept)).value, hs.eph, c.decompress(EphOf(accept)).value,
                         NonceOf(hs.hello), NonceOf(accept));
      var transcript := hs.hello + accept[..HELLO_LEN];
      if accept[HELLO_LEN..] != Tag(c.compression, keys.confirm, ACCEPT_LABEL + transcript) then Err(Crypto)
      else
        Ok((NewState(keys.id, DidOf(accept), keys.i2r, keys.r2i, now, lifetime),
            [VERSION, KIND_CONFIRM] + Tag(c.compression, keys.confirm, CONFIRM_LABEL + transcript)))
  }

  function ConfirmSpec(c: Suite, pending: Pending, confirm: seq<u8>): LinkSession.Result<State> {
    if |confirm| != CONFIRM_LEN || confirm[0] != VERSION || confirm[1] != KIND_CONFIRM then Err(InvalidFormat)
    else if confirm[2..] != Tag(c.compression, pending.confirmKey, CONFIRM_LABEL + pending.transcript) then Err(Crypto)
    else Ok(pending.session)
  }

  // ---------------------------------------------------------------------
  // What each step takes and sends, byte by byte
  // ---------------------------------------------------------------------

  /** The Hello on the wire. */
  lemma HelloLayout(c: Suite, me: Scalar, eph: Scalar, nonce: Nonce)
    ensures var started := InitiateSpec(c, me, Ok(eph), Ok(nonce));
      && started.Ok? && started.value.0 == Handshake(eph, started.value.1)
      && var b := started.value.1;
      && |b| == 84 && b[0] == 1 && b[1] == 1
      && b[2..35] == c.compress(c.public(me)) && b[35..68] == c.compress(c.public(eph)) && b[68..] == nonce
  {
    OpeningParts(KIND_HELLO, Did(c, me), c.compress(c.public(eph)), nonce);
  }

  /**
   A responder answers exactly a Hello of the right length, version and kind
   whose two keys decode and whose DID it allows; a DID it does not allow is
   denied whatever else the message holds.
   */
  lemma RespondsIff(c: Suite, me: Scalar, eph: Scalar, nonce: Nonce, hello: seq<u8>, allow: Pubkey -> bool,
                    now: u64, lifetime: u64)
    ensures var r := RespondSpec(c, me, Ok(eph), Ok(nonce), hello, allow, now, lifetime);
      var formed := |hello| == 84 && hello[0] == 1 && hello[1] == 1;
      && (r.Ok? <==>
            && formed && c.decompress(hello[2..35]).Some? && allow(hello[2..35])
            && c.decompress(hello[35..68]).Some?)
      && (r == Err(InvalidFormat) <==> !formed)
      && (r == Err(Denied) <==> formed && c.decompress(hello[2..35]).Some? && !allow(hello[2..35]))
      && (r.Err? ==> r.error in {InvalidFormat, Denied, Crypto})
  {
  }

  /** The keys a responder derives from the Hello it was handed. */
  function ResponderDerives(c: Suite, me: Scalar, eph: Scalar, nonce: Nonce, hello: seq<u8>): Keys
    requires |hello| == HELLO_LEN
    requires c.decompress(DidOf(hello)).Some? && c.decompress(EphOf(hello)).Some?
  {
    Derive(c, me, c.decompress(DidOf(hello)).value, eph, c.decompress(EphOf(hello)).value, NonceOf(hello), nonce)
  }

  /** When entropy fails no message leaves, and the caller is told why: of the ephemeral key first. */
  lemma EntropyFails(c: Suite, me: Scalar, eph: LinkSession.Result<Scalar>, nonce: LinkSession.Result<Nonce>,
                     hello: seq<u8>, allow: Pubkey -> bool, now: u64, lifetime: u64)
    requires eph.Err? || nonce.Err?
    ensures var error := if eph.Err? then eph.error else nonce.error;
      && InitiateSpec(c, me, eph, nonce) == Err(error)
      && RespondSpec(c, me, eph, nonce, hello, allow, now, lifetime).Err?
      && (|hello| == 84 && hello[0] == 1 && hello[1] == 1 && c.decompress(hello[2..35]).Some? && allow(hello[2..35])
          && c.decompress(hello[35..68]).Some? ==>
            RespondSpec(c, me, eph, nonce, hello, allow, now, lifetime) == Err(error))
  {
  }

  /** What the responder holds after answering a `Hello`, read off its own transcript. */
  lemma ResponderKeys(c: Suite, me: Scalar, eph: Scalar, nonce: Nonce, hello: seq<u8>, allow: Pubkey -> bool,
                      now: u64, lifetime: u64)
    requires RespondSpec(c, me, Ok(eph), Ok(nonce), hello, allow, now, lifetime).Ok?
    ensures var (pending, accept) := RespondSpec(c, me, Ok(eph), Ok(nonce), hello, allow, now, lifetime).value;
      && |hello| == HELLO_LEN && |accept| == ACCEPT_LEN
      && pending.transcript == hello + accept[..HELLO_LEN]
      && accept[0] == VERSION && accept[1] == KIND_ACCEPT
      && DidOf(accept) == Did(c, me) && EphOf(accept) == c.compress(c.public(eph)) && NonceOf(accept) == nonce
      && accept[HELLO_LEN..] == Tag(c.compression, pending.confirmKey, ACCEPT_LABEL + pending.transcript)
  {
    var (pending, accept) := RespondSpec(c, me, Ok(eph), Ok(nonce), hello, allow, now, lifetime).value;
    var head := AcceptHead(c, me, eph, nonce);
    OpeningParts(KIND_ACCEPT, Did(c, me), c.compress(c.public(eph)), nonce);
    assert accept[..HELLO_LEN] == head;
    PartsOfPrefix(accept);
  }

  /** The Accept on the wire: its tag is over both messages, under the derived confirmation key. */
  lemma AcceptLayout(c: Suite, me: Scalar, eph: Scalar, nonce: Nonce, hello: seq<u8>, allow: Pubkey -> bool,
                     now: u64, lifetime: u64)
    requires RespondSpec(c, me, Ok(eph), Ok(nonce), hello, allow, now, lifetime).Ok?
    ensures var b := RespondSpec(c, me, Ok(eph), Ok(nonce), hello, allow, now, lifetime).value.1;
      var key := ResponderDerives(c, me, eph, nonce, hello).confirm;
      && |b| == 100 && b[0] == 1 && b[1] == 2
      && b[2..35] == c.compress(c.public(me)) && b[35..68] == c.compress(c.public(eph)) && b[68..84] == nonce
      && b[84..] == Hmac(c.compression, key, [0x61, 0x63, 0x63, 0x65, 0x70, 0x74] + (hello + b[..84]))[..16]
  {
    ResponderKeys(c, me, eph, nonce, hello, allow, now, lifetime);
  }

  /** What the responder keeps: it sends under the second key, receives under the first, and names the sender. */
  lemma ResponderHolds(c: Suite, me: Scalar, eph: Scalar, nonce: Nonce, hello: seq<u8>, allow: Pubkey -> bool,
                       now: u64, lifetime: u64)
    requires RespondSpec(c, me, Ok(eph), Ok(nonce), hello, allow, now, lifetime).Ok?
    ensures var (pending, b) := RespondSpec(c, me, Ok(eph), Ok(nonce), hello, allow, now, lifetime).value;
      var keys := ResponderDerives(c, me, eph, nonce, hello);
      && pending.transcript == hello + b[..84] && pending.confirmKey == keys.confirm
      && pending.session.sendKey == keys.r2i && pending.session.recvKey == keys.i2r
      && pending.session.id == keys.id && pending.session.peer == hello[2..35]
  {
    ResponderKeys(c, me, eph, nonce, hello, allow, now, lifetime);
  }

  /** The keys an initiator derives from the `Accept` it was handed. */
  function InitiatorKeys(c: Suite, hs: Handshake, me: Scalar, accept: seq<u8>): Keys
    requires |hs.hello| == HELLO_LEN && |accept| == ACCEPT_LEN
    requires c.decompress(DidOf(accept)).Some? && c.decompress(EphOf(accept)).Some?
  {
    Derive(c, me, c.decompress(DidOf(accept)).value, hs.eph, c.decompress(EphOf(accept)).value,
           NonceOf(hs.hello), NonceOf(accept))
  }

  predicate AcceptFormed(accept: seq<u8>) {
    |accept| == 100 && accept[0] == 1 && accept[1] == 2
  }

  /** Both keys decode, the DID is allowed, and the tag is right under the key derived from them. */
  predicate AcceptGood(c: Suite, hs: Handshake, me: Scalar, accept: seq<u8>, allow: Pubkey -> bool)
    requires |hs.hello| == HELLO_LEN && AcceptFormed(accept)
  {
    && c.decompress(accept[2..35]).Some? && allow(accept[2..35]) && c.decompress(accept[35..68]).Some?
    && var key := InitiatorKeys(c, hs, me, accept).confirm;
       accept[84..] == Hmac(c.compression, key, [0x61, 0x63, 0x63, 0x65, 0x70, 0x74] + (hs.hello + accept[..84]))[..16]
  }

  /**
   An initiator finishes exactly on a well-formed Accept with all of that; a
   DID it does not allow is denied, whatever the tag.
   */
  lemma FinishesIff(c: Suite, hs: Handshake, me: Scalar, accept: seq<u8>, allow: Pubkey -> bool, now: u64, lifetime: u64)
    requires |hs.hello| == HELLO_LEN
    ensures var r := FinishSpec(c, hs, me, accept, allow, now, lifetime);
      && (r.Ok? <==> AcceptFormed(accept) && AcceptGood(c, hs, me, accept, allow))
      && (r == Err(InvalidFormat) <==> !AcceptFormed(accept))
      && (r == Err(Denied) <==>
            AcceptFormed(accept) && c.decompress(accept[2..35]).Some? && !allow(accept[2..35]))
      && (r.Err? ==> r.error in {InvalidFormat, Denied, Crypto})
  {
  }

  /** The Confirm on the wire, and the session beside it. */
  lemma ConfirmLayout(c: Suite, hs: Handshake, me: Scalar, accept: seq<u8>, allow: Pubkey -> bool,
                      now: u64, lifetime: u64)
    requires |hs.hello| == HELLO_LEN && FinishSpec(c, hs, me, accept, allow, now, lifetime).Ok?
    ensures var (session, b) := FinishSpec(c, hs, me, accept, allow, now, lifetime).value;
      var keys := InitiatorKeys(c, hs, me, accept);
      && |b| == 18 && b[0] == 1 && b[1] == 3
      && b[2..] == Hmac(c.compression, keys.confirm,
                        [0x63, 0x6f, 0x6e, 0x66, 0x69, 0x72, 0x6d] + (hs.hello + accept[..84]))[..16]
      && session.sendKey == keys.i2r && session.recvKey == keys.r2i
      && session.id == keys.id && session.peer == accept[2..35]
  {
  }

  /** The responder opens the session exactly for that. */
  lemma ConfirmsIff(c: Suite, pending: Pending, confirm: seq<u8>)
    ensures var r := ConfirmSpec(c, pending, confirm);
      var formed := |confirm| == 18 && confirm[0] == 1 && confirm[1] == 3;
      var signed := [0x63, 0x6f, 0x6e, 0x66, 0x69, 0x72, 0x6d] + pending.transcript;
      && (r.Ok? <==> formed && confirm[2..] == Hmac(c.compression, pending.confirmKey, signed)[..16])
      && (r == Err(InvalidFormat) <==> !formed)
      && (r.Err? ==> r.error in {InvalidFormat, Crypto})
      && (r.Ok? ==> r.value == pending.session)
  {
  }

  /** Two tagged messages do not collide: under whatever keys, one tag means one message. */
  predicate NoCollision(c: Suite, key1: Key, msg1: seq<u8>, key2: Key, msg2: seq<u8>) {
    Tag(c.compression, key1, msg1) == Tag(c.compression, key2, msg2) ==> msg1 == msg2
  }

  /** An Accept's tag never does for a Confirm: the two tagged messages always differ. */
  lemma AcceptTagIsNoConfirm(c: Suite, key1: Key, transcript1: seq<u8>, key2: Key, transcript2: seq<u8>)
    requires NoCollision(c, key1, ACCEPT_LABEL + transcript1, key2, CONFIRM_LABEL + transcript2)
    ensures Tag(c.compression, key1, ACCEPT_LABEL + transcript1) != Tag(c.compression, key2, CONFIRM_LABEL + transcript2)
  {
    assert (ACCEPT_LABEL + transcript1)[0] == 0x61 && (CONFIRM_LABEL + transcript2)[0] == 0x63;
  }

  // ---------------------------------------------------------------------
  // Agreement
  // ---------------------------------------------------------------------

  /**
   Two sides holding the same transcript hold the same confirmation key and
   mirrored sessions with each other: no assumption on what the network did.
   */
  lemma SameTranscriptMirrors(c: Suite, i: Scalar, r: Scalar, ephI: Scalar, ephR: Scalar, nonceI: Nonce, nonceR: Nonce,
                              hello: seq<u8>, accept: seq<u8>)
    requires Lawful(c)
    requires hello == Hello(c, i, ephI, nonceI)
    requires |accept| >= HELLO_LEN && accept[..HELLO_LEN] == AcceptHead(c, r, ephR, nonceR)
    ensures c.decompress(DidOf(hello)) == Some(c.public(i)) && c.decompress(EphOf(hello)) == Some(c.public(ephI))
    ensures c.decompress(DidOf(accept)) == Some(c.public(r)) && c.decompress(EphOf(accept)) == Some(c.public(ephR))
    ensures DidOf(hello) == Did(c, i) && DidOf(accept) == Did(c, r)
    ensures Derive(c, i, c.public(r), ephI, c.public(ephR), NonceOf(hello), NonceOf(accept))
         == Derive(c, r, c.public(i), ephR, c.public(ephI), NonceOf(hello), nonceR)
  {
    OpeningParts(KIND_HELLO, Did(c, i), c.compress(c.public(ephI)), nonceI);
    OpeningParts(KIND_ACCEPT, Did(c, r), c.compress(c.public(ephR)), nonceR);
    PartsOfPrefix(accept);
    DeriveAgrees(c, i, r, ephI, ephR, nonceI, nonceR);
  }

  /**
   What two sides that hold one transcript have: mirrored sessions that name
   each other as peer, and a `Confirm` from the initiator that the responder takes.
   */
  ghost predicate Agreed(c: Suite, i: Scalar, r: Scalar, pending: Pending, si: State, confirm: seq<u8>) {
    && ConfirmSpec(c, pending, confirm) == Ok(pending.session)
    && Mirrored(si, pending.session)
    && si.peer == Did(c, r) && pending.session.peer == Did(c, i)
  }

  lemma OneTranscriptAgrees(c: Suite, i: Scalar, r: Scalar, ephI: Scalar, ephR: Scalar, nonceI: Nonce, nonceR: Nonce,
                            helloSeen: seq<u8>, acceptSeen: seq<u8>, allowR: Pubkey -> bool, allowI: Pubkey -> bool,
                            t: u64, u: u64, lifeR: u64, lifeI: u64)
    requires Lawful(c)
    requires RespondSpec(c, r, Ok(ephR), Ok(nonceR), helloSeen, allowR, t, lifeR).Ok?
    requires FinishSpec(c, Handshake(ephI, Hello(c, i, ephI, nonceI)), i, acceptSeen, allowI, u, lifeI).Ok?
    requires RespondSpec(c, r, Ok(ephR), Ok(nonceR), helloSeen, allowR, t, lifeR).value.0.transcript
          == Hello(c, i, ephI, nonceI) + acceptSeen[..HELLO_LEN]
    ensures var (pending, _) := RespondSpec(c, r, Ok(ephR), Ok(nonceR), helloSeen, allowR, t, lifeR).value;
      var (si, confirm) :=
        FinishSpec(c, Handshake(ephI, Hello(c, i, ephI, nonceI)), i, acceptSeen, allowI, u, lifeI).value;
      Agreed(c, i, r, pending, si, confirm)
  {
    SplitTranscript(helloSeen, AcceptHead(c, r, ephR, nonceR), Hello(c, i, ephI, nonceI), acceptSeen[..HELLO_LEN]);
    SameTranscriptMirrors(c, i, r, ephI, ephR, nonceI, nonceR, helloSeen, acceptSeen);
    ResponderKeys(c, r, ephR, nonceR, helloSeen, allowR, t, lifeR);
  }

  /**
   Key confirmation, the initiator's side. Whatever else the network altered
   in either message: if the `Accept` the initiator took carries the tag the
   responder sent, and the two tagged messages do not collide, then both
   sides hold one transcript and agree.
   */
  lemma AcceptTagAgrees(c: Suite, i: Scalar, r: Scalar, ephI: Scalar, ephR: Scalar, nonceI: Nonce, nonceR: Nonce,
                        helloSeen: seq<u8>, acceptSeen: seq<u8>, allowR: Pubkey -> bool, allowI: Pubkey -> bool,
                        t: u64, u: u64, lifeR: u64, lifeI: u64)
    requires Lawful(c)
    requires RespondSpec(c, r, Ok(ephR), Ok(nonceR), helloSeen, allowR, t, lifeR).Ok?
    requires FinishSpec(c, Handshake(ephI, Hello(c, i, ephI, nonceI)), i, acceptSeen, allowI, u, lifeI).Ok?
    requires var (pending, accept) := RespondSpec(c, r, Ok(ephR), Ok(nonceR), helloSeen, allowR, t, lifeR).value;
      var hs := Handshake(ephI, Hello(c, i, ephI, nonceI));
      && acceptSeen[HELLO_LEN..] == accept[HELLO_LEN..]
      && NoCollision(c, InitiatorKeys(c, hs, i, acceptSeen).confirm,
                     ACCEPT_LABEL + (hs.hello + acceptSeen[..HELLO_LEN]),
                     pending.confirmKey, ACCEPT_LABEL + pending.transcript)
    ensures var (pending, accept) := RespondSpec(c, r, Ok(ephR), Ok(nonceR), helloSeen, allowR, t, lifeR).value;
      var hs := Handshake(ephI, Hello(c, i, ephI, nonceI));
      var (si, confirm) := FinishSpec(c, hs, i, acceptSeen, allowI, u, lifeI).value;
      && helloSeen == hs.hello && acceptSeen == accept
      && Agreed(c, i, r, pending, si, confirm)
  {
    var (pending, accept) := RespondSpec(c, r, Ok(ephR), Ok(nonceR), helloSeen, allowR, t, lifeR).value;
    var hello := Hello(c, i, ephI, nonceI);
    ResponderKeys(c, r, ephR, nonceR, helloSeen, allowR, t, lifeR);
    SameTail(ACCEPT_LABEL, hello + acceptSeen[..HELLO_LEN], pending.transcript);
    SplitTranscript(hello, acceptSeen[..HELLO_LEN], helloSeen, accept[..HELLO_LEN]);
    assert acceptSeen == acceptSeen[..HELLO_LEN] + acceptSeen[HELLO_LEN..];
    assert accept == accept[..HELLO_LEN] + accept[HELLO_LEN..];
    OneTranscriptAgrees(c, i, r, ephI, ephR, nonceI, nonceR, helloSeen, acceptSeen, allowR, allowI, t, u, lifeR, lifeI);
  }

  /**
   The responder's side. If the `Confirm` it took carries the tag the
   initiator sent, and those two tagged messages do not collide, then both
   sides hold one transcript and agree.
   */
  lemma ConfirmTagAgrees(c: Suite, i: Scalar, r: Scalar, ephI: Scalar, ephR: Scalar, nonceI: Nonce, nonceR: Nonce,
                         helloSeen: seq<u8>, acceptSeen: seq<u8>, confirmSeen: seq<u8>,
                         allowR: Pubkey -> bool, allowI: Pubkey -> bool, t: u64, u: u64, lifeR: u64, lifeI: u64)
    requires Lawful(c)
    requires RespondSpec(c, r, Ok(ephR), Ok(nonceR), helloSeen, allowR, t, lifeR).Ok?
    requires FinishSpec(c, Handshake(ephI, Hello(c, i, ephI, nonceI)), i, acceptSeen, allowI, u, lifeI).Ok?
    requires var (pending, _) := RespondSpec(c, r, Ok(ephR), Ok(nonceR), helloSeen, allowR, t, lifeR).value;
      var hs := Handshake(ephI, Hello(c, i, ephI, nonceI));
      var (_, confirm) := FinishSpec(c, hs, i, acceptSeen, allowI, u, lifeI).value;
      && ConfirmSpec(c, pending, confirmSeen).Ok? && confirmSeen[2..] == confirm[2..]
      && NoCollision(c, InitiatorKeys(c, hs, i, acceptSeen).confirm,
                     CONFIRM_LABEL + (hs.hello + acceptSeen[..HELLO_LEN]),
                     pending.confirmKey, CONFIRM_LABEL + pending.transcript)
    ensures var (pending, _) := RespondSpec(c, r, Ok(ephR), Ok(nonceR), helloSeen, allowR, t, lifeR).value;
      var hs := Handshake(ephI, Hello(c, i, ephI, nonceI));
      var (si, confirm) := FinishSpec(c, hs, i, acceptSeen, allowI, u, lifeI).value;
      && helloSeen == hs.hello && confirmSeen == confirm
      && Agreed(c, i, r, pending, si, confirm)
  {
    var (pending, accept) := RespondSpec(c, r, Ok(ephR), Ok(nonceR), helloSeen, allowR, t, lifeR).value;
    var hs := Handshake(ephI, Hello(c, i, ephI, nonceI));
    var confirm := FinishSpec(c, hs, i, acceptSeen, allowI, u, lifeI).value.1;
    ResponderKeys(c, r, ephR, nonceR, helloSeen, allowR, t, lifeR);
    SameTail(CONFIRM_LABEL, hs.hello + acceptSeen[..HELLO_LEN], pending.transcript);
    SplitTranscript(hs.hello, acceptSeen[..HELLO_LEN], helloSeen, accept[..HELLO_LEN]);
    assert confirmSeen == [VERSION, KIND_CONFIRM] + confirmSeen[2..];
    assert confirm == [VERSION, KIND_CONFIRM] + confirm[2..];
    OneTranscriptAgrees(c, i, r, ephI, ephR, nonceI, nonceR, helloSeen, acceptSeen, allowR, allowI, t, u, lifeR, lifeI);
  }

  lemma SameTail(front: seq<u8>, a: seq<u8>, b: seq<u8>)
    ensures front + a == front + b ==> a == b
  {
    if front + a == front + b {
      SplitTranscript(front, a, front, b);
    }
  }

  /**
   The handshake's promise: three unaltered messages between two devices that
   allow each other leave two sessions whose numbers, keys and peers cross,
   from which every run over an unforging network is safe.
   */
  lemma HonestHandshake(c: Suite, i: Scalar, r: Scalar, ephI: Scalar, ephR: Scalar, nonceI: Nonce, nonceR: Nonce,
                        allowR: Pubkey -> bool, allowI: Pubkey -> bool, t: u64, u: u64, lifeR: u64, lifeI: u64)
    requires Lawful(c)
    requires allowR(Did(c, i)) && allowI(Did(c, r))
    ensures InitiateSpec(c, i, Ok(ephI), Ok(nonceI)).Ok?
    ensures var (hs, hello) := InitiateSpec(c, i, Ok(ephI), Ok(nonceI)).value;
      var responded := RespondSpec(c, r, Ok(ephR), Ok(nonceR), hello, allowR, t, lifeR);
      && responded.Ok?
      && var finished := FinishSpec(c, hs, i, responded.value.1, allowI, u, lifeI);
      && finished.Ok?
      && var confirmed := ConfirmSpec(c, responded.value.0, finished.value.1);
      && confirmed.Ok?
      && var (si, sr) := (finished.value.0, confirmed.value);
      && si.peer == Did(c, r) && sr.peer == Did(c, i)
      && (si.established, si.lifetime) == (u, lifeI) && (sr.established, sr.lifetime) == (t, lifeR)
      && Mirrored(si, sr)
      && NextNumber(si) == NextNumber(sr) == 0 && si.accepted == sr.accepted == {}
      && Safe(c.compression, World(End(si, [], []), End(sr, [], [])))
  {
    var hello := Hello(c, i, ephI, nonceI);
    OpeningParts(KIND_HELLO, Did(c, i), c.compress(c.public(ephI)), nonceI);
    var responded := RespondSpec(c, r, Ok(ephR), Ok(nonceR), hello, allowR, t, lifeR);
    ResponderKeys(c, r, ephR, nonceR, hello, allowR, t, lifeR);
    var accept := responded.value.1;
    SameTranscriptMirrors(c, i, r, ephI, ephR, nonceI, nonceR, hello, accept);
    OneTranscriptAgrees(c, i, r, ephI, ephR, nonceI, nonceR, hello, accept, allowR, allowI, t, u, lifeR, lifeI);
    var si := FinishSpec(c, Handshake(ephI, hello), i, accept, allowI, u, lifeI).value.0;
    NewSessionsAreSafe(c.compression, si, responded.value.0.session);
  }

  /** After it, the first frame each side seals is opened by the other. */
  lemma FirstFramesOpen(f: Compression, si: State, sr: State, payload: seq<u8>, room: nat)
    requires Mirrored(si, sr) && !si.exhausted && !sr.exhausted && si.sendSeq == sr.sendSeq == 0
    requires si.accepted == sr.accepted == {}
    requires |payload| <= MAX_PAYLOAD && room >= HEADER_LEN + |payload| + TAG_LEN
    ensures Seal(f, si, payload, room).1.Ok? && Open(f, sr, Seal(f, si, payload, room).1.value).1 == Ok(payload)
    ensures Seal(f, sr, payload, room).1.Ok? && Open(f, si, Seal(f, sr, payload, room).1.value).1 == Ok(payload)
  {
    SealedFrameOpens(f, si, sr, payload, room);
    SealedFrameOpens(f, sr, si, payload, room);
  }

  // ---------------------------------------------------------------------
  // The steps as they fill their message buffers
  // ---------------------------------------------------------------------

  method FillOpening(kind: u8, did: Pubkey, eph: Pubkey, nonce: Nonce) returns (m: seq<u8>)
    ensures m == Opening(kind, did, eph, nonce)
  {
    var buf := new u8[84](_ => 0);
    buf[0], buf[1] := VERSION, kind;
    CopyInto(buf, 2, did);
    CopyInto(buf, 2 + PUBKEY_LEN, eph);
    CopyInto(buf, 2 + 2 * PUBKEY_LEN, nonce);
    m := buf[..];
  }

  method Initiate(c: Suite, me: Scalar, eph: LinkSession.Result<Scalar>, nonce: LinkSession.Result<Nonce>)
    returns (r: LinkSession.Result<(Handshake, seq<u8>)>)
    ensures r == InitiateSpec(c, me, eph, nonce)
  {
    if eph.Err? {
      return Err(eph.error);
    }
    if nonce.Err? {
      return Err(nonce.error);
    }
    var hello := FillOpening(KIND_HELLO, Did(c, me), c.compress(c.public(eph.value)), nonce.value);
    r := Ok((Handshake(eph.value, hello), hello));
  }

  /** The responder's half-open session, its session object included. */
  datatype HalfOpen = HalfOpen(session: Session, confirmKey: Key, transcript: seq<u8>)

  ghost predicate Holds(c: Suite, h: HalfOpen, p: Pending)
    reads h.session, h.session.window
  {
    && h.session.Valid(c.compression)
    && p == Pending(h.session.Abstract(), h.confirmKey, h.transcript)
  }

  method Respond(c: Suite, me: Scalar, eph: LinkSession.Result<Scalar>, nonce: LinkSession.Result<Nonce>,
                 hello: seq<u8>, allow: Pubkey -> bool, now: u64, lifetime: u64)
    returns (r: LinkSession.Result<(HalfOpen, seq<u8>)>)
    ensures var spec := RespondSpec(c, me, eph, nonce, hello, allow, now, lifetime);
      match spec
      case Err(error) => r == Err(error)
      case Ok((pending, accept)) =>
        && r.Ok? && Holds(c, r.value.0, pending) && r.value.1 == accept
        && fresh(r.value.0.session) && fresh(r.value.0.session.window)
  {
    if |hello| != HELLO_LEN || hello[0] != VERSION || hello[1] != KIND_HELLO {
      return Err(InvalidFormat);
    }
    var theirs := c.decompress(DidOf(hello));
    if theirs.None? {
      return Err(Crypto);
    }
    if !allow(DidOf(hello)) {
      return Err(Denied);
    }
    var theirEph := c.decompress(EphOf(hello));
    if theirEph.None? {
      return Err(Crypto);
    }
    if eph.Err? {
      return Err(eph.error);
    }
    if nonce.Err? {
      return Err(nonce.error);
    }
    var head := FillOpening(KIND_ACCEPT, Did(c, me), c.compress(c.public(eph.value)), nonce.value);
    var keys := Derive(c, me, theirs.value, eph.value, theirEph.value, NonceOf(hello), nonce.value);
    var transcript := hello + head;
    var tag := Tag(c.compression, keys.confirm, ACCEPT_LABEL + transcript);
    var session := new Session(c.compression, keys.id, DidOf(hello), keys.r2i, keys.i2r, now, lifetime);
    r := Ok((HalfOpen(session, keys.confirm, transcript), head + tag));
  }

  method Finish(c: Suite, hs: Handshake, me: Scalar, accept: seq<u8>, allow: Pubkey -> bool,
                now: u64, lifetime: u64)
    returns (r: LinkSession.Result<(Session, seq<u8>)>)
    requires |hs.hello| == HELLO_LEN
    ensures var spec := FinishSpec(c, hs, me, accept, allow, now, lifetime);
      match spec
      case Err(error) => r == Err(error)
      case Ok((state, confirm)) =>
        && r.Ok? && r.value.0.Valid(c.compression) && r.value.0.Abstract() == state && r.value.1 == confirm
        && fresh(r.value.0) && fresh(r.value.0.window)
  {
    if |accept| != ACCEPT_LEN || accept[0] != VERSION || accept[1] != KIND_ACCEPT {
      return Err(InvalidFormat);
    }
    var theirs := c.decompress(DidOf(accept));
    if theirs.None? {
      return Err(Crypto);
    }
    if !allow(DidOf(accept)) {
      return Err(Denied);
    }
    var theirEph := c.decompress(EphOf(accept));
    if theirEph.None? {
      return Err(Crypto);
    }
    var keys := Derive(c, me, theirs.value, hs.eph, theirEph.value, NonceOf(hs.hello), NonceOf(accept));
    var transcript := hs.hello + accept[..HELLO_LEN];
    if accept[HELLO_LEN..] != Tag(c.compression, keys.confirm, ACCEPT_LABEL + transcript) {
      return Err(Crypto);
    }
    var buf := new u8[18](_ => 0);
    buf[0], buf[1] := VERSION, KIND_CONFIRM;
    CopyInto(buf, 2, Tag(c.compression, keys.confirm, CONFIRM_LABEL + transcript));
    var confirm := buf[..];
    assert confirm == [VERSION, KIND_CONFIRM] + Tag(c.compression, keys.confirm, CONFIRM_LABEL + transcript);
    var session := new Session(c.compression, keys.id, DidOf(accept), keys.i2r, keys.r2i, now, lifetime);
    r := Ok((session, confirm));
  }

  method Confirm(c: Suite, h: HalfOpen, ghost p: Pending, confirm: seq<u8>) returns (r: LinkSession.Result<Session>)
    requires Holds(c, h, p)
    ensures match ConfirmSpec(c, p, confirm)
      case Err(error) => r == Err(error)
      case Ok(state) => r == Ok(h.session) && h.session.Abstract() == state
  {
    if |confirm| != CONFIRM_LEN || confirm[0] != VERSION || confirm[1] != KIND_CONFIRM {
      return Err(InvalidFormat);
    }
    if confirm[2..] != Tag(c.compression, h.confirmKey, CONFIRM_LABEL + h.transcript) {
      return Err(Crypto);
    }
    r := Ok(h.session);
  }
}
