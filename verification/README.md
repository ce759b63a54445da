# rusty_esp_signal: the stateful core, proved

A Dafny model of the radio-free heart of the repository. Each component there is
a fast or fixed-size form of something simple; here the simple form is a
specification on sequences and sets, the fast form is a class or a loop over
arrays in the source's own widths, and the two are proved to agree. The laws are
then proved about the specification, over every input or every run.

| module | what it models |
|---|---|
| `LinkHmac` | HMAC-SHA256 resumed from two midstates, on a pluggable block engine, against RFC 2104 and FIPS 180-4 |
| `Replay` | the 64-bit anti-replay bitmap, against the set of every number accepted |
| `LinkSession` | data frames, sealing and opening, and two sessions over a lossy, repeating, reordering network |
| `LinkHandshake` | the three-message handshake and the sessions it leaves |
| `IntSqrt`, `WanderStats`, `Presence` | the digit-by-digit root, the fixed-point statistics, and the detector that carries sums over a ring of frames |
| `Normalise` | one CSI frame divided by its own mean |
| `DutyBudget` | the one-hour LoRa airtime budget in a ring that merges what it has no room for |
| `RelayRing`, `Newline`, `Lines` | the relay's byte ring, word-at-a-time newline search and line assembler, each against the byte-at-a-time code it replaced |
| `ScanList` | the sorted scan list in fixed storage and its tag-length-value form |
| `StationPolicy` | the Wi-Fi reconnect and fallback policy |
| `FrameRing` | the overwriting ring of CSI frames |
| `HexCodec` | the relay's hex and decimal codec |
| `Wrappers`, `Arith`, `Bytes`, `Bits` | results, division, fixed-width integers and byte orders, bits of a number |

`dafny verify dfyconfig.toml` checks everything.

## Assumptions

- The SHA-256 compression function, the curve operations and HKDF (its context string fixed) are
  function parameters. `LinkHandshake.Lawful` is all that is asked of them: Diffie-Hellman
  commutes, and decompressing a compressed public key gives it back.
- `Did` and `DeviceKey` belong to `rusty_esp_mid`, which is not part of this model: a DID is its
  compressed public key, `Did::from_pubkey` is decompression (failing with `Crypto`), and
  `shared_secret` is Diffie-Hellman with it. The `hmac` crate computes RFC 2104; `isqrt` is the
  floor of the square root.
- Entropy is a parameter: the ephemeral key and the nonce, or the error of the draw.
- A block engine is a function of the state and the blocks.
- The network may deliver any bytes at all except a frame with a valid tag that the other end never
  sealed (`LinkSession.Unforged`): that is what HMAC is relied on for.
- Key confirmation needs one thing of the tags (`LinkHandshake.NoCollision`): the two tagged messages at
  hand, one on each side, do not share a tag unless they are the same message.
- Where the source would panic rather than run, the model has a precondition: at most 64 amplitudes,
  a window and a scan list of at least one entry, room in the buffer for `hex_into` and `decimal_into`.
- `wait_until` in the station policy is unbounded, as the clock stays far from the end of `u64`.

## What the code does that its documentation does not say

- `backoff_for` (`crates/rusty_esp_signal-core/src/wifi.rs:394-407`) is documented as
  `min_backoff * 2^(failures - 1)`, saturating, capped. With `min_backoff` zero that is always zero;
  from the 65th failure on the code returns `max_backoff`. `StationPolicy.BackoffIsDoublingIff` gives
  the exact condition and `ZeroBackoffJumps` an input.
- The comment at `crates/rusty_esp_signal-core/src/radar/csi.rs:619-622` bounds `std16` by 65535. On the
  64-bit root it can be larger; `WanderStats.Std16FitsIff` says exactly when it is not, and
  `Std16CanPassSixteenBits` gives windows of every even length up to 8192 that pass it. The arithmetic is
  exact all the same: `std16` stays within 524287. The bounds of `570-574`, 4095937 a term and
  262139968 in all, do hold, for windows of any length (`Presence.TermBound`, `Presence.TotalFits`).
- `256 * var_w2` fits `u64` for every window of frames exactly when W is at most 8192
  (`WanderStats.ScaledExactIff`), while W up to 65536 compiles. Past 8192 the model wraps, as a release
  build does.
- The comment on the ratio product at `crates/rusty_esp_signal-core/src/radar/csi.rs:253-256` relies on
  amplitudes up to 724; the product fits `u32` for every `u16` amplitude (`Normalise.ProductFits`).
- `crates/rusty_esp_signal-core/src/link.rs:33-36` and `399-400` say the tag is verified before any
  other check. The code checks structure and session id first (`541-547`), so a frame with a bad tag
  is counted as one exactly when it is addressed to the session (`LinkSession.BadTagIsCountedIff`);
  `ForeignBeforeTag` gives frames that are not. The window is still touched only after the tag.
- FIPS 180-4 defines padding for messages below 2^64 bits; the code, and `LinkHmac.Padding`, keep the
  low 64 bits of the length beyond.

## Model

| member | source | states |
|---|---|---|
| `LinkHmac.HmacWith` | crates/rusty_esp_signal-core/src/link.rs:176-207 | for every key, every message length and every engine that keeps its contract, the HMAC resumed from the two midstates is HMAC-SHA256 of RFC 2104 section 2 over the padding of FIPS 180-4 section 5.1.1 |
| `LinkHmac.MakeKeyed` | crates/rusty_esp_signal-core/src/link.rs:886-902 | filling and absorbing the two pad blocks once leaves exactly the midstates after the zero-filled key xor ipad and xor opad |
| `LinkHmac.HmacOverPads` | crates/rusty_esp_signal-core/src/link.rs:886-902 | the reference is RFC 2104 bit by bit: the two pad blocks are the zero-filled key with its bits turned over exactly where 0x36 and 0x5c have ones, inner and outer in that order |
| `LinkHmac.PadsTellKeysApart` | crates/rusty_esp_signal-core/src/link.rs:889-894 | different keys have different pad blocks, inner and outer |
| `Bits.XorBit` | crates/rusty_esp_signal-core/src/link.rs:892-893 | a bit of the exclusive or is set exactly when the two bits differ |
| `LinkHmac.IvIsSquareRoots` | crates/rusty_esp_signal-core/src/link.rs:147-158 | the initial state is the fractional parts of the square roots of the first eight primes, 32 bits each (FIPS 180-4 section 5.3.3) |
| `LinkHmac.AbsorbOne` | crates/rusty_esp_signal-core/src/link.rs:134-145 | one block is one call of the compression function; with `AbsorbAppend` that is every message |
| `LinkHmac.PaddingIs` | crates/rusty_esp_signal-core/src/link.rs:181-189 | the padding is a one bit, zeros, and eight bytes that spell the length in bits, in the fewest whole blocks |
| `LinkHmac.BytesSpellWords` | crates/rusty_esp_signal-core/src/link.rs:193-205 | the digest's bytes spell the state's words in order, most significant byte first |
| `Bytes.Be64Spells` | crates/rusty_esp_signal-core/src/link.rs:187-189 | the eight length bytes read back as the number modulo 2^64 |
| `LinkHmac.SoftCompress` | crates/rusty_esp_signal-core/src/link.rs:130-146 | the software engine absorbs every whole block, in order, between its two byte-order swaps |
| `LinkHmac.EnginesAgree` | crates/rusty_esp_signal-core/src/link.rs:84-97 | any two engines that keep the contract leave the same state after the same whole blocks, and a call on two parts is a call on both together |
| `LinkHmac.PaddedMessage` | crates/rusty_esp_signal-core/src/link.rs:180-190 | whole blocks and tail together are the message followed by the standard padding of a message 64 bytes longer, whatever the length |
| `LinkHmac.PaddedTail` | crates/rusty_esp_signal-core/src/link.rs:182-189 | the one or two tail blocks are the rest of the message and the standard padding: the 0x80, the fewest zeros, the length in bits |
| `LinkHmac.ZeroFill` | crates/rusty_esp_signal-core/src/link.rs:186 | choosing one block when nine more bytes fit and two otherwise leaves the shortest zero run the standard allows |
| `LinkHmac.OuterBlock` | crates/rusty_esp_signal-core/src/link.rs:192-198 | the outer block is the inner digest with the standard padding of 96 bytes |
| `LinkHmac.InnerState` | crates/rusty_esp_signal-core/src/link.rs:180-190 | the first engine call leaves SHA-256 of the inner pad block and the message |
| `LinkHmac.OuterHash` | crates/rusty_esp_signal-core/src/link.rs:192-206 | the second engine call leaves SHA-256 of the outer pad block and the inner digest |
| `LinkHmac.InnerDigest` | crates/rusty_esp_signal-core/src/link.rs:159-190 | resuming after the inner pad block equals hashing that block and the message from the start |
| `LinkHmac.OuterDigest` | crates/rusty_esp_signal-core/src/link.rs:192-206 | the same for the outer block |
| `LinkHmac.AbsorbAppend` | crates/rusty_esp_signal-core/src/link.rs:89-96 | absorbing whole blocks in two goes is absorbing them in one: why midstates and `compress2` are allowed |
| `LinkHmac.SwappedTwice` | crates/rusty_esp_signal-core/src/link.rs:148-158 | the two byte-order swaps at an engine's edges cancel |
| `Replay.ReplayWindow.constructor` | crates/rusty_esp_signal-core/src/link.rs:326-334 | an empty window has accepted nothing |
| `Replay.ReplayWindow.WouldAccept` | crates/rusty_esp_signal-core/src/link.rs:336-347 | true exactly when the number was never accepted and no accepted number is 64 or more above it |
| `Replay.ReplayWindow.Accept` | crates/rusty_esp_signal-core/src/link.rs:349-375 | the bitmap answers as the set of all numbers ever accepted does, `would_accept` predicted it, the set grows by exactly an accepted number, and a refusal changes nothing |
| `Replay.FreshByHighest` | crates/rusty_esp_signal-core/src/link.rs:313-317 | the rule on the set is the rule of RFC 4303 section 3.4.3: above the highest, or inside the window and not seen |
| `Replay.NeverTwice` | crates/rusty_esp_signal-core/src/link.rs:313-317 | over any run of offers no number is accepted twice |
| `Replay.VerdictByThePast` | crates/rusty_esp_signal-core/src/link.rs:336-375 | over any run each verdict is the rule on exactly the numbers accepted before it; whatever is refused was accepted before or lies 64 or more below a number that was |
| `Replay.Advance` | crates/rusty_esp_signal-core/src/link.rs:358-368 | moving the bitmap up by any distance, 64 and more included, keeps it the picture of the set |
| `Replay.Mark` | crates/rusty_esp_signal-core/src/link.rs:369-374 | setting one bit inside the window adds exactly that number |
| `Replay.ReadBit` | crates/rusty_esp_signal-core/src/link.rs:345-346 | a bit of the bitmap says whether that number was accepted |
| `Bits.ShiftLeftBit` | crates/rusty_esp_signal-core/src/link.rs:363 | where every bit of a 64-bit left shift comes from, the lost ones included |
| `LinkSession.Parse` | crates/rusty_esp_signal-core/src/link.rs:284-306 | a frame parses exactly when it holds header and tag and its version is 1 |
| `LinkSession.ParseFrame` | crates/rusty_esp_signal-core/src/link.rs:264-306 | parsing what was framed gives back id, number, payload and tag |
| `LinkSession.FrameLayout` | crates/rusty_esp_signal-core/src/link.rs:31-36 | a frame byte by byte: version 1, id, number, payload, and 16 bytes of HMAC over everything before them |
| `LinkSession.ParseReads` | crates/rusty_esp_signal-core/src/link.rs:284-306 | what parsing reads of any bytes at all, and which it refuses |
| `LinkSession.FrameInjective` | crates/rusty_esp_signal-core/src/link.rs:491-523 | two equal frames of one session carry the same number and payload |
| `LinkSession.SealStep` | crates/rusty_esp_signal-core/src/link.rs:481-523 | a seal is refused exactly for a payload too long, a buffer too short or a number space used up, and then changes nothing; otherwise it frames the payload under the next number and moves on by one |
| `LinkSession.SealRefusals` | crates/rusty_esp_signal-core/src/link.rs:481-506 | which refusal: over 227 bytes, then fewer than 23 more than the payload in the buffer, then no number left |
| `LinkSession.OpenMovesOneCounter` | crates/rusty_esp_signal-core/src/link.rs:536-562 | each open moves exactly one receive counter, by one: foreign exactly for a frame not addressed here, bad_tag for an addressed one with a bad tag, replayed for a tagged one that is not fresh, received for one delivered |
| `LinkSession.BadTagIsCountedIff` | crates/rusty_esp_signal-core/src/link.rs:399-400 | a frame with a bad tag is counted as one exactly when version, length and session id are right; otherwise it is foreign |
| `LinkSession.ForeignBeforeTag` | crates/rusty_esp_signal-core/src/link.rs:541-547 | for every session there are frames with a bad tag that are refused before the tag is looked at |
| `LinkSession.RunCountsDeliveries` | crates/rusty_esp_signal-core/src/link.rs:392-405 | over any run, forged frames included, the four receive counters together count every delivery once, modulo 2^32 |
| `LinkSession.OnlyTaggedFramesMoveTheWindow` | crates/rusty_esp_signal-core/src/link.rs:33-39 | an open succeeds exactly for an addressed frame with a valid tag and a fresh number, and only then does the window move |
| `LinkSession.GenuineFrame` | crates/rusty_esp_signal-core/src/link.rs:536-562 | a frame sealed for this session opens to its payload exactly when its number is fresh |
| `LinkSession.OnlyFramesOpen` | crates/rusty_esp_signal-core/src/link.rs:541-561 | the other way round: whatever opens is, byte for byte, the frame of a fresh number and of the payload it opened to, under this session's id and key |
| `LinkSession.SealedFrameOpens` | crates/rusty_esp_signal-core/src/link.rs:491-562 | what one end seals the mirrored end opens while the number is fresh there |
| `LinkSession.SentFrameOpensIff` | crates/rusty_esp_signal-core/src/link.rs:524-562 | in any safe world any sent frame, however late, opens to its payload exactly when its number was not delivered yet and no delivered number is 64 or more above it |
| `LinkSession.SendKeepsSealedInOrder` | crates/rusty_esp_signal-core/src/link.rs:269-270 | sealing uses the numbers 0, 1, 2 and on, once each |
| `LinkSession.DeliverKeepsFaith` | crates/rusty_esp_signal-core/src/link.rs:33-39 | any one delivery, late, repeated or corrupt, keeps what was delivered faithful to what was sealed |
| `LinkSession.StepIsSafe` | crates/rusty_esp_signal-core/src/link.rs:491-562 | every step of either side keeps the two-party invariant |
| `LinkSession.RunIsSafe` | crates/rusty_esp_signal-core/src/link.rs:33-39 | over any run on a network that loses, repeats, reorders and corrupts: each delivered payload is the one sealed under its number, no number is delivered twice, and sealing used 0, 1, 2 and on |
| `LinkSession.NewSessionsAreSafe` | crates/rusty_esp_signal-core/src/link.rs:676-689 | two fresh sessions with mirrored keys satisfy the invariant |
| `LinkSession.Session.constructor` | crates/rusty_esp_signal-core/src/link.rs:676-689 | a new session starts at number 0 with an empty window, zero counters and its keys' midstates |
| `LinkSession.Session.SealWith` | crates/rusty_esp_signal-core/src/link.rs:489-523 | the session object seals as specified: new state, result, bytes in the buffer and the bytes it leaves alone, for any correct engine |
| `LinkSession.Session.OpenWith` | crates/rusty_esp_signal-core/src/link.rs:530-562 | the session object opens as specified: result, every counter, window |
| `LinkSession.Session.CheckTag` | crates/rusty_esp_signal-core/src/link.rs:548-555 | the truncated resumed HMAC accepts exactly the tags RFC 2104 gives |
| `LinkSession.Session.Receive` | crates/rusty_esp_signal-core/src/link.rs:556-561 | past the tag, the window alone decides between delivery and a counted replay |
| `LinkHandshake.HonestHandshake` | crates/rusty_esp_signal-core/src/link.rs:611-785 | three unaltered messages between two devices that allow each other: all four steps succeed, the sessions have one id, crossed keys, each other as peer and each its own side's clock and lifetime, and every later run is safe |
| `LinkHandshake.AcceptTagAgrees` | crates/rusty_esp_signal-core/src/link.rs:728-735 | whatever else the network altered: when the Accept the initiator took carries the tag the responder sent, and the two tagged messages do not collide, both messages arrived as sent, the sessions are mirrored, the peers named, and the responder takes the Confirm |
| `LinkHandshake.ConfirmTagAgrees` | crates/rusty_esp_signal-core/src/link.rs:767-784 | the same from the responder's side: taking a Confirm with the tag the initiator sent means one transcript and mirrored sessions |
| `LinkHandshake.SameTranscriptMirrors` | crates/rusty_esp_signal-core/src/link.rs:828-870 | equal transcripts give equal derived keys on both sides |
| `LinkHandshake.DeriveAgrees` | crates/rusty_esp_signal-core/src/link.rs:828-870 | both sides derive the same keys from each other's public halves (what enters them is `KeySchedule`) |
| `LinkHandshake.KeySchedule` | crates/rusty_esp_signal-core/src/link.rs:835-869 | both nonces and both secrets enter, static before ephemeral and initiator before responder, and the two directions, the confirmation key and the id come out of their own bytes |
| `LinkHandshake.KeysTellSecretsApart` | crates/rusty_esp_signal-core/src/link.rs:9-17 | equal keys mean equal static secrets, equal ephemeral secrets and equal nonces, unless the derivation collides on those two inputs |
| `LinkHandshake.ResponderKeys` | crates/rusty_esp_signal-core/src/link.rs:635-698 | an Accept carries its sender's identity, ephemeral key and nonce, and the tag of the transcript the responder keeps |
| `LinkHandshake.FirstFramesOpen` | crates/rusty_esp_signal-core/src/link.rs:611-785 | after it the first frame each side seals is opened by the other |
| `LinkHandshake.OpeningParts` | crates/rusty_esp_signal-core/src/link.rs:20-24 | the 84 bytes both opening messages share split back into the fields put in |
| `LinkHandshake.HelloLayout` | crates/rusty_esp_signal-core/src/link.rs:20 | the Hello on the wire, byte by byte |
| `LinkHandshake.RespondsIff` | crates/rusty_esp_signal-core/src/link.rs:643-653 | a responder answers exactly a well-formed Hello whose keys decode and whose DID it allows, and denies a DID it does not allow |
| `LinkHandshake.EntropyFails` | crates/rusty_esp_signal-core/src/link.rs:614-660 | when the draw of the ephemeral key or of the nonce fails no message leaves and that error is returned |
| `LinkHandshake.AcceptLayout` | crates/rusty_esp_signal-core/src/link.rs:21-27 | the Accept on the wire, its tag over both messages under the derived confirmation key |
| `LinkHandshake.ResponderHolds` | crates/rusty_esp_signal-core/src/link.rs:670-697 | the responder keeps that transcript and key, sends under the second direction key and receives under the first |
| `LinkHandshake.FinishesIff` | crates/rusty_esp_signal-core/src/link.rs:710-735 | an initiator finishes exactly on a well-formed Accept whose keys decode, whose DID it allows and whose tag is right under the keys derived from its own two secrets |
| `LinkHandshake.ConfirmLayout` | crates/rusty_esp_signal-core/src/link.rs:736-755 | the Confirm on the wire, and the session beside it |
| `LinkHandshake.ConfirmsIff` | crates/rusty_esp_signal-core/src/link.rs:768-784 | the responder opens the session exactly for that Confirm |
| `LinkHandshake.AcceptTagIsNoConfirm` | crates/rusty_esp_signal-core/src/link.rs:27-28 | an Accept's tag never does for a Confirm |
| `LinkHandshake.Initiate` | crates/rusty_esp_signal-core/src/link.rs:612-623 | the Hello written piece by piece is the message, or the entropy source's error |
| `LinkHandshake.Respond` | crates/rusty_esp_signal-core/src/link.rs:631-698 | every refusal in the order the code checks, and otherwise the half-open session and the Accept |
| `LinkHandshake.Finish` | crates/rusty_esp_signal-core/src/link.rs:700-756 | every refusal, the tag's included, and otherwise the session and the Confirm |
| `LinkHandshake.Confirm` | crates/rusty_esp_signal-core/src/link.rs:767-784 | the pending session is released exactly for the right Confirm |
| `IntSqrt.Isqrt64` | crates/rusty_esp_signal-core/src/radar/csi.rs:642-660 | the floor of the square root of every u64, with no step leaving 64 bits |
| `IntSqrt.OneDigit` | crates/rusty_esp_signal-core/src/radar/csi.rs:650-658 | the test on scaled values decides one binary digit of the root correctly |
| `IntSqrt.RootIsUnique` | crates/rusty_esp_signal-core/src/radar/csi.rs:606-618 | the two root routines can only agree where both apply |
| `IntSqrt.FloorSqrt` | crates/rusty_esp_signal-core/src/radar/csi.rs:631-633 | the reference root: its square is at most the argument, the next one above |
| `WanderStats.SpreadIsNat` | crates/rusty_esp_signal-core/src/radar/csi.rs:602-605 | Cauchy-Schwarz: W times the sum of squares is at least the square of the sum, so the saturating subtraction never clips |
| `WanderStats.SpreadBound` | crates/rusty_esp_signal-core/src/radar/csi.rs:602-613 | the variance of u16 amplitudes is at most a quarter of the range squared |
| `WanderStats.ScaledIsExact` | crates/rusty_esp_signal-core/src/radar/csi.rs:605-613 | up to 8192 frames 256 times the scaled variance fits u64 |
| `WanderStats.ScaledExactIff` | crates/rusty_esp_signal-core/src/radar/csi.rs:605-613 | 8192 is the exact limit: every longer window has frames that overflow |
| `WanderStats.ScaledOverflows` | crates/rusty_esp_signal-core/src/radar/csi.rs:605-613 | frames that overflow it, for every longer window: half at the top and half at zero |
| `WanderStats.Std16IsExact` | crates/rusty_esp_signal-core/src/radar/csi.rs:602-618 | two nested floors give exactly the floor of sixteen standard deviations |
| `WanderStats.NestedFloor` | crates/rusty_esp_signal-core/src/radar/csi.rs:614-618 | the floor of a floored root over W is the floor of the exact quotient |
| `WanderStats.Std16Bound` | crates/rusty_esp_signal-core/src/radar/csi.rs:614-625 | sixteen standard deviations stay below 2^19, on the 32-bit and the 64-bit root |
| `WanderStats.Std16FitsIff` | crates/rusty_esp_signal-core/src/radar/csi.rs:619-622 | the comment's bound of 65535 holds exactly when the product under the root is below 2^32 times W squared; up to 8192 frames, when the scaled variance is below 2^24 times W squared |
| `WanderStats.Std16ByMean` | crates/rusty_esp_signal-core/src/radar/csi.rs:598-618 | in a window of any length sixteen deviations are at most 5793 for each unit of the mean, even where the product wraps |
| `WanderStats.SumOfUpdate` | crates/rusty_esp_signal-core/src/radar/csi.rs:494-510 | replacing one entry of a window moves both totals by that entry alone |
| `WanderStats.SumOfOne` | crates/rusty_esp_signal-core/src/radar/csi.rs:513-518 | the totals of one amplitude; with concatenation, of any window |
| `WanderStats.SpreadAbout` | crates/rusty_esp_signal-core/src/radar/csi.rs:602-605 | the scaled variance is the window length times the squared distances from the mean, and from any other centre that less the square of how far off it is |
| `WanderStats.SumOfRotation` | crates/rusty_esp_signal-core/src/radar/csi.rs:494-510 | totals do not depend on where the ring starts |
| `Presence.WindowForgetsThePast` | crates/rusty_esp_signal-core/src/radar/csi.rs:479-538 | once W equally wide frames have been pushed they are the window, and the wander depends on nothing else |
| `Presence.TwoHistoriesAgree` | crates/rusty_esp_signal-core/src/radar/csi.rs:479-538 | any two histories of pushes and resets ending in the same W frames agree on window and wander |
| `Presence.RunSound` | crates/rusty_esp_signal-core/src/radar/csi.rs:481-493 | in every reachable state the window holds at most W frames, all of one width |
| `Presence.WarmPush` | crates/rusty_esp_signal-core/src/radar/csi.rs:527-537 | on a full window, exactly: at the upper threshold presence is on and its clock restarts; below it presence stays, unless a width change forgot it or the lower threshold and the hold time are both met; and the verdict says so |
| `Presence.WarmingPush` | crates/rusty_esp_signal-core/src/radar/csi.rs:524-526 | before that the verdict is Warming and presence is kept, or lost with the window |
| `Presence.MotionIsSeen` | crates/rusty_esp_signal-core/src/radar/csi.rs:527-537 | whatever came before, W equally wide frames that wander enough end in presence from the last of them on |
| `Presence.PushMovesWindow` | crates/rusty_esp_signal-core/src/radar/csi.rs:490-523 | a frame joins the window, pushes the oldest out of a full one, or starts it over when its width differs, and is counted |
| `Presence.NothingPushed` | crates/rusty_esp_signal-core/src/radar/csi.rs:473-489 | a frame with no subcarriers changes nothing; a reset forgets all but the clock and the count |
| `Presence.WarmsUp` | crates/rusty_esp_signal-core/src/radar/csi.rs:519-526 | while it warms up the window is exactly the frames pushed |
| `Presence.VerdictIs` | crates/rusty_esp_signal-core/src/radar/csi.rs:540-554 | which verdict each state gives, the motion capped at 255 |
| `Presence.TermBetween` | crates/rusty_esp_signal-core/src/radar/csi.rs:598-625 | a subcarrier's term is 1000 times sixteen deviations over sixteen means, rounded down, and zero for a mean below one |
| `Presence.WanderBetween` | crates/rusty_esp_signal-core/src/radar/csi.rs:576-627 | the wander is the mean of the terms of all subcarriers, rounded down and capped |
| `Presence.PresenceHolds` | crates/rusty_esp_signal-core/src/radar/csi.rs:528-536 | within the hold time of the last motion no run of frames ends presence |
| `Presence.StoreKeepsCarried` | crates/rusty_esp_signal-core/src/radar/csi.rs:494-518 | subtracting what a slot held and adding what replaces it keeps all 64 sums equal to their columns, with no underflow and no overflow |
| `Presence.FullColumn` | crates/rusty_esp_signal-core/src/radar/csi.rs:576-598 | when the window is full the carried totals are the window's, wherever the ring starts |
| `Presence.PlaceNext` | crates/rusty_esp_signal-core/src/radar/csi.rs:511-523 | the new frame takes the oldest frame's slot and every other frame keeps its own |
| `Presence.TotalsFit` | crates/rusty_esp_signal-core/src/radar/csi.rs:595-605 | with W up to 65536 both products of the variance stay in u64 |
| `Presence.TermBound` | crates/rusty_esp_signal-core/src/radar/csi.rs:570-574 | in a window of any length no term of the wander exceeds 362062, well inside the documented 4095937 |
| `Presence.TotalFits` | crates/rusty_esp_signal-core/src/radar/csi.rs:570-575 | over up to 64 subcarriers the total stays within the documented 262139968 |
| `Presence.TermFits` | crates/rusty_esp_signal-core/src/radar/csi.rs:598-625 | the mean, the deviation and the term of any window fit the widths the code gives them |
| `Presence.PresenceDetector.constructor` | crates/rusty_esp_signal-core/src/radar/csi.rs:423-441 | a zeroed ring's carried totals are its columns' totals |
| `Presence.PresenceDetector.Reset` | crates/rusty_esp_signal-core/src/radar/csi.rs:472-479 | the window is forgotten and the carried totals still match the untouched ring |
| `Presence.PresenceDetector.Push` | crates/rusty_esp_signal-core/src/radar/csi.rs:481-538 | the ring with carried totals behaves as the detector on the sequence of frames, state and verdict, whose every step `WarmPush` and `WarmingPush` fix |
| `Presence.PresenceDetector.Store` | crates/rusty_esp_signal-core/src/radar/csi.rs:511-518 | the frame replaces the front of the oldest slot, all 64 totals still the columns' |
| `Presence.PresenceDetector.ComputeWander` | crates/rusty_esp_signal-core/src/radar/csi.rs:556-628 | the wander computed from carried totals in 32 and 64 bits is the mean over subcarriers of 1000 times deviation over mean of the window |
| `Presence.PresenceDetector.TermOf` | crates/rusty_esp_signal-core/src/radar/csi.rs:596-625 | one subcarrier's term, every intermediate value in its machine width |
| `Presence.PresenceDetector.RootOf` | crates/rusty_esp_signal-core/src/radar/csi.rs:606-618 | the 32-bit and the 64-bit path give one and the same root |
| `Presence.PresenceDetector.VerdictOf` | crates/rusty_esp_signal-core/src/radar/csi.rs:540-554 | the verdict is read off the sequence of frames |
| `Normalise.GainCancels` | crates/rusty_esp_signal-core/src/radar/csi.rs:216-240 | multiplying every amplitude by any positive factor that keeps them in u16 leaves the normalised frame the same to the bit |
| `Normalise.MeanLands` | crates/rusty_esp_signal-core/src/radar/csi.rs:228-261 | for any frame of 1 to 64 subcarriers not all zero the recomputed mean is 1023 or 1024, clipping included |
| `Normalise.AmplitudeBetween` | crates/rusty_esp_signal-core/src/radar/csi.rs:252-260 | each amplitude becomes its ratio to the mean in 1024ths, rounded down and clipped |
| `Normalise.MomentsBetween` | crates/rusty_esp_signal-core/src/radar/csi.rs:261-268 | mean and variance are those of the normalised amplitudes, rounded down, and neither ceiling is reached |
| `Normalise.RestIsZero` | crates/rusty_esp_signal-core/src/radar/csi.rs:241-249 | the unused amplitudes are zero, and a frame with nothing to divide by comes back as it was |
| `Normalise.SumOfFloors` | crates/rusty_esp_signal-core/src/radar/csi.rs:252-260 | the ratios' floors lose less than one each in total |
| `Normalise.ClipLoss` | crates/rusty_esp_signal-core/src/radar/csi.rs:253-260 | clipping to u16 takes away at most one in total |
| `Normalise.ProductFits` | crates/rusty_esp_signal-core/src/radar/csi.rs:253-257 | the u32 product of the ratio never overflows, for any u16 amplitude |
| `Normalise.Normalised` | crates/rusty_esp_signal-core/src/radar/csi.rs:232-270 | the loops, with their u32 and u64 accumulators, compute the specified frame or return a zero frame unchanged |
| `Normalise.Divide` | crates/rusty_esp_signal-core/src/radar/csi.rs:250-260 | the ratio loop writes the normalised amplitudes and their exact sum |
| `Normalise.SquaredDistances` | crates/rusty_esp_signal-core/src/radar/csi.rs:262-267 | the u64 accumulator holds the exact sum of squared distances |
| `DutyBudget.RunIsLegal` | crates/rusty_esp_signal-core/src/lora.rs:491-500 | for every run with a clock that does not run backwards and every hour: the airtime of accepted sends starting in it is within 36 s, and the ring's total never leaves the budget |
| `DutyBudget.RunCovers` | crates/rusty_esp_signal-core/src/lora.rs:491-500 | in every region and run, from the last request on, the reading is never below the airtime really sent |
| `DutyBudget.MergeNeverUnderCounts` | crates/rusty_esp_signal-core/src/lora.rs:597-608 | an eviction into the neighbour can only raise a later reading and loses nothing of the total |
| `DutyBudget.MergeOverCounts` | crates/rusty_esp_signal-core/src/lora.rs:493-498 | by how much a merge over-counts at every instant: the oldest airtime, from when it should have left until its neighbour does |
| `DutyBudget.RecordIs` | crates/rusty_esp_signal-core/src/lora.rs:597-614 | the ring takes the new entry last and holds at most 32 |
| `DutyBudget.AirtimeOfOne` | crates/rusty_esp_signal-core/src/lora.rs:561-575 | one transmission counts until 3600 seconds after its start; with concatenation, so does any ring |
| `DutyBudget.SendIsLegal` | crates/rusty_esp_signal-core/src/lora.rs:545-560 | a send the check lets through keeps every hour within the budget |
| `DutyBudget.SendsIff` | crates/rusty_esp_signal-core/src/lora.rs:540-559 | each answer exactly: 400 ms at most in US915 and AU915, 36 s in the hour with this transmission in EU868 and AS923, and otherwise it is sent |
| `DutyBudget.DwellHolds` | crates/rusty_esp_signal-core/src/lora.rs:540-550 | in US915 and AU915 no run ever sends longer than 400 ms at a time |
| `DutyBudget.UnlimitedSendsAll` | crates/rusty_esp_signal-core/src/lora.rs:498-500 | where nothing is limited every request of every run is sent, in order |
| `DutyBudget.StepIsLegal` | crates/rusty_esp_signal-core/src/lora.rs:540-560 | one request, accepted or refused, keeps the law |
| `DutyBudget.EmptyBudget` | crates/rusty_esp_signal-core/src/lora.rs:510-522 | an empty budget satisfies what the runs need |
| `DutyBudget.BudgetIs36Seconds` | crates/rusty_esp_signal-core/src/lora.rs:272-292 | every region with a duty cycle allows exactly 36 s an hour and has no dwell limit |
| `DutyBudget.ExpireKeepsReadings` | crates/rusty_esp_signal-core/src/lora.rs:584-595 | expiry changes no reading at that instant or later |
| `DutyBudget.ExpiredRingCounts` | crates/rusty_esp_signal-core/src/lora.rs:584-595 | what expiry leaves of a ring in time order all counts |
| `DutyBudget.RefusalLeavesReadings` | crates/rusty_esp_signal-core/src/lora.rs:545-560 | a refused send leaves every later reading as it was |
| `DutyBudget.HourOfSilence` | crates/rusty_esp_signal-core/src/lora.rs:491-500 | an hour after the last accepted send the reading is zero, however much was merged |
| `DutyBudget.SparseRunIsExact` | crates/rusty_esp_signal-core/src/lora.rs:562-575 | while no accepted send finds 32 others in its hour, every reading is exactly the airtime started in the last hour |
| `DutyBudget.DutyCycle.constructor` | crates/rusty_esp_signal-core/src/lora.rs:510-522 | a new budget remembers nothing |
| `DutyBudget.DutyCycle.UsedMicros` | crates/rusty_esp_signal-core/src/lora.rs:562-575 | the loop around the ring adds exactly what counts, stopping at the largest u64 |
| `DutyBudget.DutyCycle.DropExpired` | crates/rusty_esp_signal-core/src/lora.rs:584-595 | the ring loses from its front everything that has left the window, up to the first entry that has not |
| `DutyBudget.DutyCycle.MergeOldest` | crates/rusty_esp_signal-core/src/lora.rs:599-608 | the oldest entry's airtime moves to its neighbour, whose time stays, across the wrap too |
| `DutyBudget.DutyCycle.Push` | crates/rusty_esp_signal-core/src/lora.rs:597-614 | the newest entry goes last, after a merge when there is no room |
| `DutyBudget.DutyCycle.TrySend` | crates/rusty_esp_signal-core/src/lora.rs:540-560 | outcome and new contents for each refusal and for a send |
| `RelayRing.RunIsFifo` | firmware/espnow-relay/src/ring.rs:28-52 | for any interleaving: what came out and then what waits is what was taken, in order, and the count is exactly the bytes refused |
| `RelayRing.PushTakes` | firmware/espnow-relay/src/ring.rs:28-39 | a push takes every byte there is room for, after those waiting, and counts exactly the others |
| `RelayRing.PopGives` | firmware/espnow-relay/src/ring.rs:41-52 | a pop gives every byte there is room for, from the front |
| `RelayRing.PushIsByteByByte` | firmware/c6-insn-bench/src/main.rs:102-111 | two copies at once equal the older loop over single bytes, the lost ones included |
| `RelayRing.Ring.constructor` | firmware/espnow-relay/src/ring.rs:18-26 | a new ring is empty |
| `RelayRing.Ring.Push` | firmware/espnow-relay/src/ring.rs:28-39 | as many bytes as fit are appended, the rest counted lost, wherever the ring wraps |
| `RelayRing.Ring.TwoCopies` | firmware/espnow-relay/src/ring.rs:34-37 | the two copies store the bytes around the end and touch nothing else |
| `RelayRing.Ring.Pop` | firmware/espnow-relay/src/ring.rs:41-52 | the oldest bytes come out in order into the front of the buffer, the rest of it untouched |
| `RelayRing.OraclePush` | firmware/c6-insn-bench/src/main.rs:102-111 | the byte-at-a-time push meets the same specification |
| `RelayRing.OraclePop` | firmware/c6-insn-bench/src/main.rs:112-120 | the byte-at-a-time pop meets the same specification |
| `Newline.Find` | firmware/espnow-relay/src/ring.rs:91-115 | for every byte string and every head, words and tail split: the first newline, or none when there is none |
| `Newline.MaskIsExact` | firmware/espnow-relay/src/ring.rs:105-111 | the lowest set bit of the zero-byte mask names the first newline of a word, borrows notwithstanding, and the mask is zero exactly when there is none |
| `Newline.FirstIsUnique` | firmware/espnow-relay/src/ring.rs:91-115 | there is only one right answer |
| `Newline.Position` | firmware/espnow-relay/src/ring.rs:102-104 | the byte loop on the ends finds the first newline |
| `Newline.InWord` | firmware/espnow-relay/src/ring.rs:105-111 | a word's mask finds the first newline of its four bytes |
| `Lines.Assembler.Feed` | firmware/espnow-relay/src/main.rs:400-411 | the loop over a chunk finishes exactly the stream's lines, cut to the buffer, marked when cut |
| `Lines.Assembler.FeedAll` | firmware/espnow-relay/src/main.rs:392-411 | any chunks at any addresses give the lines of the stream in one piece |
| `Lines.Assembler.Serve` | firmware/espnow-relay/src/main.rs:392-418 | over any chunks the relay acts, in order, on exactly the segments that fit and are not empty, and counts those cut that leave something |
| `Lines.DamagedIffTooLong` | firmware/espnow-relay/src/main.rs:412-418 | with room for two bytes or more the lines counted as damaged are exactly those too long |
| `Lines.StripReturnIs` | firmware/espnow-relay/src/main.rs:409-411 | one carriage return at the end comes off and nothing else does |
| `Lines.ServedOne` | firmware/espnow-relay/src/main.rs:412-418 | what becomes of one line, with or without its carriage return |
| `Lines.CommandArrives` | firmware/espnow-relay/src/main.rs:400-418 | a command that fits, sent with its line end, is the next one the relay acts on |
| `Lines.Assembler.Take` | firmware/espnow-relay/src/ring.rs:72-88 | one call takes the stream up to and including its first newline, or all of it, at any address |
| `Lines.Assembler.Keep` | firmware/espnow-relay/src/ring.rs:81-86 | as much of a segment as fits is kept, and overrun is set exactly when the line is longer than the buffer |
| `Lines.Assembler.Finish` | firmware/espnow-relay/src/main.rs:407-411 | the finished line is the segment cut to the buffer, its carriage return stripped, and whether it is whole |
| `Lines.ChunkingDoesNotMatter` | firmware/espnow-relay/src/ring.rs:72-88 | however the stream is cut into chunks the segments are the same |
| `Lines.SplitRejoins` | firmware/espnow-relay/src/ring.rs:72-88 | the segments with a newline after each, and the unfinished rest, are the stream |
| `Lines.SplitAtNewline` | firmware/espnow-relay/src/ring.rs:76-88 | taking up to the first newline finishes one segment and starts afresh after it |
| `Lines.OracleFeed` | firmware/c6-insn-bench/src/main.rs:165-185 | the older byte-at-a-time loop produces the same lines from the same stream |
| `ScanList.PushAllIsTop` | crates/rusty_esp_signal-core/src/provision.rs:185-218 | after any pushes the list is sorted, names no network twice, lists only what was pushed and is the top N by each name's best signal |
| `ScanList.PushKeepsTop` | crates/rusty_esp_signal-core/src/provision.rs:189-218 | one push keeps that, in every branch |
| `ScanList.TakenPush` | crates/rusty_esp_signal-core/src/provision.rs:193-217 | a push that is taken lists the entry and drops the one of its name, or else the last of a full list, and no other |
| `ScanList.NotStrongerIsRefused` | crates/rusty_esp_signal-core/src/provision.rs:197-208 | an entry not stronger than the one of its name, or than any of a full list, changes nothing |
| `ScanList.InsertPlace` | crates/rusty_esp_signal-core/src/provision.rs:211-217 | an entry goes behind every one as strong and in front of every weaker one |
| `ScanList.ListedIsBest` | crates/rusty_esp_signal-core/src/provision.rs:185-188 | a listed entry is the strongest ever pushed under its name |
| `ScanList.RoundTrip` | crates/rusty_esp_signal-core/src/provision.rs:243-270 | decoding an encoded list gives exactly the longest prefix that fits min(buffer, 240), in order, with every field |
| `ScanList.FittingIsLongest` | crates/rusty_esp_signal-core/src/provision.rs:243-258 | the entries encoded fit, and no longer prefix does |
| `ScanList.DecodeOfEncode` | crates/rusty_esp_signal-core/src/provision.rs:97-142 | an encoded entry decodes to itself and its length, whatever network follows |
| `ScanList.EncodeLayout` | crates/rusty_esp_signal-core/src/provision.rs:97-110 | an entry's bytes, the signal in two's complement |
| `ScanList.OneRecord` | crates/rusty_esp_signal-core/src/provision.rs:131-138 | what each record says to a named entry; unknown tags and other lengths say nothing |
| `ScanList.BareName` | crates/rusty_esp_signal-core/src/provision.rs:115-141 | a name alone decodes with 0 dBm and open |
| `ScanList.TruncatedIsRefused` | crates/rusty_esp_signal-core/src/provision.rs:125-130 | a record cut short is refused wherever it is cut |
| `ScanList.PushInOrder` | crates/rusty_esp_signal-core/src/provision.rs:260-270 | re-pushing a sorted list of distinct names keeps its order |
| `ScanList.SomethingRead` | crates/rusty_esp_signal-core/src/provision.rs:112-142 | every decoded network takes at least two bytes, so decoding a list ends |
| `ScanList.Decode` | crates/rusty_esp_signal-core/src/provision.rs:112-142 | what decodes has a name of 1 to 32 bytes and stays inside the input |
| `ScanList.NewEntry` | crates/rusty_esp_signal-core/src/provision.rs:69-82 | names of 1 to 32 bytes and no others |
| `ScanList.InsertAt` | crates/rusty_esp_signal-core/src/provision.rs:211-216 | stopping at the first entry not weaker inserts in order, behind entries as strong |
| `ScanList.List.constructor` | crates/rusty_esp_signal-core/src/provision.rs:176-183 | a new list is empty |
| `ScanList.List.Push` | crates/rusty_esp_signal-core/src/provision.rs:189-218 | the shifts in fixed storage do what a push on the sequence does |
| `ScanList.List.Remove` | crates/rusty_esp_signal-core/src/provision.rs:200-203 | shifting left takes out exactly the one entry |
| `ScanList.List.Place` | crates/rusty_esp_signal-core/src/provision.rs:211-217 | shifting right from the back puts the entry in its place |
| `ScanList.List.EncodeInto` | crates/rusty_esp_signal-core/src/provision.rs:246-258 | the buffer starts with the encoded prefix and is otherwise untouched |
| `ScanList.DecodeEntry` | crates/rusty_esp_signal-core/src/provision.rs:115-142 | the record loop returns what the recursive reading does, error for error |
| `ScanList.DecodeList` | crates/rusty_esp_signal-core/src/provision.rs:261-270 | it ends on every byte string, with the decoded list or the first error |
| `StationPolicy.EveryJoinFails` | crates/rusty_esp_signal-core/src/wifi.rs:326-338 | when every join fails: fallback after exactly max(1, max_failures) failures, and before it the k-th wait is min_backoff times 2^(k-1), capped |
| `StationPolicy.FailuresInOrder` | crates/rusty_esp_signal-core/src/wifi.rs:410-446 | from any sound state each failure is answered with its own wait or, at the limit, with fallback |
| `StationPolicy.RunIsSound` | crates/rusty_esp_signal-core/src/wifi.rs:410-446 | in every run Backoff has between 1 and max_failures - 1 failures, and Fallback exactly the limit |
| `StationPolicy.FallbackIffFailures` | crates/rusty_esp_signal-core/src/wifi.rs:378-382 | over any run, joins included, exactly the failures since the last join or new credentials are counted, and fallback is where they reach the limit |
| `StationPolicy.CredentialsAndJoins` | crates/rusty_esp_signal-core/src/wifi.rs:412-421 | from any phase new credentials start a join and a join connects, both with no failures left |
| `StationPolicy.OthersAreQuiet` | crates/rusty_esp_signal-core/src/wifi.rs:337 | disconnects and ticks in any other phase change nothing and ask nothing |
| `StationPolicy.ReconnectsCount` | crates/rusty_esp_signal-core/src/wifi.rs:384-389 | over any run the counter is the ticks answered with a join, up to the largest u32 |
| `StationPolicy.FallbackHolds` | crates/rusty_esp_signal-core/src/wifi.rs:329-337 | no run of ticks and disconnects leaves fallback |
| `StationPolicy.BackoffHolds` | crates/rusty_esp_signal-core/src/wifi.rs:435-443 | before the wait is over nothing but new credentials or a join changes anything |
| `StationPolicy.WaitIsServed` | crates/rusty_esp_signal-core/src/wifi.rs:422-443 | a tick starts the join exactly when the full wait has passed since the failure, and else reports what is left of it |
| `StationPolicy.BackoffIsDoublingIff` | crates/rusty_esp_signal-core/src/wifi.rs:391-407 | the delay is the documented doubling exactly unless min_backoff is zero, the failure number exceeds 64 and max_backoff is not zero |
| `StationPolicy.DoublingDoubles` | crates/rusty_esp_signal-core/src/wifi.rs:391-392 | the documented delay starts at min_backoff and doubles under max_backoff |
| `StationPolicy.ZeroBackoffJumps` | crates/rusty_esp_signal-core/src/wifi.rs:391-407 | the first failing input: a zero minimum gives no wait at failure 64 and the full ceiling at 65 |
| `StationPolicy.BackoffGrows` | crates/rusty_esp_signal-core/src/wifi.rs:391-407 | delays never shrink and never exceed the ceiling, saturation included |
| `StationPolicy.StationPolicy.constructor` | crates/rusty_esp_signal-core/src/wifi.rs:354-364 | a new policy is unprovisioned, with nothing counted and nothing to wait for |
| `StationPolicy.StationPolicy.OnEvent` | crates/rusty_esp_signal-core/src/wifi.rs:409-446 | the object moves and answers as the transition function, in every phase |
| `FrameRing.RunKeeps` | crates/rusty_esp_signal-esp/src/csi_queue.rs:119-121 | for any pushes and pops, capacity zero included: what waits is the end of what was pushed, pops came in arrival order, everything not waiting was popped or is older than the newest N, and pushes = popped + waiting + dropped |
| `FrameRing.WaitsIffLatest` | crates/rusty_esp_signal-esp/src/csi_queue.rs:119-121 | a frame waits exactly when it is among the newest N and was not popped |
| `FrameRing.PushGives` | crates/rusty_esp_signal-esp/src/csi_queue.rs:148-165 | a frame is lost, counted and said to be exactly when the ring was full, and the new one is last |
| `FrameRing.PopGives` | crates/rusty_esp_signal-esp/src/csi_queue.rs:167-176 | a frame comes out exactly when one waits, and it is the oldest |
| `FrameRing.PushKeeps` | crates/rusty_esp_signal-esp/src/csi_queue.rs:148-165 | one push keeps that |
| `FrameRing.PopKeeps` | crates/rusty_esp_signal-esp/src/csi_queue.rs:167-176 | one pop keeps that |
| `FrameRing.Ring.constructor` | crates/rusty_esp_signal-esp/src/csi_queue.rs:137-146 | a new ring is empty |
| `FrameRing.Ring.Push` | crates/rusty_esp_signal-esp/src/csi_queue.rs:148-165 | append, or replace the oldest and count it, and say which |
| `FrameRing.Ring.Overwrite` | crates/rusty_esp_signal-esp/src/csi_queue.rs:155-160 | on a full ring the slot after the newest is the oldest: it is replaced and the head moves on |
| `FrameRing.Ring.Pop` | crates/rusty_esp_signal-esp/src/csi_queue.rs:167-176 | the oldest frame leaves and its slot is emptied |
| `FrameRing.Ring.Clear` | crates/rusty_esp_signal-esp/src/csi_queue.rs:196-202 | nothing waits and the count is zero |
| `HexCodec.UnhexOfHex` | firmware/espnow-relay/src/hex.rs:18-26 | every byte string comes back from its hex text |
| `HexCodec.HexOfUnhex` | firmware/espnow-relay/src/hex.rs:95-113 | an accepted text comes back lower-cased |
| `HexCodec.PairIs` | firmware/espnow-relay/src/hex.rs:7-16 | one byte's text, the high digit first |
| `HexCodec.DigitIs` | firmware/espnow-relay/src/hex.rs:5 | the sixteen digits in order |
| `HexCodec.NibbleIs` | firmware/espnow-relay/src/hex.rs:85-93 | what each character is worth: a hex digit in either case, and no other |
| `HexCodec.AcceptsHexText` | firmware/espnow-relay/src/hex.rs:95-113 | accepted are exactly the texts of an even number of hex digits, either case |
| `HexCodec.HexInto` | firmware/espnow-relay/src/hex.rs:18-26 | the buffer starts with the text and is otherwise untouched |
| `HexCodec.UnhexInto` | firmware/espnow-relay/src/hex.rs:95-113 | `None` exactly for an odd length, too little room or a character that is no digit; on success the bytes, on failure exactly the bytes before the first bad pair, nothing else touched |
| `HexCodec.UnhexPair` | firmware/espnow-relay/src/hex.rs:106-110 | two table loads and one test accept exactly two digits and give their byte |
| `HexCodec.MarkSurvives` | firmware/espnow-relay/src/hex.rs:107 | the or of two table entries shows the mark exactly when either is no digit |
| `HexCodec.OrOfNibbles` | firmware/espnow-relay/src/hex.rs:110 | shifting and or-ing two nibbles adds them: no bit overlaps |
| `HexCodec.ParseOfDecimal` | firmware/espnow-relay/src/hex.rs:28-30 | the text of every i32, the minimum included, reads back as it, with no leading zero and a minus only for negatives |
| `HexCodec.DecimalInto` | firmware/espnow-relay/src/hex.rs:28-56 | the buffer starts with that text, at most eleven bytes, and is otherwise untouched |
| `HexCodec.LastPair` | firmware/espnow-relay/src/hex.rs:36-41 | one division by 100 takes off exactly the last two digits |
| `HexCodec.AtMostTenDigits` | firmware/espnow-relay/src/hex.rs:32-34 | the digits of any magnitude fit the scratch array beside a minus |

## Left out

- Session expiry and lifetime checks, key zeroising, constant-time comparison and `Debug` output: easy, or not functional properties.
- P-256, ECDH, HKDF and the SHA-256 compression function: library code, parameters here.
- The retry loop over eight draws in `ephemeral`: its outcome is the entropy parameter.
- The `setup` session, the `Provisioner` router and the credentials form: they rest on types outside the files modelled.
- `CsiFrame::features`, the `Layout` tables, `Verdict::either`, `set_config` and the accessors: straight-line members.
- LoRa `Params`, region frequency and power tables, `Beacon` and `used_permille`: finite tables and one-line arithmetic.
- `ScanList::clear`, `ReplayWindow::highest` and the length accessors: one-line members.
- The GATT table, `csi_stream`, the rate controls, `raw_link.rs`, `splice.rs` and `turn.rs`: tables, driver counters and radio state.
- Firmware mains, radio and Bluetooth backends, wasm bindings and the Python tools: input and output.
- Detector accuracy against real captures: not decided by the code.
- LinkHmac.HmacWith: an engine is a function here, so an engine that keeps state of its own between calls is not modelled.
- Replay.ReplayWindow.Accept: the bitmap's 64 bits are modelled on the number they spell, shifts one place at a time, not on machine words.
- LinkHandshake.Respond: the transcript and message arrays are built as byte strings, except where the code fills them piece by piece.
- Lines.Assembler.Serve: parsing the commands is not modelled, so the relay's damaged count, which also takes commands it cannot read, is here the lines cut short alone, unbounded.
- RelayRing.OraclePush, RelayRing.OraclePop, Lines.OracleFeed: the older structs have the fields of the newer ones, so the older loops work on the same classes, for a line of any length.
- RelayRing.Ring.Push: the lost count wraps at 2^32 as a release build's does; a debug build would stop there.
- Presence.PresenceDetector.Push: the amplitudes are given as the frame's valid ones, without the unused rest of the 64-entry array.
- HexCodec.Nibble: the three lookup tables are modelled as the functions that fill them.
