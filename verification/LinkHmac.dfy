/**
 The link's HMAC-SHA256: RFC 2104 resumed from two midstates on a pluggable
 block engine.

 The compression function of FIPS 180-4 section 6.2.2 is a parameter `f` of
 everything here, on numeric words; the engines work on byte-swapped words.
 */
module LinkHmac {
  import opened Bits
  import opened Bytes

  type Words = s: seq<u32> | |s| == 8 witness [0, 0, 0, 0, 0, 0, 0, 0]
  type Compression = (Words, seq<u8>) -> Words

  // ---------------------------------------------------------------------
  // The reference: FIPS 180-4 and RFC 2104
  // ---------------------------------------------------------------------

  /** Every whole 64-byte block of `blocks`, in order, from `st`. */
  function Absorb(f: Compression, st: Words, blocks: seq<u8>): Words
    decreases |blocks|
  {
    if |blocks| < 64 then st else Absorb(f, f(st, blocks[..64]), blocks[64..])
  }

  /**
   FIPS 180-4 section 5.1.1 for a message of `len` bytes: a one bit, the
   fewest zero bits that make whole blocks, the length in bits. (The standard
   defines it for lengths below 2^64 bits; above, the low 64 bits are kept.)
   */
  function Padding(len: nat): (p: seq<u8>)
    ensures (len + |p|) % 64 == 0 && 9 <= |p| < 9 + 64
  {
    PaddingFits(len);
    [0x80] + Zeros((55 - len) % 64) + Be64(8 * len)
  }

  lemma PaddingFits(len: nat)
    ensures (len + 1 + (55 - len) % 64 + 8) % 64 == 0
  {
    var q := (55 - len) / 64;
    assert len + 1 + (55 - len) % 64 + 8 == 64 * (1 - q);
  }

  /** FIPS 180-4 section 5.3.3. */
  const IV: Words := [0x6a09_e667, 0xbb67_ae85, 0x3c6e_f372, 0xa54f_f53a,
                      0x510e_527f, 0x9b05_688c, 0x1f83_d9ab, 0x5be0_cd19]

  function BytesOf(ws: seq<u32>): (b: seq<u8>)
    ensures |b| == 4 * |ws|
  {
    if ws == [] then [] else Be32(ws[0]) + BytesOf(ws[1..])
  }

  function Sha256(f: Compression, msg: seq<u8>): (digest: seq<u8>)
    ensures |digest| == 32
  {
    BytesOf(Absorb(f, IV, msg + Padding(|msg|)))
  }

  function XorByte(a: u8, b: u8): u8 {
    Pow2Of8();
    XorStaysBelow(a, b, 8);
    Xor(a, b)
  }

  lemma Pow2Of8()
    ensures Pow2(8) == 256
  {
    assert Pow2(4) == 16;
    Pow2Sum(4, 4);
  }

  /** RFC 2104 section 2: the key as one zero-filled block. */
  function KeyBlock(f: Compression, key: seq<u8>): (block: seq<u8>)
    ensures |block| == 64
  {
    var k := if |key| > 64 then Sha256(f, key) else key;
    k + Zeros(64 - |k|)
  }

  function XorPad(block: seq<u8>, pad: u8): (p: seq<u8>)
    ensures |p| == |block|
  {
    seq(|block|, i requires 0 <= i < |block| => XorByte(block[i], pad))
  }

  /** RFC 2104 section 2. */
  function Hmac(f: Compression, key: seq<u8>, msg: seq<u8>): (mac: seq<u8>)
    ensures |mac| == 32
  {
    var k := KeyBlock(f, key);
    Sha256(f, XorPad(k, 0x5c) + Sha256(f, XorPad(k, 0x36) + msg))
  }

  // ---------------------------------------------------------------------
  // What the reference is, without its bodies
  // ---------------------------------------------------------------------

  /** FIPS 180-4 section 5.3.3: the first 32 bits of the fractional parts of the square roots of eight primes. */
  lemma IvIsSquareRoots(i: nat)
    requires i < 8
    ensures var prime := [2, 3, 5, 7, 11, 13, 17, 19][i];
      var whole := [1, 1, 2, 2, 3, 3, 4, 4][i];
      var root := whole * 0x1_0000_0000 + IV[i] as int;
      root * root < prime * 0x1_0000_0000_0000_0000 < (root + 1) * (root + 1)
  {
  }

  /** One block is one call of the compression function; with `AbsorbAppend`, that is all of `Absorb`. */
  lemma AbsorbOne(f: Compression, st: Words, block: seq<u8>)
    requires |block| == 64
    ensures Absorb(f, st, block) == f(st, block) && Absorb(f, st, []) == st
  {
    assert block[..64] == block && block[64..] == [];
  }

  /** A one bit, zeros, and the length in bits in the last eight bytes, in the fewest blocks. */
  lemma PaddingIs(len: nat)
    ensures var p := Padding(len);
      && 9 <= |p| <= 72 && (len + |p|) % 64 == 0
      && p[0] == 0x80
      && (forall i | 1 <= i < |p| - 8 :: p[i] == 0)
      && BigEndian(p[|p| - 8..]) == 8 * len % 0x1_0000_0000_0000_0000
  {
    var p := Padding(len);
    Be64Spells(8 * len);
    assert p[|p| - 8..] == Be64(8 * len);
  }

  /** The digest's bytes spell the state's words, in order. */
  lemma {:induction false} BytesSpellWords(ws: seq<u32>, i: nat)
    requires i < |ws|
    ensures BigEndian(BytesOf(ws)[4 * i..4 * i + 4]) == ws[i]
  {
    if i == 0 {
      assert BytesOf(ws)[..4] == Be32(ws[0]);
      Be32Spells(ws[0]);
    } else {
      assert BytesOf(ws)[4 * i..4 * i + 4] == BytesOf(ws[1..])[4 * (i - 1)..4 * (i - 1) + 4];
      BytesSpellWords(ws[1..], i - 1);
    }
  }

  /** SHA-256 of a message that fits one block with its padding: one call, from the fixed state. */
  lemma ShaOfOneBlock(f: Compression, msg: seq<u8>, i: nat)
    requires |msg| <= 55 && i < 8
    ensures BigEndian(Sha256(f, msg)[4 * i..4 * i + 4]) == f(IV, msg + Padding(|msg|))[i]
  {
    assert |msg + Padding(|msg|)| == 64;
    AbsorbOne(f, IV, msg + Padding(|msg|));
    BytesSpellWords(f(IV, msg + Padding(|msg|)), i);
  }

  /**
   RFC 2104 bit by bit, for a key of at most one block: over any two pad
   blocks whose bits are the zero-filled key's, turned over where 0x36 and
   0x5c have ones.
   */
  lemma HmacOverPads(f: Compression, key: seq<u8>, msg: seq<u8>, inner: seq<u8>, outer: seq<u8>)
    requires |key| <= 64 && |inner| == |outer| == 64
    requires forall i, b: nat | 0 <= i < 64 && b < 8 :: Bit(inner[i], b) <==>
      (i < |key| && Bit(key[i], b)) != (b == 1 || b == 2 || b == 4 || b == 5)
    requires forall i, b: nat | 0 <= i < 64 && b < 8 :: Bit(outer[i], b) <==>
      (i < |key| && Bit(key[i], b)) != (b == 2 || b == 3 || b == 4 || b == 6)
    ensures Hmac(f, key, msg) == Sha256(f, outer + Sha256(f, inner + msg))
  {
    var block := KeyBlock(f, key);
    forall i | 0 <= i < 64 ensures inner[i] == XorPad(block, 0x36)[i] && outer[i] == XorPad(block, 0x5c)[i] {
      forall b: nat | b < 8
        ensures Bit(inner[i], b) == Bit(XorByte(block[i], 0x36), b)
        ensures Bit(outer[i], b) == Bit(XorByte(block[i], 0x5c), b)
      {
        XorBit(block[i], 0x36, b);
        XorBit(block[i], 0x5c, b);
        PadBits(b);
        ZeroBit(b);
      }
      Pow2Of8();
      SameBits(inner[i], XorByte(block[i], 0x36), 8);
      SameBits(outer[i], XorByte(block[i], 0x5c), 8);
    }
    assert inner == XorPad(block, 0x36) && outer == XorPad(block, 0x5c);
  }

  lemma PadBits(b: nat)
    requires b < 8
    ensures Bit(0x36, b) <==> b == 1 || b == 2 || b == 4 || b == 5
    ensures Bit(0x5c, b) <==> b == 2 || b == 3 || b == 4 || b == 6
  {
    NextBits([0x36, 27, 13, 6, 3, 1, 0, 0], b);
    NextBits([0x5c, 46, 23, 11, 5, 2, 1, 0], b);
  }

  /** The bits of a byte, from its successive halves. */
  lemma {:induction false} NextBits(halves: seq<nat>, b: nat)
    requires b < |halves| && forall i | 0 < i < |halves| :: halves[i] == halves[i - 1] / 2
    ensures Bit(halves[0], b) <==> halves[b] % 2 == 1
    decreases b
  {
    if b > 0 {
      NextBits(halves[1..], b - 1);
    }
  }

  /** A key longer than a block counts as its hash. */
  lemma LongKeyIsHashed(f: Compression, key: seq<u8>, msg: seq<u8>)
    requires |key| > 64
    ensures Hmac(f, key, msg) == Hmac(f, Sha256(f, key), msg)
  {
  }

  /** Exclusive or with the same byte again gives the byte back. */
  lemma {:induction false} XorCancels(a: nat, b: nat)
    ensures Xor(Xor(a, b), b) == a
    decreases a + b
  {
    if a > 0 || b > 0 {
      XorCancels(a / 2, b / 2);
      XorHalf(a, b);
      XorHalf(Xor(a, b), b);
    }
  }

  /** Different keys have different pad blocks, inner and outer. */
  lemma PadsTellKeysApart(f: Compression, key1: seq<u8>, key2: seq<u8>, pad: u8)
    requires |key1| == |key2| <= 64
    requires XorPad(KeyBlock(f, key1), pad) == XorPad(KeyBlock(f, key2), pad)
    ensures key1 == key2
  {
    forall i | 0 <= i < |key1| ensures key1[i] == key2[i] {
      assert XorPad(KeyBlock(f, key1), pad)[i] == XorPad(KeyBlock(f, key2), pad)[i];
      XorCancels(key1[i], pad);
      XorCancels(key2[i], pad);
    }
  }

  // ---------------------------------------------------------------------
  // Engines: the same compression over words in the digest's byte order
  // ---------------------------------------------------------------------

  function Swapped(ws: Words): Words {
    seq(8, i requires 0 <= i < 8 => SwapBytes(ws[i]))
  }

  lemma SwappedTwice(ws: Words)
    ensures Swapped(Swapped(ws)) == ws
  {
    forall i | 0 <= i < 8 ensures Swapped(Swapped(ws))[i] == ws[i] {
      SwapExchangesByteOrders(ws[i]);
    }
  }

  /** A block engine: `compress` and `compress2` over byte-swapped state. */
  datatype Engine = Engine(compress: (Words, seq<u8>) -> Words,
                           compress2: (Words, seq<u8>, seq<u8>) -> Words)

  /** What every engine owes: all blocks from the state it is given, nothing else. */
  ghost predicate Meets(e: Engine, f: Compression) {
    && (forall st: Words, blocks: seq<u8> :: |blocks| % 64 == 0 ==>
          e.compress(st, blocks) == Swapped(Absorb(f, Swapped(st), blocks)))
    && (forall st: Words, first: seq<u8>, second: seq<u8> :: |first| % 64 == 0 && |second| % 64 == 0 ==>
          e.compress2(st, first, second) == e.compress(e.compress(st, first), second))
  }

  /** `SoftSha` as an engine value: what `SoftCompress` computes. */
  function SoftSha(f: Compression): Engine {
    var run := (st: Words, blocks: seq<u8>) => Swapped(Absorb(f, Swapped(st), blocks));
    Engine(run, (st: Words, first: seq<u8>, second: seq<u8>) => run(run(st, first), second))
  }

  /** The software engine's block loop, with its swaps at the edges. */
  method SoftCompress(f: Compression, state: Words, blocks: seq<u8>) returns (after: Words)
    ensures after == Swapped(Absorb(f, Swapped(state), blocks)) == SoftSha(f).compress(state, blocks)
  {
    var numeric := Swapped(state);
    var at := 0;
    while at + 64 <= |blocks|
      invariant 0 <= at <= |blocks|
      invariant Absorb(f, Swapped(state), blocks) == Absorb(f, numeric, blocks[at..])
    {
      assert blocks[at..][..64] == blocks[at..at + 64] && blocks[at..][64..] == blocks[at + 64..];
      numeric := f(numeric, blocks[at..at + 64]);
      at := at + 64;
    }
    after := Swapped(numeric);
  }

  lemma SoftShaMeets(f: Compression)
    ensures Meets(SoftSha(f), f)
  {
  }

  lemma {:induction false} AbsorbAppend(f: Compression, st: Words, a: seq<u8>, b: seq<u8>)
    requires |a| % 64 == 0
    ensures Absorb(f, st, a + b) == Absorb(f, Absorb(f, st, a), b)
    decreases |a|
  {
    if a == [] {
      assert a + b == b;
    } else {
      assert (a + b)[..64] == a[..64] && (a + b)[64..] == a[64..] + b;
      AbsorbAppend(f, f(st, a[..64]), a[64..], b);
    }
  }

  /**
   Any two engines that keep the contract leave the same state, and a
   two-part call is one call over all the blocks.
   */
  lemma EnginesAgree(f: Compression, e1: Engine, e2: Engine, st: Words, first: seq<u8>, second: seq<u8>)
    requires Meets(e1, f) && Meets(e2, f) && |first| % 64 == 0 && |second| % 64 == 0
    ensures e1.compress(st, first) == e2.compress(st, first)
    ensures e1.compress2(st, first, second) == e2.compress2(st, first, second)
    ensures e1.compress2(st, first, second) == e2.compress(st, first + second)
  {
    var numeric := Absorb(f, Swapped(st), first);
    SwappedTwice(numeric);
    AbsorbAppend(f, Swapped(st), first, second);
    assert e1.compress(st, first) == Swapped(numeric);
    assert (|first| + |second|) % 64 == 0;
  }

  // ---------------------------------------------------------------------
  // The midstates and the resumed HMAC
  // ---------------------------------------------------------------------

  /** A key as the states after its two pad blocks (byte-swapped words). */
  datatype Keyed = Keyed(inner: Words, outer: Words)

  ghost function KeyedOf(f: Compression, key: seq<u8>): Keyed {
    Keyed(Swapped(Absorb(f, IV, XorPad(KeyBlock(f, key), 0x36))),
          Swapped(Absorb(f, IV, XorPad(KeyBlock(f, key), 0x5c))))
  }

  lemma {:induction false} XorWithZero(c: nat)
    ensures Xor(0, c) == c
  {
    if c > 0 {
      XorWithZero(c / 2);
    }
  }

  lemma {:induction false} XorCommutes(a: nat, b: nat)
    ensures Xor(a, b) == Xor(b, a)
    decreases a + b
  {
    if a > 0 || b > 0 {
      XorCommutes(a / 2, b / 2);
    }
  }

  lemma FilledPad(f: Compression, key: seq<u8>, filled: seq<u8>, pad: u8)
    requires |key| == 32 && |filled| == 64
    requires forall j | 0 <= j < 64 :: filled[j] == if j < 32 then XorByte(pad, key[j]) else pad
    ensures filled == XorPad(KeyBlock(f, key), pad)
  {
    forall j | 0 <= j < 64 ensures filled[j] == XorPad(KeyBlock(f, key), pad)[j] {
      XorWithZero(pad);
      if j < 32 {
        XorCommutes(pad, key[j]);
      }
    }
  }

  /** `keyed`: the two pad blocks filled in place and absorbed once. */
  method MakeKeyed(f: Compression, key: seq<u8>) returns (k: Keyed)
    requires |key| == 32
    ensures k == KeyedOf(f, key)
  {
    var ipad := new u8[64](_ => 0x36);
    var opad := new u8[64](_ => 0x5c);
    for i := 0 to |key|
      invariant forall j :: 0 <= j < 64 ==> ipad[j] == if j < i then XorByte(0x36, key[j]) else 0x36
      invariant forall j :: 0 <= j < 64 ==> opad[j] == if j < i then XorByte(0x5c, key[j]) else 0x5c
    {
      ipad[i] := XorByte(ipad[i], key[i]);
      opad[i] := XorByte(opad[i], key[i]);
    }
    FilledPad(f, key, ipad[..], 0x36);
    FilledPad(f, key, opad[..], 0x5c);
    SwappedTwice(IV);
    var inner := SoftCompress(f, Swapped(IV), ipad[..]);
    var outer := SoftCompress(f, Swapped(IV), opad[..]);
    k := Keyed(inner, outer);
  }

  /** The state's words written out little-endian, as the two loops of `hmac_with` do. */
  method WordsInto(st: Words, dst: array<u8>)
    requires dst.Length >= 32
    modifies dst
    ensures dst[..] == BytesOf(Swapped(st)) + old(dst[32..])
  {
    var i := 0;
    while i < 8
      invariant 0 <= i <= 8
      invariant dst[..] == BytesOf(Swapped(st)[..i]) + old(dst[4 * i..])
    {
      ghost var before := dst[..];
      CopyInto(dst, 4 * i, Le32(st[i]));
      SwapExchangesByteOrders(st[i]);
      SwapExchangesByteOrders(SwapBytes(st[i]));
      assert Le32(st[i]) == Be32(Swapped(st)[i]);
      BytesOfAppend(Swapped(st)[..i], Swapped(st)[i]);
      assert Swapped(st)[..i + 1] == Swapped(st)[..i] + [Swapped(st)[i]];
      i := i + 1;
    }
    assert Swapped(st)[..8] == Swapped(st);
  }

  lemma {:induction false} BytesOfAppend(ws: seq<u32>, w: u32)
    ensures BytesOf(ws + [w]) == BytesOf(ws) + Be32(w)
  {
    if ws == [] {
      assert ws + [w] == [w] && [w][1..] == [];
    } else {
      assert (ws + [w])[1..] == ws[1..] + [w];
      BytesOfAppend(ws[1..], w);
    }
  }

  /**
   `hmac_with`: the message's whole blocks, its padded tail and the outer
   block on `e`, resumed from the midstates.
   */
  method HmacWith(ghost f: Compression, e: Engine, ghost key: seq<u8>, k: Keyed, msg: seq<u8>)
    returns (mac: seq<u8>)
    requires Meets(e, f) && k == KeyedOf(f, key)
    ensures mac == Hmac(f, key, msg)
  {
    var inner := InnerState(f, e, key, k, msg);
    mac := OuterHash(f, e, key, k, inner);
  }

  /** First engine call: whole blocks and padded tail, from the inner midstate. */
  method InnerState(ghost f: Compression, e: Engine, ghost key: seq<u8>, k: Keyed, msg: seq<u8>)
    returns (st: Words)
    requires Meets(e, f) && k == KeyedOf(f, key)
    ensures BytesOf(Swapped(st)) == Sha256(f, XorPad(KeyBlock(f, key), 0x36) + msg)
  {
    var whole, tail := PaddedMessage(msg);
    st := e.compress2(k.inner, whole, tail);
    InnerDigest(f, e, key, k, msg, whole, tail);
  }

  /** Second engine call: the outer block, from the outer midstate. */
  method OuterHash(ghost f: Compression, e: Engine, ghost key: seq<u8>, k: Keyed, st: Words)
    returns (digest: seq<u8>)
    requires Meets(e, f) && k == KeyedOf(f, key)
    ensures digest == Sha256(f, XorPad(KeyBlock(f, key), 0x5c) + BytesOf(Swapped(st)))
  {
    var outer := OuterBlock(st);
    var st2 := e.compress(k.outer, outer);
    OuterDigest(f, e, key, k, BytesOf(Swapped(st)), outer);
    digest := DigestOf(st2);
  }

  method DigestOf(st: Words) returns (digest: seq<u8>)
    ensures digest == BytesOf(Swapped(st))
  {
    var out := new u8[32](_ => 0);
    WordsInto(st, out);
    digest := out[..];
  }

  /**
   The message's whole blocks, and the one or two tail blocks that pad what
   is left. The inner hash has already absorbed the 64-byte pad block.
   */
  method PaddedMessage(msg: seq<u8>) returns (blocks: seq<u8>, t: seq<u8>)
    ensures |blocks| % 64 == 0 && |t| % 64 == 0
    ensures blocks + t == msg + Padding(64 + |msg|)
  {
    WholeBlocks(|msg|);
    var whole := |msg| / 64 * 64;
    blocks := msg[..whole];
    t := PaddedTail(msg[whole..], 64 + |msg|);
    SplitThenAppend(msg, whole, Padding(64 + |msg|));
    AlignedTail(|msg|, |Padding(64 + |msg|)|);
  }

  lemma SplitThenAppend(msg: seq<u8>, at: nat, p: seq<u8>)
    requires at <= |msg|
    ensures msg[..at] + (msg[at..] + p) == msg + p
  {
  }

  lemma AlignedTail(len: nat, pad: nat)
    requires (64 + len + pad) % 64 == 0
    ensures (len - len / 64 * 64 + pad) % 64 == 0
  {
    var q := (64 + len + pad) / 64;
    assert len - len / 64 * 64 + pad == 64 * (q - 1 - len / 64);
  }

  method PaddedTail(rest: seq<u8>, absorbed: nat) returns (t: seq<u8>)
    requires |rest| == absorbed % 64
    ensures t == rest + Padding(absorbed)
  {
    var tail := new u8[128](_ => 0);
    CopyInto(tail, 0, rest);
    tail[|rest|] := 0x80;
    var n := if |rest| + 9 <= 64 then 64 else 128;
    var bits := Be64(8 * absorbed);
    CopyInto(tail, n - 8, bits);
    t := tail[..n];
    ZeroFill(absorbed);
    assert Padding(absorbed) == [0x80] + Zeros(n - 9 - |rest|) + bits;
  }

  lemma WholeBlocks(len: nat)
    ensures len / 64 * 64 % 64 == 0 && len / 64 * 64 <= len
    ensures len - len / 64 * 64 == (64 + len) % 64
  {
  }

  /** The zero run that fills the last tail block is the shortest one the standard asks for. */
  lemma ZeroFill(len: nat)
    ensures (if len % 64 + 9 <= 64 then 64 else 128) - 9 - len % 64 == (55 - len) % 64
  {
  }

  /** The one outer block: the inner digest and its padding, with its 64 + 32 bytes counted in bits. */
  method OuterBlock(st: Words) returns (block: seq<u8>)
    ensures block == BytesOf(Swapped(st)) + Padding(96)
  {
    var outer := new u8[64](_ => 0);
    WordsInto(st, outer);
    outer[32] := 0x80;
    CopyInto(outer, 56, Be64((64 + 32) * 8));
    block := outer[..];
    assert (55 - 96) % 64 == 23;
    assert Padding(96) == [0x80] + Zeros(23) + Be64(768);
  }

  lemma PaddedAfter(front: seq<u8>, msg: seq<u8>, padding: seq<u8>)
    ensures front + (msg + padding) == (front + msg) + padding
  {
  }

  lemma InnerDigest(f: Compression, e: Engine, key: seq<u8>, k: Keyed, msg: seq<u8>, whole: seq<u8>, tail: seq<u8>)
    requires Meets(e, f) && k == KeyedOf(f, key)
    requires |whole| % 64 == 0 && |tail| % 64 == 0
    requires whole + tail == msg + Padding(64 + |msg|)
    ensures BytesOf(Swapped(e.compress2(k.inner, whole, tail)))
         == Sha256(f, XorPad(KeyBlock(f, key), 0x36) + msg)
  {
    var ipad := XorPad(KeyBlock(f, key), 0x36);
    var s0 := Absorb(f, IV, ipad);
    SwappedTwice(s0);
    var s1 := Absorb(f, s0, whole);
    SwappedTwice(s1);
    var s2 := Absorb(f, s1, tail);
    SwappedTwice(s2);
    AbsorbAppend(f, s0, whole, tail);
    AbsorbAppend(f, IV, ipad, whole + tail);
    PaddedAfter(ipad, msg, Padding(64 + |msg|));
  }

  lemma OuterDigest(f: Compression, e: Engine, key: seq<u8>, k: Keyed, inner: seq<u8>, block: seq<u8>)
    requires Meets(e, f) && k == KeyedOf(f, key)
    requires |inner| == 32 && block == inner + Padding(96)
    ensures BytesOf(Swapped(e.compress(k.outer, block)))
         == Sha256(f, XorPad(KeyBlock(f, key), 0x5c) + inner)
  {
    var opad := XorPad(KeyBlock(f, key), 0x5c);
    var s0 := Absorb(f, IV, opad);
    SwappedTwice(s0);
    SwappedTwice(Absorb(f, s0, block));
    AbsorbAppend(f, IV, opad, block);
    PaddedAfter(opad, inner, Padding(96));
  }
}
