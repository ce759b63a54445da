/**
 The relay's newline search: four bytes a step on the aligned middle, exact
 for every way the slice can fall on word boundaries.
 */
module Newline {
  import opened Bytes
  import opened Wrappers

  const NL: u8 := 10

  /** Position `i` holds the first newline. */
  predicate FirstAt(bytes: seq<u8>, i: nat) {
    i < |bytes| && bytes[i] == NL && forall j | 0 <= j < i :: bytes[j] != NL
  }

  // ---------------------------------------------------------------------
  // One word
  // ---------------------------------------------------------------------

  /** Four bytes as the little-endian word they are in memory. */
  function Word(a: bv8, b: bv8, c: bv8, d: bv8): bv32 {
    (a as bv32) | ((b as bv32) << 8) | ((c as bv32) << 16) | ((d as bv32) << 24)
  }

  /** The zero-byte mask of `word ^ 0x0a0a0a0a`. */
  function Mask(word: bv32): bv32 {
    var x := word ^ 0x0a0a_0a0a;
    (x - 0x0101_0101) & !x & 0x8080_8080
  }

  /** Below the first newline every mask byte is clear; at it, exactly the top bit is set. */
  lemma MaskBytes(a: bv8, b: bv8, c: bv8, d: bv8)
    ensures var m := Mask(Word(a, b, c, d));
      && (a == 10 ==> m & 0xff == 0x80)
      && (a != 10 ==> m & 0xff == 0)
      && (a != 10 && b == 10 ==> (m >> 8) & 0xff == 0x80)
      && (a != 10 && b != 10 ==> (m >> 8) & 0xff == 0)
  {
  }

  lemma MaskHighBytes(a: bv8, b: bv8, c: bv8, d: bv8)
    requires a != 10 && b != 10
    ensures var m := Mask(Word(a, b, c, d));
      && (c == 10 ==> (m >> 16) & 0xff == 0x80)
      && (c != 10 ==> (m >> 16) & 0xff == 0)
      && (c != 10 && d == 10 ==> (m >> 24) & 0xff == 0x80)
      && (c != 10 && d != 10 ==> m == 0)
  {
  }

  /** `trailing_zeros`. */
  function TrailingZeros(z: bv32, left: nat): nat
    decreases left
  {
    if left == 0 || z & 1 == 1 then 0 else 1 + TrailingZeros(z >> 1, left - 1)
  }

  lemma ClearBits(z: bv32)
    requires z & 0xf == 0
    ensures z & 1 == 0 && (z >> 1) & 1 == 0 && ((z >> 1) >> 1) & 1 == 0 && (((z >> 1) >> 1) >> 1) & 1 == 0
    ensures (((z >> 1) >> 1) >> 1) >> 1 == z >> 4
  {
  }

  lemma FourClear(z: bv32, left: nat)
    requires z & 0xf == 0 && left >= 4
    ensures TrailingZeros(z, left) == 4 + TrailingZeros(z >> 4, left - 4)
  {
    ClearBits(z);
    var z1, z2, z3 := z >> 1, (z >> 1) >> 1, ((z >> 1) >> 1) >> 1;
    assert TrailingZeros(z3, left - 3) == 1 + TrailingZeros(z3 >> 1, left - 4);
    assert TrailingZeros(z2, left - 2) == 1 + TrailingZeros(z3, left - 3);
    assert TrailingZeros(z1, left - 1) == 1 + TrailingZeros(z2, left - 2);
  }

  lemma Nibbles(z: bv32)
    ensures z & 0xff == 0 ==> z & 0xf == 0 && (z >> 4) & 0xf == 0 && (z >> 4) >> 4 == z >> 8
    ensures z & 0xff == 0x80 ==> z & 0xf == 0 && (z >> 4) & 0xf == 8
  {
  }

  lemma ByteClear(z: bv32, left: nat)
    requires z & 0xff == 0 && left >= 8
    ensures TrailingZeros(z, left) == 8 + TrailingZeros(z >> 8, left - 8)
  {
    Nibbles(z);
    FourClear(z, left);
    FourClear(z >> 4, left - 4);
  }

  lemma TopBits(y: bv32)
    requires y & 0xf == 8
    ensures y & 1 == 0 && (y >> 1) & 1 == 0 && ((y >> 1) >> 1) & 1 == 0 && (((y >> 1) >> 1) >> 1) & 1 == 1
  {
  }

  lemma ByteTop(z: bv32, left: nat)
    requires z & 0xff == 0x80 && left >= 8
    ensures TrailingZeros(z, left) == 7
  {
    Nibbles(z);
    FourClear(z, left);
    var y := z >> 4;
    TopBits(y);
    var y1, y2, y3 := y >> 1, (y >> 1) >> 1, ((y >> 1) >> 1) >> 1;
    assert TrailingZeros(y3, left - 7) == 0;
    assert TrailingZeros(y2, left - 6) == 1;
    assert TrailingZeros(y1, left - 5) == 2;
  }

  lemma Shifted(z: bv32)
    ensures (z >> 8) >> 8 == z >> 16 && (z >> 16) >> 8 == z >> 24
  {
  }

  lemma NonZero(z: bv32)
    requires z & 0xff == 0x80 || (z >> 8) & 0xff == 0x80 || (z >> 16) & 0xff == 0x80 || (z >> 24) & 0xff == 0x80
    ensures z != 0
  {
  }

  /** Which of four bytes holds the first newline; 4 when none does. */
  function FirstOfFour(a: bv8, b: bv8, c: bv8, d: bv8): nat {
    if a == 10 then 0 else if b == 10 then 1 else if c == 10 then 2 else if d == 10 then 3 else 4
  }

  /** The lowest set bit of the mask is exact: no borrow reaches a byte below the first newline. */
  lemma MaskIsExact(a: bv8, b: bv8, c: bv8, d: bv8)
    ensures var m := Mask(Word(a, b, c, d));
      && (m == 0 <==> FirstOfFour(a, b, c, d) == 4)
      && (m != 0 ==> TrailingZeros(m, 32) / 8 == FirstOfFour(a, b, c, d))
  {
    var m := Mask(Word(a, b, c, d));
    MaskBytes(a, b, c, d);
    if a != 10 && b != 10 {
      MaskHighBytes(a, b, c, d);
    }
    MaskLocated(m, FirstOfFour(a, b, c, d));
  }

  lemma MaskLocated(m: bv32, k: nat)
    requires k <= 4 && (k == 4 ==> m == 0)
    requires k == 0 ==> m & 0xff == 0x80
    requires k == 1 ==> m & 0xff == 0 && (m >> 8) & 0xff == 0x80
    requires k == 2 ==> m & 0xff == 0 && (m >> 8) & 0xff == 0 && (m >> 16) & 0xff == 0x80
    requires k == 3 ==> m & 0xff == 0 && (m >> 8) & 0xff == 0 && (m >> 16) & 0xff == 0 && (m >> 24) & 0xff == 0x80
    ensures m == 0 <==> k == 4
    ensures m != 0 ==> TrailingZeros(m, 32) == 8 * k + 7
  {
    if k < 4 {
      NonZero(m);
      Shifted(m);
      if k > 0 { ByteClear(m, 32); }
      if k > 1 { ByteClear(m >> 8, 24); }
      if k > 2 { ByteClear(m >> 16, 16); }
      ByteTop(if k == 0 then m else if k == 1 then m >> 8 else if k == 2 then m >> 16 else m >> 24, 32 - 8 * k);
    }
  }

  // ---------------------------------------------------------------------
  // The search
  // ---------------------------------------------------------------------

  /** A byte as eight bits; only whether it is a newline matters from here on. */
  method Load(b: u8) returns (bits: bv8)
    ensures bits == 10 <==> b == NL
  {
    bits := b as bv8;
  }

  /** A byte a step: the ends of the slice, and the oracle for all of it. */
  method Position(bytes: seq<u8>) returns (r: Option<nat>)
    ensures r.Some? ==> FirstAt(bytes, r.value)
    ensures r.None? ==> NL !in bytes
  {
    for i := 0 to |bytes|
      invariant NL !in bytes[..i]
    {
      if bytes[i] == NL {
        return Some(i);
      }
      assert bytes[..i + 1] == bytes[..i] + [bytes[i]];
    }
    assert bytes[..|bytes|] == bytes;
    r := None;
  }

  /** One word of the middle. */
  method InWord(w: seq<u8>) returns (r: Option<nat>)
    requires |w| == 4
    ensures r.Some? ==> FirstAt(w, r.value)
    ensures r.None? ==> NL !in w
  {
    var a := Load(w[0]);
    var b := Load(w[1]);
    var c := Load(w[2]);
    var d := Load(w[3]);
    var zero := Mask(Word(a, b, c, d));
    MaskIsExact(a, b, c, d);
    FirstInWord(w, a, b, c, d);
    if zero != 0 {
      return Some(TrailingZeros(zero, 32) / 8);
    }
    r := None;
  }

  lemma FirstInWord(w: seq<u8>, a: bv8, b: bv8, c: bv8, d: bv8)
    requires |w| == 4
    requires (a == 10) == (w[0] == NL) && (b == 10) == (w[1] == NL)
    requires (c == 10) == (w[2] == NL) && (d == 10) == (w[3] == NL)
    ensures var k := FirstOfFour(a, b, c, d); if k < 4 then FirstAt(w, k) else NL !in w
  {
  }

  lemma FoundLater(bytes: seq<u8>, at: nat, part: seq<u8>, i: nat)
    requires at + |part| <= |bytes| && bytes[at..at + |part|] == part
    requires NL !in bytes[..at] && FirstAt(part, i)
    ensures FirstAt(bytes, at + i)
  {
    assert bytes[at + i] == part[i];
    forall j | 0 <= j < at + i ensures bytes[j] != NL {
      if j < at {
        assert bytes[..at][j] == bytes[j];
      } else {
        assert bytes[j] == part[j - at];
      }
    }
  }

  /**
   `newline`, with the slice split after `head` bytes and `words` whole words:
   whatever split its address gives, the first newline or none.
   */
  method Find(bytes: seq<u8>, head: nat, words: nat) returns (r: Option<nat>)
    requires head + 4 * words <= |bytes|
    ensures r.Some? ==> FirstAt(bytes, r.value)
    ensures r.None? ==> NL !in bytes
  {
    r := Position(bytes[..head]);
    if r.Some? {
      return;
    }
    for w := 0 to words
      invariant NL !in bytes[..head + 4 * w]
    {
      var at := head + 4 * w;
      var found := InWord(bytes[at..at + 4]);
      if found.Some? {
        FoundLater(bytes, at, bytes[at..at + 4], found.value);
        return Some(at + found.value);
      }
      assert bytes[..at + 4] == bytes[..at] + bytes[at..at + 4];
    }
    var at := head + 4 * words;
    var found := Position(bytes[at..]);
    if found.Some? {
      FoundLater(bytes, at, bytes[at..], found.value);
      return Some(at + found.value);
    }
    assert bytes == bytes[..at] + bytes[at..];
    r := None;
  }

  /** There is only one answer. */
  lemma FirstIsUnique(bytes: seq<u8>, i: nat, j: nat)
    requires FirstAt(bytes, i) && FirstAt(bytes, j)
    ensures i == j && NL in bytes
  {
  }
}
