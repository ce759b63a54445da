/** Fixed-width integers, byte strings and their big- and little-endian forms. */
module Bytes {

  type u8 = x: int | 0 <= x < 0x100
  type u16 = x: int | 0 <= x < 0x1_0000
  type u32 = x: int | 0 <= x < 0x1_0000_0000
  type u64 = x: int | 0 <= x < 0x1_0000_0000_0000_0000

  const TWO_32: int := 0x1_0000_0000
  const TWO_64: int := 0x1_0000_0000_0000_0000

  function Min(a: int, b: int): (m: int)
    ensures m <= a && m <= b && (m == a || m == b)
  {
    if a <= b then a else b
  }

  /** `wrapping_add` and the `as u32` casts: the low 32 bits. */
  function Wrapping(n: int): u32 {
    n % TWO_32
  }

  lemma WrappingAdd(a: nat, b: nat)
    ensures Wrapping(Wrapping(a) + b) == Wrapping(a + b)
  {
  }

  function SaturatingSub(a: u64, b: u64): u64 {
    if a >= b then a - b else 0
  }

  function SaturatingAdd(a: u64, b: u64): u64 {
    Min(a + b, TWO_64 - 1)
  }

  /** `n` zero bytes. */
  function Zeros(n: nat): (z: seq<u8>)
    ensures |z| == n && forall i :: 0 <= i < n ==> z[i] == 0
  {
    seq(n, i => 0)
  }

  function Be16(x: u16): (b: seq<u8>)
    ensures |b| == 2
  {
    [x / 0x100, x % 0x100]
  }

  function FromBe16(b: seq<u8>): u16
    requires |b| == 2
  {
    b[0] as int * 0x100 + b[1]
  }

  function Be32(x: u32): (b: seq<u8>)
    ensures |b| == 4
  {
    [x / 0x100 / 0x100 / 0x100, x / 0x100 / 0x100 % 0x100, x / 0x100 % 0x100, x % 0x100]
  }

  function Le32(x: u32): (b: seq<u8>)
    ensures |b| == 4
  {
    [x % 0x100, x / 0x100 % 0x100, x / 0x100 / 0x100 % 0x100, x / 0x100 / 0x100 / 0x100]
  }

  function FromBe32(b: seq<u8>): u32
    requires |b| == 4
  {
    ((b[0] as int * 0x100 + b[1]) * 0x100 + b[2]) * 0x100 + b[3]
  }

  /** The low 64 bits of `x`, most significant byte first. */
  function Be64(x: nat): (b: seq<u8>)
    ensures |b| == 8
  {
    Be32(x / TWO_32 % TWO_32) + Be32(x % TWO_32)
  }

  /** `u32::swap_bytes`. */
  function SwapBytes(x: u32): u32 {
    FromBe32(Le32(x))
  }

  lemma Be16RoundTrip(x: u16)
    ensures FromBe16(Be16(x)) == x
  {
  }

  lemma Be32RoundTrip(x: u32)
    ensures FromBe32(Be32(x)) == x
  {
  }

  lemma Be16OfBytes(b: seq<u8>)
    requires |b| == 2
    ensures Be16(FromBe16(b)) == b
  {
    DivMod256(b[0], b[1]);
  }

  lemma Be32OfBytes(b: seq<u8>)
    requires |b| == 4
    ensures Be32(FromBe32(b)) == b
  {
    Le32OfBe32(b);
    var x := FromBe32(b);
    forall i | 0 <= i < 4 ensures Be32(x)[i] == b[i] {
      Le32IsReversed(x, 3 - i);
    }
  }

  /** The number a byte string spells, most significant byte first. */
  function BigEndian(b: seq<u8>): nat {
    if b == [] then 0 else BigEndian(b[..|b| - 1]) * 256 + b[|b| - 1]
  }

  lemma {:induction false} BigEndianConcat(a: seq<u8>, b: seq<u8>)
    requires |b| == 4
    ensures BigEndian(a + b) == BigEndian(a) * 0x1_0000_0000 + BigEndian(b)
  {
    var c := a + b;
    assert c[..|c| - 1] == a + b[..3] && c[..|c| - 1][..|a| + 2] == a + b[..2];
    assert (a + b[..2])[..|a| + 1] == a + b[..1] && (a + b[..1])[..|a|] == a;
    BigEndianOfFour(b);
    assert BigEndian(a + b[..1]) == BigEndian(a) * 256 + b[0];
    assert BigEndian(a + b[..2]) == BigEndian(a + b[..1]) * 256 + b[1];
    assert BigEndian(a + b[..3]) == BigEndian(a + b[..2]) * 256 + b[2];
  }

  lemma BigEndianOfFour(b: seq<u8>)
    requires |b| == 4
    ensures BigEndian(b) == FromBe32(b)
  {
    assert b[..3][..2] == b[..2] && b[..2][..1] == b[..1] && b[..1][..0] == [];
    assert BigEndian(b[..1]) == b[0];
    assert BigEndian(b[..2]) == b[0] as int * 256 + b[1];
    assert BigEndian(b[..3]) == (b[0] as int * 256 + b[1]) * 256 + b[2];
  }

  /** Two bytes spell the number, and reading them is reading the number they spell. */
  lemma Be16Spells(x: u16, b: seq<u8>)
    requires |b| == 2
    ensures BigEndian(Be16(x)) == x && FromBe16(b) == BigEndian(b)
  {
    var w := Be16(x);
    assert w[..1][..0] == [] && b[..1][..0] == [];
    assert BigEndian(w[..1]) == w[0] && BigEndian(b[..1]) == b[0];
  }

  lemma Be32Spells(x: u32)
    ensures BigEndian(Be32(x)) == x
  {
    BigEndianOfFour(Be32(x));
    Be32RoundTrip(x);
  }

  /** Eight bytes spell the number's low 64 bits. */
  lemma Be64Spells(x: nat)
    ensures BigEndian(Be64(x)) == x % 0x1_0000_0000_0000_0000
  {
    Be32Spells(x / TWO_32 % TWO_32);
    Be32Spells(x % TWO_32);
    BigEndianConcat(Be32(x / TWO_32 % TWO_32), Be32(x % TWO_32));
  }

  lemma DivMod256(q: int, r: u8)
    ensures (q * 0x100 + r) / 0x100 == q && (q * 0x100 + r) % 0x100 == r
  {
  }

  lemma Le32OfBe32(b: seq<u8>)
    requires |b| == 4
    ensures Le32(FromBe32(b)) == [b[3], b[2], b[1], b[0]]
  {
    var x := b[0] as int;
    DivMod256(x, b[1]);
    var y := x * 0x100 + b[1];
    DivMod256(y, b[2]);
    DivMod256(y * 0x100 + b[2], b[3]);
  }

  lemma Le32IsReversed(x: u32, i: nat)
    requires i < 4
    ensures Le32(x)[i] == Be32(x)[3 - i]
  {
  }

  /** A swapped word's little-endian bytes are the word's big-endian bytes. */
  lemma SwapExchangesByteOrders(x: u32)
    ensures Le32(SwapBytes(x)) == Be32(x)
    ensures SwapBytes(SwapBytes(x)) == x
  {
    Le32OfBe32(Le32(x));
    Be32RoundTrip(x);
  }

  /** `dst[at..at + |src|]` becomes `src`: Rust's `copy_from_slice` on a sub-slice. */
  method CopyInto(dst: array<u8>, at: nat, src: seq<u8>)
    requires at + |src| <= dst.Length
    modifies dst
    ensures dst[..] == old(dst[..at]) + src + old(dst[at + |src|..])
    ensures forall j :: 0 <= j < dst.Length ==>
      dst[j] == if at <= j < at + |src| then src[j - at] else old(dst[j])
  {
    for i := 0 to |src|
      invariant forall j :: 0 <= j < dst.Length ==>
        dst[j] == if at <= j < at + i then src[j - at] else old(dst[j])
    {
      dst[at + i] := src[i];
    }
  }

  /** What is left of a buffer when a second part is stored right after the first. */
  lemma AppendedAfter(front: seq<u8>, part: seq<u8>, start: seq<u8>)
    requires |front| + |part| <= |start|
    ensures var was := front + start[|front|..];
      was[..|front|] + part + was[|front| + |part|..] == (front + part) + start[|front| + |part|..]
  {
    var was := front + start[|front|..];
    assert was[..|front|] == front && was[|front| + |part|..] == start[|front| + |part|..];
  }
}
