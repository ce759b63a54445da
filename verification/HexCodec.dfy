/** The relay's line codec: bytes as lower-case hex and back, numbers in decimal. */
module HexCodec {
  import opened Bits
  import opened Bytes
  import opened Wrappers

  // ---------------------------------------------------------------------
  // Digits
  // ---------------------------------------------------------------------

  /** `DIGITS[v]`. */
  function Digit(v: u8): u8
    requires v < 16
  {
    if v < 10 then 48 + v else 97 + (v - 10)
  }

  /** The sixteen digits, in order. */
  lemma DigitIs(v: u8)
    requires v < 16
    ensures Digit(v) as char == "0123456789abcdef"[v]
  {
  }

  predicate IsHexDigit(c: u8) {
    48 <= c <= 57 || 97 <= c <= 102 || 65 <= c <= 70
  }

  const INVALID: u8 := 0x80

  /** `NIBBLES[c]`: the digit's value, or `INVALID`. */
  function Nibble(c: u8): (v: u8)
    ensures if IsHexDigit(c) then v < 16 else v == INVALID
  {
    if 48 <= c <= 57 then c - 48
    else if 97 <= c <= 102 then c - 97 + 10
    else if 65 <= c <= 70 then c - 65 + 10
    else INVALID
  }

  function Lower(c: u8): u8 {
    if 65 <= c <= 70 then c + 32 else c
  }

  /** What each character is worth: a digit in either case, and no other character. */
  lemma NibbleIs(c: u8)
    ensures Nibble(c) < 16 <==> c as char in "0123456789abcdef" || c as char in "0123456789ABCDEF"
    ensures Nibble(c) < 16 ==>
      c as char == "0123456789abcdef"[Nibble(c)] || c as char == "0123456789ABCDEF"[Nibble(c)]
  {
    var lower, upper := "0123456789abcdef", "0123456789ABCDEF";
    if 65 <= c <= 70 {
      assert c as char == upper[c - 55];
    } else if IsHexDigit(c) {
      assert c as char == lower[if c <= 57 then c - 48 else c - 87];
    }
  }

  /** Lower case, as far as hex digits go: "A" to "F" become "a" to "f". */
  lemma LowerIs(c: u8)
    ensures Lower(c) == if 'A' <= c as char <= 'F' then c + 32 else c
  {
  }

  lemma DigitOfNibble(c: u8)
    requires IsHexDigit(c)
    ensures Digit(Nibble(c)) == Lower(c)
  {
  }

  lemma NibbleOfDigit(v: u8)
    requires v < 16
    ensures IsHexDigit(Digit(v)) && Nibble(Digit(v)) == v && Lower(Digit(v)) == Digit(v)
  {
  }

  /** The table's two digits of one byte. */
  function Pair(b: u8): (p: seq<u8>)
    ensures |p| == 2
  {
    [Digit(b / 16), Digit(b % 16)]
  }

  /** One byte's text: the high digit first. */
  lemma PairIs(b: u8)
    ensures Pair(b)[0] as char == "0123456789abcdef"[b / 16]
    ensures Pair(b)[1] as char == "0123456789abcdef"[b % 16]
  {
    DigitIs(b / 16);
    DigitIs(b % 16);
  }

  function Hex(bytes: seq<u8>): (text: seq<u8>)
    ensures |text| == 2 * |bytes|
  {
    if bytes == [] then [] else Pair(bytes[0]) + Hex(bytes[1..])
  }

  /** The value of a text of hex digits in pairs; `None` for any other text. */
  function Unhex(text: seq<u8>): (r: Option<seq<u8>>)
    ensures r.Some? ==> |r.value| == |text| / 2
    decreases |text|
  {
    if text == [] then Some([])
    else if |text| == 1 || !IsHexDigit(text[0]) || !IsHexDigit(text[1]) then None
    else
      var rest := Unhex(text[2..]);
      if rest.None? then None else Some([16 * Nibble(text[0]) + Nibble(text[1])] + rest.value)
  }

  predicate HexText(text: seq<u8>) {
    |text| % 2 == 0 && forall i | 0 <= i < |text| :: IsHexDigit(text[i])
  }

  lemma {:induction false} AcceptsHexText(text: seq<u8>)
    ensures Unhex(text).Some? <==> HexText(text)
    decreases |text|
  {
    if |text| >= 2 {
      AcceptsHexText(text[2..]);
      if HexText(text[2..]) && IsHexDigit(text[0]) && IsHexDigit(text[1]) {
        forall i | 0 <= i < |text| ensures IsHexDigit(text[i]) {
          assert i >= 2 ==> text[i] == text[2..][i - 2];
        }
      }
      if HexText(text) {
        forall i | 0 <= i < |text[2..]| ensures IsHexDigit(text[2..][i]) {
          assert text[2..][i] == text[i + 2];
        }
      }
    }
  }

  // ---------------------------------------------------------------------
  // Round trips
  // ---------------------------------------------------------------------

  /** Every byte string comes back from its hex. */
  lemma {:induction false} UnhexOfHex(bytes: seq<u8>)
    ensures Unhex(Hex(bytes)) == Some(bytes)
  {
    if bytes != [] {
      var b := bytes[0];
      NibbleOfDigit(b / 16);
      NibbleOfDigit(b % 16);
      UnhexOfHex(bytes[1..]);
      assert Hex(bytes)[2..] == Hex(bytes[1..]);
      assert [b] + bytes[1..] == bytes;
    }
  }

  function Lowered(text: seq<u8>): (l: seq<u8>)
    ensures |l| == |text| && forall i | 0 <= i < |l| :: l[i] == Lower(text[i])
  {
    seq(|text|, i requires 0 <= i < |text| => Lower(text[i]))
  }

  /** An accepted text comes back lower-cased. */
  lemma {:induction false} HexOfUnhex(text: seq<u8>)
    requires Unhex(text).Some?
    ensures Hex(Unhex(text).value) == Lowered(text)
    decreases |text|
  {
    if text != [] {
      HexOfUnhex(text[2..]);
      DigitOfNibble(text[0]);
      DigitOfNibble(text[1]);
      var b: u8 := 16 * Nibble(text[0]) + Nibble(text[1]);
      var bytes := Unhex(text).value;
      assert bytes[0] == b && bytes[1..] == Unhex(text[2..]).value;
      assert b / 16 == Nibble(text[0]) && b % 16 == Nibble(text[1]);
      assert Lowered(text) == [Lower(text[0]), Lower(text[1])] + Lowered(text[2..]);
    }
  }

  // ---------------------------------------------------------------------
  // The loops
  // ---------------------------------------------------------------------

  lemma {:induction false} HexOneMore(bytes: seq<u8>, i: nat)
    requires i < |bytes|
    ensures Hex(bytes[..i + 1]) == Hex(bytes[..i]) + Pair(bytes[i])
    decreases i
  {
    assert bytes[..i + 1][1..] == bytes[1..][..i];
    if i > 0 {
      HexOneMore(bytes[1..], i - 1);
      assert bytes[..i][1..] == bytes[1..][..i - 1];
    }
  }

  /** `hex_into`: the caller's buffer has room for two digits a byte. */
  method HexInto(bytes: seq<u8>, out: array<u8>) returns (n: nat)
    requires 2 * |bytes| <= out.Length
    modifies out
    ensures n == 2 * |bytes| && out[..] == Hex(bytes) + old(out[n..])
  {
    ghost var start := out[..];
    for i := 0 to |bytes|
      invariant out[..] == Hex(bytes[..i]) + start[2 * i..]
    {
      StorePair(Hex(bytes[..i]), bytes[i], start, out, 2 * i);
      HexOneMore(bytes, i);
    }
    assert bytes[..|bytes|] == bytes;
    n := 2 * |bytes|;
  }

  /** One byte's two digits, after those already written. */
  method StorePair(ghost front: seq<u8>, b: u8, ghost start: seq<u8>, out: array<u8>, at: nat)
    requires |start| == out.Length && at == |front| && at + 2 <= out.Length
    requires out[..] == front + start[at..]
    modifies out
    ensures out[..] == (front + Pair(b)) + start[at + 2..]
  {
    CopyInto(out, at, Pair(b));
    AppendedAfter(front, Pair(b), start);
  }

  /** `(high | low) & INVALID != 0`: the table's mark survives the or. */
  lemma MarkSurvives(c: u8, d: u8)
    ensures Or(Nibble(c), Nibble(d)) / 128 % 2 == 1 <==> !IsHexDigit(c) || !IsHexDigit(d)
  {
    OrOfBitSeven(Nibble(c), Nibble(d));
  }

  lemma OrOfBitSeven(x: nat, y: nat)
    ensures Or(x, y) / 128 % 2 == 1 <==> x / 128 % 2 == 1 || y / 128 % 2 == 1
  {
    OrBit(x, y, 7);
    BitSeven(x);
    BitSeven(y);
    BitSeven(Or(x, y));
  }

  lemma BitSeven(x: nat)
    ensures Bit(x, 7) <==> x / 128 % 2 == 1
  {
    assert Bit(x, 7) == Bit(x / 2, 6) == Bit(x / 2 / 2, 5) == Bit(x / 2 / 2 / 2, 4);
    var y := x / 2 / 2 / 2;
    assert Bit(y, 4) == Bit(y / 2, 3) == Bit(y / 2 / 2, 2) == Bit(y / 2 / 2 / 2, 1);
    var z := y / 2 / 2 / 2;
    assert Bit(z, 1) == Bit(z / 2, 0);
  }

  /** `(high << 4) | low`: nothing overlaps. */
  lemma OrOfNibbles(high: nat, low: nat)
    requires high < 16 && low < 16
    ensures Or(high * 16, low) == high * 16 + low
  {
    assert Pow2(4) == 16;
    OrOfDisjoint(high, low, 4);
  }

  lemma {:induction false} OrOfDisjoint(high: nat, low: nat, k: nat)
    requires low < Pow2(k)
    ensures Or(high * Pow2(k), low) == high * Pow2(k) + low
    decreases k
  {
    if k == 0 {
      OrWithZero(high);
    } else {
      var h := high * Pow2(k - 1);
      assert high * Pow2(k) == 2 * h;
      OrOfDisjoint(high, low / 2, k - 1);
      OrHalf(2 * h, low);
    }
  }

  lemma {:induction false} OrWithZero(a: nat)
    ensures Or(a, 0) == a
  {
    if a > 0 {
      OrWithZero(a / 2);
    }
  }

  /** Pair `i` is the first that is not two digits, and exactly the bytes before it are in the buffer. */
  ghost predicate StoppedAt(text: seq<u8>, i: nat, was: seq<u8>, now: seq<u8>) {
    && 2 * i + 2 <= |text| && i < |was|
    && !(IsHexDigit(text[2 * i]) && IsHexDigit(text[2 * i + 1]))
    && Unhex(text[..2 * i]).Some? && now == Unhex(text[..2 * i]).value + was[i..]
  }

  /**
   `unhex`: the bytes written and their number, or `None`: at once for a
   length it cannot take, else at the first pair that is not two digits.
   */
  method UnhexInto(text: seq<u8>, out: array<u8>) returns (n: Option<nat>)
    modifies out
    ensures n.Some? <==> |text| / 2 <= out.Length && HexText(text)
    ensures n.Some? ==> n.value == |text| / 2 && Unhex(text).Some? && out[..] == Unhex(text).value + old(out[n.value..])
    ensures |text| % 2 != 0 || |text| / 2 > out.Length ==> out[..] == old(out[..])
    ensures n.None? && |text| % 2 == 0 && |text| / 2 <= out.Length ==>
      exists i: nat :: StoppedAt(text, i, old(out[..]), out[..])
  {
    if |text| % 2 != 0 || |text| / 2 > out.Length {
      return None;
    }
    var size, ok := |text| / 2, true;
    ghost var start, bytes := out[..], [];
    var i := 0;
    while i < size && ok
      invariant 0 <= i <= size && |bytes| == i
      invariant Unhex(text[..2 * i]) == Some(bytes) && out[..] == bytes + start[i..]
      invariant !ok ==> i < size && !(IsHexDigit(text[2 * i]) && IsHexDigit(text[2 * i + 1]))
      decreases size - i, ok
    {
      ok, bytes, i := UnhexStep(text, start, bytes, i, out);
    }
    if !ok {
      assert StoppedAt(text, i, start, out[..]);
      return None;
    }
    assert text[..2 * size] == text;
    AcceptsHexText(text);
    n := Some(size);
  }

  /** One pair: its byte stored, or the end of the loop at the first that is not two digits. */
  method UnhexStep(text: seq<u8>, ghost start: seq<u8>, ghost bytes: seq<u8>, i: nat, out: array<u8>)
    returns (ok: bool, ghost more: seq<u8>, next: nat)
    requires 2 * i + 2 <= |text| && |bytes| == i < out.Length == |start|
    requires Unhex(text[..2 * i]) == Some(bytes) && out[..] == bytes + start[i..]
    modifies out
    ensures ok <==> IsHexDigit(text[2 * i]) && IsHexDigit(text[2 * i + 1])
    ensures next == (if ok then i + 1 else i) && |more| == next
    ensures Unhex(text[..2 * next]) == Some(more) && out[..] == more + start[next..]
  {
    var b := UnhexPair(text[2 * i], text[2 * i + 1]);
    ok, more, next := b.Some?, bytes, i;
    if ok {
      out[i] := b.value;
      UnhexOneMore(text, i);
      more, next := bytes + [b.value], i + 1;
    }
  }

  /** Two table loads and one test. */
  method UnhexPair(c: u8, d: u8) returns (b: Option<u8>)
    ensures b.Some? <==> IsHexDigit(c) && IsHexDigit(d)
    ensures b.Some? ==> b.value == 16 * Nibble(c) + Nibble(d)
  {
    var high, low := Nibble(c), Nibble(d);
    MarkSurvives(c, d);
    if Or(high, low) / 128 % 2 == 1 {
      return None;
    }
    OrOfNibbles(high, low);
    b := Some(Or(high * 16, low));
  }

  lemma {:induction false} UnhexOneMore(text: seq<u8>, i: nat)
    requires 2 * i + 2 <= |text| && Unhex(text[..2 * i]).Some?
    requires IsHexDigit(text[2 * i]) && IsHexDigit(text[2 * i + 1])
    ensures var r := Unhex(text[..2 * i + 2]);
      r == Some(Unhex(text[..2 * i]).value + [16 * Nibble(text[2 * i]) + Nibble(text[2 * i + 1])])
    decreases i
  {
    var head, tail := text[..2 * i + 2], text[2..];
    var last := [16 * Nibble(text[2 * i]) + Nibble(text[2 * i + 1])];
    assert head[2..] == tail[..2 * i];
    if i > 0 {
      assert text[..2 * i][2..] == tail[..2 * i - 2];
      UnhexOneMore(tail, i - 1);
      var first := [16 * Nibble(text[0]) + Nibble(text[1])];
      var v := Unhex(tail[..2 * i - 2]).value;
      assert Unhex(text[..2 * i]) == Some(first + v);
      assert Unhex(head) == Some(first + (v + last));
      assert first + (v + last) == (first + v) + last;
    } else {
      assert text[..2 * i] == [] && head[2..] == [];
      assert Unhex(head) == Some(last + []);
      assert last + [] == [] + last;
    }
  }

  // ---------------------------------------------------------------------
  // Decimal
  // ---------------------------------------------------------------------

  type i32 = x: int | -0x8000_0000 <= x < 0x8000_0000

  const MINUS: u8 := 45

  /** The digits of a number, no more than it needs. */
  function Digits(v: nat): (d: seq<u8>)
    ensures |d| >= 1
  {
    if v < 10 then [48 + v] else Digits(v / 10) + [48 + v % 10]
  }

  function Magnitude(n: i32): u32 {
    if n < 0 then 0 - n as int else n
  }

  function Decimal(n: i32): (text: seq<u8>)
    ensures |text| >= 1
  {
    if n < 0 then [MINUS] + Digits(Magnitude(n)) else Digits(Magnitude(n))
  }

  function ParseDigits(d: seq<u8>): nat {
    if d == [] then 0 else 10 * ParseDigits(d[..|d| - 1]) + (if d[|d| - 1] >= 48 then d[|d| - 1] - 48 else 0)
  }

  /** A signed decimal text's value. */
  function Parse(text: seq<u8>): int {
    if text != [] && text[0] == MINUS then 0 - ParseDigits(text[1..]) as int else ParseDigits(text)
  }

  lemma {:induction false} ParseOfDigits(v: nat)
    ensures ParseDigits(Digits(v)) == v
    ensures forall i | 0 <= i < |Digits(v)| :: 48 <= Digits(v)[i] <= 57
    ensures Digits(v)[0] == 48 <==> v == 0
  {
    if v >= 10 {
      ParseOfDigits(v / 10);
      var d := Digits(v);
      assert d[..|d| - 1] == Digits(v / 10);
    } else {
      var d := Digits(v);
      assert d[..0] == [];
    }
  }

  lemma DecimalDigit(c: u8)
    requires 48 <= c <= 57
    ensures c as char in "0123456789"
  {
    var ten := "0123456789";
    assert c as char == ten[c - 48];
  }

  /** The text reads back as the number; no leading zero, and a minus only in front of a nonzero number. */
  lemma ParseOfDecimal(n: i32)
    ensures Parse(Decimal(n)) == n
    ensures n < 0 <==> Decimal(n)[0] as char == '-'
    ensures var digits := Digits(Magnitude(n));
      && (Decimal(n) == digits || Decimal(n) == [MINUS] + digits)
      && (digits[0] == 48 <==> n == 0)
      && forall i | 0 <= i < |digits| :: digits[i] as char in "0123456789"
  {
    forall i | 0 <= i < |Digits(Magnitude(n))| ensures Digits(Magnitude(n))[i] as char in "0123456789" {
      ParseOfDigits(Magnitude(n));
      DecimalDigit(Digits(Magnitude(n))[i]);
    }
    ParseOfDigits(Magnitude(n));
    if n < 0 {
      assert Decimal(n)[1..] == Digits(Magnitude(n));
    }
  }

  function Pow10(k: nat): nat {
    if k == 0 then 1 else 10 * Pow10(k - 1)
  }

  lemma {:induction false} DigitCount(v: nat, k: nat)
    requires k >= 1 && v < Pow10(k)
    ensures |Digits(v)| <= k
    decreases k
  {
    if v >= 10 {
      DigitCount(v / 10, k - 1);
    }
  }

  lemma AtMostTenDigits(v: u32)
    ensures |Digits(v)| <= 10
  {
    assert Pow10(5) == 100_000;
    assert Pow10(10) == 10_000_000_000;
    DigitCount(v, 10);
  }

  /** `DECIMAL_PAIRS[v]`. */
  function DecimalPair(v: nat): (p: seq<u8>)
    requires v < 100
    ensures |p| == 2
  {
    [48 + v / 10, 48 + v % 10]
  }

  /** Two digits at a division: the table's pair is the last two digits. */
  lemma LastPair(v: nat)
    requires v >= 100
    ensures Digits(v) == Digits(v / 100) + DecimalPair(v % 100)
  {
    assert v / 10 / 10 == v / 100;
    assert v % 100 / 10 == v / 10 % 10 && v % 100 % 10 == v % 10;
    assert Digits(v) == Digits(v / 10) + [48 + v % 10];
    assert Digits(v / 10) == Digits(v / 10 / 10) + [48 + v / 10 % 10];
  }

  lemma FirstPair(v: nat)
    requires 10 <= v < 100
    ensures Digits(v) == DecimalPair(v)
  {
    assert Digits(v / 10) == [48 + v / 10];
  }

  /** `decimal_into`: the caller's buffer has room. */
  method DecimalInto(n: i32, out: array<u8>) returns (len: nat)
    requires |Decimal(n)| <= out.Length
    modifies out
    ensures len == |Decimal(n)| <= 11
    ensures out[..] == Decimal(n) + old(out[len..])
  {
    var text := BuildDecimal(n);
    len := |text|;
    CopyInto(out, 0, text);
  }

  /** The digits, built from the right in eleven bytes. */
  method BuildDecimal(n: i32) returns (text: seq<u8>)
    ensures text == Decimal(n) && |text| <= 11
  {
    var buf := new u8[11](_ => 0);
    var at := BuildDigits(Magnitude(n), buf);
    if n < 0 {
      at := StoreDigits([MINUS], at, buf);
    }
    text := buf[at..];
  }

  method BuildDigits(v: u32, buf: array<u8>) returns (at: nat)
    requires buf.Length == 11
    modifies buf
    ensures 1 <= at <= 10 && buf[at..] == Digits(v)
  {
    at := 11;
    var rest: nat := v;
    AtMostTenDigits(v);
    while rest >= 100
      invariant 0 <= at <= 11 && Digits(v) == Digits(rest) + buf[at..]
    {
      LastPair(rest);
      assert |Digits(rest / 100)| >= 1;
      at := StoreDigits(DecimalPair(rest % 100), at, buf);
      rest := rest / 100;
    }
    if rest >= 10 {
      FirstPair(rest);
      at := StoreDigits(DecimalPair(rest), at, buf);
    } else {
      at := StoreDigits([48 + rest], at, buf);
    }
  }

  method StoreDigits(d: seq<u8>, at: nat, buf: array<u8>) returns (next: nat)
    requires |d| <= at <= buf.Length
    modifies buf
    ensures next == at - |d| && buf[next..] == d + old(buf[at..])
  {
    next := at - |d|;
    CopyInto(buf, next, d);
  }
}
