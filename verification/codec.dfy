/** Bit-vector and hexadecimal codecs of the cellular-automaton hash
    (`text_to_bits`, `to_hex`, `hex_to_bits` in atelier2/main.cpp).

    The C++ code keeps bit vectors as `vector<int>` holding only 0 and 1;
    here a bit is the subset type `Bit` of `int`, so the source's `& 1`
    masks are the identity. A C++ `std::string` is a byte string: the byte
    a character stands for is its code modulo 256 (`CharByte`). */
module BitCodec {

  type Bit = b: int | 0 <= b <= 1

  datatype Result<T> = Ok(value: T) | Err(message: string)

  /** The lookup table `lut` of `to_hex`. */
  const HexDigits: string := "0123456789abcdef"

  function Pow2(n: nat): (p: nat)
    ensures p >= 1
  {
    if n == 0 then 1 else 2 * Pow2(n - 1)
  }

  /** The `unsigned char` value of a character of a C++ string. */
  function CharByte(c: char): (b: nat)
    ensures b < 256
  {
    (c as int) % 256
  }

  function Xor(a: Bit, b: Bit): Bit
  {
    if a == b then 0 else 1
  }

  /** `(v >> j) & 1` on a two's-complement integer: the arithmetic shift
      floors, as Dafny's division by a positive divisor does. */
  function BitOf(v: int, j: nat): Bit
    decreases j
  {
    if j == 0 then v % 2 else BitOf(v / 2, j - 1)
  }

  /** The low `n` bits of `v`, most significant first. */
  function BitsOf(v: int, n: nat): (bits: seq<Bit>)
    ensures |bits| == n
  {
    seq(n, j requires 0 <= j < n => BitOf(v, n - 1 - j))
  }

  /** The unsigned integer a bit string spells, most significant bit first. */
  function Value(s: seq<Bit>): nat
  {
    if s == [] then 0 else 2 * Value(s[..|s| - 1]) + s[|s| - 1]
  }

  /** n bits spell a number below 2^n. */
  lemma {:induction false} ValueBound(s: seq<Bit>)
    ensures Value(s) < Pow2(|s|)
  {
    if s != [] {
      ValueBound(s[..|s| - 1]);
    }
  }

  function HexDigit(v: nat): (c: char)
    requires v < 16
  {
    HexDigits[v]
  }

  predicate IsLowerHex(c: char)
  {
    '0' <= c <= '9' || 'a' <= c <= 'f'
  }

  predicate IsLowerHexString(s: string)
  {
    forall i :: 0 <= i < |s| ==> IsLowerHex(s[i])
  }

  /** C's `tolower` on the ASCII letters; every other character is kept. */
  function ToLower(c: char): char
  {
    if 'A' <= c <= 'Z' then (c as int + 32) as char else c
  }

  /** The digit value `hex_to_bits` computes for a character. It does not
      reject non-hex characters: for them the value is whatever
      `10 + (tolower(c) - 'a')` gives, possibly negative or above 15. */
  function HexValue(c: char): int
  {
    if '0' <= c <= '9' then c as int - '0' as int
    else 10 + (ToLower(c) as int - 'a' as int)
  }

  // ---------------------------------------------------------------------
  // Specification functions

  /** The eight bits of a character's byte, most significant first. */
  function ByteBits(c: char): (bits: seq<Bit>)
    ensures |bits| == 8
  {
    BitsOf(CharByte(c), 8)
  }

  /** Each byte of `s` expanded to eight bits, in order: bit j is bit
      7 - j % 8 of byte j / 8. */
  function TextToBits(s: string): (bits: seq<Bit>)
    ensures |bits| == 8 * |s|
  {
    seq(8 * |s|, j requires 0 <= j < 8 * |s| => BitOf(CharByte(s[j / 8]), 7 - j % 8))
  }

  /** The hex digit of a group of four bits. */
  function NibbleDigit(nibble: seq<Bit>): (c: char)
    requires |nibble| == 4
    ensures IsLowerHex(c)
  {
    ValueBound(nibble);
    HexDigit(Value(nibble))
  }

  /** Every group of four bits rendered as one lowercase hex digit. */
  function BitsToHex(bits: seq<Bit>): (h: string)
    requires |bits| % 4 == 0
    ensures 4 * |h| == |bits|
  {
    seq(|bits| / 4, k requires 0 <= k < |bits| / 4 => NibbleDigit(bits[4 * k .. 4 * k + 4]))
  }

  /** Every character expanded to the four low bits of its digit value. */
  function HexToBits(h: string): (bits: seq<Bit>)
    ensures |bits| == 4 * |h|
  {
    seq(4 * |h|, j requires 0 <= j < 4 * |h| => BitOf(HexValue(h[j / 4]), 3 - j % 4))
  }

  // ---------------------------------------------------------------------
  // Lemmas

  /** Bit i of a bit string, counted from the most significant end, is
      bit |s| - 1 - i of the number it spells. */
  lemma {:induction false} BitOfValue(s: seq<Bit>, i: nat)
    requires i < |s|
    ensures BitOf(Value(s), |s| - 1 - i) == s[i]
  {
    var init := s[..|s| - 1];
    var v := Value(s);
    assert v == 2 * Value(init) + s[|s| - 1];
    if i < |s| - 1 {
      assert v / 2 == Value(init);
      assert init[i] == s[i];
      BitOfValue(init, i);
    } else {
      assert v % 2 == s[|s| - 1];
    }
  }

  lemma BitsOfValue(s: seq<Bit>)
    ensures BitsOf(Value(s), |s|) == s
  {
    forall i | 0 <= i < |s|
      ensures BitsOf(Value(s), |s|)[i] == s[i]
    {
      BitOfValue(s, i);
    }
  }

  lemma {:induction false} ValueOfBitsOf(v: int, n: nat)
    requires 0 <= v < Pow2(n)
    ensures Value(BitsOf(v, n)) == v
  {
    if n > 0 {
      var bits := BitsOf(v, n);
      forall j | 0 <= j < n - 1
        ensures bits[j] == BitsOf(v / 2, n - 1)[j]
      {
        assert bits[j] == BitOf(v, n - 1 - j);
        assert BitOf(v, n - 1 - j) == BitOf(v / 2, n - 2 - j);
      }
      assert bits[..n - 1] == BitsOf(v / 2, n - 1);
      ValueOfBitsOf(v / 2, n - 1);
      assert bits[n - 1] == BitOf(v, 0) == v % 2;
      assert Value(bits) == 2 * Value(bits[..n - 1]) + bits[n - 1];
    }
  }

  lemma {:induction false} ValueAppend(a: seq<Bit>, b: seq<Bit>)
    ensures Value(a + b) == Value(a) * Pow2(|b|) + Value(b)
    decreases |b|
  {
    if b == [] {
      assert a + b == a;
    } else {
      var b' := b[..|b| - 1];
      var ab := a + b;
      assert ab[..|ab| - 1] == a + b';
      assert ab[|ab| - 1] == b[|b| - 1];
      assert Value(ab) == 2 * Value(a + b') + b[|b| - 1];
      assert Value(b) == 2 * Value(b') + b[|b| - 1];
      ValueAppend(a, b');
      ShiftStep(Value(a), Pow2(|b'|), Value(b'), b[|b| - 1]);
    }
  }

  lemma ShiftStep(x: int, p: int, y: int, d: int)
    ensures 2 * (x * p + y) + d == x * (2 * p) + (2 * y + d)
  {
  }

  lemma HexValueOfHexDigit(v: nat)
    requires v < 16
    ensures HexValue(HexDigit(v)) == v
  {
  }

  lemma HexDigitOfHexValue(c: char)
    requires IsLowerHex(c)
    ensures 0 <= HexValue(c) < 16 && HexDigit(HexValue(c)) == c
  {
  }

  /** Bits 8k..8k+7 of `text_to_bits(s)` are the bits of byte k. */
  lemma TextToBitsGroup(s: string, k: nat)
    requires k < |s|
    ensures TextToBits(s)[8 * k .. 8 * k + 8] == ByteBits(s[k])
  {
    forall j | 0 <= j < 8
      ensures TextToBits(s)[8 * k + j] == ByteBits(s[k])[j]
    {
      assert (8 * k + j) / 8 == k && (8 * k + j) % 8 == j;
    }
  }

  /** Reading the eight bits of byte k back as a number gives the byte. */
  lemma TextToBitsBytes(s: string, k: nat)
    requires k < |s|
    ensures Value(TextToBits(s)[8 * k .. 8 * k + 8]) == CharByte(s[k])
  {
    TextToBitsGroup(s, k);
    ValueOfBitsOf(CharByte(s[k]), 8);
  }

  /** One more character adds its eight bits. */
  lemma TextToBitsSnoc(s: string, c: char)
    ensures TextToBits(s + [c]) == TextToBits(s) + ByteBits(c)
  {
    var a, b := TextToBits(s + [c]), TextToBits(s) + ByteBits(c);
    forall j | 0 <= j < |a|
      ensures a[j] == b[j]
    {
      if j < 8 * |s| {
        assert (s + [c])[j / 8] == s[j / 8];
      } else {
        assert j / 8 == |s| && j % 8 == j - 8 * |s|;
      }
    }
  }

  /** One more hex character adds its four bits. */
  lemma HexToBitsSnoc(h: string, c: char)
    ensures HexToBits(h + [c]) == HexToBits(h) + BitsOf(HexValue(c), 4)
  {
    var a, b := HexToBits(h + [c]), HexToBits(h) + BitsOf(HexValue(c), 4);
    forall j | 0 <= j < |a|
      ensures a[j] == b[j]
    {
      if j < 4 * |h| {
        assert (h + [c])[j / 4] == h[j / 4];
      } else {
        assert j / 4 == |h| && j % 4 == j - 4 * |h|;
      }
    }
  }

  /** The hex rendering uses only the sixteen lowercase digits. */
  lemma BitsToHexIsLowerHex(bits: seq<Bit>)
    requires |bits| % 4 == 0
    ensures IsLowerHexString(BitsToHex(bits))
  {
  }

  /** Decoding the hex rendering of a bit string gives the bit string back. */
  lemma HexToBitsOfBitsToHex(bits: seq<Bit>)
    requires |bits| % 4 == 0
    ensures HexToBits(BitsToHex(bits)) == bits
  {
    var h := BitsToHex(bits);
    var back := HexToBits(h);
    forall j | 0 <= j < |bits|
      ensures back[j] == bits[j]
    {
      var k, r := j / 4, j % 4;
      var nibble := bits[4 * k .. 4 * k + 4];
      ValueBound(nibble);
      HexValueOfHexDigit(Value(nibble));
      BitOfValue(nibble, r);
    }
  }

  /** Encoding the bits of a lowercase hex string gives the string back. */
  lemma BitsToHexOfHexToBits(h: string)
    requires IsLowerHexString(h)
    ensures BitsToHex(HexToBits(h)) == h
  {
    var bits := HexToBits(h);
    var back := BitsToHex(bits);
    forall k | 0 <= k < |h|
      ensures back[k] == h[k]
    {
      var nibble := bits[4 * k .. 4 * k + 4];
      forall r | 0 <= r < 4
        ensures nibble[r] == BitsOf(HexValue(h[k]), 4)[r]
      {
        assert (4 * k + r) / 4 == k && (4 * k + r) % 4 == r;
      }
      assert nibble == BitsOf(HexValue(h[k]), 4);
      HexDigitOfHexValue(h[k]);
      ValueOfBitsOf(HexValue(h[k]), 4);
    }
  }

  // ---------------------------------------------------------------------
  // The C++ functions

  /** `text_to_bits`: each byte of `s`, most significant bit first. */
  method TextToBitsOf(s: string) returns (bits: seq<Bit>)
    ensures |bits| == 8 * |s|
    ensures forall k :: 0 <= k < |s| ==> bits[8 * k .. 8 * k + 8] == ByteBits(s[k])
    ensures bits == TextToBits(s)
  {
    bits := [];
    for k := 0 to |s|
      invariant bits == TextToBits(s[..k])
    {
      var c := CharByte(s[k]);
      var i := 7;
      while i >= 0
        invariant -1 <= i <= 7
        invariant bits == TextToBits(s[..k]) + ByteBits(s[k])[..7 - i]
      {
        assert ByteBits(s[k])[..8 - i] == ByteBits(s[k])[..7 - i] + [BitOf(c, i)];
        bits := bits + [BitOf(c, i)];
        i := i - 1;
      }
      assert s[..k + 1] == s[..k] + [s[k]];
      TextToBitsSnoc(s[..k], s[k]);
    }
    assert s[..|s|] == s;
    forall k | 0 <= k < |s| ensures bits[8 * k .. 8 * k + 8] == ByteBits(s[k]) {
      TextToBitsGroup(s, k);
    }
  }

  /** The two digits `to_hex` prints for the byte `v` of bits b..b+7 are
      the digits of its two nibbles. */
  lemma ToHexByte(bits: seq<Bit>, b: nat, v: nat)
    requires b + 8 <= |bits|
    requires v == Value(bits[b .. b + 8]) && v < 256
    ensures HexDigits[v / 16] == NibbleDigit(bits[b .. b + 4])
    ensures HexDigits[v % 16] == NibbleDigit(bits[b + 4 .. b + 8])
  {
    assert bits[b .. b + 8] == bits[b .. b + 4] + bits[b + 4 .. b + 8];
    ByteNibbles(bits[b .. b + 4], bits[b + 4 .. b + 8], v);
  }

  /** The byte value `v` of two nibbles splits back into them. */
  lemma ByteNibbles(hi: seq<Bit>, lo: seq<Bit>, v: nat)
    requires |hi| == 4 && |lo| == 4 && v == Value(hi + lo)
    ensures v / 16 == Value(hi) && v % 16 == Value(lo)
  {
    ValueAppend(hi, lo);
    ValueBound(lo);
    assert Pow2(4) == 16;
    DivMod16(v, Value(hi), Value(lo));
  }

  lemma DivMod16(v: int, q: int, r: int)
    requires v == q * 16 + r && 0 <= r < 16
    ensures v / 16 == q && v % 16 == r
  {
  }

  /** The inner loop of `to_hex`: bits b..b+7 shifted into one byte,
      most significant first. */
  method PackByte(bits: seq<Bit>, b: nat) returns (v: nat)
    requires b + 8 <= |bits|
    ensures v == Value(bits[b .. b + 8]) && v < 256
  {
    ValueBound(bits[b .. b + 8]);
    v := 0;
    for i := 0 to 8
      invariant v == Value(bits[b .. b + i])
    {
      assert bits[b .. b + i + 1][..i] == bits[b .. b + i];
      v := 2 * v + bits[b + i];
    }
    assert Pow2(8) == 256;
  }

  /** `to_hex`: exactly 256 bits become 64 lowercase hex digits, two per
      byte, high nibble first; any other length is an error. */
  method ToHex(bits256: seq<Bit>) returns (r: Result<string>)
    ensures r.Err? <==> |bits256| != 256
    ensures r.Ok? ==> |r.value| == 64 && IsLowerHexString(r.value)
    ensures r.Ok? ==> r.value == BitsToHex(bits256)
  {
    if |bits256| != 256 {
      return Err("to_hex expects 256 bits");
    }
    var out := "";
    var b := 0;
    while b < 256
      invariant 0 <= b <= 256 && b % 8 == 0 && 4 * |out| == b
      invariant forall k :: 0 <= k < |out| ==> out[k] == NibbleDigit(bits256[4 * k .. 4 * k + 4])
    {
      var v := PackByte(bits256, b);
      ToHexByte(bits256, b, v);
      out := out + [HexDigits[v / 16], HexDigits[v % 16]];
      b := b + 8;
    }
    assert out == BitsToHex(bits256);
    BitsToHexIsLowerHex(bits256);
    return Ok(out);
  }

  /** `hex_to_bits`: four bits per character, most significant first. */
  method HexToBitsOf(hex: string) returns (bits: seq<Bit>)
    ensures |bits| == 4 * |hex|
    ensures bits == HexToBits(hex)
  {
    bits := [];
    for k := 0 to |hex|
      invariant bits == HexToBits(hex[..k])
    {
      var v := HexValue(hex[k]);
      var i := 3;
      while i >= 0
        invariant -1 <= i <= 3
        invariant bits == HexToBits(hex[..k]) + BitsOf(v, 4)[..3 - i]
      {
        assert BitsOf(v, 4)[..4 - i] == BitsOf(v, 4)[..3 - i] + [BitOf(v, i)];
        bits := bits + [BitOf(v, i)];
        i := i - 1;
      }
      assert hex[..k + 1] == hex[..k] + [hex[k]];
      HexToBitsSnoc(hex[..k], hex[k]);
    }
    assert hex[..|hex|] == hex;
  }
}
