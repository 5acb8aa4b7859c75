/** UTF-8: the encoding of section 3 of RFC 3629, and the byte sequences its section 4 admits. */
module Utf8 {
  import opened Prelude
  import opened Bytes

  function EncodeChar(c: char): (r: bytes)
    ensures 1 <= |r| <= 4
  {
    var n := c as int;
    if n < 0x80 then [n]
    else if n < 0x800 then [0xC0 + n / 64, 0x80 + n % 64]
    else if n < 0x10000 then [0xE0 + n / 4096, 0x80 + n / 64 % 64, 0x80 + n % 64]
    else [0xF0 + n / 262144, 0x80 + n / 4096 % 64, 0x80 + n / 64 % 64, 0x80 + n % 64]
  }

  function Encode(s: string): bytes {
    if s == [] then [] else EncodeChar(s[0]) + Encode(s[1..])
  }

  /** A continuation byte at `i`. */
  predicate Tail(b: bytes, i: nat) { i < |b| && 0x80 <= b[i] < 0xC0 }

  /** A byte of the given range at the second place. */
  predicate Second(b: bytes, lo: int, hi: int) { 1 < |b| && lo <= b[1] <= hi }

  /** How many bytes the first character takes by the grammar; 0 when none can be read. */
  function Width(b: bytes): (w: nat)
    ensures w <= |b|
  {
    if b == [] then 0
    else if b[0] < 0x80 then 1
    else if 0xC2 <= b[0] <= 0xDF && Tail(b, 1) then 2
    else if b[0] == 0xE0 && Second(b, 0xA0, 0xBF) && Tail(b, 2) then 3
    else if (0xE1 <= b[0] <= 0xEC || 0xEE <= b[0] <= 0xEF) && Tail(b, 1) && Tail(b, 2) then 3
    else if b[0] == 0xED && Second(b, 0x80, 0x9F) && Tail(b, 2) then 3
    else if b[0] == 0xF0 && Second(b, 0x90, 0xBF) && Tail(b, 2) && Tail(b, 3) then 4
    else if 0xF1 <= b[0] <= 0xF3 && Tail(b, 1) && Tail(b, 2) && Tail(b, 3) then 4
    else if b[0] == 0xF4 && Second(b, 0x80, 0x8F) && Tail(b, 2) && Tail(b, 3) then 4
    else 0
  }

  /** The code point of the lead's bits and three digits of six bits each. */
  function Point(lead: int, x: int, y: int, z: int): int {
    lead * 262144 + x * 4096 + y * 64 + z
  }

  function FirstPoint(b: bytes): int
    requires Width(b) > 0
  {
    var w, lead: int := Width(b), b[0];
    if w == 1 then lead
    else
      var x: int := b[1];
      if w == 2 then Point(0, 0, lead - 0xC0, x - 0x80)
      else
        var y: int := b[2];
        if w == 3 then Point(0, lead - 0xE0, x - 0x80, y - 0x80)
        else
          var z: int := b[3];
          Point(lead - 0xF0, x - 0x80, y - 0x80, z - 0x80)
  }

  function FirstChar(b: bytes): char
    requires Width(b) > 0
  {
    FirstPoint(b) as char
  }

  /** Rust's `String::from_utf8`. */
  function Decode(b: bytes): Option<string>
    decreases |b|
  {
    if b == [] then Some([])
    else if Width(b) == 0 then None
    else match Decode(b[Width(b)..])
      case None => None
      case Some(rest) => Some([FirstChar(b)] + rest)
  }

  lemma LastDigit(q: int, r: int)
    requires 0 <= r < 64
    ensures (q * 64 + r) / 64 == q && (q * 64 + r) % 64 == r
  {
  }

  lemma DigitByDigit(n: int)
    ensures n / 4096 == n / 64 / 64 && n / 262144 == n / 64 / 64 / 64
  {
  }

  lemma DigitsOfPoint(lead: int, x: int, y: int, z: int)
    requires 0 <= x < 64 && 0 <= y < 64 && 0 <= z < 64
    ensures var n := Point(lead, x, y, z);
      n / 262144 == lead && n / 4096 % 64 == x && n / 64 % 64 == y && n % 64 == z
  {
    var high := lead * 64 + x;
    var middle := high * 64 + y;
    DigitByDigit(Point(lead, x, y, z));
    assert Point(lead, x, y, z) == middle * 64 + z;
    LastDigit(lead, x);
    LastDigit(high, y);
    LastDigit(middle, z);
  }

  lemma PointOfDigits(n: int)
    ensures n == Point(n / 262144, n / 4096 % 64, n / 64 % 64, n % 64)
  {
    DigitByDigit(n);
  }

  /** The bits of a character's number, from the first byte on: the lead says how many bytes there are, and every
      other carries six bits. */
  lemma EncodeCharBits(c: char)
    ensures var b, n := EncodeChar(c), c as int;
      && (|b| == 1 <==> n < 0x80) && (|b| == 2 <==> 0x80 <= n < 0x800) && (|b| == 3 <==> 0x800 <= n < 0x10000)
      && (|b| == 1 ==> b[0] as int == n)
      && (|b| == 2 ==> (b[0] as int - 0xC0) * 64 + (b[1] as int - 0x80) == n)
      && (|b| == 3 ==> (b[0] as int - 0xE0) * 4096 + (b[1] as int - 0x80) * 64 + (b[2] as int - 0x80) == n)
      && (|b| == 4 ==> (b[0] as int - 0xF0) * 262144 + (b[1] as int - 0x80) * 4096 + (b[2] as int - 0x80) * 64
                       + (b[3] as int - 0x80) == n)
      && (forall i :: 1 <= i < |b| ==> 0x80 <= b[i] < 0xC0)
  {
    PointOfDigits(c as int);
  }

  lemma FirstOfOneOrTwo(c: char, rest: bytes)
    requires c as int < 0x800
    ensures Width(EncodeChar(c) + rest) == |EncodeChar(c)| && FirstPoint(EncodeChar(c) + rest) == c as int
  {
    PointOfDigits(c as int);
  }

  lemma FirstOfThree(c: char, rest: bytes)
    requires 0x800 <= c as int < 0x10000
    ensures Width(EncodeChar(c) + rest) == 3 == |EncodeChar(c)| && FirstPoint(EncodeChar(c) + rest) == c as int
  {
    PointOfDigits(c as int);
  }

  lemma FirstOfFour(c: char, rest: bytes)
    requires 0x10000 <= c as int
    ensures Width(EncodeChar(c) + rest) == 4 == |EncodeChar(c)| && FirstPoint(EncodeChar(c) + rest) == c as int
  {
    PointOfDigits(c as int);
  }

  lemma FirstOfEncoded(c: char, rest: bytes)
    ensures Width(EncodeChar(c) + rest) == |EncodeChar(c)|
    ensures FirstChar(EncodeChar(c) + rest) == c
  {
    if c as int < 0x800 {
      FirstOfOneOrTwo(c, rest);
    } else if c as int < 0x10000 {
      FirstOfThree(c, rest);
    } else {
      FirstOfFour(c, rest);
    }
  }

  lemma EncodedOneOrTwo(b: bytes)
    requires 1 <= Width(b) <= 2
    ensures EncodeChar(FirstChar(b)) == b[..Width(b)]
  {
    if Width(b) == 2 {
      DigitsOfPoint(0, 0, b[0] as int - 0xC0, b[1] as int - 0x80);
    }
  }

  lemma EncodedThree(b: bytes)
    requires Width(b) == 3
    ensures EncodeChar(FirstChar(b)) == b[..3]
  {
    DigitsOfPoint(0, b[0] as int - 0xE0, b[1] as int - 0x80, b[2] as int - 0x80);
  }

  lemma EncodedFour(b: bytes)
    requires Width(b) == 4
    ensures EncodeChar(FirstChar(b)) == b[..4]
  {
    DigitsOfPoint(b[0] as int - 0xF0, b[1] as int - 0x80, b[2] as int - 0x80, b[3] as int - 0x80);
  }

  lemma EncodedFirst(b: bytes)
    requires Width(b) > 0
    ensures EncodeChar(FirstChar(b)) == b[..Width(b)]
  {
    if Width(b) <= 2 {
      EncodedOneOrTwo(b);
    } else if Width(b) == 3 {
      EncodedThree(b);
    } else {
      EncodedFour(b);
    }
  }

  lemma {:induction false} DecodeOfEncode(s: string)
    ensures Decode(Encode(s)) == Some(s)
  {
    if s != [] {
      var first, rest := EncodeChar(s[0]), Encode(s[1..]);
      FirstOfEncoded(s[0], rest);
      assert (first + rest)[|first|..] == rest;
      DecodeOfEncode(s[1..]);
      assert s == [s[0]] + s[1..];
    }
  }

  /** A byte string decodes exactly when it is the encoding of some text, and to that text. */
  lemma {:induction false} DecodeIffEncoding(b: bytes, s: string)
    ensures Decode(b) == Some(s) <==> Encode(s) == b
    decreases |b|
  {
    DecodeOfEncode(s);
    if b != [] && Decode(b) == Some(s) {
      EncodedFirst(b);
      DecodeIffEncoding(b[Width(b)..], s[1..]);
      assert b == b[..Width(b)] + b[Width(b)..];
    }
  }
}
